/**
 * `regularize_triangle` and `regularize_quad` (hermes2d/src/mesh/mesh.cpp):
 * the last step of `regularize` for a level below 1.  Once no edge carries
 * more than one hanging node, every active element is looked at once, with
 * `eo` the hanging degrees of its edges: an element with a hanging node on
 * every edge is refined as usual, and one with hanging nodes on some edges
 * only is cut into triangles that take those nodes as corners (a
 * "transitional" split), so that no son edge along its outline hangs.
 *
 * What the source does with `eo` is the pure `Move` of `TriangleMove` and
 * `QuadMove`; the methods carry the moves out.  Where the source would go on
 * with a null midpoint or son, the move is `Missing` and the model reports
 * `MissingMidpoint` before it changes anything.
 */
module Transitions {
  import opened MeshData
  import opened MeshModel
  import opened SplitFlags
  import opened MeshRefine
  import opened RefineApi
  import opened EdgeDegrees
  import opened ParentMap

  /** What `regularize_triangle` or `regularize_quad` does with an element. */
  datatype Move =
    | Keep                    // nothing changes
    | RefineWith(kind: int)   // `refine_element_id` with this kind
    | TriangleInTwo(k: nat)   // one hanging node, on edge k: two triangles
    | TriangleInThree(k: nat) // hanging nodes on the two edges after edge k: three triangles
    | QuadInThree(k: nat)     // one hanging node, on edge k: three triangles
    | QuadInFour(k: nat)      // hanging nodes on edges k and k + 1: four triangles
    | Nest(kind: int)         // split by `kind`, then each of the two new halves in turn
    | Missing                 // the source would reach a null midpoint or son
  {
    /** The move is one of the transitional splits. */
    predicate IsCut() { TriangleInTwo? || TriangleInThree? || QuadInThree? || QuadInFour? }
  }

  /** The last index below `i` where `eo` holds `v`, or 0 when there is none. */
  function LastBelow(eo: seq<nat>, v: nat, i: int): (k: nat)
    requires 0 <= i <= |eo|
    ensures k < i || k == 0
    ensures (exists j :: 0 <= j < i && eo[j] == v) ==> eo[k] == v && forall j :: k < j < i ==> eo[j] != v
    ensures (forall j :: 0 <= j < i ==> eo[j] != v) ==> k == 0
    decreases i
  {
    if i == 0 then 0 else if eo[i - 1] == v then i - 1 else LastBelow(eo, v, i - 1)
  }

  /** Edges `i` and `i + 1` of a quad both carry exactly one hanging node. */
  predicate OnePair(eo: seq<nat>, i: int)
    requires |eo| == 4 && 0 <= i < 4
  {
    eo[i] == 1 && eo[(i + 1) % 4] == 1
  }

  /** The last `i` below `i0` where `OnePair(eo, i)`, or 0 when there is none. */
  function LastPairBelow(eo: seq<nat>, i0: int): (k: nat)
    requires |eo| == 4 && 0 <= i0 <= 4
    ensures k < i0 || k == 0
    ensures (exists j :: 0 <= j < i0 && OnePair(eo, j)) ==> OnePair(eo, k) && forall j :: k < j < i0 ==> !OnePair(eo, j)
    ensures (forall j :: 0 <= j < i0 ==> !OnePair(eo, j)) ==> k == 0
    decreases i0
  {
    if i0 == 0 then 0 else if OnePair(eo, i0 - 1) then i0 - 1 else LastPairBelow(eo, i0 - 1)
  }

  /** The loop `for (i = 0; i < n; i++) if (eo[i] == v) k = i;`, `k` starting at 0. */
  method FindLast(eo: seq<nat>, v: nat) returns (k: nat)
    ensures k == LastBelow(eo, v, |eo|)
  {
    k := 0;
    for i := 0 to |eo|
      invariant k == LastBelow(eo, v, i)
    {
      if eo[i] == v {
        k := i;
      }
    }
  }

  /** The loop of `regularize_quad` that picks two adjacent edges with one hanging node each. */
  method FindAdjacentPair(el: Element, eo: seq<nat>) returns (k: nat)
    requires |eo| == 4 && |el.vn| == 4
    ensures k == LastPairBelow(eo, 4)
  {
    k := 0;
    for i := 0 to 4
      invariant k == LastPairBelow(eo, i)
    {
      if eo[i] == 1 && eo[el.NextVert(i)] == 1 {
        k := i;
      }
    }
  }

  /** `regularize_triangle` on the degrees `eo` of a triangle's edges. */
  function TriangleMove(eo: seq<nat>): Move
    requires |eo| == 3
  {
    var sum := eo[0] + eo[1] + eo[2];
    if sum == 3 then RefineWith(0)
    else if sum == 1 then TriangleInTwo(LastBelow(eo, 1, 3))
    else if sum == 2 then
      var k := LastBelow(eo, 0, 3);
      if eo[(k + 1) % 3] >= 1 && eo[(k + 2) % 3] >= 1 then TriangleInThree(k) else Missing
    else Keep
  }

  /** `regularize_quad` on the degrees `eo` of a quad's edges. */
  function QuadMove(eo: seq<nat>): Move
    requires |eo| == 4
  {
    var sum := eo[0] + eo[1] + eo[2] + eo[3];
    if sum == 4 then RefineWith(0)
    else if sum == 0 then Keep
    else if sum == 1 then QuadInThree(LastBelow(eo, 1, 4))
    else if sum == 2 then
      if eo[0] == 1 && eo[2] == 1 then RefineWith(2)
      else if eo[1] == 1 && eo[3] == 1 then RefineWith(1)
      else
        var k := LastPairBelow(eo, 4);
        if eo[k] >= 1 && eo[(k + 1) % 4] >= 1 then QuadInFour(k) else Missing
    else if eo[0] == 1 && eo[2] == 1 then Nest(2)
    else if eo[1] == 1 && eo[3] == 1 then Nest(1)
    else Missing
  }

  /** The move of an element of either shape. */
  function ElementMove(eo: seq<nat>): Move
    requires |eo| == 3 || |eo| == 4
  {
    if |eo| == 3 then TriangleMove(eo) else QuadMove(eo)
  }

  /** `mv` is a transitional split of an element of the shape of `el`. */
  predicate CutFits(el: Element, mv: Move)
  {
    match mv
    case TriangleInTwo(k) => |el.vn| == 3 && k < 3
    case TriangleInThree(k) => |el.vn| == 3 && k < 3
    case QuadInThree(k) => |el.vn| == 4 && k < 4
    case QuadInFour(k) => |el.vn| == 4 && k < 4
    case _ => false
  }

  /** The edges of `el` whose midpoints the transitional split `mv` takes as corners. */
  function CutEdges(el: Element, mv: Move): (es: seq<nat>)
    requires CutFits(el, mv)
    ensures forall i :: 0 <= i < |es| ==> es[i] < |el.vn|
  {
    match mv
    case TriangleInTwo(k) => [k]
    case TriangleInThree(k) => [el.NextVert(k), el.PrevVert(k)]
    case QuadInThree(k) => [k]
    case QuadInFour(k) => [k, el.NextVert(k)]
  }

  /** The midpoints split `mv` of `el` reads are registered in the vertex table `t`. */
  predicate MidsIn(t: map<Key, int>, el: Element, mv: Move)
    requires CutFits(el, mv)
  {
    forall i :: 0 <= i < |CutEdges(el, mv)| ==>
      KeyOf(el.vn[CutEdges(el, mv)[i]], el.vn[el.NextVert(CutEdges(el, mv)[i])]) in t
  }

  /**
   * The corner lists of the sons of the transitional split `mv` of `el`,
   * in creation order, the midpoints read from the vertex table `t`.
   */
  function CutLayouts(t: map<Key, int>, el: Element, mv: Move): (ls: seq<seq<int>>)
    requires CutFits(el, mv)
    ensures 2 <= |ls| <= 4 && forall j :: 0 <= j < |ls| ==> |ls[j]| == 3
  {
    var vn, k := el.vn, mv.k;
    var k1 := el.NextVert(k);
    match mv
    case TriangleInTwo(_) =>
      var k2 := el.PrevVert(k);
      var x := Peek(t, vn[k], vn[k1]);
      [[vn[k], x, vn[k2]], [x, vn[k1], vn[k2]]]
    case TriangleInThree(_) =>
      var k2 := el.PrevVert(k);
      var x4, x5 := Peek(t, vn[k1], vn[k2]), Peek(t, vn[k2], vn[k]);
      [[vn[k], vn[k1], x4], [x4, x5, vn[k]], [x4, vn[k2], x5]]
    case QuadInThree(_) =>
      var k2, k3 := el.NextVert(k1), el.PrevVert(k);
      var x4 := Peek(t, vn[k], vn[k1]);
      [[vn[k], x4, vn[k3]], [x4, vn[k1], vn[k2]], [x4, vn[k2], vn[k3]]]
    case QuadInFour(_) =>
      var k2, k3 := el.NextVert(k1), el.PrevVert(k);
      var x4, x5 := Peek(t, vn[k], vn[k1]), Peek(t, vn[k1], vn[k2]);
      [[vn[k1], x5, x4], [x5, vn[k2], vn[k3]], [x4, x5, vn[k3]], [x4, vn[k3], vn[k]]]
  }

  /**
   * The boundary writes of split `mv`: every son edge lying on a parent edge
   * without a hanging node takes that edge's flag and marker.
   */
  function CutHandDowns(el: Element, mv: Move): (hs: seq<HandDown>)
    requires CutFits(el, mv)
  {
    var k := mv.k;
    var k1 := el.NextVert(k);
    match mv
    case TriangleInTwo(_) => [EdgeDown(0, 2, el.PrevVert(k)), EdgeDown(1, 1, k1)]
    case TriangleInThree(_) => [EdgeDown(0, 0, k)]
    case QuadInThree(_) => [EdgeDown(0, 2, el.PrevVert(k)), EdgeDown(1, 1, k1), EdgeDown(2, 1, el.NextVert(k1))]
    case QuadInFour(_) => [EdgeDown(1, 1, el.NextVert(k1)), EdgeDown(3, 1, el.PrevVert(k))]
  }

  /** The son slots of a transitional split into `k` sons numbered from `n`: the sons, then null. */
  function CutSlots(n: int, k: int): (slots: seq<int>)
    requires 2 <= k <= 4
    ensures |slots| == 4
    ensures forall s :: s in slots ==> s == Null || n <= s < n + k
    ensures forall s :: n <= s < n + k ==> s in slots
  {
    if k == 2 then [n, n + 1, Null, Null]
    else if k == 3 then [n, n + 1, n + 2, Null]
    else [n, n + 1, n + 2, n + 3]
  }

  /**
   * `els` is `els0` after the transitional split `mv` of element `e`, the
   * midpoints read from `t`: `e` inactive with the sons in its first slots,
   * the sons appended in order on the corner lists of `CutLayouts`.
   */
  ghost predicate CutDone(els0: seq<Element>, els: seq<Element>, e: int, t: map<Key, int>, mv: Move)
    requires 0 <= e < |els0| && CutFits(els0[e], mv)
  {
    var ls, n := CutLayouts(t, els0[e], mv), |els0|;
    |els| == n + |ls| && Replaced(els0, els, e, n, CutSlots(n, |ls|)) && Adopted(els, n, e, els0[e].marker, ls)
  }

  /**
   * A transitional split (the `sum == 1` and `sum == 2` branches of
   * `regularize_triangle` and `regularize_quad`): the midpoints are looked
   * up, the live element `e` is retired with `nactive` moved by the number
   * of sons less one, the triangles of `CutLayouts` are created, the parent
   * edges without hanging nodes hand their flags down, and `e` takes the
   * sons in its first slots (the model also makes them record `e` as their
   * parent).  Under a sound parent the hand-down rows all hold, and
   * creating a son can only fail on a shared coordinate.
   */
  method Cut(m: Mesh, e: int, mv: Move) returns (r: Outcome)
    requires m.Valid() && 0 <= e < |m.elements| && Live(m.elements[e])
    requires CutFits(m.elements[e], mv) && MidsIn(m.vertexTable, m.elements[e], mv)
    modifies m
    ensures m.Valid() && |m.elements| >= old(|m.elements|) && m.Stamps() == old(m.Stamps())
    ensures r.Fail? && old(Sound(m.elements[e].vn, m.nodes)) ==> r.error == SharedX || r.error == SharedY
    ensures r.Pass? ==> CutDone(old(m.elements), m.elements, e, old(m.vertexTable), mv)
    ensures r.Pass? ==> m.nactive == old(m.nactive) + |CutLayouts(old(m.vertexTable), old(m.elements[e]), mv)| - 1
    ensures r.Pass? ==> old(m.Counted()) ==> m.Counted()
    ensures r.Pass? && old(Sound(m.elements[e].vn, m.nodes)) ==>
      Kept(old(m.nodes), m.nodes, old(m.elements[e].en), m.elements[old(|m.elements|)..], CutHandDowns(old(m.elements[e]), mv))
  {
    var p := m.elements[e];
    assert ElementOk(m.nodes, m.elements, e);
    var layouts := CutLayouts(m.vertexTable, p, mv);
    CutCorners(m.nodes, m.vertexTable, p, mv);
    var flags := ParentFlags(m.nodes, p.en);
    ghost var nodes0, count0 := m.nodes, ActiveCount(m.elements);
    RetireParent(m, e, |layouts| - 1);
    assert ActiveCount(m.elements) == count0 - 1;
    r := CutSons(m, e, p, mv, layouts, flags.0, flags.1, nodes0, old(m.vertexTable));
    if r.Pass? {
      ReplacedAfterRetire(old(m.elements), m.elements, e, old(|m.elements|), CutSlots(old(|m.elements|), |layouts|));
    }
  }

  /** The sons of split `mv` of `p` (element `e`, already retired) created, the flags handed down, the sons adopted. */
  method CutSons(m: Mesh, e: int, p: Element, mv: Move, layouts: seq<seq<int>>, bnd: seq<bool>, mrk: seq<int>,
                 ghost nodes0: seq<Node>, ghost t: map<Key, int>) returns (r: Outcome)
    requires m.Valid() && 0 <= e < |m.elements| && m.elements[e] == p.(active := false)
    requires CutFits(p, mv) && |p.en| == |p.vn|
    requires ReadFrom(nodes0, p.en, bnd, mrk) && Reshaped(nodes0, m.nodes)
    requires OnVertices(nodes0, layouts) && (Sound(p.vn, nodes0) ==> AllCornersApart(layouts))
    requires layouts == CutLayouts(t, p, mv)
    modifies m
    ensures m.Valid() && |m.elements| >= old(|m.elements|)
    ensures r.Fail? && Sound(p.vn, nodes0) ==> r.error == SharedX || r.error == SharedY
    ensures r.Pass? ==> var n := old(|m.elements|);
      |m.elements| == n + |layouts| && Replaced(old(m.elements), m.elements, e, n, CutSlots(n, |layouts|))
      && Adopted(m.elements, n, e, p.marker, layouts)
    ensures m.Stamps() == old(m.Stamps())
    ensures r.Pass? ==> m.nactive == old(m.nactive) && ActiveCount(m.elements) == ActiveCount(old(m.elements)) + |layouts|
    ensures r.Pass? && Sound(p.vn, nodes0) ==> Kept(nodes0, m.nodes, p.en, m.elements[old(|m.elements|)..], CutHandDowns(p, mv))
  {
    OnVerticesReshaped(nodes0, m.nodes, layouts);
    var n := |m.elements|;
    r := CreateSons(m, p.marker, layouts);
    if r.Fail? {
      return;
    }
    ghost var els1 := m.elements;
    AdoptCut(m, e, p, mv, layouts, bnd, mrk, nodes0, t, n);
    ReplacedFrom(old(m.elements), els1, m.elements, e, n, CutSlots(n, |layouts|));
  }

  /** The second half of `CutSons`: the sons `n..` exist; the flags are handed down and `e` adopts them. */
  method AdoptCut(m: Mesh, e: int, p: Element, mv: Move, layouts: seq<seq<int>>, bnd: seq<bool>, mrk: seq<int>,
                  ghost nodes0: seq<Node>, ghost t: map<Key, int>, n: int)
    requires m.Valid() && 0 <= e < n && |m.elements| == n + |layouts| && m.elements[e] == p.(active := false)
    requires CutFits(p, mv) && |p.en| == |p.vn| && layouts == CutLayouts(t, p, mv)
    requires ReadFrom(nodes0, p.en, bnd, mrk) && Reshaped(nodes0, m.nodes)
    requires Sound(p.vn, nodes0) ==> AllCornersApart(layouts)
    requires SonsAt(m.elements, n, p.marker, layouts)
    modifies m
    ensures m.Valid() && |m.elements| == n + |layouts|
    ensures Replaced(old(m.elements), m.elements, e, n, CutSlots(n, |layouts|)) && Adopted(m.elements, n, e, p.marker, layouts)
    ensures m.Stamps() == old(m.Stamps()) && m.nactive == old(m.nactive)
    ensures ActiveCount(m.elements) == ActiveCount(old(m.elements))
    ensures Sound(p.vn, nodes0) ==> Kept(nodes0, m.nodes, p.en, m.elements[n..], CutHandDowns(p, mv))
  {
    CutSonsFit(nodes0, m.nodes, m.elements, n, t, p, mv, layouts);
    HandDownAndAdopt(m, e, nodes0, p.en, n, |layouts|, 0, CutSlots(n, |layouts|), CutHandDowns(p, mv), bnd, mrk,
                     Sound(p.vn, nodes0), p.marker, layouts);
  }

  /**
   * The corners of the sons of a split of a well-formed element are vertex
   * nodes, and under a sound parent no son has two equal corners.
   */
  lemma CutCorners(nodes: seq<Node>, t: map<Key, int>, p: Element, mv: Move)
    requires TableInv(t, nodes, VertexNode) && EndsOlder(nodes)
    requires (|p.vn| == 3 || |p.vn| == 4) && forall v :: v in p.vn ==> VertexId(nodes, v)
    requires CutFits(p, mv) && MidsIn(t, p, mv)
    ensures OnVertices(nodes, CutLayouts(t, p, mv))
    ensures Sound(p.vn, nodes) ==> AllCornersApart(CutLayouts(t, p, mv))
  {
    var vn, k := p.vn, mv.k;
    assert vn[0] in vn && vn[1] in vn && vn[2] in vn;
    if |vn| == 3 {
      var a, b, c := vn[k], vn[p.NextVert(k)], vn[p.PrevVert(k)];
      if Sound(vn, nodes) {
        SoundFrom3(nodes, p, k);
      }
      if mv.TriangleInTwo? {
        CornersInTwo(nodes, t, p, a, b, c, k);
      } else {
        CornersInThree(nodes, t, p, a, b, c, k);
      }
    } else {
      assert vn[3] in vn;
      var k1 := p.NextVert(k);
      var a, b, c, d := vn[k], vn[k1], vn[p.NextVert(k1)], vn[p.PrevVert(k)];
      if Sound(vn, nodes) {
        SoundFrom4(nodes, p, k);
      }
      if mv.QuadInThree? {
        CornersQuadThree(nodes, t, p, a, b, c, d, k);
      } else {
        CornersQuadFour(nodes, t, p, a, b, c, d, k);
      }
    }
  }

  /** `CutCorners` for a triangle (a, b, c), read from corner k, cut in two. */
  lemma CornersInTwo(nodes: seq<Node>, t: map<Key, int>, p: Element, a: int, b: int, c: int, k: nat)
    requires TableInv(t, nodes, VertexNode) && EndsOlder(nodes) && VertexId(nodes, a) && VertexId(nodes, b) && VertexId(nodes, c)
    requires |p.vn| == 3 && k < 3 && a == p.vn[k] && b == p.vn[p.NextVert(k)] && c == p.vn[p.PrevVert(k)]
    requires MidsIn(t, p, TriangleInTwo(k))
    ensures OnVertices(nodes, CutLayouts(t, p, TriangleInTwo(k)))
    ensures SoundTriangle(nodes, a, b, c) ==> AllCornersApart(CutLayouts(t, p, TriangleInTwo(k)))
  {
    var es := CutEdges(p, TriangleInTwo(k));
    assert es[0] == k && KeyOf(p.vn[es[0]], p.vn[p.NextVert(es[0])]) in t;
    PeekIsMid(t, nodes, VertexNode, a, b);
    var x := t[KeyOf(a, b)];
    assert CutLayouts(t, p, TriangleInTwo(k)) == [[a, x, c], [x, b, c]];
    if SoundTriangle(nodes, a, b, c) {
      TwoApart(nodes, a, b, c, x);
    }
  }

  /** `CutCorners` for a triangle (a, b, c), read from corner k, cut in three. */
  lemma CornersInThree(nodes: seq<Node>, t: map<Key, int>, p: Element, a: int, b: int, c: int, k: nat)
    requires TableInv(t, nodes, VertexNode) && EndsOlder(nodes) && VertexId(nodes, a) && VertexId(nodes, b) && VertexId(nodes, c)
    requires |p.vn| == 3 && k < 3 && a == p.vn[k] && b == p.vn[p.NextVert(k)] && c == p.vn[p.PrevVert(k)]
    requires MidsIn(t, p, TriangleInThree(k))
    ensures OnVertices(nodes, CutLayouts(t, p, TriangleInThree(k)))
    ensures SoundTriangle(nodes, a, b, c) ==> AllCornersApart(CutLayouts(t, p, TriangleInThree(k)))
  {
    var es := CutEdges(p, TriangleInThree(k));
    assert p.NextVert(p.NextVert(k)) == p.PrevVert(k) && p.NextVert(p.PrevVert(k)) == k;
    assert es[0] == p.NextVert(k) && KeyOf(p.vn[es[0]], p.vn[p.NextVert(es[0])]) in t;
    assert es[1] == p.PrevVert(k) && KeyOf(p.vn[es[1]], p.vn[p.NextVert(es[1])]) in t;
    PeekIsMid(t, nodes, VertexNode, b, c);
    PeekIsMid(t, nodes, VertexNode, c, a);
    var x4, x5 := t[KeyOf(b, c)], t[KeyOf(c, a)];
    assert CutLayouts(t, p, TriangleInThree(k)) == [[a, b, x4], [x4, x5, a], [x4, c, x5]];
    if SoundTriangle(nodes, a, b, c) {
      ThreeApart(nodes, a, b, c, x4, x5);
    }
  }

  /** `CutCorners` for a quad (a, b, c, d), read from corner k, cut in three. */
  lemma CornersQuadThree(nodes: seq<Node>, t: map<Key, int>, p: Element, a: int, b: int, c: int, d: int, k: nat)
    requires TableInv(t, nodes, VertexNode) && EndsOlder(nodes)
    requires VertexId(nodes, a) && VertexId(nodes, b) && VertexId(nodes, c) && VertexId(nodes, d)
    requires |p.vn| == 4 && k < 4 && a == p.vn[k] && b == p.vn[p.NextVert(k)]
    requires c == p.vn[p.NextVert(p.NextVert(k))] && d == p.vn[p.PrevVert(k)]
    requires MidsIn(t, p, QuadInThree(k))
    ensures OnVertices(nodes, CutLayouts(t, p, QuadInThree(k)))
    ensures SoundQuad(nodes, a, b, c, d) ==> AllCornersApart(CutLayouts(t, p, QuadInThree(k)))
  {
    var es := CutEdges(p, QuadInThree(k));
    assert es[0] == k && KeyOf(p.vn[es[0]], p.vn[p.NextVert(es[0])]) in t;
    PeekIsMid(t, nodes, VertexNode, a, b);
    var x4 := t[KeyOf(a, b)];
    assert CutLayouts(t, p, QuadInThree(k)) == [[a, x4, d], [x4, b, c], [x4, c, d]];
    if SoundQuad(nodes, a, b, c, d) {
      QuadThreeApart(nodes, a, b, c, d, x4);
    }
  }

  /** `CutCorners` for a quad (a, b, c, d), read from corner k, cut in four. */
  lemma CornersQuadFour(nodes: seq<Node>, t: map<Key, int>, p: Element, a: int, b: int, c: int, d: int, k: nat)
    requires TableInv(t, nodes, VertexNode) && EndsOlder(nodes)
    requires VertexId(nodes, a) && VertexId(nodes, b) && VertexId(nodes, c) && VertexId(nodes, d)
    requires |p.vn| == 4 && k < 4 && a == p.vn[k] && b == p.vn[p.NextVert(k)]
    requires c == p.vn[p.NextVert(p.NextVert(k))] && d == p.vn[p.PrevVert(k)]
    requires MidsIn(t, p, QuadInFour(k))
    ensures OnVertices(nodes, CutLayouts(t, p, QuadInFour(k)))
    ensures SoundQuad(nodes, a, b, c, d) ==> AllCornersApart(CutLayouts(t, p, QuadInFour(k)))
  {
    var es := CutEdges(p, QuadInFour(k));
    assert es[0] == k && KeyOf(p.vn[es[0]], p.vn[p.NextVert(es[0])]) in t;
    assert es[1] == p.NextVert(k) && KeyOf(p.vn[es[1]], p.vn[p.NextVert(es[1])]) in t;
    PeekIsMid(t, nodes, VertexNode, a, b);
    PeekIsMid(t, nodes, VertexNode, b, c);
    var x4, x5 := t[KeyOf(a, b)], t[KeyOf(b, c)];
    assert CutLayouts(t, p, QuadInFour(k)) == [[b, x5, x4], [x5, c, d], [x4, x5, d], [x4, d, a]];
    if SoundQuad(nodes, a, b, c, d) {
      QuadFourApart(nodes, a, b, c, d, x4, x5);
    }
  }

  /** The corners of a sound triangle, read from corner `k` on, are a sound triangle. */
  lemma SoundFrom3(nodes: seq<Node>, p: Element, k: int)
    requires |p.vn| == 3 && 0 <= k < 3 && Sound(p.vn, nodes)
    ensures SoundTriangle(nodes, p.vn[k], p.vn[p.NextVert(k)], p.vn[p.PrevVert(k)])
  {
    assert k == 0 || k == 1 || k == 2;
  }

  /** The corners of a sound quad, read from corner `k` on, are a sound quad. */
  lemma SoundFrom4(nodes: seq<Node>, p: Element, k: int)
    requires |p.vn| == 4 && 0 <= k < 4 && Sound(p.vn, nodes)
    ensures SoundQuad(nodes, p.vn[k], p.vn[p.NextVert(k)], p.vn[p.NextVert(p.NextVert(k))], p.vn[p.PrevVert(k)])
  {
    assert k == 0 || k == 1 || k == 2 || k == 3;
  }

  /** The two sons of a sound triangle (a, b, c) cut at the midpoint x of (a, b) have distinct corners. */
  lemma TwoApart(nodes: seq<Node>, a: int, b: int, c: int, x: int)
    requires EndsOlder(nodes) && SoundTriangle(nodes, a, b, c) && MidOf(nodes, x, a, b)
    ensures AllCornersApart([[a, x, c], [x, b, c]])
  {
    MidIsYounger(nodes, x, a, b);
  }

  /** The three sons of a sound triangle (a, b, c) cut at the midpoints of (b, c) and (c, a) have distinct corners. */
  lemma ThreeApart(nodes: seq<Node>, a: int, b: int, c: int, x4: int, x5: int)
    requires EndsOlder(nodes) && SoundTriangle(nodes, a, b, c) && MidOf(nodes, x4, b, c) && MidOf(nodes, x5, c, a)
    ensures AllCornersApart([[a, b, x4], [x4, x5, a], [x4, c, x5]])
  {
    MidIsYounger(nodes, x4, b, c);
    MidIsYounger(nodes, x5, c, a);
  }

  /** The three triangles of a sound quad (a, b, c, d) cut at the midpoint of (a, b) have distinct corners. */
  lemma QuadThreeApart(nodes: seq<Node>, a: int, b: int, c: int, d: int, x4: int)
    requires EndsOlder(nodes) && SoundQuad(nodes, a, b, c, d) && MidOf(nodes, x4, a, b)
    ensures AllCornersApart([[a, x4, d], [x4, b, c], [x4, c, d]])
  {
    MidIsYounger(nodes, x4, a, b);
  }

  /** The four triangles of a sound quad (a, b, c, d) cut at the midpoints of (a, b) and (b, c) have distinct corners. */
  lemma QuadFourApart(nodes: seq<Node>, a: int, b: int, c: int, d: int, x4: int, x5: int)
    requires EndsOlder(nodes) && SoundQuad(nodes, a, b, c, d) && MidOf(nodes, x4, a, b) && MidOf(nodes, x5, b, c)
    ensures AllCornersApart([[b, x5, x4], [x5, c, d], [x4, x5, d], [x4, d, a]])
  {
    MidIsYounger(nodes, x4, a, b);
    MidIsYounger(nodes, x5, b, c);
  }

  /** The keys of the son edges the edge rows `hs` write, in table order. */
  ghost function RowKeys(ls: seq<seq<int>>, hs: seq<HandDown>): (ks: seq<Key>)
    requires EdgeRows(ls, hs)
    ensures |ks| == |hs|
  {
    seq(|hs|, i requires 0 <= i < |hs| => EdgeKey(ls[hs[i].son], hs[i].edge))
  }

  /** Edge rows whose son edges join different pairs of corners write different nodes. */
  lemma EdgeRowsApart(nodes: seq<Node>, sons: seq<Element>, ls: seq<seq<int>>, hs: seq<HandDown>)
    requires |sons| == |ls| && forall j :: 0 <= j < |sons| ==> Shaped(nodes, sons[j]) && sons[j].vn == ls[j]
    requires EdgeRows(ls, hs) && KeysApart(RowKeys(ls, hs))
    ensures forall i :: 0 <= i < |hs| ==> Reaches(sons, hs[i])
    ensures Distinct(Targets(sons, hs))
  {
    var ks := RowKeys(ls, hs);
    forall i | 0 <= i < |hs| ensures Reaches(sons, hs[i]) {
      assert Shaped(nodes, sons[hs[i].son]);
    }
    var zs := Targets(sons, hs);
    forall i | 0 <= i < |hs| ensures 0 <= zs[i] < |nodes| && Ends(nodes, zs[i]) == ks[i] {
      var h := hs[i];
      assert Shaped(nodes, sons[h.son]) && EdgeOf(nodes, sons[h.son], h.edge);
    }
    ApartByEnds(nodes, zs, ks);
  }

  /** The rows of split `mv` are edge rows on son edges of `ls`. */
  predicate EdgeRows(ls: seq<seq<int>>, hs: seq<HandDown>)
  {
    forall i :: 0 <= i < |hs| ==> hs[i].EdgeDown? && hs[i].son < |ls| && hs[i].edge < |ls[hs[i].son]|
  }

  /** With distinct corners, the son edges the rows of split `mv` write join different corner pairs. */
  lemma CutKeysApart(t: map<Key, int>, p: Element, mv: Move)
    requires CutFits(p, mv) && CornersApart(p.vn)
    ensures EdgeRows(CutLayouts(t, p, mv), CutHandDowns(p, mv))
    ensures KeysApart(RowKeys(CutLayouts(t, p, mv), CutHandDowns(p, mv)))
  {
    var vn, k := p.vn, mv.k;
    if |vn| == 3 {
      var a, b, c := vn[k], vn[p.NextVert(k)], vn[p.PrevVert(k)];
      assert a != b && b != c && c != a by {
        assert k == 0 || k == 1 || k == 2;
      }
      if mv.TriangleInTwo? {
        assert RowKeys(CutLayouts(t, p, mv), CutHandDowns(p, mv)) == [KeyOf(c, a), KeyOf(b, c)];
      }
    } else {
      var k1 := p.NextVert(k);
      var a, b, c, d := vn[k], vn[k1], vn[p.NextVert(k1)], vn[p.PrevVert(k)];
      assert a != b && a != c && a != d && b != c && b != d && c != d by {
        assert k == 0 || k == 1 || k == 2 || k == 3;
      }
      QuadKeysApart(t, p, mv, a, b, c, d);
    }
  }

  /** `CutKeysApart` for a quad (a, b, c, d), read from corner k. */
  lemma QuadKeysApart(t: map<Key, int>, p: Element, mv: Move, a: int, b: int, c: int, d: int)
    requires CutFits(p, mv) && |p.vn| == 4 && a == p.vn[mv.k] && b == p.vn[p.NextVert(mv.k)]
    requires c == p.vn[p.NextVert(p.NextVert(mv.k))] && d == p.vn[p.PrevVert(mv.k)]
    requires a != b && a != c && a != d && b != c && b != d && c != d
    ensures EdgeRows(CutLayouts(t, p, mv), CutHandDowns(p, mv))
    ensures KeysApart(RowKeys(CutLayouts(t, p, mv), CutHandDowns(p, mv)))
  {
    if mv.QuadInThree? {
      QuadThreeKeys(t, p, mv, a, b, c, d);
    } else {
      QuadFourKeys(t, p, mv, a, b, c, d);
    }
  }

  /** The rows of a quad cut in three write the son edges (d, a), (b, c) and (c, d). */
  lemma QuadThreeKeys(t: map<Key, int>, p: Element, mv: Move, a: int, b: int, c: int, d: int)
    requires mv.QuadInThree? && CutFits(p, mv) && a == p.vn[mv.k] && b == p.vn[p.NextVert(mv.k)]
    requires c == p.vn[p.NextVert(p.NextVert(mv.k))] && d == p.vn[p.PrevVert(mv.k)]
    requires a != b && a != c && a != d && b != c && b != d && c != d
    ensures EdgeRows(CutLayouts(t, p, mv), CutHandDowns(p, mv))
    ensures KeysApart(RowKeys(CutLayouts(t, p, mv), CutHandDowns(p, mv)))
  {
    var ls, hs := CutLayouts(t, p, mv), CutHandDowns(p, mv);
    var x := ls[0][1];
    assert ls == [[a, x, d], [x, b, c], [x, c, d]];
    assert RowKeys(ls, hs) == [KeyOf(d, a), KeyOf(b, c), KeyOf(c, d)];
  }

  /** The rows of a quad cut in four write the son edges (c, d) and (d, a). */
  lemma QuadFourKeys(t: map<Key, int>, p: Element, mv: Move, a: int, b: int, c: int, d: int)
    requires mv.QuadInFour? && CutFits(p, mv) && a == p.vn[mv.k] && b == p.vn[p.NextVert(mv.k)]
    requires c == p.vn[p.NextVert(p.NextVert(mv.k))] && d == p.vn[p.PrevVert(mv.k)]
    requires a != b && a != c && a != d && b != c && b != d && c != d
    ensures EdgeRows(CutLayouts(t, p, mv), CutHandDowns(p, mv))
    ensures KeysApart(RowKeys(CutLayouts(t, p, mv), CutHandDowns(p, mv)))
  {
    var ls, hs := CutLayouts(t, p, mv), CutHandDowns(p, mv);
    var x4, x5 := ls[0][2], ls[0][1];
    assert ls == [[b, x5, x4], [x5, c, d], [x4, x5, d], [x4, d, a]];
    assert RowKeys(ls, hs) == [KeyOf(c, d), KeyOf(d, a)];
  }

  /** The sons of split `mv` fit its hand-down rows, and under a sound parent the rows write distinct nodes. */
  lemma CutSonsFit(nodes0: seq<Node>, nodes: seq<Node>, els: seq<Element>, n: int, t: map<Key, int>, p: Element,
                   mv: Move, ls: seq<seq<int>>)
    requires Reshaped(nodes0, nodes) && CutFits(p, mv) && |p.en| == |p.vn| && ls == CutLayouts(t, p, mv)
    requires 0 <= n && |els| == n + |ls| && forall e :: 0 <= e < |els| ==> ElementOk(nodes, els, e)
    requires SonsAt(els, n, p.marker, ls)
    ensures AllFit(els[n..n + |ls|], |p.en|, CutHandDowns(p, mv))
    ensures Sound(p.vn, nodes0) ==> Distinct(Targets(els[n..n + |ls|], CutHandDowns(p, mv)))
  {
    var sons, hs := els[n..n + |ls|], CutHandDowns(p, mv);
    SonsShaped(nodes, els, n, |ls|, sons);
    forall j | 0 <= j < |sons| ensures sons[j].vn == ls[j] {
      assert Fresh(els, n + j, p.marker, ls[j]);
    }
    forall i | 0 <= i < |hs| ensures Reaches(sons, hs[i]) && hs[i].from < |p.en| {
      assert Shaped(nodes, sons[hs[i].son]);
    }
    if Sound(p.vn, nodes0) {
      CutKeysApart(t, p, mv);
      EdgeRowsApart(nodes, sons, ls, hs);
    }
  }

  /** The move `regularize_triangle` or `regularize_quad` makes for element `e` of `m`. */
  ghost function MoveAt(m: Mesh, e: int): Move
    reads m
    requires m.Valid() && 0 <= e < |m.elements|
  {
    assert ElementOk(m.nodes, m.elements, e);
    assert forall i :: 0 <= i < |m.elements[e].vn| ==> m.elements[e].vn[i] in m.elements[e].vn;
    ElementMove(Degrees(m.vertexTable, |m.nodes|, m.elements[e]))
  }

  /**
   * What move `mv` of element `e` left: `els0`, `log0`, `t0` and `nodes0`
   * are the elements, the refinement log, the vertex table and the nodes
   * before, `els`, `log` and `nodes` after, `r` the outcome.  `Keep` changes
   * nothing; `Missing` fails before any change; `RefineWith` logs and
   * refines `e` as `refine_element_id` does; a transitional split logs
   * nothing and leaves `CutDone`, its rows handed down when `e` was sound;
   * `Nest` leaves `e` with the sons of its split, which it goes on to
   * regularize.
   */
  ghost predicate Moved(r: Outcome, els0: seq<Element>, els: seq<Element>, log0: seq<(int, int)>, log: seq<(int, int)>,
                        t0: map<Key, int>, nodes0: seq<Node>, nodes: seq<Node>, e: int, mv: Move)
    requires 0 <= e < |els0|
  {
    match mv
    case Keep => r == Pass && els == els0 && log == log0
    case Missing => r == Fail(MissingMidpoint) && els == els0 && log == log0
    case RefineWith(kind) =>
      && 0 <= kind <= 2 && KindFits(els0[e], kind) && log == log0 + [(e, kind)]
      && (r.Pass? ==> var n := |els0|;
            |els| == n + SonCount(els0[e], kind) && Refined(els0, els, e, n, SonSlots(els0[e], kind, n)))
    case Nest(kind) =>
      && 0 <= kind <= 2 && KindFits(els0[e], kind)
      && (r.Pass? ==> |els| >= |els0| + 2 && els[e] == els0[e].(active := false, sons := SonSlots(els0[e], kind, |els0|)))
    case _ =>
      && CutFits(els0[e], mv) && log == log0
      && (r.Pass? ==> CutDone(els0, els, e, t0, mv))
      && (r.Pass? && Sound(els0[e].vn, nodes0) ==> Kept(nodes0, nodes, els0[e].en, els[|els0|..], CutHandDowns(els0[e], mv)))
  }

  /**
   * The moves fit the element they are made for: a refinement has a kind from 0
   * to 2 that `refine_element_id` accepts for it, a nested split halves a quad by kind
   * 1 or 2, and a transitional split finds every midpoint it reads in the
   * vertex table (an edge of degree at least 1 has one).
   */
  lemma {:induction false} MoveFits(t: map<Key, int>, n: int, el: Element)
    requires TableOk(t, n) && CornersIn(el, n) && (|el.vn| == 3 || |el.vn| == 4)
    ensures var mv := ElementMove(Degrees(t, n, el));
      && (mv.RefineWith? || mv.Nest? ==> 0 <= mv.kind <= 2 && KindFits(el, mv.kind))
      && (mv.Nest? ==> |el.vn| == 4 && (mv.kind == 1 || mv.kind == 2))
      && (mv.IsCut() ==> CutFits(el, mv) && MidsIn(t, el, mv))
  {
    var eo := Degrees(t, n, el);
    var mv := ElementMove(eo);
    if mv.IsCut() {
      var es := CutEdges(el, mv);
      forall i | 0 <= i < |es| ensures KeyOf(el.vn[es[i]], el.vn[el.NextVert(es[i])]) in t {
        assert eo[es[i]] >= 1 by {
          if |el.vn| == 3 {
            TriangleCutEdges(eo, mv, el);
          } else {
            QuadCutEdges(eo, mv, el);
          }
        }
      }
    }
  }

  /** The edges a triangle's transitional split reads carry hanging nodes. */
  lemma TriangleCutEdges(eo: seq<nat>, mv: Move, el: Element)
    requires |eo| == 3 && |el.vn| == 3 && mv == TriangleMove(eo) && mv.IsCut()
    ensures CutFits(el, mv) && forall i :: 0 <= i < |CutEdges(el, mv)| ==> eo[CutEdges(el, mv)[i]] >= 1
  {
    var k := mv.k;
    assert k == 0 || k == 1 || k == 2;
  }

  /** The edges a quad's transitional split reads carry hanging nodes. */
  lemma QuadCutEdges(eo: seq<nat>, mv: Move, el: Element)
    requires |eo| == 4 && |el.vn| == 4 && mv == QuadMove(eo) && mv.IsCut()
    ensures CutFits(el, mv) && forall i :: 0 <= i < |CutEdges(el, mv)| ==> eo[CutEdges(el, mv)[i]] >= 1
  {
    var k := mv.k;
    assert k == 0 || k == 1 || k == 2 || k == 3;
  }

  /**
   * Carrying out a move other than `Nest` on the live element `e`: a
   * refinement through `refine_element_id`, or a transitional split; after
   * either, the sons of `e` take its entry in `parents` (`assign_parent`),
   * and the stamp moves on by one per logged refinement.  `Keep` does
   * nothing, and `Missing` stops with `MissingMidpoint`.
   */
  method Carry(m: Mesh, e: int, mv: Move, parents: map<int, int>, ghost els0: seq<Element>, stamp: int)
    returns (r: Outcome, ps: map<int, int>, stamp': int)
    requires m.Valid() && 0 <= e < |m.elements| && Live(m.elements[e]) && Lineage(parents, els0, m.elements)
    requires !mv.Nest?
    requires mv.RefineWith? ==> 0 <= mv.kind <= 2 && KindFits(m.elements[e], mv.kind)
    requires mv.IsCut() ==> CutFits(m.elements[e], mv) && MidsIn(m.vertexTable, m.elements[e], mv)
    modifies m
    ensures m.Valid() && |m.elements| >= old(|m.elements|)
    ensures m.nbase == old(m.nbase) && m.ninitial == old(m.ninitial) && m.ntopvert == old(m.ntopvert)
    ensures old(m.refinements) <= m.refinements
    ensures forall j :: old(|m.refinements|) <= j < |m.refinements| ==> 0 <= m.refinements[j].1 <= 2
    ensures Moved(r, old(m.elements), m.elements, old(m.refinements), m.refinements, old(m.vertexTable), old(m.nodes), m.nodes, e, mv)
    ensures mv == Keep || mv == Missing ==> unchanged(m) && ps == parents && stamp' == stamp
    ensures r.Pass? ==> forall i :: 0 <= i < old(|m.elements|) && i != e ==> m.elements[i] == old(m.elements[i])
    ensures r.Pass? ==> Lineage(ps, els0, m.elements)
    ensures r.Pass? ==> stamp' == stamp + |m.refinements| - old(|m.refinements|)
    ensures r.Pass? ==> old(m.Counted()) ==> m.Counted()
  {
    r, ps, stamp' := Pass, parents, stamp;
    ghost var before := m.elements;
    if mv == Missing {
      r := Fail(MissingMidpoint);
    } else if mv.RefineWith? {
      r, ps, stamp' := CarryRefine(m, e, mv.kind, parents, els0, stamp);
    } else if mv != Keep {
      r, ps := CarryCut(m, e, mv, parents, els0);
    }
  }

  /** `refine_element_id(e, kind)` on the live element `e`, its sons then taking its entry in `parents`. */
  method CarryRefine(m: Mesh, e: int, kind: int, parents: map<int, int>, ghost els0: seq<Element>, stamp: int)
    returns (r: Outcome, ps: map<int, int>, stamp': int)
    requires m.Valid() && 0 <= e < |m.elements| && Live(m.elements[e]) && Lineage(parents, els0, m.elements)
    requires 0 <= kind <= 2 && KindFits(m.elements[e], kind)
    modifies m
    ensures m.Valid() && |m.elements| >= old(|m.elements|)
    ensures m.nbase == old(m.nbase) && m.ninitial == old(m.ninitial) && m.ntopvert == old(m.ntopvert)
    ensures m.refinements == old(m.refinements) + [(e, kind)]
    ensures r.Pass? ==> var n := old(|m.elements|);
      |m.elements| == n + SonCount(old(m.elements[e]), kind)
      && Refined(old(m.elements), m.elements, e, n, SonSlots(old(m.elements[e]), kind, n))
    ensures r.Pass? ==> Lineage(ps, els0, m.elements) && stamp' == stamp + 1
    ensures r.Pass? ==> old(m.Counted()) ==> m.Counted()
  {
    ghost var before := m.elements;
    r := RefineElementId(m, e, kind, stamp);
    ps, stamp' := parents, stamp;
    if r.Pass? {
      stamp' := stamp + 1;
      ps := AssignSons(m, parents, e);
      LineageRefined(parents, ps, els0, before, m.elements, e, SonSlots(before[e], kind, |before|));
    }
  }

  /** The transitional split `mv` of the live element `e`, its sons then taking its entry in `parents`. */
  method CarryCut(m: Mesh, e: int, mv: Move, parents: map<int, int>, ghost els0: seq<Element>)
    returns (r: Outcome, ps: map<int, int>)
    requires m.Valid() && 0 <= e < |m.elements| && Live(m.elements[e]) && Lineage(parents, els0, m.elements)
    requires CutFits(m.elements[e], mv) && MidsIn(m.vertexTable, m.elements[e], mv)
    modifies m
    ensures m.Valid() && |m.elements| >= old(|m.elements|) && m.Stamps() == old(m.Stamps())
    ensures r.Pass? ==> CutDone(old(m.elements), m.elements, e, old(m.vertexTable), mv)
    ensures r.Pass? && old(Sound(m.elements[e].vn, m.nodes)) ==>
      Kept(old(m.nodes), m.nodes, old(m.elements[e].en), m.elements[old(|m.elements|)..], CutHandDowns(old(m.elements[e]), mv))
    ensures r.Pass? ==> Lineage(ps, els0, m.elements)
    ensures r.Pass? ==> old(m.Counted()) ==> m.Counted()
  {
    ghost var before := m.elements;
    r := Cut(m, e, mv);
    ps := parents;
    if r.Pass? {
      ps := AssignSons(m, parents, e);
      var ls := CutLayouts(old(m.vertexTable), before[e], mv);
      LineageReplaced(parents, ps, els0, before, m.elements, e, CutSlots(|before|, |ls|));
    }
  }

  /**
   * `regularize_triangle` on the live triangle `e`: the degrees of its edges
   * pick the move, which is carried out as `Carry` says.
   */
  method RegularizeTriangle(m: Mesh, e: int, parents: map<int, int>, ghost els0: seq<Element>, stamp: int)
    returns (r: Outcome, ps: map<int, int>, stamp': int)
    requires m.Valid() && 0 <= e < |m.elements| && Live(m.elements[e]) && m.elements[e].IsTriangle()
    requires Lineage(parents, els0, m.elements)
    modifies m
    ensures m.Valid() && |m.elements| >= old(|m.elements|)
    ensures m.nbase == old(m.nbase) && m.ninitial == old(m.ninitial) && m.ntopvert == old(m.ntopvert)
    ensures old(m.refinements) <= m.refinements
    ensures forall j :: old(|m.refinements|) <= j < |m.refinements| ==> 0 <= m.refinements[j].1 <= 2
    ensures Moved(r, old(m.elements), m.elements, old(m.refinements), m.refinements, old(m.vertexTable), old(m.nodes), m.nodes, e,
                  old(MoveAt(m, e)))
    ensures old(MoveAt(m, e)) in {Keep, Missing} ==> unchanged(m) && ps == parents && stamp' == stamp
    ensures r.Pass? ==> forall i :: 0 <= i < old(|m.elements|) && i != e ==> m.elements[i] == old(m.elements[i])
    ensures r.Pass? ==> Lineage(ps, els0, m.elements)
    ensures r.Pass? ==> stamp' == stamp + |m.refinements| - old(|m.refinements|)
    ensures r.Pass? ==> old(m.Counted()) ==> m.Counted()
  {
    var el := m.elements[e];
    assert ElementOk(m.nodes, m.elements, e);
    assert forall i :: 0 <= i < |el.vn| ==> el.vn[i] in el.vn;
    var eo := Degrees(m.vertexTable, |m.nodes|, el);
    var mv := ReadTriangleMove(el, eo);
    assert mv == MoveAt(m, e);
    MoveFits(m.vertexTable, |m.nodes|, el);
    r, ps, stamp' := Carry(m, e, mv, parents, els0, stamp);
  }

  /** The branches of `regularize_triangle` on the degrees `eo` of triangle `el`, up to the move they make. */
  method ReadTriangleMove(el: Element, eo: seq<nat>) returns (mv: Move)
    requires |eo| == 3 && el.IsTriangle()
    ensures mv == TriangleMove(eo)
  {
    var sum := eo[0] + eo[1] + eo[2];
    mv := Keep;
    if sum == 3 {
      mv := RefineWith(0);
    } else if sum == 1 {
      var k := FindLast(eo, 1);
      mv := TriangleInTwo(k);
    } else if sum == 2 {
      var k := FindLast(eo, 0);
      mv := if eo[el.NextVert(k)] >= 1 && eo[el.PrevVert(k)] >= 1 then TriangleInThree(k) else Missing;
    }
  }

  /** The branches of `regularize_quad` on the degrees `eo` of quad `el`, up to the move they make. */
  method ReadQuadMove(el: Element, eo: seq<nat>) returns (mv: Move)
    requires |eo| == 4 && |el.vn| == 4
    ensures mv == QuadMove(eo)
  {
    var sum := eo[0] + eo[1] + eo[2] + eo[3];
    mv := Keep;
    if sum == 4 {
      mv := RefineWith(0);
    } else if sum == 1 {
      var k := FindLast(eo, 1);
      mv := QuadInThree(k);
    } else if sum == 2 {
      if eo[0] == 1 && eo[2] == 1 {
        mv := RefineWith(2);
      } else if eo[1] == 1 && eo[3] == 1 {
        mv := RefineWith(1);
      } else {
        var k := FindAdjacentPair(el, eo);
        mv := if eo[k] >= 1 && eo[el.NextVert(k)] >= 1 then QuadInFour(k) else Missing;
      }
    } else if sum > 0 {
      mv := if eo[0] == 1 && eo[2] == 1 then Nest(2) else if eo[1] == 1 && eo[3] == 1 then Nest(1) else Missing;
    }
  }

  /**
   * `regularize_quad` on the live quad `e`: the degrees of its edges pick
   * the move.  A nested move refines `e` by its kind, hands its entry in
   * `parents` down, then regularizes the two halves in turn (son slots 2
   * and 3 for kind 2, 0 and 1 for kind 1); `fuel` bounds the depth of that
   * nesting.  Every other move is carried out as `Carry` says.  (The
   * `assign_parent` loop the source runs once more after the nested calls
   * writes the entries the first one wrote.)
   */
  method RegularizeQuad(m: Mesh, e: int, parents: map<int, int>, ghost els0: seq<Element>, stamp: int, fuel: nat)
    returns (r: Outcome, ps: map<int, int>, stamp': int)
    requires m.Valid() && 0 <= e < |m.elements| && Live(m.elements[e]) && !m.elements[e].IsTriangle()
    requires Lineage(parents, els0, m.elements)
    modifies m
    decreases fuel, 1
    ensures m.Valid() && |m.elements| >= old(|m.elements|)
    ensures m.nbase == old(m.nbase) && m.ninitial == old(m.ninitial) && m.ntopvert == old(m.ntopvert)
    ensures old(m.refinements) <= m.refinements
    ensures forall j :: old(|m.refinements|) <= j < |m.refinements| ==> 0 <= m.refinements[j].1 <= 2
    ensures Moved(r, old(m.elements), m.elements, old(m.refinements), m.refinements, old(m.vertexTable), old(m.nodes), m.nodes, e,
                  old(MoveAt(m, e)))
    ensures old(MoveAt(m, e)) in {Keep, Missing} ==> unchanged(m) && ps == parents && stamp' == stamp
    ensures old(MoveAt(m, e)).Nest? && fuel == 0 ==> r == Fail(OutOfFuel) && unchanged(m)
    ensures old(MoveAt(m, e)).Nest? && fuel > 0 ==> old(m.refinements) + [(e, old(MoveAt(m, e)).kind)] <= m.refinements
    ensures r.Pass? ==> forall i :: 0 <= i < old(|m.elements|) && i != e ==> m.elements[i] == old(m.elements[i])
    ensures r.Pass? ==> Lineage(ps, els0, m.elements)
    ensures r.Pass? ==> stamp' == stamp + |m.refinements| - old(|m.refinements|)
    ensures r.Pass? ==> old(m.Counted()) ==> m.Counted()
  {
    var el := m.elements[e];
    assert ElementOk(m.nodes, m.elements, e);
    assert forall i :: 0 <= i < |el.vn| ==> el.vn[i] in el.vn;
    var eo := Degrees(m.vertexTable, |m.nodes|, el);
    var mv := ReadQuadMove(el, eo);
    assert mv == MoveAt(m, e);
    MoveFits(m.vertexTable, |m.nodes|, el);
    if !mv.Nest? {
      r, ps, stamp' := Carry(m, e, mv, parents, els0, stamp);
      return;
    }
    if fuel == 0 {
      return Fail(OutOfFuel), parents, stamp;
    }
    r, ps, stamp' := NestQuad(m, e, mv.kind, parents, els0, stamp, fuel);
  }

  /**
   * The nested branch of `regularize_quad` (`sum` 3 or more, one pair of
   * opposite edges with one hanging node each): `refine_element_id` splits
   * the quad `e` by `kind` into two halves, they take its entry in
   * `parents`, and each half is regularized in turn.
   */
  method NestQuad(m: Mesh, e: int, kind: int, parents: map<int, int>, ghost els0: seq<Element>, stamp: int, fuel: nat)
    returns (r: Outcome, ps: map<int, int>, stamp': int)
    requires m.Valid() && 0 <= e < |m.elements| && Live(m.elements[e]) && !m.elements[e].IsTriangle()
    requires (kind == 1 || kind == 2) && Lineage(parents, els0, m.elements) && fuel >= 1
    modifies m
    decreases fuel, 0
    ensures m.Valid() && |m.elements| >= old(|m.elements|)
    ensures m.nbase == old(m.nbase) && m.ninitial == old(m.ninitial) && m.ntopvert == old(m.ntopvert)
    ensures old(m.refinements) + [(e, kind)] <= m.refinements
    ensures forall j :: old(|m.refinements|) <= j < |m.refinements| ==> 0 <= m.refinements[j].1 <= 2
    ensures r.Pass? ==>
      && |m.elements| >= old(|m.elements|) + 2
      && m.elements[e] == old(m.elements[e]).(active := false, sons := SonSlots(old(m.elements[e]), kind, old(|m.elements|)))
    ensures r.Pass? ==> forall i :: 0 <= i < old(|m.elements|) && i != e ==> m.elements[i] == old(m.elements[i])
    ensures r.Pass? ==> Lineage(ps, els0, m.elements)
    ensures r.Pass? ==> stamp' == stamp + |m.refinements| - old(|m.refinements|)
    ensures r.Pass? ==> old(m.Counted()) ==> m.Counted()
  {
    r, ps, stamp' := CarryRefine(m, e, kind, parents, els0, stamp);
    if r.Fail? {
      return;
    }
    var sons := m.elements[e].sons;
    var a, b := if kind == 2 then 2 else 0, if kind == 2 then 3 else 1;
    r, ps, stamp' := RegularizePair(m, sons[a], sons[b], ps, els0, stamp', fuel - 1);
  }

  /** The two calls `regularize_quad(e->sons[n]); regularize_quad(e->sons[m]);` on the live halves `s1` and `s2`. */
  method RegularizePair(m: Mesh, s1: int, s2: int, parents: map<int, int>, ghost els0: seq<Element>, stamp: int, fuel: nat)
    returns (r: Outcome, ps: map<int, int>, stamp': int)
    requires m.Valid() && 0 <= s1 < |m.elements| && 0 <= s2 < |m.elements| && s1 != s2
    requires Live(m.elements[s1]) && Live(m.elements[s2]) && Lineage(parents, els0, m.elements)
    modifies m
    decreases fuel, 3
    ensures m.Valid() && |m.elements| >= old(|m.elements|)
    ensures m.nbase == old(m.nbase) && m.ninitial == old(m.ninitial) && m.ntopvert == old(m.ntopvert)
    ensures old(m.refinements) <= m.refinements
    ensures forall j :: old(|m.refinements|) <= j < |m.refinements| ==> 0 <= m.refinements[j].1 <= 2
    ensures r.Pass? ==> forall i :: 0 <= i < old(|m.elements|) && i != s1 && i != s2 ==> m.elements[i] == old(m.elements[i])
    ensures r.Pass? ==> Lineage(ps, els0, m.elements)
    ensures r.Pass? ==> stamp' == stamp + |m.refinements| - old(|m.refinements|)
    ensures r.Pass? ==> old(m.Counted()) ==> m.Counted()
  {
    r, ps, stamp' := RegularizeElement(m, s1, parents, els0, stamp, fuel);
    if r.Fail? {
      return;
    }
    r, ps, stamp' := RegularizeElement(m, s2, ps, els0, stamp', fuel);
  }

  /**
   * The dispatch of the transition loop of `regularize`: a triangle goes to
   * `regularize_triangle`, a quad to `regularize_quad`.
   */
  method RegularizeElement(m: Mesh, e: int, parents: map<int, int>, ghost els0: seq<Element>, stamp: int, fuel: nat)
    returns (r: Outcome, ps: map<int, int>, stamp': int)
    requires m.Valid() && 0 <= e < |m.elements| && Live(m.elements[e])
    requires Lineage(parents, els0, m.elements)
    modifies m
    decreases fuel, 2
    ensures m.Valid() && |m.elements| >= old(|m.elements|)
    ensures m.nbase == old(m.nbase) && m.ninitial == old(m.ninitial) && m.ntopvert == old(m.ntopvert)
    ensures old(m.refinements) <= m.refinements
    ensures forall j :: old(|m.refinements|) <= j < |m.refinements| ==> 0 <= m.refinements[j].1 <= 2
    ensures Moved(r, old(m.elements), m.elements, old(m.refinements), m.refinements, old(m.vertexTable), old(m.nodes), m.nodes, e,
                  old(MoveAt(m, e)))
    ensures old(MoveAt(m, e)) in {Keep, Missing} ==> unchanged(m) && ps == parents && stamp' == stamp
    ensures old(MoveAt(m, e)).Nest? && fuel == 0 ==> r == Fail(OutOfFuel) && unchanged(m)
    ensures old(MoveAt(m, e)).Nest? && fuel > 0 ==> old(m.refinements) + [(e, old(MoveAt(m, e)).kind)] <= m.refinements
    ensures r.Pass? ==> forall i :: 0 <= i < old(|m.elements|) && i != e ==> m.elements[i] == old(m.elements[i])
    ensures r.Pass? ==> Lineage(ps, els0, m.elements)
    ensures r.Pass? ==> stamp' == stamp + |m.refinements| - old(|m.refinements|)
    ensures r.Pass? ==> old(m.Counted()) ==> m.Counted()
  {
    if m.elements[e].IsTriangle() {
      ghost var mv := MoveAt(m, e);
      assert !mv.Nest? by {
        assert ElementOk(m.nodes, m.elements, e);
      }
      r, ps, stamp' := RegularizeTriangle(m, e, parents, els0, stamp);
    } else {
      r, ps, stamp' := RegularizeQuad(m, e, parents, els0, stamp, fuel);
    }
  }

  /**
   * Once no edge of a triangle carries more than one hanging node (the state
   * the loop of `regularize` leaves at level 1), `regularize_triangle` never
   * reaches a null midpoint: it keeps the triangle exactly when no edge
   * hangs, refines it exactly when all three do, and otherwise cuts it so
   * that the corners it adds are exactly the hanging nodes.
   */
  lemma TriangleMoveSpec(el: Element, eo: seq<nat>)
    requires |eo| == 3 && el.IsTriangle() && forall i :: 0 <= i < 3 ==> eo[i] <= 1
    ensures var mv := TriangleMove(eo);
      && mv != Missing && !mv.Nest? && (mv.RefineWith? ==> mv.kind == 0)
      && (mv == Keep <==> forall i :: 0 <= i < 3 ==> eo[i] == 0)
      && (mv.RefineWith? <==> forall i :: 0 <= i < 3 ==> eo[i] == 1)
      && (mv.IsCut() ==> CutFits(el, mv) && forall i :: 0 <= i < 3 ==> (eo[i] == 1 <==> i in CutEdges(el, mv)))
  {
    assert eo[0] <= 1 && eo[1] <= 1 && eo[2] <= 1;
    var mv := TriangleMove(eo);
    if mv.IsCut() {
      var k := mv.k;
      assert k == 0 || k == 1 || k == 2;
    }
  }

  /**
   * Once no edge of a quad carries more than one hanging node,
   * `regularize_quad` never reaches a null midpoint or son: it keeps the
   * quad exactly when no edge hangs, refines it in four exactly when all
   * four do, halves it by kind 2 (1) exactly when only edges 0 and 2 (1 and
   * 3) hang, nests exactly when three edges hang, and otherwise cuts it so
   * that the corners it adds are exactly the hanging nodes.
   */
  lemma QuadMoveSpec(el: Element, eo: seq<nat>)
    requires |eo| == 4 && |el.vn| == 4 && forall i :: 0 <= i < 4 ==> eo[i] <= 1
    ensures var mv := QuadMove(eo);
      && mv != Missing
      && (mv == Keep <==> forall i :: 0 <= i < 4 ==> eo[i] == 0)
      && (mv == RefineWith(0) <==> forall i :: 0 <= i < 4 ==> eo[i] == 1)
      && (mv == RefineWith(2) <==> eo == [1, 0, 1, 0])
      && (mv == RefineWith(1) <==> eo == [0, 1, 0, 1])
      && (mv.Nest? <==> eo[0] + eo[1] + eo[2] + eo[3] == 3)
      && (mv.Nest? ==> mv.kind == (if eo[0] == 1 && eo[2] == 1 then 2 else 1))
      && (mv.IsCut() ==> CutFits(el, mv) && forall i :: 0 <= i < 4 ==> (eo[i] == 1 <==> i in CutEdges(el, mv)))
  {
    assert eo[0] <= 1 && eo[1] <= 1 && eo[2] <= 1 && eo[3] <= 1;
    var mv := QuadMove(eo);
    if mv.IsCut() {
      var k := mv.k;
      assert k == 0 || k == 1 || k == 2 || k == 3;
    }
  }

  /** After a move that passed, the element it was made for is as it was or no longer active. */
  lemma MovedRetires(r: Outcome, els0: seq<Element>, els: seq<Element>, log0: seq<(int, int)>, log: seq<(int, int)>,
                     t0: map<Key, int>, nodes0: seq<Node>, nodes: seq<Node>, e: int, mv: Move)
    requires 0 <= e < |els0| && r.Pass? && Moved(r, els0, els, log0, log, t0, nodes0, nodes, e, mv)
    ensures e < |els| && (els[e] == els0[e] || !els[e].active)
    ensures mv == Keep <==> els == els0 && log == log0
  {
  }
}
