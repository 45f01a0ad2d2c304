/**
 * `Mesh::refine_quad` (hermes2d/src/mesh/mesh.cpp): a quad is split into
 * four quads (refinement 0), into two quads stacked along its edges 1 and 3
 * ("horizontal", refinement 1) or into two quads side by side along its
 * edges 0 and 2 ("vertical", refinement 2).  Unlike the triangle splits, the
 * parent is retired first, before any node is looked up.
 */
module QuadSplit {
  import opened MeshData
  import opened MeshModel
  import opened SplitFlags
  import opened MeshRefine

  /** How many sons a quad split of kind `kind` makes: four, or two for the horizontal and vertical cuts. */
  function QuadSonCount(kind: int): nat
  {
    if kind == 0 then 4 else 2
  }

  /**
   * The son slots a quad split of kind `kind` gives its parent, the sons
   * being elements n, n + 1, ...: every slot is empty or holds a son, and
   * every son has a slot.
   */
  function QuadSlots(kind: int, n: int): (slots: seq<int>)
    requires 0 <= kind <= 2
    ensures |slots| == 4
    ensures forall s :: s in slots ==> s == Null || n <= s < n + QuadSonCount(kind)
    ensures forall s :: n <= s < n + QuadSonCount(kind) ==> s in slots
  {
    if kind == 0 then [n, n + 1, n + 2, n + 3]
    else if kind == 1 then [n, n + 1, Null, Null]
    else [Null, Null, n, n + 1]
  }

  // ---------------------------------------------------------------------
  // Geometry under a sound parent quad (v0, v1, v2, v3) with mid-edge
  // vertex nodes x0 .. x3 (x_i between the ends of edge i).
  // ---------------------------------------------------------------------

  /** The mid-edge vertices of a sound quad are distinct, and none is a corner. */
  lemma QuadMidsApart(nodes: seq<Node>, v0: int, v1: int, v2: int, v3: int, x0: int, x1: int, x2: int, x3: int)
    requires EndsOlder(nodes) && Sound([v0, v1, v2, v3], nodes)
    requires MidOf(nodes, x0, v0, v1) && MidOf(nodes, x1, v1, v2) && MidOf(nodes, x2, v2, v3) && MidOf(nodes, x3, v3, v0)
    ensures x0 != x1 && x0 != x2 && x0 != x3 && x1 != x2 && x1 != x3 && x2 != x3
    ensures v0 != v1 && v0 != v2 && v0 != v3 && v1 != v2 && v1 != v3 && v2 != v3
    ensures v0 < x0 && v1 < x0 && v1 < x1 && v2 < x1 && v2 < x2 && v3 < x2 && v3 < x3 && v0 < x3
    ensures x0 != v2 && x0 != v3 && x1 != v3 && x1 != v0 && x2 != v0 && x2 != v1 && x3 != v1 && x3 != v2
  {
    MidIsYounger(nodes, x0, v0, v1);
    MidIsYounger(nodes, x1, v1, v2);
    MidIsYounger(nodes, x2, v2, v3);
    MidIsYounger(nodes, x3, v3, v0);
  }

  /**
   * The ends recorded in the twelve nodes `refine_quad` writes for four
   * sons, in table order, are pairwise different: each son edge joins a
   * corner and a mid-edge vertex, each mid-edge vertex joins two corners.
   */
  lemma QuadKeysApart(v0: int, v1: int, v2: int, v3: int, x0: int, x1: int, x2: int, x3: int)
    requires v0 != v1 && v0 != v2 && v0 != v3 && v1 != v2 && v1 != v3 && v2 != v3
    requires x0 != x1 && x0 != x2 && x0 != x3 && x1 != x2 && x1 != x3 && x2 != x3
    requires v0 < x0 && v1 < x0 && v1 < x1 && v2 < x1 && v2 < x2 && v3 < x2 && v3 < x3 && v0 < x3
    requires x0 != v2 && x0 != v3 && x1 != v3 && x1 != v0 && x2 != v0 && x2 != v1 && x3 != v1 && x3 != v2
    ensures KeysApart([KeyOf(x3, v0), KeyOf(v0, x0), KeyOf(v3, v0), KeyOf(x0, v1), KeyOf(v1, x1), KeyOf(v0, v1),
                       KeyOf(x1, v2), KeyOf(v2, x2), KeyOf(v1, v2), KeyOf(x2, v3), KeyOf(v3, x3), KeyOf(v2, v3)])
  {
  }

  /**
   * Under a sound parent, the nodes `refine_quad` writes for four sons are
   * distinct: in table order, for each son the two son edges along the
   * parent's edges and one mid-edge vertex.
   */
  lemma QuadWritesApart(nodes: seq<Node>, v0: int, v1: int, v2: int, v3: int, x0: int, x1: int, x2: int, x3: int,
                        a3: int, a0: int, b0: int, b1: int, c1: int, c2: int, d2: int, d3: int)
    requires EndsOlder(nodes) && Sound([v0, v1, v2, v3], nodes)
    requires MidOf(nodes, x0, v0, v1) && MidOf(nodes, x1, v1, v2) && MidOf(nodes, x2, v2, v3) && MidOf(nodes, x3, v3, v0)
    requires MidOf(nodes, a3, x3, v0) && MidOf(nodes, a0, v0, x0) && MidOf(nodes, b0, x0, v1) && MidOf(nodes, b1, v1, x1)
    requires MidOf(nodes, c1, x1, v2) && MidOf(nodes, c2, v2, x2) && MidOf(nodes, d2, x2, v3) && MidOf(nodes, d3, v3, x3)
    ensures Distinct([a3, a0, x3, b0, b1, x0, c1, c2, x1, d2, d3, x2])
  {
    QuadMidsApart(nodes, v0, v1, v2, v3, x0, x1, x2, x3);
    QuadKeysApart(v0, v1, v2, v3, x0, x1, x2, x3);
    MidEnds(nodes, a3, x3, v0); MidEnds(nodes, a0, v0, x0); MidEnds(nodes, x3, v3, v0);
    MidEnds(nodes, b0, x0, v1); MidEnds(nodes, b1, v1, x1); MidEnds(nodes, x0, v0, v1);
    MidEnds(nodes, c1, x1, v2); MidEnds(nodes, c2, v2, x2); MidEnds(nodes, x1, v1, v2);
    MidEnds(nodes, d2, x2, v3); MidEnds(nodes, d3, v3, x3); MidEnds(nodes, x2, v2, v3);
    ApartByEnds(nodes, [a3, a0, x3, b0, b1, x0, c1, c2, x1, d2, d3, x2],
                [KeyOf(x3, v0), KeyOf(v0, x0), KeyOf(v3, v0), KeyOf(x0, v1), KeyOf(v1, x1), KeyOf(v0, v1),
                 KeyOf(x1, v2), KeyOf(v2, x2), KeyOf(v1, v2), KeyOf(x2, v3), KeyOf(v3, x3), KeyOf(v2, v3)]);
  }

  // ---------------------------------------------------------------------
  // Refinement 0: one quad to four quads.
  // ---------------------------------------------------------------------

  /** The corner lists of the four sons of refinement 0, in creation order. */
  function QuadLayouts(vn: seq<int>, x0: int, x1: int, x2: int, x3: int, mid: int): (ls: seq<seq<int>>)
    requires |vn| == 4
    ensures |ls| == 4
  {
    [[vn[0], x0, mid, x3], [x0, vn[1], x1, mid], [mid, x1, vn[2], x2], [x3, mid, x2, vn[3]]]
  }

  /**
   * The boundary writes of refinement 0, in source order: son i takes the
   * flag and marker of the parent's edges i - 1 and i on its edges of the
   * same numbers, and the flag of edge i - 1 on its corner of that number
   * (indices modulo 4).
   */
  const QuadHandDowns: seq<HandDown> :=
    [EdgeDown(0, 3, 3), EdgeDown(0, 0, 0), VertexDown(0, 3, 3),
     EdgeDown(1, 0, 0), EdgeDown(1, 1, 1), VertexDown(1, 0, 0),
     EdgeDown(2, 1, 1), EdgeDown(2, 2, 2), VertexDown(2, 1, 1),
     EdgeDown(3, 2, 2), EdgeDown(3, 3, 3), VertexDown(3, 2, 2)]

  /**
   * The four sons of refinement 0 on a quad `vn`: with x0 .. x3 the vertex
   * nodes between the ends of edges 0 .. 3 and mid the vertex node between
   * x0 and x2, the sons (v0, x0, mid, x3), (x0, v1, x1, mid),
   * (mid, x1, v2, x2) and (x3, mid, x2, v3).
   */
  ghost predicate QuadToQuads(nodes: seq<Node>, vn: seq<int>, s0: seq<int>, s1: seq<int>, s2: seq<int>, s3: seq<int>)
    requires |vn| == 4
  {
    |s0| == 4 && |s1| == 4 && |s2| == 4 &&
    var x0, x1, x2, x3, mid := s0[1], s1[2], s2[3], s0[3], s0[2];
    MidOf(nodes, x0, vn[0], vn[1]) && MidOf(nodes, x1, vn[1], vn[2]) && MidOf(nodes, x2, vn[2], vn[3])
    && MidOf(nodes, x3, vn[3], vn[0]) && MidOf(nodes, mid, x0, x2)
    && s0 == [vn[0], x0, mid, x3] && s1 == [x0, vn[1], x1, mid] && s2 == [mid, x1, vn[2], x2] && s3 == [x3, mid, x2, vn[3]]
  }

  /** Elements n .. n + 3 of `els` are the four sons of refinement 0 on quad `vn`. */
  ghost predicate QuadSplitOf(nodes: seq<Node>, vn: seq<int>, els: seq<Element>, n: int)
  {
    |vn| == 4 && 0 <= n && |els| >= n + 4
    && QuadToQuads(nodes, vn, els[n].vn, els[n + 1].vn, els[n + 2].vn, els[n + 3].vn)
  }

  /** The hand-down table of a quad split of kind `kind`. */
  function QuadHandDownsOf(kind: int): (hs: seq<HandDown>)
    requires 0 <= kind <= 2
    ensures |hs| == if kind == 0 then 12 else 8
  {
    if kind == 0 then QuadHandDowns else if kind == 1 then HorizontalHandDowns else VerticalHandDowns
  }

  /** Elements n, n + 1, ... of `els` are the sons of a quad split of kind `kind` on quad `vn`. */
  ghost predicate QuadSplitOfKind(nodes: seq<Node>, vn: seq<int>, els: seq<Element>, n: int, kind: int)
  {
    if kind == 0 then QuadSplitOf(nodes, vn, els, n)
    else if kind == 1 then HorizontalSplitOf(nodes, vn, els, n)
    else kind == 2 && VerticalSplitOf(nodes, vn, els, n)
  }

  /**
   * `refine_quad`: the active quad `e` reads its edges' boundary flags and
   * markers, is retired (`nactive` drops by one), then gets the sons of
   * refinement `kind` appended to the element arena (four for kind 0, two
   * for the horizontal kind 1 and the vertical kind 2) and `nactive` grows
   * by their number.  The parent's son slots say which sons it has, the
   * sons are fresh active elements with the parent's marker, and under a
   * sound parent every row of the kind's hand-down table holds afterwards.
   * When creating a son fails (its corners share a coordinate), the split
   * stops there with the parent already retired.
   */
  method RefineQuad(m: Mesh, e: int, kind: int) returns (r: Outcome)
    requires m.Valid() && 0 <= e < |m.elements|
    requires Live(m.elements[e]) && !m.elements[e].IsTriangle()
    requires 0 <= kind <= 2
    modifies m
    ensures m.Valid() && |m.elements| >= old(|m.elements|)
    ensures r.Fail? ==>
      && m.elements[e] == old(m.elements[e]).(active := false)
      && m.nactive == old(m.nactive) - 1 && m.Stamps() == old(m.Stamps())
    ensures r.Fail? && old(Sound(m.elements[e].vn, m.nodes)) ==> r.error == SharedX || r.error == SharedY
    ensures r.Pass? ==> var n := old(|m.elements|);
      |m.elements| == n + QuadSonCount(kind) && Replaced(old(m.elements), m.elements, e, n, QuadSlots(kind, n))
    ensures r.Pass? ==> QuadSplitOfKind(m.nodes, old(m.elements[e].vn), m.elements, old(|m.elements|), kind)
    ensures r.Pass? ==> m.nactive == old(m.nactive) - 1 + QuadSonCount(kind) && m.Stamps() == old(m.Stamps())
    ensures r.Pass? ==> old(m.Counted()) ==> m.Counted()
    ensures r.Pass? && old(Sound(m.elements[e].vn, m.nodes)) ==>
      Kept(old(m.nodes), m.nodes, old(m.elements[e].en), m.elements[old(|m.elements|)..], QuadHandDownsOf(kind))
  {
    var p := m.elements[e];
    assert ElementOk(m.nodes, m.elements, e);
    var flags := ParentFlags(m.nodes, p.en);
    var bnd, mrk := flags.0, flags.1;
    ghost var nodes0, count0 := m.nodes, ActiveCount(m.elements);
    RetireParent(m, e, -1);
    var n := |m.elements|;
    ghost var els1 := m.elements;
    assert n == old(|m.elements|) && p == old(m.elements[e]);
    assert ActiveCount(els1) == count0 - 1;
    r := QuadToSons(m, e, p, bnd, mrk, nodes0, kind);
    if r.Pass? {
      assert ActiveCount(m.elements) == count0 - 1 + QuadSonCount(kind);
      ReplacedAfterRetire(old(m.elements), m.elements, e, n, QuadSlots(kind, n));
    }
  }

  /** The split of kind `kind` once quad `p` (element `e`) is retired. */
  method QuadToSons(m: Mesh, e: int, p: Element, bnd: seq<bool>, mrk: seq<int>, ghost nodes0: seq<Node>, kind: int)
    returns (r: Outcome)
    requires m.Valid() && 0 <= e < |m.elements| && m.elements[e] == p.(active := false) && |p.vn| == 4
    requires ReadFrom(nodes0, p.en, bnd, mrk) && Reshaped(nodes0, m.nodes) && |p.en| == 4
    requires 0 <= kind <= 2
    modifies m
    ensures m.Valid() && |m.elements| >= old(|m.elements|)
    ensures forall i :: 0 <= i < old(|m.elements|) && r.Fail? ==> m.elements[i] == old(m.elements[i])
    ensures r.Fail? ==> m.Counters() == old(m.Counters())
    ensures r.Fail? && Sound(p.vn, nodes0) ==> r.error == SharedX || r.error == SharedY
    ensures r.Pass? ==> var n := old(|m.elements|);
      |m.elements| == n + QuadSonCount(kind) && Replaced(old(m.elements), m.elements, e, n, QuadSlots(kind, n))
    ensures r.Pass? ==> QuadSplitOfKind(m.nodes, p.vn, m.elements, old(|m.elements|), kind)
    ensures r.Pass? ==> m.nactive == old(m.nactive) + QuadSonCount(kind) && m.Stamps() == old(m.Stamps())
    ensures r.Pass? ==> ActiveCount(m.elements) == ActiveCount(old(m.elements)) + QuadSonCount(kind)
    ensures r.Pass? && Sound(p.vn, nodes0) ==>
      Kept(nodes0, m.nodes, p.en, m.elements[old(|m.elements|)..], QuadHandDownsOf(kind))
  {
    if kind == 0 {
      r := QuadToFour(m, e, p, bnd, mrk, nodes0);
    } else if kind == 1 {
      r := QuadToHorizontal(m, e, p, bnd, mrk, nodes0);
    } else {
      r := QuadToVertical(m, e, p, bnd, mrk, nodes0);
    }
  }

  /**
   * Refinement 0 once quad `p` (element `e`) is retired: its four sons
   * created, the parent's edge flags `bnd` and markers `mrk` (read from
   * `nodes0`) handed down to them, and the sons adopted.
   */
  method QuadToFour(m: Mesh, e: int, p: Element, bnd: seq<bool>, mrk: seq<int>, ghost nodes0: seq<Node>)
    returns (r: Outcome)
    requires m.Valid() && 0 <= e < |m.elements| && m.elements[e] == p.(active := false) && |p.vn| == 4
    requires ReadFrom(nodes0, p.en, bnd, mrk) && Reshaped(nodes0, m.nodes) && |p.en| == 4
    modifies m
    ensures m.Valid() && |m.elements| >= old(|m.elements|)
    ensures forall i :: 0 <= i < old(|m.elements|) && r.Fail? ==> m.elements[i] == old(m.elements[i])
    ensures r.Fail? ==> m.Counters() == old(m.Counters())
    ensures r.Fail? && Sound(p.vn, nodes0) ==> r.error == SharedX || r.error == SharedY
    ensures r.Pass? ==> var n := old(|m.elements|);
      |m.elements| == n + 4 && Replaced(old(m.elements), m.elements, e, n, QuadSlots(0, n))
    ensures r.Pass? ==> QuadSplitOf(m.nodes, p.vn, m.elements, old(|m.elements|))
    ensures r.Pass? ==> m.nactive == old(m.nactive) + 4 && m.Stamps() == old(m.Stamps())
    ensures r.Pass? ==> ActiveCount(m.elements) == ActiveCount(old(m.elements)) + 4
    ensures r.Pass? && Sound(p.vn, nodes0) ==> Kept(nodes0, m.nodes, p.en, m.elements[old(|m.elements|)..], QuadHandDowns)
  {
    if Sound(p.vn, nodes0) {
      SoundReshaped(p.vn, nodes0, m.nodes);
    }
    var n := |m.elements|;
    var x0, x1, x2, x3, mid;
    r, x0, x1, x2, x3, mid := QuadSons(m, e, p.vn, p.marker);
    if r.Fail? { return; }
    ghost var nodes1 := m.nodes;
    assert m.elements[e] == p.(active := false);
    HandDownAndAdopt(m, e, nodes0, p.en, n, 4, 4, QuadSlots(0, n), QuadHandDowns, bnd, mrk,
                     Sound(p.vn, nodes0), p.marker, QuadLayouts(p.vn, x0, x1, x2, x3, mid));
    QuadSplitShape(nodes1, m.nodes, m.elements, n, e, p.marker, p.vn, x0, x1, x2, x3, mid);
  }

  /**
   * The mid-edge vertex nodes x0 .. x3 and the centre node mid of quad `e`
   * (corners `vn`) looked up or created, then the four sons of refinement 0
   * created on them.
   */
  method QuadSons(m: Mesh, e: int, vn: seq<int>, mk: int) returns (r: Outcome, x0: int, x1: int, x2: int, x3: int, mid: int)
    requires m.Valid() && 0 <= e < |m.elements| && m.elements[e].vn == vn && |vn| == 4
    modifies m
    ensures m.Valid() && Reshaped(old(m.nodes), m.nodes) && m.Counters() == old(m.Counters())
    ensures |m.elements| >= old(|m.elements|)
    ensures forall i :: 0 <= i < old(|m.elements|) ==> m.elements[i] == old(m.elements[i])
    ensures r.Fail? && Sound(vn, old(m.nodes)) ==> r.error == SharedX || r.error == SharedY
    ensures MidOf(m.nodes, x0, vn[0], vn[1]) && MidOf(m.nodes, x1, vn[1], vn[2]) && MidOf(m.nodes, x2, vn[2], vn[3])
    ensures MidOf(m.nodes, x3, vn[3], vn[0]) && MidOf(m.nodes, mid, x0, x2)
    ensures r.Pass? ==> var n := old(|m.elements|);
      |m.elements| == n + 4 && ActiveCount(m.elements) == ActiveCount(old(m.elements)) + 4
      && SonsAt(m.elements, n, mk, QuadLayouts(vn, x0, x1, x2, x3, mid))
      && AllFit(m.elements[n..n + 4], 4, QuadHandDowns)
      && (Sound(vn, old(m.nodes)) ==> Distinct(Targets(m.elements[n..n + 4], QuadHandDowns)))
  {
    ghost var nodes0 := m.nodes;
    x0, x1, x2, x3, mid := QuadMids(m, e, vn);
    ghost var nodes1 := m.nodes;
    var n := |m.elements|;
    r := CreateSons(m, mk, QuadLayouts(vn, x0, x1, x2, x3, mid));
    ReshapedTrans(nodes0, nodes1, m.nodes);
    if r.Pass? {
      QuadSonsFit(nodes0, m.nodes, m.elements, n, mk, vn, x0, x1, x2, x3, mid);
    }
  }

  /**
   * The vertex nodes refinement 0 of quad `e` (corners `vn`) needs, looked
   * up or created: x0 .. x3 between the ends of edges 0 .. 3, then mid
   * between x0 and x2.
   */
  method QuadMids(m: Mesh, e: int, vn: seq<int>) returns (x0: int, x1: int, x2: int, x3: int, mid: int)
    requires m.Valid() && 0 <= e < |m.elements| && m.elements[e].vn == vn && |vn| == 4
    modifies m
    ensures m.Valid() && Reshaped(old(m.nodes), m.nodes) && m.Counters() == old(m.Counters())
    ensures m.elements == old(m.elements)
    ensures MidOf(m.nodes, x0, vn[0], vn[1]) && MidOf(m.nodes, x1, vn[1], vn[2]) && MidOf(m.nodes, x2, vn[2], vn[3])
    ensures MidOf(m.nodes, x3, vn[3], vn[0]) && MidOf(m.nodes, mid, x0, x2)
    ensures OnVertices(m.nodes, QuadLayouts(vn, x0, x1, x2, x3, mid))
    ensures Sound(vn, old(m.nodes)) ==> AllCornersApart(QuadLayouts(vn, x0, x1, x2, x3, mid))
  {
    assert ElementOk(m.nodes, m.elements, e);
    assert vn[0] in m.elements[e].vn && vn[1] in m.elements[e].vn && vn[2] in m.elements[e].vn && vn[3] in m.elements[e].vn;
    ghost var nodes0 := m.nodes;
    var xs := MidNodes(m, [(vn[0], vn[1]), (vn[1], vn[2]), (vn[2], vn[3]), (vn[3], vn[0])]);
    x0, x1, x2, x3 := xs[0], xs[1], xs[2], xs[3];
    ghost var nodes1 := m.nodes;
    var ms := MidNodes(m, [(x0, x2)]);
    mid := ms[0];
    ReshapedTrans(nodes0, nodes1, m.nodes);
    MidReshaped(nodes1, m.nodes, x0, vn[0], vn[1]);
    MidReshaped(nodes1, m.nodes, x1, vn[1], vn[2]);
    MidReshaped(nodes1, m.nodes, x2, vn[2], vn[3]);
    MidReshaped(nodes1, m.nodes, x3, vn[3], vn[0]);
    QuadSonsApart(nodes0, m.nodes, vn, x0, x1, x2, x3, mid);
    QuadSonsOnVertices(nodes0, m.nodes, vn, x0, x1, x2, x3, mid);
  }

  /** The corners of the sons of refinement 0 are vertex nodes. */
  lemma QuadSonsOnVertices(nodes0: seq<Node>, nodes: seq<Node>, vn: seq<int>, x0: int, x1: int, x2: int, x3: int, mid: int)
    requires Reshaped(nodes0, nodes) && |vn| == 4
    requires VertexId(nodes0, vn[0]) && VertexId(nodes0, vn[1]) && VertexId(nodes0, vn[2]) && VertexId(nodes0, vn[3])
    requires VertexId(nodes, x0) && VertexId(nodes, x1) && VertexId(nodes, x2) && VertexId(nodes, x3) && VertexId(nodes, mid)
    ensures OnVertices(nodes, QuadLayouts(vn, x0, x1, x2, x3, mid))
  {
    assert SameShape(nodes0[vn[0]], nodes[vn[0]]) && SameShape(nodes0[vn[1]], nodes[vn[1]]);
    assert SameShape(nodes0[vn[2]], nodes[vn[2]]) && SameShape(nodes0[vn[3]], nodes[vn[3]]);
  }

  /** A sound quad's four sons have their corners apart, however the nodes were updated since. */
  lemma QuadSonsApart(nodes0: seq<Node>, nodes: seq<Node>, vn: seq<int>, x0: int, x1: int, x2: int, x3: int, mid: int)
    requires Reshaped(nodes0, nodes) && EndsOlder(nodes) && |vn| == 4
    requires MidOf(nodes, x0, vn[0], vn[1]) && MidOf(nodes, x1, vn[1], vn[2]) && MidOf(nodes, x2, vn[2], vn[3])
    requires MidOf(nodes, x3, vn[3], vn[0]) && MidOf(nodes, mid, x0, x2)
    ensures Sound(vn, nodes0) ==> AllCornersApart(QuadLayouts(vn, x0, x1, x2, x3, mid))
  {
    if Sound(vn, nodes0) {
      assert vn == [vn[0], vn[1], vn[2], vn[3]];
      SoundReshaped(vn, nodes0, nodes);
      QuadMidsApart(nodes, vn[0], vn[1], vn[2], vn[3], x0, x1, x2, x3);
      MidIsYounger(nodes, mid, x0, x2);
      MidEnds(nodes, mid, x0, x2);
      MidEnds(nodes, x1, vn[1], vn[2]);
      MidEnds(nodes, x3, vn[3], vn[0]);
      assert mid != x1 && mid != x3;
    }
  }

  /** The rows of `QuadHandDowns` fit the four sons and write, son by son, two son edges and a mid-edge vertex. */
  lemma QuadTargets(nodes: seq<Node>, vn: seq<int>, x0: int, x1: int, x2: int, x3: int, mid: int, sons: seq<Element>)
    requires |vn| == 4
    requires |sons| == 4
    requires forall j :: 0 <= j < 4 ==> Shaped(nodes, sons[j]) && sons[j].vn == QuadLayouts(vn, x0, x1, x2, x3, mid)[j]
    ensures AllFit(sons, 4, QuadHandDowns)
    ensures |sons[0].en| == |sons[1].en| == |sons[2].en| == |sons[3].en| == 4
         && Targets(sons, QuadHandDowns)
         == [sons[0].en[3], sons[0].en[0], x3, sons[1].en[0], sons[1].en[1], x0,
             sons[2].en[1], sons[2].en[2], x1, sons[3].en[2], sons[3].en[3], x2]
  {
    assert Shaped(nodes, sons[0]) && Shaped(nodes, sons[1]) && Shaped(nodes, sons[2]) && Shaped(nodes, sons[3]);
    assert sons[0].vn == [vn[0], x0, mid, x3] && sons[1].vn == [x0, vn[1], x1, mid];
    assert sons[2].vn == [mid, x1, vn[2], x2] && sons[3].vn == [x3, mid, x2, vn[3]];
  }

  /** Under a parent that was sound over `nodes0`, the rows of `QuadHandDowns` write to distinct nodes. */
  lemma QuadTargetsApart(nodes0: seq<Node>, nodes: seq<Node>, vn: seq<int>, x0: int, x1: int, x2: int, x3: int, mid: int,
                         sons: seq<Element>)
    requires Reshaped(nodes0, nodes) && EndsOlder(nodes) && |vn| == 4
    requires MidOf(nodes, x0, vn[0], vn[1]) && MidOf(nodes, x1, vn[1], vn[2]) && MidOf(nodes, x2, vn[2], vn[3])
    requires MidOf(nodes, x3, vn[3], vn[0])
    requires |sons| == 4
    requires forall j :: 0 <= j < 4 ==> Shaped(nodes, sons[j]) && sons[j].vn == QuadLayouts(vn, x0, x1, x2, x3, mid)[j]
    ensures AllFit(sons, 4, QuadHandDowns)
    ensures Sound(vn, nodes0) ==> Distinct(Targets(sons, QuadHandDowns))
  {
    QuadTargets(nodes, vn, x0, x1, x2, x3, mid, sons);
    if Sound(vn, nodes0) {
      var s0, s1, s2, s3 := sons[0], sons[1], sons[2], sons[3];
      var v0, v1, v2, v3 := vn[0], vn[1], vn[2], vn[3];
      assert vn == [v0, v1, v2, v3];
      SoundReshaped(vn, nodes0, nodes);
      QuadSonEdges(nodes, s0, v0, x0, mid, x3);
      QuadSonEdges(nodes, s1, x0, v1, x1, mid);
      QuadSonEdges(nodes, s2, mid, x1, v2, x2);
      QuadSonEdges(nodes, s3, x3, mid, x2, v3);
      QuadWritesApart(nodes, v0, v1, v2, v3, x0, x1, x2, x3,
                      s0.en[3], s0.en[0], s1.en[0], s1.en[1], s2.en[1], s2.en[2], s3.en[2], s3.en[3]);
    }
  }

  /** The edge nodes of a shaped quad with corners a, b, c, d lie between consecutive corners. */
  lemma QuadSonEdges(nodes: seq<Node>, s: Element, a: int, b: int, c: int, d: int)
    requires Shaped(nodes, s) && s.vn == [a, b, c, d]
    ensures |s.en| == 4
    ensures MidOf(nodes, s.en[0], a, b) && MidOf(nodes, s.en[1], b, c)
    ensures MidOf(nodes, s.en[2], c, d) && MidOf(nodes, s.en[3], d, a)
  {
    assert EdgeOf(nodes, s, 0) && EdgeOf(nodes, s, 1) && EdgeOf(nodes, s, 2) && EdgeOf(nodes, s, 3);
  }

  /** The fresh sons of refinement 0 fit `QuadHandDowns`, and under a sound parent its targets are distinct. */
  lemma QuadSonsFit(nodes0: seq<Node>, nodes: seq<Node>, els: seq<Element>, n: int, mk: int,
                    vn: seq<int>, x0: int, x1: int, x2: int, x3: int, mid: int)
    requires Reshaped(nodes0, nodes) && EndsOlder(nodes) && |vn| == 4
    requires MidOf(nodes, x0, vn[0], vn[1]) && MidOf(nodes, x1, vn[1], vn[2]) && MidOf(nodes, x2, vn[2], vn[3])
    requires MidOf(nodes, x3, vn[3], vn[0])
    requires 0 <= n && |els| == n + 4 && forall e :: 0 <= e < |els| ==> ElementOk(nodes, els, e)
    requires SonsAt(els, n, mk, QuadLayouts(vn, x0, x1, x2, x3, mid))
    ensures AllFit(els[n..n + 4], 4, QuadHandDowns)
    ensures Sound(vn, nodes0) ==> Distinct(Targets(els[n..n + 4], QuadHandDowns))
  {
    var sons := els[n..n + 4];
    SonsShaped(nodes, els, n, 4, sons);
    forall j | 0 <= j < 4 ensures sons[j].vn == QuadLayouts(vn, x0, x1, x2, x3, mid)[j] {
      assert Fresh(els, n + j, mk, QuadLayouts(vn, x0, x1, x2, x3, mid)[j]);
    }
    QuadTargetsApart(nodes0, nodes, vn, x0, x1, x2, x3, mid, sons);
  }

  /** The adopted sons of refinement 0, read back as `QuadToQuads`. */
  lemma QuadSplitShape(nodes1: seq<Node>, nodes: seq<Node>, els: seq<Element>, n: int, e: int, marker: int,
                       vn: seq<int>, x0: int, x1: int, x2: int, x3: int, mid: int)
    requires |vn| == 4 && Reshaped(nodes1, nodes)
    requires MidOf(nodes1, x0, vn[0], vn[1]) && MidOf(nodes1, x1, vn[1], vn[2]) && MidOf(nodes1, x2, vn[2], vn[3])
    requires MidOf(nodes1, x3, vn[3], vn[0]) && MidOf(nodes1, mid, x0, x2)
    requires 0 <= n && Adopted(els, n, e, marker, QuadLayouts(vn, x0, x1, x2, x3, mid))
    ensures QuadSplitOf(nodes, vn, els, n)
  {
    var layouts := QuadLayouts(vn, x0, x1, x2, x3, mid);
    assert layouts[0] == [vn[0], x0, mid, x3] && layouts[1] == [x0, vn[1], x1, mid];
    assert layouts[2] == [mid, x1, vn[2], x2] && layouts[3] == [x3, mid, x2, vn[3]];
    MidReshaped(nodes1, nodes, x0, vn[0], vn[1]);
    MidReshaped(nodes1, nodes, x1, vn[1], vn[2]);
    MidReshaped(nodes1, nodes, x2, vn[2], vn[3]);
    MidReshaped(nodes1, nodes, x3, vn[3], vn[0]);
    MidReshaped(nodes1, nodes, mid, x0, x2);
  }

  // ---------------------------------------------------------------------
  // Refinements 1 and 2: one quad to two quads.
  // ---------------------------------------------------------------------

  /** The mid-edge vertices of edges 1 and 3 of a sound quad are distinct, and none is a corner. */
  lemma HorizontalMidsApart(nodes: seq<Node>, v0: int, v1: int, v2: int, v3: int, x1: int, x3: int)
    requires EndsOlder(nodes) && Sound([v0, v1, v2, v3], nodes)
    requires MidOf(nodes, x1, v1, v2) && MidOf(nodes, x3, v3, v0)
    ensures v0 != v1 && v0 != v2 && v0 != v3 && v1 != v2 && v1 != v3 && v2 != v3
    ensures x1 != x3 && v1 < x1 && v2 < x1 && v3 < x3 && v0 < x3
    ensures x1 != v3 && x1 != v0 && x3 != v1 && x3 != v2
  {
    MidIsYounger(nodes, x1, v1, v2);
    MidIsYounger(nodes, x3, v3, v0);
  }

  /** The mid-edge vertices of edges 0 and 2 of a sound quad are distinct, and none is a corner. */
  lemma VerticalMidsApart(nodes: seq<Node>, v0: int, v1: int, v2: int, v3: int, x0: int, x2: int)
    requires EndsOlder(nodes) && Sound([v0, v1, v2, v3], nodes)
    requires MidOf(nodes, x0, v0, v1) && MidOf(nodes, x2, v2, v3)
    ensures v0 != v1 && v0 != v2 && v0 != v3 && v1 != v2 && v1 != v3 && v2 != v3
    ensures x0 != x2 && v0 < x0 && v1 < x0 && v2 < x2 && v3 < x2
    ensures x0 != v2 && x0 != v3 && x2 != v0 && x2 != v1
  {
    MidIsYounger(nodes, x0, v0, v1);
    MidIsYounger(nodes, x2, v2, v3);
  }

  /** The corner lists of the two sons of refinement 1, in creation order. */
  function HorizontalLayouts(vn: seq<int>, x1: int, x3: int): (ls: seq<seq<int>>)
    requires |vn| == 4
    ensures |ls| == 2
  {
    [[vn[0], vn[1], x1, x3], [x3, x1, vn[2], vn[3]]]
  }

  /**
   * The boundary writes of refinement 1, in source order: the lower son
   * takes edges 0, 1 and 3, the upper son edges 1, 2 and 3, and the two
   * mid-edge vertices the flags of edges 1 and 3.
   */
  const HorizontalHandDowns: seq<HandDown> :=
    [EdgeDown(0, 0, 0), EdgeDown(0, 1, 1), EdgeDown(0, 3, 3),
     EdgeDown(1, 1, 1), EdgeDown(1, 2, 2), EdgeDown(1, 3, 3),
     VertexDown(0, 2, 1), VertexDown(0, 3, 3)]

  /**
   * Elements n and n + 1 of `els` are the sons of refinement 1 on quad
   * `vn`: with x1 and x3 the vertex nodes between the ends of edges 1 and 3,
   * the sons (v0, v1, x1, x3) and (x3, x1, v2, v3).
   */
  ghost predicate HorizontalSplitOf(nodes: seq<Node>, vn: seq<int>, els: seq<Element>, n: int)
  {
    |vn| == 4 && 0 <= n && |els| >= n + 2 && |els[n].vn| == 4
    && var x1, x3 := els[n].vn[2], els[n].vn[3];
    MidOf(nodes, x1, vn[1], vn[2]) && MidOf(nodes, x3, vn[3], vn[0])
    && els[n].vn == [vn[0], vn[1], x1, x3] && els[n + 1].vn == [x3, x1, vn[2], vn[3]]
  }

  /**
   * Refinement 1 once quad `p` (element `e`) is retired: its two sons
   * created, the parent's edge flags and markers handed down, the sons
   * adopted.
   */
  method QuadToHorizontal(m: Mesh, e: int, p: Element, bnd: seq<bool>, mrk: seq<int>, ghost nodes0: seq<Node>)
    returns (r: Outcome)
    requires m.Valid() && 0 <= e < |m.elements| && m.elements[e] == p.(active := false) && |p.vn| == 4
    requires ReadFrom(nodes0, p.en, bnd, mrk) && Reshaped(nodes0, m.nodes) && |p.en| == 4
    modifies m
    ensures m.Valid() && |m.elements| >= old(|m.elements|)
    ensures forall i :: 0 <= i < old(|m.elements|) && r.Fail? ==> m.elements[i] == old(m.elements[i])
    ensures r.Fail? ==> m.Counters() == old(m.Counters())
    ensures r.Fail? && Sound(p.vn, nodes0) ==> r.error == SharedX || r.error == SharedY
    ensures r.Pass? ==> var n := old(|m.elements|);
      |m.elements| == n + 2 && Replaced(old(m.elements), m.elements, e, n, QuadSlots(1, n))
    ensures r.Pass? ==> HorizontalSplitOf(m.nodes, p.vn, m.elements, old(|m.elements|))
    ensures r.Pass? ==> m.nactive == old(m.nactive) + 2 && m.Stamps() == old(m.Stamps())
    ensures r.Pass? ==> ActiveCount(m.elements) == ActiveCount(old(m.elements)) + 2
    ensures r.Pass? && Sound(p.vn, nodes0) ==>
      Kept(nodes0, m.nodes, p.en, m.elements[old(|m.elements|)..], HorizontalHandDowns)
  {
    if Sound(p.vn, nodes0) {
      SoundReshaped(p.vn, nodes0, m.nodes);
    }
    var n := |m.elements|;
    var x1, x3;
    r, x1, x3 := HorizontalSons(m, e, p.vn, p.marker);
    if r.Fail? { return; }
    ghost var nodes1 := m.nodes;
    assert m.elements[e] == p.(active := false);
    HandDownAndAdopt(m, e, nodes0, p.en, n, 2, 2, QuadSlots(1, n), HorizontalHandDowns, bnd, mrk,
                     Sound(p.vn, nodes0), p.marker, HorizontalLayouts(p.vn, x1, x3));
    HorizontalSplitShape(nodes1, m.nodes, m.elements, n, e, p.marker, p.vn, x1, x3);
  }

  /** The mid-edge vertex nodes x1 and x3 of quad `e` (corners `vn`) looked up or created, then the two sons of refinement 1. */
  method HorizontalSons(m: Mesh, e: int, vn: seq<int>, mk: int) returns (r: Outcome, x1: int, x3: int)
    requires m.Valid() && 0 <= e < |m.elements| && m.elements[e].vn == vn && |vn| == 4
    modifies m
    ensures m.Valid() && Reshaped(old(m.nodes), m.nodes) && m.Counters() == old(m.Counters())
    ensures |m.elements| >= old(|m.elements|)
    ensures forall i :: 0 <= i < old(|m.elements|) ==> m.elements[i] == old(m.elements[i])
    ensures r.Fail? && Sound(vn, old(m.nodes)) ==> r.error == SharedX || r.error == SharedY
    ensures MidOf(m.nodes, x1, vn[1], vn[2]) && MidOf(m.nodes, x3, vn[3], vn[0])
    ensures r.Pass? ==> var n := old(|m.elements|);
      |m.elements| == n + 2 && ActiveCount(m.elements) == ActiveCount(old(m.elements)) + 2
      && SonsAt(m.elements, n, mk, HorizontalLayouts(vn, x1, x3))
      && AllFit(m.elements[n..n + 2], 4, HorizontalHandDowns)
      && (Sound(vn, old(m.nodes)) ==> Distinct(Targets(m.elements[n..n + 2], HorizontalHandDowns)))
  {
    assert ElementOk(m.nodes, m.elements, e);
    assert vn[0] in m.elements[e].vn && vn[1] in m.elements[e].vn && vn[2] in m.elements[e].vn && vn[3] in m.elements[e].vn;
    ghost var nodes0 := m.nodes;
    var xs := MidNodes(m, [(vn[1], vn[2]), (vn[3], vn[0])]);
    x1, x3 := xs[0], xs[1];
    HorizontalSonsApart(nodes0, m.nodes, vn, x1, x3);
    ghost var nodes1 := m.nodes;
    var n := |m.elements|;
    r := CreateSons(m, mk, HorizontalLayouts(vn, x1, x3));
    ReshapedTrans(nodes0, nodes1, m.nodes);
    if r.Pass? {
      HorizontalSonsFit(nodes0, m.nodes, m.elements, n, mk, vn, x1, x3);
    }
  }

  /** The sons of refinement 1 sit on vertex nodes, and a sound quad's two sons have their corners apart. */
  lemma HorizontalSonsApart(nodes0: seq<Node>, nodes: seq<Node>, vn: seq<int>, x1: int, x3: int)
    requires Reshaped(nodes0, nodes) && EndsOlder(nodes) && |vn| == 4
    requires VertexId(nodes0, vn[0]) && VertexId(nodes0, vn[1]) && VertexId(nodes0, vn[2]) && VertexId(nodes0, vn[3])
    requires VertexId(nodes, x1) && VertexId(nodes, x3)
    requires MidOf(nodes, x1, vn[1], vn[2]) && MidOf(nodes, x3, vn[3], vn[0])
    ensures OnVertices(nodes, HorizontalLayouts(vn, x1, x3))
    ensures Sound(vn, nodes0) ==> AllCornersApart(HorizontalLayouts(vn, x1, x3))
  {
    assert SameShape(nodes0[vn[0]], nodes[vn[0]]) && SameShape(nodes0[vn[1]], nodes[vn[1]]);
    assert SameShape(nodes0[vn[2]], nodes[vn[2]]) && SameShape(nodes0[vn[3]], nodes[vn[3]]);
    if Sound(vn, nodes0) {
      assert vn == [vn[0], vn[1], vn[2], vn[3]];
      SoundReshaped(vn, nodes0, nodes);
      HorizontalMidsApart(nodes, vn[0], vn[1], vn[2], vn[3], x1, x3);
    }
  }

  /** The fresh sons of refinement 1 fit `HorizontalHandDowns`, and under a sound parent its targets are distinct. */
  lemma HorizontalSonsFit(nodes0: seq<Node>, nodes: seq<Node>, els: seq<Element>, n: int, mk: int,
                          vn: seq<int>, x1: int, x3: int)
    requires Reshaped(nodes0, nodes) && EndsOlder(nodes) && |vn| == 4
    requires MidOf(nodes, x1, vn[1], vn[2]) && MidOf(nodes, x3, vn[3], vn[0])
    requires 0 <= n && |els| == n + 2 && forall e :: 0 <= e < |els| ==> ElementOk(nodes, els, e)
    requires SonsAt(els, n, mk, HorizontalLayouts(vn, x1, x3))
    ensures AllFit(els[n..n + 2], 4, HorizontalHandDowns)
    ensures Sound(vn, nodes0) ==> Distinct(Targets(els[n..n + 2], HorizontalHandDowns))
  {
    var sons := els[n..n + 2];
    SonsShaped(nodes, els, n, 2, sons);
    assert Fresh(els, n, mk, HorizontalLayouts(vn, x1, x3)[0]) && Fresh(els, n + 1, mk, HorizontalLayouts(vn, x1, x3)[1]);
    var s0, s1 := sons[0], sons[1];
    var v0, v1, v2, v3 := vn[0], vn[1], vn[2], vn[3];
    assert Shaped(nodes, s0) && Shaped(nodes, s1);
    assert s0.vn == [v0, v1, x1, x3] && s1.vn == [x3, x1, v2, v3];
    assert Targets(sons, HorizontalHandDowns) == [s0.en[0], s0.en[1], s0.en[3], s1.en[1], s1.en[2], s1.en[3], x1, x3];
    if Sound(vn, nodes0) {
      assert vn == [v0, v1, v2, v3];
      SoundReshaped(vn, nodes0, nodes);
      QuadSonEdges(nodes, s0, v0, v1, x1, x3);
      QuadSonEdges(nodes, s1, x3, x1, v2, v3);
      HorizontalWritesApart(nodes, v0, v1, v2, v3, x1, x3, s0.en[0], s0.en[1], s0.en[3], s1.en[1], s1.en[2], s1.en[3]);
    }
  }

  /** Under a sound parent, the eight nodes refinement 1 writes are distinct, by the ends they record. */
  lemma HorizontalWritesApart(nodes: seq<Node>, v0: int, v1: int, v2: int, v3: int, x1: int, x3: int,
                              a0: int, a1: int, a3: int, b1: int, b2: int, b3: int)
    requires EndsOlder(nodes) && Sound([v0, v1, v2, v3], nodes)
    requires MidOf(nodes, x1, v1, v2) && MidOf(nodes, x3, v3, v0)
    requires MidOf(nodes, a0, v0, v1) && MidOf(nodes, a1, v1, x1) && MidOf(nodes, a3, x3, v0)
    requires MidOf(nodes, b1, x1, v2) && MidOf(nodes, b2, v2, v3) && MidOf(nodes, b3, v3, x3)
    ensures Distinct([a0, a1, a3, b1, b2, b3, x1, x3])
  {
    HorizontalMidsApart(nodes, v0, v1, v2, v3, x1, x3);
    var ks := [KeyOf(v0, v1), KeyOf(v1, x1), KeyOf(x3, v0), KeyOf(x1, v2), KeyOf(v2, v3), KeyOf(v3, x3),
               KeyOf(v1, v2), KeyOf(v3, v0)];
    assert KeysApart(ks);
    MidEnds(nodes, a0, v0, v1); MidEnds(nodes, a1, v1, x1); MidEnds(nodes, a3, x3, v0);
    MidEnds(nodes, b1, x1, v2); MidEnds(nodes, b2, v2, v3); MidEnds(nodes, b3, v3, x3);
    MidEnds(nodes, x1, v1, v2); MidEnds(nodes, x3, v3, v0);
    ApartByEnds(nodes, [a0, a1, a3, b1, b2, b3, x1, x3], ks);
  }

  /** The adopted sons of refinement 1, read back as `HorizontalSplitOf`. */
  lemma HorizontalSplitShape(nodes1: seq<Node>, nodes: seq<Node>, els: seq<Element>, n: int, e: int, marker: int,
                             vn: seq<int>, x1: int, x3: int)
    requires |vn| == 4 && Reshaped(nodes1, nodes)
    requires MidOf(nodes1, x1, vn[1], vn[2]) && MidOf(nodes1, x3, vn[3], vn[0])
    requires 0 <= n && Adopted(els, n, e, marker, HorizontalLayouts(vn, x1, x3))
    ensures HorizontalSplitOf(nodes, vn, els, n)
  {
    var layouts := HorizontalLayouts(vn, x1, x3);
    assert layouts[0] == [vn[0], vn[1], x1, x3] && layouts[1] == [x3, x1, vn[2], vn[3]];
    MidReshaped(nodes1, nodes, x1, vn[1], vn[2]);
    MidReshaped(nodes1, nodes, x3, vn[3], vn[0]);
  }

  /** The corner lists of the two sons of refinement 2, in creation order. */
  function VerticalLayouts(vn: seq<int>, x0: int, x2: int): (ls: seq<seq<int>>)
    requires |vn| == 4
    ensures |ls| == 2
  {
    [[vn[0], x0, x2, vn[3]], [x0, vn[1], vn[2], x2]]
  }

  /**
   * The boundary writes of refinement 2, in source order: the left son
   * takes edges 0, 2 and 3, the right son edges 0, 1 and 2, and the two
   * mid-edge vertices the flags of edges 0 and 2.
   */
  const VerticalHandDowns: seq<HandDown> :=
    [EdgeDown(0, 0, 0), EdgeDown(0, 2, 2), EdgeDown(0, 3, 3),
     EdgeDown(1, 0, 0), EdgeDown(1, 1, 1), EdgeDown(1, 2, 2),
     VertexDown(0, 1, 0), VertexDown(0, 2, 2)]

  /**
   * Elements n and n + 1 of `els` are the sons of refinement 2 on quad
   * `vn`: with x0 and x2 the vertex nodes between the ends of edges 0 and 2,
   * the sons (v0, x0, x2, v3) and (x0, v1, v2, x2).  The parent keeps them
   * in its son slots 2 and 3.
   */
  ghost predicate VerticalSplitOf(nodes: seq<Node>, vn: seq<int>, els: seq<Element>, n: int)
  {
    |vn| == 4 && 0 <= n && |els| >= n + 2 && |els[n].vn| == 4
    && var x0, x2 := els[n].vn[1], els[n].vn[2];
    MidOf(nodes, x0, vn[0], vn[1]) && MidOf(nodes, x2, vn[2], vn[3])
    && els[n].vn == [vn[0], x0, x2, vn[3]] && els[n + 1].vn == [x0, vn[1], vn[2], x2]
  }

  /**
   * Refinement 2 once quad `p` (element `e`) is retired: its two sons
   * created, the parent's edge flags and markers handed down, the sons
   * adopted.
   */
  method QuadToVertical(m: Mesh, e: int, p: Element, bnd: seq<bool>, mrk: seq<int>, ghost nodes0: seq<Node>)
    returns (r: Outcome)
    requires m.Valid() && 0 <= e < |m.elements| && m.elements[e] == p.(active := false) && |p.vn| == 4
    requires ReadFrom(nodes0, p.en, bnd, mrk) && Reshaped(nodes0, m.nodes) && |p.en| == 4
    modifies m
    ensures m.Valid() && |m.elements| >= old(|m.elements|)
    ensures forall i :: 0 <= i < old(|m.elements|) && r.Fail? ==> m.elements[i] == old(m.elements[i])
    ensures r.Fail? ==> m.Counters() == old(m.Counters())
    ensures r.Fail? && Sound(p.vn, nodes0) ==> r.error == SharedX || r.error == SharedY
    ensures r.Pass? ==> var n := old(|m.elements|);
      |m.elements| == n + 2 && Replaced(old(m.elements), m.elements, e, n, QuadSlots(2, n))
    ensures r.Pass? ==> VerticalSplitOf(m.nodes, p.vn, m.elements, old(|m.elements|))
    ensures r.Pass? ==> m.nactive == old(m.nactive) + 2 && m.Stamps() == old(m.Stamps())
    ensures r.Pass? ==> ActiveCount(m.elements) == ActiveCount(old(m.elements)) + 2
    ensures r.Pass? && Sound(p.vn, nodes0) ==>
      Kept(nodes0, m.nodes, p.en, m.elements[old(|m.elements|)..], VerticalHandDowns)
  {
    if Sound(p.vn, nodes0) {
      SoundReshaped(p.vn, nodes0, m.nodes);
    }
    var n := |m.elements|;
    var x0, x2;
    r, x0, x2 := VerticalSons(m, e, p.vn, p.marker);
    if r.Fail? { return; }
    ghost var nodes1 := m.nodes;
    assert m.elements[e] == p.(active := false);
    HandDownAndAdopt(m, e, nodes0, p.en, n, 2, 2, QuadSlots(2, n), VerticalHandDowns, bnd, mrk,
                     Sound(p.vn, nodes0), p.marker, VerticalLayouts(p.vn, x0, x2));
    VerticalSplitShape(nodes1, m.nodes, m.elements, n, e, p.marker, p.vn, x0, x2);
  }

  /** The mid-edge vertex nodes x0 and x2 of quad `e` (corners `vn`) looked up or created, then the two sons of refinement 2. */
  method VerticalSons(m: Mesh, e: int, vn: seq<int>, mk: int) returns (r: Outcome, x0: int, x2: int)
    requires m.Valid() && 0 <= e < |m.elements| && m.elements[e].vn == vn && |vn| == 4
    modifies m
    ensures m.Valid() && Reshaped(old(m.nodes), m.nodes) && m.Counters() == old(m.Counters())
    ensures |m.elements| >= old(|m.elements|)
    ensures forall i :: 0 <= i < old(|m.elements|) ==> m.elements[i] == old(m.elements[i])
    ensures r.Fail? && Sound(vn, old(m.nodes)) ==> r.error == SharedX || r.error == SharedY
    ensures MidOf(m.nodes, x0, vn[0], vn[1]) && MidOf(m.nodes, x2, vn[2], vn[3])
    ensures r.Pass? ==> var n := old(|m.elements|);
      |m.elements| == n + 2 && ActiveCount(m.elements) == ActiveCount(old(m.elements)) + 2
      && SonsAt(m.elements, n, mk, VerticalLayouts(vn, x0, x2))
      && AllFit(m.elements[n..n + 2], 4, VerticalHandDowns)
      && (Sound(vn, old(m.nodes)) ==> Distinct(Targets(m.elements[n..n + 2], VerticalHandDowns)))
  {
    assert ElementOk(m.nodes, m.elements, e);
    assert vn[0] in m.elements[e].vn && vn[1] in m.elements[e].vn && vn[2] in m.elements[e].vn && vn[3] in m.elements[e].vn;
    ghost var nodes0 := m.nodes;
    var xs := MidNodes(m, [(vn[0], vn[1]), (vn[2], vn[3])]);
    x0, x2 := xs[0], xs[1];
    VerticalSonsApart(nodes0, m.nodes, vn, x0, x2);
    ghost var nodes1 := m.nodes;
    var n := |m.elements|;
    r := CreateSons(m, mk, VerticalLayouts(vn, x0, x2));
    ReshapedTrans(nodes0, nodes1, m.nodes);
    if r.Pass? {
      VerticalSonsFit(nodes0, m.nodes, m.elements, n, mk, vn, x0, x2);
    }
  }

  /** The sons of refinement 2 sit on vertex nodes, and a sound quad's two sons have their corners apart. */
  lemma VerticalSonsApart(nodes0: seq<Node>, nodes: seq<Node>, vn: seq<int>, x0: int, x2: int)
    requires Reshaped(nodes0, nodes) && EndsOlder(nodes) && |vn| == 4
    requires VertexId(nodes0, vn[0]) && VertexId(nodes0, vn[1]) && VertexId(nodes0, vn[2]) && VertexId(nodes0, vn[3])
    requires VertexId(nodes, x0) && VertexId(nodes, x2)
    requires MidOf(nodes, x0, vn[0], vn[1]) && MidOf(nodes, x2, vn[2], vn[3])
    ensures OnVertices(nodes, VerticalLayouts(vn, x0, x2))
    ensures Sound(vn, nodes0) ==> AllCornersApart(VerticalLayouts(vn, x0, x2))
  {
    assert SameShape(nodes0[vn[0]], nodes[vn[0]]) && SameShape(nodes0[vn[1]], nodes[vn[1]]);
    assert SameShape(nodes0[vn[2]], nodes[vn[2]]) && SameShape(nodes0[vn[3]], nodes[vn[3]]);
    if Sound(vn, nodes0) {
      assert vn == [vn[0], vn[1], vn[2], vn[3]];
      SoundReshaped(vn, nodes0, nodes);
      VerticalMidsApart(nodes, vn[0], vn[1], vn[2], vn[3], x0, x2);
    }
  }

  /** The fresh sons of refinement 2 fit `VerticalHandDowns`, and under a sound parent its targets are distinct. */
  lemma VerticalSonsFit(nodes0: seq<Node>, nodes: seq<Node>, els: seq<Element>, n: int, mk: int,
                        vn: seq<int>, x0: int, x2: int)
    requires Reshaped(nodes0, nodes) && EndsOlder(nodes) && |vn| == 4
    requires MidOf(nodes, x0, vn[0], vn[1]) && MidOf(nodes, x2, vn[2], vn[3])
    requires 0 <= n && |els| == n + 2 && forall e :: 0 <= e < |els| ==> ElementOk(nodes, els, e)
    requires SonsAt(els, n, mk, VerticalLayouts(vn, x0, x2))
    ensures AllFit(els[n..n + 2], 4, VerticalHandDowns)
    ensures Sound(vn, nodes0) ==> Distinct(Targets(els[n..n + 2], VerticalHandDowns))
  {
    var sons := els[n..n + 2];
    SonsShaped(nodes, els, n, 2, sons);
    assert Fresh(els, n, mk, VerticalLayouts(vn, x0, x2)[0]) && Fresh(els, n + 1, mk, VerticalLayouts(vn, x0, x2)[1]);
    var s0, s1 := sons[0], sons[1];
    var v0, v1, v2, v3 := vn[0], vn[1], vn[2], vn[3];
    assert Shaped(nodes, s0) && Shaped(nodes, s1);
    assert s0.vn == [v0, x0, x2, v3] && s1.vn == [x0, v1, v2, x2];
    assert Targets(sons, VerticalHandDowns) == [s0.en[0], s0.en[2], s0.en[3], s1.en[0], s1.en[1], s1.en[2], x0, x2];
    if Sound(vn, nodes0) {
      assert vn == [v0, v1, v2, v3];
      SoundReshaped(vn, nodes0, nodes);
      QuadSonEdges(nodes, s0, v0, x0, x2, v3);
      QuadSonEdges(nodes, s1, x0, v1, v2, x2);
      VerticalWritesApart(nodes, v0, v1, v2, v3, x0, x2, s0.en[0], s0.en[2], s0.en[3], s1.en[0], s1.en[1], s1.en[2]);
    }
  }

  /** Under a sound parent, the eight nodes refinement 2 writes are distinct, by the ends they record. */
  lemma VerticalWritesApart(nodes: seq<Node>, v0: int, v1: int, v2: int, v3: int, x0: int, x2: int,
                            a0: int, a2: int, a3: int, b0: int, b1: int, b2: int)
    requires EndsOlder(nodes) && Sound([v0, v1, v2, v3], nodes)
    requires MidOf(nodes, x0, v0, v1) && MidOf(nodes, x2, v2, v3)
    requires MidOf(nodes, a0, v0, x0) && MidOf(nodes, a2, x2, v3) && MidOf(nodes, a3, v3, v0)
    requires MidOf(nodes, b0, x0, v1) && MidOf(nodes, b1, v1, v2) && MidOf(nodes, b2, v2, x2)
    ensures Distinct([a0, a2, a3, b0, b1, b2, x0, x2])
  {
    VerticalMidsApart(nodes, v0, v1, v2, v3, x0, x2);
    var ks := [KeyOf(v0, x0), KeyOf(x2, v3), KeyOf(v3, v0), KeyOf(x0, v1), KeyOf(v1, v2), KeyOf(v2, x2),
               KeyOf(v0, v1), KeyOf(v2, v3)];
    assert KeysApart(ks);
    MidEnds(nodes, a0, v0, x0); MidEnds(nodes, a2, x2, v3); MidEnds(nodes, a3, v3, v0);
    MidEnds(nodes, b0, x0, v1); MidEnds(nodes, b1, v1, v2); MidEnds(nodes, b2, v2, x2);
    MidEnds(nodes, x0, v0, v1); MidEnds(nodes, x2, v2, v3);
    ApartByEnds(nodes, [a0, a2, a3, b0, b1, b2, x0, x2], ks);
  }

  /** The adopted sons of refinement 2, read back as `VerticalSplitOf`. */
  lemma VerticalSplitShape(nodes1: seq<Node>, nodes: seq<Node>, els: seq<Element>, n: int, e: int, marker: int,
                           vn: seq<int>, x0: int, x2: int)
    requires |vn| == 4 && Reshaped(nodes1, nodes)
    requires MidOf(nodes1, x0, vn[0], vn[1]) && MidOf(nodes1, x2, vn[2], vn[3])
    requires 0 <= n && Adopted(els, n, e, marker, VerticalLayouts(vn, x0, x2))
    ensures VerticalSplitOf(nodes, vn, els, n)
  {
    var layouts := VerticalLayouts(vn, x0, x2);
    assert layouts[0] == [vn[0], x0, x2, vn[3]] && layouts[1] == [x0, vn[1], vn[2], x2];
    MidReshaped(nodes1, nodes, x0, vn[0], vn[1]);
    MidReshaped(nodes1, nodes, x2, vn[2], vn[3]);
  }
}
