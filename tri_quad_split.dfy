/**
 * `refine_triangle_to_quads` (hermes2d/src/mesh/mesh.cpp): a triangle
 * (v0, v1, v2) is split into three quads around a centre vertex node placed
 * at the centroid of the three mid-edge vertex nodes x0, x1, x2.  The sons
 * are created first, then the parent is retired and the boundary flags and
 * markers of its three edges are handed down to the six son edges that lie
 * on them.
 *
 * The centre node is registered between x0 and v2 (`CentreKey`), the median
 * through x0; the source registers it between x0 and v1
 * (`CentreKeyAsWritten`, see `AsWrittenCentreBreaksSon1`).
 */
module TriangleQuadSplit {
  import opened MeshData
  import opened MeshModel
  import opened SplitFlags
  import opened MeshRefine

  /** The corner lists of the three sons, in creation order. */
  function TriangleQuadLayouts(vn: seq<int>, x0: int, x1: int, x2: int, mid: int): (ls: seq<seq<int>>)
    requires |vn| == 3
    ensures |ls| == 3
  {
    [[vn[0], x0, mid, x2], [x0, vn[1], x1, mid], [x1, vn[2], x2, mid]]
  }

  /**
   * The boundary writes, in source order: son i takes the flag and marker of
   * parent edge i on its edge 0, and of the parent edge before it on its
   * other outer edge (edge 3 for son 0, edge 1 for sons 1 and 2).
   */
  const TriangleQuadHandDowns: seq<HandDown> :=
    [EdgeDown(0, 0, 0), EdgeDown(0, 3, 2), EdgeDown(1, 0, 0), EdgeDown(1, 1, 1),
     EdgeDown(2, 0, 1), EdgeDown(2, 1, 2)]

  /** The son slots of the parent: the three sons, then an empty slot. */
  function TriangleQuadSlots(n: int): (slots: seq<int>)
    ensures |slots| == 4
    ensures forall s :: s in slots ==> s == Null || n <= s < n + 3
    ensures forall s :: n <= s < n + 3 ==> s in slots
  {
    [n, n + 1, n + 2, Null]
  }

  /**
   * Elements n .. n + 2 of `els` are the three sons on triangle `vn`: with
   * x0, x1, x2 the vertex nodes between the ends of edges 0, 1, 2 and mid
   * the vertex node registered between x0 and v2, the sons (v0, x0, mid, x2),
   * (x0, v1, x1, mid) and (x1, v2, x2, mid).
   */
  ghost predicate TriangleQuadSplitOf(nodes: seq<Node>, vn: seq<int>, els: seq<Element>, n: int)
  {
    |vn| == 3 && 0 <= n && |els| >= n + 3 && |els[n].vn| == 4 && |els[n + 1].vn| == 4
    && var x0, x1, x2, mid := els[n].vn[1], els[n + 1].vn[2], els[n].vn[3], els[n].vn[2];
    MidOf(nodes, x0, vn[0], vn[1]) && MidOf(nodes, x1, vn[1], vn[2]) && MidOf(nodes, x2, vn[2], vn[0])
    && MidOf(nodes, mid, x0, vn[2])
    && els[n].vn == [vn[0], x0, mid, x2] && els[n + 1].vn == [x0, vn[1], x1, mid] && els[n + 2].vn == [x1, vn[2], x2, mid]
  }

  /** Node `mid` sits at the centroid of nodes x0, x1 and x2. */
  ghost predicate AtCentroid(nodes: seq<Node>, mid: int, x0: int, x1: int, x2: int)
  {
    0 <= mid < |nodes| && 0 <= x0 < |nodes| && 0 <= x1 < |nodes| && 0 <= x2 < |nodes|
    && nodes[mid].x == (nodes[x0].x + nodes[x1].x + nodes[x2].x) / 3.0
    && nodes[mid].y == (nodes[x0].y + nodes[x1].y + nodes[x2].y) / 3.0
  }

  /**
   * `refine_triangle_to_quads`: the active triangle `e` gets three quad sons
   * (appended to the element arena) and becomes inactive; `nactive` grows
   * by two.  Under a sound parent every row of `TriangleQuadHandDowns` holds
   * afterwards.  When creating a son fails (its corners share a
   * coordinate), the split stops there, with the parent still active.
   */
  method RefineTriangleToQuads(m: Mesh, e: int) returns (r: Outcome)
    requires m.Valid() && 0 <= e < |m.elements|
    requires Live(m.elements[e]) && m.elements[e].IsTriangle()
    modifies m
    ensures m.Valid() && |m.elements| >= old(|m.elements|)
    ensures r.Fail? ==> m.elements[e] == old(m.elements[e]) && m.Counters() == old(m.Counters())
    ensures r.Fail? && old(Sound(m.elements[e].vn, m.nodes)) ==> r.error == SharedX || r.error == SharedY
    ensures r.Pass? ==> var n := old(|m.elements|);
      |m.elements| == n + 3 && Replaced(old(m.elements), m.elements, e, n, TriangleQuadSlots(n))
    ensures r.Pass? ==> TriangleQuadSplitOf(m.nodes, old(m.elements[e].vn), m.elements, old(|m.elements|))
    ensures r.Pass? ==> m.nactive == old(m.nactive) + 2 && m.Stamps() == old(m.Stamps())
    ensures r.Pass? ==> old(m.Counted()) ==> m.Counted()
    ensures r.Pass? && old(Sound(m.elements[e].vn, m.nodes)) ==>
      Kept(old(m.nodes), m.nodes, old(m.elements[e].en), m.elements[old(|m.elements|)..], TriangleQuadHandDowns)
  {
    var p := m.elements[e];
    assert ElementOk(m.nodes, m.elements, e);
    var flags := ParentFlags(m.nodes, p.en);
    var bnd, mrk := flags.0, flags.1;
    ghost var nodes0 := m.nodes;
    var n := |m.elements|;
    var x0, x1, x2, mid;
    r, x0, x1, x2, mid := TriangleQuadSons(m, e, p.vn, p.marker);
    if r.Fail? { return; }
    ghost var nodes1, els1 := m.nodes, m.elements;
    RetireAndHandDown(m, e, nodes0, p.en, n, 3, 2, TriangleQuadSlots(n), TriangleQuadHandDowns, bnd, mrk,
                      Sound(p.vn, nodes0), p.marker, TriangleQuadLayouts(p.vn, x0, x1, x2, mid));
    TriangleQuadSplitShape(nodes1, m.nodes, m.elements, n, e, p.marker, p.vn, x0, x1, x2, mid);
    ReplacedFrom(old(m.elements), els1, m.elements, e, n, TriangleQuadSlots(n));
  }

  /**
   * The vertex nodes of the split looked up or created and the centre placed
   * at the centroid, then the three sons created on them.
   */
  method TriangleQuadSons(m: Mesh, e: int, vn: seq<int>, mk: int) returns (r: Outcome, x0: int, x1: int, x2: int, mid: int)
    requires m.Valid() && 0 <= e < |m.elements| && m.elements[e].vn == vn && |vn| == 3
    modifies m
    ensures m.Valid() && Reshaped(old(m.nodes), m.nodes) && m.Counters() == old(m.Counters())
    ensures |m.elements| >= old(|m.elements|)
    ensures forall i :: 0 <= i < old(|m.elements|) ==> m.elements[i] == old(m.elements[i])
    ensures r.Fail? && Sound(vn, old(m.nodes)) ==> r.error == SharedX || r.error == SharedY
    ensures MidOf(m.nodes, x0, vn[0], vn[1]) && MidOf(m.nodes, x1, vn[1], vn[2]) && MidOf(m.nodes, x2, vn[2], vn[0])
    ensures MidOf(m.nodes, mid, x0, vn[2])
    ensures r.Pass? ==> var n := old(|m.elements|);
      |m.elements| == n + 3 && ActiveCount(m.elements) == ActiveCount(old(m.elements)) + 3
      && SonsAt(m.elements, n, mk, TriangleQuadLayouts(vn, x0, x1, x2, mid))
      && AllFit(m.elements[n..n + 3], 3, TriangleQuadHandDowns)
      && (Sound(vn, old(m.nodes)) ==> Distinct(Targets(m.elements[n..n + 3], TriangleQuadHandDowns)))
  {
    ghost var nodes0 := m.nodes;
    x0, x1, x2, mid := TriangleQuadMids(m, e, vn);
    ghost var nodes1 := m.nodes;
    var n := |m.elements|;
    r := CreateSons(m, mk, TriangleQuadLayouts(vn, x0, x1, x2, mid));
    ReshapedTrans(nodes0, nodes1, m.nodes);
    if r.Pass? {
      TriangleQuadSonsFit(nodes0, m.nodes, m.elements, n, mk, vn, x0, x1, x2, mid);
    }
  }

  /**
   * The mid-edge vertex nodes x0, x1, x2 and the centre node looked up or
   * created, then the centre moved to the centroid of x0, x1 and x2.
   */
  method TriangleQuadMids(m: Mesh, e: int, vn: seq<int>) returns (x0: int, x1: int, x2: int, mid: int)
    requires m.Valid() && 0 <= e < |m.elements| && m.elements[e].vn == vn && |vn| == 3
    modifies m
    ensures m.Valid() && Reshaped(old(m.nodes), m.nodes) && m.Counters() == old(m.Counters())
    ensures m.elements == old(m.elements)
    ensures MidOf(m.nodes, x0, vn[0], vn[1]) && MidOf(m.nodes, x1, vn[1], vn[2]) && MidOf(m.nodes, x2, vn[2], vn[0])
    ensures MidOf(m.nodes, mid, x0, vn[2]) && AtCentroid(m.nodes, mid, x0, x1, x2)
    ensures OnVertices(m.nodes, TriangleQuadLayouts(vn, x0, x1, x2, mid))
    ensures Sound(vn, old(m.nodes)) ==> AllCornersApart(TriangleQuadLayouts(vn, x0, x1, x2, mid))
  {
    assert ElementOk(m.nodes, m.elements, e);
    assert vn[0] in m.elements[e].vn && vn[1] in m.elements[e].vn && vn[2] in m.elements[e].vn;
    ghost var nodes0 := m.nodes;
    x0, x1, x2, mid := TriangleQuadCorners(m, e, vn);
    ghost var nodes1 := m.nodes;
    m.SetNodePosition(mid, (m.nodes[x0].x + m.nodes[x1].x + m.nodes[x2].x) / 3.0,
                           (m.nodes[x0].y + m.nodes[x1].y + m.nodes[x2].y) / 3.0);
    ReshapedTrans(nodes0, nodes1, m.nodes);
    MidReshaped(nodes1, m.nodes, x0, vn[0], vn[1]);
    MidReshaped(nodes1, m.nodes, x1, vn[1], vn[2]);
    MidReshaped(nodes1, m.nodes, x2, vn[2], vn[0]);
    MidReshaped(nodes1, m.nodes, mid, x0, vn[2]);
    assert SameShape(nodes1[mid], m.nodes[mid]);
    TriangleQuadSonsApart(nodes0, m.nodes, vn, x0, x1, x2, mid);
  }

  /**
   * The vertex nodes between the ends of each edge of triangle `vn`, and the
   * centre node between x0 and v2, looked up or created.
   */
  method TriangleQuadCorners(m: Mesh, e: int, vn: seq<int>) returns (x0: int, x1: int, x2: int, mid: int)
    requires m.Valid() && 0 <= e < |m.elements| && m.elements[e].vn == vn && |vn| == 3
    modifies m
    ensures m.Valid() && Reshaped(old(m.nodes), m.nodes) && m.Counters() == old(m.Counters())
    ensures m.elements == old(m.elements)
    ensures MidOf(m.nodes, x0, vn[0], vn[1]) && MidOf(m.nodes, x1, vn[1], vn[2]) && MidOf(m.nodes, x2, vn[2], vn[0])
    ensures MidOf(m.nodes, mid, x0, vn[2])
    ensures VertexId(m.nodes, x0) && VertexId(m.nodes, x1) && VertexId(m.nodes, x2) && VertexId(m.nodes, mid)
    ensures mid != x0 && mid != x1 && mid != x2
  {
    assert ElementOk(m.nodes, m.elements, e);
    assert vn[0] in m.elements[e].vn && vn[1] in m.elements[e].vn && vn[2] in m.elements[e].vn;
    ghost var nodes0 := m.nodes;
    var xs := MidNodes(m, [(vn[0], vn[1]), (vn[1], vn[2]), (vn[2], vn[0])]);
    x0, x1, x2 := xs[0], xs[1], xs[2];
    ghost var nodes1 := m.nodes;
    var k := CentreKey(vn[1], vn[2], x0);
    var ms := MidNodes(m, [(k.0, k.1)]);
    mid := ms[0];
    ReshapedTrans(nodes0, nodes1, m.nodes);
    MidReshaped(nodes1, m.nodes, x0, vn[0], vn[1]);
    MidReshaped(nodes1, m.nodes, x1, vn[1], vn[2]);
    MidReshaped(nodes1, m.nodes, x2, vn[2], vn[0]);
    CentreApart(m.nodes, vn[0], vn[1], vn[2], x0, x1, x2, mid);
  }

  /**
   * The centre node is none of the mid-edge nodes, whatever the parent: it
   * is younger than x0 and records other ends than x1 and x2.
   */
  lemma CentreApart(nodes: seq<Node>, v0: int, v1: int, v2: int, x0: int, x1: int, x2: int, mid: int)
    requires EndsOlder(nodes)
    requires MidOf(nodes, x0, v0, v1) && MidOf(nodes, x1, v1, v2) && MidOf(nodes, x2, v2, v0)
    requires MidOf(nodes, mid, x0, v2)
    ensures mid != x0 && mid != x1 && mid != x2
  {
    MidIsYounger(nodes, x0, v0, v1);
    MidIsYounger(nodes, mid, x0, v2);
    MidEnds(nodes, mid, x0, v2);
    MidEnds(nodes, x1, v1, v2);
    MidEnds(nodes, x2, v2, v0);
  }

  /** The sons sit on vertex nodes, and under a sound parent each son has its corners apart. */
  lemma TriangleQuadSonsApart(nodes0: seq<Node>, nodes: seq<Node>, vn: seq<int>, x0: int, x1: int, x2: int, mid: int)
    requires Reshaped(nodes0, nodes) && EndsOlder(nodes) && |vn| == 3
    requires VertexId(nodes0, vn[0]) && VertexId(nodes0, vn[1]) && VertexId(nodes0, vn[2])
    requires MidOf(nodes, x0, vn[0], vn[1]) && MidOf(nodes, x1, vn[1], vn[2]) && MidOf(nodes, x2, vn[2], vn[0])
    requires MidOf(nodes, mid, x0, vn[2])
    requires VertexId(nodes, x0) && VertexId(nodes, x1) && VertexId(nodes, x2) && VertexId(nodes, mid)
    ensures OnVertices(nodes, TriangleQuadLayouts(vn, x0, x1, x2, mid))
    ensures Sound(vn, nodes0) ==> AllCornersApart(TriangleQuadLayouts(vn, x0, x1, x2, mid))
  {
    assert SameShape(nodes0[vn[0]], nodes[vn[0]]) && SameShape(nodes0[vn[1]], nodes[vn[1]]);
    assert SameShape(nodes0[vn[2]], nodes[vn[2]]);
    if Sound(vn, nodes0) {
      assert vn == [vn[0], vn[1], vn[2]];
      SoundReshaped(vn, nodes0, nodes);
      TriangleQuadSonsSound(nodes, vn[0], vn[1], vn[2], x0, x1, x2, mid);
    }
  }

  /** The fresh sons fit `TriangleQuadHandDowns`, and under a sound parent its targets are distinct. */
  lemma TriangleQuadSonsFit(nodes0: seq<Node>, nodes: seq<Node>, els: seq<Element>, n: int, mk: int,
                            vn: seq<int>, x0: int, x1: int, x2: int, mid: int)
    requires Reshaped(nodes0, nodes) && EndsOlder(nodes) && |vn| == 3
    requires MidOf(nodes, x0, vn[0], vn[1]) && MidOf(nodes, x1, vn[1], vn[2]) && MidOf(nodes, x2, vn[2], vn[0])
    requires 0 <= n && |els| == n + 3 && forall e :: 0 <= e < |els| ==> ElementOk(nodes, els, e)
    requires SonsAt(els, n, mk, TriangleQuadLayouts(vn, x0, x1, x2, mid))
    ensures AllFit(els[n..n + 3], 3, TriangleQuadHandDowns)
    ensures Sound(vn, nodes0) ==> Distinct(Targets(els[n..n + 3], TriangleQuadHandDowns))
  {
    var sons := els[n..n + 3];
    var ls := TriangleQuadLayouts(vn, x0, x1, x2, mid);
    SonsShaped(nodes, els, n, 3, sons);
    assert Fresh(els, n, mk, ls[0]) && Fresh(els, n + 1, mk, ls[1]) && Fresh(els, n + 2, mk, ls[2]);
    var s0, s1, s2 := sons[0], sons[1], sons[2];
    var v0, v1, v2 := vn[0], vn[1], vn[2];
    assert Shaped(nodes, s0) && Shaped(nodes, s1) && Shaped(nodes, s2);
    assert s0.vn == [v0, x0, mid, x2] && s1.vn == [x0, v1, x1, mid] && s2.vn == [x1, v2, x2, mid];
    assert Targets(sons, TriangleQuadHandDowns) == [s0.en[0], s0.en[3], s1.en[0], s1.en[1], s2.en[0], s2.en[1]];
    if Sound(vn, nodes0) {
      assert vn == [v0, v1, v2];
      SoundReshaped(vn, nodes0, nodes);
      QuadCornerEdges(nodes, s0, v0, x0, mid, x2);
      QuadCornerEdges(nodes, s1, x0, v1, x1, mid);
      QuadCornerEdges(nodes, s2, x1, v2, x2, mid);
      TriangleQuadWritesApart(nodes, v0, v1, v2, x0, x1, x2, s0.en[0], s0.en[3], s1.en[0], s1.en[1], s2.en[0], s2.en[1]);
    }
  }

  /** The edge nodes of a shaped quad with corners a, b, c, d lie between consecutive corners. */
  lemma QuadCornerEdges(nodes: seq<Node>, s: Element, a: int, b: int, c: int, d: int)
    requires Shaped(nodes, s) && s.vn == [a, b, c, d]
    ensures |s.en| == 4
    ensures MidOf(nodes, s.en[0], a, b) && MidOf(nodes, s.en[1], b, c)
    ensures MidOf(nodes, s.en[2], c, d) && MidOf(nodes, s.en[3], d, a)
  {
    assert EdgeOf(nodes, s, 0) && EdgeOf(nodes, s, 1) && EdgeOf(nodes, s, 2) && EdgeOf(nodes, s, 3);
  }

  /**
   * Under a sound parent, the six son edges the split writes are distinct:
   * each joins a corner and a mid-edge vertex, and no two join the same pair.
   */
  lemma TriangleQuadWritesApart(nodes: seq<Node>, v0: int, v1: int, v2: int, x0: int, x1: int, x2: int,
                                a0: int, a3: int, b0: int, b1: int, c0: int, c1: int)
    requires EndsOlder(nodes) && Sound([v0, v1, v2], nodes)
    requires MidOf(nodes, x0, v0, v1) && MidOf(nodes, x1, v1, v2) && MidOf(nodes, x2, v2, v0)
    requires MidOf(nodes, a0, v0, x0) && MidOf(nodes, a3, x2, v0) && MidOf(nodes, b0, x0, v1)
    requires MidOf(nodes, b1, v1, x1) && MidOf(nodes, c0, x1, v2) && MidOf(nodes, c1, v2, x2)
    ensures Distinct([a0, a3, b0, b1, c0, c1])
  {
    MidIsYounger(nodes, x0, v0, v1);
    MidIsYounger(nodes, x1, v1, v2);
    MidIsYounger(nodes, x2, v2, v0);
    var ks := [KeyOf(v0, x0), KeyOf(x2, v0), KeyOf(x0, v1), KeyOf(v1, x1), KeyOf(x1, v2), KeyOf(v2, x2)];
    assert KeysApart(ks);
    MidEnds(nodes, a0, v0, x0); MidEnds(nodes, a3, x2, v0); MidEnds(nodes, b0, x0, v1);
    MidEnds(nodes, b1, v1, x1); MidEnds(nodes, c0, x1, v2); MidEnds(nodes, c1, v2, x2);
    ApartByEnds(nodes, [a0, a3, b0, b1, c0, c1], ks);
  }

  /** The adopted sons, read back as `TriangleQuadSplitOf`. */
  lemma TriangleQuadSplitShape(nodes1: seq<Node>, nodes: seq<Node>, els: seq<Element>, n: int, e: int, marker: int,
                               vn: seq<int>, x0: int, x1: int, x2: int, mid: int)
    requires |vn| == 3 && Reshaped(nodes1, nodes)
    requires MidOf(nodes1, x0, vn[0], vn[1]) && MidOf(nodes1, x1, vn[1], vn[2]) && MidOf(nodes1, x2, vn[2], vn[0])
    requires MidOf(nodes1, mid, x0, vn[2])
    requires 0 <= n && Adopted(els, n, e, marker, TriangleQuadLayouts(vn, x0, x1, x2, mid))
    ensures TriangleQuadSplitOf(nodes, vn, els, n)
  {
    var layouts := TriangleQuadLayouts(vn, x0, x1, x2, mid);
    assert layouts[0] == [vn[0], x0, mid, x2] && layouts[1] == [x0, vn[1], x1, mid] && layouts[2] == [x1, vn[2], x2, mid];
    MidReshaped(nodes1, nodes, x0, vn[0], vn[1]);
    MidReshaped(nodes1, nodes, x1, vn[1], vn[2]);
    MidReshaped(nodes1, nodes, x2, vn[2], vn[0]);
    MidReshaped(nodes1, nodes, mid, x0, vn[2]);
  }
}
