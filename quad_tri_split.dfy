/**
 * `refine_quad_to_triangles` (hermes2d/src/mesh/mesh.cpp): a quad
 * (v0, v1, v2, v3) is cut along one of its diagonals into two triangles.
 * The parent is retired first; the cut runs along v0–v2 unless that
 * diagonal is strictly longer than v1–v3.  No vertex node is created; the
 * diagonal's edge node comes with the sons.  The four parent edges hand
 * their flags and markers down to the son edges lying on them, and one
 * corner of each son takes the boundary flag of a parent edge.
 *
 * On the v0–v2 cut the source gives corner v0 of the second son the flag of
 * parent edge 1 (v1, v2), which does not touch v0; the model uses parent
 * edge 3 (v3, v0), the edge whose son edge ends there
 * (`AsWrittenVertexOffEdge`).
 */
module QuadTriangleSplit {
  import opened MeshData
  import opened MeshModel
  import opened SplitFlags
  import opened MeshRefine

  /** The squared distance between the places of two nodes. */
  function SqDist(a: Node, b: Node): (d: real)
    ensures d >= 0.0
  {
    (a.x - b.x) * (a.x - b.x) + (a.y - b.y) * (a.y - b.y)
  }

  /** Whether the split cuts along v0–v2 (`bcheck`): unless v0–v2 is strictly the longer diagonal. */
  function CutsFirstDiagonal(nodes: seq<Node>, vn: seq<int>): bool
    requires |vn| == 4 && forall i :: 0 <= i < 4 ==> 0 <= vn[i] < |nodes|
  {
    !(SqDist(nodes[vn[0]], nodes[vn[2]]) > SqDist(nodes[vn[1]], nodes[vn[3]]))
  }

  /** The corner lists of the two sons: cut along v0–v2, or along v1–v3. */
  function QuadTriangleLayouts(vn: seq<int>, first: bool): (ls: seq<seq<int>>)
    requires |vn| == 4
    ensures |ls| == 2 && |ls[0]| == 3 && |ls[1]| == 3
  {
    if first then [[vn[0], vn[1], vn[2]], [vn[2], vn[3], vn[0]]]
    else [[vn[1], vn[2], vn[3]], [vn[3], vn[0], vn[1]]]
  }

  /**
   * The boundary writes of the split, corrected: each son's edges 0 and 1
   * take the parent edges they lie on; vertex 1 of son 0 (where its edges 0
   * and 1 meet) and vertex 2 of son 1 (the far end of its edge 1) take the
   * flag of the parent edge their son's edge 0, respectively edge 1, lies on.
   */
  function QuadTriangleHandDowns(first: bool): (hs: seq<HandDown>)
    ensures |hs| == 6
  {
    if first then
      [EdgeDown(0, 0, 0), EdgeDown(0, 1, 1), VertexDown(0, 1, 0),
       EdgeDown(1, 0, 2), EdgeDown(1, 1, 3), VertexDown(1, 2, 3)]
    else
      [EdgeDown(0, 0, 1), EdgeDown(0, 1, 2), VertexDown(0, 1, 1),
       EdgeDown(1, 0, 3), EdgeDown(1, 1, 0), VertexDown(1, 2, 0)]
  }

  /** The boundary writes as the source makes them: on the v0–v2 cut, vertex 2 of son 1 reads parent edge 1. */
  function QuadTriangleHandDownsAsWritten(first: bool): (hs: seq<HandDown>)
    ensures |hs| == 6
  {
    if first then
      [EdgeDown(0, 0, 0), EdgeDown(0, 1, 1), VertexDown(0, 1, 0),
       EdgeDown(1, 0, 2), EdgeDown(1, 1, 3), VertexDown(1, 2, 1)]
    else
      [EdgeDown(0, 0, 1), EdgeDown(0, 1, 2), VertexDown(0, 1, 1),
       EdgeDown(1, 0, 3), EdgeDown(1, 1, 0), VertexDown(1, 2, 0)]
  }

  /**
   * Every vertex row of `hs` gives a corner of the sons (`layouts`) the flag
   * of a parent edge (of the polygon `vn`) that has that corner as an end.
   */
  predicate VerticesOnTheirEdges(vn: seq<int>, layouts: seq<seq<int>>, hs: seq<HandDown>)
  {
    forall i :: 0 <= i < |hs| && hs[i].VertexDown? ==>
      var h := hs[i];
      h.son < |layouts| && h.vertex < |layouts[h.son]| && h.from < |vn|
      && (layouts[h.son][h.vertex] == vn[h.from] || layouts[h.son][h.vertex] == vn[(h.from + 1) % |vn|])
  }

  /** Both corrected tables give each corner the flag of an edge it ends. */
  lemma QuadTriangleVerticesOnEdges(vn: seq<int>, first: bool)
    requires |vn| == 4
    ensures VerticesOnTheirEdges(vn, QuadTriangleLayouts(vn, first), QuadTriangleHandDowns(first))
  {
    var hs, ls := QuadTriangleHandDowns(first), QuadTriangleLayouts(vn, first);
    forall i | 0 <= i < |hs| && hs[i].VertexDown?
      ensures ls[hs[i].son][hs[i].vertex] == vn[hs[i].from] || ls[hs[i].son][hs[i].vertex] == vn[(hs[i].from + 1) % 4]
    {
      assert i == 2 || i == 5;
    }
  }

  /**
   * The source's table differs from the corrected one in one row only, on
   * the v0–v2 cut, and that row gives corner v0 the flag of edge (v1, v2),
   * an edge v0 does not end when the corners are distinct.
   */
  lemma AsWrittenVertexOffEdge(vn: seq<int>)
    requires |vn| == 4 && vn[0] != vn[1] && vn[0] != vn[2]
    ensures QuadTriangleHandDownsAsWritten(false) == QuadTriangleHandDowns(false)
    ensures QuadTriangleHandDownsAsWritten(true)[..5] == QuadTriangleHandDowns(true)[..5]
    ensures !VerticesOnTheirEdges(vn, QuadTriangleLayouts(vn, true), QuadTriangleHandDownsAsWritten(true))
  {
    var hs := QuadTriangleHandDownsAsWritten(true);
    assert hs[5] == VertexDown(1, 2, 1) && QuadTriangleLayouts(vn, true)[1][2] == vn[0];
  }

  /**
   * Elements n and n + 1 of `els` are the two triangles quad `vn` is cut
   * into along its shorter diagonal (v0–v2 on a tie), the places read from
   * `nodes0`: with d the corner the cut starts at, (vd, vd+1, vd+2) and
   * (vd+2, vd+3, vd), indices modulo 4.
   */
  ghost predicate QuadTriangleSplitOf(nodes0: seq<Node>, vn: seq<int>, els: seq<Element>, n: int)
  {
    |vn| == 4 && (forall i :: 0 <= i < 4 ==> 0 <= vn[i] < |nodes0|) && 0 <= n && |els| >= n + 2
    && var d := if SqDist(nodes0[vn[0]], nodes0[vn[2]]) <= SqDist(nodes0[vn[1]], nodes0[vn[3]]) then 0 else 1;
    els[n].vn == [vn[d], vn[d + 1], vn[d + 2]] && els[n + 1].vn == [vn[d + 2], vn[(d + 3) % 4], vn[d]]
  }

  /** The son slots of the parent: the two triangles, then two empty slots. */
  function QuadTriangleSlots(n: int): (slots: seq<int>)
    ensures |slots| == 4
    ensures forall s :: s in slots ==> s == Null || n <= s < n + 2
    ensures forall s :: n <= s < n + 2 ==> s in slots
  {
    [n, n + 1, Null, Null]
  }

  /**
   * `refine_quad_to_triangles`: the active quad `e` is retired, then cut
   * into two triangles (appended to the element arena) along its shorter
   * diagonal; `nactive` ends one up.  Under a sound parent every row of the
   * hand-down table of the chosen cut holds afterwards.  When creating a son
   * fails (its corners share a coordinate), the split stops there with the
   * parent retired.
   */
  method RefineQuadToTriangles(m: Mesh, e: int) returns (r: Outcome)
    requires m.Valid() && 0 <= e < |m.elements|
    requires Live(m.elements[e]) && !m.elements[e].IsTriangle()
    modifies m
    ensures m.Valid() && |m.elements| >= old(|m.elements|)
    ensures r.Fail? ==>
      && m.elements[e] == old(m.elements[e]).(active := false)
      && m.nactive == old(m.nactive) - 1 && m.Stamps() == old(m.Stamps())
    ensures r.Fail? && old(Sound(m.elements[e].vn, m.nodes)) ==> r.error == SharedX || r.error == SharedY
    ensures r.Pass? ==> var n := old(|m.elements|);
      |m.elements| == n + 2 && Replaced(old(m.elements), m.elements, e, n, QuadTriangleSlots(n))
    ensures r.Pass? ==> QuadTriangleSplitOf(old(m.nodes), old(m.elements[e].vn), m.elements, old(|m.elements|))
    ensures r.Pass? ==> m.nactive == old(m.nactive) + 1 && m.Stamps() == old(m.Stamps())
    ensures r.Pass? ==> old(m.Counted()) ==> m.Counted()
    ensures r.Pass? && old(Sound(m.elements[e].vn, m.nodes)) ==>
      Kept(old(m.nodes), m.nodes, old(m.elements[e].en), m.elements[old(|m.elements|)..],
           QuadTriangleHandDowns(CutsFirstDiagonal(old(m.nodes), old(m.elements[e].vn))))
  {
    var p := m.elements[e];
    assert ElementOk(m.nodes, m.elements, e);
    assert p.vn[0] in p.vn && p.vn[1] in p.vn && p.vn[2] in p.vn && p.vn[3] in p.vn;
    var flags := ParentFlags(m.nodes, p.en);
    var bnd, mrk := flags.0, flags.1;
    // Unreferencing the parent's nodes leaves their places alone, so the
    // diagonals can be measured before the parent is retired.
    var first := CutsFirstDiagonal(m.nodes, p.vn);
    ghost var nodes0, count0 := m.nodes, ActiveCount(m.elements);
    RetireParent(m, e, -1);
    var n := |m.elements|;
    ghost var els1 := m.elements;
    assert n == old(|m.elements|) && p == old(m.elements[e]);
    assert ActiveCount(els1) == count0 - 1;
    r := QuadToTriangleSons(m, e, p, bnd, mrk, nodes0, first);
    if r.Pass? {
      assert ActiveCount(m.elements) == count0 + 1;
      ReplacedAfterRetire(old(m.elements), m.elements, e, n, QuadTriangleSlots(n));
      QuadTriangleSplitShape(nodes0, m.elements, n, e, p.marker, p.vn, first);
    }
  }

  /** The two triangles created on the cut `first` once quad `p` (element `e`) is retired, the flags handed down, the sons adopted. */
  method QuadToTriangleSons(m: Mesh, e: int, p: Element, bnd: seq<bool>, mrk: seq<int>, ghost nodes0: seq<Node>, first: bool)
    returns (r: Outcome)
    requires m.Valid() && 0 <= e < |m.elements| && m.elements[e] == p.(active := false) && |p.vn| == 4
    requires ReadFrom(nodes0, p.en, bnd, mrk) && Reshaped(nodes0, m.nodes) && |p.en| == 4
    modifies m
    ensures m.Valid() && |m.elements| >= old(|m.elements|)
    ensures forall i :: 0 <= i < old(|m.elements|) && r.Fail? ==> m.elements[i] == old(m.elements[i])
    ensures r.Fail? ==> m.Counters() == old(m.Counters())
    ensures r.Fail? && Sound(p.vn, nodes0) ==> r.error == SharedX || r.error == SharedY
    ensures r.Pass? ==> var n := old(|m.elements|);
      |m.elements| == n + 2 && Replaced(old(m.elements), m.elements, e, n, QuadTriangleSlots(n))
    ensures r.Pass? ==> Adopted(m.elements, old(|m.elements|), e, p.marker, QuadTriangleLayouts(p.vn, first))
    ensures r.Pass? ==> m.nactive == old(m.nactive) + 2 && m.Stamps() == old(m.Stamps())
    ensures r.Pass? ==> ActiveCount(m.elements) == ActiveCount(old(m.elements)) + 2
    ensures r.Pass? && Sound(p.vn, nodes0) ==>
      Kept(nodes0, m.nodes, p.en, m.elements[old(|m.elements|)..], QuadTriangleHandDowns(first))
  {
    var layouts := QuadTriangleLayouts(p.vn, first);
    QuadTriangleCorners(nodes0, m.nodes, m.elements, e, p.vn, first);
    ghost var nodes1 := m.nodes;
    var n := |m.elements|;
    r := CreateSons(m, p.marker, layouts);
    if r.Fail? { return; }
    ReshapedTrans(nodes0, nodes1, m.nodes);
    QuadTriangleSonsFit(nodes0, m.nodes, m.elements, n, p.marker, p.vn, first);
    assert m.elements[e] == p.(active := false);
    HandDownAndAdopt(m, e, nodes0, p.en, n, 2, 2, QuadTriangleSlots(n), QuadTriangleHandDowns(first), bnd, mrk,
                     Sound(p.vn, nodes0), p.marker, layouts);
  }

  /** The corners of the sons are vertex nodes, apart under a sound parent. */
  lemma QuadTriangleCorners(nodes0: seq<Node>, nodes: seq<Node>, els: seq<Element>, e: int, vn: seq<int>, first: bool)
    requires Reshaped(nodes0, nodes) && 0 <= e < |els| && ElementOk(nodes, els, e) && els[e].vn == vn && |vn| == 4
    ensures OnVertices(nodes, QuadTriangleLayouts(vn, first))
    ensures Sound(vn, nodes0) ==> AllCornersApart(QuadTriangleLayouts(vn, first))
  {
    assert vn[0] in els[e].vn && vn[1] in els[e].vn && vn[2] in els[e].vn && vn[3] in els[e].vn;
  }

  /** The fresh sons fit the table of cut `first`, and under a sound parent its targets are distinct. */
  lemma QuadTriangleSonsFit(nodes0: seq<Node>, nodes: seq<Node>, els: seq<Element>, n: int, mk: int,
                            vn: seq<int>, first: bool)
    requires Reshaped(nodes0, nodes) && EndsOlder(nodes) && |vn| == 4
    requires 0 <= n && |els| == n + 2 && forall e :: 0 <= e < |els| ==> ElementOk(nodes, els, e)
    requires SonsAt(els, n, mk, QuadTriangleLayouts(vn, first))
    ensures AllFit(els[n..n + 2], 4, QuadTriangleHandDowns(first))
    ensures Sound(vn, nodes0) ==> Distinct(Targets(els[n..n + 2], QuadTriangleHandDowns(first)))
  {
    var sons := els[n..n + 2];
    var ls := QuadTriangleLayouts(vn, first);
    var hs := QuadTriangleHandDowns(first);
    SonsShaped(nodes, els, n, 2, sons);
    assert Fresh(els, n, mk, ls[0]) && Fresh(els, n + 1, mk, ls[1]);
    var s0, s1 := sons[0], sons[1];
    assert Shaped(nodes, s0) && Shaped(nodes, s1);
    assert s0.vn == ls[0] && s1.vn == ls[1];
    assert |s0.en| == 3 && |s1.en| == 3;
    assert Targets(sons, hs) == [s0.en[0], s0.en[1], s0.vn[1], s1.en[0], s1.en[1], s1.vn[2]];
    if Sound(vn, nodes0) {
      SoundReshaped(vn, nodes0, nodes);
      QuadTriangleTargetsApart(nodes, vn, first, s0, s1);
    }
  }

  /** Under a sound parent the six nodes the table of cut `first` writes are distinct. */
  lemma QuadTriangleTargetsApart(nodes: seq<Node>, vn: seq<int>, first: bool, s0: Element, s1: Element)
    requires |vn| == 4 && Sound(vn, nodes) && Shaped(nodes, s0) && Shaped(nodes, s1)
    requires s0.vn == QuadTriangleLayouts(vn, first)[0] && s1.vn == QuadTriangleLayouts(vn, first)[1]
    ensures |s0.en| == 3 && |s1.en| == 3
    ensures Distinct([s0.en[0], s0.en[1], s0.vn[1], s1.en[0], s1.en[1], s1.vn[2]])
  {
    assert (0 + 1) % 3 == 1 && (1 + 1) % 3 == 2;
    assert EdgeOf(nodes, s0, 0) && EdgeOf(nodes, s0, 1) && EdgeOf(nodes, s1, 0) && EdgeOf(nodes, s1, 1);
    var es := [s0.en[0], s0.en[1], s1.en[0], s1.en[1]];
    QuadTriangleEdgesApart(nodes, vn, first, es[0], es[1], es[2], es[3]);
    assert s0.en[0] in s0.en && s0.en[1] in s0.en && s1.en[0] in s1.en && s1.en[1] in s1.en;
    assert s0.vn[1] in s0.vn && s1.vn[2] in s1.vn;
    assert OfKind(nodes, es, EdgeNode) && OfKind(nodes, [s0.vn[1], s1.vn[2]], VertexNode);
    KindsApart(nodes, es, [s0.vn[1], s1.vn[2]]);
    QuadTriangleTargetsJoin(es, s0.vn[1], s1.vn[2]);
  }

  /** Four distinct edge nodes and two distinct vertex nodes, interleaved as the table lists them, are distinct. */
  lemma QuadTriangleTargetsJoin(es: seq<int>, a: int, b: int)
    requires |es| == 4 && Distinct(es) && a != b
    requires forall i, j :: 0 <= i < |es| && 0 <= j < |[a, b]| ==> es[i] != [a, b][j]
    ensures Distinct([es[0], es[1], a, es[2], es[3], b])
  {
    assert es[0] != [a, b][0] && es[1] != [a, b][0] && es[2] != [a, b][0] && es[3] != [a, b][0];
    assert es[0] != [a, b][1] && es[1] != [a, b][1] && es[2] != [a, b][1] && es[3] != [a, b][1];
  }

  /** Under a sound parent the four son edges along the parent's edges are distinct: they join different corner pairs. */
  lemma QuadTriangleEdgesApart(nodes: seq<Node>, vn: seq<int>, first: bool, a0: int, a1: int, b0: int, b1: int)
    requires |vn| == 4 && Sound(vn, nodes)
    requires var ls := QuadTriangleLayouts(vn, first);
      && MidOf(nodes, a0, ls[0][0], ls[0][1]) && MidOf(nodes, a1, ls[0][1], ls[0][2])
      && MidOf(nodes, b0, ls[1][0], ls[1][1]) && MidOf(nodes, b1, ls[1][1], ls[1][2])
    ensures Distinct([a0, a1, b0, b1])
  {
    var ls := QuadTriangleLayouts(vn, first);
    var ks := [KeyOf(ls[0][0], ls[0][1]), KeyOf(ls[0][1], ls[0][2]), KeyOf(ls[1][0], ls[1][1]), KeyOf(ls[1][1], ls[1][2])];
    assert KeysApart(ks);
    MidEnds(nodes, a0, ls[0][0], ls[0][1]); MidEnds(nodes, a1, ls[0][1], ls[0][2]);
    MidEnds(nodes, b0, ls[1][0], ls[1][1]); MidEnds(nodes, b1, ls[1][1], ls[1][2]);
    ApartByEnds(nodes, [a0, a1, b0, b1], ks);
  }

  /** The adopted sons, read back as `QuadTriangleSplitOf`. */
  lemma QuadTriangleSplitShape(nodes0: seq<Node>, els: seq<Element>, n: int, e: int, marker: int, vn: seq<int>, first: bool)
    requires |vn| == 4 && (forall i :: 0 <= i < 4 ==> 0 <= vn[i] < |nodes0|) && first == CutsFirstDiagonal(nodes0, vn)
    requires 0 <= n && |els| >= n + 2 && Adopted(els, n, e, marker, QuadTriangleLayouts(vn, first))
    ensures QuadTriangleSplitOf(nodes0, vn, els, n)
  {
    var ls := QuadTriangleLayouts(vn, first);
    assert SonAt(els, n, e, marker, ls[0]) && SonAt(els, n + 1, e, marker, ls[1]);
    assert (1 + 3) % 4 == 0;
  }
}
