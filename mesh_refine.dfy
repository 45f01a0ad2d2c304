/**
 * The split algorithms of hermes2d/src/mesh/mesh.cpp: one element is
 * deactivated and replaced by two, three or four sons built on its vertices
 * and on the mid-edge vertex nodes between them.  Each split then hands the
 * boundary flag and marker of every outer edge of the parent down to the
 * son edges that lie on it (a table of `HandDown` rows, see SplitFlags),
 * and the sons record the parent.
 *
 * Every split is written as the source orders it, in phases: the mid-edge
 * nodes (`MidNodes`), the sons (`CreateSons`), the parent retired
 * (`RetireParent`), the flags handed down and the sons adopted
 * (`HandDownAndAdopt`).
 *
 * The boundary guarantees are stated for a parent whose corners are sound
 * (`Sound`): then every son edge written has its own node, so no write
 * undoes another.  Curved elements are not part of this model.
 */
module MeshRefine {
  import opened MeshData
  import opened MeshModel
  import opened SplitFlags

  /** A son as the splits leave it: live, a leaf, with its parent's marker, recording parent `e`. */
  predicate SonOf(el: Element, e: int, marker: int)
  {
    el.used && el.active && el.marker == marker && el.parent == e && el.sons == NoSons
    && el.iroCache == 0 && |el.en| == |el.vn|
  }

  /** Element `s` was just created as a base element with marker `marker` on corners `vn`. */
  ghost predicate Fresh(els: seq<Element>, s: int, marker: int, vn: seq<int>)
  {
    0 <= s < |els| && els[s].used && els[s].active && els[s].marker == marker && els[s].vn == vn
    && els[s].parent == Null && els[s].sons == NoSons && els[s].iroCache == 0
    && |els[s].en| == |vn|
  }

  /**
   * The four sons of `refine_triangle_to_triangles` on a triangle `vn`: with
   * x0, x1, x2 the vertex nodes between the ends of edges 0, 1 and 2, the
   * corner sons (v0, x0, x2), (x0, v1, x1), (x2, x1, v2) and the middle son
   * (x1, x2, x0).
   */
  ghost predicate TriangleToTriangles(nodes: seq<Node>, vn: seq<int>, s0: seq<int>, s1: seq<int>, s2: seq<int>, s3: seq<int>)
    requires |vn| == 3
  {
    |s0| == 3 && |s1| == 3 &&
    var x0, x1, x2 := s0[1], s1[2], s0[2];
    MidOf(nodes, x0, vn[0], vn[1]) && MidOf(nodes, x1, vn[1], vn[2]) && MidOf(nodes, x2, vn[2], vn[0])
    && s0 == [vn[0], x0, x2] && s1 == [x0, vn[1], x1] && s2 == [x2, x1, vn[2]] && s3 == [x1, x2, x0]
  }

  /** No two corners of `vn` that `create_triangle` or `create_quad` compare are the same node. */
  predicate CornersApart(vn: seq<int>)
  {
    (|vn| == 3 && vn[0] != vn[1] && vn[1] != vn[2] && vn[2] != vn[0])
    || (|vn| == 4 && vn[0] != vn[1] && vn[1] != vn[2] && vn[2] != vn[3] && vn[3] != vn[0]
        && vn[0] != vn[2] && vn[1] != vn[3])
  }

  /** Elements n, n + 1, ... were just created with marker `marker` on the corner lists `layouts`, in order. */
  ghost predicate SonsAt(els: seq<Element>, n: int, marker: int, layouts: seq<seq<int>>)
  {
    forall j :: 0 <= j < |layouts| ==> Fresh(els, n + j, marker, layouts[j])
  }

  /** Elements n, n + 1, ... are sons of `e` as the splits leave them, on the corner lists `layouts`, in order. */
  ghost predicate Adopted(els: seq<Element>, n: int, e: int, marker: int, layouts: seq<seq<int>>)
  {
    forall j :: 0 <= j < |layouts| ==> SonAt(els, n + j, e, marker, layouts[j])
  }

  /** Element `s` is a son of `e` as the splits leave it, on corners `vn`. */
  ghost predicate SonAt(els: seq<Element>, s: int, e: int, marker: int, vn: seq<int>)
  {
    0 <= s < |els| && SonOf(els[s], e, marker) && els[s].vn == vn
  }

  /**
   * `els` is `els0` after the split of element `e` into the sons appended
   * from index `n` on: `e` inactive with son slots `slots`, every other
   * element below `n` as it was, every element from `n` on a live leaf son
   * of `e` with its marker.
   */
  ghost predicate Replaced(els0: seq<Element>, els: seq<Element>, e: int, n: int, slots: seq<int>)
  {
    0 <= e < n <= |els0| && n <= |els|
    && els[e] == els0[e].(active := false, sons := slots)
    && (forall i :: 0 <= i < n && i != e ==> els[i] == els0[i])
    && (forall s :: n <= s < |els| ==> SonOf(els[s], e, els0[e].marker))
  }

  /** `Replaced` only looks at the elements below `n` of the earlier arena, and not at whether `e` was active. */
  lemma ReplacedFrom(els0: seq<Element>, mid: seq<Element>, els: seq<Element>, e: int, n: int, slots: seq<int>)
    requires Replaced(mid, els, e, n, slots) && n <= |els0|
    requires mid[e].(active := false) == els0[e].(active := false)
    requires forall i :: 0 <= i < n && i != e ==> mid[i] == els0[i]
    ensures Replaced(els0, els, e, n, slots)
  {
  }

  /** A split that starts by retiring `e` replaces `e` in the arena it started from. */
  lemma ReplacedAfterRetire(els0: seq<Element>, els: seq<Element>, e: int, n: int, slots: seq<int>)
    requires 0 <= e < |els0| && n <= |els0|
    requires Replaced(els0[e := els0[e].(active := false)], els, e, n, slots)
    ensures Replaced(els0, els, e, n, slots)
  {
    ReplacedFrom(els0, els0[e := els0[e].(active := false)], els, e, n, slots);
  }

  /** A node between `a` and `b` stays so while nodes keep their shape. */
  lemma MidReshaped(nodes: seq<Node>, nodes': seq<Node>, x: int, a: int, b: int)
    requires MidOf(nodes, x, a, b) && Reshaped(nodes, nodes')
    ensures MidOf(nodes', x, a, b)
  {
    assert SameShape(nodes[x], nodes'[x]);
  }

  /** Fresh sons that take `e` as their parent are adopted. */
  lemma AdoptedOfFresh(els0: seq<Element>, els: seq<Element>, n: int, e: int, marker: int, layouts: seq<seq<int>>)
    requires 0 <= n && n + |layouts| <= |els0| == |els| && SonsAt(els0, n, marker, layouts)
    requires forall s :: n <= s < n + |layouts| ==> els[s] == els0[s].(parent := e)
    ensures Adopted(els, n, e, marker, layouts)
  {
    forall j | 0 <= j < |layouts| ensures SonAt(els, n + j, e, marker, layouts[j]) {
      assert Fresh(els0, n + j, marker, layouts[j]);
    }
  }

  /** Every corner in `layouts` is a vertex node. */
  ghost predicate OnVertices(nodes: seq<Node>, layouts: seq<seq<int>>)
  {
    forall j, v :: 0 <= j < |layouts| && v in layouts[j] ==> VertexId(nodes, v)
  }

  /** Corners on vertex nodes stay so while the nodes only change flags. */
  lemma OnVerticesReshaped(nodes: seq<Node>, nodes': seq<Node>, layouts: seq<seq<int>>)
    requires OnVertices(nodes, layouts) && Reshaped(nodes, nodes')
    ensures OnVertices(nodes', layouts)
  {
    forall j, v | 0 <= j < |layouts| && v in layouts[j] ensures VertexId(nodes', v) {
      assert VertexId(nodes, v);
    }
  }

  /** Every corner list of `layouts` has its corners apart. */
  predicate AllCornersApart(layouts: seq<seq<int>>)
  {
    forall j :: 0 <= j < |layouts| ==> CornersApart(layouts[j])
  }

  /**
   * The `create_triangle` / `create_quad` calls of a split, one per corner
   * list of `layouts` in order, stopping at the first that fails.
   */
  method CreateSons(m: Mesh, marker: int, layouts: seq<seq<int>>) returns (r: Outcome)
    requires m.Valid()
    requires forall j :: 0 <= j < |layouts| ==> |layouts[j]| == 3 || |layouts[j]| == 4
    requires OnVertices(m.nodes, layouts)
    modifies m
    ensures m.Valid() && Reshaped(old(m.nodes), m.nodes) && m.Counters() == old(m.Counters())
    ensures |m.elements| >= old(|m.elements|) && m.elements[..old(|m.elements|)] == old(m.elements)
    ensures r.Fail? && AllCornersApart(layouts) ==> r.error == SharedX || r.error == SharedY
    ensures r.Pass? ==>
      && |m.elements| == old(|m.elements|) + |layouts|
      && ActiveCount(m.elements) == ActiveCount(old(m.elements)) + |layouts|
      && SonsAt(m.elements, old(|m.elements|), marker, layouts)
  {
    r := Pass;
    var n := |m.elements|;
    for i := 0 to |layouts|
      invariant m.Valid() && Reshaped(old(m.nodes), m.nodes) && m.Counters() == old(m.Counters())
      invariant |m.elements| == n + i && m.elements[..n] == old(m.elements)
      invariant ActiveCount(m.elements) == ActiveCount(old(m.elements)) + i
      invariant r.Pass? && forall j :: 0 <= j < i ==> Fresh(m.elements, n + j, marker, layouts[j])
    {
      ghost var nodes1, els1 := m.nodes, m.elements;
      forall v | v in layouts[i] ensures VertexId(m.nodes, v) {
        assert VertexId(old(m.nodes), v);
      }
      r := CreateSon(m, marker, layouts[i]);
      ReshapedTrans(old(m.nodes), nodes1, m.nodes);
      if r.Fail? {
        assert !AllCornersApart(layouts) || CornersApart(layouts[i]);
        return;
      }
      assert m.elements[..n + i] == els1 && m.elements[..n] == els1[..n];
      forall j | 0 <= j < i ensures Fresh(m.elements, n + j, marker, layouts[j]) {
        assert Fresh(els1, n + j, marker, layouts[j]);
      }
    }
  }

  /**
   * The `get_vertex_node` calls a split makes, in order: for each pair (a, b)
   * the vertex node between a and b, looked up or created.
   */
  method MidNodes(m: Mesh, pairs: seq<(int, int)>) returns (xs: seq<int>)
    requires m.Valid()
    requires forall i :: 0 <= i < |pairs| ==> VertexId(m.nodes, pairs[i].0) && VertexId(m.nodes, pairs[i].1)
    modifies m
    ensures m.Valid() && Reshaped(old(m.nodes), m.nodes)
    ensures m.elements == old(m.elements) && m.Counters() == old(m.Counters())
    ensures |xs| == |pairs|
    ensures forall i :: 0 <= i < |pairs| ==> MidOf(m.nodes, xs[i], pairs[i].0, pairs[i].1) && VertexId(m.nodes, xs[i])
  {
    ghost var nodes0 := m.nodes;
    xs := [];
    for i := 0 to |pairs|
      invariant m.Valid() && Reshaped(nodes0, m.nodes)
      invariant m.elements == old(m.elements) && m.Counters() == old(m.Counters())
      invariant |xs| == i
      invariant forall j :: 0 <= j < i ==> MidOf(m.nodes, xs[j], pairs[j].0, pairs[j].1) && VertexId(m.nodes, xs[j])
    {
      ghost var before := m.nodes;
      var x := m.GetVertexNode(pairs[i].0, pairs[i].1);
      ReshapedTrans(nodes0, before, m.nodes);
      xs := xs + [x];
    }
  }

  /**
   * `create_triangle` or `create_quad` on corners `vn`, as a split calls it,
   * with what the split relies on: on success a fresh son on those corners,
   * on failure nothing changed and, when the corners are distinct, a shared
   * coordinate as the reason.
   */
  method CreateSon(m: Mesh, marker: int, vn: seq<int>) returns (r: Outcome)
    requires m.Valid() && (|vn| == 3 || |vn| == 4)
    requires forall v :: v in vn ==> VertexId(m.nodes, v)
    modifies m
    ensures m.Valid() && Reshaped(old(m.nodes), m.nodes) && m.Counters() == old(m.Counters())
    ensures r.Fail? ==> m.elements == old(m.elements)
    ensures r.Fail? && CornersApart(vn) ==> r.error == SharedX || r.error == SharedY
    ensures r.Pass? ==> var n := old(|m.elements|);
      |m.elements| == n + 1 && m.elements[..n] == old(m.elements) && Fresh(m.elements, n, marker, vn)
      && ActiveCount(m.elements) == ActiveCount(old(m.elements)) + 1
  {
    assert vn[0] in vn && vn[1] in vn && vn[2] in vn;
    var c: Result<int>;
    if |vn| == 3 {
      c := m.CreateTriangle(marker, vn[0], vn[1], vn[2]);
    } else {
      assert vn[3] in vn;
      c := m.CreateQuad(marker, vn[0], vn[1], vn[2], vn[3]);
    }
    if c.Err? {
      r := Fail(c.error);
    } else {
      r := Pass;
    }
  }

  /**
   * What every split does to the parent once its sons exist (or, for a
   * quad, before): `e->active = 0`, `nactive` moved by `delta`, and
   * `unref_all_nodes`, which may free the parent's edge nodes.
   */
  method RetireParent(m: Mesh, e: int, delta: int)
    requires m.Valid() && 0 <= e < |m.elements|
    modifies m
    ensures m.Valid() && Reshaped(old(m.nodes), m.nodes) && |m.nodes| == old(|m.nodes|)
    ensures m.elements == old(m.elements)[e := old(m.elements[e]).(active := false)]
    ensures ActiveCount(m.elements) == ActiveCount(old(m.elements)) - (if Live(old(m.elements[e])) then 1 else 0)
    ensures m.nactive == old(m.nactive) + delta && m.Stamps() == old(m.Stamps())
  {
    m.Deactivate(e);
    m.nactive := m.nactive + delta;
    m.UnrefAllNodes(e);
  }

  /**
   * The end of every split once its `k` sons are elements n .. n + k - 1:
   * the writes of hand-down table `hs` (the parent's edge nodes were `pen`,
   * their flags `bnd` and markers `mrk`), then the sons record parent `e`
   * and `e` takes the son slots `slots`.  When `apart` (the table's targets
   * are distinct) every row of the table holds afterwards.
   */
  method HandDownAndAdopt(m: Mesh, e: int, ghost nodes0: seq<Node>, ghost pen: seq<int>, n: int, k: nat, delta: int,
                          slots: seq<int>, hs: seq<HandDown>, bnd: seq<bool>, mrk: seq<int>, ghost apart: bool,
                          ghost marker: int, ghost layouts: seq<seq<int>>)
    requires m.Valid() && 0 <= e < n && |m.elements| == n + k
    requires !m.elements[e].active && m.elements[e].marker == marker
    requires |layouts| == k && SonsAt(m.elements, n, marker, layouts)
    requires |slots| == 4 && forall s :: s in slots ==> s == Null || n <= s < n + k
    requires forall s :: n <= s < n + k ==> s in slots
    requires ReadFrom(nodes0, pen, bnd, mrk) && AllFit(m.elements[n..n + k], |pen|, hs)
    requires apart ==> Distinct(Targets(m.elements[n..n + k], hs))
    modifies m
    ensures m.Valid() && |m.elements| == n + k
    ensures Replaced(old(m.elements), m.elements, e, n, slots)
    ensures Adopted(m.elements, n, e, marker, layouts)
    ensures Reshaped(old(m.nodes), m.nodes) && |m.nodes| == old(|m.nodes|)
    ensures m.nactive == old(m.nactive) + delta && m.Stamps() == old(m.Stamps())
    ensures ActiveCount(m.elements) == ActiveCount(old(m.elements))
    ensures apart ==> Kept(nodes0, m.nodes, pen, m.elements[n..], hs)
  {
    m.nactive := m.nactive + delta;
    var sons := m.elements[n..n + k];
    SonsShaped(m.nodes, m.elements, n, k, sons);
    WritesInRange(m.nodes, sons, hs, bnd, mrk);
    ghost var nodes1 := m.nodes;
    m.WriteFlags(Writes(sons, hs, bnd, mrk));
    if apart {
      HandDownsLand(nodes0, nodes1, pen, sons, hs, bnd, mrk);
    }
    forall s | s in slots ensures s == Null || (e < s < |m.elements| && m.elements[s].parent == Null) {
      if s != Null {
        assert m.elements[s] == sons[s - n] && Fresh(old(m.elements), s, marker, layouts[s - n]);
      }
    }
    m.Adopt(e, slots);
    forall i | 0 <= i < n && i != e ensures m.elements[i] == old(m.elements[i]) {
      assert i !in slots;
    }
    forall s | n <= s < n + k ensures m.elements[s] == old(m.elements[s]).(parent := e) {
      assert s in slots;
    }
    AdoptedOfFresh(old(m.elements), m.elements, n, e, marker, layouts);
    forall s | n <= s < n + k ensures SonOf(m.elements[s], e, marker) {
      assert SonAt(m.elements, n + (s - n), e, marker, layouts[s - n]);
    }
    if apart {
      KeptSameSlots(nodes0, m.nodes, pen, sons, m.elements[n..], hs);
    }
  }

  /**
   * The end of a split that retires its parent after creating its sons
   * (`refine_triangle_to_triangles`, `refine_triangle_to_quads`,
   * `refine_quad_to_triangles`): the parent retired with `nactive` moved by
   * `delta`, then the flags handed down and the sons adopted.
   */
  method RetireAndHandDown(m: Mesh, e: int, ghost nodes0: seq<Node>, ghost pen: seq<int>, n: int, k: nat, delta: int,
                           slots: seq<int>, hs: seq<HandDown>, bnd: seq<bool>, mrk: seq<int>, ghost apart: bool,
                           ghost marker: int, ghost layouts: seq<seq<int>>)
    requires m.Valid() && 0 <= e < n && |m.elements| == n + k && m.elements[e].marker == marker
    requires |layouts| == k && SonsAt(m.elements, n, marker, layouts)
    requires |slots| == 4 && forall s :: s in slots ==> s == Null || n <= s < n + k
    requires forall s :: n <= s < n + k ==> s in slots
    requires ReadFrom(nodes0, pen, bnd, mrk) && AllFit(m.elements[n..n + k], |pen|, hs)
    requires apart ==> Distinct(Targets(m.elements[n..n + k], hs))
    modifies m
    ensures m.Valid() && |m.elements| == n + k
    ensures Replaced(old(m.elements), m.elements, e, n, slots)
    ensures Adopted(m.elements, n, e, marker, layouts)
    ensures Reshaped(old(m.nodes), m.nodes) && |m.nodes| == old(|m.nodes|)
    ensures m.nactive == old(m.nactive) + delta && m.Stamps() == old(m.Stamps())
    ensures ActiveCount(m.elements) == ActiveCount(old(m.elements)) - (if Live(old(m.elements[e])) then 1 else 0)
    ensures apart ==> Kept(nodes0, m.nodes, pen, m.elements[n..], hs)
  {
    ghost var sons := m.elements[n..n + k];
    RetireParent(m, e, delta);
    assert m.elements[n..n + k] == sons;
    forall j | 0 <= j < k ensures Fresh(m.elements, n + j, marker, layouts[j]) {
      assert Fresh(old(m.elements), n + j, marker, layouts[j]);
    }
    ghost var els1 := m.elements;
    HandDownAndAdopt(m, e, nodes0, pen, n, k, 0, slots, hs, bnd, mrk, apart, marker, layouts);
    ReplacedFrom(old(m.elements), els1, m.elements, e, n, slots);
  }

  /** The corner lists of the four sons of `refine_triangle_to_triangles`, in creation order. */
  function TriangleLayouts(vn: seq<int>, x0: int, x1: int, x2: int): (ls: seq<seq<int>>)
    requires |vn| == 3
    ensures |ls| == 4
  {
    [[vn[0], x0, x2], [x0, vn[1], x1], [x2, x1, vn[2]], [x1, x2, x0]]
  }

  /**
   * The boundary writes of `refine_triangle_to_triangles`, in source order:
   * the two son edges on each parent edge take its flag and marker, and the
   * middle son's corners x1, x2, x0 take the flags of edges 1, 2 and 0.
   */
  const TriangleHandDowns: seq<HandDown> :=
    [EdgeDown(0, 0, 0), EdgeDown(0, 2, 2), EdgeDown(1, 0, 0), EdgeDown(1, 1, 1),
     EdgeDown(2, 1, 1), EdgeDown(2, 2, 2),
     VertexDown(3, 0, 1), VertexDown(3, 1, 2), VertexDown(3, 2, 0)]

  /**
   * `refine_triangle_to_triangles`: the active triangle `e` gets four sons
   * (appended to the element arena) and becomes inactive; `nactive` grows by
   * three.  Under a sound parent every row of `TriangleHandDowns` holds
   * afterwards.  When creating a son fails (its corners share a coordinate),
   * the split stops there, with the parent still active.
   */
  method RefineTriangleToTriangles(m: Mesh, e: int) returns (r: Outcome)
    requires m.Valid() && 0 <= e < |m.elements|
    requires Live(m.elements[e]) && m.elements[e].IsTriangle()
    modifies m
    ensures m.Valid() && |m.elements| >= old(|m.elements|)
    ensures r.Fail? ==> m.elements[e] == old(m.elements[e]) && m.Counters() == old(m.Counters())
    ensures r.Fail? && old(Sound(m.elements[e].vn, m.nodes)) ==> r.error == SharedX || r.error == SharedY
    ensures r.Pass? ==> var n := old(|m.elements|);
      |m.elements| == n + 4 && Replaced(old(m.elements), m.elements, e, n, [n, n + 1, n + 2, n + 3])
    ensures r.Pass? ==> var n := old(|m.elements|);
      TriangleToTriangles(m.nodes, old(m.elements[e].vn),
                          m.elements[n].vn, m.elements[n + 1].vn, m.elements[n + 2].vn, m.elements[n + 3].vn)
    ensures r.Pass? ==> m.nactive == old(m.nactive) + 3 && m.Stamps() == old(m.Stamps())
    ensures r.Pass? ==> old(m.Counted()) ==> m.Counted()
    ensures r.Pass? && old(Sound(m.elements[e].vn, m.nodes)) ==>
      Kept(old(m.nodes), m.nodes, old(m.elements[e].en), m.elements[old(|m.elements|)..], TriangleHandDowns)
  {
    var p := m.elements[e];
    assert ElementOk(m.nodes, m.elements, e);
    var flags := ParentFlags(m.nodes, p.en);
    var bnd, mrk := flags.0, flags.1;
    ghost var nodes0 := m.nodes;
    var n := |m.elements|;
    var x0, x1, x2;
    r, x0, x1, x2 := TriangleSons(m, e, p.vn, p.marker);
    if r.Fail? { return; }
    ghost var nodes1, els1 := m.nodes, m.elements;
    RetireAndHandDown(m, e, nodes0, p.en, n, 4, 3, [n, n + 1, n + 2, n + 3], TriangleHandDowns, bnd, mrk,
                      Sound(p.vn, nodes0), p.marker, TriangleLayouts(p.vn, x0, x1, x2));
    TriangleSplitShape(nodes1, m.nodes, m.elements, n, e, p.marker, p.vn, x0, x1, x2);
    ReplacedFrom(old(m.elements), els1, m.elements, e, n, [n, n + 1, n + 2, n + 3]);
  }

  /** The adopted sons of a triangle split, read back as `TriangleToTriangles`. */
  lemma TriangleSplitShape(nodes1: seq<Node>, nodes: seq<Node>, els: seq<Element>, n: int, e: int, marker: int,
                           vn: seq<int>, x0: int, x1: int, x2: int)
    requires |vn| == 3 && Reshaped(nodes1, nodes)
    requires MidOf(nodes1, x0, vn[0], vn[1]) && MidOf(nodes1, x1, vn[1], vn[2]) && MidOf(nodes1, x2, vn[2], vn[0])
    requires 0 <= n && Adopted(els, n, e, marker, TriangleLayouts(vn, x0, x1, x2))
    ensures |els| >= n + 4
    ensures TriangleToTriangles(nodes, vn, els[n].vn, els[n + 1].vn, els[n + 2].vn, els[n + 3].vn)
  {
    var layouts := TriangleLayouts(vn, x0, x1, x2);
    assert layouts[0] == [vn[0], x0, x2] && layouts[1] == [x0, vn[1], x1];
    assert layouts[2] == [x2, x1, vn[2]] && layouts[3] == [x1, x2, x0];
    assert SameShape(nodes1[x0], nodes[x0]) && SameShape(nodes1[x1], nodes[x1]) && SameShape(nodes1[x2], nodes[x2]);
  }

  /**
   * The first half of `refine_triangle_to_triangles`: the mid-edge vertex
   * nodes x0, x1, x2 of triangle `e` (corners `vn`) looked up or created,
   * then the four sons created on them.
   */
  method TriangleSons(m: Mesh, e: int, vn: seq<int>, mk: int) returns (r: Outcome, x0: int, x1: int, x2: int)
    requires m.Valid() && 0 <= e < |m.elements| && m.elements[e].vn == vn && |vn| == 3
    modifies m
    ensures m.Valid() && Reshaped(old(m.nodes), m.nodes) && m.Counters() == old(m.Counters())
    ensures |m.elements| >= old(|m.elements|)
    ensures forall i :: 0 <= i < old(|m.elements|) ==> m.elements[i] == old(m.elements[i])
    ensures r.Fail? && Sound(vn, old(m.nodes)) ==> r.error == SharedX || r.error == SharedY
    ensures MidOf(m.nodes, x0, vn[0], vn[1]) && MidOf(m.nodes, x1, vn[1], vn[2]) && MidOf(m.nodes, x2, vn[2], vn[0])
    ensures r.Pass? ==> var n := old(|m.elements|);
      |m.elements| == n + 4 && ActiveCount(m.elements) == ActiveCount(old(m.elements)) + 4
      && SonsAt(m.elements, n, mk, TriangleLayouts(vn, x0, x1, x2))
      && AllFit(m.elements[n..n + 4], 3, TriangleHandDowns)
      && (Sound(vn, old(m.nodes)) ==> Distinct(Targets(m.elements[n..n + 4], TriangleHandDowns)))
  {
    assert ElementOk(m.nodes, m.elements, e);
    assert vn[0] in m.elements[e].vn && vn[1] in m.elements[e].vn && vn[2] in m.elements[e].vn;
    ghost var nodes0 := m.nodes;
    var xs := MidNodes(m, [(vn[0], vn[1]), (vn[1], vn[2]), (vn[2], vn[0])]);
    x0, x1, x2 := xs[0], xs[1], xs[2];
    TriangleSonsApart(nodes0, m.nodes, vn, x0, x1, x2);
    TriangleSonsOnVertices(nodes0, m.nodes, vn, x0, x1, x2);
    ghost var nodes1 := m.nodes;
    var n := |m.elements|;
    r := CreateSons(m, mk, TriangleLayouts(vn, x0, x1, x2));
    ReshapedTrans(nodes0, nodes1, m.nodes);
    if r.Pass? {
      TriangleSonsFit(nodes0, m.nodes, m.elements, n, mk, vn, x0, x1, x2);
    }
  }

  /** The fresh sons of a triangle split fit `TriangleHandDowns`, and under a sound parent its targets are distinct. */
  lemma TriangleSonsFit(nodes0: seq<Node>, nodes: seq<Node>, els: seq<Element>, n: int, mk: int,
                        vn: seq<int>, x0: int, x1: int, x2: int)
    requires Reshaped(nodes0, nodes) && EndsOlder(nodes) && |vn| == 3
    requires MidOf(nodes, x0, vn[0], vn[1]) && MidOf(nodes, x1, vn[1], vn[2]) && MidOf(nodes, x2, vn[2], vn[0])
    requires 0 <= n && |els| == n + 4 && forall e :: 0 <= e < |els| ==> ElementOk(nodes, els, e)
    requires SonsAt(els, n, mk, TriangleLayouts(vn, x0, x1, x2))
    ensures AllFit(els[n..n + 4], 3, TriangleHandDowns)
    ensures Sound(vn, nodes0) ==> Distinct(Targets(els[n..n + 4], TriangleHandDowns))
  {
    var sons := els[n..n + 4];
    SonsShaped(nodes, els, n, 4, sons);
    forall j | 0 <= j < 4 ensures sons[j].vn == TriangleLayouts(vn, x0, x1, x2)[j] {
      assert Fresh(els, n + j, mk, TriangleLayouts(vn, x0, x1, x2)[j]);
    }
    TriangleTargetsApart(nodes0, nodes, vn, x0, x1, x2, sons);
  }

  /** The corners of a triangle split's sons are vertex nodes. */
  lemma TriangleSonsOnVertices(nodes0: seq<Node>, nodes: seq<Node>, vn: seq<int>, x0: int, x1: int, x2: int)
    requires Reshaped(nodes0, nodes) && |vn| == 3
    requires VertexId(nodes0, vn[0]) && VertexId(nodes0, vn[1]) && VertexId(nodes0, vn[2])
    requires VertexId(nodes, x0) && VertexId(nodes, x1) && VertexId(nodes, x2)
    ensures OnVertices(nodes, TriangleLayouts(vn, x0, x1, x2))
  {
    assert SameShape(nodes0[vn[0]], nodes[vn[0]]) && SameShape(nodes0[vn[1]], nodes[vn[1]]);
    assert SameShape(nodes0[vn[2]], nodes[vn[2]]);
  }

  /** A sound triangle's sons have their corners apart, however the nodes were updated since. */
  lemma TriangleSonsApart(nodes0: seq<Node>, nodes: seq<Node>, vn: seq<int>, x0: int, x1: int, x2: int)
    requires Reshaped(nodes0, nodes) && EndsOlder(nodes) && |vn| == 3
    requires MidOf(nodes, x0, vn[0], vn[1]) && MidOf(nodes, x1, vn[1], vn[2]) && MidOf(nodes, x2, vn[2], vn[0])
    ensures Sound(vn, nodes0) ==> AllCornersApart(TriangleLayouts(vn, x0, x1, x2))
  {
    if Sound(vn, nodes0) {
      assert vn == [vn[0], vn[1], vn[2]];
      SoundReshaped(vn, nodes0, nodes);
      TriangleSonsSound(nodes, vn[0], vn[1], vn[2], x0, x1, x2);
    }
  }

  /** The rows of `TriangleHandDowns` fit the four sons and write the six son edges on the parent's edges, then the middle son's corners. */
  lemma TriangleTargets(nodes: seq<Node>, vn: seq<int>, x0: int, x1: int, x2: int, sons: seq<Element>)
    requires |vn| == 3
    requires |sons| == 4 && forall j :: 0 <= j < 4 ==> Shaped(nodes, sons[j]) && sons[j].vn == TriangleLayouts(vn, x0, x1, x2)[j]
    ensures AllFit(sons, 3, TriangleHandDowns)
    ensures |sons[0].en| == |sons[1].en| == |sons[2].en| == 3
         && Targets(sons, TriangleHandDowns)
         == [sons[0].en[0], sons[0].en[2], sons[1].en[0], sons[1].en[1], sons[2].en[1], sons[2].en[2]] + sons[3].vn
  {
    assert Shaped(nodes, sons[0]) && Shaped(nodes, sons[1]) && Shaped(nodes, sons[2]) && Shaped(nodes, sons[3]);
    assert |sons[3].vn| == |TriangleLayouts(vn, x0, x1, x2)[3]| == 3;
  }

  /**
   * Under a parent that was sound over `nodes0`, the rows of
   * `TriangleHandDowns` write to distinct nodes: the six son edges along the
   * parent's edges and the three mid-edge vertices.
   */
  lemma TriangleTargetsApart(nodes0: seq<Node>, nodes: seq<Node>, vn: seq<int>, x0: int, x1: int, x2: int,
                             sons: seq<Element>)
    requires Reshaped(nodes0, nodes) && EndsOlder(nodes) && |vn| == 3
    requires MidOf(nodes, x0, vn[0], vn[1]) && MidOf(nodes, x1, vn[1], vn[2]) && MidOf(nodes, x2, vn[2], vn[0])
    requires |sons| == 4 && forall j :: 0 <= j < 4 ==> Shaped(nodes, sons[j]) && sons[j].vn == TriangleLayouts(vn, x0, x1, x2)[j]
    ensures AllFit(sons, 3, TriangleHandDowns)
    ensures Sound(vn, nodes0) ==> Distinct(Targets(sons, TriangleHandDowns))
  {
    TriangleTargets(nodes, vn, x0, x1, x2, sons);
    var s0, s1, s2, s3 := sons[0], sons[1], sons[2], sons[3];
    if Sound(vn, nodes0) {
      assert Shaped(nodes, s0) && Shaped(nodes, s1) && Shaped(nodes, s2) && Shaped(nodes, s3);
      assert s0.vn == [vn[0], x0, x2] && s1.vn == [x0, vn[1], x1] && s2.vn == [x2, x1, vn[2]] && s3.vn == [x1, x2, x0];
      assert vn == [vn[0], vn[1], vn[2]];
      SoundReshaped(vn, nodes0, nodes);
      assert (0 + 1) % 3 == 1 && (1 + 1) % 3 == 2 && (2 + 1) % 3 == 0;
      assert EdgeOf(nodes, s0, 0) && EdgeOf(nodes, s0, 2) && EdgeOf(nodes, s1, 0) && EdgeOf(nodes, s1, 1);
      assert EdgeOf(nodes, s2, 1) && EdgeOf(nodes, s2, 2);
      var es := [s0.en[0], s0.en[2], s1.en[0], s1.en[1], s2.en[1], s2.en[2]];
      TriangleWritesApart(nodes, vn[0], vn[1], vn[2], x0, x1, x2, es[0], es[1], es[2], es[3], es[4], es[5]);
      assert s0.en[0] in s0.en && s0.en[2] in s0.en && s1.en[0] in s1.en && s1.en[1] in s1.en;
      assert s2.en[1] in s2.en && s2.en[2] in s2.en;
      assert OfKind(nodes, es, EdgeNode);
      KindsApart(nodes, es, s3.vn);
      DistinctJoin(es, s3.vn);
    }
  }

  /** Edge nodes and vertex nodes are different nodes. */
  lemma KindsApart(nodes: seq<Node>, es: seq<int>, xs: seq<int>)
    requires OfKind(nodes, es, EdgeNode) && OfKind(nodes, xs, VertexNode)
    ensures forall i, j :: 0 <= i < |es| && 0 <= j < |xs| ==> es[i] != xs[j]
  {
    forall i, j | 0 <= i < |es| && 0 <= j < |xs| ensures es[i] != xs[j] {
      assert es[i] in es && xs[j] in xs;
    }
  }

  /**
   * Under a sound parent, the nodes `refine_triangle_to_triangles` writes
   * are distinct: the six son edges along the parent's edges (each recorded
   * between its two ends) and the three mid-edge vertices.
   */
  lemma TriangleWritesApart(nodes: seq<Node>, v0: int, v1: int, v2: int, x0: int, x1: int, x2: int,
                            a0: int, a2: int, b0: int, b1: int, c1: int, c2: int)
    requires EndsOlder(nodes) && Sound([v0, v1, v2], nodes)
    requires MidOf(nodes, x0, v0, v1) && MidOf(nodes, x1, v1, v2) && MidOf(nodes, x2, v2, v0)
    requires MidOf(nodes, a0, v0, x0) && MidOf(nodes, a2, x2, v0) && MidOf(nodes, b0, x0, v1)
    requires MidOf(nodes, b1, v1, x1) && MidOf(nodes, c1, x1, v2) && MidOf(nodes, c2, v2, x2)
    ensures Distinct([a0, a2, b0, b1, c1, c2]) && Distinct([x1, x2, x0])
  {
    MidIsYounger(nodes, x0, v0, v1);
    MidIsYounger(nodes, x1, v1, v2);
    MidIsYounger(nodes, x2, v2, v0);
  }
}
