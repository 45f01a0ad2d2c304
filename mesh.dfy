/**
 * The mesh object of hermes2d/src/mesh/mesh.cpp: an arena of nodes, the two
 * hash tables that find a node by the pair of vertices it sits between, an
 * arena of elements, the active-element counter and the refinement log.
 * This file holds the node tables, reference counting and element creation;
 * the refinement operations are in mesh_refine.dfy and the sweeps over the
 * whole mesh in the files that import this module.
 */
module MeshModel {
  import opened MeshData
  import Markers

  /** An element that counts towards `nactive`: used and not refined away. */
  predicate Live(el: Element)
  {
    el.used && el.active
  }

  /** The number of live elements, which `nactive` tracks. */
  function ActiveCount(els: seq<Element>): (c: nat)
    ensures c <= |els|
  {
    if els == [] then 0
    else ActiveCount(els[..|els| - 1]) + (if Live(els[|els| - 1]) then 1 else 0)
  }

  lemma ActiveCountAppend(els: seq<Element>, x: Element)
    ensures ActiveCount(els + [x]) == ActiveCount(els) + (if Live(x) then 1 else 0)
  {
    assert (els + [x])[..|els|] == els;
  }

  /** Replacing one element changes the count by the difference in liveness. */
  lemma {:induction false} ActiveCountUpdate(els: seq<Element>, i: int, x: Element)
    requires 0 <= i < |els|
    ensures ActiveCount(els[i := x]) ==
      ActiveCount(els) - (if Live(els[i]) then 1 else 0) + (if Live(x) then 1 else 0)
    decreases |els|
  {
    var n := |els| - 1;
    if i < n {
      assert els[i := x][..n] == els[..n][i := x];
      ActiveCountUpdate(els[..n], i, x);
    } else {
      assert els[i := x][..n] == els[..n];
    }
  }

  /**
   * Unreferencing each of `ids` in turn frees node `z`: its count was
   * positive and reaches zero on the way.
   */
  ghost predicate Freed(nodes: seq<Node>, ids: seq<int>, z: int)
  {
    0 <= z < |nodes| && 1 <= nodes[z].ref <= Occ(ids, z)
  }

  /** Table `t` without key `k`, if `k` maps to `z`. */
  function Drop(t: map<Key, int>, k: Key, z: int): (r: map<Key, int>)
    ensures forall j :: j in r <==> j in t && !(j == k && t[j] == z)
    ensures forall j :: j in r ==> r[j] == t[j]
  {
    if k in t && t[k] == z then t - {k} else t
  }

  /** The fields reference counting leaves alone: kind, flags, marker, place. */
  predicate SameButCounts(a: Node, b: Node)
  {
    a.kind == b.kind && a.bnd == b.bnd && a.marker == b.marker
    && a.x == b.x && a.y == b.y && a.p1 == b.p1 && a.p2 == b.p2
  }

  /** The fields the mesh invariant depends on. */
  predicate SameShape(a: Node, b: Node)
  {
    a.kind == b.kind && a.p1 == b.p1 && a.p2 == b.p2
  }

  ghost predicate Reshaped(nodes: seq<Node>, nodes': seq<Node>)
  {
    |nodes| <= |nodes'| && forall z :: 0 <= z < |nodes| ==> SameShape(nodes[z], nodes'[z])
  }

  /**
   * Element `e` is well formed: 3 or 4 vertex nodes and as many edge nodes,
   * edge i being the node recorded between the ends of edge i, four son
   * slots holding null or an element created after it, and a parent created
   * before it.  Every son records `e` as its parent.
   */
  ghost predicate ElementOk(nodes: seq<Node>, els: seq<Element>, e: int)
    requires 0 <= e < |els|
  {
    var el := els[e];
    (|el.vn| == 3 || |el.vn| == 4) && |el.en| == |el.vn| && |el.sons| == 4
    && (forall v :: v in el.vn ==> 0 <= v < |nodes| && nodes[v].kind == VertexNode)
    && (forall x :: x in el.en ==> 0 <= x < |nodes| && nodes[x].kind == EdgeNode)
    && (forall i :: 0 <= i < |el.vn| ==> EdgeOf(nodes, el, i))
    && (forall s :: s in el.sons ==> s == Null || (e < s < |els| && els[s].parent == e))
    && Null <= el.parent < e
  }

  /** Edge node i of `el` is the node recorded between the ends of edge i. */
  ghost predicate EdgeOf(nodes: seq<Node>, el: Element, i: int)
    requires 0 <= i < |el.vn| && |el.en| == |el.vn|
  {
    0 <= el.en[i] < |nodes| && Between(nodes[el.en[i]], el.vn[i], el.vn[(i + 1) % |el.vn|])
  }

  /**
   * The whole-mesh invariant: both tables map sorted vertex pairs to nodes of
   * their own kind that record that pair, every node is newer than the two
   * it sits between, and every element is well formed.
   */
  ghost predicate MeshOk(nodes: seq<Node>, vt: map<Key, int>, et: map<Key, int>, els: seq<Element>)
  {
    TableInv(vt, nodes, VertexNode) && TableInv(et, nodes, EdgeNode)
    && EndsOlder(nodes)
    && (forall e :: 0 <= e < |els| ==> ElementOk(nodes, els, e))
  }

  /** The invariant only looks at kinds and recorded ends of existing nodes. */
  lemma MeshOkReshaped(nodes: seq<Node>, nodes': seq<Node>, vt: map<Key, int>, et: map<Key, int>, els: seq<Element>)
    requires MeshOk(nodes, vt, et, els) && |nodes'| == |nodes| && Reshaped(nodes, nodes')
    ensures MeshOk(nodes', vt, et, els)
  {
    forall e | 0 <= e < |els| ensures ElementOk(nodes', els, e) {
      ElementOkReshaped(nodes, nodes', els, e);
    }
  }

  /** An element stays well formed when nodes keep kinds and ends and more are added. */
  lemma ElementOkReshaped(nodes: seq<Node>, nodes': seq<Node>, els: seq<Element>, e: int)
    requires 0 <= e < |els| && ElementOk(nodes, els, e) && Reshaped(nodes, nodes')
    ensures ElementOk(nodes', els, e)
  {
    var el := els[e];
    forall i | 0 <= i < |el.vn| ensures EdgeOf(nodes', el, i) {
      assert EdgeOf(nodes, el, i);
    }
  }

  /** The invariant survives the removal of table entries. */
  lemma MeshOkShrink(nodes: seq<Node>, vt: map<Key, int>, et: map<Key, int>,
                     vt': map<Key, int>, et': map<Key, int>, els: seq<Element>)
    requires MeshOk(nodes, vt, et, els)
    requires forall k :: k in vt' ==> k in vt && vt'[k] == vt[k]
    requires forall k :: k in et' ==> k in et && et'[k] == et[k]
    ensures MeshOk(nodes, vt', et', els)
  {
  }

  /**
   * One step of `unref_all_nodes` on a table of nodes of kind `kind`: the
   * entries left are those whose node has not been freed by the prefix of
   * `ids` processed so far.
   */
  lemma DropStep(t0: map<Key, int>, t: map<Key, int>, t': map<Key, int>, nodes0: seq<Node>, ids: seq<int>, i: int, kind: NodeKind)
    requires 0 <= i < |ids| && 0 <= ids[i] < |nodes0|
    requires TableInv(t0, nodes0, kind)
    requires forall k :: k in t ==> k in t0 && t[k] == t0[k]
    requires forall k :: k in t0 ==> (k in t <==> !Freed(nodes0, ids[..i], t0[k]))
    requires var z, n := ids[i], nodes0[ids[i]];
      t' == if n.ref - Occ(ids[..i], z) - 1 == 0 && n.kind == kind then Drop(t, (n.p1, n.p2), z) else t
    ensures (forall k :: k in t' ==> k in t0 && t'[k] == t0[k])
      && (forall k :: k in t0 ==> (k in t' <==> !Freed(nodes0, ids[..i + 1], t0[k])))
  {
    var z, n := ids[i], nodes0[ids[i]];
    forall y | 0 <= y < |nodes0|
      ensures Freed(nodes0, ids[..i + 1], y) <==>
        Freed(nodes0, ids[..i], y) || (y == z && n.ref - Occ(ids[..i], z) - 1 == 0)
    {
      OccStep(ids, i, y);
    }
  }

  /**
   * What `unref_all_nodes` has done to the nodes after the first `i` of
   * `ids`: counts are down by the occurrences so far, a node is unused once
   * freed, and everything else is as it was.
   */
  ghost predicate UnrefPrefix(nodes0: seq<Node>, nodes: seq<Node>, ids: seq<int>, i: int)
    requires 0 <= i <= |ids|
  {
    |nodes| == |nodes0|
    && (forall z :: 0 <= z < |nodes| ==> SameButCounts(nodes0[z], nodes[z]))
    && (forall z :: 0 <= z < |nodes| ==> nodes[z].ref == nodes0[z].ref - Occ(ids[..i], z))
    && (forall z :: 0 <= z < |nodes| ==> (nodes[z].used <==> nodes0[z].used && !Freed(nodes0, ids[..i], z)))
  }

  lemma UnrefPrefixStep(nodes0: seq<Node>, nodes: seq<Node>, ids: seq<int>, i: int)
    requires 0 <= i < |ids| && UnrefPrefix(nodes0, nodes, ids, i) && 0 <= ids[i] < |nodes|
    ensures var n := nodes[ids[i]];
      UnrefPrefix(nodes0, nodes[ids[i] := n.(ref := n.ref - 1, used := n.used && n.ref - 1 != 0)], ids, i + 1)
  {
    var z := ids[i];
    forall y | 0 <= y < |nodes|
      ensures Occ(ids[..i + 1], y) == Occ(ids[..i], y) + (if z == y then 1 else 0)
    {
      OccStep(ids, i, y);
    }
  }

  /** A new element with no sons, built on existing nodes, keeps the invariant. */
  lemma MeshOkAppend(nodes: seq<Node>, vt: map<Key, int>, et: map<Key, int>, els: seq<Element>, x: Element)
    requires MeshOk(nodes, vt, et, els)
    requires (|x.vn| == 3 || |x.vn| == 4) && |x.en| == |x.vn| && x.sons == NoSons
    requires forall v :: v in x.vn ==> 0 <= v < |nodes| && nodes[v].kind == VertexNode
    requires forall v :: v in x.en ==> 0 <= v < |nodes| && nodes[v].kind == EdgeNode
    requires forall i :: 0 <= i < |x.vn| ==> EdgeOf(nodes, x, i)
    requires Null <= x.parent < |els|
    ensures MeshOk(nodes, vt, et, els + [x])
  {
    var els' := els + [x];
    forall e | 0 <= e < |els'| ensures ElementOk(nodes, els', e) {
      if e < |els| {
        assert ElementOk(nodes, els, e);
      }
    }
  }

  /**
   * Element `e` becoming a leaf with no sons, on the registered edge nodes
   * of its corners, keeps the mesh well formed.
   */
  lemma MeshOkReactivate(nodes: seq<Node>, vt: map<Key, int>, et: map<Key, int>, els: seq<Element>, e: int, x: Element)
    requires MeshOk(nodes, vt, et, els) && 0 <= e < |els|
    requires x.vn == els[e].vn && x.parent == els[e].parent && x.sons == NoSons && |x.en| == |x.vn|
    requires forall i :: 0 <= i < |x.en| ==> EdgeKey(x.vn, i) in et && x.en[i] == et[EdgeKey(x.vn, i)]
    ensures MeshOk(nodes, vt, et, els[e := x])
  {
    var els' := els[e := x];
    assert ElementOk(nodes, els, e);
    forall i | 0 <= i < |x.vn| ensures EdgeOf(nodes, x, i) {
      assert EdgeKey(x.vn, i) in et;
      PeekIsMid(et, nodes, EdgeNode, x.vn[i], x.vn[(i + 1) % |x.vn|]);
    }
    forall z | z in x.en ensures 0 <= z < |nodes| && nodes[z].kind == EdgeNode {
      var i :| 0 <= i < |x.en| && x.en[i] == z;
      assert EdgeKey(x.vn, i) in et;
      PeekIsMid(et, nodes, EdgeNode, x.vn[i], x.vn[(i + 1) % |x.vn|]);
    }
    forall y | 0 <= y < |els'| ensures ElementOk(nodes, els', y) {
      assert ElementOk(nodes, els, y);
      if y != e {
        forall i | 0 <= i < |els'[y].vn| ensures EdgeOf(nodes, els'[y], i) {
          assert EdgeOf(nodes, els[y], i);
        }
      }
    }
  }

  /** Elements with the same nodes, sons and parents as well-formed ones are well formed. */
  lemma MeshOkSameLinks(nodes: seq<Node>, vt: map<Key, int>, et: map<Key, int>, els: seq<Element>, els': seq<Element>)
    requires MeshOk(nodes, vt, et, els) && |els'| == |els|
    requires forall i :: 0 <= i < |els| ==>
      els'[i].vn == els[i].vn && els'[i].en == els[i].en && els'[i].sons == els[i].sons && els'[i].parent == els[i].parent
    ensures MeshOk(nodes, vt, et, els')
  {
    forall e | 0 <= e < |els'| ensures ElementOk(nodes, els', e) {
      assert ElementOk(nodes, els, e);
      forall i | 0 <= i < |els'[e].vn| ensures EdgeOf(nodes, els'[e], i) {
        assert EdgeOf(nodes, els[e], i);
      }
    }
  }

  /**
   * Element `e` taking `sons` as its sons, each non-null one, created after
   * `e` and so far a base element, recording `e` as its parent, keeps the
   * mesh well formed.
   */
  lemma MeshOkAdopt(nodes: seq<Node>, vt: map<Key, int>, et: map<Key, int>, els: seq<Element>, e: int, sons: seq<int>, els': seq<Element>)
    requires MeshOk(nodes, vt, et, els) && 0 <= e < |els| && |sons| == 4
    requires forall s :: s in sons ==> s == Null || (e < s < |els| && els[s].parent == Null)
    requires |els'| == |els| && els'[e] == els[e].(sons := sons)
    requires forall s :: 0 <= s < |els| && s != e ==>
      els'[s] == (if s in sons then els[s].(parent := e) else els[s])
    ensures MeshOk(nodes, vt, et, els')
  {
    forall x | 0 <= x < |els'| ensures ElementOk(nodes, els', x) {
      assert ElementOk(nodes, els, x);
      forall i | 0 <= i < |els'[x].vn| ensures EdgeOf(nodes, els'[x], i) {
        assert EdgeOf(nodes, els[x], i);
      }
      forall s | s in els'[x].sons ensures s == Null || (x < s < |els'| && els'[s].parent == x) {
        if x != e && s != Null {
          assert s in els[x].sons;
          assert els[s].parent == x;
        }
      }
    }
  }

  /** Changing only flags of elements leaves the number of live ones alone when liveness is kept. */
  lemma {:induction false} ActiveCountSameLive(els: seq<Element>, els': seq<Element>)
    requires |els'| == |els| && forall i :: 0 <= i < |els| ==> Live(els'[i]) == Live(els[i])
    ensures ActiveCount(els') == ActiveCount(els)
    decreases |els|
  {
    if els != [] {
      var n := |els| - 1;
      ActiveCountSameLive(els[..n], els'[..n]);
    }
  }

  /** Soundness of corners only looks at kinds and recorded ends. */
  lemma SoundReshaped(vn: seq<int>, nodes: seq<Node>, nodes': seq<Node>)
    requires Sound(vn, nodes) && Reshaped(nodes, nodes')
    ensures Sound(vn, nodes')
  {
    assert SameShape(nodes[vn[0]], nodes'[vn[0]]) && SameShape(nodes[vn[1]], nodes'[vn[1]]);
    assert SameShape(nodes[vn[2]], nodes'[vn[2]]);
    if |vn| == 4 {
      assert SameShape(nodes[vn[3]], nodes'[vn[3]]);
    }
  }

  lemma ReshapedTrans(a: seq<Node>, b: seq<Node>, c: seq<Node>)
    requires Reshaped(a, b) && Reshaped(b, c)
    ensures Reshaped(a, c)
  {
  }

  /** `v` is the id of a vertex node. */
  predicate VertexId(nodes: seq<Node>, v: int)
  {
    0 <= v < |nodes| && nodes[v].kind == VertexNode
  }

  /**
   * Some three of the four coordinates a, b, c, d are equal, as
   * `create_quad` tests them: (a, b, c), (a, b, d), (a, c, d), (b, c, d).
   */
  predicate SharesCoordinate(a: real, b: real, c: real, d: real)
  {
    (a == b && a == c) || (a == b && a == d) || (a == c && a == d) || (b == c && c == d)
  }

  /**
   * `els` is `els0` with one more element at index `id`: active, used, a
   * base element (no parent, no sons) with marker `marker`, vertices `vn`,
   * and edge i being the edge node of the pair (vn[i], vn[i+1 mod n]).
   */
  ghost predicate Created(els0: seq<Element>, els: seq<Element>, id: int, marker: int, vn: seq<int>)
  {
    id == |els0| && |els| == id + 1 && els[..id] == els0
    && els[id].used && els[id].active && els[id].marker == marker && els[id].vn == vn
    && els[id].parent == Null && els[id].sons == NoSons && els[id].iroCache == 0
    && |els[id].en| == |vn|
  }

  /**
   * The state after an element factory succeeded: element `id` was created
   * as `Created` says, edge i of it is the edge node the table holds for the
   * pair (vn[i], vn[i+1 mod n]), existing nodes keep everything but their
   * reference counts, no vertex node was registered and no edge node
   * unregistered.
   */
  ghost predicate Added(nodes0: seq<Node>, nodes: seq<Node>, vt0: map<Key, int>, vt: map<Key, int>,
                        et0: map<Key, int>, et: map<Key, int>, els0: seq<Element>, els: seq<Element>,
                        id: int, marker: int, vn: seq<int>)
  {
    Created(els0, els, id, marker, vn)
    && (forall i :: 0 <= i < |vn| ==> EdgeKey(vn, i) in et && els[id].en[i] == et[EdgeKey(vn, i)])
    && |nodes0| <= |nodes| && (forall z :: 0 <= z < |nodes0| ==> SameButCounts(nodes0[z], nodes[z]))
    && vt == vt0 && (forall k :: k in et0 ==> k in et && et[k] == et0[k])
  }

  class Mesh {
    /** The node arena: vertex and edge nodes, addressed by id. */
    var nodes: seq<Node>
    /** `get_vertex_node` / `peek_vertex_node`: vertex pair -> mid-edge vertex node. */
    var vertexTable: map<Key, int>
    /** `get_edge_node` / `peek_edge_node`: vertex pair -> edge node. */
    var edgeTable: map<Key, int>
    /** The element arena. */
    var elements: seq<Element>
    /** `nactive`: the number of used, active elements. */
    var nactive: int
    /** `nbase`: the number of elements of the base mesh. */
    var nbase: int
    /** `ninitial`: the element count the refinement sweeps treat as initial. */
    var ninitial: int
    /** `ntopvert`: the number of top-level vertices. */
    var ntopvert: int
    /** `seq`: the stamp dependent caches compare to detect a changed mesh. */
    var seqStamp: int
    /** `refinements`: the log of (element id, refinement kind), -1 for an unrefinement. */
    var refinements: seq<(int, int)>
    /** The string <-> int tables of element markers and of boundary markers. */
    const elementMarkers: Markers.MarkersConversion
    const boundaryMarkers: Markers.MarkersConversion

    ghost predicate Valid()
      reads this
    {
      MeshOk(nodes, vertexTable, edgeTable, elements)
    }

    /**
     * `nactive` agrees with the elements.  The element factories do not
     * count the element they add (their callers do), so this holds between
     * the public operations rather than inside `Valid`.
     */
    ghost predicate Counted()
      reads this
    {
      nactive == ActiveCount(elements)
    }

    /** The counters and the log, which node and element bookkeeping leaves alone. */
    function Counters(): (int, int, int, int, int, seq<(int, int)>)
      reads this
    {
      (nactive, nbase, ninitial, ntopvert, seqStamp, refinements)
    }

    /** The counters other than `nactive`, and the log. */
    function Stamps(): (int, int, int, int, seq<(int, int)>)
      reads this
    {
      (nbase, ninitial, ntopvert, seqStamp, refinements)
    }

    /** An empty mesh with empty marker tables. */
    constructor ()
      ensures Valid() && fresh(elementMarkers) && fresh(boundaryMarkers)
      ensures elementMarkers.Valid() && boundaryMarkers.Valid()
      ensures nodes == [] && elements == [] && vertexTable == map[] && edgeTable == map[]
      ensures Counters() == (0, 0, 0, 0, 0, [])
    {
      nodes := [];
      vertexTable := map[];
      edgeTable := map[];
      elements := [];
      nactive, nbase, ninitial, ntopvert, seqStamp := 0, 0, 0, 0, 0;
      refinements := [];
      elementMarkers := new Markers.MarkersConversion();
      boundaryMarkers := new Markers.MarkersConversion();
    }

    /**
     * A vertex of the initial mesh, as a mesh loader adds it: in no table,
     * between no pair of vertices, and referenced `TOP_LEVEL_REF` times so
     * that unreferencing never frees it.
     */
    method AddVertex(x: real, y: real) returns (id: int)
      requires Valid()
      modifies this
      ensures Valid()
      ensures id == old(|nodes|)
      ensures nodes == old(nodes) + [Node(VertexNode, true, TopLevelRef, false, 0, x, y, Null, Null)]
      ensures vertexTable == old(vertexTable) && edgeTable == old(edgeTable)
      ensures elements == old(elements) && Counters() == old(Counters())
    {
      id := |nodes|;
      nodes := nodes + [Node(VertexNode, true, TopLevelRef, false, 0, x, y, Null, Null)];
      forall e | 0 <= e < |elements| ensures ElementOk(nodes, elements, e) {
        ElementOkReshaped(old(nodes), nodes, elements, e);
      }
    }

    /**
     * `get_vertex_node(a, b)`: the vertex node registered between `a` and
     * `b`, or, when there is none, a new one at the midpoint of the two,
     * unreferenced and not on the boundary.
     */
    method GetVertexNode(a: int, b: int) returns (x: int)
      requires Valid() && 0 <= a < |nodes| && 0 <= b < |nodes|
      modifies this
      ensures Valid()
      ensures KeyOf(a, b) in vertexTable && vertexTable[KeyOf(a, b)] == x
      ensures MidOf(nodes, x, a, b) && nodes[x].kind == VertexNode
      ensures KeyOf(a, b) in old(vertexTable) ==>
        x == old(vertexTable)[KeyOf(a, b)] && nodes == old(nodes) && vertexTable == old(vertexTable)
      ensures KeyOf(a, b) !in old(vertexTable) ==>
        x == old(|nodes|) && vertexTable == old(vertexTable)[KeyOf(a, b) := x]
        && nodes == old(nodes) + [Node(VertexNode, true, 0, false, 0,
                                       (old(nodes)[a].x + old(nodes)[b].x) / 2.0,
                                       (old(nodes)[a].y + old(nodes)[b].y) / 2.0,
                                       KeyOf(a, b).0, KeyOf(a, b).1)]
      ensures edgeTable == old(edgeTable) && elements == old(elements) && Counters() == old(Counters())
    {
      var k := KeyOf(a, b);
      if k in vertexTable {
        x := vertexTable[k];
        return;
      }
      x := |nodes|;
      var n := Node(VertexNode, true, 0, false, 0,
                    (nodes[a].x + nodes[b].x) / 2.0, (nodes[a].y + nodes[b].y) / 2.0, k.0, k.1);
      GrowKeepsElements(n);
      nodes := nodes + [n];
      vertexTable := vertexTable[k := x];
    }

    /**
     * `get_edge_node(a, b)`: the edge node registered between `a` and `b`,
     * or, when there is none, a new unreferenced interior one (marker 0).
     */
    method GetEdgeNode(a: int, b: int) returns (x: int)
      requires Valid() && 0 <= a < |nodes| && 0 <= b < |nodes|
      modifies this
      ensures Valid()
      ensures KeyOf(a, b) in edgeTable && edgeTable[KeyOf(a, b)] == x
      ensures MidOf(nodes, x, a, b) && nodes[x].kind == EdgeNode
      ensures KeyOf(a, b) in old(edgeTable) ==>
        x == old(edgeTable)[KeyOf(a, b)] && nodes == old(nodes) && edgeTable == old(edgeTable)
      ensures KeyOf(a, b) !in old(edgeTable) ==>
        x == old(|nodes|) && edgeTable == old(edgeTable)[KeyOf(a, b) := x]
        && nodes == old(nodes) + [Node(EdgeNode, true, 0, false, 0, 0.0, 0.0, KeyOf(a, b).0, KeyOf(a, b).1)]
      ensures vertexTable == old(vertexTable) && elements == old(elements) && Counters() == old(Counters())
    {
      var k := KeyOf(a, b);
      if k in edgeTable {
        x := edgeTable[k];
        return;
      }
      x := |nodes|;
      var n := Node(EdgeNode, true, 0, false, 0, 0.0, 0.0, k.0, k.1);
      GrowKeepsElements(n);
      nodes := nodes + [n];
      edgeTable := edgeTable[k := x];
    }

    /** The vertex and edge nodes of an element exist. */
    lemma NodesOfElementExist(e: int)
      requires Valid() && 0 <= e < |elements|
      ensures forall z :: z in elements[e].vn + elements[e].en ==> 0 <= z < |nodes|
    {
      assert ElementOk(nodes, elements, e);
    }

    /** Appending a node leaves every element well formed. */
    lemma GrowKeepsElements(n: Node)
      requires Valid()
      ensures forall e :: 0 <= e < |elements| ==> ElementOk(nodes + [n], elements, e)
    {
      forall e | 0 <= e < |elements| ensures ElementOk(nodes + [n], elements, e) {
        ElementOkReshaped(nodes, nodes + [n], elements, e);
      }
    }

    /**
     * `Element::ref_all_nodes`: one more reference on each vertex and edge
     * node of element `e`; nothing else changes.
     */
    method RefAllNodes(e: int)
      requires Valid() && 0 <= e < |elements|
      modifies this
      ensures Valid()
      ensures |nodes| == old(|nodes|)
      ensures forall z :: 0 <= z < |nodes| ==> SameButCounts(old(nodes[z]), nodes[z])
      ensures forall z :: 0 <= z < |nodes| ==>
        nodes[z].used == old(nodes[z].used) && nodes[z].ref == old(nodes[z].ref) + Occ(old(elements[e].vn + elements[e].en), z)
      ensures vertexTable == old(vertexTable) && edgeTable == old(edgeTable)
      ensures elements == old(elements) && Counters() == old(Counters())
    {
      assert ElementOk(nodes, elements, e);
      var ids := elements[e].vn + elements[e].en;
      ghost var nodes0 := nodes;
      var i := 0;
      while i < |ids|
        invariant 0 <= i <= |ids| && |nodes| == |nodes0|
        invariant forall z :: 0 <= z < |nodes| ==> SameButCounts(nodes0[z], nodes[z])
        invariant forall z :: 0 <= z < |nodes| ==>
          nodes[z].used == nodes0[z].used && nodes[z].ref == nodes0[z].ref + Occ(ids[..i], z)
        invariant elements == old(elements) && vertexTable == old(vertexTable) && edgeTable == old(edgeTable)
        invariant Counters() == old(Counters())
      {
        var z := ids[i];
        assert z in elements[e].vn || z in elements[e].en;
        forall y | 0 <= y < |nodes| ensures Occ(ids[..i + 1], y) == Occ(ids[..i], y) + (if z == y then 1 else 0) {
          OccStep(ids, i, y);
        }
        nodes := nodes[z := nodes[z].(ref := nodes[z].ref + 1)];
        i := i + 1;
      }
      assert ids[..i] == ids;
      MeshOkReshaped(nodes0, nodes, vertexTable, edgeTable, elements);
    }

    /**
     * `Element::unref_all_nodes`: one reference fewer on each vertex and
     * edge node of element `e`, in the order vertices then edges.  A node
     * whose count reaches zero is removed: its table entry goes and its slot
     * is marked unused.  A node is removed exactly when its count, before
     * the call, was positive and at most the number of times `e` cites it.
     */
    method UnrefAllNodes(e: int)
      requires Valid() && 0 <= e < |elements|
      modifies this
      ensures Valid()
      ensures |nodes| == old(|nodes|)
      ensures forall z :: 0 <= z < |nodes| ==> SameButCounts(old(nodes[z]), nodes[z])
      ensures forall z :: 0 <= z < |nodes| ==>
        nodes[z].ref == old(nodes[z].ref) - Occ(old(elements[e].vn + elements[e].en), z)
      ensures forall z :: 0 <= z < |nodes| ==>
        (nodes[z].used <==> old(nodes[z].used) && !Freed(old(nodes), old(elements[e].vn + elements[e].en), z))
      ensures forall k :: k in vertexTable ==> k in old(vertexTable) && vertexTable[k] == old(vertexTable)[k]
      ensures forall k :: k in old(vertexTable) ==>
        (k in vertexTable <==> !Freed(old(nodes), old(elements[e].vn + elements[e].en), old(vertexTable)[k]))
      ensures forall k :: k in edgeTable ==> k in old(edgeTable) && edgeTable[k] == old(edgeTable)[k]
      ensures forall k :: k in old(edgeTable) ==>
        (k in edgeTable <==> !Freed(old(nodes), old(elements[e].vn + elements[e].en), old(edgeTable)[k]))
      ensures elements == old(elements) && Counters() == old(Counters())
    {
      NodesOfElementExist(e);
      ghost var nodes0, vt0, et0 := nodes, vertexTable, edgeTable;
      var ids := elements[e].vn + elements[e].en;
      assert ids[..|ids|] == ids;
      UnrefNodes(ids);
      assert ids[..|ids|] == ids;
      MeshOkShrink(nodes0, vt0, et0, vertexTable, edgeTable, elements);
      MeshOkReshaped(nodes0, nodes, vertexTable, edgeTable, elements);
    }

    /** One reference fewer on each of `ids` in turn, as `UnrefAllNodes` describes. */
    method UnrefNodes(ids: seq<int>)
      requires forall z :: z in ids ==> 0 <= z < |nodes|
      requires TableInv(vertexTable, nodes, VertexNode) && TableInv(edgeTable, nodes, EdgeNode)
      modifies this
      ensures UnrefDone(old(nodes), old(vertexTable), old(edgeTable), ids, |ids|)
      ensures elements == old(elements) && Counters() == old(Counters())
    {
      ghost var nodes0, vt0, et0 := nodes, vertexTable, edgeTable;
      var i := 0;
      while i < |ids|
        invariant 0 <= i <= |ids| && UnrefDone(nodes0, vt0, et0, ids, i)
        invariant elements == old(elements) && Counters() == old(Counters())
      {
        UnrefStep(nodes0, vt0, et0, ids, i);
        i := i + 1;
      }
    }

    /**
     * The state after unreferencing the first `i` of `ids`, starting from
     * `nodes0` and tables `vt0`, `et0`: `UnrefPrefix` on the nodes, and a
     * table entry is gone exactly when its node was freed.
     */
    ghost predicate UnrefDone(nodes0: seq<Node>, vt0: map<Key, int>, et0: map<Key, int>, ids: seq<int>, i: int)
      reads this
      requires 0 <= i <= |ids|
    {
      UnrefPrefix(nodes0, nodes, ids, i)
      && (forall k :: k in vertexTable ==> k in vt0 && vertexTable[k] == vt0[k])
      && (forall k :: k in vt0 ==> (k in vertexTable <==> !Freed(nodes0, ids[..i], vt0[k])))
      && (forall k :: k in edgeTable ==> k in et0 && edgeTable[k] == et0[k])
      && (forall k :: k in et0 ==> (k in edgeTable <==> !Freed(nodes0, ids[..i], et0[k])))
    }

    /** Unreferences `ids[i]`, extending `UnrefDone` by one. */
    method UnrefStep(ghost nodes0: seq<Node>, ghost vt0: map<Key, int>, ghost et0: map<Key, int>, ids: seq<int>, i: int)
      requires 0 <= i < |ids| && forall z :: z in ids ==> 0 <= z < |nodes0|
      requires TableInv(vt0, nodes0, VertexNode) && TableInv(et0, nodes0, EdgeNode)
      requires UnrefDone(nodes0, vt0, et0, ids, i)
      modifies this
      ensures UnrefDone(nodes0, vt0, et0, ids, i + 1)
      ensures elements == old(elements) && Counters() == old(Counters())
    {
      var z := ids[i];
      assert z in ids;
      UnrefPrefixStep(nodes0, nodes, ids, i);
      ghost var vt1, et1 := vertexTable, edgeTable;
      UnrefNode(z);
      DropStep(vt0, vt1, vertexTable, nodes0, ids, i, VertexNode);
      DropStep(et0, et1, edgeTable, nodes0, ids, i, EdgeNode);
    }

    /**
     * One reference fewer on node `z`; at zero the node leaves its table
     * (`HashTable::remove`) and its slot is marked unused.
     */
    method UnrefNode(z: int)
      requires 0 <= z < |nodes|
      modifies this
      ensures var n := old(nodes[z]);
        nodes == old(nodes)[z := n.(ref := n.ref - 1, used := n.used && n.ref - 1 != 0)]
      ensures var n := old(nodes[z]);
        vertexTable == (if n.ref - 1 == 0 && n.kind == VertexNode then Drop(old(vertexTable), (n.p1, n.p2), z) else old(vertexTable))
      ensures var n := old(nodes[z]);
        edgeTable == (if n.ref - 1 == 0 && n.kind == EdgeNode then Drop(old(edgeTable), (n.p1, n.p2), z) else old(edgeTable))
      ensures elements == old(elements) && Counters() == old(Counters())
    {
      var n := nodes[z];
      if n.ref - 1 == 0 {
        if n.kind == VertexNode {
          vertexTable := Drop(vertexTable, (n.p1, n.p2), z);
        } else {
          edgeTable := Drop(edgeTable, (n.p1, n.p2), z);
        }
        nodes := nodes[z := n.(ref := 0, used := false)];
      } else {
        nodes := nodes[z := n.(ref := n.ref - 1)];
      }
    }

    /**
     * A new active base element with vertices `vn`, its edge nodes looked up
     * or created edge by edge, and all its nodes referenced, as the two
     * element factories build it once their checks have passed.
     */
    method AddElement(marker: int, vn: seq<int>) returns (id: int)
      requires Valid() && (|vn| == 3 || |vn| == 4)
      requires forall v :: v in vn ==> 0 <= v < |nodes| && nodes[v].kind == VertexNode
      modifies this
      ensures Valid()
      ensures Added(old(nodes), nodes, old(vertexTable), vertexTable, old(edgeTable), edgeTable,
                    old(elements), elements, id, marker, vn)
      ensures ActiveCount(elements) == ActiveCount(old(elements)) + 1 && Counters() == old(Counters())
    {
      var en := AddEdgeNodes(vn);
      id := |elements|;
      var x := Element(true, true, marker, vn, en, Null, NoSons, 0);
      forall i | 0 <= i < |vn| ensures EdgeOf(nodes, x, i) {
        assert EdgeKey(vn, i) in edgeTable;
        PeekIsMid(edgeTable, nodes, EdgeNode, vn[i], vn[(i + 1) % |vn|]);
      }
      MeshOkAppend(nodes, vertexTable, edgeTable, elements, x);
      elements := elements + [x];
      ActiveCountAppend(old(elements), x);
      RefAllNodes(id);
    }

    /** `en` lists, in order, the edge nodes of the first `|en|` edges of `vn`. */
    ghost predicate EdgesFound(vn: seq<int>, en: seq<int>)
      reads this
    {
      |en| <= |vn| && forall j :: 0 <= j < |en| ==>
        EdgeKey(vn, j) in edgeTable && en[j] == edgeTable[EdgeKey(vn, j)] && 0 <= en[j] < |nodes| && nodes[en[j]].kind == EdgeNode
    }

    /** One step of `AddEdgeNodes`: the edge node of edge `|en|` of `vn`, looked up or created. */
    method PushEdgeNode(vn: seq<int>, en: seq<int>) returns (en2: seq<int>)
      requires Valid() && |en| < |vn| && EdgesFound(vn, en)
      requires forall v :: v in vn ==> 0 <= v < |nodes| && nodes[v].kind == VertexNode
      modifies this
      ensures Valid() && |en2| == |en| + 1 && en2[..|en|] == en && EdgesFound(vn, en2)
      ensures old(nodes) <= nodes
      ensures vertexTable == old(vertexTable) && elements == old(elements) && Counters() == old(Counters())
      ensures forall k :: k in old(edgeTable) ==> k in edgeTable && edgeTable[k] == old(edgeTable)[k]
    {
      var i := |en|;
      var a, b := vn[i], vn[(i + 1) % |vn|];
      assert a in vn && b in vn;
      ghost var et1, nodes1 := edgeTable, nodes;
      var x := GetEdgeNode(a, b);
      assert forall j :: 0 <= j < i ==> en[j] < |nodes1| && nodes[en[j]] == nodes1[en[j]];
      en2 := en + [x];
    }

    /** The edge nodes of an element with vertices `vn`, looked up or created in edge order. */
    method AddEdgeNodes(vn: seq<int>) returns (en: seq<int>)
      requires Valid() && (|vn| == 3 || |vn| == 4)
      requires forall v :: v in vn ==> 0 <= v < |nodes| && nodes[v].kind == VertexNode
      modifies this
      ensures Valid() && |en| == |vn|
      ensures forall i :: 0 <= i < |vn| ==> EdgeKey(vn, i) in edgeTable && en[i] == edgeTable[EdgeKey(vn, i)]
      ensures forall j :: 0 <= j < |en| ==> 0 <= en[j] < |nodes| && nodes[en[j]].kind == EdgeNode
      ensures old(|nodes|) <= |nodes| && forall z :: 0 <= z < old(|nodes|) ==> nodes[z] == old(nodes[z])
      ensures vertexTable == old(vertexTable) && elements == old(elements) && Counters() == old(Counters())
      ensures forall k :: k in old(edgeTable) ==> k in edgeTable && edgeTable[k] == old(edgeTable)[k]
    {
      en := [];
      while |en| < |vn|
        invariant Valid() && old(nodes) <= nodes && EdgesFound(vn, en)
        invariant forall v :: v in vn ==> 0 <= v < |nodes| && nodes[v].kind == VertexNode
        invariant vertexTable == old(vertexTable) && elements == old(elements) && Counters() == old(Counters())
        invariant forall k :: k in old(edgeTable) ==> k in edgeTable && edgeTable[k] == old(edgeTable)[k]
        decreases |vn| - |en|
      {
        ghost var nodes1 := nodes;
        en := PushEdgeNode(vn, en);
        assert forall v :: v in vn ==> v < |nodes1| && nodes[v] == nodes1[v];
      }
    }

    /**
     * `create_triangle`: a new active base triangle on vertex nodes v0, v1,
     * v2 with marker `marker`, its edge nodes looked up or created.  It fails
     * when two of the vertices are the same node, or when all three share
     * their x- or their y-coordinate.  The caller keeps `nactive`.
     */
    method CreateTriangle(marker: int, v0: int, v1: int, v2: int) returns (r: Result<int>)
      requires Valid()
      requires VertexId(nodes, v0) && VertexId(nodes, v1) && VertexId(nodes, v2)
      modifies this
      ensures Valid()
      ensures r.Err? <==>
        v0 == v1 || v1 == v2 || v2 == v0
        || (old(nodes[v0].x) == old(nodes[v1].x) && old(nodes[v0].x) == old(nodes[v2].x))
        || (old(nodes[v0].y) == old(nodes[v1].y) && old(nodes[v0].y) == old(nodes[v2].y))
      ensures r.Err? ==>
        r.error == (if v0 == v1 || v1 == v2 || v2 == v0 then IdenticalVertices
                    else if old(nodes[v0].x) == old(nodes[v1].x) && old(nodes[v0].x) == old(nodes[v2].x) then SharedX
                    else SharedY)
        && nodes == old(nodes) && elements == old(elements)
        && vertexTable == old(vertexTable) && edgeTable == old(edgeTable)
      ensures r.Ok? ==> Added(old(nodes), nodes, old(vertexTable), vertexTable, old(edgeTable), edgeTable,
                              old(elements), elements, r.value, marker, [v0, v1, v2])
      ensures r.Ok? ==> ActiveCount(elements) == ActiveCount(old(elements)) + 1
      ensures Counters() == old(Counters())
    {
      if v0 == v1 || v1 == v2 || v2 == v0 {
        return Err(IdenticalVertices);
      }
      if nodes[v0].x == nodes[v1].x && nodes[v0].x == nodes[v2].x {
        return Err(SharedX);
      }
      if nodes[v0].y == nodes[v1].y && nodes[v0].y == nodes[v2].y {
        return Err(SharedY);
      }
      var id := AddElement(marker, [v0, v1, v2]);
      return Ok(id);
    }

    /**
     * `create_quad`: a new active base quad on v0, v1, v2, v3.  It fails when
     * two vertices are the same node (adjacent ones or the diagonal pairs
     * v0, v2 and v1, v3), or when one of the triples (v0, v1, v2),
     * (v0, v1, v3), (v0, v2, v3), (v1, v2, v3) shares its x- or its
     * y-coordinate.
     */
    method CreateQuad(marker: int, v0: int, v1: int, v2: int, v3: int) returns (r: Result<int>)
      requires Valid()
      requires VertexId(nodes, v0) && VertexId(nodes, v1) && VertexId(nodes, v2) && VertexId(nodes, v3)
      modifies this
      ensures Valid()
      ensures r.Err? <==>
        v0 == v1 || v1 == v2 || v2 == v3 || v3 == v0 || v2 == v0 || v3 == v1
        || SharesCoordinate(old(nodes[v0].x), old(nodes[v1].x), old(nodes[v2].x), old(nodes[v3].x))
        || SharesCoordinate(old(nodes[v0].y), old(nodes[v1].y), old(nodes[v2].y), old(nodes[v3].y))
      ensures r.Err? ==>
        r.error == (if v0 == v1 || v1 == v2 || v2 == v3 || v3 == v0 || v2 == v0 || v3 == v1 then IdenticalVertices
                    else if SharesCoordinate(old(nodes[v0].x), old(nodes[v1].x), old(nodes[v2].x), old(nodes[v3].x))
                    then SharedX else SharedY)
        && nodes == old(nodes) && elements == old(elements)
        && vertexTable == old(vertexTable) && edgeTable == old(edgeTable)
      ensures r.Ok? ==> Added(old(nodes), nodes, old(vertexTable), vertexTable, old(edgeTable), edgeTable,
                              old(elements), elements, r.value, marker, [v0, v1, v2, v3])
      ensures r.Ok? ==> ActiveCount(elements) == ActiveCount(old(elements)) + 1
      ensures Counters() == old(Counters())
    {
      if v0 == v1 || v1 == v2 || v2 == v3 || v3 == v0 || v2 == v0 || v3 == v1 {
        return Err(IdenticalVertices);
      }
      if (nodes[v0].x == nodes[v1].x && nodes[v0].x == nodes[v2].x) || (nodes[v0].x == nodes[v1].x && nodes[v0].x == nodes[v3].x)
        || (nodes[v0].x == nodes[v2].x && nodes[v0].x == nodes[v3].x) || (nodes[v1].x == nodes[v2].x && nodes[v2].x == nodes[v3].x)
      {
        return Err(SharedX);
      }
      if (nodes[v0].y == nodes[v1].y && nodes[v0].y == nodes[v2].y) || (nodes[v0].y == nodes[v1].y && nodes[v0].y == nodes[v3].y)
        || (nodes[v0].y == nodes[v2].y && nodes[v0].y == nodes[v3].y) || (nodes[v1].y == nodes[v2].y && nodes[v2].y == nodes[v3].y)
      {
        return Err(SharedY);
      }
      var id := AddElement(marker, [v0, v1, v2, v3]);
      return Ok(id);
    }

    /**
     * The boundary flag and marker writes a split or an unrefinement makes,
     * in order.  Flag writes keep kinds and recorded ends, so the mesh stays
     * valid.
     */
    method WriteFlags(ws: seq<FlagWrite>)
      requires Valid() && InRange(nodes, ws)
      modifies this
      ensures Valid() && nodes == Applied(old(nodes), ws) && Reshaped(old(nodes), nodes) && |nodes| == old(|nodes|)
      ensures vertexTable == old(vertexTable) && edgeTable == old(edgeTable)
      ensures elements == old(elements) && Counters() == old(Counters())
    {
      for i := 0 to |ws|
        invariant InRange(nodes, ws[i..]) && Applied(nodes, ws[i..]) == Applied(old(nodes), ws)
        invariant vertexTable == old(vertexTable) && edgeTable == old(edgeTable)
        invariant elements == old(elements) && Counters() == old(Counters())
      {
        assert ws[i..][0] == ws[i] && ws[i..][1..] == ws[i + 1..];
        nodes := nodes[ws[i].z := Written(nodes[ws[i].z], ws[i])];
      }
      AppliedShape(old(nodes), ws);
      MeshOkReshaped(old(nodes), nodes, vertexTable, edgeTable, elements);
    }

    /** Moves node `z` to (x, y). */
    method SetNodePosition(z: int, x: real, y: real)
      requires Valid() && 0 <= z < |nodes|
      modifies this
      ensures Valid() && Reshaped(old(nodes), nodes) && |nodes| == old(|nodes|)
      ensures nodes == old(nodes)[z := old(nodes[z]).(x := x, y := y)]
      ensures vertexTable == old(vertexTable) && edgeTable == old(edgeTable)
      ensures elements == old(elements) && Counters() == old(Counters())
    {
      nodes := nodes[z := nodes[z].(x := x, y := y)];
      assert Reshaped(old(nodes), nodes) by {
        forall i | 0 <= i < |old(nodes)| ensures SameShape(old(nodes)[i], nodes[i]) {
        }
      }
      MeshOkReshaped(old(nodes), nodes, vertexTable, edgeTable, elements);
    }

    /** `e->active = 0`: element `e` is no longer a leaf of the refinement tree. */
    method Deactivate(e: int)
      requires Valid() && 0 <= e < |elements|
      modifies this
      ensures Valid()
      ensures elements == old(elements)[e := old(elements[e]).(active := false)]
      ensures ActiveCount(elements) == ActiveCount(old(elements)) - (if Live(old(elements[e])) then 1 else 0)
      ensures nodes == old(nodes) && vertexTable == old(vertexTable) && edgeTable == old(edgeTable)
      ensures Counters() == old(Counters())
    {
      elements := elements[e := elements[e].(active := false)];
      MeshOkSameLinks(nodes, vertexTable, edgeTable, old(elements), elements);
      ActiveCountUpdate(old(elements), e, elements[e]);
    }

    /**
     * The end of every split: each non-null son records `e` as its parent,
     * then `e` takes the four son slots.
     */
    method Adopt(e: int, sons: seq<int>)
      requires Valid() && 0 <= e < |elements| && |sons| == 4
      requires forall s :: s in sons ==> s == Null || (e < s < |elements| && elements[s].parent == Null)
      modifies this
      ensures Valid()
      ensures |elements| == old(|elements|) && elements[e] == old(elements[e]).(sons := sons)
      ensures forall s :: 0 <= s < |elements| && s != e ==>
        elements[s] == (if s in sons then old(elements[s]).(parent := e) else old(elements[s]))
      ensures ActiveCount(elements) == ActiveCount(old(elements))
      ensures nodes == old(nodes) && vertexTable == old(vertexTable) && edgeTable == old(edgeTable)
      ensures Counters() == old(Counters())
    {
      for i := 0 to 4
        invariant |elements| == old(|elements|) && elements[e] == old(elements[e])
        invariant forall s :: 0 <= s < |elements| && s != e ==>
          elements[s] == (if s in sons[..i] then old(elements[s]).(parent := e) else old(elements[s]))
        invariant nodes == old(nodes) && vertexTable == old(vertexTable) && edgeTable == old(edgeTable)
        invariant Counters() == old(Counters())
      {
        if sons[i] != Null {
          assert sons[i] in sons;
          elements := elements[sons[i] := elements[sons[i]].(parent := e)];
        }
      }
      elements := elements[e := elements[e].(sons := sons)];
      assert sons[..4] == sons;
      MeshOkAdopt(nodes, vertexTable, edgeTable, old(elements), e, sons, elements);
      ActiveCountSameLive(old(elements), elements);
    }

    /** `elements.remove(s)`: the slot of element `s` is no longer in use. */
    method RemoveElement(s: int)
      requires Valid() && 0 <= s < |elements|
      modifies this
      ensures Valid()
      ensures elements == old(elements)[s := old(elements[s]).(used := false)]
      ensures ActiveCount(elements) == ActiveCount(old(elements)) - (if Live(old(elements[s])) then 1 else 0)
      ensures nodes == old(nodes) && vertexTable == old(vertexTable) && edgeTable == old(edgeTable)
      ensures Counters() == old(Counters())
    {
      elements := elements[s := elements[s].(used := false)];
      MeshOkSameLinks(nodes, vertexTable, edgeTable, old(elements), elements);
      ActiveCountUpdate(old(elements), s, elements[s]);
    }

    /**
     * The end of an unrefinement: element `e` is a leaf again, its edges the
     * registered edge nodes `en`.  In the source the son pointers and the
     * edge nodes share storage, so the son slots are empty afterwards.
     */
    method Reactivate(e: int, en: seq<int>)
      requires Valid() && 0 <= e < |elements| && |en| == |elements[e].vn|
      requires forall i :: 0 <= i < |en| ==>
        EdgeKey(elements[e].vn, i) in edgeTable && en[i] == edgeTable[EdgeKey(elements[e].vn, i)]
      modifies this
      ensures Valid()
      ensures elements == old(elements)[e := old(elements[e]).(active := true, en := en, sons := NoSons)]
      ensures ActiveCount(elements) == ActiveCount(old(elements)) + (if Live(old(elements[e])) || !old(elements[e].used) then 0 else 1)
      ensures nodes == old(nodes) && vertexTable == old(vertexTable) && edgeTable == old(edgeTable)
      ensures Counters() == old(Counters())
    {
      var x := elements[e].(active := true, en := en, sons := NoSons);
      MeshOkReactivate(nodes, vertexTable, edgeTable, elements, e, x);
      elements := elements[e := x];
      ActiveCountUpdate(old(elements), e, x);
    }

    /** The end of `refine_element`: every non-null son of `e` takes the `iro_cache` of `e`. */
    method CopySonCaches(e: int)
      requires Valid() && 0 <= e < |elements|
      requires forall s :: s in elements[e].sons ==> s == Null || (0 <= s < |elements| && s != e)
      modifies this
      ensures Valid()
      ensures |elements| == old(|elements|) && elements[e] == old(elements[e])
      ensures forall s :: 0 <= s < |elements| && s != e ==>
        elements[s] == (if s in old(elements[e].sons) then old(elements[s]).(iroCache := old(elements[e].iroCache))
                        else old(elements[s]))
      ensures ActiveCount(elements) == ActiveCount(old(elements))
      ensures nodes == old(nodes) && vertexTable == old(vertexTable) && edgeTable == old(edgeTable)
      ensures Counters() == old(Counters())
    {
      var sons, v := elements[e].sons, elements[e].iroCache;
      for i := 0 to |sons|
        invariant |elements| == old(|elements|) && elements[e] == old(elements[e])
        invariant forall s :: 0 <= s < |elements| && s != e ==>
          elements[s] == (if s in sons[..i] then old(elements[s]).(iroCache := v) else old(elements[s]))
        invariant nodes == old(nodes) && vertexTable == old(vertexTable) && edgeTable == old(edgeTable)
        invariant Counters() == old(Counters())
      {
        if sons[i] != Null {
          assert sons[i] in sons;
          elements := elements[sons[i] := elements[sons[i]].(iroCache := v)];
        }
      }
      assert sons[..|sons|] == sons;
      MeshOkSameLinks(nodes, vertexTable, edgeTable, old(elements), elements);
      ActiveCountSameLive(old(elements), elements);
    }

    /** `e->used = u`. */
    method SetUsed(e: int, u: bool)
      requires Valid() && 0 <= e < |elements|
      modifies this
      ensures Valid()
      ensures elements == old(elements)[e := old(elements[e]).(used := u)]
      ensures nodes == old(nodes) && vertexTable == old(vertexTable) && edgeTable == old(edgeTable)
      ensures Counters() == old(Counters())
    {
      elements := elements[e := elements[e].(used := u)];
      MeshOkSameLinks(nodes, vertexTable, edgeTable, old(elements), elements);
    }

    /** `e->marker = mk`. */
    method SetElementMarker(e: int, mk: int)
      requires Valid() && 0 <= e < |elements|
      modifies this
      ensures Valid()
      ensures elements == old(elements)[e := old(elements[e]).(marker := mk)]
      ensures ActiveCount(elements) == ActiveCount(old(elements))
      ensures nodes == old(nodes) && vertexTable == old(vertexTable) && edgeTable == old(edgeTable)
      ensures Counters() == old(Counters())
    {
      elements := elements[e := elements[e].(marker := mk)];
      MeshOkSameLinks(nodes, vertexTable, edgeTable, old(elements), elements);
      ActiveCountUpdate(old(elements), e, elements[e]);
    }

    /** `node->marker = mk` for node `z`. */
    method SetNodeMarker(z: int, mk: int)
      requires Valid() && 0 <= z < |nodes|
      modifies this
      ensures Valid() && Reshaped(old(nodes), nodes)
      ensures nodes == old(nodes)[z := old(nodes[z]).(marker := mk)]
      ensures vertexTable == old(vertexTable) && edgeTable == old(edgeTable)
      ensures elements == old(elements) && Counters() == old(Counters())
    {
      nodes := nodes[z := nodes[z].(marker := mk)];
      assert Reshaped(old(nodes), nodes) by {
        forall i | 0 <= i < |old(nodes)| ensures SameShape(old(nodes)[i], nodes[i]) {
        }
      }
      MeshOkReshaped(old(nodes), nodes, vertexTable, edgeTable, elements);
    }

    /** `node->bnd = true` for node `z`. */
    method SetNodeBoundary(z: int)
      requires Valid() && 0 <= z < |nodes|
      modifies this
      ensures Valid() && Reshaped(old(nodes), nodes)
      ensures nodes == old(nodes)[z := old(nodes[z]).(bnd := true)]
      ensures vertexTable == old(vertexTable) && edgeTable == old(edgeTable)
      ensures elements == old(elements) && Counters() == old(Counters())
    {
      nodes := nodes[z := nodes[z].(bnd := true)];
      assert Reshaped(old(nodes), nodes) by {
        forall i | 0 <= i < |old(nodes)| ensures SameShape(old(nodes)[i], nodes[i]) {
        }
      }
      MeshOkReshaped(old(nodes), nodes, vertexTable, edgeTable, elements);
    }
  }
}
