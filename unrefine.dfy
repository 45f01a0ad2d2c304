/**
 * Unrefinement in hermes2d/src/mesh/mesh.cpp: `unrefine_element_internal`
 * (an element whose sons are leaves becomes a leaf again),
 * `unrefine_element_id` (the same after unrefining its refined sons first)
 * and `unrefine_all_elements`.
 *
 * `MeshUtil::get_edge_sons`, which picks the son whose edge carries the
 * boundary data of a parent edge, is not part of this model; `EdgeSonSlot`
 * states the choice for the four splits whose sons keep the parent's edges
 * under the same local numbers.  The global counter `g_mesh_seq` is a
 * parameter, as in the refinement calls.
 */
module Unrefine {
  import opened MeshData
  import opened MeshModel
  import opened MeshRefine

  /**
   * The son slot whose edge i lies on edge i of the refined element `el`:
   * slot i after a split into four; slot 0 for edges 0 and 1 and slot 1 for
   * edges 2 and 3 after a horizontal cut (son slot 2 empty); slot 2 for
   * edges 0 and 3 and slot 3 for edges 1 and 2 after a vertical cut (son
   * slot 0 empty).
   */
  function EdgeSonSlot(el: Element, i: int): (s: int)
    ensures 0 <= s < 4
  {
    if |el.vn| == 4 && |el.sons| == 4 && el.sons[2] == Null then (if i <= 1 then 0 else 1)
    else if |el.vn| == 4 && |el.sons| == 4 && el.sons[0] == Null then (if i == 0 || i == 3 then 2 else 3)
    else if 0 <= i < 4 then i else 0
  }

  /** The number of non-null entries of a son list. */
  function NonNull(ss: seq<int>): (c: nat)
    ensures c <= |ss|
  {
    if ss == [] then 0 else NonNull(ss[..|ss| - 1]) + (if ss[|ss| - 1] != Null then 1 else 0)
  }

  /** `NonNull` grows by the next entry. */
  lemma NonNullStep(ss: seq<int>, i: int)
    requires 0 <= i < |ss|
    ensures NonNull(ss[..i + 1]) == NonNull(ss[..i]) + (if ss[i] != Null then 1 else 0)
  {
    assert ss[..i + 1][..i] == ss[..i];
  }

  /** Edge i of refined element `e` can be read from a son: its slot holds an element with an edge i. */
  ghost predicate HasEdgeSon(els: seq<Element>, e: int, i: int)
    requires 0 <= e < |els| && |els[e].sons| == 4
  {
    var s := els[e].sons[EdgeSonSlot(els[e], i)];
    0 <= s < |els| && 0 <= i < |els[s].vn| && i < |els[s].en|
  }

  /**
   * What `unrefine_element_internal` needs of element `e`: every edge has
   * a son to read it from, and that son is active (the source asserts it).
   */
  ghost predicate EdgeSonsReady(els: seq<Element>, e: int)
    requires 0 <= e < |els|
  {
    |els[e].sons| == 4
    && forall i :: 0 <= i < |els[e].vn| ==> HasEdgeSon(els, e, i) && els[els[e].sons[EdgeSonSlot(els[e], i)]].active
  }

  /** The edge node of the son that `unrefine_element_internal` reads the flags of edge i of `e` from. */
  function SonEdge(els: seq<Element>, e: int, i: int): int
    requires 0 <= e < |els| && |els[e].sons| == 4 && HasEdgeSon(els, e, i)
  {
    els[els[e].sons[EdgeSonSlot(els[e], i)]].en[i]
  }

  /** The edge nodes of the sons that `unrefine_element_internal` reads the flags of edge 0, 1, ... from. */
  function SonEdges(els: seq<Element>, e: int): (zs: seq<int>)
    requires 0 <= e < |els| && |els[e].sons| == 4
    requires forall i :: 0 <= i < |els[e].vn| ==> HasEdgeSon(els, e, i)
    ensures |zs| == |els[e].vn|
  {
    seq(|els[e].vn|, i requires 0 <= i < |els[e].vn| => SonEdge(els, e, i))
  }

  /** Edge node i of `en` (in `nodes`) carries the flags son edge node i of `zs` had (in `nodes0`). */
  ghost predicate CarriesFlags(nodes: seq<Node>, en: seq<int>, nodes0: seq<Node>, zs: seq<int>)
  {
    |zs| == |en|
    && forall i :: 0 <= i < |en| ==>
      0 <= en[i] < |nodes| && 0 <= zs[i] < |nodes0|
      && nodes[en[i]].bnd == nodes0[zs[i]].bnd && nodes[en[i]].marker == nodes0[zs[i]].marker
  }

  /** The writes restoring the flags `bnd`, `mrk` on edge nodes `en`, edge by edge. */
  function EdgeWrites(en: seq<int>, bnd: seq<bool>, mrk: seq<int>): (ws: seq<FlagWrite>)
    requires |bnd| == |en| && |mrk| == |en|
    ensures |ws| == |en| && forall i :: 0 <= i < |en| ==> ws[i] == EdgeFlags(en[i], bnd[i], mrk[i])
  {
    seq(|en|, i requires 0 <= i < |en| => EdgeFlags(en[i], bnd[i], mrk[i]))
  }

  /**
   * The sons of element `e` are live and no two slots hold the same one,
   * and `e` itself is in use: then unrefining `e` keeps `nactive` right.
   */
  ghost predicate SonsLive(els: seq<Element>, e: int)
    requires 0 <= e < |els|
  {
    var ss := els[e].sons;
    els[e].used && |ss| == 4
    && (forall i :: 0 <= i < 4 && ss[i] != Null ==> 0 <= ss[i] < |els| && Live(els[ss[i]]))
    && (forall i, j :: 0 <= i < j < 4 && ss[i] != Null ==> ss[i] != ss[j])
  }

  /**
   * `unrefine_element_internal`: `(e, -1)` is logged; the flags of each
   * edge are read from the son lying on it; every son is unreferenced,
   * removed and uncounted; `e` gets its edge nodes back (looked up or
   * created), references its nodes, becomes active and is counted; and each
   * edge node takes the flags read from the son.
   */
  method UnrefineElementInternal(m: Mesh, e: int)
    requires m.Valid() && 0 <= e < |m.elements| && !m.elements[e].active && EdgeSonsReady(m.elements, e)
    modifies m
    ensures m.Valid() && |m.elements| == old(|m.elements|)
    ensures m.refinements == old(m.refinements) + [(e, -1)]
    ensures m.nactive == old(m.nactive) - NonNull(old(m.elements[e].sons)) + 1
    ensures m.nbase == old(m.nbase) && m.ninitial == old(m.ninitial) && m.ntopvert == old(m.ntopvert)
    ensures m.seqStamp == old(m.seqStamp)
    ensures m.elements[e] == old(m.elements[e]).(active := true, en := m.elements[e].en, sons := NoSons)
    ensures forall s :: 0 <= s < |m.elements| && s != e ==>
      m.elements[s] == if s in old(m.elements[e].sons) then old(m.elements[s]).(used := false) else old(m.elements[s])
    ensures CornersApart(old(m.elements[e].vn)) ==>
      CarriesFlags(m.nodes, m.elements[e].en, old(m.nodes), old(SonEdges(m.elements, e)))
    ensures old(m.Counted()) && old(SonsLive(m.elements, e)) ==> m.Counted()
    ensures Undone(old(m.elements), m.elements, e)
  {
    ghost var els0 := m.elements;
    assert ElementOk(m.nodes, m.elements, e);
    var zs := SonEdges(m.elements, e);
    forall i | 0 <= i < |zs| ensures 0 <= zs[i] < |m.nodes| {
      var s := m.elements[e].sons[EdgeSonSlot(m.elements[e], i)];
      assert ElementOk(m.nodes, m.elements, s) && zs[i] in m.elements[s].en;
    }
    var bnd := seq(|zs|, i requires 0 <= i < |zs| && 0 <= zs[i] < |m.nodes| reads m => m.nodes[zs[i]].bnd);
    var mrk := seq(|zs|, i requires 0 <= i < |zs| && 0 <= zs[i] < |m.nodes| reads m => m.nodes[zs[i]].marker);
    m.refinements := m.refinements + [(e, -1)];
    ghost var nodes0 := m.nodes;
    RemoveSons(m, e);
    var en := Relink(m, e);
    RestoreFlags(m, e, en, bnd, mrk);
    if CornersApart(m.elements[e].vn) {
      assert CarriesFlags(m.nodes, en, nodes0, zs);
    }
    UndoneByInternal(els0, m.elements, e, en);
  }

  /**
   * The sons of `e` are dropped in slot order: each is unreferenced, its
   * slot freed and `nactive` decremented.
   */
  method RemoveSons(m: Mesh, e: int)
    requires m.Valid() && 0 <= e < |m.elements|
    modifies m
    ensures m.Valid() && |m.elements| == old(|m.elements|)
    ensures m.elements[e] == old(m.elements[e])
    ensures forall s :: 0 <= s < |m.elements| && s != e ==>
      m.elements[s] == if s in old(m.elements[e].sons) then old(m.elements[s]).(used := false) else old(m.elements[s])
    ensures m.nactive == old(m.nactive) - NonNull(old(m.elements[e].sons))
    ensures old(SonsLive(m.elements, e)) ==>
      ActiveCount(m.elements) == ActiveCount(old(m.elements)) - NonNull(old(m.elements[e].sons))
    ensures m.Stamps() == old(m.Stamps())
  {
    assert ElementOk(m.nodes, m.elements, e);
    var sons := m.elements[e].sons;
    ghost var live := SonsLive(m.elements, e);
    for i := 0 to 4
      invariant m.Valid() && |m.elements| == old(|m.elements|)
      invariant m.elements[e] == old(m.elements[e])
      invariant forall s :: 0 <= s < |m.elements| && s != e ==>
        m.elements[s] == if s in sons[..i] then old(m.elements[s]).(used := false) else old(m.elements[s])
      invariant m.nactive == old(m.nactive) - NonNull(sons[..i])
      invariant live ==> ActiveCount(m.elements) == ActiveCount(old(m.elements)) - NonNull(sons[..i])
      invariant m.Stamps() == old(m.Stamps())
    {
      NonNullStep(sons, i);
      assert sons[..i + 1] == sons[..i] + [sons[i]];
      var s := sons[i];
      if s != Null {
        assert s in sons;
        assert live ==> s !in sons[..i] && Live(m.elements[s]);
        RemoveSon(m, s);
      }
    }
    assert sons[..4] == sons;
  }

  /** One son dropped: its nodes unreferenced, its slot freed, `nactive` one less. */
  method RemoveSon(m: Mesh, s: int)
    requires m.Valid() && 0 <= s < |m.elements|
    modifies m
    ensures m.Valid() && m.elements == old(m.elements)[s := old(m.elements[s]).(used := false)]
    ensures m.nactive == old(m.nactive) - 1 && m.Stamps() == old(m.Stamps())
    ensures ActiveCount(m.elements) == ActiveCount(old(m.elements)) - (if Live(old(m.elements[s])) then 1 else 0)
  {
    m.UnrefAllNodes(s);
    m.RemoveElement(s);
    m.nactive := m.nactive - 1;
  }

  /**
   * `e` takes the registered edge nodes of its corners (looked up or
   * created), references its nodes, becomes active and is counted.
   */
  method Relink(m: Mesh, e: int) returns (en: seq<int>)
    requires m.Valid() && 0 <= e < |m.elements|
    modifies m
    ensures m.Valid() && m.elements == old(m.elements)[e := old(m.elements[e]).(active := true, en := en, sons := NoSons)]
    ensures |en| == |m.elements[e].vn|
    ensures forall i :: 0 <= i < |en| ==> EdgeKey(m.elements[e].vn, i) in m.edgeTable && en[i] == m.edgeTable[EdgeKey(m.elements[e].vn, i)]
    ensures m.nactive == old(m.nactive) + 1 && m.Stamps() == old(m.Stamps())
    ensures ActiveCount(m.elements) == ActiveCount(old(m.elements)) + (if old(Live(m.elements[e])) || !old(m.elements[e].used) then 0 else 1)
  {
    var vn := m.elements[e].vn;
    assert ElementOk(m.nodes, m.elements, e);
    en := m.AddEdgeNodes(vn);
    m.Reactivate(e, en);
    m.RefAllNodes(e);
    m.nactive := m.nactive + 1;
  }

  /** The edge nodes `en` of `e` take the flags `bnd`, `mrk`, edge by edge; with its corners apart each write lands. */
  method RestoreFlags(m: Mesh, e: int, en: seq<int>, bnd: seq<bool>, mrk: seq<int>)
    requires m.Valid() && 0 <= e < |m.elements| && |en| == |m.elements[e].vn| && |bnd| == |en| && |mrk| == |en|
    requires forall i :: 0 <= i < |en| ==> EdgeKey(m.elements[e].vn, i) in m.edgeTable && en[i] == m.edgeTable[EdgeKey(m.elements[e].vn, i)]
    modifies m
    ensures m.Valid() && m.elements == old(m.elements) && m.Counters() == old(m.Counters())
    ensures CornersApart(m.elements[e].vn) ==>
      forall i :: 0 <= i < |en| ==> 0 <= en[i] < |m.nodes| && m.nodes[en[i]].bnd == bnd[i] && m.nodes[en[i]].marker == mrk[i]
  {
    var vn := m.elements[e].vn;
    forall i | 0 <= i < |en| ensures 0 <= en[i] < |m.nodes| {
      assert EdgeKey(vn, i) in m.edgeTable;
    }
    ghost var nodes1 := m.nodes;
    var ws := EdgeWrites(en, bnd, mrk);
    assert InRange(m.nodes, ws) by {
      forall w | w in ws ensures 0 <= w.z < |m.nodes| {
        var i :| 0 <= i < |ws| && ws[i] == w;
      }
    }
    m.WriteFlags(ws);
    if CornersApart(vn) {
      EdgeNodesApart(nodes1, m.edgeTable, vn, en);
      ApartOfTargets(ws, en);
      AllLand(nodes1, ws);
    }
  }

  /** Every non-null son of `id` is active. */
  ghost predicate SonsActive(els: seq<Element>, id: int)
    requires 0 <= id < |els|
  {
    forall s :: s in els[id].sons && s != Null ==> 0 <= s < |els| && els[s].active
  }

  /** Entries added to the refinement log from `log0` on are all unrefinements. */
  ghost predicate LogsUnrefinements(log0: seq<(int, int)>, log: seq<(int, int)>)
  {
    log0 <= log && forall j :: |log0| <= j < |log| ==> log[j].1 == -1
  }

  /**
   * `unrefine_element_id`: an id outside the arena or an unused element is
   * an error raised before anything changes; an active element is left
   * alone; otherwise every refined son is unrefined first, in slot order,
   * then the element itself by `unrefine_element_internal`, and the mesh
   * takes the next stamp.  Each unrefinement made consumes one stamp.
   */
  method UnrefineElementId(m: Mesh, id: int, stamp: int) returns (r: Outcome, next: int)
    requires m.Valid() && AllUndoable(m.elements)
    modifies m
    decreases |m.elements| - id, 3
    ensures m.Valid() && AllUndoable(m.elements) && Undone(old(m.elements), m.elements, id)
    ensures !(0 <= id < old(|m.elements|)) ==> r == Fail(InvalidId)
    ensures 0 <= id < old(|m.elements|) && !old(m.elements[id].used) ==> r == Fail(UnusedElement)
    ensures 0 <= id < old(|m.elements|) && old(m.elements[id].used) ==> r == Pass
    ensures !(0 <= id < old(|m.elements|)) || !old(m.elements[id].used) || old(m.elements[id].active) ==>
      m.elements == old(m.elements) && m.nodes == old(m.nodes) && m.Counters() == old(m.Counters()) && next == stamp
    ensures r.Pass? ==> 0 <= id < |m.elements| && Live(m.elements[id])
    ensures r.Pass? && 0 <= id < old(|m.elements|) && !old(m.elements[id].active) ==>
      && m.elements[id].sons == NoSons && m.seqStamp == next - 1 && stamp < next
      && |m.refinements| > 0 && m.refinements[|m.refinements| - 1] == (id, -1)
      && (forall s :: s in old(m.elements[id].sons) && s != Null ==> 0 <= s < |m.elements| && !m.elements[s].used)
    ensures LogsUnrefinements(old(m.refinements), m.refinements) && stamp <= next
    ensures m.nbase == old(m.nbase) && m.ninitial == old(m.ninitial) && m.ntopvert == old(m.ntopvert)
    ensures r.Pass? && old(m.Counted()) ==> m.Counted()
    ensures 0 <= id < old(|m.elements|) && old(m.elements[id].used && !m.elements[id].active && SonsActive(m.elements, id)) ==>
      && r == Pass && m.refinements == old(m.refinements) + [(id, -1)] && next == stamp + 1
      && forall x :: 0 <= x < |m.elements| && x != id ==>
           m.elements[x] == if x in old(m.elements[id].sons) then old(m.elements[x]).(used := false) else old(m.elements[x])
  {
    if id < 0 || id >= |m.elements| {
      return Fail(InvalidId), stamp;
    }
    if !m.elements[id].used {
      return Fail(UnusedElement), stamp;
    }
    if m.elements[id].active {
      return Pass, stamp;
    }
    r, next := UnrefineRefined(m, id, stamp);
  }

  /** `unrefine_element_id` on a refined element in use. */
  method UnrefineRefined(m: Mesh, id: int, stamp: int) returns (r: Outcome, next: int)
    requires m.Valid() && AllUndoable(m.elements) && 0 <= id < |m.elements|
    requires m.elements[id].used && !m.elements[id].active
    modifies m
    decreases |m.elements| - id, 2
    ensures m.Valid() && AllUndoable(m.elements) && Undone(old(m.elements), m.elements, id)
    ensures r == Pass
    ensures r.Pass? ==>
      && Live(m.elements[id]) && m.elements[id].sons == NoSons && m.seqStamp == next - 1 && stamp < next
      && |m.refinements| > 0 && m.refinements[|m.refinements| - 1] == (id, -1)
      && (forall s :: s in old(m.elements[id].sons) && s != Null ==> 0 <= s < |m.elements| && !m.elements[s].used)
    ensures LogsUnrefinements(old(m.refinements), m.refinements) && stamp <= next
    ensures m.nbase == old(m.nbase) && m.ninitial == old(m.ninitial) && m.ntopvert == old(m.ntopvert)
    ensures r.Pass? && old(m.Counted()) ==> m.Counted()
    ensures old(SonsActive(m.elements, id)) ==>
      && r == Pass && m.refinements == old(m.refinements) + [(id, -1)] && next == stamp + 1
      && forall x :: 0 <= x < |m.elements| && x != id ==>
           m.elements[x] == if x in old(m.elements[id].sons) then old(m.elements[x]).(used := false) else old(m.elements[x])
  {
    ghost var els0 := m.elements;
    r, next := UnrefineSons(m, id, stamp);
    ghost var els1 := m.elements;
    next := UnrefineSelf(m, id, next);
    UndoneTrans(els0, els1, m.elements, id);
  }

  /** The second half of `unrefine_element_id`: `unrefine_element_internal` on `id`, whose sons are live, and the stamp. */
  method UnrefineSelf(m: Mesh, id: int, stamp: int) returns (next: int)
    requires m.Valid() && AllUndoable(m.elements) && 0 <= id < |m.elements| && !m.elements[id].active
    requires EdgeSonsReady(m.elements, id) && SonsLive(m.elements, id)
    modifies m
    ensures m.Valid() && AllUndoable(m.elements) && Undone(old(m.elements), m.elements, id)
    ensures Live(m.elements[id]) && m.elements[id].sons == NoSons && m.seqStamp == stamp && next == stamp + 1
    ensures m.refinements == old(m.refinements) + [(id, -1)]
    ensures forall s :: s in old(m.elements[id].sons) && s != Null ==> 0 <= s < |m.elements| && !m.elements[s].used
    ensures forall x :: 0 <= x < |m.elements| && x != id ==>
      m.elements[x] == if x in old(m.elements[id].sons) then old(m.elements[x]).(used := false) else old(m.elements[x])
    ensures m.nbase == old(m.nbase) && m.ninitial == old(m.ninitial) && m.ntopvert == old(m.ntopvert)
    ensures old(m.Counted()) ==> m.Counted()
  {
    ghost var els1 := m.elements;
    ghost var nodes1, vt1, et1 := m.nodes, m.vertexTable, m.edgeTable;
    assert ElementOk(nodes1, els1, id);
    UnrefineElementInternal(m, id);
    UndoableKept(nodes1, vt1, et1, els1, m.elements, id);
    m.seqStamp := stamp;
    next := stamp + 1;
  }

  /** The non-null entries among the first `i` of `ss` are live elements of `els`. */
  ghost predicate LiveBelow(els: seq<Element>, ss: seq<int>, i: int)
  {
    forall k :: 0 <= k < i && k < |ss| && ss[k] != Null ==> 0 <= ss[k] < |els| && Live(els[ss[k]])
  }

  /**
   * The first half of `unrefine_element_id` on a refined element `id` in
   * use: each non-null son is unrefined in slot order; a son is always in
   * use, so no call fails.  Afterwards every son is live, so `id` is ready for
   * `unrefine_element_internal`.
   */
  method UnrefineSons(m: Mesh, id: int, stamp: int) returns (r: Outcome, next: int)
    requires m.Valid() && AllUndoable(m.elements) && 0 <= id < |m.elements|
    requires m.elements[id].used && !m.elements[id].active
    modifies m
    decreases |m.elements| - id, 1
    ensures m.Valid() && AllUndoable(m.elements) && Undone(old(m.elements), m.elements, id)
    ensures r == Pass
    ensures m.elements[id] == old(m.elements[id])
    ensures r.Pass? ==> EdgeSonsReady(m.elements, id) && SonsLive(m.elements, id)
    ensures LogsUnrefinements(old(m.refinements), m.refinements) && stamp <= next
    ensures m.nbase == old(m.nbase) && m.ninitial == old(m.ninitial) && m.ntopvert == old(m.ntopvert)
    ensures r.Pass? && old(m.Counted()) ==> m.Counted()
    ensures old(SonsActive(m.elements, id)) ==> r == Pass && m.elements == old(m.elements) && m.refinements == old(m.refinements) && next == stamp
  {
    ghost var els0 := m.elements;
    r, next := Pass, stamp;
    for i := 0 to 4
      invariant m.Valid() && AllUndoable(m.elements) && Undone(els0, m.elements, id) && r == Pass
      invariant m.elements[id] == els0[id]
      invariant LiveBelow(m.elements, els0[id].sons, i)
      invariant LogsUnrefinements(old(m.refinements), m.refinements) && stamp <= next
      invariant m.nbase == old(m.nbase) && m.ninitial == old(m.ninitial) && m.ntopvert == old(m.ntopvert)
      invariant old(m.Counted()) ==> m.Counted()
      invariant SonsActive(els0, id) ==> r == Pass && m.elements == els0 && m.refinements == old(m.refinements) && next == stamp
    {
      ghost var els1 := m.elements;
      r, next := UnrefineSlot(m, id, i, next);
      UndoneTrans(els0, els1, m.elements, id);
    }
    ReadyOfLiveSons(m.elements, id);
  }

  /**
   * Slot `i` of the refined element `id`: a non-null son is unrefined by
   * `unrefine_element_id`; `id` and its other sons are untouched.
   */
  method UnrefineSlot(m: Mesh, id: int, i: int, stamp: int) returns (r: Outcome, next: int)
    requires m.Valid() && AllUndoable(m.elements) && 0 <= id < |m.elements| && 0 <= i < 4
    requires m.elements[id].used && !m.elements[id].active
    requires LiveBelow(m.elements, m.elements[id].sons, i)
    modifies m
    decreases |m.elements| - id, 0
    ensures m.Valid() && AllUndoable(m.elements) && Undone(old(m.elements), m.elements, id)
    ensures r == Pass
    ensures m.elements[id] == old(m.elements[id])
    ensures r.Pass? ==> LiveBelow(m.elements, m.elements[id].sons, i + 1)
    ensures LogsUnrefinements(old(m.refinements), m.refinements) && stamp <= next
    ensures m.nbase == old(m.nbase) && m.ninitial == old(m.ninitial) && m.ntopvert == old(m.ntopvert)
    ensures r.Pass? && old(m.Counted()) ==> m.Counted()
    ensures old(SonsActive(m.elements, id)) ==> r == Pass && m.elements == old(m.elements) && m.refinements == old(m.refinements) && next == stamp
  {
    ghost var els1, nodes1 := m.elements, m.nodes;
    assert ElementOk(nodes1, els1, id) && Undoable(els1, id);
    var s := m.elements[id].sons[i];
    r, next := Pass, stamp;
    if s != Null {
      assert s in els1[id].sons;
      r, next := UnrefineElementId(m, s, stamp);
      UndoneWiden(els1, m.elements, s, id);
    }
    if r.Pass? {
      LiveSonsKept(nodes1, els1, m.elements, id, i);
    }
  }

  /** The live sons among the first `i` slots of `id` stay live while slot `i` is unrefined. */
  lemma LiveSonsKept(nodes: seq<Node>, els1: seq<Element>, els: seq<Element>, id: int, i: int)
    requires 0 <= id < |els1| == |els| && 0 <= i < 4 && els[id] == els1[id]
    requires ElementOk(nodes, els1, id) && Undoable(els1, id) && els1[id].used && !els1[id].active
    requires els1[id].sons[i] != Null ==> Undone(els1, els, els1[id].sons[i])
    requires els1[id].sons[i] == Null ==> els == els1
    requires LiveBelow(els1, els1[id].sons, i)
    requires els1[id].sons[i] != Null ==> Live(els[els1[id].sons[i]])
    ensures LiveBelow(els, els1[id].sons, i + 1)
  {
    var ss := els1[id].sons;
    forall k | 0 <= k < i + 1 && ss[k] != Null ensures 0 <= ss[k] < |els| && Live(els[ss[k]]) {
      assert ss[k] in els1[id].sons;
      if k < i && ss[i] != Null {
        assert ss[k] != ss[i] && els1[ss[k]].parent == id;
      }
    }
  }

  /** A refined element whose sons are all live is ready for `unrefine_element_internal`. */
  lemma ReadyOfLiveSons(els: seq<Element>, id: int)
    requires 0 <= id < |els| && els[id].used && !els[id].active && Undoable(els, id)
    requires LiveBelow(els, els[id].sons, 4)
    ensures EdgeSonsReady(els, id) && SonsLive(els, id)
  {
    var el := els[id];
    forall i | 0 <= i < |el.vn| ensures HasEdgeSon(els, id, i) && els[el.sons[EdgeSonSlot(el, i)]].active {
      var k := EdgeSonSlot(el, i);
      assert HasEdgeSon(els, id, i);
      assert el.sons[k] != Null;
    }
  }

  /**
   * Element `x`, when it is in use and refined, can be unrefined: its
   * non-null son slots hold distinct elements in use, and every edge has a
   * son to read it from.
   */
  ghost predicate Undoable(els: seq<Element>, x: int)
    requires 0 <= x < |els|
  {
    var el := els[x];
    el.used && !el.active ==>
      |el.sons| == 4
      && (forall i :: 0 <= i < 4 && el.sons[i] != Null ==> 0 <= el.sons[i] < |els| && els[el.sons[i]].used)
      && (forall i, j :: 0 <= i < j < 4 && el.sons[i] != Null ==> el.sons[i] != el.sons[j])
      && (forall i :: 0 <= i < |el.vn| ==> HasEdgeSon(els, x, i))
  }

  /** Every refined element in use can be unrefined. */
  ghost predicate AllUndoable(els: seq<Element>)
  {
    forall x :: 0 <= x < |els| ==> Undoable(els, x)
  }

  /** Element `p` is not a refined element in use. */
  ghost predicate Settled(els: seq<Element>, p: int)
  {
    !(0 <= p < |els| && els[p].used && !els[p].active)
  }

  /** Unrefinement leaves corners, edge count and parent of an element alone. */
  predicate SameFrame(a: Element, b: Element)
  {
    a.vn == b.vn && |a.en| == |b.en| && a.parent == b.parent
  }

  /**
   * `els` is `els0` after unrefinements at or below element `id`: only `id`
   * and elements whose parent is at least `id` changed; no element became
   * refined or came back into use; a refined element in use is as it was;
   * and an element dropped from use has a parent that is no longer a
   * refined element in use.
   */
  ghost predicate Undone(els0: seq<Element>, els: seq<Element>, id: int)
  {
    |els| == |els0|
    && (forall x :: 0 <= x < |els| ==> SameFrame(els0[x], els[x]))
    && (forall x :: 0 <= x < |els| && els[x] != els0[x] ==> x == id || els0[x].parent >= id)
    && (forall x :: 0 <= x < |els| && els0[x].active ==> els[x].active)
    && (forall x :: 0 <= x < |els| && els[x].used ==> els0[x].used)
    && (forall x :: 0 <= x < |els| && els[x].used && !els[x].active ==> els[x] == els0[x])
    && (forall x :: 0 <= x < |els| && els0[x].used && !els[x].used ==> Settled(els, els0[x].parent))
  }

  /** `unrefine_element_internal` on `e` is an unrefinement at `e`. */
  lemma UndoneByInternal(els0: seq<Element>, els: seq<Element>, e: int, en: seq<int>)
    requires 0 <= e < |els0| && |els| == |els0| && |en| == |els0[e].en| && |els0[e].sons| == 4
    requires forall s :: s in els0[e].sons ==> s == Null || (e < s < |els0| && els0[s].parent == e)
    requires els[e] == els0[e].(active := true, en := en, sons := NoSons)
    requires forall s :: 0 <= s < |els| && s != e ==>
      els[s] == if s in els0[e].sons then els0[s].(used := false) else els0[s]
    ensures Undone(els0, els, e)
  {
    forall x | 0 <= x < |els| && els[x] != els0[x] ensures x == e || els0[x].parent >= e {
      if x != e {
        assert x in els0[e].sons;
      }
    }
    forall x | 0 <= x < |els| && els0[x].used && !els[x].used ensures Settled(els, els0[x].parent) {
      assert x != e && x in els0[e].sons;
    }
  }

  /** Two unrefinements at `id` in a row are one. */
  lemma UndoneTrans(a: seq<Element>, b: seq<Element>, c: seq<Element>, id: int)
    requires Undone(a, b, id) && Undone(b, c, id)
    ensures Undone(a, c, id)
  {
    forall x | 0 <= x < |c| && a[x].used && !c[x].used ensures Settled(c, a[x].parent) {
      var p := a[x].parent;
      assert b[x].parent == p;
      if b[x].used {
        assert Settled(c, p);
      } else {
        assert Settled(b, p);
      }
    }
  }

  /** An unrefinement at a son `s` of `id` is one at `id`. */
  lemma UndoneWiden(a: seq<Element>, b: seq<Element>, s: int, id: int)
    requires Undone(a, b, s) && 0 <= s < |a| && a[s].parent == id && id < s
    ensures Undone(a, b, id)
  {
  }

  /** The elements an unrefinement leaves refined and in use can still be unrefined. */
  lemma UndoableKept(nodes: seq<Node>, vt: map<Key, int>, et: map<Key, int>, els0: seq<Element>, els: seq<Element>, id: int)
    requires MeshOk(nodes, vt, et, els0) && AllUndoable(els0) && Undone(els0, els, id)
    ensures AllUndoable(els)
  {
    forall x | 0 <= x < |els| ensures Undoable(els, x) {
      if els[x].used && !els[x].active {
        assert els[x] == els0[x] && Undoable(els0, x) && ElementOk(nodes, els0, x);
        var el := els[x];
        forall i | 0 <= i < 4 && el.sons[i] != Null ensures 0 <= el.sons[i] < |els| && els[el.sons[i]].used {
          var y := el.sons[i];
          assert y in els0[x].sons && els0[y].parent == x && els0[y].used;
          assert !Settled(els, x);
        }
        forall i | 0 <= i < |el.vn| ensures HasEdgeSon(els, x, i) {
          assert HasEdgeSon(els0, x, i);
          var y := el.sons[EdgeSonSlot(el, i)];
          assert SameFrame(els0[y], els[y]);
        }
      }
    }
  }

  /** The registered edge nodes of the edges of an element whose corners are apart are pairwise different. */
  lemma EdgeNodesApart(nodes: seq<Node>, et: map<Key, int>, vn: seq<int>, en: seq<int>)
    requires TableInv(et, nodes, EdgeNode) && CornersApart(vn) && |en| == |vn|
    requires forall i :: 0 <= i < |en| ==> EdgeKey(vn, i) in et && en[i] == et[EdgeKey(vn, i)]
    ensures Distinct(en)
  {
    forall i, j | 0 <= i < j < |en| ensures en[i] != en[j] {
      var ki, kj := EdgeKey(vn, i), EdgeKey(vn, j);
      assert ki in et && kj in et;
      assert nodes[et[ki]].p1 == ki.0 && nodes[et[ki]].p2 == ki.1;
      assert nodes[et[kj]].p1 == kj.0 && nodes[et[kj]].p2 == kj.1;
      assert ki != kj;
    }
  }
}
