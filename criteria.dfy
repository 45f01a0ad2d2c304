/**
 * The refinement criteria of hermes2d/src/mesh/mesh.cpp and the sweeps that
 * apply them: `rtv_criterion` (elements with a given vertex),
 * `rtb_criterion` (elements touching a boundary, anisotropically for quads
 * along the boundary), and the element-marker test of `refine_in_areas`.
 *
 * The criteria read static variables in the source (`rtv_id`,
 * `rtb_marker`, `rtb_aniso`, `rtb_vert`); here they are the fields of a
 * `Selector` value.  `rtb_vert`, a byte per node id, is the set of vertex
 * ids whose byte is set.  `rtb_marker` is generalised to a set of edge
 * markers: the single-marker calls use a one-element set.
 */
module Criteria {
  import opened MeshData
  import opened MeshModel
  import opened RefineApi
  import Markers

  /** `HERMES_ANY`, the user marker that stands for every marker. */
  const HermesAny: string := "-1234"

  /** The internal forms of a list of user markers, as `get_internal_marker` gives them. */
  function Internals(conv: Markers.MarkersConversion, markers: seq<string>): (ms: set<int>)
    reads conv
    requires conv.Valid()
    ensures forall k :: k in ms <==> exists i :: 0 <= i < |markers| && conv.GetInternalMarker(markers[i]).marker == k
  {
    set i | 0 <= i < |markers| :: conv.GetInternalMarker(markers[i]).marker
  }

  /** What a criterion decides for an element: leave it, or refine it with a kind. */
  datatype Choice = Skip | Refine(kind: int)

  /** A refinement criterion together with the state it reads. */
  datatype Selector =
    | TowardsVertex(vertex: int)                                  // rtv_criterion with rtv_id
    | TowardsBoundary(markers: set<int>, aniso: bool, vert: set<int>)  // rtb_criterion with rtb_marker, rtb_aniso, rtb_vert
    | InAreas(any: bool, internal: set<int>, kind: int)           // the element-marker test of refine_in_areas

  /** `rtv_criterion`: kind 0 for an element with vertex `vertex` among its corners, -1 otherwise. */
  function RtvCriterion(el: Element, vertex: int): (r: int)
    ensures r == 0 || r == -1
    ensures r == 0 <==> exists i :: 0 <= i < |el.vn| && el.vn[i] == vertex
  {
    if vertex in el.vn then 0 else -1
  }

  /** Edge `i` of `el` carries one of `markers`. */
  predicate MarkedEdge(nodes: seq<Node>, el: Element, markers: set<int>, i: int)
  {
    0 <= i < |el.en| && 0 <= el.en[i] < |nodes| && nodes[el.en[i]].marker in markers
  }

  /** Corner `i` of `el` is marked in `vert`. */
  predicate MarkedCorner(el: Element, vert: set<int>, i: int)
  {
    0 <= i < |el.vn| && el.vn[i] in vert
  }

  /** The test in the first loop of `rtb_criterion`: edge `i` is marked or its first corner is. */
  predicate Touches(nodes: seq<Node>, el: Element, markers: set<int>, vert: set<int>, i: int)
  {
    MarkedEdge(nodes, el, markers, i) || MarkedCorner(el, vert, i)
  }

  /** The first anisotropic case of `rtb_criterion`: the boundary runs along edge 0 or edge 2 only. */
  predicate AlongEdges02(nodes: seq<Node>, el: Element, markers: set<int>, vert: set<int>)
  {
    || (MarkedEdge(nodes, el, markers, 0) && !MarkedCorner(el, vert, 2) && !MarkedCorner(el, vert, 3))
    || (MarkedEdge(nodes, el, markers, 2) && !MarkedCorner(el, vert, 0) && !MarkedCorner(el, vert, 1))
    || (MarkedEdge(nodes, el, markers, 0) && MarkedEdge(nodes, el, markers, 2)
        && !MarkedEdge(nodes, el, markers, 1) && !MarkedEdge(nodes, el, markers, 3))
  }

  /** The second anisotropic case of `rtb_criterion`: the boundary runs along edge 1 or edge 3 only. */
  predicate AlongEdges13(nodes: seq<Node>, el: Element, markers: set<int>, vert: set<int>)
  {
    || (MarkedEdge(nodes, el, markers, 1) && !MarkedCorner(el, vert, 3) && !MarkedCorner(el, vert, 0))
    || (MarkedEdge(nodes, el, markers, 3) && !MarkedCorner(el, vert, 1) && !MarkedCorner(el, vert, 2))
    || (MarkedEdge(nodes, el, markers, 1) && MarkedEdge(nodes, el, markers, 3)
        && !MarkedEdge(nodes, el, markers, 0) && !MarkedEdge(nodes, el, markers, 2))
  }

  /**
   * `rtb_criterion`: -1 when no edge is marked and no corner is in `vert`;
   * otherwise 0 (split into four) for a triangle or without `aniso`, and
   * for an anisotropic quad the cut parallel to the boundary: kind 1 when
   * the boundary lies along edge 0 or 2, kind 2 when along edge 1 or 3,
   * 0 when neither.
   */
  function RtbCriterion(nodes: seq<Node>, el: Element, markers: set<int>, aniso: bool, vert: set<int>): (r: int)
    ensures -1 <= r <= 2
    ensures r == -1 <==> forall i :: 0 <= i < |el.vn| ==> !Touches(nodes, el, markers, vert, i)
    ensures r >= 1 ==> !el.IsTriangle() && aniso
    ensures r == 1 ==> MarkedEdge(nodes, el, markers, 0) || MarkedEdge(nodes, el, markers, 2)
    ensures r == 2 ==> MarkedEdge(nodes, el, markers, 1) || MarkedEdge(nodes, el, markers, 3)
  {
    if forall i :: 0 <= i < |el.vn| ==> !Touches(nodes, el, markers, vert, i) then -1
    else if el.IsTriangle() || !aniso then 0
    else if AlongEdges02(nodes, el, markers, vert) then 1
    else if AlongEdges13(nodes, el, markers, vert) then 2
    else 0
  }

  /** What `sel` decides for element `el`: a criterion's result r refines with kind r when r >= 0. */
  function Decide(sel: Selector, nodes: seq<Node>, el: Element): (c: Choice)
    ensures sel.InAreas? ==> (c.Refine? <==> sel.any || el.marker in sel.internal) && (c.Refine? ==> c.kind == sel.kind)
    ensures sel.TowardsVertex? ==> (c.Refine? <==> sel.vertex in el.vn) && (c.Refine? ==> c.kind == 0)
  {
    match sel
    case TowardsVertex(v) =>
      var r := RtvCriterion(el, v);
      if r >= 0 then Refine(r) else Skip
    case TowardsBoundary(ms, aniso, vert) =>
      var r := RtbCriterion(nodes, el, ms, aniso, vert);
      if r >= 0 then Refine(r) else Skip
    case InAreas(any, internal, kind) =>
      if any || el.marker in internal then Refine(kind) else Skip
  }

  /** The selector reads no node: its decisions do not change while a sweep rewrites node flags. */
  predicate NodeFree(sel: Selector)
  {
    !sel.TowardsBoundary?
  }

  /** A node-free selector decides the same on any node arena. */
  lemma NodeFreeDecides(sel: Selector, nodes: seq<Node>, nodes': seq<Node>, el: Element)
    requires NodeFree(sel)
    ensures Decide(sel, nodes, el) == Decide(sel, nodes', el)
  {
  }

  /** The kinds a selector can ask for. */
  predicate KindOf(sel: Selector, k: int)
  {
    match sel
    case TowardsVertex(_) => k == 0
    case TowardsBoundary(_, aniso, _) => 0 <= k <= (if aniso then 2 else 0)
    case InAreas(_, _, kind) => k == sel.kind
  }

  /**
   * The two criteria only ask for kinds `refine_element` accepts for the
   * element's shape: anisotropic kinds 1 and 2 only for quads.
   */
  lemma CriterionKindFits(sel: Selector, nodes: seq<Node>, el: Element)
    requires !sel.InAreas?
    ensures Decide(sel, nodes, el).Refine? ==>
      KindFits(el, Decide(sel, nodes, el).kind) && KindOf(sel, Decide(sel, nodes, el).kind)
  {
  }

  /** `sel` only asks for kinds that fit the element it picks. */
  predicate Fits(sel: Selector, nodes: seq<Node>, el: Element)
  {
    Decide(sel, nodes, el).Refine? ==> KindFits(el, Decide(sel, nodes, el).kind)
  }

  /** What a sweep visiting `el` does: only a live element is offered to the criterion. */
  function Visit(sel: Selector, nodes: seq<Node>, el: Element): Choice
  {
    if Live(el) then Decide(sel, nodes, el) else Skip
  }

  /** The log entries one sweep of a node-free `sel` over `els` makes, in id order. */
  function SelLog(sel: Selector, nodes: seq<Node>, els: seq<Element>): seq<(int, int)>
  {
    if els == [] then []
    else SelLog(sel, nodes, els[..|els| - 1])
         + (match Visit(sel, nodes, els[|els| - 1]) case Refine(k) => [(|els| - 1, k)] case Skip => [])
  }

  /** Every entry of a sweep's log is a picked element with the kind its criterion chose, in increasing id order. */
  lemma {:induction false} SelLogEntries(sel: Selector, nodes: seq<Node>, els: seq<Element>)
    ensures forall j :: 0 <= j < |SelLog(sel, nodes, els)| ==>
      var (x, k) := SelLog(sel, nodes, els)[j]; 0 <= x < |els| && Visit(sel, nodes, els[x]) == Refine(k)
    ensures forall j, j' :: 0 <= j < j' < |SelLog(sel, nodes, els)| ==> SelLog(sel, nodes, els)[j].0 < SelLog(sel, nodes, els)[j'].0
    decreases |els|
  {
    if els != [] {
      var pre := els[..|els| - 1];
      SelLogEntries(sel, nodes, pre);
      forall j | 0 <= j < |SelLog(sel, nodes, pre)| ensures SelLog(sel, nodes, pre)[j].0 < |pre| {
        var (x, k) := SelLog(sel, nodes, pre)[j];
      }
    }
  }

  /** Every picked element has its entry in the sweep's log. */
  lemma {:induction false} SelLogComplete(sel: Selector, nodes: seq<Node>, els: seq<Element>)
    ensures forall x :: 0 <= x < |els| && Visit(sel, nodes, els[x]).Refine? ==>
      (x, Visit(sel, nodes, els[x]).kind) in SelLog(sel, nodes, els)
    decreases |els|
  {
    if els != [] {
      var pre := els[..|els| - 1];
      SelLogComplete(sel, nodes, pre);
      forall x | 0 <= x < |els| && Visit(sel, nodes, els[x]).Refine?
        ensures (x, Visit(sel, nodes, els[x]).kind) in SelLog(sel, nodes, els)
      {
        if x < |pre| {
          assert pre[x] == els[x];
        }
      }
    }
  }

  /** `SelLog` grows by the next element. */
  lemma SelLogStep(sel: Selector, nodes: seq<Node>, els: seq<Element>, i: int)
    requires 0 <= i < |els|
    ensures SelLog(sel, nodes, els[..i + 1]) ==
      SelLog(sel, nodes, els[..i]) + (match Visit(sel, nodes, els[i]) case Refine(k) => [(i, k)] case Skip => [])
  {
    assert els[..i + 1][..i] == els[..i];
  }

  /** The entries added to `log0` are for elements live in `els0`, with kinds `sel` asks for. */
  ghost predicate LogFrom(sel: Selector, els0: seq<Element>, log0: seq<(int, int)>, log: seq<(int, int)>)
  {
    log0 <= log
    && forall j :: |log0| <= j < |log| ==> 0 <= log[j].0 < |els0| && Live(els0[log[j].0]) && KindOf(sel, log[j].1)
  }

  /**
   * One visit of a sweep (the body of `for_all_active_elements` in
   * `refine_by_criterion` and `refine_in_areas`): a live element the
   * criterion picks is refined, through `refine_element_id` for a criterion
   * and `refine_element` for an area; any other element is left alone.
   */
  method SelectStep(m: Mesh, sel: Selector, id: int, stamp: int) returns (r: Outcome, stamp': int)
    requires m.Valid() && 0 <= id < |m.elements|
    requires sel.InAreas? && Live(m.elements[id]) && (sel.any || m.elements[id].marker in sel.internal) ==> KindFits(m.elements[id], sel.kind)
    modifies m
    ensures m.Valid() && |m.elements| >= old(|m.elements|)
    ensures m.nbase == old(m.nbase) && m.ninitial == old(m.ninitial) && m.ntopvert == old(m.ntopvert)
    ensures var c := old(Visit(sel, m.nodes, m.elements[id]));
      && m.refinements == old(m.refinements) + (if c.Refine? then [(id, c.kind)] else [])
      && (c.Refine? ==> KindOf(sel, c.kind))
      && (r.Pass? ==> stamp' == stamp + (if c.Refine? then 1 else 0))
      && (r.Fail? ==> stamp' == stamp && c.Refine?)
      && (r.Pass? ==> if c.Refine? then !m.elements[id].active else m.elements[id] == old(m.elements[id]))
    ensures r.Pass? ==> forall i :: 0 <= i < old(|m.elements|) && i != id ==> m.elements[i] == old(m.elements[i])
    ensures !old(Visit(sel, m.nodes, m.elements[id])).Refine? ==>
      r == Pass && stamp' == stamp && m.elements == old(m.elements) && m.nodes == old(m.nodes)
    ensures r.Pass? && sel.InAreas? && sel.kind != 3 && old(m.elements[id].IsTriangle()) ==>
      TrianglesFrom(m.elements, old(|m.elements|))
    ensures r.Pass? ==> old(m.Counted()) ==> m.Counted()
  {
    r, stamp' := Pass, stamp;
    if Live(m.elements[id]) {
      var c := Decide(sel, m.nodes, m.elements[id]);
      if !sel.InAreas? {
        CriterionKindFits(sel, m.nodes, m.elements[id]);
      }
      if c.Refine? {
        if sel.InAreas? {
          r := RefineElement(m, id, c.kind, stamp);
        } else {
          r := RefineElementId(m, id, c.kind, stamp);
        }
        if r.Pass? {
          stamp' := stamp + 1;
        }
      }
    }
  }

  /** Every live element of `els` that an area sweep picks accepts its kind. */
  ghost predicate AreasFit(sel: Selector, els: seq<Element>)
  {
    sel.InAreas? ==> forall i :: 0 <= i < |els| && Live(els[i]) && (sel.any || els[i].marker in sel.internal) ==> KindFits(els[i], sel.kind)
  }

  /**
   * An area kind that only triangles accept (not 0 to 2) and that splits a
   * triangle into triangles (not 3): an area sweep with it whose picks fit
   * leaves picks that fit.
   */
  predicate TrianglesOnly(sel: Selector)
  {
    sel.InAreas? && sel.kind != 3 && !(0 <= sel.kind <= 2)
  }

  /** After a sweep with a triangles-only kind whose picks fit, in which every new element is a triangle, the picks still fit. */
  lemma FitAfterSweep(sel: Selector, els0: seq<Element>, nodes0: seq<Node>, log0: seq<(int, int)>, els: seq<Element>, log: seq<(int, int)>)
    requires Swept(sel, els0, nodes0, log0, els, log, |els0|) && AreasFit(sel, els0)
    requires TrianglesOnly(sel) && TrianglesFrom(els, |els0|)
    ensures AreasFit(sel, els)
  {
    forall i | 0 <= i < |els| && Live(els[i]) && (sel.any || els[i].marker in sel.internal)
      ensures KindFits(els[i], sel.kind)
    {
      if i < |els0| {
        assert els[i] == els0[i];
      }
    }
  }

  /**
   * The state of a sweep with `sel` that started from `els0`, `nodes0` and
   * `log0` after visiting the ids below `id`: the unvisited elements are as
   * they were, a visited element either is as it was or was live and is now
   * refined, and the new log entries are for live elements with kinds `sel`
   * asks for.  For a node-free criterion the log and the visited elements
   * are exactly what the criterion picks.
   */
  ghost predicate Swept(sel: Selector, els0: seq<Element>, nodes0: seq<Node>, log0: seq<(int, int)>,
                        els: seq<Element>, log: seq<(int, int)>, id: int)
  {
    |els| >= |els0| && 0 <= id <= |els0|
    && LogFrom(sel, els0, log0, log)
    && (forall i :: id <= i < |els0| ==> els[i] == els0[i])
    && (forall i :: 0 <= i < id ==> els[i] == els0[i] || (Live(els0[i]) && !els[i].active))
    && (NodeFree(sel) ==> log == log0 + SelLog(sel, nodes0, els0[..id]))
    && (NodeFree(sel) ==> forall i :: 0 <= i < id ==>
          if Visit(sel, nodes0, els0[i]).Refine? then !els[i].active else els[i] == els0[i])
  }

  /** A visit of element `id` that went through extends the sweep by one. */
  lemma SweptStep(sel: Selector, els0: seq<Element>, nodes0: seq<Node>, log0: seq<(int, int)>,
                  els1: seq<Element>, nodes1: seq<Node>, log1: seq<(int, int)>, els: seq<Element>, log: seq<(int, int)>, id: int)
    requires Swept(sel, els0, nodes0, log0, els1, log1, id) && id < |els0| && |els| >= |els1|
    requires var c := Visit(sel, nodes1, els1[id]);
      && log == log1 + (if c.Refine? then [(id, c.kind)] else [])
      && (c.Refine? ==> KindOf(sel, c.kind))
      && (if c.Refine? then !els[id].active else els[id] == els1[id])
    requires forall i :: 0 <= i < |els1| && i != id ==> els[i] == els1[i]
    ensures Swept(sel, els0, nodes0, log0, els, log, id + 1)
  {
    SelLogStep(sel, nodes0, els0, id);
    if NodeFree(sel) {
      NodeFreeDecides(sel, nodes0, nodes1, els0[id]);
    }
  }

  /** A visit of element `id` that failed keeps the log's promise. */
  lemma SweptFail(sel: Selector, els0: seq<Element>, nodes0: seq<Node>, log0: seq<(int, int)>,
                  els1: seq<Element>, nodes1: seq<Node>, log1: seq<(int, int)>, log: seq<(int, int)>, id: int)
    requires Swept(sel, els0, nodes0, log0, els1, log1, id) && id < |els0|
    requires var c := Visit(sel, nodes1, els1[id]);
      && log == log1 + (if c.Refine? then [(id, c.kind)] else [])
      && (c.Refine? ==> KindOf(sel, c.kind))
    ensures LogFrom(sel, els0, log0, log)
  {
  }

  /** One visit of a sweep, with the sweep's state carried across it. */
  method PassStep(m: Mesh, sel: Selector, ghost els0: seq<Element>, ghost nodes0: seq<Node>, ghost log0: seq<(int, int)>,
                  id: int, stamp: int) returns (r: Outcome, stamp': int)
    requires m.Valid() && AreasFit(sel, els0) && Swept(sel, els0, nodes0, log0, m.elements, m.refinements, id) && id < |els0|
    modifies m
    ensures r.Pass? && TrianglesOnly(sel) && TrianglesFrom(old(m.elements), |els0|) ==> TrianglesFrom(m.elements, |els0|)
    ensures m.Valid() && |m.elements| >= old(|m.elements|)
    ensures m.nbase == old(m.nbase) && m.ninitial == old(m.ninitial) && m.ntopvert == old(m.ntopvert)
    ensures LogFrom(sel, els0, log0, m.refinements)
    ensures r.Pass? ==> Swept(sel, els0, nodes0, log0, m.elements, m.refinements, id + 1)
    ensures r.Pass? ==> stamp' == stamp + |m.refinements| - old(|m.refinements|)
    ensures r.Pass? ==> old(m.Counted()) ==> m.Counted()
    ensures old(m.elements) == els0 && old(m.nodes) == nodes0 && !Visit(sel, nodes0, els0[id]).Refine? ==>
      r == Pass && stamp' == stamp && m.elements == els0 && m.nodes == nodes0 && m.refinements == old(m.refinements)
  {
    ghost var els1, nodes1, log1 := m.elements, m.nodes, m.refinements;
    r, stamp' := SelectStep(m, sel, id, stamp);
    if r.Pass? {
      SweptStep(sel, els0, nodes0, log0, els1, nodes1, log1, m.elements, m.refinements, id);
    } else {
      SweptFail(sel, els0, nodes0, log0, els1, nodes1, log1, m.refinements, id);
    }
  }

  /** A finished sweep, spelled out. */
  lemma SweptAll(sel: Selector, els0: seq<Element>, nodes0: seq<Node>, log0: seq<(int, int)>, els: seq<Element>, log: seq<(int, int)>)
    requires Swept(sel, els0, nodes0, log0, els, log, |els0|)
    ensures forall i :: 0 <= i < |els0| ==> els[i] == els0[i] || (Live(els0[i]) && !els[i].active)
    ensures NodeFree(sel) ==>
      && log == log0 + SelLog(sel, nodes0, els0)
      && forall i :: 0 <= i < |els0| ==> if Visit(sel, nodes0, els0[i]).Refine? then !els[i].active else els[i] == els0[i]
  {
    assert els0[..|els0|] == els0;
  }

  /** The arenas and the log of `m` are still `els`, `nodes` and `log`. */
  ghost predicate Untouched(m: Mesh, els: seq<Element>, nodes: seq<Node>, log: seq<(int, int)>)
    reads m
  {
    m.elements == els && m.nodes == nodes && m.refinements == log
  }

  /** `sel` picks no element of `els`. */
  predicate Quiet(sel: Selector, nodes: seq<Node>, els: seq<Element>)
  {
    forall x :: 0 <= x < |els| ==> !Visit(sel, nodes, els[x]).Refine?
  }

  /**
   * One `for_all_active_elements` sweep with `sel` (one depth step of
   * `refine_by_criterion`, or of `refine_in_areas`): every element live when
   * the sweep starts is offered to the criterion in id order, and sons
   * appended meanwhile are not visited.  A failed split ends the sweep.
   * Only live elements are refined, with kinds `sel` asks for; for a
   * node-free criterion the log and the new states are exactly those the
   * criterion picks in the mesh the sweep starts from; a sweep in which
   * the criterion picks nothing changes nothing.
   */
  method SelectPass(m: Mesh, sel: Selector, stamp0: int) returns (r: Outcome, stamp: int)
    requires m.Valid() && (m.seqStamp < 0 || AreasFit(sel, m.elements))
    modifies m
    ensures m.Valid() && |m.elements| >= old(|m.elements|)
    ensures r.Pass? && TrianglesOnly(sel) && old(m.seqStamp) >= 0 ==> AreasFit(sel, m.elements)
    ensures m.nbase == old(m.nbase) && m.ninitial == old(m.ninitial) && m.ntopvert == old(m.ntopvert)
    ensures LogFrom(sel, old(m.elements), old(m.refinements), m.refinements)
    ensures r.Pass? ==> stamp == stamp0 + |m.refinements| - old(|m.refinements|)
    ensures r.Pass? && old(m.seqStamp) >= 0 ==> Swept(sel, old(m.elements), old(m.nodes), old(m.refinements), m.elements, m.refinements, old(|m.elements|))
    ensures old(m.seqStamp) < 0 ==>
      r == Pass && m.elements == old(m.elements) && m.nodes == old(m.nodes) && m.seqStamp == old(m.seqStamp)
      && m.refinements == old(m.refinements) && stamp == stamp0
    ensures Quiet(sel, old(m.nodes), old(m.elements)) ==>
      r == Pass && m.elements == old(m.elements) && m.nodes == old(m.nodes) && m.refinements == old(m.refinements) && stamp == stamp0
    ensures r.Pass? ==> old(m.Counted()) ==> m.Counted()
  {
    stamp, r := stamp0, Pass;
    ghost var els0, nodes0, log0 := m.elements, m.nodes, m.refinements;
    var max := MaxElementId(m);
    var id := 0;
    while id < max
      invariant m.Valid() && (max == -1 || max == |els0|) && (if max >= 0 then id <= max else id == 0)
      invariant id == 0 ==> Untouched(m, els0, nodes0, log0) && m.seqStamp == old(m.seqStamp) && stamp == stamp0
      invariant (max == -1) == (old(m.seqStamp) < 0) && r == Pass
      invariant max >= 0 ==> AreasFit(sel, els0)
      invariant TrianglesOnly(sel) ==> TrianglesFrom(m.elements, |els0|)
      invariant m.nbase == old(m.nbase) && m.ninitial == old(m.ninitial) && m.ntopvert == old(m.ntopvert)
      invariant Swept(sel, els0, nodes0, log0, m.elements, m.refinements, id)
      invariant stamp == stamp0 + |m.refinements| - |log0|
      invariant old(m.Counted()) ==> m.Counted()
      invariant Quiet(sel, nodes0, els0) ==> Untouched(m, els0, nodes0, log0) && stamp == stamp0
    {
      r, stamp := PassStep(m, sel, els0, nodes0, log0, id, stamp);
      if r.Fail? {
        return;
      }
      id := id + 1;
    }
  }

  /** A sweep logs nothing exactly when it picks no element. */
  lemma SelLogEmpty(sel: Selector, nodes: seq<Node>, els: seq<Element>)
    ensures SelLog(sel, nodes, els) == [] <==> forall x :: 0 <= x < |els| ==> !Visit(sel, nodes, els[x]).Refine?
  {
    SelLogEntries(sel, nodes, els);
    SelLogComplete(sel, nodes, els);
    if SelLog(sel, nodes, els) != [] {
      var (x, k) := SelLog(sel, nodes, els)[0];
      assert 0 <= x < |els| && Visit(sel, nodes, els[x]).Refine?;
    }
  }

  /** The entries added to `log0` have kinds `sel` asks for. */
  ghost predicate KindsFrom(sel: Selector, log0: seq<(int, int)>, log: seq<(int, int)>)
  {
    log0 <= log && forall j :: |log0| <= j < |log| ==> KindOf(sel, log[j].1)
  }

  /**
   * What `depth` area sweeps starting from `nodes` and `els` ask of the
   * kind: every live element picked accepts it (a quad only kinds 0 to 2,
   * where `refine_quad` has `assert(0)` for any other), and kind 3, which
   * turns the picked triangles into quads carrying the same marker, is
   * swept more than once only when nothing is picked.  A kind other than 3
   * splits a triangle into triangles, so picks that fit keep fitting.
   */
  ghost predicate PassesFit(sel: Selector, depth: int, nodes: seq<Node>, els: seq<Element>)
  {
    sel.InAreas? ==> AreasFit(sel, els) && (depth <= 1 || sel.kind != 3 || Quiet(sel, nodes, els))
  }

  /**
   * `depth` sweeps with `sel` (the loop of `refine_by_criterion`, and the
   * depth loop of `refine_in_areas`), stopped by a failed split.  `refined`
   * says whether the last sweep refined anything, and is true when there is
   * no sweep.  A single sweep is exactly the one `SelectPass` describes.
   */
  method RefinePasses(m: Mesh, sel: Selector, depth: int, stamp0: int) returns (r: Outcome, stamp: int, refined: bool)
    requires m.Valid() && (m.seqStamp < 0 || PassesFit(sel, depth, m.nodes, m.elements))
    modifies m
    ensures m.Valid() && |m.elements| >= old(|m.elements|)
    ensures m.nbase == old(m.nbase) && m.ninitial == old(m.ninitial) && m.ntopvert == old(m.ntopvert)
    ensures KindsFrom(sel, old(m.refinements), m.refinements)
    ensures r.Pass? ==> stamp == stamp0 + |m.refinements| - old(|m.refinements|)
    ensures r.Pass? && refined && depth >= 1 ==> |m.refinements| > old(|m.refinements|)
    ensures depth <= 0 ==> r == Pass && refined && m.elements == old(m.elements) && m.refinements == old(m.refinements) && stamp == stamp0
    ensures depth == 1 && r.Pass? ==> (refined <==> |m.refinements| > old(|m.refinements|))
    ensures old(m.seqStamp) < 0 ==> r == Pass && m.elements == old(m.elements) && m.nodes == old(m.nodes) && m.refinements == old(m.refinements) && stamp == stamp0
    ensures depth >= 1 && Quiet(sel, old(m.nodes), old(m.elements)) ==>
      r == Pass && !refined && m.elements == old(m.elements) && m.nodes == old(m.nodes) && m.refinements == old(m.refinements) && stamp == stamp0
    ensures depth == 1 && r.Pass? && old(m.seqStamp) >= 0 ==>
      Swept(sel, old(m.elements), old(m.nodes), old(m.refinements), m.elements, m.refinements, old(|m.elements|))
    ensures r.Pass? ==> old(m.Counted()) ==> m.Counted()
  {
    ghost var els0, log0 := m.elements, m.refinements;
    r, stamp, refined := Pass, stamp0, true;
    var i := 0;
    while i < depth
      invariant m.Valid() && |m.elements| >= |els0| && r == Pass && 0 <= i && (i == 0 || i <= depth)
      invariant i == 0 ==> m.elements == els0 && m.nodes == old(m.nodes) && m.seqStamp == old(m.seqStamp) && m.refinements == log0 && stamp == stamp0 && refined
      invariant i < depth ==> m.seqStamp < 0 || PassesFit(sel, depth - i, m.nodes, m.elements)
      invariant m.nbase == old(m.nbase) && m.ninitial == old(m.ninitial) && m.ntopvert == old(m.ntopvert)
      invariant KindsFrom(sel, log0, m.refinements)
      invariant stamp == stamp0 + |m.refinements| - |log0|
      invariant i >= 1 && refined ==> |m.refinements| > |log0|
      invariant i == 1 ==> (refined <==> |m.refinements| > |log0|)
      invariant old(m.seqStamp) < 0 ==>
        m.elements == els0 && m.nodes == old(m.nodes) && m.seqStamp == old(m.seqStamp) && m.refinements == log0 && stamp == stamp0
      invariant i >= 1 && Quiet(sel, old(m.nodes), els0) ==>
        m.elements == els0 && m.nodes == old(m.nodes) && m.refinements == log0 && stamp == stamp0 && !refined
      invariant i == 1 && old(m.seqStamp) >= 0 ==> Swept(sel, els0, old(m.nodes), log0, m.elements, m.refinements, |els0|)
      invariant old(m.Counted()) ==> m.Counted()
    {
      var logged := |m.refinements|;
      r, stamp := SelectPass(m, sel, stamp);
      if r.Fail? {
        return;
      }
      refined := |m.refinements| > logged;
      i := i + 1;
    }
  }

  /**
   * `refine_by_criterion` with one of the two criteria: `depth` sweeps, and
   * with `markAsInitial` `ninitial` becomes the new arena size.
   */
  method RefineByCriterion(m: Mesh, sel: Selector, depth: int, markAsInitial: bool, stamp0: int) returns (r: Outcome, stamp: int)
    requires m.Valid() && !sel.InAreas?
    modifies m
    ensures m.Valid() && |m.elements| >= old(|m.elements|)
    ensures m.nbase == old(m.nbase) && m.ntopvert == old(m.ntopvert)
    ensures KindsFrom(sel, old(m.refinements), m.refinements)
    ensures r.Pass? ==> stamp == stamp0 + |m.refinements| - old(|m.refinements|)
    ensures depth <= 0 ==> r == Pass && m.elements == old(m.elements) && m.refinements == old(m.refinements) && stamp == stamp0
    ensures depth == 1 && r.Pass? && old(m.seqStamp) >= 0 ==>
      Swept(sel, old(m.elements), old(m.nodes), old(m.refinements), m.elements, m.refinements, old(|m.elements|))
    ensures old(m.seqStamp) < 0 || (depth >= 1 && Quiet(sel, old(m.nodes), old(m.elements))) ==>
      r == Pass && m.elements == old(m.elements) && m.nodes == old(m.nodes) && m.refinements == old(m.refinements) && stamp == stamp0
    ensures r.Pass? && markAsInitial ==> m.ninitial == MaxElementId(m)
    ensures !markAsInitial || r.Fail? ==> m.ninitial == old(m.ninitial)
    ensures r.Pass? ==> old(m.Counted()) ==> m.Counted()
  {
    var refined;
    r, stamp, refined := RefinePasses(m, sel, depth, stamp0);
    if r.Pass? && markAsInitial {
      m.ninitial := MaxElementId(m);
    }
  }

  /**
   * `refine_towards_vertex`: `depth` sweeps of `rtv_criterion`, each
   * splitting every live element with corner `vertex` into four; then
   * `markAsInitial` sets `ninitial`.  One sweep refines exactly the live
   * elements with that corner, in id order.
   */
  method RefineTowardsVertex(m: Mesh, vertex: int, depth: int, markAsInitial: bool, stamp0: int) returns (r: Outcome, stamp: int)
    requires m.Valid()
    modifies m
    ensures m.Valid() && |m.elements| >= old(|m.elements|)
    ensures m.nbase == old(m.nbase) && m.ntopvert == old(m.ntopvert)
    ensures old(m.refinements) <= m.refinements
    ensures forall j :: old(|m.refinements|) <= j < |m.refinements| ==> m.refinements[j].1 == 0
    ensures r.Pass? ==> stamp == stamp0 + |m.refinements| - old(|m.refinements|)
    ensures depth <= 0 ==> r == Pass && m.elements == old(m.elements) && m.refinements == old(m.refinements) && stamp == stamp0
    ensures depth == 1 && r.Pass? && old(m.seqStamp) >= 0 ==>
      && m.refinements == old(m.refinements) + SelLog(TowardsVertex(vertex), old(m.nodes), old(m.elements))
      && forall i :: 0 <= i < old(|m.elements|) ==>
           if old(Live(m.elements[i])) && vertex in old(m.elements[i].vn) then !m.elements[i].active
           else m.elements[i] == old(m.elements[i])
    ensures r.Pass? && markAsInitial ==> m.ninitial == MaxElementId(m)
    ensures !markAsInitial || r.Fail? ==> m.ninitial == old(m.ninitial)
    ensures r.Pass? ==> old(m.Counted()) ==> m.Counted()
  {
    ghost var els0, nodes0, log0 := m.elements, m.nodes, m.refinements;
    r, stamp := RefineByCriterion(m, TowardsVertex(vertex), depth, false, stamp0);
    if depth == 1 && r.Pass? && old(m.seqStamp) >= 0 {
      SweptAll(TowardsVertex(vertex), els0, nodes0, log0, m.elements, m.refinements);
    }
    if r.Pass? && markAsInitial {
      m.ninitial := MaxElementId(m);
    }
  }
}
