/**
 * `refine_towards_boundary` in hermes2d/src/mesh/mesh.cpp, both overloads.
 * Each depth step first marks the corners at the ends of every live
 * element's edges that carry one of the boundary markers (`rtb_vert`),
 * then runs one sweep of `rtb_criterion`.  When the last marking step
 * found no such edge, the call reports `NoMarkerFound` after `ninitial`
 * has been updated.
 *
 * The overload taking a list of markers marks by that list but, as
 * written, the criterion compares edge markers with `rtb_marker`, which
 * only the single-marker overload sets: whatever marker the last call of
 * that overload left there, or 0 before any.  `RefineTowardsBoundaryAsWritten`
 * takes that stale value as a parameter; `RefineTowardsBoundary` compares
 * with the markers of the list.
 */
module BoundaryRefine {
  import opened MeshData
  import opened MeshModel
  import opened RefineApi
  import opened Criteria
  import Markers

  /** The corners at the ends of the edges of `el` below `j` that carry one of `markers`. */
  function EdgeEnds(nodes: seq<Node>, el: Element, markers: set<int>, j: int): set<int>
    requires 0 <= j <= |el.vn|
  {
    if j == 0 then {}
    else EdgeEnds(nodes, el, markers, j - 1)
         + (if MarkedEdge(nodes, el, markers, j - 1) then {el.vn[j - 1], el.vn[el.NextVert(j - 1)]} else {})
  }

  /** The corners marked by a scan of the live elements below `n`: the value of `rtb_vert`. */
  function MarkedVerts(nodes: seq<Node>, els: seq<Element>, markers: set<int>, n: int): set<int>
    requires 0 <= n <= |els|
  {
    if n == 0 then {}
    else MarkedVerts(nodes, els, markers, n - 1)
         + (if Live(els[n - 1]) then EdgeEnds(nodes, els[n - 1], markers, |els[n - 1].vn|) else {})
  }

  /** Corner `v` is an end of edge `i` of live element `x`, and that edge carries one of `markers`. */
  predicate EndOfMarkedEdge(nodes: seq<Node>, els: seq<Element>, markers: set<int>, x: int, i: int, v: int)
  {
    0 <= x < |els| && Live(els[x]) && 0 <= i < |els[x].vn| && MarkedEdge(nodes, els[x], markers, i)
    && (v == els[x].vn[i] || v == els[x].vn[els[x].NextVert(i)])
  }

  /** The ends of the marked edges of one element, and nothing else. */
  lemma {:induction false} EdgeEndsSpec(nodes: seq<Node>, el: Element, markers: set<int>, j: int, v: int)
    requires 0 <= j <= |el.vn|
    ensures v in EdgeEnds(nodes, el, markers, j) <==>
      exists i :: 0 <= i < j && MarkedEdge(nodes, el, markers, i) && (v == el.vn[i] || v == el.vn[el.NextVert(i)])
    decreases j
  {
    if j > 0 {
      EdgeEndsSpec(nodes, el, markers, j - 1, v);
    }
  }

  /** A scan marks exactly the ends of the marked edges of the live elements it visits. */
  lemma {:induction false} MarkedVertsSpec(nodes: seq<Node>, els: seq<Element>, markers: set<int>, n: int, v: int)
    requires 0 <= n <= |els|
    ensures v in MarkedVerts(nodes, els, markers, n) <==>
      exists x, i :: 0 <= x < n && EndOfMarkedEdge(nodes, els, markers, x, i, v)
    decreases n
  {
    if n > 0 {
      MarkedVertsSpec(nodes, els, markers, n - 1, v);
      var el := els[n - 1];
      EdgeEndsSpec(nodes, el, markers, |el.vn|, v);
      if v in MarkedVerts(nodes, els, markers, n) && v !in MarkedVerts(nodes, els, markers, n - 1) {
        var i :| 0 <= i < |el.vn| && MarkedEdge(nodes, el, markers, i) && (v == el.vn[i] || v == el.vn[el.NextVert(i)]);
        assert EndOfMarkedEdge(nodes, els, markers, n - 1, i, v);
      }
    }
  }

  /** A scan marks nothing exactly when no live element it visits has a marked edge. */
  lemma NoMarkedVerts(nodes: seq<Node>, els: seq<Element>, markers: set<int>, n: int)
    requires 0 <= n <= |els|
    ensures MarkedVerts(nodes, els, markers, n) == {} <==>
      forall x, i :: 0 <= x < n && Live(els[x]) && 0 <= i < |els[x].vn| ==> !MarkedEdge(nodes, els[x], markers, i)
  {
    forall x, i | 0 <= x < n && Live(els[x]) && 0 <= i < |els[x].vn| && MarkedEdge(nodes, els[x], markers, i)
      ensures els[x].vn[i] in MarkedVerts(nodes, els, markers, n)
    {
      MarkedVertsSpec(nodes, els, markers, n, els[x].vn[i]);
      assert EndOfMarkedEdge(nodes, els, markers, x, i, els[x].vn[i]);
    }
    if forall x, i :: 0 <= x < n && Live(els[x]) && 0 <= i < |els[x].vn| ==> !MarkedEdge(nodes, els[x], markers, i) {
      forall v ensures v !in MarkedVerts(nodes, els, markers, n) {
        MarkedVertsSpec(nodes, els, markers, n, v);
      }
    }
  }

  /** Some live element below `n` has an edge that carries one of `markers`. */
  predicate HasMarkedEdge(nodes: seq<Node>, els: seq<Element>, markers: set<int>, n: int)
    requires 0 <= n <= |els|
  {
    exists x, i :: 0 <= x < n && Live(els[x]) && 0 <= i < |els[x].vn| && MarkedEdge(nodes, els[x], markers, i)
  }

  /**
   * The marking step of `refine_towards_boundary`: `vert` is the set of
   * corners at the ends of the live elements' edges that carry one of
   * `markers` (the ids set in `rtb_vert`), and `found` (the `refined` flag)
   * says whether there was such an edge.
   */
  method MarkVertices(m: Mesh, markers: set<int>) returns (vert: set<int>, found: bool)
    requires m.Valid()
    ensures vert == MarkedVerts(m.nodes, m.elements, markers, ScanEnd(m))
    ensures found <==> vert != {}
    ensures found <==> HasMarkedEdge(m.nodes, m.elements, markers, ScanEnd(m))
  {
    vert, found := {}, false;
    var max := MaxElementId(m);
    var id := 0;
    while id < max
      invariant max == if m.seqStamp >= 0 then |m.elements| else -1
      invariant 0 <= id <= |m.elements| && (if max >= 0 then id <= max else id == 0)
      invariant vert == MarkedVerts(m.nodes, m.elements, markers, id)
      invariant found <==> vert != {}
    {
      var el := m.elements[id];
      if el.used && el.active {
        assert ElementOk(m.nodes, m.elements, id);
        var ends := MarkEdges(m.nodes, el, markers);
        vert := vert + ends;
        found := found || ends != {};
      }
      id := id + 1;
    }
    NoMarkedVerts(m.nodes, m.elements, markers, ScanEnd(m));
  }

  /** The inner loop of the marking step: the ends of the edges of `el` that carry one of `markers`. */
  method MarkEdges(nodes: seq<Node>, el: Element, markers: set<int>) returns (ends: set<int>)
    requires |el.en| == |el.vn| && forall x :: x in el.en ==> 0 <= x < |nodes|
    ensures ends == EdgeEnds(nodes, el, markers, |el.vn|)
  {
    ends := {};
    for j := 0 to |el.vn|
      invariant ends == EdgeEnds(nodes, el, markers, j)
    {
      assert el.en[j] in el.en;
      if nodes[el.en[j]].marker in markers {
        ends := ends + {el.vn[j], el.vn[el.NextVert(j)]};
      }
    }
  }

  /** The kinds a boundary sweep asks for. */
  ghost predicate BoundaryKinds(aniso: bool, log0: seq<(int, int)>, log: seq<(int, int)>)
  {
    log0 <= log && forall j :: |log0| <= j < |log| ==> 0 <= log[j].1 <= (if aniso then 2 else 0)
  }

  /**
   * The depth loop shared by both overloads of `refine_towards_boundary`:
   * each step marks the ends of the edges carrying one of `markers` and
   * runs one sweep of `rtb_criterion` comparing edge markers with
   * `criterionMarkers`; a failed split ends the loop.  `refined` is what
   * the last marking step found.
   */
  method BoundarySteps(m: Mesh, markers: set<int>, criterionMarkers: set<int>, depth: int, aniso: bool, stamp0: int)
    returns (r: Outcome, stamp: int, refined: bool)
    requires m.Valid()
    modifies m
    ensures m.Valid() && |m.elements| >= old(|m.elements|)
    ensures m.nbase == old(m.nbase) && m.ninitial == old(m.ninitial) && m.ntopvert == old(m.ntopvert)
    ensures BoundaryKinds(aniso, old(m.refinements), m.refinements)
    ensures r.Pass? ==> stamp == stamp0 + |m.refinements| - old(|m.refinements|)
    ensures depth <= 0 ==> r == Pass && refined && m.elements == old(m.elements) && m.refinements == old(m.refinements) && stamp == stamp0
    ensures depth == 1 && r.Pass? ==> (refined <==> old(HasMarkedEdge(m.nodes, m.elements, markers, ScanEnd(m))))
    ensures depth == 1 && r.Pass? && old(m.seqStamp) >= 0 ==>
      forall i :: 0 <= i < old(|m.elements|) ==> m.elements[i] == old(m.elements[i]) || (old(Live(m.elements[i])) && !m.elements[i].active)
    ensures depth == 1 && criterionMarkers == markers && !old(HasMarkedEdge(m.nodes, m.elements, markers, ScanEnd(m))) ==>
      r == Pass && !refined && m.elements == old(m.elements) && m.refinements == old(m.refinements) && stamp == stamp0
    ensures r.Pass? ==> old(m.Counted()) ==> m.Counted()
  {
    ghost var els0, log0 := m.elements, m.refinements;
    ghost var had := HasMarkedEdge(m.nodes, m.elements, markers, ScanEnd(m));
    r, stamp, refined := Pass, stamp0, true;
    var i := 0;
    while i < depth
      invariant m.Valid() && |m.elements| >= |els0| && r == Pass && 0 <= i && (i == 0 || i <= depth)
      invariant i == 0 ==> m.elements == els0 && m.nodes == old(m.nodes) && m.seqStamp == old(m.seqStamp)
                           && m.refinements == log0 && stamp == stamp0 && refined
      invariant m.nbase == old(m.nbase) && m.ninitial == old(m.ninitial) && m.ntopvert == old(m.ntopvert)
      invariant BoundaryKinds(aniso, log0, m.refinements)
      invariant stamp == stamp0 + |m.refinements| - |log0|
      invariant i == 1 ==> refined == had
      invariant i == 1 && old(m.seqStamp) >= 0 ==>
        forall k :: 0 <= k < |els0| ==> m.elements[k] == els0[k] || (Live(els0[k]) && !m.elements[k].active)
      invariant old(m.Counted()) ==> m.Counted()
      invariant i == 1 && criterionMarkers == markers && !had ==> m.elements == els0 && m.refinements == log0 && stamp == stamp0
    {
      var vert;
      vert, refined := MarkVertices(m, markers);
      if criterionMarkers == markers && !refined && m.seqStamp >= 0 {
        QuietWithoutMarks(m.nodes, m.elements, markers, aniso);
      }
      r, stamp := BoundaryPass(m, criterionMarkers, aniso, vert, stamp);
      if r.Fail? {
        return;
      }
      i := i + 1;
    }
  }

  /**
   * The common body of both overloads of `refine_towards_boundary`: the
   * depth loop, then `markAsInitial` sets `ninitial`, and the call reports
   * `NoMarkerFound` when the last marking step found no marked edge.  With
   * one step that happens exactly when no live element has an edge that
   * carries one of `markers`.
   */
  method RefineTowardsBoundaryWith(m: Mesh, markers: set<int>, criterionMarkers: set<int>, depth: int, aniso: bool,
                                   markAsInitial: bool, stamp0: int) returns (r: Outcome, stamp: int)
    requires m.Valid()
    modifies m
    ensures m.Valid() && |m.elements| >= old(|m.elements|)
    ensures m.nbase == old(m.nbase) && m.ntopvert == old(m.ntopvert)
    ensures BoundaryKinds(aniso, old(m.refinements), m.refinements)
    ensures r.Pass? ==> stamp == stamp0 + |m.refinements| - old(|m.refinements|)
    ensures depth <= 0 ==> r == Pass && m.elements == old(m.elements) && m.refinements == old(m.refinements) && stamp == stamp0
    ensures depth == 1 && r.Pass? ==> old(HasMarkedEdge(m.nodes, m.elements, markers, ScanEnd(m)))
    ensures depth == 1 && !old(HasMarkedEdge(m.nodes, m.elements, markers, ScanEnd(m))) ==> r.Fail?
    ensures depth == 1 && criterionMarkers == markers && !old(HasMarkedEdge(m.nodes, m.elements, markers, ScanEnd(m))) ==>
      r == Fail(NoMarkerFound) && m.elements == old(m.elements) && m.refinements == old(m.refinements) && stamp == stamp0
    ensures depth == 1 && r.Pass? && old(m.seqStamp) >= 0 ==>
      forall i :: 0 <= i < old(|m.elements|) ==> m.elements[i] == old(m.elements[i]) || (old(Live(m.elements[i])) && !m.elements[i].active)
    ensures r.Pass? && markAsInitial ==> m.ninitial == MaxElementId(m)
    ensures markAsInitial ==> m.ninitial == old(m.ninitial) || m.ninitial == MaxElementId(m)
    ensures !markAsInitial ==> m.ninitial == old(m.ninitial)
    ensures r.Pass? ==> old(m.Counted()) ==> m.Counted()
  {
    var refined;
    r, stamp, refined := BoundarySteps(m, markers, criterionMarkers, depth, aniso, stamp0);
    if r.Fail? {
      return;
    }
    if markAsInitial {
      m.ninitial := MaxElementId(m);
    }
    if !refined {
      r := Fail(NoMarkerFound);
    }
  }

  /** Without a marked edge nothing is marked, and `rtb_criterion` comparing with the same markers picks no element. */
  lemma QuietWithoutMarks(nodes: seq<Node>, els: seq<Element>, markers: set<int>, aniso: bool)
    requires !HasMarkedEdge(nodes, els, markers, |els|)
    ensures Quiet(TowardsBoundary(markers, aniso, {}), nodes, els)
  {
    forall x | 0 <= x < |els| && Live(els[x])
      ensures RtbCriterion(nodes, els[x], markers, aniso, {}) == -1
    {
      forall i | 0 <= i < |els[x].vn| ensures !Touches(nodes, els[x], markers, {}, i) {
        assert !MarkedEdge(nodes, els[x], markers, i);
      }
    }
  }

  /** One sweep of `rtb_criterion`, as `refine_by_criterion(rtb_criterion, 1)` runs it. */
  method BoundaryPass(m: Mesh, criterionMarkers: set<int>, aniso: bool, vert: set<int>, stamp0: int) returns (r: Outcome, stamp: int)
    requires m.Valid()
    modifies m
    ensures m.Valid() && |m.elements| >= old(|m.elements|)
    ensures m.nbase == old(m.nbase) && m.ninitial == old(m.ninitial) && m.ntopvert == old(m.ntopvert)
    ensures BoundaryKinds(aniso, old(m.refinements), m.refinements)
    ensures r.Pass? ==> stamp == stamp0 + |m.refinements| - old(|m.refinements|)
    ensures r.Pass? && old(m.seqStamp) >= 0 ==>
      forall i :: 0 <= i < old(|m.elements|) ==> m.elements[i] == old(m.elements[i]) || (old(Live(m.elements[i])) && !m.elements[i].active)
    ensures (old(m.seqStamp) < 0 || Quiet(TowardsBoundary(criterionMarkers, aniso, vert), old(m.nodes), old(m.elements))) ==>
      r == Pass && m.elements == old(m.elements) && m.nodes == old(m.nodes) && m.refinements == old(m.refinements) && stamp == stamp0
    ensures r.Pass? ==> old(m.Counted()) ==> m.Counted()
  {
    ghost var els0, nodes0, log0 := m.elements, m.nodes, m.refinements;
    var sel := TowardsBoundary(criterionMarkers, aniso, vert);
    r, stamp := RefineByCriterion(m, sel, 1, false, stamp0);
    if r.Pass? && old(m.seqStamp) >= 0 {
      SweptAll(sel, els0, nodes0, log0, m.elements, m.refinements);
    }
  }

  /**
   * `refine_towards_boundary` with a list of boundary markers, as it is
   * meant: the marking step and the criterion both use the internal forms
   * of the listed markers.  With one step and no live element having an
   * edge with one of them, the call reports `NoMarkerFound` and refines
   * nothing.
   */
  method RefineTowardsBoundary(m: Mesh, markers: seq<string>, depth: int, aniso: bool, markAsInitial: bool, stamp0: int)
    returns (r: Outcome, stamp: int)
    requires m.Valid() && m.boundaryMarkers.Valid()
    modifies m
    ensures m.Valid() && |m.elements| >= old(|m.elements|)
    ensures m.nbase == old(m.nbase) && m.ntopvert == old(m.ntopvert)
    ensures BoundaryKinds(aniso, old(m.refinements), m.refinements)
    ensures r.Pass? ==> stamp == stamp0 + |m.refinements| - old(|m.refinements|)
    ensures depth <= 0 ==> r == Pass && m.elements == old(m.elements) && m.refinements == old(m.refinements) && stamp == stamp0
    ensures depth == 1 && r.Pass? ==> old(HasMarkedEdge(m.nodes, m.elements, Internals(m.boundaryMarkers, markers), ScanEnd(m)))
    ensures depth == 1 && !old(HasMarkedEdge(m.nodes, m.elements, Internals(m.boundaryMarkers, markers), ScanEnd(m))) ==>
      r == Fail(NoMarkerFound) && m.elements == old(m.elements) && m.refinements == old(m.refinements) && stamp == stamp0
    ensures depth == 1 && r.Pass? && old(m.seqStamp) >= 0 ==>
      forall i :: 0 <= i < old(|m.elements|) ==> m.elements[i] == old(m.elements[i]) || (old(Live(m.elements[i])) && !m.elements[i].active)
    ensures r.Pass? && markAsInitial ==> m.ninitial == MaxElementId(m)
    ensures !markAsInitial ==> m.ninitial == old(m.ninitial)
    ensures r.Pass? ==> old(m.Counted()) ==> m.Counted()
  {
    var ms := Internals(m.boundaryMarkers, markers);
    r, stamp := RefineTowardsBoundaryWith(m, ms, ms, depth, aniso, markAsInitial, stamp0);
  }

  /**
   * `refine_towards_boundary` with a list of boundary markers, as written:
   * the marking step uses the listed markers, but the criterion compares
   * edge markers with `rtbMarker`, the value `rtb_marker` holds from an
   * earlier call of the single-marker overload (0 if there was none).
   */
  method RefineTowardsBoundaryAsWritten(m: Mesh, markers: seq<string>, rtbMarker: int, depth: int, aniso: bool,
                                        markAsInitial: bool, stamp0: int) returns (r: Outcome, stamp: int)
    requires m.Valid() && m.boundaryMarkers.Valid()
    modifies m
    ensures m.Valid() && |m.elements| >= old(|m.elements|)
    ensures m.nbase == old(m.nbase) && m.ntopvert == old(m.ntopvert)
    ensures BoundaryKinds(aniso, old(m.refinements), m.refinements)
    ensures r.Pass? ==> stamp == stamp0 + |m.refinements| - old(|m.refinements|)
    ensures depth <= 0 ==> r == Pass && m.elements == old(m.elements) && m.refinements == old(m.refinements) && stamp == stamp0
    ensures depth == 1 && !old(HasMarkedEdge(m.nodes, m.elements, Internals(m.boundaryMarkers, markers), ScanEnd(m))) ==> r.Fail?
    ensures depth == 1 && r.Pass? && old(m.seqStamp) >= 0 ==>
      forall i :: 0 <= i < old(|m.elements|) ==> m.elements[i] == old(m.elements[i]) || (old(Live(m.elements[i])) && !m.elements[i].active)
    ensures r.Pass? && markAsInitial ==> m.ninitial == MaxElementId(m)
    ensures !markAsInitial ==> m.ninitial == old(m.ninitial)
    ensures r.Pass? ==> old(m.Counted()) ==> m.Counted()
  {
    var ms := Internals(m.boundaryMarkers, markers);
    r, stamp := RefineTowardsBoundaryWith(m, ms, {rtbMarker}, depth, aniso, markAsInitial, stamp0);
  }

  /**
   * The single-marker overload of `refine_towards_boundary` for a marker
   * other than `HERMES_ANY`: `rtb_marker` becomes the marker's internal
   * form, which both the marking step and the criterion use.
   */
  method RefineTowardsBoundaryNamed(m: Mesh, marker: string, depth: int, aniso: bool, markAsInitial: bool, stamp0: int)
    returns (r: Outcome, stamp: int, rtbMarker: int)
    requires m.Valid() && m.boundaryMarkers.Valid()
    modifies m
    ensures rtbMarker == m.boundaryMarkers.GetInternalMarker(marker).marker
    ensures m.Valid() && |m.elements| >= old(|m.elements|)
    ensures m.nbase == old(m.nbase) && m.ntopvert == old(m.ntopvert)
    ensures BoundaryKinds(aniso, old(m.refinements), m.refinements)
    ensures r.Pass? ==> stamp == stamp0 + |m.refinements| - old(|m.refinements|)
    ensures depth <= 0 ==> r == Pass && m.elements == old(m.elements) && m.refinements == old(m.refinements) && stamp == stamp0
    ensures depth == 1 && r.Pass? ==> old(HasMarkedEdge(m.nodes, m.elements, {rtbMarker}, ScanEnd(m)))
    ensures depth == 1 && !old(HasMarkedEdge(m.nodes, m.elements, {rtbMarker}, ScanEnd(m))) ==>
      r == Fail(NoMarkerFound) && m.elements == old(m.elements) && m.refinements == old(m.refinements) && stamp == stamp0
    ensures r.Pass? && markAsInitial ==> m.ninitial == MaxElementId(m)
    ensures !markAsInitial ==> m.ninitial == old(m.ninitial)
    ensures r.Pass? ==> old(m.Counted()) ==> m.Counted()
  {
    rtbMarker := m.boundaryMarkers.GetInternalMarker(marker).marker;
    r, stamp := RefineTowardsBoundaryWith(m, {rtbMarker}, {rtbMarker}, depth, aniso, markAsInitial, stamp0);
  }

  /**
   * The `HERMES_ANY` case of the single-marker overload of
   * `refine_towards_boundary`: the named form runs for each boundary marker
   * of the table in increasing internal order, and the first that reports
   * an error ends the call.  `rtbMarker` is the value `rtb_marker` is left
   * with.  A user marker spelled like `HERMES_ANY` itself sends the program
   * back into this case without end; the model stops there with
   * `EndlessRecursion`.
   */
  method RefineTowardsAnyBoundary(m: Mesh, depth: int, aniso: bool, markAsInitial: bool, rtbMarker0: int, stamp0: int)
    returns (r: Outcome, stamp: int, rtbMarker: int)
    requires m.Valid() && m.boundaryMarkers.Valid()
    modifies m
    ensures m.Valid() && |m.elements| >= old(|m.elements|)
    ensures m.nbase == old(m.nbase) && m.ntopvert == old(m.ntopvert)
    ensures BoundaryKinds(aniso, old(m.refinements), m.refinements)
    ensures r.Pass? ==> stamp == stamp0 + |m.refinements| - old(|m.refinements|)
    ensures rtbMarker == rtbMarker0 || rtbMarker in m.boundaryMarkers.table || rtbMarker == Markers.DgInnerEdgeInt
    ensures m.boundaryMarkers.table == map[] ==>
      r == Pass && m.elements == old(m.elements) && m.refinements == old(m.refinements) && stamp == stamp0 && rtbMarker == rtbMarker0
    ensures HermesAny in m.boundaryMarkers.table.Values ==> r.Fail?
    ensures !markAsInitial ==> m.ninitial == old(m.ninitial)
    ensures r.Pass? ==> old(m.Counted()) ==> m.Counted()
  {
    var conv := m.boundaryMarkers;
    ghost var els0, log0 := m.elements, m.refinements;
    r, stamp, rtbMarker := Pass, stamp0, rtbMarker0;
    var k := 1;
    while k < conv.minMarkerUnused
      invariant m.Valid() && |m.elements| >= |els0| && r == Pass
      invariant m.nbase == old(m.nbase) && m.ntopvert == old(m.ntopvert)
      invariant !markAsInitial ==> m.ninitial == old(m.ninitial)
      invariant BoundaryKinds(aniso, log0, m.refinements)
      invariant stamp == stamp0 + |m.refinements| - |log0|
      invariant rtbMarker == rtbMarker0 || rtbMarker in conv.table || rtbMarker == Markers.DgInnerEdgeInt
      invariant conv.table == map[] ==> m.elements == els0 && m.refinements == log0 && stamp == stamp0 && rtbMarker == rtbMarker0
      invariant old(m.Counted()) ==> m.Counted()
      invariant forall j :: 1 <= j < k && j in conv.table ==> conv.table[j] != HermesAny
    {
      if k in conv.table {
        if conv.table[k] == HermesAny {
          r := Fail(EndlessRecursion);
          return;
        }
        r, stamp, rtbMarker := RefineTowardsBoundaryNamed(m, conv.table[k], depth, aniso, markAsInitial, stamp);
        if r.Fail? {
          return;
        }
      }
      k := k + 1;
    }
  }

  /**
   * The single-marker overload of `refine_towards_boundary`: `HERMES_ANY`
   * stands for every boundary marker of the table, any other marker runs
   * the named form once.  `rtbMarker` is the value `rtb_marker` is left
   * with.
   */
  method RefineTowardsBoundaryMarker(m: Mesh, marker: string, depth: int, aniso: bool, markAsInitial: bool,
                                     rtbMarker0: int, stamp0: int) returns (r: Outcome, stamp: int, rtbMarker: int)
    requires m.Valid() && m.boundaryMarkers.Valid()
    modifies m
    ensures m.Valid() && |m.elements| >= old(|m.elements|)
    ensures m.nbase == old(m.nbase) && m.ntopvert == old(m.ntopvert)
    ensures BoundaryKinds(aniso, old(m.refinements), m.refinements)
    ensures r.Pass? ==> stamp == stamp0 + |m.refinements| - old(|m.refinements|)
    ensures marker != HermesAny ==> rtbMarker == m.boundaryMarkers.GetInternalMarker(marker).marker
    ensures marker != HermesAny && depth == 1 && !old(HasMarkedEdge(m.nodes, m.elements, {rtbMarker}, ScanEnd(m))) ==>
      r == Fail(NoMarkerFound) && m.elements == old(m.elements) && m.refinements == old(m.refinements) && stamp == stamp0
    ensures marker == HermesAny ==>
      rtbMarker == rtbMarker0 || rtbMarker in m.boundaryMarkers.table || rtbMarker == Markers.DgInnerEdgeInt
    ensures marker == HermesAny && m.boundaryMarkers.table == map[] ==>
      r == Pass && m.elements == old(m.elements) && m.refinements == old(m.refinements) && stamp == stamp0 && rtbMarker == rtbMarker0
    ensures marker == HermesAny && HermesAny in m.boundaryMarkers.table.Values ==> r.Fail?
    ensures !markAsInitial ==> m.ninitial == old(m.ninitial)
    ensures r.Pass? ==> old(m.Counted()) ==> m.Counted()
  {
    if marker == HermesAny {
      r, stamp, rtbMarker := RefineTowardsAnyBoundary(m, depth, aniso, markAsInitial, rtbMarker0, stamp0);
    } else {
      r, stamp, rtbMarker := RefineTowardsBoundaryNamed(m, marker, depth, aniso, markAsInitial, stamp0);
    }
  }

  /** A triangle of the base mesh whose three edges are interior (marker 0). */
  function InteriorTriangle(): (nodes: seq<Node>)
    ensures |nodes| == 6
  {
    [Node(VertexNode, true, TopLevelRef, false, 0, 0.0, 0.0, Null, Null),
     Node(VertexNode, true, TopLevelRef, false, 0, 1.0, 0.0, Null, Null),
     Node(VertexNode, true, TopLevelRef, false, 0, 0.0, 1.0, Null, Null),
     Node(EdgeNode, true, 1, false, 0, 0.0, 0.0, 0, 1),
     Node(EdgeNode, true, 1, false, 0, 0.0, 0.0, 1, 2),
     Node(EdgeNode, true, 1, false, 0, 0.0, 0.0, 0, 2)]
  }

  /**
   * The stale `rtb_marker` at work: asked for boundary marker 7 on a mesh
   * where no edge carries it, the list overload marks no corner and will
   * report `NoMarkerFound`, yet its sweep, comparing with the untouched
   * `rtb_marker` 0, refines the interior triangle; comparing with the listed
   * marker refines nothing.
   */
  lemma StaleMarkerRefinesInterior(aniso: bool)
    ensures var nodes, el := InteriorTriangle(), Element(true, true, 0, [0, 1, 2], [3, 4, 5], Null, NoSons, 0);
      && !HasMarkedEdge(nodes, [el], {7}, 1)
      && MarkedVerts(nodes, [el], {7}, 1) == {}
      && Visit(TowardsBoundary({0}, aniso, {}), nodes, el) == Refine(0)
      && Quiet(TowardsBoundary({7}, aniso, {}), nodes, [el])
  {
    var nodes, el := InteriorTriangle(), Element(true, true, 0, [0, 1, 2], [3, 4, 5], Null, NoSons, 0);
    NoMarkedVerts(nodes, [el], {7}, 1);
    assert Touches(nodes, el, {0}, {}, 0);
    QuietWithoutMarks(nodes, [el], {7}, aniso);
  }
}
