/**
 * `refine_in_areas` and `refine_in_area` in hermes2d/src/mesh/mesh.cpp:
 * `depth` sweeps that refine, with one kind, every live element whose
 * element marker is one of the listed markers (every live element when
 * `HERMES_ANY` is listed).  When the last sweep refined nothing, the call
 * reports `NoMarkerFound` after `ninitial` has been updated.
 *
 * As written, the sweep calls `refine_element` once per listed marker that
 * matches, so a marker listed twice refines the same element twice, the
 * second time after it is no longer active.  `AreaRefineCallsAsWritten`
 * counts those calls; the model refines each matching element once.
 */
module AreaRefine {
  import opened MeshData
  import opened MeshModel
  import opened RefineApi
  import opened Criteria
  import Markers

  /**
   * The lookup loop at the head of `refine_in_areas`: `any` says whether
   * `HERMES_ANY` is listed; without it `internal` holds the internal form of
   * each listed marker, in order and with repetitions.
   */
  method ReadAreaMarkers(conv: Markers.MarkersConversion, markers: seq<string>) returns (any: bool, internal: seq<int>)
    requires conv.Valid()
    ensures any <==> HermesAny in markers
    ensures !any ==> |internal| == |markers| && forall i :: 0 <= i < |markers| ==> internal[i] == conv.GetInternalMarker(markers[i]).marker
  {
    any, internal := false, [];
    var i := 0;
    while i < |markers|
      invariant 0 <= i <= |markers| && |internal| == i
      invariant !any && HermesAny !in markers[..i]
      invariant forall j :: 0 <= j < i ==> internal[j] == conv.GetInternalMarker(markers[j]).marker
    {
      if markers[i] == HermesAny {
        any := true;
        assert markers[i] in markers;
        break;
      }
      internal := internal + [conv.GetInternalMarker(markers[i]).marker];
      i := i + 1;
    }
    if !any {
      assert markers[..i] == markers;
    }
  }

  /**
   * The element test of `refine_in_areas` for a list of user markers:
   * `HERMES_ANY` picks every element, otherwise an element is picked when
   * its marker is the internal form of a listed marker.
   */
  function AreaSelector(conv: Markers.MarkersConversion, markers: seq<string>, kind: int): (sel: Selector)
    reads conv
    requires conv.Valid()
    ensures sel.InAreas? && sel.kind == kind
    ensures forall nodes, el :: Decide(sel, nodes, el).Refine? <==>
      HermesAny in markers || exists i :: 0 <= i < |markers| && conv.GetInternalMarker(markers[i]).marker == el.marker
  {
    InAreas(HermesAny in markers, if HermesAny in markers then {} else Internals(conv, markers), kind)
  }

  /**
   * `refine_in_areas`.  `depth` sweeps each refine, through
   * `refine_element` and with `kind`, the live elements the markers pick;
   * a failed split ends the call.  Then `markAsInitial` sets `ninitial`,
   * and the call reports `NoMarkerFound` when the last sweep refined
   * nothing.  One sweep refines exactly the picked live elements, in id
   * order, and reports `NoMarkerFound` exactly when there is none.
   */
  method RefineInAreas(m: Mesh, markers: seq<string>, depth: int, kind: int, markAsInitial: bool, stamp0: int)
    returns (r: Outcome, stamp: int)
    requires m.Valid() && m.elementMarkers.Valid()
    requires m.seqStamp < 0 || PassesFit(AreaSelector(m.elementMarkers, markers, kind), depth, m.nodes, m.elements)
    modifies m
    ensures m.Valid() && |m.elements| >= old(|m.elements|)
    ensures m.nbase == old(m.nbase) && m.ntopvert == old(m.ntopvert)
    ensures old(m.refinements) <= m.refinements
    ensures forall j :: old(|m.refinements|) <= j < |m.refinements| ==> m.refinements[j].1 == kind
    ensures r.Pass? ==> stamp == stamp0 + |m.refinements| - old(|m.refinements|)
    ensures depth <= 0 ==> r == Pass && m.elements == old(m.elements) && m.refinements == old(m.refinements) && stamp == stamp0
    ensures depth == 1 && r.Pass? && old(m.seqStamp) >= 0 ==>
      var sel := AreaSelector(m.elementMarkers, markers, kind);
      && m.refinements == old(m.refinements) + SelLog(sel, old(m.nodes), old(m.elements))
      && forall i :: 0 <= i < old(|m.elements|) ==>
           if old(Visit(sel, m.nodes, m.elements[i])).Refine? then !m.elements[i].active else m.elements[i] == old(m.elements[i])
    ensures depth >= 1 && r.Pass? ==> old(m.seqStamp) >= 0 && !old(Quiet(AreaSelector(m.elementMarkers, markers, kind), m.nodes, m.elements))
    ensures depth >= 1 && (old(m.seqStamp) < 0 || old(Quiet(AreaSelector(m.elementMarkers, markers, kind), m.nodes, m.elements))) ==>
      r == Fail(NoMarkerFound) && m.elements == old(m.elements) && m.refinements == old(m.refinements) && stamp == stamp0
    ensures r.Pass? && markAsInitial ==> m.ninitial == MaxElementId(m)
    ensures !markAsInitial ==> m.ninitial == old(m.ninitial)
    ensures r.Pass? ==> old(m.Counted()) ==> m.Counted()
  {
    ghost var els0, nodes0, log0 := m.elements, m.nodes, m.refinements;
    var any, internal := ReadAreaMarkers(m.elementMarkers, markers);
    var sel := InAreas(any, if any then {} else (set x | x in internal), kind);
    assert sel == AreaSelector(m.elementMarkers, markers, kind);
    var refined;
    r, stamp, refined := RefinePasses(m, sel, depth, stamp0);
    if r.Fail? {
      return;
    }
    if depth == 1 && old(m.seqStamp) >= 0 {
      SweptAll(sel, els0, nodes0, log0, m.elements, m.refinements);
      SelLogEmpty(sel, nodes0, els0);
    }
    if markAsInitial {
      m.ninitial := MaxElementId(m);
    }
    if !refined {
      r := Fail(NoMarkerFound);
    }
  }

  /** `refine_in_area`: `refine_in_areas` with one marker. */
  method RefineInArea(m: Mesh, marker: string, depth: int, kind: int, markAsInitial: bool, stamp0: int)
    returns (r: Outcome, stamp: int)
    requires m.Valid() && m.elementMarkers.Valid()
    requires m.seqStamp < 0 || PassesFit(AreaSelector(m.elementMarkers, [marker], kind), depth, m.nodes, m.elements)
    modifies m
    ensures m.Valid() && |m.elements| >= old(|m.elements|)
    ensures m.nbase == old(m.nbase) && m.ntopvert == old(m.ntopvert)
    ensures old(m.refinements) <= m.refinements
    ensures forall j :: old(|m.refinements|) <= j < |m.refinements| ==> m.refinements[j].1 == kind
    ensures r.Pass? ==> stamp == stamp0 + |m.refinements| - old(|m.refinements|)
    ensures depth <= 0 ==> r == Pass && m.elements == old(m.elements) && m.refinements == old(m.refinements) && stamp == stamp0
    ensures depth == 1 && r.Pass? && old(m.seqStamp) >= 0 ==>
      var sel := AreaSelector(m.elementMarkers, [marker], kind);
      && m.refinements == old(m.refinements) + SelLog(sel, old(m.nodes), old(m.elements))
      && forall i :: 0 <= i < old(|m.elements|) ==>
           if old(Visit(sel, m.nodes, m.elements[i])).Refine? then !m.elements[i].active else m.elements[i] == old(m.elements[i])
    ensures depth >= 1 && r.Pass? ==> old(m.seqStamp) >= 0 && !old(Quiet(AreaSelector(m.elementMarkers, [marker], kind), m.nodes, m.elements))
    ensures depth >= 1 && (old(m.seqStamp) < 0 || old(Quiet(AreaSelector(m.elementMarkers, [marker], kind), m.nodes, m.elements))) ==>
      r == Fail(NoMarkerFound) && m.elements == old(m.elements) && m.refinements == old(m.refinements) && stamp == stamp0
    ensures r.Pass? && markAsInitial ==> m.ninitial == MaxElementId(m)
    ensures !markAsInitial ==> m.ninitial == old(m.ninitial)
    ensures r.Pass? ==> old(m.Counted()) ==> m.Counted()
  {
    r, stamp := RefineInAreas(m, [marker], depth, kind, markAsInitial, stamp0);
  }

  /**
   * The number of `refine_element` calls one visit of the sweep makes for
   * `el`, as written: one per entry of the internal marker list equal to
   * the element's marker.
   */
  function AreaRefineCallsAsWritten(internal: seq<int>, el: Element): (calls: nat)
    ensures calls <= |internal|
    ensures calls > 0 <==> Live(el) && el.marker in internal
  {
    if Live(el) then Occ(internal, el.marker) else 0
  }

  /**
   * A marker listed twice: as written the sweep calls `refine_element`
   * twice for a live element carrying it (the second call on an element the
   * first one has already split), while the marker test of the model picks
   * the element once.
   */
  lemma DuplicateAreaMarker(conv: Markers.MarkersConversion, name: string, el: Element, nodes: seq<Node>, kind: int)
    requires conv.Valid() && name != HermesAny
    requires Live(el) && el.marker == conv.GetInternalMarker(name).marker
    ensures AreaRefineCallsAsWritten([conv.GetInternalMarker(name).marker, conv.GetInternalMarker(name).marker], el) == 2
    ensures Decide(AreaSelector(conv, [name, name], kind), nodes, el) == Refine(kind)
  {
    var k := conv.GetInternalMarker(name).marker;
    assert [k, k][..1] == [k];
    assert [k][..0] == [];
    assert [name, name][0] == name && HermesAny !in [name, name];
  }
}
