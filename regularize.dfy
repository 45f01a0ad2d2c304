/**
 * `regularize` (hermes2d/src/mesh/mesh.cpp): refine until no active element
 * has an edge whose hanging degree is above the level `n`, then, for a
 * level below 1, replace every element with hanging nodes by a
 * transitional triangulation.  It returns `parents`, for every element the
 * id of the element active at the start it descends from.
 *
 * The `do ... while (!ok)` loop has no bound in the source; the model
 * carries `fuel`, the number of passes (and of nested transitions) it may
 * make, and reports `OutOfFuel` when that runs out.
 */
module Regularize {
  import opened MeshData
  import opened MeshModel
  import opened MeshRefine
  import opened RefineApi
  import opened EdgeDegrees
  import opened ParentMap
  import opened Transitions

  /** The start of `regularize`: every element the sweep reaches names itself. */
  method InitialParents(m: Mesh) returns (parents: map<int, int>)
    requires m.Valid()
    ensures m.seqStamp >= 0 ==> parents == Roots(m.elements)
    ensures m.seqStamp < 0 ==> parents == map[]
  {
    parents := map[];
    var max := MaxElementId(m);
    var id := 0;
    while id < max
      invariant 0 <= id <= |m.elements| && (max == -1 || (max == |m.elements| && id <= max))
      invariant parents == map x | 0 <= x < id && Live(m.elements[x]) :: x
      invariant max == -1 ==> id == 0 && parents == map[]
    {
      if Live(m.elements[id]) {
        parents := parents[id := id];
      }
      id := id + 1;
    }
  }

  /**
   * One pass of the `do ... while (!ok)` loop of `regularize`: every element
   * live when the pass starts is visited in id order, and one with an edge
   * above `level` is refined by `refine_element_id` with the kind
   * `IsoChoice` picks, its sons taking its entry in `parents`.  `ok` says
   * that nothing was refined; then every live element was visited and none
   * has an edge above `level`.  A failed split ends the pass.
   */
  method SettlePass(m: Mesh, level: int, parents: map<int, int>, ghost els0: seq<Element>, stamp: int)
    returns (r: Outcome, ok: bool, ps: map<int, int>, stamp': int)
    requires m.Valid()
    requires m.seqStamp >= 0 ==> Lineage(parents, els0, m.elements)
    modifies m
    ensures m.Valid() && |m.elements| >= old(|m.elements|)
    ensures m.nbase == old(m.nbase) && m.ninitial == old(m.ninitial) && m.ntopvert == old(m.ntopvert)
    ensures old(m.refinements) <= m.refinements
    ensures forall j :: old(|m.refinements|) <= j < |m.refinements| ==> 0 <= m.refinements[j].1 <= 2
    ensures ok ==> r == Pass && unchanged(m) && ps == parents && stamp' == stamp
    ensures ok && old(m.seqStamp) >= 0 ==> Settled(m.vertexTable, m.nodes, m.elements, level)
    ensures old(m.seqStamp) < 0 ==> ok
    ensures r.Pass? && !ok ==> |m.refinements| > old(|m.refinements|)
    ensures r.Pass? && old(m.seqStamp) >= 0 ==> Lineage(ps, els0, m.elements)
    ensures r.Pass? ==> stamp' == stamp + |m.refinements| - old(|m.refinements|)
    ensures r.Pass? ==> old(m.Counted()) ==> m.Counted()
  {
    r, ok, ps, stamp' := Pass, true, parents, stamp;
    var max := MaxElementId(m);
    ghost var els1 := m.elements;
    var id := 0;
    while id < max
      invariant m.Valid() && |m.elements| >= |els1|
      invariant 0 <= id <= |els1| && (max == -1 || (max == |els1| && id <= max))
      invariant (max == -1) == (old(m.seqStamp) < 0) && (max == -1 ==> ok)
      invariant m.nbase == old(m.nbase) && m.ninitial == old(m.ninitial) && m.ntopvert == old(m.ntopvert)
      invariant old(m.refinements) <= m.refinements
      invariant forall j :: old(|m.refinements|) <= j < |m.refinements| ==> 0 <= m.refinements[j].1 <= 2
      invariant forall i :: id <= i < |els1| ==> m.elements[i] == els1[i]
      invariant r == Pass && (ok ==> unchanged(m) && ps == parents && stamp' == stamp)
      invariant ok ==> forall x :: 0 <= x < id && Live(els1[x]) ==> !Hangs(m.vertexTable, m.nodes, els1[x], level)
      invariant !ok ==> |m.refinements| > old(|m.refinements|)
      invariant max >= 0 ==> Lineage(ps, els0, m.elements)
      invariant stamp' == stamp + |m.refinements| - old(|m.refinements|)
      invariant old(m.Counted()) ==> m.Counted()
    {
      var refined;
      r, refined, ps, stamp' := SettleVisit(m, id, level, ps, els0, stamp');
      if refined {
        ok := false;
      }
      if r.Fail? {
        return;
      }
      id := id + 1;
    }
  }

  /**
   * One visit of the sweep of `regularize`: a live element `id` with an edge
   * above `level` is refined with the kind `IsoChoice` picks and its sons
   * take its entry in `parents`; otherwise nothing changes, and then the
   * element (when live) has no edge above `level`.
   */
  method SettleVisit(m: Mesh, id: int, level: int, parents: map<int, int>, ghost els0: seq<Element>, stamp: int)
    returns (r: Outcome, refined: bool, ps: map<int, int>, stamp': int)
    requires m.Valid() && 0 <= id < |m.elements| && Lineage(parents, els0, m.elements)
    modifies m
    ensures m.Valid() && |m.elements| >= old(|m.elements|)
    ensures m.nbase == old(m.nbase) && m.ninitial == old(m.ninitial) && m.ntopvert == old(m.ntopvert)
    ensures old(m.refinements) <= m.refinements
    ensures forall j :: old(|m.refinements|) <= j < |m.refinements| ==> 0 <= m.refinements[j].1 <= 2
    ensures !refined ==> r == Pass && unchanged(m) && ps == parents && stamp' == stamp
    ensures !refined && Live(m.elements[id]) ==> !Hangs(m.vertexTable, m.nodes, m.elements[id], level)
    ensures refined ==> |m.refinements| > old(|m.refinements|)
    ensures refined ==>
      && CornersIn(old(m.elements[id]), old(|m.nodes|)) && (|old(m.elements[id]).vn| == 3 || |old(m.elements[id]).vn| == 4)
      && m.refinements == old(m.refinements) + [(id, IsoChoice(Degrees(old(m.vertexTable), old(|m.nodes|), old(m.elements[id])), level))]
    ensures r.Pass? ==> forall i :: id < i < old(|m.elements|) ==> m.elements[i] == old(m.elements[i])
    ensures r.Pass? ==> Lineage(ps, els0, m.elements)
    ensures r.Pass? ==> stamp' == stamp + |m.refinements| - old(|m.refinements|)
    ensures r.Pass? ==> old(m.Counted()) ==> m.Counted()
  {
    r, refined, ps, stamp' := Pass, false, parents, stamp;
    if Live(m.elements[id]) {
      var iso := ChooseIso(m, id, level);
      IsoChoiceSpec(Degrees(m.vertexTable, |m.nodes|, m.elements[id]), level);
      if iso >= 0 {
        refined := true;
        ghost var before := m.elements;
        r := RefineElementId(m, id, iso, stamp);
        if r.Fail? {
          return;
        }
        stamp' := stamp + 1;
        ps := AssignSons(m, parents, id);
        LineageRefined(parents, ps, els0, before, m.elements, id, SonSlots(before[id], iso, |before|));
      }
    }
  }

  /**
   * The `do ... while (!ok)` loop of `regularize`: passes until one refines
   * nothing, at most `fuel` of them.  When it ends without error, no live
   * element has an edge above `level` (unless the stamp is negative, when
   * the sweeps visit nothing).
   */
  method SettleLevels(m: Mesh, level: int, parents: map<int, int>, ghost els0: seq<Element>, stamp0: int, fuel: nat)
    returns (r: Outcome, ps: map<int, int>, stamp: int)
    requires m.Valid()
    requires m.seqStamp >= 0 ==> Lineage(parents, els0, m.elements)
    modifies m
    ensures m.Valid() && |m.elements| >= old(|m.elements|)
    ensures m.nbase == old(m.nbase) && m.ninitial == old(m.ninitial) && m.ntopvert == old(m.ntopvert)
    ensures old(m.refinements) <= m.refinements
    ensures forall j :: old(|m.refinements|) <= j < |m.refinements| ==> 0 <= m.refinements[j].1 <= 2
    ensures r.Pass? && m.seqStamp >= 0 ==> Settled(m.vertexTable, m.nodes, m.elements, level)
    ensures r.Pass? && old(m.seqStamp) >= 0 ==> Lineage(ps, els0, m.elements)
    ensures fuel >= 1 && old(m.seqStamp) < 0 ==> r == Pass && unchanged(m) && ps == parents && stamp == stamp0
    ensures fuel == 0 ==> r == Fail(OutOfFuel) && unchanged(m)
    ensures r.Pass? ==> stamp == stamp0 + |m.refinements| - old(|m.refinements|)
    ensures r.Pass? ==> old(m.Counted()) ==> m.Counted()
  {
    r, ps, stamp := Pass, parents, stamp0;
    var ok := false;
    var passes := 0;
    while !ok
      invariant 0 <= passes <= fuel && (passes == 0 ==> !ok && unchanged(m))
      invariant m.Valid() && |m.elements| >= old(|m.elements|)
      invariant m.nbase == old(m.nbase) && m.ninitial == old(m.ninitial) && m.ntopvert == old(m.ntopvert)
      invariant old(m.refinements) <= m.refinements
      invariant forall j :: old(|m.refinements|) <= j < |m.refinements| ==> 0 <= m.refinements[j].1 <= 2
      invariant !ok ==> |m.refinements| >= old(|m.refinements|) + passes
      invariant ok ==> m.seqStamp >= 0 ==> Settled(m.vertexTable, m.nodes, m.elements, level)
      invariant old(m.seqStamp) >= 0 ==> Lineage(ps, els0, m.elements)
      invariant old(m.seqStamp) < 0 ==> unchanged(m) && ps == parents && stamp == stamp0 && (passes >= 1 ==> ok)
      invariant r == Pass && stamp == stamp0 + |m.refinements| - old(|m.refinements|)
      invariant old(m.Counted()) ==> m.Counted()
      decreases fuel - passes
    {
      if passes == fuel {
        return Fail(OutOfFuel), ps, stamp;
      }
      passes := passes + 1;
      var ri;
      ri, ok, ps, stamp := SettlePass(m, level, ps, els0, stamp);
      if ri.Fail? {
        return ri, ps, stamp;
      }
    }
  }

  /** `regularize` clamps the level: a level below 1 settles at 1 (and then transitions). */
  function SettleLevel(n: int): (level: int)
    ensures level >= 1 && (n >= 1 ==> level == n)
  {
    if n < 1 then 1 else n
  }

  /**
   * The transition loop of `regularize` (for a level below 1): every
   * element live when the loop starts is, if still live when its turn
   * comes, handed to `regularize_triangle` or `regularize_quad`; a failed
   * move ends the loop.  When the loop passes, every element of the arena
   * it started with is as it was or was retired by its move, and the
   * lineage and the active count still hold.
   */
  method TransitionPass(m: Mesh, parents: map<int, int>, ghost els0: seq<Element>, stamp: int, fuel: nat)
    returns (r: Outcome, ps: map<int, int>, stamp': int)
    requires m.Valid()
    requires m.seqStamp >= 0 ==> Lineage(parents, els0, m.elements)
    modifies m
    ensures m.Valid() && |m.elements| >= old(|m.elements|)
    ensures m.nbase == old(m.nbase) && m.ninitial == old(m.ninitial) && m.ntopvert == old(m.ntopvert)
    ensures old(m.refinements) <= m.refinements
    ensures forall j :: old(|m.refinements|) <= j < |m.refinements| ==> 0 <= m.refinements[j].1 <= 2
    ensures old(m.seqStamp) < 0 ==> r == Pass && unchanged(m) && ps == parents && stamp' == stamp
    ensures r.Pass? ==> forall x :: 0 <= x < old(|m.elements|) ==>
      m.elements[x] == old(m.elements[x]) || (old(Live(m.elements[x])) && !m.elements[x].active)
    ensures r.Pass? && old(m.seqStamp) >= 0 ==> Lineage(ps, els0, m.elements)
    ensures r.Pass? ==> stamp' == stamp + |m.refinements| - old(|m.refinements|)
    ensures r.Pass? ==> old(m.Counted()) ==> m.Counted()
  {
    r, ps, stamp' := Pass, parents, stamp;
    var max := MaxElementId(m);
    ghost var els1 := m.elements;
    var id := 0;
    while id < max
      invariant m.Valid() && |m.elements| >= |els1|
      invariant 0 <= id <= |els1| && (max == -1 || (max == |els1| && id <= max))
      invariant (max == -1) == (old(m.seqStamp) < 0) && (max == -1 ==> id == 0)
      invariant m.nbase == old(m.nbase) && m.ninitial == old(m.ninitial) && m.ntopvert == old(m.ntopvert)
      invariant old(m.refinements) <= m.refinements
      invariant forall j :: old(|m.refinements|) <= j < |m.refinements| ==> 0 <= m.refinements[j].1 <= 2
      invariant forall x :: 0 <= x < |els1| ==> m.elements[x] == els1[x] || (x < id && Live(els1[x]) && !m.elements[x].active)
      invariant r == Pass && (max >= 0 ==> Lineage(ps, els0, m.elements))
      invariant max == -1 ==> unchanged(m) && ps == parents && stamp' == stamp
      invariant stamp' == stamp + |m.refinements| - old(|m.refinements|)
      invariant old(m.Counted()) ==> m.Counted()
    {
      if Live(m.elements[id]) {
        r, ps, stamp' := TransitionVisit(m, id, ps, els0, stamp', fuel);
        if r.Fail? {
          return;
        }
      }
      id := id + 1;
    }
  }

  /** One visit of the transition loop: the live element `id` gets its move, and after a move that passes it is as it was or retired. */
  method TransitionVisit(m: Mesh, id: int, parents: map<int, int>, ghost els0: seq<Element>, stamp: int, fuel: nat)
    returns (r: Outcome, ps: map<int, int>, stamp': int)
    requires m.Valid() && 0 <= id < |m.elements| && Live(m.elements[id]) && Lineage(parents, els0, m.elements)
    modifies m
    ensures m.Valid() && |m.elements| >= old(|m.elements|)
    ensures m.nbase == old(m.nbase) && m.ninitial == old(m.ninitial) && m.ntopvert == old(m.ntopvert)
    ensures old(m.refinements) <= m.refinements
    ensures forall j :: old(|m.refinements|) <= j < |m.refinements| ==> 0 <= m.refinements[j].1 <= 2
    ensures r.Pass? ==> m.elements[id] == old(m.elements[id]) || !m.elements[id].active
    ensures r.Pass? ==> forall i :: 0 <= i < old(|m.elements|) && i != id ==> m.elements[i] == old(m.elements[i])
    ensures r.Pass? ==> Lineage(ps, els0, m.elements)
    ensures r.Pass? ==> stamp' == stamp + |m.refinements| - old(|m.refinements|)
    ensures r.Pass? ==> old(m.Counted()) ==> m.Counted()
  {
    ghost var mv, els1, log1, t1, nodes1 := MoveAt(m, id), m.elements, m.refinements, m.vertexTable, m.nodes;
    r, ps, stamp' := RegularizeElement(m, id, parents, els0, stamp, fuel);
    if r.Pass? {
      MovedRetires(r, els1, m.elements, log1, m.refinements, t1, nodes1, m.nodes, id, mv);
    }
  }

  /**
   * `regularize(n)`: every live element starts as its own entry in
   * `parents`; the refinement loop runs at level max(n, 1); for `n` below 1
   * the transition loop follows.  `fuel` bounds the passes of the first loop
   * and the nesting of the second.  On success the entries trace every live
   * element back to an element live at the start, at a level of 1 or more no
   * live element has an edge above `n`, and the active count still holds.
   */
  method RegularizeMesh(m: Mesh, n: int, stamp0: int, fuel: nat) returns (r: Outcome, parents: map<int, int>, stamp: int)
    requires m.Valid()
    modifies m
    ensures m.Valid() && |m.elements| >= old(|m.elements|)
    ensures m.nbase == old(m.nbase) && m.ninitial == old(m.ninitial) && m.ntopvert == old(m.ntopvert)
    ensures old(m.refinements) <= m.refinements
    ensures forall j :: old(|m.refinements|) <= j < |m.refinements| ==> 0 <= m.refinements[j].1 <= 2
    ensures r.Pass? && old(m.seqStamp) >= 0 ==> Lineage(parents, old(m.elements), m.elements)
    ensures r.Pass? && n >= 1 && m.seqStamp >= 0 ==> Settled(m.vertexTable, m.nodes, m.elements, n)
    ensures r.Pass? ==> stamp == stamp0 + |m.refinements| - old(|m.refinements|)
    ensures r.Pass? ==> old(m.Counted()) ==> m.Counted()
    ensures fuel == 0 ==> r == Fail(OutOfFuel) && unchanged(m)
    ensures fuel >= 1 && old(m.seqStamp) < 0 ==> r == Pass && unchanged(m) && parents == map[] && stamp == stamp0
  {
    parents := InitialParents(m);
    ghost var els0 := m.elements;
    r, parents, stamp := SettleLevels(m, SettleLevel(n), parents, els0, stamp0, fuel);
    if r.Fail? || n >= 1 {
      return;
    }
    r, parents, stamp := TransitionPass(m, parents, els0, stamp, fuel);
  }
}
