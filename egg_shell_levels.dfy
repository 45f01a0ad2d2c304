/**
 * `EggShell::get_egg_shell_structures` in hermes2d/src/mesh/mesh.cpp: the
 * breadth-first search that finds the egg shell around the elements
 * carrying the requested element markers.  Live target elements start at
 * level 1; round `level` (1, 2, ..., `levels`) visits the live elements
 * found at that level and gives level `level + 1` to every element across
 * one of their interior edges that has no level yet.  Each element reached
 * that way joins the shell, takes the `Eggshell` element marker, and the
 * edge nodes on both sides of the crossed edge take the `Eggshell-1`
 * boundary marker.
 *
 * `NeighborSearch` is not part of this model: what it reports across an
 * edge is the parameter `nb`.
 */
module EggShellLevels {
  import opened MeshData
  import opened MeshModel
  import opened RefineApi
  import Markers

  /** The user markers the egg shell introduces. */
  const EggShell1: string := "Eggshell-1"
  const EggShellInner: string := "Eggshell-inner"
  const EggShell0: string := "Eggshell-0"
  const EggShellVolume: string := "Eggshell"

  /**
   * What `NeighborSearch` reports across edge `i` of element `e`: the
   * neighbouring elements, each with the local number of the shared edge
   * on its own side.
   */
  type Neighbours = map<(int, int), seq<(int, int)>>

  /** The neighbours reported across edge `i` of `e`, none when the search reports nothing. */
  function Across(nb: Neighbours, e: int, i: int): (r: seq<(int, int)>)
    ensures (e, i) !in nb ==> r == []
  {
    if (e, i) in nb then nb[(e, i)] else []
  }

  /** Every reported neighbour is an element of `els` and names one of its edges. */
  ghost predicate NeighboursFit(els: seq<Element>, nb: Neighbours)
  {
    forall e, i, j :: (e, i) in nb && 0 <= j < |nb[(e, i)]| ==>
      0 <= nb[(e, i)][j].0 < |els| && 0 <= nb[(e, i)][j].1 < |els[nb[(e, i)][j].0].en|
  }

  /** Every reported neighbour is live: the search only finds used, active elements. */
  ghost predicate NeighboursLive(els: seq<Element>, nb: Neighbours)
  {
    forall e, i, j :: (e, i) in nb && 0 <= j < |nb[(e, i)]| ==>
      0 <= nb[(e, i)][j].0 < |els| && Live(els[nb[(e, i)][j].0])
  }

  /** Edge `i` of `y` is not on the boundary and `x` is among the first `jj` neighbours across it. */
  ghost predicate CrossesBefore(els: seq<Element>, nodes: seq<Node>, nb: Neighbours, y: int, i: int, x: int, jj: int)
  {
    0 <= y < |els| && 0 <= i < |els[y].vn| && i < |els[y].en|
    && 0 <= els[y].en[i] < |nodes| && !nodes[els[y].en[i]].bnd
    && exists j :: 0 <= j < jj && j < |Across(nb, y, i)| && Across(nb, y, i)[j].0 == x
  }

  /** Edge `i` of `y` is not on the boundary and `x` lies across it. */
  ghost predicate Crosses(els: seq<Element>, nodes: seq<Node>, nb: Neighbours, y: int, i: int, x: int)
  {
    CrossesBefore(els, nodes, nb, y, i, x, |Across(nb, y, i)|)
  }

  /**
   * Round `level` reaches `x` from `y` through the first `jj` neighbours
   * across edge `i`: `y` is live and had level `level` when the round began.
   */
  ghost predicate HitBy(els: seq<Element>, nodes: seq<Node>, nb: Neighbours, start: seq<int>, level: int,
                        y: int, i: int, x: int, jj: int)
  {
    0 <= y < |start| && start[y] == level && y < |els| && Live(els[y])
    && CrossesBefore(els, nodes, nb, y, i, x, jj)
  }

  /**
   * Round `level` has reached `x` once it has visited the elements below
   * `y0`, the edges of `y0` below `i0` and the first `j0` neighbours across
   * edge `i0` of `y0`.
   */
  ghost predicate ReachedBefore(els: seq<Element>, nodes: seq<Node>, nb: Neighbours, start: seq<int>, level: int,
                                y0: int, i0: int, j0: int, x: int)
  {
    (exists y, i :: 0 <= y < y0 && HitBy(els, nodes, nb, start, level, y, i, x, |Across(nb, y, i)|))
    || (exists i :: 0 <= i < i0 && HitBy(els, nodes, nb, start, level, y0, i, x, |Across(nb, y0, i)|))
    || HitBy(els, nodes, nb, start, level, y0, i0, x, j0)
  }

  /**
   * The levels part way through round `level`, which began with `start`:
   * every element reached so far that had no level has level `level + 1`.
   */
  ghost function Progress(els: seq<Element>, nodes: seq<Node>, nb: Neighbours, start: seq<int>, level: int,
                          y0: int, i0: int, j0: int): (r: seq<int>)
    ensures |r| == |start|
  {
    seq(|start|, x requires 0 <= x < |start| =>
      if start[x] <= 0 && ReachedBefore(els, nodes, nb, start, level, y0, i0, j0, x) then level + 1 else start[x])
  }

  /** Round `level` over the elements below `n`: the value of the level array after it. */
  ghost function Grow(els: seq<Element>, nodes: seq<Node>, nb: Neighbours, n: int, start: seq<int>, level: int): (r: seq<int>)
    ensures |r| == |start|
  {
    Progress(els, nodes, nb, start, level, n, 0, 0)
  }

  /** The initial levels: 1 for the live elements below `n` carrying one of `targets`, else 0. */
  ghost function Seeds(els: seq<Element>, n: int, targets: seq<int>): (r: seq<int>)
    ensures |r| == |els|
    ensures forall x :: 0 <= x < |r| ==> r[x] == 0 || r[x] == 1
  {
    seq(|els|, x requires 0 <= x < |els| => if x < n && Live(els[x]) && els[x].marker in targets then 1 else 0)
  }

  /** The levels after the rounds 1 .. k. */
  ghost function Layers(els: seq<Element>, nodes: seq<Node>, nb: Neighbours, n: int, seeds: seq<int>, k: nat): (r: seq<int>)
    ensures |r| == |seeds|
  {
    if k == 0 then seeds else Grow(els, nodes, nb, n, Layers(els, nodes, nb, n, seeds, k - 1), k)
  }

  /**
   * After k rounds every level lies in 0 .. k + 1, a level never changes
   * once set, and level 1 is exactly the seeds.
   */
  lemma {:induction false} LayersBounds(els: seq<Element>, nodes: seq<Node>, nb: Neighbours, n: int, seeds: seq<int>, k: nat)
    requires forall x :: 0 <= x < |seeds| ==> seeds[x] == 0 || seeds[x] == 1
    ensures forall x :: 0 <= x < |seeds| ==> 0 <= Layers(els, nodes, nb, n, seeds, k)[x] <= k + 1
    ensures forall x :: 0 <= x < |seeds| ==> (Layers(els, nodes, nb, n, seeds, k)[x] == 1 <==> seeds[x] == 1)
    ensures forall x :: 0 <= x < |seeds| && seeds[x] == 1 ==> Layers(els, nodes, nb, n, seeds, k)[x] == 1
  {
    if k > 0 {
      LayersBounds(els, nodes, nb, n, seeds, k - 1);
    }
  }

  /** A level, once set, survives the later rounds. */
  lemma {:induction false} LayersKeep(els: seq<Element>, nodes: seq<Node>, nb: Neighbours, n: int, seeds: seq<int>,
                                      k: nat, k': nat, x: int)
    requires k <= k' && 0 <= x < |seeds| && Layers(els, nodes, nb, n, seeds, k)[x] > 0
    ensures Layers(els, nodes, nb, n, seeds, k')[x] == Layers(els, nodes, nb, n, seeds, k)[x]
    decreases k' - k
  {
    if k < k' {
      LayersKeep(els, nodes, nb, n, seeds, k, k' - 1, x);
    }
  }

  /** A round changes only levels it sets, to `level + 1`, from a live element at `level` below `n`. */
  lemma GrowReached(els: seq<Element>, nodes: seq<Node>, nb: Neighbours, n: int, start: seq<int>, level: int, x: int)
    requires 0 <= x < |start| && Grow(els, nodes, nb, n, start, level)[x] != start[x]
    ensures start[x] <= 0 && Grow(els, nodes, nb, n, start, level)[x] == level + 1
    ensures exists y, i :: 0 <= y < n && HitBy(els, nodes, nb, start, level, y, i, x, |Across(nb, y, i)|)
  {
    assert ReachedBefore(els, nodes, nb, start, level, n, 0, 0, x);
  }

  /**
   * Soundness of the search: an element at level l >= 2 lies across an
   * interior edge of a live element below `n` at level l - 1.
   */
  lemma {:induction false} LayersSound(els: seq<Element>, nodes: seq<Node>, nb: Neighbours, n: int, seeds: seq<int>,
                                       k: nat, x: int)
    requires forall z :: 0 <= z < |seeds| ==> seeds[z] == 0 || seeds[z] == 1
    requires 0 <= x < |seeds| && Layers(els, nodes, nb, n, seeds, k)[x] >= 2
    ensures exists y, i ::
      0 <= y < n && y < |seeds| && Crosses(els, nodes, nb, y, i, x) && Live(els[y])
      && Layers(els, nodes, nb, n, seeds, k)[y] == Layers(els, nodes, nb, n, seeds, k)[x] - 1
  {
    LayersBounds(els, nodes, nb, n, seeds, k);
    if k == 0 {
      assert false;
    } else {
      var prev := Layers(els, nodes, nb, n, seeds, k - 1);
      var cur := Layers(els, nodes, nb, n, seeds, k);
      assert cur == Grow(els, nodes, nb, n, prev, k);
      var y, i;
      if prev[x] > 0 {
        assert cur[x] == prev[x];
        LayersSound(els, nodes, nb, n, seeds, k - 1, x);
        y, i :| 0 <= y < n && y < |seeds| && Crosses(els, nodes, nb, y, i, x) && Live(els[y]) && prev[y] == prev[x] - 1;
      } else {
        GrowReached(els, nodes, nb, n, prev, k, x);
        y, i :| 0 <= y < n && HitBy(els, nodes, nb, prev, k, y, i, x, |Across(nb, y, i)|);
      }
      LayersKeep(els, nodes, nb, n, seeds, k - 1, k, y);
      assert cur[y] == cur[x] - 1 && Crosses(els, nodes, nb, y, i, x);
    }
  }

  /**
   * Completeness of the search: every element across an interior edge of a
   * live element below `n` at level l <= k has a level, at most l + 1.
   */
  lemma {:induction false} LayersComplete(els: seq<Element>, nodes: seq<Node>, nb: Neighbours, n: int, seeds: seq<int>,
                                          k: nat, y: int, i: int, x: int)
    requires forall z :: 0 <= z < |seeds| ==> seeds[z] == 0 || seeds[z] == 1
    requires 0 <= y < n && y < |seeds| && 0 <= x < |seeds| && Crosses(els, nodes, nb, y, i, x) && Live(els[y])
    requires 1 <= Layers(els, nodes, nb, n, seeds, k)[y] <= k
    ensures 1 <= Layers(els, nodes, nb, n, seeds, k)[x] <= Layers(els, nodes, nb, n, seeds, k)[y] + 1
  {
    LayersBounds(els, nodes, nb, n, seeds, k);
    if k > 0 {
      var prev := Layers(els, nodes, nb, n, seeds, k - 1);
      LayersBounds(els, nodes, nb, n, seeds, k - 1);
      if prev[y] <= 0 {
        assert false;
      } else if prev[y] <= k - 1 {
        LayersComplete(els, nodes, nb, n, seeds, k - 1, y, i, x);
        LayersKeep(els, nodes, nb, n, seeds, k - 1, k, x);
      } else {
        assert HitBy(els, nodes, nb, prev, k, y, i, x, |Across(nb, y, i)|);
        assert ReachedBefore(els, nodes, nb, prev, k, n, 0, 0, x);
      }
    }
  }

  /** The search state against the elements and nodes `els0`, `nodes0` it started from. */
  ghost predicate ShellState(els0: seq<Element>, nodes0: seq<Node>, els: seq<Element>, nodes: seq<Node>,
                             local: seq<int>, shell: seq<int>, marker1: int, volume: int)
  {
    |els| == |els0| && |local| == |els0|
    && (forall x :: 0 <= x < |els0| ==> els[x] == if local[x] >= 2 then els0[x].(marker := volume) else els0[x])
    && OnlyMarked(nodes0, nodes, marker1)
    && (forall x :: 0 <= x < |local| ==> local[x] >= 0)
    && (forall x :: x in shell <==> 0 <= x < |local| && local[x] >= 2)
    && Distinct(shell)
  }

  /** `nodes` is `nodes0` with the markers of some nodes set to `mk`. */
  ghost predicate OnlyMarked(nodes0: seq<Node>, nodes: seq<Node>, mk: int)
  {
    |nodes| == |nodes0| && forall z :: 0 <= z < |nodes| ==> nodes[z] == nodes0[z] || nodes[z] == nodes0[z].(marker := mk)
  }

  /** One more neighbour of the round's progress: a neighbour without a level gets `level + 1`. */
  lemma NeighbourStep(els: seq<Element>, nodes: seq<Node>, nb: Neighbours, start: seq<int>, level: int,
                      y: int, i: int, j: int, local: seq<int>)
    requires 0 <= y < |start| && start[y] == level && y < |els| && Live(els[y])
    requires 0 <= i < |els[y].vn| && i < |els[y].en| && 0 <= els[y].en[i] < |nodes| && !nodes[els[y].en[i]].bnd
    requires 0 <= j < |Across(nb, y, i)| && 0 <= Across(nb, y, i)[j].0 < |start|
    requires local == Progress(els, nodes, nb, start, level, y, i, j)
    ensures var x := Across(nb, y, i)[j].0;
      Progress(els, nodes, nb, start, level, y, i, j + 1) == if local[x] > 0 then local else local[x := level + 1]
  {
    var x := Across(nb, y, i)[j].0;
    var next := Progress(els, nodes, nb, start, level, y, i, j + 1);
    assert HitBy(els, nodes, nb, start, level, y, i, x, j + 1);
    forall z | 0 <= z < |start|
      ensures ReachedBefore(els, nodes, nb, start, level, y, i, j + 1, z) <==>
        ReachedBefore(els, nodes, nb, start, level, y, i, j, z) || z == x
    {
      if HitBy(els, nodes, nb, start, level, y, i, z, j + 1) && z != x {
        var j' :| 0 <= j' < j + 1 && j' < |Across(nb, y, i)| && Across(nb, y, i)[j'].0 == z;
        assert HitBy(els, nodes, nb, start, level, y, i, z, j);
      }
    }
  }

  /** Before a round has visited anything, the levels are those it began with. */
  lemma ProgressStart(els: seq<Element>, nodes: seq<Node>, nb: Neighbours, start: seq<int>, level: int)
    ensures Progress(els, nodes, nb, start, level, 0, 0, 0) == start
  {
  }

  /**
   * The round leaves edge `i` of `y` for edge i + 1 once it has visited
   * every neighbour across it, or at once when the edge reaches nothing.
   */
  lemma EdgeStep(els: seq<Element>, nodes: seq<Node>, nb: Neighbours, start: seq<int>, level: int, y: int, i: int, jj: int)
    requires 0 <= jj <= |Across(nb, y, i)|
    requires jj == |Across(nb, y, i)| || forall x :: !HitBy(els, nodes, nb, start, level, y, i, x, |Across(nb, y, i)|)
    ensures Progress(els, nodes, nb, start, level, y, i, jj) == Progress(els, nodes, nb, start, level, y, i + 1, 0)
  {
    forall x | 0 <= x < |start|
      ensures ReachedBefore(els, nodes, nb, start, level, y, i, jj, x) <==>
        ReachedBefore(els, nodes, nb, start, level, y, i + 1, 0, x)
    {
      if HitBy(els, nodes, nb, start, level, y, i, x, jj) {
        var j :| 0 <= j < jj && j < |Across(nb, y, i)| && Across(nb, y, i)[j].0 == x;
        assert HitBy(els, nodes, nb, start, level, y, i, x, |Across(nb, y, i)|);
      }
    }
  }

  /**
   * The round leaves element `y` for y + 1 once it has visited every edge
   * of it, or at once when `y` is not visited.
   */
  lemma ElementStep(els: seq<Element>, nodes: seq<Node>, nb: Neighbours, start: seq<int>, level: int, y: int, i0: int)
    requires 0 <= y < |els| && 0 <= i0 <= |els[y].vn|
    requires i0 == |els[y].vn| || !(y < |start| && start[y] == level && Live(els[y]))
    ensures Progress(els, nodes, nb, start, level, y, i0, 0) == Progress(els, nodes, nb, start, level, y + 1, 0, 0)
  {
    forall x | 0 <= x < |start|
      ensures ReachedBefore(els, nodes, nb, start, level, y, i0, 0, x) <==>
        ReachedBefore(els, nodes, nb, start, level, y + 1, 0, 0, x)
    {
      if exists y', i :: 0 <= y' < y + 1 && HitBy(els, nodes, nb, start, level, y', i, x, |Across(nb, y', i)|) {
        var y', i :| 0 <= y' < y + 1 && HitBy(els, nodes, nb, start, level, y', i, x, |Across(nb, y', i)|);
        if y' == y {
          assert 0 <= i < i0;
        }
      }
    }
  }

  /** Two rounds of marker writes with the same marker are one. */
  lemma OnlyMarkedTrans(nodes0: seq<Node>, nodes1: seq<Node>, nodes2: seq<Node>, mk: int)
    requires OnlyMarked(nodes0, nodes1, mk) && OnlyMarked(nodes1, nodes2, mk)
    ensures OnlyMarked(nodes0, nodes2, mk)
  {
  }

  /** A neighbour `x` without a level joining the shell at level `level + 1` keeps the search state. */
  lemma ShellStateClaim(els0: seq<Element>, nodes0: seq<Node>, els: seq<Element>, nodes: seq<Node>,
                        els': seq<Element>, nodes': seq<Node>, local: seq<int>, shell: seq<int>,
                        x: int, level: int, marker1: int, volume: int)
    requires ShellState(els0, nodes0, els, nodes, local, shell, marker1, volume)
    requires 0 <= x < |local| && local[x] <= 0 && level >= 1
    requires els' == els[x := els[x].(marker := volume)] && OnlyMarked(nodes, nodes', marker1)
    ensures ShellState(els0, nodes0, els', nodes', local[x := level + 1], shell + [x], marker1, volume)
  {
    OnlyMarkedTrans(nodes0, nodes, nodes', marker1);
  }

  /**
   * The writes for a neighbour `x` the search reaches across edge `i` of
   * `y`: the edge nodes on both sides take `marker1`, `x` takes `volume`.
   */
  method Claim(m: Mesh, y: int, i: int, x: int, k: int, marker1: int, volume: int)
    requires m.Valid() && 0 <= y < |m.elements| && 0 <= i < |m.elements[y].en|
    requires 0 <= x < |m.elements| && 0 <= k < |m.elements[x].en|
    modifies m
    ensures m.Valid() && OnlyMarked(old(m.nodes), m.nodes, marker1)
    ensures m.elements == old(m.elements)[x := old(m.elements[x]).(marker := volume)]
    ensures m.vertexTable == old(m.vertexTable) && m.edgeTable == old(m.edgeTable) && m.Counters() == old(m.Counters())
  {
    assert ElementOk(m.nodes, m.elements, y) && ElementOk(m.nodes, m.elements, x);
    var a, b := m.elements[y].en[i], m.elements[x].en[k];
    assert a in m.elements[y].en && b in m.elements[x].en;
    m.SetNodeMarker(a, marker1);
    m.SetNodeMarker(b, marker1);
    m.SetElementMarker(x, volume);
  }

  /**
   * The loop over the neighbours across edge `i` of `y`, a live element at
   * level `level` when the round began: each neighbour without a level
   * joins the shell at level `level + 1`.
   */
  method ShellEdge(m: Mesh, ghost els0: seq<Element>, ghost nodes0: seq<Node>, nb: Neighbours, ghost start: seq<int>,
                   level: int, y: int, i: int, local0: seq<int>, shell0: seq<int>, marker1: int, volume: int)
    returns (local: seq<int>, shell: seq<int>)
    requires m.Valid() && NeighboursFit(els0, nb) && level >= 1
    requires ShellState(els0, nodes0, m.elements, m.nodes, local0, shell0, marker1, volume)
    requires |start| == |els0| && 0 <= y < |els0| && start[y] == level && Live(els0[y])
    requires 0 <= i < |els0[y].vn| && i < |els0[y].en| && 0 <= els0[y].en[i] < |nodes0| && !nodes0[els0[y].en[i]].bnd
    requires local0 == Progress(els0, nodes0, nb, start, level, y, i, 0)
    modifies m
    ensures m.Valid() && ShellState(els0, nodes0, m.elements, m.nodes, local, shell, marker1, volume)
    ensures local == Progress(els0, nodes0, nb, start, level, y, i + 1, 0)
    ensures m.vertexTable == old(m.vertexTable) && m.edgeTable == old(m.edgeTable) && m.Counters() == old(m.Counters())
  {
    local, shell := local0, shell0;
    var across := Across(nb, y, i);
    for j := 0 to |across|
      invariant m.Valid() && ShellState(els0, nodes0, m.elements, m.nodes, local, shell, marker1, volume)
      invariant local == Progress(els0, nodes0, nb, start, level, y, i, j)
      invariant m.vertexTable == old(m.vertexTable) && m.edgeTable == old(m.edgeTable) && m.Counters() == old(m.Counters())
    {
      var x, k := across[j].0, across[j].1;
      assert (y, i) in nb;
      assert 0 <= x < |els0| && 0 <= k < |els0[x].en|;
      NeighbourStep(els0, nodes0, nb, start, level, y, i, j, local);
      if local[x] > 0 {
        continue;
      }
      ghost var els1, nodes1 := m.elements, m.nodes;
      Claim(m, y, i, x, k, marker1, volume);
      ShellStateClaim(els0, nodes0, els1, nodes1, m.elements, m.nodes, local, shell, x, level, marker1, volume);
      shell := shell + [x];
      local := local[x := level + 1];
    }
    EdgeStep(els0, nodes0, nb, start, level, y, i, |across|);
  }

  /** The visit of `y`, a live element at level `level` when the round began: its interior edges in order. */
  method ShellVisit(m: Mesh, ghost els0: seq<Element>, ghost nodes0: seq<Node>, nb: Neighbours, ghost start: seq<int>,
                    level: int, y: int, local0: seq<int>, shell0: seq<int>, marker1: int, volume: int)
    returns (local: seq<int>, shell: seq<int>)
    requires m.Valid() && NeighboursFit(els0, nb) && level >= 1
    requires ShellState(els0, nodes0, m.elements, m.nodes, local0, shell0, marker1, volume)
    requires |start| == |els0| && 0 <= y < |els0| && start[y] == level && Live(els0[y])
    requires local0 == Progress(els0, nodes0, nb, start, level, y, 0, 0)
    modifies m
    ensures m.Valid() && ShellState(els0, nodes0, m.elements, m.nodes, local, shell, marker1, volume)
    ensures local == Progress(els0, nodes0, nb, start, level, y + 1, 0, 0)
    ensures m.vertexTable == old(m.vertexTable) && m.edgeTable == old(m.edgeTable) && m.Counters() == old(m.Counters())
  {
    local, shell := local0, shell0;
    var el := m.elements[y];
    assert ElementOk(m.nodes, m.elements, y);
    assert el.vn == els0[y].vn && el.en == els0[y].en;
    assert forall i :: 0 <= i < |el.en| ==> 0 <= el.en[i] < |nodes0| by {
      forall i | 0 <= i < |el.en| ensures 0 <= el.en[i] < |nodes0| {
        assert el.en[i] in el.en;
      }
    }
    for i := 0 to |el.vn|
      invariant m.Valid() && ShellState(els0, nodes0, m.elements, m.nodes, local, shell, marker1, volume)
      invariant local == Progress(els0, nodes0, nb, start, level, y, i, 0)
      invariant m.vertexTable == old(m.vertexTable) && m.edgeTable == old(m.edgeTable) && m.Counters() == old(m.Counters())
    {
      var z := el.en[i];
      assert m.nodes[z].bnd == nodes0[z].bnd;
      if m.nodes[z].bnd {
        EdgeStep(els0, nodes0, nb, start, level, y, i, 0);
        continue;
      }
      local, shell := ShellEdge(m, els0, nodes0, nb, start, level, y, i, local, shell, marker1, volume);
    }
    ElementStep(els0, nodes0, nb, start, level, y, |el.vn|);
  }

  /**
   * One round of the search: the level array is copied, then the live
   * elements below `n` at level `level` in the copy are visited in id order.
   */
  method ShellLevel(m: Mesh, ghost els0: seq<Element>, ghost nodes0: seq<Node>, nb: Neighbours, n: int,
                    ghost seeds: seq<int>, level: int, local0: seq<int>, shell0: seq<int>, marker1: int, volume: int)
    returns (local: seq<int>, shell: seq<int>)
    requires m.Valid() && NeighboursFit(els0, nb) && level >= 1 && 0 <= n <= |els0|
    requires ShellState(els0, nodes0, m.elements, m.nodes, local0, shell0, marker1, volume)
    requires local0 == Layers(els0, nodes0, nb, n, seeds, level - 1)
    modifies m
    ensures m.Valid() && ShellState(els0, nodes0, m.elements, m.nodes, local, shell, marker1, volume)
    ensures local == Layers(els0, nodes0, nb, n, seeds, level)
    ensures m.vertexTable == old(m.vertexTable) && m.edgeTable == old(m.edgeTable) && m.Counters() == old(m.Counters())
  {
    var start := local0;
    local, shell := local0, shell0;
    ProgressStart(els0, nodes0, nb, start, level);
    for y := 0 to n
      invariant m.Valid() && ShellState(els0, nodes0, m.elements, m.nodes, local, shell, marker1, volume)
      invariant local == Progress(els0, nodes0, nb, start, level, y, 0, 0)
      invariant m.vertexTable == old(m.vertexTable) && m.edgeTable == old(m.edgeTable) && m.Counters() == old(m.Counters())
    {
      assert Live(m.elements[y]) == Live(els0[y]);
      if Live(m.elements[y]) && start[y] == level {
        local, shell := ShellVisit(m, els0, nodes0, nb, start, level, y, local, shell, marker1, volume);
      } else {
        ElementStep(els0, nodes0, nb, start, level, y, 0);
      }
    }
  }

  /** The rounds 1 .. `levels` of the search. */
  method ShellLevels(m: Mesh, ghost els0: seq<Element>, ghost nodes0: seq<Node>, nb: Neighbours, n: int,
                     levels: int, seeds: seq<int>, marker1: int, volume: int)
    returns (local: seq<int>, shell: seq<int>)
    requires m.Valid() && NeighboursFit(els0, nb) && levels >= 1 && 0 <= n <= |els0|
    requires ShellState(els0, nodes0, m.elements, m.nodes, seeds, [], marker1, volume)
    modifies m
    ensures m.Valid() && ShellState(els0, nodes0, m.elements, m.nodes, local, shell, marker1, volume)
    ensures local == Layers(els0, nodes0, nb, n, seeds, levels)
    ensures m.vertexTable == old(m.vertexTable) && m.edgeTable == old(m.edgeTable) && m.Counters() == old(m.Counters())
  {
    local, shell := seeds, [];
    for level := 1 to levels + 1
      invariant m.Valid() && ShellState(els0, nodes0, m.elements, m.nodes, local, shell, marker1, volume)
      invariant local == Layers(els0, nodes0, nb, n, seeds, level - 1)
      invariant m.vertexTable == old(m.vertexTable) && m.edgeTable == old(m.edgeTable) && m.Counters() == old(m.Counters())
    {
      local, shell := ShellLevel(m, els0, nodes0, nb, n, seeds, level, local, shell, marker1, volume);
    }
  }

  /** The loop that tests an element marker against the requested ones, stopping at the first match. */
  method Listed(targets: seq<int>, mk: int) returns (found: bool)
    ensures found <==> mk in targets
  {
    found := false;
    for i := 0 to |targets|
      invariant mk !in targets[..i]
    {
      if targets[i] == mk {
        found := true;
        return;
      }
      assert targets[..i + 1] == targets[..i] + [targets[i]];
    }
    assert targets[..|targets|] == targets;
  }

  /** The internal forms of the requested user markers. */
  function Targets(conv: Markers.MarkersConversion, markers: seq<string>): (t: seq<int>)
    reads conv
    requires conv.Valid()
    ensures |t| == |markers|
    ensures forall i :: 0 <= i < |markers| ==> t[i] == conv.GetInternalMarker(markers[i]).marker
  {
    if markers == [] then []
    else Targets(conv, markers[..|markers| - 1]) + [conv.GetInternalMarker(markers[|markers| - 1]).marker]
  }

  /**
   * The lookup loop of `get_egg_shell_structures`: the internal form of
   * every requested marker, or failure at the first one the element table
   * does not know.
   */
  method ReadTargets(conv: Markers.MarkersConversion, markers: seq<string>) returns (ok: bool, targets: seq<int>)
    requires conv.Valid()
    ensures ok <==> forall i :: 0 <= i < |markers| ==> conv.GetInternalMarker(markers[i]).valid
    ensures ok ==> targets == Targets(conv, markers)
  {
    targets := [];
    for i := 0 to |markers|
      invariant targets == Targets(conv, markers[..i])
      invariant forall j :: 0 <= j < i ==> conv.GetInternalMarker(markers[j]).valid
    {
      var k := conv.GetInternalMarker(markers[i]);
      if !k.valid {
        return false, targets;
      }
      targets := targets + [k.marker];
      assert markers[..i + 1] == markers[..i] + [markers[i]];
    }
    assert markers[..|markers|] == markers;
    ok := true;
  }

  /**
   * The initial level array: 1 for the live elements below `n` whose
   * marker is requested, 0 for every other element.
   */
  method SeedLevels(els: seq<Element>, n: int, targets: seq<int>) returns (local: seq<int>)
    requires 0 <= n <= |els|
    ensures local == Seeds(els, n, targets)
  {
    local := seq(|els|, _ => 0);
    for id := 0 to n
      invariant |local| == |els|
      invariant forall x :: 0 <= x < |els| ==>
        local[x] == if x < id && Live(els[x]) && els[x].marker in targets then 1 else 0
    {
      if Live(els[id]) {
        var hit := Listed(targets, els[id].marker);
        if hit {
          local := local[id := 1];
        }
      }
    }
  }

  /**
   * The head of `get_egg_shell_structures`: `Eggshell-1` and
   * `Eggshell-inner` join the boundary markers, `Eggshell` the element
   * markers, each keeping the int it had if it was already there.
   */
  method RegisterShellMarkers(m: Mesh) returns (marker1: int, volume: int)
    requires m.elementMarkers.Valid() && m.boundaryMarkers.Valid() && m.elementMarkers != m.boundaryMarkers
    modifies m.elementMarkers, m.boundaryMarkers
    ensures m.elementMarkers.Valid() && m.boundaryMarkers.Valid()
    ensures marker1 == m.boundaryMarkers.GetInternalMarker(EggShell1).marker
    ensures EggShell1 in m.boundaryMarkers.inverse && EggShellInner in m.boundaryMarkers.inverse
    ensures volume == m.elementMarkers.GetInternalMarker(EggShellVolume).marker
    ensures EggShellVolume in m.elementMarkers.inverse
  {
    marker1 := m.boundaryMarkers.InsertMarker(EggShell1);
    var inner := m.boundaryMarkers.InsertMarker(EggShellInner);
    volume := m.elementMarkers.InsertMarker(EggShellVolume);
  }

  /**
   * `get_egg_shell_structures`.  The boundary markers `Eggshell-1` and
   * `Eggshell-inner` and the element marker `Eggshell` are registered
   * first; then `levels < 1` fails, and so does a requested marker the
   * element table does not know.  Otherwise the rounds 1 .. `levels` of the
   * search run over the live elements: `local` is the level array after
   * them, `shell` lists the elements found, each once, and exactly those
   * at level 2 or more; they carry the `Eggshell` marker, and the only node
   * changes are edge markers set to `Eggshell-1`.
   */
  method EggShellStructures(m: Mesh, markers: seq<string>, levels: int, nb: Neighbours)
    returns (r: Outcome, local: seq<int>, shell: seq<int>, marker1: int, volume: int)
    requires m.Valid() && m.elementMarkers.Valid() && m.boundaryMarkers.Valid()
    requires m.elementMarkers != m.boundaryMarkers
    requires NeighboursFit(m.elements, nb) && NeighboursLive(m.elements, nb)
    modifies m, m.elementMarkers, m.boundaryMarkers
    ensures m.Valid() && m.elementMarkers.Valid() && m.boundaryMarkers.Valid()
    ensures marker1 == m.boundaryMarkers.GetInternalMarker(EggShell1).marker
    ensures EggShell1 in m.boundaryMarkers.inverse && EggShellInner in m.boundaryMarkers.inverse
    ensures EggShellVolume in m.elementMarkers.inverse
    ensures volume == m.elementMarkers.GetInternalMarker(EggShellVolume).marker
    ensures r == Fail(LevelsTooSmall) <==> levels < 1
    ensures levels >= 1 ==>
      (r == Fail(UnknownMarker) <==> exists i :: 0 <= i < |markers| && !m.elementMarkers.GetInternalMarker(markers[i]).valid)
    ensures r.Fail? ==> r.error in {LevelsTooSmall, UnknownMarker} && m.elements == old(m.elements) && m.nodes == old(m.nodes)
    ensures r.Pass? ==>
      local == Layers(old(m.elements), old(m.nodes), nb, ScanEnd(m), Seeds(old(m.elements), ScanEnd(m), Targets(m.elementMarkers, markers)), levels)
    ensures r.Pass? ==> ShellState(old(m.elements), old(m.nodes), m.elements, m.nodes, local, shell, marker1, volume)
    ensures r.Pass? ==> forall x :: x in shell ==> 0 <= x < |m.elements| && Live(m.elements[x])
    ensures m.vertexTable == old(m.vertexTable) && m.edgeTable == old(m.edgeTable) && m.Counters() == old(m.Counters())
    ensures old(m.Counted()) ==> m.Counted()
  {
    marker1, volume := RegisterShellMarkers(m);
    local, shell := [], [];
    if levels < 1 {
      return Fail(LevelsTooSmall), local, shell, marker1, volume;
    }
    var ok, targets := ReadTargets(m.elementMarkers, markers);
    if !ok {
      return Fail(UnknownMarker), local, shell, marker1, volume;
    }
    local, shell := ShellSearch(m, targets, levels, nb, marker1, volume);
    r := Pass;
  }

  /**
   * The search of `get_egg_shell_structures` once the markers are known:
   * the seeds are the live elements carrying one of `targets`.
   */
  method ShellSearch(m: Mesh, targets: seq<int>, levels: int, nb: Neighbours, marker1: int, volume: int)
    returns (local: seq<int>, shell: seq<int>)
    requires m.Valid() && levels >= 1
    requires NeighboursFit(m.elements, nb) && NeighboursLive(m.elements, nb)
    modifies m
    ensures m.Valid()
    ensures local == Layers(old(m.elements), old(m.nodes), nb, ScanEnd(m), Seeds(old(m.elements), ScanEnd(m), targets), levels)
    ensures ShellState(old(m.elements), old(m.nodes), m.elements, m.nodes, local, shell, marker1, volume)
    ensures forall x :: x in shell ==> 0 <= x < |m.elements| && Live(m.elements[x])
    ensures m.vertexTable == old(m.vertexTable) && m.edgeTable == old(m.edgeTable) && m.Counters() == old(m.Counters())
    ensures old(m.Counted()) ==> m.Counted()
  {
    ghost var els0, nodes0 := m.elements, m.nodes;
    var n := ScanEnd(m);
    var seeds := SeedLevels(m.elements, n, targets);
    local, shell := ShellLevels(m, els0, nodes0, nb, n, levels, seeds, marker1, volume);
    forall x | x in shell ensures 0 <= x < |m.elements| && Live(m.elements[x]) {
      LayersSound(els0, nodes0, nb, n, seeds, levels, x);
    }
    ActiveCountSameLive(els0, m.elements);
  }
}
