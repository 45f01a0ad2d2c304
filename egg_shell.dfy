/**
 * The end of `EggShell::make_egg_shell_mesh` (the loop that marks the
 * edges of the pruned mesh), `EggShell::fix_markers` and the two
 * `EggShell::get_egg_shell` entry points in hermes2d/src/mesh/mesh.cpp.
 */
module EggShellMesh {
  import opened MeshData
  import opened MeshModel
  import opened RefineApi
  import opened ParentMap
  import opened EggShellLevels
  import opened EggShellPrune
  import Markers

  /**
   * How the edge-marking loop may change one node: only its marker and its
   * boundary flag; a boundary node stays as it is; a node marked
   * `Eggshell-inner` stays so or becomes boundary; a marker changes only to
   * `Eggshell-inner` or `Eggshell-0`; and an edge node that becomes
   * boundary carries `Eggshell-1` or `Eggshell-0`.
   */
  predicate SealedNode(a: Node, b: Node, inner: int, marker1: int, marker0: int)
  {
    && b == a.(marker := b.marker, bnd := b.bnd)
    && (a.bnd ==> b == a)
    && (a.marker == inner ==> b.bnd || b.marker == inner)
    && (b.marker != a.marker ==> b.marker == inner || b.marker == marker0)
    && (b.kind == EdgeNode && b.bnd && !a.bnd ==> b.marker == marker1 || b.marker == marker0)
  }

  ghost predicate Sealing(nodes0: seq<Node>, nodes: seq<Node>, inner: int, marker1: int, marker0: int)
  {
    |nodes| == |nodes0| && forall z :: 0 <= z < |nodes0| ==> SealedNode(nodes0[z], nodes[z], inner, marker1, marker0)
  }

  lemma SealingTrans(a: seq<Node>, b: seq<Node>, c: seq<Node>, inner: int, marker1: int, marker0: int)
    requires Sealing(a, b, inner, marker1, marker0) && Sealing(b, c, inner, marker1, marker0)
    ensures Sealing(a, c, inner, marker1, marker0)
  {
    forall z | 0 <= z < |a| ensures SealedNode(a[z], c[z], inner, marker1, marker0) {
      assert SealedNode(a[z], b[z], inner, marker1, marker0) && SealedNode(b[z], c[z], inner, marker1, marker0);
    }
  }

  /** Node `z` is on the new boundary or marked as facing the shell. */
  predicate Covered(nodes: seq<Node>, z: int, inner: int)
  {
    0 <= z < |nodes| && (nodes[z].bnd || nodes[z].marker == inner)
  }

  /** Every edge of `el` is covered. */
  ghost predicate EdgesCovered(nodes: seq<Node>, el: Element, inner: int)
  {
    forall i :: 0 <= i < |el.vn| && i < |el.en| ==> Covered(nodes, el.en[i], inner)
  }

  lemma CoveredKept(a: seq<Node>, b: seq<Node>, z: int, inner: int, marker1: int, marker0: int)
    requires Sealing(a, b, inner, marker1, marker0) && Covered(a, z, inner)
    ensures Covered(b, z, inner)
  {
    assert SealedNode(a[z], b[z], inner, marker1, marker0);
  }

  /** The nodes edge `i` of `el` names exist. */
  predicate EdgeInRange(nodes: seq<Node>, el: Element, i: int)
  {
    0 <= i < |el.vn| && i < |el.en| && 0 <= el.en[i] < |nodes|
    && 0 <= el.vn[i] < |nodes| && 0 <= el.vn[(i + 1) % |el.vn|] < |nodes|
  }

  /** Some neighbour across edge `i` of `x` carries the `Eggshell` element marker. */
  ghost predicate VolumeNeighbour(els: seq<Element>, nb: Neighbours, x: int, i: int, volume: int)
  {
    exists j :: 0 <= j < |Across(nb, x, i)| && 0 <= Across(nb, x, i)[j].0 < |els| && els[Across(nb, x, i)[j].0].marker == volume
  }

  /**
   * One edge of the marking loop: an edge that is not yet boundary takes
   * `Eggshell-inner` when a neighbour is in the volume, otherwise
   * `Eggshell-0` unless it carries `Eggshell-1`; an edge left with
   * `Eggshell-1` or `Eggshell-0` becomes boundary with both its ends.
   */
  function SealedEdge(nodes: seq<Node>, el: Element, i: int, toVolume: bool, inner: int, marker1: int, marker0: int): (r: seq<Node>)
    requires EdgeInRange(nodes, el, i)
    ensures |r| == |nodes|
  {
    var z := el.en[i];
    if nodes[z].bnd then nodes
    else
      var mk := if toVolume then inner else if nodes[z].marker != marker1 then marker0 else nodes[z].marker;
      var n1 := nodes[z := nodes[z].(marker := mk)];
      if mk == marker1 || mk == marker0 then
        var v1, v2 := el.vn[i], el.vn[(i + 1) % |el.vn|];
        var n2 := n1[z := n1[z].(bnd := true)];
        var n3 := n2[v1 := n2[v1].(bnd := true)];
        n3[v2 := n3[v2].(bnd := true)]
      else n1
  }

  /** One edge leaves that edge covered, and changes nodes only as the loop may. */
  lemma SealedEdgeSeals(nodes: seq<Node>, el: Element, i: int, toVolume: bool, inner: int, marker1: int, marker0: int)
    requires EdgeInRange(nodes, el, i) && inner != marker1 && inner != marker0
    requires nodes[el.en[i]].kind == EdgeNode && nodes[el.vn[i]].kind == VertexNode && nodes[el.vn[(i + 1) % |el.vn|]].kind == VertexNode
    ensures Sealing(nodes, SealedEdge(nodes, el, i, toVolume, inner, marker1, marker0), inner, marker1, marker0)
    ensures Covered(SealedEdge(nodes, el, i, toVolume, inner, marker1, marker0), el.en[i], inner)
  {
    var r := SealedEdge(nodes, el, i, toVolume, inner, marker1, marker0);
    forall z | 0 <= z < |nodes| ensures SealedNode(nodes[z], r[z], inner, marker1, marker0) {
    }
  }

  /** The neighbour loop of the marking loop: it stops at the first neighbour in the volume. */
  method FindVolume(m: Mesh, x: int, i: int, nb: Neighbours, volume: int) returns (toVolume: bool)
    requires NeighboursFit(m.elements, nb)
    ensures toVolume <==> VolumeNeighbour(m.elements, nb, x, i, volume)
  {
    var across := Across(nb, x, i);
    toVolume := false;
    var j := 0;
    while j < |across|
      invariant 0 <= j <= |across|
      invariant !toVolume && forall k :: 0 <= k < j ==> m.elements[across[k].0].marker != volume
    {
      if m.elements[across[j].0].marker == volume {
        toVolume := true;
        break;
      }
      j := j + 1;
    }
  }

  /** An edge node and its two ends become boundary. */
  method MarkBoundaryEdge(m: Mesh, z: int, v1: int, v2: int)
    requires m.Valid() && 0 <= z < |m.nodes| && 0 <= v1 < |m.nodes| && 0 <= v2 < |m.nodes|
    modifies m
    ensures m.Valid()
    ensures var n2 := old(m.nodes)[z := old(m.nodes)[z].(bnd := true)];
      var n3 := n2[v1 := n2[v1].(bnd := true)];
      m.nodes == n3[v2 := n3[v2].(bnd := true)]
    ensures m.elements == old(m.elements) && m.vertexTable == old(m.vertexTable) && m.edgeTable == old(m.edgeTable)
    ensures m.Counters() == old(m.Counters())
  {
    m.SetNodeBoundary(z);
    m.SetNodeBoundary(v1);
    m.SetNodeBoundary(v2);
  }

  /** The body of the marking loop for edge `i` of `x`. */
  method SealEdge(m: Mesh, x: int, i: int, nb: Neighbours, inner: int, marker1: int, marker0: int, volume: int)
    requires m.Valid() && 0 <= x < |m.elements| && 0 <= i < |m.elements[x].vn| && NeighboursFit(m.elements, nb)
    modifies m
    ensures m.elements == old(m.elements) && m.vertexTable == old(m.vertexTable) && m.edgeTable == old(m.edgeTable)
    ensures m.Valid() && EdgeInRange(old(m.nodes), m.elements[x], i)
    ensures m.nodes == SealedEdge(old(m.nodes), m.elements[x], i, VolumeNeighbour(m.elements, nb, x, i, volume), inner, marker1, marker0)
    ensures m.Counters() == old(m.Counters())
  {
    assert ElementOk(m.nodes, m.elements, x);
    var el := m.elements[x];
    assert el.en[i] in el.en && el.vn[i] in el.vn && el.vn[(i + 1) % |el.vn|] in el.vn;
    var z := el.en[i];
    if m.nodes[z].bnd {
      return;
    }
    var toVolume := FindVolume(m, x, i, nb, volume);
    var mk := m.nodes[z].marker;
    if toVolume {
      mk := inner;
    } else if mk != marker1 {
      mk := marker0;
    }
    m.SetNodeMarker(z, mk);
    if mk == marker1 || mk == marker0 {
      MarkBoundaryEdge(m, z, el.vn[i], el.vn[(i + 1) % |el.vn|]);
    }
  }

  /** The edges of `x` in the marking loop. */
  method SealElement(m: Mesh, x: int, nb: Neighbours, inner: int, marker1: int, marker0: int, volume: int)
    requires m.Valid() && 0 <= x < |m.elements| && NeighboursFit(m.elements, nb) && inner != marker1 && inner != marker0
    modifies m
    ensures m.elements == old(m.elements) && m.vertexTable == old(m.vertexTable) && m.edgeTable == old(m.edgeTable)
    ensures m.Valid() && m.Counters() == old(m.Counters())
    ensures Sealing(old(m.nodes), m.nodes, inner, marker1, marker0)
    ensures EdgesCovered(m.nodes, m.elements[x], inner)
  {
    ghost var nodes0 := m.nodes;
    assert Sealing(nodes0, nodes0, inner, marker1, marker0);
    for i := 0 to |m.elements[x].vn|
      invariant m.elements == old(m.elements) && m.vertexTable == old(m.vertexTable) && m.edgeTable == old(m.edgeTable)
      invariant m.Valid() && m.Counters() == old(m.Counters())
      invariant Sealing(nodes0, m.nodes, inner, marker1, marker0)
      invariant forall k :: 0 <= k < i && k < |m.elements[x].en| ==> Covered(m.nodes, m.elements[x].en[k], inner)
    {
      ghost var before := m.nodes;
      SealEdge(m, x, i, nb, inner, marker1, marker0, volume);
      SealStep(m, before, x, i, nb, inner, marker1, marker0, volume);
      SealingTrans(nodes0, before, m.nodes, inner, marker1, marker0);
      forall k | 0 <= k < i && k < |m.elements[x].en| ensures Covered(m.nodes, m.elements[x].en[k], inner) {
        CoveredKept(before, m.nodes, m.elements[x].en[k], inner, marker1, marker0);
      }
    }
  }

  /** What one edge of the marking loop does, as `SealedEdgeSeals` states it for the mesh. */
  lemma SealStep(m: Mesh, before: seq<Node>, x: int, i: int, nb: Neighbours, inner: int, marker1: int, marker0: int, volume: int)
    requires m.Valid() && 0 <= x < |m.elements| && 0 <= i < |m.elements[x].vn| && inner != marker1 && inner != marker0
    requires MeshOk(before, m.vertexTable, m.edgeTable, m.elements) && EdgeInRange(before, m.elements[x], i)
    requires m.nodes == SealedEdge(before, m.elements[x], i, VolumeNeighbour(m.elements, nb, x, i, volume), inner, marker1, marker0)
    ensures Sealing(before, m.nodes, inner, marker1, marker0) && Covered(m.nodes, m.elements[x].en[i], inner)
  {
    var el := m.elements[x];
    assert ElementOk(before, m.elements, x);
    assert el.en[i] in el.en && el.vn[i] in el.vn && el.vn[(i + 1) % |el.vn|] in el.vn;
    SealedEdgeSeals(before, el, i, VolumeNeighbour(m.elements, nb, x, i, volume), inner, marker1, marker0);
  }

  lemma EdgesCoveredKept(a: seq<Node>, b: seq<Node>, el: Element, inner: int, marker1: int, marker0: int)
    requires Sealing(a, b, inner, marker1, marker0) && EdgesCovered(a, el, inner)
    ensures EdgesCovered(b, el, inner)
  {
    forall i | 0 <= i < |el.vn| && i < |el.en| ensures Covered(b, el.en[i], inner) {
      CoveredKept(a, b, el.en[i], inner, marker1, marker0);
    }
  }

  /**
   * The marking loop of `make_egg_shell_mesh` over the live elements below
   * `n`: afterwards every edge of each of them is boundary or faces the
   * volume, and the nodes changed only as `Sealing` allows.
   */
  method SealAll(m: Mesh, n: int, nb: Neighbours, inner: int, marker1: int, marker0: int, volume: int)
    requires m.Valid() && 0 <= n <= |m.elements| && NeighboursFit(m.elements, nb) && inner != marker1 && inner != marker0
    modifies m
    ensures m.elements == old(m.elements) && m.vertexTable == old(m.vertexTable) && m.edgeTable == old(m.edgeTable)
    ensures m.Valid() && m.Counters() == old(m.Counters())
    ensures Sealing(old(m.nodes), m.nodes, inner, marker1, marker0)
    ensures forall y :: 0 <= y < n && Live(m.elements[y]) ==> EdgesCovered(m.nodes, m.elements[y], inner)
  {
    ghost var nodes0 := m.nodes;
    assert Sealing(nodes0, nodes0, inner, marker1, marker0);
    for x := 0 to n
      invariant m.elements == old(m.elements) && m.vertexTable == old(m.vertexTable) && m.edgeTable == old(m.edgeTable)
      invariant m.Valid() && m.Counters() == old(m.Counters())
      invariant Sealing(nodes0, m.nodes, inner, marker1, marker0)
      invariant forall y :: 0 <= y < x && Live(m.elements[y]) ==> EdgesCovered(m.nodes, m.elements[y], inner)
    {
      if Live(m.elements[x]) {
        ghost var before := m.nodes;
        SealElement(m, x, nb, inner, marker1, marker0, volume);
        SealingTrans(nodes0, before, m.nodes, inner, marker1, marker0);
        forall y | 0 <= y < x && Live(m.elements[y]) ensures EdgesCovered(m.nodes, m.elements[y], inner) {
          EdgesCoveredKept(before, m.nodes, m.elements[y], inner, marker1, marker0);
        }
      }
    }
  }

  /** The elements after `fix_markers`: each live one below `n` takes back its marker in `original`. */
  function Restored(els: seq<Element>, original: seq<Element>, n: int): (r: seq<Element>)
    requires |original| == |els|
    ensures |r| == |els| && forall d :: 0 <= d < |r| ==> r[d] == els[d].(marker := r[d].marker)
  {
    seq(|els|, d requires 0 <= d < |els| => if d < n && Live(els[d]) then els[d].(marker := original[d].marker) else els[d])
  }

  /** `fix_markers`: every live element below `n` gets the marker of the same element of the original mesh. */
  method FixMarkers(m: Mesh, original: seq<Element>, n: int)
    requires m.Valid() && |original| == |m.elements| && 0 <= n <= |m.elements|
    modifies m
    ensures m.Valid() && m.elements == Restored(old(m.elements), original, n)
    ensures m.nodes == old(m.nodes) && m.vertexTable == old(m.vertexTable) && m.edgeTable == old(m.edgeTable)
    ensures m.Counters() == old(m.Counters())
  {
    ghost var els0 := m.elements;
    for x := 0 to n
      invariant m.Valid() && m.elements == Restored(els0, original, x)
      invariant m.nodes == old(m.nodes) && m.vertexTable == old(m.vertexTable) && m.edgeTable == old(m.edgeTable)
      invariant m.Counters() == old(m.Counters())
    {
      if Live(m.elements[x]) {
        m.SetElementMarker(x, original[x].marker);
      }
      assert m.elements == Restored(els0, original, x + 1);
    }
  }

  /** Distinct strings a table knows have distinct ints. */
  lemma MarkersApart(c: Markers.MarkersConversion, u: string, w: string)
    requires c.Valid() && u != w && u in c.inverse && w in c.inverse && u != Markers.DgInnerEdge && w != Markers.DgInnerEdge
    ensures c.GetInternalMarker(u).marker != c.GetInternalMarker(w).marker
  {
  }

  /** The elements after the two loops of `make_egg_shell_mesh` that reset the `used` flags. */
  ghost function Pruned(els: seq<Element>, n: int, shell: seq<int>): (r: seq<Element>)
    ensures |r| == |els|
  {
    Revived(Retired(els, n), shell, |shell|)
  }

  /** `els'` is `els` with some element markers changed, as the shell search leaves it. */
  ghost predicate ElementsAlike(els: seq<Element>, els': seq<Element>)
  {
    |els'| == |els| && forall x :: 0 <= x < |els| ==> els'[x] == els[x].(marker := els'[x].marker)
  }

  /** Pruning changes only `used` flags, and it reads neither markers nor `used` flags of ancestors it does not reach. */
  lemma PrunedAlike(els: seq<Element>, els': seq<Element>, n: int, shell: seq<int>)
    requires ElementsAlike(els, els')
    ensures forall d :: 0 <= d < |els| ==> Pruned(els, n, shell)[d] == els[d].(used := Pruned(els, n, shell)[d].used)
    ensures ElementsAlike(Pruned(els, n, shell), Pruned(els', n, shell))
  {
    DescendsSame(els, els');
    var r, r' := Retired(els, n), Retired(els', n);
    forall a | 0 <= a < |els| ensures r'[a] == r[a].(marker := r'[a].marker) {
      if RetiredBy(els, n, a) {
        var x :| 0 <= x < n && x < |els| && Live(els[x]) && Descends(els, x, a);
        assert Live(els'[x]) && Descends(els', x, a);
      }
      if RetiredBy(els', n, a) {
        var x :| 0 <= x < n && x < |els'| && Live(els'[x]) && Descends(els', x, a);
        assert Live(els[x]) && Descends(els, x, a);
      }
    }
    DescendsSame(els, r);
    DescendsSame(r, r');
  }

  /**
   * Element `d` of `els` is in use in the egg-shell mesh: the pruning to the
   * shell `shell` (the live elements below `n` and their ancestors out of
   * use, the shell elements and their ancestors back in, as `PrunedSpec`
   * states) leaves it in use, or it lies in the subtree of an ancestor that
   * owns a hanging edge of a shell element.
   */
  ghost predicate InShellMesh(els: seq<Element>, nodes: seq<Node>, vt: map<Key, int>, et: map<Key, int>, n: int, shell: seq<int>, d: int)
    requires WalkReady(els) && ShellIds(els, shell) && 0 <= d < |els|
  {
    Pruned(els, n, shell)[d].used || exists a :: a in ShellRoots(els, nodes, vt, et, shell, |shell|) && Under(els, a, d)
  }

  /**
   * What `make_egg_shell_mesh` does to the `used` flags, and whether it
   * fails, read on the mesh before the shell search changed its markers.
   */
  lemma InShellMeshOfPruned(els: seq<Element>, nodes: seq<Node>, els': seq<Element>, nodes': seq<Node>,
                            vt: map<Key, int>, et: map<Key, int>, n: int, shell: seq<int>, mk: int)
    requires ElementsAlike(els, els') && NodesAlike(nodes, nodes') && WalkReady(els) && ShellIds(els, shell)
    ensures var p := Pruned(els', n, shell);
      && WalkReady(p) && ShellIds(p, shell)
      && (ShellOk(p, nodes', vt, et, shell, |shell|) <==> ShellOk(els, nodes, vt, et, shell, |shell|))
      && forall d :: 0 <= d < |els| ==>
           (DownAll(p, ShellRoots(p, nodes', vt, et, shell, |shell|), mk)[d].used <==> InShellMesh(els, nodes, vt, et, n, shell, d))
  {
    var p := Pruned(els', n, shell);
    PrunedAlike(els, els', n, shell);
    PrunedAlike(els', els', n, shell);
    assert Skeleton(els, p) && SameTree(els, p);
    ShellRootsAlike(els, p, nodes, nodes', vt, et, shell, |shell|);
    ShellOkAlike(els, p, nodes, nodes', vt, et, shell, |shell|);
    var roots := ShellRoots(els, nodes, vt, et, shell, |shell|);
    forall d | 0 <= d < |els|
      ensures DownAll(p, roots, mk)[d].used <==> InShellMesh(els, nodes, vt, et, n, shell, d)
    {
      forall a ensures Under(p, a, d) <==> Under(els, a, d) {
        UnderSame(els, p, a, d);
      }
    }
  }

  /**
   * The first two loops of `make_egg_shell_mesh`: the live elements and
   * their ancestors leave use, the shell elements and theirs come back,
   * and `nactive` counts the shell.
   */
  method PruneShell(m: Mesh, shell: seq<int>)
    requires m.Valid() && ShellIds(m.elements, shell)
    modifies m
    ensures m.Valid() && m.elements == Pruned(old(m.elements), ScanEnd(m), shell) && m.nactive == |shell|
    ensures m.nodes == old(m.nodes) && m.vertexTable == old(m.vertexTable) && m.edgeTable == old(m.edgeTable)
    ensures m.Stamps() == old(m.Stamps())
  {
    RetireLive(m, ScanEnd(m));
    ReviveShell(m, shell);
  }

  /** The marker lookups of `make_egg_shell_mesh` and its edge-marking loop. */
  method SealPhase(m: Mesh, nb: Neighbours) returns (inner: int, marker1: int, marker0: int, volume: int)
    requires m.Valid() && m.elementMarkers.Valid() && m.boundaryMarkers.Valid() && m.elementMarkers != m.boundaryMarkers
    requires EggShellInner in m.boundaryMarkers.inverse && EggShell1 in m.boundaryMarkers.inverse
    requires EggShell0 in m.boundaryMarkers.inverse && EggShellVolume in m.elementMarkers.inverse
    requires NeighboursFit(m.elements, nb)
    modifies m, m.elementMarkers, m.boundaryMarkers
    ensures m.Valid() && m.elementMarkers.Valid() && m.boundaryMarkers.Valid()
    ensures m.elementMarkers.table == old(m.elementMarkers.table) && m.elementMarkers.inverse == old(m.elementMarkers.inverse)
      && m.elementMarkers.minMarkerUnused == old(m.elementMarkers.minMarkerUnused)
    ensures m.boundaryMarkers.table == old(m.boundaryMarkers.table) && m.boundaryMarkers.inverse == old(m.boundaryMarkers.inverse)
      && m.boundaryMarkers.minMarkerUnused == old(m.boundaryMarkers.minMarkerUnused)
    ensures inner == m.boundaryMarkers.GetInternalMarker(EggShellInner).marker
    ensures marker1 == m.boundaryMarkers.GetInternalMarker(EggShell1).marker
    ensures marker0 == m.boundaryMarkers.GetInternalMarker(EggShell0).marker
    ensures volume == m.elementMarkers.GetInternalMarker(EggShellVolume).marker
    ensures inner != marker1 && inner != marker0 && marker1 != marker0
    ensures m.elements == old(m.elements) && m.vertexTable == old(m.vertexTable) && m.edgeTable == old(m.edgeTable)
    ensures m.Counters() == old(m.Counters())
    ensures Sealing(old(m.nodes), m.nodes, inner, marker1, marker0)
    ensures forall y :: 0 <= y < ScanEnd(m) && Live(m.elements[y]) ==> EdgesCovered(m.nodes, m.elements[y], inner)
  {
    inner := m.boundaryMarkers.GetInternalMarker(EggShellInner).marker;
    marker1 := m.boundaryMarkers.GetInternalMarker(EggShell1).marker;
    marker0 := m.boundaryMarkers.InsertMarker(EggShell0);
    volume := m.elementMarkers.InsertMarker(EggShellVolume);
    MarkersApart(m.boundaryMarkers, EggShellInner, EggShell1);
    MarkersApart(m.boundaryMarkers, EggShellInner, EggShell0);
    MarkersApart(m.boundaryMarkers, EggShell1, EggShell0);
    SealAll(m, ScanEnd(m), nb, inner, marker1, marker0, volume);
  }

  /**
   * `make_egg_shell_mesh`: prune to the shell, mark down the subtrees
   * behind hanging edges, then mark the edges of what is left.  It fails
   * when `fix_hanging_nodes` does.
   */
  method MakeEggShellMesh(m: Mesh, shell: seq<int>, nb: Neighbours) returns (r: Outcome)
    requires m.Valid() && m.elementMarkers.Valid() && m.boundaryMarkers.Valid() && m.elementMarkers != m.boundaryMarkers
    requires EggShellInner in m.boundaryMarkers.inverse && EggShell1 in m.boundaryMarkers.inverse
    requires EggShellVolume in m.elementMarkers.inverse
    requires ShellIds(m.elements, shell) && NeighboursFit(m.elements, nb)
    modifies m, m.elementMarkers, m.boundaryMarkers
    ensures m.Valid() && m.elementMarkers.Valid() && m.boundaryMarkers.Valid()
    ensures m.elementMarkers.table == old(m.elementMarkers.table) && m.elementMarkers.inverse == old(m.elementMarkers.inverse)
      && m.elementMarkers.minMarkerUnused == old(m.elementMarkers.minMarkerUnused)
    ensures var p := Pruned(old(m.elements), ScanEnd(m), shell);
      && WalkReady(p)
      && (r.Pass? <==> ShellOk(p, old(m.nodes), m.vertexTable, m.edgeTable, shell, |shell|))
      && (r.Pass? ==> m.elements == DownAll(p, ShellRoots(p, old(m.nodes), m.vertexTable, m.edgeTable, shell, |shell|),
                                            m.elementMarkers.GetInternalMarker(EggShellVolume).marker))
    ensures r.Fail? ==> r.error in {UnmatchedHangingEdge, MissingVertex}
    ensures r.Pass? ==>
      var inner, marker1, marker0 := m.boundaryMarkers.GetInternalMarker(EggShellInner).marker,
        m.boundaryMarkers.GetInternalMarker(EggShell1).marker, m.boundaryMarkers.GetInternalMarker(EggShell0).marker;
      && Sealing(old(m.nodes), m.nodes, inner, marker1, marker0)
      && forall y :: 0 <= y < ScanEnd(m) && Live(m.elements[y]) ==> EdgesCovered(m.nodes, m.elements[y], inner)
    ensures m.nactive == |shell| && m.Stamps() == old(m.Stamps()) && |m.elements| == |old(m.elements)|
    ensures m.vertexTable == old(m.vertexTable) && m.edgeTable == old(m.edgeTable)
  {
    PruneShell(m, shell);
    ghost var p := m.elements;
    r := FixHangingNodes(m, shell);
    if r.Fail? {
      return;
    }
    var inner, marker1, marker0, volume := SealPhase(m, nb);
  }

  /** Without a scan there are no seeds, so no element reaches level 2. */
  lemma NoScanNoShell(els: seq<Element>, nodes: seq<Node>, nb: Neighbours, targets: seq<int>, levels: nat, local: seq<int>, shell: seq<int>)
    requires local == Layers(els, nodes, nb, 0, Seeds(els, 0, targets), levels)
    requires forall x :: x in shell <==> 0 <= x < |local| && local[x] >= 2
    ensures shell == []
  {
    if shell != [] {
      assert shell[0] in shell;
      LayersSound(els, nodes, nb, 0, Seeds(els, 0, targets), levels, shell[0]);
    }
  }

  /**
   * Element `d` at the end of `get_egg_shell` differs from the original
   * only in its `used` flag, and a shell element is live: the `Eggshell`
   * markers of the search and of the mark-down sit on live elements, which
   * `fix_markers` restores.
   */
  lemma PrunedKeeps(e0: seq<Element>, nodes0: seq<Node>, e1: seq<Element>, nodes1: seq<Node>, local: seq<int>, shell: seq<int>,
                    marker1: int, volume: int, n: int, roots: set<int>, d: int)
    requires ShellState(e0, nodes0, e1, nodes1, local, shell, marker1, volume)
    requires forall x :: x in shell ==> 0 <= x < |e1| && Live(e1[x])
    requires ParentsOlder(e1) && 0 <= n <= |e0| && (n == |e0| || (shell == [] && roots == {})) && 0 <= d < |e0|
    ensures var e5 := Restored(DownAll(Pruned(e1, n, shell), roots, volume), e0, n);
      e5[d] == e0[d].(used := e5[d].used) && (d in shell ==> Live(e5[d]))
  {
    var p := Pruned(e1, n, shell);
    PrunedSpec(e1, n, shell, d);
    if d in shell {
      var j :| 0 <= j < |shell| && shell[j] == d;
      assert Descends(e1, d, d);
      assert p[d].used;
    }
  }

  /** The search leaves every element's edges alone, so a neighbour map that fit before still fits. */
  lemma ShellFit(e0: seq<Element>, nodes0: seq<Node>, e1: seq<Element>, nodes1: seq<Node>, local: seq<int>, shell: seq<int>,
                 marker1: int, volume: int, nb: Neighbours)
    requires ShellState(e0, nodes0, e1, nodes1, local, shell, marker1, volume) && NeighboursFit(e0, nb)
    ensures NeighboursFit(e1, nb)
  {
    assert forall x :: 0 <= x < |e1| ==> e1[x].en == e0[x].en;
  }

  /** `PrunedKeeps` for every element. */
  lemma KeepsAllButUse(e0: seq<Element>, nodes0: seq<Node>, e1: seq<Element>, nodes1: seq<Node>, local: seq<int>, shell: seq<int>,
                       marker1: int, volume: int, n: int, roots: set<int>, e5: seq<Element>)
    requires ShellState(e0, nodes0, e1, nodes1, local, shell, marker1, volume)
    requires forall x :: x in shell ==> 0 <= x < |e1| && Live(e1[x])
    requires ParentsOlder(e1) && 0 <= n <= |e0| && (n == |e0| || (shell == [] && roots == {}))
    requires e5 == Restored(DownAll(Pruned(e1, n, shell), roots, volume), e0, n)
    ensures |e5| == |e0|
    ensures forall d :: 0 <= d < |e5| ==> e5[d] == e0[d].(used := e5[d].used)
    ensures forall x :: 0 <= x < |local| && local[x] >= 2 ==> Live(e5[x])
  {
    forall d | 0 <= d < |e5| ensures e5[d] == e0[d].(used := e5[d].used) && (d in shell ==> Live(e5[d])) {
      PrunedKeeps(e0, nodes0, e1, nodes1, local, shell, marker1, volume, n, roots, d);
    }
  }

  /**
   * `els` is the egg-shell mesh cut from `els0`: the same elements with
   * only their `used` flags changed, in use exactly as `InShellMesh` says,
   * and every shell element live.
   */
  ghost predicate EggShellMade(els0: seq<Element>, nodes0: seq<Node>, vt: map<Key, int>, et: map<Key, int>, n: int,
                               shell: seq<int>, els: seq<Element>)
  {
    && WalkReady(els0) && ShellIds(els0, shell) && |els| == |els0|
    && (forall d :: 0 <= d < |els| ==> els[d] == els0[d].(used := els[d].used))
    && (forall d :: 0 <= d < |els| ==> (els[d].used <==> InShellMesh(els0, nodes0, vt, et, n, shell, d)))
    && forall x :: x in shell ==> Live(els[x])
  }

  /** `shell` lists, once each, the elements the search put at level 2 or more. */
  ghost predicate ShellOf(level: seq<int>, shell: seq<int>)
  {
    Distinct(shell) && forall x :: x in shell <==> 0 <= x < |level| && level[x] >= 2
  }

  /**
   * `get_egg_shell` with a list of markers, on the copy `m` of the mesh:
   * fewer than two levels fail before anything happens; an unknown marker
   * fails; otherwise `shell` is the list of elements the search put at
   * level 2 or more, and the call fails exactly when the walk of a hanging
   * edge of the shell does.  On success the mesh keeps every element with
   * its original marker and only `used` changes: an element is in use
   * exactly when `InShellMesh` says so, `nactive` counts the shell, every
   * shell element is live, and every edge of a live element is boundary or
   * marked as facing the volume.
   */
  method GetEggShell(m: Mesh, markers: seq<string>, levels: nat, nb: Neighbours, nbOut: Neighbours) returns (r: Outcome, ghost shell: seq<int>)
    requires m.Valid() && m.elementMarkers.Valid() && m.boundaryMarkers.Valid() && m.elementMarkers != m.boundaryMarkers
    requires NeighboursFit(m.elements, nb) && NeighboursLive(m.elements, nb) && NeighboursFit(m.elements, nbOut)
    modifies m, m.elementMarkers, m.boundaryMarkers
    ensures m.Valid() && m.elementMarkers.Valid() && m.boundaryMarkers.Valid()
    ensures r == Fail(LevelsTooSmall) <==> levels < 2
    ensures levels < 2 ==> unchanged(m, m.elementMarkers, m.boundaryMarkers)
    ensures levels >= 2 ==>
      (r == Fail(UnknownMarker) <==> exists i :: 0 <= i < |markers| && !m.elementMarkers.GetInternalMarker(markers[i]).valid)
    ensures r.Fail? ==> r.error in {LevelsTooSmall, UnknownMarker, UnmatchedHangingEdge, MissingVertex}
    ensures r.Pass? || r.error in {UnmatchedHangingEdge, MissingVertex} ==>
      && ShellOf(Layers(old(m.elements), old(m.nodes), nb, old(ScanEnd(m)),
                        Seeds(old(m.elements), old(ScanEnd(m)), Targets(m.elementMarkers, markers)), levels), shell)
      && WalkReady(old(m.elements)) && ShellIds(old(m.elements), shell)
      && (r.Pass? <==> ShellOk(old(m.elements), old(m.nodes), old(m.vertexTable), old(m.edgeTable), shell, |shell|))
    ensures r.Pass? ==> m.nactive == |shell|
    ensures r.Pass? ==>
      EggShellMade(old(m.elements), old(m.nodes), old(m.vertexTable), old(m.edgeTable), old(ScanEnd(m)), shell, m.elements)
    ensures r.Pass? ==>
      forall y :: 0 <= y < ScanEnd(m) && Live(m.elements[y]) ==>
        EdgesCovered(m.nodes, m.elements[y], m.boundaryMarkers.GetInternalMarker(EggShellInner).marker)
  {
    if levels < 2 {
      return Fail(LevelsTooSmall), [];
    }
    r, shell := EggShellOnCopy(m, markers, levels, nb, nbOut);
  }

  /** The body of `get_egg_shell` once the level count is known to be at least two. */
  method EggShellOnCopy(m: Mesh, markers: seq<string>, levels: nat, nb: Neighbours, nbOut: Neighbours) returns (r: Outcome, ghost shell: seq<int>)
    requires m.Valid() && m.elementMarkers.Valid() && m.boundaryMarkers.Valid() && m.elementMarkers != m.boundaryMarkers
    requires NeighboursFit(m.elements, nb) && NeighboursLive(m.elements, nb) && NeighboursFit(m.elements, nbOut)
    requires levels >= 2
    modifies m, m.elementMarkers, m.boundaryMarkers
    ensures m.Valid() && m.elementMarkers.Valid() && m.boundaryMarkers.Valid()
    ensures r == Fail(UnknownMarker) <==> exists i :: 0 <= i < |markers| && !m.elementMarkers.GetInternalMarker(markers[i]).valid
    ensures r.Fail? ==> r.error in {UnknownMarker, UnmatchedHangingEdge, MissingVertex}
    ensures r.Pass? || r.error in {UnmatchedHangingEdge, MissingVertex} ==>
      && ShellOf(Layers(old(m.elements), old(m.nodes), nb, old(ScanEnd(m)),
                        Seeds(old(m.elements), old(ScanEnd(m)), Targets(m.elementMarkers, markers)), levels), shell)
      && WalkReady(old(m.elements)) && ShellIds(old(m.elements), shell)
      && (r.Pass? <==> ShellOk(old(m.elements), old(m.nodes), old(m.vertexTable), old(m.edgeTable), shell, |shell|))
    ensures r.Pass? ==> m.nactive == |shell|
    ensures r.Pass? ==>
      EggShellMade(old(m.elements), old(m.nodes), old(m.vertexTable), old(m.edgeTable), old(ScanEnd(m)), shell, m.elements)
    ensures r.Pass? ==>
      forall y :: 0 <= y < ScanEnd(m) && Live(m.elements[y]) ==>
        EdgesCovered(m.nodes, m.elements[y], m.boundaryMarkers.GetInternalMarker(EggShellInner).marker)
  {
    var original := m.elements;
    ghost var nodes0, vt0, et0 := m.nodes, m.vertexTable, m.edgeTable;
    var local, found, marker1, volume;
    r, local, found, marker1, volume := EggShellStructures(m, markers, levels, nb);
    shell := found;
    if r.Fail? {
      return;
    }
    ghost var targets := Targets(m.elementMarkers, markers);
    ghost var n := ScanEnd(m);
    assert n == old(ScanEnd(m)) && local == Layers(original, nodes0, nb, n, Seeds(original, n, targets), levels);
    ShellFit(original, nodes0, m.elements, m.nodes, local, found, marker1, volume, nbOut);
    if n == 0 {
      NoScanNoShell(original, nodes0, nb, targets, levels, local, found);
    }
    r := ShellAndRestore(m, original, nodes0, local, found, marker1, volume, nbOut);
    assert Targets(m.elementMarkers, markers) == targets;
    assert r.Pass? ==> ScanEnd(m) == n;
    assert m.vertexTable == vt0 && m.edgeTable == et0;
  }

  /**
   * The end of `get_egg_shell` after the search: `make_egg_shell_mesh`,
   * then `fix_markers` against the copy `original` taken before the search.
   */
  method ShellAndRestore(m: Mesh, original: seq<Element>, ghost nodes0: seq<Node>, ghost local: seq<int>, shell: seq<int>,
                         ghost marker1: int, ghost volume: int, nbOut: Neighbours) returns (r: Outcome)
    requires m.Valid() && m.elementMarkers.Valid() && m.boundaryMarkers.Valid() && m.elementMarkers != m.boundaryMarkers
    requires EggShellInner in m.boundaryMarkers.inverse && EggShell1 in m.boundaryMarkers.inverse
    requires EggShellVolume in m.elementMarkers.inverse && volume == m.elementMarkers.GetInternalMarker(EggShellVolume).marker
    requires ShellState(original, nodes0, m.elements, m.nodes, local, shell, marker1, volume)
    requires forall x :: x in shell ==> 0 <= x < |m.elements| && Live(m.elements[x])
    requires ScanEnd(m) == 0 ==> shell == []
    requires NeighboursFit(m.elements, nbOut)
    modifies m, m.elementMarkers, m.boundaryMarkers
    ensures m.Valid() && m.elementMarkers.Valid() && m.boundaryMarkers.Valid()
    ensures m.elementMarkers.table == old(m.elementMarkers.table) && m.elementMarkers.inverse == old(m.elementMarkers.inverse)
      && m.elementMarkers.minMarkerUnused == old(m.elementMarkers.minMarkerUnused)
    ensures r.Fail? ==> r.error in {UnmatchedHangingEdge, MissingVertex}
    ensures r.Pass? ==>
      forall y :: 0 <= y < ScanEnd(m) && Live(m.elements[y]) ==>
        EdgesCovered(m.nodes, m.elements[y], m.boundaryMarkers.GetInternalMarker(EggShellInner).marker)
    ensures WalkReady(original) && ShellIds(original, shell) && ShellOf(local, shell)
    ensures r.Pass? <==> ShellOk(original, nodes0, old(m.vertexTable), old(m.edgeTable), shell, |shell|)
    ensures r.Pass? ==> m.nactive == |shell|
    ensures r.Pass? ==> EggShellMade(original, nodes0, old(m.vertexTable), old(m.edgeTable), old(ScanEnd(m)), shell, m.elements)
    ensures m.Stamps() == old(m.Stamps()) && m.vertexTable == old(m.vertexTable) && m.edgeTable == old(m.edgeTable)
  {
    ghost var e1, nodes1 := m.elements, m.nodes;
    ghost var n := ScanEnd(m);
    ParentsOlderOk(m.nodes, m.vertexTable, m.edgeTable, m.elements);
    WalkReadyOk(m.nodes, m.vertexTable, m.edgeTable, m.elements);
    ghost var vt, et := m.vertexTable, m.edgeTable;
    ShellOnOriginal(original, nodes0, e1, nodes1, local, shell, marker1, volume, vt, et, n);
    ghost var ok := ShellOk(original, nodes0, vt, et, shell, |shell|);
    r := MakeEggShellMesh(m, shell, nbOut);
    assert m.vertexTable == vt && m.edgeTable == et && ScanEnd(m) == n;
    assert r.Pass? <==> ok;
    if r.Fail? {
      return;
    }
    ghost var roots := ShellRoots(Pruned(e1, n, shell), nodes1, m.vertexTable, m.edgeTable, shell, |shell|);
    FixMarkers(m, original, ScanEnd(m));
    KeepsAllButUse(original, nodes0, e1, nodes1, local, shell, marker1, volume, n, roots, m.elements);
    UseOnOriginal(original, nodes0, e1, nodes1, local, shell, marker1, volume, m.vertexTable, m.edgeTable, n, m.elements);
  }

  /** The shell search changed only markers, so the prune's walks read the same on the original mesh. */
  lemma ShellOnOriginal(original: seq<Element>, nodes0: seq<Node>, e1: seq<Element>, nodes1: seq<Node>, local: seq<int>, shell: seq<int>,
                        marker1: int, volume: int, vt: map<Key, int>, et: map<Key, int>, n: int)
    requires ShellState(original, nodes0, e1, nodes1, local, shell, marker1, volume) && WalkReady(e1)
    ensures WalkReady(original) && ShellIds(original, shell)
    ensures var p := Pruned(e1, n, shell);
      WalkReady(p) && (ShellOk(p, nodes1, vt, et, shell, |shell|) <==> ShellOk(original, nodes0, vt, et, shell, |shell|))
  {
    assert ElementsAlike(original, e1) && NodesAlike(nodes0, nodes1);
    SkeletonReady(e1, original);
    InShellMeshOfPruned(original, nodes0, e1, nodes1, vt, et, n, shell, volume);
  }

  /** The `used` flags at the end of `get_egg_shell`, read on the original mesh. */
  lemma UseOnOriginal(original: seq<Element>, nodes0: seq<Node>, e1: seq<Element>, nodes1: seq<Node>, local: seq<int>, shell: seq<int>,
                      marker1: int, volume: int, vt: map<Key, int>, et: map<Key, int>, n: int, e5: seq<Element>)
    requires ShellState(original, nodes0, e1, nodes1, local, shell, marker1, volume) && WalkReady(e1) && 0 <= n <= |original|
    requires WalkReady(Pruned(e1, n, shell))
    requires e5 == Restored(DownAll(Pruned(e1, n, shell), ShellRoots(Pruned(e1, n, shell), nodes1, vt, et, shell, |shell|), volume), original, n)
    ensures WalkReady(original) && ShellIds(original, shell)
    ensures forall d :: 0 <= d < |e5| ==> (e5[d].used <==> InShellMesh(original, nodes0, vt, et, n, shell, d))
  {
    assert ElementsAlike(original, e1) && NodesAlike(nodes0, nodes1);
    SkeletonReady(e1, original);
    InShellMeshOfPruned(original, nodes0, e1, nodes1, vt, et, n, shell, volume);
  }

  /** `get_egg_shell` with one marker: the list version on `[marker]`. */
  method GetEggShellOne(m: Mesh, marker: string, levels: nat, nb: Neighbours, nbOut: Neighbours) returns (r: Outcome, ghost shell: seq<int>)
    requires m.Valid() && m.elementMarkers.Valid() && m.boundaryMarkers.Valid() && m.elementMarkers != m.boundaryMarkers
    requires NeighboursFit(m.elements, nb) && NeighboursLive(m.elements, nb) && NeighboursFit(m.elements, nbOut)
    modifies m, m.elementMarkers, m.boundaryMarkers
    ensures m.Valid() && m.elementMarkers.Valid() && m.boundaryMarkers.Valid()
    ensures r == Fail(LevelsTooSmall) <==> levels < 2
    ensures levels < 2 ==> unchanged(m, m.elementMarkers, m.boundaryMarkers)
    ensures levels >= 2 ==> (r == Fail(UnknownMarker) <==> !m.elementMarkers.GetInternalMarker(marker).valid)
    ensures r.Fail? ==> r.error in {LevelsTooSmall, UnknownMarker, UnmatchedHangingEdge, MissingVertex}
    ensures r.Pass? || r.error in {UnmatchedHangingEdge, MissingVertex} ==>
      && ShellOf(Layers(old(m.elements), old(m.nodes), nb, old(ScanEnd(m)),
                        Seeds(old(m.elements), old(ScanEnd(m)), Targets(m.elementMarkers, [marker])), levels), shell)
      && WalkReady(old(m.elements)) && ShellIds(old(m.elements), shell)
      && (r.Pass? <==> ShellOk(old(m.elements), old(m.nodes), old(m.vertexTable), old(m.edgeTable), shell, |shell|))
    ensures r.Pass? ==> m.nactive == |shell|
    ensures r.Pass? ==>
      EggShellMade(old(m.elements), old(m.nodes), old(m.vertexTable), old(m.edgeTable), old(ScanEnd(m)), shell, m.elements)
    ensures r.Pass? ==>
      forall y :: 0 <= y < ScanEnd(m) && Live(m.elements[y]) ==>
        EdgesCovered(m.nodes, m.elements[y], m.boundaryMarkers.GetInternalMarker(EggShellInner).marker)
  {
    if levels < 2 {
      return Fail(LevelsTooSmall), [];
    }
    r, shell := GetEggShell(m, [marker], levels, nb, nbOut);
    assert levels >= 2 && r == Fail(UnknownMarker) ==> [marker][0] == marker;
  }
}
