/**
 * The hanging degrees `regularize` reads (hermes2d/src/mesh/mesh.cpp):
 * `get_edge_degree` of every edge of an element, the test "some edge is
 * above level n", and the refinement kind the fixed-point loop asks of an
 * element.  The degree itself is `EdgeDegree` of the vertex-node table.
 */
module EdgeDegrees {
  import opened MeshData
  import opened MeshModel

  /** The corners of `el` are nodes of an arena of `n` nodes. */
  predicate CornersIn(el: Element, n: int)
  {
    forall i :: 0 <= i < |el.vn| ==> 0 <= el.vn[i] < n
  }

  /** The degree of edge `i` of `el`, the edge from vertex `i` to the next one. */
  function SideDegree(t: map<Key, int>, n: int, el: Element, i: int): nat
    requires TableOk(t, n) && CornersIn(el, n) && 0 <= i < |el.vn|
  {
    EdgeDegree(t, n, el.vn[i], el.vn[el.NextVert(i)])
  }

  /** The degrees of the edges of `el`, in edge order. */
  function Degrees(t: map<Key, int>, n: int, el: Element): (eo: seq<nat>)
    requires TableOk(t, n) && CornersIn(el, n)
    ensures |eo| == |el.vn| && forall i :: 0 <= i < |eo| ==> eo[i] == SideDegree(t, n, el, i)
  {
    seq(|el.vn|, i requires 0 <= i < |el.vn| => SideDegree(t, n, el, i))
  }

  /** Some degree of `eo` is above `level`. */
  predicate Over(eo: seq<nat>, level: int)
  {
    exists i :: 0 <= i < |eo| && eo[i] > level
  }

  /** Element `el` has an edge whose degree in table `t` is above `level`. */
  ghost predicate Hangs(t: map<Key, int>, nodes: seq<Node>, el: Element, level: int)
  {
    TableOk(t, |nodes|) && CornersIn(el, |nodes|) && Over(Degrees(t, |nodes|, el), level)
  }

  /** No live element of `els` has an edge of degree above `level`. */
  ghost predicate Settled(t: map<Key, int>, nodes: seq<Node>, els: seq<Element>, level: int)
  {
    forall x :: 0 <= x < |els| && Live(els[x]) ==> !Hangs(t, nodes, els[x], level)
  }

  /**
   * The refinement the loop of `regularize` asks of an element whose edges
   * have degrees `eo`: a triangle with an edge above `level` is split in
   * four (0); a quad is split by kind 2 when only edges 0 and 2 (the ones
   * kind 2 halves) are above, by kind 1 when only edges 1 and 3 are, in four
   * (0) when both pairs have one; -1 asks for nothing.
   */
  function IsoChoice(eo: seq<nat>, level: int): int
    requires |eo| == 3 || |eo| == 4
  {
    if |eo| == 3 then
      if eo[0] > level || eo[1] > level || eo[2] > level then 0 else -1
    else if (eo[0] > level || eo[2] > level) && eo[1] <= level && eo[3] <= level then 2
    else if eo[0] <= level && eo[2] <= level && (eo[1] > level || eo[3] > level) then 1
    else if eo[0] > level || eo[1] > level || eo[2] > level || eo[3] > level then 0
    else -1
  }

  /**
   * The choice asks for a refinement exactly when some edge is above the
   * level; a triangle only ever gets kind 0; a quad gets kind 2 exactly when
   * of its two pairs of opposite edges only (0, 2) has an edge above the
   * level, kind 1 exactly when only (1, 3) has, kind 0 when both have.
   */
  lemma IsoChoiceSpec(eo: seq<nat>, level: int)
    requires |eo| == 3 || |eo| == 4
    ensures IsoChoice(eo, level) == -1 <==> !Over(eo, level)
    ensures |eo| == 3 ==> IsoChoice(eo, level) <= 0
    ensures |eo| == 4 ==>
      && (IsoChoice(eo, level) == 2 <==> Over([eo[0], eo[2]], level) && !Over([eo[1], eo[3]], level))
      && (IsoChoice(eo, level) == 1 <==> !Over([eo[0], eo[2]], level) && Over([eo[1], eo[3]], level))
      && (IsoChoice(eo, level) == 0 <==> Over([eo[0], eo[2]], level) && Over([eo[1], eo[3]], level))
  {
    if |eo| == 4 {
      PairOver(eo[0], eo[2], level);
      PairOver(eo[1], eo[3], level);
    }
    if Over(eo, level) {
      var i :| 0 <= i < |eo| && eo[i] > level;
      assert i == 0 || i == 1 || i == 2 || i == 3;
    } else {
      assert eo[0] <= level && eo[1] <= level && eo[2] <= level;
      assert |eo| == 4 ==> eo[3] <= level;
    }
  }

  /** A pair is over the level exactly when one of its two degrees is. */
  lemma PairOver(a: nat, b: nat, level: int)
    ensures Over([a, b], level) <==> a > level || b > level
  {
    if a > level {
      assert [a, b][0] > level;
    } else if b > level {
      assert [a, b][1] > level;
    }
  }

  /**
   * The loop of `regularize` that looks for an edge of `el` above `level`,
   * stopping at the first one.
   */
  method AnyOver(m: Mesh, el: Element, level: int) returns (over: bool)
    requires m.Valid() && CornersIn(el, |m.nodes|) && (|el.vn| == 3 || |el.vn| == 4)
    ensures over <==> Over(Degrees(m.vertexTable, |m.nodes|, el), level)
  {
    ghost var eo := Degrees(m.vertexTable, |m.nodes|, el);
    over := false;
    var i := 0;
    while i < |el.vn|
      invariant 0 <= i <= |el.vn|
      invariant !over && forall j :: 0 <= j < i ==> eo[j] <= level
    {
      var j := el.NextVert(i);
      if EdgeDegree(m.vertexTable, |m.nodes|, el.vn[i], el.vn[j]) > level {
        over := true;
        assert eo[i] > level;
        return;
      }
      i := i + 1;
    }
  }

  /**
   * The kind the loop of `regularize` picks for element `id`, reading the
   * degrees in the order the source does.
   */
  method ChooseIso(m: Mesh, id: int, level: int) returns (iso: int)
    requires m.Valid() && 0 <= id < |m.elements|
    ensures CornersIn(m.elements[id], |m.nodes|) && (|m.elements[id].vn| == 3 || |m.elements[id].vn| == 4)
    ensures iso == IsoChoice(Degrees(m.vertexTable, |m.nodes|, m.elements[id]), level)
  {
    var el := m.elements[id];
    assert ElementOk(m.nodes, m.elements, id);
    assert forall i :: 0 <= i < |el.vn| ==> el.vn[i] in el.vn;
    ghost var eo := Degrees(m.vertexTable, |m.nodes|, el);
    var t, n := m.vertexTable, |m.nodes|;
    iso := -1;
    if el.IsTriangle() {
      var over := AnyOver(m, el, level);
      if over {
        iso := 0;
      }
    } else {
      assert eo[0] == EdgeDegree(t, n, el.vn[0], el.vn[1]) && eo[1] == EdgeDegree(t, n, el.vn[1], el.vn[2]);
      assert eo[2] == EdgeDegree(t, n, el.vn[2], el.vn[3]) && eo[3] == EdgeDegree(t, n, el.vn[3], el.vn[0]);
      if (EdgeDegree(t, n, el.vn[0], el.vn[1]) > level || EdgeDegree(t, n, el.vn[2], el.vn[3]) > level)
        && EdgeDegree(t, n, el.vn[1], el.vn[2]) <= level && EdgeDegree(t, n, el.vn[3], el.vn[0]) <= level
      {
        iso := 2;
      } else if EdgeDegree(t, n, el.vn[0], el.vn[1]) <= level && EdgeDegree(t, n, el.vn[2], el.vn[3]) <= level
        && (EdgeDegree(t, n, el.vn[1], el.vn[2]) > level || EdgeDegree(t, n, el.vn[3], el.vn[0]) > level)
      {
        iso := 1;
      } else {
        var over := AnyOver(m, el, level);
        if over {
          iso := 0;
        }
      }
    }
    IsoChoiceSpec(eo, level);
  }

  /** A midpoint of an edge of degree 1 cuts it into two halves of degree 0. */
  lemma HalvesFlat(t: map<Key, int>, n: int, a: int, b: int)
    requires TableOk(t, n) && 0 <= a < n && 0 <= b < n && EdgeDegree(t, n, a, b) == 1
    ensures KeyOf(a, b) in t
    ensures EdgeDegree(t, n, a, t[KeyOf(a, b)]) == 0 && EdgeDegree(t, n, t[KeyOf(a, b)], b) == 0
  {
  }
}
