/**
 * The `parents` array `regularize` returns (hermes2d/src/mesh/mesh.cpp):
 * for every element it reaches, the id of the element, active when the call
 * began, that it descends from.  Here it is a map from element ids;
 * `assign_parent` hands an element's entry down to its sons.
 */
module ParentMap {
  import opened MeshData
  import opened MeshModel
  import opened MeshRefine
  import opened RefineApi

  /** Following parent links from `x` reaches `a` (possibly in no step). */
  ghost predicate Descends(els: seq<Element>, x: int, a: int)
    decreases x + 1
  {
    x == a || (0 <= x < |els| && -1 <= els[x].parent < x && Descends(els, els[x].parent, a))
  }

  /** `els'` extends `els` and keeps every parent link of it. */
  ghost predicate ParentsKept(els: seq<Element>, els': seq<Element>)
  {
    |els| <= |els'| && forall i :: 0 <= i < |els| ==> els'[i].parent == els[i].parent
  }

  /**
   * `parents` as `regularize` keeps it while the mesh goes from `els0` to
   * `els`: every live element has an entry, and every entry is an element
   * of the arena descending from the element it names, which was live in
   * `els0`.
   */
  ghost predicate Lineage(parents: map<int, int>, els0: seq<Element>, els: seq<Element>)
  {
    (forall x :: 0 <= x < |els| && Live(els[x]) ==> x in parents)
    && forall x :: x in parents ==>
         0 <= x < |els| && 0 <= parents[x] < |els0| && Live(els0[parents[x]]) && Descends(els, x, parents[x])
  }

  /** The entry of every live element of `els`: itself, as `regularize` starts. */
  function Roots(els: seq<Element>): (parents: map<int, int>)
    ensures Lineage(parents, els, els)
  {
    map x | 0 <= x < |els| && Live(els[x]) :: x
  }

  /** Descent survives a change that keeps the parent links. */
  lemma {:induction false} DescendsKept(els: seq<Element>, els': seq<Element>, x: int, a: int)
    requires Descends(els, x, a) && ParentsKept(els, els')
    ensures Descends(els', x, a)
    decreases x + 1
  {
    if x != a {
      DescendsKept(els, els', els[x].parent, a);
    }
  }

  /** A change that keeps the parent links and revives no element keeps the lineage. */
  lemma LineageKept(parents: map<int, int>, els0: seq<Element>, els: seq<Element>, els': seq<Element>)
    requires Lineage(parents, els0, els) && ParentsKept(els, els') && |els'| == |els|
    requires forall x :: 0 <= x < |els| && Live(els'[x]) ==> Live(els[x])
    ensures Lineage(parents, els0, els')
  {
    forall x | x in parents ensures Descends(els', x, parents[x]) {
      DescendsKept(els, els', x, parents[x]);
    }
  }

  /**
   * The entries after element `e` of `els`, which has an entry, was split
   * into the sons appended as `els'`: each son takes the entry of `e`.
   */
  lemma LineageSplit(parents: map<int, int>, ps: map<int, int>, els0: seq<Element>, els: seq<Element>,
                     els': seq<Element>, e: int)
    requires Lineage(parents, els0, els) && 0 <= e < |els| && e in parents && ParentsKept(els, els')
    requires forall x :: 0 <= x < |els| && x != e && Live(els'[x]) ==> Live(els[x])
    requires forall s :: |els| <= s < |els'| ==> els'[s].parent == e && s in els'[e].sons
    requires forall s :: s in els'[e].sons ==> s == Null || |els| <= s < |els'|
    requires forall s :: s in ps <==> s in parents || (s in els'[e].sons && s != Null)
    requires forall s :: s in ps ==> ps[s] == if s in els'[e].sons && s != Null then parents[e] else parents[s]
    ensures Lineage(ps, els0, els')
  {
    assert Descends(els', e, parents[e]) by {
      DescendsKept(els, els', e, parents[e]);
    }
    forall x | x in ps
      ensures 0 <= x < |els'| && 0 <= ps[x] < |els0| && Live(els0[ps[x]]) && Descends(els', x, ps[x])
    {
      if x in els'[e].sons && x != Null {
        assert els'[x].parent == e;
      } else {
        DescendsKept(els, els', x, parents[x]);
      }
    }
  }

  /** A split recorded as `Refined`, each son taking the entry of the parent, keeps the lineage. */
  lemma LineageRefined(parents: map<int, int>, ps: map<int, int>, els0: seq<Element>, els: seq<Element>,
                       els': seq<Element>, e: int, slots: seq<int>)
    requires Lineage(parents, els0, els) && e in parents && Refined(els, els', e, |els|, slots)
    requires forall s :: s in slots ==> s == Null || |els| <= s < |els'|
    requires forall s :: |els| <= s < |els'| ==> s in slots
    requires forall s :: s in ps <==> s in parents || (s in els'[e].sons && s != Null)
    requires forall s :: s in ps ==> ps[s] == if s in els'[e].sons && s != Null then parents[e] else parents[s]
    ensures Lineage(ps, els0, els')
  {
    forall s | |els| <= s < |els'| ensures els'[s].parent == e && s in els'[e].sons {
      assert SonOf(els'[s].(iroCache := 0), e, els[e].marker);
    }
    LineageSplit(parents, ps, els0, els, els', e);
  }

  /** A split recorded as `Replaced`, each son taking the entry of the parent, keeps the lineage. */
  lemma LineageReplaced(parents: map<int, int>, ps: map<int, int>, els0: seq<Element>, els: seq<Element>,
                        els': seq<Element>, e: int, slots: seq<int>)
    requires Lineage(parents, els0, els) && e in parents && Replaced(els, els', e, |els|, slots)
    requires forall s :: s in slots ==> s == Null || |els| <= s < |els'|
    requires forall s :: |els| <= s < |els'| ==> s in slots
    requires forall s :: s in ps <==> s in parents || (s in els'[e].sons && s != Null)
    requires forall s :: s in ps ==> ps[s] == if s in els'[e].sons && s != Null then parents[e] else parents[s]
    ensures Lineage(ps, els0, els')
  {
    forall s | |els| <= s < |els'| ensures els'[s].parent == e && s in els'[e].sons {
      assert SonOf(els'[s], e, els[e].marker);
    }
    LineageSplit(parents, ps, els0, els, els', e);
  }

  /**
   * `assign_parent(e, i)`: when son slot `i` of `e` holds an element, that
   * element takes the entry of `e`.
   */
  method AssignParent(m: Mesh, parents: map<int, int>, e: int, i: int) returns (ps: map<int, int>)
    requires 0 <= e < |m.elements| && 0 <= i < |m.elements[e].sons| && e in parents
    ensures m.elements[e].sons[i] == Null ==> ps == parents
    ensures m.elements[e].sons[i] != Null ==> ps == parents[m.elements[e].sons[i] := parents[e]]
  {
    ps := parents;
    var s := m.elements[e].sons[i];
    if s != Null {
      ps := ps[s := parents[e]];
    }
  }

  /**
   * The loop `for (i = 0; i < 4; i++) assign_parent(e, i)`: every son of
   * `e` takes the entry of `e`, and no other entry changes.
   */
  method AssignSons(m: Mesh, parents: map<int, int>, e: int) returns (ps: map<int, int>)
    requires m.Valid() && 0 <= e < |m.elements| && e in parents
    ensures forall s :: s in ps <==> s in parents || (s in m.elements[e].sons && s != Null)
    ensures forall s :: s in ps ==> ps[s] == if s in m.elements[e].sons && s != Null then parents[e] else parents[s]
  {
    assert ElementOk(m.nodes, m.elements, e);
    var sons := m.elements[e].sons;
    ps := parents;
    for i := 0 to 4
      invariant e in ps && ps[e] == parents[e]
      invariant forall s :: s in ps <==> s in parents || (s in sons[..i] && s != Null)
      invariant forall s :: s in ps ==> ps[s] == if s in sons[..i] && s != Null then parents[e] else parents[s]
    {
      assert sons[i] in sons;
      ps := AssignParent(m, ps, e, i);
      assert sons[..i + 1] == sons[..i] + [sons[i]];
    }
    assert sons[..4] == sons;
  }
}
