/**
 * `unrefine_all_elements` in hermes2d/src/mesh/mesh.cpp: one level of
 * refinement is undone everywhere.  The elements picked are the refined
 * elements in use all of whose sons are active (and, when initial
 * refinements are kept, newer than the initial mesh); they are collected
 * first, in id order, and then unrefined one after the other.
 */
module UnrefineAll {
  import opened MeshData
  import opened MeshModel
  import opened RefineApi
  import opened Unrefine

  /**
   * Element `x` is picked by `unrefine_all_elements`: it is in use and
   * refined, and every non-null son is active and, when `keep` is set, not
   * one of the first `ninitial` elements.
   */
  predicate Unrefinable(els: seq<Element>, x: int, keep: bool, ninitial: int)
  {
    0 <= x < |els| && els[x].used && !els[x].active
    && forall s :: s in els[x].sons && s != Null ==> 0 <= s < |els| && els[s].active && !(keep && s < ninitial)
  }

  /** The picked elements among the first `n` ids, in id order. */
  function Unrefinables(els: seq<Element>, keep: bool, ninitial: int, n: int): seq<int>
    requires 0 <= n <= |els|
  {
    if n == 0 then []
    else Unrefinables(els, keep, ninitial, n - 1) + (if Unrefinable(els, n - 1, keep, ninitial) then [n - 1] else [])
  }

  /** Strictly increasing. */
  predicate Ascending(ids: seq<int>)
  {
    forall j, k :: 0 <= j < k < |ids| ==> ids[j] < ids[k]
  }

  /** `Unrefinables` lists exactly the picked ids below `n`, each once, in increasing order. */
  lemma {:induction false} UnrefinablesSpec(els: seq<Element>, keep: bool, ninitial: int, n: int)
    requires 0 <= n <= |els|
    ensures forall x :: x in Unrefinables(els, keep, ninitial, n) <==> 0 <= x < n && Unrefinable(els, x, keep, ninitial)
    ensures Ascending(Unrefinables(els, keep, ninitial, n))
    ensures forall k :: 0 <= k < |Unrefinables(els, keep, ninitial, n)| ==> 0 <= Unrefinables(els, keep, ninitial, n)[k] < n
  {
    if n > 0 {
      UnrefinablesSpec(els, keep, ninitial, n - 1);
    }
  }

  /** The elements `unrefine_all_elements` picks in mesh `els`; none while the stamp is negative. */
  function Picked(els: seq<Element>, seqStamp: int, keep: bool, ninitial: int): seq<int>
  {
    if seqStamp >= 0 then Unrefinables(els, keep, ninitial, |els|) else []
  }

  /** The log entries unrefining `ids` in order make. */
  function UnrefineLog(ids: seq<int>): (log: seq<(int, int)>)
    ensures |log| == |ids| && forall k :: 0 <= k < |ids| ==> log[k] == (ids[k], -1)
  {
    seq(|ids|, k requires 0 <= k < |ids| => (ids[k], -1))
  }

  /** The first loop of `unrefine_all_elements`: the picked elements, in id order. */
  method FindUnrefinable(m: Mesh, keep: bool) returns (ids: seq<int>)
    requires m.Valid()
    ensures ids == Picked(m.elements, m.seqStamp, keep, m.ninitial)
  {
    ids := [];
    var max := MaxElementId(m);
    var id := 0;
    while id < max
      invariant max == if m.seqStamp >= 0 then |m.elements| else -1
      invariant 0 <= id <= |m.elements| && (if max >= 0 then id <= max else id == 0)
      invariant ids == Unrefinables(m.elements, keep, m.ninitial, id)
    {
      if m.elements[id].used && !m.elements[id].active {
        assert ElementOk(m.nodes, m.elements, id);
        var found := true;
        for i := 0 to 4
          invariant found <==> forall k :: 0 <= k < i && m.elements[id].sons[k] != Null ==>
            0 <= m.elements[id].sons[k] < |m.elements| && m.elements[m.elements[id].sons[k]].active && !(keep && m.elements[id].sons[k] < m.ninitial)
        {
          var s := m.elements[id].sons[i];
          if s != Null && (s < 0 || s >= |m.elements| || !m.elements[s].active || (keep && s < m.ninitial)) {
            found := false;
          }
        }
        SonsScan(m.elements, id, keep, m.ninitial, found);
        if found {
          ids := ids + [id];
        }
      }
      id := id + 1;
    }
  }

  /** A scan of the four son slots decides `Unrefinable` for a refined element in use. */
  lemma SonsScan(els: seq<Element>, x: int, keep: bool, ninitial: int, found: bool)
    requires 0 <= x < |els| && els[x].used && !els[x].active
    requires |els[x].sons| == 4
    requires found <==> forall k :: 0 <= k < 4 && els[x].sons[k] != Null ==>
      0 <= els[x].sons[k] < |els| && els[els[x].sons[k]].active && !(keep && els[x].sons[k] < ninitial)
    ensures found <==> Unrefinable(els, x, keep, ninitial)
  {
    if found {
      forall s | s in els[x].sons && s != Null ensures 0 <= s < |els| && els[s].active && !(keep && s < ninitial) {
        var k :| 0 <= k < 4 && els[x].sons[k] == s;
      }
    } else {
      var k :| 0 <= k < 4 && els[x].sons[k] != Null &&
        !(0 <= els[x].sons[k] < |els| && els[els[x].sons[k]].active && !(keep && els[x].sons[k] < ninitial));
      assert els[x].sons[k] in els[x].sons;
    }
  }

  /** Some element of `ids` has `x` among its sons in `els0`. */
  ghost predicate SonOfSome(els0: seq<Element>, ids: seq<int>, x: int)
  {
    exists k :: 0 <= k < |ids| && 0 <= ids[k] < |els0| && x in els0[ids[k]].sons
  }

  /**
   * After unrefining `ids` from `els0`: each of them is a live leaf with its
   * corners, edge count and parent kept, each of their old sons is out of
   * use, and every other element is as it was.
   */
  ghost predicate Swept(els0: seq<Element>, els: seq<Element>, ids: seq<int>)
  {
    |els| == |els0| && forall x :: 0 <= x < |els| ==> SweptAt(els0, els, ids, x)
  }

  /** `Swept` at element `x`. */
  ghost predicate SweptAt(els0: seq<Element>, els: seq<Element>, ids: seq<int>, x: int)
    requires 0 <= x < |els| == |els0|
  {
    if x in ids then Live(els[x]) && els[x].sons == NoSons && SameFrame(els0[x], els[x])
    else if SonOfSome(els0, ids, x) then els[x] == els0[x].(used := false)
    else els[x] == els0[x]
  }

  /**
   * `unrefine_all_elements`: the picked elements are found first and then
   * unrefined in id order, each by `unrefine_element_id`, consuming one
   * stamp and adding one log entry each.  None of them fails: a picked
   * element's sons are leaves, and unrefining one picked element touches no
   * other picked element and no other's sons.
   */
  method UnrefineAllElements(m: Mesh, keep: bool, stamp0: int) returns (stamp: int)
    requires m.Valid() && AllUndoable(m.elements)
    modifies m
    ensures m.Valid() && AllUndoable(m.elements)
    ensures Swept(old(m.elements), m.elements, old(Picked(m.elements, m.seqStamp, keep, m.ninitial)))
    ensures m.refinements == old(m.refinements) + UnrefineLog(old(Picked(m.elements, m.seqStamp, keep, m.ninitial)))
    ensures stamp == stamp0 + |old(Picked(m.elements, m.seqStamp, keep, m.ninitial))|
    ensures m.nbase == old(m.nbase) && m.ninitial == old(m.ninitial) && m.ntopvert == old(m.ntopvert)
    ensures old(m.Counted()) ==> m.Counted()
  {
    stamp := stamp0;
    var ids := FindUnrefinable(m, keep);
    ghost var els0, log0 := m.elements, m.refinements;
    ghost var nodes0, vt0, et0 := m.nodes, m.vertexTable, m.edgeTable;
    PickedSpec(els0, m.seqStamp, keep, m.ninitial);
    for i := 0 to |ids|
      invariant m.Valid() && AllUndoable(m.elements)
      invariant Swept(els0, m.elements, ids[..i])
      invariant m.refinements == log0 + UnrefineLog(ids[..i]) && stamp == stamp0 + i
      invariant m.nbase == old(m.nbase) && m.ninitial == old(m.ninitial) && m.ntopvert == old(m.ntopvert)
      invariant old(m.Counted()) ==> m.Counted()
    {
      stamp := UnrefinePicked(m, nodes0, vt0, et0, els0, ids, i, keep, stamp);
      assert UnrefineLog(ids[..i + 1]) == UnrefineLog(ids[..i]) + [(ids[i], -1)];
    }
    assert ids[..|ids|] == ids;
  }

  /** One step of the second loop of `unrefine_all_elements`: `unrefine_element_id` on the next picked element. */
  method UnrefinePicked(m: Mesh, ghost nodes0: seq<Node>, ghost vt0: map<Key, int>, ghost et0: map<Key, int>, ghost els0: seq<Element>,
                        ids: seq<int>, i: int, ghost keep: bool, stamp: int) returns (next: int)
    requires m.Valid() && AllUndoable(m.elements) && MeshOk(nodes0, vt0, et0, els0)
    requires Ascending(ids) && 0 <= i < |ids| && forall k :: 0 <= k < |ids| ==> Unrefinable(els0, ids[k], keep, m.ninitial)
    requires Swept(els0, m.elements, ids[..i])
    modifies m
    ensures m.Valid() && AllUndoable(m.elements) && Swept(els0, m.elements, ids[..i + 1])
    ensures m.refinements == old(m.refinements) + [(ids[i], -1)] && next == stamp + 1
    ensures m.nbase == old(m.nbase) && m.ninitial == old(m.ninitial) && m.ntopvert == old(m.ntopvert)
    ensures old(m.Counted()) ==> m.Counted()
  {
    ghost var els1 := m.elements;
    PendingUntouched(nodes0, vt0, et0, els0, els1, ids, i, keep, m.ninitial);
    var r;
    r, next := UnrefineElementId(m, ids[i], stamp);
    SweptStep(nodes0, vt0, et0, els0, els1, m.elements, ids, i, keep, old(m.ninitial));
  }

  /** `Picked` lists picked elements only, in increasing order. */
  lemma PickedSpec(els: seq<Element>, seqStamp: int, keep: bool, ninitial: int)
    ensures forall x :: x in Picked(els, seqStamp, keep, ninitial) <==> seqStamp >= 0 && Unrefinable(els, x, keep, ninitial)
    ensures Ascending(Picked(els, seqStamp, keep, ninitial))
  {
    if seqStamp >= 0 {
      UnrefinablesSpec(els, keep, ninitial, |els|);
    }
  }

  /** The next element to unrefine is still as it was, and so are its sons. */
  lemma PendingUntouched(nodes: seq<Node>, vt: map<Key, int>, et: map<Key, int>, els0: seq<Element>, els: seq<Element>,
                         ids: seq<int>, i: int, keep: bool, ninitial: int)
    requires MeshOk(nodes, vt, et, els0) && Ascending(ids) && 0 <= i < |ids|
    requires forall k :: 0 <= k < |ids| ==> Unrefinable(els0, ids[k], keep, ninitial)
    requires Swept(els0, els, ids[..i])
    ensures 0 <= ids[i] < |els| && els[ids[i]] == els0[ids[i]]
    ensures els[ids[i]].used && !els[ids[i]].active && SonsActive(els, ids[i])
  {
    var y := ids[i];
    assert Unrefinable(els0, y, keep, ninitial) && ElementOk(nodes, els0, y);
    NotDone(els0, ids, i, y, keep, ninitial);
    NotSonOfDone(nodes, vt, et, els0, ids, i, y, keep, ninitial);
    assert SweptAt(els0, els, ids[..i], y);
    forall s | s in els[y].sons && s != Null ensures 0 <= s < |els| && els[s].active {
      NotDone(els0, ids, i, s, keep, ninitial);
      NotSonOfDone(nodes, vt, et, els0, ids, i, s, keep, ninitial);
      assert SweptAt(els0, els, ids[..i], s);
    }
  }

  /** An element that is inactive, or active and a son of a picked element, is not among the picked elements. */
  lemma NotDone(els0: seq<Element>, ids: seq<int>, i: int, x: int, keep: bool, ninitial: int)
    requires 0 <= i <= |ids| && forall k :: 0 <= k < |ids| ==> Unrefinable(els0, ids[k], keep, ninitial)
    requires 0 <= x < |els0| && (els0[x].active || (i < |ids| && x == ids[i] && Ascending(ids)))
    ensures x !in ids[..i]
  {
    forall k | 0 <= k < i ensures ids[k] != x {
      assert Unrefinable(els0, ids[k], keep, ninitial);
    }
  }

  /** Neither the next picked element nor one of its sons is a son of an earlier picked element. */
  lemma NotSonOfDone(nodes: seq<Node>, vt: map<Key, int>, et: map<Key, int>, els0: seq<Element>,
                     ids: seq<int>, i: int, x: int, keep: bool, ninitial: int)
    requires MeshOk(nodes, vt, et, els0) && Ascending(ids) && 0 <= i < |ids|
    requires forall k :: 0 <= k < |ids| ==> Unrefinable(els0, ids[k], keep, ninitial)
    requires 0 <= ids[i] < |els0| && (x == ids[i] || (x in els0[ids[i]].sons && x != Null))
    ensures !SonOfSome(els0, ids[..i], x)
  {
    var y := ids[i];
    assert ElementOk(nodes, els0, y);
    forall k | 0 <= k < i && 0 <= ids[k] < |els0| ensures x !in els0[ids[k]].sons {
      assert Unrefinable(els0, ids[k], keep, ninitial) && ElementOk(nodes, els0, ids[k]);
      assert ids[k] < y;
    }
  }

  /** The sons of some element of `ids + [y]` are those of some element of `ids` and those of `y`. */
  lemma SonOfSomeSnoc(els0: seq<Element>, ids: seq<int>, y: int, x: int)
    requires 0 <= y < |els0|
    ensures SonOfSome(els0, ids + [y], x) <==> SonOfSome(els0, ids, x) || x in els0[y].sons
  {
    var ids' := ids + [y];
    if SonOfSome(els0, ids', x) {
      var k :| 0 <= k < |ids'| && 0 <= ids'[k] < |els0| && x in els0[ids'[k]].sons;
      if k < |ids| {
        assert ids[k] == ids'[k];
      }
    }
    if SonOfSome(els0, ids, x) {
      var k :| 0 <= k < |ids| && 0 <= ids[k] < |els0| && x in els0[ids[k]].sons;
      assert ids'[k] == ids[k];
    }
    if x in els0[y].sons {
      assert ids'[|ids|] == y;
    }
  }

  /** Unrefining the next picked element extends the sweep by one. */
  lemma SweptStep(nodes: seq<Node>, vt: map<Key, int>, et: map<Key, int>, els0: seq<Element>, els1: seq<Element>, els: seq<Element>,
                  ids: seq<int>, i: int, keep: bool, ninitial: int)
    requires MeshOk(nodes, vt, et, els0) && Ascending(ids) && 0 <= i < |ids|
    requires forall k :: 0 <= k < |ids| ==> Unrefinable(els0, ids[k], keep, ninitial)
    requires Swept(els0, els1, ids[..i])
    requires 0 <= ids[i] < |els1| && els1[ids[i]] == els0[ids[i]]
    requires |els| == |els1| && Live(els[ids[i]]) && els[ids[i]].sons == NoSons && SameFrame(els1[ids[i]], els[ids[i]])
    requires forall x :: 0 <= x < |els| && x != ids[i] ==>
      els[x] == if x in els1[ids[i]].sons then els1[x].(used := false) else els1[x]
    ensures Swept(els0, els, ids[..i + 1])
  {
    var y := ids[i];
    var done := ids[..i];
    assert ids[..i + 1] == done + [y];
    assert Unrefinable(els0, y, keep, ninitial) && ElementOk(nodes, els0, y);
    forall x | 0 <= x < |els| ensures SweptAt(els0, els, done + [y], x) {
      assert SweptAt(els0, els1, done, x);
      SonOfSomeSnoc(els0, done, y, x);
      if x in els0[y].sons {
        NotDone(els0, ids, i, x, keep, ninitial);
        NotSonOfDone(nodes, vt, et, els0, ids, i, x, keep, ninitial);
      } else if x in done {
        assert Unrefinable(els0, x, keep, ninitial);
      }
    }
  }
}
