/**
 * `EggShell::make_egg_shell_mesh`, `fix_hanging_nodes`,
 * `mark_elements_down_used`, `fix_markers` and `get_egg_shell` in
 * hermes2d/src/mesh/mesh.cpp.  The mesh keeps all its elements; pruning
 * takes every live element and its ancestors out of use, then puts the
 * shell elements and their ancestors back, brings into use the subtrees
 * below the ancestors that own the coarse side of a hanging edge, and
 * marks the edges of what is left: `Eggshell-inner` towards the shell,
 * `Eggshell-1` and `Eggshell-0` on the new boundary.
 */
module EggShellPrune {
  import opened MeshData
  import opened MeshModel
  import opened RefineApi
  import opened ParentMap
  import opened EggShellLevels
  import Markers

  /** Every parent link of `els` points to null or to an older element. */
  ghost predicate ParentsOlder(els: seq<Element>)
  {
    forall c :: 0 <= c < |els| ==> Null <= els[c].parent < c
  }

  lemma ParentsOlderOk(nodes: seq<Node>, vt: map<Key, int>, et: map<Key, int>, els: seq<Element>)
    requires MeshOk(nodes, vt, et, els)
    ensures ParentsOlder(els)
  {
    forall c | 0 <= c < |els| ensures Null <= els[c].parent < c {
      assert ElementOk(nodes, els, c);
    }
  }

  /** An ancestor is never newer than its descendant. */
  lemma {:induction false} DescendsBelow(els: seq<Element>, x: int, a: int)
    requires Descends(els, x, a)
    ensures a <= x
    decreases x + 1
  {
    if x != a {
      DescendsBelow(els, els[x].parent, a);
    }
  }

  /** Descent is transitive. */
  lemma {:induction false} DescendsTrans(els: seq<Element>, x: int, y: int, a: int)
    requires Descends(els, x, y) && Descends(els, y, a)
    ensures Descends(els, x, a)
    decreases x + 1
  {
    if x != y {
      DescendsTrans(els, els[x].parent, y, a);
    }
  }

  /** Changes that keep every parent link keep descent, both ways. */
  lemma DescendsSame(els: seq<Element>, els': seq<Element>)
    requires |els'| == |els| && forall c :: 0 <= c < |els| ==> els'[c].parent == els[c].parent
    ensures forall x, a :: Descends(els, x, a) <==> Descends(els', x, a)
  {
    forall x, a ensures Descends(els, x, a) <==> Descends(els', x, a) {
      if Descends(els, x, a) {
        DescendsKept(els, els', x, a);
      }
      if Descends(els', x, a) {
        DescendsKept(els', els, x, a);
      }
    }
  }

  /** `x` and its ancestors with `used` set to `u`: what the walks of `make_egg_shell_mesh` do. */
  ghost function Chain(els: seq<Element>, x: int, u: bool): (r: seq<Element>)
    ensures |r| == |els|
  {
    seq(|els|, a requires 0 <= a < |els| => if Descends(els, x, a) then els[a].(used := u) else els[a])
  }

  /**
   * The part of the chain of `x` a walk now at `cur` has written: the
   * ancestors of `x` that are not ancestors of the parent of `cur`.
   */
  lemma ChainStart(els: seq<Element>, x: int, a: int)
    requires ParentsOlder(els) && 0 <= x < |els| && 0 <= a < |els|
    ensures Descends(els, x, a) && !Descends(els, els[x].parent, a) <==> a == x
  {
    if a == x && Descends(els, els[x].parent, a) {
      DescendsBelow(els, els[x].parent, a);
    }
  }

  lemma ChainNext(els: seq<Element>, x: int, cur: int, a: int)
    requires ParentsOlder(els) && 0 <= cur < |els| && 0 <= els[cur].parent && Descends(els, x, cur) && 0 <= a < |els|
    ensures var p := els[cur].parent;
      Descends(els, x, a) && !Descends(els, els[p].parent, a) <==> (Descends(els, x, a) && !Descends(els, p, a)) || a == p
  {
    var p := els[cur].parent;
    assert Descends(els, cur, p);
    DescendsTrans(els, x, cur, p);
    if a == p && Descends(els, els[p].parent, a) {
      DescendsBelow(els, els[p].parent, a);
    }
  }

  /**
   * The walk of `make_egg_shell_mesh` up the parent links: `x` and each of
   * its ancestors up to the root take `used == u`.
   */
  method SetChain(m: Mesh, x: int, u: bool)
    requires m.Valid() && 0 <= x < |m.elements|
    modifies m
    ensures m.Valid() && m.elements == Chain(old(m.elements), x, u)
    ensures m.nodes == old(m.nodes) && m.vertexTable == old(m.vertexTable) && m.edgeTable == old(m.edgeTable)
    ensures m.Counters() == old(m.Counters())
  {
    ghost var els0 := m.elements;
    ParentsOlderOk(m.nodes, m.vertexTable, m.edgeTable, m.elements);
    forall a | 0 <= a < |els0| {
      ChainStart(els0, x, a);
    }
    m.SetUsed(x, u);
    var cur := x;
    while m.elements[cur].parent != Null
      invariant m.Valid() && |m.elements| == |els0| && 0 <= cur < |els0| && Descends(els0, x, cur)
      invariant forall c :: 0 <= c < |els0| ==> m.elements[c].parent == els0[c].parent
      invariant forall a :: 0 <= a < |els0| ==>
        m.elements[a] == if Descends(els0, x, a) && !Descends(els0, els0[cur].parent, a) then els0[a].(used := u) else els0[a]
      invariant m.nodes == old(m.nodes) && m.vertexTable == old(m.vertexTable) && m.edgeTable == old(m.edgeTable)
      invariant m.Counters() == old(m.Counters())
      decreases cur
    {
      var p := m.elements[cur].parent;
      forall a | 0 <= a < |els0| {
        ChainNext(els0, x, cur, a);
      }
      assert Descends(els0, cur, p);
      DescendsTrans(els0, x, cur, p);
      m.SetUsed(p, u);
      cur := p;
    }
  }

  /**
   * The elements after the first loop of `make_egg_shell_mesh` has visited
   * the ids below `n`: every live element there and all its ancestors are
   * out of use.
   */
  ghost function Retired(els: seq<Element>, n: int): (r: seq<Element>)
    ensures |r| == |els|
  {
    seq(|els|, a requires 0 <= a < |els| => if RetiredBy(els, n, a) then els[a].(used := false) else els[a])
  }

  /** Some live element below `n` descends from `a`. */
  ghost predicate RetiredBy(els: seq<Element>, n: int, a: int)
  {
    exists x :: 0 <= x < n && x < |els| && Live(els[x]) && Descends(els, x, a)
  }

  lemma RetiredByNext(els: seq<Element>, id: int, a: int)
    requires 0 <= id < |els|
    ensures RetiredBy(els, id + 1, a) <==> RetiredBy(els, id, a) || (Live(els[id]) && Descends(els, id, a))
  {
    if RetiredBy(els, id + 1, a) {
      var x :| 0 <= x < id + 1 && x < |els| && Live(els[x]) && Descends(els, x, a);
      if x != id {
        assert RetiredBy(els, id, a);
      }
    }
    if RetiredBy(els, id, a) {
      var x :| 0 <= x < id && x < |els| && Live(els[x]) && Descends(els, x, a);
      assert 0 <= x < id + 1;
    }
    if Live(els[id]) && Descends(els, id, a) {
      assert 0 <= id < id + 1 && Live(els[id]) && Descends(els, id, a);
    }
  }

  /** Id `id` itself is still untouched when the first loop reaches it. */
  lemma RetiredHead(els: seq<Element>, id: int)
    requires ParentsOlder(els) && 0 <= id < |els|
    ensures Retired(els, id)[id] == els[id]
  {
    if RetiredBy(els, id, id) {
      var x :| 0 <= x < id && x < |els| && Live(els[x]) && Descends(els, x, id);
      DescendsBelow(els, x, id);
    }
  }

  /** One more id of the first loop, when that element is live. */
  lemma RetiredLiveStep(els: seq<Element>, id: int)
    requires 0 <= id < |els| && Live(els[id])
    ensures Chain(Retired(els, id), id, false) == Retired(els, id + 1)
  {
    var r := Retired(els, id);
    DescendsSame(els, r);
    var c, next := Chain(r, id, false), Retired(els, id + 1);
    forall a | 0 <= a < |els| ensures c[a] == next[a] {
      RetiredByNext(els, id, a);
    }
  }

  /** One more id of the first loop, when that element is not live. */
  lemma RetiredIdleStep(els: seq<Element>, id: int)
    requires 0 <= id < |els| && !Live(els[id])
    ensures Retired(els, id) == Retired(els, id + 1)
  {
    var r, next := Retired(els, id), Retired(els, id + 1);
    forall a | 0 <= a < |els| ensures r[a] == next[a] {
      RetiredByNext(els, id, a);
    }
  }

  /**
   * The first loop of `make_egg_shell_mesh`: each live element below `n`
   * and its ancestors leave use.
   */
  method RetireLive(m: Mesh, n: int)
    requires m.Valid() && 0 <= n <= |m.elements|
    modifies m
    ensures m.Valid() && m.elements == Retired(old(m.elements), n)
    ensures m.nodes == old(m.nodes) && m.vertexTable == old(m.vertexTable) && m.edgeTable == old(m.edgeTable)
    ensures m.Counters() == old(m.Counters())
  {
    ghost var els0 := m.elements;
    ParentsOlderOk(m.nodes, m.vertexTable, m.edgeTable, m.elements);
    for id := 0 to n
      invariant m.Valid() && m.elements == Retired(els0, id)
      invariant m.nodes == old(m.nodes) && m.vertexTable == old(m.vertexTable) && m.edgeTable == old(m.edgeTable)
      invariant m.Counters() == old(m.Counters())
    {
      RetiredHead(els0, id);
      if Live(m.elements[id]) {
        RetiredLiveStep(els0, id);
        SetChain(m, id, false);
      } else {
        RetiredIdleStep(els0, id);
      }
    }
  }

  /**
   * The elements after the second loop of `make_egg_shell_mesh` has
   * visited the first `i` shell elements: each of them and all its
   * ancestors are in use.
   */
  ghost function Revived(els: seq<Element>, shell: seq<int>, i: int): (r: seq<Element>)
    ensures |r| == |els|
  {
    seq(|els|, a requires 0 <= a < |els| =>
      if exists j :: 0 <= j < i && j < |shell| && Descends(els, shell[j], a) then els[a].(used := true) else els[a])
  }

  /** One more shell element of the second loop. */
  lemma RevivedStep(els: seq<Element>, shell: seq<int>, i: int)
    requires 0 <= i < |shell|
    ensures Chain(Revived(els, shell, i), shell[i], true) == Revived(els, shell, i + 1)
  {
    var r := Revived(els, shell, i);
    DescendsSame(els, r);
    var c, next := Chain(r, shell[i], true), Revived(els, shell, i + 1);
    forall a | 0 <= a < |els| ensures c[a] == next[a] {
      if Descends(els, shell[i], a) {
        assert 0 <= i < i + 1 && Descends(els, shell[i], a);
      }
      if exists j :: 0 <= j < i + 1 && j < |shell| && Descends(els, shell[j], a) {
        var j :| 0 <= j < i + 1 && j < |shell| && Descends(els, shell[j], a);
        if j < i {
          assert 0 <= j < i && Descends(els, shell[j], a);
        }
      }
    }
  }

  /**
   * The second loop of `make_egg_shell_mesh`, after `nactive = 0`: each
   * shell element and its ancestors come back into use, and `nactive`
   * counts the shell elements.
   */
  method ReviveShell(m: Mesh, shell: seq<int>)
    requires m.Valid() && forall s :: s in shell ==> 0 <= s < |m.elements|
    modifies m
    ensures m.Valid() && m.elements == Revived(old(m.elements), shell, |shell|)
    ensures m.nactive == |shell|
    ensures m.nodes == old(m.nodes) && m.vertexTable == old(m.vertexTable) && m.edgeTable == old(m.edgeTable)
    ensures m.Stamps() == old(m.Stamps())
  {
    ghost var els0 := m.elements;
    m.nactive := 0;
    assert Revived(els0, shell, 0) == els0;
    for i := 0 to |shell|
      invariant m.Valid() && m.elements == Revived(els0, shell, i) && m.nactive == i
      invariant m.nodes == old(m.nodes) && m.vertexTable == old(m.vertexTable) && m.edgeTable == old(m.edgeTable)
      invariant m.Stamps() == old(m.Stamps())
    {
      RevivedStep(els0, shell, i);
      assert shell[i] in shell;
      SetChain(m, shell[i], true);
      m.nactive := m.nactive + 1;
    }
  }

  /**
   * What the two loops leave: the shell elements and their ancestors are
   * in use; a live element below `n` that is no ancestor of a shell
   * element is not; every element keeps all but its `used` flag, and one
   * that is neither is untouched.
   */
  lemma PrunedSpec(els: seq<Element>, n: int, shell: seq<int>, a: int)
    requires ParentsOlder(els) && 0 <= n <= |els| && 0 <= a < |els|
    ensures var p := Revived(Retired(els, n), shell, |shell|);
      && p[a] == els[a].(used := p[a].used)
      && ((exists s :: s in shell && Descends(els, s, a)) ==> p[a].used)
      && (a < n && Live(els[a]) && !(exists s :: s in shell && Descends(els, s, a)) ==> !p[a].used)
      && ((!(exists s :: s in shell && Descends(els, s, a))
           && !(exists x :: 0 <= x < n && Live(els[x]) && Descends(els, x, a))) ==> p[a] == els[a])
  {
    var r := Retired(els, n);
    DescendsSame(els, r);
    if exists s :: s in shell && Descends(els, s, a) {
      var s :| s in shell && Descends(els, s, a);
      var j :| 0 <= j < |shell| && shell[j] == s;
      assert Descends(r, shell[j], a);
    }
    if a < n && Live(els[a]) {
      assert Descends(els, a, a);
    }
  }

  /** `d` lies in the subtree of `a` that `mark_elements_down_used` walks: through inactive elements and their sons. */
  ghost predicate Under(els: seq<Element>, a: int, d: int)
    decreases |els| - a
  {
    0 <= a < |els|
    && (d == a
        || (!els[a].active
            && exists k :: 0 <= k < |els[a].sons| && a < els[a].sons[k] < |els| && Under(els, els[a].sons[k], d)))
  }

  /** A subtree only holds elements at least as new as its root. */
  lemma {:induction false} UnderBelow(els: seq<Element>, a: int, d: int)
    requires Under(els, a, d)
    ensures a <= d < |els|
    decreases |els| - a
  {
    if d != a {
      var k :| 0 <= k < |els[a].sons| && a < els[a].sons[k] < |els| && Under(els, els[a].sons[k], d);
      UnderBelow(els, els[a].sons[k], d);
    }
  }

  /** The elements keep their activity and their sons. */
  ghost predicate SameTree(els: seq<Element>, els': seq<Element>)
  {
    |els'| == |els| && forall c :: 0 <= c < |els| ==> els'[c].active == els[c].active && els'[c].sons == els[c].sons
  }

  lemma {:induction false} UnderSame(els: seq<Element>, els': seq<Element>, a: int, d: int)
    requires SameTree(els, els')
    ensures Under(els, a, d) <==> Under(els', a, d)
    decreases |els| - a
  {
    if 0 <= a < |els| && d != a && !els[a].active {
      forall k | 0 <= k < |els[a].sons| && a < els[a].sons[k] < |els|
        ensures Under(els, els[a].sons[k], d) <==> Under(els', els[a].sons[k], d)
      {
        UnderSame(els, els', els[a].sons[k], d);
      }
    }
  }

  /**
   * What `mark_elements_down_used` does to one element: an unused active
   * one takes the marker, and every one comes into use.
   */
  function Touch(el: Element, mk: int): (r: Element)
    ensures r.used
    ensures r == el.(used := true, marker := r.marker)
    ensures r.marker == if !el.used && el.active then mk else el.marker
  {
    el.(used := true, marker := if !el.used && el.active then mk else el.marker)
  }

  /** The elements after marking down from each of the roots in `roots`, in any order. */
  ghost function DownAll(els: seq<Element>, roots: set<int>, mk: int): (r: seq<Element>)
    ensures |r| == |els|
  {
    seq(|els|, d requires 0 <= d < |els| => if exists a :: a in roots && Under(els, a, d) then Touch(els[d], mk) else els[d])
  }

  lemma DownAllTree(els: seq<Element>, roots: set<int>, mk: int)
    ensures SameTree(els, DownAll(els, roots, mk)) && Skeleton(els, DownAll(els, roots, mk))
  {
  }

  /** Marking down from one more root. */
  lemma DownAllAdd(els: seq<Element>, roots: set<int>, a: int, mk: int)
    ensures var cur := DownAll(els, roots, mk);
      DownAll(cur, {a}, mk) == DownAll(els, roots + {a}, mk)
  {
    var cur := DownAll(els, roots, mk);
    var l, r := DownAll(cur, {a}, mk), DownAll(els, roots + {a}, mk);
    forall d | 0 <= d < |els| ensures l[d] == r[d] {
      UnderSame(els, cur, a, d);
      if exists b :: b in roots && Under(els, b, d) {
        var b :| b in roots && Under(els, b, d);
        assert b in roots + {a};
      }
      if exists b :: b in roots + {a} && Under(els, b, d) {
        var b :| b in roots + {a} && Under(els, b, d);
        if b != a {
          assert b in roots;
        }
      }
      if Under(els, a, d) {
        assert a in roots + {a};
        assert Under(cur, a, d);
        assert a in {a};
      }
      if exists b :: b in {a} && Under(cur, b, d) {
        var b :| b in {a} && Under(cur, b, d);
        assert b == a;
      }
    }
  }

  /** The sons of `a` among its first `i` slots. */
  ghost function SonsBefore(els: seq<Element>, a: int, i: int): set<int>
    requires 0 <= a < |els|
  {
    set k | 0 <= k < i && k < |els[a].sons| && a < els[a].sons[k] < |els| :: els[a].sons[k]
  }

  /** The subtree of an inactive element is itself and the subtrees of its sons. */
  lemma UnderSons(els: seq<Element>, a: int, mk: int)
    requires 0 <= a < |els| && !els[a].active
    requires forall s :: s in els[a].sons ==> s == Null || a < s < |els|
    ensures DownAll(els, SonsBefore(els, a, |els[a].sons|), mk)[a] == els[a]
    ensures DownAll(els, {a}, mk) == DownAll(els, SonsBefore(els, a, |els[a].sons|), mk)[a := els[a].(used := true)]
  {
    if exists b :: b in SonsBefore(els, a, |els[a].sons|) && Under(els, b, a) {
      var b :| b in SonsBefore(els, a, |els[a].sons|) && Under(els, b, a);
      UnderBelow(els, b, a);
    }
    var l, r := DownAll(els, {a}, mk), DownAll(els, SonsBefore(els, a, |els[a].sons|), mk);
    forall d | 0 <= d < |els| ensures l[d] == r[a := els[a].(used := true)][d] {
      if d == a {
        assert a in {a} && Under(els, a, a);
      } else {
        if Under(els, a, d) {
          var k :| 0 <= k < |els[a].sons| && a < els[a].sons[k] < |els| && Under(els, els[a].sons[k], d);
          assert els[a].sons[k] in SonsBefore(els, a, |els[a].sons|);
        }
        if exists b :: b in SonsBefore(els, a, |els[a].sons|) && Under(els, b, d) {
          var b :| b in SonsBefore(els, a, |els[a].sons|) && Under(els, b, d);
          var k :| 0 <= k < |els[a].sons| && a < els[a].sons[k] < |els| && els[a].sons[k] == b;
          assert Under(els, a, d);
          assert a in {a};
        }
        if exists b :: b in {a} && Under(els, b, d) {
          assert Under(els, a, d);
        }
      }
    }
  }

  /** The subtree of an active element is itself. */
  lemma UnderActive(els: seq<Element>, a: int, mk: int)
    requires 0 <= a < |els| && els[a].active
    ensures DownAll(els, {a}, mk) == els[a := Touch(els[a], mk)]
  {
    var l := DownAll(els, {a}, mk);
    forall d | 0 <= d < |els| ensures l[d] == els[a := Touch(els[a], mk)][d] {
      assert a in {a} && Under(els, a, a);
      if exists b :: b in {a} && Under(els, b, d) {
        assert Under(els, a, d);
      }
    }
  }

  /**
   * `mark_elements_down_used`: the subtree of `a` comes into use, and its
   * unused active elements take marker `mk`.
   */
  method MarkDown(m: Mesh, a: int, mk: int)
    requires m.Valid() && 0 <= a < |m.elements|
    modifies m
    ensures m.Valid() && m.elements == DownAll(old(m.elements), {a}, mk)
    ensures m.nodes == old(m.nodes) && m.vertexTable == old(m.vertexTable) && m.edgeTable == old(m.edgeTable)
    ensures m.Counters() == old(m.Counters())
    decreases |m.elements| - a, 1
  {
    ghost var els0 := m.elements;
    if !m.elements[a].used && m.elements[a].active {
      m.SetElementMarker(a, mk);
    }
    if !m.elements[a].active {
      assert ElementOk(m.nodes, els0, a);
      MarkSons(m, a, mk);
      UnderSons(els0, a, mk);
    } else {
      UnderActive(els0, a, mk);
    }
    m.SetUsed(a, true);
  }

  /** The loop of `mark_elements_down_used` over the four son slots of an inactive element. */
  method MarkSons(m: Mesh, a: int, mk: int)
    requires m.Valid() && 0 <= a < |m.elements| && !m.elements[a].active
    modifies m
    ensures m.Valid() && m.elements == DownAll(old(m.elements), SonsBefore(old(m.elements), a, 4), mk)
    ensures m.nodes == old(m.nodes) && m.vertexTable == old(m.vertexTable) && m.edgeTable == old(m.edgeTable)
    ensures m.Counters() == old(m.Counters())
    decreases |m.elements| - a, 0
  {
    ghost var els0 := m.elements;
    assert ElementOk(m.nodes, els0, a);
    assert DownAll(els0, SonsBefore(els0, a, 0), mk) == els0;
    for i := 0 to 4
      invariant m.Valid() && m.elements == DownAll(els0, SonsBefore(els0, a, i), mk)
      invariant m.nodes == old(m.nodes) && m.vertexTable == old(m.vertexTable) && m.edgeTable == old(m.edgeTable)
      invariant m.Counters() == old(m.Counters())
    {
      SonStep(els0, a, i, mk);
      var s := m.elements[a].sons[i];
      if s != Null {
        MarkDown(m, s, mk);
      }
    }
  }

  /** One son slot of `MarkSons`. */
  lemma SonStep(els: seq<Element>, a: int, i: int, mk: int)
    requires 0 <= a < |els| && 0 <= i < |els[a].sons|
    requires forall s :: s in els[a].sons ==> s == Null || a < s < |els|
    ensures var cur, s := DownAll(els, SonsBefore(els, a, i), mk), els[a].sons[i];
      && cur[a].sons[i] == s
      && (s != Null ==> a < s < |els| && DownAll(cur, {s}, mk) == DownAll(els, SonsBefore(els, a, i + 1), mk))
      && (s == Null ==> cur == DownAll(els, SonsBefore(els, a, i + 1), mk))
  {
    var s := els[a].sons[i];
    assert s in els[a].sons;
    DownAllTree(els, SonsBefore(els, a, i), mk);
    SonsNext(els, a, i);
    if s != Null {
      DownAllAdd(els, SonsBefore(els, a, i), s, mk);
    }
  }

  lemma SonsNext(els: seq<Element>, a: int, i: int)
    requires 0 <= a < |els| && 0 <= i < |els[a].sons|
    requires els[a].sons[i] == Null || a < els[a].sons[i] < |els|
    ensures SonsBefore(els, a, i + 1) == SonsBefore(els, a, i) + if els[a].sons[i] == Null then {} else {els[a].sons[i]}
  {
  }

  /** Parents are older and every element has corners: what the ancestor walk of `fix_hanging_nodes` relies on. */
  ghost predicate WalkReady(els: seq<Element>)
  {
    forall c :: 0 <= c < |els| ==> Null <= els[c].parent < c && |els[c].vn| >= 3
  }

  lemma WalkReadyOk(nodes: seq<Node>, vt: map<Key, int>, et: map<Key, int>, els: seq<Element>)
    requires MeshOk(nodes, vt, et, els)
    ensures WalkReady(els)
  {
    forall c | 0 <= c < |els| ensures Null <= els[c].parent < c && |els[c].vn| >= 3 {
      assert ElementOk(nodes, els, c);
    }
  }

  /**
   * A step of the walk from `c` may read corners `e` and `e + 1` (modulo
   * the corner count of `c`) of the parent of `c`.
   */
  predicate Reads(els: seq<Element>, c: int, e: int)
  {
    0 <= c < |els| && 0 <= els[c].parent < |els| && |els[c].vn| > 0
    && 0 <= e < |els[els[c].parent].vn| && (e + 1) % |els[c].vn| < |els[els[c].parent].vn|
  }

  /** The key the walk looks up in the parent of `c`. */
  function ParentKey(els: seq<Element>, c: int, e: int): (k: Key)
    requires Reads(els, c, e)
  {
    var pvn := els[els[c].parent].vn;
    KeyOf(pvn[e], pvn[(e + 1) % |els[c].vn|])
  }

  /** `peek_edge_node` finds a node for `k`, and some element lies on it. */
  predicate EdgeUsed(nodes: seq<Node>, et: map<Key, int>, k: Key)
  {
    k in et && 0 <= et[k] < |nodes| && nodes[et[k]].ref >= 1
  }

  /** The parent of `q` owns edge `e`, read through `q`. */
  predicate Owns(els: seq<Element>, nodes: seq<Node>, et: map<Key, int>, q: int, e: int)
  {
    Reads(els, q, e) && EdgeUsed(nodes, et, ParentKey(els, q, e))
  }

  /**
   * The ancestor walk of `fix_hanging_nodes` from `c` for edge `e`: the
   * first ancestor that owns the edge, an error when the root is passed
   * (`assert(processed)`), or one when a parent lacks a corner the walk
   * reads.
   */
  function Walk(els: seq<Element>, nodes: seq<Node>, et: map<Key, int>, c: int, e: int): (r: Result<int>)
    requires WalkReady(els) && 0 <= c < |els| && 0 <= e
    decreases c
  {
    var p := els[c].parent;
    if p == Null then Err(UnmatchedHangingEdge)
    else if !Reads(els, c, e) then Err(MissingVertex)
    else if EdgeUsed(nodes, et, ParentKey(els, c, e)) then Ok(p)
    else Walk(els, nodes, et, p, e)
  }

  /** A walk fails only by passing the root or by missing a corner. */
  lemma {:induction false} WalkErrors(els: seq<Element>, nodes: seq<Node>, et: map<Key, int>, c: int, e: int)
    requires WalkReady(els) && 0 <= c < |els| && 0 <= e && Walk(els, nodes, et, c, e).Err?
    ensures Walk(els, nodes, et, c, e).error in {UnmatchedHangingEdge, MissingVertex}
    decreases c
  {
    var p := els[c].parent;
    if p != Null && Reads(els, c, e) && !EdgeUsed(nodes, et, ParentKey(els, c, e)) {
      WalkErrors(els, nodes, et, p, e);
    }
  }

  /** A walk that succeeds ends at the parent of an element on the chain of `c` through which it owns the edge. */
  lemma {:induction false} WalkFound(els: seq<Element>, nodes: seq<Node>, et: map<Key, int>, c: int, e: int)
    requires WalkReady(els) && 0 <= c < |els| && 0 <= e && Walk(els, nodes, et, c, e).Ok?
    ensures var p := Walk(els, nodes, et, c, e).value;
      0 <= p < c && exists q :: Descends(els, c, q) && Owns(els, nodes, et, q, e) && els[q].parent == p
    decreases c
  {
    var p := els[c].parent;
    if Reads(els, c, e) && EdgeUsed(nodes, et, ParentKey(els, c, e)) {
      assert Descends(els, c, c);
    } else {
      WalkFound(els, nodes, et, p, e);
      var q :| Descends(els, p, q) && Owns(els, nodes, et, q, e) && els[q].parent == Walk(els, nodes, et, p, e).value;
      assert Descends(els, c, q);
    }
  }

  /** A walk that passes the root met no element on the chain through which its parent owns the edge. */
  lemma {:induction false} WalkNone(els: seq<Element>, nodes: seq<Node>, et: map<Key, int>, c: int, e: int, q: int)
    requires WalkReady(els) && 0 <= c < |els| && 0 <= e
    requires Walk(els, nodes, et, c, e) == Err(UnmatchedHangingEdge) && Descends(els, c, q)
    ensures !Owns(els, nodes, et, q, e)
    decreases c
  {
    if q != c && els[c].parent != Null {
      WalkNone(els, nodes, et, els[c].parent, e, q);
    }
  }

  /** Walks only look at parents and corners, and at the reference counts of the nodes. */
  lemma {:induction false} WalkSame(els: seq<Element>, els': seq<Element>, nodes: seq<Node>, nodes': seq<Node>, et: map<Key, int>, c: int, e: int)
    requires WalkReady(els) && 0 <= c < |els| && 0 <= e && Skeleton(els, els') && NodesAlike(nodes, nodes')
    ensures WalkReady(els') && Walk(els', nodes', et, c, e) == Walk(els, nodes, et, c, e)
    decreases c
  {
    if els[c].parent != Null {
      WalkSame(els, els', nodes, nodes', et, els[c].parent, e);
    }
  }

  /** The walk's assumptions hold on the same skeleton. */
  lemma SkeletonReady(els: seq<Element>, els': seq<Element>)
    requires WalkReady(els) && Skeleton(els, els')
    ensures WalkReady(els') && |els'| == |els|
  {
  }

  /** `nodes'` is `nodes` with some markers changed, as the shell search leaves them. */
  ghost predicate NodesAlike(nodes: seq<Node>, nodes': seq<Node>)
  {
    |nodes'| == |nodes| && forall z :: 0 <= z < |nodes| ==> nodes'[z] == nodes[z].(marker := nodes'[z].marker)
  }

  /** The elements keep their corners, edges and parents. */
  ghost predicate Skeleton(els: seq<Element>, els': seq<Element>)
  {
    |els'| == |els|
    && forall c :: 0 <= c < |els| ==> els'[c].parent == els[c].parent && els'[c].vn == els[c].vn && els'[c].en == els[c].en
  }

  /** The walk of `fix_hanging_nodes` as the source writes it: a loop up the parent links. */
  method WalkUp(m: Mesh, x: int, e: int) returns (r: Result<int>)
    requires m.Valid() && 0 <= x < |m.elements| && 0 <= e
    ensures WalkReady(m.elements) && r == Walk(m.elements, m.nodes, m.edgeTable, x, e)
  {
    WalkReadyOk(m.nodes, m.vertexTable, m.edgeTable, m.elements);
    var cur := x;
    while m.elements[cur].parent != Null
      invariant 0 <= cur < |m.elements| && Walk(m.elements, m.nodes, m.edgeTable, cur, e) == Walk(m.elements, m.nodes, m.edgeTable, x, e)
      decreases cur
    {
      var p := m.elements[cur].parent;
      if !(e < |m.elements[p].vn| && (e + 1) % |m.elements[cur].vn| < |m.elements[p].vn|) {
        return Err(MissingVertex);
      }
      var k := KeyOf(m.elements[p].vn[e], m.elements[p].vn[(e + 1) % |m.elements[cur].vn|]);
      if k in m.edgeTable && 0 <= m.edgeTable[k] < |m.nodes| && m.nodes[m.edgeTable[k]].ref >= 1 {
        return Ok(p);
      }
      cur := p;
    }
    return Err(UnmatchedHangingEdge);
  }

  /**
   * Edge `e` of `x` hangs: it is no boundary edge, it lacks an element on
   * one of its sides, and no vertex sits at its midpoint (the neighbour
   * there is not finer).
   */
  ghost predicate Hanging(els: seq<Element>, nodes: seq<Node>, vt: map<Key, int>, x: int, e: int)
  {
    0 <= x < |els| && 0 <= e < |els[x].vn| && e < |els[x].en| && 0 <= els[x].en[e] < |nodes|
    && var z := nodes[els[x].en[e]];
      !z.bnd && z.ref < 2 && KeyOf(z.p1, z.p2) !in vt
  }

  /** The ancestors found for the hanging edges of `x` among its first `n`. */
  ghost function ElemRoots(els: seq<Element>, nodes: seq<Node>, vt: map<Key, int>, et: map<Key, int>, x: int, n: int): set<int>
    requires WalkReady(els) && 0 <= x < |els|
  {
    set p | 0 <= p < |els| && exists e :: 0 <= e < n && Hanging(els, nodes, vt, x, e) && Walk(els, nodes, et, x, e) == Ok(p)
  }

  /** No hanging edge of `x` among its first `n` makes its walk fail. */
  ghost predicate ElemOk(els: seq<Element>, nodes: seq<Node>, vt: map<Key, int>, et: map<Key, int>, x: int, n: int)
    requires WalkReady(els) && 0 <= x < |els|
  {
    forall e :: 0 <= e < n && Hanging(els, nodes, vt, x, e) ==> Walk(els, nodes, et, x, e).Ok?
  }

  /** The shell's ids are elements. */
  ghost predicate ShellIds(els: seq<Element>, shell: seq<int>)
  {
    forall s :: s in shell ==> 0 <= s < |els|
  }

  /** The ancestors found for the hanging edges of the first `i` shell elements. */
  ghost function ShellRoots(els: seq<Element>, nodes: seq<Node>, vt: map<Key, int>, et: map<Key, int>, shell: seq<int>, i: int): set<int>
    requires WalkReady(els) && ShellIds(els, shell) && 0 <= i <= |shell|
  {
    if i == 0 then {}
    else
      assert shell[i - 1] in shell;
      ShellRoots(els, nodes, vt, et, shell, i - 1) + ElemRoots(els, nodes, vt, et, shell[i - 1], |els[shell[i - 1]].vn|)
  }

  /** No hanging edge of the first `i` shell elements makes its walk fail. */
  ghost predicate ShellOk(els: seq<Element>, nodes: seq<Node>, vt: map<Key, int>, et: map<Key, int>, shell: seq<int>, i: int)
    requires WalkReady(els)
  {
    forall j :: 0 <= j < i && j < |shell| && 0 <= shell[j] < |els| ==> ElemOk(els, nodes, vt, et, shell[j], |els[shell[j]].vn|)
  }

  /** One more edge of `x`. */
  lemma ElemRootsNext(els: seq<Element>, nodes: seq<Node>, vt: map<Key, int>, et: map<Key, int>, x: int, e: int)
    requires WalkReady(els) && 0 <= x < |els| && 0 <= e
    ensures ElemRoots(els, nodes, vt, et, x, e + 1) ==
      ElemRoots(els, nodes, vt, et, x, e)
      + if Hanging(els, nodes, vt, x, e) && Walk(els, nodes, et, x, e).Ok? then {Walk(els, nodes, et, x, e).value} else {}
    ensures ElemOk(els, nodes, vt, et, x, e + 1) <==>
      ElemOk(els, nodes, vt, et, x, e) && (Hanging(els, nodes, vt, x, e) ==> Walk(els, nodes, et, x, e).Ok?)
  {
    if Hanging(els, nodes, vt, x, e) && Walk(els, nodes, et, x, e).Ok? {
      WalkFound(els, nodes, et, x, e);
    }
  }

  /** One more shell element. */
  lemma ShellNext(els: seq<Element>, nodes: seq<Node>, vt: map<Key, int>, et: map<Key, int>, shell: seq<int>, i: int)
    requires WalkReady(els) && ShellIds(els, shell) && 0 <= i < |shell|
    ensures 0 <= shell[i] < |els|
    ensures ShellRoots(els, nodes, vt, et, shell, i + 1) ==
      ShellRoots(els, nodes, vt, et, shell, i) + ElemRoots(els, nodes, vt, et, shell[i], |els[shell[i]].vn|)
    ensures ShellOk(els, nodes, vt, et, shell, i + 1) <==>
      ShellOk(els, nodes, vt, et, shell, i) && ElemOk(els, nodes, vt, et, shell[i], |els[shell[i]].vn|)
    ensures !ElemOk(els, nodes, vt, et, shell[i], |els[shell[i]].vn|) ==> !ShellOk(els, nodes, vt, et, shell, |shell|)
  {
    assert shell[i] in shell;
  }

  /** Hanging edges and their walks read the same on elements with the same skeleton and nodes that differ in markers. */
  lemma ElemAlike(els: seq<Element>, els': seq<Element>, nodes: seq<Node>, nodes': seq<Node>, vt: map<Key, int>, et: map<Key, int>, x: int)
    requires WalkReady(els) && 0 <= x < |els| && Skeleton(els, els') && NodesAlike(nodes, nodes')
    ensures WalkReady(els')
    ensures ElemRoots(els', nodes', vt, et, x, |els[x].vn|) == ElemRoots(els, nodes, vt, et, x, |els[x].vn|)
    ensures ElemOk(els', nodes', vt, et, x, |els[x].vn|) <==> ElemOk(els, nodes, vt, et, x, |els[x].vn|)
  {
    forall e | 0 <= e
      ensures Hanging(els', nodes', vt, x, e) == Hanging(els, nodes, vt, x, e)
      ensures Walk(els', nodes', et, x, e) == Walk(els, nodes, et, x, e)
    {
      WalkSame(els, els', nodes, nodes', et, x, e);
    }
  }

  /** The ancestors found for the shell do not depend on markers or `used` flags. */
  lemma {:induction false} ShellRootsAlike(els: seq<Element>, els': seq<Element>, nodes: seq<Node>, nodes': seq<Node>,
                                           vt: map<Key, int>, et: map<Key, int>, shell: seq<int>, i: int)
    requires WalkReady(els) && ShellIds(els, shell) && 0 <= i <= |shell| && Skeleton(els, els') && NodesAlike(nodes, nodes')
    ensures WalkReady(els') && ShellIds(els', shell)
    ensures ShellRoots(els', nodes', vt, et, shell, i) == ShellRoots(els, nodes, vt, et, shell, i)
    decreases i
  {
    SkeletonReady(els, els');
    if i > 0 {
      assert shell[i - 1] in shell;
      var x := shell[i - 1];
      assert |els'[x].vn| == |els[x].vn|;
      ShellRootsAlike(els, els', nodes, nodes', vt, et, shell, i - 1);
      ElemAlike(els, els', nodes, nodes', vt, et, x);
    }
  }

  /** Whether every walk of the shell succeeds does not depend on markers or `used` flags. */
  lemma {:induction false} ShellOkAlike(els: seq<Element>, els': seq<Element>, nodes: seq<Node>, nodes': seq<Node>,
                                        vt: map<Key, int>, et: map<Key, int>, shell: seq<int>, i: int)
    requires WalkReady(els) && ShellIds(els, shell) && 0 <= i <= |shell| && Skeleton(els, els') && NodesAlike(nodes, nodes')
    ensures WalkReady(els')
    ensures ShellOk(els', nodes', vt, et, shell, i) <==> ShellOk(els, nodes, vt, et, shell, i)
    decreases i
  {
    SkeletonReady(els, els');
    if i > 0 {
      assert shell[i - 1] in shell;
      var x := shell[i - 1];
      assert |els'[x].vn| == |els[x].vn|;
      ShellOkAlike(els, els', nodes, nodes', vt, et, shell, i - 1);
      ElemAlike(els, els', nodes, nodes', vt, et, x);
      ShellNext(els, nodes, vt, et, shell, i - 1);
      ShellNext(els', nodes', vt, et, shell, i - 1);
    }
  }

  /**
   * Each ancestor found for a hanging edge of the first `n` shell elements
   * owns that edge through an element on the chain of the shell element.
   */
  lemma {:induction false} RootsOwnEdges(els: seq<Element>, nodes: seq<Node>, vt: map<Key, int>, et: map<Key, int>,
                                         shell: seq<int>, n: int, p: int)
    requires WalkReady(els) && ShellIds(els, shell) && 0 <= n <= |shell| && p in ShellRoots(els, nodes, vt, et, shell, n)
    ensures exists i, e, q ::
      && 0 <= i < n && Hanging(els, nodes, vt, shell[i], e)
      && Descends(els, shell[i], q) && Owns(els, nodes, et, q, e) && els[q].parent == p
    decreases n
  {
    var x := shell[n - 1];
    assert x in shell;
    if p in ElemRoots(els, nodes, vt, et, x, |els[x].vn|) {
      var e :| 0 <= e < |els[x].vn| && Hanging(els, nodes, vt, x, e) && Walk(els, nodes, et, x, e) == Ok(p);
      WalkFound(els, nodes, et, x, e);
      var q :| Descends(els, x, q) && Owns(els, nodes, et, q, e) && els[q].parent == p;
      assert 0 <= n - 1 < n && Hanging(els, nodes, vt, shell[n - 1], e) && Descends(els, shell[n - 1], q);
    } else {
      RootsOwnEdges(els, nodes, vt, et, shell, n - 1, p);
      var i, e, q :| 0 <= i < n - 1 && Hanging(els, nodes, vt, shell[i], e)
        && Descends(els, shell[i], q) && Owns(els, nodes, et, q, e) && els[q].parent == p;
      assert 0 <= i < n;
    }
  }

  /**
   * One edge of the loops of `fix_hanging_nodes`: a hanging edge walks up
   * to the ancestor owning it and marks down from there, or stops the
   * whole operation when the walk fails.
   */
  method FixEdge(m: Mesh, x: int, e: int, mk: int) returns (r: Outcome)
    requires m.Valid() && 0 <= x < |m.elements| && 0 <= e < |m.elements[x].vn|
    modifies m
    ensures m.Valid() && WalkReady(old(m.elements))
    ensures var h, w := Hanging(old(m.elements), m.nodes, m.vertexTable, x, e), Walk(old(m.elements), m.nodes, m.edgeTable, x, e);
      && (r.Pass? <==> !h || w.Ok?)
      && (r.Fail? ==> w == Err(r.error) && m.elements == old(m.elements))
      && (r.Pass? ==> m.elements == if h then DownAll(old(m.elements), {w.value}, mk) else old(m.elements))
    ensures r.Fail? ==> r.error in {UnmatchedHangingEdge, MissingVertex}
    ensures m.nodes == old(m.nodes) && m.vertexTable == old(m.vertexTable) && m.edgeTable == old(m.edgeTable)
    ensures m.Counters() == old(m.Counters())
  {
    assert ElementOk(m.nodes, m.elements, x);
    assert m.elements[x].en[e] in m.elements[x].en;
    WalkReadyOk(m.nodes, m.vertexTable, m.edgeTable, m.elements);
    var z := m.elements[x].en[e];
    if m.nodes[z].bnd {
      return Pass;
    }
    if !(m.nodes[z].ref >= 2) && KeyOf(m.nodes[z].p1, m.nodes[z].p2) !in m.vertexTable {
      var w := WalkUp(m, x, e);
      if w.Err? {
        WalkErrors(m.elements, m.nodes, m.edgeTable, x, e);
        return Fail(w.error);
      }
      WalkFound(m.elements, m.nodes, m.edgeTable, x, e);
      MarkDown(m, w.value, mk);
    }
    return Pass;
  }

  /** What one edge of the loops of `fix_hanging_nodes` contributes, read on the partly marked elements. */
  lemma FixStep(els0: seq<Element>, nodes: seq<Node>, vt: map<Key, int>, et: map<Key, int>, roots: set<int>, x: int, e: int, mk: int)
    requires WalkReady(els0) && 0 <= x < |els0| && 0 <= e
    ensures var cur := DownAll(els0, roots + ElemRoots(els0, nodes, vt, et, x, e), mk);
      var h, w := Hanging(els0, nodes, vt, x, e), Walk(els0, nodes, et, x, e);
      && Skeleton(els0, cur) && SameTree(els0, cur) && WalkReady(cur)
      && Hanging(cur, nodes, vt, x, e) == h && Walk(cur, nodes, et, x, e) == w
      && (h && w.Ok? ==> DownAll(cur, {w.value}, mk) == DownAll(els0, roots + ElemRoots(els0, nodes, vt, et, x, e + 1), mk))
      && (!h ==> cur == DownAll(els0, roots + ElemRoots(els0, nodes, vt, et, x, e + 1), mk))
      && (ElemOk(els0, nodes, vt, et, x, e + 1) <==> ElemOk(els0, nodes, vt, et, x, e) && (h ==> w.Ok?))
  {
    var r0 := roots + ElemRoots(els0, nodes, vt, et, x, e);
    var cur := DownAll(els0, r0, mk);
    DownAllTree(els0, r0, mk);
    WalkSame(els0, cur, nodes, nodes, et, x, e);
    ElemRootsNext(els0, nodes, vt, et, x, e);
    if Hanging(els0, nodes, vt, x, e) && Walk(els0, nodes, et, x, e).Ok? {
      DownAllAdd(els0, r0, Walk(els0, nodes, et, x, e).value, mk);
      assert r0 + {Walk(els0, nodes, et, x, e).value} == roots + ElemRoots(els0, nodes, vt, et, x, e + 1);
    }
  }

  /**
   * `fix_hanging_nodes`: `Eggshell-0` is registered, then every hanging
   * edge of every shell element has its subtree marked down from the
   * ancestor that owns it, with the `Eggshell` element marker.  It fails
   * exactly when a hanging edge's walk does, with that walk's error.
   */
  method FixHangingNodes(m: Mesh, shell: seq<int>) returns (r: Outcome)
    requires m.Valid() && m.elementMarkers.Valid() && m.boundaryMarkers.Valid() && m.elementMarkers != m.boundaryMarkers
    requires forall s :: s in shell ==> 0 <= s < |m.elements|
    modifies m, m.boundaryMarkers
    ensures m.Valid() && m.elementMarkers.Valid() && m.boundaryMarkers.Valid()
    ensures EggShell0 in m.boundaryMarkers.inverse
    ensures forall u :: u in old(m.boundaryMarkers.inverse) ==>
      u in m.boundaryMarkers.inverse && m.boundaryMarkers.inverse[u] == old(m.boundaryMarkers.inverse[u])
    ensures WalkReady(old(m.elements))
    ensures r.Pass? <==> ShellOk(old(m.elements), m.nodes, m.vertexTable, m.edgeTable, shell, |shell|)
    ensures r.Fail? ==>
      exists i, e :: 0 <= i < |shell| && Hanging(old(m.elements), m.nodes, m.vertexTable, shell[i], e)
        && Walk(old(m.elements), m.nodes, m.edgeTable, shell[i], e) == Err(r.error)
    ensures r.Pass? ==>
      m.elements == DownAll(old(m.elements), ShellRoots(old(m.elements), m.nodes, m.vertexTable, m.edgeTable, shell, |shell|),
                            m.elementMarkers.GetInternalMarker(EggShellVolume).marker)
    ensures Skeleton(old(m.elements), m.elements) && SameTree(old(m.elements), m.elements)
    ensures m.nodes == old(m.nodes) && m.vertexTable == old(m.vertexTable) && m.edgeTable == old(m.edgeTable)
    ensures m.Counters() == old(m.Counters())
    ensures r.Fail? ==> r.error in {UnmatchedHangingEdge, MissingVertex}
  {
    var marker0 := m.boundaryMarkers.InsertMarker(EggShell0);
    var volume := m.elementMarkers.GetInternalMarker(EggShellVolume).marker;
    r := FixShell(m, shell, volume);
  }

  /** The loops of `fix_hanging_nodes` over the shell elements and their edges. */
  method FixShell(m: Mesh, shell: seq<int>, mk: int) returns (r: Outcome)
    requires m.Valid() && forall s :: s in shell ==> 0 <= s < |m.elements|
    modifies m
    ensures m.Valid() && WalkReady(old(m.elements))
    ensures r.Pass? <==> ShellOk(old(m.elements), m.nodes, m.vertexTable, m.edgeTable, shell, |shell|)
    ensures r.Fail? ==>
      exists i, e :: 0 <= i < |shell| && Hanging(old(m.elements), m.nodes, m.vertexTable, shell[i], e)
        && Walk(old(m.elements), m.nodes, m.edgeTable, shell[i], e) == Err(r.error)
    ensures r.Pass? ==> m.elements == DownAll(old(m.elements), ShellRoots(old(m.elements), m.nodes, m.vertexTable, m.edgeTable, shell, |shell|), mk)
    ensures Skeleton(old(m.elements), m.elements) && SameTree(old(m.elements), m.elements)
    ensures m.nodes == old(m.nodes) && m.vertexTable == old(m.vertexTable) && m.edgeTable == old(m.edgeTable)
    ensures m.Counters() == old(m.Counters())
    ensures r.Fail? ==> r.error in {UnmatchedHangingEdge, MissingVertex}
  {
    ghost var els0, nodes0, vt0, et0 := m.elements, m.nodes, m.vertexTable, m.edgeTable;
    WalkReadyOk(m.nodes, m.vertexTable, m.edgeTable, m.elements);
    assert DownAll(els0, {}, mk) == els0;
    for i := 0 to |shell|
      invariant m.Valid() && m.elements == DownAll(els0, ShellRoots(els0, nodes0, vt0, et0, shell, i), mk)
      invariant ShellOk(els0, nodes0, vt0, et0, shell, i)
      invariant m.nodes == nodes0 && m.vertexTable == vt0 && m.edgeTable == et0
      invariant m.Counters() == old(m.Counters())
    {
      ShellNext(els0, nodes0, vt0, et0, shell, i);
      r := FixElement(m, els0, ShellRoots(els0, nodes0, vt0, et0, shell, i), shell[i], mk);
      if r.Fail? {
        return;
      }
    }
    DownAllTree(els0, ShellRoots(els0, nodes0, vt0, et0, shell, |shell|), mk);
    r := Pass;
  }

  /** The edge loop of `fix_hanging_nodes` for one shell element `x`, after the ancestors `roots` were marked down. */
  method FixElement(m: Mesh, ghost els0: seq<Element>, ghost roots: set<int>, x: int, mk: int) returns (r: Outcome)
    requires m.Valid() && WalkReady(els0) && 0 <= x < |els0| && m.elements == DownAll(els0, roots, mk)
    modifies m
    ensures m.Valid() && Skeleton(els0, m.elements) && SameTree(els0, m.elements)
    ensures r.Pass? <==> ElemOk(els0, m.nodes, m.vertexTable, m.edgeTable, x, |els0[x].vn|)
    ensures r.Fail? ==> exists e :: Hanging(els0, m.nodes, m.vertexTable, x, e) && Walk(els0, m.nodes, m.edgeTable, x, e) == Err(r.error)
    ensures r.Pass? ==> m.elements == DownAll(els0, roots + ElemRoots(els0, m.nodes, m.vertexTable, m.edgeTable, x, |els0[x].vn|), mk)
    ensures m.nodes == old(m.nodes) && m.vertexTable == old(m.vertexTable) && m.edgeTable == old(m.edgeTable)
    ensures m.Counters() == old(m.Counters())
    ensures r.Fail? ==> r.error in {UnmatchedHangingEdge, MissingVertex}
  {
    ghost var nodes0, vt0, et0 := m.nodes, m.vertexTable, m.edgeTable;
    assert roots + ElemRoots(els0, nodes0, vt0, et0, x, 0) == roots;
    DownAllTree(els0, roots, mk);
    for e := 0 to |m.elements[x].vn|
      invariant m.Valid() && m.elements == DownAll(els0, roots + ElemRoots(els0, nodes0, vt0, et0, x, e), mk)
      invariant ElemOk(els0, nodes0, vt0, et0, x, e)
      invariant m.nodes == nodes0 && m.vertexTable == vt0 && m.edgeTable == et0
      invariant m.Counters() == old(m.Counters())
    {
      FixStep(els0, nodes0, vt0, et0, roots, x, e, mk);
      r := FixEdge(m, x, e, mk);
      if r.Fail? {
        return;
      }
    }
    DownAllTree(els0, roots + ElemRoots(els0, nodes0, vt0, et0, x, |els0[x].vn|), mk);
    r := Pass;
  }
}
