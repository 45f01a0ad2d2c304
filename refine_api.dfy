/**
 * The public refinement calls of hermes2d/src/mesh/mesh.cpp on top of the
 * splits: `refine_element` (log, split, son caches, stamp), the guarded
 * `refine_element_id`, `refine_element_to_quads_id`,
 * `refine_element_to_triangles_id`, and the sweep `refine_all_elements`.
 *
 * The global counter `g_mesh_seq` the calls stamp the mesh with is a
 * parameter: a call that stamps the mesh takes the value `stamp`, a sweep
 * stamps with `stamp0`, `stamp0 + 1`, ... and returns the next value.
 */
module RefineApi {
  import opened MeshData
  import opened MeshModel
  import opened MeshRefine
  import opened QuadSplit
  import opened TriangleQuadSplit
  import opened QuadTriangleSplit

  /** `refine_element` on `el` with kind `kind` reaches a split: `refine_quad` asserts on quad kinds other than 0, 1, 2. */
  predicate KindFits(el: Element, kind: int)
  {
    el.IsTriangle() || 0 <= kind <= 2
  }

  /** Every element of `els` from `n` on is a triangle. */
  ghost predicate TrianglesFrom(els: seq<Element>, n: int)
  {
    forall s :: 0 <= n <= s < |els| ==> els[s].IsTriangle()
  }

  /** How many sons `refine_element` gives `el` for kind `kind`: kind 3 makes three quads of a triangle. */
  function SonCount(el: Element, kind: int): nat
  {
    if el.IsTriangle() then (if kind == 3 then 3 else 4) else QuadSonCount(kind)
  }

  /** The son slots `refine_element` gives `el` when its sons are elements n, n + 1, .... */
  function SonSlots(el: Element, kind: int, n: int): (slots: seq<int>)
    requires KindFits(el, kind)
    ensures |slots| == 4
    ensures forall s :: s in slots ==> s == Null || n <= s < n + SonCount(el, kind)
    ensures forall s :: n <= s < n + SonCount(el, kind) ==> s in slots
  {
    if el.IsTriangle() then (if kind == 3 then TriangleQuadSlots(n) else [n, n + 1, n + 2, n + 3])
    else QuadSlots(kind, n)
  }

  /**
   * `els` is `els0` after `refine_element` split `e` into the sons appended
   * from `n` on: as `Replaced` says, except that every son carries the
   * parent's `iro_cache`.
   */
  ghost predicate Refined(els0: seq<Element>, els: seq<Element>, e: int, n: int, slots: seq<int>)
  {
    0 <= e < n <= |els0| && n <= |els|
    && els[e] == els0[e].(active := false, sons := slots)
    && (forall i :: 0 <= i < n && i != e ==> els[i] == els0[i])
    && (forall s :: n <= s < |els| ==>
          SonOf(els[s].(iroCache := 0), e, els0[e].marker) && els[s].iroCache == els0[e].iroCache)
  }

  /**
   * `refine_element`: `(e, kind)` is logged, then the split the element's
   * shape and `kind` select (`refine_triangle_to_quads` for kind 3 on a
   * triangle, `refine_triangle_to_triangles` for any other kind on a
   * triangle, `refine_quad` on a quad), then every son takes the parent's
   * `iro_cache` and the mesh takes the stamp.  A failed split leaves the
   * log entry and no stamp.
   */
  method RefineElement(m: Mesh, e: int, kind: int, stamp: int) returns (r: Outcome)
    requires m.Valid() && 0 <= e < |m.elements| && Live(m.elements[e]) && KindFits(m.elements[e], kind)
    modifies m
    ensures m.Valid() && |m.elements| >= old(|m.elements|)
    ensures m.refinements == old(m.refinements) + [(e, kind)]
    ensures m.nbase == old(m.nbase) && m.ninitial == old(m.ninitial) && m.ntopvert == old(m.ntopvert)
    ensures r.Fail? ==> m.seqStamp == old(m.seqStamp)
    ensures r.Fail? && old(Sound(m.elements[e].vn, m.nodes)) ==> r.error == SharedX || r.error == SharedY
    ensures r.Pass? ==> var n, k := old(|m.elements|), SonCount(old(m.elements[e]), kind);
      |m.elements| == n + k && Refined(old(m.elements), m.elements, e, n, SonSlots(old(m.elements[e]), kind, n))
      && m.nactive == old(m.nactive) + k - 1 && m.seqStamp == stamp
    ensures r.Pass? && old(m.elements[e].IsTriangle()) && kind != 3 ==> TrianglesFrom(m.elements, old(|m.elements|))
    ensures r.Pass? ==> old(m.Counted()) ==> m.Counted()
  {
    m.refinements := m.refinements + [(e, kind)];
    ghost var els0, n := m.elements, |m.elements|;
    ghost var slots := SonSlots(els0[e], kind, n);
    r := Split(m, e, kind);
    if r.Fail? { return; }
    InheritCaches(m, e, els0, n, slots);
    m.seqStamp := stamp;
  }

  /** The split `refine_element` makes, by shape and kind. */
  method Split(m: Mesh, e: int, kind: int) returns (r: Outcome)
    requires m.Valid() && 0 <= e < |m.elements| && Live(m.elements[e]) && KindFits(m.elements[e], kind)
    modifies m
    ensures m.Valid() && |m.elements| >= old(|m.elements|)
    ensures m.Stamps() == old(m.Stamps())
    ensures r.Fail? && old(Sound(m.elements[e].vn, m.nodes)) ==> r.error == SharedX || r.error == SharedY
    ensures r.Pass? ==> var n, k := old(|m.elements|), SonCount(old(m.elements[e]), kind);
      |m.elements| == n + k && Replaced(old(m.elements), m.elements, e, n, SonSlots(old(m.elements[e]), kind, n))
      && m.nactive == old(m.nactive) + k - 1
    ensures r.Pass? && old(m.elements[e].IsTriangle()) && kind != 3 ==> TrianglesFrom(m.elements, old(|m.elements|))
    ensures r.Pass? ==> old(m.Counted()) ==> m.Counted()
  {
    if m.elements[e].IsTriangle() {
      if kind == 3 {
        r := RefineTriangleToQuads(m, e);
      } else {
        r := RefineTriangleToTriangles(m, e);
      }
    } else {
      r := RefineQuad(m, e, kind);
    }
  }

  /** The sons of a split take the parent's `iro_cache`, which turns `Replaced` into `Refined`. */
  method InheritCaches(m: Mesh, e: int, ghost els0: seq<Element>, ghost n: int, ghost slots: seq<int>)
    requires m.Valid() && Replaced(els0, m.elements, e, n, slots)
    requires forall s :: s in slots ==> s == Null || n <= s < |m.elements|
    requires forall s :: n <= s < |m.elements| ==> s in slots
    modifies m
    ensures m.Valid() && |m.elements| == old(|m.elements|) && Refined(els0, m.elements, e, n, slots)
    ensures ActiveCount(m.elements) == ActiveCount(old(m.elements))
    ensures m.Counters() == old(m.Counters()) && m.refinements == old(m.refinements)
    ensures TrianglesFrom(old(m.elements), n) ==> TrianglesFrom(m.elements, n)
  {
    ghost var els1 := m.elements;
    m.CopySonCaches(e);
    RefinedOfReplaced(els0, els1, m.elements, e, n, slots);
  }

  /** Copying the parent's cache into the sons of a split turns `Replaced` into `Refined`. */
  lemma RefinedOfReplaced(els0: seq<Element>, els1: seq<Element>, els: seq<Element>, e: int, n: int, slots: seq<int>)
    requires Replaced(els0, els1, e, n, slots)
    requires forall s :: s in slots ==> s == Null || n <= s < |els1|
    requires forall s :: n <= s < |els1| ==> s in slots
    requires |els| == |els1|
    requires els[e] == els1[e] && forall s :: 0 <= s < |els| && s != e ==>
      els[s] == if s in els1[e].sons then els1[s].(iroCache := els1[e].iroCache) else els1[s]
    ensures Refined(els0, els, e, n, slots)
  {
    assert els1[e].sons == slots && els1[e].iroCache == els0[e].iroCache;
    forall i | 0 <= i < n ensures els[i] == els1[i] {
      assert i !in slots;
    }
    forall s | n <= s < |els|
      ensures SonOf(els[s].(iroCache := 0), e, els0[e].marker) && els[s].iroCache == els0[e].iroCache
    {
      assert s in slots && SonOf(els1[s], e, els0[e].marker);
    }
  }

  /**
   * `refine_element_id`: kind -1 asks for nothing and changes nothing; an
   * id outside the arena, an unused element or an already refined one is an
   * error raised before anything changes; otherwise `refine_element`.
   */
  method RefineElementId(m: Mesh, id: int, kind: int, stamp: int) returns (r: Outcome)
    requires m.Valid()
    requires kind != -1 && 0 <= id < |m.elements| && Live(m.elements[id]) ==> KindFits(m.elements[id], kind)
    modifies m
    ensures m.Valid() && |m.elements| >= old(|m.elements|)
    ensures m.nbase == old(m.nbase) && m.ninitial == old(m.ninitial) && m.ntopvert == old(m.ntopvert)
    ensures kind == -1 ==> r == Pass
    ensures kind != -1 && !(0 <= id < old(|m.elements|)) ==> r == Fail(InvalidId)
    ensures kind != -1 && 0 <= id < old(|m.elements|) && !old(m.elements[id].used) ==> r == Fail(UnusedElement)
    ensures kind != -1 && 0 <= id < old(|m.elements|) && old(m.elements[id].used) && !old(m.elements[id].active) ==>
      r == Fail(AlreadyRefined)
    ensures kind == -1 || !(0 <= id < old(|m.elements|)) || !old(Live(m.elements[id])) ==>
      m.nodes == old(m.nodes) && m.elements == old(m.elements) && m.Counters() == old(m.Counters())
    ensures kind != -1 && 0 <= id < old(|m.elements|) && old(Live(m.elements[id])) ==>
      && m.refinements == old(m.refinements) + [(id, kind)]
      && (r.Pass? ==> var n, k := old(|m.elements|), SonCount(old(m.elements[id]), kind);
            |m.elements| == n + k && Refined(old(m.elements), m.elements, id, n, SonSlots(old(m.elements[id]), kind, n))
            && m.nactive == old(m.nactive) + k - 1 && m.seqStamp == stamp)
    ensures r.Pass? ==> old(m.Counted()) ==> m.Counted()
  {
    if kind == -1 {
      return Pass;
    }
    if id < 0 || id >= |m.elements| {
      return Fail(InvalidId);
    }
    if !m.elements[id].used {
      return Fail(UnusedElement);
    }
    if !m.elements[id].active {
      return Fail(AlreadyRefined);
    }
    r := RefineElement(m, id, kind, stamp);
  }

  /**
   * `refine_element_to_quads_id`: after the same id guards, a triangle is
   * split into three quads and a quad into four, and the mesh takes the
   * stamp.  Nothing is logged and the sons keep their own caches.  The
   * source splits the quad with `refine_quad_to_quads` at its default kind
   * 0 (hermes2d/src/mesh/mesh.cpp:2235-2402); for the straight elements of
   * this model it reads the same flags, makes the same four sons in the
   * same order and writes the same flags as `refine_quad` at kind 0, which
   * is what `RefineQuad(m, id, 0)` models.
   */
  method RefineElementToQuadsId(m: Mesh, id: int, stamp: int) returns (r: Outcome)
    requires m.Valid()
    modifies m
    ensures m.Valid()
    ensures !(0 <= id < old(|m.elements|)) ==> r == Fail(InvalidId)
    ensures 0 <= id < old(|m.elements|) && !old(m.elements[id].used) ==> r == Fail(UnusedElement)
    ensures 0 <= id < old(|m.elements|) && old(m.elements[id].used) && !old(m.elements[id].active) ==> r == Fail(AlreadyRefined)
    ensures !(0 <= id < old(|m.elements|)) || !old(Live(m.elements[id])) ==>
      m.nodes == old(m.nodes) && m.elements == old(m.elements) && m.Counters() == old(m.Counters())
    ensures r.Pass? ==> 0 <= id < old(|m.elements|) && old(Live(m.elements[id]))
    ensures r.Pass? ==> var n, tri := old(|m.elements|), old(m.elements[id].IsTriangle());
      && |m.elements| == n + (if tri then 3 else 4)
      && Replaced(old(m.elements), m.elements, id, n, if tri then TriangleQuadSlots(n) else QuadSlots(0, n))
      && (if tri then TriangleQuadSplitOf(m.nodes, old(m.elements[id].vn), m.elements, n)
          else QuadSplitOf(m.nodes, old(m.elements[id].vn), m.elements, n))
      && m.nactive == old(m.nactive) + (if tri then 2 else 3)
      && m.seqStamp == stamp && m.refinements == old(m.refinements)
    ensures r.Pass? ==> old(m.Counted()) ==> m.Counted()
  {
    if id < 0 || id >= |m.elements| {
      return Fail(InvalidId);
    }
    if !m.elements[id].used {
      return Fail(UnusedElement);
    }
    if !m.elements[id].active {
      return Fail(AlreadyRefined);
    }
    if m.elements[id].IsTriangle() {
      r := RefineTriangleToQuads(m, id);
    } else {
      r := RefineQuad(m, id, 0);
    }
    if r.Pass? {
      m.seqStamp := stamp;
    }
  }

  /**
   * `refine_element_to_triangles_id`: after the same id guards, a triangle
   * is left as it is (and the mesh keeps its stamp), a quad is cut into two
   * triangles and the mesh takes the stamp.
   */
  method RefineElementToTrianglesId(m: Mesh, id: int, stamp: int) returns (r: Outcome)
    requires m.Valid()
    modifies m
    ensures m.Valid()
    ensures !(0 <= id < old(|m.elements|)) ==> r == Fail(InvalidId)
    ensures 0 <= id < old(|m.elements|) && !old(m.elements[id].used) ==> r == Fail(UnusedElement)
    ensures 0 <= id < old(|m.elements|) && old(m.elements[id].used) && !old(m.elements[id].active) ==> r == Fail(AlreadyRefined)
    ensures !(0 <= id < old(|m.elements|)) || !old(Live(m.elements[id])) || old(m.elements[id].IsTriangle()) ==>
      m.nodes == old(m.nodes) && m.elements == old(m.elements) && m.Counters() == old(m.Counters())
    ensures 0 <= id < old(|m.elements|) && old(Live(m.elements[id])) && old(m.elements[id].IsTriangle()) ==> r == Pass
    ensures r.Pass? && 0 <= id < old(|m.elements|) && !old(m.elements[id].IsTriangle()) ==> var n := old(|m.elements|);
      && |m.elements| == n + 2 && Replaced(old(m.elements), m.elements, id, n, QuadTriangleSlots(n))
      && QuadTriangleSplitOf(old(m.nodes), old(m.elements[id].vn), m.elements, n)
      && m.nactive == old(m.nactive) + 1 && m.seqStamp == stamp && m.refinements == old(m.refinements)
    ensures r.Pass? ==> old(m.Counted()) ==> m.Counted()
  {
    if id < 0 || id >= |m.elements| {
      return Fail(InvalidId);
    }
    if !m.elements[id].used {
      return Fail(UnusedElement);
    }
    if !m.elements[id].active {
      return Fail(AlreadyRefined);
    }
    if m.elements[id].IsTriangle() {
      return Pass;
    }
    r := RefineQuadToTriangles(m, id);
    if r.Pass? {
      m.seqStamp := stamp;
    }
  }

  /** `get_max_element_id`: the size of the element arena, or -1 while the stamp is negative. */
  function MaxElementId(m: Mesh): (k: int)
    reads m
    ensures k == -1 || k == |m.elements|
  {
    if m.seqStamp < 0 then -1 else |m.elements|
  }

  /** The number of elements `for_all_active_elements` visits: none while the stamp is negative. */
  function ScanEnd(m: Mesh): (n: int)
    reads m
    ensures 0 <= n <= |m.elements|
    ensures MaxElementId(m) >= 0 ==> n == MaxElementId(m)
  {
    if m.seqStamp < 0 then 0 else |m.elements|
  }

  /** The log entries a sweep refining every live element of `els` with `kind` makes, in id order. */
  function LiveLog(els: seq<Element>, kind: int): (log: seq<(int, int)>)
  {
    if els == [] then []
    else LiveLog(els[..|els| - 1], kind) + (if Live(els[|els| - 1]) then [(|els| - 1, kind)] else [])
  }

  /** The sweep logs one entry per live element, each for a live element with the sweep's kind. */
  lemma {:induction false} LiveLogCounts(els: seq<Element>, kind: int)
    ensures |LiveLog(els, kind)| == ActiveCount(els)
    ensures forall i :: 0 <= i < |LiveLog(els, kind)| ==>
      var (id, k) := LiveLog(els, kind)[i]; 0 <= id < |els| && Live(els[id]) && k == kind
    decreases |els|
  {
    if els != [] {
      LiveLogCounts(els[..|els| - 1], kind);
    }
  }

  /** `LiveLog` grows by the next element. */
  lemma LiveLogStep(els: seq<Element>, i: int, kind: int)
    requires 0 <= i < |els|
    ensures LiveLog(els[..i + 1], kind) == LiveLog(els[..i], kind) + (if Live(els[i]) then [(i, kind)] else [])
  {
    assert els[..i + 1][..i] == els[..i];
  }

  /** One visit of the sweep: element `id` is refined by `refine_element` when it is live, and left alone otherwise. */
  method SweepStep(m: Mesh, id: int, kind: int, stamp: int) returns (r: Outcome, stamp': int)
    requires m.Valid() && 0 <= id < |m.elements|
    requires Live(m.elements[id]) ==> KindFits(m.elements[id], kind)
    modifies m
    ensures m.Valid() && |m.elements| >= old(|m.elements|)
    ensures m.nbase == old(m.nbase) && m.ntopvert == old(m.ntopvert)
    ensures m.refinements == old(m.refinements) + (if old(Live(m.elements[id])) then [(id, kind)] else [])
    ensures r.Pass? ==> stamp' == stamp + (if old(Live(m.elements[id])) then 1 else 0)
    ensures r.Fail? ==> stamp' == stamp
    ensures r.Pass? ==> forall i :: 0 <= i < old(|m.elements|) && i != id ==> m.elements[i] == old(m.elements[i])
    ensures r.Pass? ==> if old(Live(m.elements[id])) then !m.elements[id].active else m.elements[id] == old(m.elements[id])
    ensures r.Pass? ==> old(m.Counted()) ==> m.Counted()
  {
    r, stamp' := Pass, stamp;
    if Live(m.elements[id]) {
      r := RefineElement(m, id, kind, stamp);
      if r.Pass? {
        stamp' := stamp + 1;
      }
    }
  }

  /**
   * `refine_all_elements`: `ninitial` becomes the arena size; kind -1 stops
   * there.  Otherwise every element live when the sweep starts is refined
   * by `refine_element` in id order (the sons it appends are not visited),
   * and with `markAsInitial` `ninitial` becomes the new arena size.  A
   * failed split ends the sweep.
   */
  method RefineAllElements(m: Mesh, kind: int, markAsInitial: bool, stamp0: int) returns (r: Outcome, stamp: int)
    requires m.Valid()
    requires kind != -1 ==> forall i :: 0 <= i < |m.elements| && Live(m.elements[i]) ==> KindFits(m.elements[i], kind)
    modifies m
    ensures m.Valid() && |m.elements| >= old(|m.elements|)
    ensures m.nbase == old(m.nbase) && m.ntopvert == old(m.ntopvert)
    ensures kind == -1 ==>
      r == Pass && m.elements == old(m.elements) && m.nodes == old(m.nodes) && m.ninitial == MaxElementId(m) && m.seqStamp == old(m.seqStamp)
      && m.refinements == old(m.refinements) && m.nactive == old(m.nactive) && stamp == stamp0
    ensures r.Pass? && kind != -1 && old(m.seqStamp) >= 0 ==>
      && m.refinements == old(m.refinements) + LiveLog(old(m.elements), kind)
      && stamp == stamp0 + old(ActiveCount(m.elements))
      && (forall i :: 0 <= i < old(|m.elements|) ==>
            if old(Live(m.elements[i])) then !m.elements[i].active else m.elements[i] == old(m.elements[i]))
    ensures r.Pass? && kind != -1 && markAsInitial ==> m.ninitial == MaxElementId(m)
    ensures r.Pass? ==> old(m.Counted()) ==> m.Counted()
  {
    stamp := stamp0;
    m.ninitial := MaxElementId(m);
    r := Pass;
    if kind == -1 {
      return;
    }
    ghost var els0, log0, count0 := m.elements, m.refinements, ActiveCount(m.elements);
    var max := MaxElementId(m);
    var id := 0;
    while id < max
      invariant m.Valid() && |m.elements| >= |els0| && (max == -1 || max == |els0|) && 0 <= id <= |els0|
      invariant max >= 0 ==> id <= max
      invariant m.nbase == old(m.nbase) && m.ntopvert == old(m.ntopvert)
      invariant m.refinements == log0 + LiveLog(els0[..id], kind) && stamp == stamp0 + |LiveLog(els0[..id], kind)|
      invariant forall i :: id <= i < |els0| ==> m.elements[i] == els0[i]
      invariant forall i :: 0 <= i < id ==> if Live(els0[i]) then !m.elements[i].active else m.elements[i] == els0[i]
      invariant old(m.Counted()) ==> m.Counted()
    {
      LiveLogStep(els0, id, kind);
      var ri;
      ri, stamp := SweepStep(m, id, kind, stamp);
      if ri.Fail? {
        return ri, stamp;
      }
      id := id + 1;
    }
    if max >= 0 {
      assert els0[..id] == els0;
      LiveLogCounts(els0, kind);
    }
    if markAsInitial {
      m.ninitial := MaxElementId(m);
    }
  }
}
