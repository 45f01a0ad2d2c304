/**
 * The values the mesh engine of hermes2d/src/mesh/mesh.cpp works on: nodes,
 * elements, the two node tables keyed by a pair of vertex ids, the errors
 * the engine throws, and the pure facts about them that the refinement
 * operations rely on.
 *
 * Ids stand in for pointers: a node or element is the index of its slot in
 * the mesh's node or element arena, and -1 is the null pointer.
 */
module MeshData {

  /** The null id. */
  const Null: int := -1

  /** `TOP_LEVEL_REF`: the reference count of a vertex of the initial mesh, so
   *  large that it never drops to zero. */
  const TopLevelRef: int := 123456

  /** `HERMES_TYPE_VERTEX` / `HERMES_TYPE_EDGE`. */
  datatype NodeKind = VertexNode | EdgeNode

  /**
   * A node: a vertex (with coordinates) or an edge (with a boundary marker).
   * `used` says whether the slot is occupied, `ref` counts the elements that
   * use the node, `bnd` is the boundary flag, and `p1 < p2` are the two
   * vertex ids the node is registered under (-1 for a vertex of the initial
   * mesh).
   */
  datatype Node = Node(kind: NodeKind, used: bool, ref: int, bnd: bool, marker: int,
                       x: real, y: real, p1: int, p2: int)

  /**
   * An element.  `vn` lists its 3 or 4 vertex node ids and `en` its edge node
   * ids (edge i joins `vn[i]` and `vn[i+1 mod n]`); `sons` holds the four son
   * ids (-1 for none) once the element is refined; `parent` is -1 for a base
   * element.
   */
  datatype Element = Element(used: bool, active: bool, marker: int, vn: seq<int>, en: seq<int>,
                             parent: int, sons: seq<int>, iroCache: int)
  {
    predicate IsTriangle() { |vn| == 3 }
    /** `next_vert` */
    function NextVert(i: int): int { if i < |vn| - 1 then i + 1 else 0 }
    /** `prev_vert` */
    function PrevVert(i: int): int { if i > 0 then i - 1 else |vn| - 1 }
  }

  /** The son array of an element with no sons. */
  const NoSons: seq<int> := [Null, Null, Null, Null]

  /** The exceptions the engine throws. */
  datatype MeshError =
    | IdenticalVertices      // "Some of the vertices of element #%d are identical"
    | SharedX                // "... share x-coordinates"
    | SharedY                // "... share y-coordinates"
    | InvalidId              // get_element: id outside [0, size)
    | UnusedElement          // "Invalid element id number."
    | AlreadyRefined         // "Attempt to refine element #%d which has been refined already."
    | NoMarkerFound          // "None of the markers in ... found in the Mesh."
    | UnknownMarker          // "Marker %s not valid in target_mesh::get_egg_shell."
    | LevelsTooSmall         // ValueException("levels", levels, 2)
    | MissingMidpoint        // a transitional split meets a null midpoint node or son
    | OutOfFuel              // the bound on the passes and nesting of `regularize` ran out
    | UnmatchedHangingEdge   // assert(processed) in fix_hanging_nodes: no ancestor owns the edge
    | MissingVertex          // the ancestor walk of fix_hanging_nodes reads a corner a triangle lacks
    | EndlessRecursion       // a boundary marker named HERMES_ANY: the overload for it calls itself forever

  datatype Result<T> = Ok(value: T) | Err(error: MeshError)
  datatype Outcome = Pass | Fail(error: MeshError)

  /** The key of the node between vertices `a` and `b`: the sorted pair. */
  type Key = (int, int)

  function KeyOf(a: int, b: int): (k: Key)
    ensures k.0 <= k.1
    ensures (k.0 == a && k.1 == b) || (k.0 == b && k.1 == a)
  {
    if a < b then (a, b) else (b, a)
  }

  /** The key of edge `i` of an element with vertices `vn`. */
  function EdgeKey(vn: seq<int>, i: int): Key
    requires 0 <= i < |vn|
  {
    KeyOf(vn[i], vn[(i + 1) % |vn|])
  }

  /**
   * A node table: every key is a sorted pair of ids, and the node it maps
   * to is newer than both (`get_*_node` creates a node after its two end
   * points) and lies in the arena of `n` slots.
   */
  ghost predicate TableOk(t: map<Key, int>, n: int)
  {
    forall k :: k in t ==> 0 <= k.0 <= k.1 < t[k] < n
  }

  /**
   * A node table of the arena `nodes`: `TableOk`, and every node in it is of
   * kind `kind` and records the key it is registered under, so a node sits
   * between exactly one pair of vertices.
   */
  ghost predicate TableInv(t: map<Key, int>, nodes: seq<Node>, kind: NodeKind)
  {
    forall k :: k in t ==>
      0 <= k.0 <= k.1 < t[k] < |nodes|
      && nodes[t[k]].p1 == k.0 && nodes[t[k]].p2 == k.1 && nodes[t[k]].kind == kind
  }

  /** Every node's recorded end points are older than the node itself. */
  ghost predicate EndsOlder(nodes: seq<Node>)
  {
    forall z :: 0 <= z < |nodes| ==> nodes[z].p1 < z && nodes[z].p2 < z
  }

  /** `x` is a node recorded as sitting between `a` and `b`, in either order. */
  ghost predicate MidOf(nodes: seq<Node>, x: int, a: int, b: int)
  {
    0 <= x < |nodes| && Between(nodes[x], a, b)
  }

  /** Node `n` records `a` and `b` as its two ends, in either order. */
  predicate Between(n: Node, a: int, b: int)
  {
    (n.p1 == a && n.p2 == b) || (n.p1 == b && n.p2 == a)
  }

  /** `peek_*_node(a, b)`: the node registered between `a` and `b`, or -1. */
  function Peek(t: map<Key, int>, a: int, b: int): (r: int)
    ensures KeyOf(a, b) in t ==> r == t[KeyOf(a, b)]
    ensures KeyOf(a, b) !in t ==> r == Null
  {
    var k := KeyOf(a, b);
    if k in t then t[k] else Null
  }

  /** A registered node lies between the two ids it was looked up with. */
  lemma PeekIsMid(t: map<Key, int>, nodes: seq<Node>, kind: NodeKind, a: int, b: int)
    requires TableInv(t, nodes, kind) && KeyOf(a, b) in t
    ensures MidOf(nodes, t[KeyOf(a, b)], a, b) && nodes[t[KeyOf(a, b)]].kind == kind
  {
  }

  /**
   * One write a split makes to a node after its sons exist: an edge node
   * takes a boundary flag and a marker, a vertex node a boundary flag.
   */
  datatype FlagWrite = EdgeFlags(z: int, bnd: bool, marker: int) | VertexFlag(z: int, bnd: bool)

  /** Node `n` after write `w`. */
  function Written(n: Node, w: FlagWrite): (r: Node)
    ensures r.kind == n.kind && r.p1 == n.p1 && r.p2 == n.p2 && r.bnd == w.bnd
    ensures r.ref == n.ref && r.used == n.used && r.x == n.x && r.y == n.y
    ensures r.marker == (if w.EdgeFlags? then w.marker else n.marker)
  {
    match w
    case EdgeFlags(_, b, mk) => n.(bnd := b, marker := mk)
    case VertexFlag(_, b) => n.(bnd := b)
  }

  /** Every write of `ws` targets a node of `nodes`. */
  ghost predicate InRange(nodes: seq<Node>, ws: seq<FlagWrite>)
  {
    forall w :: w in ws ==> 0 <= w.z < |nodes|
  }

  /** No two writes of `ws` target the same node. */
  ghost predicate TargetsApart(ws: seq<FlagWrite>)
  {
    forall i, j :: 0 <= i < j < |ws| ==> ws[i].z != ws[j].z
  }

  /** The nodes after the writes `ws`, made in order. */
  function Applied(nodes: seq<Node>, ws: seq<FlagWrite>): seq<Node>
    requires InRange(nodes, ws)
    decreases |ws|
  {
    if ws == [] then nodes
    else Applied(nodes[ws[0].z := Written(nodes[ws[0].z], ws[0])], ws[1..])
  }

  /** Flag writes change no node's kind or recorded ends, and add no node. */
  lemma {:induction false} AppliedShape(nodes: seq<Node>, ws: seq<FlagWrite>)
    requires InRange(nodes, ws)
    ensures |Applied(nodes, ws)| == |nodes|
    ensures forall y :: 0 <= y < |nodes| ==> Applied(nodes, ws)[y].kind == nodes[y].kind
    ensures forall y :: 0 <= y < |nodes| ==>
      Applied(nodes, ws)[y].p1 == nodes[y].p1 && Applied(nodes, ws)[y].p2 == nodes[y].p2
    decreases |ws|
  {
    if ws != [] {
      var nodes' := nodes[ws[0].z := Written(nodes[ws[0].z], ws[0])];
      AppliedShape(nodes', ws[1..]);
    }
  }

  /** A node no write targets is left as it was. */
  lemma {:induction false} AppliedUntouched(nodes: seq<Node>, ws: seq<FlagWrite>, y: int)
    requires InRange(nodes, ws) && 0 <= y < |nodes|
    requires forall i :: 0 <= i < |ws| ==> ws[i].z != y
    ensures |Applied(nodes, ws)| == |nodes| && Applied(nodes, ws)[y] == nodes[y]
    decreases |ws|
  {
    AppliedShape(nodes, ws);
    if ws != [] {
      var nodes' := nodes[ws[0].z := Written(nodes[ws[0].z], ws[0])];
      assert ws[0].z != y;
      AppliedUntouched(nodes', ws[1..], y);
    }
  }

  /** When no two writes meet, every target ends with its own write made. */
  lemma {:induction false} AppliedAt(nodes: seq<Node>, ws: seq<FlagWrite>, j: int)
    requires InRange(nodes, ws) && TargetsApart(ws) && 0 <= j < |ws|
    ensures |Applied(nodes, ws)| == |nodes| && Applied(nodes, ws)[ws[j].z] == Written(nodes[ws[j].z], ws[j])
    decreases |ws|
  {
    AppliedShape(nodes, ws);
    var nodes' := nodes[ws[0].z := Written(nodes[ws[0].z], ws[0])];
    if j == 0 {
      forall i | 0 <= i < |ws[1..]| ensures ws[1..][i].z != ws[0].z {
        assert ws[1..][i] == ws[i + 1];
      }
      AppliedUntouched(nodes', ws[1..], ws[0].z);
    } else {
      assert ws[1..][j - 1] == ws[j];
      AppliedAt(nodes', ws[1..], j - 1);
    }
  }

  /** When no two writes meet, every write lands. */
  lemma AllLand(nodes: seq<Node>, ws: seq<FlagWrite>)
    requires InRange(nodes, ws) && TargetsApart(ws)
    ensures |Applied(nodes, ws)| == |nodes|
    ensures forall j :: 0 <= j < |ws| ==> Applied(nodes, ws)[ws[j].z] == Written(nodes[ws[j].z], ws[j])
  {
    AppliedShape(nodes, ws);
    forall j | 0 <= j < |ws| ensures Applied(nodes, ws)[ws[j].z] == Written(nodes[ws[j].z], ws[j]) {
      AppliedAt(nodes, ws, j);
    }
  }

  /** Writes whose targets, in order, are the distinct ids `t` never meet. */
  lemma ApartOfTargets(ws: seq<FlagWrite>, t: seq<int>)
    requires |t| == |ws| && Distinct(t)
    requires forall i :: 0 <= i < |ws| ==> ws[i].z == t[i]
    ensures TargetsApart(ws)
  {
  }

  /** Two lists of distinct ids with nothing in common join into one. */
  lemma DistinctJoin(a: seq<int>, b: seq<int>)
    requires Distinct(a) && Distinct(b)
    requires forall i, j :: 0 <= i < |a| && 0 <= j < |b| ==> a[i] != b[j]
    ensures Distinct(a + b)
  {
    var c := a + b;
    forall i, j | 0 <= i < j < |c| ensures c[i] != c[j] {
      if j < |a| {
        assert c[i] == a[i] && c[j] == a[j];
      } else if |a| <= i {
        assert c[i] == b[i - |a|] && c[j] == b[j - |a|];
      } else {
        assert c[i] == a[i] && c[j] == b[j - |a|];
      }
    }
  }

  ghost predicate Distinct(s: seq<int>)
  {
    forall i, j :: 0 <= i < j < |s| ==> s[i] != s[j]
  }

  /** The node recorded at `z` does not sit between `a` and `b`. */
  ghost predicate NotBetween(nodes: seq<Node>, z: int, a: int, b: int)
    requires 0 <= z < |nodes|
  {
    !Between(nodes[z], a, b)
  }

  /**
   * The corners of an element are sound: they are distinct nodes of the
   * arena, and no corner is the node recorded between the two ends of one
   * of the element's edges.  Refinement relies on this to give every son
   * edge its own edge node.
   */
  ghost predicate Sound(vn: seq<int>, nodes: seq<Node>)
  {
    (|vn| == 3 && SoundTriangle(nodes, vn[0], vn[1], vn[2]))
    || (|vn| == 4 && SoundQuad(nodes, vn[0], vn[1], vn[2], vn[3]))
  }

  /** `Sound` for the triangle (a, b, c). */
  ghost predicate SoundTriangle(nodes: seq<Node>, a: int, b: int, c: int)
  {
    a != b && b != c && a != c
    && 0 <= a < |nodes| && 0 <= b < |nodes| && 0 <= c < |nodes|
    && Clear3(nodes, a, a, b, c) && Clear3(nodes, b, a, b, c) && Clear3(nodes, c, a, b, c)
  }

  /** `Sound` for the quad (a, b, c, d). */
  ghost predicate SoundQuad(nodes: seq<Node>, a: int, b: int, c: int, d: int)
  {
    a != b && a != c && a != d && b != c && b != d && c != d
    && 0 <= a < |nodes| && 0 <= b < |nodes| && 0 <= c < |nodes| && 0 <= d < |nodes|
    && Clear4(nodes, a, a, b, c, d) && Clear4(nodes, b, a, b, c, d)
    && Clear4(nodes, c, a, b, c, d) && Clear4(nodes, d, a, b, c, d)
  }

  /** Corner `z` of a triangle (a, b, c) is between the ends of none of its edges. */
  ghost predicate Clear3(nodes: seq<Node>, z: int, a: int, b: int, c: int)
    requires 0 <= z < |nodes|
  {
    NotBetween(nodes, z, a, b) && NotBetween(nodes, z, b, c) && NotBetween(nodes, z, c, a)
  }

  /** Corner `z` of a quad (a, b, c, d) is between the ends of none of its edges. */
  ghost predicate Clear4(nodes: seq<Node>, z: int, a: int, b: int, c: int, d: int)
    requires 0 <= z < |nodes|
  {
    NotBetween(nodes, z, a, b) && NotBetween(nodes, z, b, c)
    && NotBetween(nodes, z, c, d) && NotBetween(nodes, z, d, a)
  }

  /** A node recorded between `a` and `b` is younger than both. */
  lemma MidIsYounger(nodes: seq<Node>, x: int, a: int, b: int)
    requires EndsOlder(nodes) && MidOf(nodes, x, a, b)
    ensures a < x && b < x
  {
  }

  /**
   * The key `refine_triangle_to_quads` registers the centre node under, as
   * written: the mid-edge node x0 and the parent's vertex v1.
   */
  function CentreKeyAsWritten(v1: int, v2: int, x0: int): (k: Key)
    ensures k == KeyOf(v1, x0)
  {
    KeyOf(x0, v1)
  }

  /**
   * The centre key as intended: x0 and the opposite vertex v2, the median
   * through x0 on which the centroid lies, as the quad split registers its
   * centre between the opposite mid-edge nodes x0 and x2.
   */
  function CentreKey(v1: int, v2: int, x0: int): (k: Key)
    ensures k == KeyOf(v2, x0)
  {
    KeyOf(x0, v2)
  }

  /**
   * As written, son 1 of `refine_triangle_to_quads`, (x0, v1, x1, mid), is
   * not sound: its corner mid is the node registered between the ends of its
   * edge 0, so that edge counts as halved (degree at least 1) the moment the
   * son is created, and a node that already sat there is taken over as the
   * centre and moved.
   */
  lemma AsWrittenCentreBreaksSon1(t: map<Key, int>, nodes: seq<Node>, v1: int, v2: int, x0: int, x1: int)
    requires TableInv(t, nodes, VertexNode)
    requires 0 <= x0 < |nodes| && 0 <= v1 < |nodes|
    requires CentreKeyAsWritten(v1, v2, x0) in t
    ensures var mid := t[CentreKeyAsWritten(v1, v2, x0)];
      !Sound([x0, v1, x1, mid], nodes) && EdgeDegree(t, |nodes|, x0, v1) >= 1
  {
    var mid := t[KeyOf(x0, v1)];
    assert !NotBetween(nodes, mid, x0, v1);
    assert TableOk(t, |nodes|);
  }

  /**
   * With the intended centre key, the three sons of
   * `refine_triangle_to_quads`, (v0, x0, mid, x2), (x0, v1, x1, mid) and
   * (x1, v2, x2, mid), are sound when the parent is.
   */
  lemma TriangleQuadSonsSound(nodes: seq<Node>, v0: int, v1: int, v2: int, x0: int, x1: int, x2: int, mid: int)
    requires EndsOlder(nodes) && Sound([v0, v1, v2], nodes)
    requires MidOf(nodes, x0, v0, v1) && MidOf(nodes, x1, v1, v2) && MidOf(nodes, x2, v2, v0)
    requires MidOf(nodes, mid, x0, v2)
    ensures Sound([v0, x0, mid, x2], nodes) && Sound([x0, v1, x1, mid], nodes)
    ensures Sound([x1, v2, x2, mid], nodes)
  {
    TriangleQuadSon0(nodes, v0, v1, v2, x0, x2, mid);
    TriangleQuadSon1(nodes, v0, v1, v2, x0, x1, mid);
    TriangleQuadSon2(nodes, v0, v1, v2, x0, x1, x2, mid);
  }

  lemma TriangleQuadSon0(nodes: seq<Node>, v0: int, v1: int, v2: int, x0: int, x2: int, mid: int)
    requires EndsOlder(nodes) && Sound([v0, v1, v2], nodes)
    requires MidOf(nodes, x0, v0, v1) && MidOf(nodes, x2, v2, v0) && MidOf(nodes, mid, x0, v2)
    ensures Sound([v0, x0, mid, x2], nodes)
  {
  }

  lemma TriangleQuadSon1(nodes: seq<Node>, v0: int, v1: int, v2: int, x0: int, x1: int, mid: int)
    requires EndsOlder(nodes) && Sound([v0, v1, v2], nodes)
    requires MidOf(nodes, x0, v0, v1) && MidOf(nodes, x1, v1, v2) && MidOf(nodes, mid, x0, v2)
    ensures Sound([x0, v1, x1, mid], nodes)
  {
  }

  lemma TriangleQuadSon2(nodes: seq<Node>, v0: int, v1: int, v2: int, x0: int, x1: int, x2: int, mid: int)
    requires EndsOlder(nodes) && Sound([v0, v1, v2], nodes)
    requires MidOf(nodes, x0, v0, v1) && MidOf(nodes, x1, v1, v2) && MidOf(nodes, x2, v2, v0)
    requires MidOf(nodes, mid, x0, v2)
    ensures Sound([x1, v2, x2, mid], nodes)
  {
  }

  /**
   * The four sons of `refine_triangle_to_triangles`, (v0, x0, x2),
   * (x0, v1, x1), (x2, x1, v2) and (x1, x2, x0), are sound when the parent is.
   */
  lemma TriangleSonsSound(nodes: seq<Node>, v0: int, v1: int, v2: int, x0: int, x1: int, x2: int)
    requires EndsOlder(nodes) && Sound([v0, v1, v2], nodes)
    requires MidOf(nodes, x0, v0, v1) && MidOf(nodes, x1, v1, v2) && MidOf(nodes, x2, v2, v0)
    ensures Sound([v0, x0, x2], nodes) && Sound([x0, v1, x1], nodes)
    ensures Sound([x2, x1, v2], nodes) && Sound([x1, x2, x0], nodes)
  {
    MidIsYounger(nodes, x0, v0, v1);
    MidIsYounger(nodes, x1, v1, v2);
    MidIsYounger(nodes, x2, v2, v0);
  }

  /**
   * `get_edge_degree(a, b)`: how many times the edge between `a` and `b` has
   * been halved, following registered midpoints; 0 when no midpoint exists,
   * otherwise one more than the larger degree of the two halves.  It
   * terminates because a midpoint is newer than the ends it sits between.
   */
  function EdgeDegree(t: map<Key, int>, n: int, a: int, b: int): (d: nat)
    requires TableOk(t, n) && 0 <= a < n && 0 <= b < n
    ensures d == 0 <==> KeyOf(a, b) !in t
    decreases n - Max(a, b)
  {
    var k := KeyOf(a, b);
    if k in t then
      var m := t[k];
      1 + Max(EdgeDegree(t, n, a, m), EdgeDegree(t, n, m, b))
    else 0
  }

  function Max(a: int, b: int): int { if a < b then b else a }

  /** The degree of an edge does not depend on the direction it is read in. */
  lemma {:induction false} EdgeDegreeSymmetric(t: map<Key, int>, n: int, a: int, b: int)
    requires TableOk(t, n) && 0 <= a < n && 0 <= b < n
    ensures EdgeDegree(t, n, a, b) == EdgeDegree(t, n, b, a)
    decreases n - Max(a, b)
  {
    var k := KeyOf(a, b);
    assert KeyOf(b, a) == k;
    if k in t {
      var m := t[k];
      EdgeDegreeSymmetric(t, n, a, m);
      EdgeDegreeSymmetric(t, n, m, b);
    }
  }

  /** Number of occurrences of `x` in `s`. */
  function Occ(s: seq<int>, x: int): (c: nat)
    ensures c <= |s|
    ensures c > 0 <==> x in s
  {
    if s == [] then 0 else Occ(s[..|s| - 1], x) + (if s[|s| - 1] == x then 1 else 0)
  }

  /** Counting occurrences one more element into a prefix. */
  lemma OccStep(s: seq<int>, i: int, x: int)
    requires 0 <= i < |s|
    ensures Occ(s[..i + 1], x) == Occ(s[..i], x) + (if s[i] == x then 1 else 0)
  {
    assert s[..i + 1][..i] == s[..i];
  }
}
