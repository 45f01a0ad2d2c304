/**
 * How a split hands the boundary information of its parent's edges down to
 * its sons (hermes2d/src/mesh/mesh.cpp): after the sons exist, each split
 * makes a fixed list of writes, each either "son s's edge node i takes the
 * boundary flag and marker of the parent's edge k" or "son s's vertex node i
 * takes the boundary flag of the parent's edge k".  Every split's list is a
 * table of `HandDown` rows; this module turns a table into the node writes
 * it makes and states what the sons carry afterwards.
 */
module SplitFlags {
  import opened MeshData
  import opened MeshModel

  /** One row of a split's hand-down table. */
  datatype HandDown =
    | EdgeDown(son: nat, edge: nat, from: nat)
    | VertexDown(son: nat, vertex: nat, from: nat)

  /** Row `h` names an existing son and one of its edge or vertex slots. */
  predicate Reaches(sons: seq<Element>, h: HandDown)
  {
    h.son < |sons|
    && (if h.EdgeDown? then h.edge < |sons[h.son].en| else h.vertex < |sons[h.son].vn|)
  }

  /** Every row of `hs` reaches a son slot and reads one of the parent's `k` edges. */
  predicate AllFit(sons: seq<Element>, k: nat, hs: seq<HandDown>)
  {
    forall i :: 0 <= i < |hs| ==> Reaches(sons, hs[i]) && hs[i].from < k
  }

  /** The node row `h` writes to. */
  function Target(sons: seq<Element>, h: HandDown): int
    requires Reaches(sons, h)
  {
    if h.EdgeDown? then sons[h.son].en[h.edge] else sons[h.son].vn[h.vertex]
  }

  /** The write row `h` makes, with the parent's edge flags `bnd` and markers `mrk`. */
  function Write(sons: seq<Element>, h: HandDown, bnd: seq<bool>, mrk: seq<int>): FlagWrite
    requires Reaches(sons, h) && h.from < |bnd| && h.from < |mrk|
  {
    if h.EdgeDown? then EdgeFlags(Target(sons, h), bnd[h.from], mrk[h.from])
    else VertexFlag(Target(sons, h), bnd[h.from])
  }

  /** The writes of table `hs`, in table order. */
  function Writes(sons: seq<Element>, hs: seq<HandDown>, bnd: seq<bool>, mrk: seq<int>): (ws: seq<FlagWrite>)
    requires |bnd| == |mrk| && AllFit(sons, |bnd|, hs)
    ensures |ws| == |hs|
    ensures forall i :: 0 <= i < |hs| ==> ws[i].z == Target(sons, hs[i])
  {
    seq(|hs|, i requires 0 <= i < |hs| => Write(sons, hs[i], bnd, mrk))
  }

  /** The nodes table `hs` writes to, in table order. */
  function Targets(sons: seq<Element>, hs: seq<HandDown>): (t: seq<int>)
    requires forall i :: 0 <= i < |hs| ==> Reaches(sons, hs[i])
    ensures |t| == |hs|
  {
    seq(|hs|, i requires 0 <= i < |hs| => Target(sons, hs[i]))
  }

  /** `bnd` and `mrk` are the boundary flags and markers of the parent's edge nodes `pen` in `nodes0`. */
  ghost predicate ReadFrom(nodes0: seq<Node>, pen: seq<int>, bnd: seq<bool>, mrk: seq<int>)
  {
    |bnd| == |pen| && |mrk| == |pen|
    && forall i :: 0 <= i < |pen| ==>
      0 <= pen[i] < |nodes0| && bnd[i] == nodes0[pen[i]].bnd && mrk[i] == nodes0[pen[i]].marker
  }

  /** The boundary flags and markers of the parent's edge nodes `pen`, as a split reads them before it starts. */
  function ParentFlags(nodes: seq<Node>, pen: seq<int>): (fm: (seq<bool>, seq<int>))
    requires OfKind(nodes, pen, EdgeNode)
    ensures ReadFrom(nodes, pen, fm.0, fm.1)
  {
    assert forall i :: 0 <= i < |pen| ==> pen[i] in pen;
    (seq(|pen|, i requires 0 <= i < |pen| => nodes[pen[i]].bnd),
     seq(|pen|, i requires 0 <= i < |pen| => nodes[pen[i]].marker))
  }

  /** After the split, the node of row `h` carries what the row hands down from parent edge `pen[h.from]` of `nodes0`. */
  ghost predicate Got(nodes0: seq<Node>, nodes: seq<Node>, pen: seq<int>, sons: seq<Element>, h: HandDown)
    requires Reaches(sons, h) && h.from < |pen|
  {
    var z, from := Target(sons, h), pen[h.from];
    0 <= z < |nodes| && 0 <= from < |nodes0| && nodes[z].bnd == nodes0[from].bnd
    && (h.EdgeDown? ==> nodes[z].marker == nodes0[from].marker)
  }

  /** Every row of `hs` holds: the sons carry the parent's edge flags (and markers) as the table says. */
  ghost predicate Kept(nodes0: seq<Node>, nodes: seq<Node>, pen: seq<int>, sons: seq<Element>, hs: seq<HandDown>)
  {
    AllFit(sons, |pen|, hs) && forall i :: 0 <= i < |hs| ==> Got(nodes0, nodes, pen, sons, hs[i])
  }

  /** Every one of `zs` is a node of kind `kind`. */
  ghost predicate OfKind(nodes: seq<Node>, zs: seq<int>, kind: NodeKind)
  {
    forall z :: z in zs ==> 0 <= z < |nodes| && nodes[z].kind == kind
  }

  /**
   * The shape `ElementOk` gives an element, without its family links: 3 or
   * 4 vertex nodes, as many edge nodes, edge i recorded between the ends of
   * edge i.
   */
  ghost predicate Shaped(nodes: seq<Node>, el: Element)
  {
    (|el.vn| == 3 || |el.vn| == 4) && |el.en| == |el.vn|
    && OfKind(nodes, el.vn, VertexNode) && OfKind(nodes, el.en, EdgeNode)
    && forall i :: 0 <= i < |el.vn| ==> EdgeOf(nodes, el, i)
  }

  /** Well-formed elements n .. n + k - 1 (the `sons`) are shaped. */
  lemma SonsShaped(nodes: seq<Node>, els: seq<Element>, n: int, k: nat, sons: seq<Element>)
    requires 0 <= n && n + k <= |els| && sons == els[n..n + k]
    requires forall e :: 0 <= e < |els| ==> ElementOk(nodes, els, e)
    ensures forall j :: 0 <= j < |sons| ==> Shaped(nodes, sons[j])
  {
    forall j | 0 <= j < |sons| ensures Shaped(nodes, sons[j]) {
      assert ElementOk(nodes, els, n + j) && sons[j] == els[n + j];
    }
  }

  /** The writes of a table on sons that live in the arena all hit it. */
  lemma WritesInRange(nodes: seq<Node>, sons: seq<Element>, hs: seq<HandDown>, bnd: seq<bool>, mrk: seq<int>)
    requires |bnd| == |mrk| && AllFit(sons, |bnd|, hs)
    requires forall j :: 0 <= j < |sons| ==> Shaped(nodes, sons[j])
    ensures InRange(nodes, Writes(sons, hs, bnd, mrk))
  {
    var ws := Writes(sons, hs, bnd, mrk);
    forall w | w in ws ensures 0 <= w.z < |nodes| {
      var i :| 0 <= i < |ws| && ws[i] == w;
      var h := hs[i];
      assert Shaped(nodes, sons[h.son]);
      if h.EdgeDown? {
        assert sons[h.son].en[h.edge] in sons[h.son].en;
      } else {
        assert sons[h.son].vn[h.vertex] in sons[h.son].vn;
      }
    }
  }

  /** Writes to distinct nodes never meet. */
  lemma WritesApart(sons: seq<Element>, hs: seq<HandDown>, bnd: seq<bool>, mrk: seq<int>)
    requires |bnd| == |mrk| && AllFit(sons, |bnd|, hs) && Distinct(Targets(sons, hs))
    ensures TargetsApart(Writes(sons, hs, bnd, mrk))
  {
    ApartOfTargets(Writes(sons, hs, bnd, mrk), Targets(sons, hs));
  }

  /**
   * When a table's targets are distinct, applying its writes leaves every
   * son slot it names carrying the parent edge's flag (and marker) read
   * before the split.
   */
  lemma HandDownsLand(nodes0: seq<Node>, nodes: seq<Node>, pen: seq<int>, sons: seq<Element>,
                      hs: seq<HandDown>, bnd: seq<bool>, mrk: seq<int>)
    requires ReadFrom(nodes0, pen, bnd, mrk) && AllFit(sons, |pen|, hs)
    requires InRange(nodes, Writes(sons, hs, bnd, mrk)) && Distinct(Targets(sons, hs))
    ensures Kept(nodes0, Applied(nodes, Writes(sons, hs, bnd, mrk)), pen, sons, hs)
  {
    var ws := Writes(sons, hs, bnd, mrk);
    WritesApart(sons, hs, bnd, mrk);
    AllLand(nodes, ws);
    var after := Applied(nodes, ws);
    forall i | 0 <= i < |hs| ensures Got(nodes0, after, pen, sons, hs[i]) {
      assert ws[i] == Write(sons, hs[i], bnd, mrk);
      assert after[ws[i].z] == Written(nodes[ws[i].z], ws[i]);
    }
  }

  /** `Kept` only looks at the sons' edge and vertex slots. */
  lemma KeptSameSlots(nodes0: seq<Node>, nodes: seq<Node>, pen: seq<int>, sons: seq<Element>, sons': seq<Element>,
                      hs: seq<HandDown>)
    requires Kept(nodes0, nodes, pen, sons, hs)
    requires |sons'| == |sons| && forall j :: 0 <= j < |sons| ==> sons'[j].en == sons[j].en && sons'[j].vn == sons[j].vn
    ensures Kept(nodes0, nodes, pen, sons', hs)
  {
    forall i | 0 <= i < |hs| ensures Reaches(sons', hs[i]) && hs[i].from < |pen| && Got(nodes0, nodes, pen, sons', hs[i]) {
      assert Reaches(sons, hs[i]) && Got(nodes0, nodes, pen, sons, hs[i]);
      assert Target(sons', hs[i]) == Target(sons, hs[i]);
    }
  }

  /** The sorted pair of ends recorded in node `z`. */
  ghost function Ends(nodes: seq<Node>, z: int): Key
    requires 0 <= z < |nodes|
  {
    KeyOf(nodes[z].p1, nodes[z].p2)
  }

  /** A node between `a` and `b` records the key of `a` and `b`. */
  lemma MidEnds(nodes: seq<Node>, z: int, a: int, b: int)
    requires MidOf(nodes, z, a, b)
    ensures Ends(nodes, z) == KeyOf(a, b)
  {
  }

  /** No key occurs twice in `ks`. */
  ghost predicate KeysApart(ks: seq<Key>)
  {
    forall i, j :: 0 <= i < j < |ks| ==> ks[i] != ks[j]
  }

  /** Nodes that record pairwise different ends are different nodes. */
  lemma ApartByEnds(nodes: seq<Node>, zs: seq<int>, ks: seq<Key>)
    requires |zs| == |ks| && KeysApart(ks)
    requires forall i :: 0 <= i < |zs| ==> 0 <= zs[i] < |nodes| && Ends(nodes, zs[i]) == ks[i]
    ensures Distinct(zs)
  {
  }
}
