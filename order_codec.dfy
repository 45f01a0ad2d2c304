/**
 * Packing of a quad element's polynomial order into one `int`
 * (hermes2d/include/global.h): the horizontal order lives in the low
 * `OrderBits` bits and the vertical order in the bits above them.  A
 * triangle, and a quad edge, carries a single order.
 *
 * The macros use `&`, `>>` and `<<` on a two's-complement `int`.  For the
 * mask `2^5 - 1`, `o & mask` is the residue of `o` modulo 32 that lies in
 * [0, 31], which is Dafny's (Euclidean) `o % 32`; an arithmetic `o >> 5` is
 * the floor of `o / 32`, which is Dafny's `o / 32` for a positive divisor;
 * `v << 5` is `v * 32`.  Overflow of `v << 5` past 32 bits is not modelled:
 * `MakeQuadOrder` works on unbounded integers.
 */
module OrderCodec {

  /** How many bits one directional order takes. */
  const OrderBits: nat := 5

  /** 2^n, the value of `1 << n`. */
  function Pow2(n: nat): (p: nat)
    ensures p >= 1
  {
    if n == 0 then 1 else 2 * Pow2(n - 1)
  }

  /** `H2D_ORDER_MASK`: `(1 << H2D_ORDER_BITS) - 1`. */
  const OrderMask: int := Pow2(OrderBits) - 1

  /** The two element shapes (`ElementMode2D`); the ordinal is the enum's value. */
  datatype ElementMode = Triangle | Quad
  {
    function Ordinal(): (k: int)
      ensures 0 <= k <= 1
      ensures (k == 0) == (this == Triangle)
    {
      if this == Triangle then 0 else 1
    }
  }

  /** `H2D_GET_H_ORDER`: the horizontal order, `o & H2D_ORDER_MASK`. */
  function GetHOrder(o: int): (h: int)
    ensures 0 <= h <= OrderMask
  {
    MaskIsThirtyOne();
    o % 32
  }

  /** `H2D_GET_V_ORDER`: the vertical order, the arithmetic shift `o >> H2D_ORDER_BITS`. */
  function GetVOrder(o: int): (v: int)
  {
    o / 32
  }

  /** `H2D_MAKE_QUAD_ORDER`: `(v << H2D_ORDER_BITS) + h`. */
  function MakeQuadOrder(h: int, v: int): (o: int)
  {
    v * 32 + h
  }

  /**
   * `H2D_MAKE_EDGE_ORDER`: the order of edge `edge` of an element of shape
   * `mode` whose (packed, for a quad) order is `order`.
   */
  function MakeEdgeOrder(mode: ElementMode, edge: int, order: int): (r: int)
  {
    if mode == Triangle || edge == 0 || edge == 2 then GetHOrder(order) else GetVOrder(order)
  }

  /** The mask is 31, so one directional order ranges over [0, 31]. */
  lemma MaskIsThirtyOne()
    ensures OrderMask == 31 && Pow2(OrderBits) == 32
  {
    assert Pow2(1) == 2;
    assert Pow2(2) == 4;
    assert Pow2(3) == 8;
    assert Pow2(4) == 16;
  }

  /** Decoding the horizontal half of a packed order gives back `h`. */
  lemma GetHOfMakeQuad(h: int, v: int)
    requires 0 <= h <= 31
    ensures GetHOrder(MakeQuadOrder(h, v)) == h
  {
    assert v * 32 + h == 32 * v + h;
    DivModOfMultiple(v, h);
  }

  /** Decoding the vertical half of a packed order gives back `v`. */
  lemma GetVOfMakeQuad(h: int, v: int)
    requires 0 <= h <= 31
    ensures GetVOrder(MakeQuadOrder(h, v)) == v
  {
    DivModOfMultiple(v, h);
  }

  /** Splitting an order and packing the halves again is the identity, for every `int`. */
  lemma MakeQuadOfParts(o: int)
    ensures MakeQuadOrder(GetHOrder(o), GetVOrder(o)) == o
  {
  }

  /** Two packed quad orders are equal exactly when both halves are. */
  lemma MakeQuadInjective(h1: int, v1: int, h2: int, v2: int)
    requires 0 <= h1 <= 31 && 0 <= h2 <= 31
    ensures MakeQuadOrder(h1, v1) == MakeQuadOrder(h2, v2) <==> h1 == h2 && v1 == v2
  {
    GetHOfMakeQuad(h1, v1);
    GetHOfMakeQuad(h2, v2);
    GetVOfMakeQuad(h1, v1);
    GetVOfMakeQuad(h2, v2);
  }

  /**
   * On a packed quad order, edges 0 and 2 (the horizontal ones) get the
   * horizontal order and edges 1 and 3 the vertical one; a triangle edge
   * gets the low bits.
   */
  lemma EdgeOrderOfQuad(h: int, v: int, edge: int)
    requires 0 <= h <= 31 && 0 <= edge < 4
    ensures MakeEdgeOrder(Quad, edge, MakeQuadOrder(h, v)) == (if edge % 2 == 0 then h else v)
    ensures MakeEdgeOrder(Triangle, edge, MakeQuadOrder(h, v)) == h
  {
    GetHOfMakeQuad(h, v);
    GetVOfMakeQuad(h, v);
  }

  lemma DivModOfMultiple(v: int, h: int)
    requires 0 <= h < 32
    ensures (v * 32 + h) / 32 == v && (v * 32 + h) % 32 == h
  {
    var q, r := (v * 32 + h) / 32, (v * 32 + h) % 32;
    assert q * 32 + r == v * 32 + h && 0 <= r < 32;
    assert (q - v) * 32 == h - r;
  }

  /** `H2D_TRF_TRI_NUM`: transformations of a triangle to a sub-domain. */
  const TrfTriNum: int := 4
  /** `H2D_TRF_QUAD_NUM`: transformations of a quad to a sub-domain. */
  const TrfQuadNum: int := 8
  /** `H2D_TRF_NUM`: all transformations, the quad ones plus the identity. */
  const TrfNum: int := TrfQuadNum + 1
  /** `H2D_TRF_IDENTITY`: the identity's index, one past the last quad transformation. */
  const TrfIdentity: int := TrfQuadNum

  /**
   * Nine transformations: the eight quad son transformations (the four
   * triangle ones among their indices) and the identity, whose index is
   * one past the last quad transformation.
   */
  lemma TrfCounts()
    ensures TrfNum == TrfQuadNum + 1 == 9
    ensures TrfIdentity == TrfQuadNum && TrfIdentity == TrfNum - 1
    ensures TrfTriNum < TrfQuadNum
  {
  }
}
