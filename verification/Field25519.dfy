/** Field elements modulo 2^255 - 19 as five radix-2^51 limbs. */
module Field25519 {
  import opened Words
  import opened Modular
  import Radix

  // 2^51, 2^102, 2^153, 2^204, 2^255 and the prime, as literals.
  const B1: int := 0x8_0000_0000_0000
  const B2: int := 0x40_0000_0000_0000_0000_0000_0000
  const B3: int := 0x200_0000_0000_0000_0000_0000_0000_0000_0000_0000
  const B4: int := 0x1000_0000_0000_0000_0000_0000_0000_0000_0000_0000_0000_0000_0000
  const B5: int := 0x8000_0000_0000_0000_0000_0000_0000_0000_0000_0000_0000_0000_0000_0000_0000_0000
  const P: int := 0x7fff_ffff_ffff_ffff_ffff_ffff_ffff_ffff_ffff_ffff_ffff_ffff_ffff_ffff_ffff_ffed

  datatype Fe = Fe(l0: u64, l1: u64, l2: u64, l3: u64, l4: u64)

  const FE_ZERO := Fe(0, 0, 0, 0, 0)
  const FE_ONE := Fe(1, 0, 0, 0, 0)

  /** The integer five accumulators denote in radix 2^51. */
  function Sum5(r0: int, r1: int, r2: int, r3: int, r4: int): int {
    r0 + r1 * B1 + r2 * B2 + r3 * B3 + r4 * B4
  }

  function Value(a: Fe): nat {
    Sum5(a.l0 as int, a.l1 as int, a.l2 as int, a.l3 as int, a.l4 as int)
  }

  ghost predicate Below(a: Fe, n: int) {
    a.l0 as int < n && a.l1 as int < n && a.l2 as int < n && a.l3 as int < n && a.l4 as int < n
  }

  /** What every multiplication leaves: limbs below 2^51, limb 1 below 2^51 + 2^13. */
  ghost predicate Reduced(a: Fe) {
    && a.l0 < 0x8_0000_0000_0000
    && a.l1 < 0x8_0000_0000_2000
    && a.l2 < 0x8_0000_0000_0000
    && a.l3 < 0x8_0000_0000_0000
    && a.l4 < 0x8_0000_0000_0000
  }

  /** What a multiplication accepts: every limb below 2^53. */
  ghost predicate Loose(a: Fe) { Below(a, 0x20_0000_0000_0000) }

  function FAdd(a: Fe, b: Fe): (r: Fe)
    requires Reduced(a) && Reduced(b)
    ensures Loose(r)
    ensures Value(r) == Value(a) + Value(b)
  {
    Fe(a.l0 + b.l0, a.l1 + b.l1, a.l2 + b.l2, a.l3 + b.l3, a.l4 + b.l4)
  }

  /** Subtraction adds 2p first; no limb underflows. */
  function FSub(a: Fe, b: Fe): (r: Fe)
    requires Reduced(a) && Reduced(b)
    ensures Loose(r)
    ensures Value(r) == Value(a) - Value(b) + 2 * P
  {
    Fe((a.l0 + 0xF_FFFF_FFFF_FFDA) - b.l0,
       (a.l1 + 0xF_FFFF_FFFF_FFFE) - b.l1,
       (a.l2 + 0xF_FFFF_FFFF_FFFE) - b.l2,
       (a.l3 + 0xF_FFFF_FFFF_FFFE) - b.l3,
       (a.l4 + 0xF_FFFF_FFFF_FFFE) - b.l4)
  }

  /** Accumulator bounds under which no carry overflows: the first four below 2^113
      (they may carry a factor 19), the last below 2^109. */
  ghost predicate CarryBounds(r0: int, r1: int, r2: int, r3: int, r4: int) {
    && 0 <= r0 < 0x2_0000_0000_0000_0000_0000_0000_0000
    && 0 <= r1 < 0x2_0000_0000_0000_0000_0000_0000_0000
    && 0 <= r2 < 0x2_0000_0000_0000_0000_0000_0000_0000
    && 0 <= r3 < 0x2_0000_0000_0000_0000_0000_0000_0000
    && 0 <= r4 < 0x2000_0000_0000_0000_0000_0000_0000
  }

  /** What a shift by 51 carries out, and what the mask keeps. */
  function Over(x: u128): (q: u128)
    ensures x < 0x4_0000_0000_0000_0000_0000_0000_0000 ==> q < 0x8000_0000_0000_0000
    ensures x < 0x2001_0000_0000_0000_0000_0000_0000 ==> q < 0x400_2000_0000_0000
    ensures x < 0x1_0000_0000_0000_0000 ==> q < 0x2000
    ensures x as int == q as int * B1 + Kept(x) as int
  {
    x / 0x8_0000_0000_0000
  }

  function Kept(x: u128): (r: u128)
    ensures r < 0x8_0000_0000_0000
  {
    x % 0x8_0000_0000_0000
  }

  /** The carry chain; every intermediate result fits its 128-bit word. */
  function CarryLimbs(r0: u128, r1: u128, r2: u128, r3: u128, r4: u128): Fe
    requires CarryBounds(r0 as int, r1 as int, r2 as int, r3 as int, r4 as int)
  {
    hide Over, Kept;
    var c0, m0 := Over(r0), Kept(r0);
    var s1 := r1 + c0;
    var c1, m1 := Over(s1), Kept(s1);
    var s2 := r2 + c1;
    var c2, m2 := Over(s2), Kept(s2);
    var s3 := r3 + c2;
    var c3, m3 := Over(s3), Kept(s3);
    var s4 := r4 + c3;
    var c4, m4 := Over(s4), Kept(s4);
    var low := m0 + 19 * c4;
    var c, n0 := Over(low), Kept(low);
    var n1 := m1 + c;
    Fe(n0 as u64, n1 as u64, m2 as u64, m3 as u64, m4 as u64)
  }

  lemma CarryLimbsReduced(r0: u128, r1: u128, r2: u128, r3: u128, r4: u128)
    requires CarryBounds(r0 as int, r1 as int, r2 as int, r3 as int, r4 as int)
    ensures var f := CarryLimbs(r0, r1, r2, r3, r4);
            Reduced(f) && Cong(Value(f), Sum5(r0 as int, r1 as int, r2 as int, r3 as int, r4 as int), P)
  {
    hide Over, Kept, Cong, Sum5;
    var c0, m0 := Over(r0), Kept(r0);
    var s1 := r1 + c0;
    var c1, m1 := Over(s1), Kept(s1);
    var s2 := r2 + c1;
    var c2, m2 := Over(s2), Kept(s2);
    var s3 := r3 + c2;
    var c3, m3 := Over(s3), Kept(s3);
    var s4 := r4 + c3;
    var c4, m4 := Over(s4), Kept(s4);
    var low := m0 + 19 * c4;
    var c, n0 := Over(low), Kept(low);
    CarryChain(r0 as int, r1 as int, r2 as int, r3 as int, r4 as int,
               c0 as int, c1 as int, c2 as int, c3 as int, c4 as int,
               m0 as int, m1 as int, m2 as int, m3 as int, m4 as int, c as int, n0 as int);
  }

  /** Carrying changes the denoted integer only by a multiple of p. */
  function CarryReduce(r0: u128, r1: u128, r2: u128, r3: u128, r4: u128): (f: Fe)
    requires CarryBounds(r0 as int, r1 as int, r2 as int, r3 as int, r4 as int)
    ensures Reduced(f)
    ensures Cong(Value(f), Sum5(r0 as int, r1 as int, r2 as int, r3 as int, r4 as int), P)
  {
    hide CarryLimbs;
    CarryLimbsReduced(r0, r1, r2, r3, r4);
    CarryLimbs(r0, r1, r2, r3, r4)
  }

  lemma CarryChain(r0: int, r1: int, r2: int, r3: int, r4: int,
                   c0: int, c1: int, c2: int, c3: int, c4: int,
                   m0: int, m1: int, m2: int, m3: int, m4: int, c: int, n0: int)
    requires r0 == c0 * B1 + m0
    requires r1 + c0 == c1 * B1 + m1
    requires r2 + c1 == c2 * B1 + m2
    requires r3 + c2 == c3 * B1 + m3
    requires r4 + c3 == c4 * B1 + m4
    requires m0 + 19 * c4 == c * B1 + n0
    ensures Cong(Sum5(n0, m1 + c, m2, m3, m4), Sum5(r0, r1, r2, r3, r4), P)
  {
    CongMultiple(Sum5(n0, m1 + c, m2, m3, m4), Sum5(r0, r1, r2, r3, r4), -c4, P);
  }

  /** A row of the schoolbook product; no product or partial sum leaves 128 bits. The limit n
      bounds the left factors, which carry the factor 19 in all rows but the last. */
  function Row(x0: u128, y0: u128, x1: u128, y1: u128, x2: u128, y2: u128,
               x3: u128, y3: u128, x4: u128, y4: u128, ghost n: int): (r: u128)
    requires 0 <= n <= 0x400_0000_0000_0000
    requires x0 as int < n && x1 as int < n && x2 as int < n && x3 as int < n && x4 as int < n
    requires y0 < 0x20_0000_0000_0000 && y1 < 0x20_0000_0000_0000 && y2 < 0x20_0000_0000_0000
    requires y3 < 0x20_0000_0000_0000 && y4 < 0x20_0000_0000_0000
    ensures r as int == Mul(x0 as int, y0 as int) + Mul(x1 as int, y1 as int) + Mul(x2 as int, y2 as int)
                        + Mul(x3 as int, y3 as int) + Mul(x4 as int, y4 as int)
    ensures r as int <= 5 * 0x20_0000_0000_0000 * n
  {
    hide Product;
    Product(x0, y0, n) + Product(x1, y1, n) + Product(x2, y2, n) + Product(x3, y3, n) + Product(x4, y4, n)
  }

  function Product(x: u128, y: u128, ghost n: int): (p: u128)
    requires x as int < n <= 0x400_0000_0000_0000 && y < 0x20_0000_0000_0000
    ensures p as int == Mul(x as int, y as int) <= 0x20_0000_0000_0000 * n
  {
    ProductBound(x as int, y as int, n, 0x20_0000_0000_0000);
    x * y
  }

  /** Schoolbook multiplication with the limbs past 2^255 folded back by 19. */
  function FMul(a: Fe, b: Fe): (r: Fe)
    requires Loose(a) && Loose(b)
    ensures Reduced(r)
    ensures Cong(Value(r), Value(a) * Value(b), P)
  {
    var a0, a1, a2, a3, a4 :=
      a.l0 as u128, a.l1 as u128, a.l2 as u128, a.l3 as u128, a.l4 as u128;
    var b0, b1, b2, b3, b4 :=
      b.l0 as u128, b.l1 as u128, b.l2 as u128, b.l3 as u128, b.l4 as u128;
    var t1, t2, t3, t4 := 19 * a1, 19 * a2, 19 * a3, 19 * a4;
    var r0 := Row(a0, b0, t1, b4, t2, b3, t3, b2, t4, b1, 0x260_0000_0000_0000);
    var r1 := Row(a0, b1, a1, b0, t2, b4, t3, b3, t4, b2, 0x260_0000_0000_0000);
    var r2 := Row(a0, b2, a1, b1, a2, b0, t3, b4, t4, b3, 0x260_0000_0000_0000);
    var r3 := Row(a0, b3, a1, b2, a2, b1, a3, b0, t4, b4, 0x260_0000_0000_0000);
    var r4 := Row(a0, b4, a1, b3, a2, b2, a3, b1, a4, b0, 0x20_0000_0000_0000);
    RowsFold(a0 as int, a1 as int, a2 as int, a3 as int, a4 as int,
             b0 as int, b1 as int, b2 as int, b3 as int, b4 as int,
             r0 as int, r1 as int, r2 as int, r3 as int, r4 as int);
    CarryReduce(r0, r1, r2, r3, r4)
  }

  lemma RowsFold(a0: int, a1: int, a2: int, a3: int, a4: int,
                 b0: int, b1: int, b2: int, b3: int, b4: int,
                 r0: int, r1: int, r2: int, r3: int, r4: int)
    requires r0 == Mul(a0, b0) + Mul(19 * a1, b4) + Mul(19 * a2, b3) + Mul(19 * a3, b2) + Mul(19 * a4, b1)
    requires r1 == Mul(a0, b1) + Mul(a1, b0) + Mul(19 * a2, b4) + Mul(19 * a3, b3) + Mul(19 * a4, b2)
    requires r2 == Mul(a0, b2) + Mul(a1, b1) + Mul(a2, b0) + Mul(19 * a3, b4) + Mul(19 * a4, b3)
    requires r3 == Mul(a0, b3) + Mul(a1, b2) + Mul(a2, b1) + Mul(a3, b0) + Mul(19 * a4, b4)
    requires r4 == Mul(a0, b4) + Mul(a1, b3) + Mul(a2, b2) + Mul(a3, b1) + Mul(a4, b0)
    ensures Cong(Sum5(r0, r1, r2, r3, r4), Sum5(a0, a1, a2, a3, a4) * Sum5(b0, b1, b2, b3, b4), P)
  {
    hide Sum5, Mul, Cong, Radix.Digits5, Radix.FoldsBy;
    MulScale(19, a1, b4);
    MulScale(19, a2, b3);
    MulScale(19, a2, b4);
    MulScale(19, a3, b2);
    MulScale(19, a3, b3);
    MulScale(19, a3, b4);
    MulScale(19, a4, b1);
    MulScale(19, a4, b2);
    MulScale(19, a4, b3);
    MulScale(19, a4, b4);
    MulIs(19, Mul(a1, b4) + Mul(a2, b3) + Mul(a3, b2) + Mul(a4, b1));
    MulIs(19, Mul(a2, b4) + Mul(a3, b3) + Mul(a4, b2));
    MulIs(19, Mul(a3, b4) + Mul(a4, b3));
    MulIs(19, Mul(a4, b4));
    FoldsByNineteen();
    Radix.RowsFold(B1, 19, P, a0, a1, a2, a3, a4, b0, b1, b2, b3, b4, r0, r1, r2, r3, r4);
    SumIsDigits(r0, r1, r2, r3, r4);
    SumIsDigits(a0, a1, a2, a3, a4);
    SumIsDigits(b0, b1, b2, b3, b4);
  }

  lemma FoldsByNineteen()
    ensures Radix.FoldsBy(B1, 19, P)
  {
  }

  lemma SumIsDigits(x0: int, x1: int, x2: int, x3: int, x4: int)
    ensures Sum5(x0, x1, x2, x3, x4) == Radix.Digits5(B1, x0, x1, x2, x3, x4)
  {
  }

  function FSquare(a: Fe): (r: Fe)
    requires Loose(a)
    ensures Reduced(r)
    ensures Cong(Value(r), Value(a) * Value(a), P)
  {
    FMul(a, a)
  }

  lemma ScaleValue(a: Fe)
    ensures 121665 * Value(a)
         == Sum5(a.l0 as int * 121665, a.l1 as int * 121665, a.l2 as int * 121665,
                 a.l3 as int * 121665, a.l4 as int * 121665)
  {
  }

  function FMul121665(a: Fe): (r: Fe)
    requires Loose(a)
    ensures Reduced(r)
    ensures Cong(Value(r), 121665 * Value(a), P)
  {
    hide CarryReduce, Sum5, Value;
    ScaleValue(a);
    var r0 := a.l0 as u128 * 121665;
    var r1 := a.l1 as u128 * 121665;
    var r2 := a.l2 as u128 * 121665;
    var r3 := a.l3 as u128 * 121665;
    var r4 := a.l4 as u128 * 121665;
    CarryReduce(r0, r1, r2, r3, r4)
  }
}
