/** Poly1305 on five radix-2^26 limbs, against the integer definition of section 2.5 of RFC 8439. */
module Poly1305 {
  import opened Words
  import opened Modular
  import opened ByteStrings
  import Radix

  // 2^26, 2^52, 2^78, 2^104, 2^130 and the prime 2^130 - 5, as literals.
  const R1: int := 0x400_0000
  const R2: int := 0x10_0000_0000_0000
  const R3: int := 0x4000_0000_0000_0000_0000
  const R4: int := 0x100_0000_0000_0000_0000_0000_0000
  const R5: int := 0x4_0000_0000_0000_0000_0000_0000_0000_0000
  const P: int := 0x3_ffff_ffff_ffff_ffff_ffff_ffff_ffff_fffb
  const W: int := 0x1_0000_0000_0000_0000_0000_0000_0000_0000

  datatype Limbs = Limbs(l0: u64, l1: u64, l2: u64, l3: u64, l4: u64)

  function Sum5(r0: int, r1: int, r2: int, r3: int, r4: int): int {
    r0 + r1 * R1 + r2 * R2 + r3 * R3 + r4 * R4
  }

  function Value(a: Limbs): nat {
    Sum5(a.l0 as int, a.l1 as int, a.l2 as int, a.l3 as int, a.l4 as int)
  }

  lemma ValueIsSum(a: Limbs)
    ensures Value(a) == Sum5(a.l0 as int, a.l1 as int, a.l2 as int, a.l3 as int, a.l4 as int)
  {
  }

  ghost predicate Tight(a: Limbs) {
    && a.l0 < 0x400_0000 && a.l1 < 0x400_0000 && a.l2 < 0x400_0000 && a.l3 < 0x400_0000
    && a.l4 < 0x400_0000
  }

  // ---- Specification -------------------------------------------------------

  /** The mask of section 2.5.1 of RFC 8439. */
  const CLAMP: int := 0x0fff_fffc_0fff_fffc_0fff_fffc_0fff_ffff

  function ClampedR(key: Bytes): nat
    requires |key| == 32
  {
    And(LE(key[..16]), CLAMP)
  }

  /** A block of up to 16 bytes with a one bit beyond its last byte. */
  function BlockValue(block: Bytes): nat {
    LE(block + [1])
  }

  /** The message cut into 16-byte blocks, the last possibly shorter. */
  function Blocks(msg: Bytes): (b: seq<Bytes>)
    decreases |msg|
  {
    if msg == [] then []
    else if |msg| <= 16 then [msg]
    else [msg[..16]] + Blocks(msg[16..])
  }

  /** The polynomial c_1 r^q + c_2 r^(q-1) + ... + c_q r over the blocks. */
  function Polynomial(blocks: seq<Bytes>, r: nat): nat {
    if blocks == [] then 0
    else
      PowNonneg(r, |blocks|);
      MulMono(0, BlockValue(blocks[0]), Pow(r, |blocks|));
      BlockValue(blocks[0]) * Pow(r, |blocks|) + Polynomial(blocks[1..], r)
  }

  lemma {:induction false} PowNonneg(r: nat, e: nat)
    ensures Pow(r, e) >= 0
  {
    if e != 0 {
      PowNonneg(r, e - 1);
      MulMono(0, r, Pow(r, e - 1));
    }
  }

  /** The tag of section 2.5 of RFC 8439. */
  function TagSpec(key: Bytes, msg: Bytes): nat
    requires |key| == 32
  {
    (Polynomial(Blocks(msg), ClampedR(key)) % P + LE(key[16..32])) % W
  }

  /** Horner's accumulator, one block at a time. */
  function Horner(acc: nat, blocks: seq<Bytes>, r: nat): nat
    decreases |blocks|
  {
    if blocks == [] then acc
    else
      MulMono(0, acc + BlockValue(blocks[0]), r);
      Horner((acc + BlockValue(blocks[0])) * r, blocks[1..], r)
  }

  lemma {:induction false} HornerIsPolynomial(acc: nat, blocks: seq<Bytes>, r: nat)
    ensures Horner(acc, blocks, r) == acc * Pow(r, |blocks|) + Polynomial(blocks, r)
    decreases |blocks|
  {
    if blocks != [] {
      hide BlockValue;
      var c, rest := BlockValue(blocks[0]), blocks[1..];
      MulMono(0, acc + c, r);
      HornerIsPolynomial((acc + c) * r, rest, r);
      MulAssoc(acc + c, r, Pow(r, |rest|));
      assert Pow(r, |blocks|) == r * Pow(r, |rest|);
      assert (acc + c) * Pow(r, |blocks|) == acc * Pow(r, |blocks|) + c * Pow(r, |blocks|);
    }
  }

  // ---- The multiply-and-carry step -----------------------------------------

  /** Loop invariant of the accumulator: limb 1 has absorbed one late carry. */
  ghost predicate Carried(h: Limbs) {
    && h.l0 < 0x400_0000
    && h.l1 < 0x400_0080
    && h.l2 < 0x400_0000
    && h.l3 < 0x400_0000
    && h.l4 < 0x400_0000
  }

  ghost predicate Loose(h: Limbs) {
    && h.l0 < 0x800_0000 && h.l1 < 0x800_0080 && h.l2 < 0x800_0000 && h.l3 < 0x800_0000
    && h.l4 < 0x800_0000
  }

  /** A row of five products: below 2^58, so neither a product nor a partial sum overflows. */
  function Row(x0: u64, y0: u64, x1: u64, y1: u64, x2: u64, y2: u64,
               x3: u64, y3: u64, x4: u64, y4: u64, ghost n: int): (d: u64)
    requires x0 < 0x800_0080 && x1 < 0x800_0080 && x2 < 0x800_0080 && x3 < 0x800_0080
    requires x4 < 0x800_0080
    requires 0 < n <= 0x1400_0000
    requires y0 as int < n && y1 as int < n && y2 as int < n && y3 as int < n && y4 as int < n
    ensures d as int == Mul(x0 as int, y0 as int) + Mul(x1 as int, y1 as int) + Mul(x2 as int, y2 as int)
                        + Mul(x3 as int, y3 as int) + Mul(x4 as int, y4 as int)
    ensures d as int <= 5 * 0x800_0080 * n
    ensures d < 0x400_0000_0000_0000
  {
    ProductBound(x0 as int, y0 as int, 0x800_0080, n);
    ProductBound(x1 as int, y1 as int, 0x800_0080, n);
    ProductBound(x2 as int, y2 as int, 0x800_0080, n);
    ProductBound(x3 as int, y3 as int, 0x800_0080, n);
    ProductBound(x4 as int, y4 as int, 0x800_0080, n);
    x0 * y0 + x1 * y1 + x2 * y2 + x3 * y3 + x4 * y4
  }

  /** Carry propagation after a multiplication; 2^130 folds back as 5. */
  function CarryRow(d0: u64, d1: u64, d2: u64, d3: u64, d4: u64): (h: Limbs)
    requires d0 < 0x400_0000_0000_0000 && d1 < 0x400_0000_0000_0000 && d2 < 0x400_0000_0000_0000
    requires d3 < 0x400_0000_0000_0000 && d4 < 0x80_0000_0000_0000 + 0x40_0000_0000_0000
    ensures Carried(h)
    ensures Cong(Value(h), Sum5(d0 as int, d1 as int, d2 as int, d3 as int, d4 as int), P)
  {
    var c0 := d0 / 0x400_0000;
    var h0 := d0 % 0x400_0000;
    var c1 := (d1 + c0) / 0x400_0000;
    var h1 := (d1 + c0) % 0x400_0000;
    var c2 := (d2 + c1) / 0x400_0000;
    var h2 := (d2 + c1) % 0x400_0000;
    var c3 := (d3 + c2) / 0x400_0000;
    var h3 := (d3 + c2) % 0x400_0000;
    var c4 := (d4 + c3) / 0x400_0000;
    var h4 := (d4 + c3) % 0x400_0000;
    var low := h0 + c4 * 5;
    var c0b := low / 0x400_0000;
    var n0 := low % 0x400_0000;
    CarryChain(d0 as int, d1 as int, d2 as int, d3 as int, d4 as int,
               c0 as int, c1 as int, c2 as int, c3 as int, c4 as int,
               h0 as int, h1 as int, h2 as int, h3 as int, h4 as int, c0b as int, n0 as int);
    Limbs(n0, h1 + c0b, h2, h3, h4)
  }

  lemma CarryChain(d0: int, d1: int, d2: int, d3: int, d4: int,
                   c0: int, c1: int, c2: int, c3: int, c4: int,
                   h0: int, h1: int, h2: int, h3: int, h4: int, c: int, n0: int)
    requires d0 == c0 * R1 + h0
    requires d1 + c0 == c1 * R1 + h1
    requires d2 + c1 == c2 * R1 + h2
    requires d3 + c2 == c3 * R1 + h3
    requires d4 + c3 == c4 * R1 + h4
    requires h0 + c4 * 5 == c * R1 + n0
    ensures Cong(Sum5(n0, h1 + c, h2, h3, h4), Sum5(d0, d1, d2, d3, d4), P)
  {
    CongMultiple(Sum5(n0, h1 + c, h2, h3, h4), Sum5(d0, d1, d2, d3, d4), -c4, P);
  }

  /** h * r modulo 2^130 - 5. */
  function MulR(h: Limbs, r: Limbs): (n: Limbs)
    requires Loose(h) && Tight(r)
    ensures Carried(n)
    ensures Cong(Value(n), Value(h) * Value(r), P)
  {
    var s1, s2, s3, s4 := r.l1 * 5, r.l2 * 5, r.l3 * 5, r.l4 * 5;
    var d0 := Row(h.l0, r.l0, h.l1, s4, h.l2, s3, h.l3, s2, h.l4, s1, 0x1400_0000);
    var d1 := Row(h.l0, r.l1, h.l1, r.l0, h.l2, s4, h.l3, s3, h.l4, s2, 0x1400_0000);
    var d2 := Row(h.l0, r.l2, h.l1, r.l1, h.l2, r.l0, h.l3, s4, h.l4, s3, 0x1400_0000);
    var d3 := Row(h.l0, r.l3, h.l1, r.l2, h.l2, r.l1, h.l3, r.l0, h.l4, s4, 0x1400_0000);
    var d4 := Row(h.l0, r.l4, h.l1, r.l3, h.l2, r.l2, h.l3, r.l1, h.l4, r.l0, 0x400_0000);
    RowsFold(h.l0 as int, h.l1 as int, h.l2 as int, h.l3 as int, h.l4 as int,
             r.l0 as int, r.l1 as int, r.l2 as int, r.l3 as int, r.l4 as int,
             d0 as int, d1 as int, d2 as int, d3 as int, d4 as int);
    CarryRow(d0, d1, d2, d3, d4)
  }

  lemma RowsFold(a0: int, a1: int, a2: int, a3: int, a4: int,
                 b0: int, b1: int, b2: int, b3: int, b4: int,
                 r0: int, r1: int, r2: int, r3: int, r4: int)
    requires r0 == Mul(a0, b0) + Mul(a1, b4 * 5) + Mul(a2, b3 * 5) + Mul(a3, b2 * 5) + Mul(a4, b1 * 5)
    requires r1 == Mul(a0, b1) + Mul(a1, b0) + Mul(a2, b4 * 5) + Mul(a3, b3 * 5) + Mul(a4, b2 * 5)
    requires r2 == Mul(a0, b2) + Mul(a1, b1) + Mul(a2, b0) + Mul(a3, b4 * 5) + Mul(a4, b3 * 5)
    requires r3 == Mul(a0, b3) + Mul(a1, b2) + Mul(a2, b1) + Mul(a3, b0) + Mul(a4, b4 * 5)
    requires r4 == Mul(a0, b4) + Mul(a1, b3) + Mul(a2, b2) + Mul(a3, b1) + Mul(a4, b0)
    ensures Cong(Sum5(r0, r1, r2, r3, r4), Sum5(a0, a1, a2, a3, a4) * Sum5(b0, b1, b2, b3, b4), P)
  {
    hide Sum5, Mul, Cong, Radix.Digits5, Radix.FoldsBy;
    MulScale(5, a1, b4);
    MulScale(5, a2, b3);
    MulScale(5, a2, b4);
    MulScale(5, a3, b2);
    MulScale(5, a3, b3);
    MulScale(5, a3, b4);
    MulScale(5, a4, b1);
    MulScale(5, a4, b2);
    MulScale(5, a4, b3);
    MulScale(5, a4, b4);
    MulIs(5, Mul(a1, b4) + Mul(a2, b3) + Mul(a3, b2) + Mul(a4, b1));
    MulIs(5, Mul(a2, b4) + Mul(a3, b3) + Mul(a4, b2));
    MulIs(5, Mul(a3, b4) + Mul(a4, b3));
    MulIs(5, Mul(a4, b4));
    FoldsByFive();
    Radix.RowsFold(R1, 5, P, a0, a1, a2, a3, a4, b0, b1, b2, b3, b4, r0, r1, r2, r3, r4);
    SumIsDigits(r0, r1, r2, r3, r4);
    SumIsDigits(a0, a1, a2, a3, a4);
    SumIsDigits(b0, b1, b2, b3, b4);
  }

  lemma FoldsByFive()
    ensures Radix.FoldsBy(R1, 5, P)
  {
  }

  lemma SumIsDigits(x0: int, x1: int, x2: int, x3: int, x4: int)
    ensures Sum5(x0, x1, x2, x3, x4) == Radix.Digits5(R1, x0, x1, x2, x3, x4)
  {
  }

  // ---- Loading the key and the blocks --------------------------------------

  const CLAMP_BYTES: Bytes :=
    [0xff, 0xff, 0xff, 0x0f, 0xfc, 0xff, 0xff, 0x0f, 0xfc, 0xff, 0xff, 0x0f, 0xfc, 0xff, 0xff, 0x0f]

  lemma ClampBytesValue()
    ensures LE(CLAMP_BYTES) == CLAMP
  {
    hide Pow2, LE;
    var a: Bytes, b: Bytes := [0xff, 0xff, 0xff, 0x0f], [0xfc, 0xff, 0xff, 0x0f];
    FourBytes(0xff, 0xff, 0xff, 0x0f);
    FourBytes(0xfc, 0xff, 0xff, 0x0f);
    Pow2ThirtyTwo();
    LEAppend(b, b);
    LEAppend(b, b + b);
    LEAppend(a, b + (b + b));
    assert CLAMP_BYTES == a + (b + (b + b));
  }

  lemma FourBytes(a: u8, b: u8, c: u8, d: u8)
    ensures LE([a, b, c, d])
         == a as int + 0x100 * b as int + 0x1_0000 * c as int + 0x100_0000 * d as int
  {
    var s: Bytes := [a, b, c, d];
    assert s[1..] == [b, c, d] && s[1..][1..] == [c, d] && s[1..][1..][1..] == [d];
    assert LE([d]) == d as int;
    assert LE([c, d]) == c as int + 256 * LE([c, d][1..]);
    assert LE([b, c, d]) == b as int + 256 * LE([b, c, d][1..]);
  }

  lemma AndFull(b: u8)
    ensures OpByte(AndOp, b, 0xff) == b
  {
    hide Bitwise, Pow2;
    Pow2Eight();
    AndMask(b as int, 8);
  }

  /** Clamping byte by byte, in the order of the code. */
  function ClampBytes(k: Bytes): (r: Bytes)
    requires |k| == 16
    ensures |r| == 16
    ensures LE(r) == And(LE(k), CLAMP)
  {
    var r := k[3 := OpByte(AndOp, k[3], 0x0f)][7 := OpByte(AndOp, k[7], 0x0f)]
              [11 := OpByte(AndOp, k[11], 0x0f)][15 := OpByte(AndOp, k[15], 0x0f)]
              [4 := OpByte(AndOp, k[4], 0xfc)][8 := OpByte(AndOp, k[8], 0xfc)]
              [12 := OpByte(AndOp, k[12], 0xfc)];
    ClampIsMask(k, r);
    r
  }

  lemma ClampIsMask(k: Bytes, r: Bytes)
    requires |k| == 16
    requires r == k[3 := OpByte(AndOp, k[3], 0x0f)][7 := OpByte(AndOp, k[7], 0x0f)]
                   [11 := OpByte(AndOp, k[11], 0x0f)][15 := OpByte(AndOp, k[15], 0x0f)]
                   [4 := OpByte(AndOp, k[4], 0xfc)][8 := OpByte(AndOp, k[8], 0xfc)]
                   [12 := OpByte(AndOp, k[12], 0xfc)]
    ensures LE(r) == And(LE(k), CLAMP)
  {
    hide OpByte, LE, Bitwise;
    forall i | 0 <= i < 16
      ensures r[i] == OpByte(AndOp, k[i], CLAMP_BYTES[i])
    {
      AndFull(k[i]);
    }
    assert r == OpBytes(AndOp, k, CLAMP_BYTES);
    OpBytesValue(AndOp, k, CLAMP_BYTES);
    ClampBytesValue();
  }

  /** Five 26-bit limbs of a 128-bit number. */
  function SplitLimbs(n: u128): (r: Limbs)
    ensures Tight(r) && Value(r) == n as int
  {
    var r0, r1, r2 := n % 0x400_0000, n / 0x400_0000 % 0x400_0000, n / 0x10_0000_0000_0000 % 0x400_0000;
    var r3 := n / 0x4000_0000_0000_0000_0000 % 0x400_0000;
    var r4 := n / 0x100_0000_0000_0000_0000_0000_0000 % 0x400_0000;
    SplitSum(n as int);
    Limbs(r0 as u64, r1 as u64, r2 as u64, r3 as u64, r4 as u64)
  }

  lemma SplitSum(n: nat)
    requires n < R5
    ensures n == Sum5(n % R1, n / R1 % R1, n / R2 % R1, n / R3 % R1, n / R4 % R1)
  {
    DivDiv(n, R1, R1);
    DivDiv(n, R2, R1);
    DivDiv(n, R3, R1);
  }

  /** `((n0 >> 52) | (n1 << 12)) & mask`; the shift drops what leaves the word. */
  function Limb2(n0: u64, n1: u64): (r: u64)
    ensures r as int == n0 as int / 0x10_0000_0000_0000 + 0x1000 * (n1 as int % 0x4000)
  {
    hide Pow2, Bitwise;
    Limb2Bits(n0 as int, n1 as int);
    (Or(n0 as int / 0x10_0000_0000_0000, (n1 as int * 0x1000) % 0x1_0000_0000_0000_0000) % 0x400_0000) as u64
  }

  lemma Limb2Bits(n0: nat, n1: nat)
    requires n0 < 0x1_0000_0000_0000_0000
    ensures Or(n0 / 0x10_0000_0000_0000, (n1 * 0x1000) % 0x1_0000_0000_0000_0000) % 0x400_0000
         == n0 / 0x10_0000_0000_0000 + 0x1000 * (n1 % 0x4000)
  {
    hide Pow2, Bitwise;
    var lo, hi := n0 / 0x10_0000_0000_0000, n1 % 0x10_0000_0000_0000;
    ShiftOut(n1, 0x1000, 0x10_0000_0000_0000);
    Pow2Literal40();
    OrDisjoint(lo, hi, 12);
    DivModUnique(lo + 0x1000 * hi, hi / 0x4000, lo + 0x1000 * (hi % 0x4000), 0x400_0000);
    DivDiv(n1, 0x4000, 0x40_0000_0000);
    DivModUnique(hi, (n1 / 0x4000) % 0x40_0000_0000, n1 % 0x4000, 0x4000);
  }

  /** `((n1 >> 40) | (n2 << 24)) & mask`. */
  function Limb4(n1: u64, n2: u64): (r: u64)
    requires n2 <= 1
    ensures r as int == n1 as int / 0x100_0000_0000 + 0x100_0000 * n2 as int
  {
    hide Pow2, Bitwise;
    Limb4Bits(n1 as int, n2 as int);
    (Or(n1 as int / 0x100_0000_0000, n2 as int * 0x100_0000) % 0x400_0000) as u64
  }

  lemma Limb4Bits(n1: nat, n2: nat)
    requires n1 < 0x1_0000_0000_0000_0000 && n2 <= 1
    ensures Or(n1 / 0x100_0000_0000, n2 * 0x100_0000) % 0x400_0000
         == n1 / 0x100_0000_0000 + 0x100_0000 * n2
  {
    hide Pow2, Bitwise;
    var lo := n1 / 0x100_0000_0000;
    Pow2Literal40();
    OrDisjoint(lo, n2, 24);
    DivModUnique(lo + 0x100_0000 * n2, 0, lo + 0x100_0000 * n2, 0x400_0000);
  }

  lemma ShiftOut(x: nat, b: nat, a: nat)
    requires a > 0 && b > 0
    ensures a * b > 0
    ensures (x * b) % (a * b) == b * (x % a)
  {
    var q, r := x / a, x % a;
    assert x * b == q * (a * b) + b * r by {
      assert x == q * a + r;
      assert (q * a + r) * b == q * a * b + r * b;
      MulAssoc(q, a, b);
    }
    MulMono(r, a - 1, b);
    assert (a - 1) * b == a * b - b;
    MulMono(0, r, b);
    MulMono(1, a, b);
    DivModUnique(x * b, q, b * r, a * b);
  }

  /** A padded 17-byte block as five limbs. */
  function BlockLimbs(n0: u64, n1: u64, n2: u64): (r: Limbs)
    requires n2 <= 1
    ensures Tight(r)
    ensures Value(r) == n0 as int + 0x1_0000_0000_0000_0000 * n1 as int + W * n2 as int
  {
    hide Limb2, Limb4;
    BlockSum(n0 as int, n1 as int, n2 as int);
    Limbs(n0 % 0x400_0000, n0 / 0x400_0000 % 0x400_0000, Limb2(n0, n1),
          n1 / 0x4000 % 0x400_0000, Limb4(n1, n2))
  }

  lemma BlockSum(n0: nat, n1: nat, n2: nat)
    ensures n0 + 0x1_0000_0000_0000_0000 * n1 + W * n2
         == Sum5(n0 % R1, n0 / R1 % R1, n0 / R2 + 0x1000 * (n1 % 0x4000),
                 n1 / 0x4000 % R1, n1 / 0x100_0000_0000 + 0x100_0000 * n2)
  {
    DivDiv(n0, R1, R1);
    DivDiv(n1, 0x4000, R1);
    assert n0 == n0 % R1 + R1 * (n0 / R1 % R1) + R2 * (n0 / R2);
    assert n1 == n1 % 0x4000 + 0x4000 * (n1 / 0x4000 % R1) + 0x100_0000_0000 * (n1 / 0x100_0000_0000);
  }

  lemma Pow2Literal40()
    ensures Pow2(40) == 0x100_0000_0000 && Pow2(24) == 0x100_0000
    ensures Pow2(52) == 0x10_0000_0000_0000 && Pow2(12) == 0x1000
  {
    hide Pow2;
    Pow2Eight();
    Pow2Sixteen();
    Pow2Add(16, 8);
    Pow2Add(24, 16);
    Pow2Four();
    Pow2Add(8, 4);
    Pow2Add(40, 12);
  }

  lemma Pow2Four()
    ensures Pow2(4) == 16
  {
  }

  /** The 17-byte buffer of a chunk: the chunk, a one, zeros. */
  function Padded(chunk: Bytes): (b: Bytes)
    requires |chunk| <= 16
    ensures |b| == 17
  {
    chunk + [1] + Zeros(16 - |chunk|)
  }

  lemma PaddedValue(chunk: Bytes)
    requires |chunk| <= 16
    ensures var b := Padded(chunk);
            && LE(b) == BlockValue(chunk)
            && LE(b) == LE(b[0..8]) + 0x1_0000_0000_0000_0000 * LE(b[8..16]) + W * b[16] as int
            && b[16] <= 1
  {
    hide LE, Pow2;
    var b := Padded(chunk);
    LEAppend(chunk + [1], Zeros(16 - |chunk|));
    LEZeros(16 - |chunk|);
    assert b == b[0..8] + (b[8..16] + [b[16]]);
    LEAppend(b[0..8], b[8..16] + [b[16]]);
    LEAppend(b[8..16], [b[16]]);
    LEOne(b[16]);
    Pow2SixtyFour();
  }

  function AddLimbs(h: Limbs, m: Limbs): (r: Limbs)
    requires Carried(h) && Tight(m)
    ensures Loose(r)
    ensures Value(r) == Value(h) + Value(m)
  {
    Limbs(h.l0 + m.l0, h.l1 + m.l1, h.l2 + m.l2, h.l3 + m.l3, h.l4 + m.l4)
  }

  /** The block as limbs: two word loads and the split. */
  function LoadBlock(chunk: Bytes): (m: Limbs)
    requires |chunk| <= 16
    ensures Tight(m) && Value(m) == BlockValue(chunk)
  {
    hide LE, BlockLimbs, BlockValue, Padded, Value, FromLe64;
    var block := Padded(chunk);
    PaddedValue(chunk);
    BlockLimbs(FromLe64(block[0..8]), FromLe64(block[8..16]), block[16] as u64)
  }

  /** One pass of the loop body: add the block, multiply by r, carry. */
  function Absorb(h: Limbs, chunk: Bytes, r: Limbs): (n: Limbs)
    requires |chunk| <= 16
    requires Carried(h) && Tight(r)
    ensures Carried(n)
  {
    MulR(AddLimbs(h, LoadBlock(chunk)), r)
  }

  lemma AbsorbValue(h: Limbs, chunk: Bytes, r: Limbs)
    requires |chunk| <= 16
    requires Carried(h) && Tight(r)
    ensures Cong(Value(Absorb(h, chunk, r)), (Value(h) + BlockValue(chunk)) * Value(r), P)
  {
    hide MulR, BlockValue, AddLimbs, LoadBlock, Value, Carried, Tight, Loose, Cong;
  }

  // ---- Finishing -----------------------------------------------------------

  /** The last carry pass leaves every limb below 2^26. */
  function FinalCarry(h: Limbs): (r: Limbs)
    requires Carried(h)
    ensures Tight(r)
    ensures Cong(Value(r), Value(h), P)
  {
    hide Value, Sum5, Cong;
    var c1 := h.l1 / 0x400_0000;
    var h1 := h.l1 % 0x400_0000;
    var c2 := (h.l2 + c1) / 0x400_0000;
    var h2 := (h.l2 + c1) % 0x400_0000;
    var c3 := (h.l3 + c2) / 0x400_0000;
    var h3 := (h.l3 + c2) % 0x400_0000;
    var c4 := (h.l4 + c3) / 0x400_0000;
    var h4 := (h.l4 + c3) % 0x400_0000;
    var low := h.l0 + c4 * 5;
    var c0 := low / 0x400_0000;
    var n0 := low % 0x400_0000;
    LateCarry(h, c1, h1, c2, h2, c3, h3, c4, h4, c0);
    ValueIsSum(h);
    ValueIsSum(Limbs(n0, h1 + c0, h2, h3, h4));
    CarryChain(h.l0 as int, h.l1 as int, h.l2 as int, h.l3 as int, h.l4 as int,
               0, c1 as int, c2 as int, c3 as int, c4 as int,
               h.l0 as int, h1 as int, h2 as int, h3 as int, h4 as int, c0 as int, n0 as int);
    Limbs(n0, h1 + c0, h2, h3, h4)
  }

  /** The carry out of the top can only be 1 when limb 1 had overflowed, and then it is small. */
  lemma LateCarry(h: Limbs, c1: u64, h1: u64, c2: u64, h2: u64, c3: u64, h3: u64, c4: u64, h4: u64, c0: u64)
    requires Carried(h)
    requires c1 as int == h.l1 as int / R1 && h1 as int == h.l1 as int % R1
    requires c2 as int == (h.l2 as int + c1 as int) / R1
    requires c3 as int == (h.l3 as int + c2 as int) / R1
    requires c4 as int == (h.l4 as int + c3 as int) / R1
    requires c0 as int == (h.l0 as int + c4 as int * 5) / R1
    ensures h1 as int + c0 as int < R1
  {
    assert c1 <= 1 && c2 <= c1 && c3 <= c2 && c4 <= c3 && c0 <= c4;
  }

  /** `(h & !mask) | (g & mask)`. */
  function Select(mask: u64, h: u64, g: u64): (r: u64)
    requires mask == 0 || mask == 0xFFFF_FFFF_FFFF_FFFF
    ensures r == if mask == 0 then h else g
  {
    hide OpWord;
    MaskWord(mask, g);
    MaskWord(0xFFFF_FFFF_FFFF_FFFF - mask, h);
    OrZeroWord(h);
    OrZeroWord(g);
    OpWord(OrOp, OpWord(AndOp, h, 0xFFFF_FFFF_FFFF_FFFF - mask), OpWord(AndOp, g, mask))
  }

  /** Subtract p when it fits; the choice is made by the sign bit of h + 5 - 2^130. */
  function SubtractP(h: Limbs): (r: Limbs)
    requires Tight(h)
    ensures Tight(r)
    ensures Value(r) == Value(h) % P
  {
    hide Select, KeepMask;
    var a0 := h.l0 + 5;
    var g0, b0 := a0 % 0x400_0000, a0 / 0x400_0000;
    var a1 := h.l1 + b0;
    var g1, b1 := a1 % 0x400_0000, a1 / 0x400_0000;
    var a2 := h.l2 + b1;
    var g2, b2 := a2 % 0x400_0000, a2 / 0x400_0000;
    var a3 := h.l3 + b2;
    var g3, b3 := a3 % 0x400_0000, a3 / 0x400_0000;
    var a4 := h.l4 + b3;
    var mask := KeepMask(a4);
    BorrowChain(h, a0 as int, a1 as int, a2 as int, a3 as int, a4 as int);
    Limbs(Select(mask.0, h.l0, g0), Select(mask.0, h.l1, g1), Select(mask.0, h.l2, g2),
          Select(mask.0, h.l3, g3), Select(mask.0, h.l4, mask.1))
  }

  /** The mask read off the sign bit of `a4 - 2^26`, with that wrapped difference. */
  function KeepMask(a4: u64): (r: (u64, u64))
    requires a4 < 0x800_0000
    ensures r.0 == if a4 < 0x400_0000 then 0 else 0xFFFF_FFFF_FFFF_FFFF
    ensures a4 >= 0x400_0000 ==> r.1 == a4 - 0x400_0000
  {
    var g4: u64 := ((a4 as int - 0x400_0000) % 0x1_0000_0000_0000_0000) as u64;
    (((g4 as int / 0x8000_0000_0000_0000 - 1) % 0x1_0000_0000_0000_0000) as u64, g4)
  }

  lemma BorrowChain(h: Limbs, a0: int, a1: int, a2: int, a3: int, a4: int)
    requires Tight(h)
    requires a0 == h.l0 as int + 5
    requires a1 == h.l1 as int + a0 / R1
    requires a2 == h.l2 as int + a1 / R1
    requires a3 == h.l3 as int + a2 / R1
    requires a4 == h.l4 as int + a3 / R1
    ensures 0 <= a4 < 2 * R1
    ensures a4 < R1 <==> Value(h) < P
    ensures a4 >= R1 ==> Sum5(a0 % R1, a1 % R1, a2 % R1, a3 % R1, a4 - R1) == Value(h) - P
    ensures Value(h) % P == if a4 < R1 then Value(h) else Value(h) - P
  {
    assert Value(h) + 5 == Sum5(a0 % R1, a1 % R1, a2 % R1, a3 % R1, a4);
    assert 0 <= Sum5(a0 % R1, a1 % R1, a2 % R1, a3 % R1, 0) < R4;
    assert Value(h) < R5;
    if a4 < R1 {
      DivModUnique(Value(h), 0, Value(h), P);
    } else {
      DivModUnique(Value(h), 1, Value(h) - P, P);
    }
  }

  /** The shifted limbs are OR-ed into 128 bits; the two top bits of the last limb fall off. */
  function Reassemble(h: Limbs): (r: u128)
    requires Tight(h)
    ensures r as int == Value(h) % W
  {
    hide Bitwise, Value;
    ReassembleBits(h);
    Or(Or(Or(Or(h.l0 as int, h.l1 as int * R1), h.l2 as int * R2), h.l3 as int * R3),
       (h.l4 as int * R4) % W) as u128
  }

  lemma ReassembleBits(h: Limbs)
    requires Tight(h)
    ensures Or(Or(Or(Or(h.l0 as int, h.l1 as int * R1), h.l2 as int * R2), h.l3 as int * R3),
               (h.l4 as int * R4) % W) == Value(h) % W
  {
    hide Bitwise, Pow2;
    LimbPowers();
    OrDisjoint(h.l0 as int, h.l1 as int, 26);
    var x1 := h.l0 as int + R1 * h.l1 as int;
    OrDisjoint(x1, h.l2 as int, 52);
    var x2 := x1 + R2 * h.l2 as int;
    OrDisjoint(x2, h.l3 as int, 78);
    var x3 := x2 + R3 * h.l3 as int;
    ShiftOut(h.l4 as int, R4, 0x100_0000);
    OrDisjoint(x3, h.l4 as int % 0x100_0000, 104);
    TopTwoBits(x3, h.l4 as int);
  }

  lemma TopTwoBits(x3: int, l4: int)
    requires 0 <= x3 < R4 && 0 <= l4
    ensures (x3 + R4 * l4) % W == x3 + R4 * (l4 % 0x100_0000)
  {
    DivModUnique(x3 + R4 * l4, l4 / 0x100_0000, x3 + R4 * (l4 % 0x100_0000), W);
  }

  lemma LimbPowers()
    ensures Pow2(26) == R1 && Pow2(52) == R2 && Pow2(78) == R3 && Pow2(104) == R4
  {
    hide Pow2;
    Pow2Literal40();
    Pow2Two();
    Pow2Add(24, 2);
    Pow2Add(26, 52);
    Pow2Add(52, 52);
  }

  // ---- The authenticator ---------------------------------------------------

  lemma BlocksStep(rest: Bytes, n: nat)
    requires rest != []
    requires n == if |rest| < 16 then |rest| else 16
    ensures Blocks(rest) == [rest[..n]] + Blocks(rest[n..])
  {
    if |rest| <= 16 {
      assert rest[..n] == rest;
    }
  }

  method Poly1305Mac(key: Bytes, msg: Bytes) returns (tag: Bytes)
    requires |key| == 32
    ensures tag == ToLE(TagSpec(key, msg), 16)
  {
    hide LE, ToLE, Absorb, FinalCarry, SubtractP, Reassemble, SplitLimbs, ClampBytes, Bitwise, Blocks, BlockValue;
    hide Value, Carried, Tight, Pow2, Horner;
    var rBytes := ClampBytes(key[..16]);
    LEWord(rBytes);
    LEWord(key[16..32]);
    var r := SplitLimbs(LE(rBytes) as u128);
    var h := Limbs(0, 0, 0, 0, 0);
    ghost var acc: nat := 0;
    ZeroLimbs();
    var offset := 0;
    assert msg[0..] == msg;
    while true
      invariant 0 <= offset
      invariant Carried(h) && Cong(Value(h), acc, P)
      invariant Horner(acc, Blocks(Rest(msg, offset)), Value(r)) == Horner(0, Blocks(msg), Value(r))
      decreases |msg| - offset
    {
      var remaining := if offset <= |msg| then |msg| - offset else 0;
      if remaining == 0 {
        break;
      }
      var chunkLen := if remaining < 16 then remaining else 16;
      var chunk := msg[offset..offset + chunkLen];
      acc := AbsorbStep(h, chunk, r, acc, msg, offset);
      h := Absorb(h, chunk, r);
      offset := offset + 16;
    }
    assert Rest(msg, offset) == [];
    HornerEnds(acc, Value(r));
    TagOfAccumulator(key, msg, Value(h), acc);
    h := FinalCarry(h);
    h := SubtractP(h);
    var h128 := Reassemble(h);
    var tag128 := (h128 as int + LE(key[16..32])) % 0x1_0000_0000_0000_0000_0000_0000_0000_0000;
    TagModulo(Value(h), LE(key[16..32]), h128 as int);
    tag := ToLE(tag128, 16);
  }

  /** What is left of the message at an offset that may have passed the end. */
  function Rest(msg: Bytes, offset: nat): Bytes {
    if offset <= |msg| then msg[offset..] else []
  }

  lemma ZeroLimbs()
    ensures Carried(Limbs(0, 0, 0, 0, 0)) && Value(Limbs(0, 0, 0, 0, 0)) == 0
    ensures Cong(0, 0, P)
  {
  }

  lemma HornerEnds(acc: nat, r: nat)
    ensures Horner(acc, Blocks([]), r) == acc
  {
  }

  lemma TagOfAccumulator(key: Bytes, msg: Bytes, v: nat, acc: nat)
    requires |key| == 32
    requires acc == Horner(0, Blocks(msg), ClampedR(key))
    requires Cong(v, acc, P)
    ensures (v % P + LE(key[16..32])) % W == TagSpec(key, msg)
  {
    hide Blocks, Horner, Polynomial, LE, ClampedR;
    HornerIsPolynomial(0, Blocks(msg), ClampedR(key));
  }

  lemma LEWord(s: Bytes)
    requires |s| == 16
    ensures LE(s) < W
  {
    LEBound(s);
    Pow2OneTwentyEight();
  }

  lemma TagModulo(v: nat, s: nat, h: nat)
    requires h == v % W
    ensures (h + s) % W == (v + s) % W
  {
    CongSelf(v, W);
    CongAdd(h, v, s, s, W);
  }

  lemma AbsorbStep(h: Limbs, chunk: Bytes, r: Limbs, acc: nat, msg: Bytes, offset: nat) returns (next: nat)
    requires Carried(h) && Tight(r) && Cong(Value(h), acc, P)
    requires offset < |msg|
    requires chunk == msg[offset..offset + (if |msg| - offset < 16 then |msg| - offset else 16)]
    ensures |chunk| <= 16
    ensures Cong(Value(Absorb(h, chunk, r)), next, P)
    ensures Horner(acc, Blocks(Rest(msg, offset)), Value(r))
         == Horner(next, Blocks(Rest(msg, offset + 16)), Value(r))
  {
    hide Absorb, BlockValue, Value;
    var c := BlockValue(chunk);
    MulMono(0, acc + c, Value(r));
    next := (acc + c) * Value(r);
    AbsorbValue(h, chunk, r);
    CongAdd(Value(h), acc, c, c, P);
    CongMul(Value(h) + c, acc + c, Value(r), Value(r), P);
    var rest, n := msg[offset..], |chunk|;
    BlocksStep(rest, n);
    assert rest[..n] == chunk;
    assert rest[n..] == Rest(msg, offset + 16);
  }
}
