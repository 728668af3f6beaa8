/** Canonical reduction, and the 32-byte encodings of field elements and scalars. */
module Canonical {
  import opened Words
  import opened Modular
  import opened Field25519
  import opened ByteStrings

  // 2^240, 2^248 and 2^254, as literals.
  const T240: int := 0x1_0000_0000_0000_0000_0000_0000_0000_0000_0000_0000_0000_0000_0000_0000_0000
  const T248: int := 0x100_0000_0000_0000_0000_0000_0000_0000_0000_0000_0000_0000_0000_0000_0000_0000
  const T254: int := 0x4000_0000_0000_0000_0000_0000_0000_0000_0000_0000_0000_0000_0000_0000_0000_0000

  /** One carry from every limb into the next; accepts any five 64-bit limbs. */
  function CarryPropagate(v: Fe): (r: Fe)
    ensures Cong(Value(r), Value(v), P)
    ensures r.l0 < 0x8_0000_0002_6000
    ensures r.l1 < 0x8_0000_0000_2000 && r.l2 < 0x8_0000_0000_2000
    ensures r.l3 < 0x8_0000_0000_2000 && r.l4 < 0x8_0000_0000_2000
  {
    var c0 := v.l0 / 0x8_0000_0000_0000;
    var c1 := v.l1 / 0x8_0000_0000_0000;
    var c2 := v.l2 / 0x8_0000_0000_0000;
    var c3 := v.l3 / 0x8_0000_0000_0000;
    var c4 := v.l4 / 0x8_0000_0000_0000;
    var r := Fe(v.l0 % 0x8_0000_0000_0000 + c4 * 19, v.l1 % 0x8_0000_0000_0000 + c0,
                v.l2 % 0x8_0000_0000_0000 + c1, v.l3 % 0x8_0000_0000_0000 + c2,
                v.l4 % 0x8_0000_0000_0000 + c3);
    CongMultiple(Value(r), Value(v), -(c4 as int), P);
    r
  }

  /** Any five limbs are brought to the one representative below p. */
  method ReduceCanonical(v: Fe) returns (r: Fe)
    ensures Value(r) == Value(v) % P
    ensures Below(r, B1)
  {
    hide CarryPropagate, Value, Sum5, Cong;
    var t := CarryPropagate(v);
    var l0, l1, l2, l3, l4 := t.l0, t.l1, t.l2, t.l3, t.l4;

    // c is 1 exactly when t + 19 reaches 2^255.
    var c0 := (l0 + 19) / 0x8_0000_0000_0000;
    var c1 := (l1 + c0) / 0x8_0000_0000_0000;
    var c2 := (l2 + c1) / 0x8_0000_0000_0000;
    var c3 := (l3 + c2) / 0x8_0000_0000_0000;
    var c := (l4 + c3) / 0x8_0000_0000_0000;
    ReachesBound(t, c0 as int, c1 as int, c2 as int, c3 as int, c as int);

    l0 := l0 + 19 * c;
    ghost var s0 := l0;
    l1 := l1 + l0 / 0x8_0000_0000_0000;
    ghost var s1 := l1;
    l0 := l0 % 0x8_0000_0000_0000;
    l2 := l2 + l1 / 0x8_0000_0000_0000;
    ghost var s2 := l2;
    l1 := l1 % 0x8_0000_0000_0000;
    l3 := l3 + l2 / 0x8_0000_0000_0000;
    ghost var s3 := l3;
    l2 := l2 % 0x8_0000_0000_0000;
    l4 := l4 + l3 / 0x8_0000_0000_0000;
    ghost var s4 := l4;
    l3 := l3 % 0x8_0000_0000_0000;
    l4 := l4 % 0x8_0000_0000_0000;

    r := Fe(l0, l1, l2, l3, l4);
    DropTop(t, c as int, s0 as int, s1 as int, s2 as int, s3 as int, s4 as int, r);
    SubtractP(Value(v), Value(t), c as int, s4 as int / B1, Value(r));
  }

  /** The second carry chain: what leaves the top limb is a multiple of 2^255. */
  lemma DropTop(t: Fe, c: int, s0: int, s1: int, s2: int, s3: int, s4: int, r: Fe)
    requires s0 == t.l0 as int + 19 * c
    requires s1 == t.l1 as int + s0 / B1
    requires s2 == t.l2 as int + s1 / B1
    requires s3 == t.l3 as int + s2 / B1
    requires s4 == t.l4 as int + s3 / B1
    requires r.l0 as int == s0 % B1 && r.l1 as int == s1 % B1 && r.l2 as int == s2 % B1
    requires r.l3 as int == s3 % B1 && r.l4 as int == s4 % B1
    ensures Value(t) + 19 * c == s4 / B1 * B5 + Value(r)
    ensures 0 <= Value(r) < B5
  {
  }

  lemma ReachesBound(t: Fe, c0: int, c1: int, c2: int, c3: int, c: int)
    requires t.l0 < 0x8_0000_0002_6000
    requires t.l1 < 0x8_0000_0000_2000 && t.l2 < 0x8_0000_0000_2000
    requires t.l3 < 0x8_0000_0000_2000 && t.l4 < 0x8_0000_0000_2000
    requires c0 == (t.l0 as int + 19) / B1
    requires c1 == (t.l1 as int + c0) / B1
    requires c2 == (t.l2 as int + c1) / B1
    requires c3 == (t.l3 as int + c2) / B1
    requires c == (t.l4 as int + c3) / B1
    ensures 0 <= c <= 1
    ensures c == 1 <==> Value(t) + 19 >= B5
    ensures Value(t) < 2 * P
  {
    var m0, m1 := (t.l0 as int + 19) % B1, (t.l1 as int + c0) % B1;
    var m2, m3, m4 := (t.l2 as int + c1) % B1, (t.l3 as int + c2) % B1, (t.l4 as int + c3) % B1;
    assert Value(t) + 19 == Sum5(m0, m1, m2, m3, m4) + c * B5;
    assert 0 <= Sum5(m0, m1, m2, m3, m4) < B5;
  }

  lemma SubtractP(v: int, t: int, c: int, q: int, r: int)
    requires 0 <= t < 2 * P && 0 <= c <= 1
    requires Cong(t, v, P)
    requires c == 1 <==> t + 19 >= B5
    requires 0 <= r < B5 && t + 19 * c == q * B5 + r
    ensures r == v % P
  {
    assert q == c;
    assert r == t - c * P && 0 <= r < P;
    CongMultiple(t, r, c, P);
    CongUnique(v, r, P);
  }

  // ---- Loading -------------------------------------------------------------

  lemma Pow2Limbs()
    ensures Pow2(51) == B1 && Pow2(102) == B2 && Pow2(153) == B3 && Pow2(204) == B4
    ensures Pow2(255) == B5
  {
    hide Pow2;
    Pow2Three();
    Pow2Sixteen();
    Pow2ThirtyTwo();
    Pow2Add(16, 3);
    Pow2Add(32, 19);
    Pow2Add(51, 51);
    Pow2Add(102, 51);
    Pow2Add(153, 51);
    Pow2Add(204, 51);
  }

  lemma Pow2Three()
    ensures Pow2(3) == 8
  {
  }

  /** `acc | (b << 8k)` on a word whose bits from 8k up are clear. */
  function OrShifted(acc: u64, b: u8, k: nat): (r: u64)
    requires k < 8
    requires acc as int < Pow2(8 * k)
    ensures r as int == acc as int + Pow2(8 * k) * b as int
    ensures r as int < Pow2(8 * (k + 1))
  {
    var p := Pow2(8 * k);
    assert acc as int + p * b as int < 256 * p by { ShiftedByteFits(acc as int, b as int, p); }
    Pow2Byte(k);
    OrDisjoint(acc as int, b as int, 8 * k);
    WordFits(k + 1);
    Or(acc as int, p * b as int) as u64
  }

  lemma ShiftedByteFits(acc: int, b: int, p: int)
    requires 0 <= acc < p && 0 <= b < 256
    ensures 0 <= p * b && acc + p * b < 256 * p
  {
    MulMono(0, b, p);
    MulMono(b, 255, p);
  }

  lemma WordFits(k: nat)
    requires k <= 8
    ensures Pow2(8 * k) <= 0x1_0000_0000_0000_0000
  {
    Pow2SixtyFour();
    Pow2Add(8 * k, 64 - 8 * k);
    MulMono(1, Pow2(64 - 8 * k), Pow2(8 * k));
  }

  /** The OR of the first k bytes, each shifted to its place. */
  function OrBytes(b: Bytes, k: nat): (r: u64)
    requires k <= |b| && k <= 8
    ensures r as int == LE(b[..k]) && r as int < Pow2(8 * k)
  {
    if k == 0 then 0
    else
      var acc := OrBytes(b, k - 1);
      assert LE(b[..k]) == LE(b[..k - 1]) + Pow2(8 * (k - 1)) * b[k - 1] as int by {
        assert b[..k] == b[..k - 1] + [b[k - 1]];
        LEAppend(b[..k - 1], [b[k - 1]]);
        assert LE([b[k - 1]]) == b[k - 1] as int;
      }
      OrShifted(acc, b[k - 1], k - 1)
  }

  function Load64Le(b: Bytes): (r: u64)
    requires |b| == 8
    ensures r as int == LE(b)
  {
    assert b[..8] == b;
    OrBytes(b, 8)
  }

  /** Clearing the top bit of a 32-byte string reduces its integer modulo 2^255. */
  lemma MaskTopBit(u: Bytes, t: Bytes)
    requires |u| == 32
    requires t == u[31 := u[31] % 128]
    ensures LE(t) == LE(u) % B5
  {
    hide LE, Pow2;
    assert u == u[..31] + [u[31]];
    assert t == u[..31] + [t[31]];
    LEAppend(u[..31], [u[31]]);
    LEAppend(u[..31], [t[31]]);
    LEOne(u[31]);
    LEOne(t[31]);
    LEBound(u[..31]);
    TopLiteral();
    DropTopBit(LE(u[..31]), u[31] as int);
  }

  lemma DropTopBit(a: int, top: int)
    requires 0 <= a < T248 && 0 <= top < 256
    ensures a + T248 * (top % 128) == (a + T248 * top) % B5
  {
    assert top == 128 * (top / 128) + top % 128;
    assert 0 <= a + T248 * (top % 128) < B5;
    DivModUnique(a + T248 * top, top / 128, a + T248 * (top % 128), B5);
  }

  lemma TopLiteral()
    ensures Pow2(248) == T248
  {
    hide Pow2;
    Pow2Limbs();
    Pow2Seven();
    Pow2Add(248, 7);
  }

  lemma Pow2Seven()
    ensures Pow2(7) == 128
  {
  }

  /** `(load64_le(t[i..i+8]) >> s) & MASK51`: bits 8i + s up to 8i + s + 51 of the string. */
  function LimbAt(t: Bytes, i: nat, s: nat): (r: u64)
    requires i + 8 <= |t| && s <= 12
    ensures r as int == LE(t) / Pow2(8 * i + s) % B1
  {
    var w := Load64Le(t[i..i + 8]);
    LESlice(t, i, i + 8);
    assert 8 * (i + 8 - i) == 64;
    LimbWindow(LE(t), i, s);
    (w as int / Pow2(s) % B1) as u64
  }

  lemma LimbWindow(n: nat, i: nat, s: nat)
    requires s <= 12
    ensures n / Pow2(8 * i) % Pow2(64) / Pow2(s) % B1 == n / Pow2(8 * i + s) % B1
  {
    hide Pow2;
    Pow2Add(51, 13 - s);
    Pow2Add(s, 64 - s);
    Pow2Add(8 * i, s);
    Pow2Limbs();
    Window(n, Pow2(8 * i), Pow2(s), Pow2(51), Pow2(13 - s));
  }

  /** The u-coordinate: the top bit is ignored, the rest packed into five limbs. */
  function DecodeU(u: Bytes): (r: Fe)
    requires |u| == 32
    ensures Value(r) == LE(u) % B5
    ensures Below(r, B1)
  {
    var t := u[31 := u[31] % 128];
    MaskTopBit(u, t);
    Pow2Limbs();
    LimbsOf(LE(t));
    Fe(LimbAt(t, 0, 0), LimbAt(t, 6, 3), LimbAt(t, 12, 6), LimbAt(t, 19, 1), LimbAt(t, 24, 12))
  }

  lemma LimbsOf(n: nat)
    requires n < B5
    ensures n == Sum5(n / Pow2(0) % B1, n / B1 % B1, n / B2 % B1, n / B3 % B1, n / B4 % B1)
  {
    DivDiv(n, B1, B1);
    DivDiv(n, B2, B1);
    DivDiv(n, B3, B1);
  }

  /** Clamping, bit by bit as the code does it. */
  function DecodeScalar(k: Bytes): (r: Bytes)
    requires |k| == 32
    ensures |r| == 32
    ensures LE(r) == ClampedScalar(LE(k))
    ensures Pow2(254) <= LE(r) < Pow2(255)
  {
    var r := k[0 := k[0] - k[0] % 8][31 := k[31] % 64 + 64];
    ClampValue(k, r);
    r
  }

  /** decodeScalar25519 of section 5 of RFC 7748: clear bits 0, 1, 2 and 255, set bit 254. */
  function ClampedScalar(n: nat): nat {
    Pow2(254) + (n % Pow2(254)) / 8 * 8
  }

  lemma ClampValue(k: Bytes, r: Bytes)
    requires |k| == 32
    requires r == k[0 := k[0] - k[0] % 8][31 := k[31] % 64 + 64]
    ensures LE(r) == ClampedScalar(LE(k))
    ensures Pow2(254) <= LE(r) < Pow2(255)
  {
    hide LE, Pow2;
    var m := k[1..31];
    assert k == [k[0]] + (m + [k[31]]);
    assert r == [r[0]] + (m + [r[31]]);
    LEAppend([k[0]], m + [k[31]]);
    LEAppend([r[0]], m + [r[31]]);
    LEAppend(m, [k[31]]);
    LEAppend(m, [r[31]]);
    LEOne(k[0]);
    LEOne(r[0]);
    LEOne(k[31]);
    LEOne(r[31]);
    LEBound(m);
    ClampLiterals();
    assert LE(k) == ClampInput(k[0] as int, LE(m), k[31] as int);
    assert LE(r) == ClampInput(r[0] as int, LE(m), r[31] as int);
    ClampArithmetic(k[0] as int, LE(m), k[31] as int);
  }

  lemma ClampLiterals()
    ensures Pow2(8) == 256 && Pow2(240) == T240
    ensures Pow2(254) == T254 && Pow2(255) == B5
  {
    hide Pow2;
    Pow2Eight();
    Pow2Limbs();
    Pow2Sixteen();
    Pow2One();
    Pow2Add(254, 1);
    Pow2Add(240, 8);
    TopLiteral();
  }

  function ClampInput(b0: int, m: int, b31: int): int {
    b0 + 256 * (m + T240 * b31)
  }

  lemma ClampArithmetic(b0: int, m: int, b31: int)
    requires 0 <= b0 < 256 && 0 <= m < T240 && 0 <= b31 < 256
    ensures ClampInput(b0 - b0 % 8, m, b31 % 64 + 64)
         == T254 + (ClampInput(b0, m, b31) % T254) / 8 * 8
    ensures T254 <= ClampInput(b0 - b0 % 8, m, b31 % 64 + 64) < B5
  {
    var hi := m + T240 * (b31 % 64);
    var n := b0 + 256 * hi;
    assert b31 == 64 * (b31 / 64) + b31 % 64;
    assert ClampInput(b0, m, b31) == (b31 / 64) * T254 + n;
    assert 0 <= n < T254;
    DivModUnique(ClampInput(b0, m, b31), b31 / 64, n, T254);
    DivModUnique(n, b0 / 8 + 32 * hi, b0 % 8, 8);
  }

  lemma Pow2One()
    ensures Pow2(1) == 2
  {
  }

  // ---- Storing -------------------------------------------------------------

  /** The limbs below index n, each at its weight. */
  function LimbSum(l: seq<u64>, n: nat): nat
    requires n <= |l|
  {
    if n == 0 then 0 else LimbSum(l, n - 1) + Pow2(51 * (n - 1)) * l[n - 1] as int
  }

  lemma {:induction false} LimbSumBound(l: seq<u64>, n: nat)
    requires n <= |l|
    requires forall i :: 0 <= i < |l| ==> l[i] as int < B1
    ensures LimbSum(l, n) < Pow2(51 * n)
  {
    if n != 0 {
      hide Pow2;
      LimbSumBound(l, n - 1);
      Pow2Limbs();
      Pow2Add(51, 51 * (n - 1));
      var p, x := Pow2(51 * (n - 1)), l[n - 1] as int;
      MulMono(x, B1 - 1, p);
      assert p * x <= (B1 - 1) * p && (B1 - 1) * p == B1 * p - p;
    }
  }

  lemma LimbSumIsValue(v: Fe)
    ensures LimbSum([v.l0, v.l1, v.l2, v.l3, v.l4], 5) == Value(v)
  {
    hide Pow2;
    var l := [v.l0, v.l1, v.l2, v.l3, v.l4];
    Pow2Limbs();
    assert Pow2(0) == 1 by { Pow2Zero(); }
    assert LimbSum(l, 1) == l[0] as int;
    assert LimbSum(l, 2) == LimbSum(l, 1) + B1 * l[1] as int;
    assert LimbSum(l, 3) == LimbSum(l, 2) + B2 * l[2] as int;
    assert LimbSum(l, 4) == LimbSum(l, 3) + B3 * l[3] as int;
  }

  lemma Pow2Zero()
    ensures Pow2(0) == 1
  {
  }

  /** The eight bytes taken from a shifted limb, placed at byte `start` of 32. */
  function Placed(x: nat, start: nat): (t: Bytes)
    requires start <= 32
    ensures |t| == 32
  {
    Zeros(start) + ToLE(x, 32 - start)
  }

  /** Limb i, shifted left by (51 i) mod 8 and placed at byte 51 i / 8, has weight 2^(51 i). */
  lemma PlacedValue(limb: nat, i: nat)
    requires i < 5 && limb < B1
    ensures LE(Placed(limb * Pow2(51 * i % 8), 51 * i / 8)) == Pow2(51 * i) * limb
  {
    hide LE, ToLE, Pow2;
    var sh, start := 51 * i % 8, 51 * i / 8;
    var x := limb * Pow2(sh);
    MulMono(0, limb, Pow2(sh));
    LEAppend(Zeros(start), ToLE(x, 32 - start));
    LEZeros(start);
    LEToLE(x, 32 - start);
    assert x < Pow2(8 * (32 - start)) by { ShiftedFits(limb, sh, 8 * (32 - start)); }
    DivModUnique(x, 0, x, Pow2(8 * (32 - start)));
    Pow2Add(8 * start, sh);
    MulComm(limb, Pow2(sh));
    MulAssoc(Pow2(8 * start), Pow2(sh), limb);
  }

  lemma Pow2Monotone(a: nat, b: nat)
    requires a <= b
    ensures Pow2(a) <= Pow2(b)
  {
    hide Pow2;
    Pow2Add(a, b - a);
    MulMono(1, Pow2(b - a), Pow2(a));
    MulComm(Pow2(a), Pow2(b - a));
  }

  lemma ShiftedFits(limb: nat, sh: nat, w: nat)
    requires limb < B1 && 51 + sh <= w
    ensures limb * Pow2(sh) < Pow2(w)
  {
    hide Pow2;
    Pow2Limbs();
    Pow2Add(51, sh);
    MulMono(limb, B1 - 1, Pow2(sh));
    assert (B1 - 1) * Pow2(sh) == B1 * Pow2(sh) - Pow2(sh);
    Pow2Monotone(51 + sh, w);
  }

  /** Bytes of a placed word beyond the first eight are zero when it fits 64 bits (56 at the end). */
  lemma PlacedAt(x: nat, start: nat, k: nat)
    requires start < 32 && k < 32
    requires x < Pow2(64)
    ensures Placed(x, start)[k] as int
         == if start <= k < start + 8 then (x / Pow2(8 * (k - start))) % 256 else 0
  {
    hide Pow2, ToLE;
    if start <= k {
      ToLEAt(x, 32 - start, k - start);
      if start + 8 <= k {
        Pow2Monotone(64, 8 * (k - start));
        DivModUnique(x, 0, x, Pow2(8 * (k - start)));
      }
    }
  }

  /** The inner loop of the encoder: OR the eight low bytes of a shifted limb into place. */
  method OrLimb(out: array<u8>, x: u128, start: nat)
    requires out.Length == 32 && start < 32
    requires x as int < Pow2(64)
    modifies out
    ensures out[..] == OpBytes(OrOp, old(out[..]), Placed(x as int, start))
  {
    hide OpByte, Bitwise, ToLE, Pow2, Placed;
    ghost var was, t := out[..], Placed(x as int, start);
    var bytes := ToLE(x as int, 16);
    for j := 0 to 8
      invariant forall k :: 0 <= k < 32 ==>
        out[k] == if start <= k < start + j then OpByte(OrOp, was[k], t[k]) else was[k]
    {
      var off := start + j;
      if off < 32 {
        PlacedAt(x as int, start, off);
        ToLEAt(x as int, 16, j);
        out[off] := OpByte(OrOp, out[off], bytes[j]);
      }
    }
    forall k | 0 <= k < 32
      ensures out[k] == OpByte(OrOp, was[k], t[k])
    {
      PlacedAt(x as int, start, k);
      if !(start <= k < start + 8) {
        OrZeroByte(was[k]);
      }
    }
    assert out[..] == OpBytes(OrOp, was, t);
  }

  lemma OrZeroByte(b: u8)
    ensures OpByte(OrOp, b, 0) == b
  {
    BitwiseZero(b as int);
  }

  /** Encoding writes the canonical representative, little-endian. */
  method Encode(v: Fe) returns (out: array<u8>)
    ensures fresh(out)
    ensures out[..] == ToLE(Value(v) % P, 32)
  {
    hide LE, ToLE, Pow2, Placed, OpBytes, Value, Sum5;
    var r := ReduceCanonical(v);
    var l := [r.l0, r.l1, r.l2, r.l3, r.l4];
    out := new u8[32](_ => 0);
    assert out[..] == Zeros(32);
    LEZeros(32);
    for i := 0 to 5
      invariant LE(out[..]) == LimbSum(l, i)
    {
      ShiftedFits(l[i] as int, 51 * i % 8, 64);
      Pow2SixtyFour();
      MulMono(0, l[i] as int, Pow2(51 * i % 8));
      var shifted := (l[i] as int * Pow2(51 * i % 8)) as u128;
      ghost var was := out[..];
      OrLimb(out, shifted, 51 * i / 8);
      OpBytesValue(OrOp, was, Placed(shifted as int, 51 * i / 8));
      PlacedValue(l[i] as int, i);
      LimbSumBound(l, i);
      OrDisjoint(LimbSum(l, i), l[i] as int, 51 * i);
    }
    LimbSumIsValue(r);
    ToLELE(out[..]);
  }

  /** The bytes the encoder writes. */
  function Encoded(v: Fe): (b: Bytes)
    ensures |b| == 32
  {
    hide Value;
    ToLE(Value(v) % P, 32)
  }

  lemma EncodedValue(v: Fe)
    ensures LE(Encoded(v)) == Value(v) % P && 0 <= Value(v) % P < P
  {
    hide LE, ToLE, Value, Pow2;
    LEToLE(Value(v) % P, 32);
    TopLiteral();
    Pow2Eight();
    Pow2Add(248, 8);
  }

  lemma SameEncoding(u: Bytes, v: Fe)
    requires |u| == 32
    ensures LE(u) == Value(v) % P <==> Encoded(v) == u
  {
    hide LE, ToLE, Value;
    ToLELE(u);
    EncodedValue(v);
  }

  /** Decoding then encoding reduces modulo 2^255 and then modulo p; it returns the input exactly when
      that is canonical, and encoding is always canonical. */
  lemma DecodeThenEncode(u: Bytes, v: Fe)
    requires |u| == 32
    ensures LE(Encoded(DecodeU(u))) == (LE(u) % B5) % P
    ensures Encoded(DecodeU(u)) == u <==> LE(u) < P
    ensures Encoded(DecodeU(Encoded(v))) == Encoded(v)
  {
    hide LE, ToLE, DecodeU, Encoded, Value;
    EncodedValue(DecodeU(u));
    SameEncoding(u, DecodeU(u));
    assert (LE(u) % B5) % P == LE(u) <==> LE(u) < P;
    EncodedValue(v);
    SameEncoding(Encoded(v), DecodeU(Encoded(v)));
  }
}
