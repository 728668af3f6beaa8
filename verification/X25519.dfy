/** The X25519 function: the Montgomery ladder of section 5 of RFC 7748 on limbs, against the
    textbook ladder on integers modulo 2^255 - 19. */
module X25519 {
  import opened Words
  import opened Modular
  import opened ByteStrings
  import opened Field25519
  import opened Inversion
  import opened Canonical

  // ---- Specification: double and differential add on integers ---------------

  /** A projective x-coordinate (X : Z). */
  datatype Point = Point(x: int, z: int)

  function Double(p: Point): Point {
    var aa := (p.x + p.z) * (p.x + p.z);
    var bb := (p.x - p.z) * (p.x - p.z);
    Point((aa * bb) % P, ((aa - bb) * (aa + 121665 * (aa - bb))) % P)
  }

  /** The x-coordinate of p + q when u is that of p - q. */
  function DiffAdd(u: int, p: Point, q: Point): Point {
    var da := (q.x - q.z) * (p.x + p.z);
    var cb := (q.x + q.z) * (p.x - p.z);
    Point(((da + cb) * (da + cb)) % P, (u * ((da - cb) * (da - cb))) % P)
  }

  /** Differential addition does not care which operand comes first. */
  lemma DiffAddSymmetric(u: int, p: Point, q: Point)
    ensures DiffAdd(u, p, q) == DiffAdd(u, q, p)
  {
    var da := (q.x - q.z) * (p.x + p.z);
    var cb := (q.x + q.z) * (p.x - p.z);
    MulComm(q.x - q.z, p.x + p.z);
    MulComm(q.x + q.z, p.x - p.z);
    NegatedSquare(da - cb);
  }

  lemma NegatedSquare(x: int)
    ensures (-x) * (-x) == x * x
  {
  }

  /** The pair (n * U, (n + 1) * U) for the `bits` low bits of n, most significant bit first. */
  function Ladder(u: int, n: nat, bits: nat): (Point, Point) {
    if bits == 0 then
      (Point(1, 0), Point(u, 1))
    else
      var (p, q) := Ladder(u, n / 2, bits - 1);
      if n % 2 == 0 then (Double(p), DiffAdd(u, p, q)) else (DiffAdd(u, p, q), Double(q))
  }

  /** X25519 on integers: clamp, climb, divide. */
  function X25519Spec(scalar: nat, u: nat): nat {
    var r := Ladder(u % B5, ClampedScalar(scalar), 255).0;
    (r.x * Pow(r.z, InverseExponent())) % P
  }

  /** The inverse exponent is p - 2. */
  lemma ExponentIsPMinusTwo()
    ensures InverseExponent() == P - 2
  {
    hide Pow2;
    Pow2Limbs();
  }

  // ---- One ladder step on limbs --------------------------------------------

  /** The limbs hold the point, up to multiples of p. */
  ghost predicate HoldsPoint(x: Fe, z: Fe, p: Point) {
    Reduced(x) && Reduced(z) && Cong(Value(x), p.x, P) && Cong(Value(z), p.z, P)
  }

  datatype Step = Step(x2: Fe, z2: Fe, x3: Fe, z3: Fe)

  /** The arithmetic of one iteration, in the order of the code. */
  function LadderStep(x1: Fe, x2: Fe, z2: Fe, x3: Fe, z3: Fe): (s: Step)
    requires Reduced(x1) && Reduced(x2) && Reduced(z2) && Reduced(x3) && Reduced(z3)
  {
    hide FMul, FMul121665;
    var a := FAdd(x2, z2);
    var aa := FSquare(a);
    var b := FSub(x2, z2);
    var bb := FSquare(b);
    var e := FSub(aa, bb);
    var c := FAdd(x3, z3);
    var d := FSub(x3, z3);
    var da := FMul(d, a);
    var cb := FMul(c, b);
    Step(FMul(aa, bb),
         FMul(e, FAdd(aa, FMul121665(e))),
         FSquare(FAdd(da, cb)),
         FMul(x1, FSquare(FSub(da, cb))))
  }

  lemma StepDoubles(x1: Fe, x2: Fe, z2: Fe, x3: Fe, z3: Fe, p: Point)
    requires Reduced(x1) && Reduced(x3) && Reduced(z3)
    requires HoldsPoint(x2, z2, p)
    ensures var s := LadderStep(x1, x2, z2, x3, z3);
            HoldsPoint(s.x2, s.z2, Double(p))
  {
    hide FMul, FMul121665, Value, FAdd, FSub;
    var a := FAdd(x2, z2);
    var aa := FSquare(a);
    var b := FSub(x2, z2);
    var bb := FSquare(b);
    var e := FSub(aa, bb);
    var paa := (p.x + p.z) * (p.x + p.z);
    var pbb := (p.x - p.z) * (p.x - p.z);
    SquareOfSum(x2, z2, p.x, p.z);
    SquareOfDifference(x2, z2, p.x, p.z);
    CongMul(Value(aa), paa, Value(bb), pbb, P);
    CongSelf(paa * pbb, P);
    SubCong(aa, bb, paa, pbb);
    var m := FMul121665(e);
    CongMul(121665, 121665, Value(e), paa - pbb, P);
    CongAdd(Value(aa), paa, Value(m), 121665 * (paa - pbb), P);
    CongMul(Value(e), paa - pbb, Value(FAdd(aa, m)), paa + 121665 * (paa - pbb), P);
    CongSelf((paa - pbb) * (paa + 121665 * (paa - pbb)), P);
  }

  lemma StepAdds(x1: Fe, x2: Fe, z2: Fe, x3: Fe, z3: Fe, u: int, p: Point, q: Point)
    requires Reduced(x1) && Cong(Value(x1), u, P)
    requires HoldsPoint(x2, z2, p) && HoldsPoint(x3, z3, q)
    ensures var s := LadderStep(x1, x2, z2, x3, z3);
            HoldsPoint(s.x3, s.z3, DiffAdd(u, p, q))
  {
    hide FMul, FMul121665, Value, FAdd, FSub;
    var a, b := FAdd(x2, z2), FSub(x2, z2);
    var c, d := FAdd(x3, z3), FSub(x3, z3);
    CongAdd(Value(x2), p.x, Value(z2), p.z, P);
    CongAdd(Value(x3), q.x, Value(z3), q.z, P);
    SubCong(x2, z2, p.x, p.z);
    SubCong(x3, z3, q.x, q.z);
    var da, cb := FMul(d, a), FMul(c, b);
    var pda, pcb := (q.x - q.z) * (p.x + p.z), (q.x + q.z) * (p.x - p.z);
    CongMul(Value(d), q.x - q.z, Value(a), p.x + p.z, P);
    CongMul(Value(c), q.x + q.z, Value(b), p.x - p.z, P);
    SquareOfSum(da, cb, pda, pcb);
    CongSelf((pda + pcb) * (pda + pcb), P);
    SquareOfDifference(da, cb, pda, pcb);
    CongMul(Value(x1), u, Value(FSquare(FSub(da, cb))), (pda - pcb) * (pda - pcb), P);
    CongSelf(u * ((pda - pcb) * (pda - pcb)), P);
  }

  lemma SubCong(x: Fe, z: Fe, px: int, pz: int)
    requires Reduced(x) && Reduced(z) && Cong(Value(x), px, P) && Cong(Value(z), pz, P)
    ensures Cong(Value(FSub(x, z)), px - pz, P)
  {
    hide Value, FSub;
    CongAdd(Value(x), px, Value(z), pz, P);
    CongMultiple(Value(FSub(x, z)), Value(x) - Value(z), 2, P);
  }

  lemma SquareOfSum(x: Fe, z: Fe, px: int, pz: int)
    requires Reduced(x) && Reduced(z) && Cong(Value(x), px, P) && Cong(Value(z), pz, P)
    ensures Cong(Value(FSquare(FAdd(x, z))), (px + pz) * (px + pz), P)
  {
    hide Value, FAdd, FMul;
    CongAdd(Value(x), px, Value(z), pz, P);
    var a := FAdd(x, z);
    CongMul(Value(a), px + pz, Value(a), px + pz, P);
  }

  lemma SquareOfDifference(x: Fe, z: Fe, px: int, pz: int)
    requires Reduced(x) && Reduced(z) && Cong(Value(x), px, P) && Cong(Value(z), pz, P)
    ensures Cong(Value(FSquare(FSub(x, z))), (px - pz) * (px - pz), P)
  {
    hide Value, FSub, FMul;
    SubCong(x, z, px, pz);
    var b := FSub(x, z);
    CongMul(Value(b), px - pz, Value(b), px - pz, P);
  }

  // ---- Conditional swap, in place ------------------------------------------

  function FeOf(a: array<u64>): Fe
    requires a.Length == 5
    reads a
  {
    Fe(a[0], a[1], a[2], a[3], a[4])
  }

  method Store(a: array<u64>, v: Fe)
    requires a.Length == 5
    modifies a
    ensures FeOf(a) == v
  {
    a[0], a[1], a[2], a[3], a[4] := v.l0, v.l1, v.l2, v.l3, v.l4;
  }

  /** One lane of the swap: the mask is all zeros or all ones. */
  lemma SwapLane(mask: u64, a: u64, b: u64)
    requires mask == 0 || mask == 0xFFFF_FFFF_FFFF_FFFF
    ensures var t := OpWord(AndOp, mask, OpWord(XorOp, a, b));
            && OpWord(XorOp, a, t) == (if mask == 0 then a else b)
            && OpWord(XorOp, b, t) == (if mask == 0 then b else a)
  {
    hide Bitwise, Pow2;
    var x := OpWord(XorOp, a, b);
    if mask == 0 {
      BitwiseZero(x as int);
      BitwiseZero(a as int);
      BitwiseZero(b as int);
    } else {
      Pow2SixtyFour();
      AndMask(x as int, 64);
      AndComm(x as int, mask as int);
      XorComm(a as int, b as int);
      XorInvolution(a as int, b as int);
      XorInvolution(b as int, a as int);
      XorComm(a as int, x as int);
      XorComm(b as int, x as int);
    }
  }

  /** Exchange two field elements exactly when the low bit of `swap` is set. */
  method CSwap(swap: u64, a: array<u64>, b: array<u64>)
    requires a.Length == 5 && b.Length == 5 && a != b
    modifies a, b
    ensures FeOf(a) == if swap % 2 == 1 then old(FeOf(b)) else old(FeOf(a))
    ensures FeOf(b) == if swap % 2 == 1 then old(FeOf(a)) else old(FeOf(b))
  {
    hide OpWord;
    var mask: u64 := ((0x1_0000_0000_0000_0000 - swap as int % 2) % 0x1_0000_0000_0000_0000) as u64;
    for i := 0 to 5
      invariant forall k :: 0 <= k < 5 ==>
        && a[k] == (if k < i && swap % 2 == 1 then old(b[k]) else old(a[k]))
        && b[k] == (if k < i && swap % 2 == 1 then old(a[k]) else old(b[k]))
    {
      SwapLane(mask, a[i], b[i]);
      var t := OpWord(AndOp, mask, OpWord(XorOp, a[i], b[i]));
      a[i] := OpWord(XorOp, a[i], t);
      b[i] := OpWord(XorOp, b[i], t);
    }
  }

  // ---- The ladder ----------------------------------------------------------

  /** The bits of n from t up. */
  function Prefix(n: nat, t: nat): nat {
    hide Pow2;
    n / Pow2(t)
  }

  /** `(scalar[t >> 3] >> (t & 7)) & 1` is bit t of the scalar. */
  function ScalarBit(scalar: Bytes, t: nat): (r: u64)
    requires t / 8 < |scalar|
    ensures r as int == Prefix(LE(scalar), t) % 2
  {
    hide Pow2, LE;
    var k, j := t / 8, t % 8;
    LEByte(scalar, k);
    Pow2Add(8 * k, j);
    Pow2Add(j, 8 - j);
    Pow2Add(1, 7 - j);
    Pow2One();
    Pow2Eight();
    Window(LE(scalar), Pow2(8 * k), Pow2(j), 2, Pow2(7 - j));
    (scalar[k] as int / Pow2(j) % 2) as u64
  }

  /** The two points, exchanged when the pending swap is 1. */
  ghost predicate HoldsPair(swap: u64, x2: Fe, z2: Fe, x3: Fe, z3: Fe, pq: (Point, Point)) {
    && swap <= 1
    && HoldsPoint(x2, z2, if swap == 0 then pq.0 else pq.1)
    && HoldsPoint(x3, z3, if swap == 0 then pq.1 else pq.0)
  }

  /** One iteration, after its swap: the step on limbs is the step of the integer ladder. */
  lemma IterationKeepsPair(x1: Fe, x2: Fe, z2: Fe, x3: Fe, z3: Fe, bit: u64, u: int, n: nat, bits: nat)
    requires Reduced(x1) && Value(x1) == u
    requires bit as int == n % 2
    requires HoldsPair(bit, x2, z2, x3, z3, Ladder(u, n / 2, bits))
    ensures var s := LadderStep(x1, x2, z2, x3, z3);
            HoldsPair(bit, s.x2, s.z2, s.x3, s.z3, Ladder(u, n, bits + 1))
  {
    hide LadderStep, Double, DiffAdd, HoldsPoint, Value;
    var (p, q) := Ladder(u, n / 2, bits);
    DiffAddSymmetric(u, p, q);
    if bit == 0 {
      StepDoublesAndAdds(x1, x2, z2, x3, z3, u, p, q);
    } else {
      StepDoublesAndAdds(x1, x2, z2, x3, z3, u, q, p);
    }
  }

  lemma StepDoublesAndAdds(x1: Fe, x2: Fe, z2: Fe, x3: Fe, z3: Fe, u: int, p: Point, q: Point)
    requires Reduced(x1) && Cong(Value(x1), u, P)
    requires HoldsPoint(x2, z2, p) && HoldsPoint(x3, z3, q)
    ensures Reduced(x2) && Reduced(z2) && Reduced(x3) && Reduced(z3)
    ensures var s := LadderStep(x1, x2, z2, x3, z3);
            HoldsPoint(s.x2, s.z2, Double(p)) && HoldsPoint(s.x3, s.z3, DiffAdd(u, p, q))
  {
    hide LadderStep, Double, DiffAdd, Value;
    StepDoubles(x1, x2, z2, x3, z3, p);
    StepAdds(x1, x2, z2, x3, z3, u, p, q);
  }

  /** Both swaps of an iteration: what was held under `swap` is then held under `bit`. */
  method SwapPoints(swap: u64, bit: u64, x2: array<u64>, z2: array<u64>, x3: array<u64>, z3: array<u64>,
                    ghost pq: (Point, Point))
    requires x2.Length == 5 && z2.Length == 5 && x3.Length == 5 && z3.Length == 5
    requires x2 != z2 && x2 != x3 && x2 != z3 && z2 != x3 && z2 != z3 && x3 != z3
    requires bit <= 1
    requires HoldsPair(swap, FeOf(x2), FeOf(z2), FeOf(x3), FeOf(z3), pq)
    modifies x2, z2, x3, z3
    ensures HoldsPair(bit, FeOf(x2), FeOf(z2), FeOf(x3), FeOf(z3), pq)
  {
    hide FeOf, HoldsPair, OpWord;
    SwapIsBit(swap, FeOf(x2), FeOf(z2), FeOf(x3), FeOf(z3), pq);
    XorBits(swap, bit);
    var s := OpWord(XorOp, swap, bit);
    ghost var before := Step(FeOf(x2), FeOf(z2), FeOf(x3), FeOf(z3));
    CSwap(s, x2, x3);
    CSwap(s, z2, z3);
    SwapKeepsPair(swap, bit, before, Step(FeOf(x2), FeOf(z2), FeOf(x3), FeOf(z3)), pq);
  }

  /** The step, stored back into the four arrays. */
  method StepInPlace(u: Fe, x2: array<u64>, z2: array<u64>, x3: array<u64>, z3: array<u64>)
    requires x2.Length == 5 && z2.Length == 5 && x3.Length == 5 && z3.Length == 5
    requires x2 != z2 && x2 != x3 && x2 != z3 && z2 != x3 && z2 != z3 && x3 != z3
    requires Reduced(u)
    requires Reduced(FeOf(x2)) && Reduced(FeOf(z2)) && Reduced(FeOf(x3)) && Reduced(FeOf(z3))
    modifies x2, z2, x3, z3
    ensures Step(FeOf(x2), FeOf(z2), FeOf(x3), FeOf(z3))
         == old(LadderStep(u, FeOf(x2), FeOf(z2), FeOf(x3), FeOf(z3)))
  {
    hide FeOf, LadderStep, Reduced;
    var s := LadderStep(u, FeOf(x2), FeOf(z2), FeOf(x3), FeOf(z3));
    Store(x3, s.x3);
    Store(z3, s.z3);
    Store(x2, s.x2);
    Store(z2, s.z2);
  }

  /** The constant-time ladder: swaps are delayed to the next iteration. */
  method LadderLimbs(scalar: Bytes, u: Fe) returns (r: Fe)
    requires |scalar| == 32 && LE(scalar) < Pow2(255)
    requires Reduced(u)
    ensures Reduced(r)
    ensures var p := Ladder(Value(u), LE(scalar), 255).0;
            Cong(Value(r), p.x * Pow(p.z, InverseExponent()), P)
  {
    hide FeOf, LadderStep, Ladder, LE, Pow2, Pow, Value, FMul, HoldsPair, HoldsPoint, Reduced, Cong, Sum5, Prefix;
    hide ScalarBit, InverseExponent;
    ghost var n := LE(scalar);
    var x2, z2, x3, z3 := new u64[5], new u64[5], new u64[5], new u64[5];
    Store(x2, FE_ONE);
    Store(z2, FE_ZERO);
    Store(x3, u);
    Store(z3, FE_ONE);
    var swap: u64 := 0;
    LadderStart(u);
    PrefixEnds(n);
    for t := 255 downto 0
      invariant HoldsPair(swap, FeOf(x2), FeOf(z2), FeOf(x3), FeOf(z3),
                          Ladder(Value(u), Prefix(n, t), 255 - t))
    {
      HalvePrefix(n, t);
      var bit := ScalarBit(scalar, t);
      SwapPoints(swap, bit, x2, z2, x3, z3, Ladder(Value(u), Prefix(n, t + 1), 254 - t));
      swap := bit;
      PairIsReduced(swap, FeOf(x2), FeOf(z2), FeOf(x3), FeOf(z3), Ladder(Value(u), Prefix(n, t + 1), 254 - t));
      IterationKeepsPair(u, FeOf(x2), FeOf(z2), FeOf(x3), FeOf(z3), bit, Value(u), Prefix(n, t), 254 - t);
      StepInPlace(u, x2, z2, x3, z3);
    }
    ghost var pq := Ladder(Value(u), n, 255);
    SwapPoints(swap, 0, x2, z2, x3, z3, pq);
    PairIsReduced(0, FeOf(x2), FeOf(z2), FeOf(x3), FeOf(z3), pq);
    var i := FInvert(FeOf(z2));
    Divide(FeOf(x2), i, FeOf(z2), pq.0);
    r := FMul(FeOf(x2), i);
  }

  lemma PairIsReduced(swap: u64, x2: Fe, z2: Fe, x3: Fe, z3: Fe, pq: (Point, Point))
    requires HoldsPair(swap, x2, z2, x3, z3, pq)
    ensures Reduced(x2) && Reduced(z2) && Reduced(x3) && Reduced(z3)
    ensures Loose(x2) && Loose(z2)
    ensures swap == 0 ==> HoldsPoint(x2, z2, pq.0)
  {
  }

  lemma SwapIsBit(swap: u64, x2: Fe, z2: Fe, x3: Fe, z3: Fe, pq: (Point, Point))
    requires HoldsPair(swap, x2, z2, x3, z3, pq)
    ensures swap <= 1
  {
  }

  /** Swapping by `swap ^ bit` turns a pair held under `swap` into one held under `bit`. */
  lemma SwapKeepsPair(swap: u64, bit: u64, s: Step, t: Step, pq: (Point, Point))
    requires bit <= 1
    requires HoldsPair(swap, s.x2, s.z2, s.x3, s.z3, pq)
    requires t == if swap == bit then s else Step(s.x3, s.z3, s.x2, s.z2)
    ensures HoldsPair(bit, t.x2, t.z2, t.x3, t.z3, pq)
  {
  }

  lemma Divide(x: Fe, i: Fe, z: Fe, p: Point)
    requires HoldsPoint(x, z, p)
    requires Reduced(i) && Cong(Value(i), Pow(Value(z), InverseExponent()), P)
    ensures Loose(x) && Loose(i)
    ensures Reduced(FMul(x, i))
    ensures Cong(Value(FMul(x, i)), p.x * Pow(p.z, InverseExponent()), P)
  {
    hide FMul, Value, Pow, InverseExponent;
    CongPow(Value(z), p.z, InverseExponent(), P);
    CongMul(Value(x), p.x, Value(i), Pow(p.z, InverseExponent()), P);
  }

  lemma LadderStart(u: Fe)
    requires Reduced(u)
    ensures HoldsPair(0, FE_ONE, FE_ZERO, u, FE_ONE, Ladder(Value(u), 0, 0))
  {
  }

  lemma PrefixEnds(n: nat)
    requires n < Pow2(255)
    ensures Prefix(n, 255) == 0 && Prefix(n, 0) == n
  {
    hide Pow2;
    DivModUnique(n, 0, n, Pow2(255));
    Pow2Zero();
  }

  lemma HalvePrefix(n: nat, t: nat)
    ensures Prefix(n, t) / 2 == Prefix(n, t + 1)
  {
    DivDiv(n, Pow2(t), 2);
  }

  lemma XorBits(a: u64, b: u64)
    requires a <= 1 && b <= 1
    ensures OpWord(XorOp, a, b) == if a == b then 0 else 1
  {
    if a == b {
      XorSelf(a as int);
    } else {
      BitwiseZero(1);
    }
  }

  method X25519(scalar: Bytes, u: Bytes) returns (out: Bytes)
    requires |scalar| == 32 && |u| == 32
    ensures out == ToLE(X25519Spec(LE(scalar), LE(u)), 32)
  {
    hide LE, ToLE, Pow2, Pow, Ladder, Value, ClampedScalar, DecodeScalar, DecodeU;
    var k := DecodeScalar(scalar);
    var uFe := DecodeU(u);
    var r := LadderLimbs(k, uFe);
    var bytes := Encode(r);
    out := bytes[..];
  }
}
