/** Machine words, little- and big-endian byte strings, and bitwise operators on naturals. */
module Words {

  newtype u8 = x: int | 0 <= x < 0x100
  newtype u16 = x: int | 0 <= x < 0x1_0000
  newtype u32 = x: int | 0 <= x < 0x1_0000_0000
  newtype u64 = x: int | 0 <= x < 0x1_0000_0000_0000_0000
  newtype u128 = x: int | 0 <= x < 0x1_0000_0000_0000_0000_0000_0000_0000_0000

  // ---- Powers of two -------------------------------------------------------

  function Pow2(n: nat): (r: nat)
    ensures r > 0
  {
    if n == 0 then 1 else 2 * Pow2(n - 1)
  }

  lemma {:induction false} Pow2Add(a: nat, b: nat)
    ensures Pow2(a + b) == Pow2(a) * Pow2(b)
  {
    if a != 0 {
      Pow2Add(a - 1, b);
      assert Pow2(a + b) == 2 * Pow2(a - 1 + b);
      assert 2 * (Pow2(a - 1) * Pow2(b)) == (2 * Pow2(a - 1)) * Pow2(b);
    }
  }

  lemma Pow2Unfold(k: nat)
    ensures Pow2(k) == if k == 0 then 1 else 2 * Pow2(k - 1)
  {
  }

  lemma Pow2Two()
    ensures Pow2(2) == 4
  {
  }

  lemma Pow2Eight()
    ensures Pow2(8) == 0x100
  {
  }

  lemma Pow2Sixteen()
    ensures Pow2(16) == 0x1_0000
  {
    Pow2Eight();
    Pow2Add(8, 8);
  }

  lemma Pow2ThirtyTwo()
    ensures Pow2(32) == 0x1_0000_0000
  {
    Pow2Sixteen();
    Pow2Add(16, 16);
  }

  lemma Pow2SixtyFour()
    ensures Pow2(64) == 0x1_0000_0000_0000_0000
  {
    Pow2ThirtyTwo();
    Pow2Add(32, 32);
  }

  lemma Pow2OneTwentyEight()
    ensures Pow2(128) == 0x1_0000_0000_0000_0000_0000_0000_0000_0000
  {
    Pow2SixtyFour();
    Pow2Add(64, 64);
  }

  /** The product of two integers; hidden where only its linear combinations matter. */
  function Mul(x: int, y: int): int { x * y }

  lemma MulIs(k: int, x: int)
    ensures Mul(k, x) == k * x
  {
  }

  lemma MulScale(k: int, x: int, y: int)
    ensures Mul(k * x, y) == k * Mul(x, y)
    ensures Mul(x, y * k) == k * Mul(x, y)
  {
  }

  lemma MulAssoc(a: int, b: int, c: int)
    ensures a * (b * c) == (a * b) * c
  {
  }

  // ---- Division facts the solver does not find by itself -------------------

  lemma DivModUnique(x: int, q: int, r: int, m: int)
    requires 0 <= r < m
    requires x == q * m + r
    ensures x / m == q && x % m == r
  {
    var d := q - x / m;
    assert d * m == x % m - r by {
      assert x == (x / m) * m + x % m;
      assert (q - x / m) * m == q * m - (x / m) * m;
    }
    assert d < 1 by { if d >= 1 { MulMono(1, d, m); assert false; } }
    assert d > -1 by { if d <= -1 { MulMono(d, -1, m); assert false; } }
  }

  lemma MulMono(a: int, b: int, m: int)
    requires a <= b && 0 <= m
    ensures a * m <= b * m
  {
    assert (b - a) * m >= 0;
  }

  lemma ProductBound(x: int, y: int, xb: int, yb: int)
    requires 0 <= x < xb && 0 <= y < yb
    ensures 0 <= x * y < xb * yb
  {
    MulMono(0, x, y);
    MulMono(x, xb, y);
    MulMono(y, yb - 1, xb);
    assert (yb - 1) * xb == xb * yb - xb;
  }

  /** `x / (a*b)` is two divisions, and the remainder splits the same way. */
  lemma DivDiv(x: nat, a: nat, b: nat)
    requires a > 0 && b > 0
    ensures a * b > 0
    ensures x / (a * b) == (x / a) / b
    ensures x % (a * b) == x % a + a * ((x / a) % b)
  {
    var q, r := (x / a) / b, (x / a) % b;
    var s := x % a;
    assert x / a == q * b + r;
    assert x == (q * b + r) * a + s;
    assert (q * b + r) * a + s == q * (a * b) + (a * r + s) by {
      assert (q * b + r) * a == q * b * a + r * a;
      assert q * b * a == q * (a * b);
    }
    assert a * r + s < a * b by {
      MulMono(r, b - 1, a);
      assert (b - 1) * a == a * b - a;
    }
    assert 0 <= a * r by { MulMono(0, r, a); }
    DivModUnique(x, q, a * r + s, a * b);
  }

  // ---- Bitwise operators ---------------------------------------------------

  datatype BitOp = AndOp | OrOp | XorOp

  function Bit(op: BitOp, x: nat, y: nat): (r: nat)
    ensures r <= 1
  {
    match op
    case AndOp => if x == 1 && y == 1 then 1 else 0
    case OrOp => if x == 1 || y == 1 then 1 else 0
    case XorOp => if x != y then 1 else 0
  }

  /** The operator applied to every bit of two naturals. */
  function Bitwise(op: BitOp, a: nat, b: nat): nat
    decreases a + b
  {
    if a == 0 && b == 0 then 0 else 2 * Bitwise(op, a / 2, b / 2) + Bit(op, a % 2, b % 2)
  }

  function And(a: nat, b: nat): nat { Bitwise(AndOp, a, b) }
  function Or(a: nat, b: nat): nat { Bitwise(OrOp, a, b) }
  function Xor(a: nat, b: nat): nat { Bitwise(XorOp, a, b) }

  /** Bit k of a natural. */
  function BitAt(a: nat, k: nat): nat { (a / Pow2(k)) % 2 }

  /** A bitwise operator acts on the low k bits and on the rest independently. */
  lemma {:induction false} BitwiseSplit(op: BitOp, a0: nat, a1: nat, b0: nat, b1: nat, k: nat)
    requires a0 < Pow2(k) && b0 < Pow2(k)
    ensures 0 <= Pow2(k) * a1 && 0 <= Pow2(k) * b1
    ensures Bitwise(op, a0 + Pow2(k) * a1, b0 + Pow2(k) * b1)
         == Bitwise(op, a0, b0) + Pow2(k) * Bitwise(op, a1, b1)
    ensures Bitwise(op, a0, b0) < Pow2(k)
    decreases k
  {
    hide Bitwise, Pow2;
    Pow2Unfold(k);
    MulMono(0, a1, Pow2(k));
    MulMono(0, b1, Pow2(k));
    if k == 0 {
      SplitNothing(op, a0, a1, b0, b1, Pow2(0));
    } else {
      BitwiseSplit(op, a0 / 2, a1, b0 / 2, b1, k - 1);
      SplitStep(op, a0, a1, b0, b1, Pow2(k - 1));
    }
  }

  lemma SplitStep(op: BitOp, a0: nat, a1: nat, b0: nat, b1: nat, p: nat)
    requires 0 <= p * a1 && 0 <= p * b1
    requires Bitwise(op, a0 / 2, b0 / 2) < p
    requires Bitwise(op, a0 / 2 + p * a1, b0 / 2 + p * b1)
          == Bitwise(op, a0 / 2, b0 / 2) + p * Bitwise(op, a1, b1)
    ensures 0 <= (2 * p) * a1 && 0 <= (2 * p) * b1
    ensures Bitwise(op, a0 + (2 * p) * a1, b0 + (2 * p) * b1)
         == Bitwise(op, a0, b0) + (2 * p) * Bitwise(op, a1, b1)
    ensures Bitwise(op, a0, b0) < 2 * p
  {
    hide Bitwise;
    MulAssoc(2, p, a1);
    MulAssoc(2, p, b1);
    MulAssoc(2, p, Bitwise(op, a1, b1));
    HalvesOfSum(op, a0, p * a1, b0, p * b1);
    BitwiseHalves(op, a0, b0);
  }

  lemma SplitNothing(op: BitOp, a0: nat, a1: nat, b0: nat, b1: nat, one: nat)
    requires a0 == b0 == 0 && one == 1
    ensures 0 <= one * a1 && 0 <= one * b1
    ensures Bitwise(op, a0 + one * a1, b0 + one * b1) == Bitwise(op, a0, b0) + one * Bitwise(op, a1, b1)
    ensures Bitwise(op, a0, b0) < one
  {
  }

  lemma BitwiseHalves(op: BitOp, a: nat, b: nat)
    ensures Bitwise(op, a, b) == 2 * Bitwise(op, a / 2, b / 2) + Bit(op, a % 2, b % 2)
  {
  }

  lemma HalvesOfSum(op: BitOp, a: nat, pa: nat, b: nat, pb: nat)
    ensures Bitwise(op, a + 2 * pa, b + 2 * pb)
         == 2 * Bitwise(op, a / 2 + pa, b / 2 + pb) + Bit(op, a % 2, b % 2)
  {
    hide Bitwise;
    assert (a + 2 * pa) / 2 == a / 2 + pa && (a + 2 * pa) % 2 == a % 2;
    assert (b + 2 * pb) / 2 == b / 2 + pb && (b + 2 * pb) % 2 == b % 2;
    BitwiseHalves(op, a + 2 * pa, b + 2 * pb);
  }

  lemma {:induction false} BitwiseZero(a: nat)
    ensures And(a, 0) == 0 && And(0, a) == 0
    ensures Or(a, 0) == a && Or(0, a) == a
    ensures Xor(a, 0) == a && Xor(0, a) == a
    decreases a
  {
    if a != 0 { BitwiseZero(a / 2); }
  }

  /** OR of words whose bits do not overlap is their sum. */
  lemma OrDisjoint(lo: nat, hi: nat, k: nat)
    requires lo < Pow2(k)
    ensures 0 <= Pow2(k) * hi
    ensures Or(lo, Pow2(k) * hi) == lo + Pow2(k) * hi
    ensures Or(Pow2(k) * hi, lo) == lo + Pow2(k) * hi
  {
    hide Bitwise, Pow2;
    BitwiseSplit(OrOp, lo, 0, 0, hi, k);
    BitwiseSplit(OrOp, 0, hi, lo, 0, k);
    BitwiseZero(lo);
    BitwiseZero(hi);
  }

  /** AND with the mask of k ones keeps exactly the low k bits. */
  lemma {:induction false} AndMask(a: nat, k: nat)
    ensures And(a, Pow2(k) - 1) == a % Pow2(k)
    decreases k
  {
    if k == 0 {
      BitwiseZero(a);
    } else {
      hide Bitwise;
      AndMask(a / 2, k - 1);
      AndMaskStep(a, Pow2(k - 1));
    }
  }

  lemma AndMaskStep(a: nat, p: nat)
    requires p > 0
    requires And(a / 2, p - 1) == (a / 2) % p
    ensures And(a, 2 * p - 1) == a % (2 * p)
  {
    hide Bitwise;
    DivDiv(a, 2, p);
    assert (2 * p - 1) / 2 == p - 1 && (2 * p - 1) % 2 == 1;
    BitwiseHalves(AndOp, a, 2 * p - 1);
  }

  /** XOR with the same word twice is the identity. */
  lemma {:induction false} XorInvolution(a: nat, b: nat)
    ensures Xor(Xor(a, b), b) == a
    decreases a + b
  {
    if a != 0 || b != 0 {
      XorInvolution(a / 2, b / 2);
      var x := Xor(a, b);
      assert x / 2 == Xor(a / 2, b / 2) && x % 2 == Bit(XorOp, a % 2, b % 2);
      if x == 0 && b == 0 {
        BitwiseZero(a);
      }
    }
  }

  lemma {:induction false} XorComm(a: nat, b: nat)
    ensures Xor(a, b) == Xor(b, a)
    decreases a + b
  {
    if a != 0 || b != 0 { XorComm(a / 2, b / 2); }
  }

  lemma {:induction false} XorSelf(a: nat)
    ensures Xor(a, a) == 0
    decreases a
  {
    if a != 0 { XorSelf(a / 2); }
  }

  // ---- Byte strings --------------------------------------------------------

  type Bytes = seq<u8>

  /** The integer a little-endian byte string denotes. */
  function LE(s: Bytes): nat {
    if s == [] then 0 else s[0] as int + 256 * LE(s[1..])
  }

  /** The integer a big-endian byte string denotes. */
  function BE(s: Bytes): nat {
    if s == [] then 0 else 256 * BE(s[..|s| - 1]) + s[|s| - 1] as int
  }

  function ToLE(x: nat, n: nat): (s: Bytes)
    ensures |s| == n
    decreases n
  {
    if n == 0 then [] else [(x % 256) as u8] + ToLE(x / 256, n - 1)
  }

  function ToBE(x: nat, n: nat): (s: Bytes)
    ensures |s| == n
    decreases n
  {
    if n == 0 then [] else ToBE(x / 256, n - 1) + [(x % 256) as u8]
  }

  lemma {:induction false} LEBound(s: Bytes)
    ensures LE(s) < Pow2(8 * |s|)
  {
    if s != [] {
      LEBound(s[1..]);
      Pow2Eight();
      Pow2Add(8, 8 * (|s| - 1));
      assert 8 + 8 * (|s| - 1) == 8 * |s|;
    }
  }

  lemma {:induction false} LEToLE(x: nat, n: nat)
    ensures LE(ToLE(x, n)) == x % Pow2(8 * n)
    decreases n
  {
    if n != 0 {
      LEToLE(x / 256, n - 1);
      Pow2Eight();
      Pow2Add(8, 8 * (n - 1));
      DivDiv(x, 256, Pow2(8 * (n - 1)));
      assert ToLE(x, n)[1..] == ToLE(x / 256, n - 1);
    }
  }

  lemma {:induction false} ToLELE(s: Bytes)
    ensures ToLE(LE(s), |s|) == s
  {
    if s != [] {
      ToLELE(s[1..]);
      DivModUnique(LE(s), LE(s[1..]), s[0] as int, 256);
    }
  }

  lemma {:induction false} LEAppend(s: Bytes, t: Bytes)
    ensures LE(s + t) == LE(s) + Pow2(8 * |s|) * LE(t)
  {
    if s == [] {
      assert s + t == t;
    } else {
      assert (s + t)[1..] == s[1..] + t;
      LEAppend(s[1..], t);
      Pow2Byte(|s| - 1);
      MulAssoc(256, Pow2(8 * (|s| - 1)), LE(t));
    }
  }

  lemma Pow2Byte(n: nat)
    ensures Pow2(8 * (n + 1)) == 256 * Pow2(8 * n)
  {
    Pow2Eight();
    Pow2Add(8, 8 * n);
  }

  lemma {:induction false} BEToBE(x: nat, n: nat)
    ensures BE(ToBE(x, n)) == x % Pow2(8 * n)
    decreases n
  {
    if n != 0 {
      BEToBE(x / 256, n - 1);
      Pow2Eight();
      Pow2Add(8, 8 * (n - 1));
      DivDiv(x, 256, Pow2(8 * (n - 1)));
      assert ToBE(x, n)[..n - 1] == ToBE(x / 256, n - 1);
    }
  }

  lemma {:induction false} ToBEBE(s: Bytes)
    ensures ToBE(BE(s), |s|) == s
  {
    if s != [] {
      ToBEBE(s[..|s| - 1]);
      DivModUnique(BE(s), BE(s[..|s| - 1]), s[|s| - 1] as int, 256);
    }
  }
}
