/** Single bits of naturals under shifts, masks and bitwise operators. */
module Bits {
  import opened Words
  import opened ByteStrings

  lemma BitAtHalf(a: nat, k: nat)
    ensures BitAt(a, k + 1) == BitAt(a / 2, k)
  {
    DivDiv(a, 2, Pow2(k));
  }

  lemma BitAtZero(a: nat)
    ensures BitAt(a, 0) == a % 2
  {
  }

  lemma {:induction false} BitOfBitwise(op: BitOp, a: nat, b: nat, k: nat)
    ensures BitAt(Bitwise(op, a, b), k) == Bit(op, BitAt(a, k), BitAt(b, k))
    decreases k
  {
    hide BitAt;
    var r := Bitwise(op, a, b);
    BitwiseHalves(op, a, b);
    assert r / 2 == Bitwise(op, a / 2, b / 2) && r % 2 == Bit(op, a % 2, b % 2);
    if k == 0 {
      BitAtZero(r);
      BitAtZero(a);
      BitAtZero(b);
    } else {
      BitOfBitwise(op, a / 2, b / 2, k - 1);
      BitAtHalf(r, k - 1);
      BitAtHalf(a, k - 1);
      BitAtHalf(b, k - 1);
    }
  }

  /** A left shift by s moves bit i - s to bit i. */
  lemma {:induction false} BitOfShift(a: nat, s: nat, i: nat)
    ensures 0 <= a * Pow2(s)
    ensures BitAt(a * Pow2(s), i) == if s <= i then BitAt(a, i - s) else 0
    decreases s
  {
    hide BitAt;
    MulMono(0, a, Pow2(s));
    if s != 0 {
      var h := a * Pow2(s - 1);
      MulMono(0, a, Pow2(s - 1));
      assert a * Pow2(s) == 2 * h by { assert a * (2 * Pow2(s - 1)) == 2 * (a * Pow2(s - 1)); }
      if i == 0 {
        BitAtZero(2 * h);
      } else {
        BitAtHalf(2 * h, i - 1);
        BitOfShift(a, s - 1, i - 1);
      }
    }
  }

  /** Truncation to n bits keeps the bits below n. */
  lemma BitOfLow(a: nat, n: nat, i: nat)
    requires i < n
    ensures 0 <= a % Pow2(n)
    ensures BitAt(a % Pow2(n), i) == BitAt(a, i)
  {
    hide Pow2;
    Pow2Add(i, n - i);
    Pow2Add(1, n - i - 1);
    Pow2Unfold(1);
    Pow2Unfold(0);
    Window(a, 1, Pow2(i), 2, Pow2(n - i - 1));
    assert a / 1 == a;
  }

  /** Testing one bit with a mask. */
  lemma {:induction false} AndOneBit(a: nat, d: nat)
    ensures And(a, Pow2(d)) == Pow2(d) * BitAt(a, d)
    decreases d
  {
    hide BitAt;
    BitwiseHalves(AndOp, a, Pow2(d));
    if d == 0 {
      BitAtZero(a);
      BitwiseZero(a / 2);
    } else {
      BitAtHalf(a, d - 1);
      AndOneBit(a / 2, d - 1);
      assert Pow2(d) / 2 == Pow2(d - 1) && Pow2(d) % 2 == 0;
      MulAssoc(2, Pow2(d - 1), BitAt(a, d));
    }
  }

  lemma BitOfPow2(d: nat, i: nat)
    ensures BitAt(Pow2(d), i) == if i == d then 1 else 0
  {
    BitOfShift(1, d, i);
    if d < i { BitOfOne(i - d); }
    if d == i { BitOfOne(0); }
  }

  lemma BitOfOne(i: nat)
    ensures BitAt(1, i) == if i == 0 then 1 else 0
  {
    if i != 0 {
      Pow2Unfold(i);
      DivModUnique(1, 0, 1, Pow2(i));
    }
  }
}
