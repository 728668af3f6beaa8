/** The addition chain for z^(2^255 - 21) modulo 2^255 - 19. */
module Inversion {
  import opened Words
  import opened Modular
  import opened Field25519

  /** `v` holds z^e modulo p in reduced limbs. */
  ghost predicate Holds(v: Fe, z: int, e: nat) {
    Loose(v) && Cong(Value(v), Pow(z, e), P)
  }

  lemma MulHolds(v: Fe, w: Fe, z: int, d: nat, e: nat)
    requires Holds(v, z, d) && Holds(w, z, e)
    ensures Loose(v) && Loose(w)
    ensures Holds(FMul(v, w), z, d + e) && Reduced(FMul(v, w))
  {
    hide FMul, Pow;
    CongMul(Value(v), Pow(z, d), Value(w), Pow(z, e), P);
    PowAdd(z, d, e);
  }

  /** `2^a - 1` squared b times and multiplied by `2^b - 1` gives `2^(a+b) - 1`. */
  lemma OnesExponent(a: nat, b: nat)
    ensures (Pow2(a) - 1) * Pow2(b) + (Pow2(b) - 1) == Pow2(a + b) - 1
  {
    Pow2Add(a, b);
    assert (Pow2(a) - 1) * Pow2(b) == Pow2(a) * Pow2(b) - Pow2(b);
  }

  lemma DoubleExponent(e: nat, i: nat)
    ensures 0 <= e * Pow2(i)
    ensures e * Pow2(i + 1) == e * Pow2(i) + e * Pow2(i)
    ensures i == 0 ==> e * Pow2(i) == e
  {
    MulMono(0, e, Pow2(i));
    assert e * (2 * Pow2(i)) == 2 * (e * Pow2(i));
  }

  /** n squarings in a row: one, then a loop of n - 1 more. */
  method Squarings(v: Fe, n: nat, ghost z: int, ghost e: nat) returns (t: Fe)
    requires n > 0
    requires Holds(v, z, e)
    ensures Holds(t, z, e * Pow2(n))
  {
    hide FMul, Pow2, Pow, Holds;
    DoubleExponent(e, 0);
    MulHolds(v, v, z, e, e);
    t := FSquare(v);
    for i := 0 to n - 1
      invariant Holds(t, z, e * Pow2(i + 1))
    {
      DoubleExponent(e, i + 1);
      MulHolds(t, t, z, e * Pow2(i + 1), e * Pow2(i + 1));
      t := FSquare(t);
    }
  }

  /** `(2^b - 1)`-power of z times the b-fold square of the `(2^a - 1)`-power. */
  method ShiftAndMultiply(v: Fe, w: Fe, ghost z: int, ghost a: nat, b: nat) returns (r: Fe)
    requires b > 0
    requires Holds(v, z, Pow2(a) - 1) && Holds(w, z, Pow2(b) - 1)
    ensures Holds(r, z, Pow2(a + b) - 1)
  {
    hide FMul, Pow2;
    var t := Squarings(v, b, z, Pow2(a) - 1);
    OnesExponent(a, b);
    MulHolds(t, w, z, (Pow2(a) - 1) * Pow2(b), Pow2(b) - 1);
    r := FMul(t, w);
  }

  /** The exponent 2^255 - 21 of the addition chain. */
  function InverseExponent(): nat {
    Pow2(255) - 21
  }

  method FInvert(z: Fe) returns (r: Fe)
    requires Loose(z)
    ensures Reduced(r)
    ensures Cong(Value(r), Pow(Value(z), InverseExponent()), P)
  {
    hide FMul, Pow2, Pow;
    ghost var v := Value(z);
    FirstPower(z);
    MulHolds(z, z, v, 1, 1);
    var z2 := FSquare(z);
    MulHolds(z2, z2, v, 2, 2);
    var t := FSquare(z2);
    MulHolds(t, t, v, 4, 4);
    t := FSquare(t);
    MulHolds(t, z, v, 8, 1);
    var z9 := FMul(t, z);
    MulHolds(z9, z2, v, 9, 2);
    var z11 := FMul(z9, z2);
    MulHolds(z11, z11, v, 11, 11);
    t := FSquare(z11);
    MulHolds(t, z9, v, 22, 9);
    var z2_5_0 := FMul(t, z9);
    Pow2Five();

    var z2_10_0 := ShiftAndMultiply(z2_5_0, z2_5_0, v, 5, 5);
    var z2_20_0 := ShiftAndMultiply(z2_10_0, z2_10_0, v, 10, 10);
    var z2_40_0 := ShiftAndMultiply(z2_20_0, z2_20_0, v, 20, 20);
    var z2_50_0 := ShiftAndMultiply(z2_40_0, z2_10_0, v, 40, 10);
    var z2_100_0 := ShiftAndMultiply(z2_50_0, z2_50_0, v, 50, 50);
    var z2_200_0 := ShiftAndMultiply(z2_100_0, z2_100_0, v, 100, 100);
    t := ShiftAndMultiply(z2_200_0, z2_50_0, v, 200, 50);

    t := Squarings(t, 5, v, Pow2(250) - 1);
    FinalExponent();
    MulHolds(t, z11, v, (Pow2(250) - 1) * Pow2(5), 11);
    r := FMul(t, z11);
  }

  lemma FinalExponent()
    ensures 0 <= (Pow2(250) - 1) * Pow2(5)
    ensures (Pow2(250) - 1) * Pow2(5) + 11 == Pow2(255) - 21
  {
    OnesExponent(250, 5);
    Pow2Five();
    MulMono(0, Pow2(250) - 1, Pow2(5));
  }

  lemma Pow2Five()
    ensures Pow2(5) == 32
  {
  }

  lemma FirstPower(z: Fe)
    requires Loose(z)
    ensures Holds(z, Value(z), 1)
  {
    assert Pow(Value(z), 1) == Value(z) * Pow(Value(z), 0);
  }
}
