/** Slices, positions and bitwise combination of little-endian byte strings. */
module ByteStrings {
  import opened Words

  function Zeros(n: nat): (s: Bytes)
    ensures |s| == n
  {
    seq(n, i => 0)
  }

  lemma {:induction false} LEZeros(n: nat)
    ensures LE(Zeros(n)) == 0
  {
    if n != 0 {
      assert Zeros(n)[1..] == Zeros(n - 1);
      LEZeros(n - 1);
    }
  }

  /** A slice of a little-endian string is a window of the integer it denotes. */
  lemma LESlice(s: Bytes, i: nat, j: nat)
    requires i <= j <= |s|
    ensures LE(s[i..j]) == (LE(s) / Pow2(8 * i)) % Pow2(8 * (j - i))
  {
    hide LE, Pow2;
    var a, b, c := s[..i], s[i..j], s[j..];
    LESplit(s, i, j);
    LEBound(a);
    LEBound(b);
    MulComm(Pow2(8 * i), LE(b) + Pow2(8 * (j - i)) * LE(c));
    DivModUnique(LE(s), LE(b) + Pow2(8 * (j - i)) * LE(c), LE(a), Pow2(8 * i));
    MulComm(Pow2(8 * (j - i)), LE(c));
    DivModUnique(LE(b) + Pow2(8 * (j - i)) * LE(c), LE(c), LE(b), Pow2(8 * (j - i)));
  }

  lemma LEOne(b: u8)
    ensures LE([b]) == b as int
  {
  }

  lemma MulComm(a: int, b: int)
    ensures a * b == b * a
  {
  }

  lemma LESplit(s: Bytes, i: nat, j: nat)
    requires i <= j <= |s|
    ensures LE(s) == LE(s[..i]) + Pow2(8 * i) * (LE(s[i..j]) + Pow2(8 * (j - i)) * LE(s[j..]))
  {
    hide LE, Pow2;
    assert s == s[..i] + s[i..];
    assert s[i..] == s[i..j] + s[j..];
    LEAppend(s[..i], s[i..]);
    LEAppend(s[i..j], s[j..]);
  }

  /** Byte k of the little-endian encoding. */
  lemma {:induction false} ToLEAt(x: nat, n: nat, k: nat)
    requires k < n
    ensures ToLE(x, n)[k] as int == (x / Pow2(8 * k)) % 256
    decreases k
  {
    if k != 0 {
      ToLEAt(x / 256, n - 1, k - 1);
      Pow2Byte(k - 1);
      DivDiv(x, 256, Pow2(8 * (k - 1)));
    }
  }

  lemma LEByte(s: Bytes, k: nat)
    requires k < |s|
    ensures s[k] as int == (LE(s) / Pow2(8 * k)) % 256
  {
    ToLELE(s);
    ToLEAt(LE(s), |s|, k);
  }

  lemma ByteOpBound(op: BitOp, a: u8, b: u8)
    ensures 0 <= Bitwise(op, a as int, b as int) < 256
  {
    Pow2Eight();
    BitwiseSplit(op, a as int, 0, b as int, 0, 8);
  }

  function OpByte(op: BitOp, a: u8, b: u8): (r: u8)
    ensures r as int == Bitwise(op, a as int, b as int)
  {
    ByteOpBound(op, a, b);
    Bitwise(op, a as int, b as int) as u8
  }

  function OpBytes(op: BitOp, s: Bytes, t: Bytes): (r: Bytes)
    requires |s| == |t|
    ensures |r| == |s|
    ensures forall k :: 0 <= k < |s| ==> r[k] == OpByte(op, s[k], t[k])
  {
    if s == [] then [] else [OpByte(op, s[0], t[0])] + OpBytes(op, s[1..], t[1..])
  }

  /** A bytewise operator on two strings is the bitwise operator on the integers. */
  lemma {:induction false} OpBytesValue(op: BitOp, s: Bytes, t: Bytes)
    requires |s| == |t|
    ensures LE(OpBytes(op, s, t)) == Bitwise(op, LE(s), LE(t))
  {
    hide OpByte, Bitwise;
    if s == [] {
      assert Bitwise(op, 0, 0) == 0 by { ZeroOp(op); }
    } else {
      OpBytesValue(op, s[1..], t[1..]);
      OpByteHead(op, s, t);
      Pow2Eight();
      BitwiseSplit(op, s[0] as int, LE(s[1..]), t[0] as int, LE(t[1..]), 8);
    }
  }

  lemma OpByteHead(op: BitOp, s: Bytes, t: Bytes)
    requires |s| == |t| > 0
    ensures LE(OpBytes(op, s, t))
         == Bitwise(op, s[0] as int, t[0] as int) + 256 * LE(OpBytes(op, s[1..], t[1..]))
  {
    hide Bitwise;
    var r := OpBytes(op, s, t);
    assert r[1..] == OpBytes(op, s[1..], t[1..]);
  }

  lemma ZeroOp(op: BitOp)
    ensures Bitwise(op, 0, 0) == 0
  {
  }

  /** A window of a window: the low bits of a shifted 64-bit load. */
  lemma Window(n: nat, a: nat, b: nat, c: nat, d: nat)
    requires a > 0 && b > 0 && c > 0 && d > 0
    ensures a * b > 0 && b * (c * d) > 0
    ensures (n / a) % (b * (c * d)) / b % c == n / (a * b) % c
  {
    var y := n / a;
    MulMono(1, d, c);
    assert c * d > 0;
    DivDiv(n, a, b);
    DivDiv(y, b, c * d);
    var z := y / b;
    assert y % (b * (c * d)) / b == z % (c * d) by {
      MulComm(b, z % (c * d));
      DivModUnique(y % b + b * (z % (c * d)), z % (c * d), y % b, b);
    }
    DivDiv(z, c, d);
    MulComm(c, z / c % d);
    DivModUnique(z % c + c * (z / c % d), z / c % d, z % c, c);
  }

  /** u64::from_le_bytes. */
  function FromLe64(s: Bytes): (r: u64)
    requires |s| == 8
    ensures r as int == LE(s)
  {
    hide LE, Pow2;
    LEBound(s);
    Pow2SixtyFour();
    LE(s) as u64
  }

  // ---- 64-bit words --------------------------------------------------------

  function OpWord(op: BitOp, a: u64, b: u64): (r: u64)
    ensures r as int == Bitwise(op, a as int, b as int)
  {
    hide Bitwise, Pow2;
    Pow2SixtyFour();
    BitwiseSplit(op, a as int, 0, b as int, 0, 64);
    Bitwise(op, a as int, b as int) as u64
  }

  lemma {:induction false} AndComm(a: nat, b: nat)
    ensures And(a, b) == And(b, a)
    decreases a + b
  {
    if a != 0 || b != 0 { AndComm(a / 2, b / 2); }
  }

  /** AND with a mask of all zeros or all ones. */
  lemma MaskWord(mask: u64, x: u64)
    ensures mask == 0 ==> OpWord(AndOp, mask, x) == 0 && OpWord(AndOp, x, mask) == 0
    ensures mask == 0xFFFF_FFFF_FFFF_FFFF ==> OpWord(AndOp, mask, x) == x && OpWord(AndOp, x, mask) == x
  {
    hide Bitwise, Pow2;
    BitwiseZero(x as int);
    Pow2SixtyFour();
    AndMask(x as int, 64);
    AndComm(x as int, mask as int);
  }

  lemma OrZeroWord(x: u64)
    ensures OpWord(OrOp, x, 0) == x && OpWord(OrOp, 0, x) == x
  {
    BitwiseZero(x as int);
  }
}
