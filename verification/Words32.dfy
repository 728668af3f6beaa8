/** Arithmetic on 32-bit words, and sixteen of them. */
module Words32 {
  import opened Words

  type Words16 = s: seq<u32> | |s| == 16 witness seq(16, i => 0)
  type Words8 = s: seq<u32> | |s| == 8 witness seq(8, i => 0)

  function WrapAdd(a: u32, b: u32): u32 {
    ((a as int + b as int) % 0x1_0000_0000) as u32
  }

  function XorWord(a: u32, b: u32): (r: u32)
    ensures r as int == Xor(a as int, b as int)
  {
    hide Bitwise, Pow2;
    Pow2ThirtyTwo();
    BitwiseSplit(XorOp, a as int, 0, b as int, 0, 32);
    Xor(a as int, b as int) as u32
  }

  /** Rotation to the left by n bits, where hi is 2^n and lo is 2^(32-n). */
  function RotateLeft(x: u32, hi: u32, lo: u32): u32
    requires hi as int * lo as int == 0x1_0000_0000
  {
    RotateFits(x as int, hi as int, lo as int);
    ((x as int * hi as int) % 0x1_0000_0000 + x as int / lo as int) as u32
  }

  lemma RotateFits(x: nat, hi: nat, lo: nat)
    requires x < 0x1_0000_0000 && hi * lo == 0x1_0000_0000 && lo > 0 && hi > 0
    ensures 0 <= x / lo < hi
    ensures 0 <= (x * hi) % 0x1_0000_0000 <= 0x1_0000_0000 - hi
  {
    var q, r := x / lo, x % lo;
    assert x == q * lo + r;
    assert q < hi by { if q >= hi { MulMono(hi, q, lo); assert false; } }
    assert q >= 0 by { if q < 0 { MulMono(q, -1, lo); assert false; } }
    assert x * hi == q * (lo * hi) + r * hi by {
      assert (q * lo + r) * hi == q * lo * hi + r * hi;
      MulAssoc(q, lo, hi);
    }
    MulMono(r, lo - 1, hi);
    MulMono(0, r, hi);
    assert (lo - 1) * hi == lo * hi - hi;
    assert lo * hi == hi * lo;
    DivModUnique(x * hi, q, r * hi, 0x1_0000_0000);
  }

  function WordAt(b: Bytes, i: nat): u32
    requires 4 * i + 4 <= |b|
  {
    FromLe32(b[4 * i..4 * i + 4])
  }

  function FromLe32(s: Bytes): (r: u32)
    requires |s| == 4
    ensures r as int == LE(s)
  {
    hide LE, Pow2;
    LEBound(s);
    Pow2ThirtyTwo();
    LE(s) as u32
  }
}
