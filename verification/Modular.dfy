/** Congruence modulo a positive integer, and powers. */
module Modular {
  import opened Words

  ghost predicate Cong(a: int, b: int, m: int)
    requires m > 0
  {
    a % m == b % m
  }

  lemma CongMultiple(a: int, b: int, k: int, m: int)
    requires m > 0
    requires a == b + k * m
    ensures Cong(a, b, m)
  {
    assert a == (b / m + k) * m + b % m by {
      assert (b / m + k) * m == (b / m) * m + k * m;
    }
    DivModUnique(a, b / m + k, b % m, m);
  }

  /** Congruent integers differ by a multiple of the modulus. */
  lemma CongDifference(a: int, b: int, m: int) returns (k: int)
    requires m > 0
    requires Cong(a, b, m)
    ensures a == b + k * m
  {
    k := a / m - b / m;
    assert (a / m - b / m) * m == (a / m) * m - (b / m) * m;
  }

  lemma CongSelf(a: int, m: int)
    requires m > 0
    ensures Cong(a % m, a, m)
  {
    CongMultiple(a, a % m, a / m, m);
  }

  lemma CongAdd(a: int, a': int, b: int, b': int, m: int)
    requires m > 0
    requires Cong(a, a', m) && Cong(b, b', m)
    ensures Cong(a + b, a' + b', m)
    ensures Cong(a - b, a' - b', m)
  {
    var j := CongDifference(a, a', m);
    var k := CongDifference(b, b', m);
    assert (j + k) * m == j * m + k * m;
    assert (j - k) * m == j * m - k * m;
    CongMultiple(a + b, a' + b', j + k, m);
    CongMultiple(a - b, a' - b', j - k, m);
  }

  lemma CongMul(a: int, a': int, b: int, b': int, m: int)
    requires m > 0
    requires Cong(a, a', m) && Cong(b, b', m)
    ensures Cong(a * b, a' * b', m)
  {
    var j := CongDifference(a, a', m);
    var k := CongDifference(b, b', m);
    assert a * b == a' * b' + (j * b + a' * k) * m by {
      assert a * b == a' * b + j * m * b;
      assert a' * b == a' * b' + a' * (k * m);
      assert j * m * b == (j * b) * m;
      assert a' * (k * m) == (a' * k) * m;
      assert (j * b + a' * k) * m == (j * b) * m + (a' * k) * m;
    }
    CongMultiple(a * b, a' * b', j * b + a' * k, m);
  }

  /** The remainder is the only congruent integer below the modulus. */
  lemma CongUnique(a: int, r: int, m: int)
    requires 0 <= r < m
    requires Cong(a, r, m)
    ensures a % m == r
  {
    DivModUnique(r, 0, r, m);
  }

  function Pow(z: int, e: nat): int {
    if e == 0 then 1 else z * Pow(z, e - 1)
  }

  lemma {:induction false} PowAdd(z: int, a: nat, b: nat)
    ensures Pow(z, a + b) == Pow(z, a) * Pow(z, b)
  {
    if a != 0 {
      PowAdd(z, a - 1, b);
      MulAssoc(z, Pow(z, a - 1), Pow(z, b));
    }
  }

  lemma {:induction false} CongPow(z: int, z': int, e: nat, m: int)
    requires m > 0
    requires Cong(z, z', m)
    ensures Cong(Pow(z, e), Pow(z', e), m)
  {
    if e != 0 {
      CongPow(z, z', e - 1, m);
      CongMul(z, z', Pow(z, e - 1), Pow(z', e - 1), m);
    }
  }
}
