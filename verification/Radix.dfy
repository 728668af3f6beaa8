/** Five-limb numbers in a radix b, modulo b^5 - c: the products past the fifth limb fold back by c. */
module Radix {
  import opened Words
  import opened Modular

  /** The integer that five limbs denote. */
  function Digits5(b: int, x0: int, x1: int, x2: int, x3: int, x4: int): int {
    x0 + Mul(b, x1 + Mul(b, x2 + Mul(b, x3 + Mul(b, x4))))
  }

  /** b^5 is c more than the modulus. */
  ghost predicate FoldsBy(b: int, c: int, m: int) {
    m > 0 && Mul(b, Mul(b, Mul(b, Mul(b, b)))) == m + c
  }

  lemma MulSum(k: int, x: int, y: int)
    ensures Mul(k, x) + Mul(k, y) == Mul(k, x + y)
  {
  }

  lemma MulSwap(k: int, b: int, x: int)
    ensures Mul(k, Mul(b, x)) == Mul(b, Mul(k, x))
  {
    MulAssoc(k, b, x);
    MulAssoc(b, k, x);
  }

  lemma AddDigits(b: int, x0: int, x1: int, x2: int, x3: int, x4: int, y0: int, y1: int, y2: int, y3: int, y4: int)
    ensures Digits5(b, x0, x1, x2, x3, x4) + Digits5(b, y0, y1, y2, y3, y4)
         == Digits5(b, x0 + y0, x1 + y1, x2 + y2, x3 + y3, x4 + y4)
  {
    hide Mul;
    MulSum(b, x4, y4);
    MulSum(b, x3 + Mul(b, x4), y3 + Mul(b, y4));
    MulSum(b, x2 + Mul(b, x3 + Mul(b, x4)), y2 + Mul(b, y3 + Mul(b, y4)));
    MulSum(b, x1 + Mul(b, x2 + Mul(b, x3 + Mul(b, x4))), y1 + Mul(b, y2 + Mul(b, y3 + Mul(b, y4))));
  }

  lemma ScaleDigits(b: int, k: int, x0: int, x1: int, x2: int, x3: int, x4: int)
    ensures Mul(k, Digits5(b, x0, x1, x2, x3, x4))
         == Digits5(b, Mul(k, x0), Mul(k, x1), Mul(k, x2), Mul(k, x3), Mul(k, x4))
  {
    hide Mul;
    var t3 := x3 + Mul(b, x4);
    var t2 := x2 + Mul(b, t3);
    var t1 := x1 + Mul(b, t2);
    MulSum(k, x3, Mul(b, x4));
    MulSum(k, x2, Mul(b, t3));
    MulSum(k, x1, Mul(b, t2));
    MulSum(k, x0, Mul(b, t1));
    MulSwap(k, b, x4);
    MulSwap(k, b, t3);
    MulSwap(k, b, t2);
    MulSwap(k, b, t1);
  }

  /** Multiplying by the radix moves every limb up and folds the last one back. */
  lemma Rotate(b: int, c: int, m: int, x0: int, x1: int, x2: int, x3: int, x4: int)
    requires FoldsBy(b, c, m)
    ensures Cong(Mul(b, Digits5(b, x0, x1, x2, x3, x4)), Digits5(b, Mul(c, x4), x0, x1, x2, x3), m)
  {
    hide Mul, Cong;
    var top := Mul(b, Mul(b, Mul(b, Mul(b, Mul(b, x4)))));
    MulSum(b, x3, Mul(b, x4));
    MulSum(b, x2 + Mul(b, x3), Mul(b, Mul(b, x4)));
    MulSum(b, x1 + Mul(b, x2 + Mul(b, x3)), Mul(b, Mul(b, Mul(b, x4))));
    MulSum(b, x0 + Mul(b, x1 + Mul(b, x2 + Mul(b, x3))), Mul(b, Mul(b, Mul(b, Mul(b, x4)))));
    TopIsModulus(b, c, m, x4);
    CongMultiple(Mul(b, Digits5(b, x0, x1, x2, x3, x4)), Digits5(b, Mul(c, x4), x0, x1, x2, x3), x4, m);
  }

  lemma TopIsModulus(b: int, c: int, m: int, x: int)
    requires FoldsBy(b, c, m)
    ensures Mul(b, Mul(b, Mul(b, Mul(b, Mul(b, x))))) == x * m + Mul(c, x)
  {
    var b2, b3, b4 := Mul(b, b), Mul(b, Mul(b, b)), Mul(b, Mul(b, Mul(b, b)));
    MulAssoc(b, b, x);
    MulAssoc(b, b2, x);
    MulAssoc(b, b3, x);
    MulAssoc(b, b4, x);
    assert (m + c) * x == x * m + c * x;
  }

  /** One row more: a * y plus b times what the rows after it have come to. */
  lemma AddRow(b: int, c: int, m: int, a: int, y0: int, y1: int, y2: int, y3: int, y4: int,
               acc: int, x0: int, x1: int, x2: int, x3: int, x4: int)
    requires FoldsBy(b, c, m) && Cong(acc, Digits5(b, x0, x1, x2, x3, x4), m)
    ensures Cong(Mul(a, Digits5(b, y0, y1, y2, y3, y4)) + Mul(b, acc),
                 Digits5(b, Mul(a, y0) + Mul(c, x4), Mul(a, y1) + x0, Mul(a, y2) + x1, Mul(a, y3) + x2,
                         Mul(a, y4) + x3), m)
  {
    hide Cong, Digits5;
    var x := Digits5(b, x0, x1, x2, x3, x4);
    var y := Mul(a, Digits5(b, y0, y1, y2, y3, y4));
    CongSame(b, m);
    CongMul(b, b, acc, x, m);
    Rotate(b, c, m, x0, x1, x2, x3, x4);
    var turned := Digits5(b, Mul(c, x4), x0, x1, x2, x3);
    CongChain(Mul(b, acc), Mul(b, x), turned, m);
    CongSame(y, m);
    CongAdd(y, y, Mul(b, acc), turned, m);
    ScaleDigits(b, a, y0, y1, y2, y3, y4);
    AddDigits(b, Mul(a, y0), Mul(a, y1), Mul(a, y2), Mul(a, y3), Mul(a, y4), Mul(c, x4), x0, x1, x2, x3);
  }

  lemma CongSame(x: int, m: int)
    requires m > 0
    ensures Cong(x, x, m)
  {
  }

  lemma CongChain(x: int, y: int, z: int, m: int)
    requires m > 0 && Cong(x, y, m) && Cong(y, z, m)
    ensures Cong(x, z, m)
  {
  }

  /** The schoolbook rows, with the products past the fifth limb folded back, denote the product. */
  lemma RowsFold(b: int, c: int, m: int, a0: int, a1: int, a2: int, a3: int, a4: int,
                 y0: int, y1: int, y2: int, y3: int, y4: int, r0: int, r1: int, r2: int, r3: int, r4: int)
    requires FoldsBy(b, c, m)
    requires r0 == Mul(a0, y0) + Mul(c, Mul(a1, y4) + Mul(a2, y3) + Mul(a3, y2) + Mul(a4, y1))
    requires r1 == Mul(a0, y1) + Mul(a1, y0) + Mul(c, Mul(a2, y4) + Mul(a3, y3) + Mul(a4, y2))
    requires r2 == Mul(a0, y2) + Mul(a1, y1) + Mul(a2, y0) + Mul(c, Mul(a3, y4) + Mul(a4, y3))
    requires r3 == Mul(a0, y3) + Mul(a1, y2) + Mul(a2, y1) + Mul(a3, y0) + Mul(c, Mul(a4, y4))
    requires r4 == Mul(a0, y4) + Mul(a1, y3) + Mul(a2, y2) + Mul(a3, y1) + Mul(a4, y0)
    ensures Cong(Digits5(b, r0, r1, r2, r3, r4), Digits5(b, a0, a1, a2, a3, a4) * Digits5(b, y0, y1, y2, y3, y4), m)
  {
    hide Cong, Mul, Digits5;
    var y := Digits5(b, y0, y1, y2, y3, y4);
    var s4 := Mul(a4, y);
    var s3 := Mul(a3, y) + Mul(b, s4);
    var s2 := Mul(a2, y) + Mul(b, s3);
    var s1 := Mul(a1, y) + Mul(b, s2);
    ScaleDigits(b, a4, y0, y1, y2, y3, y4);
    CongSame(s4, m);
    AddRow(b, c, m, a3, y0, y1, y2, y3, y4, s4, Mul(a4, y0), Mul(a4, y1), Mul(a4, y2), Mul(a4, y3), Mul(a4, y4));
    AddRow(b, c, m, a2, y0, y1, y2, y3, y4, s3,
           Mul(a3, y0) + Mul(c, Mul(a4, y4)), Mul(a3, y1) + Mul(a4, y0), Mul(a3, y2) + Mul(a4, y1),
           Mul(a3, y3) + Mul(a4, y2), Mul(a3, y4) + Mul(a4, y3));
    AddRow(b, c, m, a1, y0, y1, y2, y3, y4, s2,
           Mul(a2, y0) + Mul(c, Mul(a3, y4) + Mul(a4, y3)), Mul(a2, y1) + (Mul(a3, y0) + Mul(c, Mul(a4, y4))),
           Mul(a2, y2) + (Mul(a3, y1) + Mul(a4, y0)), Mul(a2, y3) + (Mul(a3, y2) + Mul(a4, y1)),
           Mul(a2, y4) + (Mul(a3, y3) + Mul(a4, y2)));
    AddRow(b, c, m, a0, y0, y1, y2, y3, y4, s1,
           Mul(a1, y0) + Mul(c, Mul(a2, y4) + (Mul(a3, y3) + Mul(a4, y2))),
           Mul(a1, y1) + (Mul(a2, y0) + Mul(c, Mul(a3, y4) + Mul(a4, y3))),
           Mul(a1, y2) + (Mul(a2, y1) + (Mul(a3, y0) + Mul(c, Mul(a4, y4)))),
           Mul(a1, y3) + (Mul(a2, y2) + (Mul(a3, y1) + Mul(a4, y0))),
           Mul(a1, y4) + (Mul(a2, y3) + (Mul(a3, y2) + Mul(a4, y1))));
    assert r0 == Mul(a0, y0) + Mul(c, Mul(a1, y4) + (Mul(a2, y3) + (Mul(a3, y2) + Mul(a4, y1))));
    assert r1 == Mul(a0, y1) + (Mul(a1, y0) + Mul(c, Mul(a2, y4) + (Mul(a3, y3) + Mul(a4, y2))));
    ProductRows(b, a0, a1, a2, a3, a4, y);
    CongTurn(Mul(a0, y) + Mul(b, s1), Digits5(b, r0, r1, r2, r3, r4), m);
  }

  lemma CongTurn(x: int, y: int, m: int)
    requires m > 0 && Cong(x, y, m)
    ensures Cong(y, x, m)
  {
  }

  lemma ProductRows(b: int, a0: int, a1: int, a2: int, a3: int, a4: int, y: int)
    ensures Digits5(b, a0, a1, a2, a3, a4) * y
         == Mul(a0, y) + Mul(b, Mul(a1, y) + Mul(b, Mul(a2, y) + Mul(b, Mul(a3, y) + Mul(b, Mul(a4, y)))))
  {
    ScaleDigits(b, y, a0, a1, a2, a3, a4);
    assert Mul(y, a0) == Mul(a0, y) && Mul(y, a1) == Mul(a1, y) && Mul(y, a2) == Mul(a2, y);
    assert Mul(y, a3) == Mul(a3, y) && Mul(y, a4) == Mul(a4, y);
    assert Mul(y, Digits5(b, a0, a1, a2, a3, a4)) == Digits5(b, a0, a1, a2, a3, a4) * y;
  }
}
