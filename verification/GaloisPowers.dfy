/** The powers of the class of x, and with them inverses and logarithms. */
module GaloisPowers {
  import opened Bytes
  import opened GaloisField

  /** alpha^i. */
  function Alpha(i: nat): GF {
    if i == 0 then 1 else TimesX(Alpha(i - 1))
  }

  lemma {:induction false} AlphaAdd(i: nat, j: nat)
    ensures Alpha(i + j) == Mul(Alpha(i), Alpha(j))
    decreases i
  {
    hide TimesX, Mul;
    if i == 0 {
      MulOne(Alpha(j));
    } else {
      AlphaAdd(i - 1, j);
      MulTimesX(Alpha(i - 1), Alpha(j));
    }
  }

  lemma TimesXNonzero(a: GF)
    requires a != 0
    ensures TimesX(a) != 0
  {
    if a >= 128 { XorBits(2 * a, 0x11d); }
  }

  lemma {:induction false} AlphaNonzero(i: nat)
    ensures Alpha(i) != 0
  {
    if i > 0 { AlphaNonzero(i - 1); TimesXNonzero(Alpha(i - 1)); }
  }

  /** A zero product with a power of alpha has a zero factor. */
  lemma {:induction false} AlphaCancel(i: nat, a: GF)
    requires Mul(Alpha(i), a) == 0
    ensures a == 0
  {
    if i == 0 {
      MulOne(a);
    } else {
      var t := Mul(Alpha(i - 1), a);
      MulTimesX(Alpha(i - 1), a);
      hide TimesX;
      if t != 0 { TimesXNonzero(t); }
      AlphaCancel(i - 1, a);
    }
  }

  // ---------- the order of alpha is 255 ----------

  /** Multiplication by x in plain arithmetic: reduction flips bits 0, 2, 3 and 4. */
  function Reduced(a: GF): int {
    if a < 128 then 2 * a else (a - 128) / 16 * 32 + (7 - a / 2 % 8) * 4 + a % 2 * 2 + 1
  }

  lemma TimesXReduced(a: GF)
    ensures TimesX(a) == Reduced(a)
  {
    if a >= 128 {
      var h, m := (a - 128) / 16, a / 2 % 8;
      var x0, x1, x2, x3 := a % 2, m % 2, m / 2 % 2, m / 4;
      assert a == 128 + 16 * h + 8 * x3 + 4 * x2 + 2 * x1 + x0;
      XorReduction(h, x3, x2, x1, x0);
      hide Xor;
    }
  }

  lemma XorReduction(h: nat, x3: nat, x2: nat, x1: nat, x0: nat)
    requires h < 8 && x3 < 2 && x2 < 2 && x1 < 2 && x0 < 2
    ensures Xor(256 + 32 * h + 16 * x3 + 8 * x2 + 4 * x1 + 2 * x0, 285)
            == 32 * h + 16 * (1 - x3) + 8 * (1 - x2) + 4 * (1 - x1) + 2 * x0 + 1
  {
    hide *;
    XorLast(128 + 16 * h + 8 * x3 + 4 * x2 + 2 * x1 + x0, 0, 142, 1);
    XorLast(64 + 8 * h + 4 * x3 + 2 * x2 + x1, x0, 71, 0);
    XorLast(32 + 4 * h + 2 * x3 + x2, x1, 35, 1);
    XorLast(16 + 2 * h + x3, x2, 17, 1);
    XorLast(8 + h, x3, 8, 1);
    XorEight(h);
  }

  lemma XorEight(h: nat)
    requires h < 8
    ensures Xor(8 + h, 8) == h
  {
    hide *;
    XorEightBits(h / 4, h / 2 % 2, h % 2);
  }

  lemma XorEightBits(y2: nat, y1: nat, y0: nat)
    requires y2 < 2 && y1 < 2 && y0 < 2
    ensures Xor(8 + (4 * y2 + 2 * y1 + y0), 8) == 4 * y2 + 2 * y1 + y0
  {
    hide *;
    XorLast(4 + 2 * y2 + y1, y0, 4, 0);
    XorLast(2 + y2, y1, 2, 0);
    XorLast(1, y2, 1, 0);
    XorSelf(1);
    assert 8 + (4 * y2 + 2 * y1 + y0) == 2 * (4 + 2 * y2 + y1) + y0;
    assert 4 + 2 * y2 + y1 == 2 * (2 + y2) + y1;
  }

  lemma AlphaFour(i: nat, a: GF, b: GF, c: GF, d: GF, e: GF)
    requires Alpha(i) == a && Reduced(a) == b && Reduced(b) == c && Reduced(c) == d && Reduced(d) == e
    ensures Alpha(i + 4) == e
  {
    TimesXReduced(a); TimesXReduced(b); TimesXReduced(c); TimesXReduced(d);
    assert Alpha(i + 1) == b;
    assert Alpha(i + 2) == c;
    assert Alpha(i + 3) == d;
  }

  lemma Alpha12()
    ensures Alpha(12) == 205
  {
    assert Alpha(0) == 1;
    hide Alpha;
    AlphaFour(0, 1, 2, 4, 8, 16);
    AlphaFour(4, 16, 32, 64, 128, 29);
    AlphaFour(8, 29, 58, 116, 232, 205);
  }

  lemma Alpha24()
    ensures Alpha(24) == 143
  {
    Alpha12();
    hide Alpha;
    AlphaFour(12, 205, 135, 19, 38, 76);
    AlphaFour(16, 76, 152, 45, 90, 180);
    AlphaFour(20, 180, 117, 234, 201, 143);
  }

  lemma Alpha36()
    ensures Alpha(36) == 37
  {
    Alpha24();
    hide Alpha;
    AlphaFour(24, 143, 3, 6, 12, 24);
    AlphaFour(28, 24, 48, 96, 192, 157);
    AlphaFour(32, 157, 39, 78, 156, 37);
  }

  lemma Alpha48()
    ensures Alpha(48) == 70
  {
    Alpha36();
    hide Alpha;
    AlphaFour(36, 37, 74, 148, 53, 106);
    AlphaFour(40, 106, 212, 181, 119, 238);
    AlphaFour(44, 238, 193, 159, 35, 70);
  }

  lemma Alpha60()
    ensures Alpha(60) == 185
  {
    Alpha48();
    hide Alpha;
    AlphaFour(48, 70, 140, 5, 10, 20);
    AlphaFour(52, 20, 40, 80, 160, 93);
    AlphaFour(56, 93, 186, 105, 210, 185);
  }

  lemma Alpha68()
    ensures Alpha(68) == 153
  {
    Alpha60();
    hide Alpha;
    AlphaFour(60, 185, 111, 222, 161, 95);
    AlphaFour(64, 95, 190, 97, 194, 153);
  }

  lemma AlphaNext(i: nat, a: GF, b: GF)
    requires Alpha(i) == a && Reduced(a) == b
    ensures Alpha(i + 1) == b
  {
    TimesXReduced(a);
  }

  lemma AlphaSeventeen()
    ensures Alpha(15) == 38 && Alpha(17) == 152
  {
    Alpha12();
    hide Alpha;
    AlphaNext(12, 205, 135); AlphaNext(13, 135, 19); AlphaNext(14, 19, 38);
    AlphaNext(15, 38, 76); AlphaNext(16, 76, 152);
  }

  /** alpha^17 generates the subfield of sixteen elements: it is a root of y^4 + y + 1. */
  lemma Subfield()
    ensures Alpha(68) == Add(Alpha(17), 1)
  {
    hide *;
    AlphaSeventeen();
    Alpha68();
    AddComm(152, 1);
    AddBit(76);
  }

  /** If b^4 = b + 1 then b^15 = 1, while b^3 and b^5 are not 1; here b = alpha^17. */
  lemma SubfieldOrder()
    requires Alpha(68) == Add(Alpha(17), 1)
    ensures Alpha(255) == 1 && Alpha(51) != 1 && Alpha(85) != 1
  {
    assert Alpha(0) == 1;
    hide *;
    var b := Alpha(17);
    var b2 := Alpha(34);
    var g := Alpha(85);
    AlphaAdd(17, 17); AlphaAdd(68, 17); AlphaAdd(51, 17); AlphaAdd(85, 85); AlphaAdd(85, 170);
    MulAddLeft(b, 1, b); MulOne(b);
    assert g == Add(b2, b);
    SubfieldTenth(b2);
    AddComm(Alpha(68), b2); AddAssoc(b2, b, 1);
    assert Alpha(170) == Add(g, 1);
    MulAddRight(g, g, 1); MulOne(g);
    AddComm(Add(g, 1), g); AddCancel(1, g); AddComm(g, 1);
    if Alpha(51) == 1 { MulOne(b); AddCancel(1, b); AddComm(b, 1); AddSelf(b); }
    if g == 1 { MulOne(1); AddSelf(1); }
  }

  lemma SubfieldTenth(b2: GF)
    requires Alpha(68) == Add(Alpha(17), 1) && b2 == Alpha(34)
    ensures Alpha(170) == Add(Alpha(68), b2)
  {
    hide *;
    var b := Alpha(17);
    AlphaAdd(17, 17); AlphaAdd(34, 34); AlphaAdd(68, 68); AlphaAdd(136, 34);
    MulAddLeft(b, 1, Add(b, 1)); MulAddRight(b, b, 1); MulOne(b); MulOne(Add(b, 1));
    AddCancelMiddle(b2, b, 1);
    assert Alpha(136) == Add(b2, 1);
    MulAddLeft(b2, 1, b2); MulOne(b2);
  }

  lemma AlphaOrder()
    ensures Alpha(255) == 1 && Alpha(15) != 1 && Alpha(51) != 1 && Alpha(85) != 1
  {
    hide *;
    Subfield();
    SubfieldOrder();
    AlphaSeventeen();
  }

  lemma AddCancelMiddle(a: GF, b: GF, c: GF)
    ensures Add(Add(a, b), Add(b, c)) == Add(a, c)
  {
    hide *;
    AddAssoc(Add(a, b), b, c); AddCancel(a, b);
  }

  /** Two periods have a common divisor that is a period. */
  lemma {:induction false} CommonPeriod(m: nat, n: nat) returns (g: nat, p: nat, q: nat)
    requires m > 0 && n > 0 && Alpha(m) == 1 && Alpha(n) == 1
    ensures g * p == m && g * q == n && Alpha(g) == 1
    decreases m + n
  {
    hide *;
    if m == n {
      g, p, q := m, 1, 1;
    } else if m < n {
      AlphaAdd(m, n - m); MulOne(Alpha(n - m));
      g, p, q := CommonPeriod(m, n - m);
      q := q + p;
    } else {
      AlphaAdd(n, m - n); MulOne(Alpha(m - n));
      g, p, q := CommonPeriod(m - n, n);
      p := p + q;
    }
  }

  lemma ProductAtLeast(g: nat, q: nat, a: nat, b: nat)
    requires a <= g && b <= q
    ensures a * b <= g * q
  {
    assert a * b <= g * b <= g * q;
  }

  /** A proper divisor of 255 divides 15, 51 or 85. */
  lemma ProperDivisor(g: nat, q: nat) returns (r: nat)
    requires g * q == 255 && g < 255
    ensures g * r == 15 || g * r == 51 || g * r == 85
  {
    if q <= 15 {
      SmallCofactor(g, q);
      r := if q == 15 then 3 else 1;
    } else {
      if g > 15 { ProductAtLeast(g, q, 16, 16); }
      SmallCofactor(q, g);
      r := if g == 15 then 1 else if g == 5 then 3 else if g == 3 then 5 else 15;
    }
  }

  lemma SmallCofactor(g: nat, q: nat)
    requires g * q == 255 && q <= 15
    ensures (q == 1 && g == 255) || (q == 3 && g == 85) || (q == 5 && g == 51) || (q == 15 && g == 17)
  {
    assert q == 1 || q == 2 || q == 3 || q == 4 || q == 5 || q == 6 || q == 7 || q == 8 || q == 9
        || q == 10 || q == 11 || q == 12 || q == 13 || q == 14 || q == 15;
  }

  lemma {:induction false} AlphaMultiple(g: nat, r: nat)
    requires Alpha(g) == 1
    ensures Alpha(g * r) == 1
    decreases r
  {
    if r == 0 {
      assert Alpha(0) == 1;
    } else {
      AlphaMultiple(g, r - 1);
      hide *;
      AlphaAdd(g * (r - 1), g);
      assert g * (r - 1) + g == g * r;
      MulOne(1);
    }
  }

  lemma NoShorterPeriod(d: nat)
    requires 0 < d < 255
    ensures Alpha(d) != 1
  {
    hide *;
    AlphaOrder();
    if Alpha(d) == 1 {
      var g, p, q := CommonPeriod(d, 255);
      ProductAtLeast(g, p, g, if p == 0 then 0 else 1);
      var r := ProperDivisor(g, q);
      AlphaMultiple(g, r);
    }
  }

  lemma AlphaDistinct(i: nat, j: nat)
    requires i < j < 255
    ensures Alpha(i) != Alpha(j)
  {
    hide *;
    NoShorterPeriod(j - i);
    if Alpha(i) == Alpha(j) { AlphaShift(i, j - i); }
  }

  lemma AlphaShift(i: nat, d: nat)
    requires Alpha(i + d) == Alpha(i)
    ensures Alpha(d) == 1
  {
    hide *;
    AlphaAdd(i, d);
    MulAddRight(Alpha(i), Alpha(d), 1);
    MulOne(Alpha(i)); AddSelf(Alpha(i));
    AlphaCancel(i, Add(Alpha(d), 1));
    AddCancel(Alpha(d), 1); AddZero(1);
  }

  // ---------- logarithms and inverses ----------

  ghost function UpTo(n: nat): (s: set<int>)
    ensures |s| == n
    ensures forall i :: i in s <==> 1 <= i <= n
  {
    if n == 0 then {} else UpTo(n - 1) + {n}
  }

  ghost function FirstPowers(n: nat): set<int> {
    set i: nat | i < n :: Alpha(i)
  }

  lemma {:induction false} FirstPowersCount(n: nat)
    requires n <= 255
    ensures |FirstPowers(n)| == n
  {
    hide Alpha;
    if n > 0 {
      FirstPowersCount(n - 1);
      forall i: nat | i < n - 1
        ensures Alpha(i) != Alpha(n - 1)
      {
        AlphaDistinct(i, n - 1);
      }
      assert FirstPowers(n) == FirstPowers(n - 1) + {Alpha(n - 1)};
    }
  }

  /** Every nonzero element is a power of alpha. */
  lemma AlphaSurjective(a: GF)
    requires a != 0
    ensures exists i :: 0 <= i < 255 && Alpha(i) == a
  {
    hide Alpha;
    var s, t := FirstPowers(255), UpTo(255);
    FirstPowersCount(255);
    forall x | x in s
      ensures x in t
    {
      var i :| 0 <= i < 255 && Alpha(i) == x;
      AlphaNonzero(i);
    }
    SubsetFull(s, t);
    assert a in t;
  }

  lemma SubsetFull<T>(s: set<T>, t: set<T>)
    requires s <= t && |s| == |t|
    ensures s == t
  {
    assert |t - s| == |t| - |s|;
  }

  /** The exponent of a nonzero element. */
  ghost function Log(a: GF): (i: nat)
    requires a != 0
    ensures i < 255 && Alpha(i) == a
  {
    AlphaSurjective(a);
    var i :| 0 <= i < 255 && Alpha(i) == a;
    i
  }

  lemma LogAlpha(i: nat)
    requires i < 255
    ensures Alpha(i) != 0 && Log(Alpha(i)) == i
  {
    hide *;
    AlphaNonzero(i);
    var j := Log(Alpha(i));
    if i < j { AlphaDistinct(i, j); } else if j < i { AlphaDistinct(j, i); }
  }

  /** The multiplicative inverse; 0 for 0, as the table of the code has it. */
  ghost function Inv(a: GF): (b: GF)
  {
    if a == 0 then 0 else Alpha(255 - Log(a))
  }

  lemma InvCorrect(a: GF)
    requires a != 0
    ensures Mul(a, Inv(a)) == 1 && Mul(Inv(a), a) == 1 && Inv(a) != 0
  {
    AlphaAdd(Log(a), 255 - Log(a));
    AlphaOrder();
    MulComm(a, Inv(a));
    MulZero(a);
  }

  lemma NoZeroDivisors(a: GF, b: GF)
    requires Mul(a, b) == 0
    ensures a == 0 || b == 0
  {
    if a != 0 { AlphaCancel(Log(a), b); }
  }

  lemma AlphaPeriodic(i: nat)
    ensures Alpha(i) == Alpha(i % 255)
  {
    hide *;
    var q := i / 255;
    AlphaOrder();
    AlphaMultiple(255, q);
    AlphaAdd(255 * q, i % 255);
    MulOne(Alpha(i % 255));
  }

  /** Multiplication of nonzero elements adds exponents modulo 255. */
  lemma MulLogs(a: GF, b: GF)
    requires a != 0 && b != 0
    ensures Mul(a, b) == Alpha((Log(a) + Log(b)) % 255)
  {
    hide *;
    AlphaAdd(Log(a), Log(b)); AlphaPeriodic(Log(a) + Log(b));
  }
}
