/** The field of src/zfex.c: bytes as polynomials over GF(2) modulo
    x^8 + x^4 + x^3 + x^2 + 1.  Addition is exclusive or. */
module GaloisField {
  import opened Bytes

  type GF = Byte

  function Add(a: GF, b: GF): GF {
    XorByte(a, b);
    Xor(a, b)
  }

  /** Multiplication by the class of x; 0x11d is the reduction polynomial. */
  function TimesX(a: GF): GF {
    if a < 128 then 2 * a else DoubledTop(a); Xor(2 * a, 0x11d)
  }

  lemma DoubledTop(a: GF)
    requires a >= 128
    ensures Xor(2 * a, 0x11d) < 256
  {
    assert Pow2(8) == 256;
    XorTop(8, 2 * a, 0x11d);
  }

  /** The product, by the binary expansion of the second factor. */
  function Mul(a: GF, b: GF): GF
    decreases b
  {
    if b == 0 then 0 else Add(if b % 2 == 1 then a else 0, TimesX(Mul(a, b / 2)))
  }

  // ---------- addition ----------

  lemma AddZero(a: GF)
    ensures Add(a, 0) == a && Add(0, a) == a
  {}

  lemma AddComm(a: GF, b: GF)
    ensures Add(a, b) == Add(b, a)
  { XorComm(a, b); }

  lemma AddAssoc(a: GF, b: GF, c: GF)
    ensures Add(Add(a, b), c) == Add(a, Add(b, c))
  { XorAssoc(a, b, c); }

  lemma AddSelf(a: GF)
    ensures Add(a, a) == 0
  { XorSelf(a); }

  /** Adding twice undoes itself: subtraction is addition. */
  lemma AddCancel(a: GF, b: GF)
    ensures Add(Add(a, b), b) == a
    ensures Add(b, Add(b, a)) == a
  {
    hide *;
    AddAssoc(a, b, b); AddAssoc(b, b, a); AddSelf(b); AddZero(a);
  }

  lemma AddSwap(a: GF, b: GF, c: GF, d: GF)
    ensures Add(Add(a, b), Add(c, d)) == Add(Add(a, c), Add(b, d))
  {
    hide *;
    AddAssoc(Add(a, b), c, d); AddAssoc(a, b, c); AddComm(b, c); AddAssoc(a, c, b);
    AddAssoc(Add(a, c), b, d);
  }

  // ---------- multiplication ----------

  lemma XorPull(x: nat, y: nat, r: nat)
    ensures Xor(Xor(x, r), y) == Xor(Xor(x, y), r)
    ensures Xor(x, Xor(y, r)) == Xor(Xor(x, y), r)
    ensures Xor(Xor(x, r), Xor(y, r)) == Xor(x, y)
  {
    XorSelf(r);
    assert forall t: nat :: Xor(t, 0) == t;
    hide *;
    XorAssoc(x, r, y); XorComm(r, y); XorAssoc(x, y, r);
    XorAssoc(Xor(x, r), y, r); XorAssoc(Xor(x, y), r, r);
  }

  lemma XorDouble(a: nat, b: nat)
    ensures Xor(2 * a, 2 * b) == 2 * Xor(a, b)
  {
    hide *;
    XorLast(a, 0, b, 0);
  }

  lemma TimesXAdd(a: GF, b: GF)
    ensures TimesX(Add(a, b)) == Add(TimesX(a), TimesX(b))
  {
    hide Xor;
    XorByte(a, b);
    XorDouble(a, b);
    XorPull(2 * a, 2 * b, 0x11d);
  }

  lemma MulStep(a: GF, b: GF)
    ensures Mul(a, b) == Add(if b % 2 == 1 then a else 0, TimesX(Mul(a, b / 2)))
  {
    hide Add;
    if b == 0 { AddZero(0); }
  }

  lemma {:induction false} MulAddLeft(a: GF, b: GF, c: GF)
    ensures Mul(Add(a, b), c) == Add(Mul(a, c), Mul(b, c))
    decreases c
  {
    if c == 0 {
      hide Add; AddZero(0);
    } else {
      var d := c / 2;
      MulAddLeft(a, b, d);
      hide *;
      MulStep(a, c); MulStep(b, c); MulStep(Add(a, b), c);
      TimesXAdd(Mul(a, d), Mul(b, d));
      AddSwap(if c % 2 == 1 then a else 0, TimesX(Mul(a, d)), if c % 2 == 1 then b else 0, TimesX(Mul(b, d)));
      AddZero(0);
    }
  }

  lemma {:induction false} MulAddRight(a: GF, b: GF, c: GF)
    ensures Mul(a, Add(b, c)) == Add(Mul(a, b), Mul(a, c))
    decreases b + c
  {
    if b == 0 && c == 0 {
      hide Add; AddZero(0);
    } else {
      var e, f := b / 2, c / 2;
      MulAddRight(a, e, f);
      XorBits(b, c);
      assert Add(b, c) / 2 == Add(e, f);
      hide *;
      MulStep(a, b); MulStep(a, c); MulStep(a, Add(b, c));
      TimesXAdd(Mul(a, e), Mul(a, f));
      AddSwap(if b % 2 == 1 then a else 0, TimesX(Mul(a, e)), if c % 2 == 1 then a else 0, TimesX(Mul(a, f)));
      AddSelf(a); AddZero(a); AddZero(0);
    }
  }

  lemma {:induction false} MulZero(a: GF)
    ensures Mul(a, 0) == 0 && Mul(0, a) == 0
    decreases a
  {
    hide Add;
    if a != 0 { MulZero(a / 2); AddZero(0); }
  }

  lemma {:induction false} MulOne(a: GF)
    ensures Mul(a, 1) == a && Mul(1, a) == a
    decreases a
  {
    hide Add;
    MulZero(a); MulZero(1); AddZero(a); AddZero(0);
    MulStep(a, 1); MulStep(1, a);
    assert TimesX(0) == 0;
    if a > 1 {
      MulOne(a / 2);
    }
    AddBit(a / 2);
  }

  lemma AddBit(h: GF)
    requires h < 128
    ensures Add(1, 2 * h) == 2 * h + 1
  {
    XorStep(1, 2 * h);
  }

  lemma {:induction false} MulTimesX(a: GF, b: GF)
    ensures Mul(TimesX(a), b) == TimesX(Mul(a, b))
    decreases b
  {
    if b == 0 {
      MulZero(a);
    } else {
      var d := b / 2;
      MulTimesX(a, d);
      assert TimesX(0) == 0;
      hide *;
      MulStep(a, b); MulStep(TimesX(a), b);
      TimesXAdd(if b % 2 == 1 then a else 0, TimesX(Mul(a, d)));
    }
  }

  lemma {:induction false} MulComm(a: GF, b: GF)
    ensures Mul(a, b) == Mul(b, a)
    decreases b
  {
    if b == 0 {
      MulZero(a);
    } else {
      var d := b / 2;
      MulComm(a, d);
      MulTimesX(d, a);
      XorStep(b % 2, 2 * d);
      assert Add(b % 2, TimesX(d)) == b;
      hide *;
      MulStep(a, b);
      MulAddLeft(b % 2, TimesX(d), a);
      MulOne(a); MulZero(a);
    }
  }

  lemma {:induction false} MulAssoc(a: GF, b: GF, c: GF)
    ensures Mul(Mul(a, b), c) == Mul(a, Mul(b, c))
    decreases c
  {
    if c == 0 {
      MulZero(a); MulZero(b); MulZero(Mul(a, b));
    } else {
      var d := c / 2;
      MulAssoc(a, b, d);
      hide *;
      MulStep(Mul(a, b), c); MulStep(b, c);
      MulAddRight(a, if c % 2 == 1 then b else 0, TimesX(Mul(b, d)));
      MulComm(a, TimesX(Mul(b, d))); MulTimesX(Mul(b, d), a); MulComm(Mul(b, d), a);
      MulZero(a);
    }
  }
}
