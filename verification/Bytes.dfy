// Bytes and the exclusive-or of bytes, written on integers.
module Bytes {
  type Byte = x: int | 0 <= x < 256

  function Pow2(k: nat): (p: nat)
    ensures p > 0
  {
    if k == 0 then 1 else 2 * Pow2(k - 1)
  }

  /** Bitwise exclusive or. */
  function Xor(a: nat, b: nat): nat
    decreases a, b
  {
    if a == 0 then b
    else if b == 0 then a
    else (if a % 2 == b % 2 then 0 else 1) + 2 * Xor(a / 2, b / 2)
  }

  lemma XorStep(a: nat, b: nat)
    ensures Xor(a, b) == (if a % 2 == b % 2 then 0 else 1) + 2 * Xor(a / 2, b / 2)
  {
  }

  /** Low bit and remaining bits of an exclusive or. */
  lemma XorBits(a: nat, b: nat)
    ensures Xor(a, b) / 2 == Xor(a / 2, b / 2)
    ensures Xor(a, b) % 2 == 0 <==> a % 2 == b % 2
  {
    XorStep(a, b);
    hide Xor;
  }

  lemma {:induction false} XorComm(a: nat, b: nat)
    ensures Xor(a, b) == Xor(b, a)
    decreases a
  {
    if a != 0 && b != 0 { XorComm(a / 2, b / 2); }
  }

  lemma {:induction false} XorAssoc(a: nat, b: nat, c: nat)
    ensures Xor(Xor(a, b), c) == Xor(a, Xor(b, c))
    decreases a
  {
    if a != 0 {
      XorAssoc(a / 2, b / 2, c / 2);
      hide Xor;
      XorBits(a, b); XorBits(b, c);
      XorStep(Xor(a, b), c); XorStep(a, Xor(b, c));
    }
  }

  lemma {:induction false} XorSelf(a: nat)
    ensures Xor(a, a) == 0
  {
    if a != 0 { XorSelf(a / 2); }
  }

  /** The top bit, and the range, of an exclusive or of numbers below 2 * Pow2(k). */
  lemma {:induction false} XorTop(k: nat, a: nat, b: nat)
    requires a < 2 * Pow2(k) && b < 2 * Pow2(k)
    ensures Xor(a, b) < 2 * Pow2(k)
    ensures Xor(a, b) >= Pow2(k) <==> (a >= Pow2(k)) != (b >= Pow2(k))
    decreases k
  {
    XorStep(a, b);
    if k > 0 {
      XorTop(k - 1, a / 2, b / 2);
      hide Xor;
    }
  }

  lemma XorByte(a: Byte, b: Byte)
    ensures Xor(a, b) < 256
    ensures Xor(a, b) >= 128 <==> (a >= 128) != (b >= 128)
  {
    assert Pow2(7) == 128;
    XorTop(7, a, b);
  }

  lemma Halves(a: nat, x: nat)
    requires x < 2
    ensures (2 * a + x) / 2 == a && (2 * a + x) % 2 == x
  {}

  /** Exclusive or from its value without the lowest bits. */
  lemma XorLast(a: nat, x: nat, b: nat, y: nat)
    requires x < 2 && y < 2
    ensures Xor(2 * a + x, 2 * b + y) == 2 * Xor(a, b) + if x == y then 0 else 1
  {
    Halves(a, x); Halves(b, y);
    XorStep(2 * a + x, 2 * b + y);
    hide *;
  }

  lemma XorEven(l: nat, m: nat)
    ensures Xor(l, 2 * m) == l % 2 + 2 * Xor(l / 2, m)
  {
    Halves(m, 0);
    XorStep(l, 2 * m);
    hide *;
  }

  /** A byte is the exclusive or of its low and its high nibble. */
  lemma XorNibbles(x: Byte)
    ensures Xor(x % 16, x / 16 * 16) == x
  {
    var l, h := x % 16, x / 16;
    var l1 := l / 2;
    var l2 := l1 / 2;
    var l3 := l2 / 2;
    XorEven(l, 8 * h); XorEven(l1, 4 * h); XorEven(l2, 2 * h); XorEven(l3, h);
    assert Xor(0, h) == h;
    hide *;
    assert l3 / 2 == 0;
  }
}
