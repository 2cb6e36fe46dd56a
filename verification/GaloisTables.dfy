/** The lookup tables of src/zfex.c, filled by the loops of `generate_gf` and
    `_init_mul_table` and proved to hold the field operations. */
module GaloisTables {
  import opened Bytes
  import opened GaloisField
  import opened GaloisPowers

  /** Reduction modulo 255 without a division. */
  method Modnn(x: nat) returns (r: GF)
    ensures r == x % 255
  {
    var y := x;
    while y >= 255
      invariant y % 255 == x % 255
      decreases y
    {
      y := y - 255;
      y := y / 256 + y % 256;
    }
    r := y;
  }

  lemma Halved(p: nat, u: nat)
    ensures (2 * p + u) % 2 == u % 2 && (2 * p + u) / 2 == p + u / 2
  {}

  lemma {:induction false} XorAboveTop(k: nat, u: nat, v: nat)
    requires u < Pow2(k) && v < Pow2(k)
    ensures Xor(Pow2(k) + u, Pow2(k) + v) == Xor(u, v)
    decreases k
  {
    if k == 0 {
      XorSelf(1);
    } else {
      var p := Pow2(k - 1);
      Halved(p, u); Halved(p, v);
      XorAboveTop(k - 1, u / 2, v / 2);
      XorSteps(2 * p + u, 2 * p + v, u, v);
      hide *;
    }
  }

  /** Numbers with equal last bits have equal exclusive ors, if the rest has. */
  lemma XorSteps(a: nat, b: nat, u: nat, v: nat)
    requires a % 2 == u % 2 && b % 2 == v % 2 && Xor(a / 2, b / 2) == Xor(u / 2, v / 2)
    ensures Xor(a, b) == Xor(u, v)
  {
    XorStep(a, b); XorStep(u, v);
    hide *;
  }

  lemma {:induction false} XorNewTop(k: nat, u: nat)
    requires u < Pow2(k)
    ensures Xor(u, Pow2(k)) == u + Pow2(k)
    decreases k
  {
    if k > 0 {
      XorNewTop(k - 1, u / 2);
      XorStep(u, Pow2(k));
      hide Xor;
    }
  }

  /** The step of the power loop: shift left, and fold the overflow back in. */
  lemma NextPower(a: GF)
    requires a >= 128
    ensures Add(a, 128) == a - 128
    ensures Add(29, 2 * (a - 128)) == TimesX(a)
  {
    assert Pow2(7) == 128;
    assert Pow2(8) == 256;
    XorAboveTop(7, a - 128, 0);
    XorAboveTop(8, 2 * (a - 128), 29);
    assert Xor(a - 128, 0) == a - 128;
    XorComm(29, 2 * (a - 128));
    hide Xor;
  }

  /** The bits of the reduction polynomial below x^i, as the first loop collects them. */
  function PolynomialBits(i: nat): GF {
    if i == 0 then 0 else if i <= 2 then 1 else if i == 3 then 5 else if i == 4 then 13 else 29
  }

  lemma PolynomialBit(i: nat)
    requires i < 8
    ensures Pow2(i) < 256
    ensures Add(PolynomialBits(i), Pow2(i)) == PolynomialBits(i) + Pow2(i) || i >= 5
    ensures PolynomialBits(i + 1) == if i == 0 || i == 2 || i == 3 || i == 4
                                     then Add(PolynomialBits(i), Pow2(i)) else PolynomialBits(i)
  {
    assert Pow2(0) == 1 && Pow2(1) == 2 && Pow2(2) == 4 && Pow2(3) == 8;
    assert Pow2(4) == 16 && Pow2(5) == 32;
    assert Pow2(6) == 64 && Pow2(7) == 128;
    if i < 5 { XorNewTop(i, PolynomialBits(i)); }
    hide Xor;
  }

  lemma {:induction false} AlphaShifts(i: nat)
    requires i < 8
    ensures Alpha(i) == Pow2(i) && Pow2(i) <= 128
  {
    if i > 0 { AlphaShifts(i - 1); assert Pow2(i) <= 128 by { PowMono(i, 7); assert Pow2(7) == 128; } }
  }

  lemma {:induction false} PowMono(i: nat, j: nat)
    requires i <= j
    ensures Pow2(i) <= Pow2(j)
    decreases j - i
  {
    if i < j { PowMono(i + 1, j); }
  }

  class Tables {
    const exp: array<GF>
    const log: array<nat>
    const inverse: array<GF>
    const mul: array2<GF>
    const mul16: array2<GF>

    ghost predicate Shapes() {
      && exp.Length == 510 && log.Length == 256 && inverse.Length == 256
      && mul.Length0 == 256 && mul.Length1 == 256
      && mul16.Length0 == 256 && mul16.Length1 == 16
      && exp != inverse && mul != mul16
    }

    /** What `generate_gf` establishes. */
    ghost predicate Generated()
      reads exp, log, inverse
    {
      && Shapes()
      && (forall i :: 0 <= i < 510 ==> exp[i] == Alpha(i % 255))
      && (forall a: GF :: log[a] == if a == 0 then 255 else Log(a))
      && (forall a: GF :: inverse[a] == Inv(a))
    }

    /** What both generators together establish. */
    ghost predicate Ready()
      reads exp, log, inverse, mul, mul16
    {
      && Generated()
      && (forall a: GF, b: GF :: mul[a, b] == Mul(a, b))
      && (forall a: GF, h: int :: 0 <= h < 16 ==> mul16[a, h] == Mul(a, 16 * h))
    }

    /** `gf_mul` */
    function Times(a: GF, b: GF): (c: GF)
      requires Ready()
      reads exp, log, inverse, mul, mul16
      ensures c == Mul(a, b)
    {
      mul[a, b]
    }

    constructor ()
      ensures Shapes() && fresh(exp) && fresh(log) && fresh(inverse) && fresh(mul) && fresh(mul16)
    {
      exp := new GF[510];
      log := new nat[256];
      inverse := new GF[256];
      mul := new GF[256, 256];
      mul16 := new GF[256, 16];
    }

    ghost predicate PowersUpTo(n: nat)
      requires Shapes() && n <= 510
      reads exp
    {
      forall j :: 0 <= j < n ==> exp[j] == Alpha(j)
    }

    ghost predicate LogsUpTo(n: nat)
      requires Shapes()
      reads log
    {
      forall j: nat :: j < n ==> log[Alpha(j)] == j
    }

    /** `generate_gf` */
    method GenerateGf()
      requires Shapes()
      modifies exp, log, inverse
      ensures Generated()
    {
      hide Alpha, TimesX, Xor, Mul, Inv, Add;
      GenerateLowPowers();
      GenerateHighPowers();
      log[0] := 255;
      forall j: nat | j < 255
        ensures log[Alpha(j)] == j
      {
        AlphaNonzero(j);
      }
      for i := 0 to 255
        invariant PowersUpTo(255) && LogsUpTo(255) && log[0] == 255
        invariant forall j :: 0 <= j < i ==> exp[j + 255] == Alpha(j)
      {
        exp[i + 255] := exp[i];
      }
      forall i | 0 <= i < 510
        ensures exp[i] == Alpha(i % 255)
      {
        if i >= 255 { assert exp[i - 255 + 255] == Alpha(i - 255); }
      }
      assert forall a: GF | a != 0 :: log[a] == Log(a) && Alpha(Log(a)) == a;
      GenerateInverses();
    }

    /** The first loop: the powers that are single bits, and the reduction of x^8. */
    method GenerateLowPowers()
      requires Shapes()
      modifies exp, log
      ensures PowersUpTo(9) && LogsUpTo(9)
    {
      hide TimesX, Xor, Mul, Add;
      // coefficients of 1, x, ..., x^8
      var polynomial := "101110001";
      var mask: int := 1;
      exp[8] := 0;
      for i := 0 to 8
        invariant i < 8 ==> mask == Pow2(i)
        invariant PowersUpTo(i) && LogsUpTo(i)
        invariant exp[8] == PolynomialBits(i)
      {
        AlphaShifts(i); PolynomialBit(i);
        exp[i] := mask;
        RecordLog(i, exp[i]);
        if polynomial[i] == '1' {
          exp[8] := Add(exp[8], mask);
        }
        mask := 2 * mask % 256;
        if i < 7 { AlphaShifts(i + 1); }
      }
      AlphaEight();
      RecordLog(8, exp[8]);
    }

    method RecordLog(i: nat, a: GF)
      requires Shapes() && i < 255 && LogsUpTo(i) && a == Alpha(i)
      modifies log
      ensures LogsUpTo(i + 1)
    {
      hide Alpha;
      forall j: nat | j < i
        ensures Alpha(j) != Alpha(i)
      {
        AlphaDistinct(j, i);
      }
      log[a] := i;
    }

    /** The second loop: each power from the one before. */
    method GenerateHighPowers()
      requires Shapes() && PowersUpTo(9) && LogsUpTo(9)
      modifies exp, log
      ensures PowersUpTo(255) && LogsUpTo(255)
    {
      hide Xor, Mul, Add;
      AlphaEight();
      var mask: GF := 128;
      for i := 9 to 255
        invariant PowersUpTo(i) && LogsUpTo(i)
      {
        if exp[i - 1] >= mask {
          NextPower(exp[i - 1]);
          exp[i] := Add(exp[8], 2 * Add(exp[i - 1], mask));
        } else {
          exp[i] := 2 * exp[i - 1];
        }
        RecordLog(i, exp[i]);
      }
    }

    method GenerateInverses()
      requires Shapes()
      requires forall i :: 0 <= i < 510 ==> exp[i] == Alpha(i % 255)
      requires forall a: GF :: log[a] == if a == 0 then 255 else Log(a)
      modifies inverse
      ensures forall a: GF :: inverse[a] == Inv(a)
    {
      hide Alpha;
      LogOne();
      inverse[0] := 0;
      inverse[1] := 1;
      for i := 2 to 256
        invariant forall a: GF :: a < i ==> inverse[a] == Inv(a)
      {
        LogOnlyOne(i);
        inverse[i] := exp[255 - log[i]];
      }
    }

    /** `_init_mul_table` */
    method InitMulTable()
      requires Generated()
      modifies mul, mul16
      ensures Ready()
    {
      hide Alpha, Mul, Inv;
      for i := 0 to 256
        invariant Generated()
        invariant forall a: GF, b: GF :: a < i ==> mul[a, b] == TableEntry(a, b)
      {
        for j := 0 to 256
          invariant Generated()
          invariant forall a: GF, b: GF :: a < i ==> mul[a, b] == TableEntry(a, b)
          invariant forall b: GF :: b < j ==> mul[i, b] == TableEntry(i, b)
        {
          var m := Modnn(log[i] + log[j]);
          mul[i, j] := exp[m];
        }
      }
      for j := 0 to 256
        invariant Generated()
        invariant forall a: GF, b: GF :: mul[a, b] == if (a == 0 && b < j) || (b == 0 && a < j) then 0 else TableEntry(a, b)
      {
        mul[0, j] := 0;
        mul[j, 0] := 0;
      }
      forall a: GF, b: GF
        ensures mul[a, b] == Mul(a, b)
      {
        if a == 0 { MulZero(b); } else if b == 0 { MulZero(a); } else { MulLogs(a, b); }
      }
      InitNibbleTable();
    }

    /** The last loop of `_init_mul_table`: products by multiples of sixteen. */
    method InitNibbleTable()
      requires Generated()
      requires forall a: GF, b: GF :: mul[a, b] == Mul(a, b)
      modifies mul16
      ensures Ready()
    {
      hide Alpha, Mul, Inv;
      for i := 0 to 256
        invariant forall a: GF, b: GF :: mul[a, b] == Mul(a, b)
        invariant forall a: GF, h: int :: a < i && 0 <= h < 16 ==> mul16[a, h] == Mul(a, 16 * h)
      {
        for j := 0 to 16
          invariant forall a: GF, b: GF :: mul[a, b] == Mul(a, b)
          invariant forall a: GF, h: int :: a < i && 0 <= h < 16 ==> mul16[a, h] == Mul(a, 16 * h)
          invariant forall h: int :: 0 <= h < j ==> mul16[i, h] == Mul(i, 16 * h)
        {
          mul16[i, j] := mul[i, 16 * j];
        }
      }
    }

    /** What the first loop of `_init_mul_table` puts at [a][b], zero factors included. */
    ghost function TableEntry(a: GF, b: GF): GF {
      var la := if a == 0 then 255 else Log(a);
      var lb := if b == 0 then 255 else Log(b);
      Alpha((la + lb) % 255)
    }
  }

  /** `init_fec` */
  method InitFec() returns (t: Tables)
    ensures t.Ready()
  {
    t := new Tables();
    t.GenerateGf();
    t.InitMulTable();
  }

  lemma AlphaEight()
    ensures Alpha(8) == 29
  {
    AlphaShifts(7);
    assert Pow2(7) == 128;
    assert Reduced(128) == 29;
    hide Alpha, Pow2;
    AlphaNext(7, 128, 29);
  }

  lemma LogOne()
    ensures Inv(1) == 1 && Inv(0) == 0
  {
    assert Alpha(0) == 1;
    LogAlpha(0);
    hide Alpha;
    AlphaOrder();
  }

  lemma LogOnlyOne(a: GF)
    requires a > 1
    ensures 0 < Log(a)
  {
    assert Alpha(0) == 1;
  }
}
