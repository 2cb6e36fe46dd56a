/** `_invert_vdm` of src/zfex.c: what its coefficient loop and its synthetic division
    compute, and exactly when that is the inverse of the Vandermonde matrix. */
module Vandermonde {
  import opened Sequences
  import opened Bytes
  import opened GaloisField
  import opened GaloisPowers
  import opened LinearAlgebra
  import opened Polynomials

  /** Row i holds the powers of the point p[i]. */
  function VandermondeMatrix(p: seq<GF>): (m: Mat)
    ensures IsMat(m, |p|, |p|)
  {
    seq(|p|, i requires 0 <= i < |p| => PowRow(p[i], |p|))
  }

  lemma VandermondeProduct(p: seq<GF>, q: Vec, i: nat)
    requires |q| == |p| && i < |p|
    ensures Dot(VandermondeMatrix(p)[i], q) == Eval(q, p[i])
  {
    EvalDot(q, p[i]);
  }

  /** With distinct points the matrix is nonsingular. */
  lemma VandermondeNonsingular(p: seq<GF>)
    requires Distinct(p)
    ensures Nonsingular(VandermondeMatrix(p), |p|)
  {
    var m, k := VandermondeMatrix(p), |p|;
    hide Dot, Eval;
    forall x: Vec | |x| == k && Maps(m, x, Zeros(k))
      ensures x == Zeros(k)
    {
      forall i | 0 <= i < k
        ensures Eval(x, p[i]) == 0
      {
        VandermondeProduct(p, x, i);
      }
      TooManyRoots(x, p);
    }
  }

  // ---------- what the code computes ----------

  /** The coefficients, leading 1 included, that the first loop builds from n points.
      From the second point on, the constant coefficient is left at zero. */
  function CodeCoeffs(p: seq<GF>, n: nat): (c: Vec)
    requires 1 <= n <= |p|
    ensures |c| == n + 1
  {
    if n == 1 then [p[0], 1] else TimesRoot(CodeCoeffs(p, n - 1), p[n - 1])[0 := 0]
  }

  /** The quotient that the synthetic division for one point leaves in b. */
  function CodeQuotient(p: seq<GF>, row: nat): (b: Vec)
    requires row < |p|
    ensures |b| == |p|
  {
    Quotient(CodeCoeffs(p, |p|), p[row])
  }

  ghost function CodeColumn(p: seq<GF>, row: nat): (v: Vec)
    requires row < |p|
    ensures |v| == |p|
  {
    Scaled(Inv(Eval(CodeQuotient(p, row), p[row])), CodeQuotient(p, row))
  }

  /** The matrix that the code stores. */
  ghost function CodeInverse(p: seq<GF>): (r: Mat)
    ensures IsMat(r, |p|, |p|)
    ensures forall row :: 0 <= row < |p| ==> Column(r, row) == CodeColumn(p, row)
  {
    var k := |p|;
    var r: Mat := seq(k, col requires 0 <= col < k => CodeInverseRow(p, col));
    assert forall row :: 0 <= row < k ==> Column(r, row) == CodeColumn(p, row);
    r
  }

  ghost function CodeInverseRow(p: seq<GF>, col: nat): (r: Vec)
    requires col < |p|
    ensures |r| == |p| && forall row :: 0 <= row < |p| ==> r[row] == CodeColumn(p, row)[col]
  {
    seq(|p|, row requires 0 <= row < |p| => CodeColumn(p, row)[col])
  }

  // ---------- the coefficients compared with the true product ----------

  /** Coefficient i, zero outside the stored range. */
  function CoefficientAt(q: Vec, i: int): GF {
    if 0 <= i < |q| then q[i] else 0
  }

  lemma TimesRootCoefficient(q: Vec, r: GF, i: int)
    ensures CoefficientAt(TimesRoot(q, r), i) == Add(CoefficientAt(q, i - 1), Mul(r, CoefficientAt(q, i)))
  {
    hide Add, Mul;
    MulZero(r); AddZero(0);
  }

  /** The product of X + p[i] for 2 <= i < n. */
  function Tail(p: seq<GF>, n: nat): (q: Vec)
    requires 2 <= n <= |p|
    ensures |q| == n - 1
  {
    if n == 2 then [1] else TimesRoot(Tail(p, n - 1), p[n - 1])
  }

  lemma {:induction false} TailMonic(p: seq<GF>, n: nat)
    requires 2 <= n <= |p|
    ensures Tail(p, n)[n - 2] == 1
  {
    hide Add, Mul;
    if n > 2 {
      TailMonic(p, n - 1);
      TimesRootCoefficient(Tail(p, n - 1), p[n - 1], n - 2);
      MulZero(p[n - 1]); AddZero(1);
    }
  }

  lemma SplitCoefficient(e: GF, r: GF, c: GF, t: GF, c': GF, t': GF)
    ensures Add(Add(c, Mul(e, t)), Mul(r, Add(c', Mul(e, t'))))
            == Add(Add(c, Mul(r, c')), Mul(e, Add(t, Mul(r, t'))))
  {
    hide *;
    MulAddRight(r, c', Mul(e, t'));
    AddSwap(c, Mul(e, t), Mul(r, c'), Mul(r, Mul(e, t')));
    MulAssoc(r, e, t'); MulComm(r, e); MulAssoc(e, r, t');
    MulAddRight(e, t, Mul(r, t'));
  }

  /** From the third point on the dropped constant coefficient is zero anyway. */
  lemma UnfoldCode(p: seq<GF>, n: nat)
    requires 3 <= n <= |p|
    ensures CodeCoeffs(p, n) == TimesRoot(CodeCoeffs(p, n - 1), p[n - 1])
  {
    var c := CodeCoeffs(p, n - 1);
    assert c[0] == 0;
    TimesRootCoefficient(c, p[n - 1], 0);
    MulZero(p[n - 1]);
    hide Mul;
    AddZero(0);
  }

  lemma UnfoldTail(p: seq<GF>, n: nat)
    requires 3 <= n <= |p|
    ensures Tail(p, n) == TimesRoot(Tail(p, n - 1), p[n - 1])
  {}

  /** The true product exceeds the code's polynomial by p[0] p[1] times the other factors. */
  lemma {:induction false} CoeffsDiffer(p: seq<GF>, n: nat, i: int)
    requires 2 <= n <= |p|
    ensures CoefficientAt(RootProduct(p, n), i) == Add(CoefficientAt(CodeCoeffs(p, n), i), Mul(Mul(p[0], p[1]), CoefficientAt(Tail(p, n), i)))
    decreases n
  {
    if n == 2 {
      CoeffsOfTwo(p, i);
    } else {
      hide *;
      var e, r := Mul(p[0], p[1]), p[n - 1];
      var a, c, t := RootProduct(p, n - 1), CodeCoeffs(p, n - 1), Tail(p, n - 1);
      UnfoldRootProduct(p, n); UnfoldCode(p, n); UnfoldTail(p, n);
      TimesRootCoefficient(a, r, i); TimesRootCoefficient(c, r, i); TimesRootCoefficient(t, r, i);
      CoeffsDiffer(p, n - 1, i - 1); CoeffsDiffer(p, n - 1, i);
      SplitCoefficient(e, r, CoefficientAt(c, i - 1), CoefficientAt(t, i - 1), CoefficientAt(c, i), CoefficientAt(t, i));
    }
  }

  lemma UnfoldRootProduct(p: seq<GF>, n: nat)
    requires 1 <= n <= |p|
    ensures RootProduct(p, n) == TimesRoot(RootProduct(p, n - 1), p[n - 1])
  {}

  lemma CoeffsOfTwo(p: seq<GF>, i: int)
    requires |p| >= 2
    ensures CoefficientAt(RootProduct(p, 2), i) == Add(CoefficientAt(CodeCoeffs(p, 2), i), Mul(Mul(p[0], p[1]), CoefficientAt(Tail(p, 2), i)))
  {
    var one: Vec := [1];
    var u, v := p[0], p[1];
    var a := RootProduct(p, 1);
    assert RootProduct(p, 0) == one;
    assert a == TimesRoot(one, u);
    assert a == [u, 1] by {
      TimesRootCoefficient(one, u, 0); TimesRootCoefficient(one, u, 1);
      hide Add, Mul;
      MulOne(u); MulZero(u); AddZero(u); AddZero(1);
      assert a[0] == CoefficientAt(a, 0) && a[1] == CoefficientAt(a, 1);
    }
    assert CodeCoeffs(p, 1) == a;
    TimesRootCoefficient(a, v, i);
    hide Add, Mul;
    var e := Mul(u, v);
    MulComm(u, v); MulOne(e); MulZero(e); AddZero(e);
    AddZero(CoefficientAt(TimesRoot(a, v), i));
    AddZero(Mul(v, u));
  }

  // ---------- exactly when the stored matrix is the inverse ----------

  /** The code's polynomial agrees with the true product but for the constant. */
  ghost predicate CoeffsAgree(p: seq<GF>)
    requires |p| >= 1
  {
    forall j :: 1 <= j <= |p| ==> CodeCoeffs(p, |p|)[j] == RootProduct(p, |p|)[j]
  }

  lemma CoeffsAgreeExactly(p: seq<GF>)
    requires |p| >= 2
    ensures CoeffsAgree(p) <==> |p| == 2 || p[0] == 0 || p[1] == 0
  {
    var k := |p|;
    var e := Mul(p[0], p[1]);
    var a, c, t := RootProduct(p, k), CodeCoeffs(p, k), Tail(p, k);
    hide Add, Mul, RootProduct, CodeCoeffs, Tail;
    MulZero(p[0]); MulZero(p[1]); MulZero(e); 
    if |p| == 2 || p[0] == 0 || p[1] == 0 {
      forall j | 1 <= j <= k
        ensures c[j] == a[j]
      {
        CoeffsDiffer(p, k, j);
        MulZero(CoefficientAt(t, j)); AddZero(c[j]);
      }
    } else if CoeffsAgree(p) {
      CoeffsDiffer(p, k, k - 2);
      TailMonic(p, k);
      MulOne(e);
      assert Add(c[k - 2], e) == c[k - 2];
      AddComm(c[k - 2], e); AddCancel(e, c[k - 2]); AddSelf(c[k - 2]);
      NoZeroDivisors(p[0], p[1]);
    }
  }

  lemma {:induction false} QuotientFrame(q: Vec, q': Vec, r: GF)
    requires |q| == |q'| >= 1 && q[1..] == q'[1..]
    ensures Quotient(q, r) == Quotient(q', r)
  {}

  lemma {:induction false} QuotientMonic(q: Vec, r: GF)
    requires |q| >= 2 && q[|q| - 1] == 1
    ensures Quotient(q, r)[|q| - 2] == 1
  {
    hide Add, Mul;
    if |q| == 2 {
      assert q[1..] == [1];
      MulZero(r); AddZero(1);
      assert Eval(q[1..][1..], r) == 0;
    } else {
      QuotientMonic(q[1..], r);
    }
  }

  /** Coefficient j of the dividend, recovered from two neighbours of the quotient. */
  lemma {:induction false} QuotientBack(q: Vec, r: GF, j: nat)
    requires |q| >= 2 && 1 <= j < |q|
    ensures CoefficientAt(Quotient(q, r), j - 1) == Add(q[j], Mul(r, CoefficientAt(Quotient(q, r), j)))
  {
    hide Add, Mul;
    if j == 1 {
      assert Quotient(q, r)[0] == Eval(q[1..], r);
      if |q| == 2 { assert q[1..][1..] == []; } else { assert q[1..][1..] == q[2..]; assert Quotient(q, r)[1] == Eval(q[2..], r); }
    } else {
      QuotientBack(q[1..], r, j - 1);
      var all, rest := Quotient(q, r), Quotient(q[1..], r);
      assert all[1..] == rest;
      assert CoefficientAt(all, j - 1) == CoefficientAt(rest, j - 2) && CoefficientAt(all, j) == CoefficientAt(rest, j - 1);
    }
  }

  /** The column for one point does what a column of the inverse must. */
  ghost predicate ColumnCorrect(p: seq<GF>, row: nat)
    requires row < |p|
  {
    forall i :: 0 <= i < |p| ==> Eval(CodeColumn(p, row), p[i]) == if i == row then 1 else 0
  }

  lemma ColumnMapped(p: seq<GF>, row: nat)
    requires row < |p|
    ensures Maps(VandermondeMatrix(p), Column(CodeInverse(p), row), Unit(|p|, row)) <==> ColumnCorrect(p, row)
  {
    var m, v, k := VandermondeMatrix(p), CodeColumn(p, row), |p|;
    assert Column(CodeInverse(p), row) == v;
    hide Dot, Eval, VandermondeMatrix, CodeInverse, CodeColumn;
    forall i | 0 <= i < k
      ensures Dot(m[i], v) == Eval(v, p[i])
    {
      VandermondeProduct(p, v, i);
    }
  }

  lemma ColumnsMapped(p: seq<GF>)
    ensures RightInverse(VandermondeMatrix(p), CodeInverse(p), |p|)
            <==> forall row :: 0 <= row < |p| ==> ColumnCorrect(p, row)
  {
    forall row | 0 <= row < |p|
      ensures Maps(VandermondeMatrix(p), Column(CodeInverse(p), row), Unit(|p|, row)) <==> ColumnCorrect(p, row)
    {
      ColumnMapped(p, row);
    }
    hide Maps, ColumnCorrect, VandermondeMatrix, CodeInverse;
  }

  lemma InverseByColumnsCorrect(p: seq<GF>)
    requires Distinct(p)
    ensures Inverse(VandermondeMatrix(p), CodeInverse(p), |p|) <==> forall row :: 0 <= row < |p| ==> ColumnCorrect(p, row)
  {
    hide *;
    VandermondeNonsingular(p);
    InverseByColumns(VandermondeMatrix(p), CodeInverse(p), |p|);
    ColumnsMapped(p);
  }

  lemma CodeColumnValue(p: seq<GF>, row: nat, x: GF)
    requires row < |p|
    ensures var b := CodeQuotient(p, row);
            Eval(CodeColumn(p, row), x) == Mul(Inv(Eval(b, p[row])), Eval(b, x))
  {
    hide Eval, Inv, Mul;
    var b := CodeQuotient(p, row);
    EvalScale(b, Inv(Eval(b, p[row])), CodeColumn(p, row), x);
  }

  /** When the coefficients agree, every column is right. */
  lemma AgreeColumn(p: seq<GF>, row: nat)
    requires |p| >= 2 && Distinct(p) && CoeffsAgree(p) && row < |p|
    ensures ColumnCorrect(p, row)
  {
    var k, r := |p|, p[row];
    var c, a, b := CodeCoeffs(p, k), RootProduct(p, k), CodeQuotient(p, row);
    assert c[1..] == a[1..];
    QuotientFrame(c, a, r);
    assert b == Quotient(a, r);
    RootProductMonic(p, k);
    QuotientMonic(a, r);
    hide Add, Mul, Inv, Eval, RootProduct, CodeCoeffs, Quotient, CodeQuotient, CodeColumn;
    var t := Eval(b, r);
    forall i | 0 <= i < k && i != row
      ensures Eval(b, p[i]) == 0
    {
      RootProductRoots(p, k, i); RootProductRoots(p, k, row);
      QuotientCorrect(a, r, p[i]);
      AddZero(Mul(Add(p[i], r), Eval(b, p[i])));
      NoZeroDivisors(Add(p[i], r), Eval(b, p[i]));
      AddCancel(p[i], r); AddZero(r);
    }
    if t == 0 { TooManyRoots(b, p); }
    InvCorrect(t);
    forall i | 0 <= i < k
      ensures Eval(CodeColumn(p, row), p[i]) == if i == row then 1 else 0
    {
      CodeColumnValue(p, row, p[i]);
      MulZero(Inv(t));
    }
  }

  /** Conversely, one right column forces the coefficients to agree. */
  lemma ColumnAgrees(p: seq<GF>)
    requires |p| >= 2 && Distinct(p) && ColumnCorrect(p, 0)
    ensures CoeffsAgree(p)
  {
    var k, r := |p|, p[0];
    var c, b := CodeCoeffs(p, k), CodeQuotient(p, 0);
    assert b == Quotient(c, r);
    CodeMonic(p, k);
    QuotientMonic(c, r);
    var s := TimesRoot(b, r);
    var ti := Inv(Eval(b, r));
    hide Add, Mul, Inv, Eval, RootProduct, CodeCoeffs, Quotient, CodeQuotient, CodeColumn, TimesRoot;
    CodeColumnValue(p, 0, p[0]);
    MulZero(Eval(b, r));
    assert ti != 0;
    forall i | 0 <= i < k
      ensures Eval(s, p[i]) == 0
    {
      TimesRootEval(b, r, p[i]);
      CodeColumnValue(p, 0, p[i]);
      if i == 0 { AddSelf(r); } else { NoZeroDivisors(ti, Eval(b, p[i])); }
      MulZero(Eval(b, p[i])); MulZero(Add(p[i], r));
    }
    TimesRootCoefficient(b, r, k); MulZero(r); AddZero(1);
    assert CoefficientAt(s, k) == s[k];
    MonicRoots(s, p);
    forall j | 1 <= j < k
      ensures c[j] == s[j]
    {
      TimesRootCoefficient(b, r, j);
      QuotientBack(c, r, j);
      AddCancel(c[j], Mul(r, CoefficientAt(b, j)));
      assert s[j] == CoefficientAt(s, j);
    }
  }

  lemma {:induction false} CodeMonic(p: seq<GF>, n: nat)
    requires 1 <= n <= |p|
    ensures CodeCoeffs(p, n)[n] == 1
  {
    hide Add, Mul;
    if n > 1 {
      CodeMonic(p, n - 1);
      TimesRootCoefficient(CodeCoeffs(p, n - 1), p[n - 1], n);
      MulZero(p[n - 1]); AddZero(1);
    }
  }

  /** For distinct points, the code inverts the Vandermonde matrix exactly when there are
      two points only, or one of the first two points is zero. */
  lemma CodeInverseExact(p: seq<GF>)
    requires |p| >= 2 && Distinct(p)
    ensures Inverse(VandermondeMatrix(p), CodeInverse(p), |p|) <==> |p| == 2 || p[0] == 0 || p[1] == 0
  {
    hide *;
    InverseByColumnsCorrect(p);
    CoeffsAgreeExactly(p);
    if CoeffsAgree(p) {
      forall row | 0 <= row < |p| ensures ColumnCorrect(p, row) { AgreeColumn(p, row); }
    } else if ColumnCorrect(p, 0) {
      ColumnAgrees(p);
    }
  }

  /** The points 1, 2, 3 are distinct, and the code does not invert their matrix. */
  lemma CodeInverseFails()
    ensures Distinct([1, 2, 3])
    ensures !Inverse(VandermondeMatrix([1, 2, 3]), CodeInverse([1, 2, 3]), 3)
  {
    var p: seq<GF> := [1, 2, 3];
    CodeInverseExact(p);
    hide *;
  }
}
