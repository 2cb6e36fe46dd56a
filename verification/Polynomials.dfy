/** Polynomials over the field, as coefficient sequences with the constant first. */
module Polynomials {
  import opened Sequences
  import opened Bytes
  import opened GaloisField
  import opened GaloisPowers
  import opened LinearAlgebra

  /** The value at x, by Horner's rule. */
  function Eval(q: Vec, x: GF): GF {
    if q == [] then 0 else Add(q[0], Mul(x, Eval(q[1..], x)))
  }

  function Pow(x: GF, n: nat): GF {
    if n == 0 then 1 else Mul(x, Pow(x, n - 1))
  }

  /** The quotient of q by X + r: its coefficient i is the value at r of q shifted by i + 1. */
  function Quotient(q: Vec, r: GF): (s: Vec)
    requires q != []
    ensures |s| == |q| - 1
  {
    if |q| == 1 then [] else [Eval(q[1..], r)] + Quotient(q[1..], r)
  }

  lemma QuotientStep(a: GF, e: GF, x: GF, r: GF, s: GF)
    ensures Add(a, Mul(x, Add(Mul(Add(x, r), s), e)))
            == Add(Mul(Add(x, r), Add(e, Mul(x, s))), Add(a, Mul(r, e)))
  {
    hide *;
    var u := Add(x, r);
    MulAddRight(x, Mul(u, s), e);
    MulAssoc(x, u, s); MulComm(x, u); MulAssoc(u, x, s);
    MulAddRight(u, e, Mul(x, s));
    MulAddLeft(x, r, e);
    var p, q, w := Mul(x, e), Mul(r, e), Mul(u, Mul(x, s));
    // a + (w + p) == ((p + q) + w) + (a + q)
    AddComm(Add(p, q), w); AddAssoc(w, p, q);
    AddComm(a, q); AddAssoc(Add(w, p), q, Add(q, a)); AddCancel(a, q);
    AddComm(Add(w, p), a);
  }

  /** Division with remainder: q(x) = (x + r) s(x) + q(r). */
  lemma {:induction false} QuotientCorrect(q: Vec, r: GF, x: GF)
    requires q != []
    ensures Eval(q, x) == Add(Mul(Add(x, r), Eval(Quotient(q, r), x)), Eval(q, r))
  {
    hide Add, Mul;
    if |q| == 1 {
      MulZero(x); MulZero(r); MulZero(Add(x, r)); AddZero(q[0]);
      assert Eval(q[1..], x) == 0 && Eval(q[1..], r) == 0;
    } else {
      var rest := q[1..];
      QuotientCorrect(rest, r, x);
      var s := Quotient(rest, r);
      var all := Quotient(q, r);
      assert all[0] == Eval(rest, r) && all[1..] == s;
      QuotientStep(q[0], Eval(rest, r), x, r, Eval(s, x));
    }
  }

  /** A polynomial is zero when its quotient and its value are. */
  lemma {:induction false} QuotientZero(q: Vec, r: GF)
    requires q != [] && Eval(q, r) == 0
    requires forall i :: 0 <= i < |q| - 1 ==> Quotient(q, r)[i] == 0
    ensures forall i :: 0 <= i < |q| ==> q[i] == 0
  {
    hide Add, Mul;
    MulZero(r); AddZero(q[0]);
    if |q| > 1 {
      var all := Quotient(q, r);
      assert all[0] == Eval(q[1..], r);
      forall i | 0 <= i < |q| - 2
        ensures Quotient(q[1..], r)[i] == 0
      {
        assert all[i + 1] == Quotient(q[1..], r)[i];
      }
      QuotientZero(q[1..], r);
    }
  }

  ghost predicate Roots(q: Vec, p: seq<GF>) {
    forall i :: 0 <= i < |p| ==> Eval(q, p[i]) == 0
  }

  /** A polynomial with as many distinct roots as coefficients is zero. */
  lemma {:induction false} TooManyRoots(q: Vec, p: seq<GF>)
    requires |q| == |p| && Distinct(p) && Roots(q, p)
    ensures q == Zeros(|q|)
    decreases |q|
  {
    if q != [] {
      var r := p[0];
      var s, rest := Quotient(q, r), p[1..];
      hide Add, Mul, Eval, Quotient;
      forall i | 0 <= i < |rest|
        ensures Eval(s, rest[i]) == 0
      {
        var x := rest[i];
        assert x == p[i + 1];
        QuotientCorrect(q, r, x);
        AddZero(Mul(Add(x, r), Eval(s, x)));
        NoZeroDivisors(Add(x, r), Eval(s, x));
        if Add(x, r) == 0 { AddCancel(x, r); AddZero(r); }
      }
      TooManyRoots(s, rest);
      QuotientZero(q, r);
    }
  }

  // ---------- values as products with the powers of a point ----------

  /** The row 1, x, x^2, ... */
  function PowRow(x: GF, k: nat): (v: Vec)
    ensures |v| == k && forall j :: 0 <= j < k ==> v[j] == Pow(x, j)
  {
    seq(k, j requires 0 <= j => Pow(x, j))
  }

  lemma {:induction false} EvalLast(q: Vec, v: GF, x: GF)
    ensures Eval(q + [v], x) == Add(Eval(q, x), Mul(v, Pow(x, |q|)))
  {
    hide Add, Mul;
    if q == [] {
      assert (q + [v])[1..] == [];
      MulZero(x); AddZero(v); MulOne(v);
    } else {
      assert (q + [v])[1..] == q[1..] + [v];
      EvalLast(q[1..], v, x);
      var e, w := Eval(q[1..], x), Pow(x, |q| - 1);
      MulAddRight(x, e, Mul(v, w));
      AddAssoc(q[0], Mul(x, e), Mul(x, Mul(v, w)));
      MulAssoc(x, v, w); MulComm(x, v); MulAssoc(v, x, w);
    }
  }

  lemma {:induction false} EvalDotTo(q: Vec, x: GF, n: nat)
    requires n <= |q|
    ensures DotTo(q, PowRow(x, |q|), n) == Eval(q[..n], x)
  {
    hide Add, Mul;
    if n > 0 {
      EvalDotTo(q, x, n - 1);
      EvalLast(q[..n - 1], q[n - 1], x);
      assert q[..n] == q[..n - 1] + [q[n - 1]];
    }
  }

  lemma EvalDot(q: Vec, x: GF)
    ensures Dot(PowRow(x, |q|), q) == Eval(q, x)
  {
    EvalDotTo(q, x, |q|);
    DotToComm(q, PowRow(x, |q|), |q|);
    assert q[..|q|] == q;
  }

  lemma {:induction false} EvalScale(q: Vec, s: GF, r: Vec, x: GF)
    requires |r| == |q| && forall i :: 0 <= i < |q| ==> r[i] == Mul(s, q[i])
    ensures Eval(r, x) == Mul(s, Eval(q, x))
  {
    hide Add, Mul;
    if q == [] {
      MulZero(s);
    } else {
      EvalScale(q[1..], s, r[1..], x);
      var e := Eval(q[1..], x);
      MulAddRight(s, q[0], Mul(x, e));
      MulAssoc(s, x, e); MulComm(s, x); MulAssoc(x, s, e);
    }
  }

  lemma {:induction false} EvalSum(q: Vec, r: Vec, s: Vec, x: GF)
    requires |q| == |r| == |s| && forall i :: 0 <= i < |q| ==> s[i] == Add(q[i], r[i])
    ensures Eval(s, x) == Add(Eval(q, x), Eval(r, x))
  {
    hide Add, Mul;
    if q == [] {
      AddZero(0);
    } else {
      EvalSum(q[1..], r[1..], s[1..], x);
      var e, f := Eval(q[1..], x), Eval(r[1..], x);
      MulAddRight(x, e, f);
      AddSwap(q[0], r[0], Mul(x, e), Mul(x, f));
    }
  }

  // ---------- the product of linear factors ----------

  /** Coefficient i of (X + r) q. */
  function TimesRootAt(q: Vec, r: GF, i: nat): GF {
    Add(if 0 < i <= |q| then q[i - 1] else 0, if i < |q| then Mul(r, q[i]) else 0)
  }

  /** (X + r) q */
  function TimesRoot(q: Vec, r: GF): (s: Vec)
    ensures |s| == |q| + 1
    ensures forall i :: 0 <= i <= |q| ==> s[i] == TimesRootAt(q, r, i)
  {
    seq(|q| + 1, i requires 0 <= i => TimesRootAt(q, r, i))
  }

  lemma TimesRootEval(q: Vec, r: GF, x: GF)
    ensures Eval(TimesRoot(q, r), x) == Mul(Add(x, r), Eval(q, x))
  {
    hide Add, Mul;
    var shifted: Vec := [0] + q;
    var scaled: Vec := Scaled(r, q) + [0];
    EvalSum(shifted, scaled, TimesRoot(q, r), x);
    assert shifted[1..] == q;
    AddZero(Mul(x, Eval(q, x)));
    EvalLast(Scaled(r, q), 0, x);
    MulZero(Pow(x, |q|));
    EvalScale(q, r, Scaled(r, q), x);
    AddZero(Eval(Scaled(r, q), x));
    MulAddLeft(x, r, Eval(q, x));
  }

  /** The product of X + p[i] for i < n. */
  function RootProduct(p: seq<GF>, n: nat): (q: Vec)
    requires n <= |p|
    ensures |q| == n + 1
  {
    if n == 0 then [1] else TimesRoot(RootProduct(p, n - 1), p[n - 1])
  }

  lemma {:induction false} RootProductMonic(p: seq<GF>, n: nat)
    requires n <= |p|
    ensures RootProduct(p, n)[n] == 1
  {
    hide Add, Mul;
    if n > 0 { RootProductMonic(p, n - 1); AddZero(1); }
  }

  lemma {:induction false} RootProductRoots(p: seq<GF>, n: nat, i: nat)
    requires i < n <= |p|
    ensures Eval(RootProduct(p, n), p[i]) == 0
  {
    var q := RootProduct(p, n - 1);
    assert RootProduct(p, n) == TimesRoot(q, p[n - 1]);
    hide Add, Mul, Eval, RootProduct, TimesRoot;
    TimesRootEval(q, p[n - 1], p[i]);
    if i == n - 1 { AddSelf(p[i]); } else { RootProductRoots(p, n - 1, i); }
    MulZero(Eval(q, p[i])); MulZero(Add(p[i], p[n - 1]));
  }

  /** A monic polynomial of degree |p| that vanishes at the points p is their product. */
  lemma MonicRoots(q: Vec, p: seq<GF>)
    requires |q| == |p| + 1 && q[|p|] == 1 && Distinct(p) && Roots(q, p)
    ensures q == RootProduct(p, |p|)
  {
    hide Add, Mul, Eval, RootProduct;
    var k := |p|;
    var f := RootProduct(p, k);
    var d: Vec := seq(k, i requires 0 <= i < k => Add(q[i], f[i]));
    var all: Vec := d + [0];
    AddSelf(1); RootProductMonic(p, k);
    assert forall i :: 0 <= i <= k ==> all[i] == Add(q[i], f[i]);
    forall i | 0 <= i < k
      ensures Eval(d, p[i]) == 0
    {
      EvalSum(q, f, all, p[i]);
      RootProductRoots(p, k, i);
      AddZero(0);
      EvalLast(d, 0, p[i]);
      MulZero(Pow(p[i], k)); AddZero(Eval(d, p[i]));
    }
    TooManyRoots(d, p);
    forall i | 0 <= i < k
      ensures q[i] == f[i]
    {
      assert Add(q[i], f[i]) == d[i] == 0;
      AddCancel(q[i], f[i]); AddZero(f[i]);
    }
  }
}
