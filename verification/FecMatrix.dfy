/** `_invert_vdm`, `_matmul` and `fec_new` of src/zfex.c: the systematic generator matrix. */
module FecMatrix {
  import opened Sequences
  import opened Bytes
  import opened GaloisField
  import opened GaloisPowers
  import opened GaloisTables
  import opened LinearAlgebra
  import opened Polynomials
  import opened Vandermonde
  import opened MatrixBuffer

  ghost predicate IsWorkBuffer(t: Tables, src: array<GF>, n: nat, k: nat) {
    src.Length == n * k && src != t.exp && src != t.inverse
  }

  /** The second column of the first k rows. */
  ghost function SecondColumn(m: Mat, k: nat): (p: seq<GF>)
    requires 2 <= k <= |m| && IsMat(m, |m|, k)
    ensures |p| == k && forall i :: 0 <= i < k ==> p[i] == m[i][1]
  {
    seq(k, i requires 0 <= i < k => m[i][1])
  }

  /** The first k rows of m replaced by those of r. */
  ghost predicate TopReplaced(m: Mat, r: Mat, m': Mat, n: nat, k: nat)
    requires k <= n && IsMat(m, n, k) && IsMat(m', n, k) && IsMat(r, k, k)
  {
    && (forall i :: 0 <= i < k ==> m'[i] == r[i])
    && (forall i :: k <= i < n ==> m'[i] == m[i])
  }

  /** Columns below `done` of the first k rows of cur are those of r; everything else is as in m. */
  ghost predicate ColumnsStored(cur: Mat, m: Mat, r: Mat, n: nat, k: nat, done: nat)
    requires k <= n && IsMat(cur, n, k) && IsMat(m, n, k) && IsMat(r, k, k)
  {
    forall i, j :: 0 <= i < n && 0 <= j < k ==> cur[i][j] == if i < k && j < done then r[i][j] else m[i][j]
  }

  lemma NothingStored(m: Mat, r: Mat, n: nat, k: nat)
    requires k <= n && IsMat(m, n, k) && IsMat(r, k, k)
    ensures ColumnsStored(m, m, r, n, k, 0)
  {}

  lemma AllStored(cur: Mat, m: Mat, r: Mat, n: nat, k: nat)
    requires k <= n && IsMat(cur, n, k) && IsMat(m, n, k) && IsMat(r, k, k)
    requires ColumnsStored(cur, m, r, n, k, k)
    ensures TopReplaced(m, r, cur, n, k)
  {}

  /** The points, copied out before the matrix is overwritten. */
  method ReadPoints(t: Tables, src: array<GF>, n: nat, k: nat) returns (pts: array<GF>)
    requires t.Ready() && 2 <= k <= n && IsWorkBuffer(t, src, n, k)
    ensures t.Ready() && fresh(pts) && pts.Length == k
    ensures pts[..] == SecondColumn(Rows(src[..], n, k), k)
  {
    pts := new GF[k](i => 0);
    ghost var p := SecondColumn(Rows(src[..], n, k), k);
    for i := 0 to k
      invariant t.Ready() && src[..] == old(src[..])
      invariant forall x :: 0 <= x < i ==> pts[x] == p[x]
    {
      pts[i] := Get(src, n, k, i, 1);
    }
    assert pts[..] == p;
  }

  /** `_invert_vdm` */
  method InvertVdm(t: Tables, src: array<GF>, n: nat, k: nat)
    requires t.Ready() && 1 <= k <= n && IsWorkBuffer(t, src, n, k)
    modifies src
    ensures t.Ready()
    ensures k == 1 ==> src[..] == old(src[..])
    ensures k >= 2 ==> var m := Rows(old(src[..]), n, k);
                       TopReplaced(m, CodeInverse(SecondColumn(m, k)), Rows(src[..], n, k), n, k)
  {
    hide Add, Mul, Inv;
    if k == 1 {
      return;
    }
    ghost var m := Rows(src[..], n, k);
    ghost var p := SecondColumn(m, k);
    var pts := ReadPoints(t, src, n, k);
    var c := BuildCoeffs(t, pts, k);
    var b := new GF[k](i => 0);
    ghost var r := CodeInverse(p);
    NothingStored(m, r, n, k);
    hide ColumnsStored, TopReplaced, CodeInverse, CodeCoeffs, CodeQuotient, Eval, SecondColumn;
    for row := 0 to k
      invariant t.Ready() && pts[..] == p && c[..] == CodeCoeffs(p, k)[..k]
      invariant ColumnsStored(Rows(src[..], n, k), m, r, n, k, row)
    {
      var x := Divide(t, pts, c, b, k, row);
      StoreColumn(t, src, n, k, row, t.inverse[x], b, p, m);
    }
    AllStored(Rows(src[..], n, k), m, r, n, k);
  }

  /** How the coefficients for i points lie in the buffer: flush right, zeros before, the leading 1 left out. */
  ghost predicate Stored(c: seq<GF>, q: Vec, i: nat, k: nat) {
    && |c| == k && i <= k && |q| == i + 1
    && (forall d :: 0 <= d < i ==> c[k - i + d] == q[d])
    && (forall j :: 0 <= j < k - i ==> c[j] == 0)
  }

  lemma CodeCoeffsNext(p: seq<GF>, i: nat, d: nat)
    requires 1 <= i < |p| && d <= i
    ensures CodeCoeffs(p, i + 1)[d] == if d == 0 then 0 else Add(CodeCoeffs(p, i)[d - 1], Mul(p[i], CodeCoeffs(p, i)[d]))
  {
    TimesRootCoefficient(CodeCoeffs(p, i), p[i], d);
  }

  lemma CodeCoeffsEnd(p: seq<GF>, i: nat)
    requires 1 <= i < |p|
    ensures CodeCoeffs(p, i + 1)[i] == Add(CodeCoeffs(p, i)[i - 1], p[i])
  {
    hide *;
    CodeCoeffsNext(p, i, i); CodeMonic(p, i); MulOne(p[i]);
  }

  /** The coefficient loop. */
  method BuildCoeffs(t: Tables, p: array<GF>, k: nat) returns (c: array<GF>)
    requires t.Ready() && p.Length == k >= 2
    ensures t.Ready() && fresh(c) && c.Length == k
    ensures c[..] == CodeCoeffs(p[..], k)[..k]
  {
    hide Add, Mul, Inv, TimesRoot;
    ghost var pts := p[..];
    c := new GF[k](i => 0);
    c[k - 1] := p[0];
    assert Stored(c[..], CodeCoeffs(pts, 1), 1, k);
    hide CodeCoeffs;
    for i := 1 to k
      invariant t.Ready() && p[..] == pts
      invariant Stored(c[..], CodeCoeffs(pts, i), i, k)
    {
      AddPoint(t, p, c, k, i);
    }
  }

  /** One round of the coefficient loop: from i points to i + 1. */
  method AddPoint(t: Tables, p: array<GF>, c: array<GF>, k: nat, i: nat)
    requires t.Ready() && p.Length == k && c.Length == k && 1 <= i < k
    requires c != p && c != t.exp && c != t.inverse
    requires Stored(c[..], CodeCoeffs(p[..], i), i, k)
    modifies c
    ensures t.Ready()
    ensures Stored(c[..], CodeCoeffs(p[..], i + 1), i + 1, k)
  {
    hide Add, Mul, Inv, CodeCoeffs;
    ghost var old_, q, q' := c[..], CodeCoeffs(p[..], i), CodeCoeffs(p[..], i + 1);
    var p_i := p[i];
    var j := k - 1 - (i - 1);
    while j < k - 1
      invariant k - i <= j <= k - 1 && t.Ready()
      invariant forall x :: k - i <= x < j ==> c[x] == q'[x - (k - i) + 1]
      invariant forall x :: 0 <= x < k && !(k - i <= x < j) ==> c[x] == old_[x]
    {
      ghost var d := j - (k - i) + 1;
      CodeCoeffsNext(p[..], i, d);
      assert old_[j] == q[d - 1] && old_[j + 1] == q[d];
      c[j] := Add(c[j], t.Times(p_i, c[j + 1]));
      j := j + 1;
    }
    CodeCoeffsEnd(p[..], i);
    CodeCoeffsNext(p[..], i, 0);
    c[k - 1] := Add(c[k - 1], p_i);
    forall d | 0 <= d < i + 1
      ensures c[k - (i + 1) + d] == q'[d]
    {
      if 0 < d < i { assert c[k - i + (d - 1)] == q'[d]; }
    }
  }

  lemma EvalSuffix(q: Vec, x: GF, i: nat)
    requires 1 <= i < |q|
    ensures Eval(q[i - 1..], x) == Add(Mul(x, Eval(q[i..], x)), q[i - 1])
  {
    assert q[i - 1..][1..] == q[i..];
    hide Add, Mul;
    AddComm(q[i - 1], Mul(x, Eval(q[i..], x)));
  }

  lemma EvalOne(q: Vec, x: GF)
    requires |q| == 1
    ensures Eval(q, x) == q[0]
  {
    assert q[1..] == [];
    hide Add, Mul;
    MulZero(x); AddZero(q[0]);
  }

  /** The synthetic division for one point: b gets the quotient, and its value at the point is returned. */
  method Divide(t: Tables, p: array<GF>, c: array<GF>, b: array<GF>, k: nat, row: nat) returns (v: GF)
    requires t.Ready() && p.Length == c.Length == b.Length == k >= 2 && row < k
    requires b != p && b != c && b != t.exp && b != t.inverse
    requires c[..] == CodeCoeffs(p[..], k)[..k]
    modifies b
    ensures t.Ready()
    ensures b[..] == CodeQuotient(p[..], row) && v == Eval(b[..], p[row])
  {
    var xx := p[row];
    ghost var f, q := CodeCoeffs(p[..], k), CodeQuotient(p[..], row);
    CodeMonic(p[..], k); QuotientMonic(f, xx);
    assert q == Quotient(f, xx);
    hide Add, Mul, Inv, Eval, CodeCoeffs, Quotient, CodeQuotient;
    v := 1;
    b[k - 1] := 1;
    EvalOne(q[k - 1..], xx);
    var i := k - 1;
    while i > 0
      invariant 0 <= i < k && t.Ready()
      invariant forall j :: i <= j < k ==> b[j] == q[j]
      invariant v == Eval(q[i..], xx)
    {
      QuotientBack(f, xx, i);
      assert c[i] == c[..][i] == f[i];
      b[i - 1] := Add(c[i], t.Times(xx, b[i]));
      EvalSuffix(q, xx, i);
      v := Add(t.Times(xx, v), b[i - 1]);
      i := i - 1;
    }
    assert b[..] == q;
    assert q[0..] == q;
  }

  /** Stores one column of the inverse. */
  method StoreColumn(t: Tables, src: array<GF>, n: nat, k: nat, row: nat, s: GF, b: array<GF>,
                     ghost p: seq<GF>, ghost m: Mat)
    requires t.Ready() && 2 <= k <= n && IsWorkBuffer(t, src, n, k) && b.Length == k && b != src && row < k
    requires |p| == k && IsMat(m, n, k)
    requires b[..] == CodeQuotient(p, row) && s == Inv(Eval(b[..], p[row]))
    requires ColumnsStored(Rows(src[..], n, k), m, CodeInverse(p), n, k, row)
    modifies src
    ensures t.Ready()
    ensures ColumnsStored(Rows(src[..], n, k), m, CodeInverse(p), n, k, row + 1)
  {
    ghost var r := CodeInverse(p);
    assert Column(r, row) == CodeColumn(p, row) == Scaled(s, b[..]);
    hide Add, Mul, Inv, Eval, CodeInverse, CodeColumn, CodeQuotient;
    for col := 0 to k
      invariant t.Ready() && Column(r, row) == Scaled(s, b[..])
      invariant forall i, j :: 0 <= i < n && 0 <= j < k ==>
                  Rows(src[..], n, k)[i][j] == if i < k && (j < row || (j == row && i < col)) then r[i][j] else m[i][j]
    {
      assert r[col][row] == Column(r, row)[col] == Mul(s, b[col]);
      Put(src, n, k, col, row, t.Times(s, b[col]));
    }
  }

  /** Entry (i, j) of the product of m with its own first k rows. */
  ghost function ProductEntry(m: Mat, n: nat, k: nat, i: nat, j: nat): GF
    requires k <= n && IsMat(m, n, k) && i < n && j < k
  {
    DotTo(m[i], Column(m[..k], j), k)
  }

  /** `_matmul` for the rows of a from `first` on, against the first k rows of a. */
  method Matmul(t: Tables, a: array<GF>, c: array<GF>, n: nat, k: nat, first: nat)
    requires t.Ready() && k <= n && first <= n && a.Length == n * k && a != c && IsWorkBuffer(t, c, n, k)
    modifies c
    ensures t.Ready()
    ensures forall i :: 0 <= i < first ==> Rows(c[..], n, k)[i] == Rows(old(c[..]), n, k)[i]
    ensures forall i, j :: first <= i < n && 0 <= j < k ==>
              Rows(c[..], n, k)[i][j] == ProductEntry(Rows(a[..], n, k), n, k, i, j)
  {
    hide Add, Mul, Inv, ProductEntry;
    ghost var m, before := Rows(a[..], n, k), Rows(c[..], n, k);
    for row := first to n
      invariant t.Ready() && Rows(a[..], n, k) == m
      invariant forall i :: 0 <= i < first ==> Rows(c[..], n, k)[i] == before[i]
      invariant forall i, j :: first <= i < row && 0 <= j < k ==> Rows(c[..], n, k)[i][j] == ProductEntry(m, n, k, i, j)
    {
      MatmulRow(t, a, c, n, k, row);
    }
  }

  /** One row of the product. */
  method MatmulRow(t: Tables, a: array<GF>, c: array<GF>, n: nat, k: nat, row: nat)
    requires t.Ready() && k <= n && row < n && a.Length == n * k && a != c && IsWorkBuffer(t, c, n, k)
    modifies c
    ensures t.Ready()
    ensures forall i :: 0 <= i < n && i != row ==> Rows(c[..], n, k)[i] == Rows(old(c[..]), n, k)[i]
    ensures forall j :: 0 <= j < k ==> Rows(c[..], n, k)[row][j] == ProductEntry(Rows(a[..], n, k), n, k, row, j)
  {
    hide Add, Mul, Inv, ProductEntry;
    ghost var m, before := Rows(a[..], n, k), Rows(c[..], n, k);
    for col := 0 to k
      invariant t.Ready() && Rows(a[..], n, k) == m
      invariant forall i :: 0 <= i < n && i != row ==> Rows(c[..], n, k)[i] == before[i]
      invariant forall j :: 0 <= j < col ==> Rows(c[..], n, k)[row][j] == ProductEntry(m, n, k, row, j)
    {
      var acc := RowByColumn(t, a, n, k, row, col);
      Put(c, n, k, row, col, acc);
    }
  }

  method RowByColumn(t: Tables, a: array<GF>, n: nat, k: nat, row: nat, col: nat) returns (acc: GF)
    requires t.Ready() && k <= n && a.Length == n * k && row < n && col < k
    ensures acc == ProductEntry(Rows(a[..], n, k), n, k, row, col)
  {
    hide Add, Mul, Inv;
    ghost var u, v := Rows(a[..], n, k)[row], Column(Rows(a[..], n, k)[..k], col);
    acc := 0;
    for i := 0 to k
      invariant acc == DotTo(u, v, i)
    {
      acc := Add(acc, t.Times(Get(a, n, k, row, i), Get(a, n, k, i, col)));
    }
  }

  // ---------- the code ----------

  /** The evaluation points 0, alpha^0, alpha^1, ... */
  function Points(n: nat): (p: seq<GF>)
    ensures |p| == n && forall i :: 0 <= i < n ==> p[i] == PointAt(i)
  {
    seq(n, i requires 0 <= i => PointAt(i))
  }

  function PointAt(s: nat): GF {
    if s == 0 then 0 else Alpha(s - 1)
  }

  /** The points are 0, 1, and from there on each is the class of x times the one before; up to 256 of
      them are distinct. */
  lemma PointsDistinct(n: nat)
    requires n <= 256
    ensures Distinct(Points(n))
    ensures (n > 0 ==> Points(n)[0] == 0) && (n > 1 ==> Points(n)[1] == 1)
    ensures forall s :: 1 <= s < n - 1 ==> Points(n)[s + 1] == TimesX(Points(n)[s])
  {
    forall s | 1 <= s < n - 1
      ensures Points(n)[s + 1] == TimesX(Points(n)[s])
    {
      PointsStep(s - 1);
    }
    PointsStep(0);
    hide Alpha, TimesX;
    forall i, j | 0 <= i < j < n
      ensures Points(n)[i] != Points(n)[j]
    {
      if i == 0 { AlphaNonzero(j - 1); } else { AlphaDistinct(i - 1, j - 1); }
    }
  }

  /** The inverse of the Vandermonde matrix of the first k points, as the code computes it. */
  ghost function TopInverse(k: nat): (r: Mat)
    requires k >= 1
    ensures IsMat(r, k, k)
  {
    if k == 1 then [[1]] else CodeInverse(Points(k))
  }

  lemma TopInverseCorrect(k: nat)
    requires 1 <= k <= 256
    ensures Inverse(VandermondeMatrix(Points(k)), TopInverse(k), k)
  {
    PointsDistinct(k);
    if k == 1 {
      var m, r := VandermondeMatrix(Points(1)), TopInverse(1);
      VandermondeNonsingular(Points(1));
      InverseByColumns(m, r, 1);
      hide Dot, Eval, Inverse;
      DotOfOne(m[0], Column(r, 0));
    } else {
      CodeInverseExact(Points(k));
    }
  }

  lemma DotOfOne(u: Vec, v: Vec)
    requires |u| == |v| == 1 && u[0] == 1 && v[0] == 1
    ensures Dot(u, v) == 1
  {
    hide Add, Mul;
    assert DotTo(u, v, 0) == 0;
    MulOne(1); AddZero(1);
  }

  /** Row s of the generator: the identity first, then Vandermonde rows times the inverse. */
  ghost function GeneratorRow(k: nat, s: nat): (v: Vec)
    requires k >= 1
    ensures |v| == k
  {
    if s < k then Unit(k, s) else RowTimes(PowRow(PointAt(s), k), TopInverse(k), k, k)
  }

  /** Every generator row evaluates, at its own point, the polynomial that takes the data at the first k points. */
  lemma GeneratorEvaluates(k: nat, s: nat, d: Vec)
    requires 1 <= k <= 256 && |d| == k
    ensures Dot(GeneratorRow(k, s), d) == Eval(Product(TopInverse(k), d), PointAt(s))
  {
    var p := Points(k);
    var q := Product(TopInverse(k), d);
    TopInverseCorrect(k);
    hide Dot, Eval, Inverse, TopInverse, DotTo, Pow;
    if s < k {
      assert Maps(TopInverse(k), d, q);
      assert Maps(VandermondeMatrix(p), q, d) by { InverseBack(VandermondeMatrix(p), TopInverse(k), k, q, d); }
      VandermondeProduct(p, q, s);
      DotUnitLeft(d, s);
    } else {
      var u := PowRow(PointAt(s), k);
      EvalDot(q, PointAt(s));
      DotAssocWhole(u, TopInverse(k), d);
    }
  }

  // ---------- the generator as interpolation ----------

  /** A polynomial with as many coefficients as there are data bytes takes them at 0 and at the first
      entries of the table. */
  ghost predicate Interpolates(exp: seq<GF>, q: Vec, d: Vec)
    requires |d| <= |exp| + 1
  {
    |q| == |d| && (d != [] ==> Eval(q, 0) == d[0]) && forall i :: 1 <= i < |d| ==> Eval(q, exp[i - 1]) == d[i]
  }

  /** The table of powers, as `generate_gf` fills it. */
  ghost predicate PowersTable(exp: seq<GF>) { |exp| >= 255 && forall i :: 0 <= i < 255 ==> exp[i] == Alpha(i) }

  lemma PointsStep(s: nat)
    ensures PointAt(0) == 0 && PointAt(1) == 1 && PointAt(s + 2) == TimesX(PointAt(s + 1))
  {
    assert Alpha(0) == 1;
    hide TimesX;
  }

  lemma InterpolantIs(k: nat, exp: seq<GF>, q: Vec, d: Vec)
    requires 1 <= k <= 255 && PowersTable(exp) && |q| == |d| == k
    ensures Interpolates(exp, q, d) <==> q == Product(TopInverse(k), d)
  {
    var p, m, r := Points(k), VandermondeMatrix(Points(k)), TopInverse(k);
    TopInverseCorrect(k);
    forall i | 0 <= i < k
      ensures Dot(m[i], q) == Eval(q, if i == 0 then 0 else exp[i - 1])
    {
      VandermondeProduct(p, q, i);
    }
    hide Dot, Eval, TopInverse, VandermondeMatrix, Alpha, PointAt;
    assert Maps(m, q, d) <==> Interpolates(exp, q, d);
    assert Maps(r, d, q) <==> q == Product(r, d);
  }

  /** There is exactly one such polynomial. */
  lemma OneInterpolant(exp: seq<GF>, d: Vec) returns (q: Vec)
    requires 1 <= |d| <= 255 && PowersTable(exp)
    ensures Interpolates(exp, q, d) && forall p: Vec :: Interpolates(exp, p, d) ==> p == q
  {
    q := Product(TopInverse(|d|), d);
    InterpolantIs(|d|, exp, q, d);
    forall p: Vec | Interpolates(exp, p, d)
      ensures p == q
    {
      InterpolantIs(|d|, exp, p, d);
    }
  }

  /** Each generator row, applied to the data, is the value at its own point of the polynomial that takes
      the data at the first k points: 0 for row 0, and the table entry s - 1 for row s. */
  lemma RowInterpolates(k: nat, s: nat, exp: seq<GF>, q: Vec, d: Vec)
    requires 1 <= k <= 255 && s <= 255 && PowersTable(exp) && |d| == k && Interpolates(exp, q, d)
    ensures Dot(GeneratorRow(k, s), d) == Eval(q, if s == 0 then 0 else exp[s - 1])
  {
    InterpolantIs(k, exp, q, d);
    hide Dot, Eval, TopInverse, GeneratorRow, Alpha;
    GeneratorEvaluates(k, s, d);
  }

  /** Every row evaluates the polynomial through the data at its own point. */
  ghost predicate EvaluatesRows(m: Mat, n: nat, k: nat, exp: seq<GF>)
    requires k <= n <= |exp| + 1 && IsMat(m, n, k)
  {
    forall s: nat, q: Vec, d: Vec :: s < n && |d| == k && Interpolates(exp, q, d) ==>
      Dot(m[s], d) == Eval(q, if s == 0 then 0 else exp[s - 1])
  }

  lemma GeneratorRows(m: Mat, n: nat, k: nat, exp: seq<GF>)
    requires 1 <= k <= n <= 255 && PowersTable(exp) && IsMat(m, n, k)
    requires forall s :: 0 <= s < n ==> m[s] == GeneratorRow(k, s)
    ensures EvaluatesRows(m, n, k, exp)
  {
    assert |exp| >= 255;
    hide Interpolates, PowersTable, GeneratorRow, Dot, Eval;
    forall s: nat, q: Vec, d: Vec | s < n && |d| == k && Interpolates(exp, q, d)
      ensures Dot(m[s], d) == Eval(q, if s == 0 then 0 else exp[s - 1])
    {
      RowInterpolates(k, s, exp, q, d);
    }
  }

  lemma ReadyPowers(t: Tables)
    requires t.Ready()
    ensures PowersTable(t.exp[..])
  {
    hide Alpha, Mul, Inv;
  }

  lemma InverseBack(m: Mat, r: Mat, k: nat, q: Vec, d: Vec)
    requires IsMat(m, k, k) && IsMat(r, k, k) && |q| == |d| == k && Inverse(m, r, k) && Maps(r, d, q)
    ensures Maps(m, q, d)
  {
    hide Maps;
  }

  lemma DotUnitLeft(d: Vec, s: nat)
    requires s < |d|
    ensures Dot(Unit(|d|, s), d) == d[s]
  {
    DotToComm(Unit(|d|, s), d, |d|);
    DotUnit(d, s);
  }

  lemma DotAssocWhole(u: Vec, m: Mat, y: Vec)
    requires |u| == |m| && IsMat(m, |u|, |y|)
    ensures Dot(u, Product(m, y)) == Dot(RowTimes(u, m, |y|, |u|), y)
  {
    DotAssoc(u, m, y, |u|);
  }

  /** The rows that a set of received block numbers selects. */
  ghost function SelectedRows(k: nat, index: seq<nat>): (m: Mat)
    requires k >= 1
    ensures IsMat(m, |index|, k)
  {
    seq(|index|, i requires 0 <= i < |index| => GeneratorRow(k, index[i]))
  }

  ghost predicate DistinctBlocks(index: seq<nat>, n: nat) {
    && (forall i :: 0 <= i < |index| ==> index[i] < n)
    && (forall i, j :: 0 <= i < j < |index| ==> index[i] != index[j])
  }

  /** Any k distinct rows of the generator form a nonsingular matrix. */
  lemma AnyRowsNonsingular(k: nat, n: nat, index: seq<nat>)
    requires 1 <= k <= n <= 255 && |index| == k && DistinctBlocks(index, n)
    ensures Nonsingular(SelectedRows(k, index), k)
  {
    var m, t := SelectedRows(k, index), TopInverse(k);
    var pts: seq<GF> := seq(k, i requires 0 <= i < k => PointAt(index[i]));
    SelectedPointsDistinct(n, index, pts);
    hide GeneratorRow, TopInverse, Dot, Eval, PointAt;
    forall x: Vec | |x| == k && Maps(m, x, Zeros(k))
      ensures x == Zeros(k)
    {
      var q := Product(t, x);
      forall i | 0 <= i < k
        ensures Eval(q, pts[i]) == 0
      {
        GeneratorEvaluates(k, index[i], x);
        assert Dot(m[i], x) == Zeros(k)[i];
      }
      TooManyRoots(q, pts);
      ZeroCoefficients(k, x);
    }
  }

  lemma SelectedPointsDistinct(n: nat, index: seq<nat>, pts: seq<GF>)
    requires n <= 256 && DistinctBlocks(index, n) && |pts| == |index|
    requires forall i :: 0 <= i < |pts| ==> pts[i] == PointAt(index[i])
    ensures Distinct(pts)
  {
    PointsDistinct(n);
    hide Alpha;
    forall i, j | 0 <= i < j < |pts|
      ensures pts[i] != pts[j]
    {
      var a, b := index[i], index[j];
      assert Points(n)[a] == pts[i] && Points(n)[b] == pts[j];
    }
  }

  /** Data whose polynomial is zero is zero. */
  lemma ZeroCoefficients(k: nat, x: Vec)
    requires 1 <= k <= 256 && |x| == k && Product(TopInverse(k), x) == Zeros(k)
    ensures x == Zeros(k)
  {
    forall s | 0 <= s < k
      ensures x[s] == 0
    {
      GeneratorEvaluates(k, s, x);
      assert GeneratorRow(k, s) == Unit(k, s);
      hide *;
      DotUnitLeft(x, s);
      EvalZeros(k, PointAt(s));
    }
  }

  lemma EvalZeros(k: nat, x: GF)
    ensures Eval(Zeros(k), x) == 0
  {
    EvalDot(Zeros(k), x);
    hide DotTo, Add, Mul, Pow;
    DotToZero(PowRow(x, k), Zeros(k), k);
  }

  // ---------- building the generator ----------

  lemma {:induction false} PowAlpha(r: nat, c: nat)
    ensures Pow(Alpha(r), c) == Alpha(r * c)
    decreases c
  {
    if c == 0 {
      assert Alpha(0) == 1;
    } else {
      PowAlpha(r, c - 1);
      hide Alpha, Mul;
      AlphaAdd(r, r * (c - 1));
      assert r + r * (c - 1) == r * c;
    }
  }

  lemma PowAlphaTable(r: nat, c: nat)
    ensures r * c >= 0 && Pow(Alpha(r), c) == Alpha(r * c % 255)
  {
    PowAlpha(r, c);
    AlphaPeriodic(r * c);
  }

  lemma PowZero(c: nat)
    ensures Pow(0, c) == if c == 0 then 1 else 0
  {
    if c > 0 { MulZero(Pow(0, c - 1)); }
  }

  lemma PowOne(x: GF)
    ensures Pow(x, 1) == x
  {
    assert Pow(x, 0) == 1;
    hide Mul;
    MulOne(x);
  }

  /** Fills one row of the work matrix with the powers of its point. */
  method FillRow(t: Tables, tmp: array<GF>, n: nat, k: nat, s: nat)
    requires t.Ready() && 1 <= k <= n && IsWorkBuffer(t, tmp, n, k) && s < n
    modifies tmp
    ensures t.Ready()
    ensures Rows(tmp[..], n, k) == Rows(old(tmp[..]), n, k)[s := PowRow(PointAt(s), k)]
  {
    hide Alpha, Add, Mul, Inv, Pow;
    ghost var m := Rows(tmp[..], n, k);
    for col := 0 to k
      invariant t.Ready()
      invariant forall i :: 0 <= i < n && i != s ==> Rows(tmp[..], n, k)[i] == m[i]
      invariant forall j :: 0 <= j < col ==> Rows(tmp[..], n, k)[s][j] == PowRow(PointAt(s), k)[j]
    {
      var v: GF;
      if s == 0 {
        PowZero(col);
        v := if col == 0 then 1 else 0;
      } else {
        PowAlphaTable(s - 1, col);
        var e := Modnn((s - 1) * col);
        v := t.exp[e];
      }
      Put(tmp, n, k, s, col, v);
    }
    assert Rows(tmp[..], n, k)[s] == PowRow(PointAt(s), k);
  }

  /** Writes a unit row. */
  method UnitRow(t: Tables, enc: array<GF>, n: nat, k: nat, s: nat)
    requires t.Ready() && 1 <= k <= n && IsWorkBuffer(t, enc, n, k) && s < k
    modifies enc
    ensures t.Ready()
    ensures Rows(enc[..], n, k) == Rows(old(enc[..]), n, k)[s := Unit(k, s)]
  {
    hide Add, Mul, Inv;
    ghost var m := Rows(enc[..], n, k);
    for col := 0 to k
      invariant t.Ready()
      invariant forall i :: 0 <= i < n && i != s ==> Rows(enc[..], n, k)[i] == m[i]
      invariant forall j :: 0 <= j < col ==> Rows(enc[..], n, k)[s][j] == 0
    {
      Put(enc, n, k, s, col, 0);
    }
    Put(enc, n, k, s, s, 1);
    assert Rows(enc[..], n, k)[s] == Unit(k, s);
  }

  /** The work matrix once the top has been inverted. */
  ghost predicate WorkDone(m: Mat, n: nat, k: nat)
    requires 1 <= k <= n && IsMat(m, n, k)
  {
    && m[..k] == TopInverse(k)
    && forall s :: k <= s < n ==> m[s] == PowRow(PointAt(s), k)
  }

  lemma SecondColumnPoints(m: Mat, n: nat, k: nat)
    requires 2 <= k <= n && IsMat(m, n, k)
    requires forall s :: 0 <= s < n ==> m[s] == PowRow(PointAt(s), k)
    ensures SecondColumn(m, k) == Points(k)
  {
    forall i | 0 <= i < k
      ensures m[i][1] == Points(k)[i]
    {
      PowOne(PointAt(i));
    }
  }

  lemma InvertedTop(m: Mat, m': Mat, n: nat, k: nat)
    requires 1 <= k <= n && IsMat(m, n, k) && IsMat(m', n, k)
    requires forall s :: 0 <= s < n ==> m[s] == PowRow(PointAt(s), k)
    requires k == 1 ==> m' == m
    requires k >= 2 ==> TopReplaced(m, CodeInverse(SecondColumn(m, k)), m', n, k)
    ensures WorkDone(m', n, k)
  {
    if k == 1 {
      assert PowRow(0, 1)[0] == Pow(0, 0) == 1;
      assert m'[0] == PowRow(PointAt(0), 1) == [1];
      assert m'[..1] == TopInverse(1);
    } else {
      SecondColumnPoints(m, n, k);
    }
  }

  lemma GeneratorProduct(m: Mat, n: nat, k: nat, s: nat, row: Vec)
    requires 1 <= k <= n && IsMat(m, n, k) && WorkDone(m, n, k) && k <= s < n && |row| == k
    requires forall j :: 0 <= j < k ==> row[j] == ProductEntry(m, n, k, s, j)
    ensures row == GeneratorRow(k, s)
  {
    hide DotTo, Pow, TopInverse;
    forall j | 0 <= j < k
      ensures row[j] == GeneratorRow(k, s)[j]
    {
      RowTimesAt(m[s], TopInverse(k), k, k, j);
    }
  }

  /** A code: its parameters and its generator matrix. */
  class FecCode {
    const k: nat
    const n: nat
    const encMatrix: array<GF>

    ghost predicate Valid()
      reads encMatrix
    {
      && 1 <= k <= n <= 255 && encMatrix.Length == n * k
      && forall s :: 0 <= s < n ==> Rows(encMatrix[..], n, k)[s] == GeneratorRow(k, s)
    }

    /** `fec_new` */
    constructor (t: Tables, k: nat, n: nat)
      requires t.Ready() && 1 <= k <= n < 256
      ensures Valid() && this.k == k && this.n == n && t.Ready()
      ensures fresh(encMatrix) && EvaluatesRows(Rows(encMatrix[..], n, k), n, k, t.exp[..])
    {
      var enc := BuildGenerator(t, k, n);
      this.k := k;
      this.n := n;
      this.encMatrix := enc;
    }
  }

  method BuildGenerator(t: Tables, k: nat, n: nat) returns (enc: array<GF>)
    requires t.Ready() && 1 <= k <= n < 256
    ensures t.Ready() && fresh(enc) && enc.Length == n * k
    ensures forall s :: 0 <= s < n ==> Rows(enc[..], n, k)[s] == GeneratorRow(k, s)
    ensures EvaluatesRows(Rows(enc[..], n, k), n, k, t.exp[..])
  {
    hide EvaluatesRows, PowersTable;
    hide Add, Mul, Inv, Alpha, Pow, GeneratorRow, WorkDone, TopReplaced, ProductEntry, CodeInverse, SecondColumn;
    var tmp := FillPowers(t, k, n);
    ghost var m := Rows(tmp[..], n, k);
    InvertVdm(t, tmp, n, k);
    ghost var m' := Rows(tmp[..], n, k);
    InvertedTop(m, m', n, k);
    enc := new GF[n * k](i => 0);
    Matmul(t, tmp, enc, n, k, k);
    forall s | k <= s < n
      ensures Rows(enc[..], n, k)[s] == GeneratorRow(k, s)
    {
      GeneratorProduct(m', n, k, s, Rows(enc[..], n, k)[s]);
    }
    for s := 0 to k
      invariant t.Ready()
      invariant forall i :: 0 <= i < s || k <= i < n ==> Rows(enc[..], n, k)[i] == GeneratorRow(k, i)
    {
      UnitRow(t, enc, n, k, s);
      GeneratorUnit(k, s);
    }
    ReadyPowers(t);
    GeneratorRows(Rows(enc[..], n, k), n, k, t.exp[..]);
  }

  lemma GeneratorUnit(k: nat, s: nat)
    requires s < k
    ensures GeneratorRow(k, s) == Unit(k, s)
  {}

  method FillPowers(t: Tables, k: nat, n: nat) returns (tmp: array<GF>)
    requires t.Ready() && 1 <= k <= n < 256
    ensures t.Ready() && fresh(tmp) && tmp.Length == n * k
    ensures forall s :: 0 <= s < n ==> Rows(tmp[..], n, k)[s] == PowRow(PointAt(s), k)
  {
    hide Add, Mul, Inv, Alpha, Pow;
    tmp := new GF[n * k](i => 0);
    for s := 0 to n
      invariant t.Ready()
      invariant forall i :: 0 <= i < s ==> Rows(tmp[..], n, k)[i] == PowRow(PointAt(i), k)
    {
      FillRow(t, tmp, n, k, s);
    }
  }
}
