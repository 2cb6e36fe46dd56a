/** Vectors and matrices over the field, and the exchange (pivot) transformation
    that in-place Gauss-Jordan elimination performs. */
module LinearAlgebra {
  import opened Bytes
  import opened GaloisField
  import opened GaloisPowers

  type Vec = seq<GF>
  type Mat = seq<Vec>

  /** Sum of the first n products. */
  function DotTo(u: Vec, v: Vec, n: nat): GF
    requires n <= |u| && n <= |v|
  {
    if n == 0 then 0 else Add(DotTo(u, v, n - 1), Mul(u[n - 1], v[n - 1]))
  }

  function Dot(u: Vec, v: Vec): GF
    requires |u| == |v|
  {
    DotTo(u, v, |u|)
  }

  lemma {:induction false} DotToComm(u: Vec, v: Vec, n: nat)
    requires n <= |u| && n <= |v|
    ensures DotTo(u, v, n) == DotTo(v, u, n)
  {
    hide Add, Mul;
    if n > 0 { DotToComm(u, v, n - 1); MulComm(u[n - 1], v[n - 1]); }
  }

  /** Only the entries below n matter. */
  lemma {:induction false} DotToFrame(u: Vec, v: Vec, u': Vec, v': Vec, n: nat)
    requires n <= |u| && n <= |v| && n <= |u'| && n <= |v'|
    requires forall j :: 0 <= j < n ==> u[j] == u'[j] && v[j] == v'[j]
    ensures DotTo(u, v, n) == DotTo(u', v', n)
  {
    hide Add, Mul;
    if n > 0 { DotToFrame(u, v, u', v', n - 1); }
  }

  lemma {:induction false} DotToZero(u: Vec, v: Vec, n: nat)
    requires n <= |u| && n <= |v|
    requires forall j :: 0 <= j < n ==> u[j] == 0 || v[j] == 0
    ensures DotTo(u, v, n) == 0
  {
    hide Add, Mul;
    if n > 0 {
      DotToZero(u, v, n - 1);
      MulZero(u[n - 1]); MulZero(v[n - 1]); AddZero(0);
    }
  }

  lemma MulAddMul(s: GF, a: GF, b: GF, x: GF)
    ensures Mul(Add(a, Mul(s, b)), x) == Add(Mul(a, x), Mul(s, Mul(b, x)))
  {
    hide *;
    MulAddLeft(a, Mul(s, b), x);
    MulAssoc(s, b, x);
  }

  /** The product with a combination of two rows is the combination of the products. */
  lemma {:induction false} DotToCombine(r: Vec, u: Vec, s: GF, v: Vec, w: Vec, n: nat)
    requires n <= |r| && n <= |u| && n <= |v| && n <= |w|
    requires forall j :: 0 <= j < n ==> r[j] == Add(u[j], Mul(s, v[j]))
    ensures DotTo(r, w, n) == Add(DotTo(u, w, n), Mul(s, DotTo(v, w, n)))
  {
    hide Add, Mul;
    if n == 0 {
      MulZero(s); AddZero(0);
    } else {
      DotToCombine(r, u, s, v, w, n - 1);
      var p, q := DotTo(u, w, n - 1), DotTo(v, w, n - 1);
      var a, b, x := u[n - 1], v[n - 1], w[n - 1];
      MulAddMul(s, a, b, x);
      AddSwap(p, Mul(s, q), Mul(a, x), Mul(s, Mul(b, x)));
      MulAddRight(s, q, Mul(b, x));
    }
  }

  lemma DotToScale(r: Vec, s: GF, v: Vec, w: Vec, n: nat)
    requires n <= |r| && n <= |v| && n <= |w|
    requires forall j :: 0 <= j < n ==> r[j] == Mul(s, v[j])
    ensures DotTo(r, w, n) == Mul(s, DotTo(v, w, n))
  {
    hide Add, Mul, DotTo;
    var zero := seq(n, i => 0);
    forall j | 0 <= j < n ensures r[j] == Add(zero[j], Mul(s, v[j])) { AddZero(r[j]); }
    DotToCombine(r, zero, s, v, w, n);
    DotToZero(zero, w, n);
    AddZero(Mul(s, DotTo(v, w, n)));
  }

  /** Changing one entry of the second vector. */
  lemma {:induction false} DotToUpdate(u: Vec, w: Vec, c: nat, t: GF, n: nat)
    requires n <= |u| && n <= |w| && c < |w|
    ensures DotTo(u, w[c := t], n) == if c < n then Add(DotTo(u, w, n), Mul(u[c], Add(t, w[c]))) else DotTo(u, w, n)
  {
    hide Add, Mul;
    if n > 0 {
      DotToUpdate(u, w, c, t, n - 1);
      var p := DotTo(u, w, n - 1);
      var x := u[n - 1];
      if c == n - 1 {
        MulAddRight(x, t, w[c]);
        AddReplace(p, Mul(x, t), Mul(x, w[c]));
      } else if c < n - 1 {
        AddRotate(p, Mul(u[c], Add(t, w[c])), Mul(x, w[n - 1]));
      }
    }
  }

  lemma AddReplace(p: GF, a: GF, b: GF)
    ensures Add(p, a) == Add(Add(p, b), Add(a, b))
  {
    hide *;
    AddComm(a, b); AddAssoc(Add(p, b), b, a); AddCancel(p, b);
  }

  lemma AddRotate(p: GF, a: GF, b: GF)
    ensures Add(Add(p, a), b) == Add(Add(p, b), a)
  {
    hide *;
    AddAssoc(p, a, b); AddComm(a, b); AddAssoc(p, b, a);
  }

  // ---------- matrices ----------

  ghost predicate IsMat(m: Mat, rows: nat, cols: nat) {
    |m| == rows && forall i :: 0 <= i < rows ==> |m[i]| == cols
  }

  /** m w = z */
  ghost predicate Maps(m: Mat, w: Vec, z: Vec)
    requires IsMat(m, |z|, |w|)
  {
    forall i :: 0 <= i < |z| ==> Dot(m[i], w) == z[i]
  }

  function Zeros(n: nat): (v: Vec)
    ensures |v| == n && forall i :: 0 <= i < n ==> v[i] == 0
  {
    seq(n, i => 0)
  }

  /** Only the zero vector is mapped to zero. */
  ghost predicate Nonsingular(m: Mat, k: nat)
    requires IsMat(m, k, k)
  {
    forall x: Vec :: |x| == k && Maps(m, x, Zeros(k)) ==> x == Zeros(k)
  }

  /** b is the inverse of m, from both sides. */
  ghost predicate Inverse(m: Mat, b: Mat, k: nat)
    requires IsMat(m, k, k) && IsMat(b, k, k)
  {
    forall x: Vec, y: Vec :: |x| == k && |y| == k ==> (Maps(m, x, y) <==> Maps(b, y, x))
  }

  // ---------- the exchange step ----------

  function Scaled(s: GF, v: Vec): (r: Vec)
    ensures |r| == |v| && forall j :: 0 <= j < |v| ==> r[j] == Mul(s, v[j])
  {
    seq(|v|, j requires 0 <= j < |v| => Mul(s, v[j]))
  }

  function Combined(u: Vec, s: GF, v: Vec): (r: Vec)
    requires |u| == |v|
    ensures |r| == |u| && forall j :: 0 <= j < |u| ==> r[j] == Add(u[j], Mul(s, v[j]))
  {
    seq(|u|, j requires 0 <= j < |u| => Add(u[j], Mul(s, v[j])))
  }

  /** The pivot row after scaling. */
  ghost function PivotRow(row: Vec, c: nat): (r: Vec)
    requires c < |row|
    ensures |r| == |row|
  {
    Scaled(Inv(row[c]), row[c := 1])
  }

  /** Another row after elimination with the scaled pivot row p. */
  function OtherRow(row: Vec, p: Vec, c: nat): (r: Vec)
    requires c < |row| == |p|
    ensures |r| == |row|
  {
    Combined(row[c := 0], row[c], p)
  }

  ghost function Exchange(m: Mat, k: nat, c: nat): (r: Mat)
    requires IsMat(m, k, k) && c < k
    ensures IsMat(r, k, k)
  {
    seq(k, i requires 0 <= i < k => if i == c then PivotRow(m[c], c) else OtherRow(m[i], PivotRow(m[c], c), c))
  }

  /** The product of the scaled pivot row with the exchanged vector. */
  lemma PivotRowProduct(row: Vec, c: nat, w: Vec, t: GF)
    requires c < |row| == |w| && row[c] != 0
    ensures Dot(PivotRow(row, c), w[c := t]) == Add(Mul(Inv(row[c]), Add(Dot(row, w), t)), w[c])
  {
    var n := |row|;
    var one := row[c := 1];
    var a, ai, x := row[c], Inv(row[c]), w[c];
    hide Add, Mul, DotTo, Inv;
    DotToScale(PivotRow(row, c), ai, one, w[c := t], n);
    DotToUpdate(one, w, c, t, n);
    DotToComm(one, w, n);
    DotToUpdate(w, row, c, 1, n);
    DotToComm(w, row, n);
    MulOne(Add(t, x)); 
    var d := Dot(row, w);
    MulComm(x, Add(1, a));
    InvCorrect(a);
    PivotAlgebra(a, ai, x, t, d);
  }

  lemma PivotAlgebra(a: GF, ai: GF, x: GF, t: GF, d: GF)
    requires Mul(ai, a) == 1
    ensures Mul(ai, Add(Add(d, Mul(Add(1, a), x)), Add(t, x))) == Add(Mul(ai, Add(d, t)), x)
  {
    hide *;
    MulAddLeft(1, a, x); MulOne(x);
    AddSwap(d, Add(x, Mul(a, x)), t, x);
    AddComm(x, Mul(a, x)); AddCancel(Mul(a, x), x);
    MulAddRight(ai, Add(d, t), Mul(a, x));
    MulAssoc(ai, a, x);
  }

  /** The product of an eliminated row with the exchanged vector. */
  lemma OtherRowProduct(row: Vec, p: Vec, c: nat, w: Vec, t: GF)
    requires c < |row| == |w| == |p|
    requires Dot(p, w[c := t]) == w[c]
    ensures Dot(OtherRow(row, p, c), w[c := t]) == Dot(row, w)
  {
    var n := |row|;
    var zero := row[c := 0];
    var b, x := row[c], w[c];
    hide Add, Mul, DotTo;
    DotToCombine(OtherRow(row, p, c), zero, b, p, w[c := t], n);
    DotToUpdate(zero, w, c, t, n);
    MulZero(Add(t, x)); 
    DotToComm(zero, w, n);
    DotToUpdate(w, row, c, 0, n);
    DotToComm(w, row, n);
    AddZero(b); MulComm(x, b);
    AddZero(Dot(zero, w));
    AddCancel(Dot(row, w), Mul(b, x));
  }

  /** Exchanging coordinate c of argument and value is what `Exchange` realises. */
  lemma ExchangeCorrect(m: Mat, k: nat, c: nat, w: Vec, z: Vec)
    requires IsMat(m, k, k) && c < k && m[c][c] != 0 && |w| == k && |z| == k
    ensures Maps(m, w, z) <==> Maps(Exchange(m, k, c), w[c := z[c]], z[c := w[c]])
  {
    var m' := Exchange(m, k, c);
    var w', z' := w[c := z[c]], z[c := w[c]];
    var p := PivotRow(m[c], c);
    PivotRowProduct(m[c], c, w, z[c]);
    var d, ai := Dot(m[c], w), Inv(m[c][c]);
    hide Add, Mul, Dot, Inv, PivotRow, OtherRow;
    InvCorrect(m[c][c]);
    PivotSolved(ai, d, z[c], w[c]);
    assert m'[c] == p;
    if Dot(p, w') == w[c] {
      forall i | 0 <= i < k && i != c
        ensures Dot(m'[i], w') == Dot(m[i], w)
      {
        OtherRowProduct(m[i], p, c, w, z[c]);
      }
    }
  }

  lemma PivotSolved(ai: GF, d: GF, t: GF, x: GF)
    requires ai != 0
    ensures Add(Mul(ai, Add(d, t)), x) == x <==> d == t
  {
    hide *;
    var e := Mul(ai, Add(d, t));
    AddCancel(e, x); AddSelf(x); AddZero(x);
    if d == t { AddSelf(d); MulZero(ai); }
    if e == 0 { NoZeroDivisors(ai, Add(d, t)); AddCancel(d, t); AddZero(t); }
  }

  // ---------- progress of the elimination ----------

  /** u where the position is used, v elsewhere. */
  function Mix(used: seq<bool>, u: Vec, v: Vec): (r: Vec)
    requires |used| == |u| == |v|
    ensures |r| == |u| && forall i :: 0 <= i < |u| ==> r[i] == if used[i] then u[i] else v[i]
  {
    seq(|u|, i requires 0 <= i < |u| => if used[i] then u[i] else v[i])
  }

  ghost predicate IsIndexMap(sigma: seq<nat>, k: nat) {
    |sigma| == k && forall i :: 0 <= i < k ==> sigma[i] < k
  }

  function Permuted(sigma: seq<nat>, y: Vec): (r: Vec)
    requires IsIndexMap(sigma, |y|)
    ensures |r| == |y| && forall i :: 0 <= i < |y| ==> r[i] == y[sigma[i]]
  {
    seq(|y|, i requires 0 <= i < |y| => y[sigma[i]])
  }

  /** m is the original matrix a with the used coordinates of argument and value
      exchanged; sigma tells which original row each current row comes from. */
  ghost predicate Exchanged(a: Mat, m: Mat, k: nat, used: seq<bool>, sigma: seq<nat>)
    requires IsMat(a, k, k) && IsMat(m, k, k) && |used| == k && IsIndexMap(sigma, k)
  {
    forall x: Vec, y: Vec :: |x| == k && |y| == k ==>
      (Maps(a, x, y) <==> Maps(m, Mix(used, Permuted(sigma, y), x), Mix(used, x, Permuted(sigma, y))))
  }

  function Swapped<T>(s: seq<T>, p: nat, q: nat): (r: seq<T>)
    requires p < |s| && q < |s|
    ensures |r| == |s|
  {
    s[p := s[q]][q := s[p]]
  }

  function Identity(k: nat): (sigma: seq<nat>)
    ensures IsIndexMap(sigma, k) && forall i :: 0 <= i < k ==> sigma[i] == i
  {
    seq(k, i => i)
  }

  lemma ExchangedInitially(a: Mat, k: nat)
    requires IsMat(a, k, k)
    ensures Exchanged(a, a, k, seq(k, i => false), Identity(k))
  {
    var used := seq(k, i => false);
    hide Maps;
    forall x: Vec, y: Vec | |x| == k && |y| == k
      ensures Mix(used, Permuted(Identity(k), y), x) == x && Mix(used, x, Permuted(Identity(k), y)) == y
    {
    }
  }

  lemma MapsSwapRows(m: Mat, k: nat, w: Vec, z: Vec, p: nat, q: nat)
    requires IsMat(m, k, k) && |w| == k && |z| == k && p < k && q < k
    ensures Maps(m, w, z) <==> Maps(Swapped(m, p, q), w, Swapped(z, p, q))
  {
    var m', z' := Swapped(m, p, q), Swapped(z, p, q);
    hide Dot;
    if Maps(m', w, z') {
      forall i | 0 <= i < k
        ensures Dot(m[i], w) == z[i]
      {
        var j := if i == p then q else if i == q then p else i;
        assert m'[j] == m[i] && z'[j] == z[i];
      }
    }
  }

  /** Swapping two unused rows. */
  lemma ExchangedSwap(a: Mat, m: Mat, k: nat, used: seq<bool>, sigma: seq<nat>, p: nat, q: nat)
    requires IsMat(a, k, k) && IsMat(m, k, k) && |used| == k && IsIndexMap(sigma, k)
    requires p < k && q < k && !used[p] && !used[q]
    requires Exchanged(a, m, k, used, sigma)
    ensures Exchanged(a, Swapped(m, p, q), k, used, Swapped(sigma, p, q))
  {
    var tau := Swapped(sigma, p, q);
    hide Maps;
    forall x: Vec, y: Vec | |x| == k && |y| == k
      ensures Maps(a, x, y) <==> Maps(Swapped(m, p, q), Mix(used, Permuted(tau, y), x), Mix(used, x, Permuted(tau, y)))
    {
      var w, z := Mix(used, Permuted(sigma, y), x), Mix(used, x, Permuted(sigma, y));
      MapsSwapRows(m, k, w, z, p, q);
      assert Mix(used, Permuted(tau, y), x) == w;
      assert Mix(used, x, Permuted(tau, y)) == Swapped(z, p, q);
    }
  }

  /** Pivoting on an unused diagonal position. */
  lemma ExchangedPivot(a: Mat, m: Mat, k: nat, used: seq<bool>, sigma: seq<nat>, c: nat)
    requires IsMat(a, k, k) && IsMat(m, k, k) && |used| == k && IsIndexMap(sigma, k)
    requires c < k && !used[c] && m[c][c] != 0
    requires Exchanged(a, m, k, used, sigma)
    ensures Exchanged(a, Exchange(m, k, c), k, used[c := true], sigma)
  {
    var used' := used[c := true];
    hide Maps, Exchange;
    forall x: Vec, y: Vec | |x| == k && |y| == k
      ensures Maps(a, x, y) <==>
              Maps(Exchange(m, k, c), Mix(used', Permuted(sigma, y), x), Mix(used', x, Permuted(sigma, y)))
    {
      var w, z := Mix(used, Permuted(sigma, y), x), Mix(used, x, Permuted(sigma, y));
      ExchangeCorrect(m, k, c, w, z);
      assert Mix(used', Permuted(sigma, y), x) == w[c := z[c]];
      assert Mix(used', x, Permuted(sigma, y)) == z[c := w[c]];
    }
  }

  function Product(m: Mat, w: Vec): (z: Vec)
    requires IsMat(m, |m|, |w|)
    ensures |z| == |m| && forall i :: 0 <= i < |m| ==> z[i] == Dot(m[i], w)
  {
    seq(|m|, i requires 0 <= i < |m| => Dot(m[i], w))
  }

  /** A unit vector picks a column. */
  lemma DotUnit(u: Vec, c: nat)
    requires c < |u|
    ensures Dot(u, Zeros(|u|)[c := 1]) == u[c]
  {
    var n := |u|;
    hide Add, Mul, DotTo;
    DotToUpdate(u, Zeros(n), c, 1, n);
    DotToZero(u, Zeros(n), n);
    AddZero(1); MulOne(u[c]); AddZero(u[c]);
  }

  ghost predicate HasPivot(m: Mat, k: nat, used: seq<bool>)
    requires IsMat(m, k, k) && |used| == k
  {
    exists r, j :: 0 <= r < k && 0 <= j < k && !used[r] && !used[j] && m[r][j] != 0
  }

  /** Without a usable pivot, some vector other than zero is mapped to zero. */
  lemma KernelVector(a: Mat, m: Mat, k: nat, used: seq<bool>, sigma: seq<nat>, c: nat) returns (x: Vec)
    requires IsMat(a, k, k) && IsMat(m, k, k) && |used| == k && IsIndexMap(sigma, k)
    requires Exchanged(a, m, k, used, sigma)
    requires c < k && !used[c]
    requires !HasPivot(m, k, used)
    ensures |x| == k && x[c] == 1 && Maps(a, x, Zeros(k))
  {
    var w := Zeros(k)[c := 1];
    var z := Product(m, w);
    forall r | 0 <= r < k
      ensures z[r] == m[r][c]
    {
      DotUnit(m[r], c);
    }
    hide Dot;
    var y := Zeros(k);
    x := Mix(used, z, w);
    assert Mix(used, Permuted(sigma, y), x) == w;
    assert Mix(used, x, Permuted(sigma, y)) == z;
    assert Maps(m, w, z);
    hide Maps;
  }

  /** While an unused column remains, a nonsingular matrix has a usable pivot. */
  lemma PivotExists(a: Mat, m: Mat, k: nat, used: seq<bool>, sigma: seq<nat>, c: nat)
    requires IsMat(a, k, k) && IsMat(m, k, k) && |used| == k && IsIndexMap(sigma, k)
    requires Exchanged(a, m, k, used, sigma) && Nonsingular(a, k)
    requires c < k && !used[c]
    ensures HasPivot(m, k, used)
  {
    hide Maps, Exchanged;
    if !HasPivot(m, k, used) {
      var x := KernelVector(a, m, k, used, sigma, c);
    }
  }

  // ---------- undoing the row swaps ----------

  function SwappedColumns(m: Mat, p: nat, q: nat): (r: Mat)
    requires forall i :: 0 <= i < |m| ==> p < |m[i]| && q < |m[i]|
    ensures |r| == |m| && forall i :: 0 <= i < |m| ==> r[i] == Swapped(m[i], p, q)
  {
    seq(|m|, i requires 0 <= i < |m| => Swapped(m[i], p, q))
  }

  lemma DotSwap(u: Vec, w: Vec, p: nat, q: nat)
    requires |u| == |w| && p < |u| && q < |u|
    ensures Dot(Swapped(u, p, q), Swapped(w, p, q)) == Dot(u, w)
  {
    var n := |u|;
    hide Add, Mul, DotTo;
    if p != q {
      // through the vectors that are zero at p and q
      var u0, w0 := u[p := 0][q := 0], w[p := 0][q := 0];
      DotTwo(u, w, p, q);
      DotTwo(Swapped(u, p, q), Swapped(w, p, q), p, q);
      assert Swapped(u, p, q)[p := 0][q := 0] == u0;
      assert Swapped(w, p, q)[p := 0][q := 0] == w0;
      AddRotate(Dot(u0, w0), Mul(u[p], w[p]), Mul(u[q], w[q]));
    } else {
      assert Swapped(u, p, q) == u && Swapped(w, p, q) == w;
    }
  }

  lemma DotTwo(u: Vec, w: Vec, p: nat, q: nat)
    requires |u| == |w| && p < |u| && q < |u| && p != q
    ensures Dot(u, w) == Add(Add(Dot(u[p := 0][q := 0], w[p := 0][q := 0]), Mul(u[p], w[p])), Mul(u[q], w[q]))
  {
    DotOne(u, w, q);
    DotOne(u[q := 0], w[q := 0], p);
    assert u[q := 0][p := 0] == u[p := 0][q := 0];
    assert w[q := 0][p := 0] == w[p := 0][q := 0];
  }

  lemma DotOne(u: Vec, w: Vec, q: nat)
    requires |u| == |w| && q < |u|
    ensures Dot(u, w) == Add(Dot(u[q := 0], w[q := 0]), Mul(u[q], w[q]))
  {
    var n := |u|;
    hide Add, Mul, DotTo;
    DotToUpdate(u[q := 0], w, q, 0, n);
    MulZero(Add(0, w[q])); AddZero(DotTo(u[q := 0], w, n));
    DotToComm(u[q := 0], w, n);
    DotToUpdate(w, u, q, 0, n);
    DotToComm(w, u, n);
    AddZero(u[q]); MulComm(w[q], u[q]);
    AddCancel(Dot(u, w), Mul(u[q], w[q]));
  }

  /** b, with its argument taken in the order sigma, is inverse to a. */
  ghost predicate InverseUpTo(a: Mat, b: Mat, k: nat, sigma: seq<nat>)
    requires IsMat(a, k, k) && IsMat(b, k, k) && IsIndexMap(sigma, k)
  {
    forall x: Vec, y: Vec :: |x| == k && |y| == k ==> (Maps(a, x, y) <==> Maps(b, Permuted(sigma, y), x))
  }

  lemma ExchangedFully(a: Mat, m: Mat, k: nat, used: seq<bool>, sigma: seq<nat>)
    requires IsMat(a, k, k) && IsMat(m, k, k) && |used| == k && IsIndexMap(sigma, k)
    requires Exchanged(a, m, k, used, sigma) && forall i :: 0 <= i < k ==> used[i]
    ensures InverseUpTo(a, m, k, sigma)
  {
    hide Maps;
    forall x: Vec, y: Vec | |x| == k && |y| == k
      ensures Mix(used, Permuted(sigma, y), x) == Permuted(sigma, y) && Mix(used, x, Permuted(sigma, y)) == x
    {
    }
  }

  lemma UnscrambleStep(a: Mat, m: Mat, k: nat, sigma: seq<nat>, p: nat, q: nat)
    requires IsMat(a, k, k) && IsMat(m, k, k) && IsIndexMap(sigma, k) && p < k && q < k
    requires InverseUpTo(a, m, k, Swapped(sigma, p, q))
    ensures InverseUpTo(a, SwappedColumns(m, p, q), k, sigma)
  {
    var m' := SwappedColumns(m, p, q);
    forall x: Vec, y: Vec | |x| == k && |y| == k
      ensures Maps(a, x, y) <==> Maps(m', Permuted(sigma, y), x)
    {
      var w := Permuted(Swapped(sigma, p, q), y);
      assert Swapped(w, p, q) == Permuted(sigma, y);
      forall i | 0 <= i < k
        ensures Dot(m'[i], Permuted(sigma, y)) == Dot(m[i], w)
      {
        DotSwap(m[i], w, p, q);
      }
      hide Dot;
      assert Maps(m', Permuted(sigma, y), x) <==> Maps(m, w, x);
      hide Maps;
    }
  }

  lemma UnscrambledFully(a: Mat, m: Mat, k: nat)
    requires IsMat(a, k, k) && IsMat(m, k, k)
    requires InverseUpTo(a, m, k, Identity(k))
    ensures Inverse(a, m, k)
  {
    hide Maps;
    forall x: Vec, y: Vec | |x| == k && |y| == k
      ensures Permuted(Identity(k), y) == y
    {
    }
  }

  // ---------- products of a row with a matrix ----------

  function Column(m: Mat, j: nat): (v: Vec)
    requires forall i :: 0 <= i < |m| ==> j < |m[i]|
    ensures |v| == |m| && forall i :: 0 <= i < |m| ==> v[i] == m[i][j]
  {
    seq(|m|, i requires 0 <= i < |m| => m[i][j])
  }

  /** The combination of the first n rows of m with the coefficients u. */
  function RowTimes(u: Vec, m: Mat, cols: nat, n: nat): (v: Vec)
    requires n <= |u| == |m| && IsMat(m, |u|, cols)
    ensures |v| == cols
  {
    if n == 0 then Zeros(cols) else Combined(RowTimes(u, m, cols, n - 1), u[n - 1], m[n - 1])
  }

  lemma {:induction false} RowTimesAt(u: Vec, m: Mat, cols: nat, n: nat, j: nat)
    requires n <= |u| == |m| && IsMat(m, |u|, cols) && j < cols
    ensures RowTimes(u, m, cols, n)[j] == DotTo(u, Column(m, j), n)
  {
    hide Add, Mul;
    if n > 0 { RowTimesAt(u, m, cols, n - 1, j); }
  }

  /** u (m y) = (u m) y */
  lemma {:induction false} DotAssoc(u: Vec, m: Mat, y: Vec, n: nat)
    requires n <= |u| == |m| && IsMat(m, |u|, |y|)
    ensures DotTo(u, Product(m, y), n) == Dot(RowTimes(u, m, |y|, n), y)
  {
    hide Add, Mul;
    if n == 0 {
      DotToZero(Zeros(|y|), y, |y|);
    } else {
      DotAssoc(u, m, y, n - 1);
      var w := RowTimes(u, m, |y|, n - 1);
      DotToCombine(RowTimes(u, m, |y|, n), w, u[n - 1], m[n - 1], y, |y|);
    }
  }

  /** The unit vector at c. */
  function Unit(k: nat, c: nat): (v: Vec)
    requires c < k
    ensures |v| == k && forall i :: 0 <= i < k ==> v[i] == if i == c then 1 else 0
  {
    Zeros(k)[c := 1]
  }

  /** Every column of r is mapped by m to the unit vector of its number. */
  ghost predicate RightInverse(m: Mat, r: Mat, k: nat)
    requires IsMat(m, k, k) && IsMat(r, k, k)
  {
    forall c :: 0 <= c < k ==> Maps(m, Column(r, c), Unit(k, c))
  }

  lemma RightInverseRow(m: Mat, r: Mat, k: nat, i: nat, y: Vec)
    requires IsMat(m, k, k) && IsMat(r, k, k) && |y| == k && i < k
    requires RightInverse(m, r, k)
    ensures Dot(m[i], Product(r, y)) == y[i]
  {
    var w := RowTimes(m[i], r, k, k);
    hide Add, Mul, DotTo;
    DotAssoc(m[i], r, y, k);
    forall c | 0 <= c < k
      ensures w[c] == Unit(k, i)[c]
    {
      RowTimesAt(m[i], r, k, k, c);
      assert Maps(m, Column(r, c), Unit(k, c));
      assert Dot(m[i], Column(r, c)) == Unit(k, c)[i];
    }
    assert w == Unit(k, i);
    DotToComm(w, y, k);
    DotUnit(y, i);
  }

  /** For a nonsingular matrix the columns decide whether r is its inverse. */
  lemma InverseByColumns(m: Mat, r: Mat, k: nat)
    requires IsMat(m, k, k) && IsMat(r, k, k) && Nonsingular(m, k)
    ensures Inverse(m, r, k) <==> RightInverse(m, r, k)
  {
    hide Add, Mul, Dot;
    if RightInverse(m, r, k) {
      forall x: Vec, y: Vec | |x| == k && |y| == k
        ensures Maps(m, x, y) <==> Maps(r, y, x)
      {
        var z := Product(r, y);
        forall i | 0 <= i < k
          ensures Dot(m[i], z) == y[i]
        {
          RightInverseRow(m, r, k, i, y);
        }
        if Maps(m, x, y) { NonsingularUnique(m, k, x, z, y); }
        if Maps(r, y, x) { assert x == z; }
      }
    }
    if Inverse(m, r, k) {
      forall c | 0 <= c < k
        ensures Maps(m, Column(r, c), Unit(k, c))
      {
        forall i | 0 <= i < k
          ensures Dot(r[i], Unit(k, c)) == r[i][c]
        {
          DotUnit(r[i], c);
        }
        assert Maps(r, Unit(k, c), Column(r, c));
      }
    }
  }

  lemma NonsingularUnique(m: Mat, k: nat, x: Vec, z: Vec, y: Vec)
    requires IsMat(m, k, k) && |x| == |z| == |y| == k && Nonsingular(m, k)
    requires Maps(m, x, y) && Maps(m, z, y)
    ensures x == z
  {
    hide Add, Mul, DotTo;
    MulOneAll(z);
    var d := Combined(x, 1, z);
    forall i | 0 <= i < k
      ensures Dot(m[i], d) == 0
    {
      DotToComm(m[i], d, k); DotToComm(m[i], x, k); DotToComm(m[i], z, k);
      DotToCombine(d, x, 1, z, m[i], k);
      MulOne(y[i]); AddSelf(y[i]);
    }
    assert d == Zeros(k) by { hide Dot; assert Maps(m, d, Zeros(k)); }
    forall i | 0 <= i < k
      ensures x[i] == z[i]
    {
      assert d[i] == 0;
      AddCancel(x[i], z[i]); AddZero(z[i]);
    }
  }

  lemma MulOneAll(z: Vec)
    ensures forall i :: 0 <= i < |z| ==> Mul(1, z[i]) == z[i]
  {
    forall i | 0 <= i < |z| ensures Mul(1, z[i]) == z[i] { MulOne(z[i]); }
  }
}
