/** `_invert_mat` of src/zfex.c: in-place Gauss-Jordan elimination with full pivoting. */
module GaussJordan {
  import opened Bytes
  import opened GaloisField
  import opened GaloisPowers
  import opened GaloisTables
  import opened LinearAlgebra
  import opened MultiplyAdd
  import opened MatrixBuffer

  ghost predicate IsBuffer(t: Tables, src: array<GF>, k: nat) {
    src.Length == k * k && src != t.exp && src != t.inverse
  }

  /** Columns below n of cur are those of target, the others those of m. */
  ghost predicate ColumnsDone(m: Mat, target: Mat, cur: Mat, k: nat, n: nat)
    requires IsMat(m, k, k) && IsMat(target, k, k) && IsMat(cur, k, k)
  {
    forall r, j :: 0 <= r < k && 0 <= j < k ==> cur[r][j] == if j < n then target[r][j] else m[r][j]
  }

  lemma ColumnsAllDone(m: Mat, target: Mat, cur: Mat, k: nat)
    requires IsMat(m, k, k) && IsMat(target, k, k) && IsMat(cur, k, k)
    requires ColumnsDone(m, target, cur, k, k)
    ensures cur == target
  {
    forall r | 0 <= r < k ensures cur[r] == target[r] {}
  }

  /** `SWAP` of two cells in column j. */
  method SwapCells(src: array<GF>, k: nat, p: nat, q: nat, j: nat)
    requires src.Length == k * k && p < k && q < k && j < k
    modifies src
    ensures Rows(src[..], k, k) == CellsSwapped(Rows(old(src[..]), k, k), k, p, j, q, j)
  {
    var t := Get(src, k, k, p, j);
    Put(src, k, k, p, j, Get(src, k, k, q, j));
    Put(src, k, k, q, j, t);
  }

  /** Entries (p, i) and (q, j) traded. */
  ghost function CellsSwapped(m: Mat, k: nat, p: nat, i: nat, q: nat, j: nat): (r: Mat)
    requires IsMat(m, k, k) && p < k && q < k && i < k && j < k
    ensures IsMat(r, k, k)
    ensures forall a, b :: 0 <= a < k && 0 <= b < k ==>
              r[a][b] == if a == q && b == j then m[p][i] else if a == p && b == i then m[q][j] else m[a][b]
  {
    WithEntry(WithEntry(m, p, i, m[q][j]), q, j, m[p][i])
  }

  lemma SwapColumnDone(m: Mat, cur: Mat, k: nat, p: nat, q: nat, j: nat)
    requires IsMat(m, k, k) && IsMat(cur, k, k) && p < k && q < k && j < k
    requires ColumnsDone(m, Swapped(m, p, q), cur, k, j)
    ensures ColumnsDone(m, Swapped(m, p, q), CellsSwapped(cur, k, p, j, q, j), k, j + 1)
  {}

  method SwapRows(src: array<GF>, k: nat, p: nat, q: nat)
    requires src.Length == k * k && p < k && q < k
    modifies src
    ensures Rows(src[..], k, k) == Swapped(Rows(old(src[..]), k, k), p, q)
  {
    ghost var m := Rows(src[..], k, k);
    hide CellsSwapped, Swapped, ColumnsDone;
    assert ColumnsDone(m, Swapped(m, p, q), m, k, 0) by { NoColumns(m, Swapped(m, p, q), k); }
    for ix := 0 to k
      invariant ColumnsDone(m, Swapped(m, p, q), Rows(src[..], k, k), k, ix)
    {
      SwapColumnDone(m, Rows(src[..], k, k), k, p, q, ix);
      SwapCells(src, k, p, q, ix);
    }
    ColumnsAllDone(m, Swapped(m, p, q), Rows(src[..], k, k), k);
  }

  lemma NoColumns(m: Mat, target: Mat, k: nat)
    requires IsMat(m, k, k) && IsMat(target, k, k)
    ensures ColumnsDone(m, target, m, k, 0)
  {}

  /** Scales row c by the inverse of its diagonal entry. */
  method NormalizeRow(t: Tables, src: array<GF>, k: nat, c: nat)
    requires t.Ready() && IsBuffer(t, src, k) && c < k
    requires Rows(src[..], k, k)[c][c] != 0
    modifies src
    ensures t.Ready()
    ensures Rows(src[..], k, k) == Rows(old(src[..]), k, k)[c := PivotRow(Rows(old(src[..]), k, k)[c], c)]
  {
    hide Add, Mul, Inv;
    ghost var m := Rows(src[..], k, k);
    ghost var target := m[c := PivotRow(m[c], c)];
    var x := Get(src, k, k, c, c);
    if x != 1 {
      x := t.inverse[x];
      Put(src, k, k, c, c, 1);
      ghost var one := WithEntry(m, c, c, 1);
      for ix := 0 to k
        invariant t.Ready()
        invariant ColumnsDone(one, target, Rows(src[..], k, k), k, ix)
      {
        Put(src, k, k, c, ix, t.Times(x, Get(src, k, k, c, ix)));
      }
      ColumnsAllDone(one, target, Rows(src[..], k, k), k);
    } else {
      LogOne();
      forall j | 0 <= j < k
        ensures PivotRow(m[c], c)[j] == m[c][j]
      {
        MulOne(m[c][j]);
      }
      assert PivotRow(m[c], c) == m[c];
      assert target == m;
    }
  }

  /** Is row c the unit row?  (The comparison with `id_row`.) */
  method IsUnitRow(src: array<GF>, k: nat, idRow: array<GF>, c: nat) returns (same: bool)
    requires src.Length == k * k && idRow.Length == k && c < k
    requires idRow[..] == Zeros(k)[c := 1]
    ensures same <==> Rows(src[..], k, k)[c] == Zeros(k)[c := 1]
  {
    same := true;
    for j := 0 to k
      invariant same <==> forall x :: 0 <= x < j ==> Rows(src[..], k, k)[c][x] == idRow[..][x]
    {
      if Get(src, k, k, c, j) != idRow[j] { same := false; }
    }
  }

  /** All rows but row c after elimination with row c. */
  ghost function Eliminated(m: Mat, k: nat, c: nat, n: nat): (r: Mat)
    requires IsMat(m, k, k) && c < k
    ensures IsMat(r, k, k)
  {
    seq(k, i requires 0 <= i < k => if i == c || i >= n then m[i] else OtherRow(m[i], m[c], c))
  }

  lemma EliminateNext(m: Mat, k: nat, c: nat, n: nat)
    requires IsMat(m, k, k) && c < k && n < k
    ensures Eliminated(m, k, c, n + 1)
            == if n == c then Eliminated(m, k, c, n) else Eliminated(m, k, c, n)[n := OtherRow(m[n], m[c], c)]
  {
    var e, f := Eliminated(m, k, c, n), Eliminated(m, k, c, n + 1);
    hide OtherRow;
    if n == c { assert e == f; } else { assert f == e[n := OtherRow(m[n], m[c], c)]; }
  }

  /** Clears column c in row r, by adding a multiple of row c. */
  method EliminateRow(t: Tables, src: array<GF>, k: nat, c: nat, r: nat)
    requires t.Ready() && IsBuffer(t, src, k) && c < k && r < k && r != c
    modifies src
    ensures t.Ready()
    ensures var m := Rows(old(src[..]), k, k);
            Rows(src[..], k, k) == m[r := OtherRow(m[r], m[c], c)]
  {
    hide Add, Mul, Inv;
    ghost var m := Rows(src[..], k, k);
    var x := Get(src, k, k, r, c);
    Put(src, k, k, r, c, 0);
    ghost var m1 := Rows(src[..], k, k);
    RowsAddmul(src[..], k, k, r, c, x);
    assert r * k + k <= c * k || c * k + k <= r * k by {
      if r < c { RowsApart(r, c, k); } else { RowsApart(c, r, k); }
    }
    Addmul(t, src, r * k, src, c * k, x, k);
    assert m1[r] == m[r][c := 0];
    assert m1[r := Combined(m1[r], x, m1[c])] == m[r := OtherRow(m[r], m[c], c)];
  }

  /** Clears column c in all rows but row c. */
  method EliminateRows(t: Tables, src: array<GF>, k: nat, c: nat)
    requires t.Ready() && IsBuffer(t, src, k) && c < k
    modifies src
    ensures t.Ready()
    ensures Rows(src[..], k, k) == Eliminated(Rows(old(src[..]), k, k), k, c, k)
  {
    hide Add, Mul, Inv, OtherRow;
    ghost var m := Rows(src[..], k, k);
    assert Eliminated(m, k, c, 0) == m;
    for ix := 0 to k
      invariant t.Ready()
      invariant Rows(src[..], k, k) == Eliminated(m, k, c, ix)
    {
      EliminateNext(m, k, c, ix);
      if ix != c {
        EliminateRow(t, src, k, c, ix);
      }
    }
  }

  /** A unit pivot row leaves the other rows as they are. */
  lemma UnitElimination(m: Mat, k: nat, c: nat)
    requires IsMat(m, k, k) && c < k && m[c] == Zeros(k)[c := 1]
    ensures Eliminated(m, k, c, k) == m
  {
    hide Add, Mul;
    forall i | 0 <= i < k && i != c
      ensures OtherRow(m[i], m[c], c) == m[i]
    {
      forall j | 0 <= j < k
        ensures OtherRow(m[i], m[c], c)[j] == m[i][j]
      {
        MulZero(m[i][c]); MulOne(m[i][c]); AddZero(m[i][j]);
      }
    }
  }

  /** The pivot search: the diagonal first, then every unused row and column. */
  method FindPivot(src: array<GF>, k: nat, col: nat, ipiv: array<nat>) returns (irow: nat, icol: nat)
    requires src.Length == k * k && ipiv.Length == k && col < k
    requires forall i :: 0 <= i < k ==> ipiv[i] <= 1
    requires HasPivot(Rows(src[..], k, k), k, Used(ipiv[..]))
    ensures irow < k && icol < k && ipiv[irow] == 0 && ipiv[icol] == 0
    ensures Rows(src[..], k, k)[irow][icol] != 0
  {
    if ipiv[col] != 1 && Get(src, k, k, col, col) != 0 {
      return col, col;
    }
    ghost var m := Rows(src[..], k, k);
    for row := 0 to k
      invariant forall r, j :: 0 <= r < row && 0 <= j < k && ipiv[r] == 0 && ipiv[j] == 0 ==> m[r][j] == 0
    {
      if ipiv[row] != 1 {
        for ix := 0 to k
          invariant forall j :: 0 <= j < ix && ipiv[j] == 0 ==> m[row][j] == 0
        {
          if ipiv[ix] == 0 {
            if Get(src, k, k, row, ix) != 0 {
              return row, ix;
            }
          }
        }
      }
    }
    assert false;
  }

  ghost function Used(ipiv: seq<nat>): (used: seq<bool>)
    ensures |used| == |ipiv| && forall i :: 0 <= i < |ipiv| ==> (used[i] <==> ipiv[i] == 1)
  {
    seq(|ipiv|, i requires 0 <= i < |ipiv| => ipiv[i] == 1)
  }

  /** The loop body of the elimination, on values. */
  ghost function Pivoted(m: Mat, k: nat, p: nat, q: nat): (r: Mat)
    requires IsMat(m, k, k) && p < k && q < k
    ensures IsMat(r, k, k)
  {
    var m1 := Swapped(m, p, q);
    Eliminated(m1[q := PivotRow(m1[q], q)], k, q, k)
  }

  lemma PivotStep(a: Mat, m: Mat, k: nat, used: seq<bool>, sigma: seq<nat>, p: nat, q: nat)
    requires IsMat(a, k, k) && IsMat(m, k, k) && |used| == k && IsIndexMap(sigma, k)
    requires p < k && q < k && !used[p] && !used[q] && m[p][q] != 0
    requires Exchanged(a, m, k, used, sigma)
    ensures Exchanged(a, Pivoted(m, k, p, q), k, used[q := true], Swapped(sigma, p, q))
  {
    hide Exchanged, PivotRow, OtherRow;
    var m1 := Swapped(m, p, q);
    ExchangedSwap(a, m, k, used, sigma, p, q);
    ExchangedPivot(a, m1, k, used, Swapped(sigma, p, q), q);
    var m2, e := m1[q := PivotRow(m1[q], q)], Exchange(m1, k, q);
    assert Eliminated(m2, k, q, k) == e;
  }

  ghost predicate Bookkeeping(k: nat, n: nat, indxr: seq<nat>, indxc: seq<nat>, history: seq<seq<nat>>) {
    && n <= k && |indxr| == k && |indxc| == k && |history| == n + 1
    && history[0] == Identity(k)
    && (forall l :: 0 <= l <= n ==> IsIndexMap(history[l], k))
    && (forall l :: 0 <= l < n ==> indxr[l] < k && indxc[l] < k && history[l + 1] == Swapped(history[l], indxr[l], indxc[l]))
  }

  /** The positions not used yet. */
  ghost function Unused(used: seq<bool>): set<nat> {
    set i: nat | i < |used| && !used[i]
  }

  lemma UnusedInitially(k: nat)
    ensures |Unused(seq(k, i => false))| == k
  {
    BelowCount(k);
    assert Unused(seq(k, i => false)) == Below(k);
  }

  ghost function Below(k: nat): (s: set<nat>)
    ensures forall i: nat :: i in s <==> i < k
  {
    if k == 0 then {} else Below(k - 1) + {k - 1}
  }

  lemma {:induction false} BelowCount(k: nat)
    ensures |Below(k)| == k
  {
    if k > 0 {
      BelowCount(k - 1);
    }
  }

  lemma UseOne(used: seq<bool>, c: nat)
    requires c < |used| && !used[c]
    ensures |Unused(used[c := true])| == |Unused(used)| - 1
  {
    assert Unused(used[c := true]) == Unused(used) - {c};
  }

  lemma SomeUnused(used: seq<bool>) returns (c: nat)
    requires |Unused(used)| > 0
    ensures c < |used| && !used[c]
  {
    c :| c in Unused(used);
  }

  lemma NoneUnused(used: seq<bool>)
    requires |Unused(used)| == 0
    ensures forall i :: 0 <= i < |used| ==> used[i]
  {
    assert Unused(used) == {};
    forall i | 0 <= i < |used|
      ensures used[i]
    {
      assert i in Unused(used) <==> !used[i];
    }
  }

  /** One round of the elimination loop. */
  method PivotRound(t: Tables, src: array<GF>, k: nat, ipiv: array<nat>, idRow: array<GF>, irow: nat, icol: nat)
    requires t.Ready() && IsBuffer(t, src, k) && ipiv.Length == k && idRow.Length == k
    requires idRow != src && idRow != t.exp && idRow != t.inverse
    requires idRow[..] == Zeros(k)
    requires irow < k && icol < k && Rows(src[..], k, k)[irow][icol] != 0
    modifies src, idRow
    ensures t.Ready() && idRow[..] == Zeros(k)
    ensures Rows(src[..], k, k) == Pivoted(Rows(old(src[..]), k, k), k, irow, icol)
  {
    hide Add, Mul, Inv, PivotRow, OtherRow, Eliminated;
    ghost var m := Rows(src[..], k, k);
    if irow != icol {
      SwapRows(src, k, irow, icol);
    }
    assert Rows(src[..], k, k) == Swapped(m, irow, icol);
    NormalizeRow(t, src, k, icol);
    ghost var m2 := Rows(src[..], k, k);
    idRow[icol] := 1;
    assert idRow[..] == Zeros(k)[icol := 1];
    var same := IsUnitRow(src, k, idRow, icol);
    if !same {
      EliminateRows(t, src, k, icol);
    } else {
      UnitElimination(m2, k, icol);
    }
    idRow[icol] := 0;
    assert idRow[..] == Zeros(k);
  }

  lemma BookkeepingStep(k: nat, n: nat, indxr: seq<nat>, indxc: seq<nat>, history: seq<seq<nat>>, p: nat, q: nat)
    requires Bookkeeping(k, n, indxr, indxc, history) && n < k && p < k && q < k
    ensures Bookkeeping(k, n + 1, indxr[n := p], indxc[n := q], history + [Swapped(history[n], p, q)])
  {}

  /** The state of the elimination loop before column n. */
  ghost predicate Progress(a: Mat, m: Mat, k: nat, n: nat, ipiv: seq<nat>, indxr: seq<nat>, indxc: seq<nat>, history: seq<seq<nat>>)
    requires IsMat(a, k, k) && IsMat(m, k, k) && |ipiv| == k
  {
    && (forall i :: 0 <= i < k ==> ipiv[i] <= 1)
    && Bookkeeping(k, n, indxr, indxc, history)
    && |Unused(Used(ipiv))| == k - n
    && Exchanged(a, m, k, Used(ipiv), history[n])
  }

  lemma ProgressInitially(a: Mat, k: nat, ipiv: seq<nat>, indxr: seq<nat>, indxc: seq<nat>)
    requires IsMat(a, k, k) && |ipiv| == |indxr| == |indxc| == k && forall i :: 0 <= i < k ==> ipiv[i] == 0
    ensures Progress(a, a, k, 0, ipiv, indxr, indxc, [Identity(k)])
  {
    hide Exchanged;
    assert Used(ipiv) == seq(k, i => false);
    ExchangedInitially(a, k);
    UnusedInitially(k);
  }

  lemma ProgressHasPivot(a: Mat, m: Mat, k: nat, n: nat, ipiv: seq<nat>, indxr: seq<nat>, indxc: seq<nat>, history: seq<seq<nat>>)
    requires IsMat(a, k, k) && IsMat(m, k, k) && |ipiv| == k && n < k && Nonsingular(a, k)
    requires Progress(a, m, k, n, ipiv, indxr, indxc, history)
    ensures HasPivot(m, k, Used(ipiv)) && forall i :: 0 <= i < k ==> ipiv[i] <= 1
  {
    hide Exchanged, HasPivot, Nonsingular;
    var c := SomeUnused(Used(ipiv));
    PivotExists(a, m, k, Used(ipiv), history[n], c);
  }

  lemma ProgressStep(a: Mat, m: Mat, k: nat, n: nat, ipiv: seq<nat>, indxr: seq<nat>, indxc: seq<nat>, history: seq<seq<nat>>,
                     p: nat, q: nat)
    requires IsMat(a, k, k) && IsMat(m, k, k) && |ipiv| == k && n < k
    requires Progress(a, m, k, n, ipiv, indxr, indxc, history)
    requires p < k && q < k && ipiv[p] == 0 && ipiv[q] == 0 && m[p][q] != 0
    ensures |indxr| == |indxc| == k && |history| == n + 1 && IsIndexMap(history[n], k)
    ensures Progress(a, Pivoted(m, k, p, q), k, n + 1, ipiv[q := 1], indxr[n := p], indxc[n := q],
                     history + [Swapped(history[n], p, q)])
  {
    hide Exchanged, Pivoted;
    var used := Used(ipiv);
    BookkeepingStep(k, n, indxr, indxc, history, p, q);
    PivotStep(a, m, k, used, history[n], p, q);
    UseOne(used, q);
    assert Used(ipiv[q := 1]) == used[q := true];
  }

  lemma ProgressFinally(a: Mat, m: Mat, k: nat, ipiv: seq<nat>, indxr: seq<nat>, indxc: seq<nat>, history: seq<seq<nat>>)
    requires IsMat(a, k, k) && IsMat(m, k, k) && |ipiv| == k
    requires Progress(a, m, k, k, ipiv, indxr, indxc, history)
    ensures Bookkeeping(k, k, indxr, indxc, history) && InverseUpTo(a, m, k, history[k])
  {
    hide Exchanged, InverseUpTo;
    NoneUnused(Used(ipiv));
    ExchangedFully(a, m, k, Used(ipiv), history[k]);
  }

  /** `_invert_mat` */
  method InvertMat(t: Tables, src: array<GF>, k: nat)
    requires t.Ready() && IsBuffer(t, src, k)
    requires Nonsingular(Rows(src[..], k, k), k)
    modifies src
    ensures t.Ready()
    ensures Inverse(Rows(old(src[..]), k, k), Rows(src[..], k, k), k)
  {
    hide Add, Mul, Inv, Progress, Pivoted, Nonsingular, Inverse, HasPivot, Bookkeeping, InverseUpTo;
    ghost var a := Rows(src[..], k, k);
    var indxc := new nat[k](i => 0);
    var indxr := new nat[k](i => 0);
    var ipiv := new nat[k](i => 0);
    var idRow := new GF[k](i => 0);
    assert idRow[..] == Zeros(k);
    ghost var history := [Identity(k)];
    ProgressInitially(a, k, ipiv[..], indxr[..], indxc[..]);
    for col := 0 to k
      invariant t.Ready() && idRow[..] == Zeros(k)
      invariant Progress(a, Rows(src[..], k, k), k, col, ipiv[..], indxr[..], indxc[..], history)
    {
      history := EliminateColumn(t, src, k, col, ipiv, indxr, indxc, idRow, a, history);
    }
    ProgressFinally(a, Rows(src[..], k, k), k, ipiv[..], indxr[..], indxc[..], history);
    Unscramble(src, k, indxr, indxc, a, history);
  }

  /** The body of the elimination loop. */
  method EliminateColumn(t: Tables, src: array<GF>, k: nat, col: nat, ipiv: array<nat>, indxr: array<nat>, indxc: array<nat>,
                         idRow: array<GF>, ghost a: Mat, ghost history: seq<seq<nat>>)
    returns (ghost history': seq<seq<nat>>)
    requires t.Ready() && IsBuffer(t, src, k) && col < k
    requires ipiv.Length == k && indxr.Length == k && indxc.Length == k && idRow.Length == k
    requires indxr != indxc && indxr != ipiv && indxc != ipiv
    requires t.log != indxr && t.log != indxc && t.log != ipiv
    requires idRow != src && idRow != t.exp && idRow != t.inverse
    requires idRow[..] == Zeros(k)
    requires IsMat(a, k, k) && Nonsingular(a, k)
    requires Progress(a, Rows(src[..], k, k), k, col, ipiv[..], indxr[..], indxc[..], history)
    modifies src, ipiv, indxr, indxc, idRow
    ensures t.Ready() && idRow[..] == Zeros(k)
    ensures Progress(a, Rows(src[..], k, k), k, col + 1, ipiv[..], indxr[..], indxc[..], history')
  {
    hide Add, Mul, Inv, Progress, Pivoted, Nonsingular, HasPivot;
    ghost var m, piv, r, c := Rows(src[..], k, k), ipiv[..], indxr[..], indxc[..];
    ProgressHasPivot(a, m, k, col, piv, r, c, history);
    var irow, icol := FindPivot(src, k, col, ipiv);
    ProgressStep(a, m, k, col, piv, r, c, history, irow, icol);
    PivotRound(t, src, k, ipiv, idRow, irow, icol);
    Record(k, col, ipiv, indxr, indxc, irow, icol);
    history' := history + [Swapped(history[col], irow, icol)];
  }

  /** Marks the pivot and notes its row and column. */
  method Record(k: nat, col: nat, ipiv: array<nat>, indxr: array<nat>, indxc: array<nat>, irow: nat, icol: nat)
    requires ipiv.Length == k && indxr.Length == k && indxc.Length == k
    requires indxr != indxc && indxr != ipiv && indxc != ipiv
    requires col < k && irow < k && icol < k && ipiv[icol] == 0
    modifies ipiv, indxr, indxc
    ensures ipiv[..] == old(ipiv[..])[icol := 1]
    ensures indxr[..] == old(indxr[..])[col := irow]
    ensures indxc[..] == old(indxc[..])[col := icol]
  {
    ipiv[icol] := ipiv[icol] + 1;
    indxr[col] := irow;
    indxc[col] := icol;
  }

  /** The final loop: undo the row swaps as column swaps, last swap first. */
  method Unscramble(src: array<GF>, k: nat, indxr: array<nat>, indxc: array<nat>, ghost a: Mat, ghost history: seq<seq<nat>>)
    requires src.Length == k * k && IsMat(a, k, k)
    requires Bookkeeping(k, k, indxr[..], indxc[..], history)
    requires InverseUpTo(a, Rows(src[..], k, k), k, history[k])
    modifies src
    ensures Inverse(a, Rows(src[..], k, k), k)
  {
    hide InverseUpTo, Inverse, SwappedColumns;
    var col := k;
    while col > 0
      invariant 0 <= col <= k
      invariant InverseUpTo(a, Rows(src[..], k, k), k, history[col])
    {
      ghost var m := Rows(src[..], k, k);
      var p, q := indxr[col - 1], indxc[col - 1];
      assert p == indxr[..][col - 1] && q == indxc[..][col - 1];
      UnscrambleStep(a, m, k, history[col - 1], p, q);
      if p != q {
        SwapColumns(src, k, p, q);
      } else {
        NoSwap(m, k, p);
      }
      col := col - 1;
    }
    UnscrambledFully(a, Rows(src[..], k, k), k);
  }

  lemma NoSwap(m: Mat, k: nat, p: nat)
    requires IsMat(m, k, k) && p < k
    ensures SwappedColumns(m, p, p) == m
  {
    forall i | 0 <= i < k
      ensures Swapped(m[i], p, p) == m[i]
    {
    }
  }

  method SwapColumns(src: array<GF>, k: nat, p: nat, q: nat)
    requires src.Length == k * k && p < k && q < k && p != q
    modifies src
    ensures Rows(src[..], k, k) == SwappedColumns(Rows(old(src[..]), k, k), p, q)
  {
    ghost var m := Rows(src[..], k, k);
    for row := 0 to k
      invariant forall r :: 0 <= r < k ==> Rows(src[..], k, k)[r] == if r < row then Swapped(m[r], p, q) else m[r]
    {
      var t := Get(src, k, k, row, p);
      Put(src, k, k, row, p, Get(src, k, k, row, q));
      Put(src, k, k, row, q, t);
    }
    assert Rows(src[..], k, k) == SwappedColumns(m, p, q);
  }

  // ---------- solvability ----------

  /** Elimination carried to its end, on values. */
  lemma {:induction false} EliminateFully(a: Mat, m: Mat, k: nat, used: seq<bool>, sigma: seq<nat>) returns (b: Mat, tau: seq<nat>)
    requires IsMat(a, k, k) && IsMat(m, k, k) && |used| == k && IsIndexMap(sigma, k)
    requires Exchanged(a, m, k, used, sigma) && Nonsingular(a, k)
    ensures IsMat(b, k, k) && IsIndexMap(tau, k) && InverseUpTo(a, b, k, tau)
    decreases |Unused(used)|
  {
    hide Exchanged, Nonsingular, InverseUpTo, HasPivot, Pivoted, Unused;
    if |Unused(used)| == 0 {
      NoneUnused(used);
      ExchangedFully(a, m, k, used, sigma);
      b, tau := m, sigma;
    } else {
      var c := SomeUnused(used);
      PivotExists(a, m, k, used, sigma, c);
      var p, q := ChoosePivot(m, k, used);
      PivotStep(a, m, k, used, sigma, p, q);
      UseOne(used, q);
      b, tau := EliminateFully(a, Pivoted(m, k, p, q), k, used[q := true], Swapped(sigma, p, q));
    }
  }

  lemma ChoosePivot(m: Mat, k: nat, used: seq<bool>) returns (p: nat, q: nat)
    requires IsMat(m, k, k) && |used| == k && HasPivot(m, k, used)
    ensures p < k && q < k && !used[p] && !used[q] && m[p][q] != 0
  {
    p, q :| 0 <= p < k && 0 <= q < k && !used[p] && !used[q] && m[p][q] != 0;
  }

  /** A nonsingular system has a solution for every right-hand side. */
  lemma Solvable(a: Mat, k: nat, y: Vec) returns (x: Vec)
    requires IsMat(a, k, k) && Nonsingular(a, k) && |y| == k
    ensures |x| == k && Maps(a, x, y)
  {
    ExchangedInitially(a, k);
    var b, tau := EliminateFully(a, a, k, seq(k, i => false), Identity(k));
    x := Product(b, Permuted(tau, y));
    hide Dot, Nonsingular;
    assert Maps(b, Permuted(tau, y), x);
  }
}
