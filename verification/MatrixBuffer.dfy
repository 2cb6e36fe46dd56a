/** Matrices as the code keeps them: row after row in one byte buffer. */
module MatrixBuffer {
  import opened Bytes
  import opened GaloisField
  import opened LinearAlgebra
  import opened MultiplyAdd

  lemma CellIn(i: nat, j: nat, n: nat, k: nat)
    requires i < n && j < k
    ensures 0 <= i * k && i * k + j < n * k && i * k + k <= n * k
  {
    assert (i + 1) * k <= n * k;
  }

  lemma RowIn(i: nat, n: nat, k: nat)
    requires i < n
    ensures 0 <= i * k && i * k + k <= n * k
  {
    assert (i + 1) * k <= n * k;
  }

  lemma RowsApart(i: nat, r: nat, k: nat)
    requires i < r
    ensures i * k + k <= r * k
  {
    assert (i + 1) * k <= r * k;
  }

  /** Row i of n rows of length k. */
  ghost function RowAt(s: seq<GF>, n: nat, k: nat, i: nat): (r: Vec)
    requires n * k <= |s| && i < n
    ensures |r| == k
  {
    RowIn(i, n, k);
    s[i * k..i * k + k]
  }

  /** The n rows of length k at the start of a buffer. */
  ghost function Rows(s: seq<GF>, n: nat, k: nat): (m: Mat)
    requires n * k <= |s|
    ensures IsMat(m, n, k)
  {
    seq(n, i requires 0 <= i < n => RowAt(s, n, k, i))
  }

  lemma RowsAt(s: seq<GF>, n: nat, k: nat, i: nat, j: nat)
    requires n * k <= |s| && i < n && j < k
    ensures 0 <= i * k && i * k + j < n * k && Rows(s, n, k)[i][j] == s[i * k + j]
  {
    CellIn(i, j, n, k);
  }

  /** The matrix with one entry replaced. */
  function WithEntry(m: Mat, i: nat, j: nat, v: GF): (r: Mat)
    requires i < |m| && j < |m[i]|
    ensures |r| == |m| && forall a :: 0 <= a < |m| ==> |r[a]| == |m[a]|
  {
    var row: Vec := m[i][j := v];
    m[i := row]
  }

  /** Writing one byte changes one entry. */
  lemma RowsSet(s: seq<GF>, n: nat, k: nat, i: nat, j: nat, v: GF)
    requires n * k <= |s| && i < n && j < k
    ensures 0 <= i * k && i * k + j < n * k && i * k + k <= n * k
    ensures Rows(s[i * k + j := v], n, k) == WithEntry(Rows(s, n, k), i, j, v)
  {
    CellIn(i, j, n, k);
    var m, s' := Rows(s, n, k), s[i * k + j := v];
    var m' := Rows(s', n, k);
    forall r | 0 <= r < n
      ensures m'[r] == WithEntry(m, i, j, v)[r]
    {
      RowIn(r, n, k);
      if r < i { RowsApart(r, i, k); }
      if i < r { RowsApart(i, r, k); }
    }
  }

  /** Writing a whole row. */
  lemma RowsSegment(s: seq<GF>, s': seq<GF>, n: nat, k: nat, i: nat, row: Vec)
    requires n * k <= |s| == |s'| && i < n && |row| == k
    requires i * k >= 0 && i * k + k <= |s|
    requires forall x :: 0 <= x < |s| ==> s'[x] == if i * k <= x < i * k + k then row[x - i * k] else s[x]
    ensures Rows(s', n, k) == Rows(s, n, k)[i := row]
  {
    var m, m' := Rows(s, n, k), Rows(s', n, k);
    forall r | 0 <= r < n
      ensures m'[r] == if r == i then row else m[r]
    {
      RowIn(r, n, k);
      if r < i { RowsApart(r, i, k); }
      if i < r { RowsApart(i, r, k); }
    }
  }

  /** Adding a multiple of row p to row r. */
  lemma RowsAddmul(s: seq<GF>, n: nat, k: nat, r: nat, p: nat, c: GF)
    requires n * k <= |s| && r < n && p < n && r != p
    ensures r * k >= 0 && p * k >= 0 && r * k + k <= n * k && p * k + k <= n * k
    ensures Rows(AddmulSeq(s, r * k, s, p * k, c, k), n, k)
            == Rows(s, n, k)[r := Combined(Rows(s, n, k)[r], c, Rows(s, n, k)[p])]
  {
    RowIn(r, n, k); RowIn(p, n, k);
    hide Add, Mul;
    var m := Rows(s, n, k);
    RowsSegment(s, AddmulSeq(s, r * k, s, p * k, c, k), n, k, r, Combined(m[r], c, m[p]));
  }

  /** Reads buffer[i * k + j]. */
  function Get(buffer: array<GF>, n: nat, k: nat, i: nat, j: nat): (v: GF)
    requires n * k <= buffer.Length && i < n && j < k
    reads buffer
    ensures v == Rows(buffer[..], n, k)[i][j]
  {
    RowsAt(buffer[..], n, k, i, j);
    buffer[i * k + j]
  }

  /** Writes buffer[i * k + j]. */
  method Put(buffer: array<GF>, n: nat, k: nat, i: nat, j: nat, v: GF)
    requires n * k <= buffer.Length && i < n && j < k
    modifies buffer
    ensures Rows(buffer[..], n, k) == WithEntry(Rows(old(buffer[..]), n, k), i, j, v)
  {
    RowsSet(buffer[..], n, k, i, j, v);
    buffer[i * k + j] := v;
    assert buffer[..] == old(buffer[..])[i * k + j := v];
  }
}
