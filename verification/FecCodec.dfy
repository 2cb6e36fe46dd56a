/** Encoding and decoding of src/zfex.c over packet buffers. */
module FecCodec {
  import opened Sequences
  import opened Bytes
  import opened GaloisField
  import opened GaloisTables
  import opened LinearAlgebra
  import opened MultiplyAdd
  import opened MatrixBuffer
  import opened GaussJordan
  import opened FecMatrix
  import opened Polynomials

  const STRIDE := 8192   // ZFEX_STRIDE

  /** Byte b of every buffer. */
  ghost function ByteColumn(bufs: seq<array<GF>>, b: nat): (v: Vec)
    requires forall j :: 0 <= j < |bufs| ==> b < bufs[j].Length
    reads bufs
    ensures |v| == |bufs| && forall j :: 0 <= j < |bufs| ==> v[j] == bufs[j][b]
  {
    seq(|bufs|, j requires 0 <= j < |bufs| reads bufs => bufs[j][b])
  }

  /** The buffer `out` may be written while the inputs, the matrix and the tables are read. */
  ghost predicate Writable(t: Tables, out: array<GF>, inpkts: seq<array<GF>>, m: array<GF>) {
    && out !in inpkts && out != m && out != t.exp && out != t.inverse
  }

  ghost predicate Long(bufs: seq<array<GF>>, sz: nat) {
    forall j :: 0 <= j < |bufs| ==> sz <= bufs[j].Length
  }

  /** Clears bytes off..off+len of out and adds the inputs there, weighted by row r of the matrix. */
  method Accumulate(t: Tables, m: array<GF>, n: nat, k: nat, r: nat, inpkts: seq<array<GF>>, out: array<GF>, off: nat, len: nat)
    requires t.Ready() && m.Length == n * k && r < n && |inpkts| == k
    requires Long(inpkts, off + len) && off + len <= out.Length && Writable(t, out, inpkts, m)
    modifies out
    ensures t.Ready()
    ensures forall b :: off <= b < off + len ==> out[b] == Dot(Rows(m[..], n, k)[r], ByteColumn(inpkts, b))
    ensures forall b :: 0 <= b < out.Length && !(off <= b < off + len) ==> out[b] == old(out[b])
  {
    hide Add, Mul;
    ghost var row := Rows(m[..], n, k)[r];
    ghost var bytes := m[..];
    forall b | off <= b < off + len {
      out[b] := 0;
    }
    assert m[..] == bytes;
    for j := 0 to k
      invariant t.Ready() && Rows(m[..], n, k)[r] == row
      invariant forall b :: off <= b < off + len ==> out[b] == DotTo(row, ByteColumn(inpkts, b), j)
      invariant forall b :: 0 <= b < out.Length && !(off <= b < off + len) ==> out[b] == old(out[b])
    {
      AddInput(t, Get(m, n, k, r, j), row, inpkts, out, off, len, j);
    }
  }

  /** One weighted input. */
  method AddInput(t: Tables, c: GF, ghost row: Vec, inpkts: seq<array<GF>>, out: array<GF>, off: nat, len: nat, j: nat)
    requires t.Ready() && |inpkts| == |row| && j < |row| && c == row[j]
    requires Long(inpkts, off + len) && off + len <= out.Length
    requires out !in inpkts && out != t.exp && out != t.inverse
    requires forall b :: off <= b < off + len ==> out[b] == DotTo(row, ByteColumn(inpkts, b), j)
    modifies out
    ensures t.Ready()
    ensures forall b :: off <= b < off + len ==> out[b] == DotTo(row, ByteColumn(inpkts, b), j + 1)
    ensures forall b :: 0 <= b < out.Length && !(off <= b < off + len) ==> out[b] == old(out[b])
  {
    hide Add, Mul;
    ghost var before, from := out[..], inpkts[j][..];
    assert inpkts[j] != out;
    AddmulSimd(t, out, off, inpkts[j], off, c, len);
    forall b | 0 <= b < out.Length
      ensures out[b] == if off <= b < off + len then Add(before[b], Mul(c, from[b])) else before[b]
    {
      assert out[..][b] == AddmulSeq(before, off, from, off, c, len)[b];
    }
    forall b | off <= b < off + len
      ensures out[b] == DotTo(row, ByteColumn(inpkts, b), j + 1)
    {
      assert from[b] == ByteColumn(inpkts, b)[j];
    }
  }

  /** `fec_encode_simd` */
  method FecEncode(t: Tables, code: FecCode, inpkts: seq<array<GF>>, fecs: seq<array<GF>>, sz: nat)
    requires t.Ready() && code.Valid() && |inpkts| == code.k && |fecs| == code.n - code.k
    requires Long(inpkts, sz) && Long(fecs, sz) && Distinct(fecs)
    requires forall i :: 0 <= i < |fecs| ==> Writable(t, fecs[i], inpkts, code.encMatrix)
    modifies fecs
    ensures t.Ready() && code.Valid()
    ensures forall i, b :: 0 <= i < |fecs| && 0 <= b < sz ==>
              fecs[i][b] == Dot(GeneratorRow(code.k, code.k + i), ByteColumn(inpkts, b))
    ensures ParityEvaluates(t, code, inpkts, fecs, sz)
  {
    hide Add, Mul, Dot, GeneratorRow, ParityEvaluates;
    var off := 0;
    while off < sz
      invariant t.Ready() && code.Valid()
      invariant forall i, b :: 0 <= i < |fecs| && 0 <= b < off && b < sz ==>
                  fecs[i][b] == Dot(GeneratorRow(code.k, code.k + i), ByteColumn(inpkts, b))
    {
      var stride := if sz - off < STRIDE then sz - off else STRIDE;
      EncodeStride(t, code, inpkts, fecs, sz, off, stride);
      off := off + STRIDE;
    }
    ParityInterpolates(t, code, inpkts, fecs, sz);
  }

  /** Every parity byte is the value, at the table entry of its buffer, of the polynomial that takes the
      data bytes at 0 and at the first table entries. */
  ghost predicate ParityEvaluates(t: Tables, code: FecCode, inpkts: seq<array<GF>>, fecs: seq<array<GF>>, sz: nat)
    requires 1 <= code.k <= code.n <= 255 && t.exp.Length == 510
    requires |inpkts| == code.k && |fecs| == code.n - code.k && Long(inpkts, sz) && Long(fecs, sz)
    reads t.exp, inpkts, fecs
  {
    forall i: nat, b: nat, q: Vec :: i < |fecs| && b < sz && Interpolates(t.exp[..], q, ByteColumn(inpkts, b)) ==>
      fecs[i][b] == Eval(q, t.exp[code.k + i - 1])
  }

  lemma ParityInterpolates(t: Tables, code: FecCode, inpkts: seq<array<GF>>, fecs: seq<array<GF>>, sz: nat)
    requires t.Ready() && code.Valid() && |inpkts| == code.k && |fecs| == code.n - code.k
    requires Long(inpkts, sz) && Long(fecs, sz)
    requires forall i, b :: 0 <= i < |fecs| && 0 <= b < sz ==>
               fecs[i][b] == Dot(GeneratorRow(code.k, code.k + i), ByteColumn(inpkts, b))
    ensures ParityEvaluates(t, code, inpkts, fecs, sz)
  {
    ReadyPowers(t);
    hide Add, Mul, Dot, GeneratorRow, Interpolates, PowersTable;
    forall i: nat, b: nat, q: Vec | i < |fecs| && b < sz && Interpolates(t.exp[..], q, ByteColumn(inpkts, b))
      ensures fecs[i][b] == Eval(q, t.exp[code.k + i - 1])
    {
      RowInterpolates(code.k, code.k + i, t.exp[..], q, ByteColumn(inpkts, b));
    }
  }

  /** One stride of every parity buffer. */
  method EncodeStride(t: Tables, code: FecCode, inpkts: seq<array<GF>>, fecs: seq<array<GF>>, sz: nat, off: nat, stride: nat)
    requires t.Ready() && code.Valid() && |inpkts| == code.k && |fecs| == code.n - code.k
    requires Long(inpkts, sz) && Long(fecs, sz) && Distinct(fecs) && off + stride <= sz
    requires forall i :: 0 <= i < |fecs| ==> Writable(t, fecs[i], inpkts, code.encMatrix)
    modifies fecs
    ensures t.Ready() && code.Valid()
    ensures forall i, b :: 0 <= i < |fecs| && off <= b < off + stride ==>
              fecs[i][b] == Dot(GeneratorRow(code.k, code.k + i), ByteColumn(inpkts, b))
    ensures forall i, b :: 0 <= i < |fecs| && 0 <= b < fecs[i].Length && !(off <= b < off + stride) ==> fecs[i][b] == old(fecs[i][b])
  {
    hide Add, Mul, Dot, GeneratorRow;
    for i := 0 to code.n - code.k
      invariant t.Ready() && code.Valid()
      invariant forall x, b :: 0 <= x < i && off <= b < off + stride ==>
                  fecs[x][b] == Dot(GeneratorRow(code.k, code.k + x), ByteColumn(inpkts, b))
      invariant forall x, b :: 0 <= x < |fecs| && 0 <= b < fecs[x].Length && !(off <= b < off + stride) ==> fecs[x][b] == old(fecs[x][b])
    {
      Accumulate(t, code.encMatrix, code.n, code.k, code.k + i, inpkts, fecs[i], off, stride);
    }
  }

  // ---------- shuffle ----------

  /** sigma lists every position below k once; rho is its inverse. */
  ghost predicate Permutation(sigma: seq<nat>, rho: seq<nat>, k: nat) {
    && |sigma| == k && |rho| == k
    && (forall i :: 0 <= i < k ==> sigma[i] < k && rho[i] < k && rho[sigma[i]] == i && sigma[rho[i]] == i)
  }

  ghost predicate DuplicatePrimary(index: seq<nat>, k: nat) {
    exists i, j :: 0 <= i < j < |index| && index[i] == index[j] && index[i] < k
  }

  /** Primary blocks sit in the slot of their number. */
  ghost predicate Settled(index: seq<nat>, k: nat) {
    forall i :: 0 <= i < |index| ==> index[i] >= k || index[i] == i
  }

  ghost function Misplaced(index: seq<nat>): set<nat> {
    set i: nat | i < |index| && index[i] != i
  }

  /** after is before, reordered by sigma. */
  ghost predicate Reordered<T>(before: seq<T>, after: seq<T>, sigma: seq<nat>, k: nat) {
    && |before| == |after| == |sigma| == k
    && forall i :: 0 <= i < k ==> sigma[i] < k && after[i] == before[sigma[i]]
  }

  lemma ReorderedSwap<T>(before: seq<T>, after: seq<T>, sigma: seq<nat>, k: nat, i: nat, c: nat)
    requires Reordered(before, after, sigma, k) && i < k && c < k
    ensures Reordered(before, Swapped(after, i, c), Swapped(sigma, i, c), k)
  {}

  lemma PermutationSwap(sigma: seq<nat>, rho: seq<nat>, k: nat, i: nat, c: nat)
    requires Permutation(sigma, rho, k) && i < k && c < k && i != c
    ensures |rho| == |sigma| == k && sigma[i] < k && sigma[c] < k && sigma[i] != sigma[c]
    ensures Permutation(Swapped(sigma, i, c), rho[sigma[i] := c][sigma[c] := i], k)
  {
    assert rho[sigma[i]] == i && rho[sigma[c]] == c;
    var tau, inv := Swapped(sigma, i, c), rho[sigma[i] := c][sigma[c] := i];
    forall x | 0 <= x < k
      ensures inv[tau[x]] == x
    {
      assert rho[sigma[x]] == x;
    }
    forall y | 0 <= y < k
      ensures inv[y] < k && tau[inv[y]] == y
    {
      assert sigma[rho[y]] == y;
    }
  }

  /** `shuffle` */
  method Shuffle(pkt: array<array<GF>>, index: array<nat>, k: nat) returns (ok: bool, ghost sigma: seq<nat>, ghost rho: seq<nat>)
    requires pkt.Length == k && index.Length == k
    modifies pkt, index
    ensures ok <==> !DuplicatePrimary(old(index[..]), k)
    ensures ok ==> Settled(index[..], k)
    ensures Permutation(sigma, rho, k)
    ensures Reordered(old(index[..]), index[..], sigma, k)
    ensures Reordered(old(pkt[..]), pkt[..], sigma, k)
  {
    hide Permutation, Reordered, DuplicatePrimary, Misplaced, Swapped;
    ghost var index0, pkt0 := index[..], pkt[..];
    sigma, rho := seq(k, i => i), seq(k, i => i);
    ShuffleStarts(index0, k); ShuffleStarts(pkt0, k);
    var i := 0;
    while i < k
      invariant 0 <= i <= k
      invariant Permutation(sigma, rho, k)
      invariant Reordered(index0, index[..], sigma, k) && Reordered(pkt0, pkt[..], sigma, k)
      invariant Settled(index[..i], k)
      decreases Misplaced(index[..]), k - i
    {
      if index[i] >= k || index[i] == i {
        assert index[..i + 1] == index[..i] + [index[i]];
        i := i + 1;
      } else {
        var c := index[i];
        if index[c] == c {
          Conflict(index0, index[..], sigma, rho, k, i, c);
          return false, sigma, rho;
        }
        MisplacedShrinks(index[..], i, c);
        SettledKept(index[..], k, i, c);
        PermutationSwap(sigma, rho, k, i, c);
        ReorderedSwap(index0, index[..], sigma, k, i, c);
        ReorderedSwap(pkt0, pkt[..], sigma, k, i, c);
        SwapSlots(pkt, index, i, c);
        rho := rho[sigma[i] := c][sigma[c] := i];
        sigma := Swapped(sigma, i, c);
      }
    }
    assert index[..k] == index[..];
    SettledDistinct(index0, index[..], sigma, rho, k);
    ok := true;
  }

  lemma ShuffleStarts<T>(s: seq<T>, k: nat)
    requires |s| == k
    ensures Permutation(seq(k, i => i), seq(k, i => i), k) && Reordered(s, s, seq(k, i => i), k)
  {}

  /** Two slots claim the same primary block. */
  lemma Conflict(before: seq<nat>, after: seq<nat>, sigma: seq<nat>, rho: seq<nat>, k: nat, i: nat, c: nat)
    requires Permutation(sigma, rho, k) && Reordered(before, after, sigma, k)
    requires i < k && c < k && i != c && after[i] == c && after[c] == c
    ensures DuplicatePrimary(before, k)
  {
    assert rho[sigma[i]] == i && rho[sigma[c]] == c;
    Duplicated(before, k, sigma[i], sigma[c]);
  }

  lemma Duplicated(index: seq<nat>, k: nat, a: nat, b: nat)
    requires a < |index| && b < |index| && a != b && index[a] == index[b] < k
    ensures DuplicatePrimary(index, k)
  {
    if a < b { assert index[a] == index[b]; } else { assert index[b] == index[a]; }
  }

  /** The swap leaves the settled slots alone: slot c is not one of them. */
  lemma SettledKept(index: seq<nat>, k: nat, i: nat, c: nat)
    requires i < |index| == k && c < k && Settled(index[..i], k) && index[i] == c && index[c] != c
    ensures Settled(Swapped(index, i, c)[..i], k)
  {
    forall x | 0 <= x < i
      ensures Swapped(index, i, c)[x] >= k || Swapped(index, i, c)[x] == x
    {
      assert index[..i][x] == index[x];
    }
  }

  method SwapSlots(pkt: array<array<GF>>, index: array<nat>, i: nat, c: nat)
    requires pkt.Length == index.Length && i < pkt.Length && c < pkt.Length && i != c
    modifies pkt, index
    ensures index[..] == Swapped(old(index[..]), i, c)
    ensures pkt[..] == Swapped(old(pkt[..]), i, c)
  {
    index[i], index[c] := index[c], index[i];
    pkt[i], pkt[c] := pkt[c], pkt[i];
  }

  /** Putting block c in its slot makes one more fixed point and unmakes none. */
  lemma MisplacedShrinks(index: seq<nat>, i: nat, c: nat)
    requires i < |index| && index[i] == c < |index| && c != i && index[c] != c
    ensures Misplaced(Swapped(index, i, c)) < Misplaced(index)
  {
    var after := Swapped(index, i, c);
    assert after[c] == c;
    assert c in Misplaced(index) && c !in Misplaced(after);
    forall x | x in Misplaced(after)
      ensures x in Misplaced(index)
    {
    }
  }

  lemma SettledDistinct(before: seq<nat>, after: seq<nat>, sigma: seq<nat>, rho: seq<nat>, k: nat)
    requires Permutation(sigma, rho, k) && Reordered(before, after, sigma, k) && Settled(after, k)
    ensures !DuplicatePrimary(before, k)
  {
    forall i, j | 0 <= i < j < k
      ensures !(before[i] == before[j] && before[i] < k)
    {
      assert after[rho[i]] == before[i];
      assert after[rho[j]] == before[j];
    }
  }

  // ---------- decode ----------

  /** `build_decode_matrix_into_space` */
  method BuildDecodeMatrix(t: Tables, code: FecCode, index: array<nat>, matrix: array<GF>)
    requires t.Ready() && code.Valid() && index.Length == code.k && IsBuffer(t, matrix, code.k)
    requires matrix != code.encMatrix
    requires Settled(index[..], code.k) && DistinctBlocks(index[..], code.n)
    modifies matrix
    ensures t.Ready() && code.Valid()
    ensures Inverse(SelectedRows(code.k, index[..]), Rows(matrix[..], code.k, code.k), code.k)
  {
    hide Add, Mul, GeneratorRow, Inverse;
    var k := code.k;
    for i := 0 to k
      invariant t.Ready() && code.Valid()
      invariant forall r :: 0 <= r < i ==> Rows(matrix[..], k, k)[r] == GeneratorRow(k, index[r])
    {
      DecodeRow(t, code, index[i], i, matrix);
    }
    assert Rows(matrix[..], k, k) == SelectedRows(k, index[..]);
    AnyRowsNonsingular(k, code.n, index[..]);
    InvertMat(t, matrix, k);
  }

  /** One row of the decode matrix: a unit row for a primary block, else the generator row. */
  method DecodeRow(t: Tables, code: FecCode, block: nat, i: nat, matrix: array<GF>)
    requires t.Ready() && code.Valid() && i < code.k && block < code.n && (block < code.k ==> block == i)
    requires IsBuffer(t, matrix, code.k) && matrix != code.encMatrix
    modifies matrix
    ensures t.Ready() && code.Valid()
    ensures Rows(matrix[..], code.k, code.k) == Rows(old(matrix[..]), code.k, code.k)[i := GeneratorRow(code.k, block)]
  {
    hide Add, Mul, GeneratorRow;
    var k := code.k;
    ghost var m := Rows(matrix[..], k, k);
    if block < k {
      GeneratorUnit(k, block);
      UnitRow(t, matrix, k, k, i);
    } else {
      ghost var row := Rows(code.encMatrix[..], code.n, k)[block];
      for col := 0 to k
        invariant t.Ready() && code.Valid()
        invariant forall r :: 0 <= r < k && r != i ==> Rows(matrix[..], k, k)[r] == m[r]
        invariant forall c :: 0 <= c < col ==> Rows(matrix[..], k, k)[i][c] == row[c]
      {
        Put(matrix, k, k, i, col, Get(code.encMatrix, code.n, k, block, col));
      }
      assert Rows(matrix[..], k, k)[i] == row;
    }
  }

  /** The primary blocks below r that are not among the received ones, in order. */
  function Missing(index: seq<nat>, r: nat): (m: seq<nat>)
    ensures |m| <= r && forall j :: 0 <= j < |m| ==> m[j] < r && m[j] !in index
  {
    if r == 0 then [] else if r - 1 in index then Missing(index, r - 1) else Missing(index, r - 1) + [r - 1]
  }

  lemma {:induction false} MissingSame(a: seq<nat>, b: seq<nat>, r: nat)
    requires forall x :: x in a <==> x in b
    ensures Missing(a, r) == Missing(b, r)
  {
    if r > 0 { MissingSame(a, b, r - 1); }
  }

  lemma ReorderedSame(before: seq<nat>, after: seq<nat>, sigma: seq<nat>, rho: seq<nat>, k: nat)
    requires Permutation(sigma, rho, k) && Reordered(before, after, sigma, k)
    ensures forall x :: x in before <==> x in after
  {
    forall x | x in before
      ensures x in after
    {
      var i :| 0 <= i < k && before[i] == x;
      assert after[rho[i]] == x;
    }
  }

  /** Received numbers that the caller may hand in: in range, secondary ones at most once. */
  ghost predicate Receivable(index: seq<nat>, k: nat, n: nat) {
    && (forall i :: 0 <= i < |index| ==> index[i] < n)
    && (forall i, j :: 0 <= i < j < |index| && index[i] == index[j] ==> index[i] < k)
  }

  /** Every received byte is the codeword byte of its block, for the data column d. */
  ghost predicate Codeword(k: nat, index: seq<nat>, y: Vec, d: Vec)
    requires |index| == |y| && |d| == k >= 1
  {
    forall i :: 0 <= i < |index| ==> y[i] == Dot(GeneratorRow(k, index[i]), d)
  }

  function DataColumn(data: seq<seq<GF>>, b: nat): (d: Vec)
    requires forall j :: 0 <= j < |data| ==> b < |data[j]|
    ensures |d| == |data| && forall j :: 0 <= j < |data| ==> d[j] == data[j][b]
  {
    seq(|data|, j requires 0 <= j < |data| => data[j][b])
  }

  /** Solving the selected equations gives back the data. */
  lemma DecodeColumn(k: nat, index: seq<nat>, b: Mat, y: Vec, d: Vec, row: nat)
    requires k >= 1 && |index| == k && IsMat(b, k, k) && |y| == |d| == k && row < k
    requires Inverse(SelectedRows(k, index), b, k) && Codeword(k, index, y, d)
    ensures Dot(b[row], y) == d[row]
  {
    hide Dot, GeneratorRow;
    assert Maps(SelectedRows(k, index), d, y);
    assert Maps(b, y, d);
  }

  /** Reordering blocks and bytes together keeps them a codeword. */
  lemma CodewordReordered(k: nat, index: seq<nat>, y: Vec, index': seq<nat>, y': Vec, d: Vec, sigma: seq<nat>)
    requires |d| == k >= 1 && Reordered(index, index', sigma, k) && Reordered(y, y', sigma, k) && Codeword(k, index, y, d)
    ensures Codeword(k, index', y', d)
  {
    hide Dot, GeneratorRow;
  }

  lemma ReceivedDistinct(before: seq<nat>, after: seq<nat>, sigma: seq<nat>, rho: seq<nat>, k: nat, n: nat)
    requires Permutation(sigma, rho, k) && Reordered(before, after, sigma, k)
    requires Receivable(before, k, n) && !DuplicatePrimary(before, k)
    ensures DistinctBlocks(after, n)
  {
    forall i, j | 0 <= i < j < k
      ensures after[i] != after[j]
    {
      var a, b := sigma[i], sigma[j];
      assert rho[a] == i && rho[b] == j;
      assert before[a] == after[i] && before[b] == after[j];
      assert a < b || b < a;
    }
  }

  lemma {:induction false} MissingPrefix(index: seq<nat>, r: nat, k: nat)
    requires r <= k
    ensures Missing(index, r) <= Missing(index, k)
    decreases k
  {
    if r < k { MissingPrefix(index, r, k - 1); }
  }

  lemma MissingStart(index: seq<nat>)
    ensures Missing(index, 0) == []
  {}

  /** In settled slots a block is missing exactly when its slot holds a secondary block. */
  lemma MissingNext(index: seq<nat>, k: nat, r: nat)
    requires |index| == k && r < k && Settled(index, k)
    ensures Missing(index, r + 1) == if index[r] >= k then Missing(index, r) + [r] else Missing(index, r)
  {
    if index[r] < k { assert index[r] == r; }
    if r in index {
      var i :| 0 <= i < k && index[i] == r;
    }
  }

  /** What every caller of the decoder must provide. */
  ghost predicate Decodable(t: Tables, code: FecCode, inpkts: seq<array<GF>>, outpkts: seq<array<GF>>, index: seq<nat>, sz: nat) {
    && |inpkts| == |index| == code.k && Long(inpkts, sz) && Long(outpkts, sz)
    && Receivable(index, code.k, code.n)
    && |Missing(index, code.k)| <= |outpkts| && Distinct(outpkts)
    && forall j :: 0 <= j < |outpkts| ==> Writable(t, outpkts[j], inpkts, code.encMatrix)
  }

  lemma ReorderedAt<T>(before: seq<T>, after: seq<T>, sigma: seq<nat>, k: nat)
    requires Reordered(before, after, sigma, k)
    ensures |before| == |after| == |sigma| == k
    ensures forall i :: 0 <= i < k ==> sigma[i] < k && after[i] == before[sigma[i]]
  {}

  lemma ReorderedFrom<T>(before: seq<T>, after: seq<T>, sigma: seq<nat>, k: nat)
    requires |before| == |after| == |sigma| == k
    requires forall i :: 0 <= i < k ==> sigma[i] < k && after[i] == before[sigma[i]]
    ensures Reordered(before, after, sigma, k)
  {}

  lemma SameBuffers<T>(before: seq<T>, after: seq<T>, sigma: seq<nat>, k: nat)
    requires Reordered(before, after, sigma, k)
    ensures |after| == k && forall x :: x in after ==> x in before
  {}

  /** The reconstruction loop: one output buffer for each slot that holds a secondary block. */
  method Recover(t: Tables, code: FecCode, mDec: array<GF>, rec: seq<array<GF>>, outpkts: seq<array<GF>>, index: array<nat>, sz: nat)
    requires t.Ready() && code.Valid() && mDec.Length == code.k * code.k && |rec| == index.Length == code.k
    requires Settled(index[..], code.k) && Long(rec, sz) && Long(outpkts, sz)
    requires |Missing(index[..], code.k)| <= |outpkts| && Distinct(outpkts)
    requires forall j :: 0 <= j < |outpkts| ==> Writable(t, outpkts[j], rec, mDec) && outpkts[j] != code.encMatrix
    modifies outpkts
    ensures t.Ready() && code.Valid()
    ensures forall j, b :: 0 <= j < |Missing(index[..], code.k)| && 0 <= b < sz ==>
              outpkts[j][b] == Dot(Rows(mDec[..], code.k, code.k)[Missing(index[..], code.k)[j]], ByteColumn(rec, b))
    ensures forall j, b :: 0 <= j < |outpkts| && 0 <= b < outpkts[j].Length ==>
              (b >= sz || j >= |Missing(index[..], code.k)|) ==> outpkts[j][b] == old(outpkts[j][b])
  {
    hide Add, Mul, Dot, GeneratorRow, Missing;
    var k := code.k;
    ghost var idx, bm := index[..], Rows(mDec[..], k, k);
    var outix := 0;
    MissingPrefix(idx, 0, k); MissingStart(idx);
    for row := 0 to k
      invariant t.Ready() && code.Valid() && index[..] == idx && Rows(mDec[..], k, k) == bm
      invariant outix == |Missing(idx, row)| <= |Missing(idx, k)|
      invariant forall j, b :: 0 <= j < outix && 0 <= b < sz ==>
                  outpkts[j][b] == Dot(bm[Missing(idx, row)[j]], ByteColumn(rec, b))
      invariant forall j, b :: 0 <= j < |outpkts| && 0 <= b < outpkts[j].Length ==>
                  (b >= sz || j >= outix) ==> outpkts[j][b] == old(outpkts[j][b])
    {
      MissingNext(idx, k, row);
      MissingPrefix(idx, row + 1, k);
      if index[row] >= k {
        ghost var bytes := mDec[..];
        Accumulate(t, mDec, k, k, row, rec, outpkts[outix], 0, sz);
        assert mDec[..] == bytes;
        outix := outix + 1;
      }
    }
  }

  /** A byte column that has been reordered with its blocks is solved by the decoding matrix. */
  lemma ReorderedColumn(k: nat, index0: seq<nat>, y: Vec, index: seq<nat>, y': Vec, d: Vec, sigma: seq<nat>, b: Mat, row: nat)
    requires |y| == |y'| == |sigma| == |index0| == |index| == |d| == k >= 1 && row < k && IsMat(b, k, k)
    requires forall i :: 0 <= i < k ==> sigma[i] < k && y'[i] == y[sigma[i]]
    requires Reordered(index0, index, sigma, k) && Codeword(k, index0, y, d) && Inverse(SelectedRows(k, index), b, k)
    ensures Dot(b[row], y') == d[row]
  {
    hide Dot, Inverse, Codeword, SelectedRows;
    ReorderedFrom(y, y', sigma, k);
    hide Reordered;
    CodewordReordered(k, index0, y, index, y', d, sigma);
    DecodeColumn(k, index, b, y', d, row);
  }

  /** `fec_decode_simd` */
  method FecDecode(t: Tables, code: FecCode, inpkts: array<array<GF>>, outpkts: seq<array<GF>>, index: array<nat>, sz: nat,
                   ghost data: seq<seq<GF>>)
    returns (ok: bool)
    requires t.Ready() && code.Valid() && index != t.log
    requires Decodable(t, code, inpkts[..], outpkts, index[..], sz)
    requires |data| == code.k && forall j :: 0 <= j < |data| ==> sz <= |data[j]|
    modifies inpkts, index, outpkts
    ensures t.Ready() && code.Valid()
    ensures ok <==> !DuplicatePrimary(old(index[..]), code.k)
    ensures ok ==> Settled(index[..], code.k)
    // the missing primary blocks, in increasing order, at every byte where the input is a codeword
    ensures ok ==> forall b, j :: 0 <= b < sz && 0 <= j < |Missing(old(index[..]), code.k)|
                     && Codeword(code.k, old(index[..]), old(ByteColumn(inpkts[..], b)), DataColumn(data, b))
                     ==> outpkts[j][b] == data[Missing(old(index[..]), code.k)[j]][b]
    // nothing else is written
    ensures forall j, b :: 0 <= j < |outpkts| && 0 <= b < outpkts[j].Length ==>
              (!ok || b >= sz || j >= |Missing(old(index[..]), code.k)|) ==> outpkts[j][b] == old(outpkts[j][b])
  {
    hide Add, Mul, Dot, GeneratorRow, Inverse, Permutation, Reordered, DuplicatePrimary, Missing, Codeword, SelectedRows;
    var k := code.k;
    ghost var index0, pkts0 := index[..], inpkts[..];
    var mDec := new GF[k * k](i => 0);
    var shuffled;
    ghost var sigma, rho;
    shuffled, sigma, rho := Shuffle(inpkts, index, k);
    if !shuffled {
      return false;
    }
    ghost var idx := index[..];
    var rec := inpkts[..];
    ReceivedDistinct(index0, idx, sigma, rho, k, code.n);
    ReorderedSame(index0, idx, sigma, rho, k);
    MissingSame(index0, idx, k);
    SameBuffers(pkts0, rec, sigma, k);
    ReorderedAt(pkts0, rec, sigma, k);
    BuildDecodeMatrix(t, code, index, mDec);
    ghost var bm := Rows(mDec[..], k, k);
    Recover(t, code, mDec, rec, outpkts, index, sz);
    forall b, j | 0 <= b < sz && 0 <= j < |Missing(index0, k)|
                  && Codeword(k, index0, old(ByteColumn(inpkts[..], b)), DataColumn(data, b))
      ensures outpkts[j][b] == data[Missing(index0, k)[j]][b]
    {
      var y, y', d := old(ByteColumn(inpkts[..], b)), ByteColumn(rec, b), DataColumn(data, b);
      var row := Missing(index0, k)[j];
      ReorderedColumn(k, index0, y, idx, y', d, sigma, bm, row);
    }
    ok := true;
  }
}
