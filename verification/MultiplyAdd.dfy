/** dst[i] += c * src[i] over buffers: the unrolled loop `_addmul1`, and the tiled,
    nibble-split `_addmul1_simd` with its masked tail (src/zfex.c). */
module MultiplyAdd {
  import opened Bytes
  import opened GaloisField
  import opened GaloisTables

  const UNROLL := 16      // ZFEX_UNROLL_ADDMUL
  const LANES := 16       // bytes in one vector register
  const TILE := 8         // ZFEX_UNROLL_ADDMUL_SIMD registers

  /** The stretch of sz bytes at d gains c times the stretch at s. */
  function AddmulSeq(dst: seq<GF>, d: nat, src: seq<GF>, s: nat, c: GF, sz: nat): (r: seq<GF>)
    requires d + sz <= |dst| && s + sz <= |src|
    ensures |r| == |dst|
    ensures forall i :: 0 <= i < |dst| ==>
              r[i] == if d <= i < d + sz then Add(dst[i], Mul(c, src[s + (i - d)])) else dst[i]
  {
    seq(|dst|, i requires 0 <= i < |dst| =>
      if d <= i < d + sz then Add(dst[i], Mul(c, src[s + (i - d)])) else dst[i])
  }

  lemma AddmulNothing(dst: seq<GF>, d: nat, src: seq<GF>, s: nat, c: GF, sz: nat)
    requires d + sz <= |dst| && s + sz <= |src|
    requires c == 0 || sz == 0
    ensures AddmulSeq(dst, d, src, s, c, sz) == dst
  {
    hide Add, Mul;
    forall i | d <= i < d + sz
      ensures Add(dst[i], Mul(c, src[s + (i - d)])) == dst[i]
    {
      MulZero(src[s + (i - d)]); AddZero(dst[i]);
    }
  }

  /** May dst be written while src is read? */
  ghost predicate Separate(t: Tables, dst: array<GF>, d: nat, src: array<GF>, s: nat, sz: nat) {
    && d + sz <= dst.Length && s + sz <= src.Length
    && (dst == src ==> d + sz <= s || s + sz <= d)
    && dst != t.exp && dst != t.inverse
  }

  /** The product by the two nibbles of a byte. */
  lemma NibbleProduct(c: GF, x: GF)
    ensures Add(Mul(c, x % 16), Mul(c, 16 * (x / 16))) == Mul(c, x)
  {
    XorNibbles(x);
    assert Add(x % 16, 16 * (x / 16)) == x;
    hide *;
    MulAddRight(c, x % 16, 16 * (x / 16));
  }

  /** `_addmul1` */
  method Addmul1(t: Tables, dst: array<GF>, d: nat, src: array<GF>, s: nat, c: GF, sz: nat)
    requires t.Ready() && Separate(t, dst, d, src, s, sz)
    modifies dst
    ensures t.Ready()
    ensures dst[..] == AddmulSeq(old(dst[..]), d, old(src[..]), s, c, sz)
  {
    hide Add, Mul;
    ghost var before, from := dst[..], src[..];
    AddmulNothing(before, d, from, s, c, 0);
    var i := 0;
    var lim := sz - UNROLL + 1;
    while i < lim
      invariant 0 <= i <= sz && t.Ready()
      invariant dst[..] == AddmulSeq(before, d, from, s, c, i)
      invariant dst != src ==> src[..] == from
    {
      for u := 0 to UNROLL
        invariant t.Ready()
        invariant dst[..] == AddmulSeq(before, d, from, s, c, i + u)
        invariant dst != src ==> src[..] == from
      {
        AddmulByte(t, dst, d, src, s, c, i + u, sz, before, from);
      }
      i := i + UNROLL;
    }
    lim := lim + UNROLL - 1;
    while i < lim
      invariant 0 <= i <= sz && t.Ready()
      invariant dst[..] == AddmulSeq(before, d, from, s, c, i)
      invariant dst != src ==> src[..] == from
    {
      AddmulByte(t, dst, d, src, s, c, i, sz, before, from);
      i := i + 1;
    }
  }

  /** `GF_ADDMULC` */
  method AddmulByte(t: Tables, dst: array<GF>, d: nat, src: array<GF>, s: nat, c: GF, i: nat, sz: nat,
                    ghost before: seq<GF>, ghost from: seq<GF>)
    requires t.Ready() && Separate(t, dst, d, src, s, sz) && i < sz
    requires |before| == dst.Length && |from| == src.Length
    requires dst[..] == AddmulSeq(before, d, from, s, c, i)
    requires if dst == src then before == from else src[..] == from
    modifies dst
    ensures t.Ready()
    ensures dst[..] == AddmulSeq(before, d, from, s, c, i + 1)
    ensures dst != src ==> src[..] == from
  {
    hide Add, Mul;
    assert dst[..][d + i] == before[d + i];
    assert src[s + i] == from[s + i] by { assert src[..][s + i] == from[s + i]; }
    dst[d + i] := Add(dst[d + i], t.mul[c, src[s + i]]);
  }

  /** The lookups of one register: the low nibble in one table row, the high nibble in another. */
  function Products(src: seq<GF>, lo: seq<GF>, hi: seq<GF>): (r: seq<GF>)
    requires |lo| == 16 && |hi| == 16
    ensures |r| == |src| && forall i :: 0 <= i < |src| ==> r[i] == Add(lo[src[i] % 16], hi[src[i] / 16])
  {
    seq(|src|, i requires 0 <= i < |src| => Add(lo[src[i] % 16], hi[src[i] / 16]))
  }

  /** One vector kernel, on the first n lanes. */
  method Kernel(t: Tables, dst: array<GF>, d: nat, src: array<GF>, s: nat, c: GF, i: nat, n: nat, sz: nat,
                lo: seq<GF>, hi: seq<GF>, ghost before: seq<GF>, ghost from: seq<GF>)
    requires t.Ready() && Separate(t, dst, d, src, s, sz) && i + n <= sz && n <= LANES
    requires |lo| == 16 && |hi| == 16
    requires forall x: int :: 0 <= x < 16 ==> lo[x] == Mul(c, x) && hi[x] == Mul(c, 16 * x)
    requires |before| == dst.Length && |from| == src.Length
    requires dst[..] == AddmulSeq(before, d, from, s, c, i)
    requires if dst == src then before == from else src[..] == from
    modifies dst
    ensures t.Ready()
    ensures dst[..] == AddmulSeq(before, d, from, s, c, i + n)
    ensures dst != src ==> src[..] == from
  {
    hide Add, Mul;
    var b := d + i;
    var products := Products(src[s + i..s + i + n], lo, hi);
    forall x | b <= x < b + n
      ensures dst[x] == before[x]
      ensures Add(products[x - b], before[x]) == Add(before[x], Mul(c, from[s + (x - d)]))
    {
      assert dst[..][x] == before[x];
      assert src[..][s + (x - d)] == from[s + (x - d)];
      NibbleProduct(c, from[s + (x - d)]);
      AddComm(products[x - b], before[x]);
    }
    forall x | b <= x < b + n {
      dst[x] := Add(products[x - b], dst[x]);
    }
    forall x | 0 <= x < dst.Length
      ensures dst[x] == AddmulSeq(before, d, from, s, c, i + n)[x]
    {
      if !(b <= x < b + n) { assert dst[x] == old(dst[..])[x]; }
    }
  }

  /** `_addmul1_simd`, vector form */
  method Addmul1Simd(t: Tables, dst: array<GF>, d: nat, src: array<GF>, s: nat, c: GF, sz: nat)
    requires t.Ready() && Separate(t, dst, d, src, s, sz)
    modifies dst
    ensures t.Ready()
    ensures dst[..] == AddmulSeq(old(dst[..]), d, old(src[..]), s, c, sz)
  {
    hide Add, Mul;
    ghost var before, from := dst[..], src[..];
    AddmulNothing(before, d, from, s, c, 0);
    var lo := seq(16, x requires 0 <= x < 16 reads t.mul => t.mul[c, x]);
    var hi := seq(16, x requires 0 <= x < 16 reads t.mul16 => t.mul16[c, x]);
    var i := 0;
    var lim := sz;
    lim := lim - (TILE * LANES - 1);
    while i < lim
      invariant 0 <= i <= sz && t.Ready()
      invariant dst[..] == AddmulSeq(before, d, from, s, c, i)
      invariant dst != src ==> src[..] == from
    {
      for u := 0 to TILE
        invariant t.Ready()
        invariant dst[..] == AddmulSeq(before, d, from, s, c, i + u * LANES)
        invariant dst != src ==> src[..] == from
      {
        Kernel(t, dst, d, src, s, c, i + u * LANES, LANES, sz, lo, hi, before, from);
      }
      i := i + TILE * LANES;
    }
    lim := lim + TILE * LANES - 1;
    lim := lim - (LANES - 1);
    while i < lim
      invariant 0 <= i <= sz && t.Ready()
      invariant dst[..] == AddmulSeq(before, d, from, s, c, i)
      invariant dst != src ==> src[..] == from
    {
      Kernel(t, dst, d, src, s, c, i, LANES, sz, lo, hi, before, from);
      i := i + LANES;
    }
    lim := lim + LANES - 1;
    if i < lim {
      // the tail mask lets only the first lim - i lanes be stored
      Kernel(t, dst, d, src, s, c, i, lim - i, sz, lo, hi, before, from);
    }
  }

  /** The macro `addmul_simd`: nothing is done for a zero factor. */
  method AddmulSimd(t: Tables, dst: array<GF>, d: nat, src: array<GF>, s: nat, c: GF, sz: nat)
    requires t.Ready() && Separate(t, dst, d, src, s, sz)
    modifies dst
    ensures t.Ready()
    ensures dst[..] == AddmulSeq(old(dst[..]), d, old(src[..]), s, c, sz)
  {
    if c != 0 {
      Addmul1Simd(t, dst, d, src, s, c, sz);
    } else {
      AddmulNothing(dst[..], d, src[..], s, c, sz);
    }
  }

  /** The macro `addmul`. */
  method Addmul(t: Tables, dst: array<GF>, d: nat, src: array<GF>, s: nat, c: GF, sz: nat)
    requires t.Ready() && Separate(t, dst, d, src, s, sz)
    modifies dst
    ensures t.Ready()
    ensures dst[..] == AddmulSeq(old(dst[..]), d, old(src[..]), s, c, sz)
  {
    if c != 0 {
      Addmul1(t, dst, d, src, s, c, sz);
    } else {
      AddmulNothing(dst[..], d, src[..], s, c, sz);
    }
  }
}
