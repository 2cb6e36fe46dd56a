/** `apply_fec` of src/rx.cpp: the missing primary fragments of a complete block. */
module SlotDecoding {
  import opened Sequences
  import opened Bytes
  import opened GaloisField
  import opened GaloisTables
  import opened LinearAlgebra
  import opened FecMatrix
  import opened FecCodec
  import opened WireFormat
  import opened Reassembly

  /** Every received fragment has a packet header and fits a buffer. */
  ghost predicate Sized(frags: map<nat, seq<Byte>>) {
    forall x :: x in frags ==> PACKET_HEADER <= |frags[x]| <= MAX_FEC_PAYLOAD
  }

  ghost predicate CompleteSet(frags: map<nat, seq<Byte>>, k: nat, n: nat) {
    CodeParameters(k, n) && (forall x :: x in frags ==> x < n) && |frags| == k
  }

  /** What the buffer of fragment x holds when it is handed to the decoder. */
  ghost predicate Loaded(buf: array<GF>, frags: map<nat, seq<Byte>>, x: nat)
    reads buf
  {
    buf.Length == BUFFER_SIZE
    && (x in frags ==> |Padded(frags[x])| == MAX_FEC_PAYLOAD && buf[..MAX_FEC_PAYLOAD] == Padded(frags[x]))
  }

  method LoadBuffer(frags: map<nat, seq<Byte>>, x: nat) returns (buf: array<GF>)
    requires Sized(frags)
    ensures fresh(buf) && buf.Length == BUFFER_SIZE && Loaded(buf, frags, x)
  {
    if x in frags {
      var p := Padded(frags[x]);
      buf := new GF[BUFFER_SIZE](b requires 0 <= b < BUFFER_SIZE => if b < MAX_FEC_PAYLOAD then p[b] else 0);
      assert buf[..MAX_FEC_PAYLOAD] == p;
    } else {
      buf := new GF[BUFFER_SIZE](b => 0);
    }
  }

  /** The fragment buffers of a ring item. */
  method LoadBuffers(frags: map<nat, seq<Byte>>, n: nat) returns (bufs: seq<array<GF>>)
    requires Sized(frags)
    ensures |bufs| == n && Distinct(bufs)
    ensures forall x :: 0 <= x < n ==> fresh(bufs[x]) && bufs[x].Length == BUFFER_SIZE && Loaded(bufs[x], frags, x)
  {
    bufs := [];
    for x := 0 to n
      invariant |bufs| == x && Distinct(bufs)
      invariant forall y :: 0 <= y < x ==> fresh(bufs[y]) && bufs[y].Length == BUFFER_SIZE && Loaded(bufs[y], frags, y)
    {
      hide Loaded;
      var b := LoadBuffer(frags, x);
      assert b !in bufs;
      bufs := bufs + [b];
    }
  }

  /** The choice for the slots from i on looks for secondary fragments from j on. */
  ghost predicate Remaining(c: seq<nat>, frags: map<nat, seq<Byte>>, k: nat, n: nat, i: nat, j: nat) {
    i <= |c| && c[i..] == ChosenFrom(frags, k, n, i, j)
  }

  /** One slot of the choice, and what is left of it. */
  lemma ChosenStep(c: seq<nat>, frags: map<nat, seq<Byte>>, k: nat, n: nat, i: nat, j: nat)
    requires i < k == |c| && Remaining(c, frags, k, n, i, j)
    ensures i in frags ==> c[i] == i && Remaining(c, frags, k, n, i + 1, j)
    ensures i !in frags ==> c[i] == NextPresent(frags, n, j) && Remaining(c, frags, k, n, i + 1, c[i] + 1)
  {
    var p := NextPresent(frags, n, j);
    var rest := ChosenFrom(frags, k, n, i + 1, if i in frags then j else p + 1);
    assert c[i..] == [if i in frags then i else p] + rest;
    assert c[i + 1..] == c[i..][1..] == rest;
    assert c[i] == c[i..][0];
  }

  lemma ChosenHas(frags: map<nat, seq<Byte>>, k: nat, n: nat, f: nat)
    requires CompleteSet(frags, k, n) && f < k
    ensures f in Chosen(frags, k, n) <==> f in frags
  {
    ChosenOk(frags, k, n);
    if f in frags { assert Chosen(frags, k, n)[f] == f; }
  }

  /** The search for the next secondary fragment. */
  method SkipAbsent(frags: map<nat, seq<Byte>>, n: nat, from: nat) returns (j: nat)
    ensures j == NextPresent(frags, n, from)
  {
    j := from;
    while j < n && j !in frags
      invariant NextPresent(frags, n, j) == NextPresent(frags, n, from)
    {
      j := j + 1;
    }
  }

  /** The buffers of some blocks. */
  ghost predicate Buffers(of: seq<array<GF>>, blocks: seq<nat>, bufs: seq<array<GF>>) {
    |of| == |blocks| && forall i :: 0 <= i < |of| ==> blocks[i] < |bufs| && of[i] == bufs[blocks[i]]
  }

  lemma BuffersNext(of: seq<array<GF>>, blocks: seq<nat>, bufs: seq<array<GF>>, x: nat)
    requires Buffers(of, blocks, bufs) && x < |bufs|
    ensures Buffers(of + [bufs[x]], blocks + [x], bufs)
  {}

  /** Everything one slot changes. */
  lemma SlotStep(frags: map<nat, seq<Byte>>, k: nat, n: nat, i: nat, j: nat)
    requires CompleteSet(frags, k, n) && i < k <= j && Remaining(Chosen(frags, k, n), frags, k, n, i, j)
    requires forall x :: 0 <= x < k ==> Chosen(frags, k, n)[x] in frags
    ensures var c := Chosen(frags, k, n);
            && c[..i + 1] == c[..i] + [c[i]] && c[i] < n && c[i] in frags && i < n &&
            var m := MaxLength(frags, k, c, i);
            && (if i in frags
                then c[i] == i && Remaining(c, frags, k, n, i + 1, j) && Missing(c, i + 1) == Missing(c, i)
                     && MaxLength(frags, k, c, i + 1) == m
                else j <= c[i] == NextPresent(frags, n, j) && Remaining(c, frags, k, n, i + 1, c[i] + 1)
                     && Missing(c, i + 1) == Missing(c, i) + [i]
                     && MaxLength(frags, k, c, i + 1) == if |frags[c[i]]| > m then |frags[c[i]]| else m)
  {
    ChosenHas(frags, k, n, i);
    ChosenStep(Chosen(frags, k, n), frags, k, n, i, j);
    hide Remaining, Chosen, NextPresent;
  }

  lemma ChoiceStart(frags: map<nat, seq<Byte>>, k: nat, n: nat, bufs: seq<array<GF>>)
    ensures CompleteSet(frags, k, n) ==> forall x :: 0 <= x < k ==> Chosen(frags, k, n)[x] in frags
    ensures Missing(Chosen(frags, k, n), 0) == []
    ensures CompleteSet(frags, k, n) ==> MaxLength(frags, k, Chosen(frags, k, n), 0) == 0
    ensures Buffers([], [], bufs) && Remaining(Chosen(frags, k, n), frags, k, n, 0, k)
  {
    if CompleteSet(frags, k, n) { ChosenOk(frags, k, n); }
    assert Chosen(frags, k, n)[0..] == Chosen(frags, k, n);
  }

  /** The inputs of the decoder: primary fragments in place, secondary ones in the gaps, whose
      buffers become the outputs. */
  method ChooseInputs(frags: map<nat, seq<Byte>>, bufs: seq<array<GF>>, k: nat, n: nat)
    returns (index: seq<nat>, ins: seq<array<GF>>, outs: seq<array<GF>>, maxLen: nat)
    requires CompleteSet(frags, k, n) && |bufs| == n
    ensures index == Chosen(frags, k, n) && (forall x :: 0 <= x < k ==> index[x] in frags)
    ensures Buffers(ins, index, bufs) && Buffers(outs, Missing(index, k), bufs)
    ensures maxLen == MaxLength(frags, k, index, k)
  {
    hide *;
    ghost var c := Chosen(frags, k, n);
    var j := k;
    index, ins, outs, maxLen := [], [], [], 0;
    ChoiceStart(frags, k, n, bufs);
    for i := 0 to k
      invariant |index| == i && index == c[..i] && j >= k && Remaining(c, frags, k, n, i, j)
      invariant Buffers(ins, index, bufs) && Buffers(outs, Missing(c, i), bufs)
      invariant maxLen == MaxLength(frags, k, c, i)
    {
      SlotStep(frags, k, n, i, j);
      BuffersNext(ins, index, bufs, c[i]);
      BuffersNext(outs, Missing(c, i), bufs, i);
      if i in frags {
        ins := ins + [bufs[i]];
        index := index + [i];
      } else {
        j := SkipAbsent(frags, n, j);
        if |frags[j]| > maxLen { maxLen := |frags[j]|; }
        ins := ins + [bufs[j]];
        outs := outs + [bufs[i]];
        index := index + [j];
        j := j + 1;
      }
    }
    assert index == c;
  }

  lemma {:induction false} MissingDistinct(index: seq<nat>, r: nat)
    ensures forall i, j :: 0 <= i < j < |Missing(index, r)| ==> Missing(index, r)[i] < Missing(index, r)[j]
    ensures forall f :: 0 <= f < r && f !in index ==> f in Missing(index, r)
  {
    if r > 0 { MissingDistinct(index, r - 1); }
  }

  /** The chosen inputs meet everything the decoder asks for. */
  lemma ChoiceDecodable(t: Tables, code: FecCode, bufs: seq<array<GF>>, index: seq<nat>,
                        ins: seq<array<GF>>, outs: seq<array<GF>>, sz: nat)
    requires |index| == code.k && DistinctBlocks(index, code.n) && |bufs| == code.n && Distinct(bufs)
    requires code.k <= code.n && Buffers(ins, index, bufs) && Buffers(outs, Missing(index, code.k), bufs)
    requires forall x :: 0 <= x < |bufs| ==> bufs[x].Length >= sz
    requires code.encMatrix !in bufs && t.exp !in bufs && t.inverse !in bufs
    ensures Decodable(t, code, ins, outs, index, sz) && !DuplicatePrimary(index, code.k)
  {
    MissingDistinct(index, code.k);
    hide Missing;
    forall j | 0 <= j < |outs|
      ensures Writable(t, outs[j], ins, code.encMatrix)
    {
      var f := Missing(index, code.k)[j];
      assert f !in index && outs[j] == bufs[f] && bufs[f] in bufs;
    }
  }

  /** The columns that the decoder should find: padded with zeros past the payload. */
  ghost function Target(frags: map<nat, seq<Byte>>, k: nat, n: nat, sz: nat): (data: seq<seq<GF>>)
    requires CompleteSet(frags, k, n)
    ensures |data| == k && forall f :: 0 <= f < k ==> |data[f]| == sz
  {
    ChosenOk(frags, k, n);
    var c := Chosen(frags, k, n);
    seq(k, f requires 0 <= f < k => seq(sz, b requires 0 <= b < sz =>
      if b < MAX_FEC_PAYLOAD then Solved(k, n, c, ChosenColumn(frags, c, b))[f] else 0))
  }

  /** The loaded inputs are a codeword of the target at every payload byte. */
  lemma TargetColumn(frags: map<nat, seq<Byte>>, k: nat, n: nat, bufs: seq<array<GF>>, ins: seq<array<GF>>, sz: nat, b: nat)
    requires CompleteSet(frags, k, n) && |bufs| == n && b < sz && b < MAX_FEC_PAYLOAD
    requires Buffers(ins, Chosen(frags, k, n), bufs) && forall x :: 0 <= x < n ==> Loaded(bufs[x], frags, x)
    ensures (forall i :: 0 <= i < |ins| ==> b < ins[i].Length)
            && Codeword(k, Chosen(frags, k, n), ByteColumn(ins, b), DataColumn(Target(frags, k, n, sz), b))
  {
    hide Codeword, Solved, Chosen, Padded;
    ChosenOk(frags, k, n);
    var c := Chosen(frags, k, n);
    forall i | 0 <= i < |ins|
      ensures b < ins[i].Length && ins[i][b] == Padded(frags[c[i]])[b]
    {
      assert Loaded(bufs[c[i]], frags, c[i]) && bufs[c[i]][b] == bufs[c[i]][..MAX_FEC_PAYLOAD][b];
    }
    assert ByteColumn(ins, b) == ChosenColumn(frags, c, b);
    assert DataColumn(Target(frags, k, n, sz), b) == Solved(k, n, c, ChosenColumn(frags, c, b));
  }

  /** A missing primary fragment means that the decoder has something to work on. */
  lemma SomeLength(frags: map<nat, seq<Byte>>, k: nat, n: nat)
    requires CompleteSet(frags, k, n) && Sized(frags) && exists f :: 0 <= f < k && f !in frags
    ensures forall x :: 0 <= x < k ==> Chosen(frags, k, n)[x] in frags
    ensures 0 < MaxLength(frags, k, Chosen(frags, k, n), k) <= MAX_FEC_PAYLOAD
  {
    ChosenOk(frags, k, n);
    var f :| 0 <= f < k && f !in frags;
    var c := Chosen(frags, k, n);
    hide Chosen;
    assert c[f] != f && c[f] in frags && c[f] >= k;
  }

  /** The decoder over the chosen buffers. */
  method DecodeInto(t: Tables, code: FecCode, frags: map<nat, seq<Byte>>, bufs: seq<array<GF>>,
                    index: seq<nat>, ins: seq<array<GF>>, outs: seq<array<GF>>, sz: nat)
    requires t.Ready() && code.Valid() && CompleteSet(frags, code.k, code.n) && sz <= BUFFER_SIZE
    requires |bufs| == code.n && code.k <= code.n && Distinct(bufs)
    requires forall x :: 0 <= x < |bufs| ==> bufs[x].Length == BUFFER_SIZE && Loaded(bufs[x], frags, x)
    requires code.encMatrix !in bufs && t.exp !in bufs && t.inverse !in bufs
    requires index == Chosen(frags, code.k, code.n)
    requires Buffers(ins, index, bufs) && Buffers(outs, Missing(index, code.k), bufs)
    modifies bufs
    ensures t.Ready() && code.Valid()
    ensures forall f, b :: 0 <= f < code.k && f !in frags && 0 <= b < sz && b < MAX_FEC_PAYLOAD ==>
              bufs[f][b] == Target(frags, code.k, code.n, sz)[f][b]
  {
    var k, n := code.k, code.n;
    ChosenOk(frags, k, n);
    ChoiceDecodable(t, code, bufs, index, ins, outs, sz);
    ghost var data := Target(frags, k, n, sz);
    var inArr := new array<GF>[k](i requires 0 <= i < k => ins[i]);
    var idxArr := new nat[k](i requires 0 <= i < k => index[i]);
    assert k >= 1 && inArr[..] == ins && idxArr[..] == index;
    hide *;
    forall b | 0 <= b < sz && b < MAX_FEC_PAYLOAD
      ensures (forall i :: 0 <= i < |ins| ==> b < ins[i].Length) && Codeword(k, idxArr[..], ByteColumn(inArr[..], b), DataColumn(data, b))
    {
      TargetColumn(frags, k, n, bufs, ins, sz, b);
    }
    label Before:
    var ok := FecDecode(t, code, inArr, outs, idxArr, sz, data);
    assert ok;
    forall f, b | 0 <= f < k && f !in frags && 0 <= b < sz && b < MAX_FEC_PAYLOAD
      ensures bufs[f][b] == data[f][b]
    {
      var j := MissingIndex(frags, k, n, bufs, outs, f);
      assert old@Before(Codeword(k, idxArr[..], ByteColumn(inArr[..], b), DataColumn(data, b)));
      assert j < |Missing(old@Before(idxArr[..]), k)|;
      assert outs[j][b] == data[Missing(index, k)[j]][b];
    }
  }

  /** A missing primary fragment has an output buffer. */
  lemma MissingIndex(frags: map<nat, seq<Byte>>, k: nat, n: nat, bufs: seq<array<GF>>, outs: seq<array<GF>>, f: nat) returns (j: nat)
    requires CompleteSet(frags, k, n) && f < k && f !in frags && |bufs| == n
    requires Buffers(outs, Missing(Chosen(frags, k, n), k), bufs)
    ensures j < |Missing(Chosen(frags, k, n), k)| && Missing(Chosen(frags, k, n), k)[j] == f && j < |outs| && outs[j] == bufs[f]
  {
    MissingDistinct(Chosen(frags, k, n), k);
    ChosenHas(frags, k, n, f);
    hide Chosen, Missing;
    j :| 0 <= j < |Missing(Chosen(frags, k, n), k)| && Missing(Chosen(frags, k, n), k)[j] == f;
  }

  lemma CodeFits(t: Tables, code: FecCode)
    requires t.Ready() && code.Valid()
    ensures 1 <= code.k <= code.n <= 255
  {}

  /** The first bytes of the recovered columns are the decoded fragment. */
  lemma TargetDecoded(frags: map<nat, seq<Byte>>, k: nat, n: nat, sz: nat, f: nat, buf: array<GF>, len: nat)
    requires CompleteSet(frags, k, n) && f < k && forall x :: 0 <= x < k ==> Chosen(frags, k, n)[x] in frags
    requires sz == RoundUpSimd(MaxLength(frags, k, Chosen(frags, k, n), k)) && len == (if sz < MAX_FEC_PAYLOAD then sz else MAX_FEC_PAYLOAD)
    requires len <= buf.Length && forall b :: 0 <= b < len ==> buf[b] == Target(frags, k, n, sz)[f][b]
    ensures buf[..len] == Decoded(frags, k, n, f)
  {
    hide Solved, RoundUpSimd, ChosenFrom, Chosen, MaxLength;
  }

  /** Every missing primary fragment is there. */
  ghost predicate Recovered(rec: seq<seq<Byte>>, frags: map<nat, seq<Byte>>, k: nat, n: nat) {
    CompleteSet(frags, k, n) && |rec| == k && forall f :: 0 <= f < k && f !in frags ==> rec[f] == Decoded(frags, k, n, f)
  }

  lemma RecoveredBy(rec: seq<seq<Byte>>, frags: map<nat, seq<Byte>>, k: nat, n: nat, sz: nat, bufs: seq<array<GF>>, len: nat)
    requires CompleteSet(frags, k, n) && |rec| == k <= n == |bufs| && forall x :: 0 <= x < k ==> Chosen(frags, k, n)[x] in frags
    requires sz == RoundUpSimd(MaxLength(frags, k, Chosen(frags, k, n), k)) && len == (if sz < MAX_FEC_PAYLOAD then sz else MAX_FEC_PAYLOAD)
    requires forall f :: 0 <= f < k ==> len <= bufs[f].Length && rec[f] == bufs[f][..len]
    requires forall f, b :: 0 <= f < k && f !in frags && 0 <= b < len ==> bufs[f][b] == Target(frags, k, n, sz)[f][b]
    ensures Recovered(rec, frags, k, n)
  {
    hide Decoded, Target, Chosen, MaxLength, RoundUpSimd;
    forall f | 0 <= f < k && f !in frags
      ensures rec[f] == Decoded(frags, k, n, f)
    {
      TargetDecoded(frags, k, n, sz, f, bufs[f], len);
    }
  }

  /** `apply_fec`: the buffers of the primary fragments afterwards. */
  method ApplyFec(t: Tables, code: FecCode, frags: map<nat, seq<Byte>>) returns (rec: seq<seq<Byte>>)
    requires t.Ready() && code.Valid() && CompleteSet(frags, code.k, code.n) && Sized(frags)
    requires exists f :: 0 <= f < code.k && f !in frags
    ensures t.Ready() && code.Valid() && Recovered(rec, frags, code.k, code.n)
  {
    hide *;
    var k, n := code.k, code.n;
    CodeFits(t, code);
    var bufs := LoadBuffers(frags, n);
    var index, ins, outs, maxLen := ChooseInputs(frags, bufs, k, n);
    SomeLength(frags, k, n);
    assert 0 < maxLen <= MAX_FEC_PAYLOAD;
    var sz := RoundUpSimd(maxLen);
    SizeFits(maxLen);
    DecodeInto(t, code, frags, bufs, index, ins, outs, sz);
    var len := if sz < MAX_FEC_PAYLOAD then sz else MAX_FEC_PAYLOAD;
    rec := seq(k, f requires 0 <= f < k && len <= bufs[f].Length reads bufs => bufs[f][..len]);
    RecoveredBy(rec, frags, k, n, sz, bufs, len);
  }

  lemma SizeFits(maxLen: nat)
    requires maxLen <= MAX_FEC_PAYLOAD
    ensures RoundUpSimd(maxLen) <= BUFFER_SIZE
  {}
}
