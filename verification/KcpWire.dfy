/** KCP segments as bytes, the parse loop of `ikcp_input`, and the batching of `ikcp_flush`. */
module KcpWire {
  import opened Bytes
  import opened Sequences
  import opened KcpEndpoint

  const OVERHEAD := 24   // IKCP_OVERHEAD

  // ---------- little-endian numbers ----------

  function Byte256(v: nat): (b: Byte) { v % 256 }

  /** The low `count` bytes of v, the lowest first. */
  function Le(v: nat, count: nat): (r: seq<Byte>)
    ensures |r| == count
  {
    if count == 0 then [] else [Byte256(v)] + Le(v / 256, count - 1)
  }

  function FromLe(b: seq<Byte>): nat {
    if b == [] then 0 else (b[0] as nat) + 256 * FromLe(b[1..])
  }

  function Pow256(count: nat): (p: nat)
    ensures p > 0
  {
    if count == 0 then 1 else 256 * Pow256(count - 1)
  }

  /** Decoding gives back the number when it fits. */
  lemma {:induction false} LeRoundTrip(v: nat, count: nat)
    requires v < Pow256(count)
    ensures FromLe(Le(v, count)) == v
  {
    if count > 0 {
      LeRoundTrip(v / 256, count - 1);
      assert Le(v, count)[1..] == Le(v / 256, count - 1);
    }
  }

  /** Byte i is digit i of the number in base 256. */
  lemma {:induction false} LeByte(v: nat, count: nat, i: nat)
    requires i < count
    ensures Le(v, count)[i] == v / Pow256(i) % 256
  {
    if i > 0 {
      LeByte(v / 256, count - 1, i - 1);
      DivideTwice(v, 256, Pow256(i - 1));
    }
  }

  lemma DivideTwice(v: nat, a: nat, b: nat)
    requires a > 0 && b > 0
    ensures a * b > 0 && v / a / b == v / (a * b)
  {
    var q, r := v / a, v % a;
    var p, s := q / b, q % b;
    Parts(v, a); Parts(q, b);
    Distribute(a, b * p, s);
    Associate(a, b, p);
    Below(a, b, s, r);
    Quotient(v, a * b, p, a * s + r);
  }

  lemma Parts(v: nat, a: nat)
    requires a > 0
    ensures v == a * (v / a) + v % a && v % a < a
  {}

  lemma Associate(a: nat, b: nat, p: nat)
    ensures a * (b * p) == a * b * p
  {}

  lemma Distribute(a: nat, x: nat, y: nat)
    ensures a * (x + y) == a * x + a * y
  {}

  lemma Below(a: nat, b: nat, s: nat, r: nat)
    requires s < b && r < a
    ensures a * s + r < a * b
  {
    TimesMore(a, s + 1, b);
    Distribute(a, s, 1);
  }

  lemma Quotient(v: nat, d: nat, p: nat, r: nat)
    requires v == d * p + r && r < d
    ensures v / d == p
  {
    var q := v / d;
    Parts(v, d);
    Distribute(d, q, 1);
    Distribute(d, p, 1);
    if q < p { TimesMore(d, q + 1, p); }
    if q > p { TimesMore(d, p + 1, q); }
  }

  lemma TimesMore(d: nat, a: nat, b: nat)
    requires a <= b
    ensures d * a <= d * b
  {
    assert d * (b - a) >= 0;
    assert d * b == d * a + d * (b - a);
  }

  lemma Sizes()
    ensures Pow256(1) == 0x100 && Pow256(2) == 0x1_0000 && Pow256(4) == 0x1_0000_0000
  {
    assert Pow256(2) == 256 * Pow256(1) && Pow256(3) == 256 * Pow256(2) && Pow256(4) == 256 * Pow256(3);
  }

  // ---------- one segment ----------

  function Code(c: Cmd): nat {
    match c case Push => 81 case Ack => 82 case Wask => 83 case Wins => 84
  }

  function Command(code: nat): Cmd
    requires 81 <= code <= 84
  {
    if code == 81 then Push else if code == 82 then Ack else if code == 83 then Wask else Wins
  }

  /** The fields fit their places. */
  ghost predicate WellFormed(w: Wire) {
    && w.frg < 0x100 && w.wnd < 0x1_0000
    && w.ts < 0x1_0000_0000 && w.sn < 0x1_0000_0000 && w.una < 0x1_0000_0000 && |w.data| < 0x8000_0000
  }

  /** `ikcp_encode_seg` */
  function Header(conv: nat, w: Wire): (b: seq<Byte>)
    ensures |b| == OVERHEAD
  {
    Le(conv, 4) + Le(Code(w.cmd), 1) + Le(w.frg, 1) + Le(w.wnd, 2)
    + Le(w.ts, 4) + Le(w.sn, 4) + Le(w.una, 4) + Le(|w.data|, 4)
  }

  function Encode(conv: nat, w: Wire): seq<Byte> { Header(conv, w) + w.data }

  function Datagram(conv: nat, ws: seq<Wire>): seq<Byte> {
    if ws == [] then [] else Encode(conv, ws[0]) + Datagram(conv, ws[1..])
  }

  // ---------- the parse loop ----------

  /** What the loop of `ikcp_input` gets out of a datagram, and what it returns. */
  datatype Parsed = Parsed(segments: seq<Wire>, code: int)

  function Field(b: seq<Byte>, from: nat, count: nat): nat
    requires from + count <= |b|
  {
    FromLe(b[from..from + count])
  }

  function Parse(conv: nat, b: seq<Byte>): (r: Parsed)
    decreases |b|
  {
    if |b| < OVERHEAD then Parsed([], 0)
    else
      var len, cmd := Field(b, 20, 4), Field(b, 4, 1);
      if Field(b, 0, 4) != conv then Parsed([], -1)
      else if len > |b| - OVERHEAD || len >= 0x8000_0000 then Parsed([], -2)
      else if !(81 <= cmd <= 84) then Parsed([], -3)
      else
        var w := Wire(Command(cmd), Field(b, 5, 1), Field(b, 6, 2), Field(b, 8, 4), Field(b, 12, 4), Field(b, 16, 4),
                      b[OVERHEAD..OVERHEAD + len]);
        var rest := Parse(conv, b[OVERHEAD + len..]);
        Parsed([w] + rest.segments, rest.code)
  }

  // ---------- whatever bytes arrive ----------

  lemma {:induction false} LeInverse(b: seq<Byte>)
    ensures Le(FromLe(b), |b|) == b
  {
    if b != [] { LeInverse(b[1..]); }
  }

  lemma FieldBytes(b: seq<Byte>, from: nat, count: nat)
    requires from + count <= |b|
    ensures Le(Field(b, from, count), count) == b[from..from + count]
  {
    LeInverse(b[from..from + count]);
  }

  /** A header that parses is the encoding of what it parses to. */
  lemma HeaderBytes(conv: nat, b: seq<Byte>, data: seq<Byte>)
    requires |b| >= OVERHEAD && Field(b, 0, 4) == conv && 81 <= Field(b, 4, 1) <= 84 && Field(b, 20, 4) == |data|
    ensures Header(conv, Wire(Command(Field(b, 4, 1)), Field(b, 5, 1), Field(b, 6, 2), Field(b, 8, 4), Field(b, 12, 4), Field(b, 16, 4), data))
            == b[..OVERHEAD]
  {
    FieldBytes(b, 0, 4); FieldBytes(b, 4, 1); FieldBytes(b, 5, 1); FieldBytes(b, 6, 2);
    FieldBytes(b, 8, 4); FieldBytes(b, 12, 4); FieldBytes(b, 16, 4); FieldBytes(b, 20, 4);
    hide Le, Field;
    Cut(b, 4, 5); Cut(b, 5, 6); Cut(b, 6, 8); Cut(b, 8, 12); Cut(b, 12, 16); Cut(b, 16, 20); Cut(b, 20, 24);
  }

  lemma Cut(b: seq<Byte>, i: nat, j: nat)
    requires i <= j <= |b|
    ensures b[..i] + b[i..j] == b[..j] && b[0..i] == b[..i]
  {}

  /** What a datagram that breaks off, or goes wrong, returns. */
  function Ending(conv: nat, rest: seq<Byte>): (code: int) {
    if |rest| < OVERHEAD then 0
    else if Field(rest, 0, 4) != conv then -1
    else if Field(rest, 20, 4) > |rest| - OVERHEAD || Field(rest, 20, 4) >= 0x8000_0000 then -2
    else -3
  }

  /** Whatever bytes arrive, they are the encodings of the segments that the loop finds, followed by a rest in
      which no segment begins, and the code says why none does. */
  lemma {:induction false} ParseExactly(conv: nat, b: seq<Byte>) returns (rest: seq<Byte>)
    ensures b == Datagram(conv, Parse(conv, b).segments) + rest
    ensures Parse(conv, b).code == Ending(conv, rest)
    ensures Parse(conv, b).code == -3 ==> !(81 <= Field(rest, 4, 1) <= 84)
    decreases |b|
  {
    if Stops(conv, b) {
      ParseStops(conv, b);
      rest := b;
      assert [] + rest == rest;
    } else {
      var len := Field(b, 20, 4);
      var data, tail := b[OVERHEAD..OVERHEAD + len], b[OVERHEAD + len..];
      rest := ParseExactly(conv, tail);
      ParseGoesOn(conv, b);
      HeaderBytes(conv, b, data);
      var w := Parse(conv, b).segments[0];
      DatagramFirst(conv, w, Parse(conv, tail).segments);
      hide *;
      Rejoined(b, data, tail, Datagram(conv, Parse(conv, tail).segments), rest);
    }
  }

  /** No segment begins here. */
  predicate Stops(conv: nat, b: seq<Byte>) {
    |b| < OVERHEAD || Field(b, 0, 4) != conv || Field(b, 20, 4) > |b| - OVERHEAD || Field(b, 20, 4) >= 0x8000_0000
    || !(81 <= Field(b, 4, 1) <= 84)
  }

  lemma ParseStops(conv: nat, b: seq<Byte>)
    requires Stops(conv, b)
    ensures Parse(conv, b) == Parsed([], Ending(conv, b)) && Datagram(conv, []) == []
    ensures Ending(conv, b) == -3 ==> !(81 <= Field(b, 4, 1) <= 84)
  {
    hide Field;
  }

  lemma ParseGoesOn(conv: nat, b: seq<Byte>)
    requires !Stops(conv, b)
    ensures var len := Field(b, 20, 4);
            var rest := Parse(conv, b[OVERHEAD + len..]);
            Parse(conv, b) == Parsed([Wire(Command(Field(b, 4, 1)), Field(b, 5, 1), Field(b, 6, 2), Field(b, 8, 4), Field(b, 12, 4),
                                           Field(b, 16, 4), b[OVERHEAD..OVERHEAD + len])] + rest.segments, rest.code)
  {
    hide Field;
  }

  lemma DatagramFirst(conv: nat, w: Wire, ws: seq<Wire>)
    ensures Datagram(conv, [w] + ws) == Header(conv, w) + w.data + Datagram(conv, ws)
  {
    hide Header;
    assert ([w] + ws)[1..] == ws;
  }

  lemma Rejoined(b: seq<Byte>, data: seq<Byte>, tail: seq<Byte>, segments: seq<Byte>, rest: seq<Byte>)
    requires OVERHEAD + |data| <= |b| && data == b[OVERHEAD..OVERHEAD + |data|] && tail == b[OVERHEAD + |data|..] && tail == segments + rest
    ensures b == b[..OVERHEAD] + data + segments + rest
  {
    assert b == b[..OVERHEAD] + data + tail;
  }

  /** A field of the header of a datagram. */
  lemma FieldAt(pre: seq<Byte>, v: nat, count: nat, post: seq<Byte>)
    requires v < Pow256(count)
    ensures Field(pre + Le(v, count) + post, |pre|, count) == v
  {
    LeRoundTrip(v, count);
    assert (pre + Le(v, count) + post)[|pre|..|pre| + count] == Le(v, count);
  }

  /** Every field of an encoded header, whatever follows it. */
  lemma HeaderFields(conv: nat, w: Wire, rest: seq<Byte>)
    requires WellFormed(w) && conv < 0x1_0000_0000
    ensures var b := Header(conv, w) + rest;
            && Field(b, 0, 4) == conv && Field(b, 4, 1) == Code(w.cmd) && Field(b, 5, 1) == w.frg && Field(b, 6, 2) == w.wnd
            && Field(b, 8, 4) == w.ts && Field(b, 12, 4) == w.sn && Field(b, 16, 4) == w.una && Field(b, 20, 4) == |w.data|
  {
    Sizes();
    hide Le, FromLe, Pow256, Field;
    var h, c := Header(conv, w), Code(w.cmd);
    var b := h + rest;
    var p1 := Le(conv, 4); var p2 := p1 + Le(c, 1); var p3 := p2 + Le(w.frg, 1); var p4 := p3 + Le(w.wnd, 2);
    var p5 := p4 + Le(w.ts, 4); var p6 := p5 + Le(w.sn, 4); var p7 := p6 + Le(w.una, 4);
    var s7 := Le(|w.data|, 4) + rest; var s6 := Le(w.una, 4) + s7; var s5 := Le(w.sn, 4) + s6; var s4 := Le(w.ts, 4) + s5;
    var s3 := Le(w.wnd, 2) + s4; var s2 := Le(w.frg, 1) + s3; var s1 := Le(c, 1) + s2;
    assert b == [] + p1 + s1; FieldAt([], conv, 4, s1);
    assert b == p1 + Le(c, 1) + s2; FieldAt(p1, c, 1, s2);
    assert b == p2 + Le(w.frg, 1) + s3; FieldAt(p2, w.frg, 1, s3);
    assert b == p3 + Le(w.wnd, 2) + s4; FieldAt(p3, w.wnd, 2, s4);
    assert b == p4 + Le(w.ts, 4) + s5; FieldAt(p4, w.ts, 4, s5);
    assert b == p5 + Le(w.sn, 4) + s6; FieldAt(p5, w.sn, 4, s6);
    assert b == p6 + Le(w.una, 4) + s7; FieldAt(p6, w.una, 4, s7);
    assert b == p7 + Le(|w.data|, 4) + rest; FieldAt(p7, |w.data|, 4, rest);
  }

  lemma CommandCode(c: Cmd)
    ensures 81 <= Code(c) <= 84 && Command(Code(c)) == c
  {}

  /** The loop takes one encoded segment off the front. */
  lemma ParseOne(conv: nat, w: Wire, rest: seq<Byte>)
    requires WellFormed(w) && conv < 0x1_0000_0000
    ensures Parse(conv, Encode(conv, w) + rest) == Parsed([w] + Parse(conv, rest).segments, Parse(conv, rest).code)
  {
    var b := Encode(conv, w) + rest;
    assert b == Header(conv, w) + (w.data + rest);
    HeaderFields(conv, w, w.data + rest);
    CommandCode(w.cmd);
    hide Header, Field, Le;
    assert b[OVERHEAD..OVERHEAD + |w.data|] == w.data && b[OVERHEAD + |w.data|..] == rest;
  }

  /** The loop decodes exactly the list of segments that was encoded. */
  lemma {:induction false} ParseDatagram(conv: nat, ws: seq<Wire>)
    requires conv < 0x1_0000_0000 && forall i :: 0 <= i < |ws| ==> WellFormed(ws[i])
    ensures Parse(conv, Datagram(conv, ws)) == Parsed(ws, 0)
  {
    if ws != [] {
      ParseDatagram(conv, ws[1..]);
      ParseOne(conv, ws[0], Datagram(conv, ws[1..]));
      assert ws == [ws[0]] + ws[1..];
    }
  }

  // ---------- batching ----------

  /** Datagrams that are out, and the segments in the buffer. */
  datatype Batch = Batch(out: seq<seq<Wire>>, buffer: seq<Wire>)

  function Need(w: Wire): nat { OVERHEAD + |w.data| }

  function Size(ws: seq<Wire>): nat {
    if ws == [] then 0 else Size(ws[..|ws| - 1]) + Need(ws[|ws| - 1])
  }

  /** The buffer goes out, unless it is empty. */
  function PutOut(b: Batch): Batch {
    if b.buffer == [] then b else Batch(b.out + [b.buffer], [])
  }

  /** One more segment: if it does not fit the buffer goes out first. */
  function Add(b: Batch, w: Wire, mtu: nat): Batch {
    var b1 := if Size(b.buffer) + Need(w) > mtu then PutOut(b) else b;
    b1.(buffer := b1.buffer + [w])
  }

  function AddAll(b: Batch, ws: seq<Wire>, mtu: nat): Batch {
    if ws == [] then b else Add(AddAll(b, ws[..|ws| - 1], mtu), ws[|ws| - 1], mtu)
  }

  /** The datagrams of one flush. */
  function Batched(ws: seq<Wire>, mtu: nat): seq<seq<Wire>> {
    PutOut(AddAll(Batch([], []), ws, mtu)).out
  }

  function Flatten(out: seq<seq<Wire>>): seq<Wire> {
    if out == [] then [] else Flatten(out[..|out| - 1]) + out[|out| - 1]
  }

  ghost predicate BatchOk(b: Batch, ws: seq<Wire>, mtu: nat) {
    && Flatten(b.out) + b.buffer == ws && Size(b.buffer) <= mtu
    && forall i :: 0 <= i < |b.out| ==> b.out[i] != [] && Size(b.out[i]) <= mtu
  }

  lemma FlattenMore(out: seq<seq<Wire>>, last: seq<Wire>)
    ensures Flatten(out + [last]) == Flatten(out) + last
  {
    assert (out + [last])[..|out|] == out;
  }

  lemma PutOutOk(b: Batch, ws: seq<Wire>, mtu: nat)
    requires BatchOk(b, ws, mtu)
    ensures BatchOk(PutOut(b), ws, mtu) && PutOut(b).buffer == []
  {
    FlattenMore(b.out, b.buffer);
  }

  lemma SizeMore(ws: seq<Wire>, w: Wire)
    ensures Size(ws + [w]) == Size(ws) + Need(w) && Size([]) == 0
  {
    LastOff(ws, w);
  }

  lemma AddOk(b: Batch, ws: seq<Wire>, mtu: nat, w: Wire)
    requires BatchOk(b, ws, mtu) && Need(w) <= mtu
    ensures BatchOk(Add(b, w, mtu), ws + [w], mtu)
  {
    PutOutOk(b, ws, mtu);
    var b1 := if Size(b.buffer) + Need(w) > mtu then PutOut(b) else b;
    SizeMore(b1.buffer, w);
    hide PutOut, Flatten, Size, Need;
    Assoc(Flatten(b1.out), b1.buffer, [w]);
  }

  /** However the flush goes on, the segments go out in order, and no datagram is longer than mtu. */
  lemma {:induction false} AddAllOk(ws: seq<Wire>, mtu: nat)
    requires forall i :: 0 <= i < |ws| ==> Need(ws[i]) <= mtu
    ensures BatchOk(AddAll(Batch([], []), ws, mtu), ws, mtu)
  {
    if ws != [] {
      var init, last := ws[..|ws| - 1], ws[|ws| - 1];
      AddAllOk(init, mtu);
      AddOk(AddAll(Batch([], []), init, mtu), init, mtu, last);
      assert init + [last] == ws;
    }
  }

  /** The size counts the bytes. */
  lemma {:induction false} DatagramSize(conv: nat, ws: seq<Wire>)
    ensures |Datagram(conv, ws)| == Size(ws)
  {
    if ws != [] {
      var init, last := ws[..|ws| - 1], ws[|ws| - 1];
      DatagramSize(conv, init);
      DatagramMore(conv, init, last);
      assert init + [last] == ws;
    }
  }

  lemma {:induction false} DatagramMore(conv: nat, ws: seq<Wire>, w: Wire)
    ensures Datagram(conv, ws + [w]) == Datagram(conv, ws) + Encode(conv, w)
  {
    hide Encode;
    if ws == [] {
      assert [w][1..] == [];
    } else {
      DatagramMore(conv, ws[1..], w);
      assert (ws + [w])[1..] == ws[1..] + [w];
    }
  }

  /** Every datagram of a flush is at most mtu bytes long and decodes to its segments; all of them
      together are the segments of the flush in order. */
  lemma BatchedRoundTrip(conv: nat, ws: seq<Wire>, mtu: nat)
    requires conv < 0x1_0000_0000 && forall i :: 0 <= i < |ws| ==> WellFormed(ws[i]) && Need(ws[i]) <= mtu
    ensures Flatten(Batched(ws, mtu)) == ws
    ensures forall i :: 0 <= i < |Batched(ws, mtu)| ==> var d := Batched(ws, mtu)[i];
              OVERHEAD <= |Datagram(conv, d)| <= mtu && Parse(conv, Datagram(conv, d)) == Parsed(d, 0)
  {
    AddAllOk(ws, mtu);
    PutOutOk(AddAll(Batch([], []), ws, mtu), ws, mtu);
    hide PutOut, AddAll, WellFormed;
    var out := Batched(ws, mtu);
    assert Flatten(out) + [] == Flatten(out);
    forall i | 0 <= i < |out|
      ensures OVERHEAD <= |Datagram(conv, out[i])| <= mtu && Parse(conv, Datagram(conv, out[i])) == Parsed(out[i], 0)
    {
      DatagramSize(conv, out[i]);
      FlattenHas(out, i);
      hide Flatten;
      ParseDatagram(conv, out[i]);
    }
  }

  /** No datagram could have taken the first segment of the next one. */
  ghost predicate Filled(out: seq<seq<Wire>>, mtu: nat) {
    forall i :: 0 <= i < |out| - 1 ==> Full(out[i], out[i + 1], mtu)
  }

  ghost predicate Full(d: seq<Wire>, next: seq<Wire>, mtu: nat) { next != [] && Size(d) + Need(next[0]) > mtu }

  /** The same for the buffer behind the datagrams. */
  ghost predicate FilledWith(b: Batch, mtu: nat) {
    && Filled(b.out, mtu)
    && (b.out != [] ==> b.buffer != [] && Size(b.out[|b.out| - 1]) + Need(b.buffer[0]) > mtu)
  }

  lemma AddFills(b: Batch, w: Wire, mtu: nat)
    requires FilledWith(b, mtu)
    ensures FilledWith(Add(b, w, mtu), mtu)
  {
    hide Size, Need, Filled;
    if Size(b.buffer) + Need(w) > mtu && b.buffer != [] {
      FilledMore(b.out, b.buffer, mtu);
    }
  }

  lemma FilledMore(out: seq<seq<Wire>>, next: seq<Wire>, mtu: nat)
    requires Filled(out, mtu) && next != []
    requires out != [] ==> Size(out[|out| - 1]) + Need(next[0]) > mtu
    ensures Filled(out + [next], mtu)
  {
    hide Size, Need;
    var all := out + [next];
    forall i | 0 <= i < |all| - 1
      ensures Full(all[i], all[i + 1], mtu)
    {
      if i < |out| - 1 { assert Full(out[i], out[i + 1], mtu); }
    }
  }

  /** However the flush goes on, each datagram holds as many segments as fit. */
  lemma {:induction false} AddAllFills(ws: seq<Wire>, mtu: nat)
    ensures FilledWith(AddAll(Batch([], []), ws, mtu), mtu)
  {
    if ws != [] {
      AddAllFills(ws[..|ws| - 1], mtu);
      AddFills(AddAll(Batch([], []), ws[..|ws| - 1], mtu), ws[|ws| - 1], mtu);
      hide Add, FilledWith;
    }
  }

  lemma BatchesFilled(ws: seq<Wire>, mtu: nat)
    ensures Filled(Batched(ws, mtu), mtu)
  {
    AddAllFills(ws, mtu);
    var b := AddAll(Batch([], []), ws, mtu);
    hide AddAll, Size, Need, Filled;
    if b.buffer != [] { FilledMore(b.out, b.buffer, mtu); }
  }

  lemma {:induction false} FlattenHas(out: seq<seq<Wire>>, i: nat)
    requires i < |out|
    ensures forall j :: 0 <= j < |out[i]| ==> out[i][j] in Flatten(out)
  {
    if i < |out| - 1 { FlattenHas(out[..|out| - 1], i); }
  }

  lemma {:induction false} AddAllJoin(b: Batch, u: seq<Wire>, v: seq<Wire>, mtu: nat)
    ensures AddAll(b, u + v, mtu) == AddAll(AddAll(b, u, mtu), v, mtu)
  {
    hide Add;
    if v == [] {
      assert u + v == u;
    } else {
      var init, last := v[..|v| - 1], v[|v| - 1];
      AddAllJoin(b, u, init, mtu);
      assert (u + v)[..|u + v| - 1] == u + init;
    }
  }

  lemma AddAllMore(b: Batch, ws: seq<Wire>, w: Wire, mtu: nat)
    ensures AddAll(b, ws + [w], mtu) == Add(AddAll(b, ws, mtu), w, mtu)
  {
    assert (ws + [w])[..|ws|] == ws;
  }

  /** The bytes of some datagrams. */
  function Datagrams(conv: nat, out: seq<seq<Wire>>): (d: seq<seq<Byte>>)
    ensures |d| == |out| && forall i :: 0 <= i < |d| ==> d[i] == Datagram(conv, out[i])
  {
    seq(|out|, i requires 0 <= i < |out| => Datagram(conv, out[i]))
  }
}
