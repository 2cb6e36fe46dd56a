/** The two ordered buffers of KCP: what removal, insertion and the move to the queue do to them. */
module KcpBuffers {
  import opened Sequences
  import opened KcpEndpoint

  ghost predicate Ascending(buf: seq<Seg>) {
    forall i, j :: 0 <= i < j < |buf| ==> buf[i].sn < buf[j].sn
  }

  /** In an ascending buffer exactly the numbers below una go. */
  lemma {:induction false} DropBelowExact(buf: seq<Seg>, una: nat)
    requires Ascending(buf)
    ensures Ascending(DropBelow(buf, una))
    ensures forall s: Seg :: s in DropBelow(buf, una) <==> s in buf && s.sn >= una
  {
    if buf != [] {
      if buf[0].sn < una {
        DropBelowExact(buf[1..], una);
        assert buf == [buf[0]] + buf[1..];
      } else {
        forall s: Seg | s in buf
          ensures s.sn >= una
        {
          var i :| 0 <= i < |buf| && buf[i] == s;
        }
      }
    }
  }

  lemma AscendingTail(buf: seq<Seg>)
    requires Ascending(buf) && buf != []
    ensures Ascending(buf[1..]) && forall s: Seg :: s in buf[1..] ==> s.sn > buf[0].sn
    ensures forall s: Seg :: s in buf <==> s == buf[0] || s in buf[1..]
  {
    assert buf == [buf[0]] + buf[1..];
  }

  lemma AscendingCons(head: Seg, rest: seq<Seg>)
    requires Ascending(rest) && forall s: Seg :: s in rest ==> s.sn > head.sn
    ensures Ascending([head] + rest)
    ensures forall s: Seg :: s in [head] + rest <==> s == head || s in rest
  {
    assert forall i :: 0 <= i < |rest| ==> rest[i] in rest;
  }

  /** In an ascending buffer exactly the acknowledged number goes. */
  lemma {:induction false} WithoutExact(buf: seq<Seg>, sn: nat)
    requires Ascending(buf)
    ensures Ascending(Without(buf, sn))
    ensures forall s: Seg :: s in Without(buf, sn) <==> s in buf && s.sn != sn
  {
    if buf != [] {
      AscendingTail(buf);
      hide Ascending;
      if sn > buf[0].sn {
        WithoutExact(buf[1..], sn);
        AscendingCons(buf[0], Without(buf[1..], sn));
      }
    }
  }

  ghost predicate HasNumber(buf: seq<Seg>, sn: nat) {
    exists i :: 0 <= i < |buf| && buf[i].sn == sn
  }

  /** Insertion keeps the order and adds the segment, unless its number is there already. */
  lemma {:induction false} InsertExact(buf: seq<Seg>, seg: Seg)
    requires Ascending(buf)
    ensures Ascending(Insert(buf, seg))
    ensures forall s: Seg :: s in Insert(buf, seg) <==> s in buf || (s == seg && !HasNumber(buf, seg.sn))
  {
    if buf != [] {
      var last, rest := buf[|buf| - 1], buf[..|buf| - 1];
      assert buf == rest + [last];
      if last.sn != seg.sn && seg.sn < last.sn {
        InsertExact(rest, seg);
        var r := Insert(rest, seg);
        assert forall i :: 0 <= i < |r| ==> r[i] in r;
        assert HasNumber(rest, seg.sn) <==> HasNumber(buf, seg.sn);
        assert forall s: Seg :: s in rest ==> s.sn < last.sn;
      } else if seg.sn > last.sn {
        assert !HasNumber(buf, seg.sn);
      } else {
        assert buf[|buf| - 1].sn == seg.sn && HasNumber(buf, seg.sn);
      }
    }
  }

  /** What is ready is the run that starts at rcv, and it is as long as it can be. */
  lemma {:induction false} ReadyRun(buf: seq<Seg>, rcv: nat, room: nat)
    ensures var r := Ready(buf, rcv, room);
            && (forall i :: 0 <= i < r ==> buf[i].sn == rcv + i)
            && (r == room || r == |buf| || buf[r].sn != rcv + r)
    decreases room
  {
    if room > 0 && buf != [] && buf[0].sn == rcv {
      var r := Ready(buf[1..], rcv + 1, room - 1);
      ReadyRun(buf[1..], rcv + 1, room - 1);
      forall i | 0 <= i < r + 1
        ensures buf[i].sn == rcv + i
      {
        if i > 0 { assert buf[1..][i - 1] == buf[i]; }
      }
    }
  }

  // ---------- the receive buffer as a map ----------

  /** The buffer as a map keyed by sequence number. */
  ghost function Held(buf: seq<Seg>): map<nat, Seg> {
    if buf == [] then map[]
    else
      var last := buf[|buf| - 1];
      Held(buf[..|buf| - 1])[last.sn := last]
  }

  /** Every segment of an ascending buffer is in the map under its number, and nothing else is. */
  lemma {:induction false} HeldExact(buf: seq<Seg>, sn: nat)
    requires Ascending(buf)
    ensures sn in Held(buf) ==> Held(buf)[sn] in buf && Held(buf)[sn].sn == sn
    ensures forall i :: 0 <= i < |buf| && buf[i].sn == sn ==> sn in Held(buf) && Held(buf)[sn] == buf[i]
  {
    if buf != [] {
      HeldExact(buf[..|buf| - 1], sn);
    }
  }

  lemma HeldMore(buf: seq<Seg>, seg: Seg)
    ensures Held(buf + [seg]) == Held(buf)[seg.sn := seg]
  {
    LastOff(buf, seg);
  }

  lemma InsertCases(buf: seq<Seg>, seg: Seg)
    requires buf != []
    ensures var last, rest := buf[|buf| - 1], buf[..|buf| - 1];
            Insert(buf, seg) == if last.sn == seg.sn then buf
                                else if seg.sn > last.sn then buf + [seg] else Insert(rest, seg) + [last]
  {}

  lemma HeldLast(buf: seq<Seg>, sn: nat)
    requires Ascending(buf) && buf != []
    ensures Ascending(buf[..|buf| - 1]) && buf[|buf| - 1].sn in Held(buf)
    ensures sn in Held(buf) ==> sn <= buf[|buf| - 1].sn
    ensures sn in Held(buf) <==> sn in Held(buf[..|buf| - 1]) || sn == buf[|buf| - 1].sn
  {
    HeldExact(buf, sn);
    HeldExact(buf, buf[|buf| - 1].sn);
    if sn in Held(buf) { var i :| 0 <= i < |buf| && buf[i] == Held(buf)[sn]; }
  }

  /** Insertion into the list is insertion into the map; a number that is there keeps its segment. */
  lemma {:induction false} InsertIsMapInsert(buf: seq<Seg>, seg: Seg)
    requires Ascending(buf)
    ensures Held(Insert(buf, seg)) == if seg.sn in Held(buf) then Held(buf) else Held(buf)[seg.sn := seg]
  {
    if buf == [] {
      HeldMore([], seg);
    } else {
      hide *;
      InsertCases(buf, seg);
      HeldLast(buf, seg.sn);
      HeldMore(buf, seg);
      if seg.sn < buf[|buf| - 1].sn {
        InsertIsMapInsert(buf[..|buf| - 1], seg);
        InsertMiddle(buf, seg);
      }
    }
  }

  lemma InsertMiddle(buf: seq<Seg>, seg: Seg)
    requires buf != [] && seg.sn < buf[|buf| - 1].sn
    requires var rest := buf[..|buf| - 1];
             Held(Insert(rest, seg)) == if seg.sn in Held(rest) then Held(rest) else Held(rest)[seg.sn := seg]
    ensures var last, rest := buf[|buf| - 1], buf[..|buf| - 1];
            Held(Insert(rest, seg) + [last]) == if seg.sn in Held(rest) then Held(buf) else Held(buf)[seg.sn := seg]
  {
    var last, rest := buf[|buf| - 1], buf[..|buf| - 1];
    hide *;
    HeldMore(rest, last);
    HeldMore(Insert(rest, seg), last);
    LastSplit(buf);
    TwoUpdates(Held(rest), seg.sn, seg, last.sn, last);
  }

  lemma TwoUpdates<K, V>(m: map<K, V>, a: K, u: V, b: K, v: V)
    requires a != b
    ensures m[a := u][b := v] == m[b := v][a := u]
  {}
}
