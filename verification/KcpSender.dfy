/** The sending half: in any state the program can reach, snd_buf is strictly
    ascending inside [snd_una, snd_nxt), and the early exits of the
    acknowledgement loops remove exactly what was acknowledged. Everything is
    proved for wrapping and for exact sequence numbers at once. */
module KcpSender {
  import opened Bytes
  import opened KcpModel

  /** How far sn lies ahead of base. */
  function Off(m: Mode, base: int, sn: int): int {
    Norm(m, sn - base)
  }

  predicate Normal(m: Mode, x: int) {
    Norm(m, x) == x
  }

  /** Sequence numbers rise strictly through buf, staying in [lo, hi) ahead of
      base. */
  predicate Rising(m: Mode, base: int, lo: int, buf: seq<Seg>, hi: int)
    decreases |buf|
  {
    buf == [] || (
      Normal(m, buf[0].sn) && lo <= Off(m, base, buf[0].sn) < hi
      && Rising(m, base, Off(m, base, buf[0].sn) + 1, buf[1..], hi))
  }

  /** No more than this is in flight: the send window, and what a 16-bit window
      field can say. */
  function FlightLimit(c: Settings): int {
    Min(c.sndWnd, U16 - 1)
  }

  function InFlight(m: Mode, s: Snd): int {
    Off(m, s.una, s.nxt)
  }

  predicate SndOk(m: Mode, s: Snd, limit: int) {
    && Normal(m, s.una) && Normal(m, s.nxt)
    && 0 <= InFlight(m, s) <= limit < U16
    && Rising(m, s.una, 0, s.buf, InFlight(m, s))
    && s.una == ShrinkBuf(s.buf, s.nxt)
  }

  /** una moved forward, not past nxt; nothing was queued or numbered. */
  predicate Advanced(m: Mode, s: Snd, t: Snd) {
    t.nxt == s.nxt && t.queue == s.queue && 0 <= Off(m, s.una, t.una) <= InFlight(m, s)
  }

  // ----- arithmetic -----

  lemma Rebase(m: Mode, a: int, b: int, x: int)
    requires 0 <= Off(m, a, b) <= Off(m, a, x)
    ensures Off(m, b, x) == Off(m, a, x) - Off(m, a, b)
  {
    hide Wrap32;
    var j := WrapSplit(b - a);
    var k := WrapSplit(x - a);
    if m.Wrap? {
      WrapIs(x - b, k - j, Off(m, a, x) - Off(m, a, b));
    }
  }

  /** Inside a window below 2^31 the signed comparison is the comparison of
      distances. */
  lemma DiffIsOrder(m: Mode, base: int, x: int, y: int)
    requires 0 <= Off(m, base, x) < I32 && 0 <= Off(m, base, y) < I32
    ensures Diff(m, x, y) == Off(m, base, x) - Off(m, base, y)
  {
    hide Wrap32;
    var j := WrapSplit(x - base);
    var k := WrapSplit(y - base);
    var d := Off(m, base, x) - Off(m, base, y);
    if m.Wrap? {
      WrapIs(x - y, if d >= 0 then j - k else j - k - 1, if d >= 0 then d else d + U32);
    }
  }

  /** The window test of the two acknowledgement functions. */
  lemma WindowTest(m: Mode, sn: int, una: int, nxt: int)
    requires 0 <= Off(m, una, nxt) < U16
    ensures !OutsideWindow(m, sn, una, nxt) <==> 0 <= Off(m, una, sn) < Off(m, una, nxt)
  {
    hide Wrap32;
    var j := WrapSplit(sn - una);
    var k := WrapSplit(nxt - una);
    var d := Off(m, una, sn) - Off(m, una, nxt);
    if m.Wrap? {
      WrapIs(sn - nxt, if d >= 0 then j - k else j - k - 1, if d >= 0 then d else d + U32);
    }
  }

  lemma OffInjective(m: Mode, base: int, x: int, y: int)
    requires Normal(m, x) && Normal(m, y) && Off(m, base, x) == Off(m, base, y)
    ensures x == y
  {
  }

  // ----- rising sequences -----

  lemma {:induction false} RisingLower(m: Mode, base: int, lo: int, lo': int, buf: seq<Seg>, hi: int)
    requires Rising(m, base, lo, buf, hi) && lo' <= lo
    ensures Rising(m, base, lo', buf, hi)
  {
  }

  lemma {:induction false} RisingRebase(m: Mode, base: int, to: int, lo: int, buf: seq<Seg>, hi: int)
    requires Rising(m, base, lo, buf, hi) && 0 <= Off(m, base, to) <= lo
    ensures Rising(m, to, lo - Off(m, base, to), buf, hi - Off(m, base, to))
    decreases |buf|
  {
    hide Norm;
    if buf != [] {
      Rebase(m, base, to, buf[0].sn);
      RisingRebase(m, base, to, Off(m, base, buf[0].sn) + 1, buf[1..], hi);
    }
  }

  lemma {:induction false} RisingAppend(m: Mode, base: int, lo: int, buf: seq<Seg>, hi: int, x: Seg)
    requires Rising(m, base, lo, buf, hi) && Normal(m, x.sn) && lo <= hi == Off(m, base, x.sn)
    ensures Rising(m, base, lo, buf + [x], hi + 1)
    decreases |buf|
  {
    hide Norm;
    if buf == [] {
      assert (buf + [x])[1..] == [];
    } else {
      RisingAppend(m, base, Off(m, base, buf[0].sn) + 1, buf[1..], hi, x);
      assert (buf + [x])[1..] == buf[1..] + [x];
    }
  }

  lemma {:induction false} RisingAt(m: Mode, base: int, lo: int, buf: seq<Seg>, hi: int, i: nat)
    requires Rising(m, base, lo, buf, hi) && i < |buf|
    ensures Normal(m, buf[i].sn) && lo <= Off(m, base, buf[i].sn) < hi
    decreases |buf|
  {
    hide Norm;
    if i > 0 {
      RisingAt(m, base, Off(m, base, buf[0].sn) + 1, buf[1..], hi, i - 1);
    }
  }

  lemma {:induction false} RisingTail(m: Mode, base: int, lo: int, buf: seq<Seg>, hi: int, i: nat)
    requires Rising(m, base, lo, buf, hi) && i < |buf|
    ensures Rising(m, base, Off(m, base, buf[i].sn) + 1, buf[i + 1..], hi)
    decreases |buf|
  {
    hide Norm;
    if i > 0 {
      RisingTail(m, base, Off(m, base, buf[0].sn) + 1, buf[1..], hi, i - 1);
      assert buf[1..][i..] == buf[i + 1..];
    }
  }

  predicate SameNumbers(p: seq<Seg>, q: seq<Seg>) {
    |p| == |q| && forall i :: 0 <= i < |p| ==> p[i].sn == q[i].sn
  }

  lemma {:induction false} RisingSame(m: Mode, base: int, lo: int, p: seq<Seg>, q: seq<Seg>, hi: int)
    requires Rising(m, base, lo, p, hi) && SameNumbers(p, q)
    ensures Rising(m, base, lo, q, hi)
    decreases |p|
  {
    hide Norm;
    if p != [] {
      RisingSame(m, base, Off(m, base, p[0].sn) + 1, p[1..], q[1..], hi);
    }
  }

  // ----- what the acknowledgement loops remove -----

  /** The segments at or beyond una. */
  function Unacked(m: Mode, base: int, una: int, buf: seq<Seg>): seq<Seg> {
    if buf == [] then []
    else (if Off(m, base, buf[0].sn) < Off(m, base, una) then [] else [buf[0]]) + Unacked(m, base, una, buf[1..])
  }

  function Without(buf: seq<Seg>, sn: int): seq<Seg> {
    if buf == [] then [] else (if buf[0].sn == sn then [] else [buf[0]]) + Without(buf[1..], sn)
  }

  lemma {:induction false} UnackedAll(m: Mode, base: int, una: int, lo: int, buf: seq<Seg>, hi: int)
    requires Rising(m, base, lo, buf, hi) && Off(m, base, una) <= lo
    ensures Unacked(m, base, una, buf) == buf
    decreases |buf|
  {
    hide Norm;
    if buf != [] {
      UnackedAll(m, base, una, Off(m, base, buf[0].sn) + 1, buf[1..], hi);
    }
  }

  /** ikcp_parse_una stops at the first segment it keeps, and for every una of
      the window that is enough: exactly the segments below una go. */
  lemma {:induction false} UnaRemovesExactly(m: Mode, base: int, lo: int, buf: seq<Seg>, hi: int, una: int)
    requires 0 <= lo && hi < I32 && Rising(m, base, lo, buf, hi) && 0 <= Off(m, base, una) < I32
    ensures ParseUna(m, buf, una) == Unacked(m, base, una, buf)
    decreases |buf|
  {
    hide Norm, Diff;
    if buf != [] {
      DiffIsOrder(m, base, una, buf[0].sn);
      if Diff(m, una, buf[0].sn) > 0 {
        UnaRemovesExactly(m, base, Off(m, base, buf[0].sn) + 1, buf[1..], hi, una);
      } else {
        UnackedAll(m, base, una, Off(m, base, buf[0].sn), buf, hi);
      }
    }
  }

  lemma {:induction false} WithoutNone(m: Mode, base: int, lo: int, buf: seq<Seg>, hi: int, sn: int)
    requires Rising(m, base, lo, buf, hi) && !(lo <= Off(m, base, sn) < hi)
    ensures Without(buf, sn) == buf
    decreases |buf|
  {
    hide Norm;
    if buf != [] {
      WithoutNone(m, base, Off(m, base, buf[0].sn) + 1, buf[1..], hi, sn);
    }
  }

  lemma {:induction false} AckRemovesOne(m: Mode, base: int, lo: int, buf: seq<Seg>, hi: int, sn: int)
    requires 0 <= lo && hi < I32 && Rising(m, base, lo, buf, hi) && 0 <= Off(m, base, sn) < I32
    ensures RemoveSn(m, buf, sn) == Without(buf, sn)
    decreases |buf|
  {
    hide Norm, Diff;
    if buf != [] {
      var o := Off(m, base, buf[0].sn);
      DiffIsOrder(m, base, sn, buf[0].sn);
      if sn == buf[0].sn {
        WithoutNone(m, base, o + 1, buf[1..], hi, sn);
      } else if Diff(m, sn, buf[0].sn) < 0 {
        WithoutNone(m, base, o, buf, hi, sn);
      } else {
        AckRemovesOne(m, base, o + 1, buf[1..], hi, sn);
      }
    }
  }

  /** ikcp_parse_ack removes the segment numbered sn and no other, for every
      number whatever, inside the window or not. */
  lemma AckRemovesExactly(m: Mode, s: Snd, limit: int, sn: int)
    requires SndOk(m, s, limit)
    ensures ParseAck(m, s.buf, s.una, s.nxt, sn) == Without(s.buf, sn)
  {
    hide Norm, Diff, OutsideWindow;
    WindowTest(m, sn, s.una, s.nxt);
    if OutsideWindow(m, sn, s.una, s.nxt) {
      WithoutNone(m, s.una, 0, s.buf, InFlight(m, s), sn);
    } else {
      AckRemovesOne(m, s.una, 0, s.buf, InFlight(m, s), sn);
    }
  }

  /** ikcp_parse_fastack counts a skip for exactly the segments before sn. */
  lemma {:induction false} FastackCountsSkipped(m: Mode, base: int, lo: int, buf: seq<Seg>, hi: int, sn: int, i: nat)
    requires 0 <= lo && hi < I32 && Rising(m, base, lo, buf, hi) && 0 <= Off(m, base, sn) < I32 && Normal(m, sn)
      && i < |buf|
    ensures BumpFastack(m, buf, sn)[i] ==
            if Off(m, base, buf[i].sn) < Off(m, base, sn) then buf[i].(fastack := Wrap32(buf[i].fastack + 1))
              else buf[i]
    decreases |buf|
  {
    hide Norm, Diff, Wrap32;
    var o := Off(m, base, buf[0].sn);
    DiffIsOrder(m, base, sn, buf[0].sn);
    RisingAt(m, base, lo, buf, hi, i);
    if Diff(m, sn, buf[0].sn) < 0 {
      if i > 0 {
        RisingAt(m, base, o + 1, buf[1..], hi, i - 1);
      }
    } else if i == 0 {
      if Off(m, base, sn) == o {
        OffInjective(m, base, sn, buf[0].sn);
      }
    } else {
      FastackCountsSkipped(m, base, o + 1, buf[1..], hi, sn, i - 1);
    }
  }

  // ----- the invariant -----

  lemma {:induction false} ParseUnaRises(m: Mode, base: int, lo: int, buf: seq<Seg>, hi: int, una: int)
    requires Rising(m, base, lo, buf, hi)
    ensures Rising(m, base, lo, ParseUna(m, buf, una), hi)
    decreases |buf|
  {
    hide Norm, Diff;
    if buf != [] && Diff(m, una, buf[0].sn) > 0 {
      ParseUnaRises(m, base, Off(m, base, buf[0].sn) + 1, buf[1..], hi, una);
      RisingLower(m, base, Off(m, base, buf[0].sn) + 1, lo, ParseUna(m, buf[1..], una), hi);
    }
  }

  lemma {:induction false} WithoutRises(m: Mode, base: int, lo: int, buf: seq<Seg>, hi: int, sn: int)
    requires Rising(m, base, lo, buf, hi)
    ensures Rising(m, base, lo, Without(buf, sn), hi)
    decreases |buf|
  {
    hide Norm;
    if buf != [] {
      var o := Off(m, base, buf[0].sn);
      var rest := Without(buf[1..], sn);
      WithoutRises(m, base, o + 1, buf[1..], hi, sn);
      RisingLower(m, base, o + 1, lo, rest, hi);
      assert ([buf[0]] + rest)[1..] == rest && [] + rest == rest;
    }
  }

  /** Whatever rises in the old window is a good buffer again once snd_una has
      been moved to its head. */
  lemma Shrunk(m: Mode, s: Snd, limit: int, buf: seq<Seg>)
    requires SndOk(m, s, limit) && Rising(m, s.una, 0, buf, InFlight(m, s))
    ensures var t := s.(buf := buf, una := ShrinkBuf(buf, s.nxt)); SndOk(m, t, limit) && Advanced(m, s, t)
  {
    hide Norm;
    var una := ShrinkBuf(buf, s.nxt);
    Rebase(m, s.una, una, s.nxt);
    if buf != [] {
      var o := Off(m, s.una, una);
      RisingRebase(m, s.una, una, o, buf, InFlight(m, s));
    }
  }

  lemma DropUnaKeeps(m: Mode, s: Snd, limit: int, una: int)
    requires SndOk(m, s, limit)
    ensures SndOk(m, DropUna(m, s, una), limit) && Advanced(m, s, DropUna(m, s, una))
  {
    hide SndOk, Rising, Norm, ParseUna;
    assert Rising(m, s.una, 0, ParseUna(m, s.buf, una), InFlight(m, s)) by {
      RisingOf(m, s, limit);
      ParseUnaRises(m, s.una, 0, s.buf, InFlight(m, s), una);
    }
    Shrunk(m, s, limit, ParseUna(m, s.buf, una));
  }

  lemma RisingOf(m: Mode, s: Snd, limit: int)
    requires SndOk(m, s, limit)
    ensures Rising(m, s.una, 0, s.buf, InFlight(m, s))
  {
  }

  lemma DropAckKeeps(m: Mode, s: Snd, limit: int, sn: int)
    requires SndOk(m, s, limit)
    ensures SndOk(m, DropAck(m, s, sn), limit) && Advanced(m, s, DropAck(m, s, sn))
  {
    hide SndOk, Rising, Norm, ParseAck, Without;
    AckRemovesExactly(m, s, limit, sn);
    RisingOf(m, s, limit);
    WithoutRises(m, s.una, 0, s.buf, InFlight(m, s), sn);
    Shrunk(m, s, limit, Without(s.buf, sn));
  }

  lemma AdvancedTwice(m: Mode, s: Snd, t: Snd, u: Snd)
    requires Advanced(m, s, t) && Advanced(m, t, u)
    ensures Advanced(m, s, u)
  {
  }

  lemma {:induction false} BumpNumbers(m: Mode, buf: seq<Seg>, sn: int)
    ensures SameNumbers(BumpFastack(m, buf, sn), buf) && SameNumbers(buf, BumpFastack(m, buf, sn))
  {
    hide Diff, Wrap32;
    if buf != [] && Diff(m, sn, buf[0].sn) >= 0 {
      BumpNumbers(m, buf[1..], sn);
    }
  }

  /** Replacing segments without renumbering them. */
  lemma Renewed(m: Mode, s: Snd, limit: int, buf: seq<Seg>)
    requires SndOk(m, s, limit) && SameNumbers(s.buf, buf)
    ensures SndOk(m, s.(buf := buf), limit) && Advanced(m, s, s.(buf := buf))
  {
    hide Rising;
    RisingSame(m, s.una, 0, s.buf, buf, InFlight(m, s));
  }

  lemma {:induction false} FillBufKeeps(m: Mode, p: Stamp, rto: int, s: Snd, limit: int, cwnd: int)
    requires SndOk(m, s, limit) && 0 <= cwnd <= limit
    ensures SndOk(m, FillBuf(m, p, rto, s, cwnd), limit) && FillBuf(m, p, rto, s, cwnd).una == s.una
    decreases |s.queue|
  {
    hide Rising, Norm, Diff;
    if Diff(m, s.nxt, Norm(m, s.una + cwnd)) < 0 && s.queue != [] {
      NormalNorm(m, s.nxt + 1);
      var x := Launch(p, s.nxt, rto, s.queue[0]);
      var t := Snd(s.una, Norm(m, s.nxt + 1), s.queue[1..], s.buf + [x]);
      RisingAppend(m, s.una, 0, s.buf, InFlight(m, s), x);
      assert InFlight(m, t) == InFlight(m, s) + 1 <= limit by {
        Room(m, s, cwnd);
      }
      FillBufKeeps(m, p, rto, t, limit, cwnd);
    }
  }

  lemma Room(m: Mode, s: Snd, cwnd: int)
    requires 0 <= InFlight(m, s) < U16 && 0 <= cwnd < U16 && Diff(m, s.nxt, Norm(m, s.una + cwnd)) < 0
    ensures InFlight(m, s) < cwnd && Off(m, s.una, Norm(m, s.nxt + 1)) == InFlight(m, s) + 1
  {
    hide Wrap32, Diff;
    OffOfNorm(m, s.una, cwnd);
    DiffIsOrder(m, s.una, s.nxt, Norm(m, s.una + cwnd));
    var j := WrapSplit(s.nxt - s.una);
    var k := WrapSplit(s.nxt + 1);
    if m.Wrap? {
      WrapIs(Norm(m, s.nxt + 1) - s.una, j - k, InFlight(m, s) + 1);
    }
  }

  lemma NormalNorm(m: Mode, x: int)
    ensures Normal(m, Norm(m, x))
  {
  }

  lemma OffOfNorm(m: Mode, base: int, i: int)
    requires 0 <= i < U32
    ensures Off(m, base, Norm(m, base + i)) == i
  {
    hide Wrap32;
    var k := WrapSplit(base + i);
    if m.Wrap? {
      WrapIs(Norm(m, base + i) - base, -k, i);
    }
  }

  lemma NormAdd(m: Mode, x: int, d: int, i: int)
    ensures Norm(m, Norm(m, x + d) + i) == Norm(m, x + (d + i))
  {
    hide Wrap32;
    var j := WrapSplit(x + d);
    var k := WrapSplit(x + (d + i));
    if m.Wrap? {
      WrapIs(Norm(m, x + d) + i, k - j, Wrap32(x + (d + i)));
    }
  }

  lemma {:induction false} SweepNumbers(st: Stamp, p: Pace, buf: seq<Seg>)
    ensures SameNumbers(buf, SweepAll(st, p, buf).buf)
  {
    hide WhySend;
    if buf != [] {
      SweepNumbers(st, p, buf[..|buf| - 1]);
    }
  }
}
