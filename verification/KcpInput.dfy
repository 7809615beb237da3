/** What one datagram does to a control block, said without the functions that
    ikcp_input is built from: which acknowledgements it leaves to be sent, what
    is received, what the sender lets go, and the window it announces. */
module KcpInput {
  import opened Bytes
  import opened KcpModel
  import opened KcpSender
  import opened KcpReceiver
  import opened KcpCongestion
  import opened KcpEndpoint
  import opened KcpWire

  /** b is a datagram of whole segments. */
  predicate Datagram(s: Kcb, b: seq<Byte>) {
    b != [] && |b| < I32 && WellFormed(s.cfg.conv, b)
  }

  /** ikcp_input of a datagram is the loop over its segments and the last step. */
  lemma InputIs(m: Mode, s: Kcb, b: seq<Byte>)
    requires Datagram(s, b)
    ensures var r := ReadAll(m, s, Track(false, 0), Parse(s.cfg.conv, b));
      Input(m, s, b) == (InputFinish(m, r.s, s.snd.una, r.f), 0)
  {
    hide WellFormed, Parse, InputFinish, ReadAll, InputLoop, Signed32;
    NotShort(s.cfg.conv, b);
    SignedSmall(|b|);
    LoopReads(m, s, Track(false, 0), b, []);
    assert b + [] == b;
    var r := ReadAll(m, s, Track(false, 0), Parse(s.cfg.conv, b));
    LoopEnds(m, r.s, r.f);
  }

  lemma LoopEnds(m: Mode, s: Kcb, f: Track)
    ensures InputLoop(m, s, f, []) == Scan(s, f, 0)
  {
  }

  // ----- data -----

  /** The data segments of a datagram. */
  function Pushes(xs: seq<Seg>): seq<Seg> {
    if xs == [] then []
    else Pushes(xs[..|xs| - 1]) + if xs[|xs| - 1].cmd == 81 then [xs[|xs| - 1]] else []
  }

  /** The acknowledgements due for them: for each segment below the window's
      end of its moment, its number and its time stamp. */
  function AcksDue(m: Mode, wnd: int, r: Rcv, xs: seq<Seg>): seq<Ack> {
    if xs == [] then []
    else
      var front, x := xs[..|xs| - 1], xs[|xs| - 1];
      var nxt := AcceptAll(m, wnd, r, Pushes(front)).nxt;
      AcksDue(m, wnd, r, front)
      + if x.cmd == 81 && Diff(m, x.sn, Norm(m, nxt + wnd)) < 0 then [Ack(x.sn, x.ts)] else []
  }

  lemma {:induction false} ReadLast(m: Mode, s: Kcb, f: Track, xs: seq<Seg>)
    requires xs != []
    ensures var r, x := ReadAll(m, s, f, xs[..|xs| - 1]), xs[|xs| - 1];
      ReadAll(m, s, f, xs) == Scan(ProcessSeg(m, r.s, x), TrackSeg(m, r.f, x), 0)
    decreases |xs|
  {
    hide ProcessSeg, TrackSeg;
    if |xs| == 1 {
      assert xs[..0] == [] && xs[1..] == [];
    } else {
      ReadLast(m, ProcessSeg(m, s, xs[0]), TrackSeg(m, f, xs[0]), xs[1..]);
      assert xs[1..][..|xs| - 2] == xs[..|xs| - 1][1..];
    }
  }

  lemma PushesLast(ps: seq<Seg>, x: Seg)
    ensures Pushes(ps + [x]) == Pushes(ps) + if x.cmd == 81 then [x] else []
  {
    assert (ps + [x])[..|ps|] == ps;
  }

  lemma AcceptLast(m: Mode, wnd: int, r: Rcv, xs: seq<Seg>, x: Seg)
    ensures AcceptAll(m, wnd, r, xs + [x]) == Accept(m, wnd, AcceptAll(m, wnd, r, xs), x)
  {
    assert (xs + [x])[..|xs|] == xs;
  }

  /** One segment: what it adds to the receiver and to the acknowledgements. */
  lemma SegReceived(m: Mode, s: Kcb, x: Seg)
    ensures var t := ProcessSeg(m, s, x);
      && t.rcv == (if x.cmd == 81 then Accept(m, s.cfg.rcvWnd, s.rcv, x) else s.rcv)
      && t.acklist == s.acklist + (if x.cmd == 81 && Diff(m, x.sn, Norm(m, s.rcv.nxt + s.cfg.rcvWnd)) < 0
                                   then [Ack(x.sn, x.ts)] else [])
      && t.cfg == s.cfg
  {
    hide Diff, Norm, MoveReady, InsertSeg, DropUna, DropAck, UpdateAck;
  }

  lemma {:induction false} ReadReceives(m: Mode, s: Kcb, f: Track, xs: seq<Seg>)
    ensures var t := ReadAll(m, s, f, xs).s;
      && t.rcv == AcceptAll(m, s.cfg.rcvWnd, s.rcv, Pushes(xs)) && t.cfg == s.cfg
      && t.acklist == s.acklist + AcksDue(m, s.cfg.rcvWnd, s.rcv, xs)
    decreases |xs|
  {
    hide ProcessSeg, TrackSeg, Accept, AcceptAll, AcksDue, Pushes, Diff, Norm;
    if xs == [] {
      NothingRead(m, s.cfg.rcvWnd, s.rcv);
      assert s.acklist + [] == s.acklist;
    } else {
      var front, x := xs[..|xs| - 1], xs[|xs| - 1];
      assert xs == front + [x];
      ReadReceives(m, s, f, front);
      ReadLast(m, s, f, xs);
      SegReceived(m, ReadAll(m, s, f, front).s, x);
      PushesLast(front, x);
      AcksLast(m, s.cfg.rcvWnd, s.rcv, front, x);
      if x.cmd == 81 {
        AcceptLast(m, s.cfg.rcvWnd, s.rcv, Pushes(front), x);
      } else {
        assert Pushes(front) + [] == Pushes(front);
      }
    }
  }

  lemma NothingRead(m: Mode, wnd: int, r: Rcv)
    ensures Pushes([]) == [] && AcceptAll(m, wnd, r, []) == r && AcksDue(m, wnd, r, []) == []
  {
  }

  lemma AcksLast(m: Mode, wnd: int, r: Rcv, xs: seq<Seg>, x: Seg)
    ensures AcksDue(m, wnd, r, xs + [x]) == AcksDue(m, wnd, r, xs)
      + if x.cmd == 81 && Diff(m, x.sn, Norm(m, AcceptAll(m, wnd, r, Pushes(xs)).nxt + wnd)) < 0
        then [Ack(x.sn, x.ts)] else []
  {
    hide Diff, Norm, AcceptAll, Pushes, AcksDue;
    var all := xs + [x];
    assert all[..|all| - 1] == xs && all[|all| - 1] == x;
    AcksUnfold(m, wnd, r, all);
  }

  lemma AcksUnfold(m: Mode, wnd: int, r: Rcv, xs: seq<Seg>)
    requires xs != []
    ensures var front, x := xs[..|xs| - 1], xs[|xs| - 1];
      AcksDue(m, wnd, r, xs) == AcksDue(m, wnd, r, front)
        + if x.cmd == 81 && Diff(m, x.sn, Norm(m, AcceptAll(m, wnd, r, Pushes(front)).nxt + wnd)) < 0
          then [Ack(x.sn, x.ts)] else []
  {
    hide Diff, Norm, AcceptAll, Pushes;
  }

  /** Reading a datagram, every data segment below the end of the window is
      acknowledged, in order and as often as it came; and the receiver gets all
      of them. */
  lemma InputAcks(m: Mode, s: Kcb, b: seq<Byte>)
    requires Datagram(s, b)
    ensures var t, xs := Input(m, s, b).0, Parse(s.cfg.conv, b);
      && t.acklist == s.acklist + AcksDue(m, s.cfg.rcvWnd, s.rcv, xs)
      && t.rcv == AcceptAll(m, s.cfg.rcvWnd, s.rcv, Pushes(xs))
  {
    hide WellFormed, Parse, ReadAll, ParseFastack, GrowWindow, AcksDue, AcceptAll;
    InputIs(m, s, b);
    ReadReceives(m, s, Track(false, 0), Parse(s.cfg.conv, b));
  }

  // ----- what arrives is kept -----

  /** Segment sn, o numbers behind base, has been moved to the queue or waits. */
  predicate Kept(m: Mode, base: int, r: Rcv, sn: int, d: nat) {
    r.nxt == Norm(m, base + d) && (Off(m, base, sn) < d || Present(r.buf, sn))
  }

  lemma {:induction false} InsertSegHas(m: Mode, buf: seq<Seg>, x: Seg)
    ensures forall sn :: Present(buf, sn) || sn == x.sn ==> Present(InsertSeg(m, buf, x), sn)
    decreases |buf|
  {
    hide Diff;
    if buf == [] {
      assert [x][0] == x;
    } else {
      var l := |buf| - 1;
      var r := InsertSeg(m, buf, x);
      InsertSegHas(m, buf[..l], x);
      forall sn | Present(buf, sn) || sn == x.sn ensures Present(r, sn) {
        if buf[l].sn == x.sn {
        } else if Diff(m, x.sn, buf[l].sn) > 0 {
          if sn == x.sn {
            assert r[l + 1].sn == sn;
          } else {
            var i :| 0 <= i < |buf| && buf[i].sn == sn;
            assert r[i].sn == sn;
          }
        } else {
          StillPresent(InsertSeg(m, buf[..l], x), buf[l], buf, sn, x);
        }
      }
    }
  }

  lemma StillPresent(front: seq<Seg>, y: Seg, buf: seq<Seg>, sn: int, x: Seg)
    requires buf != [] && y == buf[|buf| - 1] && (Present(buf, sn) || sn == x.sn)
    requires forall n :: Present(buf[..|buf| - 1], n) || n == x.sn ==> Present(front, n)
    ensures Present(front + [y], sn)
  {
    var l := |buf| - 1;
    if sn == y.sn {
      assert (front + [y])[|front|] == y;
    } else {
      if sn != x.sn {
        var i :| 0 <= i < |buf| && buf[i].sn == sn;
        assert buf[..l][i].sn == sn;
      }
      assert Present(front, sn);
      var j :| 0 <= j < |front| && front[j].sn == sn;
      assert (front + [y])[j].sn == sn;
    }
  }

  /** Moving keeps what was kept; d grows by what is moved. */
  lemma MoveKept(m: Mode, wnd: int, base: int, r: Rcv, sn: int, d: nat) returns (e: nat)
    requires Normal(m, r.nxt) && Normal(m, sn) && d + wnd < I32
    requires Kept(m, base, r, sn, d)
    ensures d <= e <= d + Max(0, wnd - |r.queue|) && Kept(m, base, MoveReady(m, wnd, r), sn, e)
    ensures |MoveReady(m, wnd, r).queue| == |r.queue| + (e - d)
  {
    hide Norm, Normal, MoveReady;
    var n := MoveReadyMoves(m, wnd, r);
    e := d + n;
    NormAdd(m, base, d, n);
    if Present(r.buf, sn) && Off(m, base, sn) >= d {
      var i :| 0 <= i < |r.buf| && r.buf[i].sn == sn;
      if i < n {
        NormAdd(m, base, d, i);
        OffOfNorm(m, base, d + i);
      } else {
        assert MoveReady(m, wnd, r).buf[i - n].sn == sn;
      }
    }
  }

  /** One more segment: what was kept still is, and so is the segment itself if
      it lies in the window. */
  lemma AcceptKept(m: Mode, wnd: int, base: int, r: Rcv, sn: int, d: nat, x: Seg) returns (e: nat)
    requires RcvOk(m, wnd, r) && Normal(m, x.sn) && Normal(m, sn) && d <= wnd && r.nxt == Norm(m, base + d)
    requires Kept(m, base, r, sn, d) || (sn == x.sn && 0 <= Off(m, r.nxt, sn) < wnd)
    ensures d <= e && Kept(m, base, Accept(m, wnd, r, x), sn, e)
    ensures |Accept(m, wnd, r, x).queue| == |r.queue| + (e - d)
  {
    hide Norm, Normal, Diff, MoveReady, InsertSeg, Rising, Off, Present;
    PushTest(m, x.sn, r.nxt, wnd);
    if 0 <= Off(m, r.nxt, x.sn) < wnd {
      InsertSegHas(m, r.buf, x);
      e := MoveKept(m, wnd, base, r.(buf := InsertSeg(m, r.buf, x)), sn, d);
    } else {
      e := d;
    }
  }

  lemma OffAfter(m: Mode, base: int, d: nat, sn: int)
    requires 0 <= d < I32 && d <= Off(m, base, sn)
    ensures Off(m, Norm(m, base + d), sn) == Off(m, base, sn) - d
  {
    hide Norm;
    OffOfNorm(m, base, d);
    Rebase(m, base, Norm(m, base + d), sn);
  }

  predicate NormalSegs(m: Mode, ps: seq<Seg>) {
    forall i :: 0 <= i < |ps| ==> Normal(m, ps[i].sn)
  }

  /** Every segment of the window is kept, whatever arrives with it. */
  lemma {:induction false} AllKept(m: Mode, wnd: int, r: Rcv, ps: seq<Seg>, j: nat)
    requires RcvOk(m, wnd, r) && NormalSegs(m, ps) && j < |ps| && 0 <= Off(m, r.nxt, ps[j].sn) < wnd
    ensures var t := AcceptAll(m, wnd, r, ps);
      RcvOk(m, wnd, t) && |r.queue| <= |t.queue| && Kept(m, r.nxt, t, ps[j].sn, |t.queue| - |r.queue|)
    decreases |ps|
  {
    hide Norm, Normal, Off, Accept, RcvOk, Present, AcceptAll;
    var front, x, sn := ps[..|ps| - 1], ps[|ps| - 1], ps[j].sn;
    assert ps == front + [x];
    AcceptLast(m, wnd, r, front, x);
    var d := AllMoved(m, wnd, r, front);
    var u := AcceptAll(m, wnd, r, front);
    RcvBounds(m, wnd, r);
    RcvBounds(m, wnd, u);
    if j < |front| {
      AllKept(m, wnd, r, front, j);
    } else if Off(m, r.nxt, sn) >= d {
      OffAfter(m, r.nxt, d, sn);
    }
    var e := AcceptKept(m, wnd, r.nxt, u, sn, d, x);
    AcceptKeeps(m, wnd, u, x);
  }

  lemma RcvBounds(m: Mode, wnd: int, r: Rcv)
    requires RcvOk(m, wnd, r)
    ensures |r.queue| <= wnd < U16
  {
    hide Rising;
  }

  /** rcv_nxt moves as far as the queue grows. */
  lemma {:induction false} AllMoved(m: Mode, wnd: int, r: Rcv, ps: seq<Seg>) returns (d: nat)
    requires RcvOk(m, wnd, r) && NormalSegs(m, ps)
    ensures var t := AcceptAll(m, wnd, r, ps);
      RcvOk(m, wnd, t) && |t.queue| == |r.queue| + d && d <= wnd && t.nxt == Norm(m, r.nxt + d)
    decreases |ps|
  {
    hide Norm, Off, Accept, RcvOk, AcceptAll;
    RcvBounds(m, wnd, r);
    if ps == [] {
      d := 0;
      NormalNxt(m, wnd, r);
      NothingRead(m, wnd, r);
    } else {
      var front, x := ps[..|ps| - 1], ps[|ps| - 1];
      assert ps == front + [x];
      AcceptLast(m, wnd, r, front, x);
      var c := AllMoved(m, wnd, r, front);
      var u := AcceptAll(m, wnd, r, front);
      var k := AcceptMoved(m, wnd, u, x);
      AcceptKeeps(m, wnd, u, x);
      RcvBounds(m, wnd, Accept(m, wnd, u, x));
      NormAdd(m, r.nxt, c, k);
      d := c + k;
    }
  }

  lemma NormalNxt(m: Mode, wnd: int, r: Rcv)
    requires RcvOk(m, wnd, r)
    ensures Norm(m, r.nxt + 0) == r.nxt
  {
    hide Rising;
  }

  lemma AcceptMoved(m: Mode, wnd: int, r: Rcv, x: Seg) returns (n: nat)
    requires RcvOk(m, wnd, r)
    ensures var t := Accept(m, wnd, r, x); |t.queue| == |r.queue| + n && t.nxt == Norm(m, r.nxt + n)
    ensures Accept(m, wnd, r, x) == r || Settled(wnd, Accept(m, wnd, r, x))
  {
    hide Norm, Diff, MoveReady, InsertSeg, Rising, Settled;
    n := 0;
    if !(Diff(m, x.sn, Norm(m, r.nxt + wnd)) >= 0 || Diff(m, x.sn, r.nxt) < 0) {
      n := MoveReadyMoves(m, wnd, r.(buf := InsertSeg(m, r.buf, x)));
    }
  }

  // ----- what arrives is acknowledged -----

  /** Segment j of a datagram, if it is data inside the window, is acknowledged. */
  lemma {:induction false} AckOf(m: Mode, wnd: int, r: Rcv, xs: seq<Seg>, j: nat)
    requires RcvOk(m, wnd, r) && NormalSegs(m, Pushes(xs)) && j < |xs| && xs[j].cmd == 81
    requires 0 <= Off(m, r.nxt, xs[j].sn) < wnd
    ensures Ack(xs[j].sn, xs[j].ts) in AcksDue(m, wnd, r, xs)
    decreases |xs|
  {
    hide Norm, Normal, Off, Diff, AcceptAll, AcksDue, RcvOk, Pushes;
    var front, x := xs[..|xs| - 1], xs[|xs| - 1];
    assert xs == front + [x];
    PushesLast(front, x);
    AcksLast(m, wnd, r, front, x);
    NormalFront(m, front, x);
    if j < |front| {
      AckOf(m, wnd, r, front, j);
    } else {
      var d := AllMoved(m, wnd, r, Pushes(front));
      RcvBounds(m, wnd, r);
      BelowEnd(m, r.nxt, d, wnd, x.sn);
    }
  }

  lemma NormalFront(m: Mode, front: seq<Seg>, x: Seg)
    requires NormalSegs(m, Pushes(front + [x]))
    ensures NormalSegs(m, Pushes(front))
  {
    hide Norm;
    PushesLast(front, x);
    forall i | 0 <= i < |Pushes(front)| ensures Normal(m, Pushes(front)[i].sn) {
      assert Pushes(front + [x])[i] == Pushes(front)[i];
    }
  }

  lemma BelowEnd(m: Mode, base: int, d: nat, wnd: int, sn: int)
    requires d <= wnd < U16 && 0 <= Off(m, base, sn) < wnd
    ensures Diff(m, sn, Norm(m, Norm(m, base + d) + wnd)) < 0
  {
    hide Norm, Diff, Off;
    NormAdd(m, base, d, wnd);
    OffOfNorm(m, base, d + wnd);
    DiffIsOrder(m, base, sn, Norm(m, base + (d + wnd)));
  }

  lemma {:induction false} ParsedNormal(m: Mode, conv: int, b: seq<Byte>)
    requires WellFormed(conv, b)
    ensures forall x :: x in Parse(conv, b) ==> Normal(m, x.sn) && Normal(m, x.una) && 0 <= x.wnd < U16
    decreases |b|
  {
    hide Header, HeaderLen, Signed32, Norm;
    if b != [] {
      HeaderArrived(m, b);
      ParsedNormal(m, conv, Behind(b));
    }
  }

  lemma {:induction false} PushesIn(xs: seq<Seg>)
    ensures forall x :: x in Pushes(xs) <==> x in xs && x.cmd == 81
  {
    if xs != [] {
      PushesIn(xs[..|xs| - 1]);
      assert xs == xs[..|xs| - 1] + [xs[|xs| - 1]];
    }
  }

  /** A data segment inside the receive window, read in whatever company, is
      acknowledged, and is in the queue or waits for a gap to close. */
  lemma InputReceives(m: Mode, s: Kcb, b: seq<Byte>, x: Seg)
    requires BlockOk(m, s) && Datagram(s, b) && x in Parse(s.cfg.conv, b) && x.cmd == 81
    requires 0 <= Off(m, s.rcv.nxt, x.sn) < s.cfg.rcvWnd
    ensures var t := Input(m, s, b).0;
      Ack(x.sn, x.ts) in t.acklist && |s.rcv.queue| <= |t.rcv.queue|
      && Kept(m, s.rcv.nxt, t.rcv, x.sn, |t.rcv.queue| - |s.rcv.queue|)
  {
    hide WellFormed, Parse, AcksDue, AcceptAll, Pushes, Off, Norm, RcvOk, SndOk, Input, Present;
    var xs := Parse(s.cfg.conv, b);
    var ps := Pushes(xs);
    InputAcks(m, s, b);
    ParsedNormal(m, s.cfg.conv, b);
    PushesIn(xs);
    forall i | 0 <= i < |ps| ensures Normal(m, ps[i].sn) {
      assert ps[i] in ps;
    }
    var i :| 0 <= i < |ps| && ps[i] == x;
    AllKept(m, s.cfg.rcvWnd, s.rcv, ps, i);
    var j :| 0 <= j < |xs| && xs[j] == x;
    AckOf(m, s.cfg.rcvWnd, s.rcv, xs, j);
  }

  // ----- what the sender lets go -----

  /** Some segment of xs acknowledges sn, by its number or by a una past it. */
  predicate Acknowledged(m: Mode, xs: seq<Seg>, sn: int) {
    exists x :: x in xs && Covers(m, x, sn)
  }

  predicate Covers(m: Mode, x: Seg, sn: int) {
    (x.cmd == 82 && x.sn == sn) || Diff(m, x.una, sn) > 0
  }

  /** No una of xs is about 2^31 behind base. */
  predicate UnasNear(m: Mode, base: int, xs: seq<Seg>) {
    m.Exact? || forall x :: x in xs ==> Diff(m, x.una, base) >= -(I32 - 2 * U16)
  }

  lemma DiffBack(m: Mode, una: int, base: int, sn: int)
    requires 0 <= Off(m, base, sn) < U16 && (m.Exact? || Diff(m, una, base) >= -(I32 - U16))
    ensures Diff(m, una, sn) == Diff(m, una, base) - Off(m, base, sn)
  {
    hide Wrap32;
    if m.Wrap? {
      var j := WrapSplit(una - base);
      var k := WrapSplit(sn - base);
      var d := Diff(m, una, base) - Off(m, base, sn);
      var w := if d >= 0 then d else d + U32;
      var w0 := if Diff(m, una, base) >= 0 then Diff(m, una, base) else Diff(m, una, base) + U32;
      assert Wrap32(una - base) == w0;
      WrapIs(una - sn, if w == w0 - Off(m, base, sn) then j - k else j - k - 1, w);
    }
  }

  /** ikcp_parse_una: exactly the segments before una go. */
  lemma {:induction false} UnaDrops(m: Mode, base: int, lo: int, buf: seq<Seg>, hi: int, una: int)
    requires 0 <= lo && hi < U16 && Rising(m, base, lo, buf, hi)
    requires m.Exact? || Diff(m, una, base) >= -(I32 - U16)
    ensures forall sn :: Present(ParseUna(m, buf, una), sn) <==> Present(buf, sn) && Diff(m, una, sn) <= 0
    decreases |buf|
  {
    hide Norm, Diff;
    if buf != [] {
      var o := Off(m, base, buf[0].sn);
      DiffBack(m, una, base, buf[0].sn);
      if Diff(m, una, buf[0].sn) > 0 {
        UnaDrops(m, base, o + 1, buf[1..], hi, una);
        PresentTail(buf);
      } else {
        forall sn | Present(buf, sn) ensures Diff(m, una, sn) <= 0 {
          var i :| 0 <= i < |buf| && buf[i].sn == sn;
          RisingAt(m, base, o, buf, hi, i);
          DiffBack(m, una, base, sn);
        }
      }
    }
  }

  lemma PresentTail(buf: seq<Seg>)
    requires buf != []
    ensures forall sn :: Present(buf, sn) <==> sn == buf[0].sn || Present(buf[1..], sn)
  {
    forall sn | Present(buf, sn) && sn != buf[0].sn ensures Present(buf[1..], sn) {
      var i :| 0 <= i < |buf| && buf[i].sn == sn;
      assert buf[1..][i - 1].sn == sn;
    }
    forall sn | Present(buf[1..], sn) ensures Present(buf, sn) {
      var i :| 0 <= i < |buf[1..]| && buf[1..][i].sn == sn;
      assert buf[i + 1].sn == sn;
    }
  }

  lemma {:induction false} WithoutPresent(buf: seq<Seg>, gone: int)
    ensures forall sn :: Present(Without(buf, gone), sn) <==> Present(buf, sn) && sn != gone
  {
    WithoutOnly(buf, gone);
    forall sn | Present(Without(buf, gone), sn) ensures Present(buf, sn) && sn != gone {
      var i :| 0 <= i < |Without(buf, gone)| && Without(buf, gone)[i].sn == sn;
      assert Without(buf, gone)[i] in buf;
    }
    forall sn | Present(buf, sn) && sn != gone ensures Present(Without(buf, gone), sn) {
      var i :| 0 <= i < |buf| && buf[i].sn == sn;
      assert buf[i] in Without(buf, gone);
    }
  }

  /** One segment: what goes is what it covers; nothing else changes. */
  lemma SegDrops(m: Mode, s: Kcb, x: Seg)
    requires BlockOk(m, s) && (m.Exact? || Diff(m, x.una, s.snd.una) >= -(I32 - U16))
    ensures var t := ProcessSeg(m, s, x);
      && (forall sn :: Present(t.snd.buf, sn) <==> Present(s.snd.buf, sn) && !Covers(m, x, sn))
      && (forall y :: y in t.snd.buf ==> y in s.snd.buf)
  {
    hide Rising, Norm, Diff, Present, ParseUna, Without, ParseAck, RcvOk, BufOk, QueueOk, Accept, UpdateAck;
    var u := DropUna(m, s.snd, x.una);
    UnaDrops(m, s.snd.una, 0, s.snd.buf, InFlight(m, s.snd), x.una);
    ParseUnaOnly(m, s.snd.buf, x.una);
    DropUnaKeeps(m, s.snd, FlightLimit(s.cfg), x.una);
    if x.cmd == 82 {
      AckRemovesExactly(m, u, FlightLimit(s.cfg), x.sn);
      WithoutPresent(u.buf, x.sn);
      WithoutOnly(u.buf, x.sn);
    }
  }

  lemma AcknowledgedMore(m: Mode, front: seq<Seg>, x: Seg)
    ensures forall sn :: Acknowledged(m, front + [x], sn) <==> Acknowledged(m, front, sn) || Covers(m, x, sn)
  {
    hide Covers;
    var xs := front + [x];
    forall sn ensures Acknowledged(m, xs, sn) <==> Acknowledged(m, front, sn) || Covers(m, x, sn) {
      if Acknowledged(m, front, sn) {
        var y :| y in front && Covers(m, y, sn);
        assert y in xs;
      }
      if Covers(m, x, sn) {
        assert x in xs;
      }
    }
  }

  lemma {:induction false} ReadDrops(m: Mode, s: Kcb, f: Track, xs: seq<Seg>)
    requires BlockOk(m, s) && UnasNear(m, s.snd.una, xs) && forall x :: x in xs ==> Arrived(m, x)
    ensures var t := ReadAll(m, s, f, xs).s;
      && BlockOk(m, t) && Advanced(m, s.snd, t.snd) && t.cfg == s.cfg
      && (forall sn :: Present(t.snd.buf, sn) <==> Present(s.snd.buf, sn) && !Acknowledged(m, xs, sn))
      && forall y :: y in t.snd.buf ==> y in s.snd.buf
    decreases |xs|
  {
    hide BlockOk, ProcessSeg, TrackSeg, Present, Diff, Acknowledged, Arrived, Advanced;
    if xs == [] {
      Stays(m, s);
      NothingAcknowledged(m);
    } else {
      var front, x := xs[..|xs| - 1], xs[|xs| - 1];
      assert xs == front + [x];
      ReadDrops(m, s, f, front);
      ReadLast(m, s, f, xs);
      var t := ReadAll(m, s, f, front).s;
      StillNear(m, s, t, x);
      SegDrops(m, t, x);
      ProcessSegKeeps(m, t, x);
      AdvancedTwice(m, s.snd, t.snd, ProcessSeg(m, t, x).snd);
      AcknowledgedMore(m, front, x);
    }
  }

  lemma NothingAcknowledged(m: Mode)
    ensures forall sn :: !Acknowledged(m, [], sn)
  {
  }

  lemma StillNear(m: Mode, s: Kcb, t: Kcb, x: Seg)
    requires BlockOk(m, s) && Advanced(m, s.snd, t.snd) && UnasNear(m, s.snd.una, [x])
    ensures m.Exact? || Diff(m, x.una, t.snd.una) >= -(I32 - U16)
  {
    hide Rising, Norm, Diff, RcvOk, BufOk, QueueOk;
    if m.Wrap? {
      assert x in [x];
      DiffBack(m, x.una, s.snd.una, t.snd.una);
    }
  }

  /** Reading a datagram, the sender lets go of exactly the segments that some
      segment of it acknowledges. */
  lemma InputDrops(m: Mode, s: Kcb, b: seq<Byte>)
    requires BlockOk(m, s) && Datagram(s, b) && UnasNear(m, s.snd.una, Parse(s.cfg.conv, b))
    ensures var t := Input(m, s, b).0;
      && (forall sn :: Present(t.snd.buf, sn) <==>
            Present(s.snd.buf, sn) && !Acknowledged(m, Parse(s.cfg.conv, b), sn))
      && t.snd.nxt == s.snd.nxt && t.snd.queue == s.snd.queue
      && t.snd.una == if t.snd.buf == [] then s.snd.nxt else t.snd.buf[0].sn
  {
    hide WellFormed, Parse, ReadAll, BlockOk, GrowWindow, ParseFastack, Present, Acknowledged, Advanced, Norm;
    var xs := Parse(s.cfg.conv, b);
    InputIs(m, s, b);
    ParsedNormal(m, s.cfg.conv, b);
    ReadDrops(m, s, Track(false, 0), xs);
    var r := ReadAll(m, s, Track(false, 0), xs);
    AdvancedSame(m, s.snd, r.s.snd);
    HeadIsUna(m, r.s);
    SameNumbersAfter(m, r.s.snd, r.f.maxack);
  }

  lemma AdvancedSame(m: Mode, s: Snd, t: Snd)
    requires Advanced(m, s, t)
    ensures t.nxt == s.nxt && t.queue == s.queue
  {
  }

  lemma HeadIsUna(m: Mode, s: Kcb)
    requires BlockOk(m, s)
    ensures s.snd.una == if s.snd.buf == [] then s.snd.nxt else s.snd.buf[0].sn
  {
    hide Rising, RcvOk;
  }

  lemma SameNumbersAfter(m: Mode, s: Snd, sn: int)
    ensures var p := ParseFastack(m, s.buf, s.una, s.nxt, sn);
      && |p| == |s.buf| && (p != [] ==> p[0].sn == s.buf[0].sn) && forall n :: Present(p, n) <==> Present(s.buf, n)
  {
    BumpNumbers(m, s.buf, sn);
    var p := ParseFastack(m, s.buf, s.una, s.nxt, sn);
    assert SameNumbers(s.buf, s.buf);
    forall n | Present(p, n) ensures Present(s.buf, n) {
      var i :| 0 <= i < |p| && p[i].sn == n;
      assert s.buf[i].sn == n;
    }
    forall n | Present(s.buf, n) ensures Present(p, n) {
      var i :| 0 <= i < |s.buf| && s.buf[i].sn == n;
      assert p[i].sn == n;
    }
  }

  /** One segment never adds to snd_buf, and an acknowledgement clears its
      number, whatever its una says. */
  lemma SegClears(m: Mode, s: Kcb, x: Seg)
    requires BlockOk(m, s)
    ensures var t := ProcessSeg(m, s, x);
      forall sn :: Present(t.snd.buf, sn) ==> Present(s.snd.buf, sn) && !(x.cmd == 82 && x.sn == sn)
  {
    hide Rising, Norm, Diff, ParseUna, Without, ParseAck, RcvOk, BufOk, QueueOk, Accept, UpdateAck;
    var u, t := DropUna(m, s.snd, x.una), ProcessSeg(m, s, x);
    ParseUnaOnly(m, s.snd.buf, x.una);
    DropUnaKeeps(m, s.snd, FlightLimit(s.cfg), x.una);
    if x.cmd == 82 {
      AckRemovesExactly(m, u, FlightLimit(s.cfg), x.sn);
      WithoutOnly(u.buf, x.sn);
    }
    forall sn | Present(t.snd.buf, sn) ensures Present(s.snd.buf, sn) && !(x.cmd == 82 && x.sn == sn) {
      var i :| 0 <= i < |t.snd.buf| && t.snd.buf[i].sn == sn;
      assert t.snd.buf[i] in t.snd.buf && t.snd.buf[i] in s.snd.buf;
    }
  }

  lemma {:induction false} ReadClears(m: Mode, s: Kcb, f: Track, xs: seq<Seg>)
    requires BlockOk(m, s) && forall x :: x in xs ==> Arrived(m, x)
    ensures var t := ReadAll(m, s, f, xs).s;
      && BlockOk(m, t)
      && forall sn :: Present(t.snd.buf, sn) ==> !(exists x :: x in xs && x.cmd == 82 && x.sn == sn)
    decreases |xs|
  {
    hide BlockOk, ProcessSeg, TrackSeg, Present, Arrived;
    if xs != [] {
      var front, x := xs[..|xs| - 1], xs[|xs| - 1];
      assert xs == front + [x];
      ReadClears(m, s, f, front);
      ReadLast(m, s, f, xs);
      SegClears(m, ReadAll(m, s, f, front).s, x);
      ProcessSegKeeps(m, ReadAll(m, s, f, front).s, x);
    }
  }

  /** A segment acknowledged by number has left snd_buf when the datagram has
      been read, for every sender whatever. */
  lemma AckClears(m: Mode, s: Kcb, b: seq<Byte>, x: Seg)
    requires BlockOk(m, s) && Datagram(s, b) && x in Parse(s.cfg.conv, b) && x.cmd == 82
    ensures !Present(Input(m, s, b).0.snd.buf, x.sn)
  {
    hide WellFormed, Parse, ReadAll, BlockOk, GrowWindow, ParseFastack, Present, Norm;
    var xs := Parse(s.cfg.conv, b);
    InputIs(m, s, b);
    ParsedNormal(m, s.cfg.conv, b);
    ReadClears(m, s, Track(false, 0), xs);
    var r := ReadAll(m, s, Track(false, 0), xs);
    SameNumbersAfter(m, r.s.snd, r.f.maxack);
  }

  // ----- windows, probes, samples -----

  /** The round-trip estimate after the acknowledgements of xs, read at the given
      time: each one not from the future is a sample. */
  function Sampled(r: Rtt, c: Settings, current: int, xs: seq<Seg>): Rtt {
    if xs == [] then r
    else
      var q, x := Sampled(r, c, current, xs[..|xs| - 1]), xs[|xs| - 1];
      var age := Signed32(current - x.ts);
      if x.cmd == 82 && age >= 0 then UpdateAck(q, c.interval, c.minrto, age) else q
  }

  lemma SegNotes(m: Mode, s: Kcb, x: Seg)
    ensures var t := ProcessSeg(m, s, x); var age := Signed32(s.clock.current - x.ts);
      && t.rmtWnd == x.wnd && t.probe == s.probe.(tell := s.probe.tell || x.cmd == 83)
      && t.rtt == (if x.cmd == 82 && age >= 0 then UpdateAck(s.rtt, s.cfg.interval, s.cfg.minrto, age) else s.rtt)
      && t.cong == s.cong && t.clock == s.clock && t.cfg == s.cfg && t.xmit == s.xmit && t.state == s.state
  {
    hide UpdateAck, DropUna, DropAck, Accept, BelowWindow, Diff, Signed32;
  }

  lemma {:induction false} ReadNotes(m: Mode, s: Kcb, f: Track, xs: seq<Seg>)
    ensures var t := ReadAll(m, s, f, xs).s;
      && t.rmtWnd == (if xs == [] then s.rmtWnd else xs[|xs| - 1].wnd)
      && t.probe == s.probe.(tell := s.probe.tell || exists x :: x in xs && x.cmd == 83)
      && t.rtt == Sampled(s.rtt, s.cfg, s.clock.current, xs)
      && t.cong == s.cong && t.clock == s.clock && t.cfg == s.cfg && t.xmit == s.xmit && t.state == s.state
    decreases |xs|
  {
    hide ProcessSeg, TrackSeg, UpdateAck, Signed32;
    if xs != [] {
      var front, x := xs[..|xs| - 1], xs[|xs| - 1];
      assert xs == front + [x];
      ReadNotes(m, s, f, front);
      ReadLast(m, s, f, xs);
      SegNotes(m, ReadAll(m, s, f, front).s, x);
    }
  }

  /** Reading a datagram leaves the window that its last segment announces, asks
      to announce the own one if a segment asks for it, takes a sample from each
      acknowledgement, and touches nothing else of these. */
  lemma InputNotes(m: Mode, s: Kcb, b: seq<Byte>)
    requires Datagram(s, b)
    ensures var t, xs := Input(m, s, b).0, Parse(s.cfg.conv, b);
      && xs != [] && t.rmtWnd == xs[|xs| - 1].wnd
      && t.probe == s.probe.(tell := s.probe.tell || exists x :: x in xs && x.cmd == 83)
      && t.rtt == Sampled(s.rtt, s.cfg, s.clock.current, xs)
      && t.clock == s.clock && t.cfg == s.cfg && t.xmit == s.xmit && t.state == s.state && Input(m, s, b).1 == 0
  {
    hide ReadAll, GrowWindow, ParseFastack, Sampled, Front, Behind, Leads;
    InputIs(m, s, b);
    ReadNotes(m, s, Track(false, 0), Parse(s.cfg.conv, b));
  }

  /** The congestion window grows by a step exactly if the datagram moved
      snd_una and the window it announces leaves room. */
  lemma InputGrows(m: Mode, s: Kcb, b: seq<Byte>)
    requires BlockOk(m, s) && Datagram(s, b) && Modest(s.cfg) && CongOk(s.cong, s.cfg.mss)
    ensures var t := Input(m, s, b).0;
      t.cong == if t.snd.una != s.snd.una && s.cong.cwnd < t.rmtWnd then Grow(s.cong, s.cfg.mss) else s.cong
  {
    hide WellFormed, Parse, ReadAll, BlockOk, GrowWindow, ParseFastack, Norm, Grow, CongOk, Diff, Advanced;
    var xs := Parse(s.cfg.conv, b);
    InputIs(m, s, b);
    ParsedNormal(m, s.cfg.conv, b);
    ReadNotes(m, s, Track(false, 0), xs);
    var r := ReadAll(m, s, Track(false, 0), xs);
    LoopKeeps(m, s, xs);
    MovedTest(m, s, r.s);
    GuardsNeverFire(s.cong, r.s.rmtWnd, s.cfg.mss);
  }

  lemma {:induction false} ReadKeeps(m: Mode, s: Kcb, f: Track, xs: seq<Seg>)
    requires BlockOk(m, s) && forall x :: x in xs ==> Arrived(m, x)
    ensures var t := ReadAll(m, s, f, xs).s; BlockOk(m, t) && Advanced(m, s.snd, t.snd)
    decreases |xs|
  {
    hide BlockOk, ProcessSeg, TrackSeg, Arrived, Advanced;
    if xs == [] {
      Stays(m, s);
    } else {
      var front, x := xs[..|xs| - 1], xs[|xs| - 1];
      ReadKeeps(m, s, f, front);
      ReadLast(m, s, f, xs);
      var t := ReadAll(m, s, f, front).s;
      ProcessSegKeeps(m, t, x);
      AdvancedTwice(m, s.snd, t.snd, ProcessSeg(m, t, x).snd);
    }
  }

  lemma LoopKeeps(m: Mode, s: Kcb, xs: seq<Seg>)
    requires BlockOk(m, s) && forall x :: x in xs ==> Arrived(m, x)
    ensures var t := ReadAll(m, s, Track(false, 0), xs).s;
      BlockOk(m, t) && Advanced(m, s.snd, t.snd) && 0 <= t.rmtWnd < U16
  {
    hide RcvOk, SndOk, BufOk, QueueOk, ReadAll, Arrived, Advanced;
    ReadKeeps(m, s, Track(false, 0), xs);
  }

  lemma MovedTest(m: Mode, s: Kcb, t: Kcb)
    requires BlockOk(m, s) && BlockOk(m, t) && Advanced(m, s.snd, t.snd)
    ensures Diff(m, t.snd.una, s.snd.una) > 0 <==> t.snd.una != s.snd.una
  {
    hide Rising, Norm, Diff, RcvOk, BufOk, QueueOk;
    OffOfNorm(m, s.snd.una, 0);
    NormZero(m, s.snd.una);
    DiffIsOrder(m, s.snd.una, t.snd.una, s.snd.una);
    if Off(m, s.snd.una, t.snd.una) == 0 {
      OffInjective(m, s.snd.una, t.snd.una, s.snd.una);
    }
  }

  lemma NormZero(m: Mode, x: int)
    requires Normal(m, x)
    ensures Norm(m, x + 0) == x && Off(m, x, x) == 0
  {
  }

  // ----- skips -----

  /** top is the newest number that xs acknowledges. */
  predicate NewestAck(m: Mode, xs: seq<Seg>, top: int) {
    (exists x :: x in xs && x.cmd == 82 && x.sn == top)
    && forall x :: x in xs && x.cmd == 82 ==> Diff(m, x.sn, top) <= 0
  }

  /** All numbers acknowledged lie within 2^31 of each other. */
  predicate AcksWithin(m: Mode, base: int, xs: seq<Seg>) {
    forall x :: x in xs && x.cmd == 82 ==> 0 <= Off(m, base, x.sn) < I32
  }

  lemma {:induction false} ReadTrack(m: Mode, s: Kcb, xs: seq<Seg>, base: int)
    requires AcksWithin(m, base, xs)
    ensures var f := ReadAll(m, s, Track(false, 0), xs).f;
      if f.flag then NewestAck(m, xs, f.maxack) else forall x :: x in xs ==> x.cmd != 82
    decreases |xs|
  {
    hide ProcessSeg, Diff, Off;
    if xs != [] {
      var front, x := xs[..|xs| - 1], xs[|xs| - 1];
      assert xs == front + [x];
      ReadTrack(m, s, front, base);
      ReadLast(m, s, Track(false, 0), xs);
      var f := ReadAll(m, s, Track(false, 0), front).f;
      forall y, z | y in xs && y.cmd == 82 && z in xs && z.cmd == 82
        ensures Diff(m, y.sn, z.sn) == Off(m, base, y.sn) - Off(m, base, z.sn)
      {
        DiffIsOrder(m, base, y.sn, z.sn);
      }
      if x.cmd == 82 {
        assert x in xs;
      }
    }
  }

  /** A segment is counted as skipped if the newest acknowledged number is still
      in the window and lies behind it. */
  ghost predicate Skipped(m: Mode, t: Snd, xs: seq<Seg>, sn: int) {
    exists top :: NewestAck(m, xs, top) && Off(m, t.una, sn) < Off(m, t.una, top) < Off(m, t.una, t.nxt)
  }

  lemma OneNewest(m: Mode, xs: seq<Seg>, a: int, b: int, base: int)
    requires NewestAck(m, xs, a) && NewestAck(m, xs, b) && AcksWithin(m, base, xs)
    requires forall x :: x in xs ==> Normal(m, x.sn)
    ensures a == b
  {
    hide Diff, Norm;
    DiffIsOrder(m, base, a, b);
    DiffIsOrder(m, base, b, a);
    OffInjective(m, base, a, b);
  }

  lemma SkipRule(m: Mode, limit: int, s: Snd, top: int, i: nat)
    requires SndOk(m, s, limit) && i < |s.buf| && Normal(m, top)
    ensures |ParseFastack(m, s.buf, s.una, s.nxt, top)| == |s.buf|
    ensures ParseFastack(m, s.buf, s.una, s.nxt, top)[i] == s.buf[i].(fastack :=
      if Off(m, s.una, s.buf[i].sn) < Off(m, s.una, top) < InFlight(m, s) then Wrap32(s.buf[i].fastack + 1)
      else s.buf[i].fastack)
  {
    hide Norm, Diff, OutsideWindow, Rising, Wrap32, BumpFastack;
    WindowTest(m, top, s.una, s.nxt);
    RisingAt(m, s.una, 0, s.buf, InFlight(m, s), i);
    if !OutsideWindow(m, top, s.una, s.nxt) {
      FastackCountsSkipped(m, s.una, 0, s.buf, InFlight(m, s), top, i);
    } else {
      OffNat(m, s.una, top);
    }
  }

  lemma OffNat(m: Mode, base: int, x: int)
    ensures m.Wrap? ==> 0 <= Off(m, base, x)
  {
  }

  /** What stays in snd_buf is as it was, except that the segments the newest
      acknowledgement skips are counted once. */
  lemma InputSkips(m: Mode, s: Kcb, b: seq<Byte>, base: int, i: nat)
    requires BlockOk(m, s) && Datagram(s, b) && AcksWithin(m, base, Parse(s.cfg.conv, b))
    requires i < |Input(m, s, b).0.snd.buf|
    ensures var t, xs := Input(m, s, b).0, Parse(s.cfg.conv, b); var y := t.snd.buf[i];
      exists x :: x in s.snd.buf
        && y == x.(fastack := if Skipped(m, t.snd, xs, y.sn) then Wrap32(x.fastack + 1) else x.fastack)
  {
    hide WellFormed, Parse, ReadAll, GrowWindow, ParseFastack, Norm, SndOk, RcvOk, BufOk, QueueOk, Diff, Advanced,
      Skipped, NewestAck, AcksWithin, Wrap32;
    var xs := Parse(s.cfg.conv, b);
    InputIs(m, s, b);
    ParsedNormal(m, s.cfg.conv, b);
    LoopKeeps(m, s, xs);
    ReadOnly(m, s, Track(false, 0), xs);
    ReadTrack(m, s, xs, base);
    var r := ReadAll(m, s, Track(false, 0), xs);
    SameNumbersAfter(m, r.s.snd, r.f.maxack);
    SkipDecided(m, s, r, xs, base, i);
  }

  lemma SkipDecided(m: Mode, s: Kcb, r: Scan, xs: seq<Seg>, base: int, i: nat)
    requires BlockOk(m, r.s) && AcksWithin(m, base, xs) && forall x :: x in xs ==> Normal(m, x.sn)
    requires if r.f.flag then NewestAck(m, xs, r.f.maxack) else forall x :: x in xs ==> x.cmd != 82
    requires forall y :: y in r.s.snd.buf ==> y in s.snd.buf
    requires i < |r.s.snd.buf|
    ensures var t := InputFinish(m, r.s, s.snd.una, r.f);
      && |t.snd.buf| == |r.s.snd.buf|
      && var x, y := r.s.snd.buf[i], t.snd.buf[i];
         x in s.snd.buf
         && y == x.(fastack := if Skipped(m, t.snd, xs, y.sn) then Wrap32(x.fastack + 1) else x.fastack)
  {
    hide GrowWindow, ParseFastack, Norm, SndOk, RcvOk, BufOk, QueueOk, Diff, NewestAck, AcksWithin, Wrap32, Off;
    var u := r.s.snd;
    if r.f.flag {
      AckNormal(m, xs, r.f.maxack);
      SkipRule(m, FlightLimit(r.s.cfg), u, r.f.maxack, i);
      forall top | NewestAck(m, xs, top) ensures top == r.f.maxack {
        OneNewest(m, xs, top, r.f.maxack, base);
      }
    } else {
      NoneNewest(m, xs);
    }
  }

  lemma AckNormal(m: Mode, xs: seq<Seg>, top: int)
    requires NewestAck(m, xs, top) && forall x :: x in xs ==> Normal(m, x.sn)
    ensures Normal(m, top)
  {
    hide Norm;
  }

  lemma NoneNewest(m: Mode, xs: seq<Seg>)
    requires forall x :: x in xs ==> x.cmd != 82
    ensures forall top :: !NewestAck(m, xs, top)
  {
  }

  lemma {:induction false} ReadOnly(m: Mode, s: Kcb, f: Track, xs: seq<Seg>)
    requires BlockOk(m, s) && forall x :: x in xs ==> Arrived(m, x)
    ensures var t := ReadAll(m, s, f, xs).s; BlockOk(m, t) && forall y :: y in t.snd.buf ==> y in s.snd.buf
    decreases |xs|
  {
    hide BlockOk, ProcessSeg, TrackSeg, Arrived;
    if xs != [] {
      var front, x := xs[..|xs| - 1], xs[|xs| - 1];
      ReadOnly(m, s, f, front);
      ReadLast(m, s, f, xs);
      var t := ReadAll(m, s, f, front).s;
      ProcessSegKeeps(m, t, x);
      SegOnly(m, t, x);
    }
  }

  lemma SegOnly(m: Mode, s: Kcb, x: Seg)
    requires BlockOk(m, s)
    ensures forall y :: y in ProcessSeg(m, s, x).snd.buf ==> y in s.snd.buf
  {
    hide Rising, Norm, Diff, ParseUna, Without, ParseAck, RcvOk, BufOk, QueueOk, Accept, UpdateAck;
    var u := DropUna(m, s.snd, x.una);
    ParseUnaOnly(m, s.snd.buf, x.una);
    DropUnaKeeps(m, s.snd, FlightLimit(s.cfg), x.una);
    if x.cmd == 82 {
      AckRemovesExactly(m, u, FlightLimit(s.cfg), x.sn);
      WithoutOnly(u.buf, x.sn);
    }
  }

  // ----- refusals -----

  /** What ikcp_input says of what follows the last whole segment. */
  function Verdict(conv: int, tail: seq<Byte>): int {
    if |tail| < 24 then 0
    else if Le32At(tail, 0) != conv || Le32At(tail, 20) > |tail| - 24 || Le32At(tail, 20) >= I32 then -2
    else if !(81 <= tail[4] <= 84) then -3
    else 0
  }

  /** The return code: too short, of another conversation or cut off, or of an
      unknown kind, whichever comes first; what stands before has been read, but
      no skips are counted and the window does not grow. */
  lemma InputRefuses(m: Mode, s: Kcb, b: seq<Byte>, tail: seq<Byte>)
    requires WellFormed(s.cfg.conv, b) && !Leads(s.cfg.conv, tail) && |b| + |tail| < I32
    ensures var (t, code) := Input(m, s, b + tail);
      if |b| + |tail| < 24 then t == s && code == -1
      else
        && code == Verdict(s.cfg.conv, tail)
        && (code != 0 ==> t == ReadAll(m, s, Track(false, 0), Parse(s.cfg.conv, b)).s)
  {
    hide WellFormed, Parse, ReadAll, InputFinish, InputLoop, Signed32;
    SignedSmall(|b + tail|);
    LoopReads(m, s, Track(false, 0), b, tail);
    var r := ReadAll(m, s, Track(false, 0), Parse(s.cfg.conv, b));
    TailVerdict(m, r.s, r.f, tail);
  }

  lemma TailVerdict(m: Mode, s: Kcb, f: Track, tail: seq<Byte>)
    requires !Leads(s.cfg.conv, tail)
    ensures InputLoop(m, s, f, tail) == Scan(s, f, Verdict(s.cfg.conv, tail))
  {
    hide ProcessSeg, TrackSeg;
  }
}
