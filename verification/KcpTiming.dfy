/** When things are due: what a flush leaves behind is scheduled later than the
    flush, and ikcp_check names a moment no later than the next event. */
module KcpTiming {
  import opened Bytes
  import opened KcpModel
  import opened KcpEndpoint
  import opened KcpWire

  /** Scheduling d milliseconds ahead. */
  lemma Ahead(t: int, d: int)
    requires 0 < d < I32
    ensures TimeDiff(Wrap32(t + d), t) == d && TimeDiff(t, Wrap32(t + d)) == -d
  {
    hide Wrap32;
    var k := WrapSplit(t + d);
    WrapIs(Wrap32(t + d) - t, -k, d);
    WrapIs(t - Wrap32(t + d), k - 1, U32 - d);
  }

  lemma Opposite(a: int, b: int)
    ensures TimeDiff(a, b) == -I32 || TimeDiff(b, a) == -TimeDiff(a, b)
  {
    hide Wrap32;
    var k := WrapSplit(a - b);
    var w := Wrap32(a - b);
    if w == 0 {
      WrapIs(b - a, -k, 0);
    } else {
      WrapIs(b - a, -k - 1, U32 - w);
    }
  }

  /** How far ahead the pass over snd_buf schedules a segment it sends. */
  function Delay(p: Pace, x: Seg): int {
    match WhySend(p, x) {
      case Keep => 0
      case First => Wrap32(p.rto + p.rtomin)
      case Timeout => Wrap32(x.rto + p.backoff)
      case Fast => Wrap32(x.rto)
    }
  }

  /** The resend time after the pass lies ahead: the delay is positive and fits
      31 bits, and a segment that is kept is not exactly 2^31 ms away. */
  predicate Scheduled(p: Pace, x: Seg) {
    if WhySend(p, x) == Keep then TimeDiff(x.resendts, p.current) != -I32 else 0 < Delay(p, x) < I32
  }

  lemma AheadWrapped(t: int, d: int, u: int)
    requires u == Wrap32(t + d)
    ensures TimeDiff(u, t) > 0 <==> 0 < Wrap32(d) < I32
  {
    hide Wrap32;
    var j := WrapSplit(t + d);
    var k := WrapSplit(d);
    WrapIs(u - t, k - j, Wrap32(d));
  }

  /** A segment after the pass over snd_buf is due later exactly if it could be
      scheduled, and the transmission count is 0 only after it has wrapped. */
  lemma ResendLater(st: Stamp, p: Pace, x: Seg)
    ensures var y := Resend(st, p, x);
      && (TimeDiff(y.resendts, p.current) > 0 <==> Scheduled(p, x))
      && (y.xmit == 0 <==> WhySend(p, x) != Keep && Wrap32(x.xmit + 1) == 0)
  {
    hide Wrap32;
    match WhySend(p, x)
    case Keep => Opposite(x.resendts, p.current);
    case First => AheadIs(p.current, p.rto + p.rtomin);
    case Timeout =>
      AheadIs(p.current, Wrap32(x.rto + p.backoff));
      Twice(x.rto + p.backoff);
    case Fast => AheadIs(p.current, x.rto);
  }

  lemma AheadIs(t: int, d: int)
    ensures TimeDiff(Wrap32(t + d), t) > 0 <==> 0 < Wrap32(d) < I32
  {
    hide TimeDiff, Wrap32;
    AheadWrapped(t, d, Wrap32(t + d));
  }

  lemma Twice(x: int)
    ensures Wrap32(Wrap32(x)) == Wrap32(x)
  {
  }

  lemma RareScheduled(p: Pace, x: Seg)
    requires PaceOk(p) && 0 <= p.rtomin <= p.rto && Paced(x) && (x.xmit + 1) * RTO_MAX < I32
    ensures WhySend(p, x) != Keep ==> Scheduled(p, x)
  {
    hide TimeDiff;
  }

  lemma PaceMin(s: Kcb)
    requires RttOk(s.rtt)
    ensures PaceOk(PaceOf(s)) && 0 <= PaceOf(s).rtomin <= PaceOf(s).rto && PaceOf(s).current == s.clock.current
  {
  }

  /** The segments a flush at this moment looks at. */
  function Filled(m: Mode, s: Kcb): seq<Seg> {
    FillBuf(m, StampOf(s), s.rtt.rto, s.snd, SendWindow(s)).buf
  }

  /** After a flush a segment in snd_buf is due strictly later exactly if it
      could be scheduled. */
  lemma FlushLater(m: Mode, s: Kcb, i: nat)
    requires s.clock.updated && i < |Filled(m, s)|
    ensures |Flush(m, s).0.snd.buf| == |Filled(m, s)|
    ensures var x, y := Filled(m, s)[i], Flush(m, s).0.snd.buf[i];
      && (TimeDiff(y.resendts, s.clock.current) > 0 <==> Scheduled(PaceOf(s), x))
      && (y.xmit == 0 <==> WhySend(PaceOf(s), x) != Keep && Wrap32(x.xmit + 1) == 0)
  {
    hide FillBuf, SweepAll, SendWindow, AfterLoss, Packets, WhySend, Resend, StampOf, TimeDiff, Scheduled, Wrap32;
    var buf, st, p := Filled(m, s), StampOf(s), PaceOf(s);
    SweepSendsDue(st, p, buf);
    ResendLater(st, p, buf[i]);
  }

  lemma FilledOk(m: Mode, s: Kcb)
    requires BlockOk(m, s)
    ensures BufOk(s.cfg, Filled(m, s))
  {
    hide SegOk, FillBuf, SendWindow;
    FillBufOk(m, s.cfg, StampOf(s), s.rtt.rto, s.snd, SendWindow(s));
  }

  /** In a block in order, every segment sent for at most the 35791st time is
      due strictly later. */
  lemma FewTransmissions(m: Mode, s: Kcb, i: nat)
    requires BlockOk(m, s) && s.clock.updated && i < |Filled(m, s)|
    requires WhySend(PaceOf(s), Filled(m, s)[i]) != Keep && (Filled(m, s)[i].xmit + 1) * RTO_MAX < I32
    ensures |Flush(m, s).0.snd.buf| == |Filled(m, s)|
    ensures TimeDiff(Flush(m, s).0.snd.buf[i].resendts, s.clock.current) > 0
  {
    hide Flush, Filled, WhySend, Scheduled, TimeDiff, Paced;
    FilledOk(m, s);
    PaceMin(s);
    assert Filled(m, s)[i] in Filled(m, s);
    RareScheduled(PaceOf(s), Filled(m, s)[i]);
    FlushLater(m, s, i);
  }

  /** A flushing ikcp_update sets the next flush at most one interval ahead. */
  lemma TickAhead(c: Clock, interval: int, t: int)
    requires 0 < interval <= 5000 && Tick(c, interval, t).1
    ensures var d := Tick(c, interval, t).0; d.updated && d.current == t && 0 < TimeDiff(d.tsFlush, t) <= interval
  {
    hide Wrap32;
    var ts0 := if c.updated then c.tsFlush else t;
    var slap0 := TimeDiff(t, ts0);
    var far := slap0 >= 10000 || slap0 < -10000;
    var ts := if far then t else ts0;
    WrapIs(t - t, 0, 0);
    Ahead(t, interval);
    var j := WrapSplit(ts + interval);
    var k := WrapSplit(t - ts);
    var slap := TimeDiff(t, ts);
    assert 0 <= slap < 10000;
    if slap < interval {
      WrapIs(Wrap32(ts + interval) - t, -j - k, interval - slap);
    } else {
      WrapIs(t - Wrap32(ts + interval), j + k, slap - interval);
    }
  }

  lemma {:induction false} NearestIsLeast(buf: seq<Seg>, t: int)
    ensures NearestResend(buf, t) <= I32 - 1
    ensures forall x :: x in buf ==> NearestResend(buf, t) <= TimeDiff(x.resendts, t)
    ensures NearestResend(buf, t) == I32 - 1 || exists x :: x in buf && NearestResend(buf, t) == TimeDiff(x.resendts, t)
  {
    hide TimeDiff;
    if buf != [] {
      var l := |buf| - 1;
      NearestIsLeast(buf[..l], t);
      assert buf == buf[..l] + [buf[l]];
      assert buf[l] in buf;
    }
  }

  /** Before the next flush ikcp_check names the current time when a segment is
      due, and otherwise the nearest of the next flush, the next resend and one
      interval ahead. */
  lemma CheckEarliest(s: Kcb, t: int)
    requires s.clock.updated && -10000 <= TimeDiff(t, s.clock.tsFlush) < 0 && 0 < s.cfg.interval <= 5000
    ensures var c := Check(s, t);
      if exists x :: x in s.snd.buf && TimeDiff(x.resendts, t) <= 0 then c == t
      else
        && 0 < TimeDiff(c, t) <= s.cfg.interval && TimeDiff(c, t) <= TimeDiff(s.clock.tsFlush, t)
        && (forall x :: x in s.snd.buf ==> TimeDiff(c, t) <= TimeDiff(x.resendts, t))
        && (TimeDiff(c, t) == s.cfg.interval || TimeDiff(c, t) == TimeDiff(s.clock.tsFlush, t)
            || exists x :: x in s.snd.buf && TimeDiff(c, t) == TimeDiff(x.resendts, t))
  {
    hide TimeDiff, Wrap32, NearestResend;
    NearestIsLeast(s.snd.buf, t);
    Opposite(t, s.clock.tsFlush);
    var packet := NearestResend(s.snd.buf, t);
    if packet > 0 {
      Ahead(t, Min(Min(packet, TimeDiff(s.clock.tsFlush, t)), s.cfg.interval));
    }
  }

  /** Some segment of a flush cannot be scheduled ahead. */
  predicate Unscheduled(p: Pace, buf: seq<Seg>) {
    exists i :: 0 <= i < |buf| && !Scheduled(p, buf[i])
  }

  /** After an ikcp_update(t) that flushes, ikcp_check(t) is t exactly if some
      segment could not be scheduled ahead; otherwise it lies in
      (t, t + interval] and is no later than the next flush and any resend. */
  lemma CheckAfterFlush(m: Mode, s: Kcb, t: int)
    requires 0 < s.cfg.interval <= 5000 && Tick(s.clock, s.cfg.interval, t).1
    ensures var s1 := s.(clock := Tick(s.clock, s.cfg.interval, t).0);
      var u := Update(m, s, t).0; var c := Check(u, t);
      && (c == t <==> Unscheduled(PaceOf(s1), Filled(m, s1)))
      && (c != t ==>
            0 < TimeDiff(c, t) <= u.cfg.interval && TimeDiff(c, t) <= TimeDiff(u.clock.tsFlush, t)
            && forall x :: x in u.snd.buf ==> TimeDiff(c, t) <= TimeDiff(x.resendts, t))
  {
    hide Tick, Check, FillBuf, SweepAll, SendWindow, AfterLoss, Packets, PaceOf, StampOf, FlushPlan, WhySend, TimeDiff,
      Filled, Scheduled, Wrap32;
    var s1 := s.(clock := Tick(s.clock, s.cfg.interval, t).0);
    var u, c := Update(m, s, t).0, Check(Update(m, s, t).0, t);
    TickAhead(s.clock, s.cfg.interval, t);
    KeptByFlush(m, s1);
    forall i | 0 <= i < |u.snd.buf|
      ensures TimeDiff(u.snd.buf[i].resendts, t) > 0 <==> Scheduled(PaceOf(s1), Filled(m, s1)[i])
    {
      FlushLater(m, s1, i);
    }
    BackFrom(t, u.clock.tsFlush, u.cfg.interval);
    CheckEarliest(u, t);
    SameTime(t);
    var p, buf := PaceOf(s1), Filled(m, s1);
    if x :| x in u.snd.buf && TimeDiff(x.resendts, t) <= 0 {
      var i :| 0 <= i < |u.snd.buf| && u.snd.buf[i] == x;
      assert !Scheduled(p, buf[i]);
    }
    if i :| 0 <= i < |buf| && !Scheduled(p, buf[i]) {
      assert u.snd.buf[i] in u.snd.buf;
    }
  }

  lemma SameTime(t: int)
    ensures TimeDiff(t, t) == 0
  {
  }

  lemma KeptByFlush(m: Mode, s: Kcb)
    requires s.clock.updated
    ensures var u := Flush(m, s).0;
      u.clock == s.clock && u.cfg == s.cfg && |u.snd.buf| == |Filled(m, s)|
  {
    hide FillBuf, SweepAll, SendWindow, AfterLoss, Packets, PaceOf, StampOf;
    SweepSendsDue(StampOf(s), PaceOf(s), Filled(m, s));
  }

  lemma BackFrom(t: int, u: int, interval: int)
    requires 0 < TimeDiff(u, t) <= interval <= 5000
    ensures -10000 <= TimeDiff(t, u) < 0
  {
    hide TimeDiff;
    Opposite(u, t);
  }

  // ----- an input on which ikcp_check names the current time -----

  /** One byte sent at time 0. With the congestion window on, the first flush
      only opens the window. */
  function OneSent(m: Mode, c: Settings): Kcb
    requires Setup(c)
  {
    KcpEndpoint.Run(m, c, [CallSend([7]), CallUpdate(0)] + if c.nocwnd == 0 then [CallUpdate(c.interval)] else [])
  }

  /** When it is to be sent again. */
  function DueAgain(c: Settings): int {
    (if c.nocwnd == 0 then c.interval else 0) + RTO_DEF + if c.nodelay == 0 then RTO_DEF / 8 else 0
  }

  /** The byte waits, and a window of one segment is open. */
  predicate ReadyToSend(s: Kcb) {
    && s.snd == Snd(0, 0, [NewSeg(0, [7])], []) && s.rtt.rto == RTO_DEF && s.rmtWnd == WND_RCV
    && s.cfg.sndWnd > 0 && (s.cfg.nocwnd == 0 ==> s.cong.cwnd == 1)
  }

  /** The byte is in flight. */
  predicate InFlightOnce(s: Kcb, due: int) {
    && s.clock.updated && -225 <= s.clock.tsFlush - due <= 5000 && s.snd.queue == [] && |s.snd.buf| == 1
    && s.snd.buf[0].xmit == 1 && s.snd.buf[0].resendts == due && s.snd.buf[0].fastack == 0
  }

  function Queued(c: Settings): Kcb {
    Create(c).(snd := Snd(0, 0, [NewSeg(0, [7])], []))
  }

  lemma OneQueued(m: Mode, c: Settings)
    requires Setup(c)
    ensures KcpEndpoint.Run(m, c, [CallSend([7])]) == Queued(c)
  {
    assert [CallSend([7])][..0] == [];
    assert [7][..Min(1, c.mss)] == [7];
    assert Fragments(c.mss, [7], 1, c.stream != 0) == [NewSeg(0, [7])];
  }

  lemma FirstTick(interval: int)
    requires 0 < interval <= 5000
    ensures Tick(Clock(0, INTERVAL, false), interval, 0) == (Clock(0, interval, true), true)
    ensures Tick(Clock(0, interval, true), interval, interval) == (Clock(interval, 2 * interval, true), true)
  {
    hide TimeDiff, Wrap32;
    SameTime(0);
    SameTime(interval);
    WrapSmall(interval);
    WrapSmall(2 * interval);
    Ahead(0, interval);
    Ahead(interval, interval);
  }

  /** The first flush with the congestion window on. */
  lemma WindowOpens(m: Mode, c: Settings)
    requires Setup(c) && c.nocwnd == 0
    ensures var s := Update(m, Queued(c), 0).0;
      ReadyToSend(s) && s.clock == Clock(0, c.interval, true) && s.cfg == c
  {
    hide Packets, Tick, ProbeTimer, StampOf, PaceOf;
    FirstTick(c.interval);
    var s := Queued(c).(clock := Clock(0, c.interval, true));
    assert FillBuf(m, StampOf(s), s.rtt.rto, s.snd, SendWindow(s)) == s.snd;
  }

  lemma FillOne(m: Mode, s: Kcb)
    requires ReadyToSend(s)
    ensures FillBuf(m, StampOf(s), s.rtt.rto, s.snd, SendWindow(s))
         == Snd(0, 1, [], [Launch(StampOf(s), 0, s.rtt.rto, NewSeg(0, [7]))])
  {
    hide Launch, StampOf, SendWindow, Diff, Norm;
    OpenWindow(m, s);
    assert [NewSeg(0, [7])][1..] == [];
  }

  lemma OpenWindow(m: Mode, s: Kcb)
    requires ReadyToSend(s)
    ensures Diff(m, 0, Norm(m, 0 + SendWindow(s))) < 0 && Norm(m, 0 + 1) == 1
  {
    hide Wrap32;
    WrapSmall(1);
    WrapSmall(SendWindow(s));
    WrapIs(-SendWindow(s), -1, U32 - SendWindow(s));
  }

  lemma SweepOne(st: Stamp, p: Pace, x: Seg)
    ensures SweepAll(st, p, [x]).buf == [Resend(st, p, x)]
  {
    hide Resend, WhySend;
    assert [x][..0] == [];
  }

  lemma FirstSent(st: Stamp, p: Pace, x: Seg)
    requires x.xmit == 0 && x.fastack == 0 && 0 <= p.current <= 5000 && p.rto == RTO_DEF && 0 <= p.rtomin <= RTO_DEF
    ensures var y := Resend(st, p, x);
      y.xmit == 1 && y.resendts == p.current + p.rto + p.rtomin && y.fastack == 0
  {
    WrapSmall(p.current + p.rto + p.rtomin);
  }

  /** The flush that sends it. */
  lemma OneFlown(m: Mode, s: Kcb, t: int)
    requires ReadyToSend(s) && 0 < s.cfg.interval <= 5000 && 0 <= t <= 5000
    requires Tick(s.clock, s.cfg.interval, t) == (Clock(t, t + s.cfg.interval, true), true)
    ensures InFlightOnce(Update(m, s, t).0, t + RTO_DEF + if s.cfg.nodelay == 0 then RTO_DEF / 8 else 0)
    ensures Update(m, s, t).0.cfg == s.cfg
  {
    hide Packets, AfterLoss, FillBuf, SweepAll, SendWindow, StampOf, ProbeTimer, Resend, Tick;
    var s1 := s.(clock := Clock(t, t + s.cfg.interval, true));
    var x := Launch(StampOf(s1), 0, RTO_DEF, NewSeg(0, [7]));
    FillOne(m, s1);
    SweepOne(StampOf(s1), PaceOf(s1), x);
    FirstSent(StampOf(s1), PaceOf(s1), x);
  }

  lemma SentOnce(m: Mode, c: Settings)
    requires Setup(c)
    ensures InFlightOnce(OneSent(m, c), DueAgain(c)) && OneSent(m, c).cfg == c
  {
    hide Update, Create, NewSeg, InFlightOnce, ReadyToSend;
    var calls := [CallSend([7]), CallUpdate(0)];
    assert calls[..1] == [CallSend([7])];
    OneQueued(m, c);
    FirstTick(c.interval);
    assert KcpEndpoint.Run(m, c, calls) == Update(m, Queued(c), 0).0;
    if c.nocwnd == 0 {
      var more := calls + [CallUpdate(c.interval)];
      assert more[..2] == calls;
      assert KcpEndpoint.Run(m, c, more) == Update(m, Update(m, Queued(c), 0).0, c.interval).0;
      WindowOpens(m, c);
      OneFlown(m, Update(m, Queued(c), 0).0, c.interval);
    } else {
      assert calls + [] == calls;
      QueuedReady(c);
      OneFlown(m, Queued(c), 0);
    }
  }

  lemma QueuedReady(c: Settings)
    requires Setup(c) && c.nocwnd != 0
    ensures ReadyToSend(Queued(c)) && Queued(c).clock == Clock(0, INTERVAL, false) && Queued(c).cfg == c
  {
  }

  /** An ikcp_update exactly 2^31 ms after the resend time keeps the segment, and
      ikcp_check then returns the time of the call. */
  lemma CheckStalls(m: Mode, c: Settings)
    requires Setup(c)
    ensures var t := DueAgain(c) + I32; var u := Update(m, OneSent(m, c), t).0;
      u.snd.buf == OneSent(m, c).snd.buf && u.clock.current == t && Check(u, t) == t
  {
    hide Update, Check, OneSent, DueAgain, InFlightOnce;
    SentOnce(m, c);
    KeptForever(m, OneSent(m, c), DueAgain(c));
  }

  lemma KeptForever(m: Mode, s: Kcb, due: int)
    requires InFlightOnce(s, due) && 0 < s.cfg.interval <= 5000
    ensures var t := due + I32; var u := Update(m, s, t).0;
      u.snd.buf == s.snd.buf && u.clock.current == t && Check(u, t) == t
  {
    hide Packets, AfterLoss, Tick, TimeDiff, StampOf, SendWindow, ProbeTimer, Wrap32, Diff, Norm, SweepAll, Resend,
      WhySend, AckSegs, ProbeSegs, LastAck, NearestResend, Check;
    var t, x := due + I32, s.snd.buf[0];
    var s1 := s.(clock := Tick(s.clock, s.cfg.interval, t).0);
    LateTick(s.clock, s.cfg.interval, due);
    TickAhead(s.clock, s.cfg.interval, t);
    NothingQueued(m, s1);
    KeepsIt(StampOf(s1), PaceOf(s1), x, due);
    SweepOne(StampOf(s1), PaceOf(s1), x);
    assert s.snd.buf == [x];
    var u := Update(m, s, t).0;
    HalfRound(due);
    BackFrom(t, u.clock.tsFlush, u.cfg.interval);
    CheckEarliest(u, t);
    assert x in u.snd.buf;
  }

  lemma HalfRound(due: int)
    ensures TimeDiff(due + I32, due) == -I32 && TimeDiff(due, due + I32) == -I32
  {
  }

  /** The flush time is so far away that the schedule starts anew. */
  lemma LateTick(c: Clock, interval: int, due: int)
    requires c.updated && -225 <= c.tsFlush - due <= 5000
    ensures Tick(c, interval, due + I32).1
  {
  }

  lemma NothingQueued(m: Mode, s: Kcb)
    requires s.snd.queue == []
    ensures FillBuf(m, StampOf(s), s.rtt.rto, s.snd, SendWindow(s)) == s.snd
  {
    hide StampOf, SendWindow, Diff, Norm;
  }

  lemma KeepsIt(st: Stamp, p: Pace, x: Seg, due: int)
    requires x.xmit == 1 && x.resendts == due && x.fastack == 0 && p.current == due + I32 && 0 < p.resent
    ensures Resend(st, p, x) == x
  {
    hide TimeDiff;
    HalfRound(due);
  }

  // ----- window probes -----

  /** The back-off of the probe timer. */
  predicate ProbeOk(p: Probe) {
    !p.ask && (p.wait == 0 || 7000 <= p.wait <= 120000)
  }

  predicate ProbeDue(p: Probe, rmtWnd: int, current: int) {
    rmtWnd == 0 && p.wait != 0 && TimeDiff(current, p.ts) >= 0
  }

  /** While the remote window is 0 the timer runs, 7 seconds at first and then
      half as long again each time it expires, up to 120 seconds; it asks exactly
      when it expires, and is set ahead then. Otherwise it stops. */
  lemma ProbeBackoff(p: Probe, rmtWnd: int, current: int)
    requires ProbeOk(p)
    ensures var q := ProbeTimer(p, rmtWnd, current);
      && ProbeOk(q.(ask := false)) && q.tell == p.tell && (q.ask <==> ProbeDue(p, rmtWnd, current))
      && (q.wait == 0 <==> rmtWnd != 0)
      && (rmtWnd == 0 ==> p.wait <= q.wait && TimeDiff(current, q.ts) < 0)
      && (q.ask || (rmtWnd == 0 && p.wait == 0) ==> TimeDiff(q.ts, current) == q.wait)
      && (rmtWnd == 0 && p.wait == 0 ==> q.wait == 7000)
      && (q.ask ==> q.wait == Min(p.wait + p.wait / 2, 120000))
      && (rmtWnd == 0 && !q.ask && p.wait != 0 ==> q == p)
  {
    hide TimeDiff, Wrap32;
    if rmtWnd == 0 {
      if p.wait == 0 {
        Ahead(current, PROBE_INIT);
      } else {
        WrapSmall(p.wait + p.wait / 2);
        Ahead(current, Min(p.wait + p.wait / 2, PROBE_LIMIT));
      }
    }
  }

  /** In every reachable state no question is pending and the timer is stopped or
      set to 7 to 120 seconds. */
  lemma {:induction false} ProbeAlwaysOk(m: Mode, c: Settings, calls: seq<Call>)
    requires Setup(c)
    ensures ProbeOk(KcpEndpoint.Run(m, c, calls).probe)
  {
    hide Apply;
    if calls != [] {
      var front := calls[..|calls| - 1];
      ProbeAlwaysOk(m, c, front);
      ProbeStep(m, KcpEndpoint.Run(m, c, front), calls[|calls| - 1]);
    }
  }

  lemma ProbeStep(m: Mode, s: Kcb, c: Call)
    requires ProbeOk(s.probe) && s.cfg.mss > 0
    ensures ProbeOk(Apply(m, s, c).probe)
  {
    hide InputLoop, GrowWindow, ParseFastack, Send, FlushPlan, MoveReady, Merge, MergeCount, PeekSize, Tick, Packets,
      ProbeOk;
    match c
    case CallInput(data) =>
      InputLoopProbe(m, s, Track(false, 0), data);
      TellOnly(s.probe);
    case CallSend(message) =>
    case CallRecv(len) =>
      TellOnly(s.probe);
    case CallUpdate(t) =>
      FlushProbe(m, s.(clock := Tick(s.clock, s.cfg.interval, t).0));
    case CallFlush =>
      FlushProbe(m, s);
  }

  lemma TellOnly(p: Probe)
    ensures forall tell :: ProbeOk(p.(tell := tell)) <==> ProbeOk(p)
  {
  }

  lemma {:induction false} InputLoopProbe(m: Mode, s: Kcb, f: Track, b: seq<Byte>)
    requires ProbeOk(s.probe)
    ensures ProbeOk(InputLoop(m, s, f, b).s.probe)
    decreases |b|
  {
    hide DropUna, DropAck, Accept, UpdateAck, TrackSeg, Header, HeaderLen, Diff;
    if !(|b| < OVERHEAD || Header(b).conv != s.cfg.conv || |b| - OVERHEAD < HeaderLen(b) || Signed32(HeaderLen(b)) < 0
         || !KnownCmd(Header(b).cmd)) {
      var x := Header(b).(data := b[OVERHEAD..OVERHEAD + HeaderLen(b)]);
      InputLoopProbe(m, ProcessSeg(m, s, x), TrackSeg(m, f, x), b[OVERHEAD + HeaderLen(b)..]);
    }
  }

  lemma FlushProbe(m: Mode, s: Kcb)
    requires ProbeOk(s.probe)
    ensures ProbeOk(FlushPlan(m, s).s.probe) && ProbeOk(Flush(m, s).0.probe)
  {
    hide FillBuf, SweepAll, SendWindow, AfterLoss, Packets, PaceOf, StampOf, ProbeTimer, TimeDiff;
    ProbeBackoff(s.probe, s.rmtWnd, s.clock.current);
  }

  /** A flush asks for the remote window exactly when the timer has expired. */
  lemma AsksWhenDue(m: Mode, s: Kcb)
    requires BlockOk(m, s) && ProbeOk(s.probe)
    ensures (exists x :: x in FlushPlan(m, s).segs && x.cmd == CMD_WASK)
      <==> ProbeDue(s.probe, s.rmtWnd, s.clock.current)
  {
    hide FillBuf, SendWindow, AfterLoss, PaceOf, StampOf, ProbeTimer, ProbeDue, SweepAll, AckSegs, LastAck;
    var st, p := StampOf(s), ProbeTimer(s.probe, s.rmtWnd, s.clock.current);
    ProbeBackoff(s.probe, s.rmtWnd, s.clock.current);
    SentPush(m, s);
    AcksOnly(st, s.acklist);
    var probes := ProbeSegs(st, p, LastAck(s.acklist));
    if p.ask {
      assert probes[0].cmd == CMD_WASK && probes[0] in FlushPlan(m, s).segs;
    }
  }

  lemma SentPush(m: Mode, s: Kcb)
    requires BlockOk(m, s)
    ensures forall x :: x in SweepAll(StampOf(s), PaceOf(s), Filled(m, s)).sent ==> x.cmd == CMD_PUSH
  {
    hide FillBuf, SendWindow, PaceOf, StampOf, SweepAll, Filled, Paced, DueSegs;
    FilledOk(m, s);
    SweepSendsDue(StampOf(s), PaceOf(s), Filled(m, s));
    DuePush(StampOf(s), PaceOf(s), Filled(m, s));
  }

  lemma {:induction false} DuePush(st: Stamp, p: Pace, buf: seq<Seg>)
    requires forall x :: x in buf ==> x.cmd == CMD_PUSH
    ensures forall x :: x in DueSegs(st, p, buf) ==> x.cmd == CMD_PUSH
  {
    hide WhySend;
    if buf != [] {
      var l := |buf| - 1;
      DuePush(st, p, buf[..l]);
      assert buf[l] in buf;
    }
  }

  lemma AcksOnly(st: Stamp, acks: seq<Ack>)
    ensures forall x :: x in AckSegs(st, acks) ==> x.cmd == CMD_ACK
  {
  }
}
