/** What one flush does, said without the functions that ikcp_flush is built
    from: which segments it numbers, which it sends again and when next, what it
    announces, and how loss changes the congestion window. */
module KcpFlush {
  import opened Bytes
  import opened KcpModel
  import opened KcpSender
  import opened KcpReceiver
  import opened KcpEndpoint
  import opened KcpWire
  import opened KcpTiming
  import opened KcpPackets
  import opened KcpInput

  // ----- numbering -----

  /** As many segments may be in flight as the send window, the window of the
      peer and, when it is on, the congestion window all allow. */
  function Allowed(s: Kcb): (w: int)
    ensures w <= s.cfg.sndWnd && w <= s.rmtWnd && (s.cfg.nocwnd == 0 ==> w <= s.cong.cwnd)
    ensures w == s.cfg.sndWnd || w == s.rmtWnd || (s.cfg.nocwnd == 0 && w == s.cong.cwnd)
  {
    var w := if s.rmtWnd < s.cfg.sndWnd then s.rmtWnd else s.cfg.sndWnd;
    if s.cfg.nocwnd == 0 && s.cong.cwnd < w then s.cong.cwnd else w
  }

  /** How many of the queued segments still fit. */
  function Room(flight: int, allowed: int, queued: nat): (n: nat)
    ensures n <= queued && (flight <= allowed ==> flight + n <= allowed)
    ensures n == queued || n == 0 || flight + n == allowed
    ensures n == queued || flight + n >= allowed
  {
    if allowed <= flight then 0 else if allowed - flight < queued then allowed - flight else queued
  }

  lemma {:induction false} FillShape(m: Mode, p: Stamp, rto: int, s: Snd, limit: int, cwnd: int) returns (n: nat)
    requires SndOk(m, s, limit) && 0 <= cwnd <= limit
    ensures n == Room(InFlight(m, s), cwnd, |s.queue|)
    ensures var t := FillBuf(m, p, rto, s, cwnd);
      && t.una == s.una && t.nxt == Norm(m, s.nxt + n) && t.queue == s.queue[n..]
      && |t.buf| == |s.buf| + n && t.buf[..|s.buf|] == s.buf
      && forall i :: 0 <= i < n ==> t.buf[|s.buf| + i] == Launch(p, Norm(m, s.nxt + i), rto, s.queue[i])
    decreases |s.queue|
  {
    hide SndOk, InFlight, FillBuf, Norm, Launch;
    InFlightBound(m, s, limit);
    if InFlight(m, s) < cwnd && s.queue != [] {
      var t := LaunchFirst(m, p, rto, s, limit, cwnd);
      var k := FillShape(m, p, rto, t, limit, cwnd);
      n := k + 1;
      NormStep(m, s.nxt, k);
      var u := FillBuf(m, p, rto, t, cwnd);
      assert u.buf[..|s.buf|] == u.buf[..|t.buf|][..|s.buf|] == s.buf;
      assert u.buf[|s.buf|] == u.buf[..|t.buf|][|s.buf|];
      LaunchedAll(m, p, rto, s, u.buf, k);
    } else {
      n := 0;
      FillStops(m, p, rto, s, limit, cwnd);
      assert s.queue[0..] == s.queue && s.buf[..|s.buf|] == s.buf;
    }
  }

  lemma InFlightBound(m: Mode, s: Snd, limit: int)
    requires SndOk(m, s, limit)
    ensures 0 <= InFlight(m, s) <= limit && Normal(m, s.nxt)
  {
    hide Rising, Norm;
  }

  lemma FillStops(m: Mode, p: Stamp, rto: int, s: Snd, limit: int, cwnd: int)
    requires SndOk(m, s, limit) && 0 <= cwnd <= limit && (InFlight(m, s) >= cwnd || s.queue == [])
    ensures FillBuf(m, p, rto, s, cwnd) == s && Norm(m, s.nxt + 0) == s.nxt
  {
    hide Rising, Norm, Diff, Launch, InFlight;
    FillTest(m, s, limit, cwnd);
    InFlightBound(m, s, limit);
    NormZero(m, s.nxt);
  }

  lemma LaunchFirst(m: Mode, p: Stamp, rto: int, s: Snd, limit: int, cwnd: int) returns (t: Snd)
    requires SndOk(m, s, limit) && 0 <= cwnd <= limit && InFlight(m, s) < cwnd && s.queue != []
    ensures t == Snd(s.una, Norm(m, s.nxt + 1), s.queue[1..], s.buf + [Launch(p, s.nxt, rto, s.queue[0])])
    ensures SndOk(m, t, limit) && InFlight(m, t) == InFlight(m, s) + 1
    ensures FillBuf(m, p, rto, s, cwnd) == FillBuf(m, p, rto, t, cwnd)
  {
    hide Rising, Norm, Diff, Launch;
    FillTest(m, s, limit, cwnd);
    NormalNorm(m, s.nxt + 1);
    var x := Launch(p, s.nxt, rto, s.queue[0]);
    t := Snd(s.una, Norm(m, s.nxt + 1), s.queue[1..], s.buf + [x]);
    Room1(m, s, cwnd);
    LaunchNumber(p, s.nxt, rto, s.queue[0]);
    RisingAppend(m, s.una, 0, s.buf, InFlight(m, s), x);
  }

  /** The first segment launched, and those launched after it. */
  lemma LaunchedAll(m: Mode, p: Stamp, rto: int, s: Snd, buf: seq<Seg>, k: nat)
    requires k < |s.queue| && |buf| == |s.buf| + 1 + k && Normal(m, s.nxt)
    requires buf[|s.buf|] == Launch(p, s.nxt, rto, s.queue[0])
    requires forall i :: 0 <= i < k ==>
      buf[|s.buf| + 1 + i] == Launch(p, Norm(m, Norm(m, s.nxt + 1) + i), rto, s.queue[1..][i])
    ensures forall i :: 0 <= i < k + 1 ==> buf[|s.buf| + i] == Launch(p, Norm(m, s.nxt + i), rto, s.queue[i])
  {
    hide Norm, Launch;
    NormZero(m, s.nxt);
    forall i | 0 < i < k + 1 ensures buf[|s.buf| + i] == Launch(p, Norm(m, s.nxt + i), rto, s.queue[i]) {
      NormStep(m, s.nxt, i - 1);
      assert s.queue[1..][i - 1] == s.queue[i];
    }
  }

  lemma LaunchNumber(p: Stamp, sn: int, rto: int, x: Seg)
    ensures Launch(p, sn, rto, x).sn == sn
  {
  }

  /** The window test of line 1017. */
  lemma FillTest(m: Mode, s: Snd, limit: int, cwnd: int)
    requires SndOk(m, s, limit) && 0 <= cwnd <= limit
    ensures Diff(m, s.nxt, Norm(m, s.una + cwnd)) < 0 <==> InFlight(m, s) < cwnd
  {
    hide Rising, Norm, Diff;
    OffOfNorm(m, s.una, cwnd);
    DiffIsOrder(m, s.una, s.nxt, Norm(m, s.una + cwnd));
  }

  lemma Room1(m: Mode, s: Snd, cwnd: int)
    requires 0 <= InFlight(m, s) < cwnd < U16
    ensures Off(m, s.una, Norm(m, s.nxt + 1)) == InFlight(m, s) + 1
  {
    hide Wrap32;
    var j := WrapSplit(s.nxt - s.una);
    var k := WrapSplit(s.nxt + 1);
    if m.Wrap? {
      WrapIs(Norm(m, s.nxt + 1) - s.una, j - k, InFlight(m, s) + 1);
    }
  }

  // ----- sending -----

  /** Line 1041: 0 or less turns fast resend off. */
  function SkipLimit(c: Settings): int {
    if c.fastresend > 0 then c.fastresend else 4294967295
  }

  /** x has been sent and its time is up. */
  predicate Late(s: Kcb, x: Seg) {
    x.xmit != 0 && Signed32(s.clock.current - x.resendts) >= 0
  }

  /** x has been sent, its time is not up, but it has been skipped often enough. */
  predicate Overtaken(s: Kcb, x: Seg) {
    && x.xmit != 0 && Signed32(s.clock.current - x.resendts) < 0
    && x.fastack >= SkipLimit(s.cfg) && (s.cfg.fastlimit <= 0 || Signed32(x.xmit) <= s.cfg.fastlimit)
  }

  predicate Goes(s: Kcb, x: Seg) {
    x.xmit == 0 || Late(s, x) || Overtaken(s, x)
  }

  /** What the segment x of snd_buf has become: sent for the first time it waits
      one RTO, and an eighth of it more outside of nodelay mode; sent late it
      waits longer by one RTO, or by half of one in nodelay mode; sent because it
      was overtaken it waits as long as before and its skips are forgotten. */
  predicate Became(s: Kcb, x: Seg, y: Seg) {
    var now, rto := s.clock.current, s.rtt.rto;
    && y.conv == x.conv && y.cmd == x.cmd && y.frg == x.frg && y.sn == x.sn && y.data == x.data
    && (!Goes(s, x) ==> y == x)
    && (Goes(s, x) ==>
          && y.ts == now && y.una == s.rcv.nxt && y.xmit == Wrap32(x.xmit + 1)
          && y.wnd + |s.rcv.queue| == Max(s.cfg.rcvWnd, |s.rcv.queue|)
          && y.fastack == (if Overtaken(s, x) then 0 else x.fastack))
    && (x.xmit == 0 ==> y.rto == rto && y.resendts == Wrap32(now + rto + if s.cfg.nodelay == 0 then rto / 8 else 0))
    && (Late(s, x) ==>
          && y.rto == Wrap32(x.rto + if s.cfg.nodelay == 0 then rto else rto / 2)
          && y.resendts == Wrap32(now + y.rto))
    && (Overtaken(s, x) ==> y.rto == x.rto && y.resendts == Wrap32(now + x.rto))
  }

  lemma WhyIs(s: Kcb, x: Seg)
    ensures WhySend(PaceOf(s), x) ==
      if x.xmit == 0 then First else if Late(s, x) then Timeout else if Overtaken(s, x) then Fast else Keep
  {
    hide Signed32;
  }

  lemma ResentIs(s: Kcb, x: Seg)
    ensures Became(s, x, Resend(StampOf(s), PaceOf(s), x))
  {
    hide Wrap32, Signed32;
  }

  lemma PlanIs(m: Mode, s: Kcb)
    requires s.clock.updated
    ensures var t, w := Flush(m, s).0, SweepAll(StampOf(s), PaceOf(s), Filled(m, s));
      && t.snd.buf == w.buf && t.cong == AfterLoss(s.cong, Norm(m, t.snd.nxt - t.snd.una), Resent(s.cfg.fastresend),
                                                  SendWindow(s), s.cfg.mss, w)
      && t.xmit == Wrap32(s.xmit + w.lost) && t.state == (if w.dead then U32 - 1 else s.state)
      && t.snd == FillBuf(m, StampOf(s), s.rtt.rto, s.snd, SendWindow(s)).(buf := w.buf)
      && t.acklist == [] && !t.probe.ask && !t.probe.tell
      && t.cfg == s.cfg && t.rcv == s.rcv && t.rtt == s.rtt && t.rmtWnd == s.rmtWnd && t.clock == s.clock
  {
    hide FillBuf, SweepAll, SendWindow, AfterLoss, Packets, PaceOf, StampOf, ProbeTimer, Wrap32, Norm, Resent;
  }

  /** snd_buf with n queued segments numbered. */
  function Before(m: Mode, s: Kcb, n: nat): (buf: seq<Seg>)
    requires n <= |s.snd.queue|
    ensures |buf| == |s.snd.buf| + n && buf[..|s.snd.buf|] == s.snd.buf
    ensures forall i :: 0 <= i < n ==> buf[|s.snd.buf| + i] == New(m, s, i)
  {
    s.snd.buf + seq(n, i requires 0 <= i < n => New(m, s, i))
  }

  lemma FilledIs(m: Mode, s: Kcb) returns (n: nat)
    requires BlockOk(m, s)
    ensures n == Room(InFlight(m, s.snd), Allowed(s), |s.snd.queue|)
    ensures var t := FillBuf(m, StampOf(s), s.rtt.rto, s.snd, SendWindow(s));
      t.buf == Before(m, s, n) && t.una == s.snd.una && t.nxt == Norm(m, s.snd.nxt + n) && t.queue == s.snd.queue[n..]
  {
    hide SndOk, Norm, RcvOk, QueueOk, BufOk, FillBuf, StampOf, Launch, SendWindow, New, Before, Allowed, Room, InFlight;
    WindowIs(s);
    WindowInLimit(s);
    n := FillShape(m, StampOf(s), s.rtt.rto, s.snd, FlightLimit(s.cfg), SendWindow(s));
    var k, f, g := |s.snd.buf|, Filled(m, s), Before(m, s, n);
    forall i | k <= i < |f| ensures f[i] == g[i] {
      NewIs(m, s, i - k);
      assert f[k + (i - k)] == g[k + (i - k)];
    }
    SameSegs(f, g, k);
  }

  lemma SameSegs(f: seq<Seg>, g: seq<Seg>, k: nat)
    requires k <= |f| == |g| && f[..k] == g[..k] && forall i :: k <= i < |f| ==> f[i] == g[i]
    ensures f == g
  {
    forall i | 0 <= i < k ensures f[i] == g[i] {
      assert f[i] == f[..k][i] && g[i] == g[..k][i];
    }
  }

  /** What a flush does to the sender. Queued segments enter snd_buf, in order
      and with the next numbers, as long as the windows allow, and all of them
      are sent; of those in snd_buf before, exactly the late and the overtaken
      are sent again. */
  lemma FlushSenderIs(m: Mode, s: Kcb) returns (n: nat)
    requires BlockOk(m, s) && s.clock.updated
    ensures n == Room(InFlight(m, s.snd), Allowed(s), |s.snd.queue|)
    ensures n > 0 ==> InFlight(m, s.snd) + n <= s.rmtWnd && InFlight(m, s.snd) + n <= s.cfg.sndWnd
    ensures var t := Flush(m, s).0;
      && t.snd.una == s.snd.una && t.snd.nxt == Norm(m, s.snd.nxt + n) && t.snd.queue == s.snd.queue[n..]
      && |t.snd.buf| == |s.snd.buf| + n
      && forall i :: 0 <= i < |t.snd.buf| ==> Became(s, Before(m, s, n)[i], t.snd.buf[i])
  {
    hide BlockOk, Norm, FillBuf, Became, Resend, PaceOf, StampOf, SweepAll, AfterLoss, Flush, SendWindow, Wrap32,
      Resent, Before, InFlight;
    PlanIs(m, s);
    n := FilledIs(m, s);
    SweepSendsDue(StampOf(s), PaceOf(s), Filled(m, s));
    forall i | 0 <= i < |Filled(m, s)| ensures Became(s, Before(m, s, n)[i], Flush(m, s).0.snd.buf[i]) {
      ResentIs(s, Filled(m, s)[i]);
    }
  }

  /** Queued segment i as it enters snd_buf. */
  function New(m: Mode, s: Kcb, i: nat): Seg
    requires i < |s.snd.queue|
  {
    var x := s.snd.queue[i];
    Seg(s.cfg.conv, 81, x.frg, StampOf(s).wnd, s.clock.current, Norm(m, s.snd.nxt + i), s.rcv.nxt, x.data,
        s.clock.current, s.rtt.rto, 0, 0)
  }

  lemma NewIs(m: Mode, s: Kcb, i: nat)
    requires i < |s.snd.queue|
    ensures New(m, s, i) == Launch(StampOf(s), Norm(m, s.snd.nxt + i), s.rtt.rto, s.snd.queue[i])
  {
    hide Norm;
  }

  lemma WindowIs(s: Kcb)
    ensures SendWindow(s) == Allowed(s)
  {
  }

  // ----- loss -----

  lemma {:induction false} LostCount(st: Stamp, p: Pace, buf: seq<Seg>)
    ensures SweepAll(st, p, buf).lost == |set i | 0 <= i < |buf| && WhySend(p, buf[i]) == Timeout|
  {
    hide WhySend, Resend;
    if buf != [] {
      var l := |buf| - 1;
      var front := buf[..l];
      LostCount(st, p, front);
      var late, now := set i | 0 <= i < l && WhySend(p, front[i]) == Timeout,
        set i | 0 <= i < |buf| && WhySend(p, buf[i]) == Timeout;
      if WhySend(p, buf[l]) == Timeout {
        assert now == late + {l};
      } else {
        assert now == late;
      }
    }
  }

  lemma {:induction false} ChangeCount(st: Stamp, p: Pace, buf: seq<Seg>)
    ensures SweepAll(st, p, buf).change > 0 <==> exists x :: x in buf && WhySend(p, x) == Fast
  {
    hide WhySend, Resend;
    if buf != [] {
      var l := |buf| - 1;
      ChangeCount(st, p, buf[..l]);
      assert buf == buf[..l] + [buf[l]];
    }
  }

  lemma {:induction false} DeadCount(st: Stamp, p: Pace, buf: seq<Seg>)
    ensures SweepAll(st, p, buf).dead <==>
      exists x :: x in buf && WhySend(p, x) != Keep && Resend(st, p, x).xmit >= p.deadLink
  {
    hide WhySend, Resend;
    if buf != [] {
      var l := |buf| - 1;
      DeadCount(st, p, buf[..l]);
      assert buf == buf[..l] + [buf[l]];
    }
  }

  /** New segments are neither late nor overtaken. */
  lemma OldOnly(m: Mode, s: Kcb, n: nat)
    requires n <= |s.snd.queue|
    ensures forall x :: x in Before(m, s, n) && x.xmit != 0 ==> x in s.snd.buf
    ensures forall x :: x in s.snd.buf ==> x in Before(m, s, n)
  {
    hide Before;
    NewUnsent(m, s, n);
    Members(Before(m, s, n), s.snd.buf);
  }

  lemma NewUnsent(m: Mode, s: Kcb, n: nat)
    requires n <= |s.snd.queue|
    ensures forall i :: |s.snd.buf| <= i < |Before(m, s, n)| ==> Before(m, s, n)[i].xmit == 0
  {
    hide Norm, StampOf, Before;
    var b, k := Before(m, s, n), |s.snd.buf|;
    forall i | k <= i < |b| ensures b[i].xmit == 0 {
      assert b[k + (i - k)] == New(m, s, i - k);
    }
  }

  lemma Members(b: seq<Seg>, front: seq<Seg>)
    requires |front| <= |b| && b[..|front|] == front && forall i :: |front| <= i < |b| ==> b[i].xmit == 0
    ensures forall x :: x in b && x.xmit != 0 ==> x in front
    ensures forall x :: x in front ==> x in b
  {
    forall x | x in b && x.xmit != 0 ensures x in front {
      var i :| 0 <= i < |b| && b[i] == x;
      assert b[..|front|][i] == x;
    }
    forall x | x in front ensures x in b {
      var i :| 0 <= i < |front| && front[i] == x;
      assert b[i] == b[..|front|][i];
    }
  }

  function AtLeast2(x: int): int {
    if x < 2 then 2 else x
  }

  /** How a flush answers loss. A late segment: slow start again from one
      segment, with half the send window as the threshold. Otherwise an overtaken
      one: half of what is in flight, and the skips on top. Otherwise nothing.
      And the window is never below one segment. */
  lemma FlushLoss(m: Mode, s: Kcb)
    requires BlockOk(m, s) && s.clock.updated
    ensures var t := Flush(m, s).0; var mss, flight := s.cfg.mss, Norm(m, t.snd.nxt - t.snd.una);
      if exists x :: x in s.snd.buf && Late(s, x) then t.cong == Congestion(1, mss, AtLeast2(Allowed(s) / 2))
      else
        var c :=
          if exists x :: x in s.snd.buf && Overtaken(s, x) then
            var half := AtLeast2(flight / 2);
            var w := Wrap32(half + SkipLimit(s.cfg));
            Congestion(w, Wrap32(w * mss), half)
          else s.cong;
        t.cong == if c.cwnd < 1 then c.(cwnd := 1, incr := mss) else c
  {
    hide BlockOk, FillBuf, Flush, PaceOf, StampOf, SweepAll, SendWindow, Wrap32, Norm, WhySend, Late, Overtaken,
      Allowed;
    PlanIs(m, s);
    LossSeen(m, s);
    WindowIs(s);
  }

  lemma LossSeen(m: Mode, s: Kcb)
    requires BlockOk(m, s)
    ensures var w := SweepAll(StampOf(s), PaceOf(s), Filled(m, s));
      && (w.lost > 0 <==> exists x :: x in s.snd.buf && Late(s, x))
      && (w.change > 0 <==> exists x :: x in s.snd.buf && Overtaken(s, x))
  {
    hide BlockOk, FillBuf, PaceOf, StampOf, SweepAll, SendWindow, Norm, WhySend, Late, Overtaken, Before, Resend,
      Filled;
    var st, p, f := StampOf(s), PaceOf(s), Filled(m, s);
    var n := FilledOld(m, s);
    LostAny(st, p, f);
    ChangeCount(st, p, f);
    forall x ensures (Late(s, x) <==> WhySend(p, x) == Timeout) && (Overtaken(s, x) <==> WhySend(p, x) == Fast)
      && (Late(s, x) || Overtaken(s, x) ==> x.xmit != 0)
    {
      WhyIs(s, x);
      SentOnly(s, x);
    }
  }

  lemma FilledOld(m: Mode, s: Kcb) returns (n: nat)
    requires BlockOk(m, s)
    ensures forall x :: x in Filled(m, s) && x.xmit != 0 ==> x in s.snd.buf
    ensures forall x :: x in s.snd.buf ==> x in Filled(m, s)
  {
    hide BlockOk, FillBuf, PaceOf, StampOf, SendWindow, Norm, Before, InFlight;
    n := FilledIs(m, s);
    OldOnly(m, s, n);
  }

  lemma SentOnly(s: Kcb, x: Seg)
    ensures Late(s, x) ==> x.xmit != 0 && !Overtaken(s, x)
    ensures Overtaken(s, x) ==> x.xmit != 0
  {
    hide Signed32;
  }

  lemma LostAny(st: Stamp, p: Pace, buf: seq<Seg>)
    ensures SweepAll(st, p, buf).lost > 0 <==> exists x :: x in buf && WhySend(p, x) == Timeout
  {
    hide WhySend, Resend, SweepAll;
    LostCount(st, p, buf);
    var late := set i | 0 <= i < |buf| && WhySend(p, buf[i]) == Timeout;
    if x :| x in buf && WhySend(p, x) == Timeout {
      var i :| 0 <= i < |buf| && buf[i] == x;
      assert i in late;
    }
    if late != {} {
      var i :| i in late;
      assert buf[i] in buf;
    }
  }

  /** The counters: one more timeout for each late segment, and a dead link once
      a segment has been sent too often. The acknowledgements and probes are
      gone, and nothing else has changed. */
  lemma FlushTotals(m: Mode, s: Kcb, n: nat)
    requires BlockOk(m, s) && s.clock.updated && n == Room(InFlight(m, s.snd), Allowed(s), |s.snd.queue|)
    ensures var t, b := Flush(m, s).0, s.snd.buf;
      && t.xmit == Wrap32(s.xmit + |set i | 0 <= i < |b| && Late(s, b[i])|)
      && t.state == (if exists x :: x in Before(m, s, n) && Goes(s, x) && Wrap32(x.xmit + 1) >= s.cfg.deadLink
                     then 4294967295 else s.state)
      && t.acklist == [] && !t.probe.ask && !t.probe.tell
      && t.cfg == s.cfg && t.rcv == s.rcv && t.rtt == s.rtt && t.rmtWnd == s.rmtWnd && t.clock == s.clock
  {
    hide BlockOk, FillBuf, Flush, PaceOf, StampOf, SweepAll, SendWindow, Wrap32, Norm, WhySend, Late, Goes, Allowed,
      Before, InFlight, Resend, AfterLoss, Room;
    PlanIs(m, s);
    var k := FilledIs(m, s);
    LateSet(m, s, n);
    DeadSeen(m, s, n);
  }

  lemma LateSet(m: Mode, s: Kcb, n: nat)
    requires n <= |s.snd.queue| && Filled(m, s) == Before(m, s, n)
    ensures SweepAll(StampOf(s), PaceOf(s), Filled(m, s)).lost
         == |set i | 0 <= i < |s.snd.buf| && Late(s, s.snd.buf[i])|
  {
    hide FillBuf, PaceOf, StampOf, SweepAll, SendWindow, Norm, WhySend, Late, Resend, New, Filled, Before;
    var f, b := Filled(m, s), s.snd.buf;
    LostCount(StampOf(s), PaceOf(s), f);
    var late := set i | 0 <= i < |f| && WhySend(PaceOf(s), f[i]) == Timeout;
    var seen := set i | 0 <= i < |b| && Late(s, b[i]);
    forall i | 0 <= i < |f|
      ensures WhySend(PaceOf(s), f[i]) == Timeout <==> i < |b| && Late(s, b[i])
    {
      LateOf(m, s, n, i);
    }
    assert late == seen;
  }

  lemma LateOf(m: Mode, s: Kcb, n: nat, i: nat)
    requires n <= |s.snd.queue| && i < |s.snd.buf| + n
    ensures WhySend(PaceOf(s), Before(m, s, n)[i]) == Timeout <==> i < |s.snd.buf| && Late(s, s.snd.buf[i])
  {
    hide PaceOf, WhySend, Late, Overtaken, Before;
    var b, k := Before(m, s, n), |s.snd.buf|;
    WhyIs(s, b[i]);
    SentOnly(s, b[i]);
    NewUnsent(m, s, n);
    if i < k {
      assert b[i] == b[..k][i];
    }
  }

  lemma DeadSeen(m: Mode, s: Kcb, n: nat)
    requires n <= |s.snd.queue| && Filled(m, s) == Before(m, s, n)
    ensures SweepAll(StampOf(s), PaceOf(s), Filled(m, s)).dead <==>
      exists x :: x in Before(m, s, n) && Goes(s, x) && Wrap32(x.xmit + 1) >= s.cfg.deadLink
  {
    hide FillBuf, StampOf, SweepAll, SendWindow, Norm, WhySend, Late, Overtaken, Goes, Resend, Wrap32, Before, Became;
    DeadCount(StampOf(s), PaceOf(s), Filled(m, s));
    forall x ensures (Goes(s, x) <==> WhySend(PaceOf(s), x) != Keep)
      && (Goes(s, x) ==> Resend(StampOf(s), PaceOf(s), x).xmit == Wrap32(x.xmit + 1))
    {
      GoesIs(s, x);
      ResentIs(s, x);
      if Goes(s, x) {
        Counted(s, x, Resend(StampOf(s), PaceOf(s), x));
      }
    }
  }

  lemma GoesIs(s: Kcb, x: Seg)
    ensures Goes(s, x) <==> WhySend(PaceOf(s), x) != Keep
  {
    hide PaceOf, WhySend, Late, Overtaken;
    WhyIs(s, x);
  }

  lemma Counted(s: Kcb, x: Seg, y: Seg)
    requires Became(s, x, y) && Goes(s, x)
    ensures y.xmit == Wrap32(x.xmit + 1)
  {
    hide Goes, Late, Overtaken;
  }

  // ----- what goes out -----

  /** What the segments sent look like to a reader: those of snd_buf that go, as
      they have become. */
  function SentOf(s: Kcb, was: seq<Seg>, now: seq<Seg>): seq<Seg>
    requires |was| == |now|
  {
    if was == [] then []
    else
      var l := |was| - 1;
      SentOf(s, was[..l], now[..l]) + if Goes(s, was[l]) then [OnWire(Wrap, now[l])] else []
  }

  lemma {:induction false} DueAreSent(s: Kcb, was: seq<Seg>, now: seq<Seg>)
    requires |was| == |now|
    requires forall i :: 0 <= i < |was| ==> now[i] == Resend(StampOf(s), PaceOf(s), was[i])
    ensures Arrivals(Wrap, DueSegs(StampOf(s), PaceOf(s), was)) == SentOf(s, was, now)
  {
    hide PaceOf, StampOf, WhySend, Resend, Goes, OnWire;
    if was != [] {
      var l := |was| - 1;
      DueAreSent(s, was[..l], now[..l]);
      GoesIs(s, was[l]);
      ArrivalsConcat(Wrap, DueSegs(StampOf(s), PaceOf(s), was[..l]),
                     if WhySend(PaceOf(s), was[l]) == Keep then [] else [now[l]]);
    }
  }

  /** All that the datagrams of a flush carry, read back. */
  function Carried(m: Mode, s: Kcb): seq<Seg>
    requires AllWellFormed(s.cfg.conv, EncodeAll(Flush(m, s).1))
  {
    ParseAll(s.cfg.conv, EncodeAll(Flush(m, s).1))
  }

  /** The timer for asking about a closed window has run out. */
  predicate AskDue(s: Kcb) {
    s.rmtWnd == 0 && s.probe.wait != 0 && Signed32(s.clock.current - s.probe.ts) >= 0
  }

  lemma AskIs(s: Kcb)
    requires !s.probe.ask
    ensures var q := ProbeTimer(s.probe, s.rmtWnd, s.clock.current); (q.ask <==> AskDue(s)) && q.tell == s.probe.tell
  {
    hide Signed32, Wrap32;
  }

  /** A flush sends one acknowledgement for each one pending, with its number and
      time stamp, in order; then a question if one is due and an answer if one
      has been asked for; then the segments that go. */
  lemma FlushCarries(m: Mode, s: Kcb, n: nat)
    requires BlockOk(m, s) && s.clock.updated && !s.probe.ask
    requires n == Room(InFlight(m, s.snd), Allowed(s), |s.snd.queue|)
    ensures AllWellFormed(s.cfg.conv, EncodeAll(Flush(m, s).1)) && |Flush(m, s).0.snd.buf| == |s.snd.buf| + n
    ensures var xs, acks := Carried(m, s), s.acklist;
      var j := |acks| + if AskDue(s) then 1 else 0;
      var k := j + if s.probe.tell then 1 else 0;
      && k <= |xs|
      && (forall i :: 0 <= i < |acks| ==>
            xs[i].cmd == 82 && xs[i].sn == Wrap32(acks[i].sn) && xs[i].ts == Wrap32(acks[i].ts) && xs[i].data == [])
      && (AskDue(s) ==> xs[|acks|].cmd == 83 && xs[|acks|].data == [])
      && (s.probe.tell ==> xs[j].cmd == 84 && xs[j].data == [])
      && xs[k..] == SentOf(s, Before(m, s, n), Flush(m, s).0.snd.buf)
  {
    hide BlockOk, FillBuf, Flush, PaceOf, StampOf, SweepAll, SendWindow, Wrap32, Norm, Resend, Before, InFlight, Room,
      Allowed, ProbeTimer, AskDue, DueSegs, ParseAll, AllWellFormed, EncodeAll, SentOf, Arrivals, AckSegs;
    FlushRoundTrip(m, s);
    var k := FilledIs(m, s);
    PlanIs(m, s);
    SweepSendsDue(StampOf(s), PaceOf(s), Filled(m, s));
    DueAreSent(s, Filled(m, s), Flush(m, s).0.snd.buf);
    AskIs(s);
    OutgoingSplit(m, s);
  }

  /** Outgoing, segment by segment as it is read. */
  lemma OutgoingSplit(m: Mode, s: Kcb)
    requires !s.probe.ask
    ensures var xs, acks := Arrivals(Wrap, Outgoing(m, s)), s.acklist;
      var j := |acks| + if AskDue(s) then 1 else 0;
      var k := j + if s.probe.tell then 1 else 0;
      && k <= |xs|
      && (forall i :: 0 <= i < |acks| ==>
            xs[i].cmd == 82 && xs[i].sn == Wrap32(acks[i].sn) && xs[i].ts == Wrap32(acks[i].ts) && xs[i].data == [])
      && (AskDue(s) ==> xs[|acks|].cmd == 83 && xs[|acks|].data == [])
      && (s.probe.tell ==> xs[j].cmd == 84 && xs[j].data == [])
      && xs[k..] == Arrivals(Wrap, DueSegs(StampOf(s), PaceOf(s), Filled(m, s)))
  {
    hide StampOf, PaceOf, DueSegs, Filled, ProbeTimer, AskDue, Wrap32, LastAck, Arrivals, AckSegs, ProbeSegs;
    AskIs(s);
    var st, q := StampOf(s), ProbeTimer(s.probe, s.rmtWnd, s.clock.current);
    var acks, probes := AckSegs(st, s.acklist), ProbeSegs(st, q, LastAck(s.acklist));
    var due := DueSegs(st, PaceOf(s), Filled(m, s));
    ArrivalsConcat(Wrap, acks + probes, due);
    ArrivalsConcat(Wrap, acks, probes);
    ProbesRead(st, q, LastAck(s.acklist));
    var xs := Arrivals(Wrap, Outgoing(m, s));
    assert xs == (Arrivals(Wrap, acks) + Arrivals(Wrap, probes)) + Arrivals(Wrap, due);
    forall i | 0 <= i < |s.acklist|
      ensures i < |xs| && xs[i].cmd == 82 && xs[i].sn == Wrap32(s.acklist[i].sn) && xs[i].ts == Wrap32(s.acklist[i].ts)
        && xs[i].data == []
    {
      AckRead(st, s.acklist, i);
      assert xs[i] == Arrivals(Wrap, acks)[i];
    }
  }

  lemma AckRead(st: Stamp, acks: seq<Ack>, i: nat)
    requires i < |acks|
    ensures var x := Arrivals(Wrap, AckSegs(st, acks))[i];
      x.cmd == 82 && x.sn == Wrap32(acks[i].sn) && x.ts == Wrap32(acks[i].ts) && x.data == []
  {
    hide Wrap32;
  }

  lemma ProbesRead(st: Stamp, q: Probe, a: Ack)
    ensures var xs := Arrivals(Wrap, ProbeSegs(st, q, a)); var j := if q.ask then 1 else 0;
      && |xs| == j + (if q.tell then 1 else 0)
      && (q.ask ==> xs[0].cmd == 83 && xs[0].data == []) && (q.tell ==> xs[j].cmd == 84 && xs[j].data == [])
  {
    hide Wrap32;
  }

  // ----- the window announced -----

  /** x announces what is left of the receive window and what has arrived. */
  predicate Announces(s: Kcb, x: Seg) {
    && x.conv == s.cfg.conv && x.una == Wrap32(s.rcv.nxt)
    && 0 <= x.wnd && x.wnd + |s.rcv.queue| == Max(s.cfg.rcvWnd, |s.rcv.queue|)
  }

  lemma {:induction false} DueAnnounce(s: Kcb, buf: seq<Seg>)
    requires BufOk(s.cfg, buf)
    ensures forall x :: x in DueSegs(StampOf(s), PaceOf(s), buf) ==>
      x.conv == s.cfg.conv && x.una == s.rcv.nxt && x.wnd == StampOf(s).wnd
  {
    hide WhySend, Wrap32, Paced, StampOf, PaceOf;
    if buf != [] {
      var l := |buf| - 1;
      DueAnnounce(s, buf[..l]);
      assert SegOk(s.cfg, buf[l]);
      StampUna(s);
    }
  }

  lemma StampUna(s: Kcb)
    ensures StampOf(s).una == s.rcv.nxt && StampOf(s).conv == s.cfg.conv
  {
  }

  lemma OutgoingAnnounce(m: Mode, s: Kcb)
    requires BlockOk(m, s)
    ensures forall x :: x in Outgoing(m, s) ==>
      x.conv == s.cfg.conv && x.una == s.rcv.nxt && x.wnd == StampOf(s).wnd
  {
    hide SegOk, BufOk, FillBuf, SendWindow, DueSegs, ProbeTimer, PaceOf, StampOf, Filled, RcvOk, SndOk;
    FilledOk(m, s);
    DueAnnounce(s, Filled(m, s));
    StampUna(s);
  }

  lemma {:induction false} PacketIn(ps: seq<seq<Seg>>, i: nat)
    requires i < |ps|
    ensures forall x :: x in ps[i] ==> x in Flatten(ps)
  {
    if i < |ps| - 1 {
      PacketIn(ps[..|ps| - 1], i);
    }
  }

  /** Every segment of every datagram of a flush, as it is read, announces the
      window that is left, and the number of the first segment missing. */
  lemma FlushAnnounces(m: Mode, s: Kcb, i: nat)
    requires BlockOk(m, s) && s.clock.updated && i < |Flush(m, s).1|
    ensures var b := EncodeAll(Flush(m, s).1)[i];
      && b != [] && |b| <= s.cfg.mtu && WellFormed(s.cfg.conv, b)
      && forall x :: x in Parse(s.cfg.conv, b) ==> Announces(s, x)
  {
    hide BlockOk, Flush, Outgoing, StampOf, WellFormed, Parse, EncodeGroup, AllSmall, OnWire, Flatten, Announces,
      Sendable;
    FlushSends(m, s);
    OutgoingSendable(m, s);
    OutgoingAnnounce(m, s);
    var p := Flush(m, s).1[i];
    PacketIn(Flush(m, s).1, i);
    PacketSmall(m, s, i);
    SetupOf(m, s);
    SendableOf(s.cfg, Outgoing(m, s), p);
    SendableEmits(s.cfg, p);
    GroupRoundTrip(s.cfg.conv, p);
    forall x | x in Parse(s.cfg.conv, EncodeGroup(p)) ensures Announces(s, x) {
      var j :| 0 <= j < |p| && Arrivals(Wrap, p)[j] == x;
      assert p[j] in p;
      ReadAnnounces(m, s, p[j]);
    }
  }

  lemma PacketSmall(m: Mode, s: Kcb, i: nat)
    requires AllSmall(s.cfg.mtu, Flush(m, s).1) && i < |Flush(m, s).1|
    ensures Flush(m, s).1[i] != [] && 0 < |EncodeGroup(Flush(m, s).1[i])| <= s.cfg.mtu
  {
    hide Flush;
    assert Small(s.cfg.mtu, Flush(m, s).1[i]);
  }

  lemma SetupOf(m: Mode, s: Kcb)
    requires BlockOk(m, s)
    ensures Setup(s.cfg)
  {
    hide SndOk, RcvOk;
  }

  lemma SendableOf(c: Settings, xs: seq<Seg>, p: seq<Seg>)
    requires Sendable(c, xs) && forall x :: x in p ==> x in xs
    ensures Sendable(c, p)
  {
  }

  lemma ReadAnnounces(m: Mode, s: Kcb, x: Seg)
    requires BlockOk(m, s) && x.conv == s.cfg.conv && x.una == s.rcv.nxt && x.wnd == StampOf(s).wnd
    ensures Announces(s, OnWire(Wrap, x))
  {
    hide SndOk, Wrap32, Rising;
    WrapSmall(s.cfg.conv);
  }

  /** A peer that reads any datagram of the flush knows the window left. */
  lemma PeerKnowsWindow(m: Mode, s: Kcb, i: nat, mp: Mode, peer: Kcb)
    requires BlockOk(m, s) && s.clock.updated && i < |Flush(m, s).1| && peer.cfg.conv == s.cfg.conv
    ensures var b := EncodeAll(Flush(m, s).1)[i];
      && Datagram(peer, b) && 0 <= Input(mp, peer, b).0.rmtWnd
      && Input(mp, peer, b).0.rmtWnd + |s.rcv.queue| == Max(s.cfg.rcvWnd, |s.rcv.queue|)
  {
    hide BlockOk, Flush, WellFormed, Parse, Input, EncodeGroup, Sampled;
    SetupOf(m, s);
    FlushAnnounces(m, s, i);
    var b := EncodeAll(Flush(m, s).1)[i];
    InputNotes(mp, peer, b);
    var xs := Parse(peer.cfg.conv, b);
    assert xs[|xs| - 1] in xs;
  }

  // ----- data and its acknowledgement -----

  lemma {:induction false} FlattenIn(ps: seq<seq<Seg>>, x: Seg) returns (i: nat)
    requires x in Flatten(ps)
    ensures i < |ps| && x in ps[i]
  {
    var l := |ps| - 1;
    if x in ps[l] {
      i := l;
    } else {
      i := FlattenIn(ps[..l], x);
    }
  }

  /** Each pending acknowledgement is in some datagram of the flush. */
  lemma AckGoesOut(m: Mode, s: Kcb, a: Ack) returns (i: nat, x: Seg)
    requires BlockOk(m, s) && s.clock.updated && a in s.acklist
    ensures i < |Flush(m, s).1|
    ensures var b := EncodeAll(Flush(m, s).1)[i];
      && b != [] && |b| <= s.cfg.mtu && WellFormed(s.cfg.conv, b) && x in Parse(s.cfg.conv, b)
      && x.cmd == 82 && x.sn == Wrap32(a.sn) && x.ts == Wrap32(a.ts)
  {
    hide BlockOk, Flush, StampOf, WellFormed, Parse, EncodeGroup, AllSmall, Flatten, Sendable, DueSegs, PaceOf, Filled,
      ProbeTimer, Wrap32, Announces, LastAck;
    FlushSends(m, s);
    OutgoingSendable(m, s);
    SetupOf(m, s);
    var k :| 0 <= k < |s.acklist| && s.acklist[k] == a;
    var y := ControlSeg(StampOf(s), CMD_ACK, a);
    assert AckSegs(StampOf(s), s.acklist)[k] == y;
    i := FlattenIn(Flush(m, s).1, y);
    var p := Flush(m, s).1[i];
    PacketIn(Flush(m, s).1, i);
    SendableOf(s.cfg, Outgoing(m, s), p);
    SendableEmits(s.cfg, p);
    GroupRoundTrip(s.cfg.conv, p);
    FlushAnnounces(m, s, i);
    var j :| 0 <= j < |p| && p[j] == y;
    x := Arrivals(Wrap, p)[j];
  }

  /** Data read, flushed and read back: whatever data segment of its window the
      receiver reads, in one of the datagrams of its next flush there is an
      acknowledgement, and whichever sender reads that datagram no longer has the
      segment in its snd_buf. */
  lemma DataIsAcknowledged(r: Kcb, b: seq<Byte>, x: Seg) returns (i: nat)
    requires BlockOk(Wrap, r) && r.clock.updated && Datagram(r, b) && x in Parse(r.cfg.conv, b) && x.cmd == 81
    requires 0 <= Off(Wrap, r.rcv.nxt, x.sn) < r.cfg.rcvWnd
    ensures var t := Input(Wrap, r, b).0;
      && i < |Flush(Wrap, t).1|
      && forall s: Kcb :: BlockOk(Wrap, s) && s.cfg.conv == r.cfg.conv ==>
           var c := EncodeAll(Flush(Wrap, t).1)[i]; Datagram(s, c) && !Present(Input(Wrap, s, c).0.snd.buf, x.sn)
  {
    hide BlockOk, Flush, WellFormed, Parse, Input, EncodeAll, Present, Off, Sampled, Wrap32;
    var t := Input(Wrap, r, b).0;
    InputReceives(Wrap, r, b, x);
    InputKeeps(Wrap, r, b);
    InputNotes(Wrap, r, b);
    SetupOf(Wrap, t);
    ParsedNormal(Wrap, r.cfg.conv, b);
    var y;
    i, y := AckGoesOut(Wrap, t, Ack(x.sn, x.ts));
    forall s: Kcb | BlockOk(Wrap, s) && s.cfg.conv == r.cfg.conv
      ensures var c := EncodeAll(Flush(Wrap, t).1)[i]; Datagram(s, c) && !Present(Input(Wrap, s, c).0.snd.buf, x.sn)
    {
      AckClears(Wrap, s, EncodeAll(Flush(Wrap, t).1)[i], y);
    }
  }
}
