/** One endpoint under any calls whatever, arbitrary input bytes included: the
    invariant of the control block in every reachable state. */
module KcpEndpoint {
  import opened Bytes
  import opened KcpModel
  import opened KcpSender
  import opened KcpReceiver
  import opened KcpCongestion

  /** Settings the configuration functions can leave behind, with rcv_wnd in 16
      bits. */
  predicate Setup(c: Settings) {
    && 0 < c.mss && c.mtu == c.mss + OVERHEAD < I32 && 0 <= c.conv < U32
    && 0 < c.sndWnd && WND_RCV <= c.rcvWnd < U16 && 0 < c.minrto && 0 < c.interval <= 5000
  }

  /** A segment size in 16 bits and a fast-resend count with which no window in
      bytes passes 2^32. */
  predicate Modest(c: Settings) {
    0 < c.mss < U16 && c.fastresend < I32 / U16
  }

  /** After k > 0 transmissions the timeout of a segment is at most k times the
      largest RTO, as long as that fits. */
  predicate Paced(x: Seg) {
    0 <= x.xmit < U32 && (0 < x.xmit * RTO_MAX < I32 ==> 0 < x.rto <= x.xmit * RTO_MAX)
  }

  /** A segment ikcp_flush has numbered. */
  predicate SegOk(c: Settings, x: Seg) {
    |x.data| <= c.mss && x.conv == c.conv && x.cmd == CMD_PUSH && Paced(x)
  }

  predicate BufOk(c: Settings, buf: seq<Seg>) {
    forall x :: x in buf ==> SegOk(c, x)
  }

  predicate QueueOk(c: Settings, q: seq<Seg>) {
    forall x :: x in q ==> |x.data| <= c.mss
  }

  predicate RttOk(r: Rtt) {
    0 < r.rto <= RTO_MAX
  }

  predicate BlockOk(m: Mode, s: Kcb) {
    && Setup(s.cfg)
    && SndOk(m, s.snd, FlightLimit(s.cfg)) && BufOk(s.cfg, s.snd.buf) && QueueOk(s.cfg, s.snd.queue)
    && RcvOk(m, s.cfg.rcvWnd, s.rcv)
    && 0 <= s.rmtWnd < U16 && 0 <= s.cong.cwnd && RttOk(s.rtt)
  }

  /** What the input loop can read from a header. */
  predicate Arrived(m: Mode, x: Seg) {
    0 <= x.wnd < U16 && Normal(m, x.sn) && Normal(m, x.una)
  }

  // ----- acknowledgements -----

  lemma {:induction false} ParseUnaOnly(m: Mode, buf: seq<Seg>, una: int)
    ensures forall x :: x in ParseUna(m, buf, una) ==> x in buf
  {
    hide Diff;
    if buf != [] && Diff(m, una, buf[0].sn) > 0 {
      ParseUnaOnly(m, buf[1..], una);
    }
  }

  lemma {:induction false} WithoutOnly(buf: seq<Seg>, sn: int)
    ensures forall x :: x in Without(buf, sn) <==> x in buf && x.sn != sn
  {
    if buf != [] {
      WithoutOnly(buf[1..], sn);
      assert buf == [buf[0]] + buf[1..];
    }
  }

  lemma UpdateAckOk(r: Rtt, interval: int, minrto: int, rtt: int)
    requires minrto > 0
    ensures RttOk(UpdateAck(r, interval, minrto, rtt))
  {
    hide Wrap32, Signed32, CDiv;
  }

  lemma BufOfUna(m: Mode, c: Settings, s: Snd, una: int)
    requires BufOk(c, s.buf)
    ensures BufOk(c, DropUna(m, s, una).buf)
  {
    hide SegOk, ParseUna;
    ParseUnaOnly(m, s.buf, una);
  }

  lemma BufOfAck(m: Mode, c: Settings, s: Snd, limit: int, sn: int)
    requires SndOk(m, s, limit) && BufOk(c, s.buf)
    ensures BufOk(c, DropAck(m, s, sn).buf)
  {
    hide SegOk, ParseAck, Without, SndOk;
    AckRemovesExactly(m, s, limit, sn);
    WithoutOnly(s.buf, sn);
  }

  // ----- input -----

  /** One segment of any content keeps the block in order and never moves
      snd_una back. */
  lemma ProcessSegKeeps(m: Mode, s: Kcb, x: Seg)
    requires BlockOk(m, s) && Arrived(m, x)
    ensures BlockOk(m, ProcessSeg(m, s, x)) && Advanced(m, s.snd, ProcessSeg(m, s, x).snd)
    ensures ProcessSeg(m, s, x).cong == s.cong && ProcessSeg(m, s, x).cfg == s.cfg
  {
    hide SndOk, BufOk, QueueOk, RcvOk, RttOk, Off, Diff, Norm, DropUna, DropAck, Accept, UpdateAck;
    var t := DropUna(m, s.snd, x.una);
    DropUnaKeeps(m, s.snd, FlightLimit(s.cfg), x.una);
    BufOfUna(m, s.cfg, s.snd, x.una);
    if x.cmd == CMD_ACK {
      DropAckKeeps(m, t, FlightLimit(s.cfg), x.sn);
      BufOfAck(m, s.cfg, t, FlightLimit(s.cfg), x.sn);
      AdvancedTwice(m, s.snd, t, DropAck(m, t, x.sn));
      UpdateAckOk(s.rtt, s.cfg.interval, s.cfg.minrto, TimeDiff(s.clock.current, x.ts));
    } else if x.cmd == CMD_PUSH {
      AcceptKeeps(m, s.cfg.rcvWnd, s.rcv, x);
    }
  }

  lemma HeaderArrived(m: Mode, b: seq<Byte>)
    requires |b| >= OVERHEAD
    ensures Arrived(m, Header(b))
  {
    hide FromLe16, FromLe32;
    WrapSmall(FromLe32(b[12..16]));
    WrapSmall(FromLe32(b[16..20]));
  }

  lemma {:induction false} InputLoopKeeps(m: Mode, s: Kcb, f: Track, b: seq<Byte>)
    requires BlockOk(m, s)
    ensures var r := InputLoop(m, s, f, b);
      BlockOk(m, r.s) && Advanced(m, s.snd, r.s.snd) && r.s.cong == s.cong && r.s.cfg == s.cfg
    decreases |b|
  {
    hide BlockOk, ProcessSeg, TrackSeg, Header, HeaderLen, Signed32, Off;
    if |b| < OVERHEAD || Header(b).conv != s.cfg.conv || |b| - OVERHEAD < HeaderLen(b) || Signed32(HeaderLen(b)) < 0
       || !KnownCmd(Header(b).cmd) {
      Stays(m, s);
    } else {
      var len := HeaderLen(b);
      var x := Header(b).(data := b[OVERHEAD..OVERHEAD + len]);
      HeaderArrived(m, b);
      ProcessSegKeeps(m, s, x);
      InputLoopKeeps(m, ProcessSeg(m, s, x), TrackSeg(m, f, x), b[OVERHEAD + len..]);
      AdvancedTwice(m, s.snd, ProcessSeg(m, s, x).snd, InputLoop(m, s, f, b).s.snd);
    }
  }

  lemma Stays(m: Mode, s: Kcb)
    requires BlockOk(m, s)
    ensures Advanced(m, s.snd, s.snd)
  {
    hide Rising;
    OffOfNorm(m, s.snd.una, 0);
  }

  lemma FastackKeeps(m: Mode, c: Settings, s: Snd, sn: int)
    requires SndOk(m, s, FlightLimit(c)) && BufOk(c, s.buf)
    ensures var t := s.(buf := ParseFastack(m, s.buf, s.una, s.nxt, sn));
      SndOk(m, t, FlightLimit(c)) && BufOk(c, t.buf) && Advanced(m, s, t)
  {
    hide BumpFastack, Off, Norm, Diff, SegOk, SndOk, SameNumbers;
    Same(s.buf);
    Renewed(m, s, FlightLimit(c), s.buf);
    BumpNumbers(m, s.buf, sn);
    Renewed(m, s, FlightLimit(c), BumpFastack(m, s.buf, sn));
    BumpOk(m, c, s.buf, sn);
  }

  lemma Same(buf: seq<Seg>)
    ensures SameNumbers(buf, buf)
  {
  }

  lemma {:induction false} BumpOk(m: Mode, c: Settings, buf: seq<Seg>, sn: int)
    requires BufOk(c, buf)
    ensures BufOk(c, BumpFastack(m, buf, sn))
  {
    hide Diff, Wrap32;
    if buf != [] && Diff(m, sn, buf[0].sn) >= 0 {
      BumpOk(m, c, buf[1..], sn);
      assert SegOk(c, buf[0]);
    }
  }

  lemma GrowthCounts(c: Congestion, rmtWnd: int, mss: int)
    requires 0 <= c.cwnd && 0 <= rmtWnd
    ensures 0 <= GrowWindow(c, rmtWnd, mss).cwnd
  {
  }

  lemma LossCounts(c: Congestion, inflight: int, resent: int, cwnd: int, mss: int, w: Sweep)
    ensures 0 <= AfterLoss(c, inflight, resent, cwnd, mss, w).cwnd
  {
    hide Wrap32;
  }

  lemma InputFinishKeeps(m: Mode, s: Kcb, prevUna: int, f: Track)
    requires BlockOk(m, s)
    ensures BlockOk(m, InputFinish(m, s, prevUna, f)) && Advanced(m, s.snd, InputFinish(m, s, prevUna, f).snd)
  {
    hide SndOk, BufOk, QueueOk, RcvOk, RttOk, Off, Diff, Norm, GrowWindow, ParseFastack;
    Stays(m, s);
    FastackKeeps(m, s.cfg, s.snd, f.maxack);
    GrowthCounts(s.cong, s.rmtWnd, s.cfg.mss);
  }

  /** ikcp_input of arbitrary bytes, on every path including the errors:
      everything stays in order, and snd_una never moves back. */
  lemma InputKeeps(m: Mode, s: Kcb, b: seq<Byte>)
    requires BlockOk(m, s)
    ensures BlockOk(m, Input(m, s, b).0) && Advanced(m, s.snd, Input(m, s, b).0.snd)
  {
    hide BlockOk, InputLoop, InputFinish, Off, Signed32;
    Stays(m, s);
    InputLoopKeeps(m, s, Track(false, 0), b);
    var r := InputLoop(m, s, Track(false, 0), b);
    if Signed32(|b|) >= OVERHEAD && r.code == 0 {
      InputFinishKeeps(m, r.s, s.snd.una, r.f);
      AdvancedTwice(m, s.snd, r.s.snd, InputFinish(m, r.s, s.snd.una, r.f).snd);
    }
  }

  // ----- the application -----

  lemma RecvKeeps(m: Mode, s: Kcb, len: int)
    requires BlockOk(m, s)
    ensures BlockOk(m, Recv(m, s, len).0) && Recv(m, s, len).0.snd == s.snd
  {
    hide SndOk, BufOk, QueueOk, RttOk, Merge, MergeCount, MoveReady, PeekSize, Rising, Normal;
    var q := s.rcv.queue;
    var n := MergeCount(q);
    MoveReadyKeeps(m, s.cfg.rcvWnd, s.rcv.(queue := if len < 0 then q else q[n..]));
  }

  lemma {:induction false} FragmentsFit(mss: int, data: seq<Byte>, count: nat, stream: bool)
    requires mss > 0
    ensures forall x :: x in Fragments(mss, data, count, stream) ==> |x.data| <= mss
    decreases count
  {
    if count > 0 {
      FragmentsFit(mss, data[Min(|data|, mss)..], count - 1, stream);
    }
  }

  lemma SendKeeps(c: Settings, queue: seq<Seg>, data: seq<Byte>)
    requires Setup(c) && QueueOk(c, queue)
    ensures QueueOk(c, Send(queue, c.mss, c.stream != 0, data).0)
  {
    hide Fragments, FragmentCount;
    var stream := c.stream != 0;
    var extend := stream && CanExtend(queue, c.mss);
    var rest := if extend then data[TailRoom(queue, c.mss, data)..] else data;
    FragmentsFit(c.mss, rest, FragmentCount(c.mss, |rest|), stream);
  }

  // ----- flush -----

  lemma WindowInLimit(s: Kcb)
    requires Setup(s.cfg) && 0 <= s.rmtWnd < U16 && 0 <= s.cong.cwnd
    ensures 0 <= SendWindow(s) <= FlightLimit(s.cfg)
  {
  }

  lemma {:induction false} FillBufOk(m: Mode, c: Settings, p: Stamp, rto: int, s: Snd, cwnd: int)
    requires BufOk(c, s.buf) && QueueOk(c, s.queue) && p.conv == c.conv
    ensures BufOk(c, FillBuf(m, p, rto, s, cwnd).buf) && QueueOk(c, FillBuf(m, p, rto, s, cwnd).queue)
    decreases |s.queue|
  {
    hide Diff, Norm;
    if Diff(m, s.nxt, Norm(m, s.una + cwnd)) < 0 && s.queue != [] {
      var x := Launch(p, s.nxt, rto, s.queue[0]);
      assert s.queue[0] in s.queue;
      FillBufOk(m, c, p, rto, Snd(s.una, Norm(m, s.nxt + 1), s.queue[1..], s.buf + [x]), cwnd);
    }
  }

  /** The pace of a block whose RTO is in range. */
  predicate PaceOk(p: Pace) {
    0 < p.rto <= RTO_MAX && 0 <= p.backoff <= p.rto
  }

  lemma ResendPaced(st: Stamp, p: Pace, x: Seg)
    requires PaceOk(p) && Paced(x)
    ensures Paced(Resend(st, p, x))
  {
    hide Wrap32, TimeDiff;
    if x.xmit + 1 < U32 {
      WrapSmall(x.xmit + 1);
    } else {
      WrapIs(x.xmit + 1, 1, 0);
    }
    if 0 < (x.xmit + 1) * RTO_MAX < I32 && x.xmit > 0 {
      WrapSmall(x.rto + p.backoff);
    }
  }

  lemma ResendOk(c: Settings, st: Stamp, p: Pace, x: Seg)
    requires PaceOk(p) && SegOk(c, x)
    ensures SegOk(c, Resend(st, p, x))
  {
    hide Paced, Wrap32, TimeDiff;
    ResendPaced(st, p, x);
  }

  lemma {:induction false} SweepOk(c: Settings, st: Stamp, p: Pace, buf: seq<Seg>)
    requires PaceOk(p) && BufOk(c, buf)
    ensures BufOk(c, SweepAll(st, p, buf).buf)
  {
    hide PaceOk, SegOk, WhySend, Resend;
    if buf != [] {
      var l := |buf| - 1;
      SweepOk(c, st, p, buf[..l]);
      ResendOk(c, st, p, buf[l]);
    }
  }

  lemma PaceInRange(s: Kcb)
    requires RttOk(s.rtt)
    ensures PaceOk(PaceOf(s))
  {
  }

  /** The sender after a flush. */
  lemma FlushSender(m: Mode, s: Kcb)
    requires BlockOk(m, s)
    ensures var t := FlushPlan(m, s).s;
      SndOk(m, t.snd, FlightLimit(s.cfg)) && BufOk(s.cfg, t.snd.buf) && QueueOk(s.cfg, t.snd.queue)
        && t.snd.una == s.snd.una
  {
    hide SndOk, BufOk, QueueOk, RcvOk, RttOk, SendWindow, FillBuf, SweepAll, PaceOf, PaceOk, AfterLoss, SameNumbers;
    var st, cwnd, p := StampOf(s), SendWindow(s), PaceOf(s);
    WindowInLimit(s);
    PaceInRange(s);
    var snd := FillBuf(m, st, s.rtt.rto, s.snd, cwnd);
    FillBufKeeps(m, st, s.rtt.rto, s.snd, FlightLimit(s.cfg), cwnd);
    FillBufOk(m, s.cfg, st, s.rtt.rto, s.snd, cwnd);
    SweepNumbers(st, p, snd.buf);
    SweepOk(s.cfg, st, p, snd.buf);
    Renewed(m, snd, FlightLimit(s.cfg), SweepAll(st, p, snd.buf).buf);
  }

  lemma FlushKeeps(m: Mode, s: Kcb)
    requires BlockOk(m, s)
    ensures BlockOk(m, Flush(m, s).0) && Flush(m, s).0.snd.una == s.snd.una
  {
    hide BufOk, QueueOk, RcvOk, RttOk, SndOk, SendWindow, FillBuf, SweepAll, PaceOf, AfterLoss, Packets, Norm, Resent;
    FlushSender(m, s);
    var snd := FillBuf(m, StampOf(s), s.rtt.rto, s.snd, SendWindow(s));
    LossCounts(s.cong, Norm(m, snd.nxt - snd.una), Resent(s.cfg.fastresend), SendWindow(s), s.cfg.mss,
               SweepAll(StampOf(s), PaceOf(s), snd.buf));
  }

  lemma UpdateKeeps(m: Mode, s: Kcb, t: int)
    requires BlockOk(m, s)
    ensures BlockOk(m, Update(m, s, t).0) && Update(m, s, t).0.snd.una == s.snd.una
  {
    hide Flush, SndOk, Tick;
    FlushKeeps(m, s.(clock := Tick(s.clock, s.cfg.interval, t).0));
  }

  // ----- all calls -----

  datatype Call =
    | CallInput(data: seq<Byte>)
    | CallSend(message: seq<Byte>)
    | CallRecv(len: int)
    | CallUpdate(t: int)
    | CallFlush

  function Apply(m: Mode, s: Kcb, c: Call): Kcb
    requires s.cfg.mss > 0
  {
    match c
    case CallInput(data) => Input(m, s, data).0
    case CallSend(message) => s.(snd := s.snd.(queue := Send(s.snd.queue, s.cfg.mss, s.cfg.stream != 0, message).0))
    case CallRecv(len) => Recv(m, s, len).0
    case CallUpdate(t) => Update(m, s, t).0
    case CallFlush => Flush(m, s).0
  }

  lemma ApplyKeeps(m: Mode, s: Kcb, c: Call)
    requires BlockOk(m, s)
    ensures BlockOk(m, Apply(m, s, c)) && 0 <= Off(m, s.snd.una, Apply(m, s, c).snd.una) <= InFlight(m, s.snd)
  {
    hide Input, Send, Recv, Update, Flush, RcvOk, BufOk, QueueOk, Off, Rising;
    Stays(m, s);
    match c
    case CallInput(data) => InputKeeps(m, s, data);
    case CallSend(message) => SendKeeps(s.cfg, s.snd.queue, message);
    case CallRecv(len) => RecvKeeps(m, s, len);
    case CallUpdate(t) => UpdateKeeps(m, s, t);
    case CallFlush => FlushKeeps(m, s);
  }

  lemma ConfigKept(m: Mode, s: Kcb, c: Call)
    requires s.cfg.mss > 0
    ensures Apply(m, s, c).cfg == s.cfg
  {
    hide Send, FillBuf, SweepAll, ProcessSeg, MoveReady, AfterLoss, ParseFastack, GrowWindow, Packets;
    if c.CallInput? {
      InputLoopConfig(m, s, Track(false, 0), c.data);
    }
  }

  lemma {:induction false} InputLoopConfig(m: Mode, s: Kcb, f: Track, b: seq<Byte>)
    ensures InputLoop(m, s, f, b).s.cfg == s.cfg
    decreases |b|
  {
    hide DropUna, DropAck, Accept, UpdateAck, TrackSeg, Header, HeaderLen, Diff;
    if !(|b| < OVERHEAD || Header(b).conv != s.cfg.conv || |b| - OVERHEAD < HeaderLen(b) || Signed32(HeaderLen(b)) < 0
         || !KnownCmd(Header(b).cmd)) {
      var x := Header(b).(data := b[OVERHEAD..OVERHEAD + HeaderLen(b)]);
      InputLoopConfig(m, ProcessSeg(m, s, x), TrackSeg(m, f, x), b[OVERHEAD + HeaderLen(b)..]);
    }
  }

  function Run(m: Mode, c: Settings, calls: seq<Call>): (s: Kcb)
    requires Setup(c)
    ensures s.cfg == c
  {
    if calls == [] then Create(c)
    else
      var s := Run(m, c, calls[..|calls| - 1]);
      ConfigKept(m, s, calls[|calls| - 1]);
      Apply(m, s, calls[|calls| - 1])
  }

  /** The invariant holds in every state that any calls can reach. */
  lemma {:induction false} AlwaysOk(m: Mode, c: Settings, calls: seq<Call>)
    requires Setup(c)
    ensures BlockOk(m, Run(m, c, calls))
  {
    hide Apply;
    if calls != [] {
      AlwaysOk(m, c, calls[..|calls| - 1]);
      ApplyKeeps(m, Run(m, c, calls[..|calls| - 1]), calls[|calls| - 1]);
    }
  }

  // ----- the congestion window -----

  lemma {:induction false} InputLoopCong(m: Mode, s: Kcb, f: Track, b: seq<Byte>)
    requires BlockOk(m, s)
    ensures var r := InputLoop(m, s, f, b); r.s.cong == s.cong && r.s.cfg == s.cfg && 0 <= r.s.rmtWnd < U16
  {
    hide InputLoop, Rising, RcvOk, BufOk, QueueOk;
    InputLoopKeeps(m, s, f, b);
  }

  lemma FlightAfterFill(m: Mode, s: Kcb)
    requires BlockOk(m, s)
    ensures var snd := FillBuf(m, StampOf(s), s.rtt.rto, s.snd, SendWindow(s));
      0 <= Norm(m, snd.nxt - snd.una) < U16 && 0 <= SendWindow(s)
  {
    hide FillBuf, Rising, SendWindow, RcvOk, BufOk, QueueOk;
    WindowInLimit(s);
    FillBufKeeps(m, StampOf(s), s.rtt.rto, s.snd, FlightLimit(s.cfg), SendWindow(s));
  }

  lemma FlushCongestion(m: Mode, s: Kcb)
    requires BlockOk(m, s) && Modest(s.cfg) && CongOk(s.cong, s.cfg.mss)
    ensures CongOk(Flush(m, s).0.cong, s.cfg.mss)
  {
    hide BlockOk, FillBuf, SweepAll, SendWindow, PaceOf, StampOf, AfterLoss, CongOk, Resent, Packets, Norm;
    FlightAfterFill(m, s);
    var snd := FillBuf(m, StampOf(s), s.rtt.rto, s.snd, SendWindow(s));
    AfterLossKeeps(s.cong, Norm(m, snd.nxt - snd.una), s.cfg.fastresend, SendWindow(s), s.cfg.mss,
                   SweepAll(StampOf(s), PaceOf(s), snd.buf));
  }

  lemma CongestionStep(m: Mode, s: Kcb, c: Call)
    requires BlockOk(m, s) && Modest(s.cfg) && CongOk(s.cong, s.cfg.mss)
    ensures CongOk(Apply(m, s, c).cong, s.cfg.mss)
  {
    hide BlockOk, InputLoop, GrowWindow, ParseFastack, Send, Flush, MoveReady, Merge, MergeCount, PeekSize, CongOk,
      Tick;
    match c
    case CallInput(data) =>
      InputLoopCong(m, s, Track(false, 0), data);
      GuardsNeverFire(s.cong, InputLoop(m, s, Track(false, 0), data).s.rmtWnd, s.cfg.mss);
    case CallSend(message) =>
    case CallRecv(len) =>
    case CallUpdate(t) =>
      ClockOnly(m, s, Tick(s.clock, s.cfg.interval, t).0);
      FlushCongestion(m, s.(clock := Tick(s.clock, s.cfg.interval, t).0));
    case CallFlush =>
      FlushCongestion(m, s);
  }

  lemma ClockOnly(m: Mode, s: Kcb, c: Clock)
    requires BlockOk(m, s)
    ensures BlockOk(m, s.(clock := c))
  {
  }

  /** In every reachable state cwnd is incr / mss and ssthresh is at least 2. */
  lemma {:induction false} CongestionAlwaysOk(m: Mode, c: Settings, calls: seq<Call>)
    requires Setup(c) && Modest(c)
    ensures CongOk(Run(m, c, calls).cong, c.mss)
  {
    hide Apply, BlockOk;
    if calls != [] {
      var front := calls[..|calls| - 1];
      AlwaysOk(m, c, front);
      CongestionAlwaysOk(m, c, front);
      CongestionStep(m, Run(m, c, front), calls[|calls| - 1]);
    }
  }
}
