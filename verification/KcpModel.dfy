/** The KCP control block as a value and what each function of ikcp.c does to
    it. The class in Kcp.dfy is proved to do the same step by step; the
    protocol theorems are about these functions. */
module KcpModel {
  import opened Bytes

  const RTO_NDL := 30
  const RTO_MIN := 100
  const RTO_DEF := 200
  const RTO_MAX := 60000
  const CMD_PUSH := 81
  const CMD_ACK := 82
  const CMD_WASK := 83
  const CMD_WINS := 84
  const WND_SND := 32
  const WND_RCV := 128
  const MTU_DEF := 1400
  const INTERVAL := 100
  const OVERHEAD := 24
  const DEADLINK := 20
  const THRESH_INIT := 2
  const THRESH_MIN := 2
  const PROBE_INIT := 7000
  const PROBE_LIMIT := 120000
  const FASTACK_LIMIT := 5

  /** Sequence numbers either wrap at 2^32, as in the program, or are exact
      integers, as in the proofs about whole runs. Times always wrap. */
  datatype Mode = Wrap | Exact

  function Norm(m: Mode, x: int): int {
    if m.Wrap? then Wrap32(x) else x
  }

  /** _itimediff on sequence numbers. */
  function Diff(m: Mode, later: int, earlier: int): int {
    if m.Wrap? then Signed32(later - earlier) else later - earlier
  }

  /** _itimediff on times. */
  function TimeDiff(later: int, earlier: int): int {
    Signed32(later - earlier)
  }

  function Min(a: int, b: int): int {
    if a <= b then a else b
  }

  function Max(a: int, b: int): int {
    if a >= b then a else b
  }

  /** C division truncates toward zero. */
  function CDiv(a: int, b: int): int
    requires b > 0
  {
    if a >= 0 then a / b else -(-a / b)
  }

  datatype Seg = Seg(conv: int, cmd: int, frg: int, wnd: int, ts: int, sn: int, una: int, data: seq<Byte>,
                     resendts: int, rto: int, fastack: int, xmit: int)

  datatype Ack = Ack(sn: int, ts: int)

  /** What is fixed once the application has set the block up. */
  datatype Settings = Settings(conv: int, mtu: int, mss: int, sndWnd: int, rcvWnd: int, nodelay: int, minrto: int,
                               interval: int, fastresend: int, fastlimit: int, deadLink: int, nocwnd: int, stream: int)

  /** The sender: what is queued and what is in flight. */
  datatype Snd = Snd(una: int, nxt: int, queue: seq<Seg>, buf: seq<Seg>)

  /** The receiver: what waits for the application and what came early. */
  datatype Rcv = Rcv(nxt: int, queue: seq<Seg>, buf: seq<Seg>)

  datatype Rtt = Rtt(rttval: int, srtt: int, rto: int)

  datatype Congestion = Congestion(cwnd: int, incr: int, ssthresh: int)

  datatype Probe = Probe(ask: bool, tell: bool, ts: int, wait: int)

  datatype Clock = Clock(current: int, tsFlush: int, updated: bool)

  datatype Kcb = Kcb(cfg: Settings, snd: Snd, rcv: Rcv, acklist: seq<Ack>, rtt: Rtt, cong: Congestion, rmtWnd: int,
                     probe: Probe, clock: Clock, xmit: int, state: int)

  /** The settings made by ikcp_create, ikcp_setmtu, ikcp_wndsize and
      ikcp_nodelay. */
  function Configure(conv: int, mtu: int, sndWnd: int, rcvWnd: int, nodelay: int, interval: int, fastresend: int,
                     nocwnd: int, stream: int): Settings {
    Settings(conv, mtu, mtu - OVERHEAD, sndWnd, rcvWnd, nodelay, if nodelay != 0 then RTO_NDL else RTO_MIN,
             interval, fastresend, FASTACK_LIMIT, DEADLINK, nocwnd, stream)
  }

  /** ikcp_create. */
  function Create(c: Settings): Kcb {
    Kcb(c, Snd(0, 0, [], []), Rcv(0, [], []), [], Rtt(0, 0, RTO_DEF), Congestion(0, 0, THRESH_INIT), WND_RCV,
        Probe(false, false, 0, 0), Clock(0, INTERVAL, false), 0, 0)
  }

  // ----- acknowledgement of sent segments -----

  /** ikcp_update_ack. */
  function UpdateAck(r: Rtt, interval: int, minrto: int, rtt: int): Rtt {
    var rttval :=
      if r.srtt == 0 then rtt / 2
      else
        var delta := Signed32(rtt - r.srtt);
        Signed32(CDiv(Signed32(3 * r.rttval) + (if delta < 0 then -delta else delta), 4));
    var srtt :=
      if r.srtt == 0 then rtt
      else
        var v := CDiv(Signed32(7 * r.srtt + rtt), 8);
        if v < 1 then 1 else v;
    Rtt(rttval, srtt, Min(Max(minrto, Wrap32(srtt + Max(interval, Wrap32(4 * rttval)))), RTO_MAX))
  }

  /** ikcp_parse_una: drops acknowledged segments from the front, stopping at
      the first one that is not. */
  function ParseUna(m: Mode, buf: seq<Seg>, una: int): seq<Seg> {
    if buf != [] && Diff(m, una, buf[0].sn) > 0 then ParseUna(m, buf[1..], una) else buf
  }

  /** ikcp_shrink_buf. */
  function ShrinkBuf(buf: seq<Seg>, nxt: int): int {
    if buf != [] then buf[0].sn else nxt
  }

  /** The loop of ikcp_parse_ack. */
  function RemoveSn(m: Mode, buf: seq<Seg>, sn: int): (r: seq<Seg>)
    ensures |buf| - 1 <= |r| <= |buf|
  {
    if buf == [] then []
    else if sn == buf[0].sn then buf[1..]
    else if Diff(m, sn, buf[0].sn) < 0 then buf
    else [buf[0]] + RemoveSn(m, buf[1..], sn)
  }

  predicate OutsideWindow(m: Mode, sn: int, una: int, nxt: int) {
    Diff(m, sn, una) < 0 || Diff(m, sn, nxt) >= 0
  }

  /** ikcp_parse_ack. */
  function ParseAck(m: Mode, buf: seq<Seg>, una: int, nxt: int, sn: int): seq<Seg> {
    if OutsideWindow(m, sn, una, nxt) then buf else RemoveSn(m, buf, sn)
  }

  function BumpFastack(m: Mode, buf: seq<Seg>, sn: int): (r: seq<Seg>)
    ensures |r| == |buf|
  {
    if buf == [] || Diff(m, sn, buf[0].sn) < 0 then buf
    else
      var x := if sn != buf[0].sn then buf[0].(fastack := Wrap32(buf[0].fastack + 1)) else buf[0];
      [x] + BumpFastack(m, buf[1..], sn)
  }

  /** ikcp_parse_fastack. */
  function ParseFastack(m: Mode, buf: seq<Seg>, una: int, nxt: int, sn: int): seq<Seg> {
    if OutsideWindow(m, sn, una, nxt) then buf else BumpFastack(m, buf, sn)
  }

  // ----- reassembly -----

  /** The backward search of ikcp_parse_data: a segment already present is
      dropped, otherwise it goes behind the last one it follows. */
  function InsertSeg(m: Mode, buf: seq<Seg>, x: Seg): (r: seq<Seg>)
    ensures |buf| <= |r| <= |buf| + 1
  {
    if buf == [] then [x]
    else
      var l := |buf| - 1;
      if buf[l].sn == x.sn then buf
      else if Diff(m, x.sn, buf[l].sn) > 0 then buf + [x]
      else InsertSeg(m, buf[..l], x) + [buf[l]]
  }

  /** Moving the contiguous run from rcv_buf to rcv_queue. */
  function MoveReady(m: Mode, wnd: int, r: Rcv): Rcv
    decreases |r.buf|
  {
    if r.buf != [] && r.buf[0].sn == r.nxt && |r.queue| < wnd then
      MoveReady(m, wnd, Rcv(Norm(m, r.nxt + 1), r.queue + [r.buf[0]], r.buf[1..]))
    else r
  }

  /** ikcp_parse_data. */
  function Accept(m: Mode, wnd: int, r: Rcv, x: Seg): Rcv {
    if Diff(m, x.sn, Norm(m, r.nxt + wnd)) >= 0 || Diff(m, x.sn, r.nxt) < 0 then r
    else MoveReady(m, wnd, r.(buf := InsertSeg(m, r.buf, x)))
  }

  // ----- input -----

  /** The acknowledgement seen so far with the highest sequence number. */
  datatype Track = Track(flag: bool, maxack: int)

  function TrackAck(m: Mode, f: Track, sn: int): Track {
    if !f.flag then Track(true, sn)
    else if Diff(m, sn, f.maxack) > 0 then f.(maxack := sn)
    else f
  }

  function DropUna(m: Mode, s: Snd, una: int): Snd {
    var buf := ParseUna(m, s.buf, una);
    s.(buf := buf, una := ShrinkBuf(buf, s.nxt))
  }

  function DropAck(m: Mode, s: Snd, sn: int): Snd {
    var buf := ParseAck(m, s.buf, s.una, s.nxt, sn);
    s.(buf := buf, una := ShrinkBuf(buf, s.nxt))
  }

  predicate BelowWindow(m: Mode, s: Kcb, sn: int) {
    Diff(m, sn, Norm(m, s.rcv.nxt + s.cfg.rcvWnd)) < 0
  }

  function TakePush(m: Mode, s: Kcb, x: Seg): Kcb {
    if !BelowWindow(m, s, x.sn) then s
    else
      s.(acklist := s.acklist + [Ack(x.sn, x.ts)],
         rcv := if Diff(m, x.sn, s.rcv.nxt) >= 0 then Accept(m, s.cfg.rcvWnd, s.rcv, x) else s.rcv)
  }

  function TakeAck(m: Mode, s: Kcb, x: Seg): Kcb {
    var rtt := TimeDiff(s.clock.current, x.ts);
    s.(rtt := if rtt >= 0 then UpdateAck(s.rtt, s.cfg.interval, s.cfg.minrto, rtt) else s.rtt,
       snd := DropAck(m, s.snd, x.sn))
  }

  /** One segment of a datagram (lines 788-865). */
  function ProcessSeg(m: Mode, s: Kcb, x: Seg): Kcb {
    var t := s.(rmtWnd := x.wnd, snd := DropUna(m, s.snd, x.una));
    if x.cmd == CMD_ACK then TakeAck(m, t, x)
    else if x.cmd == CMD_PUSH then TakePush(m, t, x)
    else if x.cmd == CMD_WASK then t.(probe := t.probe.(tell := true))
    else t
  }

  function TrackSeg(m: Mode, f: Track, x: Seg): Track {
    if x.cmd == CMD_ACK then TrackAck(m, f, x.sn) else f
  }

  /** Congestion window growth (lines 876-892). */
  function GrowWindow(c: Congestion, rmtWnd: int, mss: int): Congestion {
    if c.cwnd >= rmtWnd then c
    else
      var d :=
        if c.cwnd < c.ssthresh then c.(cwnd := Wrap32(c.cwnd + 1), incr := Wrap32(c.incr + mss))
        else
          var incr0 := if c.incr < mss then mss else c.incr;
          var step := if incr0 == 0 then 0 else Wrap32(mss * mss) / incr0;
          var incr := Wrap32(incr0 + step + mss / 16);
          c.(incr := incr, cwnd := if Wrap32((c.cwnd + 1) * mss) <= incr then Wrap32(c.cwnd + 1) else c.cwnd);
      if d.cwnd > rmtWnd then d.(cwnd := rmtWnd, incr := Wrap32(rmtWnd * mss)) else d
  }

  /** Lines 871-893. */
  function InputFinish(m: Mode, s: Kcb, prevUna: int, f: Track): Kcb {
    s.(snd := if f.flag then s.snd.(buf := ParseFastack(m, s.snd.buf, s.snd.una, s.snd.nxt, f.maxack)) else s.snd,
       cong := if Diff(m, s.snd.una, prevUna) > 0 then GrowWindow(s.cong, s.rmtWnd, s.cfg.mss) else s.cong)
  }

  /** The header at the front of a datagram, with an empty payload. */
  function Header(b: seq<Byte>): Seg
    requires |b| >= OVERHEAD
  {
    Seg(FromLe32(b[0..4]), b[4], b[5], FromLe16(b[6..8]), FromLe32(b[8..12]), FromLe32(b[12..16]), FromLe32(b[16..20]),
        [], 0, 0, 0, 0)
  }

  function HeaderLen(b: seq<Byte>): (n: int)
    requires |b| >= OVERHEAD
    ensures 0 <= n < U32
  {
    FromLe32(b[20..24])
  }

  predicate KnownCmd(cmd: int) {
    cmd == CMD_PUSH || cmd == CMD_ACK || cmd == CMD_WASK || cmd == CMD_WINS
  }

  datatype Scan = Scan(s: Kcb, f: Track, code: int)

  /** The loop of ikcp_input; code 0 means it ran out of bytes. */
  function InputLoop(m: Mode, s: Kcb, f: Track, b: seq<Byte>): Scan
    decreases |b|
  {
    if |b| < OVERHEAD then Scan(s, f, 0)
    else
      var h, len := Header(b), HeaderLen(b);
      if h.conv != s.cfg.conv then Scan(s, f, -2)
      else if |b| - OVERHEAD < len || Signed32(len) < 0 then Scan(s, f, -2)
      else if !KnownCmd(h.cmd) then Scan(s, f, -3)
      else
        var x := h.(data := b[OVERHEAD..OVERHEAD + len]);
        InputLoop(m, ProcessSeg(m, s, x), TrackSeg(m, f, x), b[OVERHEAD + len..])
  }

  /** ikcp_input. */
  function Input(m: Mode, s: Kcb, b: seq<Byte>): (Kcb, int) {
    if Signed32(|b|) < OVERHEAD then (s, -1)
    else
      var r := InputLoop(m, s, Track(false, 0), b);
      if r.code != 0 then (r.s, r.code) else (InputFinish(m, r.s, s.snd.una, r.f), 0)
  }

  // ----- the application side -----

  function PeekLen(q: seq<Seg>): nat {
    if q == [] then 0
    else if q[0].frg == 0 then |q[0].data|
    else |q[0].data| + PeekLen(q[1..])
  }

  /** ikcp_peeksize. */
  function PeekSize(q: seq<Seg>): int {
    if q == [] then -1
    else if q[0].frg == 0 then |q[0].data|
    else if |q| < q[0].frg + 1 then -1
    else PeekLen(q)
  }

  /** How many segments the merge loop of ikcp_recv takes. */
  function MergeCount(q: seq<Seg>): (n: nat)
    ensures n <= |q| && (q != [] ==> n > 0)
  {
    if q == [] then 0 else if q[0].frg == 0 then 1 else 1 + MergeCount(q[1..])
  }

  function Merge(q: seq<Seg>): seq<Byte> {
    if q == [] then [] else q[0].data + Merge(q[1..])
  }

  /** ikcp_recv: the new state, the return value and the bytes copied. A
      negative len only peeks. */
  function Recv(m: Mode, s: Kcb, len: int): (Kcb, int, seq<Byte>) {
    var q := s.rcv.queue;
    if q == [] then (s, -1, [])
    else if PeekSize(q) < 0 then (s, -2, [])
    else if PeekSize(q) > (if len < 0 then -len else len) then (s, -3, [])
    else
      var n := MergeCount(q);
      var data := Merge(q[..n]);
      var r := MoveReady(m, s.cfg.rcvWnd, s.rcv.(queue := if len < 0 then q else q[n..]));
      var recover := |r.queue| < s.cfg.rcvWnd && |q| >= s.cfg.rcvWnd;
      (s.(rcv := r, probe := if recover then s.probe.(tell := true) else s.probe), |data|, data)
  }

  function NewSeg(frg: int, data: seq<Byte>): Seg {
    Seg(0, 0, frg, 0, 0, 0, 0, data, 0, 0, 0, 0)
  }

  /** count pieces of at most mss bytes; in message mode they are numbered down
      to 0. */
  function Fragments(mss: int, data: seq<Byte>, count: nat, stream: bool): (r: seq<Seg>)
    requires mss > 0
    ensures |r| == count
  {
    if count == 0 then []
    else
      var size := Min(|data|, mss);
      [NewSeg(if stream then 0 else count - 1, data[..size])] + Fragments(mss, data[size..], count - 1, stream)
  }

  function FragmentCount(mss: int, len: nat): (n: nat)
    requires mss > 0
    ensures n > 0
  {
    if len <= mss then 1 else (len + mss - 1) / mss
  }

  predicate CanExtend(queue: seq<Seg>, mss: int) {
    queue != [] && |queue[|queue| - 1].data| < mss
  }

  function TailRoom(queue: seq<Seg>, mss: int, data: seq<Byte>): (n: nat)
    requires CanExtend(queue, mss)
    ensures n <= |data|
  {
    Min(|data|, mss - |queue[|queue| - 1].data|)
  }

  /** Stream mode: the last queued segment is replaced by a longer one. */
  function ExtendTail(queue: seq<Seg>, mss: int, data: seq<Byte>): seq<Seg>
    requires CanExtend(queue, mss)
  {
    var l := |queue| - 1;
    queue[..l] + [NewSeg(0, queue[l].data + data[..TailRoom(queue, mss, data)])]
  }

  /** ikcp_send: the new queue and the return value. */
  function Send(queue: seq<Seg>, mss: int, stream: bool, data: seq<Byte>): (seq<Seg>, int)
    requires mss > 0
  {
    var extend := stream && CanExtend(queue, mss);
    var q := if extend then ExtendTail(queue, mss, data) else queue;
    var rest := if extend then data[TailRoom(queue, mss, data)..] else data;
    if stream && rest == [] then (q, 0)
    else
      var count := FragmentCount(mss, |rest|);
      if count >= WND_RCV then (q, -2) else (q + Fragments(mss, rest, count, stream), 0)
  }

  // ----- output -----

  /** ikcp_wnd_unused. */
  function WndUnused(s: Kcb): int {
    if |s.rcv.queue| < s.cfg.rcvWnd then s.cfg.rcvWnd - |s.rcv.queue| else 0
  }

  /** What every segment of one flush carries. */
  datatype Stamp = Stamp(conv: int, wnd: int, una: int, current: int)

  function StampOf(s: Kcb): Stamp {
    Stamp(s.cfg.conv, WndUnused(s), s.rcv.nxt, s.clock.current)
  }

  /** The control segment ikcp_flush reuses for acks and probes. */
  function ControlSeg(p: Stamp, cmd: int, a: Ack): Seg {
    Seg(p.conv, cmd, 0, p.wnd, a.ts, a.sn, p.una, [], 0, 0, 0, 0)
  }

  function AckSegs(p: Stamp, acks: seq<Ack>): (r: seq<Seg>)
    ensures |r| == |acks|
  {
    seq(|acks|, i requires 0 <= i < |acks| => ControlSeg(p, CMD_ACK, acks[i]))
  }

  /** Probes repeat the numbers of the last acknowledgement. */
  function LastAck(acks: seq<Ack>): Ack {
    if acks == [] then Ack(0, 0) else acks[|acks| - 1]
  }

  /** Lines 967-986. */
  function ProbeTimer(p: Probe, rmtWnd: int, current: int): Probe {
    if rmtWnd != 0 then p.(ts := 0, wait := 0)
    else if p.wait == 0 then p.(wait := PROBE_INIT, ts := Wrap32(current + PROBE_INIT))
    else if TimeDiff(current, p.ts) >= 0 then
      var w := if p.wait < PROBE_INIT then PROBE_INIT else p.wait;
      var v := Wrap32(w + w / 2);
      var wait := if v > PROBE_LIMIT then PROBE_LIMIT else v;
      Probe(true, p.tell, Wrap32(current + wait), wait)
    else p
  }

  function ProbeSegs(st: Stamp, p: Probe, a: Ack): seq<Seg> {
    (if p.ask then [ControlSeg(st, CMD_WASK, a)] else []) + (if p.tell then [ControlSeg(st, CMD_WINS, a)] else [])
  }

  /** Lines 1013-1014. */
  function SendWindow(s: Kcb): int {
    var w := Min(s.cfg.sndWnd, s.rmtWnd);
    if s.cfg.nocwnd == 0 then Min(s.cong.cwnd, w) else w
  }

  /** A segment entering snd_buf. */
  function Launch(p: Stamp, sn: int, rto: int, x: Seg): Seg {
    x.(conv := p.conv, cmd := CMD_PUSH, wnd := p.wnd, ts := p.current, sn := sn, una := p.una,
       resendts := p.current, rto := rto, fastack := 0, xmit := 0)
  }

  /** Lines 1017-1038. */
  function FillBuf(m: Mode, p: Stamp, rto: int, s: Snd, cwnd: int): Snd
    decreases |s.queue|
  {
    if Diff(m, s.nxt, Norm(m, s.una + cwnd)) < 0 && s.queue != [] then
      var x := Launch(p, s.nxt, rto, s.queue[0]);
      FillBuf(m, p, rto, Snd(s.una, Norm(m, s.nxt + 1), s.queue[1..], s.buf + [x]), cwnd)
    else s
  }

  datatype Reason = Keep | First | Timeout | Fast

  function Resent(fastresend: int): int {
    if fastresend > 0 then fastresend else U32 - 1
  }

  /** The timing parameters of one flush. */
  datatype Pace = Pace(current: int, rto: int, rtomin: int, backoff: int, resent: int, fastlimit: int, deadLink: int)

  function PaceOf(s: Kcb): Pace {
    Pace(s.clock.current, s.rtt.rto, if s.cfg.nodelay == 0 then s.rtt.rto / 8 else 0,
         if s.cfg.nodelay == 0 then s.rtt.rto else s.rtt.rto / 2,
         Resent(s.cfg.fastresend), s.cfg.fastlimit, s.cfg.deadLink)
  }

  /** Whether and why a segment is sent now (lines 1048-1075). */
  function WhySend(p: Pace, x: Seg): Reason {
    if x.xmit == 0 then First
    else if TimeDiff(p.current, x.resendts) >= 0 then Timeout
    else if x.fastack >= p.resent && (Signed32(x.xmit) <= p.fastlimit || p.fastlimit <= 0) then Fast
    else Keep
  }

  function Schedule(p: Pace, x: Seg): Seg {
    match WhySend(p, x) {
      case Keep => x
      case First => x.(xmit := Wrap32(x.xmit + 1), rto := p.rto, resendts := Wrap32(p.current + p.rto + p.rtomin))
      case Timeout =>
        var rto := Wrap32(x.rto + p.backoff);
        x.(xmit := Wrap32(x.xmit + 1), rto := rto, resendts := Wrap32(p.current + rto))
      case Fast => x.(xmit := Wrap32(x.xmit + 1), fastack := 0, resendts := Wrap32(p.current + x.rto))
    }
  }

  function Resend(st: Stamp, p: Pace, x: Seg): Seg {
    if WhySend(p, x) == Keep then x else Schedule(p, x).(ts := st.current, wnd := st.wnd, una := st.una)
  }

  /** The pass over snd_buf: the updated segments, those sent, and what
      happened on the way. */
  datatype Sweep = Sweep(buf: seq<Seg>, sent: seq<Seg>, lost: nat, change: nat, dead: bool)

  function SweepStep(st: Stamp, p: Pace, w: Sweep, x: Seg): (v: Sweep)
    ensures |v.buf| == |w.buf| + 1
  {
    var why, y := WhySend(p, x), Resend(st, p, x);
    Sweep(w.buf + [y],
          if why == Keep then w.sent else w.sent + [y],
          if why == Timeout then w.lost + 1 else w.lost,
          if why == Fast then w.change + 1 else w.change,
          w.dead || (why != Keep && y.xmit >= p.deadLink))
  }

  function SweepAll(st: Stamp, p: Pace, buf: seq<Seg>): (w: Sweep)
    ensures |w.buf| == |buf|
  {
    if buf == [] then Sweep([], [], 0, 0, false)
    else SweepStep(st, p, SweepAll(st, p, buf[..|buf| - 1]), buf[|buf| - 1])
  }

  /** Lines 1110-1131. */
  function AfterLoss(c: Congestion, inflight: int, resent: int, cwnd: int, mss: int, w: Sweep): Congestion {
    var d :=
      if w.change > 0 then
        var thresh := if inflight / 2 < THRESH_MIN then THRESH_MIN else inflight / 2;
        Congestion(Wrap32(thresh + resent), Wrap32(Wrap32(thresh + resent) * mss), thresh)
      else c;
    var e := if w.lost > 0 then Congestion(1, mss, if cwnd / 2 < THRESH_MIN then THRESH_MIN else cwnd / 2) else d;
    if e.cwnd < 1 then e.(cwnd := 1, incr := mss) else e
  }

  function WireLen(x: Seg): nat {
    OVERHEAD + |x.data|
  }

  function GroupLen(p: seq<Seg>): (n: nat)
    ensures n == 0 <==> p == []
  {
    if p == [] then 0 else GroupLen(p[..|p| - 1]) + WireLen(p[|p| - 1])
  }

  /** Datagrams are cut as segments are appended: a segment that would pass the
      mtu first sends what is in the buffer, if anything. */
  datatype Cut = Cut(out: seq<seq<Seg>>, cur: seq<Seg>)

  function Append(mtu: int, c: Cut, x: Seg): Cut {
    if GroupLen(c.cur) + WireLen(x) > mtu then Cut(Emit(c), [x]) else Cut(c.out, c.cur + [x])
  }

  /** ikcp_output ignores an empty buffer. */
  function Emit(c: Cut): seq<seq<Seg>> {
    if c.cur == [] then c.out else c.out + [c.cur]
  }

  function AppendAll(mtu: int, c: Cut, xs: seq<Seg>): Cut {
    if xs == [] then c else Append(mtu, AppendAll(mtu, c, xs[..|xs| - 1]), xs[|xs| - 1])
  }

  /** Everything one flush sends, in order, and the state it leaves. */
  datatype Plan = Plan(s: Kcb, segs: seq<Seg>)

  function FlushPlan(m: Mode, s: Kcb): Plan {
    var st := StampOf(s);
    var probe := ProbeTimer(s.probe, s.rmtWnd, s.clock.current);
    var cwnd := SendWindow(s);
    var snd := FillBuf(m, st, s.rtt.rto, s.snd, cwnd);
    var w := SweepAll(st, PaceOf(s), snd.buf);
    Plan(s.(acklist := [], probe := probe.(ask := false, tell := false), snd := snd.(buf := w.buf),
            xmit := Wrap32(s.xmit + w.lost), state := if w.dead then U32 - 1 else s.state,
            cong := AfterLoss(s.cong, Norm(m, snd.nxt - snd.una), Resent(s.cfg.fastresend), cwnd, s.cfg.mss, w)),
         AckSegs(st, s.acklist) + ProbeSegs(st, probe, LastAck(s.acklist)) + w.sent)
  }

  function Packets(mtu: int, segs: seq<Seg>): seq<seq<Seg>> {
    Emit(AppendAll(mtu, Cut([], []), segs))
  }

  /** ikcp_flush: nothing before the first ikcp_update. */
  function Flush(m: Mode, s: Kcb): (Kcb, seq<seq<Seg>>) {
    if !s.clock.updated then (s, [])
    else
      var p := FlushPlan(m, s);
      (p.s, Packets(s.cfg.mtu, p.segs))
  }

  /** ikcp_encode_seg and the payload; every field is cut to its width. */
  function Encode(x: Seg): (b: seq<Byte>)
    ensures |b| == WireLen(x)
  {
    var cmd: int, frg: int := x.cmd % 256, x.frg % 256;
    Le32(Wrap32(x.conv)) + [cmd, frg] + Le16(x.wnd % U16) + Le32(Wrap32(x.ts)) + Le32(Wrap32(x.sn))
    + Le32(Wrap32(x.una)) + Le32(Wrap32(|x.data|)) + x.data
  }

  /** The bytes of one datagram. */
  function EncodeGroup(p: seq<Seg>): (b: seq<Byte>)
    ensures |b| == GroupLen(p)
  {
    if p == [] then [] else EncodeGroup(p[..|p| - 1]) + Encode(p[|p| - 1])
  }

  function EncodeAll(ps: seq<seq<Seg>>): (bs: seq<seq<Byte>>)
    ensures |bs| == |ps| && forall i :: 0 <= i < |ps| ==> bs[i] == EncodeGroup(ps[i])
  {
    seq(|ps|, i requires 0 <= i < |ps| => EncodeGroup(ps[i]))
  }

  // ----- clock -----

  /** ikcp_update without its flush: the clock, and whether it flushes. */
  function Tick(c: Clock, interval: int, t: int): (Clock, bool) {
    var ts0 := if c.updated then c.tsFlush else t;
    var slap0 := TimeDiff(t, ts0);
    var far := slap0 >= 10000 || slap0 < -10000;
    var ts, slap := if far then t else ts0, if far then 0 else slap0;
    if slap >= 0 then
      var next := Wrap32(ts + interval);
      (Clock(t, if TimeDiff(t, next) >= 0 then Wrap32(t + interval) else next, true), true)
    else (Clock(t, ts, true), false)
  }

  /** ikcp_update. */
  function Update(m: Mode, s: Kcb, t: int): (Kcb, seq<seq<Seg>>) {
    var (c, due) := Tick(s.clock, s.cfg.interval, t);
    if due then Flush(m, s.(clock := c)) else (s.(clock := c), [])
  }

  /** The smallest time to a resend, as the loop of ikcp_check finds it. */
  function NearestResend(buf: seq<Seg>, t: int): int {
    if buf == [] then I32 - 1 else Min(NearestResend(buf[..|buf| - 1], t), TimeDiff(buf[|buf| - 1].resendts, t))
  }

  /** ikcp_check. */
  function Check(s: Kcb, t: int): int {
    var flush := TimeDiff(t, s.clock.tsFlush);
    if !s.clock.updated || flush >= 0 || flush < -10000 then t
    else
      var packet := NearestResend(s.snd.buf, t);
      if packet <= 0 then t
      else Wrap32(t + Min(Min(packet, TimeDiff(s.clock.tsFlush, t)), s.cfg.interval))
  }
}
