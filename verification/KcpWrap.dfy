/** The 32-bit program follows the exact one: as long as no compared numbers
    are 2^31 or more apart, cutting an exact state to 32 bits and then taking
    a step is the same as taking the step first. */
module KcpWrap {
  import opened Bytes
  import opened KcpModel
  import opened KcpSender
  import opened KcpReceiver
  import opened KcpEndpoint
  import opened KcpWire

  // ----- cutting to 32 bits -----

  function CutSeg(x: Seg): Seg {
    x.(sn := Wrap32(x.sn), una := Wrap32(x.una))
  }

  function CutSegs(q: seq<Seg>): (r: seq<Seg>)
    ensures |r| == |q| && forall i :: 0 <= i < |q| ==> r[i] == CutSeg(q[i])
  {
    seq(|q|, i requires 0 <= i < |q| => CutSeg(q[i]))
  }

  function CutAcks(q: seq<Ack>): (r: seq<Ack>)
    ensures |r| == |q| && forall i :: 0 <= i < |q| ==> r[i] == Ack(Wrap32(q[i].sn), q[i].ts)
  {
    seq(|q|, i requires 0 <= i < |q| => Ack(Wrap32(q[i].sn), q[i].ts))
  }

  function CutSnd(s: Snd): Snd {
    Snd(Wrap32(s.una), Wrap32(s.nxt), s.queue, CutSegs(s.buf))
  }

  function CutRcv(r: Rcv): Rcv {
    Rcv(Wrap32(r.nxt), CutSegs(r.queue), CutSegs(r.buf))
  }

  function CutKcb(s: Kcb): Kcb {
    s.(snd := CutSnd(s.snd), rcv := CutRcv(s.rcv), acklist := CutAcks(s.acklist))
  }

  function CutTrack(f: Track): Track {
    f.(maxack := Wrap32(f.maxack))
  }

  function CutPackets(ps: seq<seq<Seg>>): (r: seq<seq<Seg>>)
    ensures |r| == |ps| && forall i :: 0 <= i < |ps| ==> r[i] == CutSegs(ps[i])
  {
    seq(|ps|, i requires 0 <= i < |ps| => CutSegs(ps[i]))
  }

  // ----- arithmetic -----

  predicate Close(x: int, y: int) {
    -I32 <= x - y < I32
  }

  lemma DiffAgrees(x: int, y: int)
    requires Close(x, y)
    ensures Diff(Wrap, Wrap32(x), Wrap32(y)) == Diff(Exact, x, y)
  {
    hide Wrap32;
    var j := WrapSplit(x);
    var k := WrapSplit(y);
    WrapIs(Wrap32(x) - Wrap32(y), if x >= y then k - j else k - j - 1, if x >= y then x - y else x - y + U32);
  }

  lemma EqAgrees(x: int, y: int)
    requires Close(x, y)
    ensures Wrap32(x) == Wrap32(y) <==> x == y
  {
    hide Wrap32;
    var j := WrapSplit(x);
    var k := WrapSplit(y);
  }

  lemma WrapAdd(x: int, d: int)
    ensures Wrap32(Wrap32(x) + d) == Wrap32(x + d)
  {
    hide Wrap32;
    var j := WrapSplit(x);
    var k := WrapSplit(x + d);
    WrapIs(Wrap32(x) + d, k - j, Wrap32(x + d));
  }

  // ----- lists -----

  lemma CutFirst(q: seq<Seg>)
    requires q != []
    ensures CutSegs(q)[1..] == CutSegs(q[1..]) && CutSegs(q)[0] == CutSeg(q[0])
  {
  }

  lemma CutLast(q: seq<Seg>)
    requires q != []
    ensures CutSegs(q)[..|q| - 1] == CutSegs(q[..|q| - 1]) && CutSegs(q)[|q| - 1] == CutSeg(q[|q| - 1])
  {
  }

  lemma CutConcat(p: seq<Seg>, q: seq<Seg>)
    ensures CutSegs(p + q) == CutSegs(p) + CutSegs(q)
  {
  }

  lemma CutOne(x: Seg)
    ensures CutSegs([x]) == [CutSeg(x)]
  {
  }

  lemma CutFrom(q: seq<Seg>, n: nat)
    requires n <= |q|
    ensures CutSegs(q)[n..] == CutSegs(q[n..]) && CutSegs(q)[..n] == CutSegs(q[..n])
  {
  }

  /** Every number in buf may be compared with v. */
  predicate AllClose(v: int, buf: seq<Seg>) {
    forall i :: 0 <= i < |buf| ==> Close(v, buf[i].sn)
  }

  // ----- acknowledgements -----

  lemma {:induction false} CutParseUna(buf: seq<Seg>, una: int)
    requires AllClose(una, buf)
    ensures ParseUna(Wrap, CutSegs(buf), Wrap32(una)) == CutSegs(ParseUna(Exact, buf, una))
    decreases |buf|
  {
    hide Wrap32, Diff;
    if buf != [] {
      CutFirst(buf);
      DiffAgrees(una, buf[0].sn);
      CutParseUna(buf[1..], una);
    }
  }

  lemma {:induction false} CutRemoveSn(buf: seq<Seg>, sn: int)
    requires AllClose(sn, buf)
    ensures RemoveSn(Wrap, CutSegs(buf), Wrap32(sn)) == CutSegs(RemoveSn(Exact, buf, sn))
    decreases |buf|
  {
    hide Wrap32, Diff;
    if buf != [] {
      CutFirst(buf);
      DiffAgrees(sn, buf[0].sn);
      EqAgrees(sn, buf[0].sn);
      CutRemoveSn(buf[1..], sn);
      CutOne(buf[0]);
      CutConcat([buf[0]], RemoveSn(Exact, buf[1..], sn));
    }
  }

  lemma {:induction false} CutBump(buf: seq<Seg>, sn: int)
    requires AllClose(sn, buf)
    ensures BumpFastack(Wrap, CutSegs(buf), Wrap32(sn)) == CutSegs(BumpFastack(Exact, buf, sn))
    decreases |buf|
  {
    hide Wrap32, Diff;
    if buf != [] {
      CutFirst(buf);
      DiffAgrees(sn, buf[0].sn);
      EqAgrees(sn, buf[0].sn);
      CutBump(buf[1..], sn);
      var x := if sn != buf[0].sn then buf[0].(fastack := Wrap32(buf[0].fastack + 1)) else buf[0];
      CutOne(x);
      CutConcat([x], BumpFastack(Exact, buf[1..], sn));
    }
  }

  lemma CutShrink(buf: seq<Seg>, nxt: int)
    ensures ShrinkBuf(CutSegs(buf), Wrap32(nxt)) == Wrap32(ShrinkBuf(buf, nxt))
  {
    hide Wrap32;
  }

  /** v is at most 2^31 - 2^18 behind base and at most 2^17 ahead. */
  predicate Live(base: int, v: int) {
    base - (I32 - 4 * U16) <= v <= base + 2 * U16
  }

  /** A sender whose window lies within 2^16 of base. */
  predicate SndNear(base: int, s: Snd) {
    base <= s.una <= s.nxt <= base + U16 && SndOk(Exact, s, U16 - 1)
  }

  lemma NearClose(base: int, s: Snd, v: int)
    requires SndNear(base, s) && Live(base, v)
    ensures AllClose(v, s.buf) && Close(v, s.una) && Close(v, s.nxt)
  {
    hide Rising;
    forall i | 0 <= i < |s.buf| ensures Close(v, s.buf[i].sn) {
      RisingAt(Exact, s.una, 0, s.buf, InFlight(Exact, s), i);
    }
  }

  lemma CutDropUna(base: int, s: Snd, una: int)
    requires SndNear(base, s) && Live(base, una)
    ensures DropUna(Wrap, CutSnd(s), Wrap32(una)) == CutSnd(DropUna(Exact, s, una))
      && SndNear(base, DropUna(Exact, s, una))
  {
    hide Wrap32, Diff, Rising, ParseUna, ShrinkBuf;
    NearClose(base, s, una);
    CutParseUna(s.buf, una);
    CutShrink(ParseUna(Exact, s.buf, una), s.nxt);
    DropUnaKeeps(Exact, s, U16 - 1, una);
  }

  lemma CutDropAck(base: int, s: Snd, sn: int)
    requires SndNear(base, s) && Live(base, sn)
    ensures DropAck(Wrap, CutSnd(s), Wrap32(sn)) == CutSnd(DropAck(Exact, s, sn))
      && SndNear(base, DropAck(Exact, s, sn))
  {
    hide Wrap32, Diff, Rising, RemoveSn, ShrinkBuf;
    NearClose(base, s, sn);
    CutRemoveSn(s.buf, sn);
    DiffAgrees(sn, s.una);
    DiffAgrees(sn, s.nxt);
    CutShrink(ParseAck(Exact, s.buf, s.una, s.nxt, sn), s.nxt);
    DropAckKeeps(Exact, s, U16 - 1, sn);
  }

  lemma CutFastack(base: int, s: Snd, sn: int)
    requires SndNear(base, s) && Live(base, sn)
    ensures ParseFastack(Wrap, CutSegs(s.buf), Wrap32(s.una), Wrap32(s.nxt), Wrap32(sn)) ==
      CutSegs(ParseFastack(Exact, s.buf, s.una, s.nxt, sn))
  {
    hide Wrap32, Diff, Rising, BumpFastack;
    NearClose(base, s, sn);
    CutBump(s.buf, sn);
    DiffAgrees(sn, s.una);
    DiffAgrees(sn, s.nxt);
  }

  // ----- reassembly -----

  lemma {:induction false} CutInsert(buf: seq<Seg>, x: Seg)
    requires AllClose(x.sn, buf)
    ensures InsertSeg(Wrap, CutSegs(buf), CutSeg(x)) == CutSegs(InsertSeg(Exact, buf, x))
    decreases |buf|
  {
    hide Wrap32, Diff;
    CutOne(x);
    if buf != [] {
      var l := |buf| - 1;
      CutLast(buf);
      DiffAgrees(x.sn, buf[l].sn);
      EqAgrees(x.sn, buf[l].sn);
      CutInsert(buf[..l], x);
      CutConcat(buf, [x]);
      CutOne(buf[l]);
      CutConcat(InsertSeg(Exact, buf[..l], x), [buf[l]]);
    }
  }

  lemma {:induction false} CutMoveReady(wnd: int, r: Rcv)
    requires forall i :: 0 <= i < |r.buf| ==> r.nxt <= r.buf[i].sn < r.nxt + U16
    requires Rising(Exact, r.nxt, 0, r.buf, U16)
    ensures MoveReady(Wrap, wnd, CutRcv(r)) == CutRcv(MoveReady(Exact, wnd, r))
    decreases |r.buf|
  {
    hide Wrap32;
    if r.buf != [] {
      CutFirst(r.buf);
      EqAgrees(r.buf[0].sn, r.nxt);
      if r.buf[0].sn == r.nxt && |r.queue| < wnd {
        var t := Rcv(r.nxt + 1, r.queue + [r.buf[0]], r.buf[1..]);
        CutConcat(r.queue, [r.buf[0]]);
        CutOne(r.buf[0]);
        WrapAdd(r.nxt, 1);
        RisingRebase(Exact, r.nxt, t.nxt, 1, t.buf, U16);
        RisingUpper(Exact, t.nxt, 0, t.buf, U16 - 1, U16);
        forall i | 0 <= i < |t.buf| ensures t.nxt <= t.buf[i].sn < t.nxt + U16 {
          RisingAt(Exact, t.nxt, 0, t.buf, U16, i);
        }
        CutMoveReady(wnd, t);
      }
    }
  }

  lemma CutAccept(wnd: int, r: Rcv, x: Seg)
    requires RcvOk(Exact, wnd, r) && Close(x.sn, r.nxt) && Close(x.sn, r.nxt + wnd)
    ensures Accept(Wrap, wnd, CutRcv(r), CutSeg(x)) == CutRcv(Accept(Exact, wnd, r, x))
  {
    hide Wrap32, Diff, MoveReady, InsertSeg, Rising, Insert;
    DiffAgrees(x.sn, r.nxt);
    DiffAgrees(x.sn, r.nxt + wnd);
    WrapAdd(r.nxt, wnd);
    ExactDiff(x.sn, r.nxt);
    ExactDiff(x.sn, r.nxt + wnd);
    if r.nxt <= x.sn < r.nxt + wnd {
      forall i | 0 <= i < |r.buf| ensures Close(x.sn, r.buf[i].sn) {
        RisingAt(Exact, r.nxt, 0, r.buf, wnd, i);
      }
      CutInsert(r.buf, x);
      BackwardSearch(Exact, r.nxt, 0, r.buf, wnd, x);
      InsertRises(Exact, r.nxt, 0, r.buf, wnd, x);
      var buf := InsertSeg(Exact, r.buf, x);
      RisingUpper(Exact, r.nxt, 0, buf, wnd, U16);
      forall i | 0 <= i < |buf| ensures r.nxt <= buf[i].sn < r.nxt + U16 {
        RisingAt(Exact, r.nxt, 0, buf, U16, i);
      }
      CutMoveReady(wnd, r.(buf := buf));
    }
  }

  lemma ExactDiff(x: int, y: int)
    ensures Diff(Exact, x, y) == x - y
  {
  }

  // ----- input -----

  /** Every number of x is close enough to the counters it is compared with. */
  predicate SegLive(una: int, nxt: int, x: Seg) {
    Live(una, x.una) && (x.cmd == CMD_ACK ==> Live(una, x.sn)) && (x.cmd == CMD_PUSH ==> Live(nxt, x.sn))
  }

  /** A control block whose windows lie within 2^16 of the two bases. */
  predicate KcbNear(una: int, nxt: int, s: Kcb) {
    SndNear(una, s.snd) && 0 < s.cfg.rcvWnd < U16 && RcvOk(Exact, s.cfg.rcvWnd, s.rcv)
    && nxt <= s.rcv.nxt && s.rcv.nxt - |s.rcv.queue| <= nxt
  }

  lemma AcceptAdvances(wnd: int, r: Rcv, x: Seg)
    requires RcvOk(Exact, wnd, r)
    ensures var t := Accept(Exact, wnd, r, x); r.nxt <= t.nxt && t.nxt - |t.queue| == r.nxt - |r.queue|
  {
    hide Rising, InsertSeg, MoveReady;
    var n := MoveReadyMoves(Exact, wnd, r.(buf := InsertSeg(Exact, r.buf, x)));
  }

  lemma CutTakePush(una: int, nxt: int, s: Kcb, x: Seg)
    requires KcbNear(una, nxt, s) && Live(nxt, x.sn)
    ensures TakePush(Wrap, CutKcb(s), CutSeg(x)) == CutKcb(TakePush(Exact, s, x))
      && KcbNear(una, nxt, TakePush(Exact, s, x))
  {
    hide Wrap32, Diff, Accept, SndNear, Rising;
    var wnd := s.cfg.rcvWnd;
    DiffAgrees(x.sn, s.rcv.nxt + wnd);
    DiffAgrees(x.sn, s.rcv.nxt);
    WrapAdd(s.rcv.nxt, wnd);
    CutAccept(wnd, s.rcv, x);
    AcceptKeeps(Exact, wnd, s.rcv, x);
    AcceptAdvances(wnd, s.rcv, x);
    AcksConcat(s.acklist, Ack(x.sn, x.ts));
  }

  lemma AcksConcat(q: seq<Ack>, a: Ack)
    ensures CutAcks(q + [a]) == CutAcks(q) + [Ack(Wrap32(a.sn), a.ts)]
  {
  }

  lemma CutProcessSeg(una: int, nxt: int, s: Kcb, x: Seg)
    requires KcbNear(una, nxt, s) && SegLive(una, nxt, x)
    ensures ProcessSeg(Wrap, CutKcb(s), CutSeg(x)) == CutKcb(ProcessSeg(Exact, s, x))
      && KcbNear(una, nxt, ProcessSeg(Exact, s, x))
  {
    hide Wrap32, Diff, TakePush, DropUna, DropAck, UpdateAck, CutSnd, CutRcv, CutAcks, SndNear, RcvOk, Live;
    CutDropUna(una, s.snd, x.una);
    var t := s.(rmtWnd := x.wnd, snd := DropUna(Exact, s.snd, x.una));
    if x.cmd == CMD_ACK {
      CutDropAck(una, t.snd, x.sn);
    } else if x.cmd == CMD_PUSH {
      CutTakePush(una, nxt, t, x);
    }
  }

  predicate TrackLive(una: int, f: Track) {
    f.flag ==> Live(una, f.maxack)
  }

  lemma CutTrackSeg(una: int, f: Track, x: Seg)
    requires TrackLive(una, f) && (x.cmd == CMD_ACK ==> Live(una, x.sn))
    ensures TrackSeg(Wrap, CutTrack(f), CutSeg(x)) == CutTrack(TrackSeg(Exact, f, x))
      && TrackLive(una, TrackSeg(Exact, f, x))
  {
    hide Wrap32, Diff;
    if x.cmd == CMD_ACK && f.flag {
      DiffAgrees(x.sn, f.maxack);
    }
  }

  lemma {:induction false} CutReadAll(una: int, nxt: int, s: Kcb, f: Track, xs: seq<Seg>)
    requires KcbNear(una, nxt, s) && TrackLive(una, f)
    requires forall i :: 0 <= i < |xs| ==> SegLive(una, nxt, xs[i])
    ensures var r := ReadAll(Exact, s, f, xs);
      ReadAll(Wrap, CutKcb(s), CutTrack(f), CutSegs(xs)) == Scan(CutKcb(r.s), CutTrack(r.f), r.code)
      && KcbNear(una, nxt, r.s) && TrackLive(una, r.f)
    decreases |xs|
  {
    hide Wrap32, ProcessSeg, TrackSeg, CutKcb, CutTrack, KcbNear, TrackLive, Live;
    if xs != [] {
      CutFirst(xs);
      assert SegLive(una, nxt, xs[0]);
      CutProcessSeg(una, nxt, s, xs[0]);
      CutTrackSeg(una, f, xs[0]);
      forall i | 0 <= i < |xs[1..]| ensures SegLive(una, nxt, xs[1..][i]) {
        assert SegLive(una, nxt, xs[i + 1]);
      }
      CutReadAll(una, nxt, ProcessSeg(Exact, s, xs[0]), TrackSeg(Exact, f, xs[0]), xs[1..]);
    }
  }

  lemma CutFinish(una: int, nxt: int, s: Kcb, prevUna: int, f: Track)
    requires KcbNear(una, nxt, s) && TrackLive(una, f) && prevUna == una
    ensures InputFinish(Wrap, CutKcb(s), Wrap32(prevUna), CutTrack(f)) == CutKcb(InputFinish(Exact, s, prevUna, f))
  {
    hide Wrap32, Diff, ParseFastack, GrowWindow, RcvOk, Rising;
    DiffAgrees(s.snd.una, prevUna);
    if f.flag {
      CutFastack(una, s.snd, f.maxack);
    }
  }

  /** Reading a datagram and its padding. */
  lemma CutReadGroup(s: Kcb, xs: seq<Seg>, z: nat)
    requires BlockOk(Exact, s) && forall i :: 0 <= i < |xs| ==> SegLive(s.snd.una, s.rcv.nxt, xs[i])
    ensures ReadGroup(Wrap, CutKcb(s), CutSegs(xs), z) == CutKcb(ReadGroup(Exact, s, xs, z))
  {
    hide Wrap32, ReadAll, InputFinish, Rising, CutSegs, CutAcks, CutRcv, KcbNear, SegLive;
    BlockNear(s);
    StartTrack();
    CutReadAll(s.snd.una, s.rcv.nxt, s, Track(false, 0), xs);
    var r := ReadAll(Exact, s, Track(false, 0), xs);
    CutFinish(s.snd.una, s.rcv.nxt, r.s, s.snd.una, r.f);
  }

  lemma StartTrack()
    ensures CutTrack(Track(false, 0)) == Track(false, 0)
  {
  }

  lemma BlockNear(s: Kcb)
    requires BlockOk(Exact, s)
    ensures KcbNear(s.snd.una, s.rcv.nxt, s)
  {
    hide Rising;
  }

  // ----- the application -----

  lemma {:induction false} CutPeek(q: seq<Seg>)
    ensures PeekLen(CutSegs(q)) == PeekLen(q) && MergeCount(CutSegs(q)) == MergeCount(q)
      && Merge(CutSegs(q)) == Merge(q)
    ensures PeekSize(CutSegs(q)) == PeekSize(q)
    decreases |q|
  {
    if q != [] {
      CutFirst(q);
      CutPeek(q[1..]);
    }
  }

  lemma CutRecv(s: Kcb, len: int)
    requires BlockOk(Exact, s)
    ensures var (k, code, data) := Recv(Exact, s, len); Recv(Wrap, CutKcb(s), len) == (CutKcb(k), code, data)
  {
    hide Wrap32, MoveReady, PeekSize, Merge, MergeCount, Rising, CutSegs, CutAcks;
    var q := s.rcv.queue;
    CutPeek(q);
    var n := MergeCount(q);
    CutFrom(q, n);
    CutPeek(q[..n]);
    CutSettle(s.cfg.rcvWnd, s.rcv.(queue := if len < 0 then q else q[n..]));
  }

  lemma CutSettle(wnd: int, r: Rcv)
    requires RcvOk(Exact, wnd, r)
    ensures MoveReady(Wrap, wnd, CutRcv(r)) == CutRcv(MoveReady(Exact, wnd, r))
  {
    hide Wrap32, Rising;
    RisingUpper(Exact, r.nxt, 0, r.buf, wnd, U16);
    forall i | 0 <= i < |r.buf| ensures r.nxt <= r.buf[i].sn < r.nxt + U16 {
      RisingAt(Exact, r.nxt, 0, r.buf, U16, i);
    }
    CutMoveReady(wnd, r);
  }

  // ----- flush -----

  function CutStamp(p: Stamp): Stamp {
    p.(una := Wrap32(p.una))
  }

  function CutSweep(w: Sweep): Sweep {
    w.(buf := CutSegs(w.buf), sent := CutSegs(w.sent))
  }

  lemma {:induction false} CutFill(p: Stamp, rto: int, s: Snd, cwnd: int)
    requires SndOk(Exact, s, U16 - 1) && 0 <= cwnd < U16
    ensures FillBuf(Wrap, CutStamp(p), rto, CutSnd(s), cwnd) == CutSnd(FillBuf(Exact, p, rto, s, cwnd))
    decreases |s.queue|
  {
    hide Wrap32, Diff, Rising;
    WrapAdd(s.una, cwnd);
    DiffAgrees(s.nxt, s.una + cwnd);
    if Diff(Exact, s.nxt, Norm(Exact, s.una + cwnd)) < 0 && s.queue != [] {
      var x := Launch(p, s.nxt, rto, s.queue[0]);
      var t := Snd(s.una, s.nxt + 1, s.queue[1..], s.buf + [x]);
      WrapAdd(s.nxt, 1);
      CutConcat(s.buf, [x]);
      CutOne(x);
      RisingAppend(Exact, s.una, 0, s.buf, InFlight(Exact, s), x);
      ExactDiff(s.nxt, s.una + cwnd);
      CutFill(p, rto, t, cwnd);
    }
  }

  lemma {:induction false} CutSweepAll(st: Stamp, p: Pace, buf: seq<Seg>)
    ensures SweepAll(CutStamp(st), p, CutSegs(buf)) == CutSweep(SweepAll(st, p, buf))
  {
    hide Wrap32, Schedule, Resend, WhySend;
    if buf != [] {
      var l := |buf| - 1;
      CutLast(buf);
      CutSweepAll(st, p, buf[..l]);
      CutResend(st, p, buf[l]);
      var y, w := Resend(st, p, buf[l]), SweepAll(st, p, buf[..l]);
      CutOne(y);
      CutConcat(w.buf, [y]);
      CutConcat(w.sent, [y]);
    }
  }

  lemma CutResend(st: Stamp, p: Pace, x: Seg)
    ensures Resend(CutStamp(st), p, CutSeg(x)) == CutSeg(Resend(st, p, x)) && WhySend(p, CutSeg(x)) == WhySend(p, x)
    ensures Resend(st, p, x).xmit == CutSeg(Resend(st, p, x)).xmit
  {
    hide Wrap32, TimeDiff;
  }

  lemma CutControl(st: Stamp, p: Probe, acks: seq<Ack>)
    ensures AckSegs(CutStamp(st), CutAcks(acks)) + ProbeSegs(CutStamp(st), p, LastAck(CutAcks(acks)))
            == CutSegs(AckSegs(st, acks) + ProbeSegs(st, p, LastAck(acks)))
  {
    hide Wrap32;
    WrapIs(0, 0, 0);
    var a := LastAck(acks);
    assert LastAck(CutAcks(acks)) == Ack(Wrap32(a.sn), a.ts);
    assert AckSegs(CutStamp(st), CutAcks(acks)) == CutSegs(AckSegs(st, acks));
    assert ProbeSegs(CutStamp(st), p, LastAck(CutAcks(acks))) == CutSegs(ProbeSegs(st, p, a));
    CutConcat(AckSegs(st, acks), ProbeSegs(st, p, a));
  }

  // ----- datagrams -----

  lemma {:induction false} CutGroupLen(p: seq<Seg>)
    ensures GroupLen(CutSegs(p)) == GroupLen(p)
  {
    if p != [] {
      CutLast(p);
      CutGroupLen(p[..|p| - 1]);
    }
  }

  function CutCut(c: Cut): Cut {
    Cut(CutPackets(c.out), CutSegs(c.cur))
  }

  lemma CutPacketsLast(ps: seq<seq<Seg>>, p: seq<Seg>)
    ensures CutPackets(ps + [p]) == CutPackets(ps) + [CutSegs(p)]
  {
  }

  lemma CutEmit(c: Cut)
    ensures Emit(CutCut(c)) == CutPackets(Emit(c))
  {
    CutPacketsLast(c.out, c.cur);
  }

  lemma CutAppend(mtu: int, c: Cut, x: Seg)
    ensures Append(mtu, CutCut(c), CutSeg(x)) == CutCut(Append(mtu, c, x))
  {
    hide GroupLen, Emit;
    CutGroupLen(c.cur);
    CutEmit(c);
    CutOne(x);
    CutConcat(c.cur, [x]);
  }

  lemma {:induction false} CutAppendAll(mtu: int, xs: seq<Seg>)
    ensures AppendAll(mtu, Cut([], []), CutSegs(xs)) == CutCut(AppendAll(mtu, Cut([], []), xs))
  {
    hide Append, CutCut;
    if xs != [] {
      CutLast(xs);
      CutAppendAll(mtu, xs[..|xs| - 1]);
      CutAppend(mtu, AppendAll(mtu, Cut([], []), xs[..|xs| - 1]), xs[|xs| - 1]);
    } else {
      NothingCut();
    }
  }

  lemma NothingCut()
    ensures CutCut(Cut([], [])) == Cut([], []) && CutPackets([]) == []
  {
  }

  lemma CutPacketise(mtu: int, xs: seq<Seg>)
    ensures Packets(mtu, CutSegs(xs)) == CutPackets(Packets(mtu, xs))
  {
    hide AppendAll, Emit, CutCut;
    CutAppendAll(mtu, xs);
    CutEmit(AppendAll(mtu, Cut([], []), xs));
  }

  lemma CutFlushPlan(s: Kcb)
    requires BlockOk(Exact, s)
    ensures var p := FlushPlan(Exact, s); FlushPlan(Wrap, CutKcb(s)) == Plan(CutKcb(p.s), CutSegs(p.segs))
  {
    hide Wrap32, FillBuf, SweepAll, AckSegs, ProbeSegs, ProbeTimer, CutSegs, CutAcks, Resent, SndOk, RcvOk, LastAck;
    var st, pace, cwnd := StampOf(s), PaceOf(s), SendWindow(s);
    var probe := ProbeTimer(s.probe, s.rmtWnd, s.clock.current);
    WindowInLimit(s);
    LimitWeaken(s.snd, FlightLimit(s.cfg));
    CutSameStamp(s);
    CutFill(st, s.rtt.rto, s.snd, cwnd);
    var snd := FillBuf(Exact, st, s.rtt.rto, s.snd, cwnd);
    CutSweepAll(st, pace, snd.buf);
    var w := SweepAll(st, pace, snd.buf);
    CutControl(st, probe, s.acklist);
    CutConcat(AckSegs(st, s.acklist) + ProbeSegs(st, probe, LastAck(s.acklist)), w.sent);
    FillBufKeeps(Exact, st, s.rtt.rto, s.snd, FlightLimit(s.cfg), cwnd);
    CutFlight(snd, FlightLimit(s.cfg));
    NoAcks();
    SameLoss(s.cong, snd.nxt - snd.una, Resent(s.cfg.fastresend), cwnd, s.cfg.mss, w);
  }

  lemma NoAcks()
    ensures CutAcks([]) == []
  {
  }

  lemma SameLoss(c: Congestion, inflight: int, resent: int, cwnd: int, mss: int, w: Sweep)
    ensures AfterLoss(c, inflight, resent, cwnd, mss, CutSweep(w)) == AfterLoss(c, inflight, resent, cwnd, mss, w)
  {
    hide Wrap32;
  }

  lemma LimitWeaken(s: Snd, limit: int)
    requires SndOk(Exact, s, limit)
    ensures SndOk(Exact, s, U16 - 1)
  {
  }

  lemma CutSameStamp(s: Kcb)
    ensures StampOf(CutKcb(s)) == CutStamp(StampOf(s)) && PaceOf(CutKcb(s)) == PaceOf(s)
      && SendWindow(CutKcb(s)) == SendWindow(s)
  {
    hide Wrap32;
  }

  lemma CutFlight(s: Snd, limit: int)
    requires SndOk(Exact, s, limit)
    ensures Norm(Wrap, Wrap32(s.nxt) - Wrap32(s.una)) == s.nxt - s.una
  {
    hide Wrap32, Rising;
    var j := WrapSplit(s.nxt);
    var k := WrapSplit(s.una);
    WrapIs(Wrap32(s.nxt) - Wrap32(s.una), k - j, s.nxt - s.una);
  }

  lemma CutFlush(s: Kcb)
    requires BlockOk(Exact, s)
    ensures var (k, ps) := Flush(Exact, s); Flush(Wrap, CutKcb(s)) == (CutKcb(k), CutPackets(ps))
  {
    hide FlushPlan, BlockOk, Packets, CutSegs;
    NothingCut();
    if s.clock.updated {
      CutFlushPlan(s);
      CutPacketise(s.cfg.mtu, FlushPlan(Exact, s).segs);
    }
  }

  lemma CutUpdate(s: Kcb, t: int)
    requires BlockOk(Exact, s)
    ensures var (k, ps) := Update(Exact, s, t); Update(Wrap, CutKcb(s), t) == (CutKcb(k), CutPackets(ps))
  {
    hide Flush, Tick, SndOk, RcvOk, CutSnd, CutRcv, CutAcks, BufOk, QueueOk;
    NothingCut();
    CutFlush(s.(clock := Tick(s.clock, s.cfg.interval, t).0));
  }
}
