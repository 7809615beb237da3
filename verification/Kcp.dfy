/** The control block of ikcp.c as an object, function by function. Every
    method is proved to take View() exactly where the model says, with 32-bit
    sequence numbers, and to keep the queue counters right. */
module Kcp {
  import opened Bytes
  import opened KcpModel
  import opened Sequences

  class ControlBlock {
    const cfg: Settings
    var sndUna: int
    var sndNxt: int
    var rcvNxt: int
    var sndQueue: seq<Seg>
    var rcvQueue: seq<Seg>
    var sndBuf: seq<Seg>
    var rcvBuf: seq<Seg>
    var nsndQue: int
    var nrcvQue: int
    var nsndBuf: int
    var nrcvBuf: int
    var acklist: seq<Ack>
    var rtt: Rtt
    var cong: Congestion
    var rmtWnd: int
    var probe: Probe
    var clock: Clock
    var xmit: int
    var state: int

    function Sender(): Snd
      reads this`sndUna, this`sndNxt, this`sndQueue, this`sndBuf
    {
      Snd(sndUna, sndNxt, sndQueue, sndBuf)
    }

    function Receiver(): Rcv
      reads this`rcvNxt, this`rcvQueue, this`rcvBuf
    {
      Rcv(rcvNxt, rcvQueue, rcvBuf)
    }

    function View(): Kcb
      reads this
    {
      Kcb(cfg, Sender(), Receiver(), acklist, rtt, cong, rmtWnd, probe, clock, xmit, state)
    }

    /** The four counters are the lengths of the four queues. */
    ghost predicate Valid()
      reads this
    {
      && cfg.mss > 0 && 0 <= xmit < U32
      && nrcvBuf == |rcvBuf| && nsndBuf == |sndBuf| && nrcvQue == |rcvQueue| && nsndQue == |sndQueue|
    }

    constructor (c: Settings)
      requires c.mss > 0
      ensures Valid() && View() == Create(c)
    {
      cfg := c;
      sndUna, sndNxt, rcvNxt := 0, 0, 0;
      sndQueue, rcvQueue, sndBuf, rcvBuf, acklist := [], [], [], [], [];
      nrcvBuf, nsndBuf, nrcvQue, nsndQue := 0, 0, 0, 0;
      rtt, cong, rmtWnd := Rtt(0, 0, RTO_DEF), Congestion(0, 0, THRESH_INIT), WND_RCV;
      probe, clock := Probe(false, false, 0, 0), Clock(0, INTERVAL, false);
      xmit, state := 0, 0;
    }

    // ----- acknowledgements (lines 543-671) -----

    method UpdateAck(sample: int)
      modifies this`rtt
      ensures rtt == KcpModel.UpdateAck(old(rtt), cfg.interval, cfg.minrto, sample)
    {
      hide Wrap32, Signed32, CDiv, Min, Max;
      if rtt.srtt == 0 {
        rtt := rtt.(srtt := sample, rttval := sample / 2);
      } else {
        var delta := Signed32(sample - rtt.srtt);
        if delta < 0 {
          delta := -delta;
        }
        rtt := rtt.(rttval := Signed32(CDiv(Signed32(3 * rtt.rttval) + delta, 4)));
        rtt := rtt.(srtt := CDiv(Signed32(7 * rtt.srtt + sample), 8));
        if rtt.srtt < 1 {
          rtt := rtt.(srtt := 1);
        }
      }
      var rto := Wrap32(rtt.srtt + Max(cfg.interval, Wrap32(4 * rtt.rttval)));
      rtt := rtt.(rto := Min(Max(cfg.minrto, rto), RTO_MAX));
    }

    method ShrinkBuf()
      requires Valid()
      modifies this`sndUna
      ensures sndUna == KcpModel.ShrinkBuf(sndBuf, sndNxt)
    {
      if sndBuf != [] {
        sndUna := sndBuf[0].sn;
      } else {
        sndUna := sndNxt;
      }
    }

    method ParseUna(una: int)
      requires Valid()
      modifies this`sndBuf, this`nsndBuf
      ensures Valid() && sndBuf == KcpModel.ParseUna(Wrap, old(sndBuf), una)
    {
      hide Diff;
      while sndBuf != []
        invariant Valid()
        invariant KcpModel.ParseUna(Wrap, sndBuf, una) == KcpModel.ParseUna(Wrap, old(sndBuf), una)
        decreases |sndBuf|
      {
        if Diff(Wrap, una, sndBuf[0].sn) > 0 {
          sndBuf := sndBuf[1..];
          nsndBuf := nsndBuf - 1;
        } else {
          break;
        }
      }
    }

    method ParseAck(sn: int)
      requires Valid()
      modifies this`sndBuf, this`nsndBuf
      ensures Valid() && sndBuf == KcpModel.ParseAck(Wrap, old(sndBuf), sndUna, sndNxt, sn)
    {
      hide Diff;
      if Diff(Wrap, sn, sndUna) < 0 || Diff(Wrap, sn, sndNxt) >= 0 {
        return;
      }
      var p := 0;
      ghost var done, rest := [], sndBuf;
      while p < |sndBuf|
        invariant sndBuf == done + rest && p == |done| && Valid()
        invariant RemoveSn(Wrap, old(sndBuf), sn) == done + RemoveSn(Wrap, rest, sn)
        decreases |sndBuf| - p
      {
        AtSplit(done, rest, sndBuf[p]);
        if sn == sndBuf[p].sn {
          sndBuf := sndBuf[..p] + sndBuf[p + 1..];
          nsndBuf := nsndBuf - 1;
          return;
        }
        if Diff(Wrap, sn, sndBuf[p].sn) < 0 {
          return;
        }
        Regroup(done, rest[0], RemoveSn(Wrap, rest[1..], sn));
        done, rest := done + [rest[0]], rest[1..];
        p := p + 1;
      }
    }

    method ParseFastack(sn: int)
      requires Valid()
      modifies this`sndBuf
      ensures Valid() && sndBuf == KcpModel.ParseFastack(Wrap, old(sndBuf), sndUna, sndNxt, sn)
    {
      hide Diff, Wrap32, BumpFastack;
      if Diff(Wrap, sn, sndUna) < 0 || Diff(Wrap, sn, sndNxt) >= 0 {
        return;
      }
      var p := 0;
      ghost var done, rest := [], sndBuf;
      while p < |sndBuf|
        invariant sndBuf == done + rest && p == |done| && |sndBuf| == |old(sndBuf)|
        invariant BumpFastack(Wrap, old(sndBuf), sn) == done + BumpFastack(Wrap, rest, sn)
        decreases |sndBuf| - p
      {
        AtSplit(done, rest, sndBuf[p]);
        BumpFront(rest, sn);
        var x := sndBuf[p];
        if Diff(Wrap, sn, x.sn) < 0 {
          return;
        }
        var y := if sn != x.sn then x.(fastack := Wrap32(x.fastack + 1)) else x;
        if sn != x.sn {
          AtSplit(done, rest, y);
          sndBuf := sndBuf[p := y];
        }
        Regroup(done, y, BumpFastack(Wrap, rest[1..], sn));
        done, rest := done + [y], rest[1..];
        p := p + 1;
      }
      BumpNone(sn);
      assert rest == [] && done + [] == done;
    }

    method AckPush(sn: int, ts: int)
      requires Valid()
      modifies this`acklist
      ensures Valid() && acklist == old(acklist) + [Ack(sn, ts)]
    {
      acklist := acklist + [Ack(sn, ts)];
    }

    // ----- reassembly (lines 683-743) -----

    method MoveAvailable()
      requires Valid()
      modifies this`rcvNxt, this`rcvQueue, this`rcvBuf, this`nrcvBuf, this`nrcvQue
      ensures Valid() && Receiver() == MoveReady(Wrap, cfg.rcvWnd, old(Receiver()))
    {
      hide Wrap32;
      while rcvBuf != []
        invariant Valid()
        invariant MoveReady(Wrap, cfg.rcvWnd, Receiver()) == MoveReady(Wrap, cfg.rcvWnd, old(Receiver()))
        decreases |rcvBuf|
      {
        var x := rcvBuf[0];
        if x.sn == rcvNxt && nrcvQue < cfg.rcvWnd {
          rcvBuf := rcvBuf[1..];
          nrcvBuf := nrcvBuf - 1;
          rcvQueue := rcvQueue + [x];
          nrcvQue := nrcvQue + 1;
          rcvNxt := Wrap32(rcvNxt + 1);
        } else {
          break;
        }
      }
    }

    /** The backward search and the insertion (lines 695-713). */
    method InsertInOrder(x: Seg)
      requires Valid()
      modifies this`rcvBuf, this`nrcvBuf
      ensures Valid() && rcvBuf == InsertSeg(Wrap, old(rcvBuf), x)
    {
      hide Diff, InsertSeg;
      var repeat := false;
      var p := |rcvBuf|;
      ghost var buf, front, back := rcvBuf, rcvBuf, [];
      InsertFirst(x);
      while p > 0
        invariant rcvBuf == buf == front + back && p == |front| && !repeat && Valid()
        invariant InsertSeg(Wrap, buf, x) == InsertSeg(Wrap, front, x) + back
        decreases p
      {
        ghost var l := front[p - 1];
        LastSplit(front, back);
        InsertLast(front, x);
        if rcvBuf[p - 1].sn == x.sn {
          repeat := true;
          break;
        }
        if Diff(Wrap, x.sn, rcvBuf[p - 1].sn) > 0 {
          break;
        }
        Regroup(InsertSeg(Wrap, front[..p - 1], x), l, back);
        front, back := front[..p - 1], [l] + back;
        p := p - 1;
      }
      assert InsertSeg(Wrap, buf, x) == if repeat then buf else (front + [x]) + back;
      if !repeat {
        SplitBack(front, back);
        assert rcvBuf[..p] + [x] + rcvBuf[p..] == (front + [x]) + back;
        rcvBuf := rcvBuf[..p] + [x] + rcvBuf[p..];
        nrcvBuf := nrcvBuf + 1;
      }
    }

    method ParseData(x: Seg)
      requires Valid()
      modifies this`rcvNxt, this`rcvQueue, this`rcvBuf, this`nrcvBuf, this`nrcvQue
      ensures Valid() && Receiver() == Accept(Wrap, cfg.rcvWnd, old(Receiver()), x)
    {
      hide Diff, Wrap32, InsertSeg, MoveReady;
      if Diff(Wrap, x.sn, Wrap32(rcvNxt + cfg.rcvWnd)) >= 0 || Diff(Wrap, x.sn, rcvNxt) < 0 {
        return;
      }
      InsertInOrder(x);
      MoveAvailable();
    }

    // ----- input (lines 749-896) -----

    /** Lines 788-790. */
    method TakeWindowAndUna(wnd: int, una: int)
      requires Valid()
      modifies this`rmtWnd, this`sndBuf, this`nsndBuf, this`sndUna
      ensures Valid() && Sender() == DropUna(Wrap, old(Sender()), una) && rmtWnd == wnd
    {
      hide KcpModel.ParseUna, KcpModel.ShrinkBuf;
      rmtWnd := wnd;
      ParseUna(una);
      ShrinkBuf();
    }

    /** Lines 793-797. */
    method TakeAckSegment(x: Seg)
      requires Valid()
      modifies this`sndBuf, this`nsndBuf, this`sndUna, this`rtt
      ensures Valid() && View() == TakeAck(Wrap, old(View()), x)
    {
      hide KcpModel.ParseAck, KcpModel.ShrinkBuf, KcpModel.UpdateAck, TimeDiff;
      if TimeDiff(clock.current, x.ts) >= 0 {
        UpdateAck(TimeDiff(clock.current, x.ts));
      }
      ParseAck(x.sn);
      ShrinkBuf();
    }

    /** Lines 827-846. */
    method TakePushSegment(x: Seg)
      requires Valid()
      modifies this`acklist, this`rcvNxt, this`rcvQueue, this`rcvBuf, this`nrcvBuf, this`nrcvQue
      ensures Valid() && View() == TakePush(Wrap, old(View()), x)
    {
      hide Diff, Wrap32, Accept;
      if Diff(Wrap, x.sn, Wrap32(rcvNxt + cfg.rcvWnd)) < 0 {
        AckPush(x.sn, x.ts);
        if Diff(Wrap, x.sn, rcvNxt) >= 0 {
          ParseData(x);
        }
      }
    }

    /** Lines 792-865: what depends on the command. */
    method Dispatch(x: Seg, flag: bool, maxack: int) returns (flag': bool, maxack': int)
      requires Valid() && KnownCmd(x.cmd)
      modifies this`sndBuf, this`nsndBuf, this`sndUna, this`rtt, this`acklist,
               this`rcvNxt, this`rcvQueue, this`rcvBuf, this`nrcvBuf, this`nrcvQue, this`probe
      ensures Valid() && Track(flag', maxack') == TrackSeg(Wrap, Track(flag, maxack), x)
      ensures x.cmd == CMD_ACK ==> View() == TakeAck(Wrap, old(View()), x)
      ensures x.cmd == CMD_PUSH ==> View() == TakePush(Wrap, old(View()), x)
      ensures x.cmd == CMD_WASK ==> View() == old(View()).(probe := old(probe).(tell := true))
      ensures x.cmd == CMD_WINS ==> View() == old(View())
    {
      hide Diff, TakeAck, TakePush;
      flag', maxack' := flag, maxack;
      if x.cmd == CMD_ACK {
        TakeAckSegment(x);
        flag', maxack' := NoteAck(x.sn, flag, maxack);
      } else if x.cmd == CMD_PUSH {
        TakePushSegment(x);
      } else if x.cmd == CMD_WASK {
        probe := probe.(tell := true);
      }
    }

    /** The newest acknowledged number so far (lines 798-812). */
    static method NoteAck(sn: int, flag: bool, maxack: int) returns (flag': bool, maxack': int)
      ensures flag' && maxack' == if !flag || Diff(Wrap, sn, maxack) > 0 then sn else maxack
    {
      hide Diff;
      if !flag {
        return true, sn;
      }
      if Diff(Wrap, sn, maxack) > 0 {
        return true, sn;
      }
      return true, maxack;
    }

    /** One turn of the input loop after its header was accepted. */
    method TakeSegment(x: Seg, flag: bool, maxack: int) returns (flag': bool, maxack': int)
      requires Valid() && KnownCmd(x.cmd)
      modifies this`rmtWnd, this`sndBuf, this`nsndBuf, this`sndUna, this`rtt, this`acklist,
               this`rcvNxt, this`rcvQueue, this`rcvBuf, this`nrcvBuf, this`nrcvQue, this`probe
      ensures Valid() && View() == ProcessSeg(Wrap, old(View()), x)
      ensures Track(flag', maxack') == TrackSeg(Wrap, Track(flag, maxack), x)
    {
      hide TakeAck, TakePush, DropUna, TrackSeg;
      TakeWindowAndUna(x.wnd, x.una);
      flag', maxack' := Dispatch(x, flag, maxack);
    }

    method Input(data: seq<Byte>) returns (code: int)
      requires Valid()
      modifies this
      ensures Valid() && (View(), code) == KcpModel.Input(Wrap, old(View()), data)
    {
      hide Diff, Signed32, ProcessSeg, GrowWindow, KcpModel.ParseFastack, Header, HeaderLen;
      var prevUna := sndUna;
      var flag, maxack := false, 0;
      if Signed32(|data|) < OVERHEAD {
        return -1;
      }
      var rest := data;
      while true
        invariant Valid()
        invariant InputLoop(Wrap, View(), Track(flag, maxack), rest) ==
          InputLoop(Wrap, old(View()), Track(false, 0), data)
        decreases |rest|
      {
        if |rest| < OVERHEAD {
          break;
        }
        var h, len := Header(rest), HeaderLen(rest);
        if h.conv != cfg.conv {
          return -2;
        }
        if |rest| - OVERHEAD < len || Signed32(len) < 0 {
          return -2;
        }
        if !KnownCmd(h.cmd) {
          return -3;
        }
        flag, maxack := TakeSegment(h.(data := rest[OVERHEAD..OVERHEAD + len]), flag, maxack);
        rest := rest[OVERHEAD + len..];
      }
      if flag {
        ParseFastack(maxack);
      }
      if Diff(Wrap, sndUna, prevUna) > 0 {
        GrowCwnd();
      }
      return 0;
    }

    method GrowCwnd()
      requires cfg.mss > 0
      modifies this`cong
      ensures cong == GrowWindow(old(cong), rmtWnd, cfg.mss)
    {
      hide Wrap32;
      if cong.cwnd < rmtWnd {
        var mss := cfg.mss;
        if cong.cwnd < cong.ssthresh {
          cong := cong.(cwnd := Wrap32(cong.cwnd + 1), incr := Wrap32(cong.incr + mss));
        } else {
          if cong.incr < mss {
            cong := cong.(incr := mss);
          }
          cong := cong.(incr := Wrap32(cong.incr + Wrap32(mss * mss) / cong.incr + mss / 16));
          if Wrap32((cong.cwnd + 1) * mss) <= cong.incr {
            cong := cong.(cwnd := Wrap32(cong.cwnd + 1));
          }
        }
        if cong.cwnd > rmtWnd {
          cong := cong.(cwnd := rmtWnd, incr := Wrap32(rmtWnd * mss));
        }
      }
    }

    // ----- the application side (lines 358-537) -----

    method PeekSize() returns (size: int)
      requires Valid()
      ensures size == KcpModel.PeekSize(rcvQueue)
    {
      if rcvQueue == [] {
        return -1;
      }
      if rcvQueue[0].frg == 0 {
        return |rcvQueue[0].data|;
      }
      if nrcvQue < rcvQueue[0].frg + 1 {
        return -1;
      }
      size := 0;
      var p := 0;
      while p < |rcvQueue|
        invariant 0 <= p <= |rcvQueue|
        invariant size + PeekLen(rcvQueue[p..]) == PeekLen(rcvQueue)
      {
        ghost var rest := rcvQueue[p..];
        assert rest[1..] == rcvQueue[p + 1..];
        size := size + |rcvQueue[p].data|;
        if rcvQueue[p].frg == 0 {
          return;
        }
        p := p + 1;
      }
    }

    method Recv(len: int) returns (code: int, buffer: seq<Byte>)
      requires Valid()
      modifies this`rcvNxt, this`rcvQueue, this`rcvBuf, this`nrcvBuf, this`nrcvQue, this`probe
      ensures Valid() && (View(), code, buffer) == KcpModel.Recv(Wrap, old(View()), len)
    {
      hide MoveReady, Merge, MergeCount, KcpModel.PeekSize;
      buffer := [];
      if rcvQueue == [] {
        return -1, [];
      }
      var ispeek := len < 0;
      var room := if len < 0 then -len else len;
      var peeksize := PeekSize();
      if peeksize < 0 {
        return -2, [];
      }
      if peeksize > room {
        return -3, [];
      }
      var recover := nrcvQue >= cfg.rcvWnd;
      buffer := MergeFragments(ispeek);
      code := |buffer|;
      MoveAvailable();
      if nrcvQue < cfg.rcvWnd && recover {
        probe := probe.(tell := true);
      }
    }

    /** The merge loop: up to and including the first fragment numbered 0. */
    method MergeFragments(ispeek: bool) returns (buffer: seq<Byte>)
      requires Valid()
      modifies this`rcvQueue, this`nrcvQue
      ensures Valid()
      ensures buffer == Merge(old(rcvQueue)[..MergeCount(old(rcvQueue))])
      ensures rcvQueue == if ispeek then old(rcvQueue) else old(rcvQueue)[MergeCount(old(rcvQueue))..]
    {
      buffer := [];
      var q := rcvQueue;
      var p := 0;
      while p < |q|
        invariant 0 <= p <= |q|
        invariant buffer == Merge(q[..p])
        invariant MergeCount(q) == p + MergeCount(q[p..])
        invariant rcvQueue == (if ispeek then q else q[p..]) && Valid()
        decreases |q| - p
      {
        var x := q[p];
        assert q[p..][1..] == q[p + 1..];
        MergeAppend(q[..p], x);
        assert q[..p + 1] == q[..p] + [x];
        buffer := buffer + x.data;
        if !ispeek {
          rcvQueue := rcvQueue[1..];
          nrcvQue := nrcvQue - 1;
        }
        p := p + 1;
        if x.frg == 0 {
          break;
        }
      }
    }

    method Send(data: seq<Byte>) returns (code: int)
      requires Valid()
      modifies this`sndQueue, this`nsndQue
      ensures Valid() && (sndQueue, code) == KcpModel.Send(old(sndQueue), cfg.mss, cfg.stream != 0, data)
    {
      var rest := data;
      if cfg.stream != 0 {
        if sndQueue != [] {
          var tail := sndQueue[|sndQueue| - 1];
          if |tail.data| < cfg.mss {
            var capacity := cfg.mss - |tail.data|;
            var extend := if |rest| < capacity then |rest| else capacity;
            sndQueue := sndQueue[..|sndQueue| - 1] + [NewSeg(0, tail.data + rest[..extend])];
            rest := rest[extend..];
          }
        }
        if |rest| <= 0 {
          return 0;
        }
      }
      var count := if |rest| <= cfg.mss then 1 else (|rest| + cfg.mss - 1) / cfg.mss;
      if count >= WND_RCV {
        return -2;
      }
      QueueFragments(rest, count);
      return 0;
    }

    method QueueFragments(data: seq<Byte>, count: nat)
      requires Valid()
      modifies this`sndQueue, this`nsndQue
      ensures Valid() && sndQueue == old(sndQueue) + Fragments(cfg.mss, data, count, cfg.stream != 0)
    {
      var rest := data;
      ghost var all := old(sndQueue) + Fragments(cfg.mss, data, count, cfg.stream != 0);
      var i := 0;
      while i < count
        invariant 0 <= i <= count && Valid()
        invariant sndQueue + Fragments(cfg.mss, rest, count - i, cfg.stream != 0) == all
      {
        var size := if |rest| > cfg.mss then cfg.mss else |rest|;
        var x := NewSeg(if cfg.stream == 0 then count - i - 1 else 0, rest[..size]);
        assert Fragments(cfg.mss, rest, count - i, cfg.stream != 0) ==
          [x] + Fragments(cfg.mss, rest[size..], count - i - 1, cfg.stream != 0);
        sndQueue := sndQueue + [x];
        nsndQue := nsndQue + 1;
        rest := rest[size..];
        i := i + 1;
      }
    }

    // ----- output (lines 902-1132) -----

    /** Append one segment to the send buffer; what is already there goes out
        first when the mtu would be passed. */
    method AppendSegment(out: seq<seq<Byte>>, cur: seq<Byte>, x: Seg, ghost c: Cut)
        returns (out': seq<seq<Byte>>, cur': seq<Byte>)
      requires Buffered(c, out, cur)
      ensures Buffered(Append(cfg.mtu, c, x), out', cur')
    {
      hide Encode, EncodeGroup, GroupLen;
      out', cur' := out, cur;
      if |cur'| + WireLen(x) > cfg.mtu {
        if |cur'| > 0 {
          out' := out' + [cur'];
        }
        cur' := [];
      }
      cur' := cur' + Encode(x);
      BufferedAppend(cfg.mtu, c, x, out, cur);
    }

    method FlushAcks(st: Stamp) returns (out: seq<seq<Byte>>, cur: seq<Byte>)
      ensures Buffered(AppendAll(cfg.mtu, Cut([], []), AckSegs(st, acklist)), out, cur)
    {
      hide Append, Encode, ControlSeg;
      out, cur := [], [];
      ghost var all := AckSegs(st, acklist);
      var i := 0;
      while i < |acklist|
        invariant 0 <= i <= |acklist|
        invariant Buffered(AppendAll(cfg.mtu, Cut([], []), all[..i]), out, cur)
      {
        out, cur := AppendSegment(out, cur, ControlSeg(st, CMD_ACK, acklist[i]),
          AppendAll(cfg.mtu, Cut([], []), all[..i]));
        AppendAllStep(cfg.mtu, Cut([], []), all, i);
        i := i + 1;
      }
      assert all[..i] == all;
    }

    method UpdateProbe()
      modifies this`probe
      ensures probe == ProbeTimer(old(probe), rmtWnd, clock.current)
    {
      hide Wrap32, TimeDiff;
      if rmtWnd == 0 {
        if probe.wait == 0 {
          probe := probe.(wait := PROBE_INIT);
          probe := probe.(ts := Wrap32(clock.current + probe.wait));
        } else {
          if TimeDiff(clock.current, probe.ts) >= 0 {
            if probe.wait < PROBE_INIT {
              probe := probe.(wait := PROBE_INIT);
            }
            probe := probe.(wait := Wrap32(probe.wait + probe.wait / 2));
            if probe.wait > PROBE_LIMIT {
              probe := probe.(wait := PROBE_LIMIT);
            }
            probe := probe.(ts := Wrap32(clock.current + probe.wait), ask := true);
          }
        }
      } else {
        probe := probe.(ts := 0, wait := 0);
      }
    }

    method FlushProbes(st: Stamp, last: Ack, out: seq<seq<Byte>>, cur: seq<Byte>, ghost c: Cut)
        returns (out': seq<seq<Byte>>, cur': seq<Byte>)
      requires Buffered(c, out, cur)
      ensures Buffered(AppendAll(cfg.mtu, c, ProbeSegs(st, probe, last)), out', cur')
    {
      hide Append, Encode, ControlSeg, Buffered;
      out', cur' := out, cur;
      ghost var d := c;
      if probe.ask {
        out', cur' := AppendSegment(out', cur', ControlSeg(st, CMD_WASK, last), d);
        d := Append(cfg.mtu, d, ControlSeg(st, CMD_WASK, last));
      }
      if probe.tell {
        out', cur' := AppendSegment(out', cur', ControlSeg(st, CMD_WINS, last), d);
        d := Append(cfg.mtu, d, ControlSeg(st, CMD_WINS, last));
      }
      AppendAllShort(cfg.mtu, c, ProbeSegs(st, probe, last));
    }

    method FillSendBuffer(st: Stamp, cwnd: int)
      requires Valid()
      modifies this`sndNxt, this`sndQueue, this`sndBuf, this`nsndQue, this`nsndBuf
      ensures Valid() && Sender() == FillBuf(Wrap, st, rtt.rto, old(Sender()), cwnd)
    {
      hide Diff, Wrap32;
      while Diff(Wrap, sndNxt, Wrap32(sndUna + cwnd)) < 0
        invariant Valid()
        invariant FillBuf(Wrap, st, rtt.rto, Sender(), cwnd) == FillBuf(Wrap, st, rtt.rto, old(Sender()), cwnd)
        decreases |sndQueue|
      {
        if sndQueue == [] {
          break;
        }
        var x := sndQueue[0];
        sndQueue := sndQueue[1..];
        nsndQue := nsndQue - 1;
        x := x.(conv := st.conv, cmd := CMD_PUSH, wnd := st.wnd, ts := st.current, sn := sndNxt, una := st.una);
        sndNxt := Wrap32(sndNxt + 1);
        x := x.(resendts := st.current, rto := rtt.rto, fastack := 0, xmit := 0);
        sndBuf := sndBuf + [x];
        nsndBuf := nsndBuf + 1;
      }
    }

    /** Whether segment i is sent now, and when it is due again (lines
        1046-1079). */
    method TouchSegment(i: nat, st: Stamp, resent: int, rtomin: int, ghost p: Pace)
        returns (needsend: bool, late: bool, skipped: bool)
      requires i < |sndBuf| && Pacing(cfg, clock, rtt, p)
      requires p.resent == resent && p.rtomin == rtomin && st.current == clock.current
      modifies this`sndBuf, this`xmit
      ensures var x := old(sndBuf)[i];
        && sndBuf == old(sndBuf)[i := Resend(st, p, x)]
        && (needsend <==> WhySend(p, x) != Keep) && (late <==> WhySend(p, x) == Timeout)
        && (skipped <==> WhySend(p, x) == Fast) && xmit == if late then Wrap32(old(xmit) + 1) else old(xmit)
    {
      hide TimeDiff, Wrap32, Signed32;
      needsend, late, skipped := false, false, false;
      var x := sndBuf[i];
      if x.xmit == 0 {
        needsend := true;
        x := x.(xmit := Wrap32(x.xmit + 1), rto := rtt.rto);
        x := x.(resendts := Wrap32(st.current + x.rto + rtomin));
      } else if TimeDiff(st.current, x.resendts) >= 0 {
        needsend := true;
        x := x.(xmit := Wrap32(x.xmit + 1));
        xmit := Wrap32(xmit + 1);
        if cfg.nodelay == 0 {
          x := x.(rto := Wrap32(x.rto + rtt.rto));
        } else {
          x := x.(rto := Wrap32(x.rto + rtt.rto / 2));
        }
        x := x.(resendts := Wrap32(st.current + x.rto));
        late := true;
      } else if x.fastack >= resent {
        if Signed32(x.xmit) <= cfg.fastlimit || cfg.fastlimit <= 0 {
          needsend := true;
          x := x.(xmit := Wrap32(x.xmit + 1), fastack := 0, resendts := Wrap32(st.current + x.rto));
          skipped := true;
        }
      }
      if needsend {
        x := x.(ts := st.current, wnd := st.wnd, una := st.una);
      }
      sndBuf := sndBuf[i := x];
    }

    /** A segment to be sent joins the datagram; too many transmissions mark the
        connection as dead (lines 1081-1100). */
    method SendSegment(x: Seg, needsend: bool, out: seq<seq<Byte>>, cur: seq<Byte>, ghost c: Cut, ghost sent: seq<Seg>)
        returns (out': seq<seq<Byte>>, cur': seq<Byte>)
      requires Buffered(AppendAll(cfg.mtu, c, sent), out, cur)
      modifies this`state
      ensures Buffered(AppendAll(cfg.mtu, c, if needsend then sent + [x] else sent), out', cur')
      ensures state == if needsend && x.xmit >= cfg.deadLink then U32 - 1 else old(state)
    {
      hide Buffered, Append, AppendAll, Encode;
      out', cur' := out, cur;
      if needsend {
        out', cur' := AppendSegment(out, cur, x, AppendAll(cfg.mtu, c, sent));
        AppendAllLast(cfg.mtu, c, sent, x);
        if x.xmit >= cfg.deadLink {
          state := U32 - 1;
        }
      }
    }

    /** One turn of the pass over snd_buf; was is how it began. */
    method SweepOne(
      i: nat, st: Stamp, resent: int, rtomin: int, ghost p: Pace, lost: bool, change: int,
      out: seq<seq<Byte>>, cur: seq<Byte>, ghost c: Cut, ghost was: Pass)
        returns (lost': bool, change': int, out': seq<seq<Byte>>, cur': seq<Byte>)
      requires Valid() && i < |sndBuf| == |was.buf| && p.deadLink == cfg.deadLink
      requires Pacing(cfg, clock, rtt, p) && p.resent == resent && p.rtomin == rtomin && st.current == clock.current
      requires PassedTo(cfg.mtu, c, st, p, was, i, Pass(sndBuf, lost, change, xmit, state, out, cur))
      modifies this`sndBuf, this`xmit, this`state
      ensures Valid() && |sndBuf| == |was.buf|
      ensures PassedTo(cfg.mtu, c, st, p, was, i + 1, Pass(sndBuf, lost', change', xmit, state, out', cur'))
    {
      hide WhySend, Resend, Buffered, AppendAll, Wrap32, Pacing, PassedTo, SweepAll;
      ghost var before := Pass(sndBuf, lost, change, xmit, state, out, cur);
      lost', change' := lost, change;
      WrapRange(xmit + 1);
      PassedSent(cfg.mtu, c, st, p, was, i, before);
      var needsend, late, skipped := TouchSegment(i, st, resent, rtomin, p);
      if late {
        lost' := true;
      }
      if skipped {
        change' := change' + 1;
      }
      out', cur' := SendSegment(sndBuf[i], needsend, out, cur, c, SweepAll(st, p, was.buf[..i]).sent);
      PassedMore(cfg.mtu, c, st, p, was, i, before, Pass(sndBuf, lost', change', xmit, state, out', cur'));
    }

    /** The pass over snd_buf (lines 1045-1102). */
    method SweepBuffer(
      st: Stamp, resent: int, rtomin: int, ghost p: Pace, out: seq<seq<Byte>>, cur: seq<Byte>, ghost c: Cut)
        returns (out': seq<seq<Byte>>, cur': seq<Byte>, lost: bool, change: int)
      requires Valid() && Buffered(c, out, cur)
      requires Pacing(cfg, clock, rtt, p) && p.deadLink == cfg.deadLink && 0 <= xmit < U32
      requires p.resent == resent && p.rtomin == rtomin && st.current == clock.current
      modifies this`sndBuf, this`xmit, this`state
      ensures Valid()
      ensures var w := SweepAll(st, p, old(sndBuf));
        sndBuf == w.buf && (lost <==> w.lost > 0) && change == w.change
        && xmit == Wrap32(old(xmit) + w.lost) && state == (if w.dead then U32 - 1 else old(state))
        && Buffered(AppendAll(cfg.mtu, c, w.sent), out', cur')
    {
      hide *;
      out', cur', lost, change := out, cur, false, 0;
      ghost var was := Pass(sndBuf, lost, change, xmit, state, out, cur);
      PassedNone(cfg.mtu, c, st, p, was);
      var i := 0;
      while i < |sndBuf|
        invariant Valid() && i <= |sndBuf| == |was.buf|
        invariant PassedTo(cfg.mtu, c, st, p, was, i, Pass(sndBuf, lost, change, xmit, state, out', cur'))
        decreases |was.buf| - i
      {
        lost, change, out', cur' := SweepOne(i, st, resent, rtomin, p, lost, change, out', cur', c, was);
        i := i + 1;
      }
      PassedAll(cfg.mtu, c, st, p, was, Pass(sndBuf, lost, change, xmit, state, out', cur'));
    }

    method AdjustWindow(inflight: int, resent: int, cwnd: int, lost: bool, change: int, ghost w: Sweep)
      requires (lost <==> w.lost > 0) && change == w.change
      modifies this`cong
      ensures cong == AfterLoss(old(cong), inflight, resent, cwnd, cfg.mss, w)
    {
      hide Wrap32;
      if change > 0 {
        cong := cong.(ssthresh := inflight / 2);
        if cong.ssthresh < THRESH_MIN {
          cong := cong.(ssthresh := THRESH_MIN);
        }
        cong := cong.(cwnd := Wrap32(cong.ssthresh + resent));
        cong := cong.(incr := Wrap32(cong.cwnd * cfg.mss));
      }
      if lost {
        cong := cong.(ssthresh := cwnd / 2);
        if cong.ssthresh < THRESH_MIN {
          cong := cong.(ssthresh := THRESH_MIN);
        }
        cong := cong.(cwnd := 1, incr := cfg.mss);
      }
      if cong.cwnd < 1 {
        cong := cong.(cwnd := 1, incr := cfg.mss);
      }
    }

    /** Lines 952-1010: acknowledgements, then window probes. */
    method FlushControl(st: Stamp) returns (out: seq<seq<Byte>>, cur: seq<Byte>)
      modifies this`acklist, this`probe
      ensures acklist == []
      ensures var p := ProbeTimer(old(probe), rmtWnd, clock.current);
        probe == p.(ask := false, tell := false)
        && Buffered(AppendAll(cfg.mtu, Cut([], []), AckSegs(st, old(acklist))
          + ProbeSegs(st, p, LastAck(old(acklist)))), out, cur)
    {
      hide AppendAll, AckSegs, ProbeSegs, ProbeTimer, Buffered, LastAck;
      var last := LastAck(acklist);
      ghost var acks := AckSegs(st, acklist);
      out, cur := FlushAcks(st);
      acklist := [];
      UpdateProbe();
      ghost var c := AppendAll(cfg.mtu, Cut([], []), acks);
      ghost var probes := ProbeSegs(st, probe, last);
      out, cur := FlushProbes(st, last, out, cur, c);
      probe := probe.(ask := false, tell := false);
      AppendAllConcat(cfg.mtu, Cut([], []), acks, probes);
    }

    /** ikcp_wnd_unused. */
    method UnusedWindow() returns (wnd: int)
      requires Valid()
      ensures wnd == WndUnused(View())
    {
      if nrcvQue < cfg.rcvWnd {
        return cfg.rcvWnd - nrcvQue;
      }
      return 0;
    }

    /** Lines 1013-1014. */
    method SendLimit() returns (cwnd: int)
      ensures cwnd == SendWindow(View())
    {
      cwnd := if cfg.sndWnd <= rmtWnd then cfg.sndWnd else rmtWnd;
      if cfg.nocwnd == 0 {
        cwnd := if cong.cwnd <= cwnd then cong.cwnd else cwnd;
      }
    }

    /** Lines 1012-1102: the window, new segments, and everything due. */
    method FlushData(st: Stamp, ghost p: Pace, out: seq<seq<Byte>>, cur: seq<Byte>, ghost c: Cut)
        returns (out': seq<seq<Byte>>, cur': seq<Byte>, cwnd: int, resent: int, lost: bool, change: int, ghost w: Sweep)
      requires Valid() && Buffered(c, out, cur) && Pacing(cfg, clock, rtt, p) && st.current == clock.current
      modifies this`sndNxt, this`sndQueue, this`sndBuf, this`nsndQue, this`nsndBuf, this`xmit, this`state
      ensures Valid() && cwnd == SendWindow(old(View())) && resent == p.resent
      ensures var snd := FillBuf(Wrap, st, rtt.rto, old(Sender()), cwnd);
        w == SweepAll(st, p, snd.buf) && Sender() == snd.(buf := w.buf)
      ensures (lost <==> w.lost > 0) && change == w.change
      ensures xmit == Wrap32(old(xmit) + w.lost) && state == (if w.dead then U32 - 1 else old(state))
      ensures Buffered(AppendAll(cfg.mtu, c, w.sent), out', cur')
    {
      hide FillBuf, SweepAll, AppendAll, Buffered, Wrap32, SendWindow;
      cwnd := SendLimit();
      FillSendBuffer(st, cwnd);
      resent := if cfg.fastresend > 0 then cfg.fastresend else U32 - 1;
      var rtomin := if cfg.nodelay == 0 then rtt.rto / 8 else 0;
      w := SweepAll(st, p, sndBuf);
      out', cur', lost, change := SweepBuffer(st, resent, rtomin, p, out, cur, c);
    }

    /** The whole of ikcp_flush after its first check, part by part. */
    method FlushNow(st: Stamp, ghost p: Pace) returns (out: seq<seq<Byte>>, ghost w: Sweep)
      requires Valid() && Pacing(cfg, clock, rtt, p) && st.current == clock.current
      modifies this`acklist, this`probe, this`sndNxt, this`sndQueue, this`sndBuf, this`nsndQue, this`nsndBuf,
               this`xmit, this`state, this`cong
      ensures Valid() && acklist == []
      ensures probe == ProbeTimer(old(probe), rmtWnd, clock.current).(ask := false, tell := false)
      ensures var snd := FillBuf(Wrap, st, rtt.rto, old(Sender()), SendWindow(old(View())));
        w == SweepAll(st, p, snd.buf) && Sender() == snd.(buf := w.buf)
      ensures xmit == Wrap32(old(xmit) + w.lost) && state == (if w.dead then U32 - 1 else old(state))
      ensures cong ==
        AfterLoss(old(cong), Wrap32(sndNxt - sndUna), p.resent, SendWindow(old(View())), cfg.mss, w)
      ensures var q := ProbeTimer(old(probe), rmtWnd, clock.current);
        out == EncodeAll(KcpModel.Packets(cfg.mtu, AckSegs(st, old(acklist)) + ProbeSegs(st, q, LastAck(old(acklist)))
          + w.sent))
    {
      hide AppendAll, AckSegs, ProbeSegs, SweepAll, FillBuf, ProbeTimer, AfterLoss, Wrap32, Buffered, EncodeAll,
        LastAck, KcpModel.Packets;
      ghost var control := AckSegs(st, acklist)
        + ProbeSegs(st, ProbeTimer(probe, rmtWnd, clock.current), LastAck(acklist));
      ghost var c := AppendAll(cfg.mtu, Cut([], []), control);
      var cur, cwnd, resent, lost, change;
      out, cur := FlushControl(st);
      out, cur, cwnd, resent, lost, change, w := FlushData(st, p, out, cur, c);
      FlushedAll(cfg.mtu, control, w.sent, out, cur);
      if |cur| > 0 {
        out := out + [cur];
      }
      AdjustWindow(Wrap32(sndNxt - sndUna), resent, cwnd, lost, change, w);
    }

    /** ikcp_flush: returns the datagrams given to the output callback. */
    method Flush() returns (out: seq<seq<Byte>>)
      requires Valid()
      modifies this
      ensures Valid()
      ensures View() == KcpModel.Flush(Wrap, old(View())).0 && out == EncodeAll(KcpModel.Flush(Wrap, old(View())).1)
    {
      hide AckSegs, ProbeSegs, SweepAll, FillBuf, ProbeTimer, AfterLoss, Wrap32, SendWindow, EncodeAll, LastAck,
        KcpModel.Packets, WndUnused;
      if !clock.updated {
        NothingSent();
        return [];
      }
      var wnd := UnusedWindow();
      var st := Stamp(cfg.conv, wnd, rcvNxt, clock.current);
      ghost var w;
      out, w := FlushNow(st, PaceOf(View()));
    }

    // ----- clock (lines 1140-1213) -----

    method Update(current: int) returns (out: seq<seq<Byte>>)
      requires Valid()
      modifies this
      ensures Valid()
      ensures View() == KcpModel.Update(Wrap, old(View()), current).0
      ensures out == EncodeAll(KcpModel.Update(Wrap, old(View()), current).1)
    {
      hide KcpModel.Flush, TimeDiff, Wrap32, EncodeAll;
      clock := clock.(current := current);
      if !clock.updated {
        clock := clock.(updated := true, tsFlush := current);
      }
      var slap := TimeDiff(current, clock.tsFlush);
      if slap >= 10000 || slap < -10000 {
        clock := clock.(tsFlush := current);
        slap := 0;
      }
      if slap >= 0 {
        clock := clock.(tsFlush := Wrap32(clock.tsFlush + cfg.interval));
        if TimeDiff(current, clock.tsFlush) >= 0 {
          clock := clock.(tsFlush := Wrap32(current + cfg.interval));
        }
        assert (clock, true) == Tick(old(clock), cfg.interval, current);
        assert View() == old(View()).(clock := clock);
        out := Flush();
      } else {
        NothingSent();
        out := [];
      }
    }

    method Check(current: int) returns (next: int)
      requires Valid()
      ensures next == KcpModel.Check(View(), current)
    {
      hide TimeDiff, Wrap32, Min;
      if !clock.updated {
        return current;
      }
      var tsFlush := clock.tsFlush;
      if TimeDiff(current, tsFlush) >= 10000 || TimeDiff(current, tsFlush) < -10000 {
        tsFlush := current;
      }
      DiffOfSame(current);
      if TimeDiff(current, tsFlush) >= 0 {
        return current;
      }
      var tmFlush := TimeDiff(tsFlush, current);
      var tmPacket := I32 - 1;
      var i := 0;
      while i < |sndBuf|
        invariant 0 <= i <= |sndBuf|
        invariant tmPacket == NearestResend(sndBuf[..i], current) && tmPacket > 0
      {
        var diff := TimeDiff(sndBuf[i].resendts, current);
        assert sndBuf[..i + 1][..i] == sndBuf[..i];
        MinBelow(tmPacket, diff);
        if diff <= 0 {
          NearestBelow(sndBuf, current, i + 1);
          return current;
        }
        if diff < tmPacket {
          tmPacket := diff;
        }
        i := i + 1;
      }
      assert sndBuf[..i] == sndBuf;
      MinBelow(tmPacket, tmFlush);
      var minimal := if tmPacket < tmFlush then tmPacket else tmFlush;
      MinBelow(minimal, cfg.interval);
      if minimal >= cfg.interval {
        minimal := cfg.interval;
      }
      return Wrap32(current + minimal);
    }
  }

  lemma BumpFront(buf: seq<Seg>, sn: int)
    requires buf != []
    ensures BumpFastack(Wrap, buf, sn) ==
      if Diff(Wrap, sn, buf[0].sn) < 0 then buf
      else
        var x := if sn != buf[0].sn then buf[0].(fastack := Wrap32(buf[0].fastack + 1)) else buf[0];
        [x] + BumpFastack(Wrap, buf[1..], sn)
  {
    hide Diff, Wrap32;
  }

  lemma BumpNone(sn: int)
    ensures BumpFastack(Wrap, [], sn) == []
  {
  }

  lemma DiffOfSame(t: int)
    ensures TimeDiff(t, t) == 0
  {
  }

  lemma MinBelow(a: int, b: int)
    ensures Min(a, b) == (if a <= b then a else b) && (a <= b || Min(a, b) == b)
  {
  }

  lemma {:induction false} NearestBelow(buf: seq<Seg>, t: int, n: nat)
    requires n <= |buf|
    ensures NearestResend(buf, t) <= NearestResend(buf[..n], t)
    decreases |buf|
  {
    if n < |buf| {
      NearestBelow(buf[..|buf| - 1], t, n);
      assert buf[..|buf| - 1][..n] == buf[..n];
    } else {
      assert buf[..n] == buf;
    }
  }

  // ----- the send buffer -----

  ghost predicate Buffered(c: Cut, out: seq<seq<Byte>>, cur: seq<Byte>) {
    out == EncodeAll(c.out) && cur == EncodeGroup(c.cur)
  }

  lemma BufferedAppend(mtu: int, c: Cut, x: Seg, out: seq<seq<Byte>>, cur: seq<Byte>)
    requires Buffered(c, out, cur)
    ensures var full := |cur| + WireLen(x) > mtu;
      var out', cur' := if full && |cur| > 0 then out + [cur] else out, if full then [] else cur;
      Buffered(Append(mtu, c, x), out', cur' + Encode(x))
  {
    hide Encode;
    var d := Append(mtu, c, x);
    if GroupLen(c.cur) + WireLen(x) > mtu {
      EncodeGroupLast([], x);
      EncodeAllLast(c.out, c.cur);
    } else {
      EncodeGroupLast(c.cur, x);
    }
  }

  lemma EncodeGroupLast(p: seq<Seg>, x: Seg)
    ensures EncodeGroup(p + [x]) == EncodeGroup(p) + Encode(x) && EncodeGroup([]) == []
  {
    assert (p + [x])[..|p|] == p;
  }

  lemma EncodeAllLast(ps: seq<seq<Seg>>, p: seq<Seg>)
    ensures EncodeAll(ps + [p]) == EncodeAll(ps) + [EncodeGroup(p)]
  {
  }

  lemma AppendNone(mtu: int, c: Cut)
    ensures AppendAll(mtu, c, []) == c
  {
  }

  lemma AppendAllLast(mtu: int, c: Cut, xs: seq<Seg>, x: Seg)
    ensures AppendAll(mtu, c, xs + [x]) == Append(mtu, AppendAll(mtu, c, xs), x)
  {
    assert (xs + [x])[..|xs|] == xs;
  }

  lemma AppendAllStep(mtu: int, c: Cut, xs: seq<Seg>, i: nat)
    requires i < |xs|
    ensures AppendAll(mtu, c, xs[..i + 1]) == Append(mtu, AppendAll(mtu, c, xs[..i]), xs[i])
  {
    assert xs[..i + 1] == xs[..i] + [xs[i]];
    AppendAllLast(mtu, c, xs[..i], xs[i]);
  }

  lemma AppendAllShort(mtu: int, c: Cut, xs: seq<Seg>)
    requires |xs| <= 2
    ensures AppendAll(mtu, c, xs) ==
      if |xs| == 0 then c else if |xs| == 1 then Append(mtu, c, xs[0]) else Append(mtu, Append(mtu, c, xs[0]), xs[1])
  {
    hide Append;
    AppendNone(mtu, c);
    if |xs| == 1 {
      assert xs[..0] == [];
    } else if |xs| == 2 {
      assert xs[..1][..0] == [];
    }
  }

  lemma {:induction false} AppendAllConcat(mtu: int, c: Cut, xs: seq<Seg>, ys: seq<Seg>)
    ensures AppendAll(mtu, c, xs + ys) == AppendAll(mtu, AppendAll(mtu, c, xs), ys)
  {
    hide Append;
    if ys == [] {
      assert xs + ys == xs;
    } else {
      var l := |ys| - 1;
      AppendAllConcat(mtu, c, xs, ys[..l]);
      assert (xs + ys)[..|xs + ys| - 1] == xs + ys[..l];
    }
  }

  lemma InsertFirst(x: Seg)
    ensures InsertSeg(Wrap, [], x) == [] + [x]
  {
  }

  lemma InsertLast(buf: seq<Seg>, x: Seg)
    requires buf != []
    ensures var front, l := buf[..|buf| - 1], buf[|buf| - 1];
      InsertSeg(Wrap, buf, x) ==
        if l.sn == x.sn then buf
        else if Diff(Wrap, x.sn, l.sn) > 0 then buf + [x]
        else InsertSeg(Wrap, front, x) + [l]
  {
  }

  /** p holds what the pass over snd_buf reads from the block. */
  predicate Pacing(c: Settings, clock: Clock, rtt: Rtt, p: Pace) {
    && p.current == clock.current && p.rto == rtt.rto && p.rtomin == (if c.nodelay == 0 then rtt.rto / 8 else 0)
    && p.backoff == (if c.nodelay == 0 then rtt.rto else rtt.rto / 2)
    && p.resent == (if c.fastresend > 0 then c.fastresend else U32 - 1)
    && p.fastlimit == c.fastlimit && p.deadLink == c.deadLink
  }

  /** What the pass over snd_buf works on. */
  datatype Pass = Pass(
    buf: seq<Seg>, lost: bool, change: int, xmit: int, state: int, out: seq<seq<Byte>>, cur: seq<Byte>)

  /** t is where a pass that began with s stands after i segments. */
  ghost predicate PassedTo(mtu: int, c: Cut, st: Stamp, p: Pace, s: Pass, i: nat, t: Pass) {
    && i <= |s.buf|
    && var w := SweepAll(st, p, s.buf[..i]);
       && t.buf == w.buf + s.buf[i..] && (t.lost <==> w.lost > 0) && t.change == w.change
       && t.xmit == Wrap32(s.xmit + w.lost) && t.state == (if w.dead then U32 - 1 else s.state)
       && Buffered(AppendAll(mtu, c, w.sent), t.out, t.cur)
  }

  lemma PassedNone(mtu: int, c: Cut, st: Stamp, p: Pace, s: Pass)
    requires !s.lost && s.change == 0 && 0 <= s.xmit < U32 && Buffered(c, s.out, s.cur)
    ensures PassedTo(mtu, c, st, p, s, 0, s)
  {
    hide Buffered, Wrap32;
    WrapSmall(s.xmit);
    assert [] + s.buf[0..] == s.buf;
  }

  lemma PassedSent(mtu: int, c: Cut, st: Stamp, p: Pace, s: Pass, i: nat, t: Pass)
    requires PassedTo(mtu, c, st, p, s, i, t)
    ensures i <= |s.buf| && Buffered(AppendAll(mtu, c, SweepAll(st, p, s.buf[..i]).sent), t.out, t.cur)
  {
    hide Buffered, Wrap32, AppendAll, SweepAll;
  }

  lemma SweepNext(st: Stamp, p: Pace, buf: seq<Seg>, i: nat)
    requires i < |buf|
    ensures SweepAll(st, p, buf[..i + 1]) == SweepStep(st, p, SweepAll(st, p, buf[..i]), buf[i])
  {
    hide SweepStep;
    assert buf[..i + 1][..i] == buf[..i];
  }

  /** One more turn. */
  lemma PassedMore(mtu: int, c: Cut, st: Stamp, p: Pace, s: Pass, i: nat, t: Pass, u: Pass)
    requires PassedTo(mtu, c, st, p, s, i, t) && i < |s.buf| == |t.buf|
    requires var x := t.buf[i]; var why, y := WhySend(p, x), Resend(st, p, x);
      && u.buf == t.buf[i := y] && u.lost == (t.lost || why == Timeout)
      && u.change == (if why == Fast then t.change + 1 else t.change)
      && u.xmit == (if why == Timeout then Wrap32(t.xmit + 1) else t.xmit)
      && u.state == (if why != Keep && y.xmit >= p.deadLink then U32 - 1 else t.state)
      && var sent := SweepAll(st, p, s.buf[..i]).sent;
         Buffered(AppendAll(mtu, c, if why != Keep then sent + [y] else sent), u.out, u.cur)
    ensures PassedTo(mtu, c, st, p, s, i + 1, u)
  {
    hide WhySend, Resend, SweepAll, Wrap32, Buffered, AppendAll;
    SweepNext(st, p, s.buf, i);
    WrapNext(s.xmit + SweepAll(st, p, s.buf[..i]).lost);
    AtSplit(SweepAll(st, p, s.buf[..i]).buf, s.buf[i..], Resend(st, p, s.buf[i]));
  }

  lemma PassedAll(mtu: int, c: Cut, st: Stamp, p: Pace, s: Pass, t: Pass)
    requires PassedTo(mtu, c, st, p, s, |s.buf|, t)
    ensures var w := SweepAll(st, p, s.buf);
      t.buf == w.buf && (t.lost <==> w.lost > 0) && t.change == w.change
      && t.xmit == Wrap32(s.xmit + w.lost) && t.state == (if w.dead then U32 - 1 else s.state)
      && Buffered(AppendAll(mtu, c, w.sent), t.out, t.cur)
  {
    hide SweepAll, Wrap32, Buffered, AppendAll;
    assert s.buf[..|s.buf|] == s.buf;
  }

  lemma NothingSent()
    ensures EncodeAll([]) == []
  {
  }

  lemma WrapNext(x: int)
    ensures Wrap32(Wrap32(x) + 1) == Wrap32(x + 1)
  {
  }

  lemma WrapRange(x: int)
    ensures 0 <= Wrap32(x) < U32
  {
  }

  /** The parts of a flush are cut as one list. */
  lemma FlushedAll(mtu: int, control: seq<Seg>, sent: seq<Seg>, out: seq<seq<Byte>>, cur: seq<Byte>)
    requires Buffered(AppendAll(mtu, AppendAll(mtu, Cut([], []), control), sent), out, cur)
    ensures EncodeAll(KcpModel.Packets(mtu, control + sent)) == if |cur| > 0 then out + [cur] else out
  {
    hide Append, AppendAll;
    AppendAllConcat(mtu, Cut([], []), control, sent);
    var c := AppendAll(mtu, Cut([], []), control + sent);
    EncodeAllLast(c.out, c.cur);
  }

  lemma {:induction false} MergeAppend(q: seq<Seg>, x: Seg)
    ensures Merge(q + [x]) == Merge(q) + x.data
  {
    if q == [] {
      assert Merge([x]) == x.data + Merge([]);
    } else {
      MergeAppend(q[1..], x);
      assert (q + [x])[1..] == q[1..] + [x];
    }
  }
}
