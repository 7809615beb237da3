/** What the calls of the application do, said without the functions they are
    built from: when ikcp_update flushes, how ikcp_send cuts, what ikcp_recv
    returns, and how a round-trip sample moves the estimate. */
module KcpCalls {
  import opened Bytes
  import opened KcpModel
  import opened KcpReceiver
  import opened KcpHistory
  import opened KcpSender

  // ----- the clock -----

  /** ikcp_update flushes exactly if the block is new, its flush time is not in
      the future, or it is more than 10 seconds ahead. The next flush time is one
      interval after the old one if that is still to come, so the rhythm is kept;
      otherwise one interval after the call. */
  lemma UpdateFlushes(m: Mode, s: Kcb, t: int)
    requires 0 < s.cfg.interval <= 5000
    ensures var was, interval := s.clock.tsFlush, s.cfg.interval;
      var late := Signed32(t - was);
      var next := if s.clock.updated && 0 <= late < interval then Wrap32(was + interval) else Wrap32(t + interval);
      Update(m, s, t) ==
        if !s.clock.updated || late >= 0 || late < -10000 then Flush(m, s.(clock := Clock(t, next, true)))
        else (s.(clock := Clock(t, was, true)), [])
  {
    hide Flush, Wrap32;
    TickIs(s.clock, s.cfg.interval, t);
  }

  lemma TickIs(c: Clock, interval: int, t: int)
    requires 0 < interval <= 5000
    ensures var late := Signed32(t - c.tsFlush);
      var next := if c.updated && 0 <= late < interval then Wrap32(c.tsFlush + interval) else Wrap32(t + interval);
      Tick(c, interval, t) ==
        if !c.updated || late >= 0 || late < -10000 then (Clock(t, next, true), true)
        else (Clock(t, c.tsFlush, true), false)
  {
    hide Wrap32, Signed32;
    Later(t, t, interval);
    Later(t, c.tsFlush, interval);
    Nothing(t);
  }

  lemma Nothing(t: int)
    ensures Signed32(t - t) == 0
  {
  }

  /** How late t is for a time moved on by one interval. */
  lemma Later(t: int, ts: int, interval: int)
    requires 0 < interval <= 5000
    ensures -10000 <= Signed32(t - ts) ==> Signed32(t - Wrap32(ts + interval)) == Signed32(t - ts) - interval
  {
    hide Wrap32;
    var j := WrapSplit(t - ts);
    var k := WrapSplit(ts + interval);
    var d := Signed32(t - ts) - interval;
    var w := Wrap32(t - ts);
    if -10000 <= Signed32(t - ts) {
      if w < I32 && d >= 0 {
        WrapIs(t - Wrap32(ts + interval), j + k, d);
      } else if w < I32 {
        WrapIs(t - Wrap32(ts + interval), j + k - 1, d + U32);
      } else {
        WrapIs(t - Wrap32(ts + interval), j + k, d + U32);
      }
    }
  }

  // ----- samples -----

  /** A sample moves the estimate an eighth of the way and the deviation a
      quarter; the first one sets both. The timeout is the estimate and four
      deviations, or one interval if that is more, between minrto and a minute. */
  lemma SampleMoves(r: Rtt, interval: int, minrto: int, rtt: int)
    requires 0 <= r.srtt < I32 / 32 && 0 <= r.rttval < I32 / 32 && 0 <= rtt < I32 / 32
    requires 0 < interval <= 5000 && 0 < minrto <= 60000
    ensures var q := UpdateAck(r, interval, minrto, rtt);
      var gap := if rtt < r.srtt then r.srtt - rtt else rtt - r.srtt;
      && (r.srtt == 0 ==> q.srtt == rtt && 2 * q.rttval <= rtt <= 2 * q.rttval + 1)
      && (r.srtt > 0 ==>
            && q.srtt >= 1 && 7 * r.srtt + rtt < 8 * q.srtt + 8
            && (8 * q.srtt <= 7 * r.srtt + rtt || q.srtt == 1)
            && 4 * q.rttval <= 3 * r.rttval + gap < 4 * q.rttval + 4)
      && 0 <= q.srtt < I32 / 32 && 0 <= q.rttval < I32 / 32
      && minrto <= q.rto <= 60000
      && var wish := q.srtt + Max(interval, 4 * q.rttval);
         q.rto == if wish < minrto then minrto else if wish > 60000 then 60000 else wish
  {
    hide Wrap32, Signed32, CDiv, UpdateAck;
    EstimateMoves(r, interval, minrto, rtt);
    DeviationMoves(r, interval, minrto, rtt);
    TimeoutIs(r, interval, minrto, rtt);
  }

  lemma EstimateMoves(r: Rtt, interval: int, minrto: int, rtt: int)
    requires 0 <= r.srtt < I32 / 32 && 0 <= rtt < I32 / 32
    ensures var q := UpdateAck(r, interval, minrto, rtt);
      && 0 <= q.srtt < I32 / 32
      && (r.srtt == 0 ==> q.srtt == rtt)
      && (r.srtt > 0 ==>
            && q.srtt >= 1 && 7 * r.srtt + rtt < 8 * q.srtt + 8
            && (8 * q.srtt <= 7 * r.srtt + rtt || q.srtt == 1))
  {
    hide Wrap32, Signed32, CDiv;
    Small(7 * r.srtt + rtt);
    Quotient(7 * r.srtt + rtt, 8);
  }

  lemma DeviationMoves(r: Rtt, interval: int, minrto: int, rtt: int)
    requires 0 <= r.srtt < I32 / 32 && 0 <= r.rttval < I32 / 32 && 0 <= rtt < I32 / 32
    ensures var q := UpdateAck(r, interval, minrto, rtt);
      var gap := if rtt < r.srtt then r.srtt - rtt else rtt - r.srtt;
      && 0 <= q.rttval < I32 / 32
      && (r.srtt == 0 ==> 2 * q.rttval <= rtt <= 2 * q.rttval + 1)
      && (r.srtt > 0 ==> 4 * q.rttval <= 3 * r.rttval + gap < 4 * q.rttval + 4)
  {
    hide Wrap32, Signed32, CDiv;
    var gap := if rtt < r.srtt then r.srtt - rtt else rtt - r.srtt;
    Small(rtt - r.srtt);
    Small(3 * r.rttval);
    Quotient(3 * r.rttval + gap, 4);
    Small(CDiv(3 * r.rttval + gap, 4));
  }

  lemma TimeoutIs(r: Rtt, interval: int, minrto: int, rtt: int)
    requires 0 < interval <= 5000 && 0 < minrto <= 60000
    requires var q := UpdateAck(r, interval, minrto, rtt); 0 <= q.srtt < I32 / 32 && 0 <= q.rttval < I32 / 32
    ensures var q := UpdateAck(r, interval, minrto, rtt);
      var wish := q.srtt + Max(interval, 4 * q.rttval);
      q.rto == if wish < minrto then minrto else if wish > 60000 then 60000 else wish
  {
    hide Wrap32, Signed32, CDiv;
    var q := UpdateAck(r, interval, minrto, rtt);
    WrapSmall(4 * q.rttval);
    WrapSmall(q.srtt + Max(interval, 4 * q.rttval));
  }

  lemma Quotient(a: int, b: int)
    requires a >= 0 && (b == 4 || b == 8)
    ensures b * CDiv(a, b) <= a < b * CDiv(a, b) + b && CDiv(a, b) >= 0
  {
  }

  lemma Small(x: int)
    requires -I32 <= x < I32
    ensures Signed32(x) == x
  {
  }

  // ----- sending -----

  lemma AtLeastOne(n: int, mss: int)
    requires n >= 1 && mss > 0
    ensures n * mss >= mss
  {
  }

  lemma Products(a: int, b: int, c: int)
    requires a <= b && c > 0
    ensures a * c <= b * c
  {
  }

  /** The number of pieces: the least that holds everything, and one for an empty
      message. */
  lemma CountFits(mss: int, len: nat)
    requires mss > 0
    ensures var n := FragmentCount(mss, len);
      len <= n * mss && (len > 0 ==> (n - 1) * mss < len) && (len == 0 ==> n == 1)
      && (n >= 128 <==> len > 127 * mss)
  {
    hide FragmentCount;
    Enough(mss, len);
    Least(mss, len);
    var n := FragmentCount(mss, len);
    if n >= 128 {
      Products(127, n - 1, mss);
    } else {
      Products(n, 127, mss);
    }
  }

  lemma Least(mss: int, len: nat)
    requires mss > 0
    ensures var n := FragmentCount(mss, len); (n - 1) * mss < len || (len == 0 && n == 1)
  {
    if len > mss {
      var x := len + mss - 1;
      var n := x / mss;
      assert x == n * mss + x % mss;
      assert (n - 1) * mss == n * mss - mss;
    }
  }

  lemma {:induction false} FragmentSizes(mss: int, data: seq<Byte>, count: nat, stream: bool)
    requires mss > 0 && 0 < count && |data| <= count * mss && (count - 1) * mss < |data|
    ensures var f := Fragments(mss, data, count, stream);
      && (forall i :: 0 <= i < count - 1 ==> |f[i].data| == mss) && 0 < |f[count - 1].data| <= mss
    decreases count
  {
    if count > 1 {
      assert (count - 1) * mss == (count - 2) * mss + mss && count * mss == (count - 1) * mss + mss;
      AtLeastOne(count - 1, mss);
      FragmentSizes(mss, data[mss..], count - 1, stream);
    }
  }

  lemma {:induction false} FragmentKinds(mss: int, data: seq<Byte>, count: nat, stream: bool)
    requires mss > 0 && |data| <= count * mss
    ensures var f := Fragments(mss, data, count, stream);
      Merge(f) == data && forall i :: 0 <= i < count ==> f[i].frg == if stream then 0 else count - 1 - i
    decreases count
  {
    if count > 0 {
      var size := Min(|data|, mss);
      assert count * mss == (count - 1) * mss + mss;
      if count > 1 {
        AtLeastOne(count - 1, mss);
      }
      FragmentKinds(mss, data[size..], count - 1, stream);
      assert data[..size] + data[size..] == data;
    } else {
      assert data == [];
    }
  }

  /** f are the pieces of data: full but for the last, which is not empty unless
      there is nothing to send. */
  predicate Pieced(mss: int, f: seq<Seg>, data: seq<Byte>) {
    && f != [] && Merge(f) == data
    && (forall i :: 0 <= i < |f| - 1 ==> |f[i].data| == mss)
    && |f[|f| - 1].data| <= mss && (data != [] ==> f[|f| - 1].data != [])
    && (data == [] ==> |f| == 1)
  }

  lemma CutIs(mss: int, data: seq<Byte>, stream: bool)
    requires mss > 0
    ensures var n := FragmentCount(mss, |data|); var f := Fragments(mss, data, n, stream);
      && Pieced(mss, f, data) && (n >= 128 <==> |data| > 127 * mss)
      && forall i :: 0 <= i < n ==> f[i].frg == if stream then 0 else n - 1 - i
  {
    hide FragmentCount, Merge;
    var n := FragmentCount(mss, |data|);
    CountFits(mss, |data|);
    FragmentKinds(mss, data, n, stream);
    if data != [] {
      FragmentSizes(mss, data, n, stream);
    }
  }

  /** ikcp_send in message mode: more than 127 full segments are refused and
      change nothing; anything else is queued in pieces numbered down to 0. */
  lemma SendCuts(queue: seq<Seg>, mss: int, data: seq<Byte>)
    requires mss > 0
    ensures var (q, code) := Send(queue, mss, false, data);
      && code == (if |data| > 127 * mss then -2 else 0)
      && (code != 0 ==> q == queue)
      && (code == 0 ==>
            && |queue| < |q| && q[..|queue|] == queue && Pieced(mss, q[|queue|..], data)
            && forall i :: |queue| <= i < |q| ==> q[i].frg == |q| - 1 - i)
  {
    hide FragmentCount, Fragments, Pieced;
    CutIs(mss, data, false);
    var f := Fragments(mss, data, FragmentCount(mss, |data|), false);
    assert (queue + f)[..|queue|] == queue && (queue + f)[|queue|..] == f;
  }

  /** How much of data the last queued segment still takes. */
  function Slack(queue: seq<Seg>, mss: int, data: seq<Byte>): (n: nat)
    ensures n <= |data|
  {
    if queue == [] || |queue[|queue| - 1].data| >= mss then 0 else Min(|data|, mss - |queue[|queue| - 1].data|)
  }

  /** All segments but the last are full. */
  predicate Packed(q: seq<Seg>, mss: int) {
    (forall i :: 0 <= i < |q| - 1 ==> |q[i].data| == mss) && (q != [] ==> |q[|q| - 1].data| <= mss)
  }

  lemma {:induction false} MergeJoin(p: seq<Seg>, q: seq<Seg>)
    ensures Merge(p + q) == Merge(p) + Merge(q)
    decreases |p|
  {
    if p == [] {
      assert p + q == q;
    } else {
      MergeJoin(p[1..], q);
      assert (p + q)[1..] == p[1..] + q;
    }
  }

  lemma MergeLast(p: seq<Seg>)
    requires p != []
    ensures Merge(p) == Merge(p[..|p| - 1]) + p[|p| - 1].data
  {
    var l := |p| - 1;
    MergeJoin(p[..l], [p[l]]);
    assert p == p[..l] + [p[l]] && [p[l]][1..] == [];
  }

  /** ikcp_send in stream mode: the bytes follow those queued before, and packed
      segments stay packed. When more than 127 segments would be needed beyond
      the last one, the call is refused; but what fits the last segment has been
      queued all the same. */
  lemma SendStreams(queue: seq<Seg>, mss: int, data: seq<Byte>)
    requires mss > 0
    ensures var (q, code) := Send(queue, mss, true, data); var room := Slack(queue, mss, data);
      && code == (if |data| - room > 127 * mss then -2 else 0)
      && Merge(q) == Merge(queue) + (if code == 0 then data else data[..room])
      && (Packed(queue, mss) ==> Packed(q, mss))
  {
    hide FragmentCount, Fragments, Pieced, ExtendTail, Packed, Merge;
    var room := Slack(queue, mss, data);
    var q := if CanExtend(queue, mss) then ExtendTail(queue, mss, data) else queue;
    Extended(queue, mss, data);
    var rest := data[room..];
    assert data[..room] + rest == data;
    if rest != [] {
      CutIs(mss, rest, true);
      var f := Fragments(mss, rest, FragmentCount(mss, |rest|), true);
      PiecedMerge(mss, f, rest);
      MergeJoin(q, f);
      if Packed(queue, mss) {
        JoinPacked(queue, mss, data, f);
      }
    }
  }

  lemma PiecedMerge(mss: int, f: seq<Seg>, data: seq<Byte>)
    requires Pieced(mss, f, data)
    ensures Merge(f) == data
  {
  }

  lemma Extended(queue: seq<Seg>, mss: int, data: seq<Byte>)
    requires mss > 0
    ensures var q := if CanExtend(queue, mss) then ExtendTail(queue, mss, data) else queue;
      var room := Slack(queue, mss, data);
      && Merge(q) == Merge(queue) + data[..room]
      && (CanExtend(queue, mss) ==> TailRoom(queue, mss, data) == room)
      && (!CanExtend(queue, mss) ==> room == 0)
      && (Packed(queue, mss) ==> Packed(q, mss) && (room < |data| && q != [] ==> |q[|q| - 1].data| == mss))
  {
    hide Merge;
    if CanExtend(queue, mss) {
      var q := ExtendTail(queue, mss, data);
      MergeLast(queue);
      MergeLast(q);
      assert q[..|q| - 1] == queue[..|queue| - 1];
    } else {
      assert Merge(queue) + [] == Merge(queue);
    }
  }

  lemma JoinPacked(queue: seq<Seg>, mss: int, data: seq<Byte>, f: seq<Seg>)
    requires mss > 0 && Packed(queue, mss) && Slack(queue, mss, data) < |data|
    requires Pieced(mss, f, data[Slack(queue, mss, data)..])
    ensures Packed((if CanExtend(queue, mss) then ExtendTail(queue, mss, data) else queue) + f, mss)
  {
    hide Merge;
    Extended(queue, mss, data);
  }

  // ----- receiving -----

  /** The first message of q is not complete. */
  predicate Partial(q: seq<Seg>) {
    q != [] && q[0].frg != 0 && |q| <= q[0].frg
  }

  /** ikcp_recv of an empty queue, of an incomplete message, and with too little
      room: three codes, and nothing changes. */
  lemma RecvRefuses(m: Mode, s: Kcb, len: int, n: nat)
    ensures s.rcv.queue == [] ==> Recv(m, s, len) == (s, -1, [])
    ensures Partial(s.rcv.queue) ==> Recv(m, s, len) == (s, -2, [])
    ensures Begins(s.rcv.queue, n) && |Merge(s.rcv.queue[..n])| > (if len < 0 then -len else len) ==>
      Recv(m, s, len) == (s, -3, [])
  {
    hide MoveReady, Merge, MergeCount;
    if Begins(s.rcv.queue, n) {
      BeginsPeek(s.rcv.queue, n);
    }
  }

  /** ikcp_recv of a whole message: its bytes, and unless only peeked at it is
      gone. What has become contiguous follows, and when the queue was full and no
      longer is, the peer is to be told. */
  lemma RecvReturns(m: Mode, s: Kcb, len: int, n: nat) returns (k: nat)
    requires Begins(s.rcv.queue, n) && Normal(m, s.rcv.nxt)
    requires |Merge(s.rcv.queue[..n])| <= (if len < 0 then -len else len)
    ensures var (t, code, data) := Recv(m, s, len); var q := s.rcv.queue;
      && data == Merge(q[..n]) && code == |data|
      && Moved(m, s.rcv.(queue := if len < 0 then q else q[n..]), k, t.rcv) && Settled(s.cfg.rcvWnd, t.rcv)
      && t.probe == s.probe.(tell := s.probe.tell || |t.rcv.queue| < s.cfg.rcvWnd <= |q|)
      && t == s.(rcv := t.rcv, probe := t.probe)
  {
    hide MoveReady, Merge, MergeCount, PeekLen, Norm, Normal, Moved, Settled;
    var q := s.rcv.queue;
    BeginsPeek(q, n);
    BeginsCount(q, n);
    k := MoveReadyMoves(m, s.cfg.rcvWnd, s.rcv.(queue := if len < 0 then q else q[n..]));
  }
}
