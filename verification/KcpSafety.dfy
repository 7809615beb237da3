/** Whole-run safety of two endpoints over an unreliable network. */
module KcpSafety {
  import opened Bytes
  import opened KcpModel
  import opened KcpSender
  import opened KcpReceiver
  import opened KcpEndpoint
  import opened KcpWire
  import opened KcpPackets
  import opened KcpHistory
  import opened KcpTransfer
  import opened KcpNetwork

  // ----- flush -----

  lemma FlushSenderHolds(h: seq<Seg>, s: Kcb, r: Rcv)
    requires SenderHolds(h, s.snd, r) && forall x :: x in h ==> x == Plain(x)
    ensures SenderHolds(h, Flush(Exact, s).0.snd, r)
  {
    hide FillBuf, SweepAll, SendWindow, PaceOf, StampOf, SenderHolds, SameCargo, AfterLoss, Packets;
    var st, p := StampOf(s), PaceOf(s);
    FillHolds(h, st, s.rtt.rto, s.snd, r, SendWindow(s));
    var snd := FillBuf(Exact, st, s.rtt.rto, s.snd, SendWindow(s));
    SweepSame(st, p, snd.buf);
    RenewedHolds(h, snd, r, SweepAll(st, p, snd.buf).buf);
  }

  lemma FlushedPacket(s: Kcb, p: seq<Seg>)
    requires BlockOk(Exact, s) && p in Flush(Exact, s).1
    ensures p != [] && Sendable(s.cfg, p) && forall x :: x in p ==> x in Outgoing(Exact, s)
  {
    hide Outgoing, SndOk, FlushPlan, Packets;
    FlushSends(Exact, s);
    OutgoingSendable(Exact, s);
    assert Small(s.cfg.mtu, p);
    forall x | x in p ensures x in Outgoing(Exact, s) {
      InFlatten(Flush(Exact, s).1, p, x);
    }
  }

  lemma FlushGenuine(h: seq<Seg>, s: Kcb, r: Rcv)
    requires BlockOk(Exact, s) && SenderHolds(h, s.snd, r) && forall x :: x in h ==> x == Plain(x)
    ensures AllGenuine(h, Flush(Exact, s).0.snd.nxt, Flush(Exact, s).1)
  {
    hide BlockOk, Outgoing, FlushPlan, Packets, SenderHolds, Carries;
    FlushKeeps(Exact, s);
    FlushSenderHolds(h, s, r);
    var t := Flush(Exact, s).0;
    forall p, x | p in Flush(Exact, s).1 && x in p ensures Genuine(h, t.snd.nxt, x) {
      FlushedPacket(s, p);
      OutgoingIs(s, x);
      if x.cmd == CMD_PUSH {
        BufBelow(h, t, r, x);
      }
    }
  }

  lemma BufBelow(h: seq<Seg>, s: Kcb, r: Rcv, x: Seg)
    requires BlockOk(Exact, s) && SenderHolds(h, s.snd, r) && x in s.snd.buf
    ensures x.sn < s.snd.nxt && Carries(h, x)
  {
    var i :| 0 <= i < |s.snd.buf| && s.snd.buf[i] == x;
    RisingAt(Exact, s.snd.una, 0, s.snd.buf, InFlight(Exact, s.snd), i);
  }

  lemma FlushHonest(s: Kcb)
    requires BlockOk(Exact, s) && AcksReceived(s.rcv, s.acklist) && 0 <= s.rcv.nxt
    ensures AllHonest(s.rcv, Flush(Exact, s).1)
  {
    hide BlockOk, Outgoing, FlushPlan, Packets, Received;
    forall p, x | p in Flush(Exact, s).1 && x in p ensures Honest(s.rcv, x) {
      FlushedPacket(s, p);
      OutgoingIs(s, x);
    }
  }

  lemma FlushRest(s: Kcb)
    ensures var t := Flush(Exact, s).0; t.rcv == s.rcv && t.cfg == s.cfg && (t.acklist == [] || t == s)
  {
    hide FillBuf, SweepAll, AfterLoss, Packets, SendWindow, PaceOf, StampOf;
  }

  // ----- combining -----

  lemma GenuineMore(h: seq<Seg>, more: seq<Seg>, top: int, top': int, out: seq<seq<Seg>>, ps: seq<seq<Seg>>)
    requires AllGenuine(h, top, out) && top <= top' && AllGenuine(h + more, top', ps)
    ensures AllGenuine(h + more, top', out + ps)
  {
    forall p, x | p in out + ps && x in p ensures Genuine(h + more, top', x) {
      if p in out {
        assert Genuine(h, top, x);
      } else {
        assert p in ps;
      }
    }
  }

  lemma HonestMore(r: Rcv, t: Rcv, out: seq<seq<Seg>>, ps: seq<seq<Seg>>)
    requires AllHonest(r, out) && StillReceived(r, t) && AllHonest(t, ps)
    ensures AllHonest(t, out + ps)
  {
    hide Received;
    forall p, x | p in out + ps && x in p ensures Honest(t, x) {
      if p in out {
        assert Honest(r, x);
      } else {
        assert p in ps;
      }
    }
  }

  lemma NothingNew(h: seq<Seg>, top: int, r: Rcv, out: seq<seq<Seg>>)
    ensures out + [] == out && h + [] == h && StillReceived(r, r)
  {
  }

  lemma SenderStill(h: seq<Seg>, s: Snd, r: Rcv, t: Rcv)
    requires SenderHolds(h, s, r) && StillReceived(r, t)
    ensures SenderHolds(h, s, t)
  {
    hide Received, Carries;
  }

  lemma TopMore(h: seq<Seg>, top: int, top': int, r: Rcv, del: nat)
    requires ReceiverHolds(h, top, r, del) && top <= top' <= |h|
    ensures ReceiverHolds(h, top', r, del)
  {
    hide Carries;
  }

  // ----- one step, as the sender -----

  lemma SendIs(s: Host, message: seq<Byte>)
    requires HostOk(s)
    ensures var (q, code) := Send(s.k.snd.queue, s.k.cfg.mss, s.k.cfg.stream != 0, message);
      if Short(s.k.cfg.mss, message) then code == 0 && q == s.k.snd.queue + Pieces(s.k.cfg.mss, message)
      else code == -2 && q == s.k.snd.queue
  {
    hide Fragments, FragmentCount;
  }

  lemma PastPlain(s: Host)
    requires HostOk(s)
    ensures forall x :: x in Past(s) ==> x == Plain(x) && 0 <= x.frg < WND_RCV
  {
    hide BlockOk;
    MssPositive(s.k);
    HistoryPlain(s.k.cfg.mss, s.sent);
  }

  lemma MssPositive(s: Kcb)
    requires BlockOk(Exact, s)
    ensures 0 < s.cfg.mss && 0 < s.cfg.rcvWnd && RcvOk(Exact, s.cfg.rcvWnd, s.rcv)
  {
  }

  lemma HostMss(s: Host)
    requires HostOk(s)
    ensures 0 < s.k.cfg.mss
  {
  }

  lemma SenderSends(s: Host, r: Host, message: seq<Byte>)
    requires HostOk(s) && Direction(s, r)
    ensures Direction(Step(Exact, s, r.out, DoSend(message)), r)
  {
    hide HostOk, Send, Short, Pieces, SenderHolds, ReceiverHolds, AcksReceived, AllHonest, Genuine;
    SendIs(s, message);
    if Short(s.k.cfg.mss, message) {
      var more := Pieces(s.k.cfg.mss, message);
      HistoryLast(s.k.cfg.mss, s.sent, message);
      LongerHistory(Past(s), more, s.k.snd, r.k.rcv, |History(s.k.cfg.mss, r.got)|);
      NothingNew(Past(s), 0, r.k.rcv, s.out);
      GenuineMore(Past(s), more, s.k.snd.nxt, s.k.snd.nxt, s.out, []);
    }
  }

  lemma SenderFlushes(s: Host, r: Host)
    requires HostOk(s) && Direction(s, r)
    ensures Direction(Step(Exact, s, r.out, DoFlush), r)
  {
    hide BlockOk, Flush, SenderHolds, ReceiverHolds, AcksReceived, AllHonest, AllGenuine, History;
    PastPlain(s);
    FlushSenderHolds(Past(s), s.k, r.k.rcv);
    FlushGenuine(Past(s), s.k, r.k.rcv);
    FlushRest(s.k);
    var t := Flush(Exact, s.k).0;
    FlushNumbers(s.k);
    NothingNew(Past(s), 0, r.k.rcv, s.out);
    GenuineMore(Past(s), [], s.k.snd.nxt, t.snd.nxt, s.out, Flush(Exact, s.k).1);
    SenderTop(Past(s), t.snd, r.k.rcv);
    TopMore(Past(s), s.k.snd.nxt, t.snd.nxt, r.k.rcv, |History(s.k.cfg.mss, r.got)|);
  }

  lemma SenderTop(h: seq<Seg>, s: Snd, r: Rcv)
    requires SenderHolds(h, s, r)
    ensures s.nxt <= |h|
  {
  }

  lemma FlushNumbers(s: Kcb)
    ensures s.snd.nxt <= Flush(Exact, s).0.snd.nxt
  {
    hide FillBuf, SweepAll, AfterLoss, Packets, SendWindow, PaceOf, StampOf;
    FillNumbers(StampOf(s), s.rtt.rto, s.snd, SendWindow(s));
  }

  lemma {:induction false} FillNumbers(p: Stamp, rto: int, s: Snd, cwnd: int)
    ensures s.nxt <= FillBuf(Exact, p, rto, s, cwnd).nxt
    decreases |s.queue|
  {
    if Diff(Exact, s.nxt, Norm(Exact, s.una + cwnd)) < 0 && s.queue != [] {
      FillNumbers(p, rto, Snd(s.una, s.nxt + 1, s.queue[1..], s.buf + [Launch(p, s.nxt, rto, s.queue[0])]), cwnd);
    }
  }

  /** The clock plays no part in what is held, sent or received. */
  lemma ClockFree(s: Host, r: Host, c: Clock)
    requires HostOk(s) && Direction(s, r)
    ensures HostOk(s.(k := s.k.(clock := c))) && Direction(s.(k := s.k.(clock := c)), r)
  {
    hide SenderHolds, ReceiverHolds, AcksReceived, AllHonest, AllGenuine, History, SndOk, RcvOk, BufOk, QueueOk, Short,
      AllSendable;
  }

  lemma SenderUpdates(s: Host, r: Host, t: int)
    requires HostOk(s) && Direction(s, r)
    ensures Direction(Step(Exact, s, r.out, DoUpdate(t)), r)
  {
    hide HostOk, Direction, Flush, Tick, BlockOk;
    HostMss(s);
    var (c, due) := Tick(s.k.clock, s.k.cfg.interval, t);
    ClockFree(s, r, c);
    if due {
      SenderFlushes(s.(k := s.k.(clock := c)), r);
    } else {
      NothingNew([], 0, r.k.rcv, s.out);
    }
  }

  lemma SenderReads(s: Host, r: Host, i: nat, z: nat)
    requires HostOk(s) && Direction(s, r) && HostOk(r)
    ensures Direction(Step(Exact, s, r.out, Deliver(i, z)), r)
  {
    hide BlockOk, ReadAll, SenderHolds, ReceiverHolds, AcksReceived, AllGenuine, History, GrowWindow, ParseFastack,
      Arrivals, Honest, AllArrived;
    if i < |r.out| {
      var p := r.out[i];
      assert p in r.out;
      ArrivesNormal(p);
      ArrivesHonest(r.k.cfg, r.k.rcv, p);
      var xs := Arrivals(Exact, p);
      ReadAllKeeps(s.k, Track(false, 0), xs);
      ReadAllSender(Past(s), s.k, Track(false, 0), xs, r.k.rcv);
      ReadAllNumbers(s.k, Track(false, 0), xs);
      var t := ReadAll(Exact, s.k, Track(false, 0), xs);
      FinishSender(Past(s), t.s, s.k.snd.una, t.f, r.k.rcv);
    }
  }

  lemma {:induction false} ReadAllNumbers(s: Kcb, f: Track, xs: seq<Seg>)
    ensures ReadAll(Exact, s, f, xs).s.snd.nxt == s.snd.nxt && ReadAll(Exact, s, f, xs).s.cfg == s.cfg
    decreases |xs|
  {
    hide TrackSeg, ParseUna, ParseAck, Accept, UpdateAck, Diff;
    if xs != [] {
      ReadAllNumbers(ProcessSeg(Exact, s, xs[0]), TrackSeg(Exact, f, xs[0]), xs[1..]);
    }
  }

  lemma FinishSender(h: seq<Seg>, s: Kcb, prevUna: int, f: Track, r: Rcv)
    requires SenderHolds(h, s.snd, r)
    ensures SenderHolds(h, InputFinish(Exact, s, prevUna, f).snd, r)
  {
    hide BumpFastack, SenderHolds, GrowWindow, SameCargo, Diff;
    BumpSame(s.snd.buf, f.maxack);
    RenewedHolds(h, s.snd, r, BumpFastack(Exact, s.snd.buf, f.maxack));
  }

  // ----- one step, as the receiver -----

  lemma ReceiverReads(s: Host, r: Host, i: nat, z: nat)
    requires HostOk(r) && Direction(s, r) && HostOk(s)
    ensures Direction(s, Step(Exact, r, s.out, Deliver(i, z)))
  {
    hide BlockOk, ReadAll, SenderHolds, ReceiverHolds, AcksReceived, History, GrowWindow, ParseFastack, Arrivals,
      Genuine, AllArrived, AllHonest;
    if i < |s.out| {
      var p := s.out[i];
      assert p in s.out;
      PastPlain(s);
      ArrivesNormal(p);
      ArrivesGenuine(s.k.cfg, Past(s), s.k.snd.nxt, p);
      var xs := Arrivals(Exact, p);
      ReadAllReceiver(Past(s), s.k.snd.nxt, r.k, Track(false, 0), xs, |History(s.k.cfg.mss, r.got)|);
      var t := ReadAll(Exact, r.k, Track(false, 0), xs).s;
      ReadAllNumbers(r.k, Track(false, 0), xs);
      SenderStill(Past(s), s.k.snd, r.k.rcv, t.rcv);
      NothingNew([], 0, t.rcv, r.out);
      HonestMore(r.k.rcv, t.rcv, r.out, []) by {
        NoneHonest(t.rcv);
      }
    }
  }

  lemma NoneHonest(r: Rcv)
    ensures AllHonest(r, [])
  {
  }

  lemma ReceiverFlushes(s: Host, r: Host)
    requires HostOk(r) && Direction(s, r)
    ensures Direction(s, Step(Exact, r, s.out, DoFlush))
  {
    hide BlockOk, Flush, SenderHolds, AllHonest, AllGenuine, History, Received, Carries;
    FlushHonest(r.k);
    FlushRest(r.k);
    NothingNew([], 0, r.k.rcv, r.out);
    HonestMore(r.k.rcv, r.k.rcv, r.out, Flush(Exact, r.k).1);
  }

  lemma ClockFreeReceiver(s: Host, r: Host, c: Clock)
    requires HostOk(r) && Direction(s, r)
    ensures HostOk(r.(k := r.k.(clock := c))) && Direction(s, r.(k := r.k.(clock := c)))
  {
    hide SenderHolds, ReceiverHolds, AcksReceived, AllHonest, AllGenuine, History, SndOk, RcvOk, BufOk, QueueOk, Short,
      AllSendable;
  }

  lemma ReceiverUpdates(s: Host, r: Host, t: int)
    requires HostOk(r) && Direction(s, r)
    ensures Direction(s, Step(Exact, r, s.out, DoUpdate(t)))
  {
    hide HostOk, Direction, Flush, Tick, BlockOk;
    HostMss(r);
    var (c, due) := Tick(r.k.clock, r.k.cfg.interval, t);
    ClockFreeReceiver(s, r, c);
    if due {
      ReceiverFlushes(s, r.(k := r.k.(clock := c)));
    } else {
      NothingNew([], 0, r.k.rcv, r.out);
    }
  }

  /** The front of the receive queue is the next message, or part of it. */
  lemma QueueStarts(s: Host, r: Host)
    requires HostOk(s) && Direction(s, r) && r.k.rcv.queue != []
    ensures |r.got| < |s.sent|
    ensures var message := s.sent[|r.got|]; var n, q := |Pieces(s.k.cfg.mss, message)|, r.k.rcv.queue;
      n < WND_RCV && |History(s.k.cfg.mss, r.got + [message])| == |History(s.k.cfg.mss, r.got)| + n
      && if n <= |q| then PeekSize(q) == |message| && MergeCount(q) == n && Merge(q[..n]) == message
         else PeekSize(q) == -1
  {
    hide BlockOk, SenderHolds, AcksReceived, AllHonest, AllGenuine, History, FragmentCount, Fragments, PeekSize,
      MergeCount, Merge;
    var mss, q, g := s.k.cfg.mss, r.k.rcv.queue, |r.got|;
    MssPositive(s.k);
    assert s.sent[..g] == r.got;
    HistoryAll(mss, s.sent, g);
    HistoryNext(mss, s.sent, g);
    var message := s.sent[g];
    var p := Pieces(mss, message);
    PiecesMerge(mss, message);
    assert s.sent[..g + 1] == r.got + [message];
    assert Short(mss, message);
    var d := |History(mss, r.got)|;
    forall i | 0 <= i < |q| && i < |p| ensures q[i].frg == |p| - 1 - i && Plain(q[i]) == p[i] {
      assert Past(s)[d..d + |p|][i] == p[i];
    }
    if |p| <= |q| {
      BeginsCount(q, |p|);
      BeginsPeek(q, |p|);
      MergePlains(q[..|p|]);
      assert Plains(q[..|p|]) == p;
    } else {
      NotYet(q, |p|);
    }
  }

  lemma ReceiverRecvs(s: Host, r: Host, len: int)
    requires HostOk(r) && HostOk(s) && Direction(s, r)
    ensures Direction(s, Step(Exact, r, s.out, DoRecv(len)))
  {
    hide HostOk, SenderHolds, ReceiverHolds, AcksReceived, AllHonest, AllGenuine, History, PeekSize, Merge, MergeCount,
      MoveReady, Pieces, StillReceived;
    var q := r.k.rcv.queue;
    if q != [] && PeekSize(q) >= 0 && PeekSize(q) <= (if len < 0 then -len else len) {
      QueueStarts(s, r);
      var n := MergeCount(q);
      var del := |History(s.k.cfg.mss, r.got)|;
      HandOver(Past(s), s.k.snd.nxt, r.k.rcv, del, n);
      var u := r.k.rcv.(queue := if len < 0 then q else q[n..]);
      MoveReadyHolds(Past(s), s.k.snd.nxt, r.k.cfg.rcvWnd, u, if len < 0 then del else del + n);
      var t := MoveReady(Exact, r.k.cfg.rcvWnd, u);
      SameReceived(r.k.rcv, u, t);
      SenderStill(Past(s), s.k.snd, r.k.rcv, t);
      AcksStill(r.k.rcv, t, r.k.acklist);
      NothingNew([], 0, t, r.out);
      HonestMore(r.k.rcv, t, r.out, []) by {
        NoneHonest(t);
      }
    }
  }

  lemma SameReceived(r: Rcv, u: Rcv, t: Rcv)
    requires u.nxt == r.nxt && u.buf == r.buf && StillReceived(u, t)
    ensures StillReceived(r, t)
  {
    forall sn | Received(r, sn) ensures Received(t, sn) {
      assert Received(u, sn);
    }
  }

  lemma AcksStill(r: Rcv, t: Rcv, acks: seq<Ack>)
    requires AcksReceived(r, acks) && StillReceived(r, t)
    ensures AcksReceived(t, acks)
  {
    hide Received;
  }

  // ----- one step -----

  lemma StepAsSender(s: Host, r: Host, e: Event)
    requires HostOk(s) && HostOk(r) && Direction(s, r)
    ensures Direction(Step(Exact, s, r.out, e), r)
  {
    hide HostOk, Direction;
    HostMss(s);
    match e
    case DoSend(message) => SenderSends(s, r, message);
    case DoRecv(len) => SenderRecvs(s, r, len);
    case DoUpdate(t) => SenderUpdates(s, r, t);
    case DoFlush => SenderFlushes(s, r);
    case Deliver(i, z) => SenderReads(s, r, i, z);
  }

  lemma SenderRecvs(s: Host, r: Host, len: int)
    requires HostOk(s) && Direction(s, r)
    ensures Direction(Step(Exact, s, r.out, DoRecv(len)), r)
  {
    hide HostOk, SenderHolds, ReceiverHolds, AcksReceived, AllHonest, AllGenuine, History, PeekSize, Merge, MergeCount,
      MoveReady;
  }

  lemma ReceiverSends(s: Host, r: Host, message: seq<Byte>)
    requires HostOk(r) && Direction(s, r)
    ensures Direction(s, Step(Exact, r, s.out, DoSend(message)))
  {
    hide HostOk, SenderHolds, ReceiverHolds, AcksReceived, AllHonest, AllGenuine, History, Send;
  }

  lemma StepAsReceiver(s: Host, r: Host, e: Event)
    requires HostOk(s) && HostOk(r) && Direction(s, r)
    ensures Direction(s, Step(Exact, r, s.out, e))
  {
    hide HostOk, Direction;
    HostMss(r);
    match e
    case DoSend(message) => ReceiverSends(s, r, message);
    case DoRecv(len) => ReceiverRecvs(s, r, len);
    case DoUpdate(t) => ReceiverUpdates(s, r, t);
    case DoFlush => ReceiverFlushes(s, r);
    case Deliver(i, z) => ReceiverReads(s, r, i, z);
  }

  lemma HostFlushes(h: Host)
    requires HostOk(h)
    ensures HostOk(Step(Exact, h, [], DoFlush))
  {
    hide BlockOk, Flush, Short, Sendable;
    FlushKeeps(Exact, h.k);
    FlushRest(h.k);
    forall p | p in Flush(Exact, h.k).1 ensures p != [] && Sendable(h.k.cfg, p) {
      FlushedPacket(h.k, p);
    }
  }

  lemma HostUpdates(h: Host, t: int)
    requires HostOk(h)
    ensures HostOk(Step(Exact, h, [], DoUpdate(t)))
  {
    hide Flush, Tick, SndOk, RcvOk, Short, AllSendable, BufOk, QueueOk;
    var (c, due) := Tick(h.k.clock, h.k.cfg.interval, t);
    var g := h.(k := h.k.(clock := c));
    if due {
      HostFlushes(g);
    } else {
      NothingNew([], 0, h.k.rcv, h.out);
    }
  }

  lemma HostReads(h: Host, inbox: seq<seq<Seg>>, i: nat, z: nat)
    requires HostOk(h)
    ensures HostOk(Step(Exact, h, inbox, Deliver(i, z)))
  {
    hide BlockOk, ReadAll, Short, AllSendable, Arrivals, AllArrived, GrowWindow, ParseFastack;
    if i < |inbox| {
      var xs := Arrivals(Exact, inbox[i]);
      ArrivesNormal(inbox[i]);
      ReadAllKeeps(h.k, Track(false, 0), xs);
      var t := ReadAll(Exact, h.k, Track(false, 0), xs);
      InputFinishKeeps(Exact, t.s, h.k.snd.una, t.f);
    }
  }

  lemma HostSends(h: Host, message: seq<Byte>)
    requires HostOk(h)
    ensures HostOk(Step(Exact, h, [], DoSend(message)))
  {
    hide Send, Rising, RcvOk, BufOk, AllSendable, Short;
    SendIs(h, message);
    SendKeeps(h.k.cfg, h.k.snd.queue, message);
  }

  lemma HostRecvs(h: Host, len: int)
    requires HostOk(h)
    ensures HostOk(Step(Exact, h, [], DoRecv(len)))
  {
    hide BlockOk, AllSendable, Short, PeekSize, Merge, MergeCount, MoveReady;
    RecvKeeps(Exact, h.k, len);
  }

  lemma HostSteps(h: Host, inbox: seq<seq<Seg>>, e: Event)
    requires HostOk(h)
    ensures HostOk(Step(Exact, h, inbox, e)) && Step(Exact, h, inbox, e).k.cfg == h.k.cfg
  {
    hide HostOk, Send, Recv, Update, Flush, ReadGroup;
    HostMss(h);
    match e
    case DoSend(message) =>
      HostSends(h, message);
    case DoRecv(len) =>
      HostRecvs(h, len);
      RecvConfig(h.k, len);
    case DoUpdate(t) =>
      HostUpdates(h, t);
      UpdateConfig(h.k, t);
    case DoFlush =>
      HostFlushes(h);
      FlushRest(h.k);
    case Deliver(i, z) =>
      HostReads(h, inbox, i, z);
      if i < |inbox| {
        ReadConfig(h.k, Arrivals(Exact, inbox[i]), z);
      }
  }

  lemma RecvConfig(s: Kcb, len: int)
    ensures Recv(Exact, s, len).0.cfg == s.cfg
  {
    hide MoveReady, PeekSize, Merge, MergeCount;
  }

  lemma UpdateConfig(s: Kcb, t: int)
    ensures Update(Exact, s, t).0.cfg == s.cfg
  {
    hide Flush, Tick;
    FlushRest(s.(clock := Tick(s.clock, s.cfg.interval, t).0));
  }

  lemma ReadConfig(s: Kcb, xs: seq<Seg>, z: nat)
    ensures ReadGroup(Exact, s, xs, z).cfg == s.cfg
  {
    hide ReadAll, GrowWindow, ParseFastack;
    ReadAllNumbers(s, Track(false, 0), xs);
  }

  // ----- whole runs -----

  datatype Net = Net(a: Host, b: Host)

  datatype Act = Act(atA: bool, event: Event)

  function NewHost(c: Settings): Host {
    Host(Create(c), [], [], [])
  }

  function Next(m: Mode, n: Net, act: Act): Net
    requires 0 < n.a.k.cfg.mss && 0 < n.b.k.cfg.mss
  {
    if act.atA then n.(a := Step(m, n.a, n.b.out, act.event)) else n.(b := Step(m, n.b, n.a.out, act.event))
  }

  predicate NetOk(n: Net) {
    HostOk(n.a) && HostOk(n.b) && n.a.k.cfg.conv == n.b.k.cfg.conv && Direction(n.a, n.b) && Direction(n.b, n.a)
  }

  lemma NextKeeps(n: Net, act: Act)
    requires NetOk(n)
    ensures 0 < n.a.k.cfg.mss && 0 < n.b.k.cfg.mss && NetOk(Next(Exact, n, act))
    ensures Next(Exact, n, act).a.k.cfg == n.a.k.cfg && Next(Exact, n, act).b.k.cfg == n.b.k.cfg
  {
    hide HostOk, Direction, Step;
    HostMss(n.a);
    HostMss(n.b);
    if act.atA {
      HostSteps(n.a, n.b.out, act.event);
      StepAsSender(n.a, n.b, act.event);
      StepAsReceiver(n.b, n.a, act.event);
    } else {
      HostSteps(n.b, n.a.out, act.event);
      StepAsSender(n.b, n.a, act.event);
      StepAsReceiver(n.a, n.b, act.event);
    }
  }

  /** Two endpoints of one conversation, in message mode. */
  predicate Pair(a: Settings, b: Settings) {
    Setup(a) && Setup(b) && a.conv == b.conv != 0 && a.stream == 0 == b.stream
  }

  lemma StartOk(a: Settings, b: Settings)
    requires Pair(a, b)
    ensures NetOk(Net(NewHost(a), NewHost(b)))
  {
    StartHost(a);
    StartHost(b);
  }

  lemma StartHost(c: Settings)
    requires Setup(c) && c.conv != 0 && c.stream == 0
    ensures HostOk(NewHost(c))
  {
  }

  lemma StepConfig(m: Mode, h: Host, inbox: seq<seq<Seg>>, e: Event)
    requires 0 < h.k.cfg.mss
    ensures Step(m, h, inbox, e).k.cfg == h.k.cfg
  {
    hide Send, FillBuf, SweepAll, ReadAll, MoveReady, AfterLoss, ParseFastack, GrowWindow, Packets, PeekSize, Merge,
      MergeCount, Arrivals;
    match e
    case DoSend(message) =>
    case DoRecv(len) =>
    case DoUpdate(t) =>
    case DoFlush =>
    case Deliver(i, z) =>
      if i < |inbox| {
        ReadAllConfig(m, h.k, Track(false, 0), Arrivals(m, inbox[i]));
      }
  }

  lemma {:induction false} ReadAllConfig(m: Mode, s: Kcb, f: Track, xs: seq<Seg>)
    ensures ReadAll(m, s, f, xs).s.cfg == s.cfg
    decreases |xs|
  {
    hide TrackSeg, DropUna, DropAck, Accept, UpdateAck, Diff;
    if xs != [] {
      ReadAllConfig(m, ProcessSeg(m, s, xs[0]), TrackSeg(m, f, xs[0]), xs[1..]);
    }
  }

  /** The state after any actions, with exact sequence numbers. */
  function Play(a: Settings, b: Settings, acts: seq<Act>): (n: Net)
    requires Pair(a, b)
    ensures n.a.k.cfg == a && n.b.k.cfg == b
  {
    if acts == [] then Net(NewHost(a), NewHost(b))
    else
      var n, act := Play(a, b, acts[..|acts| - 1]), acts[|acts| - 1];
      StepConfig(Exact, n.a, n.b.out, act.event);
      StepConfig(Exact, n.b, n.a.out, act.event);
      Next(Exact, n, act)
  }

  /** What is known of both directions holds in every reachable state. */
  lemma {:induction false} PlayOk(a: Settings, b: Settings, acts: seq<Act>)
    requires Pair(a, b)
    ensures NetOk(Play(a, b, acts))
  {
    hide NetOk, Next, Pair;
    if acts == [] {
      StartOk(a, b);
    } else {
      PlayOk(a, b, acts[..|acts| - 1]);
      NextKeeps(Play(a, b, acts[..|acts| - 1]), acts[|acts| - 1]);
    }
  }

  /** Whole-run safety: in every run, what either side has returned to its
      application is a prefix of what the other side accepted. */
  lemma DeliversPrefix(a: Settings, b: Settings, acts: seq<Act>)
    requires Pair(a, b)
    ensures var n := Play(a, b, acts); n.b.got <= n.a.sent && n.a.got <= n.b.sent
  {
    hide HostOk, Play, SenderHolds, ReceiverHolds, AcksReceived, AllHonest, AllGenuine;
    PlayOk(a, b, acts);
  }

  /** No numbered fragment is ever lost: the sender still holds it or the
      receiver has it, and acknowledgements in flight name only received ones. */
  lemma NothingLost(a: Settings, b: Settings, acts: seq<Act>, sn: int)
    requires Pair(a, b)
    ensures var n := Play(a, b, acts);
      && (0 <= sn < n.a.k.snd.nxt ==> Present(n.a.k.snd.buf, sn) || Received(n.b.k.rcv, sn))
      && (0 <= sn < n.b.k.snd.nxt ==> Present(n.b.k.snd.buf, sn) || Received(n.a.k.rcv, sn))
      && AllHonest(n.b.k.rcv, n.b.out) && AllHonest(n.a.k.rcv, n.a.out)
  {
    hide HostOk, Play, ReceiverHolds, AcksReceived, AllHonest, AllGenuine, Received, Present, Carries;
    PlayOk(a, b, acts);
  }

  /** No wedge: in every reachable state a full receive queue begins with a
      whole message; ikcp_peeksize tells its exact length, and an ikcp_recv
      with enough room returns it and frees room or moves rcv_nxt on. */
  lemma NoWedge(a: Settings, b: Settings, acts: seq<Act>, len: int)
    requires Pair(a, b)
    requires |Play(a, b, acts).b.k.rcv.queue| >= b.rcvWnd
    ensures var n := Play(a, b, acts); var (s, r) := (n.a, n.b);
      |r.got| < |s.sent| && PeekSize(r.k.rcv.queue) == |s.sent[|r.got|]|
      && (len >= |s.sent[|r.got|]| ==>
            var (k, code, data) := Recv(Exact, r.k, len);
            code == |data| && data == s.sent[|r.got|]
            && (|k.rcv.queue| < b.rcvWnd || 0 < k.rcv.nxt - r.k.rcv.nxt <= b.rcvWnd))
  {
    hide Play, SenderHolds, ReceiverHolds, AcksReceived, AllHonest, AllGenuine, PeekSize, Merge, MergeCount, MoveReady,
      Pieces, Moved, SndOk, History;
    PlayOk(a, b, acts);
    var n := Play(a, b, acts);
    var q := n.b.k.rcv.queue;
    QueueStarts(n.a, n.b);
    if len >= PeekSize(q) {
      var u := n.b.k.rcv.(queue := q[MergeCount(q)..]);
      MovesOn(b.rcvWnd, u);
    }
  }

  lemma MovesOn(wnd: int, r: Rcv)
    requires |r.queue| < wnd
    ensures |MoveReady(Exact, wnd, r).queue| < wnd || 0 < MoveReady(Exact, wnd, r).nxt - r.nxt <= wnd
  {
    hide MoveReady;
    var n := MoveReadyMoves(Exact, wnd, r);
  }
}
