/** Two endpoints and a network that loses, duplicates and reorders datagrams:
    whatever happens, each side hands its application a prefix of the messages
    the other side accepted. */
module KcpNetwork {
  import opened Bytes
  import opened KcpModel
  import opened KcpSender
  import opened KcpReceiver
  import opened KcpEndpoint
  import opened KcpWire
  import opened KcpTiming
  import opened KcpPackets
  import opened KcpHistory
  import opened KcpTransfer

  /** An endpoint, every datagram it ever sent, the messages ikcp_send accepted
      and those ikcp_recv returned. */
  datatype Host = Host(k: Kcb, out: seq<seq<Seg>>, sent: seq<seq<Byte>>, got: seq<seq<Byte>>)

  /** Deliver hands over datagram i of all those the peer ever sent, with z zero
      bytes behind it: any loss, duplication and reordering is some choice of
      events. */
  datatype Event = DoSend(message: seq<Byte>) | DoRecv(len: int) | DoUpdate(t: int) | DoFlush | Deliver(i: nat, z: nat)

  function Step(m: Mode, h: Host, inbox: seq<seq<Seg>>, e: Event): (t: Host)
    requires h.k.cfg.mss > 0
  {
    match e
    case DoSend(message) =>
      var (queue, code) := Send(h.k.snd.queue, h.k.cfg.mss, h.k.cfg.stream != 0, message);
      h.(k := h.k.(snd := h.k.snd.(queue := queue)), sent := if code == 0 then h.sent + [message] else h.sent)
    case DoRecv(len) =>
      var (k, code, data) := Recv(m, h.k, len);
      h.(k := k, got := if code >= 0 && len >= 0 then h.got + [data] else h.got)
    case DoUpdate(t) =>
      var (k, ps) := Update(m, h.k, t);
      h.(k := k, out := h.out + ps)
    case DoFlush =>
      var (k, ps) := Flush(m, h.k);
      h.(k := k, out := h.out + ps)
    case Deliver(i, z) =>
      if i < |inbox| then h.(k := ReadGroup(m, h.k, Arrivals(m, inbox[i]), z)) else h
  }

  // ----- invariants -----

  predicate AllSendable(c: Settings, out: seq<seq<Seg>>) {
    forall p :: p in out ==> p != [] && Sendable(c, p)
  }

  /** An endpoint in message mode with a nonzero conversation number. */
  predicate HostOk(h: Host) {
    && BlockOk(Exact, h.k) && h.k.cfg.stream == 0 && h.k.cfg.conv != 0
    && (forall i :: 0 <= i < |h.sent| ==> Short(h.k.cfg.mss, h.sent[i]))
    && AllSendable(h.k.cfg, h.out)
  }

  function Past(h: Host): seq<Seg>
    requires h.k.cfg.mss > 0
  {
    History(h.k.cfg.mss, h.sent)
  }

  /** Every datagram of s carries genuine data. */
  predicate AllGenuine(h: seq<Seg>, top: int, out: seq<seq<Seg>>) {
    forall p, x :: p in out && x in p ==> Genuine(h, top, x)
  }

  /** Every datagram of the receiver acknowledges only what it has. */
  predicate AllHonest(r: Rcv, out: seq<seq<Seg>>) {
    forall p, x :: p in out && x in p ==> Honest(r, x)
  }

  predicate AcksReceived(r: Rcv, acks: seq<Ack>) {
    forall a :: a in acks ==> Received(r, a.sn)
  }

  /** Everything about messages from s to r. */
  predicate Direction(s: Host, r: Host) {
    && 0 < s.k.cfg.mss && 0 < r.k.cfg.mss
    && r.got <= s.sent
    && SenderHolds(Past(s), s.k.snd, r.k.rcv)
    && ReceiverHolds(Past(s), s.k.snd.nxt, r.k.rcv, |History(s.k.cfg.mss, r.got)|)
    && AcksReceived(r.k.rcv, r.k.acklist)
    && AllGenuine(Past(s), s.k.snd.nxt, s.out)
    && AllHonest(r.k.rcv, r.out)
  }

  // ----- reading datagrams -----

  predicate AllArrived(xs: seq<Seg>) {
    forall i :: 0 <= i < |xs| ==> Arrived(Exact, xs[i])
  }

  lemma {:induction false} ReadAllKeeps(s: Kcb, f: Track, xs: seq<Seg>)
    requires BlockOk(Exact, s) && AllArrived(xs)
    ensures BlockOk(Exact, ReadAll(Exact, s, f, xs).s) && ReadAll(Exact, s, f, xs).s.cfg == s.cfg
    decreases |xs|
  {
    hide BlockOk, ProcessSeg, TrackSeg, Arrived;
    if xs != [] {
      assert Arrived(Exact, xs[0]);
      ProcessSegKeeps(Exact, s, xs[0]);
      forall i | 0 <= i < |xs[1..]| ensures Arrived(Exact, xs[1..][i]) {
        assert Arrived(Exact, xs[i + 1]);
      }
      ReadAllKeeps(ProcessSeg(Exact, s, xs[0]), TrackSeg(Exact, f, xs[0]), xs[1..]);
    }
  }

  /** Reading honest segments, the sender lets go only of what was received. */
  lemma {:induction false} ReadAllSender(h: seq<Seg>, s: Kcb, f: Track, xs: seq<Seg>, r: Rcv)
    requires BlockOk(Exact, s) && AllArrived(xs) && SenderHolds(h, s.snd, r)
    requires forall i :: 0 <= i < |xs| ==> Honest(r, xs[i])
    ensures SenderHolds(h, ReadAll(Exact, s, f, xs).s.snd, r)
    decreases |xs|
  {
    hide BlockOk, ProcessSeg, TrackSeg, Arrived, Honest, SenderHolds;
    if xs != [] {
      var t := ProcessSeg(Exact, s, xs[0]);
      assert Arrived(Exact, xs[0]);
      ProcessSegKeeps(Exact, s, xs[0]);
      ProcessSegSender(h, s, xs[0], r);
      forall i | 0 <= i < |xs[1..]| ensures Arrived(Exact, xs[1..][i]) && Honest(r, xs[1..][i]) {
        assert Arrived(Exact, xs[i + 1]);
      }
      ReadAllSender(h, t, TrackSeg(Exact, f, xs[0]), xs[1..], r);
    }
  }

  lemma ProcessSegSender(h: seq<Seg>, s: Kcb, x: Seg, r: Rcv)
    requires BlockOk(Exact, s) && SenderHolds(h, s.snd, r) && Honest(r, x)
    ensures SenderHolds(h, ProcessSeg(Exact, s, x).snd, r)
  {
    hide SndOk, RcvOk, DropUna, DropAck, Accept, SenderHolds, Received, UpdateAck, Diff, BufOk, QueueOk;
    var limit := FlightLimit(s.cfg);
    DropUnaHolds(h, s.snd, limit, r, x.una);
    DropUnaKeeps(Exact, s.snd, limit, x.una);
    if x.cmd == CMD_ACK {
      DropAckHolds(h, DropUna(Exact, s.snd, x.una), limit, r, x.sn);
    }
  }

  /** Reading genuine segments, the receiver only gains. */
  lemma {:induction false} ReadAllReceiver(h: seq<Seg>, top: int, s: Kcb, f: Track, xs: seq<Seg>, del: nat)
    requires BlockOk(Exact, s) && AllArrived(xs) && ReceiverHolds(h, top, s.rcv, del) && AcksReceived(s.rcv, s.acklist)
    requires forall i :: 0 <= i < |xs| ==> Genuine(h, top, xs[i])
    ensures var t := ReadAll(Exact, s, f, xs).s;
      ReceiverHolds(h, top, t.rcv, del) && AcksReceived(t.rcv, t.acklist) && StillReceived(s.rcv, t.rcv)
    decreases |xs|
  {
    hide BlockOk, ProcessSeg, TrackSeg, Arrived, Genuine, ReceiverHolds, AcksReceived, Received;
    if xs != [] {
      var t := ProcessSeg(Exact, s, xs[0]);
      assert Arrived(Exact, xs[0]);
      ProcessSegKeeps(Exact, s, xs[0]);
      ProcessSegReceiver(h, top, s, xs[0], del);
      forall i | 0 <= i < |xs[1..]| ensures Arrived(Exact, xs[1..][i]) && Genuine(h, top, xs[1..][i]) {
        assert Arrived(Exact, xs[i + 1]);
      }
      ReadAllReceiver(h, top, t, TrackSeg(Exact, f, xs[0]), xs[1..], del);
    }
  }

  lemma ProcessSegReceiver(h: seq<Seg>, top: int, s: Kcb, x: Seg, del: nat)
    requires BlockOk(Exact, s) && ReceiverHolds(h, top, s.rcv, del) && AcksReceived(s.rcv, s.acklist)
      && Genuine(h, top, x)
    ensures var t := ProcessSeg(Exact, s, x);
      ReceiverHolds(h, top, t.rcv, del) && AcksReceived(t.rcv, t.acklist) && StillReceived(s.rcv, t.rcv)
  {
    hide SndOk, RcvOk, DropUna, DropAck, Accept, ReceiverHolds, UpdateAck, BufOk, QueueOk, Plain;
    if x.cmd == CMD_PUSH {
      AcceptHolds(h, top, s.cfg.rcvWnd, s.rcv, del, x);
    }
  }

  // ----- what arrives -----

  lemma ArrivesNormal(p: seq<Seg>)
    ensures AllArrived(Arrivals(Exact, p))
  {
  }

  lemma ArrivesGenuine(c: Settings, h: seq<Seg>, top: int, p: seq<Seg>)
    requires Sendable(c, p) && forall x :: x in p ==> Genuine(h, top, x)
    requires forall x :: x in h ==> 0 <= x.frg < WND_RCV
    ensures forall i :: 0 <= i < |p| ==> Genuine(h, top, Arrivals(Exact, p)[i])
  {
    forall i | 0 <= i < |p| ensures Genuine(h, top, Arrivals(Exact, p)[i]) {
      var x := p[i];
      assert x in p;
      if x.cmd == CMD_PUSH {
        assert h[x.sn] in h;
        assert Plain(x).frg == h[x.sn].frg;
      }
    }
  }

  lemma ArrivesHonest(c: Settings, r: Rcv, p: seq<Seg>)
    requires Sendable(c, p) && forall x :: x in p ==> Honest(r, x)
    ensures forall i :: 0 <= i < |p| ==> Honest(r, Arrivals(Exact, p)[i])
  {
    hide Received;
    forall i | 0 <= i < |p| ensures Honest(r, Arrivals(Exact, p)[i]) {
      assert p[i] in p;
    }
  }

  // ----- what leaves -----

  lemma {:induction false} InFlatten(ps: seq<seq<Seg>>, p: seq<Seg>, x: Seg)
    requires p in ps && x in p
    ensures x in Flatten(ps)
  {
    if p != ps[|ps| - 1] {
      assert ps == ps[..|ps| - 1] + [ps[|ps| - 1]];
      InFlatten(ps[..|ps| - 1], p, x);
    }
  }

  lemma {:induction false} DueIn(st: Stamp, p: Pace, buf: seq<Seg>, x: Seg)
    requires x in DueSegs(st, p, buf)
    ensures x.una == st.una && exists i :: 0 <= i < |buf| && x == Resend(st, p, buf[i])
  {
    hide WhySend, Schedule;
    var l := |buf| - 1;
    if x in DueSegs(st, p, buf[..l]) {
      DueIn(st, p, buf[..l], x);
      var i :| 0 <= i < l && x == Resend(st, p, buf[..l][i]);
      assert x == Resend(st, p, buf[i]);
    }
  }

  /** Everything a flush sends says how far this side has received; its acks
      are pending ones and its data is what it holds afterwards. */
  lemma OutgoingIs(s: Kcb, x: Seg)
    requires BlockOk(Exact, s) && x in Outgoing(Exact, s)
    ensures x.una == s.rcv.nxt
    ensures x.cmd == CMD_ACK ==> exists a :: a in s.acklist && a.sn == x.sn
    ensures x.cmd == CMD_PUSH ==> x in FlushPlan(Exact, s).s.snd.buf
  {
    hide SndOk, RcvOk, QueueOk, SegOk, FillBuf, SendWindow, AfterLoss, ProbeTimer, PaceOf, DueSegs, SweepAll, Filled;
    var st, p := StampOf(s), ProbeTimer(s.probe, s.rmtWnd, s.clock.current);
    if x in AckSegs(st, s.acklist) {
      var i :| 0 <= i < |s.acklist| && x == ControlSeg(st, CMD_ACK, s.acklist[i]);
      assert s.acklist[i] in s.acklist;
    } else if x in DueSegs(st, PaceOf(s), Filled(Exact, s)) {
      DueIsPush(s, x);
    }
  }

  lemma DueIsPush(s: Kcb, x: Seg)
    requires BlockOk(Exact, s) && x in DueSegs(StampOf(s), PaceOf(s), Filled(Exact, s))
    ensures x.una == s.rcv.nxt && x.cmd == CMD_PUSH && x in FlushPlan(Exact, s).s.snd.buf
  {
    hide BlockOk, FillBuf, SendWindow, AfterLoss, ProbeTimer, PaceOf, DueSegs, SweepAll, WhySend;
    var st, p, buf := StampOf(s), PaceOf(s), Filled(Exact, s);
    FilledOk(Exact, s);
    DueSendable(s.cfg, st, p, buf);
    DueIn(st, p, buf, x);
    SweepSendsDue(st, p, buf);
    var i :| 0 <= i < |buf| && x == Resend(st, p, buf[i]);
    assert SegOk(s.cfg, buf[i]);
    assert SweepAll(st, p, buf).buf[i] == x;
  }
}
