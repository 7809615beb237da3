/** The program as it runs: 32-bit numbers and datagrams of bytes. A run in
    which no delivered number is about 2^31 behind follows the exact run step
    by step, so what was proved there holds here. */
module KcpConversation {
  import opened Bytes
  import opened KcpModel
  import opened KcpSender
  import opened KcpReceiver
  import opened KcpEndpoint
  import opened KcpWire
  import opened KcpPackets
  import opened KcpHistory
  import opened KcpTransfer
  import opened KcpNetwork
  import opened KcpSafety
  import opened KcpWrap

  /** An endpoint of the program and every datagram it gave to its output
      callback. */
  datatype Peer = Peer(k: Kcb, out: seq<seq<Byte>>, sent: seq<seq<Byte>>, got: seq<seq<Byte>>)

  datatype Link = Link(a: Peer, b: Peer)

  function WireStep(h: Peer, inbox: seq<seq<Byte>>, e: Event): Peer
    requires h.k.cfg.mss > 0
  {
    match e
    case DoSend(message) =>
      var (queue, code) := Send(h.k.snd.queue, h.k.cfg.mss, h.k.cfg.stream != 0, message);
      h.(k := h.k.(snd := h.k.snd.(queue := queue)), sent := if code == 0 then h.sent + [message] else h.sent)
    case DoRecv(len) =>
      var (k, code, data) := Recv(Wrap, h.k, len);
      h.(k := k, got := if code >= 0 && len >= 0 then h.got + [data] else h.got)
    case DoUpdate(t) =>
      var (k, ps) := Update(Wrap, h.k, t);
      h.(k := k, out := h.out + EncodeAll(ps))
    case DoFlush =>
      var (k, ps) := Flush(Wrap, h.k);
      h.(k := k, out := h.out + EncodeAll(ps))
    case Deliver(i, z) =>
      if i < |inbox| then h.(k := Input(Wrap, h.k, inbox[i] + Zeros(z)).0) else h
  }

  function WireNext(n: Link, act: Act): Link
    requires 0 < n.a.k.cfg.mss && 0 < n.b.k.cfg.mss
  {
    if act.atA then n.(a := WireStep(n.a, n.b.out, act.event)) else n.(b := WireStep(n.b, n.a.out, act.event))
  }

  // ----- the assumption -----

  /** v is at most 2^31 - 2^18 behind base. */
  predicate Recent(base: int, v: int) {
    base - (I32 - 4 * U16) <= v
  }

  /** A segment not too old for the endpoint it reaches. */
  predicate SegRecent(k: Kcb, x: Seg) {
    Recent(k.snd.una, x.una) && (x.cmd == CMD_ACK ==> Recent(k.snd.una, x.sn))
      && (x.cmd == CMD_PUSH ==> Recent(k.rcv.nxt, x.sn))
  }

  /** The datagram an event delivers, if any, is recent and fits an int. */
  predicate EventLive(h: Host, inbox: seq<seq<Seg>>, e: Event) {
    e.Deliver? && e.i < |inbox| ==>
      GroupLen(inbox[e.i]) + e.z < I32 && forall j :: 0 <= j < |inbox[e.i]| ==> SegRecent(h.k, inbox[e.i][j])
  }

  predicate ActLive(n: Net, act: Act) {
    if act.atA then EventLive(n.a, n.b.out, act.event) else EventLive(n.b, n.a.out, act.event)
  }

  predicate RunLive(a: Settings, b: Settings, acts: seq<Act>)
    requires Pair(a, b)
  {
    forall i :: 0 <= i < |acts| ==> ActLive(Play(a, b, acts[..i]), acts[i])
  }

  // ----- an exact state, cut and encoded -----

  function CutHost(h: Host): Peer {
    Peer(CutKcb(h.k), EncodeAll(h.out), h.sent, h.got)
  }

  function CutNet(n: Net): Link {
    Link(CutHost(n.a), CutHost(n.b))
  }

  lemma EncodeCut(x: Seg)
    ensures Encode(CutSeg(x)) == Encode(x)
  {
    hide Le32, Le16, Wrap32;
    WrapAdd(x.sn, 0);
    WrapAdd(x.una, 0);
  }

  lemma {:induction false} EncodeGroupCut(p: seq<Seg>)
    ensures EncodeGroup(CutSegs(p)) == EncodeGroup(p)
  {
    hide Encode;
    if p != [] {
      CutLast(p);
      EncodeGroupCut(p[..|p| - 1]);
      EncodeCut(p[|p| - 1]);
    }
  }

  lemma EncodeAllCut(ps: seq<seq<Seg>>)
    ensures EncodeAll(CutPackets(ps)) == EncodeAll(ps)
  {
    hide EncodeGroup;
    forall i | 0 <= i < |ps| ensures EncodeGroup(CutSegs(ps[i])) == EncodeGroup(ps[i]) {
      EncodeGroupCut(ps[i]);
    }
  }

  lemma EncodeAllConcat(ps: seq<seq<Seg>>, qs: seq<seq<Seg>>)
    ensures EncodeAll(ps + qs) == EncodeAll(ps) + EncodeAll(qs)
  {
    hide EncodeGroup;
  }

  /** What arrives, cut, is what arrives from the bytes. */
  lemma CutArrivals(p: seq<Seg>)
    ensures Arrivals(Wrap, p) == CutSegs(Arrivals(Exact, p))
  {
    hide Wrap32;
  }

  // ----- numbers are never ahead -----

  /** The sender's window is not far ahead of what the receiver delivered. */
  lemma NotFarAhead(s: Host, r: Host)
    requires HostOk(s) && HostOk(r) && Direction(s, r)
    ensures s.k.snd.nxt <= r.k.rcv.nxt + 2 * U16
  {
    hide Carries, AcksReceived, AllGenuine, AllHonest, History, BufOk, QueueOk, Rising, Sendable;
    var snd, rcv := s.k.snd, r.k.rcv;
    var sn := rcv.nxt + U16;
    if sn < snd.una {
      NotBelow(snd, sn);
      NotBeyond(r.k.cfg.rcvWnd, rcv, sn);
    }
  }

  lemma NotBelow(s: Snd, sn: int)
    requires SndOk(Exact, s, U16 - 1) && sn < s.una
    ensures !Present(s.buf, sn)
  {
    hide Rising;
    forall i | 0 <= i < |s.buf| ensures s.buf[i].sn != sn {
      RisingAt(Exact, s.una, 0, s.buf, InFlight(Exact, s), i);
    }
  }

  lemma NotBeyond(wnd: int, r: Rcv, sn: int)
    requires RcvOk(Exact, wnd, r) && sn >= r.nxt + wnd
    ensures !Present(r.buf, sn)
  {
    hide Rising;
    forall i | 0 <= i < |r.buf| ensures r.buf[i].sn != sn {
      RisingAt(Exact, r.nxt, 0, r.buf, wnd, i);
    }
  }

  lemma ReceivedBelow(h: seq<Seg>, top: int, r: Rcv, del: nat, sn: int)
    requires ReceiverHolds(h, top, r, del) && Received(r, sn)
    ensures sn < top
  {
    hide Carries;
    if sn >= r.nxt {
      var i :| 0 <= i < |r.buf| && r.buf[i].sn == sn;
      assert r.buf[i] in r.buf;
    }
  }

  /** Recent segments of the peer are live in both directions. */
  lemma RecentIsLive(h: Host, peer: Host, p: seq<Seg>, x: Seg)
    requires HostOk(h) && HostOk(peer) && Direction(h, peer) && Direction(peer, h)
    requires p in peer.out && x in p && SegRecent(h.k, x)
    ensures SegLive(h.k.snd.una, h.k.rcv.nxt, OnWire(Exact, x))
  {
    hide Rising, Carries, SenderHolds, AcksReceived, History, BufOk, QueueOk, Received;
    NotFarAhead(peer, h);
    assert Honest(peer.k.rcv, x);
    assert Genuine(Past(peer), peer.k.snd.nxt, x);
    assert Sendable(peer.k.cfg, p);
    if x.cmd == CMD_ACK {
      ReceivedBelow(Past(h), h.k.snd.nxt, peer.k.rcv, |History(h.k.cfg.mss, peer.got)|, x.sn);
    }
  }

  // ----- one step -----

  lemma CutDeliver(h: Host, peer: Host, i: nat, z: nat)
    requires HostOk(h) && HostOk(peer) && Direction(h, peer) && Direction(peer, h) && h.k.cfg.conv == peer.k.cfg.conv
    requires EventLive(h, peer.out, Deliver(i, z))
    ensures WireStep(CutHost(h), EncodeAll(peer.out), Deliver(i, z)) == CutHost(Step(Exact, h, peer.out, Deliver(i, z)))
  {
    hide HostOk, Direction, EncodeGroup, Arrivals, ReadGroup, Input, SegRecent, SegLive, OnWire, CutKcb, Sendable,
      Zeros, BlockOk, CutSegs, WellFormed;
    if i < |peer.out| {
      var p := peer.out[i];
      assert p in peer.out;
      DeliveredGroup(peer, p);
      SameGroup(h, peer);
      GroupRoundTrip(h.k.cfg.conv, p);
      InputReads(Wrap, CutKcb(h.k), EncodeGroup(p), z);
      CutArrivals(p);
      forall j | 0 <= j < |p| ensures SegLive(h.k.snd.una, h.k.rcv.nxt, Arrivals(Exact, p)[j]) {
        RecentIsLive(h, peer, p, p[j]);
        ArrivalAt(p, j);
      }
      CutReadGroup(h.k, Arrivals(Exact, p), z);
    }
  }

  lemma ArrivalAt(p: seq<Seg>, j: nat)
    requires j < |p|
    ensures Arrivals(Exact, p)[j] == OnWire(Exact, p[j])
  {
  }

  lemma DeliveredGroup(peer: Host, p: seq<Seg>)
    requires HostOk(peer) && p in peer.out
    ensures Emittable(peer.k.cfg.conv, p) && EncodeGroup(p) != []
  {
    hide BufOk, QueueOk, SndOk, RcvOk;
    SendableEmits(peer.k.cfg, p);
  }

  lemma SameGroup(h: Host, peer: Host)
    requires HostOk(h)
    ensures BlockOk(Exact, h.k) && h.k.cfg.conv != 0 && CutKcb(h.k).cfg == h.k.cfg && |CutHost(h).out| == |h.out|
  {
    hide BlockOk, EncodeGroup;
  }

  lemma CutStep(h: Host, peer: Host, e: Event)
    requires HostOk(h) && HostOk(peer) && Direction(h, peer) && Direction(peer, h) && h.k.cfg.conv == peer.k.cfg.conv
    requires EventLive(h, peer.out, e) && 0 < h.k.cfg.mss
    ensures WireStep(CutHost(h), EncodeAll(peer.out), e) == CutHost(Step(Exact, h, peer.out, e))
  {
    hide HostOk, Direction, Send, Recv, Update, Flush, EventLive, Input, ReadGroup, EncodeGroup, EncodeAll, CutSegs,
      CutAcks, CutPackets;
    SameGroup(h, peer);
    match e
    case DoSend(message) =>
    case DoRecv(len) =>
      CutRecv(h.k, len);
    case DoUpdate(t) =>
      CutUpdate(h.k, t);
      EncodeAllCut(Update(Exact, h.k, t).1);
      EncodeAllConcat(h.out, Update(Exact, h.k, t).1);
    case DoFlush =>
      CutFlush(h.k);
      EncodeAllCut(Flush(Exact, h.k).1);
      EncodeAllConcat(h.out, Flush(Exact, h.k).1);
    case Deliver(i, z) =>
      CutDeliver(h, peer, i, z);
  }

  lemma CutNext(n: Net, act: Act)
    requires NetOk(n) && ActLive(n, act)
    ensures 0 < n.a.k.cfg.mss && 0 < n.b.k.cfg.mss && WireNext(CutNet(n), act) == CutNet(Next(Exact, n, act))
  {
    hide HostOk, Direction, Step, WireStep, EventLive, EncodeAll, CutSnd, CutRcv, CutAcks;
    HostMss(n.a);
    HostMss(n.b);
    if act.atA {
      CutStep(n.a, n.b, act.event);
    } else {
      CutStep(n.b, n.a, act.event);
    }
  }

  // ----- whole runs -----

  function NewPeer(c: Settings): Peer {
    Peer(Create(c), [], [], [])
  }

  /** Any actions on two fresh control blocks of the 32-bit program. */
  function WirePlay(a: Settings, b: Settings, acts: seq<Act>): (n: Link)
    requires Pair(a, b)
    ensures n.a.k.cfg == a && n.b.k.cfg == b
  {
    if acts == [] then Link(NewPeer(a), NewPeer(b))
    else
      var n, act := WirePlay(a, b, acts[..|acts| - 1]), acts[|acts| - 1];
      WireConfig(n.a, n.b.out, act.event);
      WireConfig(n.b, n.a.out, act.event);
      WireNext(n, act)
  }

  lemma WireConfig(h: Peer, inbox: seq<seq<Byte>>, e: Event)
    requires h.k.cfg.mss > 0
    ensures WireStep(h, inbox, e).k.cfg == h.k.cfg
  {
    hide Send, FillBuf, SweepAll, ProcessSeg, MoveReady, AfterLoss, ParseFastack, GrowWindow, Packets, EncodeAll,
      PeekSize, Merge, MergeCount;
    match e
    case DoSend(message) =>
    case DoRecv(len) =>
    case DoUpdate(t) =>
    case DoFlush =>
    case Deliver(i, z) =>
      if i < |inbox| {
        InputLoopConfig(Wrap, h.k, Track(false, 0), inbox[i] + Zeros(z));
      }
  }

  lemma StartCut(a: Settings, b: Settings)
    ensures CutNet(Net(NewHost(a), NewHost(b))) == Link(NewPeer(a), NewPeer(b))
  {
  }

  /** The 32-bit run is the exact run, cut and encoded. */
  lemma {:induction false} RunsAgree(a: Settings, b: Settings, acts: seq<Act>)
    requires Pair(a, b) && RunLive(a, b, acts)
    ensures WirePlay(a, b, acts) == CutNet(Play(a, b, acts))
    decreases |acts|
  {
    hide NetOk, WireNext, Next, ActLive, CutNet, Pair;
    if acts == [] {
      StartCut(a, b);
    } else {
      var l := |acts| - 1;
      forall i | 0 <= i < l ensures ActLive(Play(a, b, acts[..l][..i]), acts[..l][i]) {
        assert acts[..l][..i] == acts[..i];
      }
      RunsAgree(a, b, acts[..l]);
      PlayOk(a, b, acts[..l]);
      CutNext(Play(a, b, acts[..l]), acts[l]);
    }
  }

  /** In every live run of the 32-bit program over a network that loses,
      duplicates, reorders and zero-pads datagrams, the messages ikcp_recv
      returned on one side are a prefix of those ikcp_send accepted on the
      other, with identical bytes and boundaries. */
  lemma WireDeliversPrefix(a: Settings, b: Settings, acts: seq<Act>)
    requires Pair(a, b) && RunLive(a, b, acts)
    ensures var n := WirePlay(a, b, acts); n.b.got <= n.a.sent && n.a.got <= n.b.sent
  {
    hide Play, WirePlay, RunLive, CutKcb, EncodeAll;
    RunsAgree(a, b, acts);
    DeliversPrefix(a, b, acts);
  }

  /** No wedge in the 32-bit program: a full receive queue begins with a whole
      message, of which ikcp_peeksize tells the length; ikcp_recv returns it if
      there is room for it, and frees room or moves rcv_nxt on. */
  lemma WireNoWedge(a: Settings, b: Settings, acts: seq<Act>, len: int)
    requires Pair(a, b) && RunLive(a, b, acts) && |WirePlay(a, b, acts).b.k.rcv.queue| >= b.rcvWnd
    ensures var n := WirePlay(a, b, acts); var (s, r) := (n.a, n.b);
      |r.got| < |s.sent| && PeekSize(r.k.rcv.queue) == |s.sent[|r.got|]|
      && (len >= |s.sent[|r.got|]| ==>
            var (k, code, data) := Recv(Wrap, r.k, len);
            code == |data| && data == s.sent[|r.got|]
            && (|k.rcv.queue| < b.rcvWnd || Diff(Wrap, k.rcv.nxt, r.k.rcv.nxt) > 0))
  {
    hide Play, WirePlay, RunLive, EncodeAll, Recv, PeekSize, NetOk, CutSegs, Diff;
    RunsAgree(a, b, acts);
    var n := Play(a, b, acts);
    PlayOk(a, b, acts);
    SizesAgree(n);
    NoWedge(a, b, acts, len);
    CutPeek(n.b.k.rcv.queue);
    CutRecv(n.b.k, len);
    var k := Recv(Exact, n.b.k, len).0;
    CutCount(k.rcv.queue);
    WindowSmall(n.b.k);
    if Close(k.rcv.nxt, n.b.k.rcv.nxt) {
      DiffAgrees(k.rcv.nxt, n.b.k.rcv.nxt);
      PlainDiff(k.rcv.nxt, n.b.k.rcv.nxt);
    }
  }

  lemma PlainDiff(x: int, y: int)
    ensures Diff(Exact, x, y) == x - y
  {
  }

  lemma CutCount(q: seq<Seg>)
    ensures |CutSegs(q)| == |q|
  {
  }

  lemma WindowSmall(s: Kcb)
    requires BlockOk(Exact, s)
    ensures s.cfg.rcvWnd < U16
  {
  }

  lemma SizesAgree(n: Net)
    requires NetOk(n)
    ensures |CutNet(n).b.k.rcv.queue| == |n.b.k.rcv.queue| && BlockOk(Exact, n.b.k)
  {
    hide Direction, EncodeAll, BlockOk;
  }

  // ----- nothing lost -----

  /** The receiver of the program has segment sn, as ikcp_input judges it. */
  predicate Has(r: Rcv, sn: int) {
    Diff(Wrap, sn, r.nxt) < 0 || Present(r.buf, sn)
  }

  /** What was numbered before top, at most 2^31 back, as 32-bit numbers. */
  predicate Numbered32(top: int, sn: int) {
    0 <= sn < U32 && Diff(Wrap, sn, top) < 0
  }

  lemma CutPresent(buf: seq<Seg>, sn: int)
    requires Present(buf, sn)
    ensures Present(CutSegs(buf), Wrap32(sn))
  {
    var i :| 0 <= i < |buf| && buf[i].sn == sn;
    assert CutSegs(buf)[i] == CutSeg(buf[i]);
  }

  lemma CutReceived(r: Rcv, sn: int)
    requires sn < r.nxt || Present(r.buf, sn)
    requires Close(sn, r.nxt)
    ensures Has(CutRcv(r), Wrap32(sn))
  {
    hide Present, CutSegs, Diff;
    if Present(r.buf, sn) {
      CutPresent(r.buf, sn);
    } else {
      DiffAgrees(sn, r.nxt);
      PlainDiff(sn, r.nxt);
    }
  }

  /** The exact number behind a 32-bit one. */
  lemma Unwrap(top: int, sn: int) returns (x: int)
    requires Numbered32(Wrap32(top), sn)
    ensures sn == Wrap32(x) && -I32 <= x - top < 0
  {
    hide Wrap32;
    x := top + Diff(Wrap, sn, Wrap32(top));
    var j := WrapSplit(top);
    var k := WrapSplit(sn - Wrap32(top));
    var d := Wrap32(sn - Wrap32(top));
    WrapIs(x, if d < I32 then j - k else j - k - 1, sn);
  }

  lemma ReceiverBehind(s: Host, r: Host)
    requires HostOk(s) && HostOk(r) && Direction(s, r)
    ensures 0 <= r.k.rcv.nxt <= s.k.snd.nxt <= r.k.rcv.nxt + 2 * U16
  {
    hide Carries, AcksReceived, AllGenuine, AllHonest, History, HostOk, SenderHolds;
    NotFarAhead(s, r);
  }

  lemma HeldOrHas(s: Host, r: Host, sn: int)
    requires HostOk(s) && HostOk(r) && Direction(s, r) && Numbered32(Wrap32(s.k.snd.nxt), sn)
    ensures Present(CutSegs(s.k.snd.buf), sn) || Has(CutRcv(r.k.rcv), sn)
  {
    hide Carries, AcksReceived, AllGenuine, AllHonest, History, HostOk, ReceiverHolds, Present, Has, Numbered32, Wrap32,
      CutRcv;
    ReceiverBehind(s, r);
    var x := Unwrap(s.k.snd.nxt, sn);
    if Present(s.k.snd.buf, x) {
      CutPresent(s.k.snd.buf, x);
    } else {
      assert x < 0 || Received(r.k.rcv, x);
      CutReceived(r.k.rcv, x);
    }
  }

  /** No fragment is lost in the 32-bit program: whatever has been numbered, the
      sender still holds it or the receiver has it. */
  lemma WireNothingLost(a: Settings, b: Settings, acts: seq<Act>, sn: int)
    requires Pair(a, b) && RunLive(a, b, acts)
    ensures var n := WirePlay(a, b, acts);
      && (Numbered32(n.a.k.snd.nxt, sn) ==> Present(n.a.k.snd.buf, sn) || Has(n.b.k.rcv, sn))
      && (Numbered32(n.b.k.snd.nxt, sn) ==> Present(n.b.k.snd.buf, sn) || Has(n.a.k.rcv, sn))
  {
    hide Play, WirePlay, RunLive, EncodeAll, Present, Has, Numbered32, HostOk, Direction, CutSegs, CutRcv, Wrap32;
    RunsAgree(a, b, acts);
    var n := Play(a, b, acts);
    PlayOk(a, b, acts);
    if Numbered32(Wrap32(n.a.k.snd.nxt), sn) {
      HeldOrHas(n.a, n.b, sn);
    }
    if Numbered32(Wrap32(n.b.k.snd.nxt), sn) {
      HeldOrHas(n.b, n.a, sn);
    }
  }

  /** x acknowledges only what the receiver has. */
  predicate HonestAck(r: Rcv, x: Seg) {
    Diff(Wrap, x.una, r.nxt) <= 0 && (x.cmd == CMD_ACK ==> Has(r, x.sn))
  }

  lemma HonestCut(s: Host, r: Host, p: seq<Seg>, x: Seg)
    requires HostOk(s) && HostOk(r) && Direction(s, r) && p in r.out && x in p && SegRecent(s.k, x)
    ensures HonestAck(CutRcv(r.k.rcv), OnWire(Wrap, x))
  {
    hide Carries, SenderHolds, AcksReceived, AllGenuine, History, BufOk, QueueOk, Wrap32, Has, Diff, RcvOk, Rising;
    ReceiverBehind(s, r);
    InFlightFew(s);
    assert Honest(r.k.rcv, x);
    DiffAgrees(x.una, r.k.rcv.nxt);
    PlainDiff(x.una, r.k.rcv.nxt);
    if x.cmd == CMD_ACK {
      ReceivedBelow(Past(s), s.k.snd.nxt, r.k.rcv, |History(s.k.cfg.mss, r.got)|, x.sn);
      CutReceived(r.k.rcv, x.sn);
    }
  }

  lemma InFlightFew(s: Host)
    requires HostOk(s)
    ensures s.k.snd.una <= s.k.snd.nxt <= s.k.snd.una + U16
  {
    hide BufOk, QueueOk, RcvOk, AllSendable, Rising;
  }

  /** Acknowledgements in a datagram that can be delivered name only what its
      sender has. */
  lemma WireHonest(a: Settings, b: Settings, acts: seq<Act>, i: nat, z: nat)
    requires Pair(a, b) && RunLive(a, b, acts) && i < |WirePlay(a, b, acts).b.out|
    requires ActLive(Play(a, b, acts), Act(true, Deliver(i, z)))
    ensures var n := WirePlay(a, b, acts);
      && WellFormed(b.conv, n.b.out[i])
      && forall x :: x in Parse(b.conv, n.b.out[i]) ==> HonestAck(n.b.k.rcv, x)
  {
    hide Play, WirePlay, RunLive, EncodeGroup, HonestAck, HostOk, Direction, CutRcv, Sendable, WellFormed, Parse,
      SegRecent, OnWire;
    RunsAgree(a, b, acts);
    var n := Play(a, b, acts);
    PlayOk(a, b, acts);
    var p := n.b.out[i];
    DeliveredGroup(n.b, p);
    GroupRoundTrip(b.conv, p);
    forall x | x in Parse(b.conv, EncodeGroup(p)) ensures HonestAck(CutRcv(n.b.k.rcv), x) {
      var j :| 0 <= j < |p| && Arrivals(Wrap, p)[j] == x;
      HonestCut(n.a, n.b, p, p[j]);
    }
  }
}
