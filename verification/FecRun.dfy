/** Two endpoints of KCP over FEC, each with its encoder and decoder, and a
    network that loses, repeats and reorders frames: a run of them is a run of
    the two control blocks over a network of datagrams, so messages come out as
    they went in. */
module FecRun {
  import opened Bytes
  import opened FecFrame
  import opened FecModel
  import opened FecGroups
  import opened FecDrain
  import opened FecArrivals
  import opened FecSealed
  import opened KcpModel
  import opened KcpWire
  import opened KcpPadding
  import opened KcpNetwork
  import opened KcpSafety
  import opened KcpConversation

  /** The time limit of the decoder (fec_kcp.cpp:16). */
  const LIMIT := 10000

  /** The control block with what it sent and returned, the batch of the encoder
      with every frame it sent, and the decoder. */
  datatype FecHost = FecHost(peer: Peer, box: Outbox, dec: Decoder)

  datatype FecNet = FecNet(a: FecHost, b: FecHost)

  /** Calls of the four public functions. Arrive hands over frame i of all those
      the other endpoint ever sent. */
  datatype FecEvent =
    | UserSend(message: seq<Byte>)
    | UserReceive(len: int)
    | Tick(milliseconds: int)
    | Arrive(i: nat, now: int)

  datatype FecAct = FecAct(atA: bool, event: FecEvent)

  ghost predicate Taken(d: Decoder, inbox: seq<seq<Byte>>, i: nat) {
    i < |inbox| && DecoderOk(d) && Addressed(d, inbox[i])
  }

  /** One call at an endpoint; inbox holds the frames of the other one. The
      methods of FecKcp.dfy are proved to be these steps. */
  ghost function FecStep(h: FecHost, c: Coding, inbox: seq<seq<Byte>>, e: FecEvent): (t: FecHost)
    requires h.peer.k.cfg.mss > 0 && OutboxOk(h.box, c.k, c.r)
    ensures OutboxOk(t.box, c.k, c.r)
  {
    match e
    case UserSend(message) => h.(peer := WireStep(h.peer, [], DoSend(message)))
    case UserReceive(len) => h.(peer := WireStep(h.peer, [], DoRecv(len)))
    case Tick(milliseconds) =>
      var (k, ps) := KcpModel.Update(Wrap, h.peer.k, Wrap32(milliseconds));
      h.(peer := h.peer.(k := k, out := h.peer.out + EncodeAll(ps)), box := OfferAll(h.box, c.k, c.r, EncodeAll(ps)))
    case Arrive(i, now) =>
      if Taken(h.dec, inbox, i) then
        var (d, fed) := Intake(h.dec, inbox[i], LIMIT, now);
        h.(peer := h.peer.(k := InputAll(h.peer.k, fed)), dec := d)
      else h
  }

  // ----- the datagrams behind a frame -----

  /** What the control block sees of packet j of batch g: a datagram of the other
      endpoint with zeros behind it. */
  function DeliveryOf(out: seq<seq<Byte>>, c: Coding, g: nat, j: nat, p: seq<Byte>): Event {
    var m := g * c.k + j;
    if m < |Places(out)| then
      var id := Places(out)[m];
      Deliver(id, if |out[id]| <= |p| then |p| - |out[id]| else 0)
    else Deliver(|out|, 0)
  }

  function Deliveries(out: seq<seq<Byte>>, c: Coding, g: nat, fed: seq<seq<Byte>>): (events: seq<Event>)
    ensures |events| == |fed|
  {
    seq(|fed|, j requires 0 <= j < |fed| => DeliveryOf(out, c, g, j, fed[j]))
  }

  /** The calls of the control block that one call of the endpoint makes. */
  ghost function KcpEvents(h: FecHost, other: FecHost, oc: Coding, e: FecEvent): seq<Event>
    requires CodingOk(oc)
  {
    match e
    case UserSend(message) => [DoSend(message)]
    case UserReceive(len) => [DoRecv(len)]
    case Tick(milliseconds) => [DoUpdate(Wrap32(milliseconds))]
    case Arrive(i, now) =>
      if Taken(h.dec, other.box.frames, i) then
        Deliveries(other.peer.out, oc, BatchOf(oc, i), Intake(h.dec, other.box.frames[i], LIMIT, now).1)
      else []
  }

  /** Calls of one control block one after the other. */
  function PeerRun(h: Peer, inbox: seq<seq<Byte>>, events: seq<Event>): (v: Peer)
    requires h.k.cfg.mss > 0
    ensures v.k.cfg == h.k.cfg
  {
    if events == [] then h
    else
      var g := PeerRun(h, inbox, events[..|events| - 1]);
      WireConfig(g, inbox, events[|events| - 1]);
      WireStep(g, inbox, events[|events| - 1])
  }

  lemma PeerRunNone(h: Peer, inbox: seq<seq<Byte>>)
    requires h.k.cfg.mss > 0
    ensures PeerRun(h, inbox, []) == h
  {
  }

  lemma PeerRunOne(h: Peer, inbox: seq<seq<Byte>>, e: Event)
    requires h.k.cfg.mss > 0
    ensures PeerRun(h, inbox, [e]) == WireStep(h, inbox, e)
  {
    hide WireStep;
    assert [e][..0] == [];
  }

  /** Every packet is a datagram of the other endpoint with zeros behind it. */
  predicate Delivered(out: seq<seq<Byte>>, events: seq<Event>, fed: seq<seq<Byte>>) {
    && |events| == |fed|
    && forall j :: 0 <= j < |fed| ==>
         events[j].Deliver? && events[j].i < |out| && fed[j] == out[events[j].i] + Zeros(events[j].z)
  }

  lemma {:induction false} DeliveredFeeds(h: Peer, out: seq<seq<Byte>>, events: seq<Event>, fed: seq<seq<Byte>>)
    requires h.k.cfg.mss > 0 && Delivered(out, events, fed)
    ensures PeerRun(h, out, events) == h.(k := InputAll(h.k, fed))
    decreases |fed|
  {
    hide KcpModel.Input, Zeros;
    if fed != [] {
      var l := |fed| - 1;
      DeliveredFeeds(h, out, events[..l], fed[..l]);
    }
  }

  lemma BatchDelivered(out: seq<seq<Byte>>, c: Coding, g: nat, have: set<nat>)
    requires Full(Accepted(out), c.k, g)
    ensures var fed := HandedAll(Chunk(Accepted(out), c.k, g), have); Delivered(out, Deliveries(out, c, g, fed), fed)
  {
    hide Places, MaxLen, Zeros;
    var batch := Chunk(Accepted(out), c.k, g);
    var fed := HandedAll(batch, have);
    forall j | 0 <= j < |fed|
      ensures var e := DeliveryOf(out, c, g, j, fed[j]);
        e.Deliver? && e.i < |out| && fed[j] == out[e.i] + Zeros(e.z)
    {
      assert batch[j] == Accepted(out)[g * c.k + j];
      assert fed[j] == Handed(batch, have, j);
    }
  }

  // ----- one step -----

  ghost predicate FecHostOk(h: FecHost, c: Coding) {
    CodingOk(c) && Idle(h.dec) && exists full :: Boxed(h.box, Accepted(h.peer.out), c, full)
  }

  /** Frame i of the batch reaches a decoder that has handed out its group, or
      holds packets of the same batch under its number; and if it completes the
      group, the cursor does not stand behind an earlier group of that number. */
  ghost predicate FrameLive(d: Decoder, s: int, batch: seq<seq<Byte>>, r: nat, i: nat) {
    Closed(d, s) || exists have :: InTurn(d, s, batch, r, have, i)
  }

  ghost predicate InTurn(d: Decoder, s: int, batch: seq<seq<Byte>>, r: nat, have: set<nat>, i: nat) {
    InProgress(d, s, batch, r, have) && (|have + {i}| >= |batch| ==> d.unit.lastSeq != s)
  }

  ghost predicate ArrivalLive(d: Decoder, other: FecHost, oc: Coding, i: nat)
    requires CodingOk(oc)
  {
    var ps, g := Accepted(other.peer.out), BatchOf(oc, i);
    i < |other.box.frames| && Full(ps, oc.k, g) ==>
      FrameLive(d, NumberOf(oc.first, g), Chunk(ps, oc.k, g), oc.r, IndexOf(oc, i))
  }

  /** What a frame in its turn brings to the control block. */
  lemma FrameDelivers(
    d: Decoder, out: seq<seq<Byte>>, c: Coding, g: nat, i: nat, p: seq<Byte>, now: int)
    requires Idle(d) && FrameOf(Accepted(out), c, g, i, p)
    requires FrameLive(d, NumberOf(c.first, g), Chunk(Accepted(out), c.k, g), c.r, i)
    ensures Accepts(d, p) && DecoderOk(d)
    ensures var (e, fed) := Intake(d, p, LIMIT, now); Idle(e) && Delivered(out, Deliveries(out, c, g, fed), fed)
  {
    hide Frame, Intake, Accepts, InProgress, Others, GroupAfter, Accepted, Delivered, HandedAll, Batch, GroupOk;
    var s, batch := NumberOf(c.first, g), Chunk(Accepted(out), c.k, g);
    NothingDelivered(out, c, g);
    if Closed(d, s) {
      LateArrival(d, s, batch, c.r, i, LIMIT, now);
    } else {
      var have :| InTurn(d, s, batch, c.r, have, i);
      ArrivalStep(d, s, batch, c.r, have, i, LIMIT, now);
      BatchDelivered(out, c, g, have + {i});
    }
    AcceptsAddressed(d, p);
  }

  lemma NothingDelivered(out: seq<seq<Byte>>, c: Coding, g: nat)
    ensures Delivered(out, Deliveries(out, c, g, []), [])
  {
  }

  /** Every frame of the other endpoint is a frame of one of its batches. */
  lemma FrameAt(other: FecHost, oc: Coding, i: nat)
    requires FecHostOk(other, oc) && i < |other.box.frames|
    ensures FrameOf(Accepted(other.peer.out), oc, BatchOf(oc, i), IndexOf(oc, i), other.box.frames[i])
  {
    hide FrameOf, Accepted, Idle;
    var full :| Boxed(other.box, Accepted(other.peer.out), oc, full);
  }

  /** What DataInput asks of its caller holds for every frame in its turn, and
      one call at an endpoint is the calls of its control block. */
  lemma StepFollows(h: FecHost, c: Coding, other: FecHost, oc: Coding, e: FecEvent)
    requires FecHostOk(h, c) && FecHostOk(other, oc) && h.peer.k.cfg.mss > 0 && OutboxOk(h.box, c.k, c.r)
    requires e.Arrive? ==> ArrivalLive(h.dec, other, oc, e.i)
    ensures e.Arrive? && e.i < |other.box.frames| ==> Accepts(h.dec, other.box.frames[e.i])
    ensures var t := FecStep(h, c, other.box.frames, e);
      FecHostOk(t, c) && t.peer == PeerRun(h.peer, other.peer.out, KcpEvents(h, other, oc, e))
  {
    hide FrameOf, Accepted, Idle, Intake, Accepts, InputAll, Deliveries, Delivered, EncodeAll, Boxed, OfferAll,
      DecoderOk, KcpModel.Update, KcpModel.Send, KcpModel.Recv, PeerRun, Wrap32, FrameLive, Addressed;
    match e
    case UserSend(message) =>
      PeerRunOne(h.peer, other.peer.out, DoSend(message));
    case UserReceive(len) =>
      PeerRunOne(h.peer, other.peer.out, DoRecv(len));
    case Tick(milliseconds) =>
      PeerRunOne(h.peer, other.peer.out, DoUpdate(Wrap32(milliseconds)));
      var full :| Boxed(h.box, Accepted(h.peer.out), c, full);
      var ps := EncodeAll(KcpModel.Update(Wrap, h.peer.k, Wrap32(milliseconds)).1);
      var more := OfferAllBoxed(h.box, h.peer.out, c, full, ps);
    case Arrive(i, now) =>
      ArriveFollows(h, c, other, oc, i, now);
  }

  lemma ArriveFollows(h: FecHost, c: Coding, other: FecHost, oc: Coding, i: nat, now: int)
    requires FecHostOk(h, c) && FecHostOk(other, oc) && h.peer.k.cfg.mss > 0 && OutboxOk(h.box, c.k, c.r)
    requires ArrivalLive(h.dec, other, oc, i)
    ensures i < |other.box.frames| ==> Accepts(h.dec, other.box.frames[i])
    ensures var t := FecStep(h, c, other.box.frames, Arrive(i, now));
      FecHostOk(t, c) && t.peer == PeerRun(h.peer, other.peer.out, KcpEvents(h, other, oc, Arrive(i, now)))
  {
    hide Accepted, Idle, Intake, Accepts, InputAll, Deliveries, Delivered, Boxed, DecoderOk, FrameLive, Addressed,
      Frame, PeerRun, BatchOf, IndexOf, Full, Chunk, NumberOf;
    PeerRunNone(h.peer, other.peer.out);
    if i < |other.box.frames| {
      var p, g := other.box.frames[i], BatchOf(oc, i);
      FrameAt(other, oc, i);
      FrameDelivers(h.dec, other.peer.out, oc, g, IndexOf(oc, i), p, now);
      AcceptsAddressed(h.dec, p);
      var fed := Intake(h.dec, p, LIMIT, now).1;
      DeliveredFeeds(h.peer, other.peer.out, Deliveries(other.peer.out, oc, g, fed), fed);
    }
  }

  // ----- whole runs -----

  ghost function NewFecHost(s: Settings, c: Coding): FecHost
    requires CodingOk(c)
  {
    FecHost(NewPeer(s), Outbox([], NumberOf(c.first, 0), []), START)
  }

  ghost function FecNext(n: FecNet, ca: Coding, cb: Coding, act: FecAct): (m: FecNet)
    requires 0 < n.a.peer.k.cfg.mss && 0 < n.b.peer.k.cfg.mss
    requires OutboxOk(n.a.box, ca.k, ca.r) && OutboxOk(n.b.box, cb.k, cb.r)
    ensures OutboxOk(m.a.box, ca.k, ca.r) && OutboxOk(m.b.box, cb.k, cb.r)
  {
    if act.atA then n.(a := FecStep(n.a, ca, n.b.box.frames, act.event))
    else n.(b := FecStep(n.b, cb, n.a.box.frames, act.event))
  }

  lemma FecStepConfig(h: FecHost, c: Coding, inbox: seq<seq<Byte>>, e: FecEvent)
    requires h.peer.k.cfg.mss > 0 && OutboxOk(h.box, c.k, c.r)
    ensures FecStep(h, c, inbox, e).peer.k.cfg == h.peer.k.cfg
  {
    hide WireStep, KcpModel.Update, Intake, OfferAll, InputAll, Addressed, DecoderOk;
    match e
    case UserSend(message) =>
      WireConfig(h.peer, [], DoSend(message));
    case UserReceive(len) =>
      WireConfig(h.peer, [], DoRecv(len));
    case Tick(milliseconds) =>
      TickIsUpdate(h.peer, milliseconds);
      WireConfig(h.peer, [], DoUpdate(Wrap32(milliseconds)));
    case Arrive(i, now) =>
      if Taken(h.dec, inbox, i) {
        InputAllConfig(h.peer.k, Intake(h.dec, inbox[i], LIMIT, now).1);
      }
  }

  lemma TickIsUpdate(h: Peer, milliseconds: int)
    requires h.k.cfg.mss > 0
    ensures WireStep(h, [], DoUpdate(Wrap32(milliseconds))).k == KcpModel.Update(Wrap, h.k, Wrap32(milliseconds)).0
  {
    hide KcpModel.Update, EncodeAll, Wrap32;
  }

  /** Any calls at two fresh endpoints. */
  ghost function FecPlay(a: Settings, b: Settings, ca: Coding, cb: Coding, acts: seq<FecAct>): (n: FecNet)
    requires Pair(a, b) && CodingOk(ca) && CodingOk(cb)
    ensures n.a.peer.k.cfg == a && n.b.peer.k.cfg == b
    ensures OutboxOk(n.a.box, ca.k, ca.r) && OutboxOk(n.b.box, cb.k, cb.r)
  {
    if acts == [] then FecNet(NewFecHost(a, ca), NewFecHost(b, cb))
    else
      var n, act := FecPlay(a, b, ca, cb, acts[..|acts| - 1]), acts[|acts| - 1];
      FecStepConfig(n.a, ca, n.b.box.frames, act.event);
      FecStepConfig(n.b, cb, n.a.box.frames, act.event);
      FecNext(n, ca, cb, act)
  }

  ghost predicate FecActLive(n: FecNet, ca: Coding, cb: Coding, act: FecAct)
    requires CodingOk(ca) && CodingOk(cb)
  {
    act.event.Arrive? ==>
      if act.atA then ArrivalLive(n.a.dec, n.b, cb, act.event.i) else ArrivalLive(n.b.dec, n.a, ca, act.event.i)
  }

  /** Every frame reaches its decoder in its turn. */
  ghost predicate FecLive(a: Settings, b: Settings, ca: Coding, cb: Coding, acts: seq<FecAct>)
    requires Pair(a, b) && CodingOk(ca) && CodingOk(cb)
  {
    forall i :: 0 <= i < |acts| ==> FecActLive(FecPlay(a, b, ca, cb, acts[..i]), ca, cb, acts[i])
  }

  function ActsOf(atA: bool, events: seq<Event>): (acts: seq<Act>)
    ensures |acts| == |events|
  {
    seq(|events|, i requires 0 <= i < |events| => Act(atA, events[i]))
  }

  ghost function ActEvents(n: FecNet, ca: Coding, cb: Coding, act: FecAct): seq<Event>
    requires CodingOk(ca) && CodingOk(cb)
  {
    if act.atA then KcpEvents(n.a, n.b, cb, act.event) else KcpEvents(n.b, n.a, ca, act.event)
  }

  /** The calls of the two control blocks in the run. */
  ghost function Trace(a: Settings, b: Settings, ca: Coding, cb: Coding, acts: seq<FecAct>): seq<Act>
    requires Pair(a, b) && CodingOk(ca) && CodingOk(cb)
  {
    if acts == [] then []
    else
      var front, act := acts[..|acts| - 1], acts[|acts| - 1];
      Trace(a, b, ca, cb, front) + ActsOf(act.atA, ActEvents(FecPlay(a, b, ca, cb, front), ca, cb, act))
  }

  /** Several calls at one control block, after a run. */
  lemma {:induction false} PlayMore(a: Settings, b: Settings, acts: seq<Act>, atA: bool, events: seq<Event>)
    requires Pair(a, b)
    ensures var n, m := WirePlay(a, b, acts), WirePlay(a, b, acts + ActsOf(atA, events));
      m == if atA then n.(a := PeerRun(n.a, n.b.out, events)) else n.(b := PeerRun(n.b, n.a.out, events))
    decreases |events|
  {
    hide WireStep, Pair;
    if events == [] {
      assert acts + ActsOf(atA, events) == acts;
    } else {
      var l := |events| - 1;
      PlayMore(a, b, acts, atA, events[..l]);
      var all := acts + ActsOf(atA, events);
      assert all[..|all| - 1] == acts + ActsOf(atA, events[..l]);
      assert all[|all| - 1] == Act(atA, events[l]);
    }
  }

  ghost predicate FecNetOk(n: FecNet, ca: Coding, cb: Coding) {
    FecHostOk(n.a, ca) && FecHostOk(n.b, cb)
  }

  function Peers(n: FecNet): Link {
    Link(n.a.peer, n.b.peer)
  }

  /** The run is a run of the two control blocks, in which each datagram
      delivered is one of the other side with zeros behind it. */
  lemma {:induction false} FecFollows(a: Settings, b: Settings, ca: Coding, cb: Coding, acts: seq<FecAct>)
    requires Pair(a, b) && CodingOk(ca) && CodingOk(cb) && FecLive(a, b, ca, cb, acts)
    ensures var n := FecPlay(a, b, ca, cb, acts);
      FecNetOk(n, ca, cb) && Peers(n) == WirePlay(a, b, Trace(a, b, ca, cb, acts))
    decreases |acts|
  {
    hide FecNetOk, FecNext, Pair, CodingOk, ActEvents, NewFecHost, WirePlay, PeerRun, OutboxOk, FecLive;
    PairMss(a, b);
    if acts == [] {
      StartBoxed(a, b, ca, cb);
    } else {
      var l := |acts| - 1;
      var front, act := acts[..l], acts[l];
      LiveFront(a, b, ca, cb, acts);
      FecFollows(a, b, ca, cb, front);
      var n := FecPlay(a, b, ca, cb, front);
      NextFollows(n, ca, cb, act);
      PlayMore(a, b, Trace(a, b, ca, cb, front), act.atA, ActEvents(n, ca, cb, act));
    }
  }

  lemma PairMss(a: Settings, b: Settings)
    requires Pair(a, b)
    ensures 0 < a.mss && 0 < b.mss
  {
  }

  lemma LiveFront(a: Settings, b: Settings, ca: Coding, cb: Coding, acts: seq<FecAct>)
    requires Pair(a, b) && CodingOk(ca) && CodingOk(cb) && FecLive(a, b, ca, cb, acts) && acts != []
    ensures var l := |acts| - 1;
      FecLive(a, b, ca, cb, acts[..l]) && FecActLive(FecPlay(a, b, ca, cb, acts[..l]), ca, cb, acts[l])
  {
    hide FecPlay, FecActLive, Pair, CodingOk;
    var l := |acts| - 1;
    forall i | 0 <= i < l ensures FecActLive(FecPlay(a, b, ca, cb, acts[..l][..i]), ca, cb, acts[..l][i]) {
      assert acts[..l][..i] == acts[..i];
    }
  }

  lemma HostBoxed(s: Settings, c: Coding)
    requires CodingOk(c)
    ensures FecHostOk(NewFecHost(s, c), c)
  {
    hide NumberOf;
    assert Boxed(NewFecHost(s, c).box, Accepted([]), c, 0);
    StartIdle();
  }

  lemma StartBoxed(a: Settings, b: Settings, ca: Coding, cb: Coding)
    requires Pair(a, b) && CodingOk(ca) && CodingOk(cb)
    ensures var n := FecNet(NewFecHost(a, ca), NewFecHost(b, cb));
      FecNetOk(n, ca, cb) && Peers(n) == WirePlay(a, b, [])
  {
    hide FecHostOk, Pair, CodingOk;
    HostBoxed(a, ca);
    HostBoxed(b, cb);
  }

  lemma NextFollows(n: FecNet, ca: Coding, cb: Coding, act: FecAct)
    requires FecNetOk(n, ca, cb) && CodingOk(ca) && CodingOk(cb) && FecActLive(n, ca, cb, act)
    requires 0 < n.a.peer.k.cfg.mss && 0 < n.b.peer.k.cfg.mss
    requires OutboxOk(n.a.box, ca.k, ca.r) && OutboxOk(n.b.box, cb.k, cb.r)
    ensures var m, events := FecNext(n, ca, cb, act), ActEvents(n, ca, cb, act);
      FecNetOk(m, ca, cb)
      && Peers(m) == if act.atA then Peers(n).(a := PeerRun(n.a.peer, n.b.peer.out, events))
                     else Peers(n).(b := PeerRun(n.b.peer, n.a.peer.out, events))
  {
    hide FecHostOk, FecStep, CodingOk, KcpEvents, ArrivalLive, PeerRun, OutboxOk;
    if act.atA {
      StepFollows(n.a, ca, n.b, cb, act.event);
    } else {
      StepFollows(n.b, cb, n.a, ca, act.event);
    }
  }

  /** End to end: two endpoints of KCP over FEC and a network that loses,
      repeats and reorders their frames. What one application receives is a
      prefix of what the other one sent, with identical bytes and boundaries. */
  lemma FecDeliversPrefix(a: Settings, b: Settings, ca: Coding, cb: Coding, acts: seq<FecAct>)
    requires Pair(a, b) && CodingOk(ca) && CodingOk(cb)
    requires FecLive(a, b, ca, cb, acts) && RunLive(a, b, Trace(a, b, ca, cb, acts))
    ensures var n := FecPlay(a, b, ca, cb, acts);
      n.b.peer.got <= n.a.peer.sent && n.a.peer.got <= n.b.peer.sent
  {
    hide FecLive, RunLive, Trace, WirePlay, FecNetOk, FecPlay;
    FecFollows(a, b, ca, cb, acts);
    WireDeliversPrefix(a, b, Trace(a, b, ca, cb, acts));
  }

  // ----- when frames come in their turn -----

  /** What is stored under s comes from batch g of the other endpoint. */
  ghost predicate HeldOf(d: Decoder, s: int, ps: seq<seq<Byte>>, c: Coding, g: nat, have: set<nat>)
    requires CodingOk(c)
  {
    Full(ps, c.k, g) && NumberOf(c.first, g) == s && InProgress(d, s, Chunk(ps, c.k, g), c.r, have)
  }

  /** Everything stored comes from batches of the other endpoint, and the cursor
      stands behind the last of k packets. */
  ghost predicate Held(d: Decoder, ps: seq<seq<Byte>>, c: Coding)
    requires CodingOk(c)
  {
    && (forall s :: s in d.groups ==> Closed(d, s) || exists g, have :: HeldOf(d, s, ps, c, g, have))
    && (d.unit.lastSeq != -1 ==> d.unit.lastIndex == c.k)
  }

  /** The frame p completes a group whose number is that of the last group
      handed out. */
  predicate Stale(d: Decoder, p: seq<Byte>) {
    Completes(d, p) && d.unit.lastSeq == SeqOf(p)
  }

  /** While the other endpoint has sent at most 65520 batches, a frame comes in
      its turn exactly if it is not stale. */
  lemma FewBatches(d: Decoder, ps: seq<seq<Byte>>, c: Coding, g: nat, i: nat, p: seq<Byte>)
    requires Idle(d) && FrameOf(ps, c, g, i, p) && Held(d, ps, c) && |ps| < SEQ_END * c.k
    ensures FrameLive(d, NumberOf(c.first, g), Chunk(ps, c.k, g), c.r, i) <==> !Stale(d, p)
  {
    hide Frame, InProgress, Batch, Chunk, Full, NumberOf, Completes, SeqOf, DecoderOk;
    var s, batch := NumberOf(c.first, g), Chunk(ps, c.k, g);
    FrameShape(s, batch, c.r, i);
    if Closed(d, s) {
      ClosedCompletes(d, p);
    } else {
      var have := {};
      if s in d.groups {
        var h, had :| HeldOf(d, s, ps, c, h, had);
        FewNumbers(ps, c, g, h);
        have := had;
      } else {
        NothingYet(d, s, batch, c.r);
      }
      CompletesIff(d, s, batch, c.r, have, i);
      forall other | InTurn(d, s, batch, c.r, other, i) ensures !Stale(d, p) {
        CompletesIff(d, s, batch, c.r, other, i);
      }
      assert !Stale(d, p) ==> InTurn(d, s, batch, c.r, have, i);
    }
  }

  lemma ClosedCompletes(d: Decoder, p: seq<Byte>)
    requires |p| >= HEAD && Closed(d, SeqOf(p))
    ensures !Completes(d, p)
  {
  }

  lemma HeldMore(d: Decoder, ps: seq<seq<Byte>>, qs: seq<seq<Byte>>, c: Coding)
    requires CodingOk(c) && Held(d, ps, c)
    ensures Held(d, ps + qs, c)
  {
    hide InProgress, Chunk, Full, NumberOf;
    forall s | s in d.groups && !Closed(d, s) ensures exists g, have :: HeldOf(d, s, ps + qs, c, g, have) {
      var g, have :| HeldOf(d, s, ps, c, g, have);
      ChunkMore(ps, qs, c.k, g);
      assert HeldOf(d, s, ps + qs, c, g, have);
    }
  }

  lemma {:induction false} AcceptedGrows(out: seq<seq<Byte>>, qs: seq<seq<Byte>>) returns (more: seq<seq<Byte>>)
    ensures Accepted(out + qs) == Accepted(out) + more
    decreases |qs|
  {
    hide Accepted;
    if qs == [] {
      assert out + [] == out;
      return [];
    }
    var l := |qs| - 1;
    more := AcceptedGrows(out, qs[..l]);
    AcceptedMore(out + qs[..l], qs[l]);
    assert (out + qs[..l]) + [qs[l]] == out + qs;
    more := more + (if Fits(qs[l]) then [qs[l]] else []);
  }

  /** Arrivals in their turn store only what comes from the batches. */
  lemma HeldArrival(d: Decoder, ps: seq<seq<Byte>>, c: Coding, g: nat, i: nat, p: seq<Byte>, now: int)
    requires Idle(d) && FrameOf(ps, c, g, i, p) && Held(d, ps, c) && Addressed(d, p)
    requires FrameLive(d, NumberOf(c.first, g), Chunk(ps, c.k, g), c.r, i)
    ensures Held(Intake(d, p, LIMIT, now).0, ps, c)
  {
    hide Frame, InProgress, Batch, Chunk, Full, NumberOf, Intake, DecoderOk, Others, Addressed, HandedAll;
    var s, batch := NumberOf(c.first, g), Chunk(ps, c.k, g);
    if Closed(d, s) {
      LateArrival(d, s, batch, c.r, i, LIMIT, now);
    } else {
      var have :| InTurn(d, s, batch, c.r, have, i);
      ArrivalStep(d, s, batch, c.r, have, i, LIMIT, now);
      var e := Intake(d, p, LIMIT, now).0;
      forall t | t in e.groups && !Closed(e, t) ensures exists h, had :: HeldOf(e, t, ps, c, h, had) {
        if t == s {
          assert HeldOf(e, s, ps, c, g, have + {i});
        } else {
          OtherGroup(d, e, s, t, now);
          var h, had :| HeldOf(d, t, ps, c, h, had);
          StillHeld(d, e, t, Chunk(ps, c.k, h), c.r, had);
          assert HeldOf(e, t, ps, c, h, had);
        }
      }
    }
  }

  lemma OtherGroup(d: Decoder, e: Decoder, s: int, t: int, now: int)
    requires Others(d, e, s, LIMIT, now) && t in e.groups && t != s
    ensures t in d.groups && d.groups[t] == e.groups[t]
  {
  }

  lemma StillHeld(d: Decoder, e: Decoder, t: int, batch: seq<seq<Byte>>, r: nat, have: set<nat>)
    requires t in d.groups && t in e.groups && d.groups[t] == e.groups[t] && InProgress(d, t, batch, r, have)
    ensures InProgress(e, t, batch, r, have)
  {
    hide Collecting;
  }

  ghost predicate FewArrival(d: Decoder, other: FecHost, oc: Coding, i: nat) {
    |Accepted(other.peer.out)| < SEQ_END * oc.k && (i < |other.box.frames| ==> !Stale(d, other.box.frames[i]))
  }

  ghost predicate FewAct(n: FecNet, ca: Coding, cb: Coding, act: FecAct) {
    act.event.Arrive? ==>
      if act.atA then FewArrival(n.a.dec, n.b, cb, act.event.i) else FewArrival(n.b.dec, n.a, ca, act.event.i)
  }

  /** No frame is stale, and none arrives after the first 65520 batches of its
      sender. */
  ghost predicate FewRun(a: Settings, b: Settings, ca: Coding, cb: Coding, acts: seq<FecAct>)
    requires Pair(a, b) && CodingOk(ca) && CodingOk(cb)
  {
    forall i :: 0 <= i < |acts| ==> FewAct(FecPlay(a, b, ca, cb, acts[..i]), ca, cb, acts[i])
  }

  ghost predicate HeldNet(n: FecNet, ca: Coding, cb: Coding)
    requires CodingOk(ca) && CodingOk(cb)
  {
    Held(n.a.dec, Accepted(n.b.peer.out), cb) && Held(n.b.dec, Accepted(n.a.peer.out), ca)
  }

  lemma FewArrivalLive(d: Decoder, other: FecHost, oc: Coding, i: nat)
    requires Idle(d) && FecHostOk(other, oc) && Held(d, Accepted(other.peer.out), oc) && FewArrival(d, other, oc, i)
    ensures ArrivalLive(d, other, oc, i)
  {
    hide Held, Idle, Accepted, FrameLive, Stale, Boxed, Chunk, Full, NumberOf, BatchOf, IndexOf, Frame;
    if i < |other.box.frames| {
      FrameAt(other, oc, i);
      FewBatches(d, Accepted(other.peer.out), oc, BatchOf(oc, i), IndexOf(oc, i), other.box.frames[i]);
    }
  }

  lemma HeldStep(h: FecHost, c: Coding, other: FecHost, oc: Coding, e: FecEvent)
    requires FecHostOk(h, c) && FecHostOk(other, oc) && h.peer.k.cfg.mss > 0 && OutboxOk(h.box, c.k, c.r)
    requires e.Arrive? ==> ArrivalLive(h.dec, other, oc, e.i)
    requires Held(h.dec, Accepted(other.peer.out), oc) && Held(other.dec, Accepted(h.peer.out), c)
    ensures var t := FecStep(h, c, other.box.frames, e);
      Held(t.dec, Accepted(other.peer.out), oc) && Held(other.dec, Accepted(t.peer.out), c)
  {
    hide Held, Idle, Accepted, FrameLive, Boxed, OfferAll, EncodeAll, Intake, InputAll, KcpModel.Update, KcpModel.Send,
      KcpModel.Recv, Addressed, DecoderOk, OutboxOk, Wrap32, Chunk, Full, NumberOf, Frame, BatchOf, IndexOf;
    match e
    case UserSend(message) =>
    case UserReceive(len) =>
    case Tick(milliseconds) =>
      var ps := EncodeAll(KcpModel.Update(Wrap, h.peer.k, Wrap32(milliseconds)).1);
      var more := AcceptedGrows(h.peer.out, ps);
      HeldMore(other.dec, Accepted(h.peer.out), more, c);
    case Arrive(i, now) =>
      if Taken(h.dec, other.box.frames, i) {
        FrameAt(other, oc, i);
        HeldArrival(h.dec, Accepted(other.peer.out), oc, BatchOf(oc, i), IndexOf(oc, i), other.box.frames[i], now);
      }
  }

  lemma FewNext(n: FecNet, ca: Coding, cb: Coding, act: FecAct)
    requires FecNetOk(n, ca, cb) && CodingOk(ca) && CodingOk(cb) && HeldNet(n, ca, cb) && FewAct(n, ca, cb, act)
    ensures FecActLive(n, ca, cb, act)
  {
    hide CodingOk, ArrivalLive, Held, FewArrival, Boxed, Accepted, Idle;
    if act.event.Arrive? {
      if act.atA {
        FewArrivalLive(n.a.dec, n.b, cb, act.event.i);
      } else {
        FewArrivalLive(n.b.dec, n.a, ca, act.event.i);
      }
    }
  }

  lemma HeldNext(n: FecNet, ca: Coding, cb: Coding, act: FecAct)
    requires FecNetOk(n, ca, cb) && CodingOk(ca) && CodingOk(cb) && HeldNet(n, ca, cb) && FecActLive(n, ca, cb, act)
    requires 0 < n.a.peer.k.cfg.mss && 0 < n.b.peer.k.cfg.mss
    requires OutboxOk(n.a.box, ca.k, ca.r) && OutboxOk(n.b.box, cb.k, cb.r)
    ensures HeldNet(FecNext(n, ca, cb, act), ca, cb)
  {
    hide FecStep, CodingOk, ArrivalLive, OutboxOk, Held, Boxed, Accepted, Idle;
    if act.atA {
      HeldStep(n.a, ca, n.b, cb, act.event);
    } else {
      HeldStep(n.b, cb, n.a, ca, act.event);
    }
  }

  /** In every live run all that is stored comes from the other endpoint. */
  lemma {:induction false} FecHeld(a: Settings, b: Settings, ca: Coding, cb: Coding, acts: seq<FecAct>)
    requires Pair(a, b) && CodingOk(ca) && CodingOk(cb) && FecLive(a, b, ca, cb, acts)
    ensures HeldNet(FecPlay(a, b, ca, cb, acts), ca, cb)
    decreases |acts|
  {
    hide FecNetOk, FecNext, Pair, CodingOk, NewFecHost, OutboxOk, FecActLive, HeldNet, FecLive;
    PairMss(a, b);
    if acts == [] {
      NothingHeld(a, b, ca, cb);
    } else {
      var front, act := acts[..|acts| - 1], acts[|acts| - 1];
      LiveFront(a, b, ca, cb, acts);
      FecHeld(a, b, ca, cb, front);
      FecFollows(a, b, ca, cb, front);
      HeldNext(FecPlay(a, b, ca, cb, front), ca, cb, act);
    }
  }

  /** In every live run, a frame of a batch in progress leaves a group that can
      be handed out exactly if it is not stale. */
  lemma StaleInRuns(
    a: Settings, b: Settings, ca: Coding, cb: Coding, acts: seq<FecAct>, g: nat, i: nat, have: set<nat>, now: int)
    requires Pair(a, b) && CodingOk(ca) && CodingOk(cb) && FecLive(a, b, ca, cb, acts) && i < cb.k + cb.r
    requires var n := FecPlay(a, b, ca, cb, acts); var ps := Accepted(n.b.peer.out);
      Full(ps, cb.k, g) && InProgress(n.a.dec, NumberOf(cb.first, g), Chunk(ps, cb.k, g), cb.r, have)
    ensures var n := FecPlay(a, b, ca, cb, acts);
      Idle(n.a.dec) && Batch(Chunk(Accepted(n.b.peer.out), cb.k, g), cb.r)
    ensures var n := FecPlay(a, b, ca, cb, acts);
      var p := Frame(NumberOf(cb.first, g), Chunk(Accepted(n.b.peer.out), cb.k, g), cb.r, i);
      Addressed(n.a.dec, p) && (Sound(FecModel.Input(n.a.dec, p, LIMIT, now).0) <==> !Stale(n.a.dec, p))
  {
    hide FecPlay, FecLive, Pair, CodingOk, Held, Accepted, Boxed, Idle, InProgress, Frame, FecModel.Input, Chunk, Full,
      Sound, Addressed, Stale, NumberOf, Batch;
    FecHeld(a, b, ca, cb, acts);
    FecFollows(a, b, ca, cb, acts);
    var n := FecPlay(a, b, ca, cb, acts);
    StaleHere(n.a.dec, Accepted(n.b.peer.out), cb, g, i, have, now);
  }

  lemma StaleHere(d: Decoder, ps: seq<seq<Byte>>, c: Coding, g: nat, i: nat, have: set<nat>, now: int)
    requires CodingOk(c) && Idle(d) && Held(d, ps, c) && i < c.k + c.r && Full(ps, c.k, g)
    requires InProgress(d, NumberOf(c.first, g), Chunk(ps, c.k, g), c.r, have)
    ensures Batch(Chunk(ps, c.k, g), c.r)
    ensures var p := Frame(NumberOf(c.first, g), Chunk(ps, c.k, g), c.r, i);
      Addressed(d, p) && (Sound(FecModel.Input(d, p, LIMIT, now).0) <==> !Stale(d, p))
  {
    hide InProgress, Frame, FecModel.Input, Chunk, Full, Addressed, NumberOf, Completes, SeqOf, Batch, GroupOk, Sound,
      Others;
    var s, batch := NumberOf(c.first, g), Chunk(ps, c.k, g);
    ProgressOpen(d, s, batch, c.r, have);
    FrameShape(s, batch, c.r, i);
    CompletesIff(d, s, batch, c.r, have, i);
    if |have + {i}| >= |batch| {
      StaleCursor(d, s, batch, c.r, have, i, LIMIT, now);
    } else {
      ReceiveStep(d, s, batch, c.r, have, i, LIMIT, now);
      NotReadySound(d, FecModel.Input(d, Frame(s, batch, c.r, i), LIMIT, now).0, s, batch, c.r, have + {i}, now);
    }
  }

  /** Without a ready group there is nothing to read behind. */
  lemma NotReadySound(
    d: Decoder, e: Decoder, s: int, batch: seq<seq<Byte>>, r: nat, more: set<nat>, now: int)
    requires Idle(d) && Others(d, e, s, LIMIT, now) && InProgress(e, s, batch, r, more)
    ensures Sound(e)
  {
    hide GroupOk, InProgress;
    ProgressOpen(e, s, batch, r, more);
  }

  /** In such a run every frame comes in its turn. */
  lemma {:induction false} FewRunLive(a: Settings, b: Settings, ca: Coding, cb: Coding, acts: seq<FecAct>)
    requires Pair(a, b) && CodingOk(ca) && CodingOk(cb) && FewRun(a, b, ca, cb, acts)
    ensures FecLive(a, b, ca, cb, acts)
    decreases |acts|
  {
    hide FecNetOk, FecNext, Pair, CodingOk, NewFecHost, OutboxOk, FecActLive, FewAct, HeldNet, FecLive, FewRun;
    PairMss(a, b);
    if acts == [] {
      NothingLive(a, b, ca, cb);
    } else {
      var l := |acts| - 1;
      var front, act := acts[..l], acts[l];
      FewFront(a, b, ca, cb, acts);
      FewRunLive(a, b, ca, cb, front);
      FecFollows(a, b, ca, cb, front);
      FecHeld(a, b, ca, cb, front);
      FewNext(FecPlay(a, b, ca, cb, front), ca, cb, act);
      LiveMore(a, b, ca, cb, acts);
    }
  }

  lemma FewFront(a: Settings, b: Settings, ca: Coding, cb: Coding, acts: seq<FecAct>)
    requires Pair(a, b) && CodingOk(ca) && CodingOk(cb) && FewRun(a, b, ca, cb, acts) && acts != []
    ensures var l := |acts| - 1;
      FewRun(a, b, ca, cb, acts[..l]) && FewAct(FecPlay(a, b, ca, cb, acts[..l]), ca, cb, acts[l])
  {
    hide FecPlay, FewAct, Pair, CodingOk;
    var l := |acts| - 1;
    forall i | 0 <= i < l ensures FewAct(FecPlay(a, b, ca, cb, acts[..l][..i]), ca, cb, acts[..l][i]) {
      assert acts[..l][..i] == acts[..i];
    }
  }

  lemma LiveMore(a: Settings, b: Settings, ca: Coding, cb: Coding, acts: seq<FecAct>)
    requires Pair(a, b) && CodingOk(ca) && CodingOk(cb) && acts != []
    requires var l := |acts| - 1;
      FecLive(a, b, ca, cb, acts[..l]) && FecActLive(FecPlay(a, b, ca, cb, acts[..l]), ca, cb, acts[l])
    ensures FecLive(a, b, ca, cb, acts)
  {
    hide FecPlay, FecActLive, Pair, CodingOk;
    var l := |acts| - 1;
    forall i | 0 <= i < |acts| ensures FecActLive(FecPlay(a, b, ca, cb, acts[..i]), ca, cb, acts[i]) {
      if i < l {
        assert acts[..l][..i] == acts[..i] && acts[..l][i] == acts[i];
      }
    }
  }

  lemma NothingLive(a: Settings, b: Settings, ca: Coding, cb: Coding)
    requires Pair(a, b) && CodingOk(ca) && CodingOk(cb)
    ensures FecLive(a, b, ca, cb, [])
  {
    hide Pair, CodingOk, FecPlay;
  }

  lemma NothingHeld(a: Settings, b: Settings, ca: Coding, cb: Coding)
    requires CodingOk(ca) && CodingOk(cb)
    ensures HeldNet(FecNet(NewFecHost(a, ca), NewFecHost(b, cb)), ca, cb)
  {
  }

  /** So within the first 65520 batches of each side only stale frames and old
      segments have to be excluded. */
  lemma FewBatchesDeliver(a: Settings, b: Settings, ca: Coding, cb: Coding, acts: seq<FecAct>)
    requires Pair(a, b) && CodingOk(ca) && CodingOk(cb)
    requires FewRun(a, b, ca, cb, acts) && RunLive(a, b, Trace(a, b, ca, cb, acts))
    ensures var n := FecPlay(a, b, ca, cb, acts);
      n.b.peer.got <= n.a.peer.sent && n.a.peer.got <= n.b.peer.sent
  {
    hide FecLive, FewRun, RunLive, Trace, HeldNet;
    FewRunLive(a, b, ca, cb, acts);
    FecDeliversPrefix(a, b, ca, cb, acts);
  }

  // ----- repair -----

  /** The frame that completes a group leaves KCP as if the datagrams of its
      batch had arrived themselves, whichever were lost, up to congestion window
      and skip counts. */
  lemma RepairIsTransparent(
    d: Decoder, s: int, batch: seq<seq<Byte>>, r: nat, have: set<nat>, i: nat, now: int, k: Kcb)
    requires Idle(d) && 0 < s < SEQ_END && InTurn(d, s, batch, r, have, i) && i < |batch| + r
    requires |batch| <= |have + {i}| && k.cfg.conv != 0
    requires forall j :: 0 <= j < |batch| ==> batch[j] != [] && WellFormed(k.cfg.conv, batch[j])
    ensures Accepts(d, Frame(s, batch, r, i))
    ensures SameButPace(InputAll(k, batch), InputAll(k, Intake(d, Frame(s, batch, r, i), LIMIT, now).1))
  {
    hide Frame, Intake, Accepts, InProgress, Others, GroupAfter, Idle, WellFormed, SameButPace, InputAll, Zeros, MaxLen;
    ArrivalStep(d, s, batch, r, have, i, LIMIT, now);
    ProgressOpen(d, s, batch, r, have);
    BatchSize(batch, r);
    PaddingNeverMatters(k, batch, HandedAll(batch, have + {i}));
  }
}
