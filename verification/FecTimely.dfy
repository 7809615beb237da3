/** End-to-end delivery from arrival times alone: when the frames of a batch
    that arrive do so within the time limit of the decoder, and numbers do not
    come back, every frame comes in its turn. */
module FecTimely {
  import opened Bytes
  import opened FecFrame
  import opened FecModel
  import opened FecDrain
  import opened FecArrivals
  import opened FecSealed
  import opened KcpModel
  import opened KcpPadding
  import opened KcpSafety
  import opened KcpConversation
  import opened FecRun

  // ----- the assumption -----

  predicate ArrivesAt(act: FecAct, atA: bool) {
    act.atA == atA && act.event.Arrive?
  }

  /** At one endpoint the clock does not go back, and all frames of a batch
      arrive within the time limit. */
  predicate Punctual(acts: seq<FecAct>, atA: bool, c: Coding)
    requires CodingOk(c)
  {
    forall j, l :: 0 <= j < l < |acts| && ArrivesAt(acts[j], atA) && ArrivesAt(acts[l], atA) ==>
      acts[j].event.now <= acts[l].event.now
      && (BatchOf(c, acts[j].event.i) == BatchOf(c, acts[l].event.i) ==>
            acts[l].event.now - acts[j].event.now <= LIMIT)
  }

  // ----- the batches of the other endpoint by number -----

  lemma FullIff(ps: seq<seq<Byte>>, k: nat, g: nat)
    requires k > 0
    ensures Full(ps, k, g) <==> g < |ps| / k
  {
    var q := |ps| / k;
    assert |ps| == q * k + |ps| % k;
    if g < q {
      Turns(g, q, k);
    } else if q < g {
      Turns(q, g, k);
    }
  }

  /** The first n batches under their numbers. */
  function Numbered(ps: seq<seq<Byte>>, c: Coding, n: nat): (source: map<int, seq<seq<Byte>>>)
    requires CodingOk(c) && n <= |ps| / c.k
  {
    if n == 0 then map[]
    else
      FullIff(ps, c.k, n - 1);
      Numbered(ps, c, n - 1)[NumberOf(c.first, n - 1) := Chunk(ps, c.k, n - 1)]
  }

  lemma {:induction false} NumberedHas(ps: seq<seq<Byte>>, c: Coding, n: nat, g: nat)
    requires CodingOk(c) && n <= |ps| / c.k && g < n && |ps| < SEQ_END * c.k
    ensures Full(ps, c.k, g) && NumberOf(c.first, g) in Numbered(ps, c, n)
    ensures Numbered(ps, c, n)[NumberOf(c.first, g)] == Chunk(ps, c.k, g)
  {
    hide NumberOf, Full, Chunk;
    FullIff(ps, c.k, g);
    FullIff(ps, c.k, n - 1);
    if g < n - 1 {
      NumberedHas(ps, c, n - 1, g);
      if NumberOf(c.first, g) == NumberOf(c.first, n - 1) {
        FewNumbers(ps, c, g, n - 1);
      }
    }
  }

  function Source(ps: seq<seq<Byte>>, c: Coding): map<int, seq<seq<Byte>>>
    requires CodingOk(c)
  {
    Numbered(ps, c, |ps| / c.k)
  }

  lemma SourceHas(ps: seq<seq<Byte>>, c: Coding, g: nat)
    requires CodingOk(c) && Full(ps, c.k, g) && |ps| < SEQ_END * c.k
    ensures NumberOf(c.first, g) in Source(ps, c) && Source(ps, c)[NumberOf(c.first, g)] == Chunk(ps, c.k, g)
  {
    hide NumberOf, Full, Chunk;
    FullIff(ps, c.k, g);
    NumberedHas(ps, c, |ps| / c.k, g);
  }

  // ----- what has arrived at an endpoint -----

  function InboxAt(n: FecNet, atA: bool): seq<seq<Byte>> {
    if atA then n.b.box.frames else n.a.box.frames
  }

  function DecoderAt(n: FecNet, atA: bool): Decoder {
    if atA then n.a.dec else n.b.dec
  }

  /** The datagrams the other endpoint has sent so far. */
  function OutAt(n: FecNet, atA: bool): seq<seq<Byte>> {
    if atA then n.b.peer.out else n.a.peer.out
  }

  function CodingAt(ca: Coding, cb: Coding, atA: bool): Coding {
    if atA then cb else ca
  }

  function ArrivalOf(c: Coding, e: FecEvent): Arrival
    requires CodingOk(c) && e.Arrive?
  {
    Arrival(NumberOf(c.first, BatchOf(c, e.i)), IndexOf(c, e.i), e.now)
  }

  /** The frames that have arrived at one endpoint, in order. */
  ghost function ArrivalsAt(a: Settings, b: Settings, ca: Coding, cb: Coding, acts: seq<FecAct>, atA: bool):
      (arrivals: seq<Arrival>)
    requires Pair(a, b) && CodingOk(ca) && CodingOk(cb)
  {
    if acts == [] then []
    else
      var front, act := acts[..|acts| - 1], acts[|acts| - 1];
      var rest := ArrivalsAt(a, b, ca, cb, front, atA);
      if ArrivesAt(act, atA) && act.event.i < |InboxAt(FecPlay(a, b, ca, cb, front), atA)| then
        rest + [ArrivalOf(CodingAt(ca, cb, atA), act.event)]
      else rest
  }

  /** x is the arrival of a frame of one of the batches. */
  predicate FromAct(acts: seq<FecAct>, atA: bool, c: Coding, ps: seq<seq<Byte>>, x: Arrival)
    requires CodingOk(c)
  {
    exists j :: 0 <= j < |acts| && IsArrival(acts[j], atA, c, ps, x)
  }

  predicate IsArrival(act: FecAct, atA: bool, c: Coding, ps: seq<seq<Byte>>, x: Arrival)
    requires CodingOk(c)
  {
    && ArrivesAt(act, atA) && x.now == act.event.now && Full(ps, c.k, BatchOf(c, act.event.i))
    && x.s == NumberOf(c.first, BatchOf(c, act.event.i))
  }

  /** Everything that is known of the decoder of one endpoint. */
  ghost predicate Tracked(
    acts: seq<FecAct>, atA: bool, c: Coding, ps: seq<seq<Byte>>, arrivals: seq<Arrival>, d: Decoder)
    requires CodingOk(c)
  {
    && Tracks(Source(ps, c), c.r, arrivals, LIMIT, d)
    && (arrivals != [] ==> Keeps(arrivals, LIMIT, d, arrivals[|arrivals| - 1].now))
    && forall x :: x in arrivals ==> FromAct(acts, atA, c, ps, x)
  }

  lemma FromMore(acts: seq<FecAct>, act: FecAct, atA: bool, c: Coding, ps: seq<seq<Byte>>, x: Arrival)
    requires CodingOk(c) && FromAct(acts, atA, c, ps, x)
    ensures FromAct(acts + [act], atA, c, ps, x)
  {
    hide IsArrival;
    var j :| 0 <= j < |acts| && IsArrival(acts[j], atA, c, ps, x);
    assert (acts + [act])[j] == acts[j];
  }

  lemma TrackedMore(
    acts: seq<FecAct>, act: FecAct, atA: bool, c: Coding, ps: seq<seq<Byte>>, arrivals: seq<Arrival>, d: Decoder)
    requires CodingOk(c) && Tracked(acts, atA, c, ps, arrivals, d)
    ensures Tracked(acts + [act], atA, c, ps, arrivals, d)
  {
    hide Tracks, Keeps, FromAct, Source;
    forall x | x in arrivals ensures FromAct(acts + [act], atA, c, ps, x) {
      FromMore(acts, act, atA, c, ps, x);
    }
  }

  /** Before the next arrival the earlier ones lie in the past, those of the same
      batch within the time limit. */
  lemma EarlierArrivals(
    acts: seq<FecAct>, act: FecAct, atA: bool, c: Coding, ps: seq<seq<Byte>>, arrivals: seq<Arrival>)
    requires CodingOk(c) && Punctual(acts + [act], atA, c) && ArrivesAt(act, atA) && |ps| < SEQ_END * c.k
    requires Full(ps, c.k, BatchOf(c, act.event.i)) && forall x :: x in arrivals ==> FromAct(acts, atA, c, ps, x)
    ensures var y := ArrivalOf(c, act.event);
      Within(arrivals, y.s, y.now, LIMIT) && forall x :: x in arrivals ==> x.now <= y.now
  {
    hide NumberOf, Full, BatchOf, IndexOf;
    var y, all := ArrivalOf(c, act.event), acts + [act];
    forall x | x in arrivals ensures x.now <= y.now && (x.s == y.s ==> y.now - x.now <= LIMIT) {
      var j :| 0 <= j < |acts| && IsArrival(acts[j], atA, c, ps, x);
      assert all[j] == acts[j] && all[|acts|] == act;
      if x.s == y.s {
        FewNumbers(ps, c, BatchOf(c, acts[j].event.i), BatchOf(c, act.event.i));
      }
    }
    forall j | 0 <= j < |arrivals| && arrivals[j].s == y.s ensures y.now - arrivals[j].now <= LIMIT {
      assert arrivals[j] in arrivals;
    }
  }

  /** One more frame: it is not stale, and what is known of the decoder holds again. */
  lemma TrackedArrival(
    acts: seq<FecAct>, act: FecAct, atA: bool, c: Coding, out: seq<seq<Byte>>, ps: seq<seq<Byte>>,
    arrivals: seq<Arrival>, d: Decoder, p: seq<Byte>)
    requires CodingOk(c) && Punctual(acts + [act], atA, c) && ArrivesAt(act, atA) && |ps| < SEQ_END * c.k
    requires Tracked(acts, atA, c, ps, arrivals, d) && Accepted(out) <= ps
    requires FrameOf(Accepted(out), c, BatchOf(c, act.event.i), IndexOf(c, act.event.i), p)
    ensures Accepts(d, p) && !Stale(d, p) && DecoderOk(d) && Addressed(d, p)
    ensures Tracked(acts + [act], atA, c, ps, arrivals + [ArrivalOf(c, act.event)],
                  Intake(d, p, LIMIT, act.event.now).0)
  {
    hide NumberOf, Full, BatchOf, IndexOf, Tracks, Keeps, Source, Frame, Chunk, FromAct, Accepted, Punctual, Within,
      Intake, Accepts, Batch, DecoderOk, Addressed, Stale, Due;
    var g, x := BatchOf(c, act.event.i), ArrivalOf(c, act.event);
    FrameLater(Accepted(out), ps, c, g, IndexOf(c, act.event.i), p);
    SourceHas(ps, c, g);
    EarlierArrivals(acts, act, atA, c, ps, arrivals);
    KeptTill(arrivals, d, x.now);
    FromOne(Source(ps, c), ps, c, g, x, p);
    TrackStep(Source(ps, c), c.r, arrivals, LIMIT, d, x);
    NotStale(d, p);
    AcceptsAddressed(d, p);
    NewArrival(acts, act, atA, c, ps);
    forall y | y in arrivals ensures FromAct(acts + [act], atA, c, ps, y) {
      FromMore(acts, act, atA, c, ps, y);
    }
  }

  lemma FromOne(
    source: map<int, seq<seq<Byte>>>, ps: seq<seq<Byte>>, c: Coding, g: nat, x: Arrival, p: seq<Byte>)
    requires CodingOk(c) && FrameOf(ps, c, g, x.i, p) && x.s == NumberOf(c.first, g)
    requires x.s in source && source[x.s] == Chunk(ps, c.k, g)
    ensures FromSource(source, c.r, x) && p == Frame(x.s, source[x.s], c.r, x.i)
  {
    hide Frame, Batch;
  }

  lemma NotStale(d: Decoder, p: seq<Byte>)
    requires Accepts(d, p)
    ensures !Stale(d, p)
  {
    hide Completes, SeqOf;
  }

  lemma NewArrival(acts: seq<FecAct>, act: FecAct, atA: bool, c: Coding, ps: seq<seq<Byte>>)
    requires CodingOk(c) && ArrivesAt(act, atA) && Full(ps, c.k, BatchOf(c, act.event.i))
    ensures FromAct(acts + [act], atA, c, ps, ArrivalOf(c, act.event))
  {
    hide NumberOf, Full, BatchOf, IndexOf;
    assert IsArrival((acts + [act])[|acts|], atA, c, ps, ArrivalOf(c, act.event));
  }

  lemma KeptTill(arrivals: seq<Arrival>, d: Decoder, now: int)
    requires arrivals != [] ==> Keeps(arrivals, LIMIT, d, arrivals[|arrivals| - 1].now)
    requires forall x :: x in arrivals ==> x.now <= now
    ensures Keeps(arrivals, LIMIT, d, now)
  {
    hide Keeps;
    if arrivals == [] {
      KeepsNothing(LIMIT, d, now);
    } else {
      assert arrivals[|arrivals| - 1] in arrivals;
      KeepsLater(arrivals, LIMIT, d, arrivals[|arrivals| - 1].now, now);
    }
  }

  lemma FrameLater(ps: seq<seq<Byte>>, qs: seq<seq<Byte>>, c: Coding, g: nat, i: nat, p: seq<Byte>)
    requires FrameOf(ps, c, g, i, p) && ps <= qs
    ensures FrameOf(qs, c, g, i, p)
  {
    hide FrameOf;
    FrameOfMore(ps, qs[|ps|..], c, g, i, p);
    assert ps + qs[|ps|..] == qs;
  }

  // ----- one step -----

  /** The arrivals after one more act. */
  function Arrived(n: FecNet, c: Coding, act: FecAct, atA: bool, arrivals: seq<Arrival>): seq<Arrival>
    requires CodingOk(c)
  {
    if ArrivesAt(act, atA) && act.event.i < |InboxAt(n, atA)| then arrivals + [ArrivalOf(c, act.event)] else arrivals
  }

  ghost predicate FewAt(n: FecNet, ca: Coding, cb: Coding, act: FecAct, atA: bool) {
    ArrivesAt(act, atA) ==>
      if atA then FewArrival(n.a.dec, n.b, cb, act.event.i) else FewArrival(n.b.dec, n.a, ca, act.event.i)
  }

  /** A decoder that takes no frame is left alone. */
  lemma SameDecoder(n: FecNet, ca: Coding, cb: Coding, act: FecAct, atA: bool)
    requires 0 < n.a.peer.k.cfg.mss && 0 < n.b.peer.k.cfg.mss
    requires OutboxOk(n.a.box, ca.k, ca.r) && OutboxOk(n.b.box, cb.k, cb.r)
    requires !(ArrivesAt(act, atA) && act.event.i < |InboxAt(n, atA)|)
    ensures DecoderAt(FecNext(n, ca, cb, act), atA) == DecoderAt(n, atA)
  {
    hide KcpModel.Update, OfferAll, Intake, InputAll, Addressed, DecoderOk, OutboxOk, WireStep;
  }

  lemma TakenDecoder(n: FecNet, ca: Coding, cb: Coding, act: FecAct, atA: bool)
    requires 0 < n.a.peer.k.cfg.mss && 0 < n.b.peer.k.cfg.mss
    requires OutboxOk(n.a.box, ca.k, ca.r) && OutboxOk(n.b.box, cb.k, cb.r)
    requires ArrivesAt(act, atA) && act.event.i < |InboxAt(n, atA)|
    requires DecoderOk(DecoderAt(n, atA)) && Addressed(DecoderAt(n, atA), InboxAt(n, atA)[act.event.i])
    ensures DecoderAt(FecNext(n, ca, cb, act), atA)
         == Intake(DecoderAt(n, atA), InboxAt(n, atA)[act.event.i], LIMIT, act.event.now).0
  {
    hide Intake, InputAll, Addressed, DecoderOk, OutboxOk;
  }

  lemma TrackedStep(
    n: FecNet, ca: Coding, cb: Coding, acts: seq<FecAct>, act: FecAct, atA: bool, ps: seq<seq<Byte>>,
    arrivals: seq<Arrival>)
    requires FecNetOk(n, ca, cb) && CodingOk(ca) && CodingOk(cb)
    requires 0 < n.a.peer.k.cfg.mss && 0 < n.b.peer.k.cfg.mss
    requires OutboxOk(n.a.box, ca.k, ca.r) && OutboxOk(n.b.box, cb.k, cb.r)
    requires var c := CodingAt(ca, cb, atA);
      Punctual(acts + [act], atA, c) && |ps| < SEQ_END * c.k && Accepted(OutAt(n, atA)) <= ps
      && Tracked(acts, atA, c, ps, arrivals, DecoderAt(n, atA))
    ensures FewAt(n, ca, cb, act, atA)
    ensures var c := CodingAt(ca, cb, atA);
      Tracked(acts + [act], atA, c, ps, Arrived(n, c, act, atA, arrivals), DecoderAt(FecNext(n, ca, cb, act), atA))
  {
    hide CodingOk, Punctual, Tracked, FecNext, OutboxOk, Stale, FrameOf, BatchOf, IndexOf, Idle, Accepted, Intake,
      DecoderOk, Addressed, Boxed, Accepts, ArrivalOf;
    var c, d := CodingAt(ca, cb, atA), DecoderAt(n, atA);
    if ArrivesAt(act, atA) && act.event.i < |InboxAt(n, atA)| {
      var i := act.event.i;
      if atA {
        FrameAt(n.b, cb, i);
      } else {
        FrameAt(n.a, ca, i);
      }
      TrackedArrival(acts, act, atA, c, OutAt(n, atA), ps, arrivals, d, InboxAt(n, atA)[i]);
      TakenDecoder(n, ca, cb, act, atA);
    } else {
      SameDecoder(n, ca, cb, act, atA);
      TrackedMore(acts, act, atA, c, ps, arrivals, d);
    }
  }

  /** What an endpoint has sent only grows. */
  lemma OutGrows(n: FecNet, ca: Coding, cb: Coding, act: FecAct, atA: bool)
    requires 0 < n.a.peer.k.cfg.mss && 0 < n.b.peer.k.cfg.mss
    requires OutboxOk(n.a.box, ca.k, ca.r) && OutboxOk(n.b.box, cb.k, cb.r)
    ensures Accepted(OutAt(n, atA)) <= Accepted(OutAt(FecNext(n, ca, cb, act), atA))
  {
    hide KcpModel.Update, KcpModel.Send, KcpModel.Recv, OfferAll, Intake, InputAll, Addressed, DecoderOk, OutboxOk,
      EncodeAll, Accepted, Wrap32;
    var m := FecNext(n, ca, cb, act);
    if act.event.Tick? && act.atA != atA {
      var h := if act.atA then n.a else n.b;
      var ps := KcpModel.Update(Wrap, h.peer.k, Wrap32(act.event.milliseconds)).1;
      var more := AcceptedGrows(h.peer.out, EncodeAll(ps));
    } else {
      assert OutAt(m, atA) == OutAt(n, atA);
    }
  }

  // ----- whole runs -----

  lemma PunctualFront(acts: seq<FecAct>, atA: bool, c: Coding)
    requires CodingOk(c) && acts != [] && Punctual(acts, atA, c)
    ensures Punctual(acts[..|acts| - 1], atA, c)
  {
    hide BatchOf;
  }

  lemma StartTracked(atA: bool, c: Coding, ps: seq<seq<Byte>>)
    requires CodingOk(c)
    ensures Tracked([], atA, c, ps, [], START)
  {
    hide Tracks, Source;
    StartTracks(Source(ps, c), c.r, LIMIT);
  }

  lemma FewMore(a: Settings, b: Settings, ca: Coding, cb: Coding, acts: seq<FecAct>)
    requires Pair(a, b) && CodingOk(ca) && CodingOk(cb) && acts != []
    requires var front, act := acts[..|acts| - 1], acts[|acts| - 1];
      var n := FecPlay(a, b, ca, cb, front);
      FewRun(a, b, ca, cb, front) && FewAt(n, ca, cb, act, true) && FewAt(n, ca, cb, act, false)
    ensures FewRun(a, b, ca, cb, acts)
  {
    hide FecPlay, FewArrival, Pair, CodingOk;
    var l := |acts| - 1;
    forall i | 0 <= i < |acts| ensures FewAct(FecPlay(a, b, ca, cb, acts[..i]), ca, cb, acts[i]) {
      if i < l {
        assert acts[..l][..i] == acts[..i] && acts[..l][i] == acts[i];
      }
    }
  }

  /** The premises on a run and on what has been sent in it. */
  ghost predicate Timed(
    a: Settings, b: Settings, ca: Coding, cb: Coding, acts: seq<FecAct>, atA: bool, ps: seq<seq<Byte>>)
    requires Pair(a, b) && CodingOk(ca) && CodingOk(cb)
  {
    var c := CodingAt(ca, cb, atA);
    Punctual(acts, atA, c) && Accepted(OutAt(FecPlay(a, b, ca, cb, acts), atA)) <= ps && |ps| < SEQ_END * c.k
  }

  lemma TimedFront(
    a: Settings, b: Settings, ca: Coding, cb: Coding, acts: seq<FecAct>, atA: bool, ps: seq<seq<Byte>>)
    requires Pair(a, b) && CodingOk(ca) && CodingOk(cb) && acts != [] && Timed(a, b, ca, cb, acts, atA, ps)
    ensures Timed(a, b, ca, cb, acts[..|acts| - 1], atA, ps)
    ensures Accepted(OutAt(FecPlay(a, b, ca, cb, acts[..|acts| - 1]), atA)) <= ps
  {
    hide Accepted, Pair, CodingOk, Punctual, FecNext, OutboxOk;
    PairMss(a, b);
    PunctualFront(acts, atA, CodingAt(ca, cb, atA));
    OutGrows(FecPlay(a, b, ca, cb, acts[..|acts| - 1]), ca, cb, acts[|acts| - 1], atA);
  }

  ghost predicate TrackedIn(
    a: Settings, b: Settings, ca: Coding, cb: Coding, acts: seq<FecAct>, atA: bool, ps: seq<seq<Byte>>)
    requires Pair(a, b) && CodingOk(ca) && CodingOk(cb)
  {
    Tracked(acts, atA, CodingAt(ca, cb, atA), ps, ArrivalsAt(a, b, ca, cb, acts, atA),
            DecoderAt(FecPlay(a, b, ca, cb, acts), atA))
  }

  lemma TrackedLast(
    a: Settings, b: Settings, ca: Coding, cb: Coding, acts: seq<FecAct>, atA: bool, ps: seq<seq<Byte>>)
    requires Pair(a, b) && CodingOk(ca) && CodingOk(cb) && acts != [] && Timed(a, b, ca, cb, acts, atA, ps)
    requires FecNetOk(FecPlay(a, b, ca, cb, acts[..|acts| - 1]), ca, cb)
    requires TrackedIn(a, b, ca, cb, acts[..|acts| - 1], atA, ps)
    ensures FewAt(FecPlay(a, b, ca, cb, acts[..|acts| - 1]), ca, cb, acts[|acts| - 1], atA)
    ensures TrackedIn(a, b, ca, cb, acts, atA, ps)
  {
    hide Pair, CodingOk, Punctual, FecNext, OutboxOk, FewAt, Tracked, FecNetOk, Accepted, ArrivalOf;
    var front, act := acts[..|acts| - 1], acts[|acts| - 1];
    assert front + [act] == acts;
    PairMss(a, b);
    TimedFront(a, b, ca, cb, acts, atA, ps);
    TrackedStep(FecPlay(a, b, ca, cb, front), ca, cb, front, act, atA, ps, ArrivalsAt(a, b, ca, cb, front, atA));
  }

  lemma TrackedStart(a: Settings, b: Settings, ca: Coding, cb: Coding, atA: bool, ps: seq<seq<Byte>>)
    requires Pair(a, b) && CodingOk(ca) && CodingOk(cb)
    ensures TrackedIn(a, b, ca, cb, [], atA, ps) && FewRun(a, b, ca, cb, [])
  {
    hide Pair, CodingOk, Tracked;
    StartTracked(atA, CodingAt(ca, cb, atA), ps);
  }

  /** No frame of a punctual run is stale. */
  lemma {:induction false} TimelyIsFew(
    a: Settings, b: Settings, ca: Coding, cb: Coding, acts: seq<FecAct>, psa: seq<seq<Byte>>, psb: seq<seq<Byte>>)
    requires Pair(a, b) && CodingOk(ca) && CodingOk(cb)
    requires Timed(a, b, ca, cb, acts, true, psb) && Timed(a, b, ca, cb, acts, false, psa)
    ensures FewRun(a, b, ca, cb, acts)
    ensures TrackedIn(a, b, ca, cb, acts, true, psb) && TrackedIn(a, b, ca, cb, acts, false, psa)
    decreases |acts|
  {
    hide Pair, CodingOk, Timed, TrackedIn, FewRun, FecNetOk, FecPlay, FecLive, FewAt;
    if acts == [] {
      TrackedStart(a, b, ca, cb, true, psb);
      TrackedStart(a, b, ca, cb, false, psa);
    } else {
      var front := acts[..|acts| - 1];
      TimedFront(a, b, ca, cb, acts, true, psb);
      TimedFront(a, b, ca, cb, acts, false, psa);
      TimelyIsFew(a, b, ca, cb, front, psa, psb);
      FewRunLive(a, b, ca, cb, front);
      FecFollows(a, b, ca, cb, front);
      TrackedLast(a, b, ca, cb, acts, true, psb);
      TrackedLast(a, b, ca, cb, acts, false, psa);
      FewMore(a, b, ca, cb, acts);
    }
  }

  /** End to end from arrival times: if at both endpoints the clock does not go
      back and the frames of a batch that arrive do so within 10 seconds, and
      neither side has sent more than 65520 batches, messages come out as they
      went in. */
  lemma TimelyDelivers(a: Settings, b: Settings, ca: Coding, cb: Coding, acts: seq<FecAct>)
    requires Pair(a, b) && CodingOk(ca) && CodingOk(cb)
    requires Punctual(acts, true, cb) && Punctual(acts, false, ca)
    requires var n := FecPlay(a, b, ca, cb, acts);
      |Accepted(n.a.peer.out)| < SEQ_END * ca.k && |Accepted(n.b.peer.out)| < SEQ_END * cb.k
    requires RunLive(a, b, Trace(a, b, ca, cb, acts))
    ensures FewRun(a, b, ca, cb, acts)
    ensures var n := FecPlay(a, b, ca, cb, acts);
      n.b.peer.got <= n.a.peer.sent && n.a.peer.got <= n.b.peer.sent
  {
    hide Pair, CodingOk, Punctual, FecPlay, Trace, RunLive, FewRun, TrackedIn, Accepted;
    var n := FecPlay(a, b, ca, cb, acts);
    TimelyIsFew(a, b, ca, cb, acts, Accepted(n.a.peer.out), Accepted(n.b.peer.out));
    FewBatchesDeliver(a, b, ca, cb, acts);
  }
}
