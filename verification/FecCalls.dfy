/** What the calls of the FEC decoder return and give up, said without the
    functions they are built from. */
module FecCalls {
  import opened Bytes
  import opened Timeouts
  import opened FecFrame
  import opened FecModel
  import opened FecDrain

  /** The value of a header byte as the decoder reads it. */
  function At(p: seq<Byte>, i: nat): int
    requires i < |p|
  {
    if p[i] >= 128 then p[i] as int - 256 else p[i]
  }

  /** Input by the first bytes of a packet: unencoded data waits to be handed
      out; what is too short or numbered outside its group is refused; what
      belongs to a group that is complete is not taken. */
  lemma InputCodes(d: Decoder, p: seq<Byte>, limit: int, now: int)
    requires DecoderOk(d) && Addressed(d, p)
    ensures var (e, code) := Input(d, p, limit, now);
      if |p| < 4 then (e, code) == (d, -1)
      else if p[..4] == [0x78, 0x56, 0x34, 0x12] then
        code == |p| - 4 && e == d.(unit := d.unit.(ready := true, data := p[4..]))
      else if p[..4] != [0x12, 0x34, 0x56, 0x78] then (e, code) == (d, -2)
      else if |p| < 11 || At(p, 10) == 0 || At(p, 10) > At(p, 8) + At(p, 9) then (e, code) == (d, -1)
      else var s := 256 * (p[4] as int) + p[5];
        s in d.groups && (d.groups[s].ready || d.groups[s].cur >= d.groups[s].num) ==>
          e == d && code == if d.groups[s].ready then 1 else 0
  {
    hide Collect, DecoderOk, Addressed;
    if |p| >= 4 {
      MarksRead(p);
    }
  }

  lemma MarksRead(p: seq<Byte>)
    requires |p| >= 4
    ensures FromLe32(p[0..4]) == UNIQUE <==> p[..4] == [0x78, 0x56, 0x34, 0x12]
    ensures FromBe32(p[0..4]) == UNIQUE <==> p[..4] == [0x12, 0x34, 0x56, 0x78]
  {
    hide FromLe32, FromBe32;
    var b := p[..4];
    assert b == p[0..4] && b == [b[0], b[1], b[2], b[3]];
    MarkIs(b[0], b[1], b[2], b[3]);
    MarkIs(b[3], b[2], b[1], b[0]);
  }

  /** The mark has only one way to be written in four bytes. */
  lemma MarkIs(b0: Byte, b1: Byte, b2: Byte, b3: Byte)
    ensures var low: int, rest: int := b0, b1 as int + 256 * (b2 as int + 256 * b3);
      FromLe32([b0, b1, b2, b3]) == low + 256 * rest == FromBe32([b3, b2, b1, b0])
    ensures FromLe32([b0, b1, b2, b3]) == UNIQUE <==> b0 == 0x78 && b1 == 0x56 && b2 == 0x34 && b3 == 0x12
  {
  }

  /** Unencoded data comes out as it is. */
  lemma MarkedPasses(d: Decoder, x: seq<Byte>, limit: int, now: int)
    requires Idle(d) && x != []
    ensures Accepts(d, Marked(x)) && Intake(d, Marked(x), limit, now).1 == [x]
  {
    hide Intake, Sweep, FromLe32, FromBe32, GroupOk, Marked, Unframed;
    MarkedRoundTrip(x);
    MarkedIs(d, x, limit, now);
    IntakeSettles(d, Marked(x), limit, now);
  }

  lemma MarkedIs(d: Decoder, x: seq<Byte>, limit: int, now: int)
    requires DecoderOk(d) && x != []
    ensures Accepts(d, Marked(x))
    ensures Input(d, Marked(x), limit, now) == (d.(unit := d.unit.(ready := true, data := x)), |x|)
  {
    hide FromLe32, FromBe32, GroupOk;
    MarkedRoundTrip(x);
  }

  /** The last packet numbered s came more than limit ago. */
  predicate GivenUp(times: map<int, int>, limit: int, now: int, s: int) {
    s in times && now - times[s] > limit
  }

  /** Once something has been handed out, exactly the groups are gone whose last
      packet came longer ago than the limit. */
  lemma DrainClears(d: Decoder, p: seq<Byte>, limit: int, now: int)
    requires Idle(d) && Accepts(d, p)
    ensures var e := Input(d, p, limit, now).0; var (f, out) := Intake(d, p, limit, now);
      if out == [] then f == e
      else
        && (forall s :: s in f.groups <==> s in e.groups && !GivenUp(e.times, limit, now, s))
        && (forall s :: s in f.groups ==> f.groups[s] == e.groups[s].(ready := false))
        && forall s :: s in f.times <==> s in e.times && !GivenUp(e.times, limit, now, s)
  {
    hide Input, Intake, Completes, Addressed, Unframed, SeqOf, Whole, GroupOk, DecoderOk, Sweep,
      PendingUnit, PendingGroup, Waiting, Settled,
      GivenUp;
    var (e, ret) := Input(d, p, limit, now);
    var todo, f := Waiting(e, p), Settled(e, p, limit, now);
    IntakeSettles(d, p, limit, now);
    InputPending(d, p, limit, now);
    if PendingUnit(e, ret, todo, f, limit, now) {
      UnitClears(e, ret, todo, f, limit, now);
    } else if s, j :| PendingGroup(e, ret, todo, f, limit, now, s, j) {
      GroupClears(e, ret, todo, f, limit, now, s, j);
    }
  }

  lemma SweepClears(d: Decoder, limit: int, now: int)
    requires forall s :: s in d.groups ==> !d.groups[s].ready
    ensures var f := Sweep(d, limit, now);
      && (forall s :: s in f.groups <==> s in d.groups && !GivenUp(d.times, limit, now, s))
      && (forall s :: s in f.groups ==> f.groups[s] == d.groups[s])
      && forall s :: s in f.times <==> s in d.times && !GivenUp(d.times, limit, now, s)
  {
  }

  lemma UnitClears(e: Decoder, length: int, todo: seq<seq<Byte>>, f: Decoder, limit: int, now: int)
    requires PendingUnit(e, length, todo, f, limit, now)
    ensures todo != []
    ensures forall s :: s in f.groups <==> s in e.groups && !GivenUp(e.times, limit, now, s)
    ensures forall s :: s in f.groups ==> f.groups[s] == e.groups[s].(ready := false)
    ensures forall s :: s in f.times <==> s in e.times && !GivenUp(e.times, limit, now, s)
  {
    hide Sweep, DecoderOk, GivenUp;
    SweepClears(e.(unit := e.unit.(ready := false, data := [])), limit, now);
  }

  lemma GroupClears(
    e: Decoder, length: int, todo: seq<seq<Byte>>, f: Decoder, limit: int, now: int, s: int, j: nat)
    requires PendingGroup(e, length, todo, f, limit, now, s, j)
    ensures todo != []
    ensures forall t :: t in f.groups <==> t in e.groups && !GivenUp(e.times, limit, now, t)
    ensures forall t :: t in f.groups ==> f.groups[t] == e.groups[t].(ready := false)
    ensures forall t :: t in f.times <==> t in e.times && !GivenUp(e.times, limit, now, t)
  {
    hide Sweep, DecoderOk, GivenUp, Whole, Pieces;
    var g := e.groups[s];
    SweepClears(e.(groups := e.groups[s := g.(ready := false)], readyNum := 0,
                   unit := e.unit.(lastSeq := s, lastIndex := |g.slots|)), limit, now);
  }

  /** A packet that does not complete its group: its group is kept with the time
      of this packet; and if it was taken and more than 50 groups are stored,
      exactly those are gone whose last packet came longer ago than the limit. */
  lemma CrowdClears(d: Decoder, p: seq<Byte>, limit: int, now: int)
    requires Idle(d) && Addressed(d, p) && Numbered(p) && !Closed(d, SeqOf(p)) && !Completes(d, p)
    ensures var s := SeqOf(p); var e := Input(d, p, limit, now).0;
      var times, all := d.times[s := now], d.groups.Keys + {s};
      var taken := Known(d, s, SlotsOf(p)).slots[SignedByte(p[10]) - 1].None?;
      && (forall t :: t in e.groups <==> t in all && (taken && |all| > 50 ==> !GivenUp(times, limit, now, t)))
      && (forall t :: t in e.times <==> t in times && (taken && |all| > 50 ==> !GivenUp(times, limit, now, t)))
  {
    hide SeqOf, LengthOf, FromBe32, Tidy, Known, GroupOk, Complete, GivenUp;
    KnownFits(d, p);
    var s, k: nat, i: nat := SeqOf(p), SignedByte(p[8]), SignedByte(p[10]) - 1;
    var h := Noted(Known(d, s, SlotsOf(p)), k, SignedByte(p[9]), |p| - HEAD);
    if h.slots[i].None? {
      var t := Store(h, i, p[HEAD..], LengthOf(p));
      TidyClears(d.(times := d.times[s := now], groups := d.groups[s := t]), limit, now);
    }
  }

  lemma TidyClears(d: Decoder, limit: int, now: int)
    requires forall s :: s in d.groups ==> !d.groups[s].ready
    ensures var f := Tidy(d, limit, now); var crowd := |d.groups.Keys| > 50;
      && (forall s :: s in f.groups <==> s in d.groups && (crowd ==> !GivenUp(d.times, limit, now, s)))
      && (forall s :: s in f.times <==> s in d.times && (crowd ==> !GivenUp(d.times, limit, now, s)))
  {
    hide Sweep, GivenUp;
    SweepClears(d, limit, now);
  }

  /** Group s has its packets, and they fit a buffer of least bytes. */
  predicate Fits(groups: map<int, Group>, least: int, s: int) {
    s in groups && groups[s].ready && groups[s].maxLen <= least
  }

  /** The search: the smallest number of a group that is complete and fits; 0 if
      there is none, and also if number 0 is one. */
  lemma SearchFindsLeast(groups: map<int, Group>, least: int)
    ensures var s := NextReady(groups, least, 0);
      && (s != 0 ==> 0 < s < U16 && Fits(groups, least, s) && forall t :: 0 <= t < s ==> !Fits(groups, least, t))
      && (s == 0 ==> Fits(groups, least, 0) || forall t :: 0 <= t < U16 ==> !Fits(groups, least, t))
  {
    LeastFrom(groups, least, 0);
  }

  lemma {:induction false} LeastFrom(groups: map<int, Group>, least: int, from: nat)
    requires from <= U16
    ensures var s := NextReady(groups, least, from);
      || (from <= s < U16 && Fits(groups, least, s) && forall t :: from <= t < s ==> !Fits(groups, least, t))
      || (s == 0 && forall t :: from <= t < U16 ==> !Fits(groups, least, t))
    decreases U16 - from
  {
    if from < U16 && !Fits(groups, least, from) {
      LeastFrom(groups, least, from + 1);
    }
  }
}
