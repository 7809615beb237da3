/** Frames of any groups reaching a decoder that is drained after each of them:
    every group of which k different frames arrive is handed out once, whole
    and in order, however the frames are mixed, repeated and lost. */
module FecArrivals {
  import opened Bytes
  import opened Timeouts
  import opened FecFrame
  import opened FecModel
  import opened FecGroups
  import opened FecDrain

  // ----- what is handed on -----

  /** The bytes of packet j as they are handed on. */
  function Handed(batch: seq<seq<Byte>>, have: set<nat>, j: nat): (p: seq<Byte>)
    requires j < |batch|
    ensures |batch[j]| <= |p| <= MaxLen(batch)
  {
    batch[j] + Zeros((if j == 0 then MaxLen(batch) else OutLen(batch, have, j)) - |batch[j]|)
  }

  function HandedAll(batch: seq<seq<Byte>>, have: set<nat>): (ps: seq<seq<Byte>>)
    ensures |ps| == |batch| && forall j :: 0 <= j < |batch| ==> ps[j] == Handed(batch, have, j)
  {
    seq(|batch|, j requires 0 <= j < |batch| => Handed(batch, have, j))
  }

  /** What a group makes available when the packets in have are there. */
  function Passed(batch: seq<seq<Byte>>, have: set<nat>): seq<seq<Byte>> {
    if |have| < |batch| then [] else HandedAll(batch, have)
  }

  lemma ZerosConcat(a: nat, b: nat)
    ensures Zeros(a) + Zeros(b) == Zeros(a + b)
  {
  }

  /** A packet and nothing but zeros. */
  lemma PieceBytes(g: Group, batch: seq<seq<Byte>>, have: set<nat>, j: nat)
    requires Whole(g) && Restored(g, batch, have) && j < |batch|
    ensures Piece(g, j) == Handed(batch, have, j)
  {
    hide MaxLen, Zeros, Whole;
    var n, b, length := OutLen(batch, have, j), batch[j], PieceLen(g, j);
    var z := MaxLen(batch) - |b|;
    assert g.slots[j].value == Padded(batch, MaxLen(batch))[j] == b + Zeros(z);
    ZerosConcat(n - |b|, length - n);
    ZerosConcat(n - |b|, z - (n - |b|));
    assert (b + (Zeros(n - |b|) + Zeros(z - (n - |b|))))[..n] == b + Zeros(n - |b|);
    assert (b + Zeros(n - |b|)) + Zeros(length - n) == b + (Zeros(n - |b|) + Zeros(length - n));
  }

  lemma PiecesHanded(g: Group, batch: seq<seq<Byte>>, have: set<nat>)
    requires Whole(g) && Restored(g, batch, have)
    ensures Pieces(g) == HandedAll(batch, have)
  {
    hide Piece, Handed, Whole, MaxLen, PieceLen;
    forall j | 0 <= j < |batch| ensures Pieces(g)[j] == HandedAll(batch, have)[j] {
      PieceBytes(g, batch, have, j);
    }
  }

  // ----- one arrival -----

  /** Group s as it stands when the packets in more have arrived. */
  ghost predicate GroupAfter(e: Decoder, s: int, batch: seq<seq<Byte>>, r: nat, more: set<nat>, now: int) {
    && s in e.groups && s in e.times && e.times[s] == now
    && if |more| < |batch| then InProgress(e, s, batch, r, more)
       else Closed(e, s) && e.unit.lastSeq == s && e.unit.lastIndex == |batch|
  }

  lemma CompletesIff(d: Decoder, s: int, batch: seq<seq<Byte>>, r: nat, have: set<nat>, i: nat)
    requires DecoderOk(d) && 0 < s < SEQ_END && InProgress(d, s, batch, r, have) && i < |batch| + r
    ensures Completes(d, Frame(s, batch, r, i)) <==> |have + {i}| >= |batch|
    ensures Addressed(d, Frame(s, batch, r, i)) && !Closed(d, s) && |have| < |batch|
  {
    hide Frame, MaxLen, Payload, Addressed, SeqOf, LengthOf, DecoderOk, InProgress, Known, Collecting, Collect,
      FromBe32;
    ProgressOpen(d, s, batch, r, have);
    FrameShape(s, batch, r, i);
    FrameCollected(d, s, batch, r, have, i, 0, 0);
    SlotFree(Known(d, s, |batch| + r), batch, r, have, i);
  }

  lemma SlotFree(g: Group, batch: seq<seq<Byte>>, r: nat, have: set<nat>, i: nat)
    requires Collecting(g, batch, r, have) && i < |batch| + r
    ensures |g.slots| == |batch| + r && |have| < |batch|
    ensures g.slots[i].None? && g.cur + 1 >= |batch| <==> |have + {i}| >= |batch|
  {
    hide MaxLen, Payload;
    if i in have {
      assert have + {i} == have;
    }
  }

  lemma FrameAccepted(d: Decoder, s: int, batch: seq<seq<Byte>>, r: nat, have: set<nat>, i: nat)
    requires DecoderOk(d) && 0 < s < SEQ_END && InProgress(d, s, batch, r, have) && i < |batch| + r
    requires |have + {i}| >= |batch| ==> d.unit.lastSeq != s
    ensures Accepts(d, Frame(s, batch, r, i))
  {
    hide Frame, MaxLen, Addressed, Numbered, SeqOf, LengthOf, DecoderOk, InProgress, Completes;
    ProgressOpen(d, s, batch, r, have);
    FrameShape(s, batch, r, i);
    CompletesIff(d, s, batch, r, have, i);
  }

  /** A frame of a group not yet restored: nothing is handed on before the k-th
      different one, which hands on the whole group. */
  lemma ArrivalStep(d: Decoder, s: int, batch: seq<seq<Byte>>, r: nat, have: set<nat>, i: nat, limit: int, now: int)
    requires Idle(d) && 0 < s < SEQ_END && InProgress(d, s, batch, r, have) && i < |batch| + r && limit >= 0
    requires |have + {i}| >= |batch| ==> d.unit.lastSeq != s
    ensures Accepts(d, Frame(s, batch, r, i))
    ensures var (e, out) := Intake(d, Frame(s, batch, r, i), limit, now); var more := have + {i};
      Idle(e) && Others(d, e, s, limit, now) && GroupAfter(e, s, batch, r, more, now)
      && out == Passed(batch, more) && (|more| < |batch| ==> e.unit == d.unit)
  {
    hide Frame, MaxLen, Accepts, DecoderOk, InProgress, Input, Intake, Others, Restored, Whole, HandedAll, SeqOf, Sweep,
      Pieces;
    ProgressOpen(d, s, batch, r, have);
    var p := Frame(s, batch, r, i);
    FrameAccepted(d, s, batch, r, have, i);
    FrameShape(s, batch, r, i);
    ReceiveStep(d, s, batch, r, have, i, limit, now);
    IntakeSettles(d, p, limit, now);
    InputKeeps(d, p, limit, now);
    var e := Input(d, p, limit, now).0;
    if |have + {i}| < |batch| {
      assert i in have + {i};
      NotWhole(e, s, batch, r, have + {i});
    } else {
      RestoredWhole(e, s, batch, have + {i});
      PiecesHanded(e.groups[s], batch, have + {i});
      HandedOutStep(d, e, s, limit, now);
    }
  }

  lemma NotWhole(e: Decoder, s: int, batch: seq<seq<Byte>>, r: nat, more: set<nat>)
    requires InProgress(e, s, batch, r, more) && more != {}
    ensures s in e.groups && !Whole(e.groups[s])
  {
    hide Collecting;
    ProgressOpen(e, s, batch, r, more);
  }

  lemma RestoredWhole(e: Decoder, s: int, batch: seq<seq<Byte>>, more: set<nat>)
    requires DecoderOk(e) && s in e.groups && Restored(e.groups[s], batch, more)
    ensures Whole(e.groups[s]) && e.groups[s].cur >= e.groups[s].num && |e.groups[s].slots| == |batch|
  {
    hide MaxLen;
  }

  lemma HandedOutStep(d: Decoder, e: Decoder, s: int, limit: int, now: int)
    requires s in e.groups && s in e.times && e.times[s] == now && limit >= 0 && Others(d, e, s, limit, now)
    requires e.groups[s].cur >= e.groups[s].num
    ensures var f := HandedOut(e, s, limit, now);
      Others(d, f, s, limit, now) && s in f.groups && Closed(f, s) && s in f.times && f.times[s] == now
      && f.unit.lastSeq == s && f.unit.lastIndex == |e.groups[s].slots|
  {
  }

  /** Once its group has been handed out, a frame has no effect. */
  lemma LateArrival(d: Decoder, s: int, batch: seq<seq<Byte>>, r: nat, i: nat, limit: int, now: int)
    requires Idle(d) && 0 < s < SEQ_END && Batch(batch, r) && i < |batch| + r && Closed(d, s)
    ensures Accepts(d, Frame(s, batch, r, i)) && Intake(d, Frame(s, batch, r, i), limit, now) == (d, [])
  {
    hide Frame, MaxLen, SeqOf, LengthOf, Numbered, Sound, RoomFor, DecoderOk;
    FrameShape(s, batch, r, i);
    ClosedStep(d, Frame(s, batch, r, i), limit, now);
  }

  // ----- a number coming back -----

  /** A group that is restored while the cursor still stands behind the packets
      of an earlier group of the same number cannot be handed out: Output would
      read behind its last packet. No other case fails. */
  lemma StaleCursor(d: Decoder, s: int, batch: seq<seq<Byte>>, r: nat, have: set<nat>, i: nat, limit: int, now: int)
    requires Idle(d) && 0 < s < SEQ_END && InProgress(d, s, batch, r, have) && i < |batch| + r && limit >= 0
    requires |have + {i}| >= |batch|
    ensures Addressed(d, Frame(s, batch, r, i))
    ensures Sound(Input(d, Frame(s, batch, r, i), limit, now).0) <==>
      d.unit.lastSeq != s || d.unit.lastIndex < |batch|
  {
    hide Frame, MaxLen, Addressed, InProgress, Input, Others, SeqOf, Partial;
    ProgressOpen(d, s, batch, r, have);
    ReceiveStep(d, s, batch, r, have, i, limit, now);
    InputKeeps(d, Frame(s, batch, r, i), limit, now);
    RestoredWhole(Input(d, Frame(s, batch, r, i), limit, now).0, s, batch, have + {i});
  }

  /** From d to e: one packet and the loop. */
  ghost predicate Takes(d: Decoder, p: seq<Byte>, limit: int, now: int, e: Decoder) {
    Idle(d) && Accepts(d, p) && e == Intake(d, p, limit, now).0
  }

  ghost predicate ReadsPast(d: Decoder, p: seq<Byte>, limit: int, now: int) {
    DecoderOk(d) && Addressed(d, p) && !Sound(Input(d, p, limit, now).0)
  }

  /** It happens: a group of one packet under number 1, another packet after
      the time limit, which clears it, and the same frame once more. */
  lemma StaleCursorHappens(batch: seq<seq<Byte>>, limit: int) returns (d: Decoder, e: Decoder)
    requires limit >= 0 && Batch(batch, 0) && |batch| == 1
    ensures Takes(START, Frame(1, batch, 0, 0), limit, 0, d)
    ensures Takes(d, Marked([9]), limit, limit + 1, e)
    ensures ReadsPast(e, Frame(1, batch, 0, 0), limit, limit + 1)
  {
    hide Frame, Intake, Input, Batch, Marked, Accepts, Addressed, Sound, Idle, InProgress, Expired;
    d := FirstOne(batch, limit);
    e := MarkedClears(d, 1, limit, limit + 1);
    NothingYet(e, 1, batch, 0);
    StaleCursor(e, 1, batch, 0, {}, 0, limit, limit + 1);
  }

  lemma FirstOne(batch: seq<seq<Byte>>, limit: int) returns (d: Decoder)
    requires limit >= 0 && Batch(batch, 0) && |batch| == 1
    ensures |{} + {0}| == 1 && Takes(START, Frame(1, batch, 0, 0), limit, 0, d)
    ensures Idle(d) && Expired(d.times, limit, limit + 1, 1) && d.unit.lastSeq == 1 && d.unit.lastIndex == 1
  {
    hide Frame, Intake, Accepts, Others, DecoderOk, InProgress, Passed, Batch;
    StartIdle();
    NothingYet(START, 1, batch, 0);
    assert {} + {0} == {0};
    ArrivalStep(START, 1, batch, 0, {}, 0, limit, 0);
    AcceptsAddressed(START, Frame(1, batch, 0, 0));
    d := Intake(START, Frame(1, batch, 0, 0), limit, 0).0;
  }

  lemma MarkedClears(d: Decoder, s: int, limit: int, now: int) returns (e: Decoder)
    requires Idle(d) && Expired(d.times, limit, now, s)
    ensures Takes(d, Marked([9]), limit, now, e)
    ensures Idle(e) && DecoderOk(e) && s !in e.groups && e.unit.lastSeq == d.unit.lastSeq
    ensures e.unit.lastIndex == d.unit.lastIndex
  {
    hide FromLe32, FromBe32, Marked, Intake, DecoderOk, Whole;
    MarkedRoundTrip([9]);
    IntakeSettles(d, Marked([9]), limit, now);
    e := Intake(d, Marked([9]), limit, now).0;
  }

  lemma StartIdle()
    ensures Idle(START) && START.unit.lastSeq == -1
  {
  }

  // ----- a whole run -----

  /** Frame i of the group under s arrives at the given time. */
  datatype Arrival = Arrival(s: int, i: nat, now: int)

  /** x is a frame of the batch that source holds under its number. */
  predicate FromSource(source: map<int, seq<seq<Byte>>>, r: nat, x: Arrival) {
    x.s in source && 0 < x.s < SEQ_END && Batch(source[x.s], r) && x.i < |source[x.s]| + r
  }

  predicate Traffic(source: map<int, seq<seq<Byte>>>, r: nat, arrivals: seq<Arrival>) {
    forall j :: 0 <= j < |arrivals| ==> FromSource(source, r, arrivals[j])
  }

  /** The clock does not go back, and all frames of a group that arrive do so
      within the time limit. */
  predicate Timely(arrivals: seq<Arrival>, limit: int) {
    forall j, l :: 0 <= j < l < |arrivals| ==>
      arrivals[j].now <= arrivals[l].now
      && (arrivals[j].s == arrivals[l].s ==> arrivals[l].now - arrivals[j].now <= limit)
  }

  function Seen(arrivals: seq<Arrival>, s: int): set<nat> {
    set j | 0 <= j < |arrivals| && arrivals[j].s == s :: arrivals[j].i
  }

  /** A new decoder fed with the frames, drained after each: its state, and what
      each frame handed on. */
  ghost function DecoderRun(source: map<int, seq<seq<Byte>>>, r: nat, arrivals: seq<Arrival>, limit: int):
      (Decoder, seq<seq<seq<Byte>>>)
    requires Traffic(source, r, arrivals)
    decreases |arrivals|
  {
    if arrivals == [] then (START, [])
    else
      var l := |arrivals| - 1;
      var (d, outs) := DecoderRun(source, r, arrivals[..l], limit);
      var x := arrivals[l];
      var p := Frame(x.s, source[x.s], r, x.i);
      if DecoderOk(d) && Addressed(d, p) then
        var (e, out) := Intake(d, p, limit, x.now);
        (e, outs + [out])
      else (d, outs + [[]])
  }

  lemma SeenLast(arrivals: seq<Arrival>, s: int)
    requires arrivals != []
    ensures var l := |arrivals| - 1; var front := Seen(arrivals[..l], s);
      Seen(arrivals, s) == if arrivals[l].s == s then front + {arrivals[l].i} else front
  {
    var l := |arrivals| - 1;
    forall i | i in Seen(arrivals, s)
      ensures i in Seen(arrivals[..l], s) || (arrivals[l].s == s && i == arrivals[l].i)
    {
      var j :| 0 <= j < |arrivals| && arrivals[j].s == s && arrivals[j].i == i;
      if j < l {
        assert arrivals[..l][j].i == i;
      }
    }
    forall i | i in Seen(arrivals[..l], s) ensures i in Seen(arrivals, s) {
      var j :| 0 <= j < l && arrivals[..l][j].s == s && arrivals[..l][j].i == i;
      assert arrivals[j].i == i;
    }
  }

  /** What is stored under t is what has been seen of its group. */
  ghost predicate Matches(source: map<int, seq<seq<Byte>>>, r: nat, arrivals: seq<Arrival>, d: Decoder, t: int) {
    && t in source && t in d.times && (exists j :: 0 <= j < |arrivals| && Since(arrivals[j], t, d.times[t]))
    && var have := Seen(arrivals, t);
       if |have| < |source[t]| then InProgress(d, t, source[t], r, have) else Closed(d, t)
  }

  /** x is a frame of t that came no later than at the given time. */
  predicate Since(x: Arrival, t: int, time: int) {
    x.s == t && x.now <= time
  }

  predicate Within(arrivals: seq<Arrival>, t: int, now: int, limit: int) {
    forall j :: 0 <= j < |arrivals| && arrivals[j].s == t ==> now - arrivals[j].now <= limit
  }

  /** The state of the decoder after the arrivals. */
  ghost predicate Tracks(source: map<int, seq<seq<Byte>>>, r: nat, arrivals: seq<Arrival>, limit: int, d: Decoder) {
    && Idle(d)
    && (forall t :: t in d.groups ==> Seen(arrivals, t) != {} && Matches(source, r, arrivals, d, t))
    && (d.unit.lastSeq != -1 ==>
          d.unit.lastSeq in source && |source[d.unit.lastSeq]| <= |Seen(arrivals, d.unit.lastSeq)|)
  }

  /** No group has been dropped all of whose frames are recent. */
  predicate Keeps(arrivals: seq<Arrival>, limit: int, d: Decoder, now: int) {
    forall j :: 0 <= j < |arrivals| && Within(arrivals, arrivals[j].s, now, limit) ==> arrivals[j].s in d.groups
  }

  lemma KeepsLater(arrivals: seq<Arrival>, limit: int, d: Decoder, now: int, later: int)
    requires Keeps(arrivals, limit, d, now) && now <= later
    ensures Keeps(arrivals, limit, d, later)
  {
    forall j | 0 <= j < |arrivals| && Within(arrivals, arrivals[j].s, later, limit) ensures arrivals[j].s in d.groups {
      assert Within(arrivals, arrivals[j].s, now, limit);
    }
  }

  /** What the decoder knows of a group when a frame of it arrives in time. */
  lemma BeforeArrival(
    source: map<int, seq<seq<Byte>>>, r: nat, arrivals: seq<Arrival>, limit: int, d: Decoder, x: Arrival)
    requires FromSource(source, r, x) && Tracks(source, r, arrivals, limit, d) && Keeps(arrivals, limit, d, x.now)
    requires Within(arrivals, x.s, x.now, limit)
    ensures var have := Seen(arrivals, x.s);
      if |have| < |source[x.s]| then InProgress(d, x.s, source[x.s], r, have) else Closed(d, x.s)
  {
    hide Idle, InProgress, Within;
    if j :| 0 <= j < |arrivals| && arrivals[j].s == x.s {
      assert Matches(source, r, arrivals, d, x.s);
    } else {
      assert Seen(arrivals, x.s) == {};
      NothingYet(d, x.s, source[x.s], r);
    }
  }

  lemma NothingYet(d: Decoder, s: int, batch: seq<seq<Byte>>, r: nat)
    requires Batch(batch, r) && s !in d.groups
    ensures InProgress(d, s, batch, r, {})
  {
  }

  /** A group not touched matches what has been seen, as before. */
  lemma OtherMatches(
    source: map<int, seq<seq<Byte>>>, r: nat, arrivals: seq<Arrival>, x: Arrival, d: Decoder, e: Decoder, t: int)
    requires t != x.s && Matches(source, r, arrivals, d, t) && t in d.groups && t in e.groups && t in e.times
    requires e.groups[t] == d.groups[t] && e.times[t] == d.times[t]
    ensures Matches(source, r, arrivals + [x], e, t) && Seen(arrivals + [x], t) == Seen(arrivals, t)
  {
    hide Collecting, Batch;
    SeenMore(arrivals, x, t);
    var j :| 0 <= j < |arrivals| && Since(arrivals[j], t, d.times[t]);
    assert Since((arrivals + [x])[j], t, e.times[t]);
  }

  lemma SeenMore(arrivals: seq<Arrival>, x: Arrival, s: int)
    ensures Seen(arrivals + [x], s) == if x.s == s then Seen(arrivals, s) + {x.i} else Seen(arrivals, s)
  {
    SeenLast(arrivals + [x], s);
    assert (arrivals + [x])[..|arrivals|] == arrivals;
  }

  /** What frame x hands on after the others. */
  function Due(source: map<int, seq<seq<Byte>>>, arrivals: seq<Arrival>, x: Arrival): seq<seq<Byte>>
    requires x.s in source
  {
    if |Seen(arrivals, x.s)| < |source[x.s]| then Passed(source[x.s], Seen(arrivals, x.s) + {x.i}) else []
  }

  lemma TrackStep(
    source: map<int, seq<seq<Byte>>>, r: nat, arrivals: seq<Arrival>, limit: int, d: Decoder, x: Arrival)
    requires FromSource(source, r, x) && Tracks(source, r, arrivals, limit, d) && Keeps(arrivals, limit, d, x.now)
    requires Within(arrivals, x.s, x.now, limit) && limit >= 0
    ensures var p := Frame(x.s, source[x.s], r, x.i);
      Accepts(d, p) && DecoderOk(d)
      && var (e, out) := Intake(d, p, limit, x.now);
         out == Due(source, arrivals, x) && Tracks(source, r, arrivals + [x], limit, e)
         && Keeps(arrivals + [x], limit, e, x.now)
  {
    hide Frame, Accepts, Intake, Passed, Batch, InProgress, Within, Keeps, Tracks, Seen, GroupOk, Others;
    var s, batch, have := x.s, source[x.s], Seen(arrivals, x.s);
    BeforeArrival(source, r, arrivals, limit, d, x);
    TracksIdle(source, r, arrivals, limit, d);
    if |have| < |batch| {
      ArrivalStep(d, s, batch, r, have, x.i, limit, x.now);
      AcceptsAddressed(d, Frame(s, batch, r, x.i));
      var e := Intake(d, Frame(s, batch, r, x.i), limit, x.now).0;
      AfterArrival(source, r, arrivals, limit, d, e, x);
      KeepsArrival(source, r, arrivals, limit, d, e, x);
    } else {
      LateArrival(d, s, batch, r, x.i, limit, x.now);
      AfterLate(source, r, arrivals, limit, d, x);
      KeepsLate(arrivals, limit, d, x);
    }
  }

  lemma TracksIdle(source: map<int, seq<seq<Byte>>>, r: nat, arrivals: seq<Arrival>, limit: int, d: Decoder)
    requires Tracks(source, r, arrivals, limit, d)
    ensures Idle(d)
    ensures var s := d.unit.lastSeq; s != -1 ==> s in source && |source[s]| <= |Seen(arrivals, s)|
  {
  }

  lemma AfterArrival(
    source: map<int, seq<seq<Byte>>>, r: nat, arrivals: seq<Arrival>, limit: int, d: Decoder, e: Decoder, x: Arrival)
    requires x.s in source && Tracks(source, r, arrivals, limit, d) && Idle(e) && Others(d, e, x.s, limit, x.now)
    requires var more := Seen(arrivals, x.s) + {x.i};
      GroupAfter(e, x.s, source[x.s], r, more, x.now) && (|more| < |source[x.s]| ==> e.unit == d.unit)
    ensures Tracks(source, r, arrivals + [x], limit, e)
  {
    hide InProgress, Idle, Seen, Others, Matches;
    SeenMore(arrivals, x, x.s);
    SeenMore(arrivals, x, e.unit.lastSeq);
    SubsetSize(Seen(arrivals, x.s), Seen(arrivals, x.s) + {x.i});
    OwnMatches(source, r, arrivals, e, x);
    forall t | t in e.groups && t != x.s
      ensures Seen(arrivals + [x], t) != {} && Matches(source, r, arrivals + [x], e, t)
    {
      StillTimed(source, r, arrivals, d, e, t, x, limit);
      OtherMatches(source, r, arrivals, x, d, e, t);
    }
  }

  /** A group not touched is stored as before. */
  lemma StillTimed(
    source: map<int, seq<seq<Byte>>>, r: nat, arrivals: seq<Arrival>, d: Decoder, e: Decoder, t: int, x: Arrival,
    limit: int)
    requires Others(d, e, x.s, limit, x.now) && t in e.groups && t != x.s
    requires t in d.groups ==> Matches(source, r, arrivals, d, t)
    ensures t in d.groups && e.groups[t] == d.groups[t] && t in d.times && t in e.times && e.times[t] == d.times[t]
  {
    hide InProgress;
  }

  lemma OwnMatches(source: map<int, seq<seq<Byte>>>, r: nat, arrivals: seq<Arrival>, e: Decoder, x: Arrival)
    requires x.s in source && GroupAfter(e, x.s, source[x.s], r, Seen(arrivals, x.s) + {x.i}, x.now)
    ensures Matches(source, r, arrivals + [x], e, x.s)
  {
    hide InProgress, Closed, Seen;
    SeenMore(arrivals, x, x.s);
    assert Since((arrivals + [x])[|arrivals|], x.s, e.times[x.s]);
  }

  lemma KeepsArrival(
    source: map<int, seq<seq<Byte>>>, r: nat, arrivals: seq<Arrival>, limit: int, d: Decoder, e: Decoder, x: Arrival)
    requires Tracks(source, r, arrivals, limit, d) && Keeps(arrivals, limit, d, x.now) && x.s in e.groups
    requires Others(d, e, x.s, limit, x.now)
    ensures Keeps(arrivals + [x], limit, e, x.now)
  {
    hide Idle, Seen;
    var all := arrivals + [x];
    forall j | 0 <= j < |all| && Within(all, all[j].s, x.now, limit) ensures all[j].s in e.groups {
      var t := all[j].s;
      if t != x.s {
        assert forall m :: 0 <= m < |arrivals| ==> all[m] == arrivals[m];
        assert Within(arrivals, arrivals[j].s, x.now, limit);
        var m :| 0 <= m < |arrivals| && Since(arrivals[m], t, d.times[t]);
        assert all[m].s == t;
      }
    }
  }

  lemma AfterLate(
    source: map<int, seq<seq<Byte>>>, r: nat, arrivals: seq<Arrival>, limit: int, d: Decoder, x: Arrival)
    requires x.s in source && Tracks(source, r, arrivals, limit, d) && Closed(d, x.s)
    requires |source[x.s]| <= |Seen(arrivals, x.s)|
    ensures Tracks(source, r, arrivals + [x], limit, d)
  {
    hide InProgress, Idle, Seen;
    var have := Seen(arrivals, x.s);
    SeenMore(arrivals, x, x.s);
    SeenMore(arrivals, x, d.unit.lastSeq);
    SubsetSize(have, have + {x.i});
    assert Matches(source, r, arrivals, d, x.s);
    var j :| 0 <= j < |arrivals| && Since(arrivals[j], x.s, d.times[x.s]);
    assert Since((arrivals + [x])[j], x.s, d.times[x.s]);
    forall t | t in d.groups && t != x.s
      ensures Seen(arrivals + [x], t) != {} && Matches(source, r, arrivals + [x], d, t)
    {
      OtherMatches(source, r, arrivals, x, d, d, t);
    }
  }

  lemma KeepsLate(arrivals: seq<Arrival>, limit: int, d: Decoder, x: Arrival)
    requires Keeps(arrivals, limit, d, x.now) && Closed(d, x.s)
    ensures Keeps(arrivals + [x], limit, d, x.now)
  {
    var all := arrivals + [x];
    forall j | 0 <= j < |all| && Within(all, all[j].s, x.now, limit) ensures all[j].s in d.groups {
      if all[j].s != x.s {
        assert forall m :: 0 <= m < |arrivals| ==> all[m] == arrivals[m];
        assert Within(arrivals, arrivals[j].s, x.now, limit);
      }
    }
  }

  lemma {:induction false} RunTracks(source: map<int, seq<seq<Byte>>>, r: nat, arrivals: seq<Arrival>, limit: int)
    requires Traffic(source, r, arrivals) && Timely(arrivals, limit) && limit >= 0
    ensures var (d, outs) := DecoderRun(source, r, arrivals, limit);
      Tracks(source, r, arrivals, limit, d) && |outs| == |arrivals|
      && (arrivals != [] ==> Keeps(arrivals, limit, d, arrivals[|arrivals| - 1].now))
      && forall l :: 0 <= l < |arrivals| ==> outs[l] == Due(source, arrivals[..l], arrivals[l])
    decreases |arrivals|
  {
    hide Frame, Accepts, Intake, Due, Batch, Within, Keeps, Tracks, Seen, DecoderOk, Addressed, DecoderRun;
    if arrivals == [] {
      StartTracks(source, r, limit);
      RunStart(source, r, limit);
    } else {
      var l := |arrivals| - 1;
      var front, x := arrivals[..l], arrivals[l];
      RunTracks(source, r, front, limit);
      var d := DecoderRun(source, r, front, limit).0;
      InTime(arrivals, limit, d);
      assert FromSource(source, r, x);
      TrackStep(source, r, front, limit, d, x);
      AcceptsAddressed(d, Frame(x.s, source[x.s], r, x.i));
      RunLast(source, r, arrivals, limit);
      assert front + [x] == arrivals;
      forall j | 0 <= j < l
        ensures DecoderRun(source, r, arrivals, limit).1[j] == Due(source, arrivals[..j], arrivals[j])
      {
        assert front[..j] == arrivals[..j];
      }
    }
  }

  lemma RunStart(source: map<int, seq<seq<Byte>>>, r: nat, limit: int)
    ensures DecoderRun(source, r, [], limit) == (START, [])
  {
  }

  lemma RunLast(source: map<int, seq<seq<Byte>>>, r: nat, arrivals: seq<Arrival>, limit: int)
    requires Traffic(source, r, arrivals) && arrivals != []
    requires var l := |arrivals| - 1; var d, x := DecoderRun(source, r, arrivals[..l], limit).0, arrivals[l];
      FromSource(source, r, x) && DecoderOk(d) && Addressed(d, Frame(x.s, source[x.s], r, x.i))
    ensures var l := |arrivals| - 1; var (d, outs) := DecoderRun(source, r, arrivals[..l], limit);
      var x := arrivals[l]; var (e, out) := Intake(d, Frame(x.s, source[x.s], r, x.i), limit, x.now);
      DecoderRun(source, r, arrivals, limit) == (e, outs + [out])
  {
    hide Frame, Intake, DecoderOk, Addressed, Batch;
  }

  lemma AcceptsAddressed(d: Decoder, p: seq<Byte>)
    requires Accepts(d, p)
    ensures Addressed(d, p)
  {
  }

  lemma StartTracks(source: map<int, seq<seq<Byte>>>, r: nat, limit: int)
    ensures Tracks(source, r, [], limit, START)
  {
    hide Idle;
    StartIdle();
  }

  lemma InTime(arrivals: seq<Arrival>, limit: int, d: Decoder)
    requires arrivals != [] && Timely(arrivals, limit)
    requires |arrivals| > 1 ==> Keeps(arrivals[..|arrivals| - 1], limit, d, arrivals[|arrivals| - 2].now)
    ensures var front, x := arrivals[..|arrivals| - 1], arrivals[|arrivals| - 1];
      Keeps(front, limit, d, x.now) && Within(front, x.s, x.now, limit)
  {
    hide Keeps;
    if |arrivals| > 1 {
      KeepsLater(arrivals[..|arrivals| - 1], limit, d, arrivals[|arrivals| - 2].now, arrivals[|arrivals| - 1].now);
    } else {
      KeepsNothing(limit, d, arrivals[0].now);
      assert arrivals[..0] == [];
    }
  }

  lemma KeepsNothing(limit: int, d: Decoder, now: int)
    ensures Keeps([], limit, d, now)
  {
  }

  /** The round trip over a whole run: frames of any groups, mixed, repeated and
      lost in any way. A frame hands on nothing, unless it is the k-th different
      one of its group: then the k packets of the group in order, each followed
      only by zeros, and of exact length if the packet itself arrived and is not
      the first. */
  lemma GroupRoundTrip(source: map<int, seq<seq<Byte>>>, r: nat, arrivals: seq<Arrival>, limit: int, l: nat)
    requires Traffic(source, r, arrivals) && Timely(arrivals, limit) && limit >= 0 && l < |arrivals|
    ensures var outs := DecoderRun(source, r, arrivals, limit).1; var s := arrivals[l].s;
      var before, after := Seen(arrivals[..l], s), Seen(arrivals[..l + 1], s);
      |outs| == |arrivals|
      && outs[l] == if |before| < |source[s]| <= |after| then HandedAll(source[s], after) else []
  {
    hide DecoderRun, Tracks, Keeps, HandedAll, Seen, Timely;
    RunTracks(source, r, arrivals, limit);
    assert FromSource(source, r, arrivals[l]);
    assert arrivals[..l + 1] == arrivals[..l] + [arrivals[l]];
    SeenMore(arrivals[..l], arrivals[l], arrivals[l].s);
  }
}
