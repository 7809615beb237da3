/** The drain loop of FecKcp::DataInput: what one Input makes available, and
    how Output gets it out. */
module FecDrain {
  import opened Bytes
  import opened Timeouts
  import opened FecFrame
  import opened FecModel
  import opened FecGroups

  /** Nothing waits to be handed out: callers drain after every Input. */
  ghost predicate Idle(d: Decoder) {
    DecoderOk(d) && d.readyNum == 0 && !d.unit.ready && forall t :: t in d.groups ==> !d.groups[t].ready
  }

  // ----- the packets of a decoded group -----

  /** How many bytes are asked for to get packet j: the first is announced by
      Input, which knows only the longest. */
  function PieceLen(g: Group, j: nat): (n: nat)
    requires Whole(g) && j < |g.slots|
    ensures g.lens[j] <= n
  {
    if j == 0 then g.maxLen else g.lens[j]
  }

  function Piece(g: Group, j: nat): seq<Byte>
    requires Whole(g) && j < |g.slots|
  {
    g.slots[j].value[..g.lens[j]] + Zeros(PieceLen(g, j) - g.lens[j])
  }

  function Pieces(g: Group): (ps: seq<seq<Byte>>)
    requires Whole(g)
    ensures |ps| == |g.slots| && forall j :: 0 <= j < |ps| ==> ps[j] == Piece(g, j)
  {
    seq(|g.slots|, j requires 0 <= j < |g.slots| => Piece(g, j))
  }

  /** No group but s waits to be handed out. */
  predicate Quiet(d: Decoder, s: int) {
    forall t :: t in d.groups && t != s ==> !d.groups[t].ready
  }

  /** s is the only ready group and packet j of it comes next. */
  ghost predicate AtPacket(d: Decoder, s: int, j: nat) {
    && 0 < s < U16 && !d.unit.ready && d.readyNum == 1 && DecoderOk(d) && Quiet(d, s)
    && s in d.groups && Whole(d.groups[s]) && 0 < d.groups[s].maxLen && j < |d.groups[s].slots|
    && (d.unit.lastSeq == s ==> d.unit.lastIndex == j) && (j > 0 ==> d.unit.lastSeq == s)
  }

  /** The decoder after the last packet of group s. */
  function HandedOut(d: Decoder, s: int, limit: int, now: int): Decoder
    requires s in d.groups
  {
    var g := d.groups[s];
    Sweep(d.(groups := d.groups[s := g.(ready := false)], readyNum := 0,
             unit := d.unit.(lastSeq := s, lastIndex := |g.slots|)), limit, now)
  }

  lemma {:induction false} OnlyReady(groups: map<int, Group>, least: int, s: nat, from: nat)
    requires from <= s < U16 && Deliverable(groups, least, s)
    requires forall t :: t in groups && t != s ==> !groups[t].ready
    ensures NextReady(groups, least, from) == s
    decreases U16 - from
  {
    if from < s {
      OnlyReady(groups, least, s, from + 1);
    }
  }

  lemma AtPacketSound(d: Decoder, s: int, j: nat)
    requires AtPacket(d, s, j)
    ensures Sound(d) && RoomFor(d, PieceLen(d.groups[s], j)) && 0 < PieceLen(d.groups[s], j)
    ensures Deliverable(d.groups, PieceLen(d.groups[s], 0), s)
  {
    hide Partial;
  }

  /** The cursor of the next Output is on packet j. */
  lemma OutputEmits(d: Decoder, s: int, j: nat, limit: int, now: int)
    requires AtPacket(d, s, j)
    ensures Sound(d) && RoomFor(d, PieceLen(d.groups[s], j))
    ensures var c := d.(unit := d.unit.(lastSeq := s, lastIndex := j));
      AtPacket(c, s, j) && Sound(c)
      && Output(d, PieceLen(d.groups[s], j), limit, now) == Emit(c, PieceLen(d.groups[s], j), limit, now)
  {
    hide Zeros, Sweep, Emit, Sound, RoomFor, Whole, GroupOk, PieceLen;
    var c := d.(unit := d.unit.(lastSeq := s, lastIndex := j));
    AtPacketSound(d, s, j);
    AtPacketSound(c, s, j);
    if d.unit.lastSeq != s {
      OnlyReady(d.groups, PieceLen(d.groups[s], 0), s, 0);
    }
  }

  lemma EmitStep(d: Decoder, s: int, j: nat, limit: int, now: int)
    requires AtPacket(d, s, j) && d.unit.lastSeq == s && Sound(d)
    ensures var g := d.groups[s]; var (e, ret, buf) := Emit(d, PieceLen(g, j), limit, now);
      buf == Some(Piece(g, j))
      && if j + 1 < |g.slots| then ret == PieceLen(g, j + 1) && e == d.(unit := d.unit.(lastIndex := j + 1))
         else ret == 0 && e == HandedOut(d, s, limit, now)
  {
    hide Zeros, Sweep, Partial;
  }

  lemma NextPacket(d: Decoder, s: int, j: nat)
    requires AtPacket(d, s, j) && j + 1 < |d.groups[s].slots|
    ensures AtPacket(d.(unit := d.unit.(lastSeq := s, lastIndex := j + 1)), s, j + 1)
  {
    hide GroupOk, Whole;
  }

  /** Output of packet j: its bytes, then zeros up to the size asked for; the
      return value announces the next packet, or 0 after the last. */
  lemma OutputStep(d: Decoder, s: int, j: nat, limit: int, now: int)
    requires AtPacket(d, s, j)
    ensures Sound(d) && RoomFor(d, PieceLen(d.groups[s], j))
    ensures var g := d.groups[s]; var (e, ret, buf) := Output(d, PieceLen(g, j), limit, now);
      buf == Some(Piece(g, j))
      && if j + 1 < |g.slots| then
           ret == PieceLen(g, j + 1) && e == d.(unit := d.unit.(lastSeq := s, lastIndex := j + 1))
             && AtPacket(e, s, j + 1)
         else ret == 0 && e == HandedOut(d, s, limit, now)
  {
    hide Zeros, Sweep, Output, Emit, Sound, RoomFor, Whole, GroupOk, Piece, PieceLen, Quiet;
    OutputEmits(d, s, j, limit, now);
    EmitStep(d.(unit := d.unit.(lastSeq := s, lastIndex := j)), s, j, limit, now);
    if j + 1 < |d.groups[s].slots| {
      NextPacket(d, s, j);
    }
  }

  // ----- the loop -----

  /** The loop of DataInput on values: while another packet is announced, get it
      with a buffer of that size. The packets, and the decoder in the end. */
  ghost function Drain(d: Decoder, length: int, limit: int, now: int, turns: nat): (Decoder, seq<seq<Byte>>)
    decreases turns
  {
    if turns == 0 || length <= 0 || !(Sound(d) && d.unit.lastSeq >= -1 && RoomFor(d, length)) then (d, [])
    else
      var (e, ret, buf) := Output(d, length, limit, now);
      if ret < 0 then (e, [])
      else
        var (f, more) := Drain(e, ret, limit, now, turns - 1);
        (f, [if buf.Some? then buf.value else Zeros(length)] + more)
  }

  ghost predicate PendingUnit(d: Decoder, length: int, todo: seq<seq<Byte>>, f: Decoder, limit: int, now: int) {
    && d.unit.ready && Idle(d.(unit := d.unit.(ready := false)))
    && length == |d.unit.data| > 0 && todo == [d.unit.data]
    && f == Sweep(d.(unit := d.unit.(ready := false, data := [])), limit, now)
  }

  ghost predicate PendingGroup(
    d: Decoder, length: int, todo: seq<seq<Byte>>, f: Decoder, limit: int, now: int, s: int, j: nat)
  {
    && AtPacket(d, s, j) && length == PieceLen(d.groups[s], j) && todo == Pieces(d.groups[s])[j..]
    && f == HandedOut(d, s, limit, now)
  }

  /** d hands out exactly todo, the first packet with length bytes, and is f
      afterwards. */
  ghost predicate Pending(d: Decoder, length: int, todo: seq<seq<Byte>>, f: Decoder, limit: int, now: int) {
    || (todo == [] && length <= 0 && Idle(d) && f == d)
    || PendingUnit(d, length, todo, f, limit, now)
    || exists s, j :: PendingGroup(d, length, todo, f, limit, now, s, j)
  }

  lemma SweepIdle(d: Decoder, limit: int, now: int)
    requires Idle(d)
    ensures Idle(Sweep(d, limit, now))
  {
    hide GroupOk;
  }

  lemma HandedOutIdle(d: Decoder, s: int, j: nat, limit: int, now: int)
    requires AtPacket(d, s, j)
    ensures Idle(HandedOut(d, s, limit, now))
  {
    hide Sweep, Partial;
    var g := d.groups[s];
    SweepIdle(d.(groups := d.groups[s := g.(ready := false)], readyNum := 0,
                 unit := d.unit.(lastSeq := s, lastIndex := |g.slots|)), limit, now);
  }

  lemma UnitStep(d: Decoder, length: int, todo: seq<seq<Byte>>, f: Decoder, limit: int, now: int)
    requires PendingUnit(d, length, todo, f, limit, now)
    ensures Sound(d) && RoomFor(d, length) && d.unit.lastSeq >= -1
    ensures Output(d, length, limit, now) == (f, 0, Some(todo[0])) && Idle(f) && todo[1..] == []
  {
    hide Sweep, Partial, Whole;
    SweepIdle(d.(unit := d.unit.(ready := false, data := [])), limit, now);
    assert todo[0] + Zeros(0) == todo[0];
  }

  lemma GroupStep(
    d: Decoder, length: int, todo: seq<seq<Byte>>, f: Decoder, limit: int, now: int, s: int, j: nat)
    requires PendingGroup(d, length, todo, f, limit, now, s, j)
    ensures Sound(d) && d.unit.lastSeq >= -1 && RoomFor(d, length) && length > 0 && todo != []
    ensures var (e, ret, buf) := Output(d, length, limit, now);
      buf == Some(todo[0]) && ret >= 0 && Pending(e, ret, todo[1..], f, limit, now)
  {
    hide Output, Sound, RoomFor, Sweep, Zeros, Whole, GroupOk, Piece, PieceLen;
    OutputStep(d, s, j, limit, now);
    AtPacketSound(d, s, j);
    var (e, ret, buf) := Output(d, length, limit, now);
    var g := d.groups[s];
    assert todo[0] == Piece(g, j) && todo[1..] == Pieces(g)[j + 1..];
    if j + 1 < |g.slots| {
      assert PendingGroup(e, ret, todo[1..], f, limit, now, s, j + 1);
    } else {
      HandedOutIdle(d, s, j, limit, now);
    }
  }

  /** One turn of the drain loop. */
  lemma PendingStep(d: Decoder, length: int, todo: seq<seq<Byte>>, f: Decoder, limit: int, now: int)
    requires Pending(d, length, todo, f, limit, now) && length > 0
    ensures Sound(d) && d.unit.lastSeq >= -1 && RoomFor(d, length) && todo != []
    ensures var (e, ret, buf) := Output(d, length, limit, now);
      buf == Some(todo[0]) && ret >= 0 && Pending(e, ret, todo[1..], f, limit, now)
  {
    hide Output, PendingGroup, Sound, RoomFor;
    if PendingUnit(d, length, todo, f, limit, now) {
      UnitStep(d, length, todo, f, limit, now);
    } else {
      var s, j :| PendingGroup(d, length, todo, f, limit, now, s, j);
      GroupStep(d, length, todo, f, limit, now, s, j);
    }
  }

  /** The loop runs exactly as long as something is left. */
  lemma PendingEnds(d: Decoder, length: int, todo: seq<seq<Byte>>, f: Decoder, limit: int, now: int)
    requires Pending(d, length, todo, f, limit, now)
    ensures if todo == [] then length <= 0 && Idle(d) && d == f else length > 0
  {
    hide PendingGroup;
    if !PendingUnit(d, length, todo, f, limit, now) && !(todo == [] && length <= 0 && Idle(d) && f == d) {
      var s, j :| PendingGroup(d, length, todo, f, limit, now, s, j);
      GroupStep(d, length, todo, f, limit, now, s, j);
    }
  }

  lemma {:induction false} PendingDrains(
    d: Decoder, length: int, todo: seq<seq<Byte>>, f: Decoder, limit: int, now: int, turns: nat)
    requires Pending(d, length, todo, f, limit, now) && |todo| <= turns
    ensures Drain(d, length, limit, now, turns) == (f, todo) && Idle(f)
    decreases turns
  {
    hide Pending, Output, Sound, RoomFor, Idle;
    PendingEnds(d, length, todo, f, limit, now);
    if todo != [] {
      PendingStep(d, length, todo, f, limit, now);
      var (e, ret, buf) := Output(d, length, limit, now);
      PendingDrains(e, ret, todo[1..], f, limit, now, turns - 1);
      assert todo == [todo[0]] + todo[1..];
    }
  }

  // ----- one datagram -----

  /** The packet p is the last its group needs. */
  predicate Completes(d: Decoder, p: seq<Byte>) {
    && Numbered(p) && !Closed(d, SeqOf(p)) && 0 < SlotsOf(p)
    && var g, i := Known(d, SeqOf(p), SlotsOf(p)), SignedByte(p[10]) - 1;
       0 <= i < |g.slots| && g.slots[i].None? && g.cur + 1 >= SignedByte(p[8])
  }

  /** What DataInput expects of a packet besides a header that fits: it has a
      payload, its number is not 0, and if it completes a group, its number is
      not still under the cursor from an earlier group. */
  ghost predicate Accepts(d: Decoder, p: seq<Byte>) {
    && Addressed(d, p) && !(|p| == 4 && Unframed(p))
    && (Numbered(p) && !Closed(d, SeqOf(p)) ==> SeqOf(p) != 0 && |p| > HEAD)
    && (Completes(d, p) ==> d.unit.lastSeq != SeqOf(p))
  }

  predicate Waits(e: Decoder, p: seq<Byte>) {
    |p| >= HEAD && SeqOf(p) in e.groups && Whole(e.groups[SeqOf(p)])
  }

  /** The packets that wait in e after Input of p. */
  function Waiting(e: Decoder, p: seq<Byte>): seq<seq<Byte>> {
    if e.unit.ready then [e.unit.data] else if Waits(e, p) then Pieces(e.groups[SeqOf(p)]) else []
  }

  /** The decoder when they have been handed out. */
  function Settled(e: Decoder, p: seq<Byte>, limit: int, now: int): Decoder {
    if e.unit.ready then Sweep(e.(unit := e.unit.(ready := false, data := [])), limit, now)
    else if Waits(e, p) then HandedOut(e, SeqOf(p), limit, now)
    else e
  }

  lemma OtherPending(d: Decoder, p: seq<Byte>, limit: int, now: int)
    requires Idle(d) && Accepts(d, p) && !(Numbered(p) && !Closed(d, SeqOf(p)))
    ensures var (e, ret) := Input(d, p, limit, now);
      Pending(e, ret, Waiting(e, p), Settled(e, p, limit, now), limit, now)
  {
    hide Sweep, Partial, SeqOf, FromBe32, FromLe32, PendingGroup, Pieces;
  }

  lemma CollectReady(d: Decoder, p: seq<Byte>, limit: int, now: int)
    requires Idle(d) && Addressed(d, p) && Numbered(p) && !Closed(d, SeqOf(p))
    ensures var (e, ret) := TakeFrame(d, p, limit, now); var s := SeqOf(p);
      e.unit == d.unit && Quiet(e, s)
      && if Completes(d, p) then
           e.readyNum == 1 && s in e.groups && e.groups[s].ready && e.groups[s].maxLen == ret >= |p| - HEAD
           && |e.groups[s].slots| == SignedByte(p[8])
         else ret == 0 && e.readyNum == 0 && (s in e.groups ==> !e.groups[s].ready)
  {
    hide Partial, Whole, SeqOf, Framed, LengthOf, Restoration;
    KnownFits(d, p);
  }

  lemma TakenPending(d: Decoder, p: seq<Byte>, limit: int, now: int)
    requires Idle(d) && Accepts(d, p) && Numbered(p) && !Closed(d, SeqOf(p))
    ensures var (e, ret) := Input(d, p, limit, now);
      Pending(e, ret, Waiting(e, p), Settled(e, p, limit, now), limit, now)
  {
    hide Sweep, Partial, SeqOf, FromBe32, LengthOf, TakeFrame, Known, PendingGroup, Pieces, Whole, HandedOut;
    InputKeeps(d, p, limit, now);
    CollectReady(d, p, limit, now);
    var (e, ret) := Input(d, p, limit, now);
    if Completes(d, p) {
      ReadyPending(e, ret, SeqOf(p), limit, now);
    } else if SeqOf(p) in e.groups {
      ReadyWhole(e, SeqOf(p));
    }
  }

  lemma ReadyWhole(e: Decoder, s: int)
    requires DecoderOk(e) && s in e.groups
    ensures Whole(e.groups[s]) <==> e.groups[s].ready
  {
  }

  lemma ReadyPending(e: Decoder, ret: int, s: int, limit: int, now: int)
    requires DecoderOk(e) && 0 < s < U16 && s in e.groups && e.groups[s].ready && e.groups[s].maxLen == ret > 0
    requires !e.unit.ready && e.readyNum == 1 && Quiet(e, s) && e.unit.lastSeq != s
    ensures Whole(e.groups[s])
    ensures Pending(e, ret, Pieces(e.groups[s]), HandedOut(e, s, limit, now), limit, now)
  {
    hide Partial, Pieces, HandedOut;
    assert Pieces(e.groups[s])[0..] == Pieces(e.groups[s]);
    assert PendingGroup(e, ret, Pieces(e.groups[s]), HandedOut(e, s, limit, now), limit, now, s, 0);
  }

  /** Input from an idle decoder: what waits then is what the loop gets. */
  lemma InputPending(d: Decoder, p: seq<Byte>, limit: int, now: int)
    requires Idle(d) && Accepts(d, p)
    ensures var (e, ret) := Input(d, p, limit, now);
      Pending(e, ret, Waiting(e, p), Settled(e, p, limit, now), limit, now)
  {
    hide Idle, Accepts, Pending, Waiting, Settled, Input;
    if Numbered(p) && !Closed(d, SeqOf(p)) {
      TakenPending(d, p, limit, now);
    } else {
      OtherPending(d, p, limit, now);
    }
  }

  /** A group has at most 127 packets. */
  const TURNS := 127

  /** Input and then the loop of DataInput. */
  ghost function Intake(d: Decoder, p: seq<Byte>, limit: int, now: int): (Decoder, seq<seq<Byte>>)
    requires DecoderOk(d) && Addressed(d, p)
  {
    var (e, ret) := Input(d, p, limit, now);
    Drain(e, ret, limit, now, TURNS)
  }

  /** What is drained is what waited, and nothing waits afterwards. */
  lemma IntakeSettles(d: Decoder, p: seq<Byte>, limit: int, now: int)
    requires Idle(d) && Accepts(d, p)
    ensures var e := Input(d, p, limit, now).0;
      Intake(d, p, limit, now) == (Settled(e, p, limit, now), Waiting(e, p)) && Idle(Settled(e, p, limit, now))
  {
    hide Input, Pending, Waiting, Settled, Drain;
    InputPending(d, p, limit, now);
    WaitingCount(d, p, limit, now);
    var (e, ret) := Input(d, p, limit, now);
    PendingDrains(e, ret, Waiting(e, p), Settled(e, p, limit, now), limit, now, TURNS);
  }

  lemma WaitingCount(d: Decoder, p: seq<Byte>, limit: int, now: int)
    requires Idle(d) && Accepts(d, p)
    ensures |Waiting(Input(d, p, limit, now).0, p)| <= TURNS
  {
    hide Sweep, Partial, SeqOf, LengthOf, TakeFrame, FromBe32, FromLe32, GroupOk;
    if Numbered(p) && !Closed(d, SeqOf(p)) {
      CollectReady(d, p, limit, now);
    } else if Numbered(p) {
      ClosedStep(d, p, limit, now);
    }
  }

  /** No recorded time lies in the future afterwards. */
  lemma IntakeUpTo(d: Decoder, p: seq<Byte>, limit: int, now: int)
    requires Idle(d) && Accepts(d, p) && UpTo(d.times, now)
    ensures UpTo(Intake(d, p, limit, now).0.times, now)
  {
    hide Intake, FecModel.Input, Waits, Pieces, Whole, GroupOk;
    IntakeSettles(d, p, limit, now);
    InputUpTo(d, p, limit, now);
  }

  lemma InputUpTo(d: Decoder, p: seq<Byte>, limit: int, now: int)
    requires DecoderOk(d) && Addressed(d, p) && UpTo(d.times, now)
    ensures UpTo(FecModel.Input(d, p, limit, now).0.times, now)
  {
    hide FromBe32, FromLe32, SeqOf, LengthOf, TakeFrame, GroupOk;
    if Numbered(p) && !Closed(d, SeqOf(p)) {
      SameTimes(d, p, limit, now);
    } else if Numbered(p) {
      ClosedStep(d, p, limit, now);
    }
  }

  lemma SameTimes(d: Decoder, p: seq<Byte>, limit: int, now: int)
    requires DecoderOk(d) && Addressed(d, p) && Numbered(p) && !Closed(d, SeqOf(p))
    ensures var e := TakeFrame(d, p, limit, now).0; forall s :: s in e.times ==> s == SeqOf(p) || s in d.times
    ensures var e := TakeFrame(d, p, limit, now).0;
      forall s :: s in e.times ==> e.times[s] == if s == SeqOf(p) then now else d.times[s]
  {
    hide FromBe32, SeqOf, LengthOf, Store, Noted, Decoded, Restoration, GroupOk, Framed, Addressed;
    KnownFits(d, p);
  }
}
