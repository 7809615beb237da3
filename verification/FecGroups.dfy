/** One group on its way into the decoder: any order, any duplicates, any
    losses; the k-th different packet restores it. */
module FecGroups {
  import opened Bytes
  import opened Linear
  import opened CodeTheory
  import opened Timeouts
  import opened FecFrame
  import opened FecModel

  /** The slots of g hold exactly the packets have, with their lengths. */
  ghost predicate Filled(g: Group, batch: seq<seq<Byte>>, r: nat, have: set<nat>)
    requires |batch| <= 256
  {
    && |g.slots| == |g.lens| == |batch| + r && (forall i :: i in have ==> i < |batch| + r)
    && (forall i :: 0 <= i < |g.slots| ==> g.slots[i] == if i in have then Some(Payload(batch, i)) else None)
    && forall i :: 0 <= i < |g.lens| ==> g.lens[i] == if i in have then Announced(batch, i) else 0
  }

  /** g holds the packets have of the group, fewer than k. */
  ghost predicate Collecting(g: Group, batch: seq<seq<Byte>>, r: nat, have: set<nat>) {
    && Batch(batch, r) && !g.ready && g.cur == |have| < |batch| && Filled(g, batch, r, have)
    && if have == {} then g.maxLen == 0 else g.maxLen == MaxLen(batch) && g.num == |batch|
  }

  /** How long packet j is said to be: exactly, if it arrived itself. */
  function OutLen(batch: seq<seq<Byte>>, have: set<nat>, j: nat): (n: nat)
    requires j < |batch|
    ensures |batch[j]| <= n <= MaxLen(batch)
  {
    if j in have then |batch[j]| else MaxLen(batch)
  }

  /** g has been decoded from the packets have. */
  ghost predicate Restored(g: Group, batch: seq<seq<Byte>>, have: set<nat>) {
    && g.ready && g.num == |batch| <= g.cur && 0 < |batch| && |g.slots| == |g.lens| == |batch|
    && g.maxLen == MaxLen(batch)
    && (forall j :: 0 <= j < |batch| ==> g.slots[j] == Some(Padded(batch, MaxLen(batch))[j]))
    && forall j :: 0 <= j < |batch| ==> g.lens[j] == OutLen(batch, have, j)
  }

  /** The data that the encoder made the codeword of. */
  function Original(batch: seq<seq<Byte>>): (d: seq<Vec>)
    ensures |d| == |batch|
  {
    Padded(batch, MaxLen(batch))
  }

  /** The decoder holds the packets have of the batch under s, and has not
      restored it. */
  ghost predicate InProgress(d: Decoder, s: int, batch: seq<seq<Byte>>, r: nat, have: set<nat>) {
    && Batch(batch, r) && (s in d.groups <==> have != {})
    && Collecting(Known(d, s, |batch| + r), batch, r, have)
  }

  // ----- one packet -----

  lemma FilledArrived(g: Group, batch: seq<seq<Byte>>, r: nat, have: set<nat>)
    requires |batch| <= 256 && Filled(g, batch, r, have)
    ensures Arrived(g.slots) == have
  {
    hide Payload;
  }

  lemma FilledMore(g: Group, batch: seq<seq<Byte>>, r: nat, have: set<nat>, i: nat)
    requires |batch| <= 256 && Filled(g, batch, r, have) && i < |batch| + r
    ensures Filled(Store(g, i, Payload(batch, i), Announced(batch, i)), batch, r, have + {i})
  {
    hide MaxLen, Payload;
  }

  lemma PayloadIs(batch: seq<seq<Byte>>, i: nat)
    requires |batch| <= 256
    ensures Payload(batch, i) == EncodePacket(Original(batch), i, MaxLen(batch))
  {
  }

  /** Any k packets of the codeword are enough to tell the batch. */
  lemma FilledRestores(g: Group, batch: seq<seq<Byte>>, r: nat, have: set<nat>)
    requires Batch(batch, r) && Filled(g, batch, r, have) && |batch| <= |have|
    ensures Restoration(g.slots, |batch|, MaxLen(batch)) == Original(batch)
  {
    hide MaxLen, Restoration, Payload, Padded, EncodePacket, Arrived;
    FilledArrived(g, batch, r, have);
    forall i | 0 <= i < |g.slots| && g.slots[i].Some?
      ensures g.slots[i].value == EncodePacket(Original(batch), i, MaxLen(batch))
    {
      PayloadIs(batch, i);
    }
    assert SameSize(Original(batch), MaxLen(batch));
    RestorationUnique(g.slots, |batch|, MaxLen(batch), Original(batch));
  }

  lemma DecodedRestores(g: Group, batch: seq<seq<Byte>>, r: nat, have: set<nat>)
    requires Batch(batch, r) && Filled(g, batch, r, have)
    requires g.maxLen == MaxLen(batch) && g.num == |batch| <= g.cur
    ensures Restored(Decoded(g, |batch|, Original(batch)), batch, have)
  {
    hide MaxLen, Payload;
    var h := Decoded(g, |batch|, Original(batch));
    forall j | 0 <= j < |batch| ensures h.lens[j] == OutLen(batch, have, j) {
      assert g.lens[j] == if j in have then |batch[j]| else 0;
    }
  }

  lemma CollectDuplicate(g: Group, batch: seq<seq<Byte>>, r: nat, have: set<nat>, i: nat)
    requires Collecting(g, batch, r, have) && i in have
    ensures var h := Noted(g, |batch|, r, MaxLen(batch)); h.slots[i].Some? && Collecting(h, batch, r, have)
  {
    hide MaxLen, Payload;
  }

  /** The group with packet i stored in it. */
  ghost function Gained(g: Group, batch: seq<seq<Byte>>, r: nat, i: nat): Group
    requires Batch(batch, r) && i < |g.slots| && i < |g.lens|
  {
    Store(Noted(g, |batch|, r, MaxLen(batch)), i, Payload(batch, i), Announced(batch, i))
  }

  lemma CollectNew(g: Group, batch: seq<seq<Byte>>, r: nat, have: set<nat>, i: nat)
    requires Collecting(g, batch, r, have) && i !in have && i < |batch| + r
    ensures g.slots[i].None?
    ensures var t := Gained(g, batch, r, i);
      t.cur == |have + {i}| && t.maxLen == MaxLen(batch) && |batch| <= |t.lens|
      && (t.cur < |batch| ==> Collecting(t, batch, r, have + {i}))
      && (t.cur >= |batch| ==>
            Restored(Decoded(t, |batch|, Restoration(t.slots, |batch|, t.maxLen)), batch, have + {i}))
  {
    hide MaxLen, Payload, Restored, Decoded, Restoration;
    BatchSize(batch, r);
    FilledMore(Noted(g, |batch|, r, MaxLen(batch)), batch, r, have, i);
    var t := Gained(g, batch, r, i);
    if t.cur >= |batch| {
      FilledRestores(t, batch, r, have + {i});
      DecodedRestores(t, batch, r, have + {i});
    }
  }

  lemma CollectingShape(g: Group, batch: seq<seq<Byte>>, r: nat, have: set<nat>)
    requires Collecting(g, batch, r, have)
    ensures |g.slots| == |g.lens| == |batch| + r && !g.ready && g.cur == |have| < |batch|
    ensures have != {} ==> g.num == |batch| && g.maxLen == MaxLen(batch)
  {
    hide MaxLen, Payload;
  }

  /** The header of a frame, as the decoder reads it. */
  lemma FrameShape(s: int, batch: seq<seq<Byte>>, r: nat, i: nat)
    requires 0 < s < SEQ_END && Batch(batch, r) && i < |batch| + r
    ensures var p := Frame(s, batch, r, i);
      Numbered(p) && SeqOf(p) == s && LengthOf(p) == Announced(batch, i) <= |p| - HEAD == MaxLen(batch) < U16
      && p[HEAD..] == Payload(batch, i) && 0 < MaxLen(batch)
      && SignedByte(p[8]) == |batch| && SignedByte(p[9]) == r && SignedByte(p[10]) == i + 1
  {
    hide Frame, MaxLen, Payload, SeqOf, LengthOf;
    BatchSize(batch, r);
    FrameFields(s, batch, r, i);
  }

  lemma ProgressOpen(d: Decoder, s: int, batch: seq<seq<Byte>>, r: nat, have: set<nat>)
    requires InProgress(d, s, batch, r, have)
    ensures !Closed(d, s) && Collecting(Known(d, s, |batch| + r), batch, r, have) && Batch(batch, r)
    ensures s in d.groups ==> have != {} && Known(d, s, |batch| + r) == d.groups[s]
  {
    hide MaxLen, Payload;
  }

  /** Input of a frame whose group is not complete yet. */
  lemma FrameCollected(d: Decoder, s: int, batch: seq<seq<Byte>>, r: nat, have: set<nat>, i: nat, limit: int, now: int)
    requires DecoderOk(d) && 0 < s < SEQ_END && InProgress(d, s, batch, r, have) && i < |batch| + r
    ensures var p, g := Frame(s, batch, r, i), Known(d, s, |batch| + r);
      Addressed(d, p) && Numbered(p) && 0 < SignedByte(p[8]) && 0 < SignedByte(p[10])
      && |g.slots| == |g.lens| == SlotsOf(p) && SignedByte(p[10]) <= |g.slots|
      && (g.slots[SignedByte(p[10]) - 1].None? && g.cur + 1 >= SignedByte(p[8]) ==> SignedByte(p[8]) <= |g.lens|)
      && Input(d, p, limit, now) == Collect(d, g, p, limit, now)
  {
    hide Frame, MaxLen, Payload, SeqOf, LengthOf, Collect, Collecting, InProgress, Known, DecoderOk;
    ProgressOpen(d, s, batch, r, have);
    FrameShape(s, batch, r, i);
    CollectingShape(Known(d, s, |batch| + r), batch, r, have);
    KnownFits(d, Frame(s, batch, r, i));
  }

  // ----- the other groups -----

  /** From d to e the groups other than s are left alone, except that expired
      ones may go. */
  predicate Others(d: Decoder, e: Decoder, s: int, limit: int, now: int) {
    && (forall t :: t in e.groups && t != s ==>
          t in d.groups && e.groups[t] == d.groups[t] && (t in e.times <==> t in d.times)
          && (t in d.times ==> e.times[t] == d.times[t]))
    && forall t :: t in d.groups && t != s && !Expired(d.times, limit, now, t) ==> t in e.groups
  }

  lemma OthersTwice(d: Decoder, e: Decoder, f: Decoder, s: int, limit: int, now: int)
    requires Others(d, e, s, limit, now) && Others(e, f, s, limit, now)
    ensures Others(d, f, s, limit, now)
  {
  }

  lemma OthersPut(d: Decoder, s: int, g: Group, limit: int, now: int)
    ensures Others(d, d.(groups := d.groups[s := g], times := d.times[s := now]), s, limit, now)
  {
  }

  lemma OthersSwept(d: Decoder, s: int, limit: int, now: int)
    ensures Others(d, Sweep(d, limit, now), s, limit, now)
  {
  }

  /** A group updated now does not expire now. */
  lemma KeptBySweep(d: Decoder, limit: int, now: int, s: int)
    requires s in d.groups && s in d.times && d.times[s] == now && limit >= 0
    ensures var e := Sweep(d, limit, now);
      s in e.groups && e.groups[s] == d.groups[s] && s in e.times && e.times[s] == now
      && e.unit == d.unit && e.readyNum == d.readyNum
  {
  }

  /** Storing t under s and clearing. */
  lemma PutAndTidy(d: Decoder, s: int, t: Group, limit: int, now: int)
    requires limit >= 0
    ensures var e := Tidy(d.(groups := d.groups[s := t], times := d.times[s := now]), limit, now);
      e.unit == d.unit && e.readyNum == d.readyNum && s in e.groups && e.groups[s] == t
      && s in e.times && e.times[s] == now && Others(d, e, s, limit, now)
  {
    hide Sweep, Others;
    var f := d.(groups := d.groups[s := t], times := d.times[s := now]);
    OthersPut(d, s, t, limit, now);
    KeptBySweep(f, limit, now, s);
    OthersSwept(f, s, limit, now);
    OthersTwice(d, f, Sweep(f, limit, now), s, limit, now);
  }

  // ----- what a packet does to its group -----

  /** Group s as it stands after a packet that did not complete it. */
  ghost predicate Advanced(d: Decoder, e: Decoder, s: int, batch: seq<seq<Byte>>, r: nat, more: set<nat>, now: int) {
    e.unit == d.unit && e.readyNum == d.readyNum && InProgress(e, s, batch, r, more) && s in e.times
      && e.times[s] == now
  }

  /** And after the packet that completed it. */
  ghost predicate Finished(d: Decoder, e: Decoder, s: int, batch: seq<seq<Byte>>, more: set<nat>, now: int) {
    && s in e.groups && Restored(e.groups[s], batch, more)
    && e == d.(groups := d.groups[s := e.groups[s]], times := d.times[s := now], readyNum := d.readyNum + 1)
  }

  lemma StillInProgress(e: Decoder, s: int, batch: seq<seq<Byte>>, r: nat, more: set<nat>)
    requires s in e.groups && more != {} && Collecting(e.groups[s], batch, r, more)
    ensures InProgress(e, s, batch, r, more)
  {
    hide MaxLen, Payload;
  }

  /** What one packet does to its group: a duplicate nothing, one of the first
      k - 1 is collected, the k-th decodes the group and its length is
      announced. No other group is touched, unless it has expired. */
  lemma ReceiveStep(d: Decoder, s: int, batch: seq<seq<Byte>>, r: nat, have: set<nat>, i: nat, limit: int, now: int)
    requires DecoderOk(d) && 0 < s < SEQ_END && InProgress(d, s, batch, r, have) && i < |batch| + r && limit >= 0
    ensures Addressed(d, Frame(s, batch, r, i))
    ensures var (e, ret) := Input(d, Frame(s, batch, r, i), limit, now); var more := have + {i};
      Others(d, e, s, limit, now)
      && if |more| < |batch| then ret == 0 && Advanced(d, e, s, batch, r, more, now)
         else ret == MaxLen(batch) && Finished(d, e, s, batch, more, now)
  {
    hide *;
    if i in have {
      DuplicateStep(d, s, batch, r, have, i, limit, now);
    } else {
      NewStep(d, s, batch, r, have, i, limit, now);
    }
  }

  lemma DuplicateStep(d: Decoder, s: int, batch: seq<seq<Byte>>, r: nat, have: set<nat>, i: nat, limit: int, now: int)
    requires DecoderOk(d) && 0 < s < SEQ_END && InProgress(d, s, batch, r, have) && i in have && i < |batch| + r
    ensures Addressed(d, Frame(s, batch, r, i)) && have + {i} == have && |have| < |batch|
    ensures var (e, ret) := Input(d, Frame(s, batch, r, i), limit, now);
      Others(d, e, s, limit, now) && ret == 0 && Advanced(d, e, s, batch, r, have, now)
  {
    hide Frame, MaxLen, Payload, Collecting, InProgress, Input, DecoderOk, Others, Addressed, Numbered, Tidy, Known,
      Complete, Store, LengthOf, Framed;
    ProgressOpen(d, s, batch, r, have);
    var g := Known(d, s, |batch| + r);
    FrameCollected(d, s, batch, r, have, i, limit, now);
    FrameShape(s, batch, r, i);
    CollectingShape(g, batch, r, have);
    CollectDuplicate(g, batch, r, have, i);
    var h := Noted(g, |batch|, r, MaxLen(batch));
    OthersPut(d, s, h, limit, now);
    StillInProgress(d.(groups := d.groups[s := h], times := d.times[s := now]), s, batch, r, have);
  }

  lemma NewFrame(d: Decoder, s: int, batch: seq<seq<Byte>>, r: nat, have: set<nat>, i: nat, limit: int, now: int)
    requires DecoderOk(d) && 0 < s < SEQ_END && InProgress(d, s, batch, r, have) && i !in have && i < |batch| + r
    ensures Addressed(d, Frame(s, batch, r, i))
    ensures var g := Known(d, s, |batch| + r);
      |g.slots| == |g.lens| == |batch| + r
      && var t, e := Gained(g, batch, r, i), d.(times := d.times[s := now]);
         Input(d, Frame(s, batch, r, i), limit, now) ==
         if t.cur >= |batch| then Complete(e, s, t, |batch|)
         else (Tidy(e.(groups := d.groups[s := t]), limit, now), 0)
  {
    hide Frame, MaxLen, Payload, Collecting, InProgress, Input, DecoderOk, Complete, Addressed, Numbered, Tidy, Known,
      LengthOf, Framed, Store;
    ProgressOpen(d, s, batch, r, have);
    FrameCollected(d, s, batch, r, have, i, limit, now);
    FrameShape(s, batch, r, i);
    CollectingShape(Known(d, s, |batch| + r), batch, r, have);
    CollectNew(Known(d, s, |batch| + r), batch, r, have, i);
  }

  lemma NewStep(d: Decoder, s: int, batch: seq<seq<Byte>>, r: nat, have: set<nat>, i: nat, limit: int, now: int)
    requires DecoderOk(d) && 0 < s < SEQ_END && InProgress(d, s, batch, r, have) && i !in have && i < |batch| + r
    requires limit >= 0
    ensures Addressed(d, Frame(s, batch, r, i))
    ensures var (e, ret) := Input(d, Frame(s, batch, r, i), limit, now); var more := have + {i};
      Others(d, e, s, limit, now)
      && if |more| < |batch| then ret == 0 && Advanced(d, e, s, batch, r, more, now)
         else ret == MaxLen(batch) && Finished(d, e, s, batch, more, now)
  {
    hide *;
    ProgressOpen(d, s, batch, r, have);
    NewFrame(d, s, batch, r, have, i, limit, now);
    CollectNew(Known(d, s, |batch| + r), batch, r, have, i);
    var t := Gained(Known(d, s, |batch| + r), batch, r, i);
    if t.cur < |batch| {
      PutAdvances(d, s, batch, r, have + {i}, t, limit, now);
    } else {
      CompleteFinishes(d, s, batch, have + {i}, t, limit, now);
    }
  }

  lemma PutAdvances(
    d: Decoder, s: int, batch: seq<seq<Byte>>, r: nat, more: set<nat>, t: Group, limit: int, now: int)
    requires limit >= 0 && more != {} && Collecting(t, batch, r, more)
    ensures var e := Tidy(d.(times := d.times[s := now]).(groups := d.groups[s := t]), limit, now);
      Others(d, e, s, limit, now) && Advanced(d, e, s, batch, r, more, now)
  {
    hide Collecting, InProgress, Others, Tidy;
    PutAndTidy(d, s, t, limit, now);
    StillInProgress(Tidy(d.(groups := d.groups[s := t], times := d.times[s := now]), limit, now), s, batch, r, more);
  }

  lemma CompleteFinishes(
    d: Decoder, s: int, batch: seq<seq<Byte>>, more: set<nat>, t: Group, limit: int, now: int)
    requires |batch| <= |t.lens|
    requires Restored(Decoded(t, |batch|, Restoration(t.slots, |batch|, t.maxLen)), batch, more)
    ensures var (e, ret) := Complete(d.(times := d.times[s := now]), s, t, |batch|);
      Others(d, e, s, limit, now) && Finished(d, e, s, batch, more, now) && ret == t.maxLen
  {
    hide Restored, Restoration, Decoded;
  }

  /** Once its group has been handed out, or waits, a packet changes nothing. */
  lemma ClosedStep(d: Decoder, p: seq<Byte>, limit: int, now: int)
    requires DecoderOk(d) && Numbered(p) && Closed(d, SeqOf(p))
    ensures Addressed(d, p) && Input(d, p, limit, now).0 == d
    ensures Input(d, p, limit, now).1 == if d.groups[SeqOf(p)].ready then 1 else 0
  {
    hide GroupOk;
  }

  // ----- any packet -----

  /** What is known of a group fits packets of the given payload size. */
  ghost predicate Sized(g: Group, k: int, size: nat) {
    && !g.ready && g.cur == |Arrived(g.slots)| < k && |g.slots| == |g.lens| < 256 && g.maxLen <= size
    && (forall i :: 0 <= i < |g.slots| && g.slots[i].Some? ==> |g.slots[i].value| == size)
    && forall i :: 0 <= i < |g.lens| ==> g.lens[i] <= size
  }

  lemma KnownSized(d: Decoder, p: seq<Byte>)
    requires DecoderOk(d) && Addressed(d, p) && Numbered(p) && !Closed(d, SeqOf(p))
    ensures 0 < SlotsOf(p) && Sized(Known(d, SeqOf(p), SlotsOf(p)), SignedByte(p[8]), |p| - HEAD)
  {
    hide LengthOf, FromBe32, Framed, SeqOf;
    KnownFits(d, p);
  }

  lemma NotedSized(g: Group, k: int, red: int, size: nat)
    requires Sized(g, k, size)
    ensures var h := Noted(g, k, red, size); Sized(h, k, size) && h.maxLen == size && h.num == k
  {
  }

  lemma SizedPartial(g: Group, k: int, size: nat)
    requires Sized(g, k, size) && g.maxLen == size && g.num == k
    ensures Partial(g)
  {
  }

  lemma StoreSized(g: Group, k: int, size: nat, i: nat, payload: Vec, length: nat)
    requires Sized(g, k, size) && i < |g.slots| && g.slots[i].None? && |payload| == size && length <= size
    ensures var t := Store(g, i, payload, length);
      t.cur == |Arrived(t.slots)| == g.cur + 1 && (t.cur < k ==> Sized(t, k, size))
      && t.num == g.num && t.maxLen == g.maxLen && !t.ready && |t.lens| == |g.lens|
      && forall j :: 0 <= j < |t.lens| ==> t.lens[j] <= size
  {
    var t := Store(g, i, payload, length);
    assert Arrived(t.slots) == Arrived(g.slots) + {i};
  }

  lemma DecodedWhole(g: Group, k: nat, data: seq<Vec>)
    requires 0 < |data| == k <= |g.lens| && g.cur >= g.num && !g.ready
    requires forall i :: 0 <= i < k ==> |data[i]| == g.maxLen
    requires forall i :: 0 <= i < |g.lens| ==> g.lens[i] <= g.maxLen
    ensures Whole(Decoded(g, k, data))
  {
  }

  lemma PutOk(d: Decoder, e: Decoder, s: int, limit: int, now: int)
    requires DecoderOk(d) && s in e.groups && GroupOk(e.groups[s]) && e.groups == d.groups[s := e.groups[s]]
    requires e.unit == d.unit
    ensures DecoderOk(e) && DecoderOk(Tidy(e, limit, now))
  {
    hide GroupOk;
  }

  /** Whatever packet is stored, the maps stay in order. */
  lemma CollectKeeps(d: Decoder, p: seq<Byte>, limit: int, now: int)
    requires DecoderOk(d) && Addressed(d, p) && Numbered(p) && !Closed(d, SeqOf(p))
    ensures DecoderOk(TakeFrame(d, p, limit, now).0)
  {
    hide SeqOf, LengthOf, Framed, Tidy, DecoderOk, Sized, Known, Partial, Whole, Restoration, Decoded;
    KnownFits(d, p);
    KnownSized(d, p);
    var k: nat, i: nat, size := SignedByte(p[8]), SignedByte(p[10]) - 1, |p| - HEAD;
    var h := Noted(Known(d, SeqOf(p), SlotsOf(p)), k, SignedByte(p[9]), size);
    NotedSized(Known(d, SeqOf(p), SlotsOf(p)), k, SignedByte(p[9]), size);
    var s, t := SeqOf(p), h;
    if h.slots[i].Some? {
      SizedPartial(h, k, size);
    } else {
      StoreSized(h, k, size, i, p[HEAD..], LengthOf(p));
      t := Store(h, i, p[HEAD..], LengthOf(p));
      if t.cur >= k {
        DecodedWhole(t, k, Restoration(t.slots, k, t.maxLen));
        t := Decoded(t, k, Restoration(t.slots, k, t.maxLen));
      } else {
        SizedPartial(t, k, size);
      }
    }
    PutOk(d, d.(times := d.times[s := now]).(groups := d.groups[s := t]), s, limit, now);
    OtherFields(d.(times := d.times[s := now]).(groups := d.groups[s := t]), d.readyNum + 1);
  }

  lemma OtherFields(d: Decoder, n: int)
    ensures DecoderOk(d) ==> DecoderOk(d.(readyNum := n))
  {
  }

  /** Whatever packet arrives, they do. */
  lemma InputKeeps(d: Decoder, p: seq<Byte>, limit: int, now: int)
    requires DecoderOk(d) && Addressed(d, p)
    ensures DecoderOk(Input(d, p, limit, now).0)
  {
    hide TakeFrame, GroupOk, SeqOf, LengthOf, FromBe32, FromLe32;
    if Numbered(p) && !Closed(d, SeqOf(p)) {
      CollectKeeps(d, p, limit, now);
    } else if Numbered(p) {
      ClosedStep(d, p, limit, now);
    }
  }
}
