/** The FEC decoder as a value: what each function of fec_decode.cpp does to
    its maps. The class in FecDecoder.dfy is proved to do the same. */
module FecModel {
  import opened Bytes
  import opened Linear
  import opened CodeTheory
  import opened Timeouts
  import opened FecFrame

  const INT_MAX: int := I32 - 1

  datatype Option<T> = None | Some(value: T)

  /** What the maps of the decoder hold under one sequence number. */
  datatype Group = Group(
    num: int,
    red: int,
    maxLen: nat,
    slots: seq<Option<Vec>>,
    lens: seq<nat>,
    cur: nat,
    ready: bool)

  /** output_unit_: unencoded data waiting, and the cursor of the last output. */
  datatype Unit = Unit(ready: bool, data: seq<Byte>, lastSeq: int, lastIndex: nat)

  datatype Decoder = Decoder(groups: map<int, Group>, readyNum: int, unit: Unit, times: map<int, int>)

  const START: Decoder := Decoder(map[], 0, Unit(false, [], -1, 0), map[])

  // ----- clearing -----

  /** ClearTimeoutDatas drops every expired group that is not ready. */
  predicate Dropped(d: Decoder, limit: int, now: int, s: int) {
    Expired(d.times, limit, now, s) && !(s in d.groups && d.groups[s].ready)
  }

  function Sweep(d: Decoder, limit: int, now: int): Decoder {
    d.(groups := map s | s in d.groups && !Dropped(d, limit, now, s) :: d.groups[s],
       times := map s | s in d.times && !Dropped(d, limit, now, s) :: d.times[s])
  }

  /** Lines 111-112: clearing once more than 50 groups are stored. */
  function Tidy(d: Decoder, limit: int, now: int): Decoder {
    if |d.groups| > 50 then Sweep(d, limit, now) else d
  }

  // ----- restoring the data -----

  /** The indexes of the packets that have arrived. */
  function Arrived(slots: seq<Option<Vec>>): (have: set<nat>)
    ensures forall i :: i in have <==> 0 <= i < |slots| && slots[i].Some?
  {
    set i | 0 <= i < |slots| && slots[i].Some?
  }

  /** Every packet that has arrived is a packet of the codeword of data. */
  ghost predicate Restores(slots: seq<Option<Vec>>, k: nat, size: nat, data: seq<Vec>) {
    && |data| == k && SameSize(data, size)
    && forall i :: 0 <= i < |slots| && slots[i].Some? ==> slots[i].value == EncodePacket(data, i, size)
  }

  ghost predicate Restorable(slots: seq<Option<Vec>>, k: nat, size: nat) {
    exists data :: Restores(slots, k, size, data)
  }

  /** The data of which the packets that have arrived are the codeword. */
  ghost function Restoration(slots: seq<Option<Vec>>, k: nat, size: nat): (data: seq<Vec>)
    ensures |data| == k && forall i :: 0 <= i < k ==> |data[i]| == size
    ensures Restorable(slots, k, size) ==> Restores(slots, k, size, data)
  {
    if Restorable(slots, k, size) then
      var data :| Restores(slots, k, size, data);
      data
    else seq(k, _ => Zeros(size))
  }

  lemma {:induction false} Listed(have: set<nat>) returns (index: seq<nat>)
    ensures DistinctIndex(index) && |index| == |have| && forall i :: 0 <= i < |index| ==> index[i] in have
  {
    if have == {} {
      return [];
    }
    var x :| x in have;
    index := Listed(have - {x});
    index := index + [x];
  }

  /** Enough packets leave no choice. */
  lemma RestorationUnique(slots: seq<Option<Vec>>, k: nat, size: nat, data: seq<Vec>)
    requires Restores(slots, k, size, data) && |slots| <= 256 && k <= |Arrived(slots)|
    ensures Restoration(slots, k, size) == data
  {
    hide EncodePacket, Restoration;
    assert Restorable(slots, k, size);
    var all := Listed(Arrived(slots));
    var index := all[..k];
    DataUnique(data, Restoration(slots, k, size), index, size);
  }

  /** Any k packets of one size can be restored. */
  lemma RestorationExists(slots: seq<Option<Vec>>, k: nat, size: nat)
    requires |slots| <= 256 && |Arrived(slots)| == k
    requires forall i :: 0 <= i < |slots| && slots[i].Some? ==> |slots[i].value| == size
    ensures Restores(slots, k, size, Restoration(slots, k, size))
  {
    hide EncodePacket;
    var index := Listed(Arrived(slots));
    var values := seq(k, i requires 0 <= i < k => slots[index[i]].value);
    AtMost(index, |slots|);
    var data := DataExists(values, index, size);
    forall i | 0 <= i < |slots| && slots[i].Some? ensures slots[i].value == EncodePacket(data, i, size) {
      AllListed(Arrived(slots), index, i);
      var j :| 0 <= j < k && index[j] == i;
    }
    assert Restores(slots, k, size, data);
  }

  lemma {:induction false} AtMost(index: seq<nat>, n: nat)
    requires DistinctIndex(index) && forall i :: 0 <= i < |index| ==> index[i] < n
    ensures |index| <= n
  {
    ListedSize(index);
    UpToSize(set i | 0 <= i < |index| :: index[i], n);
  }

  lemma {:induction false} ListedSize(index: seq<nat>)
    requires DistinctIndex(index)
    ensures |set i | 0 <= i < |index| :: index[i]| == |index|
  {
    if index != [] {
      var l := |index| - 1;
      var front := index[..l];
      ListedSize(front);
      assert (set i | 0 <= i < |index| :: index[i]) == (set i | 0 <= i < l :: front[i]) + {index[l]};
    }
  }

  lemma {:induction false} UpToSize(have: set<nat>, n: nat)
    requires forall i :: i in have ==> i < n
    ensures |have| <= n
  {
    if n > 0 {
      UpToSize(have - {n - 1}, n - 1);
      assert have <= (have - {n - 1}) + {n - 1};
    } else {
      assert have == {};
    }
  }

  lemma AllListed(have: set<nat>, index: seq<nat>, i: nat)
    requires DistinctIndex(index) && |index| == |have| && forall j :: 0 <= j < |index| ==> index[j] in have
    requires i in have
    ensures i in index
  {
    ListedSize(index);
    var all := set j | 0 <= j < |index| :: index[j];
    if i !in index {
      assert all <= have - {i};
      assert |have| == |have - {i}| + 1;
      SubsetSize(all, have - {i});
    }
  }

  lemma SubsetSize(a: set<nat>, b: set<nat>)
    requires a <= b
    ensures |a| <= |b|
  {
    assert b == a + (b - a);
  }

  // ----- input -----

  /** The decoder reads the last three header bytes as signed characters. */
  function SignedByte(b: Byte): (x: int)
    ensures -128 <= x < 128
  {
    if b < 128 then b else b - 256
  }

  /** The size of the group that the header of p names. */
  function SlotsOf(p: seq<Byte>): int
    requires |p| >= HEAD
  {
    SignedByte(p[8]) + SignedByte(p[9])
  }

  /** The index in the header of p is one the decoder accepts. */
  predicate Numbered(p: seq<Byte>) {
    Framed(p) && SignedByte(p[10]) != 0 && SignedByte(p[10]) <= SlotsOf(p)
  }

  /** Nothing more is taken under s: its group has been handed out or waits. */
  predicate Closed(d: Decoder, s: int) {
    s in d.groups && (d.groups[s].ready || d.groups[s].cur >= d.groups[s].num)
  }

  /** The packet p belongs to the shape of group g. */
  predicate Agrees(g: Group, p: seq<Byte>)
    requires |p| >= HEAD
  {
    g.num == SignedByte(p[8]) && |g.slots| == SlotsOf(p) && g.maxLen == |p| - HEAD
  }

  /** The header of a packet that is taken is that of a group: positive counts,
      an announced length within the packet, and the shape of what is stored
      under its number. */
  predicate Addressed(d: Decoder, p: seq<Byte>) {
    Numbered(p) && !Closed(d, SeqOf(p)) ==>
      && 0 < SignedByte(p[8]) && 0 < SignedByte(p[10]) && LengthOf(p) <= |p| - HEAD
      && (SeqOf(p) in d.groups ==> Agrees(d.groups[SeqOf(p)], p))
  }

  function EmptyGroup(n: nat): Group {
    Group(0, 0, 0, seq(n, _ => None), seq(n, _ => 0), 0, false)
  }

  function Known(d: Decoder, s: int, n: nat): Group {
    if s in d.groups then d.groups[s] else EmptyGroup(n)
  }

  /** What Input notes before it looks at the slot (lines 66-68). */
  function Noted(g: Group, num: int, red: int, length: nat): Group {
    g.(num := num, red := red, maxLen := if length > g.maxLen then length else g.maxLen)
  }

  /** A packet put into its slot. */
  function Store(g: Group, index: nat, payload: Vec, length: nat): Group
    requires index < |g.slots| && index < |g.lens|
  {
    g.(slots := g.slots[index := Some(payload)], lens := g.lens[index := length], cur := g.cur + 1)
  }

  /** The group after decoding: the first k slots hold the data; a packet that
      did not arrive is as long as the longest. */
  function Decoded(g: Group, k: nat, data: seq<Vec>): Group
    requires |data| == k <= |g.lens|
  {
    g.(slots := seq(k, i requires 0 <= i < k => Some(data[i])),
       lens := seq(k, i requires 0 <= i < k => if g.lens[i] == 0 then g.maxLen else g.lens[i]),
       ready := true)
  }

  /** Lines 116-127. */
  function TakeMarked(d: Decoder, p: seq<Byte>): (Decoder, int)
    requires |p| >= 4
  {
    if FromLe32(p[0..4]) != UNIQUE then (d, -2)
    else (d.(unit := d.unit.(ready := true, data := p[4..])), |p| - 4)
  }

  /** The k-th packet of a group has been stored (lines 84-110). */
  ghost function Complete(d: Decoder, s: int, g: Group, k: nat): (Decoder, int)
    requires k <= |g.lens|
  {
    var data := Restoration(g.slots, k, g.maxLen);
    (d.(groups := d.groups[s := Decoded(g, k, data)], readyNum := d.readyNum + 1), g.maxLen)
  }

  /** Lines 62-113: a packet of a group that is not closed; g is what is known
      of the group. */
  ghost function Collect(d: Decoder, g: Group, p: seq<Byte>, limit: int, now: int): (Decoder, int)
    requires Numbered(p) && 0 < SignedByte(p[8]) && 0 < SignedByte(p[10])
    requires |g.slots| == |g.lens| == SlotsOf(p) && SignedByte(p[10]) <= |g.slots|
    requires g.slots[SignedByte(p[10]) - 1].None? && g.cur + 1 >= SignedByte(p[8]) ==> SignedByte(p[8]) <= |g.lens|
  {
    var s, k: nat, index: nat := SeqOf(p), SignedByte(p[8]), SignedByte(p[10]) - 1;
    var e := d.(times := d.times[s := now]);
    var h := Noted(g, k, SignedByte(p[9]), |p| - HEAD);
    if h.slots[index].Some? then (e.(groups := d.groups[s := h]), 0)
    else
      var t := Store(h, index, p[HEAD..], LengthOf(p));
      if t.cur >= k then Complete(e, s, t, k) else (Tidy(e.(groups := d.groups[s := t]), limit, now), 0)
  }

  // ----- what the maps hold -----

  /** A group that waits for more packets: those that have arrived are counted,
      of one size, and no shorter than announced. */
  ghost predicate Partial(g: Group) {
    && !g.ready && g.cur == |Arrived(g.slots)| < g.num && |g.slots| == |g.lens| < 256
    && (forall i :: 0 <= i < |g.slots| && g.slots[i].Some? ==> |g.slots[i].value| == g.maxLen)
    && forall i :: 0 <= i < |g.lens| ==> g.lens[i] <= g.maxLen
  }

  /** A decoded group: every packet is there, no shorter than announced, and
      announced with a length unless all are empty. */
  predicate Whole(g: Group) {
    && g.ready && g.cur >= g.num && 0 < |g.slots| == |g.lens|
    && (forall i :: 0 <= i < |g.slots| ==> g.slots[i].Some? && |g.slots[i].value| == g.maxLen)
    && forall i :: 0 <= i < |g.lens| ==> g.lens[i] <= g.maxLen && (g.lens[i] == 0 ==> g.maxLen == 0)
  }

  ghost predicate GroupOk(g: Group) {
    if g.ready then Whole(g) else g.cur >= g.num || Partial(g)
  }

  ghost predicate DecoderOk(d: Decoder) {
    d.unit.lastSeq >= -1 && forall s :: s in d.groups ==> GroupOk(d.groups[s])
  }

  lemma EmptyOk(n: nat)
    ensures Arrived(EmptyGroup(n).slots) == {}
  {
  }

  /** What is known of the group of p has room for it. */
  lemma KnownFits(d: Decoder, p: seq<Byte>)
    requires DecoderOk(d) && Addressed(d, p) && Numbered(p) && !Closed(d, SeqOf(p))
    ensures 0 < SlotsOf(p) < 256
    ensures var n, k, i := SlotsOf(p), SignedByte(p[8]), SignedByte(p[10]) - 1;
      var g := Known(d, SeqOf(p), n);
      !g.ready && g.cur == |Arrived(g.slots)| < k && |g.slots| == |g.lens| == n && 0 <= i < n
      && (g.slots[i].None? && g.cur + 1 >= k ==> k <= n)
  {
    hide LengthOf, FromBe32, Framed;
    var n: nat, i: nat := SlotsOf(p), SignedByte(p[10]) - 1;
    var g := Known(d, SeqOf(p), n);
    EmptyOk(n);
    if g.slots[i].None? {
      UpToSize(Arrived(g.slots) + {i}, n);
    }
  }

  /** Input of a packet with an accepted header (lines 57-113). */
  ghost function TakeFrame(d: Decoder, p: seq<Byte>, limit: int, now: int): (Decoder, int)
    requires DecoderOk(d) && Addressed(d, p) && Numbered(p)
  {
    var s := SeqOf(p);
    if s in d.groups && !d.groups[s].ready && d.groups[s].cur >= d.groups[s].num then (d, 0)
    else if s in d.groups && d.groups[s].ready then (d, 1)
    else
      KnownFits(d, p);
      Collect(d, Known(d, s, SlotsOf(p)), p, limit, now)
  }

  ghost function Input(d: Decoder, p: seq<Byte>, limit: int, now: int): (Decoder, int)
    requires DecoderOk(d) && Addressed(d, p)
  {
    if |p| < 4 then (d, -1)
    else if FromBe32(p[0..4]) != UNIQUE then TakeMarked(d, p)
    else if |p| < HEAD then (d, -1)
    else if SignedByte(p[10]) == 0 || SignedByte(p[10]) > SlotsOf(p) then (d, -1)
    else TakeFrame(d, p, limit, now)
  }

  // ----- output -----

  predicate Deliverable(groups: map<int, Group>, least: int, s: int) {
    s in groups && groups[s].ready && groups[s].maxLen <= least
  }

  /** The first deliverable number from from on; 0 when there is none. */
  function NextReady(groups: map<int, Group>, least: int, from: nat): int
    decreases U16 - from
  {
    if from >= U16 then 0 else if Deliverable(groups, least, from) then from else NextReady(groups, least, from + 1)
  }

  /** SearchForNextReadySeq. */
  function Search(d: Decoder, least: int, limit: int, now: int): (Decoder, int) {
    if d.readyNum == 0 then (Sweep(d, limit, now), 0) else (d, NextReady(d.groups, least, 0))
  }

  /** Every ready group has its packets, each at least as long as announced. */
  predicate GroupSound(g: Group) {
    g.ready ==>
      && 0 < |g.slots| == |g.lens|
      && forall i :: 0 <= i < |g.slots| ==> g.slots[i].Some? && g.lens[i] <= |g.slots[i].value|
  }

  predicate Sound(d: Decoder) {
    && (forall s :: s in d.groups ==> GroupSound(d.groups[s]))
    && (d.unit.lastSeq in d.groups && d.groups[d.unit.lastSeq].ready ==>
          d.unit.lastIndex < |d.groups[d.unit.lastSeq].slots|)
  }

  /** The cursor moves to the first packet of the group the search found. */
  function Turn(d: Decoder, s: int): (Decoder, int)
    requires Sound(d) && (s > 0 ==> s in d.groups && d.groups[s].ready)
  {
    if s <= 0 then (d, s) else (d.(unit := d.unit.(lastSeq := s, lastIndex := 0)), d.groups[s].lens[0])
  }

  lemma {:induction false} NextReadyIs(groups: map<int, Group>, least: int, from: nat)
    ensures NextReady(groups, least, from) > 0 ==> Deliverable(groups, least, NextReady(groups, least, from))
    decreases U16 - from
  {
    if from < U16 && !Deliverable(groups, least, from) {
      NextReadyIs(groups, least, from + 1);
    }
  }

  function SearchAndTurn(d: Decoder, least: int, limit: int, now: int): (Decoder, int)
    requires Sound(d)
  {
    NextReadyIs(d.groups, least, 0);
    var (e, s) := Search(d, least, limit, now);
    Turn(e, s)
  }

  /** Lines 153-169: one packet of the group under the cursor. */
  function Emit(d: Decoder, length: int, limit: int, now: int): (Decoder, int, Option<seq<Byte>>)
    requires Sound(d) && d.unit.lastSeq in d.groups && d.groups[d.unit.lastSeq].ready
    requires d.groups[d.unit.lastSeq].lens[d.unit.lastIndex] <= length
  {
    var s, i := d.unit.lastSeq, d.unit.lastIndex;
    var g := d.groups[s];
    var buf := g.slots[i].value[..g.lens[i]] + Zeros(length - g.lens[i]);
    if i + 1 == |g.slots| then
      var e := d.(groups := d.groups[s := g.(ready := false)], readyNum := d.readyNum - 1,
        unit := d.unit.(lastIndex := i + 1));
      var (f, ret) := SearchAndTurn(e, INT_MAX, limit, now);
      (f, ret, Some(buf))
    else (d.(unit := d.unit.(lastIndex := i + 1)), g.lens[i + 1], Some(buf))
  }

  /** The buffer is large enough for the packet under the cursor, as the caller
      has to see to. */
  predicate RoomFor(d: Decoder, length: int) {
    && length >= 0
    && (!d.unit.ready && d.unit.lastSeq in d.groups && d.groups[d.unit.lastSeq].ready ==>
          var g := d.groups[d.unit.lastSeq];
          d.unit.lastIndex < |g.lens| ==> g.lens[d.unit.lastIndex] <= length)
    && forall s :: s in d.groups && Deliverable(d.groups, length, s) && d.groups[s].lens != [] ==>
         d.groups[s].lens[0] <= length
  }

  /** Output: the new state, the return value, and the buffer if it was
      written. */
  function Output(d: Decoder, length: int, limit: int, now: int): (Decoder, int, Option<seq<Byte>>)
    requires Sound(d) && d.unit.lastSeq >= -1 && RoomFor(d, length)
  {
    if d.unit.ready then
      if length < |d.unit.data| then (d, -2, None)
      else
        var (e, ret) := SearchAndTurn(d.(unit := d.unit.(ready := false, data := [])), INT_MAX, limit, now);
        (e, ret, Some(d.unit.data + Zeros(length - |d.unit.data|)))
    else if d.readyNum == 0 then (Sweep(d, limit, now), -1, None)
    else if d.unit.lastSeq != -1 && d.unit.lastSeq in d.groups && d.groups[d.unit.lastSeq].ready then
      Emit(d, length, limit, now)
    else
      NextReadyIs(d.groups, length, 0);
      var s := NextReady(d.groups, length, 0);
      if s <= 0 then (d, s, None) else Emit(d.(unit := d.unit.(lastSeq := s, lastIndex := 0)), length, limit, now)
  }
}
