/** fec_decode.cpp: collecting packets by sequence number, decoding a group as
    soon as k of it are there, and handing its packets out one by one. Every
    method is proved to take View() where FecModel says. */
module FecDecoder {
  import opened Bytes
  import opened Linear
  import opened CodeTheory
  import opened Codec
  import opened ReedSolomon
  import opened ErasureCode
  import opened Timeouts
  import opened FecFrame
  import opened FecModel

  class FecDecode {
    const limit: int
    const timeouts: TimeOutMap
    const table: CodeTable
    var groups: map<int, Group>
    var readyNum: int
    var unit: Unit

    ghost function View(): Decoder
      reads this, timeouts
    {
      Decoder(groups, readyNum, unit, timeouts.times)
    }

    ghost predicate Valid()
      reads this, timeouts
    {
      limit >= 0 && timeouts.limit == limit && timeouts.Valid() && unit.lastSeq >= -1
    }

    constructor (limit: int, table: CodeTable)
      requires limit >= 0
      ensures Valid() && View() == START && this.table == table && this.limit == limit && fresh(timeouts)
    {
      this.limit, this.table := limit, table;
      timeouts := new TimeOutMap(limit);
      groups, readyNum, unit := map[], 0, Unit(false, [], -1, 0);
    }

    // ----- clearing -----

    method RemoveSeqRespondData(s: int)
      requires Valid()
      modifies this`groups, timeouts
      ensures Valid() && groups == old(groups) - {s} && timeouts.times == old(timeouts.times) - {s}
    {
      var code := timeouts.Remove(s);
      groups := groups - {s};
    }

    method ClearTimeoutDatas(now: int)
      requires Valid()
      modifies this`groups, timeouts
      ensures Valid() && View() == Sweep(old(View()), limit, now)
    {
      hide Agree;
      var expired := timeouts.GetTimeOutElements(now);
      ghost var was := View();
      ghost var gone: set<int> := {};
      for i := 0 to |expired|
        invariant Valid() && groups == was.groups - gone && timeouts.times == was.times - gone
        invariant forall s :: s in gone <==> s in expired[..i] && Dropped(was, limit, now, s)
      {
        var s := expired[i];
        assert s in expired && expired[..i + 1] == expired[..i] + [s];
        if !(s in groups && groups[s].ready) {
          RemoveSeqRespondData(s);
          gone := gone + {s};
        }
      }
      assert expired[..|expired|] == expired;
      SweptMaps(was, limit, now, gone);
    }

    method SearchForNextReadySeq(least: int, now: int) returns (s: int)
      requires Valid()
      modifies this`groups, timeouts
      ensures Valid() && (View(), s) == Search(old(View()), least, limit, now)
    {
      hide Sweep, Agree;
      if readyNum == 0 {
        ClearTimeoutDatas(now);
        return 0;
      }
      for i := 0 to U16
        invariant NextReady(groups, least, 0) == NextReady(groups, least, i)
        modifies {}
      {
        if i in groups && groups[i].ready && groups[i].maxLen <= least {
          return i;
        }
      }
      return 0;
    }

    // ----- input -----

    method DealUnEncodeData(p: seq<Byte>) returns (ret: int)
      requires Valid() && |p| >= 4
      modifies this`unit
      ensures Valid() && (View(), ret) == TakeMarked(old(View()), p)
    {
      if FromLe32(p[0..4]) != UNIQUE {
        return -2;
      }
      unit := unit.(ready := true, data := p[4..]);
      return |p| - 4;
    }

    /** Lines 84-109: the group is decoded in a copy of its packets. */
    method DecodeGroup(g: Group, k: nat) returns (data: seq<Vec>)
      requires table.Valid() && 0 < k <= |g.slots| < 256 && |Arrived(g.slots)| == k
      requires forall i :: 0 <= i < |g.slots| && g.slots[i].Some? ==> |g.slots[i].value| == g.maxLen
      modifies table
      ensures table.Valid() && data == Restoration(g.slots, k, g.maxLen)
    {
      hide Positions, Survivors, DistinctSlots, Packets, Buffers, CodeTable.Valid, Restoration;
      var wait := Copies(g.slots);
      RestorationExists(g.slots, k, g.maxLen);
      ArrivedSurvive(g, k, wait);
      var code := table.Decode2(k, |g.slots|, wait, g.maxLen, Restoration(g.slots, k, g.maxLen));
      data := Unload(wait, k, g.maxLen);
    }

    method Input(p: seq<Byte>, now: int) returns (ret: int)
      requires Valid() && table.Valid() && UpTo(timeouts.times, now)
      requires DecoderOk(View()) && Addressed(View(), p)
      modifies this, timeouts, table
      ensures Valid() && table.Valid() && (View(), ret) == FecModel.Input(old(View()), p, limit, now)
    {
      hide Agree, FecModel.TakeFrame, TakeMarked, DecoderOk, Addressed, CodeTable.Valid;
      if |p| < 4 {
        return -1;
      }
      if FromBe32(p[0..4]) != UNIQUE {
        ret := DealUnEncodeData(p);
        return;
      }
      if |p| < HEAD {
        return -1;
      }
      if SignedByte(p[10]) == 0 || SignedByte(p[10]) > SignedByte(p[8]) + SignedByte(p[9]) {
        return -1;
      }
      ret := TakeFrame(p, now);
    }

    method TakeFrame(p: seq<Byte>, now: int) returns (ret: int)
      requires Valid() && table.Valid() && UpTo(timeouts.times, now) && Numbered(p)
      requires DecoderOk(View()) && Addressed(View(), p)
      modifies this, timeouts, table
      ensures Valid() && table.Valid() && (View(), ret) == FecModel.TakeFrame(old(View()), p, limit, now)
    {
      hide Agree, SeqOf, LengthOf, FromBe32, DecoderOk, Addressed, Known, FecModel.Collect, CodeTable.Valid;
      var s := SeqOf(p);
      if s in groups && !groups[s].ready && groups[s].cur >= groups[s].num {
        return 0;
      }
      if s in groups && groups[s].ready {
        return 1;
      }
      KnownFits(View(), p);
      ret := Collect(p, now);
    }

    /** Lines 62-113: the packet goes to its slot, and the k-th completes its
        group. */
    method Collect(p: seq<Byte>, now: int) returns (ret: int)
      requires Valid() && table.Valid() && UpTo(timeouts.times, now) && Numbered(p)
      requires DecoderOk(View()) && Addressed(View(), p) && !Closed(View(), SeqOf(p))
      modifies this, timeouts, table
      ensures Valid() && table.Valid() && (View(), ret) == FecModel.TakeFrame(old(View()), p, limit, now)
    {
      hide Agree, SeqOf, LengthOf, FromBe32, DecoderOk, Addressed, CodeTable.Valid, Tidy, Decoded, Restoration;
      KnownFits(View(), p);
      var s, k: nat, red, index: nat := SeqOf(p), SignedByte(p[8]), SignedByte(p[9]), SignedByte(p[10]) - 1;
      var length := |p| - HEAD;
      var g := if s in groups then groups[s] else EmptyGroup(k + red);
      g := g.(num := k, red := red, maxLen := if length > g.maxLen then length else g.maxLen);
      ghost var was := View();
      var code := timeouts.Add(s, now);
      if g.slots[index].Some? {
        groups := groups[s := g];
        return 0;
      }
      g := FecModel.Store(g, index, p[HEAD..], LengthOf(p));
      if g.cur >= k {
        NowComplete(was, p);
        Finish(s, g, k);
        return g.maxLen;
      }
      groups := groups[s := g];
      TidyUp(now);
      return 0;
    }

    method Finish(s: int, g: Group, k: nat)
      requires table.Valid() && 0 < k <= |g.slots| == |g.lens| < 256 && |Arrived(g.slots)| == k
      requires forall i :: 0 <= i < |g.slots| && g.slots[i].Some? ==> |g.slots[i].value| == g.maxLen
      modifies this`groups, this`readyNum, table
      ensures table.Valid() && readyNum == old(readyNum) + 1
      ensures groups == old(groups)[s := Decoded(g, k, Restoration(g.slots, k, g.maxLen))]
    {
      hide Decoded, Restoration, CodeTable.Valid;
      var data := DecodeGroup(g, k);
      groups := groups[s := Decoded(g, k, data)];
      readyNum := readyNum + 1;
    }

    method TidyUp(now: int)
      requires Valid()
      modifies this`groups, timeouts
      ensures Valid() && View() == Tidy(old(View()), limit, now)
    {
      hide Sweep, Agree;
      if |groups| > 50 {
        ClearTimeoutDatas(now);
      }
    }

    // ----- output -----

    /** Moving the cursor to the group the search found. */
    method NextGroup(now: int) returns (ret: int)
      requires Valid() && Sound(View())
      modifies this`groups, this`unit, timeouts
      ensures Valid() && (View(), ret) == SearchAndTurn(old(View()), INT_MAX, limit, now)
    {
      hide Sweep, Agree;
      NextReadyIs(groups, INT_MAX, 0);
      ret := SearchForNextReadySeq(INT_MAX, now);
      if ret <= 0 {
        return ret;
      }
      unit := unit.(lastSeq := ret, lastIndex := 0);
      return groups[ret].lens[0];
    }

    /** Lines 153-169. */
    method Emit(length: int, now: int) returns (ret: int, buf: Option<seq<Byte>>)
      requires Valid() && Sound(View()) && unit.lastSeq in groups && groups[unit.lastSeq].ready
      requires groups[unit.lastSeq].lens[unit.lastIndex] <= length
      modifies this`groups, this`unit, this`readyNum, timeouts
      ensures Valid() && (View(), ret, buf) == FecModel.Emit(old(View()), length, limit, now)
    {
      hide Sweep, Agree, SearchAndTurn, Zeros;
      var s, i := unit.lastSeq, unit.lastIndex;
      var g := groups[s];
      buf := Some(g.slots[i].value[..g.lens[i]] + Zeros(length - g.lens[i]));
      unit := unit.(lastIndex := i + 1);
      if i + 1 == |g.slots| {
        groups := groups[s := g.(ready := false)];
        readyNum := readyNum - 1;
        ret := NextGroup(now);
      } else {
        ret := g.lens[i + 1];
      }
    }

    method Output(length: int, now: int) returns (ret: int, buf: Option<seq<Byte>>)
      requires Valid() && Sound(View()) && RoomFor(View(), length)
      modifies this`groups, this`unit, this`readyNum, timeouts
      ensures Valid() && (View(), ret, buf) == FecModel.Output(old(View()), length, limit, now)
    {
      hide Sweep, Agree, SearchAndTurn, Zeros, FecModel.Emit;
      if unit.ready {
        if length < |unit.data| {
          return -2, None;
        }
        buf := Some(unit.data + Zeros(length - |unit.data|));
        unit := unit.(ready := false, data := []);
        ret := NextGroup(now);
        return;
      }
      if readyNum == 0 {
        ClearTimeoutDatas(now);
        return -1, None;
      }
      if unit.lastSeq != -1 && unit.lastSeq in groups && groups[unit.lastSeq].ready {
        ret, buf := Emit(length, now);
        return;
      }
      NextReadyIs(groups, length, 0);
      ret := SearchForNextReadySeq(length, now);
      if ret <= 0 {
        return ret, None;
      }
      unit := unit.(lastSeq := ret, lastIndex := 0);
      ret, buf := Emit(length, now);
    }
  }

  lemma SweptMaps(d: Decoder, limit: int, now: int, gone: set<int>)
    requires forall s :: s in gone <==> Expired(d.times, limit, now, s) && Dropped(d, limit, now, s)
    ensures Sweep(d, limit, now) == d.(groups := d.groups - gone, times := d.times - gone)
  {
  }

  /** Buffers of their own for the packets that arrived, null for the rest. */
  method Copies(slots: seq<Option<Vec>>) returns (a: array<Slot>)
    ensures fresh(a) && a.Length == |slots| && CopyOf(a[..], slots)
    ensures forall i :: 0 <= i < |slots| && a[i] != null ==> fresh(a[i])
  {
    a := new Slot[|slots|](_ => null);
    for i := 0 to |slots|
      invariant forall j :: 0 <= j < |slots| ==> (a[j] != null <==> j < i && slots[j].Some?)
      invariant forall j :: 0 <= j < i && a[j] != null ==> fresh(a[j]) && a[j][..] == slots[j].value
      invariant forall j, l :: 0 <= j < l < i && a[j] != null ==> a[j] != a[l]
      modifies a
    {
      if slots[i].Some? {
        var v := slots[i].value;
        var buffer := new Byte[|v|](b requires 0 <= b < |v| => v[b]);
        assert buffer[..] == v;
        a[i] := buffer;
      }
    }
  }

  ghost predicate CopyOf(a: seq<Slot>, slots: seq<Option<Vec>>)
    reads a
  {
    |a| == |slots|
    && (forall i :: 0 <= i < |a| ==>
      (a[i] != null <==> slots[i].Some?) && (a[i] != null ==> a[i][..] == slots[i].value))
    && forall i, j :: 0 <= i < j < |a| && a[i] != null ==> a[i] != a[j]
  }

  /** What has arrived of a group is a part of one codeword. */
  lemma ArrivedSurvive(g: Group, k: nat, a: array<Slot>)
    requires Restores(g.slots, k, g.maxLen, Restoration(g.slots, k, g.maxLen)) && CopyOf(a[..], g.slots)
    ensures DistinctSlots(a[..], g.maxLen) && Survivors(a[..], Restoration(g.slots, k, g.maxLen), g.maxLen)
    ensures |Arrived(g.slots)| <= |Positions(a[..])|
  {
    hide EncodePacket, Positions, Restoration;
    var s, size, data := a[..], g.maxLen, Restoration(g.slots, k, g.maxLen);
    forall i | 0 <= i < |s| && s[i] != null ensures s[i].Length == size && s[i][..size] == EncodePacket(data, i, size) {
      assert g.slots[i].value == EncodePacket(data, i, size);
      assert s[i][..size] == s[i][..];
    }
    forall i | i in Arrived(g.slots) ensures i in Positions(s) {
      PositionsComplete(s, i);
    }
    DistinctEntries(Arrived(g.slots), Positions(s));
  }

  /** The group that a packet completes. */
  lemma NowComplete(d: Decoder, p: seq<Byte>)
    requires DecoderOk(d) && Addressed(d, p) && Numbered(p) && !Closed(d, SeqOf(p))
    requires 0 < SlotsOf(p) && 0 < SignedByte(p[8])
    requires var g, i := Known(d, SeqOf(p), SlotsOf(p)), SignedByte(p[10]) - 1;
      0 <= i < |g.slots| == |g.lens| && g.slots[i].None? && g.cur + 1 >= SignedByte(p[8])
    ensures var g, i := Known(d, SeqOf(p), SlotsOf(p)), SignedByte(p[10]) - 1;
      var t := FecModel.Store(Noted(g, SignedByte(p[8]), SignedByte(p[9]), |p| - HEAD), i, p[HEAD..], LengthOf(p));
      && |Arrived(t.slots)| == SignedByte(p[8]) <= |t.slots| == |t.lens| < 256
      && forall j :: 0 <= j < |t.slots| && t.slots[j].Some? ==> |t.slots[j].value| == t.maxLen
  {
    hide LengthOf, FromBe32, Framed, SeqOf, Arrived;
    KnownFits(d, p);
    var g, i := Known(d, SeqOf(p), SlotsOf(p)), SignedByte(p[10]) - 1;
    assert Arrived(g.slots[i := Some(p[HEAD..])]) == Arrived(g.slots) + {i};
    if SeqOf(p) !in d.groups {
      EmptyOk(SlotsOf(p));
    }
  }
}
