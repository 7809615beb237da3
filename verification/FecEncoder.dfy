/** fec_encode.cpp: collecting a batch of packets, then padding, encoding and
    framing it. */
module FecEncoder {
  import opened Bytes
  import opened Linear
  import opened CodeTheory
  import opened ReedSolomon
  import opened ErasureCode
  import opened FecFrame

  /** Lines 101-104. */
  function NextSeq(seqNo: int): int {
    if seqNo + 1 >= SEQ_END then 1 else seqNo + 1
  }

  function Repeated<T>(n: nat, x: T): (s: seq<T>)
    ensures |s| == n
  {
    seq(n, _ => x)
  }

  /** Each payload of the batch behind its header, not yet padded. */
  predicate Collected(pkgs: seq<seq<Byte>>, lengths: seq<int>, seqNo: int, batch: seq<seq<Byte>>, k: nat, r: nat)
    requires 0 < seqNo < SEQ_END && |batch| <= k && k + r <= 127
  {
    && |batch| <= |pkgs| == |lengths|
    && (forall i :: 0 <= i < |batch| ==> 0 < |batch[i]| < U16)
    && forall i :: 0 <= i < |batch| ==>
         pkgs[i] == Header(seqNo, |batch[i]|, k, r, i + 1) + batch[i] && lengths[i] == |pkgs[i]|
  }

  class FecEncode {
    const k: nat
    const r: nat
    const table: CodeTable
    var seqNo: int
    var cur: nat
    var maxLen: nat
    var ready: bool
    var pkgs: seq<seq<Byte>>
    var lengths: seq<int>
    /** The payloads accepted since the last Output or flush. */
    ghost var batch: seq<seq<Byte>>

    ghost predicate Valid()
      reads this
    {
      && 0 < k && k + r <= 127 && 0 < seqNo < SEQ_END && |pkgs| == |lengths| == k + r
      && cur == |batch| <= k && (cur > 0 ==> maxLen == MaxLen(batch))
      && (cur == k ==> ready) && (cur < k ==> Collected(pkgs, lengths, seqNo, batch, k, r))
    }

    /** first is the random initial number, which the generator draws again
        while it is 0; from SEQ_END on it is replaced by 1. */
    constructor (k: nat, r: nat, first: int, table: CodeTable)
      requires 0 < k && k + r <= 127 && 0 < first < U16
      ensures Valid() && this.k == k && this.r == r && this.table == table && batch == [] && !ready
      ensures seqNo == if first < SEQ_END then first else 1
    {
      this.k, this.r, this.table := k, r, table;
      seqNo := if first >= SEQ_END then 1 else first;
      cur, maxLen, ready := 0, 0, false;
      pkgs, lengths := Repeated(k + r, []), Repeated(k + r, 0);
      batch := [];
    }

    method Input(p: seq<Byte>) returns (code: int)
      requires Valid() && table.Valid()
      modifies this, table
      ensures Valid() && table.Valid()
      ensures var full, bad := |old(batch)| == k, |p| == 0 || |p| >= U16;
        code == (if full then -1 else if bad then -2 else if |old(batch)| + 1 == k then 1 else 0)
        && batch == (if full || bad then old(batch) else old(batch) + [p])
        && seqNo == (if code == 1 then NextSeq(old(seqNo)) else old(seqNo))
      ensures code < 0 ==> pkgs == old(pkgs) && lengths == old(lengths) && ready == old(ready)
      ensures code == 0 ==> (ready <==> old(ready) && old(batch) != [])
      ensures code == 1 ==> ready && Batch(batch, r) && pkgs == Frames(old(seqNo), batch, r)
      ensures code == 1 ==> lengths == Repeated(k + r, HEAD + MaxLen(batch))
    {
      hide MaxLen, Frames, Collected, Batch, Repeated;
      if cur == k {
        return -1;
      }
      if |p| <= 0 || |p| > 65535 {
        return -2;
      }
      if cur == 0 {
        ready := false;
        maxLen := 0;
        pkgs, lengths := Repeated(k + r, []), Repeated(k + r, 0);
        NothingCollected(pkgs, lengths, seqNo, k, r);
      }
      Store(p);
      if cur == k {
        Seal();
        return 1;
      }
      return 0;
    }

    /** Lines 54-67. */
    method Store(p: seq<Byte>)
      requires 0 < k && k + r <= 127 && 0 < seqNo < SEQ_END && |pkgs| == |lengths| == k + r && 0 < |p| < U16
      requires cur == |batch| < k && maxLen == MaxLen(batch) && Collected(pkgs, lengths, seqNo, batch, k, r)
      modifies this`cur, this`batch, this`pkgs, this`lengths, this`maxLen
      ensures batch == old(batch) + [p] && cur == |batch| && |pkgs| == |lengths| == k + r
      ensures maxLen == MaxLen(batch) && Collected(pkgs, lengths, seqNo, batch, k, r)
    {
      hide MaxLen, Collected;
      MaxLenMore(batch, p);
      CollectedMore(pkgs, lengths, seqNo, batch, k, r, p);
      maxLen := if |p| > maxLen then |p| else maxLen;
      pkgs := pkgs[cur := Header(seqNo, |p|, k, r, cur + 1) + p];
      lengths := lengths[cur := HEAD + |p|];
      batch := batch + [p];
      cur := cur + 1;
    }

    /** Lines 68-105: the batch is padded to its longest packet and encoded; the
        headers are not part of what is encoded. */
    method Seal()
      requires table.Valid() && 0 < k == |batch| && k + r <= 127 && 0 < seqNo < SEQ_END
      requires maxLen == MaxLen(batch) && Collected(pkgs, lengths, seqNo, batch, k, r)
      modifies this`pkgs, this`lengths, this`ready, this`seqNo, table
      ensures table.Valid() && Batch(batch, r) && pkgs == Frames(old(seqNo), batch, r)
      ensures lengths == Repeated(k + r, HEAD + maxLen) && ready && seqNo == NextSeq(old(seqNo))
    {
      hide MaxLen, Collected, Batch, Padded, Frames, Codeword, Repeated, CodeTable.Valid;
      CollectedBatch(pkgs, lengths, seqNo, batch, k, r);
      var data := PadAll(pkgs, k, maxLen, seqNo, lengths, batch, r);
      var coded := table.Encode2(k, k + r, data, maxLen);
      pkgs := FrameAll(pkgs, coded, k, r, seqNo, maxLen, lengths, batch);
      lengths := Repeated(k + r, HEAD + maxLen);
      ready := true;
      seqNo := if seqNo + 1 >= SEQ_END then 1 else seqNo + 1;
    }

    /** Hands out the frames of the last full batch and starts a new one. */
    method Output() returns (code: int, out: seq<seq<Byte>>, sizes: seq<int>)
      requires Valid()
      modifies this`cur, this`batch
      ensures Valid()
      ensures if ready then code == 0 && out == pkgs && sizes == lengths && batch == []
        else code == -1 && batch == old(batch)
    {
      if !ready {
        return -1, [], [];
      }
      cur := 0;
      batch := [];
      return 0, pkgs, lengths;
    }

    /** An unfinished batch as it is: each payload behind the reversed mark. */
    method FlushUnEncodedData() returns (code: int, out: seq<seq<Byte>>, sizes: seq<int>)
      requires Valid()
      modifies this`cur, this`batch, this`pkgs
      ensures Valid()
      ensures |old(batch)| == k ==> code == -1 && batch == old(batch)
      ensures |old(batch)| < k ==> code == 0 && batch == [] && |out| == |sizes| == |old(batch)|
      ensures |old(batch)| < k ==> forall i :: 0 <= i < |out| ==>
        out[i] == Marked(old(batch)[i]) && sizes[i] == |out[i]|
    {
      hide MaxLen, Header, Marked;
      if cur == k {
        return -1, [], [];
      }
      out, sizes := [], [];
      var offset := HEAD - 4;
      ghost var was := pkgs;
      for i := 0 to cur
        invariant |out| == |sizes| == i && |pkgs| == k + r
        invariant forall j :: 0 <= j < i ==> out[j] == Marked(batch[j]) && sizes[j] == |out[j]|
        invariant forall j :: i <= j < cur ==> pkgs[j] == was[j]
        modifies this`pkgs
      {
        var marked := MarkPayload(pkgs[i], offset, seqNo, k, r, i, batch[i]);
        pkgs := pkgs[i := marked];
        out := out + [pkgs[i][offset..]];
        sizes := sizes + [lengths[i] - HEAD + 4];
      }
      cur := 0;
      batch := [];
      return 0, out, sizes;
    }
  }

  /** Overwrites the last four header bytes with the reversed mark. */
  method MarkPayload(
    pkg: seq<Byte>, offset: nat, ghost seqNo: int, ghost k: nat, ghost r: nat, ghost i: nat, ghost payload: seq<Byte>)
      returns (marked: seq<Byte>)
    requires 0 <= seqNo < U16 && |payload| < U16 && k + r <= 127 && i < k && offset == HEAD - 4
    requires pkg == Header(seqNo, |payload|, k, r, i + 1) + payload
    ensures |marked| == |pkg| && marked[offset..] == Marked(payload)
  {
    HeaderRoundTrip(seqNo, |payload|, k, r, i + 1, payload);
    marked := pkg[..offset] + Le32(UNIQUE) + pkg[HEAD..];
    assert marked[offset..] == Le32(UNIQUE) + payload;
  }

  /** Lines 71-79: the payloads of the batch, zero-padded to one length. */
  method PadAll(
    pkgs: seq<seq<Byte>>, k: nat, maxLen: nat, ghost seqNo: int, ghost lengths: seq<int>, ghost batch: seq<seq<Byte>>,
    ghost r: nat)
      returns (data: seq<Vec>)
    requires 0 < seqNo < SEQ_END && k == |batch| && k + r <= 127 && Collected(pkgs, lengths, seqNo, batch, k, r)
    requires maxLen == MaxLen(batch)
    ensures data == Padded(batch, maxLen)
  {
    hide MaxLen, Header;
    data := [];
    for i := 0 to k
      invariant |data| == i && forall j :: 0 <= j < i ==> data[j] == Padded(batch, maxLen)[j]
    {
      HeaderRoundTrip(seqNo, |batch[i]|, k, r, i + 1, batch[i]);
      var payload := pkgs[i][HEAD..];
      data := data + [payload + Zeros(maxLen - |payload|)];
    }
  }

  /** Lines 80-99: headers before the coded payloads. */
  method FrameAll(
    pkgs: seq<seq<Byte>>, coded: seq<Vec>, k: nat, r: nat, seqNo: int, maxLen: nat, ghost lengths: seq<int>,
    ghost batch: seq<seq<Byte>>)
      returns (out: seq<seq<Byte>>)
    requires 0 < seqNo < SEQ_END && k == |batch| && Batch(batch, r) && Collected(pkgs, lengths, seqNo, batch, k, r)
    requires maxLen == MaxLen(batch) && coded == Codeword(Padded(batch, maxLen), k + r, maxLen)
    ensures out == Frames(seqNo, batch, r)
  {
    hide MaxLen, Collected, Frame, Codeword, Padded;
    BatchSize(batch, r);
    out := [];
    for i := 0 to k + r
      invariant |out| == i && forall j :: 0 <= j < i ==> out[j] == Frame(seqNo, batch, r, j)
    {
      FrameParts(pkgs, coded, seqNo, batch, k, r, lengths, i);
      var head := if i < k then pkgs[i][..HEAD] else Header(seqNo, maxLen, k, r, i + 1);
      out := out + [head + coded[i]];
    }
  }

  lemma FrameParts(
    pkgs: seq<seq<Byte>>, coded: seq<Vec>, seqNo: int, batch: seq<seq<Byte>>, k: nat, r: nat, lengths: seq<int>,
    i: nat)
    requires 0 < seqNo < SEQ_END && k == |batch| && Batch(batch, r) && Collected(pkgs, lengths, seqNo, batch, k, r)
    requires coded == Codeword(Padded(batch, MaxLen(batch)), k + r, MaxLen(batch)) && i < k + r
    ensures MaxLen(batch) < U16 && |coded| == k + r && (i < k ==> i < |pkgs| && |pkgs[i]| >= HEAD)
    ensures Frame(seqNo, batch, r, i) ==
      (if i < k then pkgs[i][..HEAD] else Header(seqNo, MaxLen(batch), k, r, i + 1)) + coded[i]
  {
    hide MaxLen, EncodePacket, Header;
    BatchSize(batch, r);
    if i < k {
      assert pkgs[i][..HEAD] == Header(seqNo, |batch[i]|, k, r, i + 1);
    }
  }

  lemma NothingCollected(pkgs: seq<seq<Byte>>, lengths: seq<int>, seqNo: int, k: nat, r: nat)
    requires 0 < seqNo < SEQ_END && k + r <= 127 && |pkgs| == |lengths|
    ensures Collected(pkgs, lengths, seqNo, [], k, r) && MaxLen([]) == 0
  {
  }

  lemma CollectedMore(
    pkgs: seq<seq<Byte>>, lengths: seq<int>, seqNo: int, batch: seq<seq<Byte>>, k: nat, r: nat, p: seq<Byte>)
    requires 0 < seqNo < SEQ_END && |batch| < k && k + r <= 127 && |pkgs| == k + r && 0 < |p| < U16
    requires Collected(pkgs, lengths, seqNo, batch, k, r)
    ensures var i := |batch|;
      Collected(pkgs[i := Header(seqNo, |p|, k, r, i + 1) + p], lengths[i := HEAD + |p|], seqNo, batch + [p], k, r)
  {
    hide Header;
  }

  lemma CollectedBatch(pkgs: seq<seq<Byte>>, lengths: seq<int>, seqNo: int, batch: seq<seq<Byte>>, k: nat, r: nat)
    requires 0 < seqNo < SEQ_END && 0 < |batch| <= k && k + r <= 127 && Collected(pkgs, lengths, seqNo, batch, k, r)
    ensures Batch(batch, r)
  {
    hide Header;
  }

  lemma MaxLenMore(batch: seq<seq<Byte>>, p: seq<Byte>)
    ensures MaxLen(batch + [p]) == if |p| > MaxLen(batch) then |p| else MaxLen(batch)
    ensures MaxLen([]) == 0
  {
    assert (batch + [p])[..|batch|] == batch;
  }
}
