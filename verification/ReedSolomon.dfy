/** rs.c: encoding and decoding a whole group of packets, where a null slot
    marks a lost packet, and the cache of codes. */
module ReedSolomon {
  import opened Linear
  import opened CodeTheory
  import opened Codec

  /** The k data packets followed by the redundant ones. */
  ghost function Codeword(data: seq<Vec>, n: nat, sz: nat): (c: seq<Vec>)
    requires |data| <= 256 && forall i :: 0 <= i < |data| ==> |data[i]| == sz
    ensures |c| == n && forall i :: 0 <= i < n ==> c[i] == EncodePacket(data, i, sz)
  {
    seq(n, i requires 0 <= i => EncodePacket(data, i, sz))
  }

  /** One call of fec_encode inside a group changes that packet only. */
  method EncodeInto(code: Code, data: array<Slot>, i: nat, size: nat)
    requires code.Valid() && code.n <= data.Length && Buffers(data[..code.n], size)
    requires code.k <= i < code.n && code.k <= 256
    modifies data[i]
    ensures code.Valid() && Buffers(data[..code.n], size)
    ensures var d := old(Packets(data[..code.n], size));
      Packets(data[..code.n], size) == d[i := EncodePacket(d[..code.k], i, size)]
  {
    hide EncodePacket, Code.Valid;
    ghost var slots, k := data[..code.n], code.k;
    ghost var d := Packets(slots, size);
    forall j | 0 <= j < |slots| && j != i ensures slots[j] != slots[i] {
      if j < i { assert slots[j] != slots[i]; } else { assert slots[i] != slots[j]; }
    }
    assert data[..k] == slots[..k];
    assert Packets(slots[..k], size) == d[..k];
    FecEncode(code, data, data[i], i, size);
    assert Packets(slots, size) == d[i := EncodePacket(d[..k], i, size)];
  }

  /** rs_encode: fills the redundant buffers so that the group is the codeword
      of its own data packets. */
  method RsEncode(code: Code, data: array<Slot>, size: nat)
    requires code.Valid() && code.n <= data.Length && Buffers(data[..code.n], size)
    requires code.k <= code.n <= 256
    modifies data[code.k..code.n]
    ensures code.Valid() && Buffers(data[..code.n], size)
    ensures Packets(data[..code.n], size) == Codeword(old(Packets(data[..code.n], size))[..code.k], code.n, size)
  {
    hide EncodePacket, Packets, Code.Valid, Buffers, Codeword, Encoded;
    var k, n := code.k, code.n;
    ghost var d := Packets(data[..n], size)[..k];
    ghost var tail := data[k..n];
    NoneEncoded(Packets(data[..n], size), k, size);
    for i := k to n
      invariant code.Valid() && Buffers(data[..n], size) && Encoded(Packets(data[..n], size), d, i, size)
      modifies tail
    {
      assert tail[i - k] == data[i];
      OneEncoded(Packets(data[..n], size), d, i, size);
      EncodeInto(code, data, i, size);
    }
    IsCodeword(Packets(data[..n], size), d, n, size);
  }

  /** p begins with d and its symbols, up to packet i. */
  ghost predicate Encoded(p: seq<Vec>, d: seq<Vec>, i: nat, size: nat) {
    && |d| <= i <= |p| && SameSize(d, size) && p[..|d|] == d
    && forall j :: |d| <= j < i ==> p[j] == EncodePacket(d, j, size)
  }

  lemma NoneEncoded(p: seq<Vec>, k: nat, size: nat)
    requires k <= |p| && k <= 256 && forall j :: 0 <= j < |p| ==> |p[j]| == size
    ensures Encoded(p, p[..k], k, size)
  {
  }

  lemma OneEncoded(p: seq<Vec>, d: seq<Vec>, i: nat, size: nat)
    requires Encoded(p, d, i, size) && i < |p|
    ensures SameSize(d, size) && p[..|d|] == d && Encoded(p[i := EncodePacket(d, i, size)], d, i + 1, size)
  {
    hide EncodePacket;
    assert p[i := EncodePacket(d, i, size)][..|d|] == d;
  }

  /** Data in front and its symbols behind it are the codeword. */
  lemma IsCodeword(p: seq<Vec>, d: seq<Vec>, n: nat, size: nat)
    requires |p| == n && Encoded(p, d, n, size)
    ensures SameSize(d, size) && p == Codeword(d, n, size)
  {
    hide EncodePacket;
    forall j | 0 <= j < |d| ensures p[j] == EncodePacket(d, j, size) {
      assert d[j] == p[..|d|][j];
    }
  }

  // ----- compaction -----

  /** The positions of the packets that arrived, in ascending order. */
  ghost function Positions(s: seq<Slot>): (r: seq<nat>)
    ensures |r| <= |s|
  {
    if s == [] then []
    else
      var r := Positions(s[..|s| - 1]);
      if s[|s| - 1] != null then r + [|s| - 1] else r
  }

  lemma {:induction false} PositionsShape(s: seq<Slot>)
    ensures forall i :: 0 <= i < |Positions(s)| ==> i <= Positions(s)[i] < |s| && s[Positions(s)[i]] != null
    ensures forall i, j :: 0 <= i < j < |Positions(s)| ==> Positions(s)[i] < Positions(s)[j]
  {
    if s != [] {
      PositionsShape(s[..|s| - 1]);
    }
  }

  lemma {:induction false} PositionsComplete(s: seq<Slot>, p: nat)
    requires p < |s| && s[p] != null
    ensures p in Positions(s)
  {
    if p < |s| - 1 {
      PositionsComplete(s[..|s| - 1], p);
    } else {
      var r := Positions(s[..|s| - 1]);
      assert Positions(s)[|r|] == p;
    }
  }

  /** The arrived packets moved to the front, the rest null. */
  ghost function Compacted(s: seq<Slot>): (c: seq<Slot>)
    ensures |c| == |s|
  {
    PositionsShape(s);
    seq(|s|, i requires 0 <= i < |s| => if i < |Positions(s)| then s[Positions(s)[i]] else null)
  }

  /** The same buffers (and the same number of null slots) in some order. */
  ghost predicate SameBuffers(a: seq<Slot>, b: seq<Slot>) {
    multiset(a) == multiset(b)
  }

  lemma SameBuffersSelf(a: seq<Slot>)
    ensures SameBuffers(a, a)
  {
  }

  lemma CompactedStep(s: seq<Slot>)
    requires s != []
    ensures var t, x := s[..|s| - 1], s[|s| - 1];
      var c, m := Compacted(t), |Positions(t)|;
      Compacted(s) == if x != null then c[..m] + [x] + c[m..] else c + [x]
  {
    var t := s[..|s| - 1];
    PositionsShape(t);
    PositionsShape(s);
  }

  lemma InsertMultiset(c: seq<Slot>, m: nat, x: Slot)
    requires m <= |c|
    ensures multiset(c[..m] + [x] + c[m..]) == multiset(c) + multiset{x}
  {
    assert c == c[..m] + c[m..];
  }

  /** No buffer is lost or duplicated by compaction. */
  lemma {:induction false} CompactedKeepsBuffers(s: seq<Slot>)
    ensures SameBuffers(Compacted(s), s)
  {
    hide Compacted, Positions;
    if s != [] {
      var t, x := s[..|s| - 1], s[|s| - 1];
      CompactedKeepsBuffers(t);
      CompactedStep(s);
      InsertMultiset(Compacted(t), |Positions(t)|, x);
      assert s == t + [x];
    }
  }

  /** Lines 27-44: too few packets leave the slots alone. */
  method Compact(data: array<Slot>, k: nat, n: nat) returns (enough: bool, index: array<nat>)
    requires n == data.Length
    modifies data
    ensures enough <==> |Positions(old(data[..]))| >= k
    ensures !enough ==> data[..] == old(data[..])
    ensures fresh(index) && index.Length == n
    ensures enough ==> data[..] == Compacted(old(data[..]))
    ensures index[..|Positions(old(data[..]))|] == Positions(old(data[..]))
  {
    ghost var s := data[..];
    index := new nat[n](_ => 0);
    var count := 0;
    for i := 0 to n
      invariant count == |Positions(s[..i])| <= i && index[..count] == Positions(s[..i])
      modifies index
    {
      assert s[..i + 1][..i] == s[..i];
      if data[i] != null {
        index[count] := i;
        count := count + 1;
      }
    }
    assert s[..n] == s;
    if count < k {
      return false, index;
    }
    ghost var r := Positions(s);
    PositionsShape(s);
    assert forall i :: 0 <= i < count ==> index[i] == r[i];
    for i := 0 to n
      invariant forall j :: 0 <= j < i ==> data[j] == Compacted(s)[j]
      invariant forall j :: i <= j < n ==> data[j] == s[j]
      modifies data
    {
      if i < count {
        data[i] := data[index[i]];
      } else {
        data[i] := null;
      }
    }
    return true, index;
  }

  /** Each packet that arrived is the one rs_encode made for its position. */
  ghost predicate Survivors(slots: seq<Slot>, data: seq<Vec>, size: nat)
    reads slots
  {
    |data| <= 256 && (forall i :: 0 <= i < |data| ==> |data[i]| == size)
    && forall i :: 0 <= i < |slots| && slots[i] != null ==>
         slots[i].Length >= size && slots[i][..size] == EncodePacket(data, i, size)
  }

  ghost predicate DistinctSlots(slots: seq<Slot>, size: nat) {
    (forall i :: 0 <= i < |slots| && slots[i] != null ==> slots[i].Length >= size)
    && forall i, j :: 0 <= i < j < |slots| && slots[i] != null ==> slots[i] != slots[j]
  }

  lemma CompactedBuffers(s: seq<Slot>, k: nat, size: nat)
    requires DistinctSlots(s, size) && k <= |Positions(s)|
    ensures Buffers(Compacted(s)[..k], size)
    ensures forall o :: o in Compacted(s)[..k] ==> o in s
  {
    var c, r := Compacted(s)[..k], Positions(s);
    PositionsShape(s);
    forall i, j | 0 <= i < j < k ensures c[i] != c[j] {
      assert c[i] == s[r[i]] && c[j] == s[r[j]] && r[i] < r[j];
    }
  }

  lemma CompactedEncodings(s: seq<Slot>, k: nat, data: seq<Vec>, size: nat)
    requires DistinctSlots(s, size) && |data| == k <= |Positions(s)| && Survivors(s, data, size)
    requires Buffers(Compacted(s)[..k], size)
    ensures EncodingsOf(Packets(Compacted(s)[..k], size), Positions(s)[..k], data, size)
  {
    hide EncodePacket;
    PositionsShape(s);
    var c, r := Compacted(s)[..k], Positions(s);
    forall i | 0 <= i < k ensures Packets(c, size)[i] == EncodePacket(data, r[i], size) {
      assert c[i] == s[r[i]];
    }
  }

  /** Line 45: fec_decode on the compacted slots. */
  method DecodeCompacted(
    code: Code, data: array<Slot>, index: array<nat>, size: nat, ghost s: seq<Slot>, ghost orig: seq<Vec>)
      returns (result: int)
    requires code.Valid() && code.n == data.Length == |s| == index.Length && code.k <= |Positions(s)|
    requires data[..] == Compacted(s) && index[..|Positions(s)|] == Positions(s) && DistinctSlots(s, size)
    requires |orig| == code.k
    modifies data, index, data[..code.k]
    ensures result == 0
    ensures SameBuffers(data[..], s)
    ensures Buffers(data[..code.k], size)
    ensures old(Survivors(s, orig, size)) ==> Packets(data[..code.k], size) == orig
  {
    hide EncodingsOf, Survivors, Packets, Compacted, Positions, Decodable, DistinctSlots, Code.Valid;
    var k := code.k;
    ghost var r := Positions(s);
    CompactedBuffers(s, k, size);
    assert data[..k] == Compacted(s)[..k];
    if Survivors(s, orig, size) {
      CompactedEncodings(s, k, orig, size);
    }
    assert index[..][..k] == r[..k] by {
      assert index[..|r|][..k] == index[..k];
    }
    PositionsDecodable(s, k, code.n);
    result := FecDecode(code, data, index, size, orig);
    CompactedKeepsBuffers(s);
  }

  /** rs_decode. With fewer than k packets nothing happens and -1 is returned.
      Otherwise it returns 0, any k or more packets of a codeword give back the
      data in order, and the slots hold the same buffers as before. */
  method RsDecode(code: Code, data: array<Slot>, size: nat, ghost orig: seq<Vec>) returns (result: int)
    requires code.Valid() && code.n == data.Length && DistinctSlots(data[..], size)
    requires |orig| == code.k
    modifies data, data[..]
    ensures result == if |Positions(old(data[..]))| < code.k then -1 else 0
    ensures result == -1 ==> data[..] == old(data[..])
    ensures result == -1 ==> forall i :: 0 <= i < code.n && data[i] != null ==> data[i][..] == old(data[i][..])
    ensures SameBuffers(data[..], old(data[..]))
    ensures result == 0 ==> Buffers(data[..code.k], size)
    ensures result == 0 && old(Survivors(data[..], orig, size)) ==> Packets(data[..code.k], size) == orig
  {
    hide Survivors, Packets, Compacted, Positions, DistinctSlots, Code.Valid, Buffers, SameBuffers;
    ghost var s := data[..];
    assert code.k <= code.n by { ValidCode(code); }
    var enough, index := Compact(data, code.k, code.n);
    if !enough {
      SameBuffersSelf(s);
      return -1;
    }
    CompactedBuffers(s, code.k, size);
    ghost var c := data[..code.k];
    assert c == Compacted(s)[..code.k];
    forall i | 0 <= i < code.k ensures data[i] in s {
      assert data[i] == c[i];
    }
    result := DecodeCompacted(code, data, index, size, s, orig);
  }

  lemma ValidCode(code: Code)
    requires code.Valid()
    ensures 0 < code.k <= code.n <= 256
  {
  }

  lemma PositionsDecodable(s: seq<Slot>, k: nat, n: nat)
    requires k <= |Positions(s)| && |s| == n
    ensures Decodable(Positions(s)[..k], n)
  {
    PositionsShape(s);
    var x := Positions(s)[..k];
    forall i, j | 0 <= i < j < k ensures x[i] != x[j] {
      assert Positions(s)[i] < Positions(s)[j];
    }
  }
}
