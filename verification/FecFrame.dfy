/** The packets of the FEC layer: an 11-byte big-endian header before each
    packet of a group, and a 4-byte reversed mark before unencoded data
    (fec_encode.cpp:55-90 and 141-145, fec_decode.cpp:38-54 and 116-126). */
module FecFrame {
  import opened Bytes
  import opened Linear
  import opened CodeTheory

  const UNIQUE: int := 0x12345678
  const HEAD := 11
  /** The first number seq never takes. */
  const SEQ_END := 65521

  function Header(seqNo: int, length: int, k: int, r: int, index: int): (b: seq<Byte>)
    requires 0 <= seqNo < U16 && 0 <= length < U16 && 0 <= k < 256 && 0 <= r < 256 && 0 <= index < 256
    ensures |b| == HEAD
  {
    Be32(UNIQUE) + Be16(seqNo) + Be16(length) + [k, r, index]
  }

  predicate Framed(b: seq<Byte>) {
    |b| >= HEAD && FromBe32(b[0..4]) == UNIQUE
  }

  function SeqOf(b: seq<Byte>): (s: int)
    requires |b| >= HEAD
    ensures 0 <= s < U16
  {
    FromBe16(b[4..6])
  }

  function LengthOf(b: seq<Byte>): (n: int)
    requires |b| >= HEAD
    ensures 0 <= n < U16
  {
    FromBe16(b[6..8])
  }

  /** A header read back. */
  lemma HeaderRoundTrip(seqNo: int, length: int, k: int, r: int, index: int, payload: seq<Byte>)
    requires 0 <= seqNo < U16 && 0 <= length < U16 && 0 <= k < 256 && 0 <= r < 256 && 0 <= index < 256
    ensures var b := Header(seqNo, length, k, r, index) + payload;
      Framed(b) && SeqOf(b) == seqNo && LengthOf(b) == length && b[8] == k && b[9] == r && b[10] == index
        && b[HEAD..] == payload
  {
    hide Be16, Be32, FromBe16, FromBe32;
    var b := Header(seqNo, length, k, r, index) + payload;
    assert b[0..4] == Be32(UNIQUE) && b[4..6] == Be16(seqNo) && b[6..8] == Be16(length);
    Le32RoundTrip(UNIQUE);
    Le16RoundTrip(seqNo);
    Le16RoundTrip(length);
  }

  /** The header byte by byte: the mark, the number and the length with the high
      byte first, then the counts and the index. */
  lemma HeaderLayout(seqNo: int, length: int, k: int, r: int, index: int)
    requires 0 <= seqNo < U16 && 0 <= length < U16 && 0 <= k < 256 && 0 <= r < 256 && 0 <= index < 256
    ensures var b := Header(seqNo, length, k, r, index);
      && b[..4] == [0x12, 0x34, 0x56, 0x78] && 256 * (b[4] as int) + b[5] == seqNo
      && 256 * (b[6] as int) + b[7] == length
      && b[8..] == [k, r, index]
  {
  }

  // ----- groups -----

  function MaxLen(batch: seq<seq<Byte>>): (n: nat)
    ensures forall i :: 0 <= i < |batch| ==> |batch[i]| <= n
    ensures batch != [] ==> exists i :: 0 <= i < |batch| && n == |batch[i]|
  {
    if batch == [] then 0
    else
      var l := |batch| - 1;
      var m := MaxLen(batch[..l]);
      assert forall i :: 0 <= i < l ==> batch[i] == batch[..l][i];
      if |batch[l]| > m then |batch[l]| else m
  }

  /** What the encoder accepts: k packets of 1 to 65535 bytes, at most 127 in
      the group. */
  predicate Batch(batch: seq<seq<Byte>>, r: nat) {
    0 < |batch| && |batch| + r <= 127 && forall i :: 0 <= i < |batch| ==> 0 < |batch[i]| < U16
  }

  function Padded(batch: seq<seq<Byte>>, size: nat): (d: seq<Vec>)
    requires forall i :: 0 <= i < |batch| ==> |batch[i]| <= size
    ensures |d| == |batch| && forall i :: 0 <= i < |d| ==> d[i] == batch[i] + Zeros(size - |batch[i]|) && |d[i]| == size
  {
    seq(|batch|, i requires 0 <= i < |batch| => batch[i] + Zeros(size - |batch[i]|))
  }

  lemma BatchSize(batch: seq<seq<Byte>>, r: nat)
    requires Batch(batch, r)
    ensures 0 < MaxLen(batch) < U16
  {
  }

  /** The payload of packet i of the group: the padded data, then symbols of
      its codeword. */
  ghost function Payload(batch: seq<seq<Byte>>, i: nat): (c: Vec)
    requires |batch| <= 256
    ensures |c| == MaxLen(batch)
    ensures i < |batch| ==> c == Padded(batch, MaxLen(batch))[i]
  {
    EncodePacket(Padded(batch, MaxLen(batch)), i, MaxLen(batch))
  }

  /** What the header of packet i says about its length. */
  function Announced(batch: seq<seq<Byte>>, i: nat): (n: nat)
    ensures n <= MaxLen(batch)
  {
    if i < |batch| then |batch[i]| else MaxLen(batch)
  }

  /** Packet i of the group as it goes over the network. */
  ghost function Frame(seqNo: int, batch: seq<seq<Byte>>, r: nat, i: nat): (b: seq<Byte>)
    requires 0 < seqNo < SEQ_END && Batch(batch, r) && i < |batch| + r
    ensures |b| == HEAD + MaxLen(batch)
  {
    BatchSize(batch, r);
    Header(seqNo, Announced(batch, i), |batch|, r, i + 1) + Payload(batch, i)
  }

  /** Everything one full batch becomes. */
  ghost function Frames(seqNo: int, batch: seq<seq<Byte>>, r: nat): (f: seq<seq<Byte>>)
    requires 0 < seqNo < SEQ_END && Batch(batch, r)
    ensures |f| == |batch| + r && forall i :: 0 <= i < |f| ==> f[i] == Frame(seqNo, batch, r, i)
  {
    seq(|batch| + r, i requires 0 <= i < |batch| + r => Frame(seqNo, batch, r, i))
  }

  /** A frame says where its payload belongs. */
  lemma FrameFields(seqNo: int, batch: seq<seq<Byte>>, r: nat, i: nat)
    requires 0 < seqNo < SEQ_END && Batch(batch, r) && i < |batch| + r
    ensures var b := Frame(seqNo, batch, r, i);
      && Framed(b) && SeqOf(b) == seqNo && LengthOf(b) == Announced(batch, i) && b[8] == |batch| && b[9] == r
      && b[10] == i + 1 && b[HEAD..] == Payload(batch, i)
      && (if i < |batch| then LengthOf(b) == |batch[i]| else LengthOf(b) == |b| - HEAD)
  {
    hide Header, MaxLen;
    BatchSize(batch, r);
    HeaderRoundTrip(seqNo, Announced(batch, i), |batch|, r, i + 1, Payload(batch, i));
  }

  // ----- unencoded data -----

  function Marked(payload: seq<Byte>): (b: seq<Byte>)
    ensures |b| == 4 + |payload|
  {
    Le32(UNIQUE) + payload
  }

  predicate Unframed(b: seq<Byte>) {
    |b| >= 4 && FromLe32(b[0..4]) == UNIQUE
  }

  /** Unencoded data is told apart from packets of a group. */
  lemma MarkedRoundTrip(payload: seq<Byte>)
    ensures Unframed(Marked(payload)) && FromBe32(Marked(payload)[0..4]) != UNIQUE && Marked(payload)[4..] == payload
    ensures Marked(payload) == [0x78, 0x56, 0x34, 0x12] + payload
  {
    var b := Marked(payload);
    assert b[0..4] == Le32(UNIQUE);
    Le32RoundTrip(UNIQUE);
  }
}
