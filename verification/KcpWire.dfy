/** What the datagrams of ikcp_flush look like to ikcp_input: every group of
    segments is read back exactly, whatever state the reader is in, and zero
    bytes behind a datagram change almost nothing. */
module KcpWire {
  import opened Bytes
  import opened KcpModel

  /** A segment as its receiver sees it: header fields cut to their width, and
      nothing of what the sender keeps to itself. */
  function OnWire(m: Mode, x: Seg): Seg {
    Seg(Wrap32(x.conv), x.cmd % 256, x.frg % 256, x.wnd % U16, Wrap32(x.ts), Norm(m, x.sn), Norm(m, x.una), x.data,
        0, 0, 0, 0)
  }

  function Arrivals(m: Mode, p: seq<Seg>): (r: seq<Seg>)
    ensures |r| == |p|
  {
    seq(|p|, i requires 0 <= i < |p| => OnWire(m, p[i]))
  }

  /** The loop of ikcp_input over segments instead of bytes. */
  function ReadAll(m: Mode, s: Kcb, f: Track, xs: seq<Seg>): Scan
    decreases |xs|
  {
    if xs == [] then Scan(s, f, 0) else ReadAll(m, ProcessSeg(m, s, xs[0]), TrackSeg(m, f, xs[0]), xs[1..])
  }

  /** ikcp_input over the segments of one datagram and z zero bytes behind it. */
  function ReadGroup(m: Mode, s: Kcb, xs: seq<Seg>, z: nat): Kcb {
    var r := ReadAll(m, s, Track(false, 0), xs);
    if z < OVERHEAD then InputFinish(m, r.s, s.snd.una, r.f) else r.s
  }

  /** The front of b is one segment that ikcp_input accepts. */
  predicate Leads(conv: int, b: seq<Byte>) {
    |b| >= OVERHEAD && Header(b).conv == conv && HeaderLen(b) <= |b| - OVERHEAD && Signed32(HeaderLen(b)) >= 0
    && KnownCmd(Header(b).cmd)
  }

  function Front(b: seq<Byte>): Seg
    requires |b| >= OVERHEAD && HeaderLen(b) <= |b| - OVERHEAD
  {
    Header(b).(data := b[OVERHEAD..OVERHEAD + HeaderLen(b)])
  }

  function Behind(b: seq<Byte>): (r: seq<Byte>)
    requires |b| >= OVERHEAD && HeaderLen(b) <= |b| - OVERHEAD
    ensures |r| < |b|
  {
    b[OVERHEAD + HeaderLen(b)..]
  }

  /** b is a sequence of whole segments of this conversation. */
  predicate WellFormed(conv: int, b: seq<Byte>)
    decreases |b|
  {
    b == [] || (Leads(conv, b) && WellFormed(conv, Behind(b)))
  }

  function Parse(conv: int, b: seq<Byte>): seq<Seg>
    requires WellFormed(conv, b)
    decreases |b|
  {
    if b == [] then [] else [Front(b)] + Parse(conv, Behind(b))
  }

  /** The value of four bytes, the lowest first. */
  function Le32At(b: seq<Byte>, i: nat): int
    requires i + 4 <= |b|
  {
    b[i] as int + 256 * b[i + 1] as int + 65536 * b[i + 2] as int + 16777216 * b[i + 3] as int
  }

  /** A segment byte by byte: every field at its place, the low byte first. */
  lemma EncodeLayout(x: Seg)
    ensures var b := Encode(x);
      && |b| == 24 + |x.data| && b[24..] == x.data
      && Le32At(b, 0) == Wrap32(x.conv) && b[4] == x.cmd % 256 && b[5] == x.frg % 256
      && b[6] as int + 256 * b[7] as int == x.wnd % 65536 && Le32At(b, 8) == Wrap32(x.ts)
      && Le32At(b, 12) == Wrap32(x.sn) && Le32At(b, 16) == Wrap32(x.una) && Le32At(b, 20) == Wrap32(|x.data|)
  {
    hide Wrap32, Le32, Le16;
    Wrapped();
    var b := Encode(x);
    assert b[0..4] == Le32(Wrap32(x.conv)) && b[6..8] == Le16(x.wnd % U16) && b[8..12] == Le32(Wrap32(x.ts));
    assert b[12..16] == Le32(Wrap32(x.sn)) && b[16..20] == Le32(Wrap32(x.una)) && b[20..24] == Le32(Wrap32(|x.data|));
    WordAt(b, 0, x.conv);
    WordAt(b, 8, x.ts);
    WordAt(b, 12, x.sn);
    WordAt(b, 16, x.una);
    WordAt(b, 20, |x.data|);
    HalfAt(b, x.wnd % U16);
  }

  lemma Wrapped()
    ensures forall w :: 0 <= Wrap32(w) < U32
  {
  }

  lemma WordAt(b: seq<Byte>, i: nat, w: int)
    requires i + 4 <= |b| && b[i..i + 4] == Le32(Wrap32(w))
    ensures Le32At(b, i) == Wrap32(w)
  {
    hide Wrap32, Le32;
    var k := WrapSplit(w);
    var c := b[i..i + 4];
    assert c[0] == b[i] && c[1] == b[i + 1] && c[2] == b[i + 2] && c[3] == b[i + 3];
    FourBytes(Wrap32(w));
  }

  lemma FourBytes(w: int)
    requires 0 <= w < U32
    ensures Le32At(Le32(w), 0) == w
  {
    var a, b := w / 256, w / 65536;
    assert w == 256 * a + w % 256;
    assert a / 256 == b && a == 256 * b + a % 256;
    assert b / 256 == w / 16777216 && b == 256 * (w / 16777216) + b % 256;
  }

  lemma HalfAt(b: seq<Byte>, w: int)
    requires |b| >= 8 && 0 <= w < U16 && b[6..8] == Le16(w)
    ensures b[6] as int + 256 * b[7] as int == w
  {
    assert b[6..8][0] == b[6] && b[6..8][1] == b[7];
  }

  // ----- reading -----

  /** Bytes behind the first segment do not change what it is. */
  lemma FrontOfLonger(conv: int, b: seq<Byte>, tail: seq<Byte>)
    requires Leads(conv, b)
    ensures Leads(conv, b + tail) && Front(b + tail) == Front(b) && Behind(b + tail) == Behind(b) + tail
  {
    hide FromLe16, FromLe32, Signed32;
    var c := b + tail;
    assert c[0..4] == b[0..4] && c[6..8] == b[6..8] && c[8..12] == b[8..12] && c[12..16] == b[12..16];
    assert c[16..20] == b[16..20] && c[20..24] == b[20..24];
    assert Header(c) == Header(b) && HeaderLen(c) == HeaderLen(b);
    assert c[OVERHEAD..OVERHEAD + HeaderLen(b)] == b[OVERHEAD..OVERHEAD + HeaderLen(b)];
  }

  /** The byte loop reads the segments of a well-formed datagram and goes on
      with whatever follows it. */
  lemma {:induction false} LoopReads(m: Mode, s: Kcb, f: Track, b: seq<Byte>, tail: seq<Byte>)
    requires WellFormed(s.cfg.conv, b)
    ensures var r := ReadAll(m, s, f, Parse(s.cfg.conv, b));
      r.code == 0 && r.s.cfg == s.cfg && InputLoop(m, s, f, b + tail) == InputLoop(m, r.s, r.f, tail)
    decreases |b|
  {
    hide Header, HeaderLen, Signed32, ProcessSeg, TrackSeg;
    if b == [] {
      assert b + tail == tail;
    } else {
      FrontOfLonger(s.cfg.conv, b, tail);
      SameConfig(m, s, Front(b));
      LoopReads(m, ProcessSeg(m, s, Front(b)), TrackSeg(m, f, Front(b)), Behind(b), tail);
    }
  }

  lemma SameConfig(m: Mode, s: Kcb, x: Seg)
    ensures ProcessSeg(m, s, x).cfg == s.cfg
  {
  }

  lemma LoopOverZeros(m: Mode, s: Kcb, f: Track, z: nat)
    requires s.cfg.conv != 0
    ensures InputLoop(m, s, f, Zeros(z)) == Scan(s, f, if z < OVERHEAD then 0 else -2)
  {
    if z >= OVERHEAD {
      assert Header(Zeros(z)).conv == FromLe32(Zeros(z)[0..4]) == 0;
    }
  }

  /** ikcp_input of a well-formed datagram with z zero bytes behind it. */
  lemma InputReads(m: Mode, s: Kcb, b: seq<Byte>, z: nat)
    requires s.cfg.conv != 0 && b != [] && WellFormed(s.cfg.conv, b) && |b| + z < I32
    ensures Input(m, s, b + Zeros(z)) == (ReadGroup(m, s, Parse(s.cfg.conv, b), z), if z < OVERHEAD then 0 else -2)
  {
    hide WellFormed, Parse, InputFinish, ReadAll, Zeros, InputLoop, Signed32;
    NotShort(s.cfg.conv, b);
    SignedSmall(|b + Zeros(z)|);
    LoopReads(m, s, Track(false, 0), b, Zeros(z));
    var r := ReadAll(m, s, Track(false, 0), Parse(s.cfg.conv, b));
    LoopOverZeros(m, r.s, r.f, z);
  }

  lemma NotShort(conv: int, b: seq<Byte>)
    requires WellFormed(conv, b) && b != []
    ensures |b| >= OVERHEAD
  {
  }

  /** Two segments that differ at most in how often they were skipped. */
  predicate SameButFastack(x: Seg, y: Seg) {
    x == y.(fastack := x.fastack)
  }

  predicate SameBufButFastack(p: seq<Seg>, q: seq<Seg>) {
    |p| == |q| && forall i :: 0 <= i < |p| ==> SameButFastack(p[i], q[i])
  }

  /** Zero padding is transparent: fewer than 24 bytes change nothing at all;
      more only skip the fast-ack and window-growth steps and turn the return
      code into -2. */
  lemma PaddingTransparent(m: Mode, s: Kcb, b: seq<Byte>, z: nat)
    requires s.cfg.conv != 0 && b != [] && WellFormed(s.cfg.conv, b) && |b| + z < I32
    ensures var (plain, code), (padded, code') := Input(m, s, b), Input(m, s, b + Zeros(z));
      code == 0
      && (z < OVERHEAD ==> padded == plain && code' == 0)
      && (z >= OVERHEAD ==> (
            code' == -2 && padded.cong == s.cong && SameBufButFastack(padded.snd.buf, plain.snd.buf)
            && padded == plain.(cong := padded.cong, snd := plain.snd.(buf := padded.snd.buf))))
  {
    hide WellFormed, Parse, ReadAll, Zeros, ParseFastack, GrowWindow, Input, Diff;
    InputReads(m, s, b, z);
    InputReads(m, s, b, 0);
    assert b + Zeros(0) == b by {
      assert Zeros(0) == [];
    }
    var xs := Parse(s.cfg.conv, b);
    var r := ReadAll(m, s, Track(false, 0), xs);
    CongestionKept(m, s, Track(false, 0), xs);
    FastackOnly(m, r.s.snd.buf, r.s.snd.una, r.s.snd.nxt, r.f.maxack);
  }

  lemma {:induction false} CongestionKept(m: Mode, s: Kcb, f: Track, xs: seq<Seg>)
    ensures ReadAll(m, s, f, xs).s.cong == s.cong
    decreases |xs|
  {
    hide TrackSeg, DropUna, DropAck, Accept, UpdateAck, Diff;
    if xs != [] {
      CongestionKept(m, ProcessSeg(m, s, xs[0]), TrackSeg(m, f, xs[0]), xs[1..]);
    }
  }

  lemma {:induction false} BumpOnly(m: Mode, buf: seq<Seg>, sn: int)
    ensures SameBufButFastack(BumpFastack(m, buf, sn), buf)
  {
    hide Diff;
    if buf != [] && Diff(m, sn, buf[0].sn) >= 0 {
      BumpOnly(m, buf[1..], sn);
    }
  }

  lemma FastackOnly(m: Mode, buf: seq<Seg>, una: int, nxt: int, sn: int)
    ensures SameBufButFastack(buf, buf) && SameBufButFastack(buf, ParseFastack(m, buf, una, nxt, sn))
  {
    BumpOnly(m, buf, sn);
  }

  // ----- writing -----

  /** A segment read back from its bytes. */
  lemma DecodeEncode(x: Seg, tail: seq<Byte>)
    requires |x.data| < I32 && KnownCmd(x.cmd)
    ensures var b := Encode(x) + tail;
      Leads(Wrap32(x.conv), b) && Front(b) == OnWire(Wrap, x) && Behind(b) == tail
  {
    hide Encode, Header, HeaderLen, Wrap32;
    var b := Encode(x);
    HeaderRoundTrip(x);
    SignedSmall(|x.data|);
    assert b[OVERHEAD..OVERHEAD + |x.data|] == x.data && b[OVERHEAD + |x.data|..] == [];
    FrontOfLonger(Wrap32(x.conv), b, tail);
    assert [] + tail == tail;
  }

  lemma HeaderRoundTrip(x: Seg)
    requires |x.data| < I32
    ensures Header(Encode(x)) == OnWire(Wrap, x).(data := []) && HeaderLen(Encode(x)) == |x.data|
    ensures Encode(x)[OVERHEAD..] == x.data
  {
    hide Le32, Le16, FromLe32, FromLe16, Wrap32;
    var b := Encode(x);
    var k := WrapSplit(x.conv);
    k := WrapSplit(x.ts);
    k := WrapSplit(x.sn);
    k := WrapSplit(x.una);
    WrapIs(|x.data|, 0, |x.data|);
    assert b[0..4] == Le32(Wrap32(x.conv)) && b[6..8] == Le16(x.wnd % U16) && b[8..12] == Le32(Wrap32(x.ts));
    assert b[12..16] == Le32(Wrap32(x.sn)) && b[16..20] == Le32(Wrap32(x.una)) && b[20..24] == Le32(Wrap32(|x.data|));
    Le32RoundTrip(Wrap32(x.conv));
    Le16RoundTrip(x.wnd % U16);
    Le32RoundTrip(Wrap32(x.ts));
    Le32RoundTrip(Wrap32(x.sn));
    Le32RoundTrip(Wrap32(x.una));
    Le32RoundTrip(Wrap32(|x.data|));
  }

  /** Segments ikcp_flush may emit on a conversation. */
  predicate Emittable(conv: int, p: seq<Seg>) {
    forall i :: 0 <= i < |p| ==> |p[i].data| < I32 && KnownCmd(p[i].cmd) && Wrap32(p[i].conv) == conv
  }

  lemma {:induction false} EncodeFront(x: Seg, p: seq<Seg>)
    ensures EncodeGroup([x] + p) == Encode(x) + EncodeGroup(p)
    decreases |p|
  {
    hide Encode;
    var q := [x] + p;
    if p == [] {
      assert q[..|q| - 1] == [];
      assert EncodeGroup(q) == [] + Encode(x);
    } else {
      var l := |p| - 1;
      EncodeFront(x, p[..l]);
      assert q[..|q| - 1] == [x] + p[..l];
      assert EncodeGroup(q) == (Encode(x) + EncodeGroup(p[..l])) + Encode(p[l]);
      assert EncodeGroup(q) == Encode(x) + (EncodeGroup(p[..l]) + Encode(p[l]));
    }
  }

  /** Parsing undoes encoding: the datagram holds exactly the segments of the
      group, in order. */
  lemma {:induction false} GroupRoundTrip(conv: int, p: seq<Seg>)
    requires Emittable(conv, p)
    ensures WellFormed(conv, EncodeGroup(p)) && Parse(conv, EncodeGroup(p)) == Arrivals(Wrap, p)
    decreases |p|
  {
    hide Encode, Leads, Front, Behind;
    if p != [] {
      EncodeFront(p[0], p[1..]);
      assert [p[0]] + p[1..] == p;
      DecodeEncode(p[0], EncodeGroup(p[1..]));
      GroupRoundTrip(conv, p[1..]);
      assert [OnWire(Wrap, p[0])] + Arrivals(Wrap, p[1..]) == Arrivals(Wrap, p);
    }
  }

  // ----- packets -----

  function Flatten(ps: seq<seq<Seg>>): seq<Seg> {
    if ps == [] then [] else Flatten(ps[..|ps| - 1]) + ps[|ps| - 1]
  }

  lemma FlattenLast(ps: seq<seq<Seg>>, p: seq<Seg>)
    ensures Flatten(ps + [p]) == Flatten(ps) + p
  {
    assert (ps + [p])[..|ps|] == ps;
  }

  predicate Small(mtu: int, p: seq<Seg>) {
    p != [] && GroupLen(p) <= mtu
  }

  predicate AllSmall(mtu: int, ps: seq<seq<Seg>>) {
    forall i :: 0 <= i < |ps| ==> Small(mtu, ps[i])
  }

  /** What has been cut and what waits in the buffer are xs, within the mtu. */
  predicate Holds(mtu: int, c: Cut, xs: seq<Seg>) {
    Flatten(c.out) + c.cur == xs && AllSmall(mtu, c.out) && (c.cur == [] || Small(mtu, c.cur))
  }

  lemma AppendKeeps(mtu: int, c: Cut, xs: seq<Seg>, x: Seg)
    requires Holds(mtu, c, xs) && WireLen(x) <= mtu
    ensures Holds(mtu, Append(mtu, c, x), xs + [x])
  {
    hide AllSmall, WireLen;
    FlattenLast(c.out, c.cur);
    if GroupLen(c.cur) + WireLen(x) > mtu {
      EmitSmall(mtu, c);
      OneLen([], x);
    } else {
      OneLen(c.cur, x);
      assert Flatten(c.out) + (c.cur + [x]) == (Flatten(c.out) + c.cur) + [x];
    }
  }

  lemma EmitSmall(mtu: int, c: Cut)
    requires AllSmall(mtu, c.out) && (c.cur == [] || Small(mtu, c.cur))
    ensures AllSmall(mtu, Emit(c)) && Flatten(Emit(c)) == Flatten(c.out) + c.cur
  {
    FlattenLast(c.out, c.cur);
  }

  lemma OneLen(p: seq<Seg>, x: Seg)
    ensures GroupLen(p + [x]) == GroupLen(p) + WireLen(x) && GroupLen([]) == 0
  {
    assert (p + [x])[..|p|] == p;
  }

  lemma {:induction false} CutKeeps(mtu: int, xs: seq<Seg>)
    requires forall i :: 0 <= i < |xs| ==> WireLen(xs[i]) <= mtu
    ensures Holds(mtu, AppendAll(mtu, Cut([], []), xs), xs)
  {
    hide Append, Holds, WireLen;
    if xs == [] {
      StartsEmpty(mtu);
    } else {
      var l := |xs| - 1;
      CutKeeps(mtu, xs[..l]);
      AppendKeeps(mtu, AppendAll(mtu, Cut([], []), xs[..l]), xs[..l], xs[l]);
      assert xs == xs[..l] + [xs[l]];
    }
  }

  lemma StartsEmpty(mtu: int)
    ensures Holds(mtu, Cut([], []), [])
  {
  }

  /** Cutting into datagrams loses nothing, reorders nothing, and respects the
      mtu. */
  lemma PacketsKeep(mtu: int, xs: seq<Seg>)
    requires forall i :: 0 <= i < |xs| ==> WireLen(xs[i]) <= mtu
    ensures Flatten(Packets(mtu, xs)) == xs && AllSmall(mtu, Packets(mtu, xs))
  {
    hide AppendAll, AllSmall;
    CutKeeps(mtu, xs);
    EmitSmall(mtu, AppendAll(mtu, Cut([], []), xs));
  }

  /** The segments a pass over snd_buf sends: those due, in their order. */
  function DueSegs(st: Stamp, p: Pace, buf: seq<Seg>): seq<Seg> {
    if buf == [] then []
    else
      var x := buf[|buf| - 1];
      DueSegs(st, p, buf[..|buf| - 1]) + if WhySend(p, x) == Keep then [] else [Resend(st, p, x)]
  }

  lemma {:induction false} SweepSendsDue(st: Stamp, p: Pace, buf: seq<Seg>)
    ensures SweepAll(st, p, buf).sent == DueSegs(st, p, buf)
    ensures forall i :: 0 <= i < |buf| ==> SweepAll(st, p, buf).buf[i] == Resend(st, p, buf[i])
  {
    hide WhySend, Resend;
    if buf != [] {
      SweepSendsDue(st, p, buf[..|buf| - 1]);
    }
  }
}
