/** The encoder on values, and what that of an endpoint has sent: every k datagrams it accepted, in
    order, are one batch, and every frame belongs to one of these batches. */
module FecSealed {
  import opened Bytes
  import opened FecFrame
  import opened FecEncoder

  /** The frames of every batch that n payloads complete, and what is left over
      for the next one. */
  datatype Outbox = Outbox(frames: seq<seq<Byte>>, seqNo: int, batch: seq<seq<Byte>>)

  /** A payload the encoder takes. */
  predicate Fits(p: seq<Byte>) {
    0 < |p| < U16
  }

  ghost predicate OutboxOk(o: Outbox, k: nat, r: nat) {
    0 < k && k + r <= 127 && 0 < o.seqNo < SEQ_END && |o.batch| < k
      && forall i :: 0 <= i < |o.batch| ==> Fits(o.batch[i])
  }

  ghost function Offer(o: Outbox, k: nat, r: nat, p: seq<Byte>): (v: Outbox)
    requires OutboxOk(o, k, r)
    ensures OutboxOk(v, k, r)
  {
    if !Fits(p) then o
    else if |o.batch| + 1 < k then o.(batch := o.batch + [p])
    else Outbox(o.frames + Frames(o.seqNo, o.batch + [p], r), NextSeq(o.seqNo), [])
  }

  ghost function OfferAll(o: Outbox, k: nat, r: nat, ps: seq<seq<Byte>>): (v: Outbox)
    requires OutboxOk(o, k, r)
    ensures OutboxOk(v, k, r)
    decreases |ps|
  {
    if ps == [] then o else Offer(OfferAll(o, k, r, ps[..|ps| - 1]), k, r, ps[|ps| - 1])
  }

  /** The numbers of data and redundant packets, and the first sequence number
      drawn. */
  datatype Coding = Coding(k: nat, r: nat, first: int)

  predicate CodingOk(c: Coding) {
    0 < c.k && c.k + c.r <= 127 && 0 < c.first < U16
  }

  // ----- the datagrams the encoder takes -----

  /** Where in out they are. */
  function Places(out: seq<seq<Byte>>): (ps: seq<nat>)
    ensures forall m :: 0 <= m < |ps| ==> ps[m] < |out| && Fits(out[ps[m]])
  {
    if out == [] then []
    else
      var l := |out| - 1;
      Places(out[..l]) + (if Fits(out[l]) then [l] else [])
  }

  function Accepted(out: seq<seq<Byte>>): (ps: seq<seq<Byte>>)
    ensures |ps| == |Places(out)| && forall m :: 0 <= m < |ps| ==> ps[m] == out[Places(out)[m]] && Fits(ps[m])
  {
    seq(|Places(out)|, m requires 0 <= m < |Places(out)| => out[Places(out)[m]])
  }

  lemma AcceptedMore(out: seq<seq<Byte>>, p: seq<Byte>)
    ensures Accepted(out + [p]) == Accepted(out) + (if Fits(p) then [p] else [])
  {
    assert (out + [p])[..|out|] == out;
  }

  // ----- batches and their frames -----

  /** There are payloads enough for batch g. */
  predicate Full(ps: seq<seq<Byte>>, k: nat, g: nat) {
    g * k + k <= |ps|
  }

  /** Batch g of the payloads. */
  function Chunk(ps: seq<seq<Byte>>, k: nat, g: nat): (batch: seq<seq<Byte>>)
    requires Full(ps, k, g)
    ensures |batch| == k
  {
    ps[g * k..g * k + k]
  }

  /** The sequence number of batch g. */
  function NumberOf(first: int, g: nat): (s: int)
    requires 0 < first < U16
    ensures 0 < s < SEQ_END
  {
    if g == 0 then if first < SEQ_END then first else 1 else NextSeq(NumberOf(first, g - 1))
  }

  lemma ChunkBatch(ps: seq<seq<Byte>>, c: Coding, g: nat)
    requires CodingOk(c) && Full(ps, c.k, g) && forall m :: 0 <= m < |ps| ==> Fits(ps[m])
    ensures Batch(Chunk(ps, c.k, g), c.r)
  {
  }

  lemma ChunkMore(ps: seq<seq<Byte>>, qs: seq<seq<Byte>>, k: nat, g: nat)
    requires Full(ps, k, g)
    ensures Full(ps + qs, k, g) && Chunk(ps + qs, k, g) == Chunk(ps, k, g)
  {
  }

  /** b is frame i of batch g. */
  ghost predicate FrameOf(ps: seq<seq<Byte>>, c: Coding, g: nat, i: nat, b: seq<Byte>) {
    && CodingOk(c) && Full(ps, c.k, g) && i < c.k + c.r && Batch(Chunk(ps, c.k, g), c.r)
    && b == Frame(NumberOf(c.first, g), Chunk(ps, c.k, g), c.r, i)
  }

  /** Which batch frame j belongs to, and where in it. */
  function BatchOf(c: Coding, j: nat): nat
    requires CodingOk(c)
  {
    j / (c.k + c.r)
  }

  function IndexOf(c: Coding, j: nat): (i: nat)
    requires CodingOk(c)
    ensures i < c.k + c.r
  {
    j % (c.k + c.r)
  }

  /** The first full batches of the payloads have been sent, in order. */
  ghost predicate SentBatches(frames: seq<seq<Byte>>, ps: seq<seq<Byte>>, c: Coding, full: nat) {
    && CodingOk(c) && |frames| == full * (c.k + c.r)
    && forall j :: 0 <= j < |frames| ==> FrameOf(ps, c, BatchOf(c, j), IndexOf(c, j), frames[j])
  }

  /** The outbox after the payloads ps: full batches sent, the rest kept. */
  ghost predicate Boxed(o: Outbox, ps: seq<seq<Byte>>, c: Coding, full: nat) {
    && CodingOk(c) && OutboxOk(o, c.k, c.r) && o.seqNo == NumberOf(c.first, full)
    && full * c.k <= |ps| && o.batch == ps[full * c.k..]
    && SentBatches(o.frames, ps, c, full) && forall m :: 0 <= m < |ps| ==> Fits(ps[m])
  }

  lemma FrameOfMore(ps: seq<seq<Byte>>, qs: seq<seq<Byte>>, c: Coding, g: nat, i: nat, b: seq<Byte>)
    requires FrameOf(ps, c, g, i, b)
    ensures FrameOf(ps + qs, c, g, i, b)
  {
    hide Frame, Batch, NumberOf;
    ChunkMore(ps, qs, c.k, g);
  }

  lemma SentMore(frames: seq<seq<Byte>>, ps: seq<seq<Byte>>, qs: seq<seq<Byte>>, c: Coding, full: nat)
    requires CodingOk(c) && SentBatches(frames, ps, c, full)
    ensures SentBatches(frames, ps + qs, c, full)
  {
    hide FrameOf, BatchOf, IndexOf;
    forall j | 0 <= j < |frames| ensures FrameOf(ps + qs, c, BatchOf(c, j), IndexOf(c, j), frames[j]) {
      FrameOfMore(ps, qs, c, BatchOf(c, j), IndexOf(c, j), frames[j]);
    }
  }

  lemma DivMod(full: nat, n: nat, i: nat)
    requires i < n
    ensures (full * n + i) / n == full && (full * n + i) % n == i
  {
    var x := full * n + i;
    var q := x / n;
    assert x == q * n + x % n;
    if q < full {
      Turns(q, full, n);
    } else if q > full {
      Turns(full, q, n);
    }
  }

  lemma Turns(a: nat, b: nat, n: nat)
    requires a < b
    ensures a * n + n <= b * n
  {
    Multiples(a + 1, b, n);
    assert (a + 1) * n == a * n + n;
  }

  lemma Multiples(a: nat, b: nat, n: nat)
    requires a <= b
    ensures a * n <= b * n
  {
  }

  /** One more batch. */
  lemma SealMore(frames: seq<seq<Byte>>, ps: seq<seq<Byte>>, c: Coding, full: nat)
    requires CodingOk(c) && SentBatches(frames, ps, c, full) && |ps| == full * c.k + c.k
    requires Full(ps, c.k, full) && Batch(Chunk(ps, c.k, full), c.r)
    ensures SentBatches(frames + Frames(NumberOf(c.first, full), Chunk(ps, c.k, full), c.r), ps, c, full + 1)
  {
    hide Frame, Batch, NumberOf, Chunk, Full;
    var n := c.k + c.r;
    var more := Frames(NumberOf(c.first, full), Chunk(ps, c.k, full), c.r);
    var all := frames + more;
    assert (full + 1) * n == full * n + n;
    forall j | 0 <= j < |all| ensures FrameOf(ps, c, BatchOf(c, j), IndexOf(c, j), all[j]) {
      if j >= |frames| {
        DivMod(full, n, j - |frames|);
      }
    }
  }

  /** A payload offered to the encoder. */
  lemma OfferBoxed(o: Outbox, ps: seq<seq<Byte>>, c: Coding, full: nat, p: seq<Byte>) returns (more: nat)
    requires Boxed(o, ps, c, full)
    ensures Boxed(Offer(o, c.k, c.r, p), ps + (if Fits(p) then [p] else []), c, more)
  {
    hide SentBatches, Batch, Frames;
    more := full;
    if !Fits(p) {
      assert ps + [] == ps;
    } else {
      SentMore(o.frames, ps, [p], c, full);
      if |o.batch| + 1 == c.k {
        more := full + 1;
        assert (full + 1) * c.k == full * c.k + c.k;
        ChunkBatch(ps + [p], c, full);
        assert Chunk(ps + [p], c.k, full) == o.batch + [p];
        SealMore(o.frames, ps + [p], c, full);
      }
    }
  }

  /** Every batch the encoder of an endpoint makes consists of datagrams of its
      own output, in order. */
  lemma {:induction false} OfferAllBoxed(o: Outbox, out: seq<seq<Byte>>, c: Coding, full: nat, qs: seq<seq<Byte>>)
      returns (more: nat)
    requires Boxed(o, Accepted(out), c, full)
    ensures Boxed(OfferAll(o, c.k, c.r, qs), Accepted(out + qs), c, more)
    decreases |qs|
  {
    hide Boxed, Offer, Accepted;
    BoxedOk(o, Accepted(out), c, full);
    if qs == [] {
      assert out + [] == out;
      return full;
    }
    var l := |qs| - 1;
    more := OfferAllBoxed(o, out, c, full, qs[..l]);
    BoxedOk(OfferAll(o, c.k, c.r, qs[..l]), Accepted(out + qs[..l]), c, more);
    AcceptedMore(out + qs[..l], qs[l]);
    assert (out + qs[..l]) + [qs[l]] == out + qs;
    more := OfferBoxed(OfferAll(o, c.k, c.r, qs[..l]), Accepted(out + qs[..l]), c, more, qs[l]);
  }

  lemma BoxedOk(o: Outbox, ps: seq<seq<Byte>>, c: Coding, full: nat)
    requires Boxed(o, ps, c, full)
    ensures OutboxOk(o, c.k, c.r)
  {
  }

  // ----- numbers coming back -----

  /** How many numbers there are. */
  const PERIOD := 65520

  lemma {:induction false} NumberIs(first: int, g: nat)
    requires 0 < first < U16
    ensures NumberOf(first, g) == (NumberOf(first, 0) - 1 + g) % PERIOD + 1
  {
    if g > 0 {
      NumberIs(first, g - 1);
    }
  }

  /** Two batches share a number exactly if they are a multiple of 65520 apart. */
  lemma NumbersRepeat(first: int, g: nat, h: nat)
    requires 0 < first < U16
    ensures NumberOf(first, g) == NumberOf(first, h) <==> (g - h) % PERIOD == 0
  {
    hide NumberOf;
    NumberIs(first, g);
    NumberIs(first, h);
    SameRemainder(NumberOf(first, 0) - 1 + g, NumberOf(first, 0) - 1 + h);
  }

  lemma SameRemainder(x: int, y: int)
    ensures x % 65520 == y % 65520 <==> (x - y) % 65520 == 0
  {
    var j, k, q := x / 65520, y / 65520, (x - y) / 65520;
    assert x == 65520 * j + x % 65520 && y == 65520 * k + y % 65520;
    assert x - y == 65520 * q + (x - y) % 65520;
  }

  /** Fewer than 65521 batches have different numbers. */
  lemma FewNumbers(ps: seq<seq<Byte>>, c: Coding, g: nat, h: nat)
    requires CodingOk(c) && |ps| < SEQ_END * c.k && Full(ps, c.k, g) && Full(ps, c.k, h)
    requires NumberOf(c.first, g) == NumberOf(c.first, h)
    ensures g == h
  {
    hide NumberOf;
    NumbersRepeat(c.first, g, h);
    Below(g, c.k, ps);
    Below(h, c.k, ps);
  }

  lemma Below(g: nat, k: nat, ps: seq<seq<Byte>>)
    requires k > 0 && |ps| < SEQ_END * k && Full(ps, k, g)
    ensures g < PERIOD
  {
    if g >= PERIOD {
      Multiples(PERIOD, g, k);
    }
  }
}
