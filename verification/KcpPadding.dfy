/** KCP fed with zero-padded datagrams: one after the other they leave the same
    state as without the zeros, except for the congestion window and the skip
    counts of segments in flight. */
module KcpPadding {
  import opened Bytes
  import opened KcpModel
  import opened KcpWire
  import opened KcpEndpoint

  /** Equal but for cwnd, incr, ssthresh and the fastack counts. */
  predicate SameButPace(s: Kcb, t: Kcb) {
    t == s.(cong := t.cong, snd := s.snd.(buf := t.snd.buf)) && SameBufButFastack(s.snd.buf, t.snd.buf)
  }

  lemma {:induction false} ParseUnaSame(m: Mode, p: seq<Seg>, q: seq<Seg>, una: int)
    requires SameBufButFastack(p, q)
    ensures SameBufButFastack(ParseUna(m, p, una), ParseUna(m, q, una))
    decreases |p|
  {
    hide Diff;
    if p != [] {
      assert SameButFastack(p[0], q[0]);
      ParseUnaSame(m, p[1..], q[1..], una);
    }
  }

  lemma {:induction false} RemoveSnSame(m: Mode, p: seq<Seg>, q: seq<Seg>, sn: int)
    requires SameBufButFastack(p, q)
    ensures SameBufButFastack(RemoveSn(m, p, sn), RemoveSn(m, q, sn))
    decreases |p|
  {
    hide Diff;
    if p != [] {
      assert SameButFastack(p[0], q[0]);
      RemoveSnSame(m, p[1..], q[1..], sn);
    }
  }

  lemma ShrinkSame(p: seq<Seg>, q: seq<Seg>, nxt: int)
    requires SameBufButFastack(p, q)
    ensures ShrinkBuf(p, nxt) == ShrinkBuf(q, nxt)
  {
    if p != [] {
      assert SameButFastack(p[0], q[0]);
    }
  }

  lemma ProcessSegSame(m: Mode, s: Kcb, t: Kcb, x: Seg)
    requires SameButPace(s, t)
    ensures SameButPace(ProcessSeg(m, s, x), ProcessSeg(m, t, x))
  {
    hide Diff, ParseUna, RemoveSn, ShrinkBuf, Accept, UpdateAck, SameBufButFastack;
    var p, q := ParseUna(m, s.snd.buf, x.una), ParseUna(m, t.snd.buf, x.una);
    ParseUnaSame(m, s.snd.buf, t.snd.buf, x.una);
    ShrinkSame(p, q, s.snd.nxt);
    RemoveSnSame(m, p, q, x.sn);
    ShrinkSame(RemoveSn(m, p, x.sn), RemoveSn(m, q, x.sn), s.snd.nxt);
  }

  lemma {:induction false} InputLoopSame(m: Mode, s: Kcb, t: Kcb, f: Track, b: seq<Byte>)
    requires SameButPace(s, t)
    ensures var (r, u) := (InputLoop(m, s, f, b), InputLoop(m, t, f, b));
      SameButPace(r.s, u.s) && r.f == u.f && r.code == u.code
    decreases |b|
  {
    hide ProcessSeg, TrackSeg, Header, HeaderLen, Signed32, SameBufButFastack;
    if |b| >= OVERHEAD && HeaderLen(b) <= |b| - OVERHEAD {
      var x := Header(b).(data := b[OVERHEAD..OVERHEAD + HeaderLen(b)]);
      ProcessSegSame(m, s, t, x);
      InputLoopSame(m, ProcessSeg(m, s, x), ProcessSeg(m, t, x), TrackSeg(m, f, x), b[OVERHEAD + HeaderLen(b)..]);
    }
  }

  lemma SameTwice(p: seq<Seg>, q: seq<Seg>, r: seq<Seg>)
    requires SameBufButFastack(p, q) && SameBufButFastack(q, r)
    ensures SameBufButFastack(p, r)
  {
    forall i | 0 <= i < |p| ensures SameButFastack(p[i], r[i]) {
      assert SameButFastack(p[i], q[i]) && SameButFastack(q[i], r[i]);
    }
  }

  lemma SameBack(p: seq<Seg>, q: seq<Seg>)
    requires SameBufButFastack(p, q)
    ensures SameBufButFastack(q, p)
  {
    forall i | 0 <= i < |p| ensures SameButFastack(q[i], p[i]) {
      assert SameButFastack(p[i], q[i]);
    }
  }

  lemma FinishSame(m: Mode, s: Kcb, t: Kcb, prevUna: int, f: Track)
    requires SameButPace(s, t)
    ensures SameButPace(InputFinish(m, s, prevUna, f), InputFinish(m, t, prevUna, f))
  {
    hide SameBufButFastack, ParseFastack, GrowWindow, Diff;
    var p, q := s.snd.buf, t.snd.buf;
    var p', q' := ParseFastack(m, p, s.snd.una, s.snd.nxt, f.maxack),
      ParseFastack(m, q, s.snd.una, s.snd.nxt, f.maxack);
    FastackOnly(m, p, s.snd.una, s.snd.nxt, f.maxack);
    FastackOnly(m, q, s.snd.una, s.snd.nxt, f.maxack);
    SameBack(p, p');
    SameTwice(p', p, q);
    SameTwice(p', q, q');
  }

  /** ikcp_input cannot tell two such states apart. */
  lemma InputSame(m: Mode, s: Kcb, t: Kcb, b: seq<Byte>)
    requires SameButPace(s, t)
    ensures SameButPace(Input(m, s, b).0, Input(m, t, b).0) && Input(m, s, b).1 == Input(m, t, b).1
  {
    hide InputLoop, InputFinish, SameBufButFastack, Signed32;
    InputLoopSame(m, s, t, Track(false, 0), b);
    var r, u := InputLoop(m, s, Track(false, 0), b), InputLoop(m, t, Track(false, 0), b);
    FinishSame(m, r.s, u.s, s.snd.una, r.f);
  }

  lemma PaceTwice(s: Kcb, t: Kcb, u: Kcb)
    requires SameButPace(s, t) && SameButPace(t, u)
    ensures SameButPace(s, u)
  {
    hide SameBufButFastack;
    SameTwice(s.snd.buf, t.snd.buf, u.snd.buf);
  }

  /** Reading the padded datagram in one state and the plain one in another. */
  lemma PaddedSame(m: Mode, s: Kcb, t: Kcb, b: seq<Byte>, z: nat)
    requires SameButPace(s, t) && s.cfg.conv != 0 && b != [] && WellFormed(s.cfg.conv, b) && |b| + z < I32
    ensures SameButPace(Input(m, s, b).0, Input(m, t, b + Zeros(z)).0)
  {
    hide Input, WellFormed, SameBufButFastack, Zeros;
    InputSame(m, s, t, b);
    PaddingTransparent(m, t, b, z);
    var plain, padded := Input(m, t, b).0, Input(m, t, b + Zeros(z)).0;
    SameSelf(plain.snd.buf);
    if z >= OVERHEAD {
      SameBack(padded.snd.buf, plain.snd.buf);
    }
    PaceTwice(Input(m, s, b).0, plain, padded);
  }

  lemma SameSelf(p: seq<Seg>)
    ensures SameBufButFastack(p, p)
  {
  }

  // ----- many datagrams -----

  /** ikcp_input on datagrams one after the other. */
  function InputAll(k: Kcb, ps: seq<seq<Byte>>): Kcb {
    if ps == [] then k else Input(Wrap, InputAll(k, ps[..|ps| - 1]), ps[|ps| - 1]).0
  }

  /** ps with zeros behind every datagram. */
  predicate PaddedForm(ps: seq<seq<Byte>>, qs: seq<seq<Byte>>) {
    |ps| == |qs| && forall i :: 0 <= i < |ps| ==> |ps[i]| <= |qs[i]| < I32 && qs[i] == ps[i] + Zeros(|qs[i]| - |ps[i]|)
  }

  lemma {:induction false} InputAllConfig(k: Kcb, ps: seq<seq<Byte>>)
    ensures InputAll(k, ps).cfg == k.cfg
  {
    hide InputLoop, Signed32, ParseFastack, GrowWindow;
    if ps != [] {
      var l := |ps| - 1;
      InputAllConfig(k, ps[..l]);
      InputLoopConfig(Wrap, InputAll(k, ps[..l]), Track(false, 0), ps[l]);
    }
  }

  /** Any number of well-formed datagrams, each padded by any number of zero
      bytes, leave the same queues, numbers, acknowledgements, RTT and probes as
      without the padding. */
  lemma {:induction false} PaddingNeverMatters(k: Kcb, ps: seq<seq<Byte>>, qs: seq<seq<Byte>>)
    requires k.cfg.conv != 0 && PaddedForm(ps, qs)
    requires forall i :: 0 <= i < |ps| ==> ps[i] != [] && WellFormed(k.cfg.conv, ps[i])
    ensures SameButPace(InputAll(k, ps), InputAll(k, qs))
  {
    hide Input, WellFormed, SameBufButFastack, Zeros;
    if ps == [] {
      SameSelf(k.snd.buf);
    } else {
      var l := |ps| - 1;
      PaddingNeverMatters(k, ps[..l], qs[..l]);
      InputAllConfig(k, ps[..l]);
      PaddedSame(Wrap, InputAll(k, ps[..l]), InputAll(k, qs[..l]), ps[l], |qs[l]| - |ps[l]|);
    }
  }
}
