/** The datagrams of one ikcp_flush, read back: the pending acknowledgements,
    then the probes, then the due segments, in order and within the mtu. */
module KcpPackets {
  import opened Bytes
  import opened KcpModel
  import opened KcpSender
  import opened KcpEndpoint
  import opened KcpWire
  import opened KcpTiming

  /** Everything one flush has to send. */
  function Outgoing(m: Mode, s: Kcb): seq<Seg> {
    var st, p := StampOf(s), ProbeTimer(s.probe, s.rmtWnd, s.clock.current);
    AckSegs(st, s.acklist) + ProbeSegs(st, p, LastAck(s.acklist)) + DueSegs(st, PaceOf(s), Filled(m, s))
  }

  predicate Sendable(c: Settings, xs: seq<Seg>) {
    forall x :: x in xs ==> |x.data| <= c.mss && x.conv == c.conv && KnownCmd(x.cmd)
  }

  lemma {:induction false} DueSendable(c: Settings, st: Stamp, p: Pace, buf: seq<Seg>)
    requires BufOk(c, buf)
    ensures Sendable(c, DueSegs(st, p, buf))
  {
    hide WhySend, Wrap32, Paced;
    if buf != [] {
      DueSendable(c, st, p, buf[..|buf| - 1]);
      assert SegOk(c, buf[|buf| - 1]);
    }
  }

  lemma OutgoingSendable(m: Mode, s: Kcb)
    requires BlockOk(m, s)
    ensures Sendable(s.cfg, Outgoing(m, s))
  {
    hide SegOk, BufOk, FillBuf, SendWindow, DueSegs, ProbeTimer, PaceOf;
    FilledOk(m, s);
    DueSendable(s.cfg, StampOf(s), PaceOf(s), Filled(m, s));
  }

  /** What a flush sends, packet by packet, is Outgoing cut at the mtu. */
  lemma FlushSends(m: Mode, s: Kcb)
    requires BlockOk(m, s) && s.clock.updated
    ensures Flatten(Flush(m, s).1) == Outgoing(m, s) && AllSmall(s.cfg.mtu, Flush(m, s).1)
  {
    hide FillBuf, SendWindow, DueSegs, ProbeTimer, PaceOf, SweepAll, AckSegs, ProbeSegs, AfterLoss, Packets, AllSmall,
      StampOf, LastAck;
    OutgoingSendable(m, s);
    SweepSendsDue(StampOf(s), PaceOf(s), Filled(m, s));
    forall i | 0 <= i < |Outgoing(m, s)| ensures WireLen(Outgoing(m, s)[i]) <= s.cfg.mtu {
      assert Outgoing(m, s)[i] in Outgoing(m, s);
    }
    PacketsKeep(s.cfg.mtu, Outgoing(m, s));
  }

  predicate AllWellFormed(conv: int, bs: seq<seq<Byte>>) {
    forall i :: 0 <= i < |bs| ==> WellFormed(conv, bs[i])
  }

  /** The segments the input loop finds in a run of datagrams. */
  function ParseAll(conv: int, bs: seq<seq<Byte>>): seq<Seg>
    requires AllWellFormed(conv, bs)
  {
    if bs == [] then [] else ParseAll(conv, bs[..|bs| - 1]) + Parse(conv, bs[|bs| - 1])
  }

  lemma ArrivalsConcat(m: Mode, p: seq<Seg>, q: seq<Seg>)
    ensures Arrivals(m, p + q) == Arrivals(m, p) + Arrivals(m, q)
  {
  }

  lemma {:induction false} ReadBack(c: Settings, ps: seq<seq<Seg>>)
    requires Setup(c) && Sendable(c, Flatten(ps))
    ensures AllWellFormed(c.conv, EncodeAll(ps)) && ParseAll(c.conv, EncodeAll(ps)) == Arrivals(Wrap, Flatten(ps))
    decreases |ps|
  {
    hide OnWire, EncodeGroup, Parse, WellFormed;
    if ps != [] {
      var l := |ps| - 1;
      var front := ps[..l];
      assert Sendable(c, Flatten(front)) && Sendable(c, ps[l]);
      ReadBack(c, front);
      SendableEmits(c, ps[l]);
      GroupRoundTrip(c.conv, ps[l]);
      assert EncodeAll(ps)[..l] == EncodeAll(front);
      ArrivalsConcat(Wrap, Flatten(front), ps[l]);
    }
  }

  lemma SendableEmits(c: Settings, p: seq<Seg>)
    requires Setup(c) && Sendable(c, p)
    ensures Emittable(c.conv, p)
  {
    hide Wrap32;
    WrapSmall(c.conv);
    forall i | 0 <= i < |p| ensures |p[i].data| < I32 && KnownCmd(p[i].cmd) && Wrap32(p[i].conv) == c.conv {
      assert p[i] in p;
    }
  }

  /** Packetisation round trip: the buffers of one flush hold whole segments
      and at most mtu bytes each, and the input loop reads from them exactly
      what was to be sent. */
  lemma FlushRoundTrip(m: Mode, s: Kcb)
    requires BlockOk(m, s) && s.clock.updated
    ensures var bs := EncodeAll(Flush(m, s).1);
      (forall i :: 0 <= i < |bs| ==> 0 < |bs[i]| <= s.cfg.mtu) && AllWellFormed(s.cfg.conv, bs)
      && ParseAll(s.cfg.conv, bs) == Arrivals(Wrap, Outgoing(m, s))
  {
    hide Outgoing, Sendable, ParseAll, AllWellFormed, Arrivals, Flush, EncodeGroup, SndOk;
    FlushSends(m, s);
    OutgoingSendable(m, s);
    ReadBack(s.cfg, Flush(m, s).1);
    forall i | 0 <= i < |Flush(m, s).1| ensures 0 < |EncodeGroup(Flush(m, s).1[i])| <= s.cfg.mtu {
      assert Small(s.cfg.mtu, Flush(m, s).1[i]);
    }
  }
}
