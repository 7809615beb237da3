/** fec_kcp.cpp: KCP over the FEC layer, as a class. Every public method is
    proved to take Host() one step of FecRun further. */
module FecKcp {
  import opened Bytes
  import opened Timeouts
  import opened ErasureCode
  import opened FecFrame
  import opened FecModel
  import opened FecEncoder
  import opened FecDecoder
  import opened FecDrain
  import opened FecSealed
  import opened FecRun
  import opened KcpModel
  import opened Kcp
  import opened KcpPadding
  import opened KcpEndpoint
  import opened KcpSafety
  import opened KcpConversation

  const CONV := 0x11112222

  /** What the loop of DataInput leaves in ret: the code of the last packet if it
      is an error. The next call of Output overwrites that of an earlier one. */
  function LastCode(k: Kcb, ps: seq<seq<Byte>>): int {
    if ps == [] then 0
    else Min(0, KcpModel.Input(Wrap, InputAll(k, ps[..|ps| - 1]), ps[|ps| - 1]).1)
  }

  class FecKcp {
    const kcp: ControlBlock
    const enc: FecEncode
    const dec: FecDecode
    const table: CodeTable
    /** The sequence number the encoder started from. */
    ghost const first: int
    /** Every datagram KCP gave to its callback, the messages accepted and
        returned, and every frame sent. */
    ghost var out: seq<seq<Byte>>
    ghost var sent: seq<seq<Byte>>
    ghost var got: seq<seq<Byte>>
    ghost var log: seq<seq<Byte>>

    ghost predicate Valid()
      reads this, kcp, enc, dec, dec.timeouts
    {
      && kcp.Valid() && enc.Valid() && dec.Valid() && enc.table == table && dec.table == table
      && kcp.cfg.conv == CONV && dec.limit == LIMIT && OutboxOk(Outgoing(log), enc.k, enc.r)
    }

    ghost function Outgoing(frames: seq<seq<Byte>>): Outbox
      reads enc
    {
      Outbox(frames, enc.seqNo, enc.batch)
    }

    ghost function Numbers(): Coding {
      Coding(enc.k, enc.r, first)
    }

    /** The endpoint as FecRun sees it. */
    ghost function Host(): FecHost
      reads this, kcp, enc, dec, dec.timeouts
    {
      FecHost(Peer(kcp.View(), out, sent, got), Outgoing(log), dec.View())
    }

    constructor (k: nat, r: nat, first: int, table: CodeTable)
      requires CodingOk(Coding(k, r, first))
      ensures Valid() && this.table == table && Numbers() == Coding(k, r, first)
      ensures Host() == NewFecHost(Configure(CONV, MTU_DEF, WND_SND, WND_RCV, 0, INTERVAL, 0, 0, 0), Numbers())
      ensures Pair(kcp.cfg, kcp.cfg) && Modest(kcp.cfg)
    {
      this.table := table;
      this.first := first;
      var settings := Configure(CONV, MTU_DEF, WND_SND, WND_RCV, 0, INTERVAL, 0, 0, 0);
      var block := new ControlBlock(settings);
      var coder := new FecEncode(k, r, first, table);
      var collector := new FecDecode(LIMIT, table);
      kcp, enc, dec := block, coder, collector;
      out, sent, got, log := [], [], [], [];
    }

    method UserDataSend(buf: seq<Byte>) returns (code: int)
      requires Valid()
      modifies kcp`sndQueue, kcp`nsndQue, this`sent
      ensures Valid() && Host() == old(FecStep(Host(), Numbers(), [], UserSend(buf)))
      ensures code == KcpModel.Send(old(kcp.sndQueue), kcp.cfg.mss, kcp.cfg.stream != 0, buf).1
    {
      hide FecEncode.Valid, FecDecode.Valid, KcpModel.Send, OutboxOk;
      code := kcp.Send(buf);
      sent := if code == 0 then sent + [buf] else sent;
    }

    method DataOutput(length: int) returns (code: int, buf: seq<Byte>)
      requires Valid()
      modifies kcp, this`got
      ensures Valid() && Host() == old(FecStep(Host(), Numbers(), [], UserReceive(length)))
      ensures var (k, result, data) := KcpModel.Recv(Wrap, old(kcp.View()), length); code == result && buf == data
    {
      hide FecEncode.Valid, FecDecode.Valid, KcpModel.Recv, OutboxOk;
      code, buf := kcp.Recv(length);
      got := if code >= 0 && length >= 0 then got + [buf] else got;
    }

    /** The output callback of KCP: a datagram joins the batch, and a full
        batch is sent. */
    method KcpSendFunc(buf: seq<Byte>) returns (code: int, frames: seq<seq<Byte>>)
      requires Valid() && table.Valid()
      modifies enc, table, this`log
      ensures Valid() && table.Valid() && code == (if Fits(buf) then 0 else -1) && log == old(log) + frames
      ensures Outgoing(log) == old(Offer(Outgoing(log), enc.k, enc.r, buf))
    {
      hide CodeTable.Valid, FecEncode.Valid, Frames, MaxLen, Repeated;
      PendingFits(enc);
      var ret := enc.Input(buf);
      frames := [];
      if ret < 0 {
        return -1, [];
      }
      if ret == 1 {
        var sizes;
        ret, frames, sizes := enc.Output();
      }
      log := log + frames;
      PendingFits(enc);
      return 0, frames;
    }

    /** ikcp_update; every datagram it outputs goes through KcpSendFunc. */
    method FecKcpUpdate(milliseconds: int) returns (frames: seq<seq<Byte>>)
      requires Valid() && table.Valid()
      modifies kcp, enc, table, this`out, this`log
      ensures Valid() && table.Valid() && log == old(log) + frames
      ensures Host() == old(FecStep(Host(), Numbers(), [], Tick(milliseconds)))
    {
      hide CodeTable.Valid, Offer, OfferAll, OutboxOk, KcpModel.Update, EncodeAll, Wrap32, FecEncode.Valid,
        FecDecode.Valid;
      var ps := kcp.Update(Wrap32(milliseconds));
      out := out + ps;
      frames := SendAll(ps);
    }

    method SendAll(ps: seq<seq<Byte>>) returns (frames: seq<seq<Byte>>)
      requires Valid() && table.Valid()
      modifies enc, table, this`log
      ensures Valid() && table.Valid() && log == old(log) + frames
      ensures Outgoing(log) == old(OfferAll(Outgoing(log), enc.k, enc.r, ps))
    {
      hide CodeTable.Valid, Offer, FecEncode.Valid, FecDecode.Valid;
      frames := [];
      ghost var o := Outgoing(log);
      for i := 0 to |ps|
        invariant Valid() && table.Valid() && OutboxOk(o, enc.k, enc.r) && log == old(log) + frames
        invariant Outgoing(log) == OfferAll(o, enc.k, enc.r, ps[..i])
        modifies enc, table, this`log
      {
        var code, more := KcpSendFunc(ps[i]);
        assert ps[..i + 1][..i] == ps[..i];
        frames := frames + more;
      }
      assert ps[..|ps|] == ps;
    }

    /** One datagram from the network: what becomes available is drained at once
        and given to KCP. */
    method DataInput(p: seq<Byte>, now: int) returns (ret: int)
      requires Valid() && table.Valid() && UpTo(dec.timeouts.times, now)
      requires Idle(dec.View()) && Accepts(dec.View(), p)
      modifies kcp, dec, dec.timeouts, table
      ensures Valid() && table.Valid() && UpTo(dec.timeouts.times, now) && Idle(dec.View())
      ensures Host() == old(FecStep(Host(), Numbers(), [p], Arrive(0, now)))
      ensures ret == LastCode(old(kcp.View()), old(Intake(dec.View(), p, LIMIT, now)).1)
    {
      hide CodeTable.Valid, Agree, Pending, KcpModel.Input, FecModel.Input, InputAll, LastCode, UpTo, Settled, Waiting,
        Intake, Addressed, DecoderOk, FecEncode.Valid;
      ghost var k0, fed := kcp.View(), [];
      ghost var (final, all) := Intake(dec.View(), p, LIMIT, now);
      InputPending(dec.View(), p, LIMIT, now);
      IntakeSettles(dec.View(), p, LIMIT, now);
      IntakeUpTo(dec.View(), p, LIMIT, now);
      var len := dec.Input(p, now);
      ret := 0;
      ghost var todo := all;
      NothingFed(k0);
      PendingEnds(dec.View(), len, todo, final, LIMIT, now);
      while len > 0
        invariant Valid() && table.Valid() && Pending(dec.View(), len, todo, final, LIMIT, now)
        invariant (len > 0 <==> todo != []) && all == fed + todo && kcp.View() == InputAll(k0, fed)
        invariant len <= 0 ==> ret == LastCode(k0, fed)
        modifies kcp, dec, dec.timeouts
        decreases |todo|
      {
        ghost var data := todo[0];
        InputMore(k0, fed, data);
        ret, len := DrainOne(len, now, todo, final);
        fed, todo := fed + [data], todo[1..];
        PendingEnds(dec.View(), len, todo, final, LIMIT, now);
      }
      PendingEnds(dec.View(), len, todo, final, LIMIT, now);
      assert fed + [] == fed;
    }

    /** One turn of the loop of DataInput. */
    method DrainOne(length: nat, now: int, ghost todo: seq<seq<Byte>>, ghost final: Decoder)
        returns (ret: int, next: int)
      requires Valid() && length > 0 && todo != [] && Pending(dec.View(), length, todo, final, LIMIT, now)
      modifies kcp, dec, dec.timeouts
      ensures Valid() && Pending(dec.View(), next, todo[1..], final, LIMIT, now)
      ensures kcp.View() == KcpModel.Input(Wrap, old(kcp.View()), todo[0]).0
      ensures next <= 0 ==> ret == Min(0, KcpModel.Input(Wrap, old(kcp.View()), todo[0]).1)
    {
      hide Agree, Pending, Sound, RoomFor, KcpModel.Input, FecModel.Output;
      PendingStep(dec.View(), length, todo, final, LIMIT, now);
      var buf;
      ret, buf := dec.Output(length, now);
      if ret < 0 {
        return ret, 0;
      }
      next := ret;
      var data := if buf.Some? then buf.value else Zeros(length);
      var code := kcp.Input(data);
      if code < 0 {
        ret := code;
      }
    }
  }

  lemma PendingFits(enc: FecEncode)
    requires enc.Valid()
    ensures 0 < enc.k && enc.k + enc.r <= 127 && 0 < enc.seqNo < SEQ_END && |enc.batch| <= enc.k
    ensures |enc.batch| < enc.k ==> forall i :: 0 <= i < |enc.batch| ==> Fits(enc.batch[i])
  {
    hide FecFrame.Header;
  }

  lemma NothingFed(k: Kcb)
    ensures InputAll(k, []) == k && LastCode(k, []) == 0
  {
  }

  lemma InputMore(k: Kcb, ps: seq<seq<Byte>>, p: seq<Byte>)
    ensures InputAll(k, ps + [p]) == KcpModel.Input(Wrap, InputAll(k, ps), p).0
    ensures LastCode(k, ps + [p]) == Min(0, KcpModel.Input(Wrap, InputAll(k, ps), p).1)
  {
    hide KcpModel.Input;
    assert (ps + [p])[..|ps|] == ps;
  }
}
