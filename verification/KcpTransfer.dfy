/** One direction of a conversation with exact sequence numbers: what the
    sender keeps, what the receiver has, and why nothing is lost between. The
    history h is every fragment the sender ever queued. */
module KcpTransfer {
  import opened Bytes
  import opened KcpModel
  import opened KcpSender
  import opened KcpReceiver
  import opened KcpEndpoint
  import opened KcpHistory

  /** x is fragment number x.sn of the history. */
  predicate Carries(h: seq<Seg>, x: Seg) {
    0 <= x.sn < |h| && Plain(x) == h[x.sn]
  }

  /** The receiver has fragment sn, delivered in order or waiting. */
  predicate Received(r: Rcv, sn: int) {
    0 <= sn && (sn < r.nxt || Present(r.buf, sn))
  }

  /** The sender's half: the queue is what has no number yet, every segment in
      flight carries its fragment, and whatever is numbered is still held or
      has been received. */
  predicate SenderHolds(h: seq<Seg>, s: Snd, r: Rcv) {
    && 0 <= s.una && 0 <= s.nxt <= |h| && s.queue == h[s.nxt..]
    && (forall x :: x in s.buf ==> Carries(h, x))
    && (forall sn :: 0 <= sn < s.nxt ==> Present(s.buf, sn) || Received(r, sn))
  }

  /** The receiver's half: after the del fragments already handed over, the
      queue continues the history up to rcv_nxt, and what waits is genuine. */
  predicate ReceiverHolds(h: seq<Seg>, top: int, r: Rcv, del: nat) {
    && r.nxt == del + |r.queue| <= top <= |h|
    && (forall i :: 0 <= i < |r.queue| ==> Plain(r.queue[i]) == h[del + i])
    && (forall x :: x in r.buf ==> x.sn < top && Carries(h, x))
  }

  // ----- the sender's half -----

  /** An acknowledgement the receiver can have sent. */
  predicate Honest(r: Rcv, x: Seg) {
    0 <= x.una <= r.nxt && (x.cmd == CMD_ACK ==> Received(r, x.sn))
  }

  lemma PresentIn(buf: seq<Seg>, x: Seg)
    requires x in buf
    ensures Present(buf, x.sn)
  {
  }

  lemma {:induction false} UnaOnlyBelow(base: int, lo: int, buf: seq<Seg>, hi: int, una: int)
    requires Rising(Exact, base, lo, buf, hi)
    ensures forall x :: x in buf && x.sn >= una ==> x in ParseUna(Exact, buf, una)
    decreases |buf|
  {
    if buf != [] && Diff(Exact, una, buf[0].sn) > 0 {
      UnaOnlyBelow(base, buf[0].sn - base + 1, buf[1..], hi, una);
      assert buf == [buf[0]] + buf[1..];
    }
  }

  /** Dropping what a cumulative acknowledgement covers loses nothing. */
  lemma DropUnaHolds(h: seq<Seg>, s: Snd, limit: int, r: Rcv, una: int)
    requires SenderHolds(h, s, r) && SndOk(Exact, s, limit) && una <= r.nxt
    ensures SenderHolds(h, DropUna(Exact, s, una), r)
  {
    hide ParseUna, Carries;
    var t := DropUna(Exact, s, una);
    ParseUnaOnly(Exact, s.buf, una);
    UnaOnlyBelow(s.una, 0, s.buf, InFlight(Exact, s), una);
    DropUnaKeeps(Exact, s, limit, una);
    forall sn | 0 <= sn < s.nxt ensures Present(t.buf, sn) || Received(r, sn) {
      if Present(s.buf, sn) {
        var i :| 0 <= i < |s.buf| && s.buf[i].sn == sn;
        if sn >= una {
          assert s.buf[i] in s.buf;
          PresentIn(t.buf, s.buf[i]);
        }
      }
    }
  }

  lemma DropAckHolds(h: seq<Seg>, s: Snd, limit: int, r: Rcv, sn: int)
    requires SenderHolds(h, s, r) && SndOk(Exact, s, limit) && Received(r, sn)
    ensures SenderHolds(h, DropAck(Exact, s, sn), r)
  {
    hide ParseAck, Carries, Received, Without, Rising;
    var t := DropAck(Exact, s, sn);
    AckRemovesExactly(Exact, s, limit, sn);
    WithoutOnly(s.buf, sn);
    DropAckKeeps(Exact, s, limit, sn);
    forall k | 0 <= k < s.nxt ensures Present(t.buf, k) || Received(r, k) {
      if Present(s.buf, k) {
        var i :| 0 <= i < |s.buf| && s.buf[i].sn == k;
        if k != sn {
          assert s.buf[i] in s.buf;
          PresentIn(t.buf, s.buf[i]);
        }
      }
    }
  }

  /** Segments replaced by others with the same number and content. */
  predicate SameCargo(p: seq<Seg>, q: seq<Seg>) {
    |p| == |q| && forall i :: 0 <= i < |p| ==> p[i].sn == q[i].sn && Plain(p[i]) == Plain(q[i])
  }

  lemma RenewedHolds(h: seq<Seg>, s: Snd, r: Rcv, buf: seq<Seg>)
    requires SenderHolds(h, s, r) && SameCargo(s.buf, buf)
    ensures SenderHolds(h, s.(buf := buf), r)
  {
    hide Received;
    forall x | x in buf ensures Carries(h, x) {
      var i :| 0 <= i < |buf| && buf[i] == x;
      assert Carries(h, s.buf[i]);
    }
    forall sn | 0 <= sn < s.nxt ensures Present(buf, sn) || Received(r, sn) {
      if Present(s.buf, sn) {
        var i :| 0 <= i < |s.buf| && s.buf[i].sn == sn;
        assert buf[i].sn == sn;
      }
    }
  }

  lemma {:induction false} BumpSame(buf: seq<Seg>, sn: int)
    ensures SameCargo(buf, BumpFastack(Exact, buf, sn))
  {
    hide Wrap32;
    if buf != [] && Diff(Exact, sn, buf[0].sn) >= 0 {
      BumpSame(buf[1..], sn);
    }
  }

  lemma {:induction false} SweepSame(st: Stamp, p: Pace, buf: seq<Seg>)
    ensures SameCargo(buf, SweepAll(st, p, buf).buf)
  {
    hide WhySend;
    if buf != [] {
      SweepSame(st, p, buf[..|buf| - 1]);
    }
  }

  /** Numbering the next fragments moves them from the queue into flight. */
  lemma {:induction false} FillHolds(h: seq<Seg>, p: Stamp, rto: int, s: Snd, r: Rcv, cwnd: int)
    requires SenderHolds(h, s, r)
    requires forall x :: x in h ==> x == Plain(x)
    ensures SenderHolds(h, FillBuf(Exact, p, rto, s, cwnd), r)
    decreases |s.queue|
  {
    hide Received;
    if Diff(Exact, s.nxt, Norm(Exact, s.una + cwnd)) < 0 && s.queue != [] {
      var x := Launch(p, s.nxt, rto, s.queue[0]);
      var t := Snd(s.una, s.nxt + 1, s.queue[1..], s.buf + [x]);
      assert s.queue[0] == h[s.nxt] && h[s.nxt] in h;
      assert t.queue == h[t.nxt..];
      forall sn | 0 <= sn < t.nxt ensures Present(t.buf, sn) || Received(r, sn) {
        if sn == s.nxt {
          assert t.buf[|s.buf|].sn == sn;
        } else if Present(s.buf, sn) {
          var i :| 0 <= i < |s.buf| && s.buf[i].sn == sn;
          assert t.buf[i].sn == sn;
        }
      }
      FillHolds(h, p, rto, t, r, cwnd);
    }
  }

  // ----- the receiver's half -----

  /** A segment of this direction that the sender can have sent. */
  predicate Genuine(h: seq<Seg>, top: int, x: Seg) {
    x.cmd == CMD_PUSH ==> x.sn < top && Carries(h, x)
  }

  ghost predicate StillReceived(r: Rcv, t: Rcv) {
    r.nxt <= t.nxt && forall sn :: Received(r, sn) ==> Received(t, sn)
  }

  lemma MoveReadyHolds(h: seq<Seg>, top: int, wnd: int, r: Rcv, del: nat)
    requires ReceiverHolds(h, top, r, del)
    ensures ReceiverHolds(h, top, MoveReady(Exact, wnd, r), del) && StillReceived(r, MoveReady(Exact, wnd, r))
  {
    hide MoveReady, ReceiverHolds, StillReceived, Moved;
    var n := MoveReadyMoves(Exact, wnd, r);
    MovedHolds(h, top, r, del, n, MoveReady(Exact, wnd, r));
    MovedStill(r, n, MoveReady(Exact, wnd, r));
  }

  lemma MovedHolds(h: seq<Seg>, top: int, r: Rcv, del: nat, n: nat, t: Rcv)
    requires ReceiverHolds(h, top, r, del) && Moved(Exact, r, n, t)
    ensures ReceiverHolds(h, top, t, del)
  {
    if n > 0 {
      assert r.buf[n - 1] in r.buf;
    }
    forall i | 0 <= i < |t.queue| ensures Plain(t.queue[i]) == h[del + i] {
      if i >= |r.queue| {
        var x := r.buf[i - |r.queue|];
        assert x in r.buf && t.queue[i] == x && x.sn == del + i;
      }
    }
  }

  lemma MovedStill(r: Rcv, n: nat, t: Rcv)
    requires Moved(Exact, r, n, t)
    ensures StillReceived(r, t)
  {
    forall sn | Received(r, sn) ensures Received(t, sn) {
      if r.nxt <= sn && sn >= t.nxt {
        var i :| 0 <= i < |r.buf| && r.buf[i].sn == sn;
        assert t.buf[i - n].sn == sn;
      }
    }
  }

  /** A genuine segment inside the window is received and breaks nothing. */
  lemma AcceptHolds(h: seq<Seg>, top: int, wnd: int, r: Rcv, del: nat, x: Seg)
    requires ReceiverHolds(h, top, r, del) && RcvOk(Exact, wnd, r) && x.sn < top && Carries(h, x)
    ensures var t := Accept(Exact, wnd, r, x);
      ReceiverHolds(h, top, t, del) && StillReceived(r, t) && (x.sn < r.nxt + wnd ==> Received(t, x.sn))
  {
    hide MoveReady, InsertSeg, Insert, Rising;
    if r.nxt <= x.sn < r.nxt + wnd {
      BackwardSearch(Exact, r.nxt, 0, r.buf, wnd, x);
      InsertHas(Exact, r.nxt, 0, r.buf, wnd, x);
      var u := r.(buf := InsertSeg(Exact, r.buf, x));
      forall sn | Received(r, sn) ensures Received(u, sn) {
        if Present(r.buf, sn) {
          var i :| 0 <= i < |r.buf| && r.buf[i].sn == sn;
          assert r.buf[i] in r.buf;
          PresentIn(u.buf, r.buf[i]);
        }
      }
      MoveReadyHolds(h, top, wnd, u, del);
    }
  }

  /** Handing over the next whole message of n fragments. */
  lemma HandOver(h: seq<Seg>, top: int, r: Rcv, del: nat, n: nat)
    requires ReceiverHolds(h, top, r, del) && n <= |r.queue|
    ensures ReceiverHolds(h, top, r.(queue := r.queue[n..]), del + n)
  {
    var q := r.queue[n..];
    forall i | 0 <= i < |q| ensures Plain(q[i]) == h[(del + n) + i] {
      assert q[i] == r.queue[n + i];
    }
  }

  // ----- a longer history -----

  lemma LongerHistory(h: seq<Seg>, more: seq<Seg>, s: Snd, r: Rcv, del: nat)
    requires SenderHolds(h, s, r) && ReceiverHolds(h, s.nxt, r, del)
    ensures SenderHolds(h + more, s.(queue := s.queue + more), r) && ReceiverHolds(h + more, s.nxt, r, del)
  {
    hide Received;
    var g := h + more;
    assert s.queue + more == g[s.nxt..];
    forall x | x in s.buf ensures Carries(g, x) {
      assert Carries(h, x);
    }
    forall x | x in r.buf ensures x.sn < s.nxt && Carries(g, x) {
      assert Carries(h, x);
    }
  }
}
