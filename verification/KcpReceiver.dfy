/** The receiving half: rcv_buf stays strictly ascending inside the window, the
    backward search inserts in order, and the order in which segments arrive
    does not matter. */
module KcpReceiver {
  import opened Bytes
  import opened KcpModel
  import opened KcpSender

  // ----- insertion -----

  /** Insertion in order, by distance from base. */
  function Insert(m: Mode, base: int, buf: seq<Seg>, x: Seg): seq<Seg> {
    if buf == [] then [x]
    else if Off(m, base, x.sn) == Off(m, base, buf[0].sn) then buf
    else if Off(m, base, x.sn) < Off(m, base, buf[0].sn) then [x] + buf
    else [buf[0]] + Insert(m, base, buf[1..], x)
  }

  lemma {:induction false} RisingFront(m: Mode, base: int, lo: int, buf: seq<Seg>, hi: int)
    requires Rising(m, base, lo, buf, hi) && buf != []
    ensures Rising(m, base, lo, buf[..|buf| - 1], Off(m, base, buf[|buf| - 1].sn))
    decreases |buf|
  {
    hide Norm;
    var l := |buf| - 1;
    if l > 0 {
      RisingFront(m, base, Off(m, base, buf[0].sn) + 1, buf[1..], hi);
      RisingAt(m, base, Off(m, base, buf[0].sn) + 1, buf[1..], hi, l - 1);
      assert buf[1..][..l - 1] == buf[..l][1..];
    }
  }

  lemma {:induction false} RisingUpper(m: Mode, base: int, lo: int, buf: seq<Seg>, hi: int, hi': int)
    requires Rising(m, base, lo, buf, hi) && hi <= hi'
    ensures Rising(m, base, lo, buf, hi')
    decreases |buf|
  {
    hide Norm;
    if buf != [] {
      RisingUpper(m, base, Off(m, base, buf[0].sn) + 1, buf[1..], hi, hi');
    }
  }

  /** Insertion seen from the last element of a rising buffer. */
  lemma {:induction false} InsertAtEnd(m: Mode, base: int, lo: int, buf: seq<Seg>, hi: int, x: Seg)
    requires Rising(m, base, lo, buf, hi) && buf != []
    ensures var l := |buf| - 1;
      Insert(m, base, buf, x) ==
        if Off(m, base, x.sn) == Off(m, base, buf[l].sn) then buf
        else if Off(m, base, x.sn) > Off(m, base, buf[l].sn) then buf + [x]
        else Insert(m, base, buf[..l], x) + [buf[l]]
    decreases |buf|
  {
    hide Off, Insert, Rising;
    var l := |buf| - 1;
    RisingTail(m, base, lo, buf, hi, 0);
    if l == 0 {
      InsertNone(m, base, x);
      InsertUnderHead(m, base, buf[0], [], x);
      assert buf == [buf[0]] + [] && buf[..0] == [];
    } else {
      var h, mid, y := buf[0], buf[1..l], buf[l];
      assert buf[1..] == mid + [y] && buf == [h] + (mid + [y]) && buf[..l] == [h] + mid;
      InsertAtEnd(m, base, Off(m, base, h.sn) + 1, mid + [y], hi, x);
      RisingAt(m, base, Off(m, base, h.sn) + 1, mid + [y], hi, l - 1);
      assert (mid + [y])[..l - 1] == mid;
      AtEndOfMore(m, base, h, mid, y, x);
    }
  }

  /** Once more in front does not change what happens at the end. */
  lemma AtEndOfMore(m: Mode, base: int, h: Seg, mid: seq<Seg>, y: Seg, x: Seg)
    requires Off(m, base, h.sn) < Off(m, base, y.sn)
    requires Insert(m, base, mid + [y], x) ==
      if Off(m, base, x.sn) == Off(m, base, y.sn) then mid + [y]
      else if Off(m, base, x.sn) > Off(m, base, y.sn) then (mid + [y]) + [x]
      else Insert(m, base, mid, x) + [y]
    ensures Insert(m, base, [h] + (mid + [y]), x) ==
      if Off(m, base, x.sn) == Off(m, base, y.sn) then [h] + (mid + [y])
      else if Off(m, base, x.sn) > Off(m, base, y.sn) then ([h] + (mid + [y])) + [x]
      else Insert(m, base, [h] + mid, x) + [y]
  {
    hide Off, Insert;
    InsertUnderHead(m, base, h, mid + [y], x);
    InsertUnderHead(m, base, h, mid, x);
    if Off(m, base, x.sn) < Off(m, base, h.sn) {
      Enclose(x, [h] + mid, y);
      Enclose(h, mid, y);
    } else if Off(m, base, x.sn) > Off(m, base, y.sn) {
      Enclose(h, mid + [y], x);
    } else if Off(m, base, x.sn) > Off(m, base, h.sn) {
      Enclose(h, Insert(m, base, mid, x), y);
    } else {
      Enclose(h, mid, y);
    }
  }

  lemma InsertNone(m: Mode, base: int, x: Seg)
    ensures Insert(m, base, [], x) == [x]
  {
  }

  lemma Enclose<T>(x: T, s: seq<T>, y: T)
    ensures [x] + (s + [y]) == ([x] + s) + [y]
  {
  }

  lemma InsertUnderHead(m: Mode, base: int, h: Seg, rest: seq<Seg>, x: Seg)
    ensures Insert(m, base, [h] + rest, x) ==
      if Off(m, base, x.sn) == Off(m, base, h.sn) then [h] + rest
      else if Off(m, base, x.sn) < Off(m, base, h.sn) then [x] + ([h] + rest)
      else [h] + Insert(m, base, rest, x)
  {
    hide Norm;
    assert ([h] + rest)[1..] == rest;
  }

  /** The backward search of ikcp_parse_data finds the place of x. */
  lemma {:induction false} BackwardSearch(m: Mode, base: int, lo: int, buf: seq<Seg>, hi: int, x: Seg)
    requires 0 <= lo && hi < I32 && Rising(m, base, lo, buf, hi) && Normal(m, x.sn) && 0 <= Off(m, base, x.sn) < I32
    ensures InsertSeg(m, buf, x) == Insert(m, base, buf, x)
    decreases |buf|
  {
    hide Norm, Diff;
    if buf != [] {
      var l := |buf| - 1;
      RisingAt(m, base, lo, buf, hi, l);
      DiffIsOrder(m, base, x.sn, buf[l].sn);
      InsertAtEnd(m, base, lo, buf, hi, x);
      if Off(m, base, x.sn) == Off(m, base, buf[l].sn) {
        OffInjective(m, base, x.sn, buf[l].sn);
      } else if Diff(m, x.sn, buf[l].sn) < 0 {
        RisingFront(m, base, lo, buf, hi);
        BackwardSearch(m, base, lo, buf[..l], Off(m, base, buf[l].sn), x);
      }
    }
  }

  lemma {:induction false} InsertRises(m: Mode, base: int, lo: int, buf: seq<Seg>, hi: int, x: Seg)
    requires Rising(m, base, lo, buf, hi) && Normal(m, x.sn) && lo <= Off(m, base, x.sn) < hi
    ensures Rising(m, base, lo, Insert(m, base, buf, x), hi)
    decreases |buf|
  {
    hide Norm;
    if buf != [] {
      var o := Off(m, base, buf[0].sn);
      if Off(m, base, x.sn) < o {
        assert ([x] + buf)[1..] == buf;
      } else if Off(m, base, x.sn) > o {
        InsertRises(m, base, o + 1, buf[1..], hi, x);
        assert ([buf[0]] + Insert(m, base, buf[1..], x))[1..] == Insert(m, base, buf[1..], x);
      }
    }
  }

  predicate Present(buf: seq<Seg>, sn: int) {
    exists i :: 0 <= i < |buf| && buf[i].sn == sn
  }

  /** Insertion adds x, unless its number is already there, and keeps the rest. */
  lemma {:induction false} InsertHas(m: Mode, base: int, lo: int, buf: seq<Seg>, hi: int, x: Seg)
    requires Rising(m, base, lo, buf, hi) && Normal(m, x.sn)
    ensures forall y :: y in Insert(m, base, buf, x) ==> y in buf || y == x
    ensures forall y :: y in buf ==> y in Insert(m, base, buf, x)
    ensures Present(Insert(m, base, buf, x), x.sn)
    decreases |buf|
  {
    hide Norm;
    if buf == [] {
      assert [x][0].sn == x.sn;
    } else if Off(m, base, x.sn) == Off(m, base, buf[0].sn) {
      OffInjective(m, base, x.sn, buf[0].sn);
      assert buf[0].sn == x.sn;
    } else if Off(m, base, x.sn) < Off(m, base, buf[0].sn) {
      assert ([x] + buf)[0].sn == x.sn;
    } else {
      var rest := Insert(m, base, buf[1..], x);
      InsertHas(m, base, Off(m, base, buf[0].sn) + 1, buf[1..], hi, x);
      var i :| 0 <= i < |rest| && rest[i].sn == x.sn;
      assert ([buf[0]] + rest)[i + 1].sn == x.sn;
    }
  }

  // ----- moving the contiguous run -----

  /** The first n segments of buf are numbered nxt, nxt + 1, ... */
  predicate Run(m: Mode, nxt: int, buf: seq<Seg>, n: nat) {
    n <= |buf| && forall i :: 0 <= i < n ==> buf[i].sn == Norm(m, nxt + i)
  }

  predicate Moved(m: Mode, r: Rcv, n: nat, t: Rcv) {
    Run(m, r.nxt, r.buf, n) && t == Rcv(Norm(m, r.nxt + n), r.queue + r.buf[..n], r.buf[n..])
  }

  /** No further segment can be moved. */
  predicate Settled(wnd: int, r: Rcv) {
    r.buf == [] || r.buf[0].sn != r.nxt || |r.queue| >= wnd
  }

  lemma NormStep(m: Mode, x: int, i: int)
    ensures Norm(m, Norm(m, x + 1) + i) == Norm(m, x + (i + 1))
  {
    hide Norm;
    NormAdd(m, x, 1, i);
    assert 1 + i == i + 1;
  }

  lemma {:induction false} MoveReadyMoves(m: Mode, wnd: int, r: Rcv) returns (n: nat)
    requires Normal(m, r.nxt)
    ensures n <= |r.buf| && Moved(m, r, n, MoveReady(m, wnd, r)) && Settled(wnd, MoveReady(m, wnd, r))
    ensures n > 0 ==> |r.queue| + n <= wnd
    decreases |r.buf|
  {
    hide Norm, Normal;
    if r.buf != [] && r.buf[0].sn == r.nxt && |r.queue| < wnd {
      var t := Rcv(Norm(m, r.nxt + 1), r.queue + [r.buf[0]], r.buf[1..]);
      NormalNorm(m, r.nxt + 1);
      var k := MoveReadyMoves(m, wnd, t);
      n := k + 1;
      MovedStep(m, r, k, MoveReady(m, wnd, t));
    } else {
      n := 0;
      NormalIs(m, r.nxt);
      assert r.queue + r.buf[..0] == r.queue && r.buf[0..] == r.buf;
    }
  }

  lemma MovedStep(m: Mode, r: Rcv, k: nat, u: Rcv)
    requires Normal(m, r.nxt) && r.buf != [] && r.buf[0].sn == r.nxt
    requires Moved(m, Rcv(Norm(m, r.nxt + 1), r.queue + [r.buf[0]], r.buf[1..]), k, u)
    ensures Moved(m, r, k + 1, u)
  {
    hide Norm, Normal;
    var rest := r.buf[1..];
    NormalIs(m, r.nxt);
    NormStep(m, r.nxt, k);
    assert r.buf[..k + 1] == [r.buf[0]] + rest[..k] && r.buf[k + 1..] == rest[k..];
    assert (r.queue + [r.buf[0]]) + rest[..k] == r.queue + r.buf[..k + 1];
    forall i | 0 < i < k + 1 ensures r.buf[i].sn == Norm(m, r.nxt + i) {
      NormStep(m, r.nxt, i - 1);
      assert r.buf[i] == rest[i - 1];
    }
  }

  lemma NormalIs(m: Mode, x: int)
    requires Normal(m, x)
    ensures Norm(m, x + 0) == x
  {
  }

  // ----- the invariant -----

  predicate RcvOk(m: Mode, wnd: int, r: Rcv) {
    && Normal(m, r.nxt) && 0 < wnd < U16 && |r.queue| <= wnd
    && Rising(m, r.nxt, 0, r.buf, wnd)
  }

  /** Relative to a fixed base, the segments left behind rise from the new
      rcv_nxt on. */
  lemma {:induction false} MovedRises(m: Mode, base: int, lo: int, buf: seq<Seg>, hi: int, n: nat)
    requires Rising(m, base, lo, buf, hi) && n <= |buf|
    requires forall i :: 0 <= i < n ==> Off(m, base, buf[i].sn) == lo + i
    ensures Rising(m, base, lo + n, buf[n..], hi)
    decreases |buf|
  {
    hide Norm;
    if n > 0 {
      MovedRises(m, base, lo + 1, buf[1..], hi, n - 1);
      assert buf[1..][n - 1..] == buf[n..];
    } else {
      assert buf[0..] == buf;
    }
  }

  lemma MoveReadyKeeps(m: Mode, wnd: int, r: Rcv)
    requires RcvOk(m, wnd, r)
    ensures RcvOk(m, wnd, MoveReady(m, wnd, r)) && Settled(wnd, MoveReady(m, wnd, r))
  {
    hide Norm, Normal, Rising, MoveReady;
    var n := MoveReadyMoves(m, wnd, r);
    var t := MoveReady(m, wnd, r);
    NormalNorm(m, r.nxt + n);
    forall i | 0 <= i < n ensures Off(m, r.nxt, r.buf[i].sn) == 0 + i {
      OffOfNorm(m, r.nxt, i);
    }
    MovedRises(m, r.nxt, 0, r.buf, wnd, n);
    OffOfNorm(m, r.nxt, n);
    RisingRebase(m, r.nxt, t.nxt, n, t.buf, wnd);
    RisingUpper(m, t.nxt, 0, t.buf, wnd - n, wnd);
  }

  /** The window tests of ikcp_input and ikcp_parse_data, for a number at most
      a window away from rcv_nxt. */
  lemma PushTest(m: Mode, sn: int, nxt: int, wnd: int)
    requires 0 < wnd < U16
    ensures (Diff(m, sn, Norm(m, nxt + wnd)) < 0 && Diff(m, sn, nxt) >= 0) <==> 0 <= Off(m, nxt, sn) < wnd
  {
    hide Wrap32;
    var j := WrapSplit(sn - nxt);
    var k := WrapSplit(nxt + wnd);
    var d := Off(m, nxt, sn) - wnd;
    if m.Wrap? {
      WrapIs(sn - Norm(m, nxt + wnd), if d >= 0 then j + k else j + k - 1, if d >= 0 then d else d + U32);
    }
  }

  lemma AcceptKeeps(m: Mode, wnd: int, r: Rcv, x: Seg)
    requires RcvOk(m, wnd, r) && Normal(m, x.sn)
    ensures RcvOk(m, wnd, Accept(m, wnd, r, x))
  {
    hide Norm, Diff, MoveReady, InsertSeg;
    PushTest(m, x.sn, r.nxt, wnd);
    if 0 <= Off(m, r.nxt, x.sn) < wnd {
      BackwardSearch(m, r.nxt, 0, r.buf, wnd, x);
      InsertRises(m, r.nxt, 0, r.buf, wnd, x);
      MoveReadyKeeps(m, wnd, r.(buf := InsertSeg(m, r.buf, x)));
    }
  }

  // ----- confluence -----

  function AcceptAll(m: Mode, wnd: int, r: Rcv, xs: seq<Seg>): Rcv {
    if xs == [] then r else Accept(m, wnd, AcceptAll(m, wnd, r, xs[..|xs| - 1]), xs[|xs| - 1])
  }

  /** One segment per number, all inside the window that starts at base. */
  predicate Coherent(m: Mode, base: int, wnd: int, xs: seq<Seg>) {
    (forall i :: 0 <= i < |xs| ==> Normal(m, xs[i].sn) && 0 <= Off(m, base, xs[i].sn) < wnd)
    && forall i, j :: 0 <= i < |xs| && 0 <= j < |xs| && xs[i].sn == xs[j].sn ==> xs[i] == xs[j]
  }

  /** t holds exactly the segments of xs: the first d numbers delivered in
      order, the rest waiting in order. */
  predicate Gathered(m: Mode, wnd: int, r: Rcv, xs: seq<Seg>, d: nat, t: Rcv) {
    && d <= wnd && |r.queue| + d == |t.queue| <= wnd && t.nxt == Norm(m, r.nxt + d)
    && (forall j :: 0 <= j < |t.queue| ==>
      if j < |r.queue| then t.queue[j] == r.queue[j] else Delivered(m, r, xs, t, j))
    && Rising(m, r.nxt, d, t.buf, wnd)
    && (forall x :: x in t.buf ==> x in xs)
    && (forall x :: x in xs ==> Off(m, r.nxt, x.sn) < d || x in t.buf)
  }

  predicate Delivered(m: Mode, r: Rcv, xs: seq<Seg>, t: Rcv, j: int)
    requires |r.queue| <= j < |t.queue|
  {
    t.queue[j] in xs && t.queue[j].sn == Norm(m, r.nxt + (j - |r.queue|))
  }

  /** What r becomes when the segments of xs have arrived: nothing more can be
      moved. */
  predicate Canonical(m: Mode, wnd: int, r: Rcv, xs: seq<Seg>, d: nat, t: Rcv) {
    Gathered(m, wnd, r, xs, d, t) && Settled(wnd, t)
  }

  lemma {:induction false} ReachesCanonical(m: Mode, wnd: int, r: Rcv, xs: seq<Seg>) returns (d: nat)
    requires RcvOk(m, wnd, r) && r.buf == [] && Coherent(m, r.nxt, wnd, xs)
    ensures Canonical(m, wnd, r, xs, d, AcceptAll(m, wnd, r, xs))
    decreases |xs|
  {
    hide Norm, Diff, Off, Normal, Accept, Settled;
    if xs == [] {
      d := 0;
      NormalIs(m, r.nxt);
      NothingToMove(wnd, r);
    } else {
      var l := |xs| - 1;
      var d0 := ReachesCanonical(m, wnd, r, xs[..l]);
      assert xs == xs[..l] + [xs[l]];
      d := CanonicalStep(m, wnd, r, xs[..l], d0, AcceptAll(m, wnd, r, xs[..l]), xs[l]);
    }
  }

  lemma NothingToMove(wnd: int, r: Rcv)
    requires r.buf == []
    ensures Settled(wnd, r)
  {
  }

  lemma ShiftedTest(m: Mode, base: int, d: nat, wnd: int, sn: int)
    requires 0 <= Off(m, base, sn) < wnd < U16 && d <= wnd
    ensures var nxt := Norm(m, base + d);
      !(Diff(m, sn, Norm(m, nxt + wnd)) >= 0 || Diff(m, sn, nxt) < 0) <==> Off(m, base, sn) >= d
  {
    hide Norm, Diff, Off;
    OffOfNorm(m, base, d);
    OffOfNorm(m, base, d + wnd);
    NormAdd(m, base, d, wnd);
    DiffIsOrder(m, base, sn, Norm(m, base + d));
    DiffIsOrder(m, base, sn, Norm(m, base + (d + wnd)));
  }

  lemma CanonicalStep(m: Mode, wnd: int, r: Rcv, xs: seq<Seg>, d: nat, t: Rcv, x: Seg) returns (e: nat)
    requires RcvOk(m, wnd, r) && Canonical(m, wnd, r, xs, d, t) && Coherent(m, r.nxt, wnd, xs + [x])
    ensures Canonical(m, wnd, r, xs + [x], e, Accept(m, wnd, t, x))
  {
    hide Norm, Diff, Normal, Off, Rising, MoveReady, Insert, InsertSeg, Gathered, Coherent;
    var all := xs + [x];
    Newest(m, r.nxt, wnd, xs, x);
    GatheredRises(m, wnd, r, xs, d, t);
    ShiftedTest(m, r.nxt, d, wnd, x.sn);
    if Off(m, r.nxt, x.sn) < d {
      e := d;
      GatheredOld(m, wnd, r, xs, d, t, x);
    } else {
      BackwardSearch(m, r.nxt, d, t.buf, wnd, x);
      GatheredNew(m, wnd, r, xs, d, t, x);
      e := GatheredMove(m, wnd, r, all, d, t.(buf := Insert(m, r.nxt, t.buf, x)));
    }
  }

  lemma Newest(m: Mode, base: int, wnd: int, xs: seq<Seg>, x: Seg)
    requires Coherent(m, base, wnd, xs + [x])
    ensures Normal(m, x.sn) && 0 <= Off(m, base, x.sn) < wnd
  {
    assert (xs + [x])[|xs|] == x;
  }

  lemma GatheredRises(m: Mode, wnd: int, r: Rcv, xs: seq<Seg>, d: nat, t: Rcv)
    requires Gathered(m, wnd, r, xs, d, t)
    ensures Rising(m, r.nxt, d, t.buf, wnd) && t.nxt == Norm(m, r.nxt + d) && d <= wnd
  {
  }

  lemma GatheredOld(m: Mode, wnd: int, r: Rcv, xs: seq<Seg>, d: nat, t: Rcv, x: Seg)
    requires Gathered(m, wnd, r, xs, d, t) && Off(m, r.nxt, x.sn) < d
    ensures Gathered(m, wnd, r, xs + [x], d, t)
  {
    hide Norm, Off, Rising;
    forall j | |r.queue| <= j < |t.queue| ensures Delivered(m, r, xs + [x], t, j) {
      assert Delivered(m, r, xs, t, j);
    }
  }

  lemma GatheredNew(m: Mode, wnd: int, r: Rcv, xs: seq<Seg>, d: nat, t: Rcv, x: Seg)
    requires Gathered(m, wnd, r, xs, d, t) && Coherent(m, r.nxt, wnd, xs + [x]) && Off(m, r.nxt, x.sn) >= d
    ensures Gathered(m, wnd, r, xs + [x], d, t.(buf := Insert(m, r.nxt, t.buf, x)))
  {
    hide Norm, Normal, Off, Rising, Insert, Coherent;
    var all, u := xs + [x], t.(buf := Insert(m, r.nxt, t.buf, x));
    Newest(m, r.nxt, wnd, xs, x);
    assert all[|xs|] == x;
    InsertRises(m, r.nxt, d, t.buf, wnd, x);
    InsertHas(m, r.nxt, d, t.buf, wnd, x);
    var i :| 0 <= i < |u.buf| && u.buf[i].sn == x.sn;
    assert u.buf[i] in u.buf;
    assert u.buf[i] in all;
    SameNumber(m, r.nxt, wnd, all, u.buf[i], x);
    forall j | |r.queue| <= j < |u.queue| ensures Delivered(m, r, all, u, j) {
      assert Delivered(m, r, xs, t, j);
    }
  }

  /** Moving what has become contiguous. */
  lemma GatheredMove(m: Mode, wnd: int, r: Rcv, xs: seq<Seg>, d: nat, u: Rcv) returns (e: nat)
    requires 0 < wnd < U16 && Gathered(m, wnd, r, xs, d, u)
    ensures Canonical(m, wnd, r, xs, e, MoveReady(m, wnd, u))
  {
    hide Norm, Normal, Off, Rising, MoveReady, Settled, Gathered, Moved;
    GatheredRises(m, wnd, r, xs, d, u);
    NormalNorm(m, r.nxt + d);
    var n := MoveReadyMoves(m, wnd, u);
    e := d + n;
    GatheredMoved(m, wnd, r, xs, d, u, n, MoveReady(m, wnd, u));
  }

  lemma GatheredMoved(m: Mode, wnd: int, r: Rcv, xs: seq<Seg>, d: nat, u: Rcv, n: nat, t: Rcv)
    requires 0 < wnd < U16 && Gathered(m, wnd, r, xs, d, u) && Moved(m, u, n, t) && (n > 0 ==> |u.queue| + n <= wnd)
    ensures Gathered(m, wnd, r, xs, d + n, t)
  {
    hide Norm, Normal, Off, Rising;
    NormAdd(m, r.nxt, d, n);
    forall i | 0 <= i < n ensures Off(m, r.nxt, u.buf[i].sn) == d + i && u.buf[i].sn == Norm(m, r.nxt + (d + i)) {
      NormAdd(m, r.nxt, d, i);
      OffOfNorm(m, r.nxt, d + i);
    }
    MovedRises(m, r.nxt, d, u.buf, wnd, n);
    forall j | |r.queue| <= j < |t.queue| ensures Delivered(m, r, xs, t, j) {
      if j < |u.queue| {
        assert Delivered(m, r, xs, u, j);
      } else {
        assert t.queue[j] == u.buf[j - |u.queue|];
        assert u.buf[j - |u.queue|] in u.buf;
      }
    }
    forall x | x in xs ensures Off(m, r.nxt, x.sn) < d + n || x in t.buf {
      if x in u.buf {
        var i :| 0 <= i < |u.buf| && u.buf[i] == x;
        if i >= n {
          assert t.buf[i - n] == x;
        }
      }
    }
  }

  /** A rising sequence is determined by its elements. */
  lemma {:induction false} RisingUnique(m: Mode, base: int, lo: int, p: seq<Seg>, q: seq<Seg>, hi: int)
    requires Rising(m, base, lo, p, hi) && Rising(m, base, lo, q, hi)
    requires forall x :: x in p <==> x in q
    ensures p == q
    decreases |p|
  {
    hide Norm, Normal;
    if p == [] || q == [] {
      SameEmpty(p, q);
    } else {
      assert p[0] in q && q[0] in p;
      var i :| 0 <= i < |q| && q[i] == p[0];
      var j :| 0 <= j < |p| && p[j] == q[0];
      if i > 0 {
        RisingAt(m, base, Off(m, base, q[0].sn) + 1, q[1..], hi, i - 1);
      }
      if j > 0 {
        RisingAt(m, base, Off(m, base, p[0].sn) + 1, p[1..], hi, j - 1);
      }
      assert p[0] == q[0];
      NotAgain(m, base, lo, p, hi);
      NotAgain(m, base, lo, q, hi);
      forall x ensures x in p[1..] <==> x in q[1..] {
        InTail(p, x);
        InTail(q, x);
      }
      RisingUnique(m, base, Off(m, base, p[0].sn) + 1, p[1..], q[1..], hi);
      assert p == [p[0]] + p[1..] && q == [q[0]] + q[1..];
    }
  }

  lemma SameEmpty<T>(p: seq<T>, q: seq<T>)
    requires (p == [] || q == []) && forall x :: x in p <==> x in q
    ensures p == q
  {
    if p != [] {
      FirstIn(p);
    } else if q != [] {
      FirstIn(q);
    }
  }

  lemma FirstIn<T>(s: seq<T>)
    requires s != []
    ensures s[0] in s
  {
  }

  lemma InTail<T>(s: seq<T>, x: T)
    requires s != []
    ensures x in s <==> x == s[0] || x in s[1..]
  {
    assert s == [s[0]] + s[1..];
  }

  lemma NotAgain(m: Mode, base: int, lo: int, p: seq<Seg>, hi: int)
    requires Rising(m, base, lo, p, hi) && p != []
    ensures p[0] !in p[1..]
  {
    hide Norm, Normal;
    if p[0] in p[1..] {
      var i :| 0 <= i < |p| - 1 && p[1..][i] == p[0];
      RisingAt(m, base, Off(m, base, p[0].sn) + 1, p[1..], hi, i);
    }
  }

  /** Two arrivals of the same segments cannot stop at different places. */
  lemma CanonicalDepth(m: Mode, wnd: int, r: Rcv, xs: seq<Seg>, d: nat, t: Rcv, e: nat, u: Rcv)
    requires RcvOk(m, wnd, r) && Canonical(m, wnd, r, xs, d, t) && Canonical(m, wnd, r, xs, e, u)
    ensures d >= e
  {
    hide Norm, Normal, Off;
    if d < e {
      assert Delivered(m, r, xs, u, |r.queue| + d);
      var x := u.queue[|r.queue| + d];
      OffOfNorm(m, r.nxt, d);
      assert x in t.buf;
      var i :| 0 <= i < |t.buf| && t.buf[i] == x;
      if i > 0 {
        RisingAt(m, r.nxt, Off(m, r.nxt, t.buf[0].sn) + 1, t.buf[1..], wnd, i - 1);
      }
      assert false;
    }
  }

  /** Any order and any duplication of a fixed set of segments inside the
      window ends in the same state. */
  lemma Confluence(m: Mode, wnd: int, r: Rcv, xs: seq<Seg>, ys: seq<Seg>)
    requires RcvOk(m, wnd, r) && r.buf == [] && Coherent(m, r.nxt, wnd, xs) && Coherent(m, r.nxt, wnd, ys)
    requires forall x :: x in xs <==> x in ys
    ensures AcceptAll(m, wnd, r, xs) == AcceptAll(m, wnd, r, ys)
  {
    hide Norm, Normal, Off, Rising, AcceptAll, RcvOk, Settled, Coherent, Gathered;
    var d := ReachesCanonical(m, wnd, r, xs);
    var e := ReachesCanonical(m, wnd, r, ys);
    var t, u := AcceptAll(m, wnd, r, xs), AcceptAll(m, wnd, r, ys);
    SameSet(m, wnd, r, ys, xs, e, u);
    CanonicalDepth(m, wnd, r, xs, d, t, e, u);
    CanonicalDepth(m, wnd, r, xs, e, u, d, t);
    CanonicalUnique(m, wnd, r, xs, d, t, u);
  }

  lemma SameSet(m: Mode, wnd: int, r: Rcv, xs: seq<Seg>, ys: seq<Seg>, d: nat, t: Rcv)
    requires Gathered(m, wnd, r, xs, d, t) && forall x :: x in xs <==> x in ys
    ensures Gathered(m, wnd, r, ys, d, t)
  {
    hide Norm, Off, Rising;
    forall j | |r.queue| <= j < |t.queue| ensures Delivered(m, r, ys, t, j) {
      assert Delivered(m, r, xs, t, j);
    }
  }

  lemma CanonicalUnique(m: Mode, wnd: int, r: Rcv, xs: seq<Seg>, d: nat, t: Rcv, u: Rcv)
    requires Coherent(m, r.nxt, wnd, xs) && Gathered(m, wnd, r, xs, d, t) && Gathered(m, wnd, r, xs, d, u)
    ensures t == u
  {
    hide Norm, Normal, Off, Rising, Coherent;
    forall j | 0 <= j < |t.queue| ensures t.queue[j] == u.queue[j] {
      if j >= |r.queue| {
        assert Delivered(m, r, xs, t, j) && Delivered(m, r, xs, u, j);
        SameNumber(m, r.nxt, wnd, xs, t.queue[j], u.queue[j]);
      }
    }
    assert t.queue == u.queue;
    forall x ensures x in t.buf <==> x in u.buf {
      if x in t.buf {
        InBuf(m, wnd, r, xs, d, t, u, x);
      }
      if x in u.buf {
        InBuf(m, wnd, r, xs, d, u, t, x);
      }
    }
    RisingUnique(m, r.nxt, d, t.buf, u.buf, wnd);
  }

  lemma SameNumber(m: Mode, base: int, wnd: int, xs: seq<Seg>, x: Seg, y: Seg)
    requires Coherent(m, base, wnd, xs) && x in xs && y in xs && x.sn == y.sn
    ensures x == y
  {
  }

  lemma InBuf(m: Mode, wnd: int, r: Rcv, xs: seq<Seg>, d: nat, t: Rcv, u: Rcv, x: Seg)
    requires Gathered(m, wnd, r, xs, d, t) && Gathered(m, wnd, r, xs, d, u) && x in t.buf
    ensures x in u.buf
  {
    hide Norm, Normal;
    var i :| 0 <= i < |t.buf| && t.buf[i] == x;
    RisingAt(m, r.nxt, d, t.buf, wnd, i);
  }
}
