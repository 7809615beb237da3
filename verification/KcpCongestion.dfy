/** The congestion window: cwnd is always incr / mss, so the two guards of the
    growth step never fire. */
module KcpCongestion {
  import opened Bytes
  import opened KcpModel

  /** cwnd counts the whole segments in incr, and ssthresh is at least 2. */
  predicate CongOk(c: Congestion, mss: int)
    requires mss > 0
  {
    c.ssthresh >= THRESH_MIN && c.incr >= 0 && c.cwnd == c.incr / mss
  }

  /** Growth without guards and without 32-bit arithmetic: slow start adds one
      segment, congestion avoidance a fraction of one. */
  function Grow(c: Congestion, mss: int): Congestion
    requires mss > 0 && CongOk(c, mss)
  {
    if c.cwnd < c.ssthresh then c.(cwnd := c.cwnd + 1, incr := c.incr + mss)
    else if c.incr == 0 then c
    else
      var incr := c.incr + mss * mss / c.incr + mss / 16;
      c.(incr := incr, cwnd := incr / mss)
  }

  lemma DivIs(a: int, b: int, q: int)
    requires b > 0 && q * b <= a < (q + 1) * b
    ensures a / b == q
  {
    var d := a / b;
    assert d * b <= a < (d + 1) * b;
    if d < q {
      Times(d + 1, q, b);
    } else if d > q {
      Times(q + 1, d, b);
    }
  }

  lemma Times(a: int, b: int, c: int)
    requires a <= b && c >= 0
    ensures a * c <= b * c
  {
  }

  /** A step of congestion avoidance is less than one segment once two are
      counted. */
  lemma StepBelowMss(mss: int, incr: int)
    requires mss > 0 && incr >= 2 * mss
    ensures 0 <= mss * mss / incr && mss * mss / incr + mss / 16 < mss
  {
    var step := mss * mss / incr;
    assert step * incr <= mss * mss;
    if 2 * step > mss {
      Times(2 * mss, incr, step);
      Twice(step, mss);
    }
  }

  lemma Twice(step: int, mss: int)
    requires 2 * step > mss > 0
    ensures step * (2 * mss) > mss * mss
  {
    Times(mss + 1, 2 * step, mss);
  }

  lemma Counts(c: Congestion, mss: int)
    requires mss > 0 && CongOk(c, mss)
    ensures c.cwnd >= 0 && c.ssthresh >= 2 && c.cwnd * mss <= c.incr < (c.cwnd + 1) * mss
  {
  }

  /** The guards at lines 882 and 888-891 never fire and nothing wraps: growth
      is Grow, keeps the invariant, adds at most one segment and never passes
      the remote window. */
  lemma GuardsNeverFire(c: Congestion, rmtWnd: int, mss: int)
    requires 0 < mss < U16 && 0 <= rmtWnd < U16 && CongOk(c, mss)
    ensures var d := GrowWindow(c, rmtWnd, mss);
      d == (if c.cwnd < rmtWnd then Grow(c, mss) else c) && CongOk(d, mss)
      && c.cwnd <= d.cwnd <= c.cwnd + 1 && (c.cwnd < rmtWnd ==> d.cwnd <= rmtWnd)
    ensures c.cwnd >= c.ssthresh ==> c.incr >= mss
  {
    hide GrowWindow, Grow, CongOk;
    if c.cwnd >= c.ssthresh {
      TwoCounted(c, mss);
    }
    if c.cwnd >= rmtWnd {
      NoGrowth(c, rmtWnd, mss);
    } else if c.cwnd < c.ssthresh {
      SlowStart(c, rmtWnd, mss);
    } else {
      Avoidance(c, rmtWnd, mss);
    }
  }

  lemma TwoCounted(c: Congestion, mss: int)
    requires mss > 0 && CongOk(c, mss) && c.cwnd >= c.ssthresh
    ensures c.incr >= 2 * mss
  {
    Counts(c, mss);
    Times(2, c.cwnd, mss);
  }

  /** What is counted stays far from 2^32. */
  lemma Bounded(c: Congestion, rmtWnd: int, mss: int)
    requires 0 < mss < U16 && CongOk(c, mss) && c.cwnd < rmtWnd < U16
    ensures 0 <= c.cwnd && c.cwnd * mss <= c.incr < (c.cwnd + 1) * mss <= (U16 - 1) * (U16 - 1)
    ensures mss * mss <= (U16 - 1) * (U16 - 1) && (c.cwnd + 2) * mss == (c.cwnd + 1) * mss + mss
  {
    Counts(c, mss);
    Times(c.cwnd + 1, U16 - 1, mss);
    Times(mss, U16 - 1, mss);
  }

  lemma NoGrowth(c: Congestion, rmtWnd: int, mss: int)
    requires c.cwnd >= rmtWnd
    ensures GrowWindow(c, rmtWnd, mss) == c
  {
  }

  lemma SlowStart(c: Congestion, rmtWnd: int, mss: int)
    requires 0 < mss < U16 && CongOk(c, mss) && c.cwnd < c.ssthresh && c.cwnd < rmtWnd < U16
    ensures GrowWindow(c, rmtWnd, mss) == Grow(c, mss) && CongOk(Grow(c, mss), mss) && Grow(c, mss).cwnd == c.cwnd + 1
  {
    hide Wrap32;
    Bounded(c, rmtWnd, mss);
    WrapSmall(c.cwnd + 1);
    WrapSmall(c.incr + mss);
    DivIs(c.incr + mss, mss, c.cwnd + 1);
  }

  lemma Avoidance(c: Congestion, rmtWnd: int, mss: int)
    requires 0 < mss < U16 && CongOk(c, mss) && c.cwnd >= c.ssthresh && c.cwnd < rmtWnd < U16
    ensures GrowWindow(c, rmtWnd, mss) == Grow(c, mss) && CongOk(Grow(c, mss), mss)
    ensures c.cwnd <= Grow(c, mss).cwnd <= c.cwnd + 1
  {
    hide Wrap32;
    Bounded(c, rmtWnd, mss);
    TwoCounted(c, mss);
    StepBelowMss(mss, c.incr);
    var step := mss * mss / c.incr;
    var incr := c.incr + step + mss / 16;
    WrapSmall(mss * mss);
    WrapSmall(incr);
    WrapSmall(c.cwnd + 1);
    WrapSmall((c.cwnd + 1) * mss);
    DivIs(incr, mss, if (c.cwnd + 1) * mss <= incr then c.cwnd + 1 else c.cwnd);
  }

  /** Loss recovery keeps the invariant. */
  lemma AfterLossKeeps(c: Congestion, inflight: int, fastresend: int, cwnd: int, mss: int, w: Sweep)
    requires 0 < mss < U16 && CongOk(c, mss) && 0 <= inflight < U16 && 0 <= cwnd && fastresend < I32 / U16
    ensures CongOk(AfterLoss(c, inflight, Resent(fastresend), cwnd, mss, w), mss)
    ensures AfterLoss(c, inflight, Resent(fastresend), cwnd, mss, w).cwnd >= 1
  {
    hide Wrap32, Resent;
    var thresh := if inflight / 2 < THRESH_MIN then THRESH_MIN else inflight / 2;
    var n := if fastresend > 0 then thresh + fastresend else thresh - 1;
    ResentSum(thresh, fastresend);
    WholeSegments(n, mss);
    WholeSegments(1, mss);
    Counts(c, mss);
  }

  lemma ResentSum(thresh: int, fastresend: int)
    requires 1 <= thresh < I32 / U16 && fastresend < I32 / U16
    ensures Wrap32(thresh + Resent(fastresend)) == if fastresend > 0 then thresh + fastresend else thresh - 1
  {
    hide Wrap32;
    if fastresend > 0 {
      WrapSmall(thresh + fastresend);
    } else {
      WrapIs(thresh + Resent(fastresend), 1, thresh - 1);
    }
  }

  /** A window of n whole segments in bytes. */
  lemma WholeSegments(n: int, mss: int)
    requires 0 <= n <= U16 && 0 < mss < U16
    ensures 0 <= n * mss && Wrap32(n * mss) == n * mss && n * mss / mss == n
  {
    hide Wrap32;
    Times(n, U16, mss);
    Times(0, n, mss);
    WrapSmall(n * mss);
    assert (n + 1) * mss == n * mss + mss;
    DivIs(n * mss, mss, n);
  }
}
