/** Polynomials over the field, low coefficient first: evaluation, division by
    a linear factor and the fact that a nonzero polynomial of degree below k
    has fewer than k roots. */
module Polynomial {
  import opened Field
  import opened Linear

  ghost function Power(x: Gf, j: nat): Gf {
    if j == 0 then 1 else Mul(x, Power(x, j - 1))
  }

  ghost function PowerRow(x: Gf, k: nat): (r: Vec)
    ensures |r| == k && forall j :: 0 <= j < k ==> r[j] == Power(x, j)
  {
    seq(k, j requires 0 <= j => Power(x, j))
  }

  ghost function Eval(a: Vec, x: Gf): Gf {
    if a == [] then 0 else Xor(a[0], Mul(x, Eval(a[1..], x)))
  }

  ghost predicate Distinct(p: Vec) {
    forall i, j :: 0 <= i < j < |p| ==> p[i] != p[j]
  }

  lemma {:induction false} EvalAppend(a: Vec, c: Gf, x: Gf)
    ensures Eval(a + [c], x) == Xor(Eval(a, x), Mul(Power(x, |a|), c))
  {
    hide Xor, Mul;
    if a == [] {
      assert Eval([c], x) == Xor(c, Mul(x, Eval([], x)));
      MulZero(x);
      MulOne(c);
      XorZero(c);
    } else {
      var t := a[1..];
      assert (a + [c])[1..] == t + [c];
      EvalAppend(t, c, x);
      MulDistrib(x, Eval(t, x), Mul(Power(x, |t|), c));
      MulAssoc(x, Power(x, |t|), c);
      XorAssoc(a[0], Mul(x, Eval(t, x)), Mul(Power(x, |a|), c));
    }
  }

  /** Evaluation is a row of the Vandermonde matrix times the coefficients. */
  lemma {:induction false} EvalIsDot(a: Vec, x: Gf, n: nat)
    requires n <= |a|
    ensures Eval(a[..n], x) == Dot(PowerRow(x, |a|), a, n)
  {
    hide Xor, Mul;
    if n > 0 {
      EvalIsDot(a, x, n - 1);
      assert a[..n] == a[..n - 1] + [a[n - 1]];
      EvalAppend(a[..n - 1], a[n - 1], x);
    }
  }

  lemma EvalDot(a: Vec, x: Gf)
    ensures Eval(a, x) == Dot(PowerRow(x, |a|), a, |a|)
  {
    EvalIsDot(a, x, |a|);
    assert a[..|a|] == a;
  }

  lemma {:induction false} EvalXor(a: Vec, b: Vec, c: Vec, x: Gf)
    requires |a| == |b| == |c| && forall i :: 0 <= i < |a| ==> c[i] == Xor(a[i], b[i])
    ensures Eval(c, x) == Xor(Eval(a, x), Eval(b, x))
  {
    hide Xor, Mul;
    if a == [] {
      XorZero(0);
    } else {
      EvalXor(a[1..], b[1..], c[1..], x);
      MulDistrib(x, Eval(a[1..], x), Eval(b[1..], x));
      XorSwap(a[0], b[0], Mul(x, Eval(a[1..], x)), Mul(x, Eval(b[1..], x)));
    }
  }

  lemma {:induction false} EvalScale(a: Vec, s: Gf, c: Vec, x: Gf)
    requires |a| == |c| && forall i :: 0 <= i < |a| ==> c[i] == Mul(s, a[i])
    ensures Eval(c, x) == Mul(s, Eval(a, x))
  {
    hide Xor, Mul;
    if a == [] {
      MulZero(s);
    } else {
      var e := Eval(a[1..], x);
      EvalScale(a[1..], s, c[1..], x);
      MulDistrib(s, a[0], Mul(x, e));
      MulAssoc(s, x, e);
      MulComm(s, x);
      MulAssoc(x, s, e);
    }
  }

  lemma {:induction false} EvalZeros(a: Vec, x: Gf)
    requires forall i :: 0 <= i < |a| ==> a[i] == 0
    ensures Eval(a, x) == 0
  {
    hide Xor, Mul;
    if a != [] {
      EvalZeros(a[1..], x);
      MulZero(x);
      XorZero(0);
    }
  }

  // ----- division by (y - r) -----

  /** Synthetic division: coefficient i of the quotient is the value at r of
      the coefficients above i. */
  ghost function Quotient(a: Vec, r: Gf): (q: Vec)
    requires |a| > 0
    ensures |q| == |a| - 1 && forall i :: 0 <= i < |q| ==> q[i] == Eval(a[i + 1..], r)
  {
    seq(|a| - 1, i requires 0 <= i < |a| - 1 => Eval(a[i + 1..], r))
  }

  lemma {:induction false} Division(a: Vec, r: Gf, y: Gf)
    requires |a| > 0
    ensures Eval(a, y) == Xor(Mul(Xor(y, r), Eval(Quotient(a, r), y)), Eval(a, r))
  {
    hide Xor, Mul;
    var t := a[1..];
    if t == [] {
      MulZero(y);
      MulZero(r);
      MulZero(Xor(y, r));
      XorZero(a[0]);
    } else {
      var q, q' := Quotient(a, r), Quotient(t, r);
      Division(t, r, y);
      assert q[0] == Eval(t, r);
      assert q[1..] == q' by {
        forall i | 0 <= i < |q'| ensures q[i + 1] == q'[i] {
          assert a[i + 2..] == t[i + 1..];
        }
      }
      var w, e, d := Eval(q', y), Eval(t, r), Xor(y, r);
      // y ((y + r) w + e) = (y + r) (y w + e) + r e
      assert Eval(q, y) == Xor(e, Mul(y, w));
      assert Eval(t, y) == Xor(Mul(d, w), e);
      MulDistrib(y, Mul(d, w), e);
      MulDistrib(d, e, Mul(y, w));
      MulAssoc(y, d, w);
      MulComm(y, d);
      MulAssoc(d, y, w);
      MulDistrib(e, y, r);
      var u, v, z := Mul(d, Mul(y, w)), Mul(y, e), Mul(r, e);
      assert Mul(y, Eval(t, y)) == Xor(u, v);
      assert Mul(d, Eval(q, y)) == Xor(Xor(v, z), u);
      XorComm(Xor(v, z), u);
      XorAssoc(u, v, z);
      XorCancel(Xor(u, v), z);
      XorComm(z, a[0]);
      XorAssoc(Mul(d, Eval(q, y)), z, a[0]);
      XorAssoc(Xor(u, v), z, z);
      XorZero(z);
      XorZero(Xor(u, v));
      XorComm(Xor(u, v), a[0]);
    }
  }

  /** The coefficients come back from the quotient and the remainder. */
  lemma QuotientZero(a: Vec, r: Gf)
    requires |a| > 0 && Eval(a, r) == 0
    requires forall i :: 0 <= i < |a| - 1 ==> Quotient(a, r)[i] == 0
    ensures forall i :: 0 <= i < |a| ==> a[i] == 0
  {
    hide Xor, Mul;
    forall i | 0 <= i < |a| ensures a[i] == 0 {
      assert Eval(a[i..], r) == 0 by {
        if i == 0 { assert a[0..] == a; } else { assert Quotient(a, r)[i - 1] == 0; }
      }
      assert a[i..][1..] == a[i + 1..];
      assert Eval(a[i + 1..], r) == 0 by {
        if i + 1 < |a| { assert Quotient(a, r)[i] == 0; }
      }
      assert a[i..][0] == a[i];
      MulZero(r);
      XorZero(a[i]);
    }
  }

  /** k distinct roots force a polynomial with k coefficients to be zero. */
  lemma {:induction false} TooManyRoots(a: Vec, p: Vec)
    requires |a| == |p| && Distinct(p)
    requires forall i :: 0 <= i < |p| ==> Eval(a, p[i]) == 0
    ensures forall i :: 0 <= i < |a| ==> a[i] == 0
    decreases |a|
  {
    hide Xor, Mul, Eval;
    if a != [] {
      var l := |a| - 1;
      var r, p' := p[l], p[..l];
      var q := Quotient(a, r);
      forall i | 0 <= i < |p'| ensures Eval(q, p'[i]) == 0 {
        Division(a, r, p[i]);
        XorZero(Mul(Xor(p[i], r), Eval(q, p[i])));
        XorCancel(p[i], r);
        MulNonzero(Xor(p[i], r), Eval(q, p[i]));
      }
      TooManyRoots(q, p');
      QuotientZero(a, r);
    }
  }

  /** Interpolation is unique. */
  lemma InterpolationUnique(a: Vec, b: Vec, p: Vec)
    requires |a| == |b| == |p| && Distinct(p)
    requires forall i :: 0 <= i < |p| ==> Eval(a, p[i]) == Eval(b, p[i])
    ensures a == b
  {
    hide Xor, Mul, Eval;
    var c := seq(|a|, i requires 0 <= i < |a| => Xor(a[i], b[i]));
    forall i | 0 <= i < |p| ensures Eval(c, p[i]) == 0 {
      assert Eval(a, p[i]) == Eval(b, p[i]);
      EvalXor(a, b, c, p[i]);
      XorCancel(Eval(a, p[i]), Eval(b, p[i]));
    }
    TooManyRoots(c, p);
    forall i | 0 <= i < |a| ensures a[i] == b[i] {
      assert c[i] == 0;
      XorCancel(a[i], b[i]);
    }
  }

  // ----- products of linear factors -----

  /** (y + r) times a. */
  ghost function TimesLinear(a: Vec, r: Gf): (c: Vec)
    requires |a| > 0
    ensures |c| == |a| + 1 && c[|a|] == a[|a| - 1] && c[0] == Mul(r, a[0])
    ensures forall j :: 0 < j < |a| ==> c[j] == Xor(a[j - 1], Mul(r, a[j]))
  {
    seq(|a| + 1, j requires 0 <= j <= |a| =>
      if j == 0 then Mul(r, a[0]) else if j == |a| then a[|a| - 1] else Xor(a[j - 1], Mul(r, a[j])))
  }

  lemma {:induction false} EvalTimesLinear(a: Vec, r: Gf, y: Gf)
    requires |a| > 0
    ensures Eval(TimesLinear(a, r), y) == Mul(Xor(y, r), Eval(a, y))
  {
    hide Xor, Mul, TimesLinear;
    var shifted: Vec := [0] + a;
    var padded: Vec := a + [0];
    var scaled := seq(|padded|, j requires 0 <= j < |padded| => Mul(r, padded[j]));
    var c := TimesLinear(a, r);
    forall j | 0 <= j < |c| ensures c[j] == Xor(shifted[j], scaled[j]) {
      MulZero(r);
      XorZero(Mul(r, a[0]));
      XorZero(a[|a| - 1]);
    }
    EvalXor(shifted, scaled, c, y);
    assert shifted[1..] == a;
    XorZero(Mul(y, Eval(a, y)));
    EvalScale(padded, r, scaled, y);
    EvalAppend(a, 0, y);
    MulZero(Power(y, |a|));
    XorZero(Eval(a, y));
    MulDistrib(Eval(a, y), y, r);
  }

  /** The monic polynomial with roots p[0], ..., p[n-1]. */
  ghost function FromRoots(p: Vec, n: nat): (a: Vec)
    requires n <= |p|
    ensures |a| == n + 1 && a[n] == 1
  {
    if n == 0 then [1] else TimesLinear(FromRoots(p, n - 1), p[n - 1])
  }

  lemma {:induction false} FromRootsVanishes(p: Vec, n: nat, y: Gf)
    requires n <= |p|
    ensures Eval(FromRoots(p, n), y) == 0 <==> exists i :: 0 <= i < n && p[i] == y
  {
    hide Xor, Mul;
    if n == 0 {
      assert FromRoots(p, 0)[1..] == [];
      assert Eval([1], y) == Xor(1, Mul(y, Eval([], y)));
      MulZero(y);
      XorZero(1);
    } else {
      hide Eval;
      FromRootsVanishes(p, n - 1, y);
      EvalTimesLinear(FromRoots(p, n - 1), p[n - 1], y);
      MulNonzero(Xor(y, p[n - 1]), Eval(FromRoots(p, n - 1), y));
      XorCancel(y, p[n - 1]);
    }
  }
}
