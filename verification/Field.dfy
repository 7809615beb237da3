/** The field GF(2^8) of fec.c: bytes, xor, multiplication by alpha, discrete
    logarithm and the product they define (fec.c:140-227, 279-338). */
module Field {
  import opened Bytes

  /** A field element, the source's `unsigned char` gf. */
  type Gf = Byte

  /** GF_SIZE: the number of nonzero elements, i.e. the order of alpha. */
  const GF_SIZE := 255

  // ----- xor -----

  function Pow2(n: nat): (p: nat)
    ensures p > 0
  {
    if n == 0 then 1 else 2 * Pow2(n - 1)
  }

  /** Bitwise exclusive or of two natural numbers. */
  function XorNat(a: nat, b: nat): nat {
    if a == 0 then b
    else if b == 0 then a
    else (if a % 2 == b % 2 then 0 else 1) + 2 * XorNat(a / 2, b / 2)
  }

  lemma {:induction false} XorNatBound(n: nat, a: nat, b: nat)
    requires a < Pow2(n) && b < Pow2(n)
    ensures XorNat(a, b) < Pow2(n)
  {
    if a > 0 && b > 0 {
      XorNatBound(n - 1, a / 2, b / 2);
    }
  }

  lemma Pow2Of8()
    ensures Pow2(8) == 256 && Pow2(7) == 128
  {
  }

  /** The C operator ^ on bytes. */
  function Xor(a: Gf, b: Gf): (r: Gf) {
    Pow2Of8();
    XorNatBound(8, a, b);
    XorNat(a, b)
  }

  lemma XorNatStep(a: nat, b: nat)
    ensures XorNat(a, b) % 2 == (if a % 2 == b % 2 then 0 else 1)
    ensures XorNat(a, b) / 2 == XorNat(a / 2, b / 2)
  {
    if a == 0 {
    } else if b == 0 {
    } else {
      assert XorNat(a, b) == (if a % 2 == b % 2 then 0 else 1) + 2 * XorNat(a / 2, b / 2);
      hide XorNat;
    }
  }

  lemma XorNatZero(a: nat)
    ensures XorNat(0, a) == a && XorNat(a, 0) == a
  {
  }

  lemma XorNatJoin(q: nat, x: nat, r: nat, y: nat)
    requires x <= 1 && y <= 1
    ensures XorNat(2 * q + x, 2 * r + y) == (if x == y then 0 else 1) + 2 * XorNat(q, r)
  {
    hide XorNat;
    XorNatStep(2 * q + x, 2 * r + y);
    Halves(q, x);
    Halves(r, y);
  }

  lemma Halves(q: nat, x: nat)
    requires x <= 1
    ensures (2 * q + x) / 2 == q && (2 * q + x) % 2 == x
  {
  }

  lemma {:induction false} XorNatAssoc(a: nat, b: nat, c: nat)
    ensures XorNat(XorNat(a, b), c) == XorNat(a, XorNat(b, c))
    decreases a + b + c
  {
    if a > 0 && b > 0 && c > 0 {
      XorNatStep(a, b);
      XorNatStep(b, c);
      XorNatStep(XorNat(a, b), c);
      XorNatStep(a, XorNat(b, c));
      XorNatAssoc(a / 2, b / 2, c / 2);
    }
  }

  lemma {:induction false} XorNatLaws(a: nat, b: nat)
    ensures XorNat(a, b) == XorNat(b, a)
    ensures XorNat(a, a) == 0
  {
    if a > 0 {
      XorNatLaws(a / 2, b / 2);
    }
  }

  lemma XorNatOfBits(u: nat, v: nat)
    requires u <= 1 && v <= 1
    ensures XorNat(u, v) == (if u == v then 0 else 1) && XorNat(0, 0) == 0
  {
  }

  /** Xor acts on the top bit (u and v are 0 or 2^n) and on the rest
      independently. */
  lemma {:induction false} XorNatTop(n: nat, u: nat, v: nat, a: nat, b: nat)
    requires a < Pow2(n) && b < Pow2(n)
    requires (u == 0 || u == Pow2(n)) && (v == 0 || v == Pow2(n))
    ensures XorNat(u + a, v + b) == (if u == v then 0 else Pow2(n)) + XorNat(a, b)
  {
    hide XorNat;
    if n == 0 {
      XorNatOfBits(u, v);
    } else {
      XorNatTopStep(n, u, v, a / 2, a % 2, b / 2, b % 2);
    }
  }

  lemma {:induction false} XorNatTopStep(n: nat, u: nat, v: nat, a: nat, x: nat, b: nat, y: nat)
    requires 0 < n && a < Pow2(n - 1) && b < Pow2(n - 1) && x <= 1 && y <= 1
    requires (u == 0 || u == Pow2(n)) && (v == 0 || v == Pow2(n))
    ensures XorNat(u + (2 * a + x), v + (2 * b + y)) == (if u == v then 0 else Pow2(n)) + XorNat(2 * a + x, 2 * b + y)
  {
    hide XorNat;
    var p := Pow2(n - 1);
    assert Pow2(n) == 2 * p;
    var u', v' := if u == 0 then 0 else p, if v == 0 then 0 else p;
    assert u == 2 * u' && v == 2 * v';
    XorNatTop(n - 1, u', v', a, b);
    XorNatJoin(u' + a, x, v' + b, y);
    XorNatJoin(a, x, b, y);
    assert u + (2 * a + x) == 2 * (u' + a) + x;
    assert v + (2 * b + y) == 2 * (v' + b) + y;
  }

  lemma XorComm(a: Gf, b: Gf)
    ensures Xor(a, b) == Xor(b, a)
  {
    XorNatLaws(a, b);
  }

  lemma XorAssoc(a: Gf, b: Gf, c: Gf)
    ensures Xor(Xor(a, b), c) == Xor(a, Xor(b, c))
  {
    XorNatAssoc(a, b, c);
  }

  lemma XorZero(a: Gf)
    ensures Xor(a, 0) == a && Xor(0, a) == a && Xor(a, a) == 0
  {
    XorNatLaws(a, a);
  }

  /** (a + b) + (c + d) = (a + c) + (b + d) */
  lemma XorSwap(a: Gf, b: Gf, c: Gf, d: Gf)
    ensures Xor(Xor(a, b), Xor(c, d)) == Xor(Xor(a, c), Xor(b, d))
  {
    hide Xor;
    XorAssoc(a, b, Xor(c, d));
    XorAssoc(b, c, d);
    XorComm(b, c);
    XorAssoc(c, b, d);
    XorAssoc(a, c, Xor(b, d));
  }

  /** Every element is its own negative. */
  lemma XorCancel(a: Gf, b: Gf)
    ensures Xor(a, Xor(a, b)) == b && Xor(Xor(a, b), b) == a
    ensures Xor(a, b) == 0 <==> a == b
  {
    hide Xor;
    XorAssoc(a, a, b);
    XorAssoc(a, b, b);
    XorZero(a);
    XorZero(b);
    if Xor(a, b) == 0 {
      assert b == Xor(a, 0);
    }
  }

  // ----- multiplication by alpha -----

  /** alpha^8 in polynomial form: 1 + x^2 + x^3 + x^4 (fec.c:157, 299-300). */
  const ALPHA8: Gf := 29

  /** alpha * x: shift left, folding an alpha^8 term back (fec.c:313-318). */
  function TimesAlpha(x: Gf): (r: Gf) {
    if x < 128 then 2 * x else Xor(ALPHA8, 2 * (x - 128))
  }

  lemma XorDouble(a: Gf, b: Gf)
    requires a < 128 && b < 128
    ensures Xor(a, b) < 128 && Xor(2 * a, 2 * b) == 2 * Xor(a, b)
  {
    Pow2Of8();
    XorNatBound(7, a, b);
    XorNatJoin(a, 0, b, 0);
    hide XorNat;
  }

  lemma XorTop(s: bool, t: bool, a: Gf, b: Gf)
    requires a < 128 && b < 128
    ensures Xor(a, b) < 128
    ensures Xor((if s then 128 else 0) + a, (if t then 128 else 0) + b) == (if s == t then 0 else 128) + Xor(a, b)
  {
    Pow2Of8();
    XorNatBound(7, a, b);
    XorNatTop(7, if s then 128 else 0, if t then 128 else 0, a, b);
  }

  lemma TimesAlphaLinear(x: Gf, y: Gf)
    ensures TimesAlpha(Xor(x, y)) == Xor(TimesAlpha(x), TimesAlpha(y))
  {
    hide Xor;
    var s, t := x >= 128, y >= 128;
    var a, b := if s then x - 128 else x, if t then y - 128 else y;
    XorTop(s, t, a, b);
    XorDouble(a, b);
    var u: Gf, v: Gf, c: Gf := 2 * a, 2 * b, ALPHA8;
    XorSwap(c, u, c, v);
    XorZero(c);
    XorZero(Xor(u, v));
    XorAssoc(c, u, v);
    XorAssoc(u, c, v);
    XorComm(u, c);
  }

  lemma TimesAlphaOnlyZero(x: Gf)
    ensures TimesAlpha(x) == 0 <==> x == 0
  {
    if x >= 128 {
      hide Xor;
      XorCancel(ALPHA8, 2 * (x - 128));
    }
  }

  lemma TimesAlphaInjective(x: Gf, y: Gf)
    requires TimesAlpha(x) == TimesAlpha(y)
    ensures x == y
  {
    hide Xor, TimesAlpha;
    TimesAlphaLinear(x, y);
    XorZero(TimesAlpha(y));
    TimesAlphaOnlyZero(Xor(x, y));
    XorCancel(x, y);
  }

  // ----- powers of alpha -----

  /** alpha^n * y */
  function Scale(n: nat, y: Gf): Gf {
    if n == 0 then y else TimesAlpha(Scale(n - 1, y))
  }

  /** alpha^n, the source's table gf_exp. */
  function Exp(n: nat): Gf {
    Scale(n, 1)
  }

  lemma {:induction false} ScaleAdd(m: nat, n: nat, y: Gf)
    ensures Scale(m + n, y) == Scale(m, Scale(n, y))
  {
    hide TimesAlpha;
    if m > 0 {
      ScaleAdd(m - 1, n, y);
    }
  }

  lemma {:induction false} ScaleLinear(n: nat, x: Gf, y: Gf)
    ensures Scale(n, Xor(x, y)) == Xor(Scale(n, x), Scale(n, y))
  {
    hide TimesAlpha, Xor;
    if n > 0 {
      ScaleLinear(n - 1, x, y);
      TimesAlphaLinear(Scale(n - 1, x), Scale(n - 1, y));
    }
  }

  lemma {:induction false} ScaleOnlyZero(n: nat, y: Gf)
    ensures Scale(n, y) == 0 <==> y == 0
  {
    hide TimesAlpha;
    if n > 0 {
      ScaleOnlyZero(n - 1, y);
      TimesAlphaOnlyZero(Scale(n - 1, y));
    }
  }

  lemma {:induction false} ScaleInjective(n: nat, x: Gf, y: Gf)
    requires Scale(n, x) == Scale(n, y)
    ensures x == y
  {
    hide TimesAlpha;
    if n > 0 {
      TimesAlphaInjective(Scale(n - 1, x), Scale(n - 1, y));
      ScaleInjective(n - 1, x, y);
    }
  }

  lemma ExpAdd(m: nat, n: nat)
    ensures Exp(m + n) == Scale(m, Exp(n)) && Exp(m + n) == Scale(n, Exp(m))
  {
    ScaleAdd(m, n, 1);
    ScaleAdd(n, m, 1);
  }

  lemma FoldValues()
    ensures Xor(29, 0) == 29 && Xor(29, 208) == 205 && Xor(29, 154) == 135
  {
    hide XorNat;
    XorZero(29);
    XorNatJoin(14, 1, 104, 0);
    XorNatJoin(7, 0, 52, 0);
    XorNatJoin(3, 1, 26, 0);
    XorNatJoin(1, 1, 13, 0);
    XorNatJoin(0, 1, 6, 1);
    XorNatJoin(14, 1, 77, 0);
    XorNatJoin(7, 0, 38, 1);
    XorNatJoin(3, 1, 19, 0);
    XorNatJoin(1, 1, 9, 1);
    XorNatJoin(0, 1, 4, 1);
    XorNatZero(6);
    XorNatZero(4);
  }

  lemma FoldValues2()
    ensures Xor(29, 14) == 19 && Xor(29, 48) == 45 && Xor(29, 104) == 117
  {
    hide XorNat;
    XorNatJoin(14, 1, 7, 0);
    XorNatJoin(7, 0, 3, 1);
    XorNatJoin(3, 1, 1, 1);
    XorNatJoin(1, 1, 0, 1);
    XorNatJoin(14, 1, 24, 0);
    XorNatJoin(7, 0, 12, 0);
    XorNatJoin(3, 1, 6, 0);
    XorNatJoin(1, 1, 3, 0);
    XorNatJoin(0, 1, 1, 1);
    XorNatJoin(14, 1, 52, 0);
    XorNatJoin(7, 0, 26, 0);
    XorNatJoin(3, 1, 13, 0);
    XorNatJoin(1, 1, 6, 1);
    XorNatJoin(0, 1, 3, 0);
    XorNatZero(1);
    XorNatZero(1);
    XorNatZero(3);
  }

  lemma FoldValues3()
    ensures Xor(29, 212) == 201 && Xor(29, 146) == 143 && Xor(29, 30) == 3
  {
    hide XorNat;
    XorNatJoin(14, 1, 106, 0);
    XorNatJoin(7, 0, 53, 0);
    XorNatJoin(3, 1, 26, 1);
    XorNatJoin(1, 1, 13, 0);
    XorNatJoin(0, 1, 6, 1);
    XorNatJoin(14, 1, 73, 0);
    XorNatJoin(7, 0, 36, 1);
    XorNatJoin(3, 1, 18, 0);
    XorNatJoin(1, 1, 9, 0);
    XorNatJoin(0, 1, 4, 1);
    XorNatJoin(14, 1, 15, 0);
    XorNatJoin(7, 0, 7, 1);
    XorNatLaws(7, 7);
    XorNatZero(6);
    XorNatZero(4);
    XorNatJoin(3, 1, 3, 1);
    XorNatLaws(3, 3);
    XorNatZero(1);
  }

  /** The powers up to 25 that the rest is computed from. */
  lemma SmallPowers()
    ensures Exp(1) == 2 && Exp(3) == 8 && Exp(5) == 32 && Exp(7) == 128
    ensures Exp(10) == 116 && Exp(11) == 232 && Exp(12) == 205 && Exp(13) == 135
    ensures Exp(15) == 38 && Exp(25) == 3
  {
    hide Xor;
    FoldValues();
    FoldValues2();
    FoldValues3();
    assert Exp(4) == 16;
    assert Exp(7) == 128;
    assert Exp(9) == 58;
    assert Exp(12) == 205;
    assert Exp(15) == 38;
    assert Exp(18) == 45;
    assert Exp(20) == 180;
    assert Exp(23) == 201;
  }

  /** alpha^s = 1 + alpha^t gives alpha^2s = 1 + alpha^2t. */
  lemma Binomial(s: nat, t: nat, j: nat)
    requires Exp(s) == Xor(1, Exp(t))
    ensures Exp(j + s) == Xor(Exp(j), Exp(j + t))
    ensures Exp(2 * s) == Xor(1, Exp(2 * t))
  {
    hide Xor, TimesAlpha;
    forall i: nat ensures Exp(i + s) == Xor(Exp(i), Exp(i + t)) {
      ExpAdd(i, s);
      ScaleLinear(i, 1, Exp(t));
      ExpAdd(i, t);
    }
    var e0: Gf, e1, e2 := 1, Exp(t), Exp(2 * t);
    assert Exp(0 + s) == Xor(e0, e1) && Exp(t + s) == Xor(e1, e2);
    assert Exp(s + s) == Xor(Xor(e0, e1), Xor(e1, e2));
    XorAssoc(Xor(e0, e1), e1, e2);
    XorCancel(e0, e1);
  }

  lemma XorValues()
    ensures Xor(1, 2) == 3 && Xor(32, 128) == 160 && Xor(135, 38) == 161 && Xor(160, 161) == 1
    ensures Xor(2, 8) != 1 && Xor(Xor(116, 205), Xor(232, 135)) != 1
  {
    hide XorNat;
    XorNatJoin(16, 0, 64, 0);
    XorNatJoin(8, 0, 32, 0);
    XorNatJoin(4, 0, 16, 0);
    XorNatJoin(2, 0, 8, 0);
    XorNatJoin(1, 0, 4, 0);
    XorNatJoin(0, 1, 2, 0);
    XorNatJoin(67, 1, 19, 0);
    XorNatJoin(33, 1, 9, 1);
    XorNatJoin(16, 1, 4, 1);
    XorNatJoin(8, 0, 2, 0);
    XorNatJoin(4, 0, 1, 0);
    XorNatJoin(2, 0, 0, 1);
    XorNatJoin(80, 0, 80, 1);
    XorNatLaws(80, 80);
    XorNatStep(2, 8);
    XorNatStep(116, 205);
    XorNatStep(232, 135);
    XorNatStep(Xor(116, 205), Xor(232, 135));
    XorNatJoin(0, 1, 1, 0);
    XorNatZero(1);
    XorNatZero(2);
  }

  /** alpha has order 255: 255 = 3 * 85 = 5 * 51 = 17 * 15. */
  lemma AlphaPowers()
    ensures Exp(255) == 1 && Exp(85) != 1 && Exp(51) != 1 && Exp(15) != 1
  {
    hide Xor, TimesAlpha, Exp;
    SmallPowers();
    XorValues();
    Binomial(25, 1, 60);
    Binomial(50, 2, 1);
    Binomial(50, 2, 10);
    Binomial(50, 2, 11);
    Binomial(50, 2, 5);
    Binomial(50, 2, 13);
    Binomial(100, 4, 0);
    Binomial(200, 8, 55);
  }

  // ----- alpha has order exactly 255 -----

  /** n is a period of the sequence 1, alpha, alpha^2, ... */
  predicate Period(n: nat) {
    Exp(n) == 1
  }

  lemma PeriodDifference(a: nat, b: nat)
    requires Period(a) && Period(a + b)
    ensures Period(b)
  {
    hide TimesAlpha;
    ExpAdd(b, a);
    ExpAdd(a, b);
    ScaleInjective(a, Exp(b), 1);
  }

  lemma {:induction false} PeriodMultiple(a: nat, n: nat)
    requires Period(a)
    ensures Period(a * n)
  {
    hide TimesAlpha;
    if n > 0 {
      PeriodMultiple(a, n - 1);
      ExpAdd(a, a * (n - 1));
      assert a * n == a + a * (n - 1);
    }
  }

  /** Two periods r * c and p * c, p prime, reduce to the period c
      (Euclid's algorithm on r and p). */
  lemma {:induction false} PeriodGcd(c: nat, r: nat, p: nat) returns (g: nat, x: nat, y: nat)
    requires 0 < r && 0 < p && Period(c * r) && Period(c * p)
    ensures 0 < g && r == g * x && p == g * y && Period(c * g)
    decreases r + p
  {
    hide Period;
    if r == p {
      g, x, y := r, 1, 1;
    } else if r < p {
      assert c * p == c * r + c * (p - r);
      PeriodDifference(c * r, c * (p - r));
      g, x, y := PeriodGcd(c, r, p - r);
      assert g * (x + y) == g * x + g * y;
      y := x + y;
    } else {
      assert c * r == c * p + c * (r - p);
      PeriodDifference(c * p, c * (r - p));
      g, x, y := PeriodGcd(c, r - p, p);
      assert g * (x + y) == g * x + g * y;
      x := x + y;
    }
  }

  lemma SmallFactor(g: nat, y: nat)
    ensures g < 5 ==>
      g * y == if g == 0 then 0 else if g == 1 then y else if g == 2 then y + y else if g == 3 then 3 * y else 4 * y
    ensures g >= 5 && y >= 5 ==> g * y >= 25
  {
    if g >= 5 && y >= 5 {
      assert g * y >= 5 * y;
    }
  }

  lemma PrimeFactor(p: nat, g: nat, y: nat)
    requires (p == 3 || p == 5 || p == 17) && g * y == p && g < p
    ensures g == 1
  {
    SmallFactor(g, y);
    SmallFactor(y, g);
  }

  lemma PeriodReduces(c: nat, p: nat, r: nat)
    requires p == 3 || p == 5 || p == 17
    requires 0 < r < p && Period(c * r) && Period(c * p)
    ensures Period(c)
  {
    hide Period;
    var g, x, y := PeriodGcd(c, r, p);
    assert g <= g * x by {
      if x > 0 { assert g * x >= g * 1; }
    }
    PrimeFactor(p, g, y);
  }

  /** A period d is a multiple of every prime factor p of 255. */
  lemma PeriodDividedBy(c: nat, p: nat, d: nat)
    requires (c, p) == (85, 3) || (c, p) == (51, 5) || (c, p) == (15, 17)
    requires Period(d)
    ensures d % p == 0
  {
    hide TimesAlpha, Exp;
    var q, r := d / p, d % p;
    if r != 0 {
      PeriodMultiple(d, c);
      assert Exp(255) == 1 by { AlphaPowers(); }
      PeriodMultiple(255, q);
      assert d * c == 255 * q + c * r;
      PeriodDifference(255 * q, c * r);
      PeriodReduces(c, p, r);
      AlphaPowers();
    }
  }

  lemma NoShorterPeriod(d: nat)
    requires 0 < d < 255
    ensures Exp(d) != 1
  {
    hide Exp;
    if Exp(d) == 1 {
      PeriodDividedBy(85, 3, d);
      PeriodDividedBy(51, 5, d);
      PeriodDividedBy(15, 17, d);
    }
  }

  lemma ExpInjective(i: nat, j: nat)
    requires i < 255 && j < 255 && Exp(i) == Exp(j)
    ensures i == j
  {
    if i > j {
      ExpInjective(j, i);
    } else if i < j {
      hide TimesAlpha;
      ExpAdd(i, j - i);
      ScaleInjective(i, Exp(j - i), 1);
      NoShorterPeriod(j - i);
    }
  }

  /** gf_exp repeats with period 255, which is what modnn relies on. */
  lemma {:induction false} ExpMod(n: nat)
    ensures Exp(n) == Exp(n % 255)
    decreases n
  {
    hide TimesAlpha, Exp;
    if n >= 255 {
      AlphaPowers();
      ExpAdd(n - 255, 255);
      assert Exp(n - 255) == Scale(n - 255, 1) by { ExpIsScale(n - 255); }
      ExpMod(n - 255);
    }
  }

  /** Alpha generates: a power of it is 1 exactly at the multiples of 255. */
  lemma OrderOfAlpha(n: nat)
    ensures Exp(n) == 1 <==> n % 255 == 0
  {
    hide TimesAlpha, Exp;
    ExpMod(n);
    if n % 255 != 0 {
      NoShorterPeriod(n % 255);
    } else {
      ExpAtZero();
    }
  }

  /** The field polynomial is 1 + x^2 + x^3 + x^4 + x^8: the generator is 2 and
      its eighth power 16 + 8 + 4 + 1. */
  lemma FieldPolynomial()
    ensures Exp(1) == 2 && Exp(8) == 16 + 8 + 4 + 1
  {
    hide Xor;
    XorZero(ALPHA8);
    assert Exp(4) == 16;
    assert Exp(7) == 128;
  }

  lemma ExpAtZero()
    ensures Exp(0) == 1
  {
  }

  lemma ExpIsScale(n: nat)
    ensures Exp(n) == Scale(n, 1) && Exp(n) != 0
  {
    hide TimesAlpha;
    ScaleOnlyZero(n, 1);
  }

  // ----- discrete logarithm -----

  ghost function Powers(n: nat): set<int> {
    set i | 0 <= i < n :: Exp(i) as int
  }

  lemma {:induction false} PowersSize(n: nat)
    requires n <= 255
    ensures |Powers(n)| == n
  {
    hide Exp, Powers;
    PowersNone();
    if n > 0 {
      PowersSize(n - 1);
      PowersMore(n - 1);
      NewPower(n - 1);
    }
  }

  lemma PowersNone()
    ensures Powers(0) == {}
  {
  }

  lemma PowersMore(n: nat)
    ensures Powers(n + 1) == Powers(n) + {Exp(n) as int}
  {
    hide Exp;
  }

  lemma NewPower(n: nat)
    requires n < 255
    ensures Exp(n) as int !in Powers(n)
  {
    hide Exp;
    forall i | 0 <= i < n ensures Exp(i) != Exp(n) {
      if Exp(i) == Exp(n) {
        ExpInjective(i, n);
      }
    }
  }

  ghost function UpTo(n: nat): (s: set<int>)
    ensures |s| == n && forall x :: x in s <==> 1 <= x <= n
  {
    if n == 0 then {} else UpTo(n - 1) + {n}
  }

  lemma SubsetOfEqualSize(a: set<int>, b: set<int>)
    requires a <= b && |a| == |b|
    ensures a == b
  {
    assert b == a + (b - a);
    assert |b - a| == 0;
  }

  /** alpha is primitive: its powers are exactly the nonzero bytes. */
  lemma EveryNonzeroIsAPower(x: Gf)
    requires x != 0
    ensures exists i: nat :: i < 255 && Exp(i) == x
  {
    hide Exp;
    var n := 255;
    PowersSize(n);
    forall y | y in Powers(n) ensures y in UpTo(n) {
      var i :| 0 <= i < n && Exp(i) as int == y;
      ExpIsScale(i);
    }
    SubsetOfEqualSize(Powers(n), UpTo(n));
    assert x as int in UpTo(n);
    assert x as int in Powers(n);
  }

  function LogFrom(x: Gf, i: nat): (r: nat)
    requires i < 255 && exists j: nat :: i <= j < 255 && Exp(j) == x
    ensures r < 255 && Exp(r) == x
    decreases 255 - i
  {
    if Exp(i) == x then i else LogFrom(x, i + 1)
  }

  /** The table gf_log: the exponent of a nonzero element. */
  function Log(x: Gf): (r: nat)
    requires x != 0
    ensures r < 255 && Exp(r) == x
  {
    EveryNonzeroIsAPower(x);
    LogFrom(x, 0)
  }

  // ----- the product and the inverse -----

  /** gf_mul(x, y): add the logarithms (fec.c:221-230). */
  function Mul(x: Gf, y: Gf): Gf {
    if x == 0 || y == 0 then 0 else Exp((Log(x) + Log(y)) % 255)
  }

  /** The table inverse; inverse[0] is 0. */
  function Inv(x: Gf): Gf {
    if x == 0 then 0 else Exp(255 - Log(x))
  }

  lemma MulIsScale(x: Gf, y: Gf)
    requires x != 0
    ensures Mul(x, y) == Scale(Log(x), y)
  {
    hide TimesAlpha, Scale, Exp, Log;
    if y == 0 {
      ScaleOnlyZero(Log(x), 0);
    } else {
      ExpMod(Log(x) + Log(y));
      ExpAdd(Log(x), Log(y));
    }
  }

  lemma MulComm(x: Gf, y: Gf)
    ensures Mul(x, y) == Mul(y, x)
  {
  }

  lemma MulZero(x: Gf)
    ensures Mul(x, 0) == 0 && Mul(0, x) == 0
  {
  }

  lemma MulNonzero(x: Gf, y: Gf)
    ensures Mul(x, y) == 0 <==> x == 0 || y == 0
  {
    hide Exp;
    if x != 0 && y != 0 {
      ExpIsScale((Log(x) + Log(y)) % 255);
    }
  }

  lemma MulOne(x: Gf)
    ensures Mul(1, x) == x && Mul(x, 1) == x
  {
    assert Exp(0) == 1;
    ExpInjective(Log(1), 0);
    MulIsScale(1, x);
    MulComm(x, 1);
  }

  lemma LogOfPower(n: nat)
    ensures Exp(n) != 0 && Log(Exp(n)) == n % 255
  {
    hide TimesAlpha;
    ExpIsScale(n);
    ExpMod(n);
    ExpInjective(Log(Exp(n)), n % 255);
  }

  lemma ModAdd(i: nat, j: nat)
    ensures (i % 255 + j % 255) % 255 == (i + j) % 255
  {
  }

  /** Logarithms add: the law behind the 256 x 256 table. */
  lemma MulOfPowers(i: nat, j: nat)
    ensures Mul(Exp(i), Exp(j)) == Exp(i + j)
  {
    hide Exp;
    LogOfPower(i);
    LogOfPower(j);
    ExpMod(i + j);
    ModAdd(i, j);
  }

  lemma MulAssoc(x: Gf, y: Gf, z: Gf)
    ensures Mul(Mul(x, y), z) == Mul(x, Mul(y, z))
  {
    hide Exp, Log;
    if x != 0 && y != 0 && z != 0 {
      hide Mul;
      var i, j, k := Log(x), Log(y), Log(z);
      MulOfPowers(i, j);
      MulOfPowers(j, k);
      MulOfPowers(i + j, k);
      MulOfPowers(i, j + k);
      assert (i + j) + k == i + (j + k);
    }
  }

  lemma MulDistrib(x: Gf, y: Gf, z: Gf)
    ensures Mul(x, Xor(y, z)) == Xor(Mul(x, y), Mul(x, z))
    ensures Mul(Xor(y, z), x) == Xor(Mul(y, x), Mul(z, x))
  {
    hide Xor, Exp;
    if x == 0 {
      XorZero(0);
    } else {
      MulIsScale(x, Xor(y, z));
      MulIsScale(x, y);
      MulIsScale(x, z);
      ScaleLinear(Log(x), y, z);
    }
    MulComm(x, Xor(y, z));
    MulComm(x, y);
    MulComm(x, z);
  }

  lemma MulInverse(x: Gf)
    requires x != 0
    ensures Inv(x) != 0 && Mul(x, Inv(x)) == 1 && Mul(Inv(x), x) == 1
  {
    hide Mul, Exp, TimesAlpha, Log;
    MulOfPowers(Log(x), 255 - Log(x));
    AlphaPowers();
    ExpIsScale(255 - Log(x));
    MulComm(x, Inv(x));
  }
}
