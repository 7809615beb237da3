/** invert_vdm: the fast inverse of a Vandermonde matrix (fec.c:566-631), and
    the exact condition under which its shortened inner loop is right. */
module Vandermonde {
  import opened Field
  import opened Linear
  import opened Polynomial
  import opened GaussJordan

  /** Row i holds the powers of p[i]. */
  ghost function VdmMatrix(p: Vec): (v: Matrix)
    ensures IsMatrix(v, |p|, |p|) && forall i :: 0 <= i < |p| ==> v[i] == PowerRow(p[i], |p|)
  {
    seq(|p|, i requires 0 <= i < |p| => PowerRow(p[i], |p|))
  }

  // ----- what any monic polynomial vanishing on the points yields -----

  /** Column r of the result: the quotient of a by y + p[r], divided by its
      value at p[r]. */
  ghost function ScaledQuotient(a: Vec, r: Gf): (c: Vec)
    requires |a| > 0
    ensures |c| == |a| - 1
    ensures forall i :: 0 <= i < |c| ==> c[i] == Mul(Inv(Eval(Quotient(a, r), r)), Quotient(a, r)[i])
  {
    seq(|a| - 1, i requires 0 <= i < |a| - 1 => Mul(Inv(Eval(Quotient(a, r), r)), Quotient(a, r)[i]))
  }

  ghost function ResultMatrix(a: Vec, p: Vec): (w: Matrix)
    requires |a| == |p| + 1
    ensures IsMatrix(w, |p|, |p|)
    ensures forall col, row :: 0 <= col < |p| && 0 <= row < |p| ==> w[col][row] == ScaledQuotient(a, p[row])[col]
  {
    seq(|p|, col requires 0 <= col < |p| =>
      seq(|p|, row requires 0 <= row < |p| => ScaledQuotient(a, p[row])[col]))
  }

  /** Column r, read as a polynomial, is 1 at p[r] and 0 at the other points. */
  lemma LagrangeBasis(a: Vec, p: Vec, r: nat, s: nat)
    requires |a| == |p| + 1 && a[|p|] == 1 && Distinct(p) && r < |p| && s < |p|
    requires forall i :: 0 <= i < |p| ==> Eval(a, p[i]) == 0
    ensures Eval(ScaledQuotient(a, p[r]), p[s]) == if s == r then 1 else 0
  {
    hide Xor, Mul, Inv, Eval;
    var q := Quotient(a, p[r]);
    forall i | 0 <= i < |p| && i != r ensures Eval(q, p[i]) == 0 {
      assert p[i] != p[r] by {
        if i < r { assert p[i] != p[r]; } else { assert p[r] != p[i]; }
      }
      Division(a, p[r], p[i]);
      XorZero(Mul(Xor(p[i], p[r]), Eval(q, p[i])));
      XorCancel(p[i], p[r]);
      MulNonzero(Xor(p[i], p[r]), Eval(q, p[i]));
    }
    var t := Eval(q, p[r]);
    LeadingOfQuotient(a, p[r]);
    if t == 0 {
      TooManyRoots(q, p);
    }
    EvalScale(q, Inv(t), ScaledQuotient(a, p[r]), p[s]);
    if s == r {
      MulInverse(t);
    } else {
      MulZero(Inv(t));
    }
  }

  lemma LastValue(q: Vec, x: Gf)
    requires |q| > 0
    ensures Eval(q[|q| - 1..], x) == q[|q| - 1]
  {
    hide Xor, Mul;
    var l := q[|q| - 1..];
    assert l[1..] == [];
    MulZero(x);
    XorZero(l[0]);
  }

  lemma LeadingOfQuotient(a: Vec, r: Gf)
    requires |a| >= 2
    ensures Quotient(a, r)[|a| - 2] == a[|a| - 1]
  {
    LastValue(a, r);
  }

  lemma ResultColumn(a: Vec, p: Vec, r: nat)
    requires |a| == |p| + 1 && r < |p|
    ensures Column(ResultMatrix(a, p), r) == ScaledQuotient(a, p[r])
  {
  }

  lemma RightInverseMaps(p: Vec, w: Matrix, y: Vec)
    requires IsMatrix(w, |p|, |p|) && |y| == |p|
    requires forall r, s :: 0 <= r < |p| && 0 <= s < |p| ==> Eval(Column(w, r), p[s]) == if s == r then 1 else 0
    ensures Maps(VdmMatrix(p), Apply(w, y, |p|), y, |p|)
  {
    hide Xor, Mul, Eval, Dot;
    var k, v := |p|, VdmMatrix(p);
    forall s | 0 <= s < k ensures y[s] == Dot(v[s], Apply(w, y, k), k) {
      forall r | 0 <= r < k ensures Unit(s, k)[r] == Dot(v[s], Column(w, r), k) {
        EvalDot(Column(w, r), p[s]);
      }
      DotAssoc(v[s], w, Unit(s, k), y, k, k);
      DotComm(Unit(s, k), y, k);
      DotUnit(y, s, k);
    }
  }

  /** A right inverse of a Vandermonde matrix is its inverse, because
      interpolation is unique. */
  lemma RightInverseInverts(p: Vec, w: Matrix)
    requires Distinct(p) && IsMatrix(w, |p|, |p|)
    requires forall r, s :: 0 <= r < |p| && 0 <= s < |p| ==> Eval(Column(w, r), p[s]) == if s == r then 1 else 0
    ensures Inverts(VdmMatrix(p), w, |p|)
  {
    hide Eval, Maps;
    forall x: Vec, y: Vec | |x| == |p| && |y| == |p|
      ensures Maps(VdmMatrix(p), x, y, |p|) <==> Maps(w, y, x, |p|)
    {
      RightInverseOnly(p, w, x, y);
    }
  }

  lemma RightInverseOnly(p: Vec, w: Matrix, x: Vec, y: Vec)
    requires Distinct(p) && IsMatrix(w, |p|, |p|) && |x| == |y| == |p|
    requires forall r, s :: 0 <= r < |p| && 0 <= s < |p| ==> Eval(Column(w, r), p[s]) == if s == r then 1 else 0
    ensures Maps(VdmMatrix(p), x, y, |p|) <==> Maps(w, y, x, |p|)
  {
    hide Eval, Dot;
    RightInverseMaps(p, w, y);
    var z := Apply(w, y, |p|);
    if Maps(w, y, x, |p|) {
      assert x == z;
    }
    if Maps(VdmMatrix(p), x, y, |p|) {
      SameImage(p, x, z, y);
    }
  }

  lemma SameImage(p: Vec, x: Vec, z: Vec, y: Vec)
    requires Distinct(p) && |x| == |z| == |y| == |p|
    requires Maps(VdmMatrix(p), x, y, |p|) && Maps(VdmMatrix(p), z, y, |p|)
    ensures x == z
  {
    hide Eval, Dot;
    forall s | 0 <= s < |p| ensures Eval(x, p[s]) == Eval(z, p[s]) {
      EvalDot(x, p[s]);
      EvalDot(z, p[s]);
    }
    InterpolationUnique(x, z, p);
  }

  lemma VanishingInverts(a: Vec, p: Vec)
    requires |a| == |p| + 1 && a[|p|] == 1 && Distinct(p)
    requires forall i :: 0 <= i < |p| ==> Eval(a, p[i]) == 0
    ensures Inverts(VdmMatrix(p), ResultMatrix(a, p), |p|)
  {
    hide Xor, Mul, Eval;
    forall r, s | 0 <= r < |p| && 0 <= s < |p|
      ensures Eval(Column(ResultMatrix(a, p), r), p[s]) == if s == r then 1 else 0
    {
      ResultColumn(a, p, r);
      LagrangeBasis(a, p, r, s);
    }
    RightInverseInverts(p, ResultMatrix(a, p));
  }

  /** Any values at distinct points are interpolated by some polynomial. */
  lemma InterpolationExists(p: Vec, y: Vec) returns (x: Vec)
    requires Distinct(p) && |y| == |p|
    ensures |x| == |p| && forall i :: 0 <= i < |p| ==> Eval(x, p[i]) == y[i]
  {
    hide Xor, Mul, Eval, Dot;
    var k, a := |p|, FromRoots(p, |p|);
    forall i | 0 <= i < k ensures Eval(a, p[i]) == 0 {
      FromRootsVanishes(p, k, p[i]);
    }
    VanishingInverts(a, p);
    var w := ResultMatrix(a, p);
    x := Apply(w, y, k);
    assert Maps(w, y, x, k);
    forall i | 0 <= i < k ensures Eval(x, p[i]) == y[i] {
      EvalDot(x, p[i]);
    }
  }

  // ----- what the shortened loop computes -----

  /** After i + 1 points: the product of the linear factors, except that each
      stage from the second on leaves its constant coefficient at 0. */
  ghost function ShortProduct(p: Vec, n: nat): (a: Vec)
    requires 0 < n <= |p|
    ensures |a| == n + 1 && a[n] == 1
  {
    if n == 1 then [p[0], 1] else TimesLinear(ShortProduct(p, n - 1), p[n - 1])[0 := 0]
  }

  /** The coefficient each stage omits is p[0] * ... * p[n-1]. */
  ghost function Product(p: Vec, n: nat): Gf
    requires n <= |p|
  {
    if n == 0 then 1 else Mul(p[n - 1], Product(p, n - 1))
  }

  lemma {:induction false} OmittedCoefficient(p: Vec, n: nat)
    requires n <= |p|
    ensures FromRoots(p, n)[0] == Product(p, n)
  {
    if n > 0 {
      OmittedCoefficient(p, n - 1);
    }
  }

  ghost predicate ZeroAmongFirstTwo(p: Vec) {
    (|p| > 0 && p[0] == 0) || (|p| > 1 && p[1] == 0)
  }

  lemma OneFactor(p: Vec)
    requires |p| > 0
    ensures FromRoots(p, 1) == [p[0], 1]
  {
    hide Mul;
    assert FromRoots(p, 0) == [1];
    MulOne(p[0]);
  }

  lemma {:induction false} ProductZero(p: Vec, n: nat)
    requires 2 <= n <= |p| && ZeroAmongFirstTwo(p)
    ensures Product(p, n) == 0
  {
    hide Mul;
    if n == 2 {
      assert Product(p, 2) == Mul(p[1], Product(p, 1));
      assert Product(p, 1) == Mul(p[0], Product(p, 0));
      MulOne(p[0]);
      MulZero(p[0]);
      MulZero(p[1]);
    } else {
      ProductZero(p, n - 1);
      MulZero(p[n - 1]);
    }
  }

  /** With 0 among the first two points nothing is lost. */
  lemma {:induction false} ShortProductFull(p: Vec, n: nat)
    requires 0 < n <= |p| && ZeroAmongFirstTwo(p)
    ensures ShortProduct(p, n) == FromRoots(p, n)
  {
    if n == 1 {
      OneFactor(p);
    } else {
      ShortProductFull(p, n - 1);
      OmittedCoefficient(p, n);
      ProductZero(p, n);
    }
  }

  /** With two points only the constant coefficient differs, and the synthetic
      division never looks at it. */
  lemma ShortProductOfTwo(p: Vec)
    requires |p| == 2
    ensures ShortProduct(p, 2) == FromRoots(p, 2)[0 := 0]
  {
    OneFactor(p);
  }

  lemma QuotientIgnoresConstant(a: Vec, b: Vec, r: Gf)
    requires |a| == |b| > 0 && a[1..] == b[1..]
    ensures Quotient(a, r) == Quotient(b, r)
  {
    hide Eval;
    forall i | 0 <= i < |a| - 1 ensures Quotient(a, r)[i] == Quotient(b, r)[i] {
      assert a[i + 1..] == a[1..][i..] && b[i + 1..] == b[1..][i..];
    }
  }

  lemma ConstantUnused(a: Vec, b: Vec, p: Vec)
    requires |a| == |b| == |p| + 1 && a[1..] == b[1..]
    ensures ResultMatrix(a, p) == ResultMatrix(b, p)
  {
    hide Mul, Inv, Eval;
    forall col | 0 <= col < |p| ensures ResultMatrix(a, p)[col] == ResultMatrix(b, p)[col] {
      forall row | 0 <= row < |p| ensures ResultMatrix(a, p)[col][row] == ResultMatrix(b, p)[col][row] {
        QuotientIgnoresConstant(a, b, p[row]);
      }
    }
  }

  /** From the second stage on the short product vanishes at 0 and behaves
      like a product again. */
  lemma {:induction false} EvalShortProduct(p: Vec, n: nat, y: Gf)
    requires 2 <= n <= |p|
    ensures ShortProduct(p, n)[0] == 0
    ensures n > 2 ==> Eval(ShortProduct(p, n), y) == Mul(Xor(y, p[n - 1]), Eval(ShortProduct(p, n - 1), y))
  {
    hide Xor, Mul, Eval;
    if n > 2 {
      EvalShortProduct(p, n - 1, y);
      var a := ShortProduct(p, n - 1);
      MulZero(p[n - 1]);
      assert TimesLinear(a, p[n - 1]) == ShortProduct(p, n);
      EvalTimesLinear(a, p[n - 1], y);
    }
  }

  /** Away from the later points, the first point is not a root. */
  lemma {:induction false} ShortProductAtFirst(p: Vec, n: nat)
    requires 2 <= n <= |p| && Distinct(p) && p[0] != 0 && p[1] != 0
    ensures Eval(ShortProduct(p, n), p[0]) != 0
  {
    hide Xor, Mul;
    if n == 2 {
      // y (y + p0 + p1) at y = p0 is p0 p1
      var a := ShortProduct(p, 2);
      assert ShortProduct(p, 1) == [p[0], 1];
      assert a == [0, Xor(p[0], Mul(p[1], 1)), 1];
      MulOne(p[1]);
      OfThree(Xor(p[0], p[1]), p[0]);
      XorAssoc(p[0], p[1], p[0]);
      XorComm(p[1], p[0]);
      XorCancel(p[0], p[1]);
      MulNonzero(p[0], p[1]);
    } else {
      hide Eval;
      ShortProductAtFirst(p, n - 1);
      EvalShortProduct(p, n, p[0]);
      MulNonzero(Xor(p[0], p[n - 1]), Eval(ShortProduct(p, n - 1), p[0]));
      XorCancel(p[0], p[n - 1]);
    }
  }

  lemma OfThree(c: Gf, y: Gf)
    ensures Eval([0, c, 1], y) == Mul(y, Xor(c, y))
  {
    hide Xor, Mul;
    var a: Vec := [0, c, 1];
    assert a[1..] == [c, 1] && a[1..][1..] == [1];
    assert Eval([1], y) == Xor(1, Mul(y, Eval([], y)));
    MulZero(y);
    XorZero(1);
    MulOne(y);
    XorZero(Mul(y, Eval([c, 1], y)));
  }

  /** With three or more points and neither of the first two zero, the result
      is wrong: its third column does not vanish at the first point, or is
      zero altogether. */
  lemma ShortProductFails(p: Vec)
    requires |p| >= 3 && Distinct(p) && p[0] != 0 && p[1] != 0
    ensures !Inverts(VdmMatrix(p), ResultMatrix(ShortProduct(p, |p|), p), |p|)
  {
    hide Xor, Mul, Inv, Eval, Dot, Inverts;
    var k, a := |p|, ShortProduct(p, |p|);
    var w, c, q := ResultMatrix(a, p), ScaledQuotient(a, p[2]), Quotient(a, p[2]);
    if Inverts(VdmMatrix(p), w, k) {
      InverseProduct(VdmMatrix(p), w, k);
      ResultColumn(a, p, 2);
      assert PowerRow(p[0], k) == VdmMatrix(p)[0] && PowerRow(p[2], k) == VdmMatrix(p)[2];
      EvalDot(c, p[0]);
      EvalDot(c, p[2]);
      assert Eval(c, p[0]) == 0 && Eval(c, p[2]) == 1;
      var t := Eval(q, p[2]);
      EvalScale(q, Inv(t), c, p[0]);
      EvalScale(q, Inv(t), c, p[2]);
      MulNonzero(Inv(t), Eval(q, p[0]));
      MulZero(t);
      ThirdIsRoot(p, k);
      Division(a, p[2], p[0]);
      XorZero(Mul(Xor(p[0], p[2]), Eval(q, p[0])));
      ShortProductAtFirst(p, k);
      MulZero(Xor(p[0], p[2]));
    }
  }

  lemma {:induction false} ThirdIsRoot(p: Vec, n: nat)
    requires 3 <= n <= |p|
    ensures Eval(ShortProduct(p, n), p[2]) == 0
  {
    hide Xor, Mul, Eval;
    EvalShortProduct(p, n, p[2]);
    if n == 3 {
      XorZero(p[2]);
      MulZero(Eval(ShortProduct(p, 2), p[2]));
    } else {
      ThirdIsRoot(p, n - 1);
      MulZero(Xor(p[2], p[n - 1]));
    }
  }

  /** Exactly when the shortened loop is correct: at most two points, or 0 is
      one of the first two. */
  lemma ShortcutCorrectness(p: Vec)
    requires |p| > 0 && Distinct(p)
    ensures Inverts(VdmMatrix(p), ResultMatrix(ShortProduct(p, |p|), p), |p|)
       <==> |p| <= 2 || ZeroAmongFirstTwo(p)
  {
    hide Xor, Mul, Inv, Eval, Inverts;
    var k, full := |p|, FromRoots(p, |p|);
    forall i | 0 <= i < k ensures Eval(full, p[i]) == 0 {
      FromRootsVanishes(p, k, p[i]);
    }
    VanishingInverts(full, p);
    if ZeroAmongFirstTwo(p) {
      ShortProductFull(p, k);
    } else if k == 1 {
      OneFactor(p);
    } else if k == 2 {
      ShortProductOfTwo(p);
      ConstantUnused(ShortProduct(p, 2), full, p);
    } else {
      ShortProductFails(p);
    }
  }

  // ----- the algorithm -----

  ghost function TopRows(m: array2<Gf>, k: nat): (r: Matrix)
    requires k <= m.Length0
    reads m
    ensures IsMatrix(r, k, m.Length1)
  {
    Rows(m)[..k]
  }

  /** The coefficient buffer holds a at its upper end, the leading 1 left
      implicit, and zeros below. */
  ghost predicate Holds(c: seq<Gf>, a: Vec)
    requires 0 < |a| <= |c| + 1
  {
    var z := |c| + 1 - |a|;
    forall j :: 0 <= j < |c| ==> c[j] == if j < z then 0 else a[j - z]
  }

  /** Lines 605-611. */
  method Coefficients(p: array<Gf>, k: nat) returns (c: array<Gf>)
    requires p.Length == k && k >= 2
    ensures fresh(c) && c.Length == k
    ensures c[..] + [1] == ShortProduct(p[..], k)
  {
    hide Xor, Mul, ShortProduct, TimesLinear;
    c := new Gf[k](_ => 0);
    c[k - 1] := p[0];
    ghost var q := p[..];
    ShortProductUnfold(q, 1);
    for i := 1 to k
      invariant Holds(c[..], ShortProduct(q, i))
    {
      ShortProductUnfold(q, i + 1);
      Stage(c, p[i], i, ShortProduct(q, i));
    }
  }

  /** One turn of the outer loop: one more factor. */
  method Stage(c: array<Gf>, p_i: Gf, i: nat, ghost a: Vec)
    requires 0 < i < c.Length && |a| == i + 1 && Holds(c[..], a) && a[i] == 1
    modifies c
    ensures Holds(c[..], TimesLinear(a, p_i)[0 := 0])
  {
    hide Xor, Mul, TimesLinear, Holds;
    var k := c.Length;
    ghost var old_c := c[..];
    for j := k - i to k - 1
      invariant forall l :: 0 <= l < k && !(k - i <= l < j) ==> c[l] == old_c[l]
      invariant forall l :: k - i <= l < j ==> c[l] == Xor(old_c[l], Mul(p_i, old_c[l + 1]))
    {
      c[j] := Xor(c[j], Mul(p_i, c[j + 1]));
    }
    c[k - 1] := Xor(c[k - 1], p_i);
    StageHolds(old_c, c[..], a, p_i);
  }

  lemma ShortProductUnfold(p: Vec, n: nat)
    requires 0 < n <= |p|
    ensures ShortProduct(p, n) == if n == 1 then [p[0], 1] else TimesLinear(ShortProduct(p, n - 1), p[n - 1])[0 := 0]
  {
  }

  lemma StageHolds(c: seq<Gf>, c': seq<Gf>, a: Vec, r: Gf)
    requires 1 < |a| <= |c| == |c'| && Holds(c, a) && a[|a| - 1] == 1
    requires forall l :: 0 <= l < |c| + 1 - |a| ==> c'[l] == c[l]
    requires forall l :: |c| + 1 - |a| <= l < |c| - 1 ==> c'[l] == Xor(c[l], Mul(r, c[l + 1]))
    requires c'[|c| - 1] == Xor(c[|c| - 1], r)
    ensures Holds(c', TimesLinear(a, r)[0 := 0])
  {
    hide Xor, Mul, TimesLinear;
    var z, b := |c| + 1 - |a|, TimesLinear(a, r);
    forall j | z <= j < |c| ensures c'[j] == b[j + 1 - z] {
      var l := j - z;
      assert b[l + 1] == Xor(a[l], Mul(r, a[l + 1]));
      assert c[j] == a[l];
      if j + 1 < |c| {
        assert c[j + 1] == a[l + 1];
      } else {
        MulOne(r);
      }
    }
    var b' := b[0 := 0];
    forall j | 0 <= j < |c| ensures c'[j] == if j < z - 1 then 0 else b'[j - (z - 1)] {
      if j < z {
        assert c[j] == 0;
      } else {
        assert b'[j + 1 - z] == b[j + 1 - z];
      }
    }
  }

  /** Lines 613-626 for one row: synthetic division, then one column of the
      result is stored. */
  method DivideRow(src: array2<Gf>, c: array<Gf>, xx: Gf, row: nat, k: nat)
    requires src.Length0 >= k && src.Length1 == k && c.Length == k && k >= 2 && row < k
    modifies src
    ensures forall i, j :: 0 <= i < src.Length0 && 0 <= j < k && !(i < k && j == row) ==> src[i, j] == old(src[i, j])
    ensures forall col :: 0 <= col < k ==> src[col, row] == ScaledQuotient(c[..] + [1], xx)[col]
  {
    hide Xor, Mul, Inv, Eval, Quotient, ScaledQuotient;
    ghost var a := c[..] + [1];
    var t: Gf := 1;
    var b := new Gf[k](_ => 0);
    b[k - 1] := 1;
    ghost var q := Quotient(a, xx);
    LeadingOfQuotient(a, xx);
    assert a[k] == 1 && q[k - 1] == 1;
    LastValue(q, xx);
    var i := k - 1;
    while i > 0
      invariant 0 <= i <= k - 1
      invariant forall j :: i <= j < k ==> b[j] == q[j]
      invariant t == Eval(q[i..], xx)
      modifies b
    {
      i := i - 1;
      DivisionStep(a, xx, i);
      assert a[i + 1] == c[i + 1];
      b[i] := Xor(c[i + 1], Mul(xx, b[i + 1]));
      t := Xor(Mul(xx, t), b[i]);
    }
    assert q[0..] == q;
    for col := 0 to k
      invariant forall i, j :: 0 <= i < src.Length0 && 0 <= j < k && !(i < k && j == row) ==>
        src[i, j] == old(src[i, j])
      invariant forall l :: 0 <= l < col ==> src[l, row] == ScaledQuotient(a, xx)[l]
      modifies src
    {
      src[col, row] := Mul(Inv(t), b[col]);
    }
  }

  lemma DivisionStep(a: Vec, x: Gf, i: nat)
    requires i + 2 < |a|
    ensures Quotient(a, x)[i] == Xor(a[i + 1], Mul(x, Quotient(a, x)[i + 1]))
    ensures Eval(Quotient(a, x)[i..], x) == Xor(Mul(x, Eval(Quotient(a, x)[i + 1..], x)), Quotient(a, x)[i])
  {
    hide Xor, Mul;
    var q := Quotient(a, x);
    assert a[i + 1..][1..] == a[i + 2..];
    assert q[i..][1..] == q[i + 1..];
    XorComm(Mul(x, Eval(q[i + 1..], x)), q[i]);
  }

  method StoreColumns(src: array2<Gf>, c: array<Gf>, p: array<Gf>, k: nat)
    requires src.Length0 >= k && src.Length1 == k && c.Length == k && p.Length == k && k >= 2
    modifies src
    ensures forall i, j :: k <= i < src.Length0 && 0 <= j < k ==> src[i, j] == old(src[i, j])
    ensures TopRows(src, k) == ResultMatrix(c[..] + [1], p[..])
  {
    hide Xor, Mul, Inv, Eval, ScaledQuotient, ResultMatrix;
    ghost var a := c[..] + [1];
    for row := 0 to k
      invariant forall i, j :: k <= i < src.Length0 && 0 <= j < k ==> src[i, j] == old(src[i, j])
      invariant forall i, j :: 0 <= i < k && 0 <= j < row ==> src[i, j] == ScaledQuotient(a, p[j])[i]
      modifies src
    {
      DivideRow(src, c, p[row], row, k);
    }
    assert forall i :: 0 <= i < k ==> TopRows(src, k)[i] == ResultMatrix(a, p[..])[i];
  }

  /** The points are read from the second column of the top block, which is
      overwritten; a 1 x 1 block is left alone. */
  method InvertVdm(src: array2<Gf>, k: nat, ghost p: Vec)
    requires 0 < k == |p| && src.Length0 >= k && src.Length1 == k
    requires k >= 2 ==> forall i :: 0 <= i < k ==> src[i, 1] == p[i]
    modifies src
    ensures forall i, j :: k <= i < src.Length0 && 0 <= j < k ==> src[i, j] == old(src[i, j])
    ensures k == 1 ==> TopRows(src, k) == old(TopRows(src, k))
    ensures k >= 2 ==> TopRows(src, k) == ResultMatrix(ShortProduct(p, k), p)
    ensures Distinct(p) && old(TopRows(src, k)) == VdmMatrix(p) ==>
      (Inverts(VdmMatrix(p), TopRows(src, k), k) <==> k <= 2 || ZeroAmongFirstTwo(p))
  {
    hide Inverts, ResultMatrix, TopRows, ShortProduct;
    if k == 1 {
      OneByOne(p);
      return;
    }
    var q := new Gf[k](i => 0);
    for i := 0 to k
      invariant forall j :: 0 <= j < i ==> q[j] == p[j]
      modifies q
    {
      q[i] := src[i, 1];
    }
    assert q[..] == p;
    var c := Coefficients(q, k);
    StoreColumns(src, c, q, k);
    if Distinct(p) {
      ShortcutCorrectness(p);
    }
  }

  lemma OneByOne(p: Vec)
    requires |p| == 1
    ensures Inverts(VdmMatrix(p), VdmMatrix(p), 1)
  {
    hide Xor, Mul;
    var v := VdmMatrix(p);
    assert v[0] == [1];
    forall x: Vec, y: Vec | |x| == 1 && |y| == 1 ensures Maps(v, x, y, 1) <==> Maps(v, y, x, 1) {
      forall z: Vec | |z| == 1 ensures Dot(v[0], z, 1) == z[0] {
        MulOne(z[0]);
        XorZero(z[0]);
        assert Dot(v[0], z, 0) == 0;
      }
    }
  }
}
