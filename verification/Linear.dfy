/** Vectors and matrices over the field, as values. */
module Linear {
  import opened Field

  type Vec = seq<Gf>
  type Matrix = seq<seq<Gf>>

  ghost predicate IsMatrix(a: Matrix, rows: nat, cols: nat) {
    |a| == rows && forall i :: 0 <= i < rows ==> |a[i]| == cols
  }

  /** u[0] v[0] + ... + u[n-1] v[n-1] */
  ghost function Dot(u: Vec, v: Vec, n: nat): Gf
    requires n <= |u| && n <= |v|
  {
    if n == 0 then 0 else Xor(Dot(u, v, n - 1), Mul(u[n - 1], v[n - 1]))
  }

  /** y = A x */
  ghost predicate Maps(a: Matrix, x: Vec, y: Vec, k: nat)
    requires IsMatrix(a, k, k) && |x| == k && |y| == k
  {
    forall i :: 0 <= i < k ==> y[i] == Dot(a[i], x, k)
  }

  /** B is the two-sided inverse of A: y = A x exactly when x = B y. */
  ghost predicate Inverts(a: Matrix, b: Matrix, k: nat) {
    IsMatrix(a, k, k) && IsMatrix(b, k, k)
    && forall x: Vec, y: Vec | |x| == k && |y| == k :: Maps(a, x, y, k) <==> Maps(b, y, x, k)
  }

  ghost predicate Nonsingular(a: Matrix, k: nat)
    requires IsMatrix(a, k, k)
  {
    exists b :: Inverts(a, b, k)
  }

  /** No x is mapped to y. */
  ghost predicate Unreachable(a: Matrix, y: Vec, k: nat)
    requires IsMatrix(a, k, k)
  {
    |y| == k && forall x: Vec | |x| == k :: !Maps(a, x, y, k)
  }

  /** A x for a matrix with any number of rows. */
  ghost function Apply(a: Matrix, x: Vec, k: nat): (y: Vec)
    requires |x| == k && forall i :: 0 <= i < |a| ==> |a[i]| == k
    ensures |y| == |a| && forall i :: 0 <= i < |a| ==> y[i] == Dot(a[i], x, k)
  {
    seq(|a|, i requires 0 <= i < |a| => Dot(a[i], x, k))
  }

  ghost function Unit(j: nat, k: nat): (e: Vec)
    requires j < k
    ensures |e| == k && forall i :: 0 <= i < k ==> e[i] == if i == j then 1 else 0
  {
    seq(k, i => if i == j then 1 else 0)
  }

  ghost function Column(a: Matrix, j: nat): (c: Vec)
    requires forall i :: 0 <= i < |a| ==> j < |a[i]|
    ensures |c| == |a| && forall i :: 0 <= i < |a| ==> c[i] == a[i][j]
  {
    seq(|a|, i requires 0 <= i < |a| => a[i][j])
  }

  lemma {:induction false} DotSame(u: Vec, v: Vec, u': Vec, v': Vec, n: nat)
    requires n <= |u| && n <= |v| && n <= |u'| && n <= |v'|
    requires forall i :: 0 <= i < n ==> Mul(u[i], v[i]) == Mul(u'[i], v'[i])
    ensures Dot(u, v, n) == Dot(u', v', n)
  {
    hide Xor, Mul;
    if n > 0 {
      DotSame(u, v, u', v', n - 1);
    }
  }

  lemma {:induction false} DotComm(u: Vec, v: Vec, n: nat)
    requires n <= |u| && n <= |v|
    ensures Dot(u, v, n) == Dot(v, u, n)
  {
    hide Xor, Mul;
    if n > 0 {
      DotComm(u, v, n - 1);
      MulComm(u[n - 1], v[n - 1]);
    }
  }

  /** Linearity: (u + s v) . c = u . c + s (v . c) */
  lemma {:induction false} DotCombine(w: Vec, u: Vec, s: Gf, v: Vec, c: Vec, n: nat)
    requires n <= |u| && n <= |v| && n <= |w| && n <= |c|
    requires forall i :: 0 <= i < n ==> w[i] == Xor(u[i], Mul(s, v[i]))
    ensures Dot(w, c, n) == Xor(Dot(u, c, n), Mul(s, Dot(v, c, n)))
  {
    hide Xor, Mul;
    if n == 0 {
      MulZero(s);
      XorZero(0);
    } else {
      DotCombine(w, u, s, v, c, n - 1);
      var i := n - 1;
      MulDistrib(c[i], u[i], Mul(s, v[i]));
      MulAssoc(s, v[i], c[i]);
      MulDistrib(s, Dot(v, c, i), Mul(v[i], c[i]));
      XorSwap(Dot(u, c, i), Mul(s, Dot(v, c, i)), Mul(u[i], c[i]), Mul(s, Mul(v[i], c[i])));
    }
  }

  lemma {:induction false} DotZero(u: Vec, v: Vec, n: nat)
    requires n <= |u| && n <= |v|
    requires forall i :: 0 <= i < n ==> u[i] == 0 || v[i] == 0
    ensures Dot(u, v, n) == 0
  {
    hide Xor, Mul;
    if n > 0 {
      DotZero(u, v, n - 1);
      MulZero(u[n - 1]);
      MulZero(v[n - 1]);
      XorZero(0);
    }
  }

  /** (s v) . c = s (v . c) */
  lemma DotScale(w: Vec, s: Gf, v: Vec, c: Vec, n: nat)
    requires n <= |v| && n <= |w| && n <= |c|
    requires forall i :: 0 <= i < n ==> w[i] == Mul(s, v[i])
    ensures Dot(w, c, n) == Mul(s, Dot(v, c, n))
  {
    hide Xor, Mul;
    var zero := seq(n, i => 0);
    forall i | 0 <= i < n ensures w[i] == Xor(zero[i], Mul(s, v[i])) {
      XorZero(Mul(s, v[i]));
    }
    DotCombine(w, zero, s, v, c, n);
    DotZero(zero, c, n);
    XorZero(Mul(s, Dot(v, c, n)));
  }

  /** One term taken out of the sum. */
  lemma {:induction false} DotSplit(u: Vec, v: Vec, q: nat, n: nat)
    requires q < n <= |u| && n <= |v|
    ensures Dot(u, v, n) == Xor(Dot(u[q := 0], v, n), Mul(u[q], v[q]))
  {
    hide Xor, Mul;
    var z := u[q := 0];
    var i := n - 1;
    MulZero(v[q]);
    if i == q {
      DotSame(u, v, z, v, i);
      XorZero(Dot(z, v, i));
    } else {
      DotSplit(u, v, q, i);
      XorAssoc(Dot(z, v, i), Mul(u[q], v[q]), Mul(u[i], v[i]));
      XorComm(Mul(u[q], v[q]), Mul(u[i], v[i]));
      XorAssoc(Dot(z, v, i), Mul(u[i], v[i]), Mul(u[q], v[q]));
    }
  }

  /** A zero coefficient hides the other factor. */
  lemma DotSplitNew(u: Vec, v: Vec, q: nat, a: Gf, b: Gf, n: nat)
    requires q < n <= |u| && n <= |v|
    ensures Dot(u[q := a], v[q := b], n) == Xor(Dot(u[q := 0], v, n), Mul(a, b))
  {
    hide Xor, Mul;
    var u', v' := u[q := a], v[q := b];
    DotSplit(u', v', q, n);
    assert u'[q := 0] == u[q := 0];
    forall i | 0 <= i < n ensures Mul(u[q := 0][i], v'[i]) == Mul(u[q := 0][i], v[i]) {
      MulZero(v'[i]);
      MulZero(v[i]);
    }
    DotSame(u[q := 0], v', u[q := 0], v, n);
  }

  lemma DotUnit(u: Vec, j: nat, k: nat)
    requires j < k <= |u|
    ensures Dot(u, Unit(j, k), k) == u[j]
  {
    hide Xor, Mul;
    var e := Unit(j, k);
    DotSplit(u, e, j, k);
    DotZero(u[j := 0], e, k);
    MulOne(u[j]);
    XorZero(u[j]);
  }

  /** (v W) . d = v . (W d), where v W is the combination of the first n rows. */
  lemma {:induction false} DotAssoc(v: Vec, w: Matrix, vw: Vec, d: Vec, n: nat, k: nat)
    requires n <= |v| && n <= |w| && |vw| == k && |d| == k
    requires forall i :: 0 <= i < |w| ==> |w[i]| == k
    requires forall j :: 0 <= j < k ==> vw[j] == Dot(v, Column(w, j), n)
    ensures Dot(vw, d, k) == Dot(v, Apply(w, d, k), n)
    decreases n
  {
    hide Xor, Mul;
    if n == 0 {
      DotZero(vw, d, k);
    } else {
      var m := n - 1;
      var part := seq(k, j requires 0 <= j < k => Dot(v, Column(w, j), m));
      DotAssoc(v, w, part, d, m, k);
      DotCombine(vw, part, v[m], w[m], d, k);
    }
  }

  /** The functional inverse is the inverse of the matrix product. */
  lemma InverseProduct(a: Matrix, b: Matrix, k: nat)
    requires Inverts(a, b, k)
    ensures forall i, j :: 0 <= i < k && 0 <= j < k ==> Dot(a[i], Column(b, j), k) == if i == j then 1 else 0
    ensures forall i, j :: 0 <= i < k && 0 <= j < k ==> Dot(b[i], Column(a, j), k) == if i == j then 1 else 0
  {
    hide Dot;
    forall j | 0 <= j < k
      ensures Maps(a, Column(b, j), Unit(j, k), k) && Maps(b, Column(a, j), Unit(j, k), k)
    {
      forall i | 0 <= i < k
        ensures Dot(b[i], Unit(j, k), k) == b[i][j] && Dot(a[i], Unit(j, k), k) == a[i][j]
      {
        DotUnit(b[i], j, k);
        DotUnit(a[i], j, k);
      }
      assert Maps(b, Unit(j, k), Column(b, j), k);
      assert Maps(a, Unit(j, k), Column(a, j), k);
    }
  }
}
