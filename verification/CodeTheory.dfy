/** The code behind fec_new, without any arrays: its evaluation points, what
    an encoded symbol means, and why any k rows of the encoding matrix are
    independent. */
module CodeTheory {
  import opened Field
  import opened Linear
  import opened Polynomial
  import opened Vandermonde

  /** Evaluation point of row i: 0, 1, alpha, alpha^2, ... (fec.c:698-708). */
  ghost function Point(i: nat): Gf {
    if i == 0 then 0 else Exp(i - 1)
  }

  ghost function Points(k: nat): (p: Vec)
    ensures |p| == k && forall i :: 0 <= i < k ==> p[i] == Point(i)
  {
    seq(k, i requires 0 <= i => Point(i))
  }

  lemma PointsDiffer(i: nat, j: nat)
    requires i < j < 256
    ensures Point(i) != Point(j)
  {
    hide Exp;
    if i == 0 {
      ExpIsScale(j - 1);
    } else if Exp(i - 1) == Exp(j - 1) {
      ExpInjective(i - 1, j - 1);
    }
  }

  lemma PointsDistinct(k: nat)
    requires k <= 256
    ensures Distinct(Points(k))
  {
    hide Point;
    forall i, j | 0 <= i < j < k ensures Points(k)[i] != Points(k)[j] {
      PointsDiffer(i, j);
    }
  }

  /** gf_exp[modnn(row * col)] is the power of the point. */
  lemma {:induction false} PowerOfAlpha(r: nat, j: nat)
    ensures Power(Exp(r), j) == Exp(r * j)
  {
    hide Exp, Mul;
    if j == 0 {
      assert Exp(0) == 1 by { ExpAtZero(); }
      assert r * 0 == 0;
    } else {
      PowerOfAlpha(r, j - 1);
      MulOfPowers(r, r * (j - 1));
      assert r + r * (j - 1) == r * j;
    }
  }

  lemma PowerOfZero(j: nat)
    ensures Power(0, j) == if j == 0 then 1 else 0
  {
    hide Mul;
    if j > 0 {
      MulZero(Power(0, j - 1));
    }
  }

  // ----- the meaning of an encoded symbol -----

  lemma InterpolantExists(d: Vec)
    requires |d| <= 256
    ensures exists x: Vec :: |x| == |d| && forall j :: 0 <= j < |d| ==> Eval(x, Point(j)) == d[j]
  {
    hide Eval, Point;
    PointsDistinct(|d|);
    var x := InterpolationExists(Points(|d|), d);
    assert forall j :: 0 <= j < |d| ==> Eval(x, Points(|d|)[j]) == d[j];
  }

  /** The polynomial of degree below k whose values at the first k points are
      the data symbols; InterpolantUnique shows there is only one. */
  ghost function Interpolant(d: Vec): (x: Vec)
    requires |d| <= 256
    ensures |x| == |d| && forall j :: 0 <= j < |d| ==> Eval(x, Point(j)) == d[j]
  {
    InterpolantExists(d);
    var x: Vec :| |x| == |d| && forall j :: 0 <= j < |d| ==> Eval(x, Point(j)) == d[j];
    x
  }

  lemma InterpolantUnique(d: Vec, x: Vec)
    requires |d| <= 256 && |x| == |d| && forall j :: 0 <= j < |d| ==> Eval(x, Point(j)) == d[j]
    ensures x == Interpolant(d)
  {
    hide Eval, Point;
    PointsDistinct(|d|);
    var y := Interpolant(d);
    forall j | 0 <= j < |d| ensures Eval(x, Points(|d|)[j]) == Eval(y, Points(|d|)[j]) {
    }
    InterpolationUnique(x, y, Points(|d|));
  }

  /** Symbol i of the codeword of d. */
  ghost function Symbol(d: Vec, i: nat): (s: Gf)
    requires |d| <= 256
    ensures i < |d| ==> s == d[i]
  {
    Eval(Interpolant(d), Point(i))
  }

  // ----- the encoding matrix -----

  /** e is an n x k matrix: the identity above V w, where V holds powers of the
      remaining points and w inverts the Vandermonde matrix of the first k. */
  ghost predicate IsEncoder(e: Matrix, w: Matrix, k: nat, n: nat) {
    IsMatrix(e, n, k) && 0 < k <= n <= 256
    && Inverts(VdmMatrix(Points(k)), w, k)
    && (forall i :: 0 <= i < k ==> e[i] == Unit(i, k))
    && forall i, j :: k <= i < n && 0 <= j < k ==> e[i][j] == Dot(PowerRow(Point(i), k), Column(w, j), k)
  }

  /** Row i of the encoding matrix evaluates the interpolant at point i. */
  lemma EncoderRow(e: Matrix, w: Matrix, k: nat, n: nat, d: Vec, i: nat)
    requires IsEncoder(e, w, k, n) && |d| == k && i < n
    ensures Dot(e[i], d, k) == Symbol(d, i)
  {
    hide Eval, Dot, Point, Mul, Xor;
    if i < k {
      DotComm(e[i], d, k);
      DotUnit(d, i, k);
    } else {
      var p, x := Points(k), Apply(w, d, k);
      assert Maps(w, d, x, k) && Maps(VdmMatrix(p), x, d, k);
      forall j | 0 <= j < k ensures Eval(x, Point(j)) == d[j] {
        assert d[j] == Dot(VdmMatrix(p)[j], x, k);
        EvalDot(x, Point(j));
      }
      InterpolantUnique(d, x);
      DotAssoc(PowerRow(Point(i), k), w, e[i], d, k, k);
      EvalDot(x, Point(i));
    }
  }

  /** The k x k matrix of the received rows. */
  ghost function DecodeMatrix(e: Matrix, index: seq<nat>, k: nat): (m: Matrix)
    requires |index| == k && forall i :: 0 <= i < k ==> index[i] < |e|
    ensures |m| == k && forall i :: 0 <= i < k ==> m[i] == e[index[i]]
  {
    seq(k, i requires 0 <= i < k => e[index[i]])
  }

  ghost predicate DistinctIndex(index: seq<nat>) {
    forall i, j :: 0 <= i < j < |index| ==> index[i] != index[j]
  }

  /** Any values at k distinct points come from some data. */
  lemma DecodeMatrixReaches(e: Matrix, w: Matrix, k: nat, n: nat, index: seq<nat>, y: Vec) returns (d: Vec)
    requires IsEncoder(e, w, k, n) && |index| == k && |y| == k
    requires (forall i :: 0 <= i < k ==> index[i] < n) && DistinctIndex(index)
    ensures |d| == k && Maps(DecodeMatrix(e, index, k), d, y, k)
  {
    hide Eval, Dot, Point, IsEncoder;
    assert IsMatrix(e, n, k) && k <= n <= 256 by { EncoderShape(e, w, k, n); }
    PointsAtDiffer(index);
    var p := PointsAt(index);
    var x := InterpolationExists(p, y);
    d := seq(k, j requires 0 <= j < k => Eval(x, Point(j)));
    InterpolantUnique(d, x);
    forall i | 0 <= i < k ensures y[i] == Dot(e[index[i]], d, k) {
      EncoderRow(e, w, k, n, d, index[i]);
      assert y[i] == Eval(x, p[i]);
    }
  }

  lemma EncoderShape(e: Matrix, w: Matrix, k: nat, n: nat)
    requires IsEncoder(e, w, k, n)
    ensures IsMatrix(e, n, k) && 0 < k <= n <= 256
  {
  }

  /** Any k distinct rows of the encoding matrix are independent: a square
      matrix that reaches every vector cannot fail Gauss-Jordan elimination,
      and one with a repeated row cannot pass it. */
  lemma DecodeMatrixRank(e: Matrix, w: Matrix, k: nat, n: nat, index: seq<nat>)
    requires IsEncoder(e, w, k, n) && |index| == k
    requires forall i :: 0 <= i < k ==> index[i] < n
    ensures DistinctIndex(index) ==> forall y: Vec :: !Unreachable(DecodeMatrix(e, index, k), y, k)
    ensures !DistinctIndex(index) ==> !Nonsingular(DecodeMatrix(e, index, k), k)
  {
    hide Dot, Maps;
    var m := DecodeMatrix(e, index, k);
    if DistinctIndex(index) {
      forall y: Vec | |y| == k ensures !Unreachable(m, y, k) {
        var d := DecodeMatrixReaches(e, w, k, n, index, y);
      }
    } else {
      var i, j :| 0 <= i < j < k && index[i] == index[j];
      RepeatedRowSingular(m, i, j, k);
    }
  }

  lemma RepeatedRowSingular(m: Matrix, i: nat, j: nat, k: nat)
    requires IsMatrix(m, k, k) && i < j < k && m[i] == m[j]
    ensures !Nonsingular(m, k)
  {
    hide Dot;
    var y := Unit(i, k);
    forall b: Matrix | IsMatrix(b, k, k) ensures !Inverts(m, b, k) {
      var x := Apply(b, y, k);
      assert Maps(b, y, x, k);
      assert y[i] != y[j];
      assert !Maps(m, x, y, k);
    }
  }

  /** What decoding amounts to for one byte position: received symbols y of
      the data d go back to d under the inverse of the decode matrix. */
  lemma InverseDecodes(e: Matrix, w: Matrix, k: nat, n: nat, index: seq<nat>, b: Matrix, d: Vec, y: Vec)
    requires IsEncoder(e, w, k, n) && |index| == k && |d| == k && |y| == k
    requires forall i :: 0 <= i < k ==> index[i] < n && y[i] == Symbol(d, index[i])
    requires Inverts(DecodeMatrix(e, index, k), b, k)
    ensures Maps(b, y, d, k)
  {
    hide Dot, Symbol;
    forall i | 0 <= i < k ensures y[i] == Dot(DecodeMatrix(e, index, k)[i], d, k) {
      EncoderRow(e, w, k, n, d, index[i]);
    }
  }

  // ----- whole packets -----

  /** The packet with the given index: symbol by symbol over sz bytes. */
  ghost function EncodePacket(data: seq<Vec>, index: nat, sz: nat): (c: Vec)
    requires |data| <= 256 && forall i :: 0 <= i < |data| ==> |data[i]| == sz
    ensures |c| == sz && forall b :: 0 <= b < sz ==> c[b] == Symbol(Column(data, b), index)
    ensures index < |data| ==> c == data[index]
  {
    var c := seq(sz, b requires 0 <= b < sz => Symbol(Column(data, b), index));
    assert index < |data| ==> forall b :: 0 <= b < sz ==> c[b] == data[index][b];
    c
  }

  // ----- data from symbols -----

  /** The evaluation points of k different packets. */
  ghost function PointsAt(index: seq<nat>): (p: Vec)
    ensures |p| == |index| && forall i :: 0 <= i < |p| ==> p[i] == Point(index[i])
  {
    seq(|index|, i requires 0 <= i < |index| => Point(index[i]))
  }

  lemma PointsAtDiffer(index: seq<nat>)
    requires DistinctIndex(index) && forall i :: 0 <= i < |index| ==> index[i] < 256
    ensures Distinct(PointsAt(index))
  {
    hide Point;
    var p := PointsAt(index);
    forall i, j | 0 <= i < j < |p| ensures p[i] != p[j] {
      assert index[i] != index[j];
      if index[i] < index[j] {
        PointsDiffer(index[i], index[j]);
      } else {
        PointsDiffer(index[j], index[i]);
      }
    }
  }

  ghost predicate SameSize(data: seq<Vec>, size: nat) {
    |data| <= 256 && forall i :: 0 <= i < |data| ==> |data[i]| == size
  }

  /** k packets under different indexes determine the data. */
  lemma DataUnique(d: seq<Vec>, e: seq<Vec>, index: seq<nat>, size: nat)
    requires |d| == |e| == |index| && SameSize(d, size) && SameSize(e, size)
    requires DistinctIndex(index) && forall i :: 0 <= i < |index| ==> index[i] < 256
    requires forall i :: 0 <= i < |index| ==> EncodePacket(d, index[i], size) == EncodePacket(e, index[i], size)
    ensures d == e
  {
    hide Eval, Point, EncodePacket;
    PointsAtDiffer(index);
    var p := PointsAt(index);
    forall j, b | 0 <= j < |d| && 0 <= b < size ensures d[j][b] == e[j][b] {
      var v, w := Column(d, b), Column(e, b);
      forall i | 0 <= i < |p| ensures Eval(Interpolant(v), p[i]) == Eval(Interpolant(w), p[i]) {
        assert EncodePacket(d, index[i], size)[b] == Symbol(v, index[i]);
        assert EncodePacket(e, index[i], size)[b] == Symbol(w, index[i]);
      }
      InterpolationUnique(Interpolant(v), Interpolant(w), p);
      assert v[j] == w[j];
    }
    assert forall j :: 0 <= j < |d| ==> d[j] == e[j];
  }

  /** Any k packets of one size under different indexes come from some data. */
  lemma DataExists(values: seq<Vec>, index: seq<nat>, size: nat) returns (d: seq<Vec>)
    requires |values| == |index| && SameSize(values, size)
    requires DistinctIndex(index) && forall i :: 0 <= i < |index| ==> index[i] < 256
    ensures |d| == |index| && SameSize(d, size)
    ensures forall i :: 0 <= i < |index| ==> EncodePacket(d, index[i], size) == values[i]
  {
    hide Eval, Point, EncodePacket;
    var k := |index|;
    var columns := DataColumns(values, index, size, size);
    d := seq(k, j requires 0 <= j < k => seq(size, b requires 0 <= b < size => columns[b][j]));
    forall i | 0 <= i < k ensures EncodePacket(d, index[i], size) == values[i] {
      forall b | 0 <= b < size ensures EncodePacket(d, index[i], size)[b] == values[i][b] {
        assert Column(d, b) == columns[b];
      }
    }
  }

  lemma {:induction false} DataColumns(values: seq<Vec>, index: seq<nat>, size: nat, n: nat)
      returns (columns: seq<Vec>)
    requires |values| == |index| && SameSize(values, size) && n <= size
    requires DistinctIndex(index) && forall i :: 0 <= i < |index| ==> index[i] < 256
    ensures |columns| == n && forall b :: 0 <= b < n ==> |columns[b]| == |index|
    ensures forall b, i :: 0 <= b < n && 0 <= i < |index| ==> Symbol(columns[b], index[i]) == values[i][b]
  {
    hide Eval, Point;
    if n == 0 {
      return [];
    }
    columns := DataColumns(values, index, size, n - 1);
    var k := |index|;
    PointsAtDiffer(index);
    var x := InterpolationExists(PointsAt(index), Column(values, n - 1));
    var c: Vec := seq(k, j requires 0 <= j < k => Eval(x, Point(j)));
    InterpolantUnique(c, x);
    forall i | 0 <= i < k ensures Symbol(c, index[i]) == values[i][n - 1] {
      assert Column(values, n - 1)[i] == values[i][n - 1];
    }
    columns := columns + [c];
  }

  // ----- which points the code uses -----

  /** 0, 1, and from then on each term the generator times the one before. */
  ghost function LineAt(i: nat): Gf {
    if i == 0 then 0 else if i == 1 then 1 else TimesAlpha(LineAt(i - 1))
  }

  lemma {:induction false} LineIsPoint(i: nat)
    ensures LineAt(i) == Point(i)
  {
    hide TimesAlpha;
    if i > 1 {
      LineIsPoint(i - 1);
    }
  }

  lemma ZerosEval(n: nat, y: Gf)
    ensures Eval(seq(n, _ => 0), y) == 0
  {
    hide Mul, Xor;
    if n > 0 {
      ZerosEval(n - 1, y);
      assert seq(n, _ => 0)[1..] == seq(n - 1, _ => 0);
      MulZero(y);
      XorZero(0);
    }
  }

  /** The polynomial a + b x, among those with k coefficients. */
  ghost function Linear2(a: Gf, b: Gf, k: nat): (x: Vec)
    requires k >= 2
    ensures |x| == k
  {
    [a, b] + seq(k - 2, _ => 0)
  }

  lemma LinearEval(a: Gf, b: Gf, k: nat, y: Gf)
    requires k >= 2
    ensures Eval(Linear2(a, b, k), y) == Xor(a, Mul(y, b))
  {
    hide Mul, Xor;
    var x, z := Linear2(a, b, k), seq(k - 2, _ => 0);
    ZerosEval(k - 2, y);
    assert x[1..] == [b] + z && ([b] + z)[1..] == z;
    MulZero(y);
    XorZero(b);
  }

  /** Data on a line: the code goes on with the same terms. So its points are 0,
      1 and the powers of the generator, in this order. */
  lemma LineGoesOn(d: Vec, i: nat)
    requires 2 <= |d| <= 256 && forall j :: 0 <= j < |d| ==> d[j] == LineAt(j)
    ensures Symbol(d, i) == LineAt(i)
  {
    hide Eval, Point, Mul, Xor, LineAt, Linear2;
    var k := |d|;
    forall j: nat ensures Eval(Linear2(0, 1, k), Point(j)) == LineAt(j) {
      LinearEval(0, 1, k, Point(j));
      MulOne(Point(j));
      XorZero(Point(j));
      LineIsPoint(j);
    }
    InterpolantUnique(d, Linear2(0, 1, k));
  }

  lemma LineValues()
    ensures LineAt(0) == 0 && LineAt(1) == 1 && LineAt(2) == 2 && LineAt(3) == 4
    ensures Point(0) == 0 && Point(1) == 1 && Point(2) == 2
  {
    LineIsPoint(2);
    LineIsPoint(1);
  }

  /** The first redundant symbol of two: 3 a + 2 b. */
  lemma ThirdOfTwo(d: Vec)
    requires |d| == 2
    ensures Symbol(d, 2) == Xor(Mul(3, d[0]), Mul(2, d[1]))
  {
    hide Eval, Point, Mul, Xor, Linear2, LineAt;
    var a, b := d[0], d[1];
    var x := Linear2(a, Xor(a, b), 2);
    LineValues();
    forall y: Gf ensures Eval(x, y) == Xor(a, Mul(y, Xor(a, b))) {
      LinearEval(a, Xor(a, b), 2, y);
    }
    MulZero(Xor(a, b));
    XorZero(a);
    MulOne(Xor(a, b));
    XorCancel(a, b);
    InterpolantUnique(d, x);
    MulDistrib(2, a, b);
    XorValues();
    MulDistrib(a, 1, 2);
    MulOne(a);
    XorAssoc(a, Mul(2, a), Mul(2, b));
  }

  /** The same for whole packets. */
  lemma PacketsOnLine(data: seq<Vec>, sz: nat, b: nat, i: nat)
    requires SameSize(data, sz) && 2 <= |data| && b < sz
    requires forall j :: 0 <= j < |data| ==> data[j][b] == LineAt(j)
    ensures EncodePacket(data, i, sz)[b] == LineAt(i)
  {
    hide Symbol, LineAt;
    LineGoesOn(Column(data, b), i);
  }

  lemma ThirdPacket(data: seq<Vec>, sz: nat, b: nat)
    requires SameSize(data, sz) && |data| == 2 && b < sz
    ensures EncodePacket(data, 2, sz)[b] == Xor(Mul(3, data[0][b]), Mul(2, data[1][b]))
  {
    hide Symbol, Mul, Xor;
    ThirdOfTwo(Column(data, b));
  }
}
