/** fec.c, lines 344-411 and 647-892: building the encoding matrix, encoding,
    shuffling and decoding packets held in buffers. */
module Codec {
  import opened Field
  import opened GfTables
  import opened Linear
  import opened Polynomial
  import opened GaussJordan
  import opened Vandermonde
  import opened CodeTheory

  // ----- buffers -----

  type Buffer = array<Gf>
  type Slot = array?<Gf>

  /** The first k slots hold pairwise different buffers of at least sz bytes. */
  ghost predicate Buffers(pkt: seq<Slot>, sz: nat) {
    (forall i :: 0 <= i < |pkt| ==> pkt[i] != null && pkt[i].Length >= sz)
    && forall i, j :: 0 <= i < j < |pkt| ==> pkt[i] != pkt[j]
  }

  /** The packets themselves: the first sz bytes of every buffer. */
  ghost function Packets(pkt: seq<Slot>, sz: nat): (d: seq<Vec>)
    requires Buffers(pkt, sz)
    reads pkt
    ensures |d| == |pkt| && forall i :: 0 <= i < |pkt| ==> d[i] == pkt[i][..sz] && |d[i]| == sz
  {
    seq(|pkt|, i requires 0 <= i < |pkt| reads pkt => pkt[i][..sz])
  }

  /** addmul1: dst += c * src, sixteen bytes at a time and then the rest. */
  method AddMul(dst: Buffer, src: Buffer, c: Gf, sz: nat)
    requires dst != src && dst.Length >= sz && src.Length >= sz
    modifies dst
    ensures forall b :: 0 <= b < dst.Length ==>
      dst[b] == if b < sz then Xor(old(dst[b]), Mul(c, src[b])) else old(dst[b])
  {
    hide Xor, Mul;
    if c != 0 {
      var pos := 0;
      while pos + 15 < sz
        invariant 0 <= pos <= sz
        invariant forall b :: 0 <= b < pos ==> dst[b] == Xor(old(dst[b]), Mul(c, src[b]))
        invariant forall b :: pos <= b < dst.Length ==> dst[b] == old(dst[b])
      {
        for u := 0 to 16
          invariant forall b :: 0 <= b < pos + u ==> dst[b] == Xor(old(dst[b]), Mul(c, src[b]))
          invariant forall b :: pos + u <= b < dst.Length ==> dst[b] == old(dst[b])
        {
          dst[pos + u] := Xor(dst[pos + u], Mul(c, src[pos + u]));
        }
        pos := pos + 16;
      }
      while pos < sz
        invariant 0 <= pos <= sz
        invariant forall b :: 0 <= b < pos ==> dst[b] == Xor(old(dst[b]), Mul(c, src[b]))
        invariant forall b :: pos <= b < dst.Length ==> dst[b] == old(dst[b])
      {
        dst[pos] := Xor(dst[pos], Mul(c, src[pos]));
        pos := pos + 1;
      }
    } else {
      forall x: Gf, y: Gf ensures Xor(x, Mul(0, y)) == x { MulZero(y); XorZero(x); }
    }
  }

  /** matmul on the rows from `from` on: c = a b. */
  method MatMul(a: array2<Gf>, b: array2<Gf>, c: array2<Gf>, from: nat, n: nat, k: nat)
    requires a.Length0 == n && a.Length1 == k && c.Length0 == n && c.Length1 == k
    requires b.Length0 >= k && b.Length1 == k && c != a && c != b && from <= n
    modifies c
    ensures forall i, j :: 0 <= i < from && 0 <= j < k ==> c[i, j] == old(c[i, j])
    ensures forall i, j :: from <= i < n && 0 <= j < k ==> c[i, j] == Dot(Rows(a)[i], Column(TopRows(b, k), j), k)
  {
    hide Xor, Mul, Dot, TopRows, Rows, Column;
    ghost var ra, rb := Rows(a), TopRows(b, k);
    for row := from to n
      invariant forall i, j :: 0 <= i < from && 0 <= j < k ==> c[i, j] == old(c[i, j])
      invariant forall i, j :: from <= i < row && 0 <= j < k ==> c[i, j] == Dot(ra[i], Column(rb, j), k)
    {
      for col := 0 to k
        invariant forall i, j :: 0 <= i < from && 0 <= j < k ==> c[i, j] == old(c[i, j])
        invariant forall i, j :: from <= i < row && 0 <= j < k ==> c[i, j] == Dot(ra[i], Column(rb, j), k)
        invariant forall j :: 0 <= j < col ==> c[row, j] == Dot(ra[row], Column(rb, j), k)
      {
        var acc: Gf := 0;
        ghost var v := Column(rb, col);
        DotStep(ra[row], v, 0);
        for i := 0 to k
          invariant acc == Dot(ra[row], v, i)
          modifies {}
        {
          DotStep(ra[row], v, i);
          TopRowsAt(b, k, i, col);
          acc := Xor(acc, Mul(a[row, i], b[i, col]));
        }
        c[row, col] := acc;
      }
    }
  }

  lemma DotStep(u: Vec, v: Vec, n: nat)
    requires n <= |u| && n <= |v|
    ensures Dot(u, v, 0) == 0
    ensures n < |u| && n < |v| ==> Dot(u, v, n + 1) == Xor(Dot(u, v, n), Mul(u[n], v[n]))
  {
  }

  lemma TopRowsAt(m: array2<Gf>, k: nat, i: nat, j: nat)
    requires k <= m.Length0 && i < k && j < m.Length1
    ensures TopRows(m, k)[i][j] == m[i, j]
  {
  }

  // ----- the code descriptor -----

  class Code {
    const k: nat
    const n: nat
    const encMatrix: array2<Gf>
    /** The inverse of the top Vandermonde block. */
    ghost const topInverse: Matrix

    ghost predicate Valid()
      reads this, encMatrix
    {
      encMatrix.Length0 == n && encMatrix.Length1 == k && IsEncoder(Rows(encMatrix), topInverse, k, n)
    }

    constructor (k: nat, n: nat, encMatrix: array2<Gf>, ghost topInverse: Matrix)
      ensures this.k == k && this.n == n && this.encMatrix == encMatrix && this.topInverse == topInverse
    {
      this.k, this.n, this.encMatrix, this.topInverse := k, n, encMatrix, topInverse;
    }
  }

  /** The powers of the points, row 0 written separately because 0 has no
      logarithm (lines 702-708). */
  method FillPowers(m: array2<Gf>, k: nat, n: nat)
    requires m.Length0 == n && m.Length1 == k && 0 < k && 0 < n
    modifies m
    ensures forall i, j :: 0 <= i < n && 0 <= j < k ==> m[i, j] == PowerRow(Point(i), k)[j]
  {
    hide Exp, Mul, Power;
    m[0, 0] := 1;
    PowerOfZero(0);
    for col := 1 to k
      invariant forall j :: 0 <= j < col ==> m[0, j] == Power(0, j)
    {
      m[0, col] := 0;
      PowerOfZero(col);
    }
    for row := 0 to n - 1
      invariant forall i, j :: 0 <= i <= row && 0 <= j < k ==> m[i, j] == Power(Point(i), j)
    {
      var next := row + 1;
      for col := 0 to k
        invariant forall i, j :: 0 <= i <= row && 0 <= j < k ==> m[i, j] == Power(Point(i), j)
        invariant forall j :: 0 <= j < col ==> m[next, j] == Power(Point(next), j)
      {
        var e := Modnn(row * col);
        ExpMod(row * col);
        PowerOfAlpha(row, col);
        m[next, col] := Exp(e);
      }
    }
  }

  /** The identity on top of the product (lines 717-723). */
  method FillIdentity(m: array2<Gf>, k: nat)
    requires m.Length0 >= k && m.Length1 == k
    modifies m
    ensures forall i, j :: k <= i < m.Length0 && 0 <= j < k ==> m[i, j] == old(m[i, j])
    ensures forall i, j :: 0 <= i < k && 0 <= j < k ==> m[i, j] == if i == j then 1 else 0
  {
    for row := 0 to k
      invariant forall i, j :: k <= i < m.Length0 && 0 <= j < k ==> m[i, j] == old(m[i, j])
      invariant forall i, j :: 0 <= i < row && 0 <= j < k ==> m[i, j] == 0
    {
      for col := 0 to k
        invariant forall i, j :: k <= i < m.Length0 && 0 <= j < k ==> m[i, j] == old(m[i, j])
        invariant forall i, j :: 0 <= i < row && 0 <= j < k ==> m[i, j] == 0
        invariant forall j :: 0 <= j < col ==> m[row, j] == 0
      {
        m[row, col] := 0;
      }
    }
    for col := 0 to k
      invariant forall i, j :: k <= i < m.Length0 && 0 <= j < k ==> m[i, j] == old(m[i, j])
      invariant forall i, j :: 0 <= i < k && 0 <= j < k ==> m[i, j] == if i == j && i < col then 1 else 0
    {
      m[col, col] := 1;
    }
  }

  /** fec_new: null exactly for invalid parameters. */
  method FecNew(k: nat, n: nat) returns (code: Code?)
    requires 0 < k
    ensures code == null <==> k > 256 || n > 256 || k > n
    ensures code != null ==> fresh(code) && fresh(code.encMatrix) && code.Valid() && code.k == k && code.n == n
    ensures code != null && k >= 2 ==> GoesOn(Rows(code.encMatrix), k, n)
    ensures code != null && k == 2 < n ==> code.encMatrix[2, 0] == 3 && code.encMatrix[2, 1] == 2
  {
    hide Dot, Inverts, IsEncoder, TopRows, Rows, VdmMatrix, Point, Distinct, ZeroAmongFirstTwo, PowerRow, GoesOn;
    if k > GF_SIZE + 1 || n > GF_SIZE + 1 || k > n {
      return null;
    }
    var enc := new Gf[n, k]((_, _) => 0);
    var tmp := new Gf[n, k]((_, _) => 0);
    FillPowers(tmp, k, n);
    ghost var powers := Rows(tmp);
    ghost var p := Points(k);
    TopIsVandermonde(tmp, k, n);
    PointsDistinct(k);
    FirstPointIsZero(k);
    InvertVdm(tmp, k, p);
    ghost var w := TopRows(tmp, k);
    assert forall i :: k <= i < n ==> Rows(tmp)[i] == powers[i];
    MatMul(tmp, tmp, enc, k, n, k);
    FillIdentity(enc, k);
    EncoderBuilt(Rows(enc), w, k, n);
    EncoderGoesOn(Rows(enc), w, k, n);
    code := new Code(k, n, enc, w);
  }

  /** Applied to the terms 0, 1, 2, 4, ... the matrix e goes on with them. */
  ghost predicate GoesOn(e: Matrix, k: nat, n: nat)
    requires IsMatrix(e, n, k)
  {
    forall i :: 0 <= i < n ==> Dot(e[i], Terms(k), k) == LineAt(i)
  }

  ghost function Terms(k: nat): (d: Vec)
    ensures |d| == k && forall j :: 0 <= j < k ==> d[j] == LineAt(j)
  {
    seq(k, j requires 0 <= j => LineAt(j))
  }

  lemma EncoderGoesOn(e: Matrix, w: Matrix, k: nat, n: nat)
    requires IsEncoder(e, w, k, n)
    ensures IsMatrix(e, n, k)
    ensures k >= 2 ==> GoesOn(e, k, n)
    ensures k == 2 < n ==> e[2][0] == 3 && e[2][1] == 2
  {
    hide Dot, LineAt, Symbol, IsEncoder;
    EncoderShape(e, w, k, n);
    if k >= 2 {
      forall i | 0 <= i < n ensures Dot(e[i], Terms(k), k) == LineAt(i) {
        EncoderRow(e, w, k, n, Terms(k), i);
        LineGoesOn(Terms(k), i);
      }
    }
    if k == 2 < n {
      FirstEntry(e, w, n);
      SecondEntry(e, w, n);
    }
  }

  lemma FirstEntry(e: Matrix, w: Matrix, n: nat)
    requires IsEncoder(e, w, 2, n) && 2 < n
    ensures IsMatrix(e, n, 2) && e[2][0] == 3
  {
    hide Dot, Symbol, IsEncoder, Mul, Xor;
    EncoderShape(e, w, 2, n);
    EncoderRow(e, w, 2, n, Unit(0, 2), 2);
    DotComm(e[2], Unit(0, 2), 2);
    DotUnit(e[2], 0, 2);
    ThirdOfTwo(Unit(0, 2));
    MulOne(3);
    MulZero(2);
    XorZero(3);
  }

  lemma SecondEntry(e: Matrix, w: Matrix, n: nat)
    requires IsEncoder(e, w, 2, n) && 2 < n
    ensures IsMatrix(e, n, 2) && e[2][1] == 2
  {
    hide Dot, Symbol, IsEncoder, Mul, Xor;
    EncoderShape(e, w, 2, n);
    EncoderRow(e, w, 2, n, Unit(1, 2), 2);
    DotComm(e[2], Unit(1, 2), 2);
    DotUnit(e[2], 1, 2);
    ThirdOfTwo(Unit(1, 2));
    MulZero(3);
    MulOne(2);
    XorZero(2);
  }

  lemma TopIsVandermonde(m: array2<Gf>, k: nat, n: nat)
    requires 0 < k <= n && m.Length0 == n && m.Length1 == k
    requires forall i, j :: 0 <= i < n && 0 <= j < k ==> m[i, j] == PowerRow(Point(i), k)[j]
    ensures TopRows(m, k) == VdmMatrix(Points(k))
    ensures k >= 2 ==> forall i :: 0 <= i < k ==> m[i, 1] == Points(k)[i]
    ensures forall i :: 0 <= i < n ==> Rows(m)[i] == PowerRow(Point(i), k)
  {
    hide Point;
    forall i | 0 <= i < k ensures TopRows(m, k)[i] == VdmMatrix(Points(k))[i] {
      assert TopRows(m, k)[i] == Rows(m)[i];
    }
    if k >= 2 {
      forall i | 0 <= i < k ensures m[i, 1] == Points(k)[i] {
        assert m[i, 1] == PowerRow(Point(i), k)[1] == Power(Point(i), 1);
        PowerOne(Point(i));
      }
    }
  }

  lemma PowerOne(x: Gf)
    ensures Power(x, 1) == x
  {
    hide Mul;
    assert Power(x, 1) == Mul(x, Power(x, 0));
    MulOne(x);
  }

  /** The fact that invert_vdm needs and fec_new supplies. */
  lemma FirstPointIsZero(k: nat)
    requires 0 < k
    ensures ZeroAmongFirstTwo(Points(k))
  {
    assert Points(k)[0] == Point(0) == 0;
  }

  lemma EncoderBuilt(e: Matrix, w: Matrix, k: nat, n: nat)
    requires IsMatrix(e, n, k) && 0 < k <= n <= 256
    requires Inverts(VdmMatrix(Points(k)), w, k)
    requires forall i, j :: 0 <= i < k && 0 <= j < k ==> e[i][j] == if i == j then 1 else 0
    requires forall i, j :: k <= i < n && 0 <= j < k ==> e[i][j] == Dot(PowerRow(Point(i), k), Column(w, j), k)
    ensures IsEncoder(e, w, k, n)
  {
    hide Dot, Point, Maps;
    forall i | 0 <= i < k ensures e[i] == Unit(i, k) {
    }
  }

  // ----- encoding -----

  /** fec_encode: the packet of the given index from the first k buffers of
      src; an index of n or more leaves the target alone. */
  method FecEncode(code: Code, src: array<Slot>, fec: Buffer, index: nat, sz: nat)
    requires code.Valid() && src.Length >= code.k && Buffers(src[..code.k], sz)
    requires fec.Length >= sz && fec !in src[..code.k]
    modifies fec
    ensures index < code.n ==> fec[..sz] == EncodePacket(Packets(src[..code.k], sz), index, sz)
    ensures index >= code.n ==> fec[..] == old(fec[..])
    ensures fec[sz..] == old(fec[sz..])
  {
    hide Xor, Mul, Dot, Symbol, IsEncoder;
    var k := code.k;
    ghost var e := Rows(code.encMatrix);
    EncoderShape(e, code.topInverse, k, code.n);
    ghost var d := Packets(src[..k], sz);
    if index < k {
      for b := 0 to sz
        invariant forall l :: 0 <= l < b ==> fec[l] == d[index][l]
        invariant fec[sz..] == old(fec[sz..])
      {
        fec[b] := src[index][b];
      }
      assert fec[..sz] == d[index];
    } else if index < code.n {
      AddSources(code, src, fec, index, sz);
      forall b | 0 <= b < sz ensures fec[b] == Symbol(Column(d, b), index) {
        EncoderRow(e, code.topInverse, k, code.n, Column(d, b), index);
      }
    }
  }

  /** A redundant packet: the sources, each times its entry of the row (lines
      754-758). */
  method AddSources(code: Code, src: array<Slot>, fec: Buffer, index: nat, sz: nat)
    requires code.encMatrix.Length0 == code.n && code.encMatrix.Length1 == code.k && index < code.n
    requires src.Length >= code.k && Buffers(src[..code.k], sz) && fec.Length >= sz && fec !in src[..code.k]
    modifies fec
    ensures forall b :: 0 <= b < sz ==>
      fec[b] == Dot(Rows(code.encMatrix)[index], Column(Packets(src[..code.k], sz), b), code.k)
    ensures fec[sz..] == old(fec[sz..])
  {
    hide Xor, Mul, Dot;
    var k := code.k;
    ghost var row, d := Rows(code.encMatrix)[index], Packets(src[..k], sz);
    for b := 0 to sz
      invariant forall l :: 0 <= l < b ==> fec[l] == 0
      invariant fec[sz..] == old(fec[sz..])
    {
      fec[b] := 0;
    }
    forall b | 0 <= b < sz ensures Dot(row, Column(d, b), 0) == 0 {
      DotStep(row, Column(d, b), 0);
    }
    for i := 0 to k
      invariant forall b :: 0 <= b < sz ==> fec[b] == Dot(row, Column(d, b), i)
      invariant fec[sz..] == old(fec[sz..])
    {
      forall b | 0 <= b < sz
        ensures Dot(row, Column(d, b), i + 1) == Xor(fec[b], Mul(code.encMatrix[index, i], src[i][b]))
      {
        DotStep(row, Column(d, b), i);
      }
      AddMul(fec, src[i], code.encMatrix[index, i], sz);
    }
  }

  // ----- shuffling -----

  /** sigma and tau are inverse permutations of 0..k. */
  ghost predicate Inverses(sigma: seq<nat>, tau: seq<nat>, k: nat) {
    |sigma| == k && |tau| == k
    && forall i :: 0 <= i < k ==> sigma[i] < k && tau[i] < k && tau[sigma[i]] == i && sigma[tau[i]] == i
  }

  ghost function Unplaced(index: seq<nat>): (n: nat) {
    if index == [] then 0
    else Unplaced(index[..|index| - 1]) + (if index[|index| - 1] == |index| - 1 then 0 else 1)
  }

  /** Putting a value in its place leaves one index fewer to place. */
  lemma {:induction false} UnplacedStep(index: seq<nat>, index': seq<nat>, i: nat, c: nat)
    requires |index| == |index'| && i < |index| && c < |index| && i != c
    requires index[i] != i && index[c] != c && index'[c] == c
    requires forall l :: 0 <= l < |index| && l != i && l != c ==> index'[l] == index[l]
    ensures Unplaced(index') < Unplaced(index)
  {
    var l := |index| - 1;
    if i < l && c < l {
      UnplacedStep(index[..l], index'[..l], i, c);
    } else {
      UnplacedOne(index[..l], index'[..l], if i == l then c else i);
    }
  }

  lemma {:induction false} UnplacedOne(index: seq<nat>, index': seq<nat>, c: nat)
    requires |index| == |index'| && c < |index| && index[c] != c
    requires forall l :: 0 <= l < |index| && l != c ==> index'[l] == index[l]
    ensures Unplaced(index') == Unplaced(index) - (if index'[c] == c then 1 else 0)
  {
    var l := |index| - 1;
    if c < l {
      UnplacedOne(index[..l], index'[..l], c);
    } else {
      assert index[..l] == index'[..l];
    }
  }

  /** Some index below k occurs twice. */
  ghost predicate Conflict(index: seq<nat>) {
    exists i, j :: 0 <= i < j < |index| && index[i] == index[j] < |index|
  }

  /** Slots and indexes are those of p0 and x0, permuted together below k. */
  ghost predicate Paired(
    p: seq<Slot>, x: seq<nat>, p0: seq<Slot>, x0: seq<nat>, sigma: seq<nat>, tau: seq<nat>, k: nat)
  {
    |p| == |p0| && |x| == |x0| && k <= |p| && k <= |x| && Inverses(sigma, tau, k)
    && (forall l :: 0 <= l < k ==> p[l] == p0[sigma[l]] && x[l] == x0[sigma[l]])
    && p[k..] == p0[k..] && x[k..] == x0[k..] && multiset(p) == multiset(p0)
  }

  lemma PairedStart(p: seq<Slot>, x: seq<nat>, k: nat)
    requires k <= |p| && k <= |x|
    ensures Paired(p, x, p, x, Identity(k), Identity(k), k)
  {
  }

  lemma SwapMultiset<T>(p: seq<T>, i: nat, c: nat)
    requires i < |p| && c < |p|
    ensures multiset(Swap(p, i, c)) == multiset(p)
  {
  }

  lemma PairedSwap(
    p: seq<Slot>, x: seq<nat>, p0: seq<Slot>, x0: seq<nat>, sigma: seq<nat>, tau: seq<nat>, k: nat, i: nat, c: nat)
      returns (sigma': seq<nat>, tau': seq<nat>)
    requires Paired(p, x, p0, x0, sigma, tau, k) && i < k && c < k && i != c && c < |p| && i < |p| && c < |x| && i < |x|
    ensures Paired(Swap(p, i, c), Swap(x, i, c), p0, x0, sigma', tau', k)
  {
    sigma', tau' := Swap(sigma, i, c), tau[sigma[i] := c][sigma[c] := i];
    SwapMultiset(p, i, c);
    assert Swap(p, i, c)[k..] == p[k..];
    assert Swap(x, i, c)[k..] == x[k..];
    SwapInverses(sigma, tau, k, i, c);
  }

  lemma SwapInverses(sigma: seq<nat>, tau: seq<nat>, k: nat, i: nat, c: nat)
    requires Inverses(sigma, tau, k) && i < k && c < k && i != c
    ensures Inverses(Swap(sigma, i, c), tau[sigma[i] := c][sigma[c] := i], k)
  {
    assert sigma[i] != sigma[c];
  }

  /** The two SWAPs: the packet at i moves to its own position c. */
  method Place(pkt: array<Slot>, index: array<nat>, i: nat, c: nat, k: nat,
               ghost p0: seq<Slot>, ghost x0: seq<nat>, ghost sigma: seq<nat>, ghost tau: seq<nat>)
      returns (ghost sigma': seq<nat>, ghost tau': seq<nat>)
    requires k <= pkt.Length && k <= index.Length && i < k && c < k && i != c && index[i] == c && index[c] != c
    requires Paired(pkt[..], index[..], p0, x0, sigma, tau, k)
    modifies pkt, index
    ensures index[..] == Swap(old(index[..]), i, c)
    ensures Paired(pkt[..], index[..], p0, x0, sigma', tau', k)
    ensures Unplaced(index[..k]) < Unplaced(old(index[..k]))
  {
    hide Paired, Unplaced;
    ghost var p, x := pkt[..], index[..];
    var t := index[i];
    index[i] := index[c];
    index[c] := t;
    var q := pkt[i];
    pkt[i] := pkt[c];
    pkt[c] := q;
    assert pkt[..] == Swap(p, i, c) && index[..] == Swap(x, i, c);
    sigma', tau' := PairedSwap(p, x, p0, x0, sigma, tau, k, i, c);
    UnplacedStep(x[..k], index[..k], i, c);
    assert x[..k] == old(index[..k]);
  }

  /** shuffle: 1 exactly when an index below k is repeated; otherwise every
      index below k sits at its own position. Packets stay with their indexes. */
  method Shuffle(pkt: array<Slot>, index: array<nat>, k: nat)
      returns (error: int, ghost sigma: seq<nat>, ghost tau: seq<nat>)
    requires k <= pkt.Length && k <= index.Length
    modifies pkt, index
    ensures error == 0 || error == 1
    ensures error == 1 <==> Conflict(old(index[..])[..k])
    ensures error == 0 ==> forall i :: 0 <= i < k && index[i] < k ==> index[i] == i
    ensures Paired(pkt[..], index[..], old(pkt[..]), old(index[..]), sigma, tau, k)
  {
    hide Paired, Conflict, Unplaced, Swap, Identity;
    ghost var p0, x0 := pkt[..], index[..];
    sigma, tau := Identity(k), Identity(k);
    PairedStart(p0, x0, k);
    var i := 0;
    while i < k
      invariant 0 <= i <= k
      invariant Paired(pkt[..], index[..], p0, x0, sigma, tau, k)
      invariant forall l :: 0 <= l < i && index[l] < k ==> index[l] == l
      decreases k - i, Unplaced(index[..k])
      modifies pkt, index
    {
      if index[i] >= k || index[i] == i {
        i := i + 1;
      } else {
        var c := index[i];
        if index[c] == c {
          ConflictFound(pkt[..], index[..], p0, x0, sigma, tau, k, i, c);
          return 1, sigma, tau;
        }
        sigma, tau := Place(pkt, index, i, c, k, p0, x0, sigma, tau);
      }
    }
    NoConflict(pkt[..], index[..], p0, x0, sigma, tau, k);
    return 0, sigma, tau;
  }

  lemma ConflictFound(
    p: seq<Slot>, x: seq<nat>, p0: seq<Slot>, x0: seq<nat>, sigma: seq<nat>, tau: seq<nat>, k: nat, i: nat, c: nat)
    requires Paired(p, x, p0, x0, sigma, tau, k) && i < k && c < k && i != c && x[i] == c && x[c] == c
    ensures Conflict(x0[..k])
  {
    var was := x0[..k];
    var a, b := sigma[i], sigma[c];
    assert tau[a] == i && tau[b] == c;
    assert was[a] == was[b] == c;
  }

  lemma NoConflict(p: seq<Slot>, x: seq<nat>, p0: seq<Slot>, x0: seq<nat>, sigma: seq<nat>, tau: seq<nat>, k: nat)
    requires Paired(p, x, p0, x0, sigma, tau, k)
    requires forall l :: 0 <= l < k && x[l] < k ==> x[l] == l
    ensures !Conflict(x0[..k])
  {
    var was := x0[..k];
    forall i, j | 0 <= i < j < k && was[i] < k ensures was[i] != was[j] {
      assert x[tau[i]] == was[i] && x[tau[j]] == was[j];
    }
  }

  // ----- decoding -----

  /** Row i of the decode matrix, for the packet of the given index (lines
      814-820). */
  method CopyRow(code: Code, p: array2<Gf>, i: nat, index: nat)
    requires code.Valid() && p.Length0 == p.Length1 == code.k && i < code.k && index < code.n
    requires p != code.encMatrix && (index < code.k ==> index == i)
    modifies p
    ensures forall l, j :: 0 <= l < code.k && l != i && 0 <= j < code.k ==> p[l, j] == old(p[l, j])
    ensures forall j :: 0 <= j < code.k ==> p[i, j] == Rows(code.encMatrix)[index][j]
  {
    hide Dot, Maps, Inverts;
    var k := code.k;
    if index < k {
      for j := 0 to k
        invariant forall l, j :: 0 <= l < k && l != i && 0 <= j < k ==> p[l, j] == old(p[l, j])
        invariant forall l :: 0 <= l < j ==> p[i, l] == 0
      {
        p[i, j] := 0;
      }
      p[i, i] := 1;
    } else {
      for j := 0 to k
        invariant forall l, j :: 0 <= l < k && l != i && 0 <= j < k ==> p[l, j] == old(p[l, j])
        invariant forall l :: 0 <= l < j ==> p[i, l] == code.encMatrix[index, l]
      {
        p[i, j] := code.encMatrix[index, j];
      }
    }
  }

  /** build_decode_matrix: the inverse of the received rows, or null when an
      index is invalid or repeated. */
  method BuildDecodeMatrix(code: Code, index: array<nat>) returns (m: array2?<Gf>)
    requires code.Valid() && code.k <= index.Length
    requires forall i :: 0 <= i < code.k && index[i] < code.k ==> index[i] == i
    ensures m == null <==> !((forall i :: 0 <= i < code.k ==> index[i] < code.n) && DistinctIndex(index[..code.k]))
    ensures m != null ==> fresh(m) && m.Length0 == code.k && m.Length1 == code.k
    ensures m != null ==> Inverts(DecodeMatrix(Rows(code.encMatrix), index[..code.k], code.k), Rows(m), code.k)
  {
    hide Dot, Maps, Inverts, Nonsingular, Unreachable;
    var k := code.k;
    ghost var e := Rows(code.encMatrix);
    var p := new Gf[k, k]((_, _) => 0);
    for i := 0 to k
      invariant forall l :: 0 <= l < i ==> index[l] < code.n
      invariant forall l, j :: 0 <= l < i && 0 <= j < k ==> p[l, j] == e[index[l]][j]
    {
      if index[i] < code.n {
        CopyRow(code, p, i, index[i]);
      } else {
        return null;
      }
    }
    ghost var a := Rows(p);
    assert forall i :: 0 <= i < k ==> a[i] == DecodeMatrix(e, index[..k], k)[i];
    assert a == DecodeMatrix(e, index[..k], k);
    DecodeMatrixRank(e, code.topInverse, k, code.n, index[..k]);
    var error := InvertMat(p, k);
    if error != 0 {
      return null;
    }
    return p;
  }

  /** One recovered packet: row `row` of the inverse times the received
      packets, in a fresh buffer (lines 871-878). */
  method RecoverPacket(pkt: array<Slot>, m: array2<Gf>, row: nat, k: nat, sz: nat) returns (out: Buffer)
    requires k <= pkt.Length && Buffers(pkt[..k], sz) && m.Length0 == k && m.Length1 == k && row < k
    ensures fresh(out) && out.Length == sz
    ensures forall b :: 0 <= b < sz ==> out[b] == Dot(Rows(m)[row], Column(Packets(pkt[..k], sz), b), k)
  {
    hide Xor, Mul, Dot;
    ghost var r, y := Rows(m)[row], Packets(pkt[..k], sz);
    out := new Gf[sz](_ => 0);
    forall b | 0 <= b < sz ensures Dot(r, Column(y, b), 0) == 0 {
      DotStep(r, Column(y, b), 0);
    }
    for col := 0 to k
      invariant forall b :: 0 <= b < sz ==> out[b] == Dot(r, Column(y, b), col)
      modifies out
    {
      forall b | 0 <= b < sz
        ensures Dot(r, Column(y, b), col + 1) == Xor(out[b], Mul(m[row, col], pkt[col][b]))
      {
        DotStep(r, Column(y, b), col);
      }
      AddMul(out, pkt[col], m[row, col], sz);
    }
  }

  /** Lines 870-878: a buffer for every packet that is not a data packet. */
  method RecoverRows(pkt: array<Slot>, index: array<nat>, m: array2<Gf>, k: nat, sz: nat)
      returns (recovered: seq<Buffer>)
    requires k <= pkt.Length && k <= index.Length && Buffers(pkt[..k], sz) && m.Length0 == k && m.Length1 == k
    ensures |recovered| == k
    ensures forall i :: 0 <= i < k ==> fresh(recovered[i]) && recovered[i].Length == sz
    ensures AreRecovered(Contents(recovered), Rows(m), index[..k], Packets(pkt[..k], sz), k, sz)
  {
    hide Dot, Packets, Rows, Column;
    ghost var y, r := Packets(pkt[..k], sz), Rows(m);
    recovered := [];
    for row := 0 to k
      invariant |recovered| == row
      invariant forall i :: 0 <= i < row ==> fresh(recovered[i]) && recovered[i].Length == sz
      invariant forall i, b :: 0 <= i < row && 0 <= b < sz && index[i] >= k ==>
        recovered[i][b] == Dot(r[i], Column(y, b), k)
      modifies {}
    {
      var out;
      if index[row] >= k {
        out := RecoverPacket(pkt, m, row, k, sz);
      } else {
        out := new Gf[sz](_ => 0);
      }
      recovered := recovered + [out];
    }
    ghost var c := Contents(recovered);
    assert forall i :: 0 <= i < k ==> c[i] == recovered[i][..];
  }

  ghost function Contents(buffers: seq<Buffer>): (c: seq<Vec>)
    reads buffers
    ensures |c| == |buffers| && forall i :: 0 <= i < |c| ==> c[i] == buffers[i][..]
  {
    seq(|buffers|, i requires 0 <= i < |buffers| reads buffers => buffers[i][..])
  }

  /** Every packet with a redundant index was recomputed from the rows b. */
  ghost predicate AreRecovered(c: seq<Vec>, b: Matrix, x: seq<nat>, have: seq<Vec>, k: nat, sz: nat) {
    |c| == |b| == |x| == |have| == k
    && (forall i :: 0 <= i < k ==> |c[i]| == sz && |b[i]| == k && |have[i]| == sz)
    && forall i, j :: 0 <= i < k && 0 <= j < sz && x[i] >= k ==> c[i][j] == Dot(b[i], Column(have, j), k)
  }

  /** Lines 882-887: copy the recovered packets over the redundant ones. */
  method InstallRows(pkt: array<Slot>, index: array<nat>, recovered: seq<Buffer>, k: nat, sz: nat)
    requires k <= pkt.Length && k <= index.Length && Buffers(pkt[..k], sz) && |recovered| == k
    requires forall i :: 0 <= i < k ==> recovered[i].Length == sz && recovered[i] !in pkt[..k]
    modifies pkt[..k]
    ensures Buffers(pkt[..k], sz)
    ensures forall i :: 0 <= i < k ==>
      pkt[i][..sz] == if index[i] < k then old(pkt[i][..sz]) else old(Contents(recovered))[i]
  {
    hide Contents;
    ghost var c := Contents(recovered);
    ghost var slots := pkt[..k];
    assert forall i :: 0 <= i < k ==> slots[i] == pkt[i];
    for row := 0 to k
      invariant forall i :: 0 <= i < k && (i >= row || index[i] < k) ==> slots[i][..sz] == old(pkt[i][..sz])
      invariant forall i :: 0 <= i < row && index[i] >= k ==> slots[i][..sz] == c[i]
      modifies slots
    {
      if index[row] >= k {
        assert forall i :: 0 <= i < k && i != row ==> slots[i] != slots[row];
        CopyBytes(recovered[row], pkt[row], sz);
      }
    }
  }

  /** bcopy of sz bytes. */
  method CopyBytes(src: Buffer, dst: Buffer, sz: nat)
    requires src != dst && src.Length >= sz && dst.Length >= sz
    modifies dst
    ensures dst[..sz] == src[..sz] && dst[sz..] == old(dst[sz..])
  {
    for b := 0 to sz
      invariant dst[..b] == src[..b] && dst[sz..] == old(dst[sz..])
    {
      dst[b] := src[b];
    }
  }

  /** The packets at hand are encodings of `data` under the given indexes. */
  ghost predicate EncodingsOf(have: seq<Vec>, index: seq<nat>, data: seq<Vec>, sz: nat) {
    |have| == |index| == |data| <= 256
    && (forall i :: 0 <= i < |data| ==> |data[i]| == sz)
    && forall i :: 0 <= i < |have| ==> have[i] == EncodePacket(data, index[i], sz)
  }

  ghost predicate Decodable(index: seq<nat>, n: nat) {
    DistinctIndex(index) && forall i :: 0 <= i < |index| ==> index[i] < n
  }

  /** fec_decode after the shuffle (lines 863-891). */
  method DecodePlaced(code: Code, pkt: array<Slot>, index: array<nat>, sz: nat, ghost data: seq<Vec>)
      returns (result: int)
    requires code.Valid() && code.k <= pkt.Length && code.k <= index.Length && Buffers(pkt[..code.k], sz)
    requires forall i :: 0 <= i < code.k && index[i] < code.k ==> index[i] == i
    modifies pkt[..code.k]
    ensures result == 0 || result == 1
    ensures result == 0 <==> Decodable(index[..code.k], code.n)
    ensures Buffers(pkt[..code.k], sz)
    ensures result == 0 && EncodingsOf(old(Packets(pkt[..code.k], sz)), index[..code.k], data, sz) ==>
      Packets(pkt[..code.k], sz) == data
  {
    hide Inverts, IsEncoder, EncodingsOf, Decodable, Rows, DecodeMatrix, Packets, AreRecovered, Contents;
    var k := code.k;
    ghost var have := Packets(pkt[..k], sz);
    ghost var e, w, n, x := Rows(code.encMatrix), code.topInverse, code.n, index[..k];
    DecodableMeans(x, n);
    var m := BuildDecodeMatrix(code, index);
    if m == null {
      return 1;
    }
    ghost var b := Rows(m);
    var recovered := RecoverRows(pkt, index, m, k, sz);
    ghost var c := Contents(recovered);
    InstallRows(pkt, index, recovered, k, sz);
    if EncodingsOf(have, x, data, sz) {
      Recovered(e, w, k, n, x, b, have, data, c, Packets(pkt[..k], sz), sz);
    }
    return 0;
  }

  lemma DecodableMeans(x: seq<nat>, n: nat)
    ensures Decodable(x, n) <==> (forall i :: 0 <= i < |x| ==> x[i] < n) && DistinctIndex(x)
  {
  }

  /** fec_decode: succeeds exactly on k distinct valid indexes, and then any
      data whose encodings were received is back in order. */
  method FecDecode(code: Code, pkt: array<Slot>, index: array<nat>, sz: nat, ghost data: seq<Vec>) returns (result: int)
    requires code.Valid() && code.k <= pkt.Length && code.k <= index.Length && Buffers(pkt[..code.k], sz)
    modifies pkt, index, pkt[..code.k]
    ensures result == 0 || result == 1
    ensures result == 0 <==> Decodable(old(index[..])[..code.k], code.n)
    ensures multiset(pkt[..]) == multiset(old(pkt[..])) && pkt[code.k..] == old(pkt[code.k..])
    ensures Buffers(pkt[..code.k], sz)
    ensures result == 0 && EncodingsOf(old(Packets(pkt[..code.k], sz)), old(index[..])[..code.k], data, sz) ==>
      Packets(pkt[..code.k], sz) == data
  {
    hide IsEncoder, Paired, Conflict, EncodingsOf, Decodable, Rows, Packets, EncodePacket;
    var k := code.k;
    ghost var p0, x0, have := pkt[..], index[..], Packets(pkt[..k], sz);
    var error, sigma, tau := Shuffle(pkt, index, k);
    ghost var p, x := pkt[..], index[..];
    assert pkt[..k] == p[..k] && p0[..k] == old(pkt[..k]);
    ShuffledBuffers(p, x, p0, x0, sigma, tau, k, sz);
    if error != 0 {
      ConflictNotDecodable(x0[..k], code.n);
      return 1;
    }
    ShuffledDecodable(p, x, p0, x0, sigma, tau, k, code.n);
    ShuffledEncodings(p, x, p0, x0, sigma, tau, k, have, Packets(p[..k], sz), data, sz);
    assert index[..k] == x[..k];
    result := DecodePlaced(code, pkt, index, sz, data);
  }

  lemma ShuffledBuffers(
    p: seq<Slot>, x: seq<nat>, p0: seq<Slot>, x0: seq<nat>, sigma: seq<nat>, tau: seq<nat>, k: nat, sz: nat)
    requires Paired(p, x, p0, x0, sigma, tau, k) && Buffers(p0[..k], sz)
    ensures Buffers(p[..k], sz)
    ensures forall i :: 0 <= i < k ==> p[i] in p0[..k]
    ensures multiset(p) == multiset(p0) && p[k..] == p0[k..] && |x| == |x0| && |p| == |p0|
  {
    forall i | 0 <= i < k ensures p[i] in p0[..k] && p[i] != null && p[i].Length >= sz {
      assert p[i] == p0[..k][sigma[i]];
    }
    forall i, j | 0 <= i < j < k ensures p[i] != p[j] {
      assert p[i] == p0[..k][sigma[i]] && p[j] == p0[..k][sigma[j]];
      assert tau[sigma[i]] == i && tau[sigma[j]] == j;
    }
  }

  lemma ConflictNotDecodable(x: seq<nat>, n: nat)
    requires Conflict(x)
    ensures !Decodable(x, n)
  {
  }

  lemma ShuffledDecodable(
    p: seq<Slot>, x: seq<nat>, p0: seq<Slot>, x0: seq<nat>, sigma: seq<nat>, tau: seq<nat>, k: nat, n: nat)
    requires Paired(p, x, p0, x0, sigma, tau, k)
    ensures Decodable(x[..k], n) <==> Decodable(x0[..k], n)
    ensures Decodable(x[..k], n) <==> (forall i :: 0 <= i < k ==> x[i] < n) && DistinctIndex(x[..k])
  {
    var now, was := x[..k], x0[..k];
    if Decodable(was, n) {
      forall i | 0 <= i < k ensures now[i] < n { assert now[i] == was[sigma[i]]; }
      forall i, j | 0 <= i < j < k ensures now[i] != now[j] {
        assert now[i] == was[sigma[i]] && now[j] == was[sigma[j]];
        assert tau[sigma[i]] == i && tau[sigma[j]] == j;
      }
    }
    if Decodable(now, n) {
      forall i | 0 <= i < k ensures was[i] < n { assert was[i] == now[tau[i]]; }
      forall i, j | 0 <= i < j < k ensures was[i] != was[j] {
        assert was[i] == now[tau[i]] && was[j] == now[tau[j]];
        assert sigma[tau[i]] == i && sigma[tau[j]] == j;
      }
    }
  }

  lemma ShuffledEncodings(
    p: seq<Slot>, x: seq<nat>, p0: seq<Slot>, x0: seq<nat>, sigma: seq<nat>, tau: seq<nat>, k: nat, have: seq<Vec>,
    have': seq<Vec>, data: seq<Vec>, sz: nat)
    requires Paired(p, x, p0, x0, sigma, tau, k) && |have| == |have'| == k
    requires Buffers(p[..k], sz) && Buffers(p0[..k], sz)
    requires have == Packets(p0[..k], sz) && have' == Packets(p[..k], sz)
    ensures EncodingsOf(have, x0[..k], data, sz) ==> EncodingsOf(have', x[..k], data, sz)
  {
    hide EncodePacket;
    forall i | 0 <= i < k ensures have'[i] == have[sigma[i]] && x[..k][i] == x0[..k][sigma[i]] {
      assert p[..k][i] == p0[..k][sigma[i]];
    }
  }

  lemma Recovered(e: Matrix, w: Matrix, k: nat, n: nat, x: seq<nat>, b: Matrix, have: seq<Vec>, data: seq<Vec>,
                  c: seq<Vec>, got: seq<Vec>, sz: nat)
    requires IsEncoder(e, w, k, n) && |x| == k && (forall i :: 0 <= i < k ==> x[i] < n && x[i] < |e|)
    requires EncodingsOf(have, x, data, sz) && |have| == k
    requires Inverts(DecodeMatrix(e, x, k), b, k) && IsMatrix(b, k, k)
    requires forall i :: 0 <= i < k && x[i] < k ==> x[i] == i
    requires AreRecovered(c, b, x, have, k, sz)
    requires |got| == k && |c| == k && forall i :: 0 <= i < k ==> got[i] == if x[i] < k then have[i] else c[i]
    ensures got == data
  {
    hide Dot, Maps, IsEncoder, Inverts, DecodeMatrix, Symbol;
    forall i | 0 <= i < k ensures got[i] == data[i] {
      if x[i] >= k {
        forall j | 0 <= j < sz ensures c[i][j] == data[i][j] {
          var d, y := Column(data, j), Column(have, j);
          forall l | 0 <= l < k ensures y[l] == Symbol(d, x[l]) {
            assert have[l] == EncodePacket(data, x[l], sz);
          }
          InverseDecodes(e, w, k, n, x, b, d, y);
          MapsAt(b, y, d, k, i);
        }
      }
    }
  }

  lemma MapsAt(a: Matrix, x: Vec, y: Vec, k: nat, i: nat)
    requires IsMatrix(a, k, k) && |x| == k && |y| == k && i < k && Maps(a, x, y, k)
    ensures y[i] == Dot(a[i], x, k)
  {
  }
}
