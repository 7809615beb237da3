/** invert_mat: in-place Gauss-Jordan elimination (fec.c:433-564).

    The proof reads the matrix as a tableau. Row q and column q carry the
    labels y[rho[q]] and x[q]; pivoting on q exchanges the two labels. At
    every moment the tableau equations hold exactly when y = A x for the
    original matrix A. */
module GaussJordan {
  import opened Field
  import opened Linear

  // ----- the tableau -----

  ghost predicate IsPermutation(rho: seq<nat>, k: nat) {
    |rho| == k && (forall i :: 0 <= i < k ==> rho[i] < k)
    && forall i, j :: 0 <= i < j < k ==> rho[i] != rho[j]
  }

  ghost function RowLabels(piv: seq<bool>, rho: seq<nat>, x: Vec, y: Vec, k: nat): (r: Vec)
    requires |piv| == k && IsPermutation(rho, k) && |x| == k && |y| == k
    ensures |r| == k && forall q :: 0 <= q < k ==> r[q] == if piv[q] then x[q] else y[rho[q]]
  {
    seq(k, q requires 0 <= q < k => if piv[q] then x[q] else y[rho[q]])
  }

  ghost function ColLabels(piv: seq<bool>, rho: seq<nat>, x: Vec, y: Vec, k: nat): (c: Vec)
    requires |piv| == k && IsPermutation(rho, k) && |x| == k && |y| == k
    ensures |c| == k && forall q :: 0 <= q < k ==> c[q] == if piv[q] then y[rho[q]] else x[q]
  {
    seq(k, q requires 0 <= q < k => if piv[q] then y[rho[q]] else x[q])
  }

  /** The current matrix m, read with its labels, states y = A x. */
  ghost predicate Represents(a: Matrix, m: Matrix, piv: seq<bool>, rho: seq<nat>, k: nat) {
    IsMatrix(a, k, k) && IsMatrix(m, k, k) && |piv| == k && IsPermutation(rho, k)
    && forall x: Vec, y: Vec | |x| == k && |y| == k ::
         Maps(a, x, y, k) <==> Maps(m, ColLabels(piv, rho, x, y, k), RowLabels(piv, rho, x, y, k), k)
  }

  ghost function Identity(k: nat): (rho: seq<nat>)
    ensures IsPermutation(rho, k) && forall i :: 0 <= i < k ==> rho[i] == i
  {
    seq(k, i requires 0 <= i => i)
  }

  function Swap<T>(s: seq<T>, i: nat, j: nat): (t: seq<T>)
    requires i < |s| && j < |s|
    ensures |t| == |s| && t[i] == s[j] && t[j] == s[i]
    ensures forall l :: 0 <= l < |s| && l != i && l != j ==> t[l] == s[l]
  {
    s[i := s[j]][j := s[i]]
  }

  /** The row scaled so that its pivot becomes the inverse of the old pivot. */
  ghost function PivotRow(m: Matrix, q: nat, k: nat): (r: Vec)
    requires IsMatrix(m, k, k) && q < k
    ensures |r| == k
    ensures forall j :: 0 <= j < k ==> r[j] == Mul(Inv(m[q][q]), if j == q then 1 else m[q][j])
  {
    seq(k, j requires 0 <= j < k => Mul(Inv(m[q][q]), if j == q then 1 else m[q][j]))
  }

  ghost function OtherRow(row: Vec, pivotRow: Vec, q: nat, k: nat): (r: Vec)
    requires |row| == k && |pivotRow| == k && q < k
    ensures |r| == k
    ensures forall j :: 0 <= j < k ==> r[j] == Xor(if j == q then 0 else row[j], Mul(row[q], pivotRow[j]))
  {
    seq(k, j requires 0 <= j < k => Xor(if j == q then 0 else row[j], Mul(row[q], pivotRow[j])))
  }

  /** The exchange step: every other row loses its multiple of the pivot row. */
  ghost function Pivot(m: Matrix, q: nat, k: nat): (m': Matrix)
    requires IsMatrix(m, k, k) && q < k
    ensures IsMatrix(m', k, k) && m'[q] == PivotRow(m, q, k)
    ensures forall i :: 0 <= i < k && i != q ==> m'[i] == OtherRow(m[i], PivotRow(m, q, k), q, k)
  {
    seq(k, i requires 0 <= i < k => if i == q then PivotRow(m, q, k) else OtherRow(m[i], PivotRow(m, q, k), q, k))
  }

  lemma StartRepresents(a: Matrix, rs: seq<nat>, cs: seq<nat>, piv: seq<bool>, k: nat)
    requires IsMatrix(a, k, k) && piv == seq(k, _ => false)
    ensures Represents(a, a, piv, Rho(rs, cs, 0, k), k) && Count(piv) == 0
  {
    hide Dot;
    CountNone(k);
    forall x: Vec, y: Vec | |x| == k && |y| == k
      ensures ColLabels(seq(k, _ => false), Identity(k), x, y, k) == x
      ensures RowLabels(seq(k, _ => false), Identity(k), x, y, k) == y
    {
    }
  }

  lemma SwapKeeps(a: Matrix, m: Matrix, piv: seq<bool>, rho: seq<nat>, k: nat, i: nat, j: nat)
    requires Represents(a, m, piv, rho, k)
    requires i < k && j < k && !piv[i] && !piv[j]
    ensures Represents(a, Swap(m, i, j), piv, Swap(rho, i, j), k)
  {
    hide Dot;
    var m', rho' := Swap(m, i, j), Swap(rho, i, j);
    forall x: Vec, y: Vec | |x| == k && |y| == k
      ensures Maps(m, ColLabels(piv, rho, x, y, k), RowLabels(piv, rho, x, y, k), k)
         <==> Maps(m', ColLabels(piv, rho', x, y, k), RowLabels(piv, rho', x, y, k), k)
    {
      var c, r, r' := ColLabels(piv, rho, x, y, k), RowLabels(piv, rho, x, y, k), RowLabels(piv, rho', x, y, k);
      assert ColLabels(piv, rho', x, y, k) == c;
      assert r' == Swap(r, i, j);
      if Maps(m', c, r', k) {
        assert r'[i] == Dot(m'[i], c, k) && r'[j] == Dot(m'[j], c, k);
        forall l | 0 <= l < k ensures r[l] == Dot(m[l], c, k) {
          assert r'[l] == Dot(m'[l], c, k);
        }
      }
    }
  }

  /** The pivot row solves row q for its column label. */
  lemma PivotRowSolves(m: Matrix, q: nat, r: Vec, c: Vec, k: nat)
    requires IsMatrix(m, k, k) && q < k && |r| == k && |c| == k && m[q][q] != 0
    ensures r[q] == Dot(m[q], c, k) <==> c[q] == Dot(PivotRow(m, q, k), c[q := r[q]], k)
  {
    hide Xor, Mul, Inv, Dot;
    var p := m[q][q];
    var one: Gf := 1;
    var rest := Dot(m[q][q := 0], c, k);
    DotSplit(m[q], c, q, k);
    DotScale(PivotRow(m, q, k), Inv(p), m[q][q := one], c[q := r[q]], k);
    DotSplitNew(m[q], c, q, one, r[q], k);
    MulOne(r[q]);
    assert Dot(PivotRow(m, q, k), c[q := r[q]], k) == Mul(Inv(p), Xor(rest, r[q]));
    MulInverse(p);
    MulAssoc(Inv(p), p, c[q]);
    MulOne(c[q]);
    MulAssoc(p, Inv(p), Xor(rest, r[q]));
    MulOne(Xor(rest, r[q]));
    XorCancel(rest, Mul(p, c[q]));
    XorCancel(rest, r[q]);
  }

  lemma OtherRowKept(m: Matrix, q: nat, i: nat, r: Vec, c: Vec, k: nat)
    requires IsMatrix(m, k, k) && q < k && i < k && i != q && |r| == k && |c| == k
    requires c[q] == Dot(PivotRow(m, q, k), c[q := r[q]], k)
    ensures Dot(m[i], c, k) == Dot(Pivot(m, q, k)[i], c[q := r[q]], k)
  {
    hide Xor, Mul, Inv, Dot, PivotRow;
    var c' := c[q := r[q]];
    DotSplit(m[i], c, q, k);
    DotCombine(Pivot(m, q, k)[i], m[i][q := 0], m[i][q], PivotRow(m, q, k), c', k);
    DotSplitNew(m[i], c, q, 0, r[q], k);
    MulZero(r[q]);
    XorZero(Dot(m[i][q := 0], c, k));
  }

  lemma PivotMaps(m: Matrix, q: nat, r: Vec, c: Vec, k: nat)
    requires IsMatrix(m, k, k) && q < k && |r| == k && |c| == k && m[q][q] != 0
    ensures Maps(m, c, r, k) <==> Maps(Pivot(m, q, k), c[q := r[q]], r[q := c[q]], k)
  {
    hide Xor, Mul, Inv, Dot, PivotRow, Pivot;
    PivotRowSolves(m, q, r, c, k);
    var m', r', c' := Pivot(m, q, k), r[q := c[q]], c[q := r[q]];
    if r[q] == Dot(m[q], c, k) {
      forall i | 0 <= i < k && i != q ensures Dot(m[i], c, k) == Dot(m'[i], c', k) {
        OtherRowKept(m, q, i, r, c, k);
      }
    } else {
      assert r'[q] != Dot(m'[q], c', k);
    }
  }

  lemma PivotKeeps(a: Matrix, m: Matrix, piv: seq<bool>, rho: seq<nat>, k: nat, q: nat)
    requires Represents(a, m, piv, rho, k)
    requires q < k && !piv[q] && m[q][q] != 0
    ensures Represents(a, Pivot(m, q, k), piv[q := true], rho, k)
  {
    hide Xor, Mul, Inv, Dot, Maps, Pivot;
    var piv' := piv[q := true];
    forall x: Vec, y: Vec | |x| == k && |y| == k
      ensures Maps(m, ColLabels(piv, rho, x, y, k), RowLabels(piv, rho, x, y, k), k)
         <==> Maps(Pivot(m, q, k), ColLabels(piv', rho, x, y, k), RowLabels(piv', rho, x, y, k), k)
    {
      var c, r := ColLabels(piv, rho, x, y, k), RowLabels(piv, rho, x, y, k);
      PivotMaps(m, q, r, c, k);
      assert ColLabels(piv', rho, x, y, k) == c[q := r[q]];
      assert RowLabels(piv', rho, x, y, k) == r[q := c[q]];
    }
  }

  /** When an unpivoted row i has only zeros left, no x reaches the unit
      vector of its label. */
  lemma NoPivotMeansUnreachable(a: Matrix, m: Matrix, piv: seq<bool>, rho: seq<nat>, k: nat, i: nat, x: Vec)
    requires Represents(a, m, piv, rho, k)
    requires i < k && !piv[i] && forall j :: 0 <= j < k && !piv[j] ==> m[i][j] == 0
    requires |x| == k
    ensures !Maps(a, x, Unit(rho[i], k), k)
  {
    hide Xor, Mul, Dot, Represents, Maps;
    RepresentsShape(a, m, piv, rho, k);
    RepresentsAt(a, m, piv, rho, k, x, Unit(rho[i], k));
    LabelsOfUnit(m, piv, rho, k, i, x);
  }

  lemma RepresentsShape(a: Matrix, m: Matrix, piv: seq<bool>, rho: seq<nat>, k: nat)
    requires Represents(a, m, piv, rho, k)
    ensures IsMatrix(a, k, k) && IsMatrix(m, k, k) && |piv| == k && IsPermutation(rho, k)
  {
    hide Maps;
  }

  lemma RepresentsAt(a: Matrix, m: Matrix, piv: seq<bool>, rho: seq<nat>, k: nat, x: Vec, y: Vec)
    requires Represents(a, m, piv, rho, k) && |x| == k && |y| == k
    ensures IsMatrix(a, k, k) && IsMatrix(m, k, k) && |piv| == k && IsPermutation(rho, k)
    ensures Maps(a, x, y, k) <==> Maps(m, ColLabels(piv, rho, x, y, k), RowLabels(piv, rho, x, y, k), k)
  {
    hide Maps;
  }

  lemma LabelsOfUnit(m: Matrix, piv: seq<bool>, rho: seq<nat>, k: nat, i: nat, x: Vec)
    requires IsMatrix(m, k, k) && |piv| == k && IsPermutation(rho, k) && |x| == k
    requires i < k && !piv[i] && forall j :: 0 <= j < k && !piv[j] ==> m[i][j] == 0
    ensures var y := Unit(rho[i], k); !Maps(m, ColLabels(piv, rho, x, y, k), RowLabels(piv, rho, x, y, k), k)
  {
    hide Xor, Mul, Dot;
    var y := Unit(rho[i], k);
    var c, r := ColLabels(piv, rho, x, y, k), RowLabels(piv, rho, x, y, k);
    forall j | 0 <= j < k && piv[j] ensures c[j] == 0 {
      if j < i {
        assert rho[j] != rho[i];
      } else {
        assert rho[i] != rho[j];
      }
    }
    DotZero(m[i], c, k);
    assert r[i] == 1;
  }

  lemma UnreachableMeansSingular(a: Matrix, y: Vec, k: nat)
    requires IsMatrix(a, k, k) && Unreachable(a, y, k)
    ensures !Nonsingular(a, k)
  {
    hide Dot;
    forall b: Matrix | IsMatrix(b, k, k) ensures !Inverts(a, b, k) {
      var x := Apply(b, y, k);
      assert Maps(b, y, x, k) && !Maps(a, x, y, k);
    }
  }

  // ----- undoing the row swaps -----

  /** The labels after the first n recorded row swaps. */
  ghost function Rho(rs: seq<nat>, cs: seq<nat>, n: nat, k: nat): (rho: seq<nat>)
    requires n <= |rs| && n <= |cs|
    requires forall t :: 0 <= t < n ==> rs[t] < k && cs[t] < k
    ensures IsPermutation(rho, k)
  {
    if n == 0 then Identity(k) else Swap(Rho(rs, cs, n - 1, k), rs[n - 1], cs[n - 1])
  }

  ghost function Permute(y: Vec, rho: seq<nat>, k: nat): (z: Vec)
    requires |y| == k && IsPermutation(rho, k)
    ensures |z| == k && forall i :: 0 <= i < k ==> z[i] == y[rho[i]]
  {
    seq(k, i requires 0 <= i < k => y[rho[i]])
  }

  /** All labels exchanged: the rows of m give x in terms of a permuted y. */
  ghost predicate Solves(a: Matrix, m: Matrix, rho: seq<nat>, k: nat) {
    IsMatrix(a, k, k) && IsMatrix(m, k, k) && IsPermutation(rho, k)
    && forall x: Vec, y: Vec | |x| == k && |y| == k :: Maps(a, x, y, k) <==> Maps(m, Permute(y, rho, k), x, k)
  }

  ghost function SwapColumns(m: Matrix, i: nat, j: nat, k: nat): (m': Matrix)
    requires IsMatrix(m, k, k) && i < k && j < k
    ensures IsMatrix(m', k, k) && forall l :: 0 <= l < k ==> m'[l] == Swap(m[l], i, j)
  {
    seq(k, l requires 0 <= l < k => Swap(m[l], i, j))
  }

  lemma SwapColumnsSame(m: Matrix, i: nat, k: nat)
    requires IsMatrix(m, k, k) && i < k
    ensures SwapColumns(m, i, i, k) == m
  {
    forall l | 0 <= l < k ensures SwapColumns(m, i, i, k)[l] == m[l] {
    }
  }

  lemma AllPivoted(a: Matrix, m: Matrix, piv: seq<bool>, rho: seq<nat>, k: nat)
    requires Represents(a, m, piv, rho, k) && forall q :: 0 <= q < k ==> piv[q]
    ensures Solves(a, m, rho, k)
  {
    hide Dot;
    forall x: Vec, y: Vec | |x| == k && |y| == k
      ensures ColLabels(piv, rho, x, y, k) == Permute(y, rho, k) && RowLabels(piv, rho, x, y, k) == x
    {
    }
  }

  lemma DotSwap(u: Vec, v: Vec, i: nat, j: nat, k: nat)
    requires i < k && j < k && |u| == k && |v| == k
    ensures Dot(Swap(u, i, j), Swap(v, i, j), k) == Dot(u, v, k)
  {
    hide Xor, Mul, Dot;
    if i != j {
      var zero: Gf := 0;
      var w := u[i := zero];
      var u', v' := Swap(u, i, j), Swap(v, i, j);
      var w' := u'[i := zero];
      DotSplit(u, v, i, k);
      DotSplit(w, v, j, k);
      DotSplit(u', v', i, k);
      DotSplit(w', v', j, k);
      forall l | 0 <= l < k ensures Mul(w[j := zero][l], v[l]) == Mul(w'[j := zero][l], v'[l]) {
        MulZero(v[l]);
        MulZero(v'[l]);
      }
      DotSame(w[j := zero], v, w'[j := zero], v', k);
      var d := Dot(w[j := zero], v, k);
      XorAssoc(d, Mul(u[j], v[j]), Mul(u[i], v[i]));
      XorAssoc(d, Mul(u[i], v[i]), Mul(u[j], v[j]));
      XorComm(Mul(u[j], v[j]), Mul(u[i], v[i]));
    } else {
      assert Swap(u, i, i) == u && Swap(v, i, i) == v;
    }
  }

  lemma UndoSwap(a: Matrix, m: Matrix, rho: seq<nat>, i: nat, j: nat, k: nat)
    requires IsPermutation(rho, k) && i < k && j < k
    requires Solves(a, m, Swap(rho, i, j), k)
    ensures Solves(a, SwapColumns(m, i, j, k), rho, k)
  {
    hide Dot;
    var m', rho' := SwapColumns(m, i, j, k), Swap(rho, i, j);
    forall x: Vec, y: Vec | |x| == k && |y| == k
      ensures Maps(m, Permute(y, rho', k), x, k) <==> Maps(m', Permute(y, rho, k), x, k)
    {
      var z := Permute(y, rho', k);
      assert Permute(y, rho, k) == Swap(z, i, j);
      forall l | 0 <= l < k ensures Dot(m'[l], Swap(z, i, j), k) == Dot(m[l], z, k) {
        DotSwap(m[l], z, i, j, k);
      }
    }
  }

  lemma SolvesIdentity(a: Matrix, m: Matrix, k: nat)
    requires Solves(a, m, Identity(k), k)
    ensures Inverts(a, m, k)
  {
    hide Dot;
    forall y: Vec | |y| == k ensures Permute(y, Identity(k), k) == y {
    }
  }

  ghost function Count(piv: seq<bool>): (n: nat)
    ensures n <= |piv| && (n == |piv| ==> forall q :: 0 <= q < |piv| ==> piv[q])
    ensures n < |piv| ==> exists q :: 0 <= q < |piv| && !piv[q]
  {
    if piv == [] then 0 else Count(piv[..|piv| - 1]) + (if piv[|piv| - 1] then 1 else 0)
  }

  lemma {:induction false} CountPivot(piv: seq<bool>, q: nat)
    requires q < |piv| && !piv[q]
    ensures Count(piv[q := true]) == Count(piv) + 1
  {
    var l := |piv| - 1;
    var piv' := piv[q := true];
    if q == l {
      assert piv'[..l] == piv[..l];
    } else {
      assert piv'[..l] == piv[..l][q := true];
      CountPivot(piv[..l], q);
    }
  }

  lemma {:induction false} CountNone(k: nat)
    ensures Count(seq(k, _ => false)) == 0
  {
    if k > 0 {
      assert seq(k, _ => false)[..k - 1] == seq(k - 1, _ => false);
      CountNone(k - 1);
    }
  }

  // ----- the algorithm -----

  ghost function Rows(m: array2<Gf>): (r: Matrix)
    reads m
    ensures IsMatrix(r, m.Length0, m.Length1)
    ensures forall i, j :: 0 <= i < m.Length0 && 0 <= j < m.Length1 ==> r[i][j] == m[i, j]
  {
    seq(m.Length0, i requires 0 <= i < m.Length0 reads m =>
      seq(m.Length1, j requires 0 <= j < m.Length1 reads m => m[i, j]))
  }

  /** The search of lines 468-494: the diagonal first, then the first nonzero
      entry, row by row, that lies in an unused row and an unused column. */
  method FindPivot(m: array2<Gf>, piv: array<bool>, col: nat, k: nat) returns (found: bool, irow: nat, icol: nat)
    requires m.Length0 == k && m.Length1 == k && piv.Length == k && col < k
    ensures found ==> irow < k && icol < k && !piv[irow] && !piv[icol] && m[irow, icol] != 0
    ensures found && !piv[col] && m[col, col] != 0 ==> irow == col && icol == col
    ensures found && (piv[col] || m[col, col] == 0) ==>
      forall i, j :: 0 <= i < k && 0 <= j < k && !piv[i] && !piv[j] && (i < irow || (i == irow && j < icol)) ==>
        m[i, j] == 0
    ensures !found ==> forall i, j :: 0 <= i < k && 0 <= j < k && !piv[i] && !piv[j] ==> m[i, j] == 0
  {
    if !piv[col] && m[col, col] != 0 {
      return true, col, col;
    }
    for row := 0 to k
      invariant forall i, j :: 0 <= i < row && 0 <= j < k && !piv[i] && !piv[j] ==> m[i, j] == 0
    {
      if !piv[row] {
        for ix := 0 to k
          invariant forall j :: 0 <= j < ix && !piv[j] ==> m[row, j] == 0
        {
          if !piv[ix] && m[row, ix] != 0 {
            return true, row, ix;
          }
        }
      }
    }
    return false, 0, 0;
  }

  method SwapRows(m: array2<Gf>, a: nat, b: nat, k: nat)
    requires m.Length0 == k && m.Length1 == k && a < k && b < k
    modifies m
    ensures Rows(m) == Swap(old(Rows(m)), a, b)
  {
    ghost var m0 := Rows(m);
    for ix := 0 to k
      invariant forall i, j :: 0 <= i < k && ix <= j < k ==> m[i, j] == m0[i][j]
      invariant forall i, j :: 0 <= i < k && 0 <= j < ix ==> m[i, j] == Swap(m0, a, b)[i][j]
    {
      var tmp := m[a, ix];
      m[a, ix] := m[b, ix];
      m[b, ix] := tmp;
    }
    assert forall i :: 0 <= i < k ==> Rows(m)[i] == Swap(m0, a, b)[i];
  }

  method SwapCols(m: array2<Gf>, a: nat, b: nat, k: nat)
    requires m.Length0 == k && m.Length1 == k && a < k && b < k
    modifies m
    ensures Rows(m) == SwapColumns(old(Rows(m)), a, b, k)
  {
    ghost var m0 := Rows(m);
    for row := 0 to k
      invariant forall i, j :: row <= i < k && 0 <= j < k ==> m[i, j] == m0[i][j]
      invariant forall i, j :: 0 <= i < row && 0 <= j < k ==> m[i, j] == Swap(m0[i], a, b)[j]
    {
      var tmp := m[row, a];
      m[row, a] := m[row, b];
      m[row, b] := tmp;
    }
    assert forall i :: 0 <= i < k ==> Rows(m)[i] == SwapColumns(m0, a, b, k)[i];
  }

  /** Divide the pivot row by its pivot, storing the inverse of the pivot in
      its place; nothing to do when the pivot is 1 (lines 509-525). */
  method Normalise(m: array2<Gf>, q: nat, k: nat)
    requires m.Length0 == k && m.Length1 == k && q < k && m[q, q] != 0
    modifies m
    ensures Rows(m) == old(Rows(m))[q := PivotRow(old(Rows(m)), q, k)]
  {
    hide Mul, Inv;
    ghost var m0 := Rows(m);
    var c := m[q, q];
    MulInverse(c);
    if c != 1 {
      c := Inv(c);
      m[q, q] := 1;
      for ix := 0 to k
        invariant forall i, j :: 0 <= i < k && 0 <= j < k && i != q ==> m[i, j] == m0[i][j]
        invariant forall j :: 0 <= j < ix ==> m[q, j] == PivotRow(m0, q, k)[j]
        invariant forall j :: ix <= j < k ==> m[q, j] == if j == q then 1 else m0[q][j]
      {
        m[q, ix] := Mul(c, m[q, ix]);
      }
    } else {
      forall x: Gf ensures Mul(1, x) == x { MulOne(x); }
      MulOne(Inv(1));
    }
    assert forall i :: 0 <= i < k ==> Rows(m)[i] == m0[q := PivotRow(m0, q, k)][i];
  }

  /** dst = dst + c * src on whole rows: the macro addmul, which skips c = 0. */
  method AddMulRow(m: array2<Gf>, dst: nat, src: nat, c: Gf, k: nat)
    requires m.Length0 == k && m.Length1 == k && dst < k && src < k && dst != src
    modifies m
    ensures forall i, j :: 0 <= i < k && 0 <= j < k ==>
      m[i, j] == if i == dst then Xor(old(m[dst, j]), Mul(c, old(m[src, j]))) else old(m[i, j])
  {
    hide Xor, Mul;
    if c != 0 {
      for ix := 0 to k
        invariant forall i, j :: 0 <= i < k && 0 <= j < k && (i != dst || j >= ix) ==> m[i, j] == old(m[i, j])
        invariant forall j :: 0 <= j < ix ==> m[dst, j] == Xor(old(m[dst, j]), Mul(c, old(m[src, j])))
      {
        m[dst, ix] := Xor(m[dst, ix], Mul(c, m[src, ix]));
      }
    } else {
      forall x: Gf, y: Gf ensures Xor(x, Mul(0, y)) == x { MulZero(y); XorZero(x); }
    }
  }

  predicate IsIdentityRow(m: array2<Gf>, q: nat, k: nat)
    requires m.Length0 == k && m.Length1 == k && q < k
    reads m
  {
    forall j :: 0 <= j < k ==> m[q, j] == if j == q then 1 else 0
  }

  /** Eliminate column q from all other rows; skipped when the pivot row is
      already the identity row (lines 526-543). */
  method Eliminate(m: array2<Gf>, q: nat, k: nat)
    requires m.Length0 == k && m.Length1 == k && q < k
    modifies m
    ensures Rows(m)[q] == old(Rows(m))[q]
    ensures forall i :: 0 <= i < k && i != q ==> Rows(m)[i] == OtherRow(old(Rows(m))[i], old(Rows(m))[q], q, k)
  {
    hide Xor, Mul;
    ghost var m0 := Rows(m);
    if !IsIdentityRow(m, q, k) {
      for ix := 0 to k
        invariant forall i, j :: ix <= i < k && 0 <= j < k ==> m[i, j] == m0[i][j]
        invariant forall j :: 0 <= j < k ==> m[q, j] == m0[q][j]
        invariant forall i, j :: 0 <= i < ix && i != q && 0 <= j < k ==> m[i, j] == OtherRow(m0[i], m0[q], q, k)[j]
      {
        if ix != q {
          var c := m[ix, q];
          m[ix, q] := 0;
          AddMulRow(m, ix, q, c, k);
        }
      }
    } else {
      forall i | 0 <= i < k && i != q ensures OtherRow(m0[i], m0[q], q, k) == m0[i] {
        forall j | 0 <= j < k ensures OtherRow(m0[i], m0[q], q, k)[j] == m0[i][j] {
          var f := if j == q then 0 else m0[i][j];
          MulZero(m0[i][q]);
          MulOne(m0[i][q]);
          XorZero(f);
          XorZero(m0[i][q]);
        }
      }
    }
    assert forall i :: 0 <= i < k && i != q ==> Rows(m)[i] == OtherRow(m0[i], m0[q], q, k);
  }

  /** Bring the pivot to the diagonal and eliminate its column. */
  method PivotOn(src: array2<Gf>, irow: nat, icol: nat, k: nat)
    requires src.Length0 == k && src.Length1 == k && irow < k && icol < k && src[irow, icol] != 0
    modifies src
    ensures Swap(old(Rows(src)), irow, icol)[icol][icol] != 0
    ensures Rows(src) == Pivot(Swap(old(Rows(src)), irow, icol), icol, k)
  {
    hide Pivot, PivotRow, OtherRow;
    ghost var m0 := Rows(src);
    assert m0[irow][icol] != 0;
    hide Rows;
    if irow != icol {
      SwapRows(src, irow, icol, k);
    }
    assert Rows(src) == Swap(m0, irow, icol);
    ghost var m1 := Rows(src);
    Normalise(src, icol, k);
    Eliminate(src, icol, k);
    AfterElimination(m1, Rows(src), icol, k);
  }

  /** One round of the main loop: find a pivot, record the swap, eliminate. */
  method ReduceColumn(
    src: array2<Gf>, ipiv: array<bool>, indxr: array<nat>, indxc: array<nat>, col: nat, k: nat, ghost a: Matrix)
      returns (found: bool)
    requires src.Length0 == k && src.Length1 == k && ipiv.Length == k && indxr.Length == k && indxc.Length == k
    requires indxr != indxc && col < k && IsMatrix(a, k, k)
    requires forall t :: 0 <= t < col ==> indxr[t] < k && indxc[t] < k
    requires Represents(a, Rows(src), ipiv[..], Rho(indxr[..], indxc[..], col, k), k)
    requires Count(ipiv[..]) == col
    modifies src, ipiv, indxr, indxc
    ensures !found ==> !Nonsingular(a, k) && exists y :: Unreachable(a, y, k)
    ensures found ==> forall t :: 0 <= t <= col ==> indxr[t] < k && indxc[t] < k
    ensures found ==> Represents(a, Rows(src), ipiv[..], Rho(indxr[..], indxc[..], col + 1, k), k)
    ensures found ==> Count(ipiv[..]) == col + 1
  {
    hide Dot, Maps, Represents, Pivot, Rho, Nonsingular, Count, Unreachable;
    ghost var m0, piv0, rho0 := Rows(src), ipiv[..], Rho(indxr[..], indxc[..], col, k);
    var irow, icol;
    found, irow, icol := FindPivot(src, ipiv, col, k);
    hide Rows;
    if !found {
      FailedSearch(a, m0, piv0, rho0, k);
      return;
    }
    ipiv[icol] := true;
    CountPivot(piv0, icol);
    assert ipiv[..] == piv0[icol := true];
    ghost var rs, cs := indxr[..], indxc[..];
    indxr[col] := irow;
    indxc[col] := icol;
    RhoStep(rs, cs, indxr[..], indxc[..], col, k);
    PivotOn(src, irow, icol, k);
    SwapKeeps(a, m0, piv0, rho0, k, irow, icol);
    PivotKeeps(a, Swap(m0, irow, icol), piv0, Swap(rho0, irow, icol), k, icol);
  }

  /** Undo the recorded row swaps as column swaps, last one first. */
  method UnscrambleColumns(src: array2<Gf>, indxr: array<nat>, indxc: array<nat>, k: nat, ghost a: Matrix)
    requires src.Length0 == k && src.Length1 == k && indxr.Length == k && indxc.Length == k
    requires forall t :: 0 <= t < k ==> indxr[t] < k && indxc[t] < k
    requires Solves(a, Rows(src), Rho(indxr[..], indxc[..], k, k), k)
    modifies src
    ensures Inverts(a, Rows(src), k)
  {
    hide Dot, Maps, Solves, Rows, Rho, Inverts;
    RhoUnfold(indxr[..], indxc[..], k, k);
    var col: nat := k;
    while col > 0
      invariant col <= k
      invariant Solves(a, Rows(src), Rho(indxr[..], indxc[..], col, k), k)
    {
      col := col - 1;
      ghost var m1 := Rows(src);
      RhoUnfold(indxr[..], indxc[..], col, k);
      UndoSwap(a, m1, Rho(indxr[..], indxc[..], col, k), indxr[col], indxc[col], k);
      if indxr[col] != indxc[col] {
        SwapCols(src, indxr[col], indxc[col], k);
      } else {
        SwapColumnsSame(m1, indxr[col], k);
      }
    }
    SolvesIdentity(a, Rows(src), k);
  }

  /** Returns 0 exactly when the matrix is nonsingular, and then holds its
      inverse. The two further error exits of the source (a zero pivot, a
      column used twice) are never taken: FindPivot only returns nonzero
      entries in unused columns. */
  method InvertMat(src: array2<Gf>, k: nat) returns (error: int)
    requires src.Length0 == k && src.Length1 == k
    modifies src
    ensures error == 0 || error == 1
    ensures error == 0 <==> Nonsingular(old(Rows(src)), k)
    ensures error == 0 ==> Inverts(old(Rows(src)), Rows(src), k)
    ensures error == 1 ==> exists y :: Unreachable(old(Rows(src)), y, k)
  {
    hide Unreachable;
    hide Dot, Maps, Represents, Solves, Rows, Rho, Count, Nonsingular, Inverts;
    ghost var a := Rows(src);
    var indxc := new nat[k](_ => 0);
    var indxr := new nat[k](_ => 0);
    var ipiv := new bool[k](_ => false);
    StartRepresents(a, indxr[..], indxc[..], ipiv[..], k);
    for col := 0 to k
      invariant forall t :: 0 <= t < col ==> indxr[t] < k && indxc[t] < k
      invariant Represents(a, Rows(src), ipiv[..], Rho(indxr[..], indxc[..], col, k), k)
      invariant Count(ipiv[..]) == col
    {
      var found := ReduceColumn(src, ipiv, indxr, indxc, col, k, a);
      if !found {
        return 1;
      }
    }
    AllPivoted(a, Rows(src), ipiv[..], Rho(indxr[..], indxc[..], k, k), k);
    UnscrambleColumns(src, indxr, indxc, k, a);
    InverseExists(a, Rows(src), k);
    return 0;
  }

  lemma InverseExists(a: Matrix, b: Matrix, k: nat)
    requires Inverts(a, b, k)
    ensures IsMatrix(a, k, k) && Nonsingular(a, k)
  {
    hide Maps;
  }

  lemma FailedSearch(a: Matrix, m: Matrix, piv: seq<bool>, rho: seq<nat>, k: nat)
    requires IsMatrix(a, k, k) && IsMatrix(m, k, k) && |piv| == k && IsPermutation(rho, k)
    requires Represents(a, m, piv, rho, k) && Count(piv) < k
    requires forall i, j :: 0 <= i < k && 0 <= j < k && !piv[i] && !piv[j] ==> m[i][j] == 0
    ensures !Nonsingular(a, k) && exists y :: Unreachable(a, y, k)
  {
    hide Maps, Represents, Nonsingular;
    var i :| 0 <= i < k && !piv[i];
    var y := Unit(rho[i], k);
    forall x: Vec | |x| == k ensures !Maps(a, x, y, k) {
      NoPivotMeansUnreachable(a, m, piv, rho, k, i, x);
    }
    UnreachableMeansSingular(a, y, k);
  }

  lemma {:induction false} RhoPrefix(rs: seq<nat>, cs: seq<nat>, rs': seq<nat>, cs': seq<nat>, n: nat, k: nat)
    requires n <= |rs| && n <= |cs| && n <= |rs'| && n <= |cs'|
    requires rs[..n] == rs'[..n] && cs[..n] == cs'[..n]
    requires forall t :: 0 <= t < n ==> rs[t] < k && cs[t] < k
    ensures forall t :: 0 <= t < n ==> rs'[t] < k && cs'[t] < k
    ensures Rho(rs, cs, n, k) == Rho(rs', cs', n, k)
  {
    assert forall t :: 0 <= t < n ==> rs'[t] == rs'[..n][t] == rs[t] && cs'[t] == cs'[..n][t] == cs[t];
    if n > 0 {
      assert rs[..n - 1] == rs[..n][..n - 1] == rs'[..n - 1];
      assert cs[..n - 1] == cs[..n][..n - 1] == cs'[..n - 1];
      RhoPrefix(rs, cs, rs', cs', n - 1, k);
    }
  }

  lemma RhoUnfold(rs: seq<nat>, cs: seq<nat>, n: nat, k: nat)
    requires |rs| == k && |cs| == k && forall t :: 0 <= t < k ==> rs[t] < k && cs[t] < k
    ensures Rho(rs, cs, 0, k) == Identity(k)
    ensures n < k ==> Rho(rs, cs, n + 1, k) == Swap(Rho(rs, cs, n, k), rs[n], cs[n])
  {
  }

  lemma RhoStep(rs: seq<nat>, cs: seq<nat>, rs': seq<nat>, cs': seq<nat>, n: nat, k: nat)
    requires n < |rs| && n < |cs| && n < |rs'| && n < |cs'|
    requires forall t :: 0 <= t < n ==> rs[t] < k && cs[t] < k && rs'[t] == rs[t] && cs'[t] == cs[t]
    requires rs'[n] < k && cs'[n] < k
    ensures Rho(rs', cs', n + 1, k) == Swap(Rho(rs, cs, n, k), rs'[n], cs'[n])
  {
    RhoPrefix(rs, cs, rs', cs', n, k);
  }

  lemma AfterElimination(m: Matrix, m': Matrix, q: nat, k: nat)
    requires IsMatrix(m, k, k) && IsMatrix(m', k, k) && q < k
    requires m'[q] == PivotRow(m, q, k)
    requires forall i :: 0 <= i < k && i != q ==> m'[i] == OtherRow(m[i], PivotRow(m, q, k), q, k)
    ensures m' == Pivot(m, q, k)
  {
  }
}
