/** The lookup tables of fec.c and the code that fills them (fec.c:179-338).
    The rest of the codec uses Field.Mul where the source reads gf_mul_table,
    and Field.Inv where it reads inverse: InitMulTable and GenerateGf are
    proved to leave exactly those functions in the tables. */
module GfTables {
  import opened Field

  /** modnn: x % 255 without a division. */
  method Modnn(x: nat) returns (r: Gf)
    ensures r == x % 255
  {
    var y: nat := x;
    while y >= GF_SIZE
      invariant y % 255 == x % 255
      decreases y
    {
      y := y - GF_SIZE;
      FoldHighByte(y);
      y := y / 256 + y % 256;
    }
    r := y;
  }

  lemma FoldHighByte(y: nat)
    ensures (y / 256 + y % 256) % 255 == y % 255 == (y + 255) % 255
    ensures y / 256 + y % 256 < y + 255
  {
    var q, s := y / 256, y % 256;
    assert y == 255 * q + (q + s);
  }

  /** The first i coefficients of the polynomial "101110001" that lie below
      alpha^8, and the single bit the loop is about to look at. */
  function PolySum(i: nat): Gf
    requires i <= 8
  {
    [0, 1, 1, 5, 13, 29, 29, 29, 29][i]
  }

  function Mask(i: nat): Gf
    requires i <= 8
  {
    [1, 2, 4, 8, 16, 32, 64, 128, 0][i]
  }

  predicate PolyBit(i: nat) {
    i == 0 || i == 2 || i == 3 || i == 4
  }

  lemma PolyStep(i: nat)
    requires i < 8
    ensures Mask(i) == Exp(i)
    ensures Mask(i + 1) == 2 * Mask(i) % 256
    ensures PolySum(i + 1) == if PolyBit(i) then Xor(PolySum(i), Mask(i)) else PolySum(i)
  {
    assert Exp(3) == 8;
    assert Exp(5) == 32;
    assert Exp(7) == 128;
    assert Xor(0, 1) == 1 && Xor(1, 4) == 5 && Xor(5, 8) == 13 && Xor(13, 16) == 29;
  }

  class Tables {
    const exp: array<Gf>
    const log: array<nat>
    const inverse: array<Gf>
    const mul: array2<Gf>

    ghost predicate Valid()
      reads this
    {
      exp != inverse && exp.Length == 510 && log.Length == 256 && inverse.Length == 256
      && mul.Length0 == 256 && mul.Length1 == 256
    }

    constructor ()
      ensures Valid() && fresh(exp) && fresh(log) && fresh(inverse) && fresh(mul)
    {
      exp := new Gf[510](_ => 0);
      log := new nat[256](_ => 0);
      inverse := new Gf[256](_ => 0);
      mul := new Gf[256, 256]((_, _) => 0);
    }

    /** gf_exp, gf_log and inverse hold the powers, logarithms and inverses. */
    ghost predicate Generated()
      requires Valid()
      reads this, exp, log, inverse
    {
      (forall i :: 0 <= i < 510 ==> exp[i] == Exp(i % 255))
      && log[0] == 255
      && (forall x: Gf :: x != 0 ==> log[x] == Log(x))
      && (forall x: Gf :: inverse[x] == Inv(x))
    }

    ghost predicate LogsBelow(n: nat)
      requires Valid() && n <= 255
      reads this, exp, log
    {
      forall i :: 0 <= i < n ==> exp[i] == Exp(i) && log[Exp(i)] == i
    }

    method GenerateGf()
      requires Valid()
      modifies exp, log, inverse
      ensures Generated()
    {
      hide Exp, Log, Inv;
      FirstPowers();
      RemainingPowers();
      ExtendPowers();
      FillInverse();
    }

    /** The first loop: alpha^0 .. alpha^7 are single bits, and alpha^8 is
        collected from the polynomial (fec.c:284-306). */
    method FirstPowers()
      requires Valid()
      modifies exp, log
      ensures exp[8] == ALPHA8 && LogsBelow(9)
    {
      hide Exp, Xor;
      var mask: Gf := 1;
      exp[8] := 0;
      for i := 0 to 8
        invariant mask == Mask(i) && exp[8] == PolySum(i)
        invariant LogsBelow(i)
      {
        PolyStep(i);
        AddLog(i);
        exp[i] := mask;
        log[exp[i]] := i;
        if PolyBit(i) {
          exp[8] := Xor(exp[8], mask);
        }
        mask := 2 * mask % 256;
      }
      AddLog(8);
      ExpOf8();
      log[exp[8]] := 8;
    }

    /** The second loop: shift, and fold alpha^8 back (fec.c:313-320). */
    method RemainingPowers()
      requires Valid() && exp[8] == ALPHA8 && LogsBelow(9)
      modifies exp, log
      ensures LogsBelow(255)
    {
      hide Exp, Xor, TimesAlpha;
      var mask: Gf := 128;
      for i := 9 to GF_SIZE
        invariant exp[8] == ALPHA8 && LogsBelow(i)
      {
        AddLog(i);
        ExpStep(i - 1);
        XorHighBit(exp[i - 1]);
        if exp[i - 1] >= mask {
          exp[i] := Xor(exp[8], Xor(exp[i - 1], mask) * 2);
        } else {
          exp[i] := exp[i - 1] * 2;
        }
        log[exp[i]] := i;
      }
    }

    /** log(0) gets its special value and the powers are repeated
        (fec.c:324-327). */
    method ExtendPowers()
      requires Valid() && LogsBelow(255)
      modifies exp, log
      ensures forall i :: 0 <= i < 510 ==> exp[i] == Exp(i % 255)
      ensures log[0] == 255 && forall x: Gf :: x != 0 ==> log[x] == Log(x)
    {
      hide Exp, Log;
      forall i | 0 <= i < 255 ensures Exp(i) != 0 { ExpIsScale(i); }
      log[0] := GF_SIZE;
      for i := 0 to GF_SIZE
        invariant log[0] == 255 && LogsBelow(255)
        invariant forall j :: 255 <= j < 255 + i ==> exp[j] == Exp(j % 255)
      {
        exp[i + GF_SIZE] := exp[i];
      }
      assert forall i :: 0 <= i < 255 ==> i % 255 == i;
      forall x: Gf | x != 0 ensures log[x] == Log(x) {
        assert Exp(Log(x)) == x;
      }
    }

    method FillInverse()
      requires Valid()
      requires forall i :: 0 <= i < 510 ==> exp[i] == Exp(i % 255)
      requires forall x: Gf :: x != 0 ==> log[x] == Log(x)
      modifies inverse
      ensures forall x: Gf :: inverse[x] == Inv(x)
    {
      hide Exp, Log, Inv;
      inverse[0] := 0;
      inverse[1] := 1;
      InvSmall();
      for i := 2 to GF_SIZE + 1
        invariant forall x: Gf :: x < i ==> inverse[x] == Inv(x)
      {
        LogOfOne(i);
        InvIsExp(i);
        inverse[i] := exp[GF_SIZE - log[i]];
      }
    }

    /** A new power does not disturb the logarithms already stored. */
    lemma AddLog(n: nat)
      requires n < 255
      ensures Exp(n) != 0 && forall i :: 0 <= i < n ==> Exp(i) != Exp(n)
    {
      hide Exp;
      ExpIsScale(n);
      forall i | 0 <= i < n ensures Exp(i) != Exp(n) {
        if Exp(i) == Exp(n) { ExpInjective(i, n); }
      }
    }

    /** gf_mul_table[i][j] = i * j in the field. */
    method InitMulTable()
      requires Valid() && Generated()
      modifies mul
      ensures forall x: Gf, y: Gf :: mul[x, y] == Mul(x, y)
    {
      hide Exp, Log, Inv;
      for i := 0 to GF_SIZE + 1
        invariant Generated()
        invariant forall x: Gf, y: Gf :: x < i && x != 0 && y != 0 ==> mul[x, y] == Mul(x, y)
      {
        for j := 0 to GF_SIZE + 1
          invariant Generated()
          invariant forall x: Gf, y: Gf :: x < i && x != 0 && y != 0 ==> mul[x, y] == Mul(x, y)
          invariant forall y: Gf :: y < j && i != 0 && y != 0 ==> mul[i, y] == Mul(i, y)
        {
          var m := Modnn(log[i] + log[j]);
          mul[i, j] := exp[m];
        }
      }
      for j := 0 to GF_SIZE + 1
        invariant forall x: Gf, y: Gf :: x != 0 && y != 0 ==> mul[x, y] == Mul(x, y)
        invariant forall y: Gf :: y < j ==> mul[0, y] == 0 && mul[y, 0] == 0
      {
        mul[j, 0] := 0;
        mul[0, j] := 0;
      }
    }
  }

  lemma ExpOf8()
    ensures Exp(8) == PolySum(8) == ALPHA8
  {
    assert Exp(7) == 128;
  }

  lemma ExpStep(n: nat)
    ensures Exp(n + 1) == TimesAlpha(Exp(n))
    ensures TimesAlpha(Exp(n)) == if Exp(n) < 128 then 2 * Exp(n) else Xor(ALPHA8, 2 * (Exp(n) - 128))
  {
  }

  lemma XorHighBit(x: Gf)
    ensures x >= 128 ==> Xor(x, 128) == x - 128
  {
    if x >= 128 {
      XorTop(true, true, x - 128, 0);
      XorZero(x - 128);
    }
  }

  lemma InvSmall()
    ensures Inv(0) == 0 && Inv(1) == 1
  {
    hide Exp;
    MulInverse(1);
    MulOne(Inv(1));
  }

  lemma LogOfOne(x: Gf)
    requires x > 1
    ensures Log(x) >= 1
  {
    assert Exp(0) == 1;
  }

  lemma InvIsExp(x: Gf)
    requires x > 1
    ensures Inv(x) == Exp(255 - Log(x)) == Exp((255 - Log(x)) % 255)
  {
    hide Exp;
    ExpMod(255 - Log(x));
  }
}
