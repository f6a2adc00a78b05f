/** add_sf and sub_sf. */
module Addition {
  import opened Powers
  import opened Floats
  import opened Fields
  import opened Jamming
  import opened Rounding

  /** Operands with the larger magnitude first, three extra bits below each significand. */
  predicate Ordered(f: Format, sa: nat, ea: nat, sb: nat, eb: nat) {
    && 1 <= eb <= ea && sa < 2 * f.Hidden() && sb < 2 * f.Hidden()
    && (ea == eb ==> sb <= sa) && (ea > eb ==> f.Hidden() <= sa)
  }

  /** The smaller operand after alignment, z units of the larger one's last extra bit. */
  lemma AlignSmaller(f: Format, sa: nat, ea: nat, sb: nat, eb: nat, z: real)
    requires Ordered(f, sa, ea, sb, eb)
    requires (8 * sb) as real == z * Pow2(ea - eb) as real
    ensures var n := JamShift(8 * sb, ea - eb);
            && n <= 8 * sa
            && (ea - eb <= 3 ==> z == n as real)
            && (ea - eb > 3 ==> Agrees(n, z, 1) && n <= f.Hidden() && 8 * f.Hidden() <= 8 * sa)
  {
    hide *;
    var d := ea - eb;
    OrderedIs(f, sa, ea, sb, eb);
    if d <= 3 {
      SmallShift(sb, d, z);
    } else {
      Pow2Mono(4, d);
      SmallPowers();
      AgreesExact(8 * sb, 1 + d);
      AgreesJamShift(8 * sb, (8 * sb) as real, 1, d, z);
      Pow2Succ(f.mantSize - 1);
      MulLe(16, Pow2(d), f.Hidden());
      JamBounds(8 * sb, d, Pow2(d), 0, f.Hidden());
    }
  }

  lemma OrderedIs(f: Format, sa: nat, ea: nat, sb: nat, eb: nat)
    requires Ordered(f, sa, ea, sb, eb)
    ensures 1 <= eb <= ea && sb < 2 * f.Hidden() && sa < 2 * f.Hidden()
    ensures (ea == eb ==> sb <= sa) && (ea > eb ==> f.Hidden() <= sa)
  {
  }

  /** The three extra bits take a shift by up to three without loss. */
  lemma SmallShift(s: nat, d: nat, z: real)
    requires d <= 3 && (8 * s) as real == z * Pow2(d) as real
    ensures JamShift(8 * s, d) * Pow2(d) == 8 * s
    ensures d == 0 ==> JamShift(8 * s, d) == 8 * s
    ensures d > 0 ==> JamShift(8 * s, d) <= 4 * s
    ensures z == JamShift(8 * s, d) as real
  {
    SmallPowers();
    var q := if d == 0 then 8 * s else if d == 1 then 4 * s else if d == 2 then 2 * s else s;
    ShrUnique(8 * s, d, q, 0);
    hide Pow2, Shr, Low;
    assert JamShift(8 * s, d) == q;
    if d == 0 {} else if d == 1 {} else if d == 2 {} else {}
  }

  /** The sum or difference the code forms stands for the exact one. */
  lemma SumFaithful(f: Format, sa: nat, ea: nat, sb: nat, eb: nat, z: real, plus: bool) returns (p: nat)
    requires Ordered(f, sa, ea, sb, eb)
    requires (8 * sb) as real == z * Pow2(ea - eb) as real
    ensures var n := JamShift(8 * sb, ea - eb);
            var m := if plus then 8 * sa + n else 8 * sa - n;
            var y := if plus then (8 * sa) as real + z else (8 * sa) as real - z;
            && 0 <= m < Pow2(f.Size() - 1)
            && (m == 0 <==> y == 0.0)
            && Faithful(f, m, y, p)
  {
    hide *;
    OrderedIs(f, sa, ea, sb, eb);
    var d := ea - eb;
    var n := JamShift(8 * sb, d);
    AlignSmaller(f, sa, ea, sb, eb, z);
    Room(f);
    if d <= 3 {
      p := 0;
      FaithfulExact(f, if plus then 8 * sa + n else 8 * sa - n);
    } else {
      p := 1;
      FourTimes(4 * sa);
      AgreesOffset(8 * sa, 4 * sa, n, z, 1);
      FaithfulFrom(f, if plus then 8 * sa + n else 8 * sa - n,
                   if plus then (8 * sa) as real + z else (8 * sa) as real - z, 1);
      PositiveDifference(8 * sa, n, z);
    }
  }

  lemma PositiveDifference(a: int, n: int, z: real)
    requires Agrees(n, z, 1) && 0 <= n && n + 2 < a
    ensures a as real - z > 0.0 && a as real + z > 0.0
  {
    SmallPowers();
    var q, lo, hi := AgreesElim(n, z, 1);
    assert lo == q * 2 && hi == (q + 1) * 2;
    hide *;
  }

  lemma FourTimes(a: int)
    ensures Multiple(2 * a, a, 1)
  {
    SmallPowers();
  }

  lemma Room(f: Format)
    ensures 32 * f.Hidden() <= Pow2(f.Size() - 1) && f.Hidden() >= 2 && Pow2(f.mantSize + 2) == 4 * f.Hidden()
  {
    Pow2Add(f.mantSize, 5);
    Pow2Add(f.mantSize, 2);
    Pow2Mono(f.mantSize + 5, f.Size() - 1);
    Pow2Mono(1, f.mantSize);
    assert Pow2(5) == 32 && Pow2(2) == 4 && Pow2(1) == 2;
    hide Pow2;
  }

  /** Both operands counted in units of the larger one's last extra bit. */
  lemma CommonUnits(f: Format, sa: nat, ea: nat, sb: nat, eb: nat) returns (z: real)
    requires eb <= ea
    ensures (8 * sb) as real == z * Pow2(ea - eb) as real
    ensures Worth(f, ea + f.RndSize() - 3, (8 * sa) as real) == sa as real * Scale(ea - f.Bias() - f.mantSize)
    ensures Worth(f, ea + f.RndSize() - 3, z) == sb as real * Scale(eb - f.Bias() - f.mantSize)
  {
    hide *;
    z := MovedDown(f, eb + f.RndSize() - 3, ea - eb, (8 * sb) as real);
    ExtraBits(f, sa, ea);
    ExtraBits(f, sb, eb);
  }

  lemma ExtraBits(f: Format, s: nat, e: int)
    ensures Worth(f, e + f.RndSize() - 3, (8 * s) as real) == s as real * Scale(e - f.Bias() - f.mantSize)
  {
    hide *;
    WorthIs(f, e + f.RndSize() - 3, (8 * s) as real);
    WeightIs(f, e + f.RndSize() - 3);
    ScaleAddNat(e - f.Bias() - f.mantSize - 3, 3);
    SmallPowers();
    EightFold(s as real, Scale(e - f.Bias() - f.mantSize - 3));
  }

  lemma EightFold(s: real, w: real)
    ensures 8.0 * s * w == s * (8.0 * w)
  {
  }

  /** The fields of two finite words, the first at least as large, as add_sf prepares them. */
  lemma PreparedOrdered(f: Format, a: nat, b: nat)
    requires IsWord(f, a) && IsWord(f, b) && IsFinite(f, a) && Code(f, b) <= Code(f, a)
    ensures IsFinite(f, b)
    ensures Ordered(f, RawSig(f, ExpField(f, a), MantField(f, a)), RawExp(ExpField(f, a)),
                    RawSig(f, ExpField(f, b), MantField(f, b)), RawExp(ExpField(f, b)))
    ensures Magnitude(f, b) <= Magnitude(f, a)
  {
    FieldsMakeCode(f, a);
    FieldsMakeCode(f, b);
    if Code(f, b) < Code(f, a) {
      GridMono(f, false, Code(f, b), Code(f, a));
    }
    assert Magnitude(f, b) <= Magnitude(f, a);
    assert IsFinite(f, b);
    FieldsOrdered(f, ExpField(f, a), MantField(f, a), ExpField(f, b), MantField(f, b));
    hide *;
  }

  lemma FieldsOrdered(f: Format, ea: nat, ma: nat, eb: nat, mb: nat)
    requires ma < f.Hidden() && mb < f.Hidden() && eb * f.Hidden() + mb <= ea * f.Hidden() + ma
    ensures Ordered(f, RawSig(f, ea, ma), RawExp(ea), RawSig(f, eb, mb), RawExp(eb))
  {
    hide Pow2;
    var h := f.Hidden();
    if ea < eb {
      MulLe(ea + 1, eb, h);
      MulSucc(ea, h);
    }
  }

  /** The aligned operands, their sum and their difference, in terms of the operands' values. */
  lemma AlignedMagnitudes(f: Format, a: nat, b: nat) returns (z: real)
    requires IsWord(f, a) && IsWord(f, b) && IsFinite(f, a) && IsFinite(f, b)
    requires RawExp(ExpField(f, b)) <= RawExp(ExpField(f, a))
    ensures var sa, ea := RawSig(f, ExpField(f, a), MantField(f, a)), RawExp(ExpField(f, a));
            var sb, eb := RawSig(f, ExpField(f, b), MantField(f, b)), RawExp(ExpField(f, b));
            var y, e := (8 * sa) as real, ea + f.RndSize() - 3;
            var ma, mb := Magnitude(f, a), Magnitude(f, b);
            && (8 * sb) as real == z * Pow2(ea - eb) as real
            && Worth(f, e, y + z) == ma + mb && Worth(f, e, y - z) == ma - mb
            && (y + z == 0.0 <==> ma + mb == 0.0) && (y - z == 0.0 <==> ma - mb == 0.0)
  {
    hide *;
    var sa, ea := RawSig(f, ExpField(f, a), MantField(f, a)), RawExp(ExpField(f, a));
    var sb, eb := RawSig(f, ExpField(f, b), MantField(f, b)), RawExp(ExpField(f, b));
    z := CommonUnits(f, sa, ea, sb, eb);
    MagnitudeOfFields(f, a);
    MagnitudeOfFields(f, b);
    UnitsAdd(f, ea + f.RndSize() - 3, (8 * sa) as real, z, Magnitude(f, a), Magnitude(f, b));
  }

  /** The sign of an exact zero sum (section 6.3 of IEEE 754-2008). */
  predicate ZeroSumSign(f: Format, a: nat, b: nat, rm: RoundingMode) {
    if Sign(f, a) == Sign(f, b) then Sign(f, a) else rm == RDN
  }

  /** The exact sum of the magnitudes, or their difference when the signs differ. */
  function SignedSum(f: Format, a: nat, b: nat): real {
    if Sign(f, a) == Sign(f, b) then Magnitude(f, a) + Magnitude(f, b) else Magnitude(f, a) - Magnitude(f, b)
  }

  /** The mantissa add_sf normalizes. */
  function SumMantissa(f: Format, a: nat, b: nat): int
    requires RawExp(ExpField(f, b)) <= RawExp(ExpField(f, a))
  {
    var n := JamShift(8 * RawSig(f, ExpField(f, b), MantField(f, b)), RawExp(ExpField(f, a)) - RawExp(ExpField(f, b)));
    var m := 8 * RawSig(f, ExpField(f, a), MantField(f, a));
    if Sign(f, a) == Sign(f, b) then m + n else m - n
  }

  lemma SumMantissaFaithful(f: Format, a: nat, b: nat) returns (y: real, p: nat)
    requires IsWord(f, a) && IsWord(f, b) && IsFinite(f, a) && Code(f, b) <= Code(f, a)
    ensures IsFinite(f, b) && Magnitude(f, b) <= Magnitude(f, a)
    ensures RawExp(ExpField(f, b)) <= RawExp(ExpField(f, a))
    ensures 8 * RawSig(f, ExpField(f, b), MantField(f, b)) < Pow2(f.Size())
    ensures 0 <= SumMantissa(f, a, b) < Pow2(f.Size() - 1)
    ensures Faithful(f, SumMantissa(f, a, b), y, p)
    ensures Worth(f, RawExp(ExpField(f, a)) + f.RndSize() - 3, y) == SignedSum(f, a, b)
    ensures SumMantissa(f, a, b) == 0 <==> SignedSum(f, a, b) == 0.0
  {
    hide Pow2, Scale, Magnitude, Code, Sign, ExpField, MantField, IsWord, IsFinite, JamShift, Worth, Faithful, RawExp,
      RawSig, Ordered;
    var sa, ea := RawSig(f, ExpField(f, a), MantField(f, a)), RawExp(ExpField(f, a));
    var sb, eb := RawSig(f, ExpField(f, b), MantField(f, b)), RawExp(ExpField(f, b));
    PreparedOrdered(f, a, b);
    OrderedIs(f, sa, ea, sb, eb);
    Room(f);
    Pow2Succ(f.Size() - 1);
    var plus := Sign(f, a) == Sign(f, b);
    var z := AlignedMagnitudes(f, a, b);
    p := SumFaithful(f, sa, ea, sb, eb, z, plus);
    y := if plus then (8 * sa) as real + z else (8 * sa) as real - z;
  }

  /** Adding finite numbers, the first at least as large. */
  method AddOrdered(f: Format, a: nat, b: nat, rm: RoundingMode, fflags: set<Flag>)
    returns (r: nat, fl: set<Flag>)
    requires IsWord(f, a) && IsWord(f, b) && IsFinite(f, a) && Code(f, b) <= Code(f, a)
    ensures DeliversReal(f, rm, Value(f, a) + Value(f, b), ZeroSumSign(f, a, b, rm), r, fflags, fl)
  {
    hide Pow2, Shl, Shr, Low, Scale, Magnitude, Code, Sign, ExpField, MantField, IsWord, IsFinite, JamShift, Worth, Encode,
      Delivers, DeliversReal, Faithful, GridValue, SignedSum;
    ghost var y, p := SumMantissaFaithful(f, a, b);
    var aSign, bSign := Sign(f, a), Sign(f, b);
    var aExp, bExp := ExpField(f, a), ExpField(f, b);
    var aMant, bMant := 8 * MantField(f, a), 8 * MantField(f, b);
    if aExp == 0 {
      aExp := 1;
    } else {
      aMant := aMant + 8 * f.Hidden();
    }
    if bExp == 0 {
      bExp := 1;
    } else {
      bMant := bMant + 8 * f.Hidden();
    }
    assert aExp == RawExp(ExpField(f, a)) && bExp == RawExp(ExpField(f, b));
    bMant := RshiftRnd(f.Size(), bMant, aExp - bExp);
    if aSign == bSign {
      aMant := aMant + bMant;
    } else {
      aMant := aMant - bMant;
      if aMant == 0 {
        aSign := rm == RDN;
      }
    }
    assert aMant == SumMantissa(f, a, b);
    aExp := aExp + (f.RndSize() - 3);
    r, fl := NormalizeSf(f, aSign, aExp, aMant, rm, fflags);
    assert Faithful(f, aMant, y, p);
    FinishSum(f, rm, a, b, r, fflags, fl);
  }

  lemma FinishSum(f: Format, rm: RoundingMode, a: nat, b: nat, r: nat, before: set<Flag>, after: set<Flag>)
    requires IsWord(f, a) && IsWord(f, b) && IsFinite(f, a) && IsFinite(f, b) && Magnitude(f, b) <= Magnitude(f, a)
    requires SignedSum(f, a, b) == 0.0 ==> r == Encode(f, ZeroSumSign(f, a, b, rm), 0) && after == before
    requires SignedSum(f, a, b) != 0.0 ==> Delivers(f, rm, Sign(f, a), SignedSum(f, a, b), r, before, after)
    ensures DeliversReal(f, rm, Value(f, a) + Value(f, b), ZeroSumSign(f, a, b, rm), r, before, after)
  {
    hide Pow2, Magnitude, Code, Sign, IsWord, IsFinite, IsZero, Encode, Delivers, GridValue;
    MagnitudeSign(f, a);
    MagnitudeSign(f, b);
  }

  /** Sums with an operand that is not a number, or infinite (sections 6.1, 6.2 and 7.2 of IEEE 754-2008). */
  ghost predicate SpecialSum(f: Format, a: nat, b: nat, r: nat, before: set<Flag>, after: set<Flag>) {
    if IsNan(f, a) || IsNan(f, b) then
      IsDefaultNan(f, r) && after == Raise(before, IsSignaling(f, a) || IsSignaling(f, b), {Invalid})
    else if IsInfinite(f, a) && IsInfinite(f, b) && Sign(f, a) != Sign(f, b) then
      IsDefaultNan(f, r) && after == before + {Invalid}
    else
      r == (if IsInfinite(f, a) then a else b) && after == before
  }

  /** The outcome of an addition, for operands of every kind. */
  ghost predicate Sum(f: Format, rm: RoundingMode, a: nat, b: nat, r: nat, before: set<Flag>, after: set<Flag>) {
    if IsFinite(f, a) && IsFinite(f, b) then
      DeliversReal(f, rm, Value(f, a) + Value(f, b), ZeroSumSign(f, a, b, rm), r, before, after)
    else SpecialSum(f, a, b, r, before, after)
  }

  lemma SumCommutes(f: Format, rm: RoundingMode, a: nat, b: nat, r: nat, before: set<Flag>, after: set<Flag>)
    requires IsWord(f, a) && IsWord(f, b)
    requires Sum(f, rm, a, b, r, before, after)
    ensures Sum(f, rm, b, a, r, before, after)
  {
    assert Value(f, a) + Value(f, b) == Value(f, b) + Value(f, a);
    hide Pow2, Magnitude, Sign, DeliversReal, Value, IsSignaling, Raise, Code;
    if IsInfinite(f, a) && IsInfinite(f, b) && Sign(f, a) == Sign(f, b) {
      FieldsMakeCode(f, a);
      FieldsMakeCode(f, b);
    }
  }

  /** add_sf */
  method AddSf(f: Format, a: nat, b: nat, rm: RoundingMode, fflags: set<Flag>) returns (r: nat, fl: set<Flag>)
    requires IsWord(f, a) && IsWord(f, b)
    ensures Sum(f, rm, a, b, r, fflags, fl)
  {
    hide Pow2, Shr, Low, Magnitude, Value, Sign, Code, ExpField, MantField, IsWord, DeliversReal, Encode, IsSigNanSf,
      ZeroSumSign, Qnan, IsDefaultNan;
    var x, y := a, b;
    if Code(f, x) < Code(f, y) {
      x, y := y, x;
    }
    KindOfFields(f, x);
    KindOfFields(f, y);
    IsSigNanSfCorrect(f, y);
    QuietTest(f, x);
    if ExpField(f, x) == f.ExpMask() {
      var xMant := 8 * MantField(f, x);
      if xMant != 0 {
        fl := fflags;
        if xMant < Pow2(f.mantSize + 2) || IsSigNanSf(f, y) {
          fl := fl + {Invalid};
        }
        r := Qnan(f);
      } else if ExpField(f, y) == f.ExpMask() && Sign(f, x) != Sign(f, y) {
        r, fl := Qnan(f), fflags + {Invalid};
      } else {
        r, fl := x, fflags;
      }
    } else {
      r, fl := AddOrdered(f, x, y, rm, fflags);
    }
    assert Sum(f, rm, x, y, r, fflags, fl);
    if x != a {
      SumCommutes(f, rm, x, y, r, fflags, fl);
    }
  }

  /** The test of the quiet bit, three places up. */
  lemma QuietTest(f: Format, a: nat)
    ensures 8 * MantField(f, a) < Pow2(f.mantSize + 2) <==> MantField(f, a) < Pow2(f.mantSize - 1)
  {
    Pow2Succ(f.mantSize - 1);
    Pow2Succ(f.mantSize);
    Pow2Succ(f.mantSize + 1);
    hide *;
  }

  /** `a ^ SIGN_MASK` */
  function ToggleSign(f: Format, a: nat): nat
    requires IsWord(f, a)
  {
    FieldsMakeCode(f, a);
    Encode(f, !Sign(f, a), Code(f, a))
  }

  /** sub_sf */
  method SubSf(f: Format, a: nat, b: nat, rm: RoundingMode, fflags: set<Flag>) returns (r: nat, fl: set<Flag>)
    requires IsWord(f, a) && IsWord(f, b)
    ensures IsWord(f, ToggleSign(f, b)) && Sum(f, rm, a, ToggleSign(f, b), r, fflags, fl)
    ensures IsFinite(f, a) && IsFinite(f, b) ==>
              DeliversReal(f, rm, Value(f, a) - Value(f, b),
                           if Sign(f, a) != Sign(f, b) then Sign(f, a) else rm == RDN, r, fflags, fl)
  {
    hide Pow2, Magnitude, Sign, Code, ToggleSign, DeliversReal, SpecialSum, IsWord, Encode, GridValue;
    ToggledSign(f, b);
    r, fl := AddSf(f, a, ToggleSign(f, b), rm, fflags);
    ToggledValue(f, a, b);
  }

  lemma ToggledValue(f: Format, a: nat, b: nat)
    requires IsWord(f, b)
    ensures Value(f, a) + Value(f, ToggleSign(f, b)) == Value(f, a) - Value(f, b)
  {
    hide Pow2, Magnitude, Sign, Code, ToggleSign, IsWord;
    ToggledSign(f, b);
  }

  lemma ToggledSign(f: Format, a: nat)
    requires IsWord(f, a)
    ensures var b := ToggleSign(f, a);
            IsWord(f, b) && Sign(f, b) != Sign(f, a) && Code(f, b) == Code(f, a) && Magnitude(f, b) == Magnitude(f, a)
  {
    CodeBelowSign(f, a);
    EncodedFields(f, !Sign(f, a), Code(f, a));
    hide Pow2, Sign, Code, GridValue, IsWord, Encode;
  }

  lemma CodeBelowSign(f: Format, a: nat)
    ensures Code(f, a) < f.SignBit()
  {
    assert f.Size() - 1 == f.expSize + f.mantSize;
    hide Pow2, Shr;
  }
}
