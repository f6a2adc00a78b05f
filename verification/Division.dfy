/** div_sf. */
module Division {
  import opened Powers
  import opened Floats
  import opened Fields
  import opened Jamming
  import opened Rounding
  import opened DoubleWord
  import opened WordDivision
  import opened Multiplication

  /** Quotients that are not rounded (sections 6.1, 6.2, 7.2 and 7.3 of IEEE 754-2008). */
  ghost predicate SpecialQuotient(f: Format, a: nat, b: nat, r: nat, before: set<Flag>, after: set<Flag>) {
    var neg := Sign(f, a) != Sign(f, b);
    if IsNan(f, a) || IsNan(f, b) then
      IsDefaultNan(f, r) && after == Raise(before, IsSignaling(f, a) || IsSignaling(f, b), {Invalid})
    else if (IsInfinite(f, a) && IsInfinite(f, b)) || (IsZero(f, a) && IsZero(f, b)) then
      IsDefaultNan(f, r) && after == before + {Invalid}
    else if IsInfinite(f, a) then
      r == Encode(f, neg, f.Inf()) && after == before
    else if IsInfinite(f, b) then
      r == Encode(f, neg, 0) && after == before
    else
      r == Encode(f, neg, f.Inf()) && after == before + {DivideByZero}
  }

  /** The outcome of a division, for operands of every kind. */
  ghost predicate Quotient(f: Format, rm: RoundingMode, a: nat, b: nat, r: nat, before: set<Flag>, after: set<Flag>) {
    if IsFinite(f, a) && IsFinite(f, b) && !IsZero(f, b) then
      Value(f, b) != 0.0 &&
      DeliversReal(f, rm, Value(f, a) / Value(f, b), Sign(f, a) != Sign(f, b), r, before, after)
    else SpecialQuotient(f, a, b, r, before, after)
  }

  /** x is the exact quotient of two magnitudes. */
  ghost predicate MagnitudeQuotient(f: Format, a: nat, b: nat, x: real) {
    x * Magnitude(f, b) == Magnitude(f, a)
  }

  lemma FinishQuotient(f: Format, rm: RoundingMode, a: nat, b: nat, x: real, r: nat, before: set<Flag>, after: set<Flag>)
    requires IsWord(f, a) && IsWord(f, b) && IsFinite(f, a) && IsFinite(f, b) && !IsZero(f, b)
    requires if IsZero(f, a) then r == Encode(f, Sign(f, a) != Sign(f, b), 0) && after == before
             else MagnitudeQuotient(f, a, b, x) &&
                  Delivers(f, rm, Sign(f, a) != Sign(f, b), x, r, before, after)
    ensures Quotient(f, rm, a, b, r, before, after)
  {
    hide Pow2, Magnitude, Code, Sign, IsWord, IsFinite, IsZero, Encode, Delivers, GridValue;
    MagnitudeSign(f, a);
    MagnitudeSign(f, b);
    if IsZero(f, a) {
      SignedQuotient(0.0, Magnitude(f, b), 0.0, Value(f, a), Value(f, b));
    } else {
      SignedQuotient(Magnitude(f, a), Magnitude(f, b), x, Value(f, a), Value(f, b));
    }
  }

  lemma SignedQuotient(a: real, b: real, x: real, v: real, w: real)
    requires a >= 0.0 && b > 0.0 && x * b == a && (v == a || v == -a) && (w == b || w == -b)
    ensures a == 0.0 ==> v / w == 0.0
    ensures a > 0.0 ==> x > 0.0 && v / w == if (v < 0.0) != (w < 0.0) then -x else x
  {
    var y := if (v < 0.0) != (w < 0.0) then -x else x;
    if a > 0.0 {
      RealCompare(0.0, x, b);
      assert y * w == v;
      QuotientIs(v, w, y);
    } else {
      QuotientIs(v, w, 0.0);
    }
  }

  lemma QuotientIs(v: real, w: real, y: real)
    requires w != 0.0 && y * w == v
    ensures v / w == y
  {
    assert (v / w - y) * w == 0.0;
  }

  /** The quotient of two significands fills a word to its last bit but one. */
  lemma QuotientBounds(f: Format, ma: nat, mb: nat, q: nat, r: nat)
    requires f.Hidden() <= ma < 2 * f.Hidden() && f.Hidden() <= mb < 2 * f.Hidden()
    requires ma * Pow2(f.Size()) == q * (4 * mb) + r && r < 4 * mb
    ensures Pow2(f.Size() - 3) <= q < Pow2(f.Size() - 1)
  {
    hide *;
    var g := Pow2(f.Size() - 3);
    Pow2Succ(f.Size() - 3);
    Pow2Succ(f.Size() - 2);
    Pow2Succ(f.Size() - 1);
    QuotientAlgebra(ma, mb, q, r, g);
  }

  lemma QuotientAlgebra(ma: int, mb: int, q: int, r: int, g: int)
    requires g > 0 && mb > 0 && mb < 2 * ma && ma < 2 * mb && 0 <= r < 4 * mb
    requires ma * (8 * g) == q * (4 * mb) + r
    ensures g <= q < 4 * g
  {
    assert (q + 1) * (4 * mb) == q * (4 * mb) + 4 * mb;
    assert g * (4 * mb) == 4 * mb * g && 8 * ma * g == ma * (8 * g) && 4 * g * (4 * mb) == 16 * mb * g;
    MulLt(4 * mb, 8 * ma, g);
    MulLt(8 * ma, 16 * mb, g);
    if q < g {
      MulLe(q + 1, g, 4 * mb);
    } else if q >= 4 * g {
      MulLe(4 * g, q, 4 * mb);
    }
  }

  lemma DivExact(f: Format, a: nat, b: nat, ea: int, ma: nat, eb: int, mb: nat, q: nat, r: nat) returns (y: real)
    requires Normal(f, ea, ma, Magnitude(f, a)) && Normal(f, eb, mb, Magnitude(f, b))
    requires Wide(f.Size(), ma, 0) == q * Shl(f.Size(), mb, 2) + r && r < Shl(f.Size(), mb, 2)
    ensures 0 < Jam(q, r != 0) < Pow2(f.Size() - 1) && Faithful(f, Jam(q, r != 0), y, 1)
    ensures MagnitudeQuotient(f, a, b, Worth(f, ea - eb + Pow2(f.expSize - 1) - 1, y))
  {
    hide *;
    NormalBounds(f, ea, ma, Magnitude(f, a));
    NormalBounds(f, eb, mb, Magnitude(f, b));
    FourTimesIs(f, mb);
    WideIs(f.Size(), ma, 0);
    QuotientBounds(f, ma, mb, q, r);
    JamInRange(f, q, r != 0);
    y := ExactQuotient(ma * Pow2(f.Size()), 4 * mb);
    AgreesQuotient(ma * Pow2(f.Size()), 4 * mb, q, r, y);
    FaithfulFrom(f, Jam(q, r != 0), y, 1);
    BiasIs(f);
    QuotientWorth(f, ea, ma, Magnitude(f, a), eb, mb, Magnitude(f, b), y, ea - eb + Pow2(f.expSize - 1) - 1);
    MagnitudeQuotientIs(f, a, b, Worth(f, ea - eb + Pow2(f.expSize - 1) - 1, y));
  }

  lemma MagnitudeQuotientIs(f: Format, a: nat, b: nat, x: real)
    ensures MagnitudeQuotient(f, a, b, x) <==> x * Magnitude(f, b) == Magnitude(f, a)
  {
    hide Magnitude;
  }

  lemma FourTimesIs(f: Format, m: nat)
    requires f.Hidden() <= m < 2 * f.Hidden()
    ensures Shl(f.Size(), m, 2) == 4 * m && 4 * m < Pow2(f.Size())
  {
    TopOfWord(f, m, 2);
    assert Pow2(2) == 4;
    hide Pow2;
  }

  lemma ExactQuotient(a: nat, b: nat) returns (y: real)
    requires b > 0
    ensures y * b as real == a as real
  {
    y := a as real / b as real;
  }

  lemma JamInRange(f: Format, q: nat, sticky: bool)
    requires Pow2(f.Size() - 3) <= q < Pow2(f.Size() - 1)
    ensures Pow2(f.mantSize + 2) <= Jam(q, sticky) < Pow2(f.Size() - 1) && 0 < Jam(q, sticky)
  {
    Pow2Mono(f.mantSize + 2, f.Size() - 3);
    Pow2Succ(f.Size() - 4);
    Pow2Succ(f.Size() - 2);
    hide Pow2;
    JamStays(q, sticky, Pow2(f.Size() - 3), Pow2(f.Size() - 1));
  }

  lemma QuotientWorth(f: Format, ea: int, ma: nat, va: real, eb: int, mb: nat, vb: real, y: real, exp: int)
    requires Normal(f, ea, ma, va) && Normal(f, eb, mb, vb) && exp == ea - eb + f.Bias()
    requires y * (4 * mb) as real == (ma * Pow2(f.Size())) as real
    ensures Worth(f, exp, y) * vb == va
  {
    hide *;
    NormalIs(f, ea, ma, va);
    NormalIs(f, eb, mb, vb);
    WorthIs(f, exp, y);
    WeightIs(f, exp);
    var s, t, u := exp - f.Bias() - f.mantSize - f.RndSize(), eb - f.Bias() - f.mantSize, ea - f.Bias() - f.mantSize;
    assert s + t == u - f.Size() + 2;
    ScaleAdd(s, t);
    ScaleAddNat(u - f.Size() + 2, f.Size() - 2);
    Pow2Succ(f.Size() - 2);
    Pow2Succ(f.Size() - 1);
    RealOfProduct(ma, Pow2(f.Size()));
    QuotientFactors(y, mb as real, ma as real, Pow2(f.Size() - 2) as real, Scale(s), Scale(t), Scale(s + t),
                    Worth(f, exp, y), vb);
  }

  lemma QuotientFactors(y: real, mb: real, ma: real, g: real, s: real, t: real, st: real, x: real, vb: real)
    requires st == s * t && y * (4.0 * mb) == ma * (4.0 * g) && x == y * s && vb == mb * t
    ensures x * vb == ma * (g * st)
  {
    assert x * vb == y * mb * st;
    assert 4.0 * (y * mb) == 4.0 * (ma * g);
    assert y * mb == ma * g;
    assert ma * g * st == ma * (g * st);
  }

  /** Dividing nonzero finite numbers. */
  method DivNormal(f: Format, ulong: bool, neg: bool, a: nat, b: nat, rm: RoundingMode, fflags: set<Flag>)
    returns (r: nat, fl: set<Flag>, ghost x: real)
    requires IsWord(f, a) && IsWord(f, b) && IsFinite(f, a) && IsFinite(f, b) && !IsZero(f, a) && !IsZero(f, b)
    ensures MagnitudeQuotient(f, a, b, x) && Delivers(f, rm, neg, x, r, fflags, fl)
  {
    hide *;
    PreparedNormal(f, a);
    PreparedNormal(f, b);
    var (aExp, aMant) := Prepared(f, ExpField(f, a), MantField(f, a));
    var (bExp, bMant) := Prepared(f, ExpField(f, b), MantField(f, b));
    NormalBounds(f, aExp, aMant, Magnitude(f, a));
    NormalBounds(f, bExp, bMant, Magnitude(f, b));
    FourTimesIs(f, bMant);
    var rExp := aExp - bExp + Pow2(f.expSize - 1) - 1;
    var rMant, rem := DivremWords(ulong, f.Size(), aMant, 0, Shl(f.Size(), bMant, 2));
    ghost var y := DivExact(f, a, b, aExp, aMant, bExp, bMant, rMant, rem);
    if rem != 0 {
      rMant := Jam(rMant, true);
    } else {
      JamFalse(rMant);
    }
    r, fl := NormalizeSf(f, neg, rExp, rMant, rm, fflags);
    x := Worth(f, rExp, y);
  }

  /** div_sf; ulong tells whether the host has an integer type of twice the width. */
  method DivSf(f: Format, ulong: bool, a: nat, b: nat, rm: RoundingMode, fflags: set<Flag>) returns (r: nat, fl: set<Flag>)
    requires IsWord(f, a) && IsWord(f, b)
    ensures Quotient(f, rm, a, b, r, fflags, fl)
  {
    hide Pow2, Shr, Low, Magnitude, Value, Sign, Code, ExpField, MantField, IsWord, DeliversReal, Delivers, Encode,
      IsSigNanSf, Qnan, IsDefaultNan, Pack, MagnitudeQuotient;
    KindOfFields(f, a);
    KindOfFields(f, b);
    IsSigNanSfCorrect(f, a);
    IsSigNanSfCorrect(f, b);
    var rSign := Sign(f, a) != Sign(f, b);
    PackedConstants(f, rSign);
    fl := fflags;
    if ExpField(f, a) == f.ExpMask() {
      if MantField(f, a) != 0 || IsNanSf(f, b) {
        if IsSigNanSf(f, a) || IsSigNanSf(f, b) {
          fl := fl + {Invalid};
        }
        r := Qnan(f);
      } else if ExpField(f, b) == f.ExpMask() {
        fl := fl + {Invalid};
        r := Qnan(f);
      } else {
        r := Pack(f, rSign, f.ExpMask(), 0);
      }
    } else if ExpField(f, b) == f.ExpMask() {
      if MantField(f, b) != 0 {
        if IsSigNanSf(f, a) || IsSigNanSf(f, b) {
          fl := fl + {Invalid};
        }
        r := Qnan(f);
      } else {
        r := Pack(f, rSign, 0, 0);
      }
    } else if ExpField(f, b) == 0 && MantField(f, b) == 0 {
      if ExpField(f, a) == 0 && MantField(f, a) == 0 {
        fl := fl + {Invalid};
        r := Qnan(f);
      } else {
        fl := fl + {DivideByZero};
        r := Pack(f, rSign, f.ExpMask(), 0);
      }
    } else {
      ghost var x := 0.0;
      if ExpField(f, a) == 0 && MantField(f, a) == 0 {
        r := Pack(f, rSign, 0, 0);
      } else {
        r, fl, x := DivNormal(f, ulong, rSign, a, b, rm, fflags);
      }
      FinishQuotient(f, rm, a, b, x, r, fflags, fl);
    }
  }
}
