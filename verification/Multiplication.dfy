/** mul_sf. */
module Multiplication {
  import opened Powers
  import opened Floats
  import opened Fields
  import opened Jamming
  import opened Rounding
  import opened DoubleWord
  import opened WordProducts

  /** Products with an operand that is not finite (sections 6.1, 6.2 and 7.2 of IEEE 754-2008). */
  ghost predicate SpecialProduct(f: Format, a: nat, b: nat, r: nat, before: set<Flag>, after: set<Flag>) {
    if IsNan(f, a) || IsNan(f, b) then
      IsDefaultNan(f, r) && after == Raise(before, IsSignaling(f, a) || IsSignaling(f, b), {Invalid})
    else if IsZero(f, a) || IsZero(f, b) then
      IsDefaultNan(f, r) && after == before + {Invalid}
    else
      r == Encode(f, Sign(f, a) != Sign(f, b), f.Inf()) && after == before
  }

  /** The outcome of a multiplication, for operands of every kind. */
  ghost predicate Product(f: Format, rm: RoundingMode, a: nat, b: nat, r: nat, before: set<Flag>, after: set<Flag>) {
    if IsFinite(f, a) && IsFinite(f, b) then
      DeliversReal(f, rm, Value(f, a) * Value(f, b), Sign(f, a) != Sign(f, b), r, before, after)
    else SpecialProduct(f, a, b, r, before, after)
  }

  /** A significand shifted up to the top of a word. */
  lemma TopOfWord(f: Format, m: nat, s: nat)
    requires f.Hidden() <= m < 2 * f.Hidden() && s <= f.RndSize() + 1
    ensures Shl(f.Size(), m, s) == m * Pow2(s)
    ensures Pow2(f.mantSize + s) <= m * Pow2(s) < Pow2(f.mantSize + s + 1) <= Pow2(f.Size())
  {
    hide *;
    Pow2Succ(f.mantSize);
    Pow2Add(f.mantSize, s);
    Pow2Add(f.mantSize + 1, s);
    MulLe(f.Hidden(), m, Pow2(s));
    MulLt(m, Pow2(f.mantSize + 1), Pow2(s));
    Pow2Mono(f.mantSize + s + 1, f.Size());
    ShlExact(f.Size(), m, s);
  }

  lemma ProductBounds(a: nat, b: nat, i: nat, j: nat)
    requires Pow2(i) <= a < Pow2(i + 1) && Pow2(j) <= b < Pow2(j + 1)
    ensures Pow2(i + j) <= a * b < Pow2(i + j + 2)
  {
    hide *;
    Pow2Add(i, j);
    Pow2Add(i + 1, j + 1);
    MulLe(Pow2(i), a, Pow2(j));
    MulLe(Pow2(j), b, a);
    MulLe(a, Pow2(i + 1), b);
    MulLt(b, Pow2(j + 1), Pow2(i + 1));
  }

  /** Two normal values and the weight of their product's bits. */
  lemma ProductWorth(f: Format, ea: int, ma: nat, va: real, eb: int, mb: nat, vb: real, k: nat, wide: nat, y: real, exp: int)
    requires Normal(f, ea, ma, va) && Normal(f, eb, mb, vb)
    requires wide == ma * mb * Pow2(k) && wide as real == y * Pow2(f.Size()) as real
    requires exp - f.Bias() - f.mantSize - f.RndSize() - f.Size() + k == ea + eb - 2 * (f.Bias() + f.mantSize)
    ensures Worth(f, exp, y) == va * vb
  {
    hide *;
    NormalIs(f, ea, ma, va);
    NormalIs(f, eb, mb, vb);
    var p, q := ea - f.Bias() - f.mantSize, eb - f.Bias() - f.mantSize;
    ScaleAdd(p, q);
    FourFactors(ma as real, Scale(p), mb as real, Scale(q), va, vb);
    RealOfProduct(ma, mb);
    RealOfProduct(ma * mb, Pow2(k));
    WorthIs(f, exp, y);
    WeightIs(f, exp);
    var w := exp - f.Bias() - f.mantSize - f.RndSize() - f.Size();
    ScaleAddNat(w, f.Size());
    ScaleAddNat(w, k);
    RealAssoc(y, Pow2(f.Size()) as real, Scale(w));
    RealAssoc((ma * mb) as real, Pow2(k) as real, Scale(w));
  }

  lemma FourFactors(a: real, s: real, b: real, t: real, x: real, y: real)
    requires x == a * s && y == b * t
    ensures x * y == a * b * (s * t)
  {
    assert a * s * (b * t) == a * b * (s * t);
  }

  /** The high word of a product, the low word jammed in, stands for the exact product. */
  lemma HighProductFaithful(f: Format, wide: nat, hi: nat, lo: nat) returns (y: real)
    requires wide == Wide(f.Size(), hi, lo) && lo < Pow2(f.Size())
    requires Pow2(2 * f.Size() - 4) <= wide < Pow2(2 * f.Size() - 1)
    ensures wide as real == y * Pow2(f.Size()) as real
    ensures 0 < Jam(hi, lo != 0) < Pow2(f.Size() - 1) && Faithful(f, Jam(hi, lo != 0), y, 1)
  {
    hide *;
    var size := f.Size();
    y := wide as real / Pow2(size) as real;
    WideShr(size, hi, lo);
    JamShiftIs(wide, size);
    AgreesExact(wide, 1 + size);
    AgreesJamShift(wide, wide as real, 1, size, y);
    Pow2Add(size - 4, size);
    Pow2Add(size - 1, size);
    Pow2Succ(size - 5);
    Pow2Succ(size - 2);
    JamBounds(wide, size, Pow2(size), Pow2(size - 4), Pow2(size - 1));
    Pow2Mono(f.mantSize + 2, size - 4);
    FaithfulFrom(f, Jam(hi, lo != 0), y, 1);
  }

  lemma FinishProduct(f: Format, rm: RoundingMode, a: nat, b: nat, r: nat, before: set<Flag>, after: set<Flag>)
    requires IsWord(f, a) && IsWord(f, b) && IsFinite(f, a) && IsFinite(f, b)
    requires if IsZero(f, a) || IsZero(f, b) then r == Encode(f, Sign(f, a) != Sign(f, b), 0) && after == before
             else Delivers(f, rm, Sign(f, a) != Sign(f, b), MagnitudeProduct(f, a, b), r, before, after)
    ensures Product(f, rm, a, b, r, before, after)
  {
    hide Pow2, Magnitude, Code, Sign, IsWord, IsFinite, IsZero, Encode, Delivers, GridValue;
    MagnitudeSign(f, a);
    MagnitudeSign(f, b);
    SignedProduct(Magnitude(f, a), Magnitude(f, b), Value(f, a), Value(f, b));
  }

  lemma SignedProduct(x: real, y: real, v: real, w: real)
    requires x >= 0.0 && y >= 0.0 && (v == x || v == -x) && (w == y || w == -y)
    ensures x == 0.0 || y == 0.0 ==> v * w == 0.0
    ensures x > 0.0 && y > 0.0 ==> x * y > 0.0 && v * w == if (v < 0.0) != (w < 0.0) then -(x * y) else x * y
  {
  }

  /** The exact product of two magnitudes. */
  function MagnitudeProduct(f: Format, a: nat, b: nat): real {
    Magnitude(f, a) * Magnitude(f, b)
  }

  /** Multiplying nonzero finite numbers. */
  method MulNormal(f: Format, ulong: bool, neg: bool, a: nat, b: nat, rm: RoundingMode, fflags: set<Flag>) returns (r: nat, fl: set<Flag>)
    requires IsWord(f, a) && IsWord(f, b) && IsFinite(f, a) && IsFinite(f, b) && !IsZero(f, a) && !IsZero(f, b)
    requires ulong || f.Size() % 2 == 0
    ensures Delivers(f, rm, neg, MagnitudeProduct(f, a, b), r, fflags, fl)
  {
    hide *;
    PreparedNormal(f, a);
    PreparedNormal(f, b);
    var (aExp, aMant) := Prepared(f, ExpField(f, a), MantField(f, a));
    var (bExp, bMant) := Prepared(f, ExpField(f, b), MantField(f, b));
    NormalBounds(f, aExp, aMant, Magnitude(f, a));
    NormalBounds(f, bExp, bMant, Magnitude(f, b));
    var rExp := aExp + bExp - Pow2(f.expSize - 1) + 2;
    TopOfWord(f, aMant, f.RndSize());
    TopOfWord(f, bMant, f.RndSize() + 1);
    var rMant, rMantLow := MulWords(ulong, f.Size(), Shl(f.Size(), aMant, f.RndSize()), Shl(f.Size(), bMant, f.RndSize() + 1));
    ghost var y := MulExact(f, a, b, aExp, aMant, bExp, bMant, rMant, rMantLow);
    rMant := Jam(rMant, rMantLow != 0);
    r, fl := NormalizeSf(f, neg, rExp, rMant, rm, fflags);
  }

  lemma MulExact(f: Format, a: nat, b: nat, ea: int, ma: nat, eb: int, mb: nat, hi: nat, lo: nat) returns (y: real)
    requires Normal(f, ea, ma, Magnitude(f, a)) && Normal(f, eb, mb, Magnitude(f, b)) && lo < Pow2(f.Size())
    requires Wide(f.Size(), hi, lo) == Shl(f.Size(), ma, f.RndSize()) * Shl(f.Size(), mb, f.RndSize() + 1)
    ensures 0 < Jam(hi, lo != 0) < Pow2(f.Size() - 1) && Faithful(f, Jam(hi, lo != 0), y, 1)
    ensures Worth(f, ea + eb - Pow2(f.expSize - 1) + 2, y) == MagnitudeProduct(f, a, b)
  {
    hide *;
    var i, j := f.RndSize(), f.RndSize() + 1;
    var wide := Wide(f.Size(), hi, lo);
    NormalBounds(f, ea, ma, Magnitude(f, a));
    NormalBounds(f, eb, mb, Magnitude(f, b));
    WideOfShifted(f, ma, mb, i, j, wide);
    Pow2Mono(2 * f.Size() - 4, 2 * f.Size() - 3);
    y := HighProductFaithful(f, wide, hi, lo);
    BiasIs(f);
    MagnitudeProductIs(f, a, b);
    ProductWorth(f, ea, ma, Magnitude(f, a), eb, mb, Magnitude(f, b), i + j, wide, y,
                 ea + eb - Pow2(f.expSize - 1) + 2);
  }

  lemma MagnitudeProductIs(f: Format, a: nat, b: nat)
    ensures MagnitudeProduct(f, a, b) == Magnitude(f, a) * Magnitude(f, b)
  {
    hide Magnitude;
  }

  lemma WideOfShifted(f: Format, ma: nat, mb: nat, i: nat, j: nat, wide: nat)
    requires f.Hidden() <= ma < 2 * f.Hidden() && f.Hidden() <= mb < 2 * f.Hidden()
    requires i <= f.RndSize() + 1 && j <= f.RndSize() + 1
    requires wide == Shl(f.Size(), ma, i) * Shl(f.Size(), mb, j)
    ensures wide == ma * mb * Pow2(i + j)
    ensures Pow2(2 * f.mantSize + i + j) <= wide < Pow2(2 * f.mantSize + i + j + 2)
  {
    hide *;
    TopOfWord(f, ma, i);
    TopOfWord(f, mb, j);
    WideOfFactors(f, ma, mb, i, j, wide);
  }

  /** Size and value of a product of two shifted significands. */
  lemma WideOfFactors(f: Format, ma: nat, mb: nat, i: nat, j: nat, wide: nat)
    requires f.Hidden() <= ma < 2 * f.Hidden() && f.Hidden() <= mb < 2 * f.Hidden()
    requires i <= f.RndSize() + 1 && j <= f.RndSize() + 1
    requires wide == ma * Pow2(i) * (mb * Pow2(j))
    ensures wide == ma * mb * Pow2(i + j)
    ensures Pow2(2 * f.mantSize + i + j) <= wide < Pow2(2 * f.mantSize + i + j + 2)
  {
    hide *;
    TopOfWord(f, ma, i);
    TopOfWord(f, mb, j);
    ProductBounds(ma * Pow2(i), mb * Pow2(j), f.mantSize + i, f.mantSize + j);
    Pow2Add(i, j);
    FactorAlgebra(ma, Pow2(i), mb, Pow2(j));
  }

  lemma FactorAlgebra(a: int, s: int, b: int, t: int)
    ensures a * s * (b * t) == a * b * (s * t)
  {
  }

  /** mul_sf; ulong tells whether the host has an integer type of twice the width. */
  method MulSf(f: Format, ulong: bool, a: nat, b: nat, rm: RoundingMode, fflags: set<Flag>) returns (r: nat, fl: set<Flag>)
    requires IsWord(f, a) && IsWord(f, b) && (ulong || f.Size() % 2 == 0)
    ensures Product(f, rm, a, b, r, fflags, fl)
  {
    hide Pow2, Shr, Low, Magnitude, Value, Sign, Code, ExpField, MantField, IsWord, DeliversReal, Delivers, Encode,
      IsSigNanSf, Qnan, IsDefaultNan, Pack, MagnitudeProduct;
    KindOfFields(f, a);
    KindOfFields(f, b);
    IsSigNanSfCorrect(f, a);
    IsSigNanSfCorrect(f, b);
    var rSign := Sign(f, a) != Sign(f, b);
    PackedConstants(f, rSign);
    if ExpField(f, a) == f.ExpMask() || ExpField(f, b) == f.ExpMask() {
      fl := fflags;
      if IsNanSf(f, a) || IsNanSf(f, b) {
        if IsSigNanSf(f, a) || IsSigNanSf(f, b) {
          fl := fl + {Invalid};
        }
        r := Qnan(f);
      } else if (ExpField(f, a) == f.ExpMask() && ExpField(f, b) == 0 && MantField(f, b) == 0) ||
                (ExpField(f, b) == f.ExpMask() && ExpField(f, a) == 0 && MantField(f, a) == 0) {
        fl := fl + {Invalid};
        r := Qnan(f);
      } else {
        r := Pack(f, rSign, f.ExpMask(), 0);
      }
    } else {
      if ExpField(f, a) == 0 && MantField(f, a) == 0 {
        r, fl := Pack(f, rSign, 0, 0), fflags;
      } else if ExpField(f, b) == 0 && MantField(f, b) == 0 {
        r, fl := Pack(f, rSign, 0, 0), fflags;
      } else {
        r, fl := MulNormal(f, ulong, rSign, a, b, rm, fflags);
      }
      FinishProduct(f, rm, a, b, r, fflags, fl);
    }
  }
}
