/** The fields of a word that holds a number, what kind of number it is, and its value. */
module Fields {
  import opened Powers
  import opened Floats

  /** A word of F_SIZE bits. */
  predicate IsWord(f: Format, a: nat) {
    a < Pow2(f.Size())
  }

  /** `a >> (F_SIZE - 1)` */
  predicate Sign(f: Format, a: nat) {
    Shr(a, f.Size() - 1) != 0
  }

  /** `(a >> MANT_SIZE) & EXP_MASK` */
  function ExpField(f: Format, a: nat): nat {
    Low(Shr(a, f.mantSize), f.expSize)
  }

  /** `a & MANT_MASK` */
  function MantField(f: Format, a: nat): nat {
    Low(a, f.mantSize)
  }

  /** `a & ~SIGN_MASK` */
  function Code(f: Format, a: nat): nat {
    Low(a, f.Size() - 1)
  }

  predicate IsNan(f: Format, a: nat) { Code(f, a) > f.Inf() }

  predicate IsInfinite(f: Format, a: nat) { Code(f, a) == f.Inf() }

  predicate IsFinite(f: Format, a: nat) { Code(f, a) < f.Inf() }

  predicate IsZero(f: Format, a: nat) { Code(f, a) == 0 }

  /** A NaN is signaling when the first bit of its mantissa is clear. */
  predicate IsSignaling(f: Format, a: nat) {
    IsNan(f, a) && MantField(f, a) < Pow2(f.mantSize - 1)
  }

  /** The NaN that invalid operations deliver: positive, quiet, and with no other bit of its mantissa set. */
  predicate IsDefaultNan(f: Format, r: nat) {
    IsWord(f, r) && !Sign(f, r) && IsNan(f, r) && !IsSignaling(f, r) && MantField(f, r) == Pow2(f.mantSize - 1)
  }

  /** F_QNAN */
  function Qnan(f: Format): (r: nat)
    ensures IsDefaultNan(f, r)
  {
    QnanIs(f);
    f.ExpMask() * f.Hidden() + Pow2(f.mantSize - 1)
  }

  lemma QnanIs(f: Format)
    ensures var r := f.ExpMask() * f.Hidden() + Pow2(f.mantSize - 1); r >= 0 && IsDefaultNan(f, r)
  {
    var h, half, top := f.Hidden(), Pow2(f.mantSize - 1), f.ExpMask();
    var r := top * h + half;
    Pow2Succ(f.mantSize - 1);
    Pow2Mono(1, f.expSize);
    Pow2Add(f.expSize, f.mantSize);
    MulLe(0, top, h);
    MulSucc(top, h);
    hide Pow2, Shr, Low;
    EncodedFields(f, false, r);
    CodeSplit(f, r);
    ShrUnique(r, f.mantSize, top, half);
  }

  /** There is only one. */
  lemma DefaultNanUnique(f: Format, r: nat)
    requires IsDefaultNan(f, r)
    ensures r == Qnan(f)
  {
    hide *;
    NanFields(f, r);
    NanFields(f, Qnan(f));
  }

  lemma NanFields(f: Format, r: nat)
    requires IsDefaultNan(f, r)
    ensures r == f.ExpMask() * f.Hidden() + Pow2(f.mantSize - 1)
  {
    KindOfFields(f, r);
    FieldsMakeCode(f, r);
    hide Pow2, Shr, Low;
  }

  /** The magnitude of a finite number. */
  function Magnitude(f: Format, a: nat): real {
    GridValue(f, false, Code(f, a))
  }

  function Value(f: Format, a: nat): real {
    if Sign(f, a) then -Magnitude(f, a) else Magnitude(f, a)
  }

  // ---- how the fields make up the word -------------------------------------------------

  lemma FieldsMakeCode(f: Format, a: nat)
    requires IsWord(f, a)
    ensures a == Encode(f, Sign(f, a), Code(f, a))
    ensures Code(f, a) == ExpField(f, a) * f.Hidden() + MantField(f, a)
    ensures ExpField(f, a) <= f.ExpMask() && MantField(f, a) < f.Hidden()
  {
    var s := f.Size() - 1;
    ShrSplit(a, s);
    Pow2Succ(s);
    assert f.SignBit() == Pow2(s) && f.Size() == s + 1;
    CodeSplit(f, a);
    hide Pow2, Shr, Low;
    var q := Shr(a, s);
    if q >= 2 {
      MulLe(2, q, Pow2(s));
    }
  }

  lemma CodeSplit(f: Format, a: nat)
    ensures Code(f, a) == ExpField(f, a) * f.Hidden() + MantField(f, a)
  {
    DivPow2(a, f.mantSize, f.expSize);
    assert f.Size() - 1 == f.mantSize + f.expSize;
    hide Pow2;
  }

  /** The kind of a number shows in its fields. */
  lemma KindOfFields(f: Format, a: nat)
    requires IsWord(f, a)
    ensures IsNan(f, a) <==> ExpField(f, a) == f.ExpMask() && MantField(f, a) != 0
    ensures IsInfinite(f, a) <==> ExpField(f, a) == f.ExpMask() && MantField(f, a) == 0
    ensures IsFinite(f, a) <==> ExpField(f, a) < f.ExpMask()
    ensures IsZero(f, a) <==> ExpField(f, a) == 0 && MantField(f, a) == 0
    ensures f.ExpMask() > 0
  {
    FieldsMakeCode(f, a);
    Pow2Mono(1, f.expSize);
    hide Pow2, Shr, Low;
    var e, m, h, top := ExpField(f, a), MantField(f, a), f.Hidden(), f.ExpMask();
    assert Code(f, a) == e * h + m && f.Inf() == top * h;
    hide *;
    if e < top {
      MulLe(e + 1, top, h);
      MulSucc(e, h);
    }
    if e > 0 {
      MulLe(1, e, h);
    }
  }

  /** The bits of a result, seen as a word. */
  lemma EncodedFields(f: Format, neg: bool, c: nat)
    requires c < f.SignBit()
    ensures Encode(f, neg, c) >= 0 && IsWord(f, Encode(f, neg, c))
    ensures Sign(f, Encode(f, neg, c)) == neg && Code(f, Encode(f, neg, c)) == c
  {
    var s := f.Size() - 1;
    Pow2Succ(s);
    assert f.SignBit() == Pow2(s) && f.Size() == s + 1;
    ShrUnique(Encode(f, neg, c), s, if neg then 1 else 0, c);
    hide Pow2, Shr, Low;
  }

  lemma InfBelowSign(f: Format)
    ensures 0 < f.Inf() < f.SignBit()
  {
    Pow2Add(f.expSize, f.mantSize);
    Pow2Mono(1, f.expSize);
    var h := f.Hidden();
    var e := Pow2(f.expSize);
    assert f.Inf() == (e - 1) * h && f.SignBit() == e * h;
    hide *;
    MulSucc(e, h);
    MulLe(1, e - 1, h);
  }

  // ---- values ---------------------------------------------------------------------------

  /** A positive value with its leading bit at bit MANT_SIZE of m. */
  ghost predicate Normal(f: Format, e: int, m: int, v: real) {
    f.Hidden() <= m < 2 * f.Hidden() && v == m as real * Scale(e - f.Bias() - f.mantSize)
  }

  /** The exponent and the significand of a number by its fields, subnormals left as they are. */
  function RawExp(exp: nat): nat {
    if exp == 0 then 1 else exp
  }

  function RawSig(f: Format, exp: nat, mant: nat): nat {
    if exp == 0 then mant else mant + f.Hidden()
  }

  /** The value of a number, by its fields. */
  lemma MagnitudeOfFields(f: Format, a: nat)
    requires IsWord(f, a)
    ensures var e, m := ExpField(f, a), MantField(f, a);
            Magnitude(f, a) == RawSig(f, e, m) as real * Scale(RawExp(e) - f.Bias() - f.mantSize)
  {
    hide *;
    FieldsMakeCode(f, a);
    CodeIs(f, a);
    FieldsCodeAt(f, ExpField(f, a), MantField(f, a));
    GridAt(f, false, RawExp(ExpField(f, a)), RawSig(f, ExpField(f, a), MantField(f, a)));
  }

  /** The subnormal binade shares the exponent of the lowest normal one. */
  lemma FieldsCodeAt(f: Format, e: nat, m: nat)
    requires m < f.Hidden()
    ensures var e', k := RawExp(e), RawSig(f, e, m);
            InBinade(f, false, e', k) && CodeAt(f, e', k) == e * f.Hidden() + m
  {
    hide Pow2;
    MulSucc(e, f.Hidden());
  }

  lemma MagnitudeSign(f: Format, a: nat)
    requires IsWord(f, a) && IsFinite(f, a)
    ensures IsZero(f, a) ==> Magnitude(f, a) == 0.0
    ensures !IsZero(f, a) ==> Magnitude(f, a) > 0.0
  {
    hide *;
    ZeroValue(f);
    CodeIs(f, a);
    if !IsZero(f, a) {
      GridMono(f, false, 0, Code(f, a));
    }
  }

  lemma CodeIs(f: Format, a: nat)
    ensures IsZero(f, a) <==> Code(f, a) == 0
    ensures Magnitude(f, a) == GridValue(f, false, Code(f, a))
  {
  }

  lemma ZeroValue(f: Format)
    ensures GridValue(f, false, 0) == 0.0 && InGrid(false, 0)
  {
    DivModUnique(0, f.Hidden(), 0, 0);
    hide Scale, Pow2;
  }

  /** normalize_subnormal_sf */
  function NormalizeSubnormalSf(f: Format, mant: nat): (r: (int, nat))
    requires 0 < mant < f.Hidden()
  {
    BitLengthAtMost(mant, f.mantSize);
    Pow2Mono(f.mantSize, f.Size());
    var shift := f.mantSize - (f.Size() - 1 - Clz(f.Size(), mant));
    (1 - shift, Shl(f.Size(), mant, shift))
  }

  /** The exponent and the mantissa with its leading bit, as the operations prepare them. */
  function Prepared(f: Format, exp: nat, mant: nat): (int, nat)
    requires mant < f.Hidden() && !(exp == 0 && mant == 0)
  {
    if exp == 0 then NormalizeSubnormalSf(f, mant) else (exp, mant + f.Hidden())
  }

  lemma SubnormalShift(f: Format, mant: nat)
    requires 0 < mant < f.Hidden()
    ensures var (e, m) := NormalizeSubnormalSf(f, mant);
            e <= 0 && f.Hidden() <= m < 2 * f.Hidden() && m == mant * Pow2(1 - e)
  {
    BitLengthAtMost(mant, f.mantSize);
    Pow2Mono(f.mantSize, f.Size());
    var s := f.mantSize + 1 - BitLength(mant);
    assert NormalizeSubnormalSf(f, mant) == (1 - s, Shl(f.Size(), mant, s));
    hide Pow2, BitLength, Shl, NormalizeSubnormalSf;
    ShiftToLength(mant, s, f.mantSize + 1);
    Pow2Succ(f.mantSize);
    Pow2Mono(f.mantSize + 1, f.Size());
    ShlExact(f.Size(), mant, s);
  }

  /** Preparing a nonzero finite number keeps its value. */
  lemma PreparedNormal(f: Format, a: nat)
    requires IsWord(f, a) && IsFinite(f, a) && !IsZero(f, a)
    ensures MantField(f, a) < f.Hidden() && !(ExpField(f, a) == 0 && MantField(f, a) == 0)
    ensures var (e, m) := Prepared(f, ExpField(f, a), MantField(f, a));
            Normal(f, e, m, Magnitude(f, a)) && e < f.ExpMask()
  {
    hide *;
    FieldsMakeCode(f, a);
    KindOfFields(f, a);
    MagnitudeOfFields(f, a);
    PreparedValue(f, ExpField(f, a), MantField(f, a), Magnitude(f, a));
  }

  lemma PreparedValue(f: Format, exp: nat, mant: nat, v: real)
    requires mant < f.Hidden() && !(exp == 0 && mant == 0) && exp < f.ExpMask()
    requires v == RawSig(f, exp, mant) as real * Scale(RawExp(exp) - f.Bias() - f.mantSize)
    ensures var (e, m) := Prepared(f, exp, mant); Normal(f, e, m, v) && e < f.ExpMask()
  {
    if exp == 0 {
      hide Pow2, Scale, NormalizeSubnormalSf;
      SubnormalShift(f, mant);
      var (e, m) := NormalizeSubnormalSf(f, mant);
      ShiftedValue(mant, m, 1 - e, 1 - f.Bias() - f.mantSize);
    } else {
      hide Pow2, Scale;
    }
  }

  lemma ShiftedValue(mant: int, m: int, s: nat, w: int)
    requires m == mant * Pow2(s)
    ensures mant as real * Scale(w) == m as real * Scale(w - s)
  {
    hide *;
    ScaleAddNat(w - s, s);
    RealOfProduct(mant, Pow2(s));
    ShiftedAlgebra(mant as real, Pow2(s) as real, Scale(w - s));
  }

  lemma ShiftedAlgebra(a: real, b: real, c: real)
    ensures a * (b * c) == a * b * c
  {
  }

  /** A finite number is its own correctly rounded result, in every mode and without a flag. */
  lemma ExactDelivers(f: Format, rm: RoundingMode, a: nat, fflags: set<Flag>)
    requires IsWord(f, a) && IsFinite(f, a) && !IsZero(f, a)
    ensures Delivers(f, rm, Sign(f, a), Magnitude(f, a), a, fflags, fflags)
  {
    hide Pow2, Scale, GridValue, RoundsTo, Magnitude, IsWord, IsZero, Normal, Prepared, ExpField, MantField, Code, Sign,
      Encode, CodeAt;
    var dir := DirectionOf(rm, Sign(f, a));
    var x := Magnitude(f, a);
    FieldsMakeCode(f, a);
    CodeIs(f, a);
    ExactRounds(f, false, dir, Code(f, a));
    PreparedNormal(f, a);
    var (e, m) := Prepared(f, ExpField(f, a), MantField(f, a));
    var t := FreeCode(f, e, m, x, dir);
    assert RoundsTo(f, false, dir, x, Code(f, a)) && RoundsTo(f, true, dir, x, t);
    assert fflags == fflags + RoundingFlags(f, x, Code(f, a), t);
  }

  lemma FreeCode(f: Format, e: int, m: int, x: real, dir: Direction) returns (t: int)
    requires Normal(f, e, m, x)
    ensures RoundsTo(f, true, dir, x, t)
  {
    hide *;
    NormalIs(f, e, m, x);
    FreeBinade(f, e, m);
    t := CodeAt(f, e, m);
    GridAt(f, true, e, m);
    ExactRounds(f, true, dir, t);
  }

  lemma FreeBinade(f: Format, e: int, m: int)
    requires f.Hidden() <= m < 2 * f.Hidden()
    ensures InBinade(f, true, e, m)
  {
  }

  // ---- kinds, as the library tests them ----------------------------------------------------

  /** issignan_sf */
  predicate IsSigNanSf(f: Format, a: nat) {
    Low(Shr(a, f.mantSize - 1), f.expSize + 1) == 2 * f.ExpMask() && MantField(f, a) != 0
  }

  lemma IsSigNanSfCorrect(f: Format, a: nat)
    requires IsWord(f, a)
    ensures IsSigNanSf(f, a) <==> IsSignaling(f, a)
  {
    KindOfFields(f, a);
    SigNanBits(f, a);
    MantTop(f, a);
    hide Pow2, Shr, Low, IsNan, IsFinite, IsInfinite, IsZero;
  }

  /** The exponent field with the first mantissa bit below it. */
  lemma SigNanBits(f: Format, a: nat)
    ensures Low(Shr(a, f.mantSize - 1), f.expSize + 1) == 2 * ExpField(f, a) + Shr(a, f.mantSize - 1) % 2
  {
    var w := Shr(a, f.mantSize - 1);
    assert Pow2(1) == 2;
    DivPow2(w, 1, f.expSize);
    DivPow2(a, f.mantSize - 1, 1);
    assert Shr(w, 1) == Shr(a, f.mantSize);
    hide Pow2;
  }

  lemma MantTop(f: Format, a: nat)
    ensures MantField(f, a) < Pow2(f.mantSize - 1) <==> Shr(a, f.mantSize - 1) % 2 == 0
  {
    assert Pow2(1) == 2;
    DivPow2(a, f.mantSize - 1, 1);
    var w, g, r := Shr(a, f.mantSize - 1), Pow2(f.mantSize - 1), Low(a, f.mantSize - 1);
    assert MantField(f, a) == w % 2 * g + r && 0 <= r < g;
    hide *;
  }

  /** isnan_sf */
  predicate IsNanSf(f: Format, a: nat) {
    ExpField(f, a) == f.ExpMask() && MantField(f, a) != 0
  }

  lemma NormalIs(f: Format, e: int, m: int, v: real)
    requires Normal(f, e, m, v)
    ensures f.Hidden() <= m < 2 * f.Hidden() && v == m as real * Scale(e - f.Bias() - f.mantSize)
  {
  }

  lemma NormalBounds(f: Format, e: int, m: int, v: real)
    requires Normal(f, e, m, v)
    ensures f.Hidden() <= m < 2 * f.Hidden()
  {
  }

  /** The value of a finite word by its fields, as section 3.4 of IEEE 754-2008 has it: the bias is 2^(w - 1) - 1. */
  lemma ValueOfFields(f: Format, a: nat)
    requires IsWord(f, a) && IsFinite(f, a)
    ensures var e, m, bias := ExpField(f, a), MantField(f, a), Pow2(f.expSize - 1) - 1;
            Magnitude(f, a) == if e == 0 then m as real * Scale(1 - bias - f.mantSize)
                               else (Pow2(f.mantSize) + m) as real * Scale(e - bias - f.mantSize)
  {
    hide Pow2, Shr, Low, Scale, Magnitude, ExpField, MantField, IsWord, IsFinite;
    MagnitudeOfFields(f, a);
    BiasIs(f);
  }

  /** Width, precision and largest exponent of the three formats (table 3.5 of IEEE 754-2008). */
  lemma InterchangeFormats()
    ensures BINARY32.Size() == 32 && BINARY32.mantSize + 1 == 24 && BINARY32.Bias() == 127
    ensures BINARY64.Size() == 64 && BINARY64.mantSize + 1 == 53 && BINARY64.Bias() == 1023
    ensures BINARY128.Size() == 128 && BINARY128.mantSize + 1 == 113 && BINARY128.Bias() == 16383
  {
    Pow2Add(7, 7);
    assert Pow2(7) == 128 && Pow2(10) == 1024;
  }
}
