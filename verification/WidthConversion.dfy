/** Conversions between formats: cvt_sf32_sf, cvt_sf64_sf and the conversions back. */
module WidthConversion {
  import opened Powers
  import opened Floats
  import opened Fields
  import opened Jamming
  import opened Rounding
  import opened Totality

  /** Format w has room for every finite number of n, subnormals included, as a normal number. */
  predicate Widens(n: Format, w: Format) {
    n.Size() - 2 <= w.mantSize && n.Bias() + n.mantSize < w.Bias() && n.expSize < w.expSize
  }

  lemma {:induction false} WidensPairs()
    ensures Widens(BINARY32, BINARY64) && Widens(BINARY32, BINARY128) && Widens(BINARY64, BINARY128)
  {
    Pow2Add(7, 3);
    Pow2Add(10, 4);
    assert Pow2(3) == 8 && Pow2(4) == 16 && Pow2(7) == 128;
    assert Pow2(10) == 1024 && Pow2(14) == 16384;
  }

  // ---- to a wider format -----------------------------------------------------------------------

  /** Infinities and NaNs, in either direction. */
  ghost predicate SpecialConversion(f: Format, a: nat, g: Format, r: nat, before: set<Flag>, after: set<Flag>) {
    if IsNan(f, a) then IsDefaultNan(g, r) && after == Raise(before, IsSignaling(f, a), {Invalid})
    else r == Encode(g, Sign(f, a), g.Inf()) && after == before
  }

  /** A conversion to a wider format is exact. */
  ghost predicate Widened(n: Format, a: nat, w: Format, r: nat, before: set<Flag>, after: set<Flag>) {
    if IsFinite(n, a) then
      && IsWord(w, r) && IsFinite(w, r) && Sign(w, r) == Sign(n, a) && Value(w, r) == Value(n, a)
      && after == before
    else SpecialConversion(n, a, w, r, before, after)
  }

  /** The fields of the widened number. */
  lemma WidenedFields(n: Format, w: Format, e: int, m: nat, v: real)
    requires Widens(n, w) && Normal(n, e, m, v) && n.Hidden() <= m < 2 * n.Hidden() && 1 - n.mantSize <= e < n.ExpMask()
    ensures n.mantSize <= w.mantSize
    ensures var e' := e - n.Bias() + w.Bias();
            var m' := m * Pow2(w.mantSize - n.mantSize);
            && 1 <= e' < w.ExpMask()
            && Normal(w, e', m', v)
  {
    hide *;
    WidensIs(n, w);
    WidensExponents(n, w, e);
    WidenedSignificand(n, w, m);
    WidenedValue(n, w, e, m, v, m * Pow2(w.mantSize - n.mantSize));
  }

  lemma WidenedSignificand(n: Format, w: Format, m: nat)
    requires Widens(n, w) && n.Hidden() <= m < 2 * n.Hidden()
    ensures w.Hidden() <= m * Pow2(w.mantSize - n.mantSize) < 2 * w.Hidden()
  {
    hide *;
    WidensIs(n, w);
    var k := w.mantSize - n.mantSize;
    Pow2Add(n.mantSize, k);
    MulLe(n.Hidden(), m, Pow2(k));
    MulLt(m, 2 * n.Hidden(), Pow2(k));
    TwiceTimes(n.Hidden(), Pow2(k));
  }

  lemma WidenedValue(n: Format, w: Format, e: int, m: nat, v: real, m': nat)
    requires Widens(n, w) && Normal(n, e, m, v) && m' == m * Pow2(w.mantSize - n.mantSize)
    requires w.Hidden() <= m' < 2 * w.Hidden()
    ensures Normal(w, e - n.Bias() + w.Bias(), m', v)
  {
    hide *;
    WidensIs(n, w);
    NormalIs(n, e, m, v);
    ShiftedValue(m, m', w.mantSize - n.mantSize, e - n.Bias() - n.mantSize);
    NormalFrom(w, e - n.Bias() + w.Bias(), m', v);
  }

  lemma NormalFrom(f: Format, e: int, m: int, v: real)
    requires f.Hidden() <= m < 2 * f.Hidden() && v == m as real * Scale(e - f.Bias() - f.mantSize)
    ensures Normal(f, e, m, v)
  {
  }

  lemma WidensExponents(n: Format, w: Format, e: int)
    requires Widens(n, w) && 1 - n.mantSize <= e < n.ExpMask()
    ensures 1 <= e - n.Bias() + w.Bias() < w.ExpMask()
  {
    Pow2Succ(n.expSize - 1);
    Pow2Succ(w.expSize - 1);
    Pow2Mono(n.expSize, w.expSize - 1);
    hide Pow2;
  }

  /** cvt_sf32_sf and cvt_sf64_sf */
  method CvtWiden(n: Format, w: Format, a: nat, fflags: set<Flag>) returns (r: nat, fl: set<Flag>)
    requires Widens(n, w) && IsWord(n, a)
    ensures Widened(n, a, w, r, fflags, fl)
  {
    hide Pow2, Shr, Low, Shl, Magnitude, Sign, Code, ExpField, MantField, IsWord, Encode, IsSigNanSf, Qnan, IsDefaultNan, Pack, Widens,
      NormalizeSubnormalSf, GridValue;
    KindOfFields(n, a);
    IsSigNanSfCorrect(n, a);
    PackedConstants(w, Sign(n, a));
    fl := fflags;
    var aSign, aExp: int, aMant := Sign(n, a), ExpField(n, a), MantField(n, a);
    if aExp == n.ExpMask() {
      if aMant != 0 {
        if IsSigNanSf(n, a) {
          fl := fl + {Invalid};
        }
        r := Qnan(w);
      } else {
        r := Pack(w, aSign, w.ExpMask(), 0);
      }
    } else if aExp == 0 && aMant == 0 {
      r := Pack(w, aSign, 0, 0);
      WidenedZero(n, a, w);
    } else {
      PreparedNormal(n, a);
      PreparedRange(n, a);
      if aExp == 0 {
        var (e, m) := NormalizeSubnormalSf(n, aMant);
        aExp, aMant := e, m;
      }
      ghost var (e, m) := Prepared(n, ExpField(n, a), MantField(n, a));
      NormalBounds(n, e, m, Magnitude(n, a));
      WidenedFields(n, w, e, m, Magnitude(n, a));
      aExp := aExp - n.Bias() + w.Bias();
      WidenedShift(n, w, aMant, m);
      aMant := Shl(w.Size(), aMant, w.mantSize - n.mantSize);
      r := Pack(w, aSign, aExp, aMant);
      PackedNormal(w, aSign, aExp, aMant, m * Pow2(w.mantSize - n.mantSize), Magnitude(n, a));
    }
  }

  lemma WidenedZero(n: Format, a: nat, w: Format)
    requires IsWord(n, a) && IsFinite(n, a) && IsZero(n, a)
    ensures var r := Encode(w, Sign(n, a), 0);
            IsWord(w, r) && IsFinite(w, r) && Sign(w, r) == Sign(n, a) && Value(w, r) == Value(n, a)
  {
    var r := Encode(w, Sign(n, a), 0);
    InfBelowSign(w);
    EncodedFields(w, Sign(n, a), 0);
    MagnitudeSign(n, a);
    MagnitudeSign(w, r);
    hide Pow2, Magnitude, Sign, Code, IsWord, Encode;
  }

  lemma PreparedRange(n: Format, a: nat)
    requires IsWord(n, a) && IsFinite(n, a) && !IsZero(n, a)
    requires MantField(n, a) < n.Hidden() && !(ExpField(n, a) == 0 && MantField(n, a) == 0)
    ensures var (e, m) := Prepared(n, ExpField(n, a), MantField(n, a)); 1 - n.mantSize <= e < n.ExpMask()
  {
    PreparedNormal(n, a);
    var mant := MantField(n, a);
    if ExpField(n, a) == 0 {
      BitLengthAtMost(mant, n.mantSize);
    }
    hide Pow2, BitLength, MantField, ExpField, Magnitude, IsWord, Code, Normal, Shl;
  }

  /** Without its leading bit or with it, the shifted mantissa has the same field. */
  lemma WidenedShift(n: Format, w: Format, mant: nat, m: nat)
    requires Widens(n, w) && n.mantSize <= w.mantSize && n.Hidden() <= m < 2 * n.Hidden() && (mant == m || mant + n.Hidden() == m)
    ensures Low(Shl(w.Size(), mant, w.mantSize - n.mantSize), w.mantSize) ==
            m * Pow2(w.mantSize - n.mantSize) - w.Hidden()
  {
    var k := w.mantSize - n.mantSize;
    hide *;
    WidensIs(n, w);
    Pow2Add(n.mantSize, k);
    Pow2Succ(w.mantSize);
    MulLe(n.Hidden(), m, Pow2(k));
    MulLt(m, 2 * n.Hidden(), Pow2(k));
    MulSum(m, n.Hidden(), Pow2(k));
    TwiceTimes(n.Hidden(), Pow2(k));
    Pow2Mono(w.mantSize + 1, w.Size());
    ShlExact(w.Size(), mant, k);
    ShrUnique(mant * Pow2(k), w.mantSize, if mant == m then 1 else 0, m * Pow2(k) - w.Hidden());
  }

  lemma TwiceTimes(p: int, g: int)
    ensures 2 * p * g == 2 * (p * g)
  {
  }

  lemma WidensIs(n: Format, w: Format)
    ensures Widens(n, w) <==>
            n.Size() - 2 <= w.mantSize && n.Bias() + n.mantSize < w.Bias() && n.expSize < w.expSize
  {
  }

  /** Packing the fields of a normal value gives that value. */
  lemma PackedNormal(w: Format, neg: bool, e: nat, mant: nat, m: nat, v: real)
    requires 1 <= e < w.ExpMask() && Normal(w, e, m, v) && Low(mant, w.mantSize) == m - w.Hidden()
    ensures var r := Pack(w, neg, e, mant);
            IsWord(w, r) && IsFinite(w, r) && Sign(w, r) == neg && Magnitude(w, r) == v
  {
    var c := CodeAt(w, e, m);
    NormalIs(w, e, m, v);
    NormalCode(w, e, m);
    InfBelowSign(w);
    EncodedFields(w, neg, c);
    GridAt(w, false, e, m);
    CodeIs(w, Encode(w, neg, c));
    hide Pow2, Scale, GridValue, Magnitude, Sign, Code, IsWord;
  }

  lemma NormalCode(w: Format, e: nat, m: nat)
    requires 1 <= e < w.ExpMask() && w.Hidden() <= m < 2 * w.Hidden()
    ensures CodeAt(w, e, m) == e * w.Hidden() + (m - w.Hidden()) && 0 <= CodeAt(w, e, m) < w.Inf()
    ensures InBinade(w, false, e, m)
  {
    hide Pow2;
    MulSucc(e, w.Hidden());
    MulLe(e + 1, w.ExpMask(), w.Hidden());
    MulLe(0, e, w.Hidden());
  }

  // ---- to a narrower format ------------------------------------------------------------------------

  /** A conversion to a narrower format rounds the exact value once. */
  ghost predicate Narrowed(w: Format, rm: RoundingMode, a: nat, n: Format, r: nat, before: set<Flag>, after: set<Flag>) {
    if IsFinite(w, a) then DeliversReal(n, rm, Value(w, a), Sign(w, a), r, before, after)
    else SpecialConversion(w, a, n, r, before, after)
  }

  /** A value below half of the least subnormal number rounds like every other such value. */
  lemma TinyDelivers(f: Format, rm: RoundingMode, neg: bool, x: real, x': real, r: int, before: set<Flag>, after: set<Flag>)
    requires 0.0 < x < Scale(0 - f.Bias() - f.mantSize) && 0.0 < x' < Scale(0 - f.Bias() - f.mantSize)
    requires Delivers(f, rm, neg, x, r, before, after)
    ensures Delivers(f, rm, neg, x', r, before, after)
  {
    var dir := DirectionOf(rm, neg);
    var u, t :| RoundsTo(f, false, dir, x, u) && RoundsTo(f, true, dir, x, t)
      && r == Encode(f, neg, Clamped(f, dir, u)) && after == before + RoundingFlags(f, x, u, t);
    hide Pow2, Scale, GridValue, RoundsTo, Encode;
    var u' := TinyRounds(f, dir, x);
    var u'' := TinyRounds(f, dir, x');
    RoundsToUnique(f, false, dir, x, u, u');
    var t' := RoundsToExists(f, true, dir, x');
    TinyFree(f, dir, x, t);
    TinyFree(f, dir, x', t');
    InfAboveOne(f);
    assert RoundsTo(f, false, dir, x', u) && RoundsTo(f, true, dir, x', t');
    assert after == before + RoundingFlags(f, x', u, t');
  }

  lemma InfAboveOne(f: Format)
    ensures f.Inf() > 1
  {
    Pow2Mono(1, f.mantSize);
    Pow2Mono(1, f.expSize);
    hide Pow2;
    MulLe(1, f.ExpMask(), f.Hidden());
  }

  lemma TinyRounds(f: Format, dir: Direction, x: real) returns (u: int)
    requires 0.0 < x < Scale(0 - f.Bias() - f.mantSize)
    ensures RoundsTo(f, false, dir, x, u) && u == (if dir == Up then 1 else 0) && GridValue(f, false, u) != x
  {
    hide Pow2, Scale, GridValue, RoundsTo;
    LowestValues(f);
    RoundsBetween(f, false, dir, x, 0);
    u := if dir == Up then 1 else 0;
  }

  lemma LowestValues(f: Format)
    ensures GridValue(f, false, 0) == 0.0 && GridValue(f, false, 1) == 2.0 * Scale(0 - f.Bias() - f.mantSize)
  {
    hide *;
    ZeroValue(f);
    LowestBinade(f);
    CodeSteps(f, false, 1, 0);
    ScaleSucc(0 - f.Bias() - f.mantSize);
  }

  lemma LowestBinade(f: Format)
    ensures InBinade(f, false, 1, 0) && CodeAt(f, 1, 0) == 0
  {
  }

  lemma TinyFree(f: Format, dir: Direction, x: real, t: int)
    requires 0.0 < x < Scale(0 - f.Bias() - f.mantSize) && RoundsTo(f, true, dir, x, t)
    ensures t < f.Hidden()
  {
    hide Pow2, Scale, GridValue;
    var d := f.Hidden() - 1;
    BelowNormal(f);
    assert InGrid(true, d) && InGrid(true, t);
    if t > d {
      GridMono(f, true, d, t);
    }
  }

  /** The largest value of the binade below the normal numbers. */
  lemma BelowNormal(f: Format)
    ensures GridValue(f, true, f.Hidden() - 1) >= Scale(0 - f.Bias() - f.mantSize)
  {
    hide *;
    var h := f.Hidden();
    BelowBinade(f);
    GridAt(f, true, 0, 2 * h - 1);
    AtLeastOne(2 * h - 1, Scale(0 - f.Bias() - f.mantSize));
  }

  lemma BelowBinade(f: Format)
    ensures InBinade(f, true, 0, 2 * f.Hidden() - 1) && CodeAt(f, 0, 2 * f.Hidden() - 1) == f.Hidden() - 1
    ensures f.Hidden() >= 1
  {
    hide Pow2;
  }

  lemma AtLeastOne(k: int, s: real)
    requires k >= 1 && s > 0.0
    ensures k as real * s >= s
  {
    RealCompare(1.0, k as real, s);
  }

  /** The shift that brings a wide significand to the internal position of the narrow format. */
  lemma NarrowFaithful(w: Format, n: Format, e: int, m: nat, v: real) returns (y: real)
    requires Widens(n, w) && Normal(w, e, m, v)
    ensures n.Size() - 2 <= w.mantSize && m < Pow2(w.Size())
    ensures var j := JamShift(m, w.mantSize - (n.Size() - 2)); 0 < j < Pow2(n.Size() - 1) && Faithful(n, j, y, 1)
    ensures Worth(n, e - w.Bias() + n.Bias(), y) == v
  {
    hide *;
    WidensIs(n, w);
    NormalIs(w, e, m, v);
    var k := w.mantSize - (n.Size() - 2);
    y := UnitsDown(m, k);
    NarrowBounds(w, n, m, k);
    NarrowAgrees(n, m, k, y);
    NarrowWorth(w, n, e, m, v, k, y);
  }

  /** The leading bit of the shifted significand. */
  lemma NarrowBounds(w: Format, n: Format, m: nat, k: nat)
    requires w.Hidden() <= m < 2 * w.Hidden() && k == w.mantSize - (n.Size() - 2)
    ensures m < Pow2(w.Size())
    ensures Pow2(n.Size() - 2) <= JamShift(m, k) < Pow2(n.Size() - 1)
  {
    hide *;
    Pow2Succ(w.mantSize);
    Pow2Mono(w.mantSize + 1, w.Size());
    JamRange(m, k, n.Size() - 2);
  }

  lemma NarrowAgrees(n: Format, m: nat, k: nat, y: real)
    requires Pow2(n.Size() - 2) <= JamShift(m, k) && m as real == y * Pow2(k) as real
    ensures JamShift(m, k) > 0 && Faithful(n, JamShift(m, k), y, 1)
  {
    hide *;
    AgreesExact(m, 1 + k);
    AgreesJamShift(m, m as real, 1, k, y);
    Pow2Mono(n.mantSize + 2, n.Size() - 2);
    FaithfulFrom(n, JamShift(m, k), y, 1);
  }

  lemma UnitsDown(m: nat, k: nat) returns (y: real)
    ensures m as real == y * Pow2(k) as real
  {
    hide *;
    y := m as real / Pow2(k) as real;
  }

  lemma NarrowWorth(w: Format, n: Format, e: int, m: nat, v: real, k: nat, y: real)
    requires Normal(w, e, m, v) && m as real == y * Pow2(k) as real && k == w.mantSize - (n.Size() - 2)
    ensures Worth(n, e - w.Bias() + n.Bias(), y) == v
  {
    hide *;
    NormalIs(w, e, m, v);
    var e' := e - w.Bias() + n.Bias();
    WorthIs(n, e', y);
    WeightIs(n, e');
    ScaleAddNat(e - w.Bias() - w.mantSize, k);
    RealAssoc(y, Pow2(k) as real, Scale(e - w.Bias() - w.mantSize));
  }

  /** A subnormal number of the wide format is far below everything the narrow one has. */
  lemma SubnormalTiny(w: Format, n: Format, a: nat)
    requires Widens(n, w) && IsWord(w, a) && IsFinite(w, a) && ExpField(w, a) == 0
    ensures Magnitude(w, a) < Scale(0 - n.Bias() - n.mantSize)
  {
    hide *;
    WidensIs(n, w);
    FieldsMakeCode(w, a);
    MagnitudeOfFields(w, a);
    RawSubnormal(w, MantField(w, a));
    BelowOneUnit(MantField(w, a), w.mantSize, 1 - w.Bias());
    ScaleMono(1 - w.Bias(), 0 - n.Bias() - n.mantSize);
  }

  lemma BelowOneUnit(mant: nat, s: nat, e: int)
    requires mant < Pow2(s)
    ensures mant as real * Scale(e - s) < Scale(e)
  {
    hide *;
    ScaleAddNat(e - s, s);
    RealCompare(mant as real, Pow2(s) as real, Scale(e - s));
  }

  lemma RawSubnormal(f: Format, mant: nat)
    ensures RawExp(0) == 1 && RawSig(f, 0, mant) == mant
  {
  }

  /** So is what the code makes of it, though it does not use the normalized mantissa. */
  lemma SubnormalShifted(w: Format, n: Format, mant: nat)
    requires Widens(n, w) && 0 < mant < w.Hidden()
    ensures n.Size() - 2 <= w.mantSize && mant < Pow2(w.Size())
    ensures var (e, m) := NormalizeSubnormalSf(w, mant);
            var j := JamShift(mant, w.mantSize - (n.Size() - 2));
            && 0 < j < Pow2(n.Size() - 1)
            && 0.0 < Worth(n, e - w.Bias() + n.Bias(), j as real) < Scale(0 - n.Bias() - n.mantSize)
  {
    hide *;
    WidensIs(n, w);
    var k := w.mantSize - (n.Size() - 2);
    SubnormalShift(w, mant);
    SubnormalBounds(w, n, mant, k);
    SubnormalWorth(n, NormalizeSubnormalSf(w, mant).0 - w.Bias() + n.Bias(), JamShift(mant, k));
  }

  lemma SubnormalBounds(w: Format, n: Format, mant: nat, k: nat)
    requires 0 < mant < w.Hidden() && k == w.mantSize - (n.Size() - 2)
    ensures mant < Pow2(w.Size())
    ensures 0 < JamShift(mant, k) < Pow2(n.Size() - 2) < Pow2(n.Size() - 1)
  {
    hide *;
    var s := n.Size() - 2;
    Pow2Mono(w.mantSize, w.Size());
    Pow2Add(s, k);
    Pow2Succ(s - 1);
    Pow2Succ(s);
    JamBounds(mant, k, Pow2(k), 0, Pow2(s));
  }

  lemma SubnormalWorth(n: Format, e: int, j: nat)
    requires 0 < j < Pow2(n.Size() - 2) && e + n.mantSize < 0
    ensures 0.0 < Worth(n, e, j as real) < Scale(0 - n.Bias() - n.mantSize)
  {
    hide *;
    WorthIs(n, e, j as real);
    WeightIs(n, e);
    var s := e - n.Bias() - n.mantSize - n.RndSize();
    ScaleAddNat(s, n.Size() - 2);
    RealCompare(0.0, j as real, Scale(s));
    RealCompare(j as real, Pow2(n.Size() - 2) as real, Scale(s));
    ScaleMono(s + n.Size() - 2, 0 - n.Bias() - n.mantSize);
  }

  /**
   * The conversions to a narrower format. For a subnormal operand the code adjusts the exponent but
   * keeps the mantissa as it was; the result is rounded correctly all the same.
   */
  method CvtNarrow(w: Format, n: Format, a: nat, rm: RoundingMode, fflags: set<Flag>) returns (r: nat, fl: set<Flag>)
    requires Widens(n, w) && IsWord(w, a)
    ensures Narrowed(w, rm, a, n, r, fflags, fl)
  {
    hide Pow2, Shr, Low, Shl, Scale, Magnitude, Sign, Code, ExpField, MantField, IsWord, Encode, IsSigNanSf, Qnan, IsDefaultNan, Pack,
      Widens, NormalizeSubnormalSf, GridValue, JamShift, Faithful, Worth, Delivers, Normal;
    KindOfFields(w, a);
    FieldsMakeCode(w, a);
    IsSigNanSfCorrect(w, a);
    PackedConstants(n, Sign(w, a));
    fl := fflags;
    var aSign, aExp: int, aMant := Sign(w, a), ExpField(w, a), MantField(w, a);
    if aExp == w.ExpMask() {
      if aMant != 0 {
        if IsSigNanSf(w, a) {
          fl := fl + {Invalid};
        }
        r := Qnan(n);
      } else {
        r := Pack(n, aSign, n.ExpMask(), 0);
      }
    } else if aExp == 0 && aMant == 0 {
      MagnitudeSign(w, a);
      r := Pack(n, aSign, 0, 0);
    } else {
      MagnitudeSign(w, a);
      if aExp == 0 {
        SubnormalShifted(w, n, aMant);
        SubnormalTiny(w, n, a);
        aExp := NormalizeSubnormalSf(w, aMant).0;
        aExp := aExp - w.Bias() + n.Bias();
        aMant := RshiftRnd(w.Size(), aMant, w.mantSize - (n.Size() - 2));
        r, fl := NormalizeSf(n, aSign, aExp, aMant, rm, fflags);
        FaithfulExact(n, aMant);
        TinyDelivers(n, rm, aSign, Worth(n, aExp, aMant as real), Magnitude(w, a), r, fflags, fl);
      } else {
        PreparedNormal(w, a);
        aMant := aMant + w.Hidden();
        ghost var y := NarrowFaithful(w, n, aExp, aMant, Magnitude(w, a));
        aExp := aExp - w.Bias() + n.Bias();
        aMant := RshiftRnd(w.Size(), aMant, w.mantSize - (n.Size() - 2));
        r, fl := NormalizeSf(n, aSign, aExp, aMant, rm, fflags);
      }
    }
  }

  // ---- there and back ----------------------------------------------------------------------------------

  /** Widening and narrowing again gives back every number that is not a NaN, in every mode, without a flag. */
  method WidenThenNarrow(n: Format, w: Format, a: nat, rm: RoundingMode, fflags: set<Flag>) returns (r: nat, fl: set<Flag>)
    requires Widens(n, w) && IsWord(n, a) && !IsNan(n, a)
    ensures r == a && fl == fflags
  {
    var wide, fl' := CvtWiden(n, w, a, fflags);
    WideInfinity(n, w, a, wide, fflags, fl');
    r, fl := CvtNarrow(w, n, wide, rm, fl');
    hide Pow2, Magnitude, Sign, Code, IsWord, Encode, Widens, Delivers, GridValue, Qnan, IsDefaultNan, IsSignaling;
    FieldsMakeCode(n, a);
    if IsFinite(n, a) {
      MagnitudeSign(n, a);
      if !IsZero(n, a) {
        ExactDelivers(n, rm, a, fflags);
        DeliversUnique(n, rm, Sign(n, a), Magnitude(n, a), r, a, fflags, fl, fflags);
      }
    }
  }

  lemma WideInfinity(n: Format, w: Format, a: nat, r: nat, before: set<Flag>, after: set<Flag>)
    requires IsWord(n, a) && !IsNan(n, a) && Widened(n, a, w, r, before, after)
    ensures IsWord(w, r)
    ensures IsInfinite(n, a) ==> IsInfinite(w, r) && Sign(w, r) == Sign(n, a)
  {
    InfBelowSign(w);
    EncodedFields(w, Sign(n, a), w.Inf());
    hide Pow2, Magnitude, Sign, Code, IsWord, Encode, GridValue;
  }
}
