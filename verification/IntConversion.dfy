/** Conversions between numbers and integers of any width, signed or unsigned. */
module IntConversion {
  import opened Powers
  import opened Floats
  import opened Fields
  import opened Jamming
  import opened Rounding
  import opened WidthConversion

  // ---- integers of n bits ------------------------------------------------------------------

  function Lowest(n: nat, unsigned: bool): int
    requires n >= 1
  {
    if unsigned then 0 else 0 - Pow2(n - 1)
  }

  function Highest(n: nat, unsigned: bool): int
    requires n >= 1
  {
    if unsigned then Pow2(n) - 1 else Pow2(n - 1) - 1
  }

  /** There are 2^n integers of n bits, and the signed ones are balanced around -1 / 2. */
  lemma RangeOfInt(n: nat, unsigned: bool)
    requires n > 0
    ensures Highest(n, unsigned) - Lowest(n, unsigned) + 1 == Pow2(n)
    ensures Lowest(n, unsigned) == if unsigned then 0 else -1 - Highest(n, unsigned)
  {
    Pow2Succ(n - 1);
  }

  /** The bits r stand for the integer i in two's complement. */
  predicate Represents(n: nat, r: nat, i: int) {
    r < Pow2(n) && (r == i || r == i + Pow2(n))
  }

  /** The integer a word stands for. */
  function IntValue(n: nat, unsigned: bool, r: nat): int
    requires n >= 1
  {
    if !unsigned && r >= Pow2(n - 1) then r - Pow2(n) else r
  }

  lemma IntValueRange(n: nat, unsigned: bool, r: nat)
    requires n >= 1 && r < Pow2(n)
    ensures Represents(n, r, IntValue(n, unsigned, r))
    ensures Lowest(n, unsigned) <= IntValue(n, unsigned, r) <= Highest(n, unsigned)
  {
    Pow2Succ(n - 1);
  }

  lemma RepresentsUnique(n: nat, unsigned: bool, r: nat, r': nat, i: int)
    requires n >= 1 && Lowest(n, unsigned) <= i <= Highest(n, unsigned) && Represents(n, r, i) && Represents(n, r', i)
    ensures r == r'
  {
  }

  // ---- to an integer -----------------------------------------------------------------------

  /** Integer i is v rounded in mode rm (section 5.8 of IEEE 754-2008). */
  predicate RoundsToInt(rm: RoundingMode, v: real, i: int) {
    match rm
    case RNE => Distance(v, i as real) <= 0.5 && (Distance(v, i as real) == 0.5 ==> i % 2 == 0)
    case RMM => Distance(v, i as real) <= 0.5 && (Distance(v, i as real) == 0.5 ==> (v < i as real <==> v > 0.0))
    case RTZ => if v >= 0.0 then i as real <= v < (i + 1) as real else (i - 1) as real < v <= i as real
    case RDN => i as real <= v < (i + 1) as real
    case RUP => (i - 1) as real < v <= i as real
  }

  lemma RoundsToIntUnique(rm: RoundingMode, v: real, i: int, j: int)
    requires RoundsToInt(rm, v, i) && RoundsToInt(rm, v, j)
    ensures i == j
  {
  }

  /** What becomes of the rounded integer i: itself if it fits, the nearer end of the range if not. */
  ghost predicate Fitted(n: nat, unsigned: bool, i: int, exact: bool, r: nat, before: set<Flag>, after: set<Flag>)
    requires n >= 1
  {
    if Lowest(n, unsigned) <= i <= Highest(n, unsigned) then
      Represents(n, r, i) && after == Raise(before, !exact, {Inexact})
    else
      Saturated(n, unsigned, i < 0, r, before, after)
  }

  ghost predicate Saturated(n: nat, unsigned: bool, neg: bool, r: nat, before: set<Flag>, after: set<Flag>)
    requires n >= 1
  {
    && Represents(n, r, if neg then Lowest(n, unsigned) else Highest(n, unsigned))
    && after == before + {Invalid}
  }

  /** Conversion to an integer; a NaN is like +infinity, and infinities do not fit. */
  ghost predicate ConvertedToInt(f: Format, a: nat, rm: RoundingMode, n: nat, unsigned: bool, r: nat,
                                 before: set<Flag>, after: set<Flag>)
    requires n >= 1
  {
    if IsFinite(f, a) then
      exists i: int :: RoundsToInt(rm, Value(f, a), i)
                       && Fitted(n, unsigned, i, i as real == Value(f, a), r, before, after)
    else Saturated(n, unsigned, Sign(f, a) && !IsNan(f, a), r, before, after)
  }

  /** A choice between the two integers around a magnitude, seen with its sign. */
  lemma IntDecision(rm: RoundingMode, neg: bool, x: real, k: nat, m: nat)
    requires k as real <= x < (k + 1) as real
    requires m == if GoesUp(DirectionOf(rm, neg), x, k as real, (k + 1) as real, k % 2 == 1) then k + 1 else k
    ensures RoundsToInt(rm, if neg then -x else x, if neg then 0 - m else m)
  {
  }

  /** The magnitude m is what x rounds to, and exact tells whether they are equal. */
  ghost predicate MagnitudeRounds(rm: RoundingMode, neg: bool, x: real, m: nat, exact: bool) {
    && RoundsToInt(rm, if neg then -x else x, if neg then 0 - m else m)
    && (exact <==> m as real == x)
  }

  /** The significand with its rounding bits, moved down below the binary point and cut off. */
  lemma FractionRounds(rnd: nat, rm: RoundingMode, neg: bool, sig: nat, d: nat, x: real, n: nat)
    requires rnd >= 2 && x == sig as real * Scale(0 - d) && n == JamShift(sig * Pow2(rnd), d)
    ensures MagnitudeRounds(rm, neg, x, RoundOff(rnd, rm, neg, n), Low(n, rnd) == 0)
  {
    hide *;
    var y := FractionUnits(rnd, sig, d, x);
    AgreesExact(sig * Pow2(rnd), rnd - 1 + d);
    AgreesJamShift(sig * Pow2(rnd), (sig * Pow2(rnd)) as real, rnd - 1, d, y);
    CutRounds(rnd, rm, neg, n, y, x);
  }

  lemma FractionUnits(rnd: nat, sig: nat, d: nat, x: real) returns (y: real)
    requires x == sig as real * Scale(0 - d)
    ensures (sig * Pow2(rnd)) as real == y * Pow2(d) as real
    ensures x == y * Scale(0 - rnd)
  {
    hide *;
    var s := Pow2(rnd) as real;
    y := x * s;
    ScaleNat(rnd);
    ScaleNat(d);
    ScaleAdd(0 - d, d);
    ScaleAdd(rnd, 0 - rnd);
    ScaleZero();
    RealOfProduct(sig, Pow2(rnd));
    UnitsAlgebra(sig as real, Scale(0 - d), Pow2(d) as real, s, Scale(0 - rnd), x, y);
  }

  lemma UnitsAlgebra(g: real, u: real, w: real, s: real, t: real, x: real, y: real)
    requires x == g * u && y == x * s && u * w == 1.0 && s * t == 1.0
    ensures g * s == y * w && x == y * t
  {
    assert y * t == x * (s * t);
    assert y * w == g * s * (u * w);
  }

  lemma CutRounds(rnd: nat, rm: RoundingMode, neg: bool, n: nat, y: real, x: real)
    requires rnd >= 1 && Agrees(n, y, rnd - 1) && x == y * Scale(0 - rnd)
    ensures MagnitudeRounds(rm, neg, x, RoundOff(rnd, rm, neg, n), Low(n, rnd) == 0)
  {
    hide *;
    var k := Shr(n, rnd);
    var lo := k * Pow2(rnd);
    var hi := lo + Pow2(rnd);
    var m := RoundOff(rnd, rm, neg, n);
    RoundOffCorrect(rnd, rm, neg, n, y, k, lo, hi);
    MulSucc(k, Pow2(rnd));
    WholeUnits(rnd, k, lo);
    WholeUnits(rnd, k + 1, hi);
    RescaleDecision(DirectionOf(rm, neg), y, lo as real, hi as real, k % 2 == 1, Scale(0 - rnd), x, k as real, (k + 1) as real);
    IntDecision(rm, neg, x, k, m);
    MagnitudeRoundsFrom(rm, neg, x, m, Low(n, rnd) == 0);
  }

  lemma WholeUnits(rnd: nat, k: nat, lo: int)
    requires lo == k * Pow2(rnd)
    ensures k as real == lo as real * Scale(0 - rnd)
  {
    hide *;
    UnitsOf(0, rnd, k, lo, Scale(0 - rnd));
    ScaleZero();
  }

  lemma MagnitudeRoundsFrom(rm: RoundingMode, neg: bool, x: real, m: nat, exact: bool)
    requires RoundsToInt(rm, if neg then -x else x, if neg then 0 - m else m)
    requires exact <==> m as real == x
    ensures MagnitudeRounds(rm, neg, x, m, exact)
  {
  }

  /** An integer rounds to itself. */
  lemma WholeRounds(rm: RoundingMode, neg: bool, sig: nat, e: nat, x: real, m: nat)
    requires x == sig as real * Scale(e) && m == sig * Pow2(e)
    ensures MagnitudeRounds(rm, neg, x, m, true)
  {
    hide *;
    ScaleNat(e);
    RealOfProduct(sig, Pow2(e));
    ExactInt(rm, neg, m);
    MagnitudeRoundsFrom(rm, neg, x, m, true);
  }

  lemma ExactInt(rm: RoundingMode, neg: bool, m: nat)
    ensures RoundsToInt(rm, if neg then -(m as real) else m as real, if neg then 0 - m else m)
  {
  }

  /** The largest magnitude that fits, and the bits of the bound on that side of zero. */
  function RMax(n: nat, unsigned: bool, neg: bool): int
    requires n >= 1
  {
    if unsigned then (if neg then 0 else Pow2(n) - 1)
    else Pow2(n - 1) - (if neg then 0 else 1)
  }

  lemma FitsByMagnitude(n: nat, unsigned: bool, neg: bool, m: nat)
    requires n >= 1
    ensures var i := if neg then 0 - m else m;
            && (m <= RMax(n, unsigned, neg) <==> Lowest(n, unsigned) <= i <= Highest(n, unsigned))
    ensures 0 <= RMax(n, unsigned, neg) < Pow2(n)
    ensures Represents(n, RMax(n, unsigned, neg), if neg then Lowest(n, unsigned) else Highest(n, unsigned))
  {
    Pow2Succ(n - 1);
    hide Pow2;
  }

  /** `-r` */
  function Negated(n: nat, r: nat): (s: nat)
    requires r < Pow2(n)
    ensures Represents(n, s, 0 - r)
  {
    if r == 0 then 0 else Pow2(n) - r
  }

  /** The two outcomes of the conversion, once the magnitude is rounded. */
  lemma IntOutcome(f: Format, a: nat, rm: RoundingMode, n: nat, unsigned: bool, neg: bool, m: nat, exact: bool, r: nat,
                   before: set<Flag>, after: set<Flag>)
    requires n >= 1 && IsFinite(f, a) && neg == Sign(f, a)
    requires MagnitudeRounds(rm, neg, Magnitude(f, a), m, exact)
    requires if m > RMax(n, unsigned, neg) then r == RMax(n, unsigned, neg) && after == before + {Invalid}
             else Represents(n, r, if neg then 0 - m else m) && after == Raise(before, !exact, {Inexact})
    ensures ConvertedToInt(f, a, rm, n, unsigned, r, before, after)
  {
    hide Pow2, IsFinite, Sign, Magnitude, RMax, Lowest, Highest, RoundsToInt, Represents;
    var i := if neg then 0 - m else m;
    FitsByMagnitude(n, unsigned, neg, m);
    assert i as real == (if neg then -(m as real) else m as real);
    assert RoundsToInt(rm, Value(f, a), i);
    assert Fitted(n, unsigned, i, i as real == Value(f, a), r, before, after);
  }

  /** Infinities and NaNs read as numbers beyond every integer of n bits. */
  lemma NonFiniteLarge(f: Format, a: nat, n: nat)
    requires IsWord(f, a) && !IsFinite(f, a) && n <= Pow2(f.expSize - 1)
    ensures Magnitude(f, a) >= Pow2(n) as real
  {
    hide *;
    FieldsMakeCode(f, a);
    KindOfFields(f, a);
    MagnitudeOfFields(f, a);
    RawTop(f, ExpField(f, a), MantField(f, a));
    TopLarge(f, RawSig(f, ExpField(f, a), MantField(f, a)), n);
  }

  lemma RawTop(f: Format, e: nat, m: nat)
    requires e == f.ExpMask() && e > 0
    ensures RawExp(e) == e && RawSig(f, e, m) == m + f.Hidden()
    ensures e - f.Bias() == Pow2(f.expSize - 1)
  {
  }

  lemma TopLarge(f: Format, sig: nat, n: nat)
    requires sig >= f.Hidden() && n <= Pow2(f.expSize - 1)
    ensures sig as real * Scale(Pow2(f.expSize - 1) - f.mantSize) >= Pow2(n) as real
  {
    hide *;
    var t := Pow2(f.expSize - 1);
    ScaleAddNat(t - f.mantSize, f.mantSize);
    ScaleMono(n, t);
    ScaleNat(n);
    RealCompare(sig as real, f.Hidden() as real, Scale(t - f.mantSize));
  }

  /** So they overflow however they are rounded. */
  lemma LargeRounds(rm: RoundingMode, neg: bool, x: real, m: nat, exact: bool, b: nat)
    requires MagnitudeRounds(rm, neg, x, m, exact) && x >= b as real
    ensures m >= b
  {
  }

  /** internal_cvt_sfF_iN */
  method CvtSfInt(f: Format, a: nat, rm: RoundingMode, n: nat, unsigned: bool, fflags: set<Flag>)
    returns (r: nat, fl: set<Flag>)
    requires IsWord(f, a) && 1 <= n <= Pow2(f.expSize - 1)
    ensures ConvertedToInt(f, a, rm, n, unsigned, r, fflags, fl)
  {
    hide Pow2, Scale, Shr, Low, Shl, Magnitude, Sign, Code, ExpField, MantField, IsWord, RoundOff, JamShift, MagnitudeRounds,
      ConvertedToInt, RMax, IsNan, IsFinite, IsInfinite, Represents, Addend, Raise;
    KindOfFields(f, a);
    FieldsMakeCode(f, a);
    MagnitudeOfFields(f, a);
    BiasPositive(f);
    var rnd: nat := f.RndSize();
    var aSign, aExp: int, aMant := Sign(f, a), ExpField(f, a), MantField(f, a);
    if aExp == f.ExpMask() && aMant != 0 {
      aSign := false;
    }
    if aExp == 0 {
      aExp := 1;
    } else {
      aMant := aMant + f.Hidden();
    }
    ghost var sig := aMant;
    SignificandShift(f, sig);
    aMant := Shl(f.Size(), aMant, rnd);
    aExp := aExp - f.Bias() - f.mantSize;
    var rMax := RMax(n, unsigned, aSign);
    FitsByMagnitude(n, unsigned, aSign, 0);
    var overflow;
    ghost var m, exact;
    overflow, r, fl, m, exact := RoundMagnitude(f, aSign, aExp, aMant, rm, n, rMax, fflags, sig, Magnitude(f, a));
    if !IsFinite(f, a) {
      NonFiniteLarge(f, a, n);
      LargeRounds(rm, aSign, Magnitude(f, a), m, exact, Pow2(n));
    }
    if overflow {
      fl := fl + {Invalid};
      r := rMax;
    } else if aSign {
      r := Negated(n, r);
    } else {
      RepresentsSelf(n, r);
    }
    IntOutcomeAll(f, a, rm, n, unsigned, aSign, m, exact, r, fflags, fl);
  }

  /** The middle part of the conversion: the magnitude as an integer m, or that it does not fit. */
  method RoundMagnitude(f: Format, neg: bool, exp: int, mant: nat, rm: RoundingMode, n: nat, rMax: nat, fflags: set<Flag>,
                        ghost sig: nat, ghost x: real)
    returns (overflow: bool, r: nat, fl: set<Flag>, ghost m: nat, ghost exact: bool)
    requires rMax < Pow2(n) && sig < 2 * f.Hidden() && mant == sig * Pow2(f.RndSize())
    requires x == sig as real * Scale(exp) && (exp >= 0 ==> f.Hidden() <= sig)
    ensures MagnitudeRounds(rm, neg, x, m, exact)
    ensures overflow <==> m > rMax
    ensures if overflow then fl == fflags else r == m && fl == Raise(fflags, !exact, {Inexact})
  {
    hide Pow2, Scale, Shr, Low, Shl, RoundOff, JamShift, MagnitudeRounds, Addend;
    SignificandShift(f, sig);
    var rnd: nat := f.RndSize();
    r, fl := 0, fflags;
    if exp >= 0 {
      m, exact := sig * Pow2(exp), true;
      WholeRounds(rm, neg, sig, exp, x, m);
      WholeFits(f, n, sig, exp, m);
      if exp <= n - 1 - f.mantSize {
        r := Shl(n, Shr(mant, rnd), exp);
        overflow := r > rMax;
      } else {
        overflow := true;
      }
    } else {
      FractionRounds(rnd, rm, neg, sig, 0 - exp, x, JamShift(mant, 0 - exp));
      var aMant := RshiftRnd(f.Size(), mant, 0 - exp);
      RoundOffIs(rnd, rm, neg, aMant);
      var addend := Addend(rnd, rm, neg);
      var rndBits := Low(aMant, rnd);
      aMant := Shr(aMant + addend, rnd);
      if rm == RNE && rndBits == Pow2(rnd - 1) {
        aMant := ClearLow(aMant);
      }
      m, exact := aMant, rndBits == 0;
      overflow := aMant > rMax;
      if !overflow {
        r := aMant;
        if rndBits != 0 {
          fl := fl + {Inexact};
        }
      }
    }
  }

  lemma BiasPositive(f: Format)
    ensures f.Bias() >= 1
  {
    Pow2Mono(1, f.expSize - 1);
    hide Pow2;
  }

  lemma RepresentsSelf(n: nat, r: nat)
    requires r < Pow2(n)
    ensures Represents(n, r, r)
  {
  }

  lemma RoundOffIs(rnd: nat, rm: RoundingMode, neg: bool, n: nat)
    requires rnd > 0
    ensures var m := Shr(n + Addend(rnd, rm, neg), rnd);
            RoundOff(rnd, rm, neg, n) == if rm == RNE && Low(n, rnd) == Pow2(rnd - 1) then ClearLow(m) else m
  {
  }

  lemma SignificandShift(f: Format, sig: nat)
    requires sig < 2 * f.Hidden()
    ensures Shl(f.Size(), sig, f.RndSize()) == sig * Pow2(f.RndSize())
    ensures Shr(sig * Pow2(f.RndSize()), f.RndSize()) == sig
  {
    hide *;
    var rnd: nat := f.RndSize();
    Pow2Add(f.mantSize + 1, rnd);
    Pow2Succ(f.mantSize);
    MulLt(sig, Pow2(f.mantSize + 1), Pow2(rnd));
    Pow2Mono(f.mantSize + 1 + rnd, f.Size());
    ShlExact(f.Size(), sig, rnd);
    ShrUnique(sig * Pow2(rnd), rnd, sig, 0);
  }

  /** Whether the shifted significand stays within n bits. */
  lemma WholeFits(f: Format, n: nat, sig: nat, e: nat, m: nat)
    requires f.Hidden() <= sig < 2 * f.Hidden() && m == sig * Pow2(e)
    ensures e <= n - 1 - f.mantSize ==> Shl(n, sig, e) == m
    ensures e > n - 1 - f.mantSize ==> m >= Pow2(n)
  {
    hide *;
    Pow2Succ(f.mantSize);
    if e <= n - 1 - f.mantSize {
      Pow2Add(f.mantSize + 1, e);
      MulLt(sig, Pow2(f.mantSize + 1), Pow2(e));
      Pow2Mono(f.mantSize + 1 + e, n);
      ShlExact(n, sig, e);
    } else {
      Pow2Add(f.mantSize, e);
      MulLe(Pow2(f.mantSize), sig, Pow2(e));
      Pow2Mono(n, f.mantSize + e);
    }
  }

  lemma IntOutcomeAll(f: Format, a: nat, rm: RoundingMode, n: nat, unsigned: bool, neg: bool, m: nat, exact: bool, r: nat,
                      before: set<Flag>, after: set<Flag>)
    requires n >= 1 && neg == (Sign(f, a) && !IsNan(f, a))
    requires IsFinite(f, a) ==> !IsNan(f, a)
    requires IsFinite(f, a) ==> MagnitudeRounds(rm, neg, Magnitude(f, a), m, exact)
    requires !IsFinite(f, a) ==> m > RMax(n, unsigned, neg)
    requires if m > RMax(n, unsigned, neg) then r == RMax(n, unsigned, neg) && after == before + {Invalid}
             else Represents(n, r, if neg then 0 - m else m) && after == Raise(before, !exact, {Inexact})
    ensures ConvertedToInt(f, a, rm, n, unsigned, r, before, after)
  {
    hide Pow2, IsFinite, IsNan, Sign, Magnitude, RMax, Lowest, Highest, RoundsToInt, Represents, MagnitudeRounds;
    if IsFinite(f, a) {
      IntOutcome(f, a, rm, n, unsigned, neg, m, exact, r, before, after);
    } else {
      FitsByMagnitude(n, unsigned, neg, m);
    }
  }

  // ---- from an integer ---------------------------------------------------------------------

  /** internal_cvt_iN_sfF */
  method CvtIntSf(f: Format, a: nat, rm: RoundingMode, n: nat, unsigned: bool, fflags: set<Flag>)
    returns (r: nat, fl: set<Flag>)
    requires n >= 1 && a < Pow2(n)
    ensures DeliversReal(f, rm, IntValue(n, unsigned, a) as real, false, r, fflags, fl)
  {
    hide Pow2, Faithful, Worth, Delivers, Encode;
    IntValueRange(n, unsigned, a);
    var aSign := false;
    var x := a;
    if !unsigned && a >= Pow2(n - 1) {
      aSign := true;
      x := Negated(n, a);
    }
    ghost var i: int := x;
    assert (aSign ==> IntValue(n, unsigned, a) == 0 - i) && (!aSign ==> IntValue(n, unsigned, a) == i);
    hide IntValue, Represents;
    var aExp, aMant, y, p := ReduceRange(f, x, n);
    r, fl := NormalizeSf(f, aSign, aExp, aMant, rm, fflags);
    assert x > 0 ==> Faithful(f, aMant, y, p) && Delivers(f, rm, aSign, x as real, r, fflags, fl);
  }

  /** The range is reduced before the general normalization. */
  method ReduceRange(f: Format, x: nat, n: nat) returns (aExp: int, aMant: nat, ghost y: real, ghost p: nat)
    requires x < Pow2(n)
    ensures aMant < Pow2(f.Size() - 1) && (aMant == 0 <==> x == 0)
    ensures Faithful(f, aMant, y, p) && Worth(f, aExp, y) == x as real
  {
    hide Pow2, BitLength, Clz, Shr, Low, JamShift, Faithful, Worth;
    aExp := f.Bias() + f.Size() - 2;
    ClzIs(n, x);
    var l := n - Clz(n, x) - (f.Size() - 1);
    aMant := x;
    y, p := x as real, 0;
    if l > 0 {
      y := IntFaithful(f, x, l);
      p := 1;
      var mask := Low(x, l);
      aMant := Jam(Shr(x, l), mask != 0);
      aExp := aExp + l;
      JamShiftIs(x, l);
    } else {
      IntSmall(f, x);
      FaithfulExact(f, x);
    }
    IntWorth(f, if l > 0 then l else 0, x, y);
  }

  lemma ClzIs(n: nat, x: nat)
    requires x < Pow2(n)
    ensures n - Clz(n, x) == BitLength(x)
  {
  }

  lemma IntSmall(f: Format, x: nat)
    requires BitLength(x) <= f.Size() - 1
    ensures x < Pow2(f.Size() - 1)
  {
    assert x < Pow2(BitLength(x));
    Pow2Mono(BitLength(x), f.Size() - 1);
    hide Pow2, BitLength;
  }

  /** The bits that do not fit are jammed into the last one that does. */
  lemma IntFaithful(f: Format, x: nat, l: nat) returns (y: real)
    requires BitLength(x) == f.Size() - 1 + l && l > 0
    ensures x > 0 && x as real == y * Pow2(l) as real
    ensures var j := JamShift(x, l); 0 < j < Pow2(f.Size() - 1) && Faithful(f, j, y, 1)
  {
    assert x > 0 && Pow2(BitLength(x) - 1) <= x < Pow2(BitLength(x));
    hide *;
    y := UnitsDown(x, l);
    JamRange(x, l, f.Size() - 2);
    NarrowAgrees(f, x, l, y);
  }

  lemma IntWorth(f: Format, l: nat, x: nat, y: real)
    requires x as real == if l > 0 then y * Pow2(l) as real else y
    ensures Worth(f, f.Bias() + f.Size() - 2 + l, y) == x as real
  {
    hide *;
    WorthIs(f, f.Bias() + f.Size() - 2 + l, y);
    WeightIs(f, f.Bias() + f.Size() - 2 + l);
    ScaleNat(l);
    ScaleZero();
  }

  // ---- there and back ----------------------------------------------------------------------

  /** x is q shifted left by s, and q has at most MANT_SIZE + 1 bits. */
  predicate Significant(f: Format, x: int, q: nat, s: nat) {
    q < 2 * f.Hidden() && x == q * Pow2(s)
  }

  /** Such an integer is a number of the format. */
  lemma IntIsNumber(f: Format, neg: bool, x: nat, q: nat, s: nat, n: nat) returns (w: nat)
    requires 0 < x < Pow2(n) && n <= Pow2(f.expSize - 1) && Significant(f, x, q, s)
    ensures IsWord(f, w) && IsFinite(f, w) && Sign(f, w) == neg && Magnitude(f, w) == x as real
  {
    hide *;
    SignificantIs(f, x, q, s);
    BitLengthBounds(q);
    Pow2Succ(f.mantSize);
    BitLengthAtMost(q, f.mantSize + 1);
    var b := BitLength(q);
    IntLength(x, q, s, n);
    var k := f.mantSize + 1 - b;
    var m := q * Pow2(k);
    ShiftToLength(q, k, f.mantSize + 1);
    var e := s + b - 1 + f.Bias();
    IntNormal(f, x, q, s, k, m, e);
    IntExponent(f, s + b - 1, n);
    ShrUnique(m, f.mantSize, 1, m - f.Hidden());
    w := Pack(f, neg, e, m);
    PackedNormal(f, neg, e, m, m, x as real);
  }

  lemma BitLengthBounds(q: nat)
    ensures q == 0 <==> BitLength(q) == 0
    ensures q > 0 ==> Pow2(BitLength(q) - 1) <= q
  {
  }

  lemma SignificantIs(f: Format, x: nat, q: nat, s: nat)
    requires Significant(f, x, q, s)
    ensures q < 2 * f.Hidden() && x == q * Pow2(s)
    ensures x > 0 ==> q > 0
  {
  }

  lemma IntLength(x: nat, q: nat, s: nat, n: nat)
    requires q > 0 && x == q * Pow2(s) < Pow2(n)
    ensures s + BitLength(q) - 1 < n
  {
    hide *;
    BitLengthBounds(q);
    var b := BitLength(q);
    Pow2Add(b - 1, s);
    MulLe(Pow2(b - 1), q, Pow2(s));
    if n <= b - 1 + s {
      Pow2Mono(n, b - 1 + s);
    }
  }

  lemma IntExponent(f: Format, e: nat, n: nat)
    requires e < n <= Pow2(f.expSize - 1)
    ensures 1 <= e + f.Bias() < f.ExpMask()
  {
    Pow2Succ(f.expSize - 1);
    Pow2Mono(1, f.expSize - 1);
    hide Pow2;
  }

  lemma IntNormal(f: Format, x: nat, q: nat, s: nat, k: nat, m: nat, e: int)
    requires x == q * Pow2(s) && m == q * Pow2(k) && f.Hidden() <= m < 2 * f.Hidden()
    requires e - f.Bias() - f.mantSize == s - k
    ensures Normal(f, e, m, x as real)
  {
    hide *;
    ShiftedValue(q, m, k, s);
    ScaleNat(s);
    RealOfProduct(q, Pow2(s));
    NormalFrom(f, e, m, x as real);
  }

  /**
   * An integer of at most MANT_SIZE + 1 significant bits survives the way to a number and back,
   * whatever the rounding modes, and no flag is added.
   */
  method IntThenBack(f: Format, a: nat, rm: RoundingMode, rm': RoundingMode, n: nat, unsigned: bool, fflags: set<Flag>,
                     ghost q: nat, ghost s: nat)
    returns (r: nat, fl: set<Flag>)
    requires 1 <= n <= Pow2(f.expSize - 1) && a < Pow2(n)
    requires var i := IntValue(n, unsigned, a); Significant(f, if i < 0 then 0 - i else i, q, s)
    ensures r == a && fl == fflags
  {
    hide Pow2, Magnitude, Sign, Code, IsWord, Encode, Delivers, Significant, Represents, RoundsToInt, IsFinite, Lowest, Highest;
    ghost var i := IntValue(n, unsigned, a);
    IntValueRange(n, unsigned, a);
    var w, fl' := CvtIntSf(f, a, rm, n, unsigned, fflags);
    ghost var x := if i < 0 then 0 - i else i;
    MagnitudeBelow(n, unsigned, i);
    if i == 0 {
      ZeroWord(f);
    } else {
      ghost var w' := IntIsNumber(f, i < 0, x, q, s, n);
      MagnitudeSign(f, w');
      ExactDelivers(f, rm, w', fflags);
      DeliversUnique(f, rm, i < 0, x as real, w, w', fflags, fl', fflags);
    }
    assert Value(f, w) == i as real;
    r, fl := CvtSfInt(f, w, rm', n, unsigned, fl');
    ExactInt(rm', i < 0, x);
    ghost var j :| RoundsToInt(rm', Value(f, w), j)
      && Fitted(n, unsigned, j, j as real == Value(f, w), r, fl', fl);
    RoundsToIntUnique(rm', i as real, i, j);
    RepresentsUnique(n, unsigned, a, r, i);
  }

  lemma MagnitudeBelow(n: nat, unsigned: bool, i: int)
    requires n >= 1 && Lowest(n, unsigned) <= i <= Highest(n, unsigned)
    ensures 0 - Pow2(n) < i < Pow2(n)
  {
    Pow2Succ(n - 1);
    hide Pow2;
  }

  lemma ZeroWord(f: Format)
    ensures Encode(f, false, 0) == 0 && IsWord(f, 0) && IsFinite(f, 0) && Value(f, 0) == 0.0
  {
    InfBelowSign(f);
    EncodedFields(f, false, 0);
    MagnitudeSign(f, 0);
    hide Pow2, Magnitude, Sign, Code, IsWord;
  }

  /** Only such an integer is converted without the inexact flag. */
  lemma ExactIsSignificant(f: Format, rm: RoundingMode, neg: bool, x: nat, r: nat, before: set<Flag>, after: set<Flag>)
    returns (q: nat, s: nat)
    requires x > 0 && Delivers(f, rm, neg, x as real, r, before, after) && Inexact !in after
    ensures Significant(f, x, q, s)
  {
    var dir := DirectionOf(rm, neg);
    var u, t :| RoundsTo(f, false, dir, x as real, u) && RoundsTo(f, true, dir, x as real, t)
      && r == Encode(f, neg, Clamped(f, dir, u)) && after == before + RoundingFlags(f, x as real, u, t);
    assert InGrid(false, u) && GridValue(f, false, u) == x as real;
    hide *;
    q, s := WholeGridValue(f, u, x);
  }

  lemma WholeGridValue(f: Format, u: int, x: nat) returns (q: nat, s: nat)
    requires InGrid(false, u) && GridValue(f, false, u) == x as real && x > 0
    ensures Significant(f, x, q, s)
  {
    hide *;
    GridBounds(f, false, u);
    var e := Exponent(f, false, u);
    var k := u - (e - 1) * f.Hidden();
    var w := e - f.Bias() - f.mantSize;
    GridValueIs(f, u);
    BinadeBounds(f, e, k);
    if w >= 0 {
      ScaleNat(w);
      RealOfProduct(k, Pow2(w));
      q, s := k, w;
    } else {
      ScaleMono(w, 0);
      ScaleZero();
      AtMostUnits(k, Scale(w), x);
      q, s := x, 0;
    }
    SignificantFrom(f, x, q, s);
  }

  lemma GridValueIs(f: Format, u: int)
    ensures var e := Exponent(f, false, u);
            GridValue(f, false, u) == (u - (e - 1) * f.Hidden()) as real * Scale(e - f.Bias() - f.mantSize)
  {
  }

  lemma BinadeBounds(f: Format, e: int, k: int)
    requires InBinade(f, false, e, k)
    ensures 0 <= k < 2 * f.Hidden()
  {
  }

  lemma AtMostUnits(k: nat, s: real, x: nat)
    requires 0.0 < s <= 1.0 && x as real == k as real * s
    ensures x <= k
  {
    RealCompare(s, 1.0, k as real + 1.0);
    assert k as real * s <= k as real;
  }

  lemma SignificantFrom(f: Format, x: nat, q: nat, s: nat)
    requires q < 2 * f.Hidden() && (x == q * Pow2(s) || (x == q && s == 0))
    ensures Significant(f, x, q, s)
  {
  }
}
