/** round_pack_sf and the normalizing routines in front of it. */
module Rounding {
  import opened Powers
  import opened Floats
  import opened Jamming

  // ---- rounding an integer ---------------------------------------------------------

  /** What is added below the mantissa before the low bits are cut off. */
  function Addend(rnd: nat, rm: RoundingMode, neg: bool): nat
    requires rnd > 0
  {
    match rm
    case RNE => Pow2(rnd - 1)
    case RMM => Pow2(rnd - 1)
    case RTZ => 0
    case RDN => if neg then Pow2(rnd) - 1 else 0
    case RUP => if !neg then Pow2(rnd) - 1 else 0
  }

  /** `a & ~1` */
  function ClearLow(a: nat): nat {
    a - a % 2
  }

  /** Dropping rnd low bits in the given mode, ties handled as the code does. */
  function RoundOff(rnd: nat, rm: RoundingMode, neg: bool, n: nat): nat
    requires rnd > 0
  {
    var m := Shr(n + Addend(rnd, rm, neg), rnd);
    if rm == RNE && Low(n, rnd) == Pow2(rnd - 1) then ClearLow(m) else m
  }

  /** What a mantissa shows of the value it stands for: which half of which unit it is in. */
  lemma Halves(n: nat, y: real, rnd: nat, k: int, lo: int, mid: int, hi: int)
    requires rnd > 0 && Agrees(n, y, rnd - 1)
    requires lo == k * Pow2(rnd) && mid == lo + Pow2(rnd - 1) && hi == lo + Pow2(rnd) && lo <= n < hi
    ensures n < mid ==> if n == lo then y == lo as real else lo as real < y < mid as real
    ensures n >= mid ==> if n == mid then y == mid as real else mid as real < y < hi as real
  {
    var g := Pow2(rnd - 1);
    assert Pow2(rnd) == 2 * g;
    var q, a, b := AgreesElim(n, y, rnd - 1);
    assert a == q * g && b == (q + 1) * g;
    hide *;
    HalvesAlgebra(k, q, g, a, b, lo, mid, hi, n);
  }

  lemma HalvesAlgebra(k: int, q: int, g: int, a: int, b: int, lo: int, mid: int, hi: int, n: int)
    requires g > 0 && a == q * g && b == (q + 1) * g && a <= n < b
    requires lo == k * (2 * g) && mid == lo + g && hi == lo + 2 * g && lo <= n < hi
    ensures n < mid ==> a == lo && b == mid
    ensures n >= mid ==> a == mid && b == hi
  {
    var k2 := 2 * k;
    assert lo == k2 * g;
    MulSucc(k2, g);
    MulSucc(k2 + 1, g);
    MulSucc(q, g);
    Bracket(q, k2, g, a, lo);
  }

  /** Two grid lines that enclose a common point are equal or neighbours. */
  lemma Bracket(q: int, k: int, g: int, a: int, lo: int)
    requires g > 0 && a == q * g && lo == k * g && a < lo + 2 * g && lo < a + g
    ensures a == lo || a == lo + g
  {
    MulSucc(k, g);
    MulSucc(k + 1, g);
    MulSucc(q, g);
    MulCompare(q, k + 2, g);
    MulCompare(k, q + 1, g);
  }

  lemma RoundOffCorrect(rnd: nat, rm: RoundingMode, neg: bool, n: nat, y: real, k: nat, lo: int, hi: int)
    requires rnd > 0 && Agrees(n, y, rnd - 1)
    requires k == Shr(n, rnd) && lo == k * Pow2(rnd) && hi == lo + Pow2(rnd)
    ensures lo as real <= y < hi as real
    ensures Low(n, rnd) != 0 <==> y != lo as real
    ensures RoundOff(rnd, rm, neg, n) ==
            if GoesUp(DirectionOf(rm, neg), y, lo as real, hi as real, k % 2 == 1) then k + 1 else k
  {
    assert Pow2(rnd) == 2 * Pow2(rnd - 1);
    hide *;
    var mid := lo + Pow2(rnd - 1);
    RoundOffBits(rnd, rm, neg, n, k, lo, mid, hi);
    Halves(n, y, rnd, k, lo, mid, hi);
    Decide(DirectionOf(rm, neg), n, y, k, lo, mid, hi);
  }

  /** A mantissa and its value lead to the same decision. */
  lemma Decide(dir: Direction, n: nat, y: real, k: nat, lo: int, mid: int, hi: int)
    requires lo <= n < hi && lo < mid && hi - mid == mid - lo
    requires n < mid ==> if n == lo then y == lo as real else lo as real < y < mid as real
    requires n >= mid ==> if n == mid then y == mid as real else mid as real < y < hi as real
    ensures lo as real <= y < hi as real
    ensures n != lo <==> y != lo as real
    ensures GoesUp(dir, y, lo as real, hi as real, k % 2 == 1) <==>
            match dir
            case Down => false
            case Up => n != lo
            case NearestEven => n > mid || (n == mid && k % 2 == 1)
            case NearestAway => n >= mid
  {
  }

  /** The comparison of n with the ends and the middle of its unit decides. */
  lemma RoundOffBits(rnd: nat, rm: RoundingMode, neg: bool, n: nat, k: nat, lo: int, mid: int, hi: int)
    requires rnd > 0
    requires k == Shr(n, rnd) && lo == k * Pow2(rnd) && mid == lo + Pow2(rnd - 1) && hi == lo + Pow2(rnd)
    ensures lo <= n < hi
    ensures Low(n, rnd) == n - lo
    ensures RoundOff(rnd, rm, neg, n) ==
            match DirectionOf(rm, neg)
            case Down => k
            case Up => if n == lo then k else k + 1
            case NearestEven => if n > mid || (n == mid && k % 2 == 1) then k + 1 else k
            case NearestAway => if n >= mid then k + 1 else k
  {
    hide Pow2, Shr, Low;
    Pow2Succ(rnd - 1);
    ShrSplit(n, rnd);
    CarryOut(n, Addend(rnd, rm, neg), rnd, k, lo);
  }

  lemma CarryOut(n: nat, add: nat, rnd: nat, k: int, lo: int)
    requires add < Pow2(rnd) && lo == k * Pow2(rnd) && lo <= n < lo + Pow2(rnd)
    ensures Shr(n + add, rnd) == if n + add >= lo + Pow2(rnd) then k + 1 else k
  {
    hide *;
    MulSucc(k, Pow2(rnd));
    if n + add >= lo + Pow2(rnd) {
      ShrUnique(n + add, rnd, k + 1, n + add - lo - Pow2(rnd));
    } else {
      ShrUnique(n + add, rnd, k, n + add - lo);
    }
  }

  // ---- rounding on a grid -----------------------------------------------------------

  /** The weight of the last bit of an internal mantissa, whose leading bit is bit F_SIZE - 2. */
  function Weight(f: Format, exp: int): (w: real)
    ensures w > 0.0
  {
    Scale(exp - f.Bias() - f.mantSize - f.RndSize())
  }

  /** The value y units of that bit are worth. */
  function Worth(f: Format, exp: int, y: real): real {
    y * Weight(f, exp)
  }

  lemma WorthIs(f: Format, exp: int, y: real)
    ensures Worth(f, exp, y) == y * Weight(f, exp)
  {
  }

  lemma WeightIs(f: Format, exp: int)
    ensures Weight(f, exp) == Scale(exp - f.Bias() - f.mantSize - f.RndSize())
  {
  }

  /** Cutting off the rounding bits of a mantissa rounds the value it stands for. */
  lemma RoundAtExponent(f: Format, free: bool, rm: RoundingMode, neg: bool, e: int, n: nat, y: real, x: real)
    requires InBinade(f, free, e, Shr(n, f.RndSize()))
    requires Agrees(n, y, f.RndSize() - 1)
    requires x == Worth(f, e, y)
    ensures var u := CodeAt(f, e, RoundOff(f.RndSize(), rm, neg, n));
            && RoundsTo(f, free, DirectionOf(rm, neg), x, u)
            && (GridValue(f, free, u) == x <==> Low(n, f.RndSize()) == 0)
  {
    hide *;
    var rnd: nat := f.RndSize();
    var k := Shr(n, rnd);
    var dir := DirectionOf(rm, neg);
    var lo := k * Pow2(rnd);
    var hi := lo + Pow2(rnd);
    var s := Weight(f, e);
    WorthIs(f, e, y);
    RoundOffCorrect(rnd, rm, neg, n, y, k, lo, hi);
    var c := GridNeighbours(f, free, e, k, lo, hi, s);
    RescaleDecision(dir, y, lo as real, hi as real, k % 2 == 1, s, x, GridValue(f, free, c), GridValue(f, free, c + 1));
    RoundsBetween(f, free, dir, x, c);
  }

  /** The two numbers of the grid that enclose significand k, in units of the mantissa's last bit. */
  lemma GridNeighbours(f: Format, free: bool, e: int, k: nat, lo: int, hi: int, s: real) returns (c: int)
    requires InBinade(f, free, e, k)
    requires lo == k * Pow2(f.RndSize()) && hi == lo + Pow2(f.RndSize())
    requires s == Weight(f, e)
    ensures InGrid(free, c) && c == CodeAt(f, e, k) && c + 1 == CodeAt(f, e, k + 1) && c % 2 == k % 2
    ensures GridValue(f, free, c) == lo as real * s
    ensures GridValue(f, free, c + 1) == hi as real * s
  {
    hide *;
    WeightIs(f, e);
    c := CodeAt(f, e, k);
    CodeSteps(f, free, e, k);
    CodeParity(f, e, k);
    var w := e - f.Bias() - f.mantSize;
    MulSucc(k, Pow2(f.RndSize()));
    UnitsOf(w, f.RndSize(), k, lo, s);
    UnitsOf(w, f.RndSize(), k + 1, hi, s);
  }

  /** Counting in finer units. */
  lemma UnitsOf(w: int, rnd: nat, k: nat, lo: int, s: real)
    requires lo == k * Pow2(rnd) && s == Scale(w - rnd)
    ensures k as real * Scale(w) == lo as real * s
  {
    hide *;
    ScaleAddNat(w - rnd, rnd);
    RealOfProduct(k, Pow2(rnd));
    RealAssoc(k as real, Pow2(rnd) as real, s);
  }

  lemma RealAssoc(a: real, b: real, c: real)
    ensures a * (b * c) == a * b * c
  {
  }

  /** A decision between neighbours does not depend on the unit. */
  lemma RescaleDecision(dir: Direction, y: real, lo: real, hi: real, odd: bool, s: real, x: real, lo': real, hi': real)
    requires s > 0.0 && lo <= y < hi && x == y * s && lo' == lo * s && hi' == hi * s
    ensures lo' <= x < hi'
    ensures y == lo <==> x == lo'
    ensures GoesUp(dir, y, lo, hi, odd) <==> GoesUp(dir, x, lo', hi', odd)
    ensures y == lo ==> !GoesUp(dir, x, lo', hi', odd)
  {
    RealCompare(y, lo, s);
    RealCompare(lo, y, s);
    RealCompare(y, hi, s);
    RealCompare(y + y, lo + hi, s);
    RealCompare(lo + hi, y + y, s);
  }

  // ---- round_pack_sf ----------------------------------------------------------------

  predicate Normalized(f: Format, mant: nat) {
    Pow2(f.Size() - 2) <= mant < Pow2(f.Size() - 1)
  }

  /** pack_sf: the fields do not overlap, so or-ing them is adding them. */
  function Pack(f: Format, neg: bool, exp: nat, mant: nat): nat {
    (if neg then f.SignBit() else 0) + exp * f.Hidden() + Low(mant, f.mantSize)
  }

  /** A mantissa below the normal range is first moved down to the exponent of the subnormals. */
  function Aligned(f: Format, exp: int, mant: nat): nat {
    if exp <= 0 then JamShift(mant, 1 - exp) else mant
  }

  function AlignedExp(exp: int): int {
    if exp <= 0 then 1 else exp
  }

  lemma NormalizedBinade(f: Format, mant: nat)
    requires Normalized(f, mant)
    ensures f.Hidden() <= Shr(mant, f.RndSize()) < 2 * f.Hidden()
  {
    hide *;
    var rnd: nat := f.RndSize();
    NormalizedIs(f, mant);
    Pow2Add(f.mantSize, rnd);
    Pow2Add(f.mantSize + 1, rnd);
    Pow2Succ(f.mantSize);
    ShrSplit(mant, rnd);
    CutBelow(mant, Shr(mant, rnd), Low(mant, rnd), Pow2(rnd), Pow2(f.mantSize));
    CutBelow(mant, Shr(mant, rnd), Low(mant, rnd), Pow2(rnd), Pow2(f.mantSize + 1));
  }

  lemma AlignedBinade(f: Format, exp: int, mant: nat)
    requires Normalized(f, mant)
    ensures InBinade(f, false, AlignedExp(exp), Shr(Aligned(f, exp, mant), f.RndSize()))
    ensures InBinade(f, true, exp, Shr(mant, f.RndSize()))
  {
    NormalizedBinade(f, mant);
    if exp <= 0 {
      SubnormalBinade(f, mant, 1 - exp);
    }
    hide Pow2, Shr, JamShift;
  }

  lemma SubnormalBinade(f: Format, mant: nat, d: nat)
    requires Normalized(f, mant) && d >= 1
    ensures 0 <= Shr(JamShift(mant, d), f.RndSize()) < f.Hidden()
  {
    hide *;
    var rnd: nat := f.RndSize();
    var b := f.mantSize + rnd;
    var j := JamShift(mant, d);
    NormalizedIs(f, mant);
    Pow2Add(f.mantSize, rnd);
    Pow2Succ(b);
    Pow2Succ(b - 1);
    Pow2Succ(d - 1);
    MulLe(2, Pow2(d), Pow2(b));
    JamBounds(mant, d, Pow2(d), 0, Pow2(b));
    ShrSplit(j, rnd);
    CutBelow(j, Shr(j, rnd), Low(j, rnd), Pow2(rnd), f.Hidden());
  }

  lemma NormalizedIs(f: Format, mant: nat)
    ensures Normalized(f, mant) <==> Pow2(f.Size() - 2) <= mant < Pow2(f.Size() - 1)
  {
  }

  /** The value does not change when the mantissa is moved down. */
  lemma AlignedAgrees(f: Format, exp: int, mant: nat, y: real) returns (z: real)
    requires Agrees(mant, y, f.RndSize() - 1)
    ensures Agrees(Aligned(f, exp, mant), z, f.RndSize() - 1)
    ensures Worth(f, AlignedExp(exp), z) == Worth(f, exp, y)
  {
    if exp <= 0 {
      hide Pow2, Agrees, JamShift, Worth, Scale;
      var d := 1 - exp;
      z := MovedDown(f, exp, d, y);
      AgreesWeaken(mant, y, f.RndSize() - 1, f.RndSize() - 1 + d);
      AgreesJamShift(mant, y, f.RndSize() - 1, d, z);
    } else {
      z := y;
    }
  }

  lemma MovedDown(f: Format, exp: int, d: nat, y: real) returns (z: real)
    ensures y == z * Pow2(d) as real
    ensures Worth(f, exp + d, z) == Worth(f, exp, y)
  {
    hide *;
    z := y * Scale(0 - d);
    ScaleAdd(0 - d, d);
    ScaleNat(d);
    ScaleZero();
    RealAssoc(y, Scale(0 - d), Scale(d));
    WeightShift(f, exp + d, d, z, y);
  }

  /** Every fact about the rounding that round_pack_sf relies on. */
  lemma RoundPackRounds(f: Format, neg: bool, exp: int, mant: nat, rm: RoundingMode, y: real)
    requires Normalized(f, mant) && Agrees(mant, y, f.RndSize() - 1)
    ensures var x, dir := Worth(f, exp, y), DirectionOf(rm, neg);
            var n := Aligned(f, exp, mant);
            var u := CodeAt(f, AlignedExp(exp), RoundOff(f.RndSize(), rm, neg, n));
            var t := CodeAt(f, exp, RoundOff(f.RndSize(), rm, neg, mant));
            && RoundsTo(f, false, dir, x, u)
            && RoundsTo(f, true, dir, x, t)
            && (GridValue(f, false, u) == x <==> Low(n, f.RndSize()) == 0)
  {
    hide *;
    var z := AlignedAgrees(f, exp, mant, y);
    AlignedBinade(f, exp, mant);
    RoundAtExponent(f, false, rm, neg, AlignedExp(exp), Aligned(f, exp, mant), z, Worth(f, exp, y));
    RoundAtExponent(f, true, rm, neg, exp, mant, y, Worth(f, exp, y));
  }

  /** Tininess is decided on the mantissa before it is moved down. */
  lemma TinyBits(f: Format, neg: bool, exp: int, mant: nat, rm: RoundingMode)
    requires Normalized(f, mant)
    ensures CodeAt(f, exp, RoundOff(f.RndSize(), rm, neg, mant)) < f.Hidden() <==>
            exp < 0 || (exp == 0 && mant + Addend(f.RndSize(), rm, neg) < Pow2(f.Size() - 1))
  {
    var rnd: nat := f.RndSize();
    var h, k, m := f.Hidden(), Shr(mant, rnd), RoundOff(rnd, rm, neg, mant);
    NormalizedBinade(f, mant);
    RoundOffRange(rnd, rm, neg, mant);
    TinyCarry(f, neg, mant, rm);
    assert CodeAt(f, exp, m) == m + (exp - 1) * h;
    hide *;
    if exp < 0 {
      MulLe(exp - 1, -2, h);
    } else if exp > 0 {
      MulLe(0, exp - 1, h);
    }
  }

  lemma RoundOffRange(rnd: nat, rm: RoundingMode, neg: bool, n: nat)
    requires rnd > 0
    ensures Shr(n, rnd) <= RoundOff(rnd, rm, neg, n) <= Shr(n, rnd) + 1
  {
    var lo := Shr(n, rnd) * Pow2(rnd);
    RoundOffBits(rnd, rm, neg, n, Shr(n, rnd), lo, lo + Pow2(rnd - 1), lo + Pow2(rnd));
    hide Pow2, Shr, RoundOff;
  }

  /** Rounding carries into the next binade exactly when the addition before the cut does. */
  lemma TinyCarry(f: Format, neg: bool, mant: nat, rm: RoundingMode)
    requires Normalized(f, mant)
    ensures RoundOff(f.RndSize(), rm, neg, mant) < 2 * f.Hidden() <==>
            mant + Addend(f.RndSize(), rm, neg) < Pow2(f.Size() - 1)
  {
    hide *;
    var rnd: nat := f.RndSize();
    var sum := mant + Addend(rnd, rm, neg);
    RoundOffCut(rnd, rm, neg, mant, 2 * f.Hidden());
    Pow2Add(f.mantSize + 1, rnd);
    Pow2Succ(f.mantSize);
    ShrSplit(sum, rnd);
    CutBelow(sum, Shr(sum, rnd), Low(sum, rnd), Pow2(rnd), Pow2(f.mantSize + 1));
  }

  lemma CutBelow(n: int, q: int, r: int, g: int, b: int)
    requires n == q * g + r && 0 <= r < g
    ensures q < b <==> n < b * g
  {
    if q < b {
      MulLe(q + 1, b, g);
      MulSucc(q, g);
    } else {
      MulLe(b, q, g);
    }
  }

  /** Clearing the last bit of a tie does not cross an even bound. */
  lemma RoundOffCut(rnd: nat, rm: RoundingMode, neg: bool, n: nat, b: nat)
    requires rnd > 0 && b % 2 == 0
    ensures RoundOff(rnd, rm, neg, n) < b <==> Shr(n + Addend(rnd, rm, neg), rnd) < b
  {
    hide Pow2, Shr, Low, Addend;
  }

  /** The fields round_pack_sf packs when its result does not overflow are the rounded code. */
  lemma PackedCode(f: Format, e: int, m: nat, k: nat)
    requires InBinade(f, false, e, k) && k <= m <= k + 1
    ensures var e' := if m < f.Hidden() then 0 else e + Shr(m, f.mantSize + 1);
            && e' * f.Hidden() + Low(m, f.mantSize) == CodeAt(f, e, m)
            && (e' >= f.ExpMask() <==> CodeAt(f, e, m) >= f.Inf())
            && e' >= 0
  {
    var h := f.Hidden();
    Pow2Succ(f.mantSize);
    var c, top := CodeAt(f, e, m), f.ExpMask();
    assert f.Inf() == top * h && c == m + (e - 1) * h && top > 0 by {
      Pow2Mono(1, f.expSize);
    }
    if m < h {
      ShrUnique(m, f.mantSize, 0, m);
      assert e == 1;
      hide *;
      MulLe(1, top, h);
    } else if m < 2 * h {
      ShrUnique(m, f.mantSize + 1, 0, m);
      ShrUnique(m, f.mantSize, 1, m - h);
      hide *;
      MulSucc(e, h);
      if e < top {
        MulLe(e + 1, top, h);
      } else {
        MulLe(top, e, h);
      }
    } else {
      ShrUnique(m, f.mantSize + 1, 1, 0);
      ShrUnique(m, f.mantSize, 2, 0);
      hide *;
      MulSucc(e, h);
      MulCompare(e + 1, top, h);
    }
  }

  /** `if (cond) *pfflags |= flags` */
  function Raise(fflags: set<Flag>, cond: bool, flags: set<Flag>): set<Flag> {
    if cond then fflags + flags else fflags
  }

  /** y is a value that mantissa mant may stand for when it is rounded. */
  ghost predicate StandsFor(f: Format, mant: int, y: real) {
    Agrees(mant, y, f.RndSize() - 1)
  }

  lemma ZeroAligned(f: Format, neg: bool, exp: int, rm: RoundingMode)
    ensures Aligned(f, exp, 0) == 0 && Shr(0, f.RndSize()) == 0 && Low(0, f.RndSize()) == 0
    ensures RoundOff(f.RndSize(), rm, neg, 0) == 0
    ensures InBinade(f, false, 1, 0) && Shr(0, f.mantSize + 1) == 0 && Low(0, f.mantSize) == 0
  {
    var rnd: nat := f.RndSize();
    ShrUnique(0, rnd, 0, 0);
    ShrUnique(0, f.mantSize + 1, 0, 0);
    ShrUnique(0, f.mantSize, 0, 0);
    ShrUnique(0, if exp <= 0 then 1 - exp else 0, 0, 0);
    Pow2Succ(rnd - 1);
    RoundOffBits(rnd, rm, neg, 0, 0, 0, Pow2(rnd - 1), Pow2(rnd));
    hide Pow2, RoundOff;
  }

  /** What the last part of round_pack_sf packs. */
  lemma PackedClamped(f: Format, neg: bool, dir: Direction, e: int, m: nat, k: nat, aExp: int, aMant: nat)
    requires InBinade(f, false, e, k) && k <= m <= k + 1
    requires var e' := e + Shr(m, f.mantSize + 1);
             if m < f.Hidden() then aExp == 0 && aMant == m
             else if e' < f.ExpMask() then aExp == e' && aMant == m
             else if dir == Down then aExp == f.ExpMask() - 1 && aMant == f.Hidden() - 1
             else aExp == f.ExpMask() && aMant == 0
    ensures aExp >= 0 && Pack(f, neg, aExp, aMant) == Encode(f, neg, Clamped(f, dir, CodeAt(f, e, m)))
    ensures CodeAt(f, e, m) >= f.Inf() <==> m >= f.Hidden() && e + Shr(m, f.mantSize + 1) >= f.ExpMask()
  {
    PackedCode(f, e, m, k);
    MaskFields(f);
    Pow2Mono(1, f.expSize);
    hide Pow2, Shr, Low, CodeAt;
    MulSucc(f.ExpMask(), f.Hidden());
  }

  lemma MaskFields(f: Format)
    ensures Low(f.Hidden() - 1, f.mantSize) == f.Hidden() - 1 && Low(0, f.mantSize) == 0
    ensures f.ExpMask() >= 1 && f.Inf() >= 1
  {
    ShrUnique(f.Hidden() - 1, f.mantSize, 0, f.Hidden() - 1);
    ShrUnique(0, f.mantSize, 0, 0);
    Pow2Mono(1, f.expSize);
    MulLe(1, f.ExpMask(), f.Hidden());
  }

  /**
   * round_pack_sf. The mantissa is zero, or has its leading bit at F_SIZE - 2 and may stand for
   * any real number that agrees with it down to the half-unit position.
   */
  method RoundPackSf(f: Format, neg: bool, exp: int, mant: nat, rm: RoundingMode, fflags: set<Flag>)
    returns (r: nat, fl: set<Flag>)
    requires mant == 0 || Normalized(f, mant)
    ensures mant == 0 ==> r == Encode(f, neg, 0) && fl == fflags
    ensures forall y: real :: mant > 0 && StandsFor(f, mant, y) ==>
              Delivers(f, rm, neg, Worth(f, exp, y), r, fflags, fl)
  {
    hide Pow2, Shr, Low, JamShift, Scale, GridValue, CodeAt, RoundsTo, Agrees, Worth;
    Pow2Mono(f.Size() - 1, f.Size());
    ZeroAligned(f, neg, exp, rm);
    var rnd: nat := f.RndSize();
    var addend := Addend(rnd, rm, neg);
    var aExp, aMant := exp, mant;
    var rndBits;
    fl := fflags;
    if aExp <= 0 {
      var isSubnormal := aExp < 0 || aMant + addend < Pow2(f.Size() - 1);
      var diff := 1 - aExp;
      aMant := RshiftRnd(f.Size(), aMant, diff);
      rndBits := Low(aMant, rnd);
      if isSubnormal && rndBits != 0 {
        fl := fl + {Underflow};
      }
      aExp := 1;
    } else {
      rndBits := Low(aMant, rnd);
    }
    if rndBits != 0 {
      fl := fl + {Inexact};
    }
    ghost var n, e, tiny := aMant, aExp, exp < 0 || (exp == 0 && mant + addend < Pow2(f.Size() - 1));
    assert n == Aligned(f, exp, mant) && e == AlignedExp(exp);
    assert fl == Raise(Raise(fflags, tiny && rndBits != 0, {Underflow}), rndBits != 0, {Inexact});
    aMant := Shr(aMant + addend, rnd);
    if rm == RNE && rndBits == Pow2(rnd - 1) {
      aMant := ClearLow(aMant);
    }
    assert aMant == RoundOff(rnd, rm, neg, n);
    hide Raise, Aligned, AlignedExp, RoundOff, InBinade, RshiftRnd, Encode, Addend, Delivers;
    if mant != 0 {
      AlignedBinade(f, exp, mant);
      RoundOffRange(rnd, rm, neg, n);
    }
    AddendZero(rnd, rm, neg);
    r, fl := PackRounded(f, neg, aExp, aMant, addend == 0, fl, Shr(n, rnd));
    if mant != 0 {
      assert RoundPacked(f, neg, exp, mant, rm, r, fflags, fl);
      RoundPackAll(f, neg, exp, mant, rm, r, fflags, fl);
    }
  }

  /** The last part of round_pack_sf: carry, denormal, overflow. */
  method PackRounded(f: Format, neg: bool, exp: int, mant: nat, truncate: bool, fflags: set<Flag>, ghost k: nat)
    returns (r: nat, fl: set<Flag>)
    requires mant == 0 || (InBinade(f, false, exp, k) && k <= mant <= k + 1)
    ensures mant == 0 ==> r == Encode(f, neg, 0) && fl == fflags
    ensures InBinade(f, false, exp, k) && k <= mant <= k + 1 ==>
              && r == Encode(f, neg, Clamped(f, if truncate then Down else Up, CodeAt(f, exp, mant)))
              && fl == Raise(fflags, CodeAt(f, exp, mant) >= f.Inf(), {Overflow, Inexact})
  {
    hide Pow2, Shr, Low, CodeAt;
    var aExp, aMant := exp + Shr(mant, f.mantSize + 1), mant;
    fl := fflags;
    if aMant < f.Hidden() {
      aExp := 0;
    } else if aExp >= f.ExpMask() {
      if truncate {
        aExp := f.ExpMask() - 1;
        aMant := f.Hidden() - 1;
      } else {
        aExp := f.ExpMask();
        aMant := 0;
      }
      fl := fl + {Overflow, Inexact};
    }
    if InBinade(f, false, exp, k) && k <= mant <= k + 1 {
      PackedClamped(f, neg, if truncate then Down else Up, exp, mant, k, aExp, aMant);
    }
    MaskFields(f);
    r := Pack(f, neg, aExp, aMant);
  }

  lemma RoundPackAll(f: Format, neg: bool, exp: int, mant: nat, rm: RoundingMode, r: nat,
                     before: set<Flag>, after: set<Flag>)
    requires Normalized(f, mant)
    requires RoundPacked(f, neg, exp, mant, rm, r, before, after)
    ensures forall y: real :: StandsFor(f, mant, y) ==> Delivers(f, rm, neg, Worth(f, exp, y), r, before, after)
  {
    hide *;
    forall y: real | StandsFor(f, mant, y)
      ensures Delivers(f, rm, neg, Worth(f, exp, y), r, before, after)
    {
      RoundPackDelivers(f, neg, exp, mant, rm, y, r, before, after);
    }
  }

  /** The flags and the bits found by round_pack_sf, without its steps. */
  ghost predicate RoundPacked(f: Format, neg: bool, exp: int, mant: nat, rm: RoundingMode, r: nat,
                              before: set<Flag>, after: set<Flag>) {
    var rnd: nat := f.RndSize();
    var n := Aligned(f, exp, mant);
    var u := CodeAt(f, AlignedExp(exp), RoundOff(rnd, rm, neg, n));
    var tiny := exp < 0 || (exp == 0 && mant + Addend(rnd, rm, neg) < Pow2(f.Size() - 1));
    && r == Encode(f, neg, Clamped(f, DirectionOf(rm, neg), u))
    && after == Raise(Raise(Raise(before, tiny && Low(n, rnd) != 0, {Underflow}), Low(n, rnd) != 0, {Inexact}),
                      u >= f.Inf(), {Overflow, Inexact})
  }

  lemma RoundPackDelivers(f: Format, neg: bool, exp: int, mant: nat, rm: RoundingMode, y: real, r: nat,
                          before: set<Flag>, after: set<Flag>)
    requires Normalized(f, mant) && StandsFor(f, mant, y)
    requires RoundPacked(f, neg, exp, mant, rm, r, before, after)
    ensures Delivers(f, rm, neg, Worth(f, exp, y), r, before, after)
  {
    hide Pow2, Shr, Low, JamShift, Scale, GridValue, CodeAt, RoundsTo, Agrees, Worth, RoundOff, Aligned, AlignedExp,
      Addend, Encode, Clamped;
    RoundPackRounds(f, neg, exp, mant, rm, y);
    TinyBits(f, neg, exp, mant, rm);
    var rnd: nat := f.RndSize();
    var u := CodeAt(f, AlignedExp(exp), RoundOff(rnd, rm, neg, Aligned(f, exp, mant)));
    var t := CodeAt(f, exp, RoundOff(rnd, rm, neg, mant));
    assert RoundsTo(f, false, DirectionOf(rm, neg), Worth(f, exp, y), u);
    assert RoundsTo(f, true, DirectionOf(rm, neg), Worth(f, exp, y), t);
    assert after == before + RoundingFlags(f, Worth(f, exp, y), u, t);
  }

  lemma AddendZero(rnd: nat, rm: RoundingMode, neg: bool)
    requires rnd > 0
    ensures Addend(rnd, rm, neg) == 0 <==> DirectionOf(rm, neg) == Down
  {
    Pow2Mono(1, rnd);
  }

  // ---- normalize_sf and normalize2_sf ---------------------------------------------------

  /**
   * y is a value that mant may stand for before it is normalized: it agrees with mant down to
   * bit p, and no normalizing shift can bring bit p above the half-unit position.
   */
  ghost predicate Faithful(f: Format, mant: nat, y: real, p: nat) {
    Agrees(mant, y, p) && (p == 0 || Pow2(f.mantSize + 1 + p) <= mant)
  }

  /** Scaling a value up and its weight down. */
  lemma WeightShift(f: Format, exp: int, s: nat, y: real, y': real)
    requires y' == y * Pow2(s) as real
    ensures Worth(f, exp - s, y') == Worth(f, exp, y)
  {
    hide *;
    WeightIs(f, exp);
    WeightIs(f, exp - s);
    ScaleAddNat(exp - s - f.Bias() - f.mantSize - f.RndSize(), s);
    RealAssoc(y, Pow2(s) as real, Weight(f, exp - s));
    WorthIs(f, exp, y);
    WorthIs(f, exp - s, y');
  }

  lemma NormalizedStands(f: Format, mant: nat, s: nat, y: real, p: nat, mant': nat, y': real)
    requires mant > 0 && BitLength(mant) + s == f.Size() - 1
    requires Faithful(f, mant, y, p) && mant' == mant * Pow2(s) && y' == y * Pow2(s) as real
    ensures StandsFor(f, mant', y')
  {
    hide *;
    FaithfulIs(f, mant, y, p);
    StandsForIs(f, mant', y');
    if p > 0 {
      BitLengthAtLeast(mant, f.mantSize + 1 + p);
      AgreesShl(mant, y, p, s, mant', y');
      AgreesWeaken(mant', y', p + s, f.RndSize() - 1);
    } else {
      ExactShl(mant, y, s, mant', y');
      AgreesExact(mant', f.RndSize() - 1);
    }
  }

  lemma ExactShl(n: int, y: real, s: nat, n': int, y': real)
    requires y == n as real && n' == n * Pow2(s) && y' == y * Pow2(s) as real
    ensures y' == n' as real
  {
    hide *;
    RealOfProduct(n, Pow2(s));
  }

  lemma FaithfulIs(f: Format, mant: nat, y: real, p: nat)
    requires Faithful(f, mant, y, p)
    ensures Agrees(mant, y, p)
    ensures if p == 0 then y == mant as real else Pow2(f.mantSize + 1 + p) <= mant
  {
    assert Pow2(0) == 1;
  }

  lemma StandsForIs(f: Format, mant: int, y: real)
    ensures StandsFor(f, mant, y) <==> Agrees(mant, y, f.RndSize() - 1)
  {
  }

  /** normalize_sf, for mantissas of at most F_SIZE - 1 bits. */
  method NormalizeSf(f: Format, neg: bool, exp: int, mant: nat, rm: RoundingMode, fflags: set<Flag>)
    returns (r: nat, fl: set<Flag>)
    requires mant < Pow2(f.Size() - 1)
    ensures mant == 0 ==> r == Encode(f, neg, 0) && fl == fflags
    ensures forall y: real, p: nat :: mant > 0 && Faithful(f, mant, y, p) ==>
              Delivers(f, rm, neg, Worth(f, exp, y), r, fflags, fl)
  {
    hide Pow2, BitLength, Clz, Shl, Normalized, Faithful, StandsFor, Delivers, Worth, Encode;
    NormalizingShift(f, mant);
    var shift := Clz(f.Size(), mant) - 1;
    var aMant := Shl(f.Size(), mant, shift);
    r, fl := RoundPackSf(f, neg, exp - shift, aMant, rm, fflags);
    forall y: real, p: nat | mant > 0 && Faithful(f, mant, y, p)
      ensures Delivers(f, rm, neg, Worth(f, exp, y), r, fflags, fl)
    {
      var y' := y * Pow2(shift) as real;
      NormalizedStands(f, mant, shift, y, p, aMant, y');
      WeightShift(f, exp, shift, y, y');
    }
  }

  /** The assertion `shift >= 0`, and that no bit is shifted out. */
  lemma NormalizingShift(f: Format, mant: nat)
    requires mant < Pow2(f.Size() - 1)
    ensures mant < Pow2(f.Size()) && Clz(f.Size(), mant) >= 1
    ensures var s := Clz(f.Size(), mant) - 1;
            && BitLength(mant) + s == f.Size() - 1
            && Shl(f.Size(), mant, s) == mant * Pow2(s)
            && if mant == 0 then mant * Pow2(s) == 0 else mant * Pow2(s) > 0 && Normalized(f, mant * Pow2(s))
  {
    Pow2Mono(f.Size() - 1, f.Size());
    BitLengthAtMost(mant, f.Size() - 1);
    var s := Clz(f.Size(), mant) - 1;
    assert BitLength(mant) + s == f.Size() - 1;
    hide Pow2, BitLength, Clz, Shl;
    if mant > 0 {
      ShiftToLength(mant, s, f.Size() - 1);
    }
    ShlExact(f.Size(), mant, s);
  }

  lemma FaithfulFrom(f: Format, n: nat, y: real, p: nat)
    requires Agrees(n, y, p) && Pow2(f.mantSize + 1 + p) <= n
    ensures Faithful(f, n, y, p)
  {
  }

  lemma FaithfulExact(f: Format, n: nat)
    ensures Faithful(f, n, n as real, 0)
  {
    hide Pow2;
    AgreesExact(n, 0);
  }

  lemma PackedConstants(f: Format, neg: bool)
    ensures f.ExpMask() >= 1 && Pack(f, neg, 0, 0) == Encode(f, neg, 0)
    ensures Pack(f, neg, f.ExpMask(), 0) == Encode(f, neg, f.Inf())
  {
    MaskFields(f);
    hide Pow2, Low;
  }

  lemma UnitsAdd(f: Format, exp: int, y: real, z: real, ma: real, mb: real)
    requires Worth(f, exp, y) == ma && Worth(f, exp, z) == mb
    ensures Worth(f, exp, y + z) == ma + mb && Worth(f, exp, y - z) == ma - mb
    ensures y + z == 0.0 <==> ma + mb == 0.0
    ensures y - z == 0.0 <==> ma - mb == 0.0
  {
    hide *;
    var w := Weight(f, exp);
    WorthIs(f, exp, y);
    WorthIs(f, exp, z);
    WorthIs(f, exp, y + z);
    WorthIs(f, exp, y - z);
    assert (y + z) * w == y * w + z * w && (y - z) * w == y * w - z * w;
    RealCompare(0.0, y + z, w);
    RealCompare(0.0, y - z, w);
  }
}
