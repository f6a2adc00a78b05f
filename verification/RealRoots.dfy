/**
 * Correct rounding of a square root without the root itself: rounding only compares a value with the
 * numbers of the format and the points halfway between them, and the root of v compares with m as v
 * compares with the square of m.
 */
module RealRoots {
  import opened Powers
  import opened Floats
  import opened Totality

  function Square(x: real): real {
    x * x
  }

  /** x lies on the side of m on which the root of v lies. */
  predicate SameSide(x: real, v: real, m: real) {
    (m < x <==> Square(m) < v) && (m == x <==> Square(m) == v)
  }

  function Middle(f: Format, free: bool, c: int): real {
    (GridValue(f, free, c) + GridValue(f, free, c + 1)) / 2.0
  }

  /** For the purpose of rounding, x is the root of v. */
  ghost predicate ComparesAsRoot(f: Format, v: real, x: real) {
    x > 0.0 &&
    forall free, c :: InGrid(free, c) ==> SameSide(x, v, GridValue(f, free, c)) && SameSide(x, v, Middle(f, free, c))
  }

  lemma RealSquareLess(x: real, y: real)
    requires x >= 0.0 && y >= 0.0
    ensures x < y <==> Square(x) < Square(y)
    ensures x == y <==> Square(x) == Square(y)
  {
    if x < y {
      RealSquareMono(x, y);
    } else if y < x {
      RealSquareMono(y, x);
    }
  }

  lemma RealSquareMono(x: real, y: real)
    requires 0.0 <= x < y
    ensures x * x < y * y
  {
    assert y * y - x * x == (y - x) * (y + x);
    RealCompare(0.0, y - x, y + x);
  }

  lemma GridNotNegative(f: Format, free: bool, c: int)
    requires InGrid(free, c)
    ensures GridValue(f, free, c) >= 0.0 && Middle(f, free, c) >= 0.0
  {
    hide GridValue;
    GridStep(f, free, c);
    GridSign(f, free, c);
  }

  lemma GridSign(f: Format, free: bool, c: int)
    requires InGrid(free, c)
    ensures GridValue(f, free, c) >= 0.0
  {
    hide *;
    GridBounds(f, free, c);
    var e := Exponent(f, free, c);
    var k := c - (e - 1) * f.Hidden();
    GridAt(f, free, e, k);
    BinadeNotNegative(f, free, e, k);
    RealCompare(k as real, 0.0, Scale(e - f.Bias() - f.mantSize));
  }

  lemma BinadeNotNegative(f: Format, free: bool, e: int, k: int)
    requires InBinade(f, free, e, k)
    ensures 0 <= k < 2 * f.Hidden() && f.Hidden() > 0
  {
  }

  /** A real root compares as the root. */
  lemma RealRootCompares(f: Format, v: real, x: real)
    requires x > 0.0 && Square(x) == v
    ensures ComparesAsRoot(f, v, x)
  {
    hide GridValue, Middle, Square;
    forall free, c | InGrid(free, c)
      ensures SameSide(x, v, GridValue(f, free, c)) && SameSide(x, v, Middle(f, free, c))
    {
      GridNotNegative(f, free, c);
      RealSquareLess(GridValue(f, free, c), x);
      RealSquareLess(Middle(f, free, c), x);
    }
  }

  // ---- only the comparisons matter ---------------------------------------------------------------

  lemma SameRounding(f: Format, free: bool, dir: Direction, v: real, x: real, x': real, u: int)
    requires ComparesAsRoot(f, v, x) && ComparesAsRoot(f, v, x') && RoundsTo(f, free, dir, x, u)
    ensures RoundsTo(f, free, dir, x', u)
  {
    hide GridValue, RoundsTo, SameSide;
    var c := Below(f, free, x);
    GridStep(f, free, c);
    var lo, hi, mid := GridValue(f, free, c), GridValue(f, free, c + 1), Middle(f, free, c);
    assert InGrid(free, c) && InGrid(free, c + 1);
    assert SameSide(x, v, lo) && SameSide(x, v, hi) && SameSide(x, v, mid);
    assert SameSide(x', v, lo) && SameSide(x', v, hi) && SameSide(x', v, mid);
    Sides(x, x', v, lo);
    Sides(x, x', v, hi);
    Sides(x, x', v, mid);
    RoundsBetween(f, free, dir, x, c);
    RoundsBetween(f, free, dir, x', c);
    assert GoesUp(dir, x, lo, hi, c % 2 == 1) == GoesUp(dir, x', lo, hi, c % 2 == 1);
    RoundsToUnique(f, free, dir, x, u, if GoesUp(dir, x, lo, hi, c % 2 == 1) then c + 1 else c);
  }

  lemma Sides(x: real, x': real, v: real, m: real)
    requires SameSide(x, v, m) && SameSide(x', v, m)
    ensures (m < x <==> m < x') && (m == x <==> m == x')
  {
  }

  /** Whatever compares as the root is delivered alike, so the specification leaves no choice. */
  lemma RootsDeliverAlike(f: Format, rm: RoundingMode, v: real, x: real, x': real, r: int,
                          before: set<Flag>, after: set<Flag>)
    requires ComparesAsRoot(f, v, x) && ComparesAsRoot(f, v, x') && Delivers(f, rm, false, x, r, before, after)
    ensures Delivers(f, rm, false, x', r, before, after)
  {
    hide ComparesAsRoot, Square, Middle, GridValue, RoundsTo, RoundingFlags, SameSide, Encode, Clamped, DirectionOf;
    var dir := DirectionOf(rm, false);
    var u, t :| RoundsTo(f, false, dir, x, u) && RoundsTo(f, true, dir, x, t)
      && r == Encode(f, false, Clamped(f, dir, u)) && after == before + RoundingFlags(f, x, u, t);
    SameRounding(f, false, dir, v, x, x', u);
    SameRounding(f, true, dir, v, x, x', t);
    RoundsInGrid(f, false, dir, x, u);
    SameExactness(f, false, v, x, x', u);
    FlagsAlike(f, x, x', u, t);
  }

  lemma RoundsInGrid(f: Format, free: bool, dir: Direction, x: real, u: int)
    requires RoundsTo(f, free, dir, x, u)
    ensures InGrid(free, u)
  {
    hide GridValue;
  }

  lemma SameExactness(f: Format, free: bool, v: real, x: real, x': real, u: int)
    requires ComparesAsRoot(f, v, x) && ComparesAsRoot(f, v, x') && InGrid(free, u)
    ensures GridValue(f, free, u) == x <==> GridValue(f, free, u) == x'
  {
    hide GridValue, SameSide, Middle;
    assert SameSide(x, v, GridValue(f, free, u)) && SameSide(x', v, GridValue(f, free, u));
    Sides(x, x', v, GridValue(f, free, u));
  }

  lemma FlagsAlike(f: Format, x: real, x': real, u: int, t: int)
    requires GridValue(f, false, u) == x <==> GridValue(f, false, u) == x'
    ensures RoundingFlags(f, x, u, t) == RoundingFlags(f, x', u, t)
  {
    hide GridValue;
  }

  // ---- a stand-in for the root -----------------------------------------------------------------------

  function Times(k: nat, w: real): real {
    k as real * w
  }

  function NatSquare(k: nat): nat {
    k * k
  }

  /** In units of w, v is an integer with integer root s, and x is s or lies between s and s + 1. */
  ghost predicate StandsIn(x: real, v: real, w: real, a: nat, s: nat) {
    && w > 0.0 && v == Times(a, Square(w)) && NatSquare(s) <= a < NatSquare(s + 1)
    && (if NatSquare(s) == a then x == Times(s, w) else Times(s, w) < x < Times(s + 1, w))
  }

  /** It compares as the root with every multiple of the unit. */
  lemma StandsInMultiple(x: real, v: real, w: real, a: nat, s: nat, k: nat)
    requires StandsIn(x, v, w, a, s)
    ensures SameSide(x, v, Times(k, w))
  {
    hide Times, NatSquare, Square;
    UnitCompare(k, s, w);
    UnitCompare(k, s + 1, w);
    SquareSide(k, w, a);
    NatSquares(k, s);
    NatSquares(k, s + 1);
  }

  lemma UnitCompare(k: nat, s: nat, w: real)
    requires w > 0.0
    ensures (k < s <==> Times(k, w) < Times(s, w)) && (k == s <==> Times(k, w) == Times(s, w))
  {
    RealCompare(k as real, s as real, w);
  }

  lemma SquareSide(k: nat, w: real, a: nat)
    requires w > 0.0
    ensures Square(Times(k, w)) < Times(a, Square(w)) <==> NatSquare(k) < a
    ensures Square(Times(k, w)) == Times(a, Square(w)) <==> NatSquare(k) == a
  {
    SquareOfTimes(k, w);
    SquarePositive(w);
    hide Square, NatSquare;
    UnitCompare(NatSquare(k), a, Square(w));
  }

  lemma SquareOfTimes(k: nat, w: real)
    ensures Square(Times(k, w)) == Times(NatSquare(k), Square(w))
  {
    RealOfProduct(k, k);
    SquareProduct(k as real, w);
  }

  lemma SquareProduct(a: real, w: real)
    ensures (a * w) * (a * w) == a * a * (w * w)
  {
  }

  lemma SquarePositive(w: real)
    requires w > 0.0
    ensures Square(w) > 0.0
  {
    RealSquareMono(0.0, w);
  }

  lemma NatSquares(s: nat, t: nat)
    ensures s < t <==> NatSquare(s) < NatSquare(t)
    ensures s == t <==> NatSquare(s) == NatSquare(t)
  {
    if s < t {
      MulLe(s, t, s);
      MulLt(s, t, t);
    } else if t < s {
      MulLe(t, s, t);
      MulLt(t, s, s);
    }
  }

  /** And with everything below some multiple that is not above the root. */
  lemma StandsInBelow(x: real, v: real, w: real, a: nat, s: nat, b: nat, m: real)
    requires StandsIn(x, v, w, a, s) && b <= s && 0.0 <= m < Times(b, w)
    ensures SameSide(x, v, m)
  {
    hide Times, NatSquare, Square, StandsIn;
    StandsInMultiple(x, v, w, a, s, b);
    RootNotBelow(x, v, w, a, s, b);
    RealSquareLess(m, Times(b, w));
  }

  lemma RootNotBelow(x: real, v: real, w: real, a: nat, s: nat, b: nat)
    requires StandsIn(x, v, w, a, s) && b <= s
    ensures Times(b, w) <= x
  {
    hide Times, NatSquare, Square;
    UnitCompare(b, s, w);
  }

  // ---- the grid in units of the root's last bit ---------------------------------------------------

  /** The unit of a root whose leading bit has exponent exp. */
  function UnitOf(f: Format, exp: int): (w: real)
    ensures w > 0.0
  {
    Scale(exp - f.Bias() - f.mantSize - f.RndSize())
  }

  /** A number of the grid, the middle to its neighbour, and a bound on both. */
  lemma MiddleAt(f: Format, free: bool, c: int, e: int, k: nat)
    requires InBinade(f, free, e, k) && c == CodeAt(f, e, k)
    ensures var w := e - f.Bias() - f.mantSize;
            && GridValue(f, free, c) == Times(k, Scale(w)) && Middle(f, free, c) == Times(2 * k + 1, Scale(w - 1))
            && GridValue(f, free, c) < Middle(f, free, c) < Times(k + 1, Scale(w))
  {
    hide GridValue, Scale, CodeAt, InBinade;
    var w := e - f.Bias() - f.mantSize;
    CodeSteps(f, free, e, k);
    ScaleSucc(w - 1);
    HalfWay(k as real, Scale(w - 1), Scale(w));
  }

  lemma HalfWay(k: real, h: real, w: real)
    requires w == 2.0 * h && h > 0.0
    ensures (k * w + (k + 1.0) * w) / 2.0 == (2.0 * k + 1.0) * h
    ensures k * w < (2.0 * k + 1.0) * h < (k + 1.0) * w
  {
  }

  /** At or above the root's exponent, everything rounding looks at is a multiple of the unit. */
  lemma MultipleOfUnit(f: Format, exp: int, w: int, k: nat) returns (n: nat)
    requires w >= exp - f.Bias() - f.mantSize - f.RndSize()
    ensures Times(k, Scale(w)) == Times(n, UnitOf(f, exp))
  {
    hide Scale, Pow2, Times;
    var u := exp - f.Bias() - f.mantSize - f.RndSize();
    n := k * Pow2(w - u);
    ScaleAddNat(u, w - u);
    TimesPow2(Scale(u), w - u, k, n, Scale(w));
  }

  lemma TimesPow2(u: real, d: nat, k: nat, n: nat, v: real)
    requires n == k * Pow2(d) && v == Pow2(d) as real * u
    ensures Times(k, v) == Times(n, u)
  {
    hide Pow2;
    RealOfProduct(k, Pow2(d));
    Regroup(k as real, Pow2(d) as real, n as real, u, v);
  }

  lemma Regroup(a: real, b: real, ab: real, c: real, bc: real)
    requires ab == a * b && bc == b * c
    ensures a * bc == ab * c
  {
  }

  /** Below it, everything is below the root's leading bit. */
  lemma BelowLeading(f: Format, exp: int, e: int, k: nat)
    requires e < exp && k < 2 * f.Hidden()
    ensures Times(k + 1, Scale(e - f.Bias() - f.mantSize)) <= Times(Pow2(f.mantSize + f.RndSize()), UnitOf(f, exp))
  {
    hide Scale, Pow2, Times;
    var w := e - f.Bias() - f.mantSize;
    Pow2Succ(f.mantSize);
    UnitCompare(Pow2(f.mantSize + 1), k + 1, Scale(w));
    LeadingBit(w, f.mantSize + 1);
    ScaleMono(w + f.mantSize + 1, exp - f.Bias());
    LeadingBit(exp - f.Bias() - f.mantSize - f.RndSize(), f.mantSize + f.RndSize());
  }

  lemma LeadingBit(w: int, n: nat)
    ensures Scale(w + n) == Times(Pow2(n), Scale(w))
  {
    hide Scale, Pow2;
    ScaleAddNat(w, n);
  }

  lemma StandsInSides(f: Format, exp: int, x: real, v: real, a: nat, s: nat, free: bool, c: int)
    requires StandsIn(x, v, UnitOf(f, exp), a, s) && Pow2(f.mantSize + f.RndSize()) <= s && InGrid(free, c)
    ensures SameSide(x, v, GridValue(f, free, c)) && SameSide(x, v, Middle(f, free, c))
  {
    hide *;
    var e := Exponent(f, free, c);
    var k := c - (e - 1) * f.Hidden();
    GridBounds(f, free, c);
    BinadeNotNegative(f, free, e, k);
    MiddleAt(f, free, c, e, k);
    GridNotNegative(f, free, c);
    var w := UnitOf(f, exp);
    if e >= exp {
      var n := MultipleOfUnit(f, exp, e - f.Bias() - f.mantSize, k);
      var n' := MultipleOfUnit(f, exp, e - f.Bias() - f.mantSize - 1, 2 * k + 1);
      StandsInMultiple(x, v, w, a, s, n);
      StandsInMultiple(x, v, w, a, s, n');
    } else {
      BelowLeading(f, exp, e, k);
      StandsInBelow(x, v, w, a, s, Pow2(f.mantSize + f.RndSize()), GridValue(f, free, c));
      StandsInBelow(x, v, w, a, s, Pow2(f.mantSize + f.RndSize()), Middle(f, free, c));
    }
  }

  /** A value with the right integer root in the right units compares as the root. */
  lemma StandsInCompares(f: Format, exp: int, x: real, v: real, a: nat, s: nat)
    requires StandsIn(x, v, UnitOf(f, exp), a, s) && Pow2(f.mantSize + f.RndSize()) <= s
    ensures ComparesAsRoot(f, v, x)
  {
    hide GridValue, Middle, SameSide, UnitOf, StandsIn, Times, Scale, Pow2;
    RootNotBelow(x, v, UnitOf(f, exp), a, s, Pow2(f.mantSize + f.RndSize()));
    UnitCompare(0, Pow2(f.mantSize + f.RndSize()), UnitOf(f, exp));
    TimesZero(UnitOf(f, exp));
    forall free, c | InGrid(free, c)
      ensures SameSide(x, v, GridValue(f, free, c)) && SameSide(x, v, Middle(f, free, c))
    {
      StandsInSides(f, exp, x, v, a, s, free, c);
    }
  }

  lemma TimesZero(w: real)
    ensures Times(0, w) == 0.0
  {
  }
}
