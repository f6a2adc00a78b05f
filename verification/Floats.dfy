/**
 * Binary interchange formats and what IEEE 754-2008 asks of a rounded result.
 * Nothing here mentions how the library computes: the members below are the
 * reference against which every operation is proved.
 */
module Floats {
  import opened Powers

  /** MANT_SIZE and EXP_SIZE; the sign takes one more bit. */
  datatype Layout = Layout(mantSize: nat, expSize: nat) {
    /** F_SIZE */
    function Size(): (s: nat)
      ensures s == 1 + expSize + mantSize
    {
      1 + expSize + mantSize
    }

    /** RND_SIZE: the bits kept below the mantissa, F_SIZE - 2 - MANT_SIZE */
    function RndSize(): (r: int)
      ensures r == expSize - 1
    {
      expSize - 1
    }

    function Hidden(): (h: nat)
      ensures h == Pow2(mantSize)
    {
      Pow2(mantSize)
    }

    function ExpMask(): int { Pow2(expSize) - 1 }

    /** EXP_MASK / 2 */
    function Bias(): int { if expSize == 0 then 0 else Pow2(expSize - 1) - 1 }

    /** The magnitude bits of infinity; those of finite numbers are below it. */
    function Inf(): int { ExpMask() * Hidden() }

    function SignBit(): nat { Pow2(expSize + mantSize) }
  }

  /** Every format with at least four rounding bits, which covers all the widths instantiated. */
  type Format = f: Layout | f.mantSize >= 1 && f.expSize >= 5 witness Layout(23, 8)

  const BINARY32: Format := Layout(23, 8)
  const BINARY64: Format := Layout(52, 11)
  const BINARY128: Format := Layout(112, 15)

  datatype RoundingMode = RNE | RTZ | RDN | RUP | RMM

  datatype Flag = Inexact | Underflow | Overflow | DivideByZero | Invalid

  /** What a rounding mode does to a magnitude. */
  datatype Direction = Down | Up | NearestEven | NearestAway

  function DirectionOf(rm: RoundingMode, neg: bool): Direction {
    match rm
    case RNE => NearestEven
    case RMM => NearestAway
    case RTZ => Down
    case RDN => if neg then Up else Down
    case RUP => if neg then Down else Up
  }

  // ---- the numbers a format can express ------------------------------------------

  /**
   * A magnitude is named by its exponent and mantissa bits read as one integer, its code.
   * On the gradual grid (the format's own numbers, continued upwards without bound) the
   * codes are the naturals and the lowest binade is subnormal; on the free grid the
   * exponent range has no lower end either and every significand has its leading bit.
   */
  function Exponent(f: Format, free: bool, c: int): int {
    var e := c / f.Hidden();
    if !free && e < 1 then 1 else e
  }

  predicate InGrid(free: bool, c: int) {
    free || c >= 0
  }

  function GridValue(f: Format, free: bool, c: int): real {
    var e := Exponent(f, free, c);
    (c - (e - 1) * f.Hidden()) as real * Scale(e - f.Bias() - f.mantSize)
  }

  // ---- correct rounding ----------------------------------------------------------

  function Distance(x: real, y: real): real {
    if x <= y then y - x else x - y
  }

  /** Code c is where magnitude x goes in the given direction (section 4.3 of IEEE 754-2008). */
  ghost predicate RoundsTo(f: Format, free: bool, dir: Direction, x: real, c: int) {
    var v := GridValue(f, free, c);
    InGrid(free, c) &&
    match dir
    case Down =>
      v <= x && forall d :: InGrid(free, d) && GridValue(f, free, d) <= x ==> GridValue(f, free, d) <= v
    case Up =>
      x <= v && forall d :: InGrid(free, d) && x <= GridValue(f, free, d) ==> v <= GridValue(f, free, d)
    case NearestEven =>
      forall d :: InGrid(free, d) && d != c ==>
        var dist := Distance(x, GridValue(f, free, d));
        Distance(x, v) < dist || (Distance(x, v) == dist && c % 2 == 0)
    case NearestAway =>
      forall d :: InGrid(free, d) && d != c ==>
        var dist := Distance(x, GridValue(f, free, d));
        Distance(x, v) < dist || (Distance(x, v) == dist && GridValue(f, free, d) < v)
  }

  /** The bits of a number: its sign above its code. */
  function Encode(f: Format, neg: bool, c: int): int {
    (if neg then f.SignBit() else 0) + c
  }

  /** The code delivered when rounding, as if the exponent had no upper bound, gives u (section 7.4). */
  function Clamped(f: Format, dir: Direction, u: int): int {
    if u < f.Inf() then u else if dir == Down then f.Inf() - 1 else f.Inf()
  }

  /** Overflow (7.4), underflow with tininess detected after rounding (7.5), inexact (7.6). */
  ghost function RoundingFlags(f: Format, x: real, u: int, t: int): set<Flag> {
    (if u >= f.Inf() then {Overflow, Inexact} else if GridValue(f, false, u) != x then {Inexact} else {}) +
    (if t < f.Hidden() && GridValue(f, false, u) != x then {Underflow} else {})
  }

  /**
   * The bits r, and the flags after, are what IEEE 754-2008 prescribes for an operation whose
   * infinitely precise result is x > 0 with the given sign. Here u is x rounded to the format's
   * own grid without an upper end, t is x rounded with no limit on the exponent at all.
   */
  ghost predicate Delivers(f: Format, rm: RoundingMode, neg: bool, x: real, r: int,
                           before: set<Flag>, after: set<Flag>) {
    var dir := DirectionOf(rm, neg);
    exists u, t ::
      && RoundsTo(f, false, dir, x, u)
      && RoundsTo(f, true, dir, x, t)
      && r == Encode(f, neg, Clamped(f, dir, u))
      && after == before + RoundingFlags(f, x, u, t)
  }

  /** The same for a result of either sign; an exact zero has no sign of its own. */
  ghost predicate DeliversReal(f: Format, rm: RoundingMode, v: real, zeroNeg: bool, r: int,
                               before: set<Flag>, after: set<Flag>) {
    if v == 0.0 then r == Encode(f, zeroNeg, 0) && after == before
    else Delivers(f, rm, v < 0.0, if v < 0.0 then -v else v, r, before, after)
  }

  /** The code of significand m at exponent e. */
  function CodeAt(f: Format, e: int, m: int): int {
    m + (e - 1) * f.Hidden()
  }

  /** Significand k can stand at exponent e. */
  predicate InBinade(f: Format, free: bool, e: int, k: int) {
    (free || e >= 1) &&
    (f.Hidden() <= k < 2 * f.Hidden() || (!free && e == 1 && 0 <= k < f.Hidden()))
  }

  // ---- properties of the grid ----------------------------------------------------

  /** Significand k with exponent e, where k may also be one past the end of its binade. */
  lemma GridAt(f: Format, free: bool, e: int, k: int)
    requires InBinade(f, free, e, k) || InBinade(f, free, e, k - 1)
    ensures InGrid(free, CodeAt(f, e, k))
    ensures GridValue(f, free, CodeAt(f, e, k)) == k as real * Scale(e - f.Bias() - f.mantSize)
  {
    var h := f.Hidden();
    var c := CodeAt(f, e, k);
    assert c == k + (e - 1) * h;
    hide Scale, Pow2, CodeAt, GridValue;
    MulSucc(e, h);
    if !free {
      MulLe(0, e - 1, h);
    }
    if k < h {
      DivModUnique(c, h, e - 1, k);
      GridWithin(f, free, 1, k, h, c);
    } else if k < 2 * h {
      DivModUnique(c, h, e, k - h);
      GridWithin(f, free, e, k, h, c);
    } else {
      DivModUnique(c, h, e + 1, 0);
      NextBinade(f, free, e, k, h, c);
    }
  }

  lemma GridWithin(f: Format, free: bool, e: int, k: int, h: int, c: int)
    requires h == f.Hidden() && c == k + (e - 1) * h && Exponent(f, free, c) == e
    ensures GridValue(f, free, c) == k as real * Scale(e - f.Bias() - f.mantSize)
  {
    hide Scale, Pow2, Exponent;
  }

  /** One past the end of a binade is the start of the next. */
  lemma NextBinade(f: Format, free: bool, e: int, k: int, h: int, c: int)
    requires h == f.Hidden() && k == 2 * h && c == (e + 1) * h && c / h == e + 1 && (free || e >= 1)
    ensures GridValue(f, free, c) == k as real * Scale(e - f.Bias() - f.mantSize)
  {
    hide Scale, Pow2;
    MulSucc(e, h);
    var w := e - f.Bias() - f.mantSize;
    ScaleSucc(w);
    assert Exponent(f, free, c) == e + 1;
    TwiceProduct(h as real, Scale(w), Scale(w + 1), h as real * Scale(w), k as real * Scale(w));
  }

  /** Neighbouring codes are one unit in the last place apart. */
  lemma GridStep(f: Format, free: bool, c: int)
    requires InGrid(free, c)
    ensures GridValue(f, free, c + 1) == GridValue(f, free, c) + Scale(Exponent(f, free, c) - f.Bias() - f.mantSize)
    ensures GridValue(f, free, c) < GridValue(f, free, c + 1)
  {
    hide *;
    var h := f.Hidden();
    var e := Exponent(f, free, c);
    var k := c - (e - 1) * h;
    GridBounds(f, free, c);
    CodeSteps(f, free, e, k);
    NextMultiple(k, Scale(e - f.Bias() - f.mantSize));
  }

  /** A significand and its successor, which may open the next binade. */
  lemma CodeSteps(f: Format, free: bool, e: int, k: int)
    requires InBinade(f, free, e, k)
    ensures InGrid(free, CodeAt(f, e, k)) && CodeAt(f, e, k) + 1 == CodeAt(f, e, k + 1)
    ensures GridValue(f, free, CodeAt(f, e, k)) == k as real * Scale(e - f.Bias() - f.mantSize)
    ensures GridValue(f, free, CodeAt(f, e, k + 1)) == (k + 1) as real * Scale(e - f.Bias() - f.mantSize)
  {
    hide *;
    CodeSucc(f, e, k);
    GridAt(f, free, e, k);
    GridAt(f, free, e, k + 1);
  }

  lemma CodeSucc(f: Format, e: int, k: int)
    ensures CodeAt(f, e, k) + 1 == CodeAt(f, e, k + 1)
  {
  }

  lemma CodeParity(f: Format, e: int, k: int)
    ensures CodeAt(f, e, k) % 2 == k % 2
  {
    var h := f.Hidden();
    assert h == 2 * Pow2(f.mantSize - 1);
    assert (e - 1) * h == 2 * ((e - 1) * Pow2(f.mantSize - 1));
  }

  lemma NextMultiple(k: int, s: real)
    requires s > 0.0
    ensures (k + 1) as real * s == k as real * s + s
  {
  }

  /** The significand of a code is within its binade. */
  lemma GridBounds(f: Format, free: bool, c: int)
    requires InGrid(free, c)
    ensures var e := Exponent(f, free, c);
            var k := c - (e - 1) * f.Hidden();
            InBinade(f, free, e, k) && CodeAt(f, e, k) == c
  {
    var h := f.Hidden();
    assert c == c / h * h + c % h;
    assert (c / h - 1) * h == c / h * h - h;
    if !free && c / h < 1 {
      if c / h < 0 {
        MulLe(c / h, -1, h);
      }
    }
  }

  lemma {:induction false} GridMono(f: Format, free: bool, c: int, d: int)
    requires InGrid(free, c) && c < d
    ensures GridValue(f, free, c) < GridValue(f, free, d)
    decreases d - c
  {
    hide GridValue;
    GridStep(f, free, c);
    if c + 1 < d {
      GridMono(f, free, c + 1, d);
    }
  }

  // ---- properties of rounding ----------------------------------------------------

  /** Whether a value between neighbours lo and hi goes to hi. */
  predicate GoesUp(dir: Direction, x: real, lo: real, hi: real, odd: bool) {
    match dir
    case Down => false
    case Up => x != lo
    case NearestEven => x - lo > hi - x || (x - lo == hi - x && odd)
    case NearestAway => x - lo >= hi - x
  }

  /** Looking at the two neighbours of x is enough to find where it rounds. */
  lemma RoundsBetween(f: Format, free: bool, dir: Direction, x: real, c: int)
    requires InGrid(free, c)
    requires GridValue(f, free, c) <= x < GridValue(f, free, c + 1)
    ensures RoundsTo(f, free, dir, x,
                     if GoesUp(dir, x, GridValue(f, free, c), GridValue(f, free, c + 1), c % 2 == 1) then c + 1 else c)
  {
    hide GridValue;
    forall d | InGrid(free, d)
      ensures d < c ==> GridValue(f, free, d) < GridValue(f, free, c)
      ensures d > c + 1 ==> GridValue(f, free, d) > GridValue(f, free, c + 1)
    {
      if d < c {
        GridMono(f, free, d, c);
      } else if d > c + 1 {
        GridMono(f, free, c + 1, d);
      }
    }
  }

  /** The specification leaves no choice. */
  lemma RoundsToUnique(f: Format, free: bool, dir: Direction, x: real, c: int, d: int)
    requires RoundsTo(f, free, dir, x, c) && RoundsTo(f, free, dir, x, d)
    ensures c == d
  {
    hide GridValue;
    if c != d {
      var a, b := if c < d then c else d, if c < d then d else c;
      GridMono(f, free, a, b);
      GridStep(f, free, a);
      if a + 1 < b {
        GridMono(f, free, a + 1, b);
      }
    }
  }

  /** A correctly rounded result and its flags are functions of the exact value. */
  lemma DeliversUnique(f: Format, rm: RoundingMode, neg: bool, x: real, r: int, r': int,
                       before: set<Flag>, after: set<Flag>, after': set<Flag>)
    requires Delivers(f, rm, neg, x, r, before, after)
    requires Delivers(f, rm, neg, x, r', before, after')
    ensures r == r' && after == after'
  {
    var dir := DirectionOf(rm, neg);
    var u, t :| RoundsTo(f, false, dir, x, u) && RoundsTo(f, true, dir, x, t)
      && r == Encode(f, neg, Clamped(f, dir, u)) && after == before + RoundingFlags(f, x, u, t);
    var u', t' :| RoundsTo(f, false, dir, x, u') && RoundsTo(f, true, dir, x, t')
      && r' == Encode(f, neg, Clamped(f, dir, u')) && after' == before + RoundingFlags(f, x, u', t');
    hide *;
    RoundsToUnique(f, false, dir, x, u, u');
    RoundsToUnique(f, true, dir, x, t, t');
  }

  /** A number of the grid rounds to itself in every mode. */
  lemma ExactRounds(f: Format, free: bool, dir: Direction, c: int)
    requires InGrid(free, c)
    ensures RoundsTo(f, free, dir, GridValue(f, free, c), c)
  {
    hide GridValue;
    GridStep(f, free, c);
    RoundsBetween(f, free, dir, GridValue(f, free, c), c);
  }

  lemma BiasIs(f: Format)
    ensures f.Bias() == Pow2(f.expSize - 1) - 1
  {
  }
}
