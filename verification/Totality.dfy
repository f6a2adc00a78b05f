/** Every positive real number has a correctly rounded result, so the specification is never empty. */
module Totality {
  import opened Powers
  import opened Floats

  /** Between which two powers of two a number lies. */
  lemma BinadeOf(x: real) returns (k: int)
    requires x > 0.0
    ensures Scale(k) <= x < Scale(k + 1)
  {
    if x >= 1.0 {
      k := BinadeAbove(x);
    } else {
      var j: int := BinadeAbove(1.0 / x);
      hide *;
      InverseScales(x, j);
      ScaleSucc(0 - j - 1);
      ScaleSucc(0 - j);
      k := if x == Scale(0 - j) then 0 - j else 0 - j - 1;
    }
  }

  lemma InverseScales(x: real, j: int)
    requires 0.0 < x < 1.0 && Scale(j) <= 1.0 / x < Scale(j + 1)
    ensures Scale(0 - j - 1) < x <= Scale(0 - j)
  {
    hide *;
    ScaleAdd(j, 0 - j);
    ScaleAdd(j + 1, 0 - j - 1);
    ScaleZero();
    Reciprocal(x, Scale(j), Scale(j + 1), Scale(0 - j), Scale(0 - j - 1));
  }

  lemma Reciprocal(x: real, a: real, b: real, ra: real, rb: real)
    requires 0.0 < x < 1.0 && a > 0.0 && b > 0.0 && 1.0 == a * ra && 1.0 == b * rb && a <= 1.0 / x < b
    ensures rb < x <= ra
  {
    var y := 1.0 / x;
    assert y * x == 1.0;
    RealCompare(y, b, x);
    RealCompare(a, y, x);
    RealCompare(rb, x, b);
    RealCompare(x, ra, a);
  }

  lemma BinadeAbove(x: real) returns (k: nat)
    requires x >= 1.0
    ensures Scale(k) <= x < Scale(k + 1)
  {
    var n := x.Floor;
    k := BitLength(n) - 1;
    hide Scale;
    ScaleNat(k);
    ScaleNat(k + 1);
  }

  /** The exponent and the significand just below a number on a grid. */
  lemma Below(f: Format, free: bool, x: real) returns (c: int)
    requires x > 0.0
    ensures InGrid(free, c) && GridValue(f, free, c) <= x < GridValue(f, free, c + 1)
  {
    hide *;
    var b := BinadeOf(x);
    var e := if !free && b + f.Bias() < 1 then 1 else b + f.Bias();
    var w := e - f.Bias() - f.mantSize;
    var k := FloorUnits(x, w);
    ScaleAddNat(w, f.mantSize);
    ScaleAddNat(w, f.mantSize + 1);
    ScaleMono(b + 1, w + f.mantSize + 1);
    Pow2Succ(f.mantSize);
    UnitsRange(x, Scale(w), k, f.Hidden(), b == w + f.mantSize);
    BinadeFits(f, free, e, k);
    CodeSteps(f, free, e, k);
    c := CodeAt(f, e, k);
  }

  lemma FloorUnits(x: real, w: int) returns (k: int)
    requires x > 0.0
    ensures k as real * Scale(w) <= x < (k + 1) as real * Scale(w) && k >= 0
  {
    hide *;
    var s := Scale(w);
    var y := x / s;
    assert y * s == x;
    RealCompare(0.0, y, s);
    k := FloorOf(y);
    Rescale(x, y, s, k as real, (k + 1) as real);
  }

  lemma Rescale(x: real, y: real, s: real, lo: real, hi: real)
    requires s > 0.0 && y * s == x && lo <= y < hi
    ensures lo * s <= x < hi * s
  {
    RealCompare(y, lo, s);
    RealCompare(y, hi, s);
  }

  lemma FloorOf(y: real) returns (k: int)
    requires y > 0.0
    ensures k as real <= y < (k + 1) as real && k >= 0
  {
    k := y.Floor;
  }

  lemma UnitsRange(x: real, s: real, k: int, h: nat, normal: bool)
    requires s > 0.0 && k as real * s <= x < (k + 1) as real * s && k >= 0
    requires x < (2 * h) as real * s && (normal ==> h as real * s <= x)
    ensures k < 2 * h && (normal ==> h <= k)
  {
    RealCompare(k as real, (2 * h) as real, s);
    RealCompare(h as real, (k + 1) as real, s);
  }

  lemma BinadeFits(f: Format, free: bool, e: int, k: int)
    requires 0 <= k < 2 * f.Hidden() && (free || e >= 1) && (f.Hidden() <= k || (!free && e == 1))
    ensures InBinade(f, free, e, k)
  {
  }

  lemma RoundsToExists(f: Format, free: bool, dir: Direction, x: real) returns (c: int)
    requires x > 0.0
    ensures RoundsTo(f, free, dir, x, c)
  {
    hide *;
    var b := Below(f, free, x);
    RoundsBetween(f, free, dir, x, b);
    c := if GoesUp(dir, x, GridValue(f, free, b), GridValue(f, free, b + 1), b % 2 == 1) then b + 1 else b;
  }

  /** With DeliversUnique: the rounded result is a total function of the exact value. */
  lemma DeliversExists(f: Format, rm: RoundingMode, neg: bool, x: real, before: set<Flag>)
    returns (r: int, after: set<Flag>)
    requires x > 0.0
    ensures Delivers(f, rm, neg, x, r, before, after)
  {
    var dir := DirectionOf(rm, neg);
    var u := RoundsToExists(f, false, dir, x);
    var t := RoundsToExists(f, true, dir, x);
    r := Encode(f, neg, Clamped(f, dir, u));
    after := before + RoundingFlags(f, x, u, t);
    hide RoundsTo, GridValue;
  }
}
