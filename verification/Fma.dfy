/** fma_sf: fused multiply and add, with one rounding. */
module Fma {
  import opened Powers
  import opened Floats
  import opened Fields
  import opened Jamming
  import opened Rounding
  import opened DoubleWord
  import opened WordProducts
  import opened Normalize2
  import opened Multiplication

  // ---- aligning the smaller operand ---------------------------------------------------------

  /** Both operands of the final addition have their leading bit at bit F_SIZE - 3 of the high word. */
  predicate Leading(f: Format, wide: nat) {
    Pow2(2 * f.Size() - 3) <= wide < Pow2(2 * f.Size() - 2) && Low(wide, 2 * f.RndSize()) == 0
  }

  lemma LeadingIs(f: Format, wide: nat)
    ensures Leading(f, wide) <==>
            Pow2(2 * f.Size() - 3) <= wide < Pow2(2 * f.Size() - 2) && Low(wide, 2 * f.RndSize()) == 0
  {
  }

  /** The branch that shifts by more than a word but less than two. */
  predicate ShiftsLowOut(f: Format, d: nat) {
    f.Size() + 1 <= d < 2 * f.Size()
  }

  /** What that branch keeps: only the high word. */
  function AlignedValue(f: Format, wide: nat, d: nat): nat {
    if ShiftsLowOut(f, d) then JamShift(Shr(wide, f.Size()), d - f.Size()) else JamShift(wide, d)
  }

  /** Shifting out a low word that is zero loses nothing. */
  lemma JamShiftHigh(wide: nat, size: nat, d: nat)
    requires Low(wide, size) == 0 && size <= d
    ensures JamShift(Shr(wide, size), d - size) == JamShift(wide, d)
  {
    DivPow2(wide, size, d - size);
    var q := Shr(wide, size);
    assert Shr(q, d - size) == Shr(wide, d);
    assert Low(wide, d) == Low(q, d - size) * Pow2(size);
    hide Pow2, Shr, Low;
    if Low(q, d - size) != 0 {
      MulLe(1, Low(q, d - size), Pow2(size));
    }
  }

  /** Close together, the aligned operand is exact and not above the larger one. */
  lemma ExactJamShift(f: Format, wr: nat, wc: nat, d: nat, z: real)
    requires Leading(f, wr) && Leading(f, wc) && wc as real == z * Pow2(d) as real
    requires (d == 0 ==> wc <= wr) && d <= 2 * f.RndSize()
    ensures var n := AlignedValue(f, wc, d); z == n as real && n <= wr && wr + n < Pow2(2 * f.Size() - 1)
  {
    hide *;
    LeadingIs(f, wr);
    LeadingIs(f, wc);
    AlignedValueIs(f, wc, d);
    if ShiftsLowOut(f, d) {
      LowZero(wc, 2 * f.RndSize(), f.Size());
      JamShiftHigh(wc, f.Size(), d);
    }
    ExactShift(wc, 2 * f.RndSize(), d, z);
    Pow2Succ(2 * f.Size() - 2);
    Pow2Succ(2 * f.Size() - 3);
  }

  /** A number with enough trailing zeros is shifted without loss. */
  lemma ExactShift(w: nat, k: nat, d: nat, z: real)
    requires Low(w, k) == 0 && d <= k && w as real == z * Pow2(d) as real
    ensures z == JamShift(w, d) as real
    ensures if d == 0 then JamShift(w, d) == w else 2 * JamShift(w, d) <= w
  {
    hide *;
    var n := Shr(w, d);
    LowZero(w, k, d);
    ShrSplit(w, d);
    JamShiftIs(w, d);
    JamFalse(n);
    ScaledSide(n, z, Pow2(d));
    HalfOrLess(n, d, w);
  }

  lemma HalfOrLess(n: nat, d: nat, w: nat)
    requires w == n * Pow2(d)
    ensures d == 0 ==> n == w
    ensures d > 0 ==> 2 * n <= w
  {
    if d == 0 {
      SmallPowers();
    } else {
      Pow2Mono(1, d);
      SmallPowers();
      MulLe(2, Pow2(d), n);
    }
  }

  lemma LowZero(n: nat, k: nat, d: nat)
    requires Low(n, k) == 0 && d <= k
    ensures Low(n, d) == 0
  {
    DivPow2(n, d, k - d);
    hide Pow2;
    MulLe(0, n / Pow2(d) % Pow2(k - d), Pow2(d));
  }

  /** Far apart, the smaller operand is below a bit that the sum keeps. */
  lemma FarBounds(f: Format, wc: nat, d: nat, z: real)
    requires Leading(f, wc) && d > 2 * f.RndSize() && wc as real == z * Pow2(d) as real
    ensures 0.0 < z < Pow2(2 * f.Size() - 10) as real
    ensures JamShift(wc, d) < Pow2(2 * f.Size() - 10)
    ensures d >= f.Size() + 1 ==> z < Pow2(f.Size()) as real && 0 < JamShift(Shr(wc, f.Size()), d - f.Size()) < Pow2(f.Size())
  {
    hide *;
    LeadingIs(f, wc);
    ShiftBelow(wc, 2 * f.Size() - 2, 8, d, z);
    if d >= f.Size() + 1 {
      ShiftBelow(wc, 2 * f.Size() - 2, f.Size() - 2, d, z);
      HighPositive(f, wc, d - f.Size());
    }
  }

  /** A number of l bits shifted right by at least s. */
  lemma ShiftBelow(n: nat, l: nat, s: nat, d: nat, z: real)
    requires 0 < n < Pow2(l) && s <= d && s < l && n as real == z * Pow2(d) as real
    ensures 0.0 < z < Pow2(l - s) as real
    ensures JamShift(n, d) < Pow2(l - s)
  {
    hide *;
    var h := Pow2(d);
    Pow2Mono(s, d);
    Pow2Add(l - s, s);
    Pow2Succ(l - s - 1);
    assert Pow2(l - s) * Pow2(s) <= Pow2(l - s) * h by {
      MulLe(Pow2(s), h, Pow2(l - s));
    }
    ScaledSide(0, z, h);
    ScaledAbove(Pow2(l - s), z, h, n);
    JamBounds(n, d, h, 0, Pow2(l - s));
  }

  lemma ScaledAbove(a: nat, z: real, h: nat, n: nat)
    requires h > 0 && n < a * h && n as real == z * h as real
    ensures z < a as real
  {
    RealOfProduct(a, h);
    RealCompare(z, a as real, h as real);
  }

  lemma HighPositive(f: Format, wc: nat, d: nat)
    requires Leading(f, wc)
    ensures 0 < JamShift(Shr(wc, f.Size()), d) < Pow2(f.Size())
  {
    hide *;
    LeadingIs(f, wc);
    var q := Shr(wc, f.Size());
    ShrBelow(wc, f.Size(), f.Size() - 3);
    ShrBelow(wc, f.Size(), f.Size() - 2);
    Pow2Mono(f.Size() - 2, f.Size());
    Pow2Succ(f.Size() - 1);
    JamShiftPositive(q, d, Pow2(f.Size()));
  }

  lemma JamShiftPositive(q: nat, d: nat, top: nat)
    requires 0 < q < top && top % 2 == 0
    ensures 0 < JamShift(q, d) < top
  {
    hide *;
    MulLe(1, Pow2(d), top);
    JamBounds(q, d, Pow2(d), 0, top);
  }

  /**
   * The sum or difference formed from the aligned operand stands for the exact one. In the branch that
   * drops the low word the dropped bits lie below a nonzero rest, so they cannot decide a rounding.
   */
  lemma AlignedFaithful(f: Format, wr: nat, wc: nat, d: nat, z: real, plus: bool) returns (p: nat)
    requires Leading(f, wr) && Leading(f, wc) && wc as real == z * Pow2(d) as real
    requires d == 0 ==> wc <= wr
    requires Low(wr, f.Size()) == 0 || Low(wc, f.Size()) == 0
    ensures Combines(f, wr, AlignedValue(f, wc, d), z, plus, p)
  {
    hide *;
    if d <= 2 * f.RndSize() {
      p := 0;
      NearFaithful(f, wr, wc, d, z, plus);
    } else if ShiftsLowOut(f, d) && Low(wc, f.Size()) != 0 {
      p := f.Size();
      DroppedFaithful(f, wr, wc, d, z, plus);
    } else {
      p := 1;
      FarFaithful(f, wr, wc, d, z, plus);
    }
  }

  /** What AlignedFaithful promises. */
  ghost predicate Combines(f: Format, wr: nat, n: nat, z: real, plus: bool, p: nat) {
    var m := if plus then wr + n else wr - n;
    var y := if plus then wr as real + z else wr as real - z;
    && n <= wr && 0 <= m < Pow2(2 * f.Size() - 1)
    && (m == 0 <==> y == 0.0) && y >= 0.0
    && Faithful(f, m, y, p)
  }

  lemma NearFaithful(f: Format, wr: nat, wc: nat, d: nat, z: real, plus: bool)
    requires Leading(f, wr) && Leading(f, wc) && wc as real == z * Pow2(d) as real
    requires (d == 0 ==> wc <= wr) && d <= 2 * f.RndSize()
    ensures Combines(f, wr, AlignedValue(f, wc, d), z, plus, 0)
  {
    hide Pow2, Leading, AlignedValue, Faithful, ShiftsLowOut, Low;
    ExactJamShift(f, wr, wc, d, z);
    var n := AlignedValue(f, wc, d);
    FaithfulExact(f, if plus then wr + n else wr - n);
  }

  lemma FarFaithful(f: Format, wr: nat, wc: nat, d: nat, z: real, plus: bool)
    requires Leading(f, wr) && Leading(f, wc) && wc as real == z * Pow2(d) as real
    requires d > 2 * f.RndSize() && (ShiftsLowOut(f, d) ==> Low(wc, f.Size()) == 0)
    ensures Combines(f, wr, AlignedValue(f, wc, d), z, plus, 1)
  {
    hide Pow2, Leading, AlignedValue, Faithful, ShiftsLowOut, Low, Agrees;
    var n := FarAgrees(f, wr, wc, d, z);
    FaithfulFrom(f, if plus then wr + n else wr - n, if plus then wr as real + z else wr as real - z, 1);
  }

  lemma FarAgrees(f: Format, wr: nat, wc: nat, d: nat, z: real) returns (n: nat)
    requires Leading(f, wr) && Leading(f, wc) && wc as real == z * Pow2(d) as real
    requires d > 2 * f.RndSize() && (ShiftsLowOut(f, d) ==> Low(wc, f.Size()) == 0)
    ensures n == AlignedValue(f, wc, d)
    ensures Agrees(wr + n, wr as real + z, 1) && Agrees(wr - n, wr as real - z, 1)
    ensures FarApart(f, wr, n, z) && Pow2(f.mantSize + 2) <= wr - n
  {
    hide *;
    n := AlignedValue(f, wc, d);
    AlignedValueIs(f, wc, d);
    if ShiftsLowOut(f, d) {
      JamShiftHigh(wc, f.Size(), d);
    }
    AgreesExact(wc, 1 + d);
    AgreesJamShift(wc, wc as real, 1, d, z);
    var q := HalfOf(f, wr);
    AgreesOffset(wr, q, n, z, 1);
    FarBounds(f, wc, d, z);
    FarEnds(f, wr, n, z);
  }

  /** The larger operand stays clear of the smaller one. */
  ghost predicate FarApart(f: Format, wr: nat, n: nat, z: real) {
    && n < wr && wr + n < Pow2(2 * f.Size() - 1) && wr as real - z > 0.0 && z > 0.0
  }

  lemma FarEnds(f: Format, wr: nat, n: nat, z: real)
    requires Leading(f, wr) && n < Pow2(2 * f.Size() - 10) && 0.0 < z < Pow2(2 * f.Size() - 10) as real
    ensures FarApart(f, wr, n, z) && Pow2(2 * f.Size() - 4) <= wr - n && Pow2(f.mantSize + 2) <= wr - n
  {
    hide Pow2, Leading, Low;
    LeadingIs(f, wr);
    FarRoom(f);
    Pow2Succ(2 * f.Size() - 2);
    Pow2Succ(2 * f.Size() - 3);
  }

  lemma HalfOf(f: Format, wr: nat) returns (q: nat)
    requires Leading(f, wr)
    ensures Multiple(wr, q, 1)
  {
    LeadingIs(f, wr);
    hide Pow2, Leading, Low, Shr;
    LowZero(wr, 2 * f.RndSize(), 1);
    ShrSplit(wr, 1);
    q := Shr(wr, 1);
  }

  lemma DroppedFaithful(f: Format, wr: nat, wc: nat, d: nat, z: real, plus: bool)
    requires Leading(f, wr) && Leading(f, wc) && wc as real == z * Pow2(d) as real
    requires d > 2 * f.RndSize() && ShiftsLowOut(f, d) && Low(wr, f.Size()) == 0
    ensures Combines(f, wr, AlignedValue(f, wc, d), z, plus, f.Size())
  {
    hide Pow2, Leading, AlignedValue, Faithful, ShiftsLowOut, Low, Agrees;
    var n := DroppedEnds(f, wr, wc, d, z);
    FaithfulFrom(f, if plus then wr + n else wr - n, if plus then wr as real + z else wr as real - z, f.Size());
  }

  lemma DroppedEnds(f: Format, wr: nat, wc: nat, d: nat, z: real) returns (n: nat)
    requires Leading(f, wr) && Leading(f, wc) && wc as real == z * Pow2(d) as real
    requires d > 2 * f.RndSize() && ShiftsLowOut(f, d) && Low(wr, f.Size()) == 0
    ensures n == AlignedValue(f, wc, d) && n < Pow2(f.Size())
    ensures FarApart(f, wr, n, z) && Pow2(f.mantSize + 1 + f.Size()) <= wr - n
    ensures Agrees(wr + n, wr as real + z, f.Size()) && Agrees(wr - n, wr as real - z, f.Size())
  {
    hide *;
    n := AlignedValue(f, wc, d);
    AlignedValueIs(f, wc, d);
    FarBounds(f, wc, d, z);
    DroppedAgrees(f, wr, n, z);
    DroppedRoom(f, wr, n, z);
  }

  lemma DroppedRoom(f: Format, wr: nat, n: nat, z: real)
    requires Leading(f, wr) && n < Pow2(f.Size()) && 0.0 < z < Pow2(f.Size()) as real
    ensures FarApart(f, wr, n, z) && Pow2(f.mantSize + 1 + f.Size()) <= wr - n
  {
    hide Pow2, Leading, Low;
    LeadingIs(f, wr);
    FarRoom(f);
    Pow2Succ(2 * f.Size() - 2);
    Pow2Succ(2 * f.Size() - 3);
    Pow2Succ(2 * f.Size() - 4);
  }

  lemma AlignedValueIs(f: Format, wide: nat, d: nat)
    ensures ShiftsLowOut(f, d) <==> f.Size() + 1 <= d < 2 * f.Size()
    ensures AlignedValue(f, wide, d) ==
            if ShiftsLowOut(f, d) then JamShift(Shr(wide, f.Size()), d - f.Size()) else JamShift(wide, d)
  {
    hide Pow2, JamShift, Shr;
  }

  lemma FarRoom(f: Format)
    ensures 4 * Pow2(2 * f.Size() - 10) <= Pow2(2 * f.Size() - 3)
    ensures Pow2(2 * f.Size() - 4) + Pow2(2 * f.Size() - 10) <= Pow2(2 * f.Size() - 3)
    ensures Pow2(f.mantSize + 2) <= Pow2(2 * f.Size() - 4) && Pow2(f.mantSize + 1 + f.Size()) <= Pow2(2 * f.Size() - 4)
    ensures Pow2(f.Size()) <= Pow2(2 * f.Size() - 4)
  {
    hide *;
    Pow2Mono(2 * f.Size() - 10, 2 * f.Size() - 5);
    Pow2Succ(2 * f.Size() - 5);
    Pow2Succ(2 * f.Size() - 4);
    Pow2Mono(f.mantSize + 2, 2 * f.Size() - 4);
    Pow2Mono(f.mantSize + 1 + f.Size(), 2 * f.Size() - 4);
    Pow2Mono(f.Size(), 2 * f.Size() - 4);
  }

  lemma DroppedAgrees(f: Format, wr: nat, n: nat, z: real)
    requires Low(wr, f.Size()) == 0 && 0 < n < Pow2(f.Size()) && 0.0 < z < Pow2(f.Size()) as real
    ensures Agrees(wr + n, wr as real + z, f.Size()) && Agrees(wr - n, wr as real - z, f.Size())
  {
    hide Pow2, Agrees, Shr, Low;
    var g, q := Pow2(f.Size()), Shr(wr, f.Size());
    ShrSplit(wr, f.Size());
    MulSucc(q, g);
    AgreesIntro(wr + n, wr as real + z, f.Size(), q, wr, wr + g);
    var q': int := q as int - 1;
    AgreesIntro(wr - n, wr as real - z, f.Size(), q', wr - g, wr);
  }

  /** The right shift of the smaller operand. */
  method FmaAlign(f: Format, c1: nat, c0: nat, shift: nat) returns (d1: nat, d0: nat)
    requires c1 < Pow2(f.Size()) && c0 < Pow2(f.Size())
    ensures d1 < Pow2(f.Size()) && d0 < Pow2(f.Size())
    ensures Wide(f.Size(), d1, d0) == AlignedValue(f, Wide(f.Size(), c1, c0), shift)
  {
    hide *;
    AlignLong(f, c1, c0, shift);
    d1, d0 := c1, c0;
    if shift >= 2 * f.Size() {
      d0 := if c0 != 0 || c1 != 0 then 1 else 0;
      d1 := 0;
    } else if shift >= f.Size() + 1 {
      d0 := RshiftRnd(f.Size(), c1, shift - f.Size());
      d1 := 0;
    } else if shift == f.Size() {
      d0 := Jam(c1, c0 != 0);
      d1 := 0;
    } else if shift != 0 {
      AlignShort(f, c1, c0, shift);
      d0 := Or(Shl(f.Size(), c1, f.Size() - shift), Shr(c0, shift), f.Size() - shift);
      d0 := Jam(d0, Low(c0, shift) != 0);
      d1 := Shr(c1, shift);
    }
  }

  lemma WideZero(size: nat, lo: nat)
    ensures Wide(size, 0, lo) == lo
  {
  }

  lemma JamBelow(size: nat, q: nat, sticky: bool)
    requires size >= 1 && q < Pow2(size)
    ensures Jam(q, sticky) < Pow2(size)
  {
    Pow2Succ(size - 1);
    hide Pow2;
  }

  /** Shifts by nothing, by a word or by more. */
  lemma AlignLong(f: Format, c1: nat, c0: nat, shift: nat)
    requires c1 < Pow2(f.Size()) && c0 < Pow2(f.Size())
    ensures var v := AlignedValue(f, Wide(f.Size(), c1, c0), shift);
            && (shift == 0 ==> v == Wide(f.Size(), c1, c0))
            && (shift == f.Size() ==> v == Jam(c1, c0 != 0))
            && (f.Size() < shift < 2 * f.Size() ==> v == JamShift(c1, shift - f.Size()))
            && (shift >= 2 * f.Size() ==> v == if c0 != 0 || c1 != 0 then 1 else 0)
            && (shift >= f.Size() ==> v < Pow2(f.Size()) && Wide(f.Size(), 0, v) == v)
  {
    hide *;
    var size := f.Size();
    var wide := Wide(size, c1, c0);
    AlignedValueIs(f, wide, shift);
    WideShr(size, c1, c0);
    JamShiftIs(wide, size);
    JamBelow(size, c1, c0 != 0);
    WideBelow(size, c1, c0, size);
    WideIs(size, c1, c0);
    if c1 > 0 {
      MulLe(1, c1, Pow2(size));
    }
    JamShiftEnds(2 * size, wide, shift);
    Pow2Mono(1, size);
    SmallPowers();
    WideZero(size, AlignedValue(f, wide, shift));
    if size < shift < 2 * size {
      JamShiftBelow(size, c1, shift - size);
    }
  }

  lemma JamShiftBelow(size: nat, c: nat, d: nat)
    requires size >= 1 && c < Pow2(size)
    ensures JamShift(c, d) < Pow2(size)
  {
    hide *;
    Pow2Succ(size - 1);
    MulLe(1, Pow2(d), Pow2(size));
    JamBounds(c, d, Pow2(d), 0, Pow2(size));
  }

  /** A shift by less than a word. */
  lemma AlignShort(f: Format, c1: nat, c0: nat, s: nat)
    requires c1 < Pow2(f.Size()) && c0 < Pow2(f.Size()) && 0 < s < f.Size()
    ensures Low(Shl(f.Size(), c1, f.Size() - s), f.Size() - s) == 0 && Shr(c0, s) < Pow2(f.Size() - s)
    ensures var d0 := Jam(Or(Shl(f.Size(), c1, f.Size() - s), Shr(c0, s), f.Size() - s), Low(c0, s) != 0);
            && d0 < Pow2(f.Size()) && Shr(c1, s) < Pow2(f.Size())
            && Wide(f.Size(), Shr(c1, s), d0) == AlignedValue(f, Wide(f.Size(), c1, c0), s)
  {
    hide *;
    var size := f.Size();
    WideShrSmall(size, c1, c0, s);
    var mid := Or(Shl(size, c1, size - s), Shr(c0, s), size - s);
    JamBelow(size, mid, Low(c0, s) != 0);
    AlignedValueIs(f, Wide(size, c1, c0), s);
    JamShiftIs(Wide(size, c1, c0), s);
    JamWide(size, Shr(c1, s), mid, Low(c0, s) != 0);
    ShrBelow(c1, s, size);
    Pow2Mono(size, s + size);
  }

  /** The sticky bit of two words goes into the low one. */
  lemma JamWide(size: nat, hi: nat, lo: nat, sticky: bool)
    requires size >= 1
    ensures Jam(Wide(size, hi, lo), sticky) == Wide(size, hi, Jam(lo, sticky))
  {
    hide *;
    Pow2Succ(size - 1);
    EvenProduct(hi, Pow2(size));
    WideIs(size, hi, lo);
    WideIs(size, hi, Jam(lo, sticky));
    JamAbove(hi * Pow2(size), lo, sticky);
  }

  lemma JamAbove(e: nat, lo: nat, sticky: bool)
    requires e % 2 == 0
    ensures Jam(e + lo, sticky) == e + Jam(lo, sticky)
  {
  }

  // ---- the operands ----------------------------------------------------------------------------

  /** A value v held in two words, ready for the final addition. */
  ghost predicate Operand(f: Format, exp: int, hi: nat, lo: nat, v: real) {
    && hi < Pow2(f.Size()) && lo < Pow2(f.Size()) && Leading(f, Wide(f.Size(), hi, lo))
    && Worth(f, exp - f.Size(), Wide(f.Size(), hi, lo) as real) == v
  }

  lemma OperandIs(f: Format, exp: int, hi: nat, lo: nat, v: real)
    ensures Operand(f, exp, hi, lo, v) <==>
            && hi < Pow2(f.Size()) && lo < Pow2(f.Size()) && Leading(f, Wide(f.Size(), hi, lo))
            && Worth(f, exp - f.Size(), Wide(f.Size(), hi, lo) as real) == v
  {
    hide Pow2, Leading, Worth, Wide;
  }

  /** The product, its leading bit moved to F_SIZE - 3. */
  method FmaMultiply(f: Format, ulong: bool, a: nat, b: nat) returns (rExp: int, r1: nat, r0: nat)
    requires IsWord(f, a) && IsWord(f, b) && IsFinite(f, a) && IsFinite(f, b) && !IsZero(f, a) && !IsZero(f, b)
    requires ulong || f.Size() % 2 == 0
    ensures Operand(f, rExp, r1, r0, MagnitudeProduct(f, a, b))
  {
    hide *;
    PreparedNormal(f, a);
    PreparedNormal(f, b);
    var (aExp, aMant) := Prepared(f, ExpField(f, a), MantField(f, a));
    var (bExp, bMant) := Prepared(f, ExpField(f, b), MantField(f, b));
    NormalBounds(f, aExp, aMant, Magnitude(f, a));
    NormalBounds(f, bExp, bMant, Magnitude(f, b));
    rExp := aExp + bExp - Pow2(f.expSize - 1) + 3;
    TopOfWord(f, aMant, f.RndSize());
    TopOfWord(f, bMant, f.RndSize());
    r1, r0 := MulWords(ulong, f.Size(), Shl(f.Size(), aMant, f.RndSize()), Shl(f.Size(), bMant, f.RndSize()));
    ghost var raw := Wide(f.Size(), r1, r0);
    RawProductBounds(f, aMant, bMant, raw);
    WideBelow(f.Size(), r1, r0, f.Size() - 3);
    Pow2Succ(2 * f.Size() - 4);
    Pow2Succ(2 * f.Size() - 3);
    if r1 < Pow2(f.Size() - 3) {
      ShiftOne(f, r1, r0);
      r1 := Or(Shl(f.Size(), r1, 1), Shr(r0, f.Size() - 1), 1);
      r0 := Shl(f.Size(), r0, 1);
      rExp := rExp - 1;
      ProductOperand(f, a, b, aExp, aMant, bExp, bMant, raw, 1, rExp, r1, r0);
    } else {
      ProductOperand(f, a, b, aExp, aMant, bExp, bMant, raw, 0, rExp, r1, r0);
    }
  }

  lemma ShiftOne(f: Format, r1: nat, r0: nat)
    requires r1 < Pow2(f.Size() - 3) && r0 < Pow2(f.Size())
    ensures Shr(r0, f.Size() - 1) < Pow2(1) && Low(Shl(f.Size(), r1, 1), 1) == 0
    ensures var h1 := Or(Shl(f.Size(), r1, 1), Shr(r0, f.Size() - 1), 1);
            && h1 < Pow2(f.Size())
            && Wide(f.Size(), h1, Shl(f.Size(), r0, 1)) == 2 * Wide(f.Size(), r1, r0)
  {
    hide *;
    SmallPowers();
    Pow2Succ(f.Size() - 3);
    Pow2Mono(f.Size() - 2, f.Size());
    WideShl(f.Size(), r1, r0, 1);
    OrIs(Shl(f.Size(), r1, 1), Shr(r0, f.Size() - 1), 1);
    OrBelow(f.Size(), Shl(f.Size(), r1, 1), Shr(r0, f.Size() - 1), 1);
  }

  /** The product of the significands, each at the top of a word. */
  predicate RawProduct(f: Format, ma: nat, mb: nat, raw: nat) {
    raw == ma * mb * Pow2(2 * f.RndSize())
  }

  lemma RawProductBounds(f: Format, ma: nat, mb: nat, raw: nat)
    requires f.Hidden() <= ma < 2 * f.Hidden() && f.Hidden() <= mb < 2 * f.Hidden()
    requires raw == Shl(f.Size(), ma, f.RndSize()) * Shl(f.Size(), mb, f.RndSize())
    ensures RawProduct(f, ma, mb, raw) && Pow2(2 * f.Size() - 4) <= raw < Pow2(2 * f.Size() - 2)
  {
    hide Pow2, Shl;
    WideOfShifted(f, ma, mb, f.RndSize(), f.RndSize(), raw);
  }

  lemma RawProductIs(f: Format, ma: nat, mb: nat, raw: nat)
    ensures RawProduct(f, ma, mb, raw) <==> raw == ma * mb * Pow2(2 * f.RndSize())
  {
  }

  lemma ProductOperand(f: Format, a: nat, b: nat, ea: int, ma: nat, eb: int, mb: nat, raw: nat, k: nat, exp: int,
                       hi: nat, lo: nat)
    requires Normal(f, ea, ma, Magnitude(f, a)) && Normal(f, eb, mb, Magnitude(f, b))
    requires hi < Pow2(f.Size()) && lo < Pow2(f.Size())
    requires RawProduct(f, ma, mb, raw) && ((k == 0 && Wide(f.Size(), hi, lo) == raw) ||
                                            (k == 1 && Wide(f.Size(), hi, lo) == 2 * raw))
    requires exp == ea + eb - Pow2(f.expSize - 1) + 3 - k
    requires Pow2(2 * f.Size() - 3) <= Wide(f.Size(), hi, lo) < Pow2(2 * f.Size() - 2)
    ensures Operand(f, exp, hi, lo, MagnitudeProduct(f, a, b))
  {
    hide *;
    var wide := Wide(f.Size(), hi, lo);
    RawProductIs(f, ma, mb, raw);
    TrailingZeros(ma * mb, 2 * f.RndSize(), k, wide);
    LeadingIs(f, wide);
    BiasIs(f);
    var y := HighUnits(f, exp, wide);
    ProductWorth(f, ea, ma, Magnitude(f, a), eb, mb, Magnitude(f, b), 2 * f.RndSize() + k, wide, y, exp);
    MagnitudeProductIs(f, a, b);
    OperandIs(f, exp, hi, lo, MagnitudeProduct(f, a, b));
  }

  lemma TrailingZeros(p: nat, s: nat, k: nat, wide: nat)
    requires (k == 0 && wide == p * Pow2(s)) || (k == 1 && wide == 2 * (p * Pow2(s)))
    ensures wide == p * Pow2(s + k) && Low(wide, s) == 0
  {
    hide *;
    Pow2Succ(s);
    ShrUnique(wide, s, if k == 0 then p else 2 * p, 0);
    TwiceTimes(p, Pow2(s));
  }

  lemma TwiceTimes(p: int, g: int)
    ensures 2 * (p * g) == 2 * p * g && 2 * (p * g) == p * (2 * g)
  {
  }

  lemma HighUnits(f: Format, exp: int, wide: nat) returns (y: real)
    ensures wide as real == y * Pow2(f.Size()) as real
    ensures Worth(f, exp - f.Size(), wide as real) == Worth(f, exp, y)
  {
    hide *;
    y := MovedDown(f, exp - f.Size(), f.Size(), wide as real);
  }

  /** The addend. */
  lemma AddendOperand(f: Format, c: nat, ec: int, mc: nat, c1: nat)
    requires Normal(f, ec, mc, Magnitude(f, c)) && c1 == Shl(f.Size(), mc, f.RndSize() - 1)
    ensures Operand(f, ec + 1, c1, 0, Magnitude(f, c))
  {
    hide *;
    var k := f.RndSize() - 1;
    NormalIs(f, ec, mc, Magnitude(f, c));
    TopOfWord(f, mc, k);
    var wide := Wide(f.Size(), c1, 0);
    WideIs(f.Size(), c1, 0);
    Pow2Add(k, f.Size());
    MulAssoc(mc, Pow2(k), Pow2(f.Size()));
    ShrUnique(wide, k + f.Size(), mc, 0);
    LowZero(wide, k + f.Size(), 2 * f.RndSize());
    WideBelow(f.Size(), c1, 0, f.Size() - 3);
    WideBelow(f.Size(), c1, 0, f.Size() - 2);
    LeadingIs(f, wide);
    ShiftedValue(mc, wide, k + f.Size(), ec - f.Bias() - f.mantSize);
    WorthIs(f, ec + 1 - f.Size(), wide as real);
    WeightIs(f, ec + 1 - f.Size());
    OperandIs(f, ec + 1, c1, 0, Magnitude(f, c));
  }

  // ---- the final addition --------------------------------------------------------------------------

  /** The exact sum of two magnitudes with the given signs, the first at least as large. */
  function Combined(plus: bool, vr: real, vc: real): real {
    if plus then vr + vc else vr - vc
  }

  lemma CombinedFaithful(f: Format, rExp: int, r1: nat, r0: nat, vr: real, cExp: int, c1: nat, c0: nat, vc: real, plus: bool)
    returns (y: real, p: nat)
    requires Operand(f, rExp, r1, r0, vr) && Operand(f, cExp, c1, c0, vc) && (r0 == 0 || c0 == 0)
    requires cExp < rExp || (cExp == rExp && Wide(f.Size(), c1, c0) <= Wide(f.Size(), r1, r0))
    ensures var wr, n := Wide(f.Size(), r1, r0), AlignedValue(f, Wide(f.Size(), c1, c0), rExp - cExp);
            var m := if plus then wr + n else wr - n;
            && n <= wr && 0 <= m < Pow2(2 * f.Size() - 1)
            && Faithful(f, m, y, p)
            && Worth(f, rExp - f.Size(), y) == Combined(plus, vr, vc)
            && (m == 0 <==> Combined(plus, vr, vc) == 0.0) && Combined(plus, vr, vc) >= 0.0
  {
    hide Pow2, Operand, Wide, Faithful, Worth, AlignedValue, Leading, Low;
    OperandIs(f, rExp, r1, r0, vr);
    OperandIs(f, cExp, c1, c0, vc);
    var wr, wc, d := Wide(f.Size(), r1, r0), Wide(f.Size(), c1, c0), rExp - cExp;
    WideShr(f.Size(), r1, r0);
    WideShr(f.Size(), c1, c0);
    var z := MovedDown(f, cExp - f.Size(), d, wc as real);
    p := AlignedFaithful(f, wr, wc, d, z, plus);
    y := if plus then wr as real + z else wr as real - z;
    UnitsAdd(f, rExp - f.Size(), wr as real, z, vr, vc);
    WorthSign(f, rExp - f.Size(), y);
  }

  lemma WorthSign(f: Format, exp: int, y: real)
    ensures y >= 0.0 ==> Worth(f, exp, y) >= 0.0
  {
    hide *;
    WorthIs(f, exp, y);
  }

  /** Adding the operands, the first at least as large. */
  method FmaCombine(f: Format, rSign: bool, rExp: int, r1: nat, r0: nat, cSign: bool, cExp: int, c1: nat, c0: nat,
                    rm: RoundingMode, fflags: set<Flag>, ghost vr: real, ghost vc: real)
    returns (r: nat, fl: set<Flag>)
    requires Operand(f, rExp, r1, r0, vr) && Operand(f, cExp, c1, c0, vc) && (r0 == 0 || c0 == 0)
    requires cExp < rExp || (cExp == rExp && Wide(f.Size(), c1, c0) <= Wide(f.Size(), r1, r0))
    ensures var x := Combined(rSign == cSign, vr, vc);
            && x >= 0.0
            && (x == 0.0 ==> r == Encode(f, if rSign == cSign then rSign else rm == RDN, 0) && fl == fflags)
            && (x > 0.0 ==> Delivers(f, rm, rSign, x, r, fflags, fl))
  {
    hide *;
    OperandIs(f, rExp, r1, r0, vr);
    OperandIs(f, cExp, c1, c0, vc);
    var size := f.Size();
    var shift := rExp - cExp;
    ghost var y, p := CombinedFaithful(f, rExp, r1, r0, vr, cExp, c1, c0, vc, rSign == cSign);
    var d1, d0 := FmaAlign(f, c1, c0, shift);
    var sign, m1, m0 := rSign, r1, r0;
    if rSign == cSign {
      WideSum(size, r1, r0, d1, d0);
      m0 := Low(r0 + d0, size);
      m1 := r1 + d1 + (if m0 < d0 then 1 else 0);
    } else {
      WideDifference(size, r1, r0, d1, d0);
      m0 := if r0 >= d0 then r0 - d0 else r0 + Pow2(size) - d0;
      m1 := r1 - d1 - (if m0 > r0 then 1 else 0);
      if m0 == 0 && m1 == 0 {
        sign := rm == RDN;
      }
    }
    WideZeroIff(size, m1, m0);
    WideBelow(size, m1, m0, size - 1);
    r, fl := Normalize2Sf(f, sign, rExp, m1, m0, rm, fflags);
    assert Faithful(f, Wide(size, m1, m0), y, p);
  }

  lemma WideZeroIff(size: nat, hi: nat, lo: nat)
    ensures Wide(size, hi, lo) == 0 <==> hi == 0 && lo == 0
  {
    hide Pow2;
    if hi > 0 {
      MulLe(1, hi, Pow2(size));
    }
  }

  // ---- fma_sf -----------------------------------------------------------------------------------------

  /** The sign of an exact zero a * b + c (section 6.3 of IEEE 754-2008). */
  predicate ZeroFmaSign(f: Format, a: nat, b: nat, c: nat, rm: RoundingMode) {
    var rSign := Sign(f, a) != Sign(f, b);
    if rSign == Sign(f, c) then rSign else rm == RDN
  }

  /** Results with an operand that is not finite; an infinity times zero is invalid whatever c is. */
  ghost predicate SpecialFma(f: Format, a: nat, b: nat, c: nat, r: nat, before: set<Flag>, after: set<Flag>) {
    var rSign := Sign(f, a) != Sign(f, b);
    if (IsZero(f, a) && IsInfinite(f, b)) || (IsInfinite(f, a) && IsZero(f, b)) then
      IsDefaultNan(f, r) && after == before + {Invalid}
    else if IsNan(f, a) || IsNan(f, b) || IsNan(f, c) then
      IsDefaultNan(f, r) &&
      after == Raise(before, IsSignaling(f, a) || IsSignaling(f, b) || IsSignaling(f, c), {Invalid})
    else if (IsInfinite(f, a) || IsInfinite(f, b)) && IsInfinite(f, c) && rSign != Sign(f, c) then
      IsDefaultNan(f, r) && after == before + {Invalid}
    else
      r == Encode(f, if IsInfinite(f, c) then Sign(f, c) else rSign, f.Inf()) && after == before
  }

  /** The exact result. */
  function FmaValue(f: Format, a: nat, b: nat, c: nat): real {
    Value(f, a) * Value(f, b) + Value(f, c)
  }

  /** The outcome of a fused multiply-add, for operands of every kind. */
  ghost predicate Fused(f: Format, rm: RoundingMode, a: nat, b: nat, c: nat, r: nat, before: set<Flag>, after: set<Flag>) {
    if IsFinite(f, a) && IsFinite(f, b) && IsFinite(f, c) then
      DeliversReal(f, rm, FmaValue(f, a, b, c), ZeroFmaSign(f, a, b, c, rm), r, before, after)
    else SpecialFma(f, a, b, c, r, before, after)
  }

  /** The sum of a signed product and a signed addend, in magnitudes. */
  lemma FmaSigns(f: Format, a: nat, b: nat, c: nat)
    requires IsWord(f, a) && IsWord(f, b) && IsWord(f, c) && IsFinite(f, a) && IsFinite(f, b) && IsFinite(f, c)
    ensures var rSign := Sign(f, a) != Sign(f, b);
            var p, q := MagnitudeProduct(f, a, b), Magnitude(f, c);
            && p >= 0.0 && q >= 0.0 && (p == 0.0 <==> IsZero(f, a) || IsZero(f, b)) && (q == 0.0 <==> IsZero(f, c))
            && FmaValue(f, a, b, c) == (if rSign then -p else p) + (if Sign(f, c) then -q else q)
  {
    hide Pow2, Magnitude, MagnitudeProduct, IsWord, IsFinite, IsZero, Sign, FmaValue;
    MagnitudeSign(f, c);
    var v := ProductSigns(f, a, b);
    FmaValueIs(f, a, b, c, v);
  }

  lemma FmaValueIs(f: Format, a: nat, b: nat, c: nat, v: real)
    requires v == Value(f, a) * Value(f, b)
    ensures FmaValue(f, a, b, c) == v + Value(f, c)
  {
    hide Value;
  }

  lemma ProductSigns(f: Format, a: nat, b: nat) returns (v: real)
    requires IsWord(f, a) && IsWord(f, b) && IsFinite(f, a) && IsFinite(f, b)
    ensures var p := MagnitudeProduct(f, a, b);
            && v == Value(f, a) * Value(f, b) && p >= 0.0 && (p == 0.0 <==> IsZero(f, a) || IsZero(f, b))
            && v == if Sign(f, a) != Sign(f, b) then -p else p
  {
    hide Pow2, Magnitude, MagnitudeProduct, IsWord, IsFinite, IsZero, Sign;
    v := Value(f, a) * Value(f, b);
    MagnitudeProductIs(f, a, b);
    MagnitudeSign(f, a);
    MagnitudeSign(f, b);
    hide Value;
    ValueIs(f, a);
    ValueIs(f, b);
    SignedProduct(Magnitude(f, a), Magnitude(f, b), Value(f, a), Value(f, b));
  }

  lemma ValueIs(f: Format, a: nat)
    ensures Value(f, a) == if Sign(f, a) then -Magnitude(f, a) else Magnitude(f, a)
  {
  }

  /** Rounding the exact sum of a nonzero product and a nonzero addend. */
  method FmaNonzero(f: Format, ulong: bool, a: nat, b: nat, c: nat, rm: RoundingMode, fflags: set<Flag>) returns (r: nat, fl: set<Flag>)
    requires IsWord(f, a) && IsWord(f, b) && IsWord(f, c) && IsFinite(f, a) && IsFinite(f, b) && IsFinite(f, c)
    requires !IsZero(f, a) && !IsZero(f, b) && !IsZero(f, c)
    requires ulong || f.Size() % 2 == 0
    ensures DeliversReal(f, rm, FmaValue(f, a, b, c), ZeroFmaSign(f, a, b, c, rm), r, fflags, fl)
  {
    hide *;
    var rSign, cSign := Sign(f, a) != Sign(f, b), Sign(f, c);
    var rExp, r1, r0 := FmaMultiply(f, ulong, a, b);
    PreparedNormal(f, c);
    var (cExp, cMant) := Prepared(f, ExpField(f, c), MantField(f, c));
    cExp := cExp + 1;
    var c1, c0 := Shl(f.Size(), cMant, f.RndSize() - 1), 0;
    AddendOperand(f, c, cExp - 1, cMant, c1);
    ghost var p, q := MagnitudeProduct(f, a, b), Magnitude(f, c);
    OperandIs(f, rExp, r1, r0, p);
    WideOrder(f.Size(), r1, r0, c1);
    PowPositive(f.Size());
    if !(rExp > cExp || (rExp == cExp && r1 >= c1)) {
      r, fl := FmaCombine(f, cSign, cExp, c1, c0, rSign, rExp, r1, r0, rm, fflags, q, p);
      FinishFma(f, rm, a, b, c, false, r, fflags, fl);
    } else {
      r, fl := FmaCombine(f, rSign, rExp, r1, r0, cSign, cExp, c1, c0, rm, fflags, p, q);
      FinishFma(f, rm, a, b, c, true, r, fflags, fl);
    }
  }

  lemma PowPositive(n: nat)
    ensures Pow2(n) > 0
  {
  }

  /** Comparing high words is enough against a low word of zero. */
  lemma WideOrder(size: nat, r1: nat, r0: nat, c1: nat)
    requires r0 < Pow2(size)
    ensures r1 >= c1 ==> Wide(size, c1, 0) <= Wide(size, r1, r0)
    ensures r1 < c1 ==> Wide(size, r1, r0) <= Wide(size, c1, 0)
  {
    hide *;
    WideIs(size, c1, 0);
    WideIs(size, r1, r0);
    if r1 >= c1 {
      MulLe(c1, r1, Pow2(size));
    } else {
      MulLe(r1 + 1, c1, Pow2(size));
      MulSucc(r1, Pow2(size));
    }
  }

  /** From magnitudes with a sign for the larger one to the signed result. */
  lemma FinishFma(f: Format, rm: RoundingMode, a: nat, b: nat, c: nat, productFirst: bool, r: nat,
                  before: set<Flag>, after: set<Flag>)
    requires IsWord(f, a) && IsWord(f, b) && IsWord(f, c) && IsFinite(f, a) && IsFinite(f, b) && IsFinite(f, c)
    requires var rSign, cSign := Sign(f, a) != Sign(f, b), Sign(f, c);
             var p, q := MagnitudeProduct(f, a, b), Magnitude(f, c);
             var x := if productFirst then Combined(rSign == cSign, p, q) else Combined(cSign == rSign, q, p);
             var sign := if productFirst then rSign else cSign;
             && x >= 0.0
             && (x == 0.0 ==> r == Encode(f, if rSign == cSign then sign else rm == RDN, 0) && after == before)
             && (x > 0.0 ==> Delivers(f, rm, sign, x, r, before, after))
    ensures DeliversReal(f, rm, FmaValue(f, a, b, c), ZeroFmaSign(f, a, b, c, rm), r, before, after)
  {
    hide Pow2, Magnitude, MagnitudeProduct, IsWord, IsFinite, IsZero, Sign, Encode, Delivers, FmaValue;
    FmaSigns(f, a, b, c);
  }

  /** The product alone, when the addend is zero. */
  method FmaProductOnly(f: Format, ulong: bool, a: nat, b: nat, c: nat, rm: RoundingMode, fflags: set<Flag>) returns (r: nat, fl: set<Flag>)
    requires IsWord(f, a) && IsWord(f, b) && IsWord(f, c) && IsFinite(f, a) && IsFinite(f, b) && IsFinite(f, c)
    requires !IsZero(f, a) && !IsZero(f, b) && IsZero(f, c)
    requires ulong || f.Size() % 2 == 0
    ensures DeliversReal(f, rm, FmaValue(f, a, b, c), ZeroFmaSign(f, a, b, c, rm), r, fflags, fl)
  {
    hide *;
    var rSign := Sign(f, a) != Sign(f, b);
    var rExp, r1, r0 := FmaMultiply(f, ulong, a, b);
    ghost var p := MagnitudeProduct(f, a, b);
    OperandIs(f, rExp, r1, r0, p);
    LeadingIs(f, Wide(f.Size(), r1, r0));
    Pow2Mono(2 * f.Size() - 4, 2 * f.Size() - 3);
    Pow2Mono(2 * f.Size() - 2, 2 * f.Size() - 1);
    ghost var y := HighProductFaithful(f, Wide(f.Size(), r1, r0), r1, r0);
    WeightShift(f, rExp, f.Size(), y, Wide(f.Size(), r1, r0) as real);
    r1 := Jam(r1, r0 != 0);
    r, fl := NormalizeSf(f, rSign, rExp, r1, rm, fflags);
    assert Delivers(f, rm, rSign, p, r, fflags, fl);
    ProductAlone(f, rm, a, b, c, r, fflags, fl);
  }

  lemma ProductAlone(f: Format, rm: RoundingMode, a: nat, b: nat, c: nat, r: nat, before: set<Flag>, after: set<Flag>)
    requires IsWord(f, a) && IsWord(f, b) && IsWord(f, c) && IsFinite(f, a) && IsFinite(f, b) && IsFinite(f, c)
    requires !IsZero(f, a) && !IsZero(f, b) && IsZero(f, c)
    requires Delivers(f, rm, Sign(f, a) != Sign(f, b), MagnitudeProduct(f, a, b), r, before, after)
    ensures DeliversReal(f, rm, FmaValue(f, a, b, c), ZeroFmaSign(f, a, b, c, rm), r, before, after)
  {
    hide Pow2, Magnitude, MagnitudeProduct, IsWord, IsFinite, IsZero, Sign, Encode, Delivers, FmaValue;
    FmaSigns(f, a, b, c);
  }

  /** The addend alone, when the product is zero. */
  lemma AddendAlone(f: Format, rm: RoundingMode, a: nat, b: nat, c: nat, fflags: set<Flag>)
    requires IsWord(f, a) && IsWord(f, b) && IsWord(f, c) && IsFinite(f, a) && IsFinite(f, b) && IsFinite(f, c)
    requires IsZero(f, a) || IsZero(f, b)
    ensures IsZero(f, c) ==> DeliversReal(f, rm, FmaValue(f, a, b, c), ZeroFmaSign(f, a, b, c, rm),
                                          Encode(f, ZeroFmaSign(f, a, b, c, rm), 0), fflags, fflags)
    ensures !IsZero(f, c) ==> DeliversReal(f, rm, FmaValue(f, a, b, c), ZeroFmaSign(f, a, b, c, rm), c, fflags, fflags)
  {
    hide Pow2, Magnitude, MagnitudeProduct, IsWord, IsFinite, IsZero, Sign, Encode, Delivers, FmaValue;
    FmaSigns(f, a, b, c);
    if !IsZero(f, c) {
      ExactDelivers(f, rm, c, fflags);
    }
  }

  /** fma_sf */
  method FmaSf(f: Format, ulong: bool, a: nat, b: nat, c: nat, rm: RoundingMode, fflags: set<Flag>) returns (r: nat, fl: set<Flag>)
    requires IsWord(f, a) && IsWord(f, b) && IsWord(f, c)
    requires ulong || f.Size() % 2 == 0
    ensures Fused(f, rm, a, b, c, r, fflags, fl)
  {
    hide Pow2, Shr, Low, Magnitude, Value, FmaValue, Sign, Code, ExpField, MantField, IsWord, DeliversReal, Delivers,
      Encode, IsSigNanSf, Qnan, IsDefaultNan, Pack;
    KindOfFields(f, a);
    KindOfFields(f, b);
    KindOfFields(f, c);
    IsSigNanSfCorrect(f, a);
    IsSigNanSfCorrect(f, b);
    IsSigNanSfCorrect(f, c);
    var rSign, cSign := Sign(f, a) != Sign(f, b), Sign(f, c);
    PackedConstants(f, rSign);
    PackedConstants(f, cSign);
    PackedConstants(f, rm == RDN);
    var top := f.ExpMask();
    var aZero, bZero, cZero := ExpField(f, a) == 0 && MantField(f, a) == 0, ExpField(f, b) == 0 && MantField(f, b) == 0,
      ExpField(f, c) == 0 && MantField(f, c) == 0;
    fl := fflags;
    if ExpField(f, a) == top || ExpField(f, b) == top || ExpField(f, c) == top {
      if (aZero && ExpField(f, b) == top && MantField(f, b) == 0) ||
         (bZero && ExpField(f, a) == top && MantField(f, a) == 0) {
        r, fl := Qnan(f), fl + {Invalid};
      } else if IsNanSf(f, a) || IsNanSf(f, b) || IsNanSf(f, c) {
        if IsSigNanSf(f, a) || IsSigNanSf(f, b) || IsSigNanSf(f, c) {
          fl := fl + {Invalid};
        }
        r := Qnan(f);
      } else if (ExpField(f, a) == top && bZero) || (ExpField(f, b) == top && aZero) ||
                ((ExpField(f, a) == top || ExpField(f, b) == top) && ExpField(f, c) == top && rSign != cSign) {
        r, fl := Qnan(f), fl + {Invalid};
      } else if ExpField(f, c) == top {
        r := Pack(f, cSign, top, 0);
      } else {
        r := Pack(f, rSign, top, 0);
      }
    } else if aZero || bZero {
      AddendAlone(f, rm, a, b, c, fflags);
      if cZero {
        r := Pack(f, if cSign != rSign then rm == RDN else rSign, 0, 0);
      } else {
        r := c;
      }
    } else if cZero {
      r, fl := FmaProductOnly(f, ulong, a, b, c, rm, fflags);
    } else {
      r, fl := FmaNonzero(f, ulong, a, b, c, rm, fflags);
    }
  }
}
