/** normalize2_sf: normalizing and rounding a mantissa of two words. */
module Normalize2 {
  import opened Powers
  import opened Floats
  import opened Jamming
  import opened Rounding
  import opened DoubleWord

  lemma Normalized2Stands(f: Format, exp: int, wide: nat, s: nat, y: real, p: nat, wide': nat) returns (z: real)
    requires wide > 0 && BitLength(wide) + s == 2 * f.Size() - 1
    requires Faithful(f, wide, y, p) && wide' == wide * Pow2(s)
    ensures StandsFor(f, JamShift(wide', f.Size()), z)
    ensures Worth(f, exp - s, z) == Worth(f, exp - f.Size(), y)
  {
    hide *;
    var y' := y * Pow2(s) as real;
    z := MovedDown(f, exp - s - f.Size(), f.Size(), y');
    WeightShift(f, exp - f.Size(), s, y, y');
    ShiftedAgrees(f, wide, s, y, p, wide', y');
    AgreesJamShift(wide', y', f.RndSize() - 1, f.Size(), z);
    StandsForIs(f, JamShift(wide', f.Size()), z);
  }

  lemma ShiftedAgrees(f: Format, wide: nat, s: nat, big: real, p: nat, wide': nat, big': real)
    requires wide > 0 && BitLength(wide) + s == 2 * f.Size() - 1
    requires Faithful(f, wide, big, p) && wide' == wide * Pow2(s) && big' == big * Pow2(s) as real
    ensures Agrees(wide', big', f.RndSize() - 1 + f.Size())
  {
    hide *;
    FaithfulIs(f, wide, big, p);
    var q := f.RndSize() - 1 + f.Size();
    if p > 0 {
      BitLengthAtLeast(wide, f.mantSize + 1 + p);
      AgreesShl(wide, big, p, s, wide', big');
      AgreesWeaken(wide', big', p + s, q);
    } else {
      ExactShl(wide, big, s, wide', big');
      AgreesExact(wide', q);
    }
  }

  /** The shift count, and that the shifted number fills the high word to bit F_SIZE - 2. */
  lemma Normalizing2Shift(f: Format, mant1: nat, mant0: nat)
    requires mant1 < Pow2(f.Size() - 1) && mant0 < Pow2(f.Size())
    ensures mant1 < Pow2(f.Size())
    ensures var l := if mant1 == 0 then f.Size() + Clz(f.Size(), mant0) else Clz(f.Size(), mant1);
            var wide := Wide(f.Size(), mant1, mant0);
            && l >= 1 && BitLength(wide) + (l - 1) == 2 * f.Size() - 1
            && (wide == 0 <==> mant1 == 0 && mant0 == 0)
            && (l > f.Size() ==> mant1 == 0)
            && (wide > 0 ==> Pow2(2 * f.Size() - 2) <= wide * Pow2(l - 1) < Pow2(2 * f.Size() - 1))
  {
    Pow2Mono(f.Size() - 1, f.Size());
    BitLengthAtMost(mant1, f.Size() - 1);
    BitLengthAtMost(mant0, f.Size());
    WideLength(f.Size(), mant1, mant0);
    var wide := Wide(f.Size(), mant1, mant0);
    if wide > 0 {
      ShiftToLength(wide, 2 * f.Size() - 1 - BitLength(wide), 2 * f.Size() - 1);
    }
    hide Pow2, Wide, BitLength;
    WideIs(f.Size(), mant1, mant0);
  }

  /** The bits normalize2_sf hands on are the shifted number's high word with the rest jammed in. */
  lemma HighWord(f: Format, mant1: nat, mant0: nat, s: nat)
    requires mant0 < Pow2(f.Size())
    requires Wide(f.Size(), mant1, mant0) * Pow2(s) < Pow2(2 * f.Size() - 1)
    requires s >= f.Size() ==> mant1 == 0
    ensures s <= f.Size() ==> Shr(mant0, f.Size() - s) < Pow2(s) && Low(Shl(f.Size(), mant1, s), s) == 0
    ensures JamShift(Wide(f.Size(), mant1, mant0) * Pow2(s), f.Size()) ==
            if s == 0 then Jam(mant1, mant0 != 0)
            else if s < f.Size() then
              Jam(Or(Shl(f.Size(), mant1, s), Shr(mant0, f.Size() - s), s), Shl(f.Size(), mant0, s) != 0)
            else Shl(f.Size(), mant0, s - f.Size())
  {
    var wide := Wide(f.Size(), mant1, mant0);
    if s <= f.Size() {
      HighFits(f.Size(), mant1, mant0, s);
      WideShl(f.Size(), mant1, mant0, s);
      WideShr(f.Size(), Or(Shl(f.Size(), mant1, s), Shr(mant0, f.Size() - s), s), Shl(f.Size(), mant0, s));
    }
    if s == 0 {
      WideShr(f.Size(), mant1, mant0);
      assert Pow2(0) == 1;
    } else if s >= f.Size() {
      LowOnly(f, mant0, s);
    }
    hide Pow2, Shr, Low, Shl, Wide, Or;
  }

  lemma HighFits(size: nat, mant1: nat, mant0: nat, s: nat)
    requires size > 0 && Wide(size, mant1, mant0) * Pow2(s) < Pow2(2 * size - 1)
    ensures mant1 * Pow2(s) < Pow2(size)
  {
    hide *;
    WideIs(size, mant1, mant0);
    Pow2Add(size, size);
    Pow2Mono(2 * size - 1, 2 * size);
    MulLe(mant1 * Pow2(size), Wide(size, mant1, mant0), Pow2(s));
    assert mant1 * Pow2(size) * Pow2(s) == mant1 * Pow2(s) * Pow2(size);
    MulCompare(mant1 * Pow2(s), Pow2(size), Pow2(size));
  }

  lemma LowOnly(f: Format, mant0: nat, s: nat)
    requires s >= f.Size() && Wide(f.Size(), 0, mant0) * Pow2(s) < Pow2(2 * f.Size() - 1)
    ensures JamShift(Wide(f.Size(), 0, mant0) * Pow2(s), f.Size()) == Shl(f.Size(), mant0, s - f.Size())
  {
    hide *;
    var size := f.Size();
    var t := s - size;
    WideIs(size, 0, mant0);
    Pow2Add(t, size);
    Pow2Add(size, size);
    Pow2Mono(2 * size - 1, 2 * size);
    MulAssoc(mant0, Pow2(t), Pow2(size));
    var high := mant0 * Pow2(t);
    assert mant0 * Pow2(s) == high * Pow2(size);
    MulCompare(high, Pow2(size), Pow2(size));
    ShlExact(size, mant0, t);
    JamShiftExact(high, size);
  }

  lemma JamShiftExact(high: nat, size: nat)
    ensures JamShift(high * Pow2(size), size) == high
  {
    hide *;
    ShrUnique(high * Pow2(size), size, high, 0);
    JamShiftIs(high * Pow2(size), size);
    JamFalse(high);
  }

  /** normalize2_sf: y counts units of the low word. */
  method Normalize2Sf(f: Format, neg: bool, exp: int, mant1: nat, mant0: nat, rm: RoundingMode, fflags: set<Flag>)
    returns (r: nat, fl: set<Flag>)
    requires mant1 < Pow2(f.Size() - 1) && mant0 < Pow2(f.Size())
    ensures mant1 == 0 && mant0 == 0 ==> r == Encode(f, neg, 0) && fl == fflags
    ensures forall y: real, p: nat ::
              Wide(f.Size(), mant1, mant0) > 0 && Faithful(f, Wide(f.Size(), mant1, mant0), y, p) ==>
              Delivers(f, rm, neg, Worth(f, exp - f.Size(), y), r, fflags, fl)
  {
    hide Pow2, BitLength, Clz, Shl, Shr, Low, Or, Wide, Jam, JamShift, Normalized, Faithful, StandsFor, Delivers, Worth,
      Encode;
    Normalizing2Shift(f, mant1, mant0);
    var l := if mant1 == 0 then f.Size() + Clz(f.Size(), mant0) else Clz(f.Size(), mant1);
    var shift := l - 1;
    ghost var wide := Wide(f.Size(), mant1, mant0);
    ghost var wide' := wide * Pow2(shift);
    HighWord(f, mant1, mant0, shift);
    var aMant1, aMant0 := mant1, mant0;
    if shift == 0 {
      aMant1 := Jam(aMant1, aMant0 != 0);
    } else if shift < f.Size() {
      aMant1 := Or(Shl(f.Size(), aMant1, shift), Shr(aMant0, f.Size() - shift), shift);
      aMant0 := Shl(f.Size(), aMant0, shift);
      aMant1 := Jam(aMant1, aMant0 != 0);
    } else {
      aMant1 := Shl(f.Size(), aMant0, shift - f.Size());
    }
    HighNormalized(f, wide');
    r, fl := RoundPackSf(f, neg, exp - shift, aMant1, rm, fflags);
    forall y: real, p: nat | wide > 0 && Faithful(f, wide, y, p)
      ensures Delivers(f, rm, neg, Worth(f, exp - f.Size(), y), r, fflags, fl)
    {
      var z := Normalized2Stands(f, exp, wide, shift, y, p, wide');
    }
  }

  lemma HighNormalized(f: Format, wide: nat)
    requires wide == 0 || Pow2(2 * f.Size() - 2) <= wide < Pow2(2 * f.Size() - 1)
    ensures if wide == 0 then JamShift(wide, f.Size()) == 0
            else JamShift(wide, f.Size()) > 0 && Normalized(f, JamShift(wide, f.Size()))
  {
    hide *;
    var size := f.Size();
    if wide == 0 {
      JamShiftZero(size);
    } else {
      JamRange(wide, size, size - 2);
      NormalizedIs(f, JamShift(wide, size));
    }
  }

  lemma JamShiftZero(d: nat)
    ensures JamShift(0, d) == 0
  {
    ShrUnique(0, d, 0, 0);
    hide Pow2, Shr, Low;
  }
}
