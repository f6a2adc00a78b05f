/** Numbers held in two machine words. */
module DoubleWord {
  import opened Powers

  /** Two words as one number. */
  function Wide(size: nat, hi: nat, lo: nat): nat {
    hi * Pow2(size) + lo
  }

  lemma WideShr(size: nat, hi: nat, lo: nat)
    requires lo < Pow2(size)
    ensures Shr(Wide(size, hi, lo), size) == hi && Low(Wide(size, hi, lo), size) == lo
  {
    hide Pow2;
    ShrUnique(Wide(size, hi, lo), size, hi, lo);
  }

  lemma WideLength(size: nat, hi: nat, lo: nat)
    requires lo < Pow2(size)
    ensures BitLength(Wide(size, hi, lo)) == if hi == 0 then BitLength(lo) else size + BitLength(hi)
  {
    if hi > 0 {
      var k := BitLength(hi);
      assert Pow2(k - 1) <= hi < Pow2(k);
      hide *;
      WideBounds(size, hi, lo, Pow2(k - 1), Pow2(k));
      Pow2Add(k - 1, size);
      Pow2Add(k, size);
      BitLengthIs(Wide(size, hi, lo), size + k);
    }
  }

  lemma WideBounds(size: nat, hi: nat, lo: nat, a: nat, b: nat)
    requires lo < Pow2(size) && a <= hi < b
    ensures a * Pow2(size) <= Wide(size, hi, lo) < b * Pow2(size)
  {
    hide Pow2;
    MulLe(a, hi, Pow2(size));
    MulLe(hi + 1, b, Pow2(size));
    MulSucc(hi, Pow2(size));
  }

  /** The two parts that a low word splits into when it is shifted up. */
  lemma ShlSplit(size: nat, lo: nat, s: nat)
    requires lo < Pow2(size) && s <= size
    ensures Shr(lo, size - s) < Pow2(s)
    ensures lo * Pow2(s) == Shr(lo, size - s) * Pow2(size) + Shl(size, lo, s)
  {
    hide *;
    var t := size - s;
    var a, b, g := Shr(lo, t), Low(lo, t), Pow2(s);
    Pow2Add(t, s);
    ShrSplit(lo, t);
    MulCompare(a, g, Pow2(t));
    MulLt(b, Pow2(t), g);
    MulLe(0, b, g);
    ShlSplitAlgebra(lo, a, b, g, Pow2(t));
    ShrUnique(lo * g, size, a, b * g);
    ShlIs(size, lo, s);
  }

  lemma ShlSplitAlgebra(lo: int, a: int, b: int, g: int, h: int)
    requires lo == a * h + b
    ensures lo * g == a * (h * g) + b * g
  {
    MulAssoc(a, h, g);
    assert lo * g == a * h * g + b * g;
  }

  /** A left shift of two words by less than a word. */
  lemma WideShl(size: nat, hi: nat, lo: nat, s: nat)
    requires lo < Pow2(size) && s <= size && hi * Pow2(s) < Pow2(size)
    ensures Shr(lo, size - s) < Pow2(s) && Low(Shl(size, hi, s), s) == 0
    ensures Wide(size, hi, lo) * Pow2(s) == Wide(size, Or(Shl(size, hi, s), Shr(lo, size - s), s), Shl(size, lo, s))
  {
    hide *;
    var g := Pow2(s);
    var a := Shr(lo, size - s);
    ShlExact(size, hi, s);
    ShlSplit(size, lo, s);
    ShrUnique(hi * g, s, hi, 0);
    OrIs(hi * g, a, s);
    WideIs(size, hi, lo);
    WideIs(size, hi * g + a, Shl(size, lo, s));
    WideShlAlgebra(hi, lo, a, Shl(size, lo, s), g, Pow2(size));
  }

  lemma WideIs(size: nat, hi: nat, lo: nat)
    ensures Wide(size, hi, lo) == hi * Pow2(size) + lo
  {
  }

  lemma ShlIs(size: nat, a: nat, d: nat)
    ensures Shl(size, a, d) == Low(a * Pow2(d), size)
  {
  }

  lemma OrIs(a: nat, b: nat, d: nat)
    requires Low(a, d) == 0 && b < Pow2(d)
    ensures Or(a, b, d) == a + b
  {
  }

  lemma WideShlAlgebra(hi: int, lo: int, a: int, b: int, g: int, w: int)
    requires lo * g == a * w + b
    ensures (hi * w + lo) * g == (hi * g + a) * w + b
  {
    MulSum(hi * w, lo, g);
    MulSum(hi * g, a, w);
    assert hi * w * g == hi * g * w;
  }

  /** A left shift leaves zeros behind. */
  lemma ShlLow(size: nat, a: nat, d: nat)
    requires d <= size
    ensures Low(Shl(size, a, d), d) == 0
  {
    hide *;
    ShlIs(size, a, d);
    ShrSplit(a * Pow2(d), size);
    Pow2Add(size - d, d);
    var q := Shr(a * Pow2(d), size);
    MulAssoc(q, Pow2(size - d), Pow2(d));
    MulSum(a, q * Pow2(size - d), Pow2(d));
    ShrUnique(Shl(size, a, d), d, a - q * Pow2(size - d), 0);
  }

  /** A right shift of two words by less than a word. */
  lemma WideShrSmall(size: nat, hi: nat, lo: nat, s: nat)
    requires lo < Pow2(size) && s <= size
    ensures Low(Shl(size, hi, size - s), size - s) == 0 && Shr(lo, s) < Pow2(size - s)
    ensures var mid := Or(Shl(size, hi, size - s), Shr(lo, s), size - s);
            && mid < Pow2(size)
            && Shr(Wide(size, hi, lo), s) == Wide(size, Shr(hi, s), mid)
            && Low(Wide(size, hi, lo), s) == Low(lo, s)
  {
    hide *;
    var t := size - s;
    ShlLow(size, hi, t);
    ShrBelow(lo, s, t);
    OrIs(Shl(size, hi, t), Shr(lo, s), t);
    OrBelow(size, Shl(size, hi, t), Shr(lo, s), t);
    var mid := Or(Shl(size, hi, t), Shr(lo, s), t);
    MiddleSplit(size, hi, s);
    ShrSplit(lo, s);
    WideIs(size, hi, lo);
    WideIs(size, Shr(hi, s), mid);
    MiddleAlgebra(hi, Shr(hi, s), Shl(size, hi, t), Shr(lo, s), lo, Low(lo, s), Pow2(s), Pow2(size));
    ShrUnique(Wide(size, hi, lo), s, Wide(size, Shr(hi, s), mid), Low(lo, s));
  }

  lemma OrBelow(size: nat, a: nat, b: nat, d: nat)
    requires d <= size && a < Pow2(size) && Low(a, d) == 0 && b < Pow2(d)
    ensures a + b < Pow2(size)
  {
    hide *;
    ShrSplit(a, d);
    ShrBelow(a, d, size - d);
    Pow2Add(d, size - d);
    var q := Shr(a, d);
    MulLe(q + 1, Pow2(size - d), Pow2(d));
    MulSucc(q, Pow2(d));
  }

  /** What of a high word ends up in the low word. */
  lemma MiddleSplit(size: nat, hi: nat, s: nat)
    requires s <= size
    ensures hi * Pow2(size) == Shr(hi, s) * Pow2(size) * Pow2(s) + Shl(size, hi, size - s) * Pow2(s)
  {
    hide *;
    var t := size - s;
    var q, r := Shr(hi, s), Low(hi, s);
    Pow2Add(s, t);
    ShrSplit(hi, s);
    MulLt(r, Pow2(s), Pow2(t));
    MulLe(0, r, Pow2(t));
    MiddleParts(hi, q, r, Pow2(s), Pow2(t));
    ShrUnique(hi * Pow2(t), size, q, r * Pow2(t));
    ShlIs(size, hi, t);
  }

  lemma MiddleParts(hi: int, q: int, r: int, g: int, h: int)
    requires hi == q * g + r
    ensures hi * h == q * (g * h) + r * h
    ensures hi * (g * h) == q * (g * h) * g + r * h * g
  {
    assert (q * g + r) * h == q * g * h + r * h;
    MulAssoc(q, g, h);
    assert hi * (g * h) == hi * h * g;
    MulSum(q * (g * h), r * h, g);
  }

  lemma MiddleAlgebra(hi: int, q: int, m: int, l: int, lo: int, r: int, g: int, w: int)
    requires hi * w == q * w * g + m * g && lo == l * g + r
    ensures hi * w + lo == (q * w + (m + l)) * g + r
  {
    MulSum(q * w, m + l, g);
    MulSum(m, l, g);
  }

  /** Carry and borrow between the words. */
  lemma WideSum(size: nat, a1: nat, a0: nat, b1: nat, b0: nat)
    requires a0 < Pow2(size) && b0 < Pow2(size)
    ensures var c0 := Low(a0 + b0, size);
            Wide(size, a1 + b1 + (if c0 < b0 then 1 else 0), c0) == Wide(size, a1, a0) + Wide(size, b1, b0)
  {
    hide *;
    var c0 := Low(a0 + b0, size);
    if a0 + b0 < Pow2(size) {
      LowSmall(a0 + b0, size);
    } else {
      ShrUnique(a0 + b0, size, 1, a0 + b0 - Pow2(size));
    }
    var k := if c0 < b0 then 1 else 0;
    WideIs(size, a1, a0);
    WideIs(size, b1, b0);
    WideIs(size, a1 + b1 + k, c0);
    MulSum(a1, b1, Pow2(size));
    MulSum(a1 + b1, k, Pow2(size));
  }

  lemma WideDifference(size: nat, a1: nat, a0: nat, b1: nat, b0: nat)
    requires a0 < Pow2(size) && b0 < Pow2(size) && Wide(size, b1, b0) <= Wide(size, a1, a0)
    ensures var c0 := if a0 >= b0 then a0 - b0 else a0 + Pow2(size) - b0;
            var k := if c0 > a0 then 1 else 0;
            && c0 < Pow2(size) && a1 - b1 - k >= 0
            && Wide(size, a1 - b1 - k, c0) == Wide(size, a1, a0) - Wide(size, b1, b0)
  {
    hide *;
    var c0 := if a0 >= b0 then a0 - b0 else a0 + Pow2(size) - b0;
    var k := if c0 > a0 then 1 else 0;
    WideIs(size, a1, a0);
    WideIs(size, b1, b0);
    MulSum(a1, b1, Pow2(size));
    MulSum(a1 - b1, k, Pow2(size));
    if a1 - b1 - k < 0 {
      MulLe(a1 - b1 - k, -1, Pow2(size));
    } else {
      WideIs(size, a1 - b1 - k, c0);
    }
  }
}
