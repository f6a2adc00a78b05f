/** divrem_u: dividing two words by one. */
module WordDivision {
  import opened Powers
  import opened DoubleWord

  /** One step of the loop: the next dividend bit t moves up, a quotient bit d comes in. */
  lemma StepValue(n: nat, quo: nat, b: nat, x: nat, rem: nat, t: nat, rem': nat, d: nat, x': int)
    requires n >= 1 && rem == Wide(n - 1, t, rem') && 2 * x + t == d * b + x'
    requires x' >= 0
    ensures Wide(n, quo * b + x, rem) == Wide(n - 1, (2 * quo + d) * b + x', rem')
  {
    Pow2Succ(n - 1);
    WideIs(n, quo * b + x, rem);
    WideIs(n - 1, t, rem');
    WideIs(n - 1, (2 * quo + d) * b + x', rem');
    hide *;
    StepAlgebra(quo, b, x, t, d, x', Pow2(n - 1));
  }

  lemma StepAlgebra(quo: int, b: int, x: int, t: int, d: int, x': int, g: int)
    requires 2 * x + t == d * b + x'
    ensures (quo * b + x) * (2 * g) + t * g == ((2 * quo + d) * b + x') * g
  {
    assert (2 * quo + d) * b == 2 * (quo * b) + d * b;
    assert (2 * quo + d) * b + x' == 2 * (quo * b + x) + t;
    assert (2 * (quo * b + x) + t) * g == (quo * b + x) * (2 * g) + t * g;
  }

  /** The word that holds the dividend's remaining bits above the quotient's bits, shifted by one. */
  lemma StepWord(size: nat, i: nat, rem: nat, quo: nat, x0: nat, d: nat)
    requires i < size && x0 == Wide(i, rem, quo) && quo < Pow2(i) && rem < Pow2(size - i) && d <= 1
    ensures var n := size - i - 1;
            var t, rem' := Shr(rem, n), Low(rem, n);
            && x0 < Pow2(size) && Shr(x0, size - 1) == t <= 1 && rem == Wide(n, t, rem')
            && Low(Shl(size, x0, 1), 1) == 0 && d < Pow2(1)
            && Or(Shl(size, x0, 1), d, 1) == Wide(i + 1, rem', 2 * quo + d)
            && 2 * quo + d < Pow2(i + 1)
  {
    hide *;
    var n := size - i - 1;
    var t, rem' := Shr(rem, n), Low(rem, n);
    TopBit(rem, n);
    WideSwap(i, n, t, rem', quo);
    Pow2Succ(i);
    WideLess(i, rem', quo, n);
    WideLess(i, rem, quo, size - i);
    WideShr(size - 1, t, Wide(i, rem', quo));
    Doubled(i, rem', quo, d);
    Pow2Succ(size - 1);
    WideIs(size - 1, t, Wide(i, rem', quo));
    ShlOne(size, x0, t, 2 * Wide(i, rem', quo), d);
  }

  lemma TopBit(rem: nat, n: nat)
    requires rem < Pow2(n + 1)
    ensures Shr(rem, n) <= 1 && rem == Wide(n, Shr(rem, n), Low(rem, n))
  {
    hide *;
    Pow2Succ(n);
    ShrSplit(rem, n);
    WideIs(n, Shr(rem, n), Low(rem, n));
    MulCompare(Shr(rem, n), 2, Pow2(n));
  }

  lemma WideSwap(i: nat, n: nat, t: nat, r: nat, q: nat)
    ensures Wide(i, Wide(n, t, r), q) == Wide(n + i, t, Wide(i, r, q))
  {
    hide *;
    Pow2Add(n, i);
    WideIs(n, t, r);
    WideIs(i, Wide(n, t, r), q);
    WideIs(i, r, q);
    WideIs(n + i, t, Wide(i, r, q));
    MulAssoc(t, Pow2(n), Pow2(i));
    MulSum(t * Pow2(n), r, Pow2(i));
  }

  lemma WideLess(i: nat, r: nat, q: nat, n: nat)
    requires r < Pow2(n) && q < Pow2(i)
    ensures Wide(i, r, q) < Pow2(n + i)
  {
    hide *;
    Pow2Add(n, i);
    WideIs(i, r, q);
    MulLe(r + 1, Pow2(n), Pow2(i));
    MulSucc(r, Pow2(i));
  }

  lemma Doubled(i: nat, r: nat, q: nat, d: nat)
    ensures 2 * Wide(i, r, q) + d == Wide(i + 1, r, 2 * q + d)
  {
    hide *;
    Pow2Succ(i);
    WideIs(i, r, q);
    WideIs(i + 1, r, 2 * q + d);
    assert r * (2 * Pow2(i)) == 2 * (r * Pow2(i));
  }

  lemma ShlOne(size: nat, x: nat, t: nat, low: nat, d: nat)
    requires 2 * x == t * Pow2(size) + low && low < Pow2(size) && size >= 1 && low % 2 == 0 && d <= 1
    ensures Shl(size, x, 1) == low && Low(low, 1) == 0 && d < Pow2(1) && Or(low, d, 1) == low + d
  {
    assert Pow2(1) == 2;
    ShlIs(size, x, 1);
    ShrUnique(2 * x, size, t, low);
    ShrUnique(low, 1, low / 2, 0);
    hide Pow2, Shl, Shr;
    OrIs(low, d, 1);
  }

  /** `(x << 1) | t`, with the bit that leaves the word kept apart. */
  lemma ShiftIn(size: nat, x: nat, t: nat)
    requires size >= 1 && x < Pow2(size) && t <= 1
    ensures Low(Shl(size, x, 1), 1) == 0 && t < Pow2(1) && Shr(x, size - 1) <= 1
    ensures var y := Or(Shl(size, x, 1), t, 1);
            y < Pow2(size) && 2 * x + t == (if Shr(x, size - 1) != 0 then Pow2(size) else 0) + y
  {
    hide *;
    var ab, low := Shr(x, size - 1), Low(x, size - 1);
    Pow2Succ(size - 1);
    ShrSplit(x, size - 1);
    MulCompare(ab, 2, Pow2(size - 1));
    ShlOne(size, x, ab, 2 * low, t);
  }

  /** `a - b` on words. */
  function SubWord(size: nat, a: nat, b: nat): nat
    requires b <= Pow2(size)
  {
    if a >= b then a - b else a + Pow2(size) - b
  }

  lemma DivStart(size: nat, a1: nat, a0: nat, b: nat)
    ensures Wide(0, a0, 0) == a0 && 0 < Pow2(0) && 0 * b + a1 == a1
  {
  }

  lemma DivEnd(size: nat, x1: nat, quo: nat, rem: nat, x0: nat, b: nat)
    requires rem < Pow2(0) && x0 == Wide(size, rem, quo)
    ensures x0 == quo && Wide(0, quo * b + x1, rem) == quo * b + x1
  {
    assert Pow2(0) == 1;
    hide Pow2;
  }

  /** divrem_u by shifting and subtracting, one quotient bit a turn. */
  method DivremU(size: nat, a1: nat, a0: nat, b: nat) returns (q: nat, r: nat)
    requires size >= 1 && a1 < b < Pow2(size) && a0 < Pow2(size)
    ensures Wide(size, a1, a0) == q * b + r && r < b && q < Pow2(size)
  {
    hide Pow2, Wide, Shr, Shl, Low, Or;
    var x1: nat, x0: nat := a1, a0;
    ghost var rem: nat, quo: nat := a0, 0;
    DivStart(size, a1, a0, b);
    for i := 0 to size
      invariant x1 < b && quo < Pow2(i) && rem < Pow2(size - i)
      invariant x0 == Wide(i, rem, quo)
      invariant Wide(size, a1, a0) == Wide(size - i, quo * b + x1, rem)
    {
      ghost var x, t, rem' := x1, Shr(rem, size - i - 1), Low(rem, size - i - 1);
      StepWord(size, i, rem, quo, x0, 0);
      StepWord(size, i, rem, quo, x0, 1);
      ShiftIn(size, x1, Shr(x0, size - 1));
      var ab := Shr(x1, size - 1);
      x1 := Or(Shl(size, x1, 1), Shr(x0, size - 1), 1);
      var qb;
      if ab != 0 || x1 >= b {
        x1 := SubWord(size, x1, b);
        qb := 1;
      } else {
        qb := 0;
      }
      StepValue(size - i, quo, b, x, rem, t, rem', qb, x1);
      x0 := Or(Shl(size, x0, 1), qb, 1);
      rem, quo := rem', 2 * quo + qb;
    }
    DivEnd(size, x1, quo, rem, x0, b);
    r := x1;
    q := x0;
  }

  /** divrem_u where the host can divide a number of two words. */
  method DivremULong(size: nat, a1: nat, a0: nat, b: nat) returns (q: nat, r: nat)
    requires size >= 1 && a1 < b < Pow2(size) && a0 < Pow2(size)
    ensures Wide(size, a1, a0) == q * b + r && r < b && q < Pow2(size)
  {
    hide *;
    var a := Wide(size, a1, a0);
    DivMod(a, b);
    r := a % b;
    QuotientFits(size, a1, a0, b, a / b, r);
    q := a / b;
  }

  /** divrem_u in the form the host has types for. */
  method DivremWords(ulong: bool, size: nat, a1: nat, a0: nat, b: nat) returns (q: nat, r: nat)
    requires size >= 1 && a1 < b < Pow2(size) && a0 < Pow2(size)
    ensures Wide(size, a1, a0) == q * b + r && r < b && q < Pow2(size)
  {
    hide *;
    if ulong {
      q, r := DivremULong(size, a1, a0, b);
    } else {
      q, r := DivremU(size, a1, a0, b);
    }
  }

  lemma QuotientFits(size: nat, a1: nat, a0: nat, b: nat, q: int, r: nat)
    requires a1 < b && a0 < Pow2(size) && Wide(size, a1, a0) == q * b + r
    ensures q < Pow2(size)
  {
    hide *;
    WideIs(size, a1, a0);
    MulLe(a1 + 1, b, Pow2(size));
    MulSucc(a1, Pow2(size));
    MulCompare(q, Pow2(size), b);
  }
}
