/**
 * Sticky ("jammed") mantissas: an integer that stands for a real number because
 * the two lie on the same side of every multiple of some power of two.
 */
module Jamming {
  import opened Powers

  /** n equals y, or neither is a multiple of 2^p and the same two multiples enclose them. */
  ghost predicate Agrees(n: int, y: real, p: nat) {
    var g := Pow2(p);
    if n % g == 0 then y == n as real
    else (n / g * g) as real < y < ((n / g + 1) * g) as real
  }

  /** Or-ing a sticky bit into a word. */
  function Jam(q: nat, sticky: bool): nat {
    if sticky && q % 2 == 0 then q + 1 else q
  }

  /** The shift with an ideal, unbounded shift count. */
  function JamShift(a: nat, d: nat): nat {
    Jam(Shr(a, d), Low(a, d) != 0)
  }

  /** rshift_rnd: any shift count, for words of the given size. */
  function RshiftRnd(size: nat, a: nat, d: nat): (r: nat)
    requires a < Pow2(size)
    ensures r == JamShift(a, d)
  {
    JamShiftEnds(size, a, d);
    if d == 0 then a
    else if d >= size then (if a != 0 then 1 else 0)
    else Jam(Shr(a, d), Low(a, d) != 0)
  }

  lemma JamShiftEnds(size: nat, a: nat, d: nat)
    requires a < Pow2(size)
    ensures d == 0 ==> JamShift(a, d) == a
    ensures d >= size ==> JamShift(a, d) == if a != 0 then 1 else 0
  {
    if d >= size {
      Pow2Mono(size, d);
      ShrUnique(a, d, 0, a);
    } else if d == 0 {
      assert Pow2(0) == 1;
      ShrUnique(a, 0, a, 0);
    }
  }

  /** Spelling Agrees out with the two multiples that enclose n. */
  lemma AgreesIntro(n: int, y: real, p: nat, q: int, lo: int, hi: int)
    requires Multiple(lo, q, p) && Multiple(hi, q + 1, p) && lo <= n < hi
    requires if n == lo then y == n as real else lo as real < y < hi as real
    ensures Agrees(n, y, p)
  {
    var g := Pow2(p);
    MulSucc(q, g);
    DivModUnique(n, g, q, n - lo);
    hide Pow2;
  }

  lemma AgreesElim(n: int, y: real, p: nat) returns (q: int, lo: int, hi: int)
    requires Agrees(n, y, p)
    ensures Multiple(lo, q, p) && Multiple(hi, q + 1, p) && lo <= n < hi
    ensures if n == lo then y == n as real else lo as real < y < hi as real
  {
    hide Pow2;
    var g := Pow2(p);
    q := n / g;
    lo, hi := q * g, (q + 1) * g;
    DivMod(n, g);
    MulSucc(q, g);
  }

  lemma AgreesExact(n: int, p: nat)
    ensures Agrees(n, n as real, p)
  {
    hide Pow2;
    var g := Pow2(p);
    assert n == n / g * g + n % g;
    assert (n / g + 1) * g == n / g * g + g;
  }

  /** Coarser multiples separate less. */
  lemma AgreesWeaken(n: int, y: real, p: nat, p': nat)
    requires p <= p' && Agrees(n, y, p)
    ensures Agrees(n, y, p')
  {
    var q, lo, hi := AgreesElim(n, y, p);
    var q', lo', hi' := Enclose(q, lo, hi, p, p' - p);
    hide *;
    AgreesIntro(n, y, p', q', lo', hi');
  }

  lemma Enclose(q: int, lo: int, hi: int, p: nat, s: nat) returns (q': int, lo': int, hi': int)
    requires Multiple(lo, q, p) && Multiple(hi, q + 1, p)
    ensures Multiple(lo', q', p + s) && Multiple(hi', q' + 1, p + s)
    ensures lo' <= lo < hi <= hi'
  {
    var g, h := Pow2(p), Pow2(s);
    Pow2Add(p, s);
    hide Pow2;
    q' := q / h;
    lo', hi' := q' * (g * h), (q' + 1) * (g * h);
    DivMod(q, h);
    MulAssoc(q', g, h);
    MulSucc(q', h);
    EncloseAlgebra(q, q', g, h, lo, hi, lo', hi');
  }

  lemma EncloseAlgebra(q: int, q': int, g: int, h: int, lo: int, hi: int, lo': int, hi': int)
    requires g > 0 && lo == q * g && hi == (q + 1) * g && lo' == q' * (g * h) && hi' == (q' + 1) * (g * h)
    requires q' * h <= q < (q' + 1) * h
    ensures lo' <= lo < hi <= hi'
  {
    assert lo' == q' * h * g && hi' == (q' + 1) * h * g;
    MulLe(q' * h, q, g);
    MulLe(q + 1, (q' + 1) * h, g);
    MulLt(q, q + 1, g);
  }

  /** Scaling both sides up. */
  lemma AgreesShl(n: int, y: real, p: nat, s: nat, n': int, y': real)
    requires Agrees(n, y, p) && n' == n * Pow2(s) && y' == y * Pow2(s) as real
    ensures Agrees(n', y', p + s)
  {
    hide *;
    var q, lo, hi := AgreesElim(n, y, p);
    var lo', hi' := ShlBounds(q, lo, hi, n, y, p, s, n', y');
    AgreesIntro(n', y', p + s, q, lo', hi');
  }

  lemma ShlBounds(q: int, lo: int, hi: int, n: int, y: real, p: nat, s: nat, n': int, y': real)
    returns (lo': int, hi': int)
    requires n' == n * Pow2(s) && y' == y * Pow2(s) as real
    requires Multiple(lo, q, p) && Multiple(hi, q + 1, p) && lo <= n < hi
    requires if n == lo then y == n as real else lo as real < y < hi as real
    ensures Multiple(lo', q, p + s) && Multiple(hi', q + 1, p + s) && lo' <= n' < hi'
    ensures if n' == lo' then y' == n' as real else lo' as real < y' < hi' as real
  {
    hide *;
    lo', hi' := lo * Pow2(s), hi * Pow2(s);
    MultipleShl(lo, q, p, s);
    MultipleShl(hi, q + 1, p, s);
    ScaledCompare(lo, n, y, Pow2(s));
    ScaledCompare(hi, n, y, Pow2(s));
  }

  /** Comparing n and y with a is comparing their scaled forms with a scaled. */
  lemma ScaledCompare(a: int, n: int, y: real, h: nat)
    requires h > 0
    ensures a < n <==> a * h < n * h
    ensures a == n <==> a * h == n * h
    ensures a as real < y <==> (a * h) as real < y * h as real
    ensures y < a as real <==> y * h as real < (a * h) as real
    ensures y == n as real <==> y * h as real == (n * h) as real
  {
    hide *;
    MulCompare(a, n, h);
    ScaledSide(a, y, h);
    ScaledSide(n, y, h);
  }

  lemma ScaledSide(a: int, y: real, h: nat)
    requires h > 0
    ensures a as real < y <==> (a * h) as real < y * h as real
    ensures y == a as real <==> y * h as real == (a * h) as real
  {
    var ar, hr := a as real, h as real;
    RealOfProduct(a, h);
    RealCompare(ar, y, hr);
  }

  /** Adding a multiple of 2^p, or subtracting from one. */
  lemma AgreesOffset(a: int, b: int, n: int, y: real, p: nat)
    requires Agrees(n, y, p) && Multiple(a, b, p)
    ensures Agrees(a + n, a as real + y, p)
    ensures Agrees(a - n, a as real - y, p)
  {
    var q, lo, hi := AgreesElim(n, y, p);
    var g := Pow2(p);
    MulSucc(q, g);
    MulSucc(b - q, g);
    assert hi == lo + g && (b - q + 1) * g == (b - q) * g + g;
    MultipleSum(a, b, lo, q, p);
    MultipleSum(a, b, hi, q + 1, p);
    assert Multiple(a - lo + g, b - q + 1, p);
    hide *;
    AgreesIntro(a + n, a as real + y, p, b + q, a + lo, a + hi);
    if n == lo {
      AgreesIntro(a - n, a as real - y, p, b - q, a - lo, a - lo + g);
    } else {
      AgreesIntro(a - n, a as real - y, p, b - q - 1, a - hi, a - lo);
    }
  }

  /** Shifting right with a sticky bit loses nothing that even multiples can see. */
  lemma AgreesJamShift(n: nat, y: real, p: nat, d: nat, z: real)
    requires p >= 1 && Agrees(n, y, p + d) && y == z * Pow2(d) as real
    ensures Agrees(JamShift(n, d), z, p)
  {
    hide *;
    var q, lo, hi := AgreesElim(n, y, p + d);
    var h := Pow2(d);
    var lo', hi' := EvenMultiples(q, p);
    MultipleShr(lo, lo', q, p, d);
    MultipleShr(hi, hi', q + 1, p, d);
    var j := JamShift(n, d);
    JamBounds(n, d, h, lo', hi');
    ScaledCompare(lo', j, z, h);
    ScaledCompare(hi', j, z, h);
    AgreesIntro(j, z, p, q, lo', hi');
  }

  lemma EvenMultiples(q: int, p: nat) returns (lo: int, hi: int)
    requires p >= 1
    ensures Multiple(lo, q, p) && Multiple(hi, q + 1, p) && lo % 2 == 0 && hi % 2 == 0
  {
    lo, hi := q * Pow2(p), (q + 1) * Pow2(p);
    assert Pow2(p) % 2 == 0;
    hide Pow2;
    EvenProduct(q, Pow2(p));
    EvenProduct(q + 1, Pow2(p));
  }

  lemma JamBounds(n: nat, d: nat, h: nat, lo: int, hi: int)
    requires h == Pow2(d) && lo % 2 == 0 && hi % 2 == 0
    requires lo * h <= n < hi * h
    ensures var j := JamShift(n, d); lo <= j < hi && (n == lo * h <==> j == lo)
  {
    var w, r := Shr(n, d), Low(n, d);
    assert JamShift(n, d) == Jam(w, r != 0);
    hide *;
    ShrSplit(n, d);
    MulSucc(w, h);
    MulCompare(lo, w + 1, h);
    MulCompare(w, hi, h);
    JamStays(w, r != 0, lo, hi);
    MulCompare(lo, w, h);
    if w > lo {
      MulLe(lo + 1, w, h);
      MulSucc(lo, h);
    }
  }

  /** The length of a number after a shift. */
  lemma JamRange(x: nat, l: nat, s: nat)
    requires s >= 1 && Pow2(s + l) <= x < Pow2(s + 1 + l)
    ensures Pow2(s) <= JamShift(x, l) < Pow2(s + 1)
  {
    hide *;
    Pow2Add(s, l);
    Pow2Add(s + 1, l);
    Pow2Succ(s - 1);
    Pow2Succ(s);
    JamBounds(x, l, Pow2(l), Pow2(s), Pow2(s + 1));
  }

  lemma EvenProduct(a: int, g: int)
    requires g % 2 == 0
    ensures a * g % 2 == 0
  {
    assert g == 2 * (g / 2);
    assert a * g == 2 * (a * (g / 2));
  }

  lemma JamStays(w: nat, sticky: bool, lo: int, hi: int)
    requires lo % 2 == 0 && hi % 2 == 0 && lo <= w < hi
    ensures lo <= Jam(w, sticky) < hi
    ensures Jam(w, sticky) == lo <==> w == lo && !sticky
  {
  }

  /** A quotient with its remainder jammed in stands for the exact fraction. */
  lemma AgreesQuotient(a: nat, b: nat, q: nat, r: nat, y: real)
    requires b > 0 && a == q * b + r && r < b && y * b as real == a as real
    ensures Agrees(Jam(q, r != 0), y, 1)
  {
    hide *;
    MulSucc(q, b);
    ScaledCompare(q, q + 1, y, b);
    ScaledCompare(q + 1, q, y, b);
    assert r == 0 ==> y == q as real;
    assert r != 0 ==> q as real < y < (q + 1) as real;
    AgreesOdd(q, r != 0, y);
  }

  /** The value is q itself, or strictly between q and q + 1 with the sticky bit telling so. */
  lemma AgreesOdd(q: nat, sticky: bool, y: real)
    requires if sticky then q as real < y < (q + 1) as real else y == q as real
    ensures Agrees(Jam(q, sticky), y, 1)
  {
    var j := Jam(q, sticky);
    assert Pow2(1) == 2;
    var k := q / 2;
    assert q == 2 * k || q == 2 * k + 1;
    AgreesIntro(j, y, 1, k, 2 * k, 2 * k + 2);
  }

  lemma JamShiftIs(a: nat, d: nat)
    ensures JamShift(a, d) == Jam(Shr(a, d), Low(a, d) != 0)
  {
  }

  lemma JamFalse(q: nat)
    ensures Jam(q, false) == q
  {
  }
}
