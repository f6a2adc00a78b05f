/** Products of two words: mul_u in both its forms, and the multiply-high instructions. */
module WordProducts {
  import opened Powers
  import opened DoubleWord

  /** mul_u where the host has a type of twice the width. */
  method MulU(size: nat, a: nat, b: nat) returns (hi: nat, lo: nat)
    requires a < Pow2(size) && b < Pow2(size)
    ensures Wide(size, hi, lo) == a * b && hi < Pow2(size) && lo < Pow2(size)
  {
    hide Pow2, Shr, Low;
    ProductFits(size, a, b);
    var r := a * b;
    lo := Low(r, size);
    hi := Shr(r, size);
    ShrSplit(r, size);
    MulCompare(hi, Pow2(size), Pow2(size));
  }

  lemma ProductFits(size: nat, a: nat, b: nat)
    requires a < Pow2(size) && b < Pow2(size)
    ensures 0 <= a * b < Pow2(size) * Pow2(size)
  {
    hide Pow2;
    MulLe(a, Pow2(size), b);
    MulLt(b, Pow2(size), Pow2(size));
  }

  lemma PartialProducts(g: int, a0: int, a1: int, b0: int, b1: int)
    ensures (a1 * g + a0) * (b1 * g + b0) == a0 * b0 + (a0 * b1 + a1 * b0) * g + a1 * b1 * g * g
  {
    assert (a1 * g + a0) * (b1 * g + b0) == a1 * g * (b1 * g + b0) + a0 * (b1 * g + b0);
    assert a1 * g * (b1 * g + b0) == a1 * b1 * g * g + a1 * b0 * g;
    assert a0 * (b1 * g + b0) == a0 * b1 * g + a0 * b0;
  }

  /** The sum of the partial products, each in its column. */
  function Columns(h: nat, r00: nat, r01: nat, r10: nat, r11: nat): int {
    r00 + (r01 + r10) * Pow2(h) + r11 * Pow2(h) * Pow2(h)
  }

  /** Carrying from digit to digit keeps the number. */
  lemma CarryDigits(h: nat, r00: nat, r01: nat, r10: nat, r11: nat, p0: nat, q0: nat, p1: nat, q1: nat, p2: nat,
                    q2: nat, p3: nat, q3: nat, s1: nat, t1: nat, s2: nat, t2: nat)
    requires r00 == Wide(h, q0, p0) && r01 == Wide(h, q1, p1) && r10 == Wide(h, q2, p2) && r11 == Wide(h, q3, p3)
    requires q0 + p1 + p2 == Wide(h, t1, s1)
    requires t1 + q1 + q2 + p3 == Wide(h, t2, s2)
    ensures Columns(h, r00, r01, r10, r11) == Wide(h, Wide(h, Wide(h, t2 + q3, s2), s1), p0)
  {
    var g := Pow2(h);
    WideDigits(h, p0, s1, s2, t2 + q3);
    assert r00 == q0 * g + p0 && r01 == q1 * g + p1 && r10 == q2 * g + p2 && r11 == q3 * g + p3;
    assert q0 + p1 + p2 == t1 * g + s1 && t1 + q1 + q2 + p3 == t2 * g + s2;
    hide Pow2, Wide;
    CarryAlgebra(g, r00, r01, r10, r11, p0, q0, p1, q1, p2, q2, p3, q3, s1, t1, s2, t2);
  }

  lemma CarryAlgebra(g: int, r00: int, r01: int, r10: int, r11: int, p0: int, q0: int, p1: int, q1: int, p2: int,
                     q2: int, p3: int, q3: int, s1: int, t1: int, s2: int, t2: int)
    requires r00 == q0 * g + p0 && r01 == q1 * g + p1 && r10 == q2 * g + p2 && r11 == q3 * g + p3
    requires q0 + p1 + p2 == t1 * g + s1
    requires t1 + q1 + q2 + p3 == t2 * g + s2
    ensures r00 + (r01 + r10) * g + r11 * g * g == (((t2 + q3) * g + s2) * g + s1) * g + p0
  {
    var high := q1 + q2 + p3 + q3 * g;
    assert r01 + r10 + r11 * g == p1 + p2 + high * g;
    assert (r01 + r10) * g + r11 * g * g == (r01 + r10 + r11 * g) * g;
    assert (p1 + p2 + high * g) * g + r00 == (t1 * g + s1 + high * g) * g + p0;
    assert t1 + high == (t2 + q3) * g + s2;
    assert t1 * g + s1 + high * g == (t1 + high) * g + s1;
  }

  /** mul_u from half-word partial products, for words of 2 * h bits. */
  method MulUHalves(h: nat, a: nat, b: nat) returns (hi: nat, lo: nat)
    requires h >= 2 && a < Pow2(2 * h) && b < Pow2(2 * h)
    ensures Wide(2 * h, hi, lo) == a * b && hi < Pow2(2 * h) && lo < Pow2(2 * h)
  {
    hide *;
    var a0, a1 := Low(a, h), Shr(a, h);
    var b0, b1 := Low(b, h), Shr(b, h);
    PartialFits(h, a, b);
    var r00, r01, r10, r11 := a0 * b0, a0 * b1, a1 * b0, a1 * b1;
    var c := Low(Shr(r00, h) + Low(r01, h) + Low(r10, h), 2 * h);
    var r0, r1 := Low(r00, h), Low(c, h);
    ghost var c1 := c;
    c := Low(Shr(c, h) + Shr(r01, h) + Shr(r10, h) + Low(r11, h), 2 * h);
    var r2 := Low(c, h);
    DigitsOfProduct(h, a, b, r00, r01, r10, r11, c1, c);
    TopDigit(h, a, b, r0, r1, r2, Shr(c, h) + Shr(r11, h));
    var r3 := Low(Shr(c, h) + Shr(r11, h), h);
    lo := Wide(h, r1, r0);
    hi := Wide(h, r3, r2);
  }

  /** mul_u in the form the host has types for; words are made of two halves. */
  method MulWords(ulong: bool, size: nat, a: nat, b: nat) returns (hi: nat, lo: nat)
    requires a < Pow2(size) && b < Pow2(size) && (ulong || (size % 2 == 0 && size >= 4))
    ensures Wide(size, hi, lo) == a * b && hi < Pow2(size) && lo < Pow2(size)
  {
    hide *;
    if ulong {
      hi, lo := MulU(size, a, b);
    } else {
      assert size == 2 * (size / 2);
      hi, lo := MulUHalves(size / 2, a, b);
    }
  }

  /** The partial products are words. */
  lemma PartialFits(h: nat, a: nat, b: nat)
    requires a < Pow2(2 * h) && b < Pow2(2 * h)
    ensures 0 <= Low(a, h) * Low(b, h) < Pow2(2 * h) && 0 <= Low(a, h) * Shr(b, h) < Pow2(2 * h)
    ensures 0 <= Shr(a, h) * Low(b, h) < Pow2(2 * h) && 0 <= Shr(a, h) * Shr(b, h) < Pow2(2 * h)
  {
    hide *;
    HalfBounds(h, a);
    HalfBounds(h, b);
    Pow2Add(h, h);
    ProductFits(h, Low(a, h), Low(b, h));
    ProductFits(h, Low(a, h), Shr(b, h));
    ProductFits(h, Shr(a, h), Low(b, h));
    ProductFits(h, Shr(a, h), Shr(b, h));
  }

  lemma DigitsOfProduct(h: nat, a: nat, b: nat, r00: nat, r01: nat, r10: nat, r11: nat, c1: nat, c2: nat)
    requires h >= 2 && a < Pow2(2 * h) && b < Pow2(2 * h)
    requires r00 == Low(a, h) * Low(b, h) && r01 == Low(a, h) * Shr(b, h)
    requires r10 == Shr(a, h) * Low(b, h) && r11 == Shr(a, h) * Shr(b, h)
    requires c1 == Low(Shr(r00, h) + Low(r01, h) + Low(r10, h), 2 * h)
    requires c2 == Low(Shr(c1, h) + Shr(r01, h) + Shr(r10, h) + Low(r11, h), 2 * h)
    ensures a * b == Wide(h, Wide(h, Wide(h, Shr(c2, h) + Shr(r11, h), Low(c2, h)), Low(c1, h)), Low(r00, h))
  {
    hide *;
    PartialFits(h, a, b);
    HalfBounds(h, a);
    HalfBounds(h, b);
    ColumnsOfProduct(h, a, b, r00, r01, r10, r11);
    CarriedDigits(h, r00, r01, r10, r11, c1, c2);
  }

  lemma ColumnsOfProduct(h: nat, a: nat, b: nat, r00: nat, r01: nat, r10: nat, r11: nat)
    requires r00 == Low(a, h) * Low(b, h) && r01 == Low(a, h) * Shr(b, h)
    requires r10 == Shr(a, h) * Low(b, h) && r11 == Shr(a, h) * Shr(b, h)
    ensures a * b == Columns(h, r00, r01, r10, r11)
  {
    hide Pow2, Shr, Low;
    ShrSplit(a, h);
    ShrSplit(b, h);
    PartialProducts(Pow2(h), Low(a, h), Shr(a, h), Low(b, h), Shr(b, h));
  }

  lemma CarriedDigits(h: nat, r00: nat, r01: nat, r10: nat, r11: nat, c1: nat, c2: nat)
    requires h >= 2 && r00 < Pow2(2 * h) && r01 < Pow2(2 * h) && r10 < Pow2(2 * h) && r11 < Pow2(2 * h)
    requires c1 == Low(Shr(r00, h) + Low(r01, h) + Low(r10, h), 2 * h)
    requires c2 == Low(Shr(c1, h) + Shr(r01, h) + Shr(r10, h) + Low(r11, h), 2 * h)
    ensures Columns(h, r00, r01, r10, r11) ==
            Wide(h, Wide(h, Wide(h, Shr(c2, h) + Shr(r11, h), Low(c2, h)), Low(c1, h)), Low(r00, h))
  {
    hide *;
    HalfBounds(h, r00);
    HalfBounds(h, r01);
    HalfBounds(h, r10);
    HalfBounds(h, r11);
    HalfBounds(h, c1);
    HalfBounds(h, c2);
    DigitSum(h, Shr(r00, h), Low(r01, h), Low(r10, h), 0);
    DigitSum(h, Shr(c1, h), Shr(r01, h), Shr(r10, h), Low(r11, h));
    CarryDigits(h, r00, r01, r10, r11, Low(r00, h), Shr(r00, h), Low(r01, h), Shr(r01, h), Low(r10, h), Shr(r10, h), Low(r11, h),
                Shr(r11, h), Low(c1, h), Shr(c1, h), Low(c2, h), Shr(c2, h));
  }

  lemma WideDigits(h: nat, d0: nat, d1: nat, d2: nat, d3: nat)
    ensures Wide(h, Wide(h, Wide(h, d3, d2), d1), d0) == ((d3 * Pow2(h) + d2) * Pow2(h) + d1) * Pow2(h) + d0
  {
    hide Pow2;
  }

  /** No sum of digits leaves a word. */
  lemma DigitSum(h: nat, w: nat, x: nat, y: nat, z: nat)
    requires h >= 2 && w < Pow2(h) && x < Pow2(h) && y < Pow2(h) && z < Pow2(h)
    ensures Low(w + x + y + z, 2 * h) == w + x + y + z && w + x + y + z < Pow2(2 * h)
  {
    hide *;
    var g := Pow2(h);
    Pow2Add(h, h);
    Pow2Mono(2, h);
    Four();
    MulLe(4, g, g);
    LowSmall(w + x + y + z, 2 * h);
  }

  lemma Four()
    ensures Pow2(2) == 4
  {
  }

  lemma HalfBounds(h: nat, a: nat)
    requires a < Pow2(2 * h)
    ensures Shr(a, h) < Pow2(h) && Low(a, h) < Pow2(h)
    ensures a == Wide(h, Shr(a, h), Low(a, h))
  {
    hide *;
    WideIs(h, Shr(a, h), Low(a, h));
    Pow2Add(h, h);
    ShrSplit(a, h);
    MulCompare(Shr(a, h), Pow2(h), Pow2(h));
  }

  /** The fourth digit is a digit: the product has no more than two words. */
  lemma TopDigit(h: nat, a: nat, b: nat, r0: nat, r1: nat, r2: nat, s3: nat)
    requires a < Pow2(2 * h) && b < Pow2(2 * h)
    requires r0 < Pow2(h) && r1 < Pow2(h) && r2 < Pow2(h)
    requires a * b == Wide(h, Wide(h, Wide(h, s3, r2), r1), r0)
    ensures Low(s3, h) == s3 < Pow2(h)
    ensures Wide(h, r1, r0) < Pow2(2 * h) && Wide(h, s3, r2) < Pow2(2 * h)
    ensures Wide(2 * h, Wide(h, s3, r2), Wide(h, r1, r0)) == a * b
  {
    hide *;
    var hi, lo := Wide(h, s3, r2), Wide(h, r1, r0);
    WideAssoc(h, hi, r1, r0);
    ProductFits(2 * h, a, b);
    WideBelow(h, r1, r0, h);
    WideBelow(2 * h, hi, lo, 2 * h);
    WideBelow(h, s3, r2, h);
    LowSmall(s3, h);
  }

  /** A number of two words is below 2^(size + l) exactly when its high word is below 2^l. */
  lemma WideBelow(size: nat, hi: nat, lo: nat, l: nat)
    requires lo < Pow2(size)
    ensures hi < Pow2(l) <==> Wide(size, hi, lo) < Pow2(size + l)
    ensures Pow2(size + l) == Pow2(size) * Pow2(l)
  {
    hide *;
    WideIs(size, hi, lo);
    Pow2Add(size, l);
    if hi < Pow2(l) {
      MulLe(hi + 1, Pow2(l), Pow2(size));
      MulSucc(hi, Pow2(size));
    } else {
      MulLe(Pow2(l), hi, Pow2(size));
    }
  }

  lemma WideAssoc(h: nat, hi: nat, d1: nat, d0: nat)
    ensures Wide(h, Wide(h, hi, d1), d0) == Wide(2 * h, hi, Wide(h, d1, d0))
  {
    hide *;
    WideIs(h, hi, d1);
    WideIs(h, Wide(h, hi, d1), d0);
    WideIs(h, d1, d0);
    WideIs(2 * h, hi, Wide(h, d1, d0));
    Pow2Add(h, h);
    MulAssoc(hi, Pow2(h), Pow2(h));
    MulSum(hi * Pow2(h), d1, Pow2(h));
  }

  // ---- multiply-high ---------------------------------------------------------------------

  /** mulhu: the high word of the product. */
  method Mulhu(h: nat, a: nat, b: nat) returns (r: nat)
    requires h >= 2 && a < Pow2(2 * h) && b < Pow2(2 * h)
    ensures r == Shr(a * b, 2 * h) && r < Pow2(2 * h)
  {
    var hi, lo := MulUHalves(h, a, b);
    hide *;
    WideShr(2 * h, hi, lo);
    r := hi;
  }

  /** A signed number of n bits and its bits. */
  predicate IsSigned(n: nat, a: int)
    requires n > 0
  {
    0 - Pow2(n - 1) <= a < Pow2(n - 1)
  }

  function Bits(n: nat, a: int): nat
    requires n > 0 && IsSigned(n, a)
  {
    Pow2Succ(n - 1);
    if a < 0 then a + Pow2(n) else a
  }

  /** Conversion of an integer to an n-bit word. */
  function Wrap(n: nat, x: int): (r: nat)
    ensures r < Pow2(n)
  {
    x % Pow2(n)
  }

  /** What mulh and mulhsu are for: the high word of a product of signed numbers, as bits. */
  function HighBits(n: nat, product: int): nat {
    Wrap(n, product / Pow2(n))
  }

  lemma WrapShift(n: nat, x: int, k: int)
    ensures Wrap(n, x + k * Pow2(n)) == Wrap(n, x)
  {
    var w := Pow2(n);
    hide Pow2;
    DivMod(x, w);
    MulSum(x / w, k, w);
    DivModUnique(x + k * w, w, x / w + k, x % w);
  }

  lemma WrapIs(n: nat, x: int) returns (k: int)
    ensures x == Wrap(n, x) + k * Pow2(n)
  {
    hide Pow2;
    k := x / Pow2(n);
    DivMod(x, Pow2(n));
  }

  lemma WrapSmall(n: nat, x: int)
    requires 0 <= x < Pow2(n)
    ensures Wrap(n, x) == x
  {
    hide Pow2;
    DivModUnique(x, Pow2(n), 0, x);
  }

  /** Words may be wrapped early. */
  lemma WrapEarly(n: nat, x: int, y: int)
    ensures Wrap(n, Wrap(n, x) - y) == Wrap(n, x - y)
  {
    hide *;
    var k := WrapIs(n, x);
    WrapShift(n, Wrap(n, x) - y, k);
  }

  lemma WrapApart(n: nat, x: int, y: int)
    requires 0 < x - y < Pow2(n)
    ensures Wrap(n, x) != Wrap(n, y)
  {
    hide *;
    var j := WrapIs(n, x);
    var k := WrapIs(n, y);
    if Wrap(n, x) == Wrap(n, y) {
      MulSum(j, k, Pow2(n));
      MulCompare(0, j - k, Pow2(n));
      MulCompare(j - k, 1, Pow2(n));
    }
  }

  /** The high word of a signed product is the unsigned one less each operand whose partner is negative. */
  lemma SignedCorrection(n: nat, a: int, b: int, ua: nat, ub: nat)
    requires ua == (if a < 0 then a + Pow2(n) else a) && ub == (if b < 0 then b + Pow2(n) else b)
    ensures HighBits(n, a * b) == Wrap(n, Shr(ua * ub, n) - (if a < 0 then b else 0) - (if b < 0 then a else 0))
  {
    hide Pow2, Shr, Low, Wrap;
    var i, j := if a < 0 then 1 else 0, if b < 0 then 1 else 0;
    var hi, lo := Shr(ua * ub, n), Low(ua * ub, n);
    var q := hi - (i * b + j * a + i * j * Pow2(n));
    ShrSplit(ua * ub, n);
    CorrectionAlgebra(a, b, ua, ub, i, j, Pow2(n), hi, lo);
    DivModUnique(a * b, Pow2(n), q, lo);
    WrapShift(n, hi - i * b - j * a, -(i * j));
  }

  lemma CorrectionAlgebra(a: int, b: int, ua: int, ub: int, i: int, j: int, w: int, hi: int, lo: int)
    requires ua == a + i * w && ub == b + j * w && ua * ub == hi * w + lo
    ensures a * b == (hi - (i * b + j * a + i * j * w)) * w + lo
  {
    assert (a + i * w) * (b + j * w) == a * b + a * (j * w) + i * w * b + i * w * (j * w);
    assert (i * b + j * a + i * j * w) * w == a * (j * w) + i * w * b + i * w * (j * w);
    MulSum(hi, i * b + j * a + i * j * w, w);
  }

  /**
   * mulh in the form built on mulhu. It takes each negative operand itself, not its partner, off the
   * unsigned result, so it is right exactly when the operands are both negative or both not.
   */
  method Mulh(h: nat, a: int, b: int) returns (r: nat)
    requires h >= 2 && IsSigned(2 * h, a) && IsSigned(2 * h, b)
    ensures r == HighBits(2 * h, a * b) <==> (a < 0 <==> b < 0)
  {
    hide Pow2, Shr, Wrap, HighBits;
    Pow2Succ(2 * h - 1);
    var ua, ub := Bits(2 * h, a), Bits(2 * h, b);
    var r1 := Mulhu(h, ua, ub);
    ghost var hi := r1;
    if a < 0 {
      r1 := Wrap(2 * h, r1 - a);
    }
    if b < 0 {
      r1 := Wrap(2 * h, r1 - b);
    }
    r := r1;
    SignedCorrection(2 * h, a, b, ua, ub);
    hide *;
    WrappedDifference(2 * h, hi, a, b);
  }

  /** What the two subtractions of mulh come to, against what they should. */
  lemma WrappedDifference(n: nat, hi: nat, a: int, b: int)
    requires n > 0 && hi < Pow2(n) && IsSigned(n, a) && IsSigned(n, b)
    ensures var r := if a < 0 then Wrap(n, hi - a) else hi;
            var r' := if b < 0 then Wrap(n, r - b) else r;
            r' == Wrap(n, hi - (if a < 0 then b else 0) - (if b < 0 then a else 0)) <==> (a < 0 <==> b < 0)
  {
    hide Pow2, Wrap;
    Pow2Succ(n - 1);
    WrapSmall(n, hi);
    if a < 0 && b < 0 {
      WrapEarly(n, hi - a, b);
    } else if a < 0 {
      WrapApart(n, hi - a, hi - b);
    } else if b < 0 {
      WrapApart(n, hi - b, hi - a);
    }
  }

  /** mulhsu in the same form: right exactly when a is not negative, or has the bits of b. */
  method Mulhsu(h: nat, a: int, b: nat) returns (r: nat)
    requires h >= 2 && IsSigned(2 * h, a) && b < Pow2(2 * h)
    ensures r == HighBits(2 * h, a * b) <==> a >= 0 || b == a + Pow2(2 * h)
  {
    hide Pow2, Shr, Wrap, HighBits;
    Pow2Succ(2 * h - 1);
    var ua := Bits(2 * h, a);
    var r1 := Mulhu(h, ua, b);
    ghost var hi := r1;
    if a < 0 {
      r1 := Wrap(2 * h, r1 - a);
    }
    r := r1;
    SignedCorrection(2 * h, a, b, ua, b);
    hide *;
    UnsignedDifference(2 * h, hi, a, b);
  }

  lemma UnsignedDifference(n: nat, hi: nat, a: int, b: nat)
    requires n > 0 && hi < Pow2(n) && IsSigned(n, a) && b < Pow2(n)
    ensures (if a < 0 then Wrap(n, hi - a) else hi) == Wrap(n, hi - (if a < 0 then b else 0)) <==>
            a >= 0 || b == a + Pow2(n)
  {
    hide Pow2, Wrap;
    Pow2Succ(n - 1);
    WrapSmall(n, hi);
    if a < 0 {
      WrapShift(n, hi - a, -1);
      if b > a + Pow2(n) {
        WrapApart(n, hi - a - Pow2(n), hi - b);
      } else if b < a + Pow2(n) {
        WrapApart(n, hi - b, hi - a - Pow2(n));
      }
    }
  }

  /** A product the uncorrected form gets wrong: the high word of -1 * 1 is -1, not 1. */
  method MulhOfMinusOne() returns (r: nat)
    ensures r != HighBits(64, -1 * 1)
  {
    Pow2Mono(1, 63);
    r := Mulh(32, -1, 1);
  }

  /** The same pair in mulhsu. */
  method MulhsuOfMinusOne() returns (r: nat)
    ensures r != HighBits(64, -1 * 1)
  {
    Pow2Mono(1, 63);
    Pow2Mono(2, 64);
    r := Mulhsu(32, -1, 1);
  }
}
