/** Powers of two, over the naturals and (with any integer exponent) over the reals. */
module Powers {

  function Pow2(n: nat): (p: nat)
    ensures p > 0
  {
    if n == 0 then 1 else 2 * Pow2(n - 1)
  }

  lemma {:induction false} Pow2Add(a: nat, b: nat)
    ensures Pow2(a + b) == Pow2(a) * Pow2(b)
  {
    if a == 0 {
    } else {
      Pow2Add(a - 1, b);
    }
  }

  lemma {:induction false} Pow2Mono(a: nat, b: nat)
    requires a <= b
    ensures Pow2(a) <= Pow2(b)
    ensures a < b ==> 2 * Pow2(a) <= Pow2(b)
    decreases b
  {
    if a < b {
      Pow2Mono(a, b - 1);
    }
  }

  /** The number of significant bits: `F_SIZE - clz(n)`. */
  function BitLength(n: nat): (l: nat)
    ensures n == 0 <==> l == 0
    ensures n > 0 ==> Pow2(l - 1) <= n
    ensures n < Pow2(l)
  {
    if n == 0 then 0 else 1 + BitLength(n / 2)
  }

  lemma BitLengthIs(n: nat, l: nat)
    requires l > 0 && Pow2(l - 1) <= n < Pow2(l)
    ensures BitLength(n) == l
  {
    var k := BitLength(n);
    if k < l {
      Pow2Mono(k, l - 1);
    } else {
      Pow2Mono(l - 1, k);
      if l < k {
        Pow2Mono(l, k - 1);
      }
    }
  }

  lemma BitLengthAtMost(n: nat, l: nat)
    requires n < Pow2(l)
    ensures BitLength(n) <= l
  {
    var k := BitLength(n);
    if n > 0 && l < k {
      Pow2Mono(l, k - 1);
    }
  }

  // ---- division by a power of two ------------------------------------------------

  /** The quotient and the remainder are the only pair that fits. */
  lemma DivModUnique(n: int, g: nat, q: int, r: int)
    requires g > 0 && 0 <= r < g && n == q * g + r
    ensures n / g == q && n % g == r
  {
    var q', r' := n / g, n % g;
    assert n == q' * g + r';
    assert (q - q') * g == r' - r;
    assert (q' - q) * g == r - r';
    if q > q' {
      MulLe(1, q - q', g);
    } else if q < q' {
      MulLe(1, q' - q, g);
    }
  }

  lemma MulLe(a: int, b: int, c: int)
    requires a <= b && 0 <= c
    ensures a * c <= b * c
  {
  }

  lemma MulLt(a: int, b: int, c: int)
    requires a < b && 0 < c
    ensures a * c < b * c
  {
  }

  lemma MulAssoc(a: int, g: int, h: int)
    ensures a * (g * h) == a * g * h
  {
  }

  lemma MulSucc(a: int, g: int)
    ensures (a + 1) * g == a * g + g
    ensures (a - 1) * g == a * g - g
  {
  }

  lemma MulSum(a: int, b: int, g: int)
    ensures (a + b) * g == a * g + b * g
    ensures (a - b) * g == a * g - b * g
  {
  }

  lemma MulCompare(a: int, b: int, c: int)
    requires c > 0
    ensures a < b <==> a * c < b * c
    ensures a == b <==> a * c == b * c
  {
    if a < b {
      MulLt(a, b, c);
    } else if b < a {
      MulLt(b, a, c);
    }
  }

  lemma DivMod(n: int, g: nat)
    requires g > 0
    ensures n == n / g * g + n % g && 0 <= n % g < g
    ensures n >= 0 ==> n / g >= 0
  {
    if n >= 0 && n / g < 0 {
      MulLe(n / g, -1, g);
    }
  }

  /** `a >> d` */
  function Shr(a: nat, d: nat): nat {
    DivMod(a, Pow2(d));
    a / Pow2(d)
  }

  /** `a & ((1 << d) - 1)` */
  function Low(a: nat, d: nat): (r: nat)
    ensures r < Pow2(d)
  {
    a % Pow2(d)
  }

  /** `a << d` in a word of the given size: bits that leave the word are lost. */
  function Shl(size: nat, a: nat, d: nat): (r: nat)
    ensures r < Pow2(size)
  {
    Low(a * Pow2(d), size)
  }

  /** `a | b` where b lies below bit d and a has no bit there: the sum. */
  function Or(a: nat, b: nat, d: nat): nat
    requires Low(a, d) == 0 && b < Pow2(d)
  {
    a + b
  }

  /** `clz(a)` */
  function Clz(size: nat, a: nat): nat
    requires a < Pow2(size)
  {
    BitLengthAtMost(a, size);
    size - BitLength(a)
  }

  /** v is q units of 2^p. Naming the product keeps it out of the arithmetic that does not need it. */
  predicate Multiple(v: int, q: int, p: nat) {
    v == q * Pow2(p)
  }

  lemma MultipleShl(v: int, q: int, p: nat, s: nat)
    requires Multiple(v, q, p)
    ensures Multiple(v * Pow2(s), q, p + s)
  {
    Pow2Add(p, s);
    MulAssoc(q, Pow2(p), Pow2(s));
    hide Pow2;
  }

  lemma MultipleShr(v: int, w: int, q: int, p: nat, s: nat)
    requires Multiple(v, q, p + s) && Multiple(w, q, p)
    ensures v == w * Pow2(s)
  {
    Pow2Add(p, s);
    MulAssoc(q, Pow2(p), Pow2(s));
    hide Pow2;
  }

  lemma MultipleSum(v: int, q: int, w: int, r: int, p: nat)
    requires Multiple(v, q, p) && Multiple(w, r, p)
    ensures Multiple(v + w, q + r, p) && Multiple(v - w, q - r, p)
  {
    MulSum(q, r, Pow2(p));
    hide Pow2;
  }

  lemma Pow2Succ(n: nat)
    ensures Pow2(n + 1) == 2 * Pow2(n)
  {
  }

  /** A shift splits a number into its high and low bits. */
  lemma ShrSplit(a: nat, d: nat)
    ensures a == Shr(a, d) * Pow2(d) + Low(a, d)
  {
    DivMod(a, Pow2(d));
  }

  lemma ShrUnique(a: nat, d: nat, q: int, r: int)
    requires a == q * Pow2(d) + r && 0 <= r < Pow2(d)
    ensures Shr(a, d) == q && Low(a, d) == r
  {
    DivModUnique(a, Pow2(d), q, r);
  }

  /** A number is below 2^(d + l) exactly when its bits above the lowest d are below 2^l. */
  lemma ShrBelow(a: nat, d: nat, l: nat)
    ensures Shr(a, d) < Pow2(l) <==> a < Pow2(d + l)
  {
    hide *;
    var q := Shr(a, d);
    ShrSplit(a, d);
    Pow2Add(d, l);
    if q < Pow2(l) {
      MulLe(q + 1, Pow2(l), Pow2(d));
      MulSucc(q, Pow2(d));
    } else {
      MulLe(Pow2(l), q, Pow2(d));
    }
  }

  /** Truncation to a word keeps what fits. */
  lemma LowSmall(a: nat, d: nat)
    requires a < Pow2(d)
    ensures Low(a, d) == a && Shr(a, d) == 0
  {
    hide Pow2;
    ShrUnique(a, d, 0, a);
  }

  lemma ShlExact(size: nat, a: nat, d: nat)
    requires a * Pow2(d) < Pow2(size)
    ensures Shl(size, a, d) == a * Pow2(d)
  {
    hide Pow2;
    ShrUnique(a * Pow2(d), size, 0, a * Pow2(d));
  }

  /** Shifting a number left so that it has exactly l bits. */
  lemma ShiftToLength(a: nat, d: nat, l: nat)
    requires a > 0 && BitLength(a) + d == l
    ensures Pow2(l - 1) <= a * Pow2(d) < Pow2(l)
  {
    var k := BitLength(a);
    assert Pow2(k - 1) <= a < Pow2(k);
    hide *;
    Pow2Add(k - 1, d);
    Pow2Add(k, d);
    MulLe(Pow2(k - 1), a, Pow2(d));
    MulLt(a, Pow2(k), Pow2(d));
  }

  lemma BitLengthAtLeast(n: nat, l: nat)
    requires Pow2(l) <= n
    ensures BitLength(n) > l
  {
    var k := BitLength(n);
    if k <= l {
      Pow2Mono(k, l);
    }
  }

  // ---- order of real products ------------------------------------------------------

  lemma RealOfProduct(a: int, b: int)
    ensures (a * b) as real == a as real * b as real
  {
  }

  lemma RealCompare(a: real, b: real, c: real)
    requires c > 0.0
    ensures a < b <==> a * c < b * c
    ensures a == b <==> a * c == b * c
  {
    assert b * c - a * c == (b - a) * c;
  }

  /** Dividing twice is dividing by the product. */
  lemma DivDiv(n: int, g: nat, h: nat)
    requires g > 0 && h > 0
    ensures g * h > 0
    ensures n / g / h == n / (g * h)
    ensures n % (g * h) == n / g % h * g + n % g
  {
    var q, r := n / g, n % g;
    MulLt(0, h, g);
    MulLe(0, q % h, g);
    MulLe(q % h, h - 1, g);
    DivDivAlgebra(n, g, h, q, r, q / h, q % h);
    DivModUnique(n, g * h, q / h, q % h * g + r);
  }

  lemma DivDivAlgebra(n: int, g: int, h: int, q: int, r: int, q': int, r': int)
    requires n == q * g + r && q == q' * h + r'
    ensures n == q' * (g * h) + (r' * g + r)
    ensures (h - 1) * g == g * h - g
  {
    assert (q' * h + r') * g == q' * h * g + r' * g;
    assert q' * h * g == q' * (g * h);
  }

  lemma DivPow2(n: int, a: nat, b: nat)
    ensures n / Pow2(a) / Pow2(b) == n / Pow2(a + b)
    ensures n % Pow2(a + b) == n / Pow2(a) % Pow2(b) * Pow2(a) + n % Pow2(a)
  {
    Pow2Add(a, b);
    DivDiv(n, Pow2(a), Pow2(b));
  }

  // ---- real scale factors --------------------------------------------------------

  /** 2^k for every integer k. */
  function Scale(k: int): (s: real)
    ensures s > 0.0
    decreases if k >= 0 then k else -k
  {
    if k == 0 then 1.0 else if k > 0 then 2.0 * Scale(k - 1) else Scale(k + 1) / 2.0
  }

  lemma ScaleSucc(k: int)
    ensures Scale(k + 1) == 2.0 * Scale(k)
  {
  }

  lemma ScaleZero()
    ensures Scale(0) == 1.0
  {
  }

  lemma {:induction false} ScaleNat(n: nat)
    ensures Scale(n) == Pow2(n) as real
  {
    if n > 0 {
      ScaleNat(n - 1);
    }
  }

  lemma {:induction false} ScaleAdd(j: int, k: int)
    ensures Scale(j + k) == Scale(j) * Scale(k)
    decreases if k >= 0 then k else -k
  {
    hide Scale;
    if k == 0 {
      ScaleZero();
    } else if k > 0 {
      ScaleAdd(j, k - 1);
      ScaleSucc(j + k - 1);
      ScaleSucc(k - 1);
      TwiceProduct(Scale(j), Scale(k - 1), Scale(k), Scale(j + k - 1), Scale(j + k));
    } else {
      ScaleAdd(j, k + 1);
      ScaleSucc(j + k);
      ScaleSucc(k);
      TwiceProduct(Scale(j), Scale(k), Scale(k + 1), Scale(j + k), Scale(j + k + 1));
    }
  }

  lemma TwiceProduct(a: real, b: real, b': real, c: real, c': real)
    requires b' == 2.0 * b && c' == 2.0 * c
    ensures c == a * b <==> c' == a * b'
  {
    assert a * b' == 2.0 * (a * b);
  }

  /** Scaling up by 2^n is multiplying by the natural number 2^n. */
  lemma ScaleAddNat(k: int, n: nat)
    ensures Scale(k + n) == Pow2(n) as real * Scale(k)
  {
    ScaleAdd(k, n);
    ScaleNat(n);
  }

  lemma {:induction false} ScaleMono(j: int, k: int)
    requires j <= k
    ensures Scale(j) <= Scale(k)
    ensures j < k ==> 2.0 * Scale(j) <= Scale(k)
    decreases k - j
  {
    if j < k {
      ScaleMono(j, k - 1);
      ScaleSucc(k - 1);
    }
  }

  lemma SmallPowers()
    ensures Pow2(0) == 1 && Pow2(1) == 2 && Pow2(2) == 4 && Pow2(3) == 8 && Pow2(4) == 16
  {
  }
}
