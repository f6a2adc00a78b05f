/** sqrtrem_u and sqrt_sf. */
module SquareRoot {
  import opened Powers
  import opened Floats
  import opened Fields
  import opened Jamming
  import opened Rounding
  import opened DoubleWord
  import opened WordProducts
  import opened WordDivision
  import opened Multiplication
  import opened RealRoots

  // ---- integer square roots ---------------------------------------------------------------

  /** t is the integer square root of a. */
  predicate IsRoot(a: nat, t: nat) {
    t * t <= a < (t + 1) * (t + 1)
  }

  lemma {:induction false} RootExists(a: nat) returns (t: nat)
    ensures IsRoot(a, t)
  {
    if a == 0 {
      t := 0;
    } else {
      t := RootExists(a - 1);
      if (t + 1) * (t + 1) <= a {
        SquareLess(t + 1, t + 2);
        t := t + 1;
      }
    }
  }

  lemma SquareLess(s: nat, t: nat)
    ensures s < t <==> s * s < t * t
    ensures s == t <==> s * s == t * t
  {
    NatSquares(s, t);
  }

  /** A Newton step from any positive s does not fall below the root. */
  lemma NewtonStaysAbove(a: nat, s: nat, t: nat, q: nat, r: nat)
    requires s > 0 && a == q * s + r && r < s && t * t <= a
    ensures (q + s) / 2 >= t
  {
    if q + s < 2 * t {
      MulLe(q + 1, 2 * t - s, s);
      MulSucc(q, s);
      assert (2 * t - s) * s == 2 * t * s - s * s;
      assert (t - s) * (t - s) == t * t - 2 * t * s + s * s;
      SquareNonNegative(t - s);
    }
  }

  lemma SquareNonNegative(d: int)
    ensures d * d >= 0
  {
  }

  /** From above the root a step goes strictly down. */
  lemma NewtonDescends(a: nat, s: nat, q: nat, r: nat)
    requires s > 0 && a == q * s + r && r < s && a < s * s
    ensures (q + s) / 2 < s
  {
    MulCompare(q, s, s);
  }

  /** Where the loop starts: 2^((l + 1) / 2), with l the bits of a - 1 as far as the high word shows. */
  function StartBits(size: nat, a1: nat, a0: nat): nat
    requires a1 < Pow2(size) && a0 < Pow2(size) && (a1 != 0 || a0 != 0)
  {
    var l := if a1 != 0 then 2 * size - Clz(size, a1 - 1) else size - Clz(size, a0 - 1);
    (l + 1) / 2
  }

  /**
   * The radicands whose root the loop misses: the high word is a power of two, the number of bits
   * below it is even, and the low word is too large for the start value to be the root.
   */
  predicate StartTooLow(size: nat, a1: nat, a0: nat) {
    var k := size + BitLength(a1) - 1;
    a1 > 0 && a1 == Pow2(BitLength(a1) - 1) && k % 2 == 0 && a0 > 2 * Pow2(k / 2)
  }

  /** In every word of even size there is such a radicand, with high word 1; the start value is then 2^(F / 2). */
  lemma StartTooLowWitness(size: nat)
    requires size >= 4 && size % 2 == 0
    ensures StartTooLow(size, 1, Pow2(size) - 1) && !IsRoot(Wide(size, 1, Pow2(size) - 1), Pow2(size / 2))
  {
    hide *;
    var n, a0 := size / 2, Pow2(size) - 1;
    SmallPowers();
    Pow2Mono(2, n);
    Pow2Mono(1, size);
    Pow2Add(n, n);
    MulLe(4, Pow2(n), Pow2(n));
    BitLengthIs(1, 1);
    StartTooLowIs(size, 1, a0, 0);
    StartPower(size, 0, a0, Pow2(n));
    if IsRoot(Wide(size, 1, a0), Pow2(n)) {
      RootIs(Wide(size, 1, a0), Pow2(n));
    }
  }

  lemma StartValue(size: nat, a1: nat, a0: nat, u: nat)
    requires a1 < Pow2(size) && a0 < Pow2(size) && (a1 != 0 || a0 != 0)
    requires u == Pow2(StartBits(size, a1, a0))
    ensures if StartTooLow(size, a1, a0) then (u + 1) * (u + 1) <= Wide(size, a1, a0)
            else Wide(size, a1, a0) < (u + 1) * (u + 1)
  {
    if a1 == 0 {
      StartLow(size, a0, u);
    } else if a1 == Pow2(BitLength(a1) - 1) {
      StartPowerOfTwo(size, a1, a0, u);
    } else {
      StartHigh(size, a1, a0, u);
    }
  }

  /** The square of the start value is at least 2^l. */
  lemma StartSquare(l: nat, u: nat)
    requires u == Pow2((l + 1) / 2)
    ensures u * u == if l % 2 == 0 then Pow2(l) else 2 * Pow2(l)
    ensures (u + 1) * (u + 1) == u * u + 2 * u + 1
  {
    hide *;
    var m := (l + 1) / 2;
    Pow2Add(m, m);
    Pow2Succ(l);
    assert if l % 2 == 0 then m + m == l else m + m == l + 1;
  }

  lemma StartLow(size: nat, a0: nat, u: nat)
    requires 0 < a0 < Pow2(size) && u == Pow2(StartBits(size, 0, a0))
    ensures Wide(size, 0, a0) < (u + 1) * (u + 1)
  {
    BitLengthAtMost(a0 - 1, size);
    var l := BitLength(a0 - 1);
    assert StartBits(size, 0, a0) == (l + 1) / 2;
    hide Pow2, BitLength, StartBits, Wide;
    StartSquare(l, u);
    WideIs(size, 0, a0);
  }

  lemma StartHigh(size: nat, a1: nat, a0: nat, u: nat)
    requires 0 < a1 < Pow2(size) && a0 < Pow2(size) && a1 != Pow2(BitLength(a1) - 1)
    requires u == Pow2(StartBits(size, a1, a0))
    ensures Wide(size, a1, a0) < (u + 1) * (u + 1)
  {
    hide *;
    var k := BitLength(a1 - 1);
    StartBitsHigh(size, a1, a0, k);
    if a1 == Pow2(k) {
      Pow2Succ(k);
      BitLengthIs(a1, k + 1);
    }
    StartAbove(size, a1, a0, u, k);
  }

  lemma StartBitsHigh(size: nat, a1: nat, a0: nat, k: nat)
    requires 0 < a1 < Pow2(size) && a0 < Pow2(size) && k == BitLength(a1 - 1)
    ensures StartBits(size, a1, a0) == (size + k + 1) / 2 && a1 <= Pow2(k)
  {
    BitLengthAtMost(a1 - 1, size);
    hide Pow2, BitLength;
  }

  lemma StartAbove(size: nat, a1: nat, a0: nat, u: nat, k: nat)
    requires a0 < Pow2(size) && a1 < Pow2(k) && u == Pow2((size + k + 1) / 2)
    ensures Wide(size, a1, a0) < (u + 1) * (u + 1)
  {
    hide *;
    StartSquare(size + k, u);
    WideIs(size, a1, a0);
    Pow2Add(k, size);
    MulLe(a1 + 1, Pow2(k), Pow2(size));
    MulSucc(a1, Pow2(size));
  }

  lemma StartPowerOfTwo(size: nat, a1: nat, a0: nat, u: nat)
    requires 0 < a1 < Pow2(size) && a0 < Pow2(size) && a1 == Pow2(BitLength(a1) - 1)
    requires u == Pow2(StartBits(size, a1, a0))
    ensures if StartTooLow(size, a1, a0) then (u + 1) * (u + 1) <= Wide(size, a1, a0)
            else Wide(size, a1, a0) < (u + 1) * (u + 1)
  {
    hide *;
    var k := BitLength(a1) - 1;
    StartOfPower(size, a1, a0, k);
    StartTooLowIs(size, a1, a0, k);
    StartPower(size, k, a0, u);
  }

  lemma StartPower(size: nat, k: nat, a0: nat, u: nat)
    requires a0 < Pow2(size) && u == Pow2((size + k + 1) / 2)
    ensures (u + 1) * (u + 1) <= Wide(size, Pow2(k), a0) <==> (size + k) % 2 == 0 && a0 > 2 * Pow2((size + k) / 2)
  {
    hide *;
    var l := size + k;
    Pow2Mono(size, l);
    var uu, above := StartSquares(l, u);
    PowerWide(size, k, a0);
    StartDecision(Wide(size, Pow2(k), a0), Pow2(l), a0, u, uu, above, l % 2 == 0);
    if l % 2 == 0 {
      assert (l + 1) / 2 == l / 2;
    }
  }

  lemma StartSquares(l: nat, u: nat) returns (uu: int, above: int)
    requires u == Pow2((l + 1) / 2)
    ensures uu == (if l % 2 == 0 then Pow2(l) else 2 * Pow2(l)) && above == uu + 2 * u + 1 && above == (u + 1) * (u + 1)
  {
    hide *;
    StartSquare(l, u);
    uu, above := u * u, (u + 1) * (u + 1);
  }

  lemma PowerWide(size: nat, k: nat, a0: nat)
    ensures Wide(size, Pow2(k), a0) == Pow2(size + k) + a0
  {
    hide *;
    WideIs(size, Pow2(k), a0);
    Pow2Add(k, size);
  }

  lemma StartDecision(a: nat, p: nat, a0: nat, u: nat, uu: int, above: int, even: bool)
    requires a == p + a0 && a0 < p + 1 && uu == (if even then p else 2 * p) && above == uu + 2 * u + 1
    ensures above <= a <==> even && a0 > 2 * u
  {
  }

  lemma StartTooLowIs(size: nat, a1: nat, a0: nat, k: nat)
    requires a1 > 0 && k == BitLength(a1) - 1 && a1 == Pow2(k)
    ensures StartTooLow(size, a1, a0) <==> (size + k) % 2 == 0 && a0 > 2 * Pow2((size + k) / 2)
  {
    hide Pow2, BitLength;
  }

  lemma StartOfPower(size: nat, a1: nat, a0: nat, k: nat)
    requires 0 < a1 < Pow2(size) && a0 < Pow2(size) && a1 == Pow2(k)
    ensures StartBits(size, a1, a0) == (size + k + 1) / 2
  {
    LengthBelowPower(k);
    hide Pow2, BitLength;
  }

  lemma {:induction false} LengthBelowPower(k: nat)
    ensures BitLength(Pow2(k) - 1) == k
  {
    hide Pow2, BitLength;
    if k > 0 {
      Pow2Succ(k - 1);
      BitLengthIs(Pow2(k) - 1, k);
    } else {
      PowZero();
    }
  }

  lemma PowZero()
    ensures Pow2(0) == 1 && BitLength(0) == 0
  {
  }

  /**
   * sqrtrem_u where the host can divide a number of two words. The result is the integer square
   * root exactly when the start value was not too low.
   */
  method SqrtremULong(size: nat, a1: nat, a0: nat) returns (s: nat, inexact: bool)
    requires size >= 2 && a1 < Pow2(size - 2) && a0 < Pow2(size)
    ensures IsRoot(Wide(size, a1, a0), s) <==> !StartTooLow(size, a1, a0)
    ensures inexact <==> s * s != Wide(size, a1, a0)
  {
    hide *;
    Pow2Mono(size - 2, size);
    var a := Wide(size, a1, a0);
    if a1 == 0 && a0 == 0 {
      RootOfZero(size);
      return 0, false;
    }
    var u := Pow2(StartBits(size, a1, a0));
    ghost var t := RootExists(a);
    StartSide(size, a1, a0, u, t);
    ghost var low, start := StartTooLow(size, a1, a0), u;
    while true
      invariant u > 0 && if low then u == start else u >= t
      decreases u
    {
      s := u;
      u := NewtonStep(a, s, t);
      if u >= s {
        break;
      }
    }
    RootUnique(a, s, t);
    inexact := a - s * s != 0;
  }

  lemma RootOfZero(size: nat)
    ensures Wide(size, 0, 0) == 0 && IsRoot(0, 0) && !StartTooLow(size, 0, 0)
  {
  }

  lemma StartSide(size: nat, a1: nat, a0: nat, u: nat, t: nat)
    requires a1 < Pow2(size) && a0 < Pow2(size) && (a1 != 0 || a0 != 0)
    requires u == Pow2(StartBits(size, a1, a0)) && IsRoot(Wide(size, a1, a0), t)
    ensures StartTooLow(size, a1, a0) <==> u < t
    ensures t > 0
  {
    hide *;
    StartValue(size, a1, a0, u);
    AboveRoot(Wide(size, a1, a0), t, u);
    AboveRoot(Wide(size, a1, a0), t, 0);
    WideIs(size, a1, a0);
    MulLe(0, a1, Pow2(size));
    MulLe(if a1 == 0 then 0 else 1, a1, Pow2(size));
  }

  /** `u = (a / s + s) / 2` */
  method NewtonStep(a: nat, s: nat, ghost t: nat) returns (u: nat)
    requires s > 0 && IsRoot(a, t)
    ensures u >= t && (s > t ==> u < s) && (s < t ==> u >= s) && u == (a / s + s) / 2
  {
    hide *;
    DivMod(a, s);
    NewtonTurn(a, s, t, a / s, a % s);
    u := (a / s + s) / 2;
  }

  /** Being at least the root, told by squares. */
  lemma AboveRoot(a: nat, t: nat, u: nat)
    requires IsRoot(a, t)
    ensures u >= t <==> a < (u + 1) * (u + 1)
  {
    SquareLess(u + 1, t + 1);
    SquareLess(t, u + 1);
  }

  lemma RootUnique(a: nat, s: nat, t: nat)
    requires IsRoot(a, t)
    ensures IsRoot(a, s) <==> s == t
  {
    if IsRoot(a, s) {
      SquareLess(s, t + 1);
      SquareLess(t, s + 1);
    }
  }

  /** One turn of the loop, from a value at or above the root, or well below it. */
  lemma NewtonTurn(a: nat, s: nat, t: nat, q: nat, r: nat)
    requires s > 0 && a == q * s + r && r < s && IsRoot(a, t)
    ensures (q + s) / 2 >= t
    ensures s > t ==> (q + s) / 2 < s
    ensures s < t ==> (q + s) / 2 >= s
  {
    NewtonStaysAbove(a, s, t, q, r);
    if s > t {
      AboveRoot(a, t, s - 1);
      NewtonDescends(a, s, q, r);
    }
  }

  // ---- the same with single words -----------------------------------------------------------

  /** The radicand on which the sum q + s of the last step does not fit a word. */
  predicate LargestRadicand(size: nat, a1: nat, a0: nat)
    requires size >= 2
  {
    a1 == Pow2(size - 2) - 1 && a0 == Pow2(size) - 1
  }

  lemma LargestIs(size: nat, a1: nat, a0: nat)
    requires size >= 2 && a1 < Pow2(size - 2) && a0 < Pow2(size) && !LargestRadicand(size, a1, a0)
    ensures Wide(size, a1, a0) + 1 < Pow2(size - 1) * Pow2(size - 1)
  {
    var h := Pow2(size - 2);
    assert a1 < h - 1 || (a1 == h - 1 && a0 < Pow2(size) - 1);
    hide *;
    Pow2Add(size - 1, size - 1);
    Pow2Add(size - 2, size);
    WideIs(size, a1, a0);
    MulSucc(h, Pow2(size));
    MulSucc(a1, Pow2(size));
    MulLe(a1 + 1, h, Pow2(size));
    if a1 < h - 1 {
      MulLe(a1 + 1, h - 1, Pow2(size));
    }
  }

  /** The root is above the high word and below half of the word range. */
  lemma RootRange(size: nat, a1: nat, a0: nat, t: nat)
    requires size >= 2 && a1 < Pow2(size - 2) && a0 < Pow2(size) && (a1 != 0 || a0 != 0) && IsRoot(Wide(size, a1, a0), t)
    ensures a1 < t < Pow2(size - 1)
  {
    var a, h := Wide(size, a1, a0), Pow2(size - 2);
    hide *;
    WideIs(size, a1, a0);
    Pow2Succ(size - 2);
    Pow2Succ(size - 1);
    AboveRoot(a, t, a1);
    RootRangeLow(a1, a0, h, Pow2(size), a);
    AboveRoot(a, t, Pow2(size - 1) - 1);
    Pow2Add(size - 1, size - 1);
    Pow2Add(size - 2, size);
    MulLe(a1 + 1, h, Pow2(size));
    MulSucc(a1, Pow2(size));
    RootIs(a, t);
    SquareLess(t, Pow2(size - 1));
  }

  lemma RootIs(a: nat, t: nat)
    requires IsRoot(a, t)
    ensures t * t <= a < (t + 1) * (t + 1)
  {
  }

  lemma RootRangeLow(a1: nat, a0: nat, h: nat, g: nat, a: nat)
    requires a1 < h && g == 4 * h && a == a1 * g + a0 && (a1 != 0 || a0 != 0)
    ensures (a1 + 1) * (a1 + 1) <= a
  {
    if a1 == 0 {
      assert a >= 1;
    } else {
      MulLe(a1 + 1, h, a1 + 1);
      MulLe(a1 + 1, 2 * a1, h);
      assert 2 * a1 * h <= a1 * (4 * h);
    }
  }

  /** From the root, the sum leaves the word only on that one radicand. */
  lemma StepFits(a: nat, s: nat, t: nat, q: nat, r: nat, half: nat)
    requires a == q * s + r && r < s && IsRoot(a, t) && 0 < t < half && s == t && a + 1 < half * half
    ensures q + s < 2 * half
  {
    assert (t + 1) * (t + 1) == t * t + 2 * t + 1;
    assert (t + 3) * t == t * t + 3 * t;
    assert (t + 2) * t + 1 == (t + 1) * (t + 1);
    MulCompare(t + 2, q, t);
    if q >= t + 3 {
      MulLe(t + 3, q, t);
    }
  }

  /** From above the root, it never does. */
  lemma StepFitsAbove(a: nat, s: nat, t: nat, q: nat, r: nat)
    requires a == q * s + r && r < s && IsRoot(a, t) && t < s
    ensures q < s
  {
    AboveRoot(a, t, s - 1);
    MulCompare(q, s, s);
  }

  /** The one step from a start value that is too low. */
  lemma LowStepFits(size: nat, a1: nat, a0: nat, s: nat, q: nat, r: nat)
    requires size >= 2 && a1 < Pow2(size - 2) && a0 < Pow2(size) && StartTooLow(size, a1, a0)
    requires s == Pow2(StartBits(size, a1, a0)) && Wide(size, a1, a0) == q * s + r && r < s
    ensures q + s < Pow2(size)
  {
    hide *;
    Pow2Mono(size - 2, size);
    var k := LowStart(size, a1, a0);
    var m := (size + k) / 2;
    Pow2Add(m, m);
    Pow2Add(k, size);
    WideIs(size, a1, a0);
    Pow2Mono(m, size - 2);
    Pow2Succ(size - 2);
    Pow2Succ(size - 1);
    Pow2Add(m, size - m);
    Pow2Mono(size - m, m);
    LowStepAlgebra(s, q, r, a0, Pow2(size - m), Pow2(size));
  }

  /** Such a start value is the square root of the power of two that the high word holds. */
  lemma LowStart(size: nat, a1: nat, a0: nat) returns (k: nat)
    requires size >= 2 && a1 < Pow2(size - 2) && a1 < Pow2(size) && a0 < Pow2(size) && StartTooLow(size, a1, a0)
    ensures a1 == Pow2(k) && (size + k) % 2 == 0 && StartBits(size, a1, a0) == (size + k) / 2 && k < size - 2
  {
    k := BitLength(a1) - 1;
    StartOfPower(size, a1, a0, k);
    if k >= size - 2 {
      Pow2Mono(size - 2, k);
    }
  }

  lemma LowStepAlgebra(s: nat, q: nat, r: nat, a0: nat, d: nat, g: nat)
    requires s > 0 && r < s && q * s + r == s * s + a0 && a0 < g && g == s * d && d <= s && 4 * s <= g
    ensures q + s < g
  {
    MulSum(q, s, s);
    MulCompare(q - s, d, s);
  }

  /** A bound on the start value. */
  lemma StartRange(size: nat, a1: nat, a0: nat)
    requires size >= 2 && a1 < Pow2(size - 2) && a1 < Pow2(size) && a0 < Pow2(size) && (a1 != 0 || a0 != 0)
    ensures Pow2(StartBits(size, a1, a0)) <= Pow2(size - 1)
  {
    if a1 != 0 {
      BitLengthAtMost(a1 - 1, size - 2);
    } else {
      BitLengthAtMost(a0 - 1, size);
    }
    assert StartBits(size, a1, a0) <= if a1 != 0 then size - 1 else (size + 1) / 2;
    hide Pow2, BitLength, StartBits;
    Pow2Mono(StartBits(size, a1, a0), size - 1);
  }

  /**
   * sqrtrem_u with words alone, as it is compiled where the host has no type of twice the width. On
   * the largest radicand its last sum wraps to zero and the assertion of the next division stops it.
   */
  method SqrtremU(size: nat, a1: nat, a0: nat) returns (s: nat, inexact: bool, aborts: bool)
    requires size >= 4 && size % 2 == 0 && a1 < Pow2(size - 2) && a0 < Pow2(size)
    ensures aborts <==> LargestRadicand(size, a1, a0)
    ensures !aborts ==> (IsRoot(Wide(size, a1, a0), s) <==> !StartTooLow(size, a1, a0))
    ensures !aborts ==> (inexact <==> s * s != Wide(size, a1, a0))
  {
    hide *;
    Pow2Mono(size - 2, size);
    Pow2Mono(size - 1, size);
    ghost var a := Wide(size, a1, a0);
    if a1 == 0 && a0 == 0 {
      RootOfZero(size);
      LowWordZero(size, a1);
      return 0, false, false;
    }
    var u := Pow2(StartBits(size, a1, a0));
    ghost var t := RootExists(a);
    StartSide(size, a1, a0, u, t);
    StartRange(size, a1, a0);
    RootRange(size, a1, a0, t);
    ghost var low, start, largest := StartTooLow(size, a1, a0), u, LargestRadicand(size, a1, a0);
    LargestNotLow(size, a1, a0);
    while true
      invariant if u == 0 then largest else u <= Pow2(size - 1) && if low then u == start else u >= t
      decreases u
    {
      s := u;
      if a1 >= s {
        if low && s == start {
          LowStartAbove(size, a1, a0, s);
        }
        return 0, false, true;
      }
      u := WordStep(size, a1, a0, s, t);
      if u >= s {
        break;
      }
    }
    RootUnique(a, s, t);
    var sq1, sq0 := MulWords(false, size, s, s);
    inexact, aborts := sq0 != a0 || sq1 != a1, false;
    WideEqual(size, sq1, sq0, a1, a0);
  }

  lemma LargestNotLow(size: nat, a1: nat, a0: nat)
    requires size >= 4 && a1 < Pow2(size - 2) && a1 < Pow2(size) && a0 < Pow2(size)
    ensures LargestRadicand(size, a1, a0) ==> !StartTooLow(size, a1, a0)
  {
    hide Pow2, StartTooLow;
    if LargestRadicand(size, a1, a0) && StartTooLow(size, a1, a0) {
      var k := LowStart(size, a1, a0);
      PowerNotAllOnes(size - 2, k);
    }
  }

  lemma PowerNotAllOnes(n: nat, k: nat)
    requires n >= 2
    ensures Pow2(k) != Pow2(n) - 1
  {
    Pow2Mono(2, n);
    if k < n {
      Pow2Mono(k, n - 1);
    } else {
      Pow2Mono(n, k);
    }
  }

  lemma WideEqual(size: nat, h1: nat, l1: nat, h2: nat, l2: nat)
    requires l1 < Pow2(size) && l2 < Pow2(size)
    ensures Wide(size, h1, l1) == Wide(size, h2, l2) <==> h1 == h2 && l1 == l2
  {
    hide *;
    WideShr(size, h1, l1);
    WideShr(size, h2, l2);
  }

  /** One division and one sum, both within a word but for the last sum of the largest radicand. */
  method WordStep(size: nat, a1: nat, a0: nat, s: nat, ghost t: nat) returns (u: nat)
    requires size >= 3 && a1 < Pow2(size - 2) && a0 < Pow2(size) && (a1 != 0 || a0 != 0)
    requires IsRoot(Wide(size, a1, a0), t) && a1 < s <= Pow2(size - 1) && a1 < Pow2(size)
    requires s >= t || (StartTooLow(size, a1, a0) && s == Pow2(StartBits(size, a1, a0)))
    ensures if s == t && LargestRadicand(size, a1, a0) then u == 0
            else u >= t && (s > t ==> u < s) && (s < t ==> u >= s) && u <= Pow2(size - 1)
  {
    hide *;
    Pow2Succ(size - 1);
    RootRange(size, a1, a0, t);
    var q, r := DivremU(size, a1, a0, s);
    if s == t && LargestRadicand(size, a1, a0) {
      LargestStep(size, a1, a0, s, q, r);
    } else {
      NewtonTurn(Wide(size, a1, a0), s, t, q, r);
      if s == t {
        LargestIs(size, a1, a0);
        StepFits(Wide(size, a1, a0), s, t, q, r, Pow2(size - 1));
      } else if s > t {
        StepFitsAbove(Wide(size, a1, a0), s, t, q, r);
      } else {
        LowStepFits(size, a1, a0, s, q, r);
      }
      LowSmall(q + s, size);
    }
    u := Low(q + s, size) / 2;
  }

  /** The sum that wraps. */
  lemma LargestStep(size: nat, a1: nat, a0: nat, s: nat, q: nat, r: nat)
    requires size >= 3 && LargestRadicand(size, a1, a0) && a1 < Pow2(size) && a0 < Pow2(size) && s > 0
    requires IsRoot(Wide(size, a1, a0), s) && Wide(size, a1, a0) == q * s + r && r < s
    ensures Low(q + s, size) / 2 == 0
  {
    var a, t := Wide(size, a1, a0), Pow2(size - 1) - 1;
    assert a1 == Pow2(size - 2) - 1 && a0 == Pow2(size) - 1;
    hide *;
    LargestWraps(size);
    RootUnique(a, s, t);
    DivModUnique(a, s, q, r);
    DivModUnique(a, s, t + 2, 0);
    ShrUnique(Pow2(size), size, 1, 0);
  }

  lemma LowStartAbove(size: nat, a1: nat, a0: nat, s: nat)
    requires size >= 2 && a1 < Pow2(size - 2) && a1 < Pow2(size) && a0 < Pow2(size) && StartTooLow(size, a1, a0)
    requires s == Pow2(StartBits(size, a1, a0))
    ensures a1 < s
  {
    hide *;
    var k := LowStart(size, a1, a0);
    Pow2Mono(k, (size + k) / 2);
  }

  /** sqrtrem_u in the form the host has types for, with a low word of zero. */
  method SqrtremWords(ulong: bool, size: nat, a1: nat) returns (s: nat, inexact: bool)
    requires size >= 4 && a1 < Pow2(size - 2) && (ulong || size % 2 == 0)
    ensures IsRoot(Wide(size, a1, 0), s) <==> !StartTooLow(size, a1, 0)
    ensures inexact <==> s * s != Wide(size, a1, 0)
  {
    hide *;
    if ulong {
      s, inexact := SqrtremULong(size, a1, 0);
    } else {
      LowWordZero(size, a1);
      var aborts;
      s, inexact, aborts := SqrtremU(size, a1, 0);
    }
  }

  lemma LowWordZero(size: nat, a1: nat)
    requires size >= 2
    ensures !LargestRadicand(size, a1, 0)
  {
    Pow2Mono(1, size);
  }

  /** On the largest radicand, the step from its root is the one that wraps. */
  lemma LargestWraps(size: nat)
    requires size >= 2
    ensures var a, t := Wide(size, Pow2(size - 2) - 1, Pow2(size) - 1), Pow2(size - 1) - 1;
            IsRoot(a, t) && a == (t + 2) * t && (t + 2) + t == Pow2(size)
  {
    var h, g := Pow2(size - 1), Pow2(size);
    var a := Wide(size, Pow2(size - 2) - 1, g - 1);
    Pow2Succ(size - 1);
    Pow2Add(size - 1, size - 1);
    Pow2Add(size - 2, size);
    WideIs(size, Pow2(size - 2) - 1, g - 1);
    MulSucc(Pow2(size - 2), g);
    assert a == h * h - 1;
    LargestAlgebra(a, h);
    hide Pow2;
  }

  lemma LargestAlgebra(a: int, h: int)
    requires a == h * h - 1 && h >= 1
    ensures (h - 1) * (h - 1) <= a < h * h && a == (h - 1 + 2) * (h - 1)
  {
    assert (h - 1) * (h - 1) == h * h - 2 * h + 1;
    assert (h + 1) * (h - 1) == h * h - 1;
  }

  // ---- sqrt_sf ------------------------------------------------------------------------------

  /** x is the square root of a magnitude. */
  ghost predicate IsRealRoot(f: Format, a: nat, x: real) {
    x >= 0.0 && x * x == Magnitude(f, a)
  }

  /**
   * The root of a positive finite number, correctly rounded: some value that compares as the root with
   * everything rounding looks at is delivered, and so is every such value, a real root among them.
   */
  ghost predicate RootDelivered(f: Format, rm: RoundingMode, a: nat, r: int, before: set<Flag>, after: set<Flag>) {
    && (exists x :: ComparesAsRoot(f, Magnitude(f, a), x) && Delivers(f, rm, false, x, r, before, after))
    && (forall x :: ComparesAsRoot(f, Magnitude(f, a), x) ==> Delivers(f, rm, false, x, r, before, after))
    && (forall x :: IsRealRoot(f, a, x) ==> Delivers(f, rm, false, x, r, before, after))
  }

  /** The outcome of a square root, for operands of every kind (sections 5.4.1, 6.1, 6.2, 6.3 and 7.2 of IEEE 754-2008). */
  ghost predicate Root(f: Format, rm: RoundingMode, a: nat, r: nat, before: set<Flag>, after: set<Flag>) {
    if IsNan(f, a) then IsDefaultNan(f, r) && after == Raise(before, IsSignaling(f, a), {Invalid})
    else if IsZero(f, a) then r == a && after == before
    else if Sign(f, a) then IsDefaultNan(f, r) && after == before + {Invalid}
    else if IsInfinite(f, a) then r == a && after == before
    else RootDelivered(f, rm, a, r, before, after)
  }

  /** One value that compares as the root settles it for all. */
  lemma DeliveredForAll(f: Format, rm: RoundingMode, a: nat, x: real, r: int, before: set<Flag>, after: set<Flag>)
    requires ComparesAsRoot(f, Magnitude(f, a), x) && Delivers(f, rm, false, x, r, before, after)
    requires Magnitude(f, a) > 0.0
    ensures RootDelivered(f, rm, a, r, before, after)
  {
    hide ComparesAsRoot, Delivers, Magnitude;
    var v := Magnitude(f, a);
    forall x' | ComparesAsRoot(f, v, x')
      ensures Delivers(f, rm, false, x', r, before, after)
    {
      RootsDeliverAlike(f, rm, v, x, x', r, before, after);
    }
    forall x' | IsRealRoot(f, a, x')
      ensures Delivers(f, rm, false, x', r, before, after)
    {
      assert x' != 0.0;
      RealRootCompares(f, v, x');
    }
  }

  /** The exponent and the significand that sqrt_sf makes even, and the radicand it forms. */
  lemma EvenExponent(f: Format, e: int, m: nat, v: real, e': int, m': nat)
    requires Normal(f, e, m, v)
    requires if (e - f.Bias()) % 2 != 0 then e' == e - f.Bias() - 1 && m' == 2 * m else e' == e - f.Bias() && m' == m
    ensures e' % 2 == 0 && f.Hidden() <= m' < 4 * f.Hidden()
    ensures v == m' as real * Scale(e' - f.mantSize)
  {
    hide *;
    NormalIs(f, e, m, v);
    if (e - f.Bias()) % 2 != 0 {
      ScaleSucc(e - 1 - f.Bias() - f.mantSize);
      TwiceProduct(m as real, Scale(e' - f.mantSize), Scale(e' - f.mantSize + 1), m as real * Scale(e' - f.mantSize), v);
      TwiceHalf(m as real, Scale(e' - f.mantSize));
    }
  }

  lemma TwiceHalf(a: real, b: real)
    ensures 2.0 * (a * b) == 2.0 * a * b
  {
  }

  /** The radicand: the high word holds the significand, its leading bit at F_SIZE - 4 or F_SIZE - 3. */
  lemma RadicandBounds(f: Format, m: nat)
    requires f.Hidden() <= m < 4 * f.Hidden()
    ensures var a1 := Shl(f.Size(), m, f.RndSize() - 2);
            && a1 == m * Pow2(f.RndSize() - 2) && Pow2(f.Size() - 4) <= a1 < Pow2(f.Size() - 2)
            && Wide(f.Size(), a1, 0) == m * Pow2(f.mantSize + 2 * f.RndSize())
  {
    hide *;
    var s := f.RndSize() - 2;
    Pow2Succ(f.mantSize);
    Pow2Succ(f.mantSize + 1);
    Pow2Add(f.mantSize, s);
    Pow2Add(f.mantSize + 2, s);
    MulLe(f.Hidden(), m, Pow2(s));
    MulLt(m, Pow2(f.mantSize + 2), Pow2(s));
    Pow2Mono(f.Size() - 2, f.Size());
    ShlExact(f.Size(), m, s);
    WideIs(f.Size(), m * Pow2(s), 0);
    Pow2Add(s, f.Size());
    MulAssoc(m, Pow2(s), Pow2(f.Size()));
  }

  lemma RootBounds(f: Format, a1: nat, s: nat)
    requires Pow2(f.Size() - 4) <= a1 < Pow2(f.Size() - 2) && IsRoot(Wide(f.Size(), a1, 0), s)
    ensures Pow2(f.Size() - 2) <= s < Pow2(f.Size() - 1)
  {
    var g, h := Pow2(f.Size() - 2), Pow2(f.Size() - 1);
    WideIs(f.Size(), a1, 0);
    var a := Wide(f.Size(), a1, 0);
    assert s * s <= a < (s + 1) * (s + 1);
    hide *;
    Pow2Add(f.Size() - 2, f.Size() - 2);
    Pow2Add(f.Size() - 1, f.Size() - 1);
    Pow2Add(f.Size() - 4, f.Size());
    Pow2Add(f.Size() - 2, f.Size());
    MulLe(Pow2(f.Size() - 4), a1, Pow2(f.Size()));
    MulLt(a1, Pow2(f.Size() - 2), Pow2(f.Size()));
    SquareLess(g, s + 1);
    SquareLess(s, h);
  }

  /** In units of the result's last bit, the radicand is the operand's value. */
  lemma RadicandValue(f: Format, e': int, m': nat, v: real, exp: int, a: nat)
    requires e' % 2 == 0 && exp == e' / 2 + f.Bias()
    requires v == m' as real * Scale(e' - f.mantSize) && a == m' * Pow2(f.mantSize + 2 * f.RndSize())
    ensures v == Times(a, Square(UnitOf(f, exp)))
  {
    hide Scale, Pow2;
    var w := exp - f.Bias() - f.mantSize - f.RndSize();
    var d := f.mantSize + 2 * f.RndSize();
    ScaleAdd(w, w);
    assert w + w + d == e' - f.mantSize;
    ScaleAddNat(w + w, d);
    assert Square(UnitOf(f, exp)) == Scale(w + w);
    assert v == Times(m', Scale(e' - f.mantSize));
    hide Times, Square, UnitOf;
    TimesPow2(Square(UnitOf(f, exp)), d, m', a, Scale(e' - f.mantSize));
  }

  /** A stand-in for the root of a in units: the integer root, or a point between it and the next integer. */
  function Surrogate(s: nat, inexact: bool): (y: real)
    ensures if inexact then s as real < y < (s + 1) as real else y == s as real
  {
    if inexact then s as real + 0.5 else s as real
  }

  lemma SurrogateStandsIn(f: Format, exp: int, v: real, a: nat, s: nat)
    requires IsRoot(a, s) && v == Times(a, Square(UnitOf(f, exp)))
    ensures StandsIn(Worth(f, exp, Surrogate(s, s * s != a)), v, UnitOf(f, exp), a, s)
  {
    hide Scale, Square, Surrogate;
    var w, y := UnitOf(f, exp), Surrogate(s, s * s != a);
    assert Worth(f, exp, y) == y * w;
    hide UnitOf, Worth;
    RealCompare(s as real, y, w);
    RealCompare(y, (s + 1) as real, w);
  }

  /** The rounded root of a positive finite number. */
  method SqrtNormal(f: Format, ulong: bool, a: nat, rm: RoundingMode, fflags: set<Flag>) returns (r: nat, fl: set<Flag>)
    requires IsWord(f, a) && IsFinite(f, a) && !IsZero(f, a) && (ulong || f.Size() % 2 == 0)
    ensures RootDelivered(f, rm, a, r, fflags, fl)
  {
    hide *;
    PreparedNormal(f, a);
    var (aExp, aMant) := Prepared(f, ExpField(f, a), MantField(f, a));
    ghost var e, m := aExp, aMant;
    aExp := aExp - f.Bias();
    if aExp % 2 != 0 {
      aExp := aExp - 1;
      aMant := 2 * aMant;
    }
    ghost var e', m' := aExp, aMant;
    EvenExponent(f, e, m, Magnitude(f, a), e', m');
    aExp := aExp / 2 + f.Bias();
    RadicandBounds(f, aMant);
    aMant := Shl(f.Size(), aMant, f.RndSize() - 2);
    ghost var a1 := aMant;
    NeverTooLow(f.Size(), a1);
    var s, inexact := SqrtremWords(ulong, f.Size(), aMant);
    RootBounds(f, a1, s);
    JamRoot(f, s, inexact);
    aMant := Jam(s, inexact);
    r, fl := NormalizeSf(f, false, aExp, aMant, rm, fflags);
    RootFaithful(f, e', m', Magnitude(f, a), aExp, Wide(f.Size(), a1, 0), s);
    MagnitudeSign(f, a);
    DeliveredForAll(f, rm, a, Worth(f, aExp, Surrogate(s, inexact)), r, fflags, fl);
  }

  lemma NeverTooLow(size: nat, a1: nat)
    ensures !StartTooLow(size, a1, 0)
  {
    hide Pow2, BitLength;
  }

  lemma JamRoot(f: Format, s: nat, inexact: bool)
    requires Pow2(f.Size() - 2) <= s < Pow2(f.Size() - 1)
    ensures Pow2(f.mantSize + 2) <= Jam(s, inexact) < Pow2(f.Size() - 1) && 0 < Jam(s, inexact)
  {
    Pow2Mono(f.mantSize + 2, f.Size() - 2);
    Pow2Succ(f.Size() - 3);
    Pow2Succ(f.Size() - 2);
    hide Pow2;
    JamStays(s, inexact, Pow2(f.Size() - 2), Pow2(f.Size() - 1));
  }

  /** The stand-in compares as the root, and the jammed integer root stands for it. */
  lemma RootFaithful(f: Format, e': int, m': nat, v: real, exp: int, a: nat, s: nat)
    requires e' % 2 == 0 && exp == e' / 2 + f.Bias() && v == m' as real * Scale(e' - f.mantSize)
    requires a == m' * Pow2(f.mantSize + 2 * f.RndSize()) && IsRoot(a, s) && Pow2(f.Size() - 2) <= s
    requires Pow2(f.mantSize + 2) <= Jam(s, s * s != a)
    ensures ComparesAsRoot(f, v, Worth(f, exp, Surrogate(s, s * s != a)))
    ensures Faithful(f, Jam(s, s * s != a), Surrogate(s, s * s != a), 1)
  {
    hide *;
    RadicandValue(f, e', m', v, exp, a);
    SurrogateStandsIn(f, exp, v, a, s);
    StandsInCompares(f, exp, Worth(f, exp, Surrogate(s, s * s != a)), v, a, s);
    AgreesOdd(s, s * s != a, Surrogate(s, s * s != a));
    FaithfulFrom(f, Jam(s, s * s != a), Surrogate(s, s * s != a), 1);
  }

  /** sqrt_sf */
  method SqrtSf(f: Format, ulong: bool, a: nat, rm: RoundingMode, fflags: set<Flag>) returns (r: nat, fl: set<Flag>)
    requires IsWord(f, a) && (ulong || f.Size() % 2 == 0)
    ensures Root(f, rm, a, r, fflags, fl)
  {
    hide Pow2, Shr, Low, Magnitude, Sign, Code, ExpField, MantField, IsWord, Delivers, IsSigNanSf, Qnan, IsDefaultNan, Pack, Encode,
      RootDelivered;
    KindOfFields(f, a);
    IsSigNanSfCorrect(f, a);
    FieldsMakeCode(f, a);
    PackedConstants(f, false);
    fl := fflags;
    if ExpField(f, a) == f.ExpMask() {
      if MantField(f, a) != 0 {
        if IsSigNanSf(f, a) {
          fl := fl + {Invalid};
        }
        r := Qnan(f);
      } else if Sign(f, a) {
        r, fl := Qnan(f), fl + {Invalid};
      } else {
        r := a;
      }
    } else if Sign(f, a) {
      if ExpField(f, a) == 0 && MantField(f, a) == 0 {
        r := a;
      } else {
        r, fl := Qnan(f), fl + {Invalid};
      }
    } else if ExpField(f, a) == 0 && MantField(f, a) == 0 {
      r := Pack(f, false, 0, 0);
    } else {
      r, fl := SqrtNormal(f, ulong, a, rm, fflags);
    }
  }
}
