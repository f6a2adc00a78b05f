/** The bits of a number. */
module Bits {
  import opened Powers

  predicate Bit(n: nat, i: nat) {
    Shr(n, i) % 2 == 1
  }

  lemma BitZero(n: nat)
    ensures Bit(n, 0) <==> n % 2 == 1
  {
    ShrUnique(n, 0, n, 0);
  }

  lemma BitHalf(n: nat, i: nat)
    ensures Bit(n, i + 1) <==> Bit(n / 2, i)
  {
    DivPow2(n, 1, i);
    SmallPowers();
    hide Pow2;
    assert 1 + i == i + 1;
  }

  lemma BitOfZero(i: nat)
    ensures !Bit(0, i)
  {
    LowSmall(0, i);
  }

  /** Bits above and below a cut. */
  lemma BitAbove(n: nat, k: nat, i: nat)
    ensures Bit(n, k + i) <==> Bit(Shr(n, k), i)
  {
    DivPow2(n, k, i);
    hide Pow2;
  }

  lemma {:induction false} BitBelow(n: nat, k: nat, i: nat)
    requires i < k
    ensures Bit(n, i) <==> Bit(Low(n, k), i)
    decreases k
  {
    hide Low, Bit;
    LowHalf(n, k - 1);
    if i == 0 {
      BitZero(n);
      BitZero(Low(n, k));
    } else {
      BitHalf(n, i - 1);
      BitHalf(Low(n, k), i - 1);
      BitBelow(n / 2, k - 1, i - 1);
    }
  }

  lemma LowHalf(n: nat, k: nat)
    ensures Low(n, k + 1) / 2 == Low(n / 2, k) && Low(n, k + 1) % 2 == n % 2
  {
    DivPow2(n, 1, k);
    SmallPowers();
    assert 1 + k == k + 1;
    hide Pow2;
    var q := n / 2 % Pow2(k);
    DivModUnique(q * 2 + n % 2, 2, q, n % 2);
  }

  /** A number put together from its part above a cut and its part below. */
  lemma BitJoined(n: nat, hi: nat, low: nat, k: nat, i: nat)
    requires n == hi * Pow2(k) + low && low < Pow2(k)
    ensures Bit(n, i) <==> if i < k then Bit(low, i) else Bit(hi, i - k)
  {
    hide *;
    ShrUnique(n, k, hi, low);
    if i < k {
      BitBelow(n, k, i);
    } else {
      BitAbove(n, k, i - k);
    }
  }

  lemma BitBeyond(n: nat, k: nat, i: nat)
    requires n < Pow2(k) && i >= k
    ensures !Bit(n, i)
  {
    Pow2Mono(k, i);
    LowSmall(n, i);
    hide Pow2;
  }

  lemma {:induction false} Ones(k: nat, i: nat)
    ensures Bit(Pow2(k) - 1, i) <==> i < k
    decreases k
  {
    hide Bit;
    if k == 0 {
      SmallPowers();
      BitOfZero(i);
    } else {
      Pow2Succ(k - 1);
      hide Pow2;
      var n := Pow2(k) - 1;
      DivModUnique(n, 2, Pow2(k - 1) - 1, 1);
      if i == 0 {
        BitZero(n);
      } else {
        BitHalf(n, i - 1);
        Ones(k - 1, i - 1);
      }
    }
  }

  /** A number whose bits are all clear, or all set. */
  lemma {:induction false} AllClear(n: nat, k: nat)
    requires n < Pow2(k) && forall i :: 0 <= i < k ==> !Bit(n, i)
    ensures n == 0
    decreases k
  {
    hide Bit;
    if k > 0 {
      BitZero(n);
      forall i | 0 <= i < k - 1
        ensures !Bit(n / 2, i)
      {
        BitHalf(n, i);
        assert !Bit(n, i + 1);
      }
      AllClear(n / 2, k - 1);
    }
  }

  lemma {:induction false} AllSet(n: nat, k: nat)
    requires n < Pow2(k) && forall i :: 0 <= i < k ==> Bit(n, i)
    ensures n == Pow2(k) - 1
    decreases k
  {
    hide Bit;
    if k > 0 {
      BitZero(n);
      forall i | 0 <= i < k - 1
        ensures Bit(n / 2, i)
      {
        BitHalf(n, i);
        assert Bit(n, i + 1);
      }
      AllSet(n / 2, k - 1);
    }
  }
}
