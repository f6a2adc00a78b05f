/** Bitmaps of dirty pages, 32 pages to a word. */
module DirtyBits {
  import opened Powers
  import opened Bits

  /** `w | (1 << k)` */
  function SetBit(w: nat, k: nat): nat {
    if Bit(w, k) then w else w + Pow2(k)
  }

  /** Setting a bit sets that bit and no other. */
  lemma SetBitIs(w: nat, k: nat, j: nat)
    ensures Bit(SetBit(w, k), j) <==> j == k || Bit(w, j)
  {
    hide Shr, Pow2;
    if !Bit(w, k) {
      if j <= k {
        SetAbove(w, j, k - j);
        PowParity(k - j);
      } else {
        SetBelow(w, k, j);
      }
    }
  }

  /** Seen from bit j, bit j + d weighs 2^d. */
  lemma SetAbove(w: nat, j: nat, d: nat)
    ensures Shr(w + Pow2(j + d), j) == Shr(w, j) + Pow2(d)
  {
    hide *;
    ShrSplit(w, j);
    Pow2Add(d, j);
    MulSum(Shr(w, j), Pow2(d), Pow2(j));
    ShrUnique(w + Pow2(j + d), j, Shr(w, j) + Pow2(d), Low(w, j));
  }

  lemma PowParity(d: nat)
    ensures Pow2(d) % 2 == if d == 0 then 1 else 0
  {
    if d > 0 {
      Pow2Succ(d - 1);
    }
  }

  /** There is no carry out of a clear bit. */
  lemma SetBelow(w: nat, k: nat, j: nat)
    requires !Bit(w, k) && k < j
    ensures Shr(w + Pow2(k), j) == Shr(w, j)
  {
    var q := Shr(w, k) / 2;
    assert Shr(w, k) == 2 * q;
    hide *;
    ShrSplit(w, k);
    Pow2Succ(k);
    assert 2 * q * Pow2(k) == q * (2 * Pow2(k));
    ShrUnique(w, k + 1, q, Low(w, k));
    ShrUnique(w + Pow2(k), k + 1, q, Low(w, k) + Pow2(k));
    ShrTwice(w, k + 1, j - k - 1);
    ShrTwice(w + Pow2(k), k + 1, j - k - 1);
  }

  lemma ShrTwice(w: nat, a: nat, b: nat)
    ensures Shr(w, a + b) == Shr(Shr(w, a), b)
  {
    DivPow2(w, a, b);
  }

  type Bitmap = seq<nat>

  /** phys_mem_is_dirty_bit */
  predicate IsDirty(bits: Bitmap, page: nat) {
    page / 32 < |bits| && Bit(bits[page / 32], page % 32)
  }

  /** Pages are numbered through the words, from the lowest bit up. */
  lemma DirtyPlace(bits: Bitmap, w: nat, b: nat)
    requires b < 32
    ensures IsDirty(bits, 32 * w + b) <==> w < |bits| && Bit(bits[w], b)
  {
    DivModUnique(32 * w + b, 32, w, b);
    hide Bit;
  }

  /** phys_mem_set_dirty_bit */
  function Marked(bits: Bitmap, page: nat): (r: Bitmap)
    requires page / 32 < |bits|
    ensures |r| == |bits|
  {
    bits[page / 32 := SetBit(bits[page / 32], page % 32)]
  }

  lemma MarkedIs(bits: Bitmap, page: nat, q: nat)
    requires page / 32 < |bits|
    ensures IsDirty(Marked(bits, page), q) <==> q == page || IsDirty(bits, q)
  {
    hide Bit, SetBit;
    if page / 32 == q / 32 {
      SetBitIs(bits[page / 32], page % 32, q % 32);
    }
  }

  /** Marking a marked page changes nothing. */
  lemma MarkedAgain(bits: Bitmap, page: nat)
    requires IsDirty(bits, page)
    ensures Marked(bits, page) == bits
  {
  }

  predicate AllClear(bits: Bitmap) {
    forall i :: 0 <= i < |bits| ==> bits[i] == 0
  }

  lemma AllClearIs(bits: Bitmap, page: nat)
    requires AllClear(bits)
    ensures !IsDirty(bits, page)
  {
    ShrUnique(0, page % 32, 0, 0);
  }
}
