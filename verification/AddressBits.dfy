/** The parts of a translation bit by bit, and what a physical address leads to. */
module AddressBits {
  import opened Basics
  import opened Powers
  import opened Bits
  import opened PageWalk
  import opened Tlb

  // ---- page table entries and addresses -----------------------------------------------------------

  /** V, R, W, X, U, A and D are bits 0 to 4, 6 and 7 of an entry. */
  lemma EntryBits(pte: nat)
    ensures (PteV(pte) <==> Bit(pte, 0)) && (PteR(pte) <==> Bit(pte, 1)) && (PteW(pte) <==> Bit(pte, 2))
    ensures (PteX(pte) <==> Bit(pte, 3)) && (PteU(pte) <==> Bit(pte, 4)) && (PteA(pte) <==> Bit(pte, 6))
    ensures PteD(pte) <==> Bit(pte, 7)
  {
    LowPowers();
    hide Pow2;
  }

  lemma LowPowers()
    ensures Pow2(0) == 1 && Pow2(1) == 2 && Pow2(2) == 4 && Pow2(3) == 8 && Pow2(4) == 16 && Pow2(6) == 64 && Pow2(7) == 128
    ensures Pow2(9) == 512 && Pow2(10) == 1024 && Pow2(12) == 4096
  {
  }

  /** An address is canonical when the bits from the topmost that is translated are all alike. */
  lemma CanonicalBits(va: nat, levels: nat)
    requires va < Pow2(64) && 11 + 9 * levels < 64
    ensures Canonical(va, levels) <==>
            forall i :: 11 + 9 * levels <= i < 64 ==> (Bit(va, i) <==> Bit(va, 11 + 9 * levels))
  {
    var k := 11 + 9 * levels;
    var n := 64 - k;
    var hi, low := Shr(va, k), Low(va, k);
    CanonicalIs(va, levels, k);
    hide *;
    ShrSplit(va, k);
    Pow2Add(n, k);
    ShrBelow(va, k, n);
    SixtyFourBits();
    HighPart(va, hi, low, n, k);
    forall i | k <= i < 64
      ensures Bit(va, i) <==> Bit(hi, i - k)
    {
      BitAbove(va, k, i - k);
    }
    SameBits(va, hi, n, k);
  }

  lemma CanonicalIs(va: nat, levels: nat, k: nat)
    requires k == 11 + 9 * levels
    ensures Canonical(va, levels) <==> va < Pow2(k) || va >= 0x1_0000_0000_0000_0000 - Pow2(k)
  {
  }

  lemma SixtyFourBits()
    ensures Pow2(64) == 0x1_0000_0000_0000_0000
  {
    hide *;
    LowPowers();
    Pow2Add(12, 4);
    Pow2Add(16, 16);
    Pow2Add(32, 32);
  }

  /** The lowest and the highest values of the part above the cut. */
  lemma HighPart(va: nat, hi: nat, low: nat, n: nat, k: nat)
    requires va == hi * Pow2(k) + low && low < Pow2(k) && hi < Pow2(n) && Pow2(n + k) == Pow2(n) * Pow2(k)
    ensures va < Pow2(k) <==> hi == 0
    ensures va >= Pow2(n + k) - Pow2(k) <==> hi == Pow2(n) - 1
  {
    hide *;
    MulSucc(hi, Pow2(k));
    MulSucc(Pow2(n), Pow2(k));
    if hi > 0 {
      MulLe(1, hi, Pow2(k));
    }
    if hi < Pow2(n) - 1 {
      MulLe(hi + 1, Pow2(n) - 1, Pow2(k));
    }
  }

  lemma SameBits(va: nat, hi: nat, n: nat, k: nat)
    requires hi < Pow2(n) && n == 64 - k && k < 64
    requires forall i :: k <= i < 64 ==> (Bit(va, i) <==> Bit(hi, i - k))
    ensures hi == 0 || hi == Pow2(n) - 1 <==> forall i :: k <= i < 64 ==> (Bit(va, i) <==> Bit(va, k))
  {
    hide *;
    if hi == 0 || hi == Pow2(n) - 1 {
      forall i | k <= i < 64
        ensures Bit(va, i) <==> hi != 0
      {
        BitOfZero(i - k);
        Ones(n, i - k);
      }
    } else {
      if forall i :: k <= i < 64 ==> (Bit(va, i) <==> Bit(va, k)) {
        forall i | 0 <= i < n
          ensures Bit(hi, i) <==> Bit(va, k)
        {
          assert Bit(va, k + i) <==> Bit(hi, k + i - k);
        }
        if Bit(va, k) {
          AllSet(hi, n);
        } else {
          AllClear(hi, n);
        }
      }
    }
  }

  /** The index into a table is nine bits of the address. */
  lemma IndexBits(va: nat, j: nat, b: nat)
    ensures Bit(PteIndex(va, j), b) <==> b < 9 && Bit(va, 12 + 9 * j + b)
  {
    LowPowers();
    assert PteIndex(va, j) == Low(Shr(va, 12 + 9 * j), 9);
    hide *;
    BitAbove(va, 12 + 9 * j, b);
    if b < 9 {
      BitBelow(Shr(va, 12 + 9 * j), 9, b);
    } else {
      BitBeyond(Low(Shr(va, 12 + 9 * j), 9), 9, b);
    }
  }

  /** The page number of an entry stands two places lower than in an address. */
  lemma AddressOfEntry(pte: nat, i: nat)
    ensures Bit(PteAddress(pte), i) <==> 12 <= i < 64 && Bit(pte, i - 2)
  {
    var n := pte / 1024;
    FiftyTwo();
    LowPowers();
    assert Shr(pte, 10) == n && PteAddress(pte) == Low(n, 52) * 4096;
    hide *;
    BitJoined(Low(n, 52) * 4096, Low(n, 52), 0, 12, i);
    if i < 12 {
      BitOfZero(i);
    } else {
      if i < 64 {
        BitBelow(n, 52, i - 12);
        BitAbove(pte, 10, i - 12);
      } else {
        BitBeyond(Low(n, 52), 52, i - 12);
      }
    }
  }

  /** Where a leaf leads: the page number of the entry above, the address below. */
  lemma LeafAddress(c: Context, pte: nat, va: nat, access: Access, j: nat, i: nat)
    requires Leaf(c, pte, va, access, j).Ok?
    ensures Bit(Leaf(c, pte, va, access, j).paddr, i) <==>
            if i < 12 + 9 * j then Bit(va, i) else i < 64 && Bit(pte, i - 2)
  {
    var k := 12 + 9 * j;
    var hi, low := Shr(PteAddress(pte), k), Low(va, k);
    assert Leaf(c, pte, va, access, j).paddr == hi * Pow2(k) + low;
    hide *;
    BitJoined(Leaf(c, pte, va, access, j).paddr, hi, low, k, i);
    if i < k {
      BitBelow(va, k, i);
    } else {
      BitAbove(PteAddress(pte), k, i - k);
      AddressOfEntry(pte, i);
    }
  }

  // ---- what an address leads to ------------------------------------------------------------------------

  /** RAM at an address: the last range that covers it is RAM, and p is as far into its block. */
  ghost predicate InRam(ranges: seq<Range>, paddr: int, p: int) {
    exists i :: 0 <= i < |ranges| && LastCovering(ranges, paddr, i) && ranges[i].isRam &&
                p - ranges[i].physMem == paddr - ranges[i].addr
  }

  predicate LastCovering(ranges: seq<Range>, paddr: int, i: nat)
    requires i < |ranges|
  {
    && ranges[i].addr <= paddr < ranges[i].addr + ranges[i].size
    && forall k :: i < k < |ranges| ==> !(ranges[k].addr <= paddr < ranges[k].addr + ranges[k].size)
  }

  lemma RamAtIs(ranges: seq<Range>, paddr: int, p: int)
    ensures RamAt(ranges, paddr) == Some(p) <==> InRam(ranges, paddr, p)
    ensures RangeAt(ranges, paddr).Some? ==> LastCovering(ranges, paddr, RangeAt(ranges, paddr).value)
    ensures RangeAt(ranges, paddr).None? <==> forall i :: 0 <= i < |ranges| ==> !Covers(ranges[i], paddr)
  {
    var r := RangeAt(ranges, paddr);
    hide RangeAt;
    forall i | 0 <= i < |ranges| && LastCovering(ranges, paddr, i)
      ensures r == Some(i)
    {
      assert Covers(ranges[i], paddr);
      assert r.Some? && !(r.value < i) && !(i < r.value);
    }
  }

  /** A table entry is read from RAM at the table's address plus eight times the index. */
  lemma EntryWord(ranges: seq<Range>, table: nat, va: nat, j: nat, p: int)
    ensures PteWord(ranges, table, va, j) == Some(p) <==> InRam(ranges, table + 8 * PteIndex(va, j), p)
  {
    hide InRam, PteIndex;
    RamAtIs(ranges, table + 8 * PteIndex(va, j), p);
    hide RangeAt;
  }

  /** A device at an address, and how far into its range. */
  predicate AtDevice(ranges: seq<Range>, paddr: int, i: nat, offset: nat) {
    i < |ranges| && !ranges[i].isRam && LastCovering(ranges, paddr, i) && ranges[i].addr + offset == paddr
  }

  /** Nothing at all, or for a fetch nothing but a device. */
  ghost predicate NoTarget(ranges: seq<Range>, paddr: int, access: Access) {
    || (forall i :: 0 <= i < |ranges| ==> !Covers(ranges[i], paddr))
    || (access == CodeAccess && forall p :: !InRam(ranges, paddr, p))
  }

  /** The outcome of the slow path, case by case. */
  lemma SlowIs(h: Hart, ranges: seq<Range>, host: Host, va: nat, access: Access)
    ensures var t, out := Translate(ContextFor(h, access), ranges, host, va, access), Slow(h, ranges, host, va, access);
            && (t == PageFault <==> out == Fault(PageError))
            && (out.Ram? <==> t.Ok? && exists p :: InRam(ranges, t.paddr, p))
            && (out.Ram? ==> out.paddr == t.paddr && InRam(ranges, out.paddr, out.ptr))
            && (out.Device? ==> t.Ok? && access != CodeAccess && AtDevice(ranges, t.paddr, out.range, out.offset))
            && (out == Fault(BusError) <==> t == AccessFault || (t.Ok? && NoTarget(ranges, t.paddr, access)))
            && out != Fault(Misaligned)
  {
    hide Translate, ContextFor;
    var t := Translate(ContextFor(h, access), ranges, host, va, access);
    if t.Ok? {
      var paddr := t.paddr;
      forall p
        ensures RamAt(ranges, paddr) == Some(p) <==> InRam(ranges, paddr, p)
      {
        RamAtIs(ranges, paddr, p);
      }
      RamAtIs(ranges, paddr, 0);
      hide RangeAt, InRam, LastCovering;
      if RamAt(ranges, paddr).Some? {
        assert InRam(ranges, paddr, RamAt(ranges, paddr).value);
      }
    }
  }

  /** Loads and stores use the privilege in MPP under MPRV; fetches never do. */
  lemma ContextIs(h: Hart, access: Access)
    ensures ContextFor(h, access).priv == if h.mprv && access != CodeAccess then h.mpp else h.priv
    ensures ContextFor(h, access) == Context(ContextFor(h, access).priv, h.sum, h.mxr, h.levels, h.root)
  {
  }
}
