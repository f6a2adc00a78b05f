/** Physical memory ranges and the Sv39/Sv48 page walk of riscv_cpu_get_phys_addr. */
module PageWalk {
  import opened Basics
  import opened Powers

  // ---- physical memory ---------------------------------------------------------------------

  /** A RAM or device range; the size is 0 while it is disabled. Host pointers are integers. */
  datatype Range = Range(addr: nat, orgSize: nat, size: nat, isRam: bool, physMem: int)

  predicate Covers(r: Range, paddr: int) {
    r.addr <= paddr < r.addr + r.size
  }

  /** The range an address belongs to: of those that cover it, the one registered last. */
  function RangeAt(ranges: seq<Range>, paddr: int): (r: Option<nat>)
    ensures r.Some? ==> r.value < |ranges| && Covers(ranges[r.value], paddr)
    ensures r.Some? ==> forall i :: r.value < i < |ranges| ==> !Covers(ranges[i], paddr)
    ensures r.None? ==> forall i :: 0 <= i < |ranges| ==> !Covers(ranges[i], paddr)
  {
    if |ranges| == 0 then None
    else if Covers(ranges[|ranges| - 1], paddr) then Some(|ranges| - 1)
    else RangeAt(ranges[..|ranges| - 1], paddr)
  }

  /** get_phys_mem_range */
  method GetPhysMemRange(ranges: seq<Range>, paddr: int) returns (r: Option<nat>)
    ensures r == RangeAt(ranges, paddr)
  {
    var i := |ranges| - 1;
    while i >= 0
      invariant -1 <= i < |ranges|
      invariant forall j :: i < j < |ranges| ==> !Covers(ranges[j], paddr)
    {
      if Covers(ranges[i], paddr) {
        return Some(i);
      }
      i := i - 1;
    }
    return None;
  }

  /** Ranges begin and end at page boundaries. */
  predicate PageAligned(ranges: seq<Range>) {
    forall i :: 0 <= i < |ranges| ==> ranges[i].addr % 4096 == 0 && ranges[i].size % 4096 == 0
  }

  predicate SamePage(a: int, b: int) {
    a / 4096 == b / 4096
  }

  /** Then a page lies in one range. */
  lemma RangeOfPage(ranges: seq<Range>, a: int, b: int)
    requires PageAligned(ranges) && SamePage(a, b)
    ensures RangeAt(ranges, a) == RangeAt(ranges, b)
  {
    forall i | 0 <= i < |ranges|
      ensures Covers(ranges[i], a) == Covers(ranges[i], b)
    {
      PageInside(ranges[i], a, b);
    }
  }

  lemma PageInside(r: Range, a: int, b: int)
    requires r.addr % 4096 == 0 && r.size % 4096 == 0 && SamePage(a, b)
    ensures Covers(r, a) ==> Covers(r, b)
    ensures Covers(r, b) ==> Covers(r, a)
  {
  }

  /** Host memory by aligned 8-byte words. */
  type Host = map<int, nat>

  function WordAt(host: Host, p: int): nat {
    if p in host then host[p] else 0
  }

  /** The host pointer for a physical address. */
  function Pointer(r: Range, paddr: int): int {
    r.physMem + (paddr - r.addr)
  }

  // ---- the walk ----------------------------------------------------------------------------

  datatype Access = ReadAccess | WriteAccess | CodeAccess

  /** What the walk depends on besides memory; levels is 0 when there is no translation. */
  datatype Context = Context(priv: nat, sum: bool, mxr: bool, levels: nat, root: nat)

  datatype Translation = Ok(paddr: nat) | PageFault | AccessFault

  predicate PteV(pte: nat) { pte % 2 == 1 }

  predicate PteU(pte: nat) { pte / 16 % 2 == 1 }

  predicate PteA(pte: nat) { pte / 64 % 2 == 1 }

  predicate PteD(pte: nat) { pte / 128 % 2 == 1 }

  /** The bits X, W and R; a pointer to the next table has none of them. */
  function PteXwr(pte: nat): nat { pte / 2 % 8 }

  /** Sign-extending the low 12 + 9 * levels bits gives the address back. */
  predicate Canonical(va: nat, levels: nat) {
    var half := Pow2(11 + 9 * levels);
    va < half || va >= 0x1_0000_0000_0000_0000 - half
  }

  /** `(vaddr >> vaddr_shift) & pte_mask`, j levels above the last */
  function PteIndex(va: nat, j: nat): nat {
    Shr(va, 12 + 9 * j) % 512
  }

  /** The word riscv_phys_read_u64 reads a table entry from. */
  function PteWord(ranges: seq<Range>, table: nat, va: nat, j: nat): Option<int> {
    var pteAddr := table + PteIndex(va, j) * 8;
    var r := RangeAt(ranges, pteAddr);
    if r.Some? && ranges[r.value].isRam then Some(Pointer(ranges[r.value], pteAddr)) else None
  }

  /** `(pte >> 10) << PG_SHIFT` in 64 bits */
  function PteAddress(pte: nat): nat {
    pte / 1024 % 0x10_0000_0000_0000 * 4096
  }

  /** With MXR, pages that can be executed can be read. */
  function Rights(c: Context, pte: nat): nat {
    var xwr := PteXwr(pte);
    if c.mxr && xwr >= 4 && xwr % 2 == 0 then xwr + 1 else xwr
  }

  predicate Allows(xwr: nat, access: Access) {
    match access
    case ReadAccess => xwr % 2 == 1
    case WriteAccess => xwr / 2 % 2 == 1
    case CodeAccess => xwr / 4 % 2 == 1
  }

  /** The checks on a leaf entry, j levels above the last. */
  predicate LeafOk(c: Context, pte: nat, access: Access, j: nat) {
    var xwr := PteXwr(pte);
    && xwr != 2 && xwr != 6
    && (if c.priv == 1 then !(PteU(pte) && !c.sum) else PteU(pte))
    && Allows(Rights(c, pte), access)
    && pte / 1024 % Pow2(j) == 0
    && PteA(pte)
    && (access == WriteAccess ==> PteD(pte))
  }

  function Leaf(c: Context, pte: nat, va: nat, access: Access, j: nat): Translation {
    if LeafOk(c, pte, access, j) then
      Ok(Shr(PteAddress(pte), 12 + 9 * j) * Pow2(12 + 9 * j) + Low(va, 12 + 9 * j))
    else PageFault
  }

  /** The loop over the levels: the next table, and how many levels are left. */
  function Walk(c: Context, ranges: seq<Range>, host: Host, va: nat, access: Access, table: nat, left: nat): Translation
    decreases left
  {
    if left == 0 then PageFault
    else
      var word := PteWord(ranges, table, va, left - 1);
      if word.None? then AccessFault
      else
        var pte := WordAt(host, word.value);
        if !PteV(pte) then PageFault
        else if PteXwr(pte) != 0 then Leaf(c, pte, va, access, left - 1)
        else Walk(c, ranges, host, va, access, PteAddress(pte), left - 1)
  }

  /** The whole translation: none in M-mode or without page tables, else the walk. */
  function Translate(c: Context, ranges: seq<Range>, host: Host, va: nat, access: Access): Translation {
    if c.priv == 3 || c.levels == 0 then Ok(va)
    else if !Canonical(va, c.levels) then PageFault
    else Walk(c, ranges, host, va, access, c.root * 4096, c.levels)
  }

  /** riscv_cpu_get_phys_addr: from the root table down, one entry per level. */
  method GetPhysAddr(c: Context, ranges: seq<Range>, host: Host, va: nat, access: Access) returns (t: Translation)
    ensures t == Translate(c, ranges, host, va, access)
  {
    hide Leaf, PteWord, PteAddress, PteXwr, PteV, Canonical;
    if c.priv == 3 {
      return Ok(va);
    }
    if c.levels == 0 {
      return Ok(va);
    }
    if !Canonical(va, c.levels) {
      return PageFault;
    }
    var table: nat := c.root * 4096;
    for i := 0 to c.levels
      invariant Walk(c, ranges, host, va, access, table, c.levels - i) == Translate(c, ranges, host, va, access)
    {
      var j := c.levels - 1 - i;
      var word := PteWord(ranges, table, va, j);
      if word.None? {
        return AccessFault;
      }
      var pte := WordAt(host, word.value);
      if !PteV(pte) {
        return PageFault;
      }
      if PteXwr(pte) != 0 {
        return Leaf(c, pte, va, access, j);
      }
      table := PteAddress(pte);
    }
    return PageFault;
  }

  // ---- what the architecture asks, and where the walk departs from it ---------------------------

  predicate PteR(pte: nat) { pte / 2 % 2 == 1 }

  predicate PteW(pte: nat) { pte / 4 % 2 == 1 }

  predicate PteX(pte: nat) { pte / 8 % 2 == 1 }

  /** The entry is no reserved encoding, holds the right for the access, and is marked as accessed and dirty. */
  predicate SpecGrants(c: Context, pte: nat, access: Access) {
    && (PteR(pte) || !PteW(pte))
    && (match access
        case ReadAccess => PteR(pte) || (c.mxr && PteX(pte))
        case WriteAccess => PteW(pte)
        case CodeAccess => PteX(pte))
    && PteA(pte) && (access == WriteAccess ==> PteD(pte))
  }

  /** User pages are for U-mode and, under SUM, for the data of S-mode, which never executes from them. */
  predicate SpecPrivilege(c: Context, pte: nat, access: Access) {
    if PteU(pte) then c.priv != 1 || (c.sum && access != CodeAccess) else c.priv == 1
  }

  predicate SuperpageAligned(pte: nat, j: nat) {
    pte / 1024 % Pow2(9 * j) == 0
  }

  /** A leaf by section 4.3.2 of the RISC-V Privileged Architecture 1.11, steps 5 to 8. */
  function SpecLeaf(c: Context, pte: nat, va: nat, access: Access, j: nat): Translation {
    if SpecGrants(c, pte, access) && SpecPrivilege(c, pte, access) && SuperpageAligned(pte, j)
    then Ok(PteAddress(pte) + Low(va, 12 + 9 * j))
    else PageFault
  }

  function SpecWalk(c: Context, ranges: seq<Range>, host: Host, va: nat, access: Access, table: nat, left: nat): Translation
    decreases left
  {
    if left == 0 then PageFault
    else
      var word := PteWord(ranges, table, va, left - 1);
      if word.None? then AccessFault
      else
        var pte := WordAt(host, word.value);
        if !PteV(pte) || (!PteR(pte) && PteW(pte)) then PageFault
        else if PteR(pte) || PteX(pte) then SpecLeaf(c, pte, va, access, left - 1)
        else SpecWalk(c, ranges, host, va, access, PteAddress(pte), left - 1)
  }

  function SpecTranslate(c: Context, ranges: seq<Range>, host: Host, va: nat, access: Access): Translation {
    if c.priv == 3 || c.levels == 0 then Ok(va)
    else if !Canonical(va, c.levels) then PageFault
    else SpecWalk(c, ranges, host, va, access, c.root * 4096, c.levels)
  }

  /**
   * What the code lets through: a superpage of which only the low j bits of the page number were
   * looked at, and an S-mode fetch from a user page under SUM.
   */
  predicate LetThrough(c: Context, pte: nat, access: Access, j: nat) {
    && SpecGrants(c, pte, access) && pte / 1024 % Pow2(j) == 0
    && ((SpecPrivilege(c, pte, access) && !SuperpageAligned(pte, j)) ||
        (c.priv == 1 && access == CodeAccess && PteU(pte) && c.sum))
  }

  lemma LeafMeetsSpec(c: Context, pte: nat, va: nat, access: Access, j: nat)
    ensures Leaf(c, pte, va, access, j) == SpecLeaf(c, pte, va, access, j) <==> !LetThrough(c, pte, access, j)
    ensures LetThrough(c, pte, access, j) ==> Leaf(c, pte, va, access, j).Ok? && SpecLeaf(c, pte, va, access, j) == PageFault
  {
    hide Pow2, Low, Shr, PteAddress, LeafOk, Allows, Rights, PteR, PteW, PteX, PteU, SuperpageAligned;
    LeafOkIs(c, pte, access, j);
    if SuperpageAligned(pte, j) {
      AlignedAddress(pte, j);
    }
  }

  /** What the code checks, right by right. */
  lemma LeafOkIs(c: Context, pte: nat, access: Access, j: nat)
    ensures LeafOk(c, pte, access, j) <==>
            && SpecGrants(c, pte, access) && pte / 1024 % Pow2(j) == 0
            && (if PteU(pte) then c.priv != 1 || c.sum else c.priv == 1)
    ensures SuperpageAligned(pte, j) ==> pte / 1024 % Pow2(j) == 0
  {
    hide Pow2, PteR, PteW, PteX, PteXwr, PteU, PteA, PteD, Allows, Rights;
    RightsHeld(c, pte, access);
    AlignedLow(pte / 1024, j);
  }

  lemma RightsHeld(c: Context, pte: nat, access: Access)
    ensures var xwr := PteXwr(pte);
            xwr != 2 && xwr != 6 && Allows(Rights(c, pte), access) <==>
            && (PteR(pte) || !PteW(pte))
            && (match access
                case ReadAccess => PteR(pte) || (c.mxr && PteX(pte))
                case WriteAccess => PteW(pte)
                case CodeAccess => PteX(pte))
  {
    RightsBits(pte);
    hide PteR, PteW, PteX, PteXwr;
    var xwr := PteXwr(pte);
    assert xwr in {0, 1, 2, 3, 4, 5, 6, 7};
  }

  /** Alignment to 9 * j bits is alignment to j bits and more. */
  lemma AlignedLow(n: nat, j: nat)
    ensures n % Pow2(9 * j) == 0 ==> n % Pow2(j) == 0
  {
    DivPow2(n, j, 8 * j);
    LowPart(n / Pow2(j) % Pow2(8 * j), Pow2(j), n % Pow2(j), n % Pow2(j + 8 * j));
    hide Pow2;
    assert j + 8 * j == 9 * j;
  }

  lemma LowPart(q: nat, g: nat, r: nat, n: nat)
    requires n == q * g + r
    ensures n == 0 ==> r == 0
  {
    MulLe(0, q, g);
  }

  lemma RightsBits(pte: nat)
    ensures var xwr := PteXwr(pte);
            && 0 <= xwr < 8 && (PteR(pte) <==> xwr % 2 == 1) && (PteW(pte) <==> xwr / 2 % 2 == 1)
            && (PteX(pte) <==> xwr / 4 % 2 == 1)
  {
    ThreeBits(pte / 2);
    DivDiv(pte, 2, 2);
    DivDiv(pte, 2, 4);
  }

  lemma ThreeBits(n: nat)
    ensures n % 8 % 2 == n % 2 && n % 8 / 2 % 2 == n / 2 % 2 && n % 8 / 4 % 2 == n / 4 % 2
  {
    var q, r := n / 8, n % 8;
    BitAt(q, r, 1);
    BitAt(q, r, 2);
    BitAt(q, r, 4);
  }

  /** Bits below the third do not see what is above it. */
  lemma BitAt(q: nat, r: nat, d: nat)
    requires d == 1 || d == 2 || d == 4
    ensures (8 * q + r) / d % 2 == r / d % 2
  {
    if d == 1 {
      EvenPlus(4 * q, r);
    } else if d == 2 {
      DivModUnique(8 * q + r, 2, 4 * q + r / 2, r % 2);
      EvenPlus(2 * q, r / 2);
    } else {
      DivModUnique(8 * q + r, 4, 2 * q + r / 4, r % 4);
      EvenPlus(q, r / 4);
    }
  }

  lemma EvenPlus(k: nat, a: nat)
    ensures (2 * k + a) % 2 == a % 2
  {
  }

  lemma AlignedAddress(pte: nat, j: nat)
    requires SuperpageAligned(pte, j)
    ensures Shr(PteAddress(pte), 12 + 9 * j) * Pow2(12 + 9 * j) == PteAddress(pte)
  {
    var n := pte / 1024;
    FiftyTwo();
    assert n % Pow2(9 * j) == 0;
    assert PteAddress(pte) == n % Pow2(52) * 4096;
    hide *;
    if 9 * j <= 52 {
      AlignedMultiple(n, 9 * j, 52);
    } else {
      DivPow2(n, 52, 9 * j - 52);
      LowPart(n / Pow2(52) % Pow2(9 * j - 52), Pow2(52), n % Pow2(52), n % Pow2(9 * j));
      LowSmall(0, 12 + 9 * j);
    }
  }

  lemma AlignedMultiple(n: nat, d: nat, l: nat)
    requires d <= l && n % Pow2(d) == 0
    ensures Shr(n % Pow2(l) * 4096, 12 + d) * Pow2(12 + d) == n % Pow2(l) * 4096
  {
    hide *;
    DivPow2(n, d, l - d);
    var q, g := n / Pow2(d) % Pow2(l - d), Pow2(d);
    Twelve();
    Pow2Add(d, 12);
    MulAssoc(q, g, 4096);
    DivMod(n, g);
    DivMod(n / Pow2(d), Pow2(l - d));
    MulLe(0, q, g);
    ShrUnique(n % Pow2(l) * 4096, 12 + d, q, 0);
  }

  lemma FiftyTwo()
    ensures Pow2(52) == 0x10_0000_0000_0000
  {
    hide *;
    Twelve();
    SmallPowers();
    Pow2Add(12, 12);
    Pow2Add(24, 24);
    Pow2Add(48, 4);
  }

  /** The leaf entry a walk comes to, if any, and its level. */
  function WalkLeaf(ranges: seq<Range>, host: Host, va: nat, table: nat, left: nat): Option<(nat, nat)>
    decreases left
  {
    if left == 0 then None
    else
      var word := PteWord(ranges, table, va, left - 1);
      if word.None? then None
      else
        var pte := WordAt(host, word.value);
        if !PteV(pte) then None
        else if PteXwr(pte) != 0 then Some((pte, left - 1))
        else WalkLeaf(ranges, host, va, PteAddress(pte), left - 1)
  }

  predicate EndsLetThrough(c: Context, ranges: seq<Range>, host: Host, va: nat, access: Access, table: nat, left: nat) {
    var leaf := WalkLeaf(ranges, host, va, table, left);
    leaf.Some? && LetThrough(c, leaf.value.0, access, leaf.value.1)
  }

  lemma {:induction false} WalkMeetsSpec(c: Context, ranges: seq<Range>, host: Host, va: nat, access: Access,
                                         table: nat, left: nat)
    ensures Walk(c, ranges, host, va, access, table, left) == SpecWalk(c, ranges, host, va, access, table, left) <==>
            !EndsLetThrough(c, ranges, host, va, access, table, left)
    decreases left
  {
    hide Leaf, SpecLeaf, LetThrough, PteWord, PteAddress, PteV, PteR, PteW, PteX, PteXwr, WordAt;
    if left > 0 {
      var word := PteWord(ranges, table, va, left - 1);
      if word.Some? {
        var pte := WordAt(host, word.value);
        RightsBits(pte);
        LeafMeetsSpec(c, pte, va, access, left - 1);
        ReservedFaults(c, pte, va, access, left - 1);
        WalkMeetsSpec(c, ranges, host, va, access, PteAddress(pte), left - 1);
      }
    }
  }

  lemma ReservedFaults(c: Context, pte: nat, va: nat, access: Access, j: nat)
    ensures !PteR(pte) && PteW(pte) ==> SpecLeaf(c, pte, va, access, j) == PageFault
  {
    hide PteR, PteW, PteX, PteAddress, Low, Pow2;
  }

  /**
   * The translation is the architecture's if and only if the walk does not end at an entry that is
   * let through.
   */
  lemma TranslateMeetsSpec(c: Context, ranges: seq<Range>, host: Host, va: nat, access: Access)
    ensures Translate(c, ranges, host, va, access) == SpecTranslate(c, ranges, host, va, access) <==>
            !(c.priv != 3 && c.levels != 0 && Canonical(va, c.levels) &&
              EndsLetThrough(c, ranges, host, va, access, c.root * 4096, c.levels))
  {
    hide Walk, SpecWalk, Canonical, EndsLetThrough;
    WalkMeetsSpec(c, ranges, host, va, access, c.root * 4096, c.levels);
  }

  /** A table of one entry, which stands at the top level of an Sv39 tree. */
  function OneEntry(pte: nat): Host {
    map[0 := pte]
  }

  function OnePage(): seq<Range> {
    [Range(0, 4096, 4096, true, 0)]
  }

  lemma OneEntryWalk(c: Context, pte: nat, access: Access)
    requires c.priv != 3 && c.levels == 3 && c.root == 0 && PteV(pte) && PteR(pte)
    ensures Translate(c, OnePage(), OneEntry(pte), 0, access) == Leaf(c, pte, 0, access, 2)
    ensures SpecTranslate(c, OnePage(), OneEntry(pte), 0, access) == SpecLeaf(c, pte, 0, access, 2)
  {
    hide Walk, SpecWalk, Leaf, SpecLeaf, Pow2, PteV, PteR, PteWord, OnePage;
    FirstEntry(c.levels - 1, pte);
    WalkAtLeaf(c, OnePage(), OneEntry(pte), 0, access, 0, c.levels, 0);
  }

  lemma FirstEntry(j: nat, pte: nat)
    ensures PteWord(OnePage(), 0, 0, j) == Some(0) && WordAt(OneEntry(pte), 0) == pte
  {
    LowSmall(0, 12 + 9 * j);
    hide Shr, Pow2;
  }

  lemma WalkAtLeaf(c: Context, ranges: seq<Range>, host: Host, va: nat, access: Access, table: nat, left: nat, p: int)
    requires left > 0 && PteWord(ranges, table, va, left - 1) == Some(p)
    requires var pte := WordAt(host, p); PteV(pte) && PteR(pte)
    ensures Walk(c, ranges, host, va, access, table, left) == Leaf(c, WordAt(host, p), va, access, left - 1)
    ensures SpecWalk(c, ranges, host, va, access, table, left) == SpecLeaf(c, WordAt(host, p), va, access, left - 1)
  {
    hide Leaf, SpecLeaf, PteV, PteR, PteW, PteX, PteXwr, PteWord, WordAt;
    RightsBits(WordAt(host, p));
  }

  /** A page number of 4, far from aligned to a gigabyte, is accepted at the top level. */
  lemma MisalignedAccepted() returns (c: Context, host: Host)
    ensures Translate(c, OnePage(), host, 0, ReadAccess).Ok?
    ensures SpecTranslate(c, OnePage(), host, 0, ReadAccess) == PageFault
  {
    hide *;
    var pte := 4 * 1024 + 0x53;
    c, host := Context(0, false, false, 3, 0), OneEntry(pte);
    MisalignedEntry(c, pte, 2);
    OneEntryWalk(c, pte, ReadAccess);
    LeafMeetsSpec(c, pte, 0, ReadAccess, 2);
  }

  lemma MisalignedEntry(c: Context, pte: nat, j: nat)
    requires pte == 4 * 1024 + 0x53 && c.priv == 0 && j == 2
    ensures PteV(pte) && PteR(pte) && LetThrough(c, pte, ReadAccess, j)
  {
    hide Pow2;
    SmallPowers();
    Pow2Mono(3, 9 * j);
  }

  /** S-mode with SUM set fetches from a user page. */
  lemma UserFetchAccepted() returns (c: Context, host: Host)
    ensures Translate(c, OnePage(), host, 0, CodeAccess).Ok?
    ensures SpecTranslate(c, OnePage(), host, 0, CodeAccess) == PageFault
  {
    hide *;
    var pte := 0x5b;
    c, host := Context(1, true, false, 3, 0), OneEntry(pte);
    UserEntry(c, pte, 2);
    OneEntryWalk(c, pte, CodeAccess);
    LeafMeetsSpec(c, pte, 0, CodeAccess, 2);
  }

  lemma UserEntry(c: Context, pte: nat, j: nat)
    requires pte == 0x5b && c.priv == 1 && c.sum
    ensures PteV(pte) && PteR(pte) && LetThrough(c, pte, CodeAccess, j)
  {
    hide Pow2;
    LowSmall(0, j);
  }

  // ---- all addresses of a page are translated alike --------------------------------------------

  /** The same outcome, moved within the page. */
  predicate MovesAlong(t: Translation, va: nat, t': Translation, va': nat) {
    if t.Ok? then t'.Ok? && t'.paddr - t.paddr == va' - va && SamePage(t.paddr, t'.paddr) && t.paddr % 4096 == va % 4096
    else t' == t
  }

  /** The high bits of an address depend only on its page. */
  lemma HighBits(va: nat, va': nat, s: nat)
    requires SamePage(va, va')
    ensures Shr(va, 12 + s) == Shr(va', 12 + s)
    ensures Low(va, 12 + s) % 4096 == va % 4096 && Low(va', 12 + s) - Low(va, 12 + s) == va' - va
    ensures SamePage(Low(va, 12 + s), Low(va', 12 + s))
  {
    Twelve();
    DivPow2(va, 12, s);
    DivPow2(va', 12, s);
    var q := va / 4096 % Pow2(s);
    assert Low(va, 12 + s) == q * 4096 + va % 4096 && Low(va', 12 + s) == q * 4096 + va' % 4096;
    hide *;
    LowInPage(va, va', q, Low(va, 12 + s), Low(va', 12 + s));
  }

  lemma LowInPage(va: nat, va': nat, q: int, a: int, b: int)
    requires va / 4096 == va' / 4096 && a == q * 4096 + va % 4096 && b == q * 4096 + va' % 4096
    ensures a % 4096 == va % 4096 && b - a == va' - va && SamePage(a, b)
  {
    assert a / 4096 == q && b / 4096 == q;
  }

  lemma Twelve()
    ensures Pow2(12) == 4096
  {
  }

  lemma LeafMoves(c: Context, pte: nat, va: nat, va': nat, access: Access, j: nat)
    requires SamePage(va, va')
    ensures MovesAlong(Leaf(c, pte, va, access, j), va, Leaf(c, pte, va', access, j), va')
  {
    hide Pow2, Shr, Low, LeafOk;
    HighBits(va, va', 9 * j);
    Twelve();
    Pow2Add(12, 9 * j);
    var q := Shr(PteAddress(pte), 12 + 9 * j);
    MulAssoc(q, Pow2(9 * j), 4096);
    assert q * Pow2(12 + 9 * j) == q * Pow2(9 * j) * 4096;
    InPage(q * Pow2(9 * j), Low(va, 12 + 9 * j), Low(va', 12 + 9 * j));
  }

  lemma InPage(n: int, a: int, b: int)
    requires SamePage(a, b)
    ensures SamePage(n * 4096 + a, n * 4096 + b) && (n * 4096 + a) % 4096 == a % 4096
  {
  }

  lemma {:induction false} WalkMoves(c: Context, ranges: seq<Range>, host: Host, va: nat, va': nat, access: Access,
                                     table: nat, left: nat)
    requires SamePage(va, va')
    ensures MovesAlong(Walk(c, ranges, host, va, access, table, left), va,
                       Walk(c, ranges, host, va', access, table, left), va')
    decreases left
  {
    if left > 0 {
      hide Leaf, PteWord, MovesAlong, PteAddress, PteXwr, PteV, SamePage;
      PteWordOfPage(ranges, table, va, va', left - 1);
      FaultMoves(va, va');
      var word := PteWord(ranges, table, va, left - 1);
      if word.Some? {
        var pte := WordAt(host, word.value);
        hide WordAt;
        if PteV(pte) && PteXwr(pte) != 0 {
          LeafMoves(c, pte, va, va', access, left - 1);
        } else if PteV(pte) {
          WalkMoves(c, ranges, host, va, va', access, PteAddress(pte), left - 1);
        }
      }
    }
  }

  lemma PteWordOfPage(ranges: seq<Range>, table: nat, va: nat, va': nat, j: nat)
    requires SamePage(va, va')
    ensures PteWord(ranges, table, va, j) == PteWord(ranges, table, va', j)
  {
    hide Shr, Low, Pow2, RangeAt;
    HighBits(va, va', 9 * j);
    assert PteIndex(va, j) == PteIndex(va', j);
  }

  lemma FaultMoves(va: nat, va': nat)
    ensures MovesAlong(PageFault, va, PageFault, va') && MovesAlong(AccessFault, va, AccessFault, va')
    ensures SamePage(va, va') ==> MovesAlong(Ok(va), va, Ok(va'), va')
  {
  }

  lemma TranslateMoves(c: Context, ranges: seq<Range>, host: Host, va: nat, va': nat, access: Access)
    requires SamePage(va, va')
    ensures MovesAlong(Translate(c, ranges, host, va, access), va, Translate(c, ranges, host, va', access), va')
  {
    hide Walk, MovesAlong, Canonical;
    FaultMoves(va, va');
    if c.levels > 0 {
      CanonicalPage(va, va', c.levels);
    }
    WalkMoves(c, ranges, host, va, va', access, c.root * 4096, c.levels);
  }

  lemma CanonicalPage(va: nat, va': nat, levels: nat)
    requires SamePage(va, va') && levels > 0
    ensures Canonical(va, levels) == Canonical(va', levels)
  {
    Twelve();
    Pow2Add(12, 9 * levels - 1);
    CanonicalHalf(va, va', Pow2(9 * levels - 1), Pow2(11 + 9 * levels));
    hide Pow2;
  }

  lemma CanonicalHalf(va: nat, va': nat, q: nat, half: nat)
    requires SamePage(va, va') && half == 4096 * q
    ensures va < half <==> va' < half
    ensures va >= 0x1_0000_0000_0000_0000 - half <==> va' >= 0x1_0000_0000_0000_0000 - half
  {
    BelowPage(va, q);
    BelowPage(va', q);
    BelowPage(va, 0x10_0000_0000_0000 - q);
    BelowPage(va', 0x10_0000_0000_0000 - q);
  }

  lemma BelowPage(a: int, q: int)
    ensures a < 4096 * q <==> a / 4096 < q
  {
  }

  // ---- which words a walk reads -----------------------------------------------------------------

  /** The walk for va reads the table entry at host pointer p. */
  predicate WalkReads(ranges: seq<Range>, host: Host, va: nat, table: nat, left: nat, p: int)
    decreases left
  {
    left > 0 &&
    var word := PteWord(ranges, table, va, left - 1);
    word.Some? &&
    var pte := WordAt(host, word.value);
    word.value == p || (PteV(pte) && PteXwr(pte) == 0 && WalkReads(ranges, host, va, PteAddress(pte), left - 1, p))
  }

  /** Some walk in this context does. */
  ghost predicate TableWord(c: Context, ranges: seq<Range>, host: Host, p: int) {
    c.priv != 3 && exists va: nat :: WalkReads(ranges, host, va, c.root * 4096, c.levels, p)
  }

  lemma {:induction false} WalkKept(c: Context, ranges: seq<Range>, host: Host, va: nat, access: Access,
                                    table: nat, left: nat, p: int, w: nat)
    requires !WalkReads(ranges, host, va, table, left, p)
    ensures Walk(c, ranges, host[p := w], va, access, table, left) == Walk(c, ranges, host, va, access, table, left)
    decreases left
  {
    if left > 0 {
      hide Leaf, PteWord, PteAddress, PteXwr, PteV;
      var word := PteWord(ranges, table, va, left - 1);
      if word.Some? {
        var pte := WordAt(host, word.value);
        assert WordAt(host[p := w], word.value) == pte;
        if PteV(pte) && PteXwr(pte) == 0 {
          WalkKept(c, ranges, host, va, access, PteAddress(pte), left - 1, p, w);
        }
      }
    }
  }

  /** A store elsewhere changes no translation. */
  lemma TranslateKept(c: Context, ranges: seq<Range>, host: Host, p: int, w: nat, va: nat, access: Access)
    requires !TableWord(c, ranges, host, p)
    ensures Translate(c, ranges, host[p := w], va, access) == Translate(c, ranges, host, va, access)
  {
    if c.priv != 3 {
      WalkKept(c, ranges, host, va, access, c.root * 4096, c.levels, p, w);
    }
  }

  /** The entries of tables in 8-byte aligned blocks are aligned words. */
  predicate WordAligned(ranges: seq<Range>) {
    forall i :: 0 <= i < |ranges| ==> ranges[i].addr % 8 == 0 && ranges[i].physMem % 8 == 0
  }

  lemma {:induction false} WalkReadsAligned(ranges: seq<Range>, host: Host, va: nat, table: nat, left: nat, p: int)
    requires WordAligned(ranges) && table % 8 == 0 && WalkReads(ranges, host, va, table, left, p)
    ensures p % 8 == 0
    decreases left
  {
    hide PteWord, PteV, PteXwr, PteAddress, WordAligned;
    var word := PteWord(ranges, table, va, left - 1);
    var pte := WordAt(host, word.value);
    PteWordAligned(ranges, table, va, left - 1);
    if word.value != p {
      AddressAligned(pte);
      WalkReadsAligned(ranges, host, va, PteAddress(pte), left - 1, p);
    }
  }

  lemma PteWordAligned(ranges: seq<Range>, table: nat, va: nat, j: nat)
    requires WordAligned(ranges) && table % 8 == 0
    ensures var word := PteWord(ranges, table, va, j); word.Some? ==> word.value % 8 == 0
  {
    hide RangeAt, PteIndex;
  }

  lemma AddressAligned(pte: nat)
    ensures PteAddress(pte) % 8 == 0
  {
    PageIsAligned(pte / 1024 % 0x10_0000_0000_0000);
  }

  lemma PageIsAligned(n: nat)
    ensures n * 4096 % 8 == 0
  {
    DivModUnique(n * 4096, 8, n * 512, 0);
  }

  // ---- contexts that see no less ------------------------------------------------------------------

  /** M-mode, S-mode, and all others. */
  predicate Alike(p: nat, q: nat) {
    (p == 3 <==> q == 3) && (p == 1 <==> q == 1)
  }

  /** What the first context translates, the second translates alike: under SUM, S-mode sees all user pages. */
  predicate SeesNoLess(c: Context, c': Context) {
    && c' == c.(priv := c'.priv)
    && (c.levels == 0 || Alike(c.priv, c'.priv) || (c.priv != 1 && c.priv != 3 && c'.priv == 1 && c.sum))
  }

  lemma {:induction false} WalkNoLess(c: Context, c': Context, ranges: seq<Range>, host: Host, va: nat, access: Access,
                                      table: nat, left: nat)
    requires SeesNoLess(c, c') && c.levels > 0 && access != CodeAccess && c.priv != 3
    requires Walk(c, ranges, host, va, access, table, left).Ok?
    ensures Walk(c', ranges, host, va, access, table, left) == Walk(c, ranges, host, va, access, table, left)
    decreases left
  {
    hide Leaf, PteWord, PteAddress, PteXwr, PteV;
    var pte := WordAt(host, PteWord(ranges, table, va, left - 1).value);
    if PteXwr(pte) != 0 {
      LeafNoLess(c, c', pte, va, access, left - 1);
    } else {
      WalkNoLess(c, c', ranges, host, va, access, PteAddress(pte), left - 1);
    }
  }

  lemma LeafNoLess(c: Context, c': Context, pte: nat, va: nat, access: Access, j: nat)
    requires SeesNoLess(c, c') && c.levels > 0 && c.priv != 3 && Leaf(c, pte, va, access, j).Ok?
    ensures Leaf(c', pte, va, access, j) == Leaf(c, pte, va, access, j)
  {
    hide Pow2, Shr, Low, PteAddress, PteU, PteXwr, PteA, PteD, Allows;
  }

  lemma TranslateNoLess(c: Context, c': Context, ranges: seq<Range>, host: Host, va: nat, access: Access)
    requires SeesNoLess(c, c') && access != CodeAccess && Translate(c, ranges, host, va, access).Ok?
    ensures Translate(c', ranges, host, va, access) == Translate(c, ranges, host, va, access)
  {
    hide Walk, Canonical;
    if c.priv != 3 && c.levels > 0 {
      WalkNoLess(c, c', ranges, host, va, access, c.root * 4096, c.levels);
    }
  }
}
