/** Software TLBs: what an entry promises, and what every operation on the machine keeps of it. */
module Tlb {
  import opened Basics
  import opened Powers
  import opened PageWalk
  import opened DirtyBits

  const TLB_SIZE := 256

  /** A vaddr of -1 marks an entry as invalid. */
  datatype Entry = Entry(vaddr: int, memAddend: int, paddrAddend: int)

  /** The part of a hart the MMU looks at; levels is 3 for Sv39, 4 for Sv48, 0 for bare. */
  datatype Hart = Hart(priv: nat, mprv: bool, mpp: nat, sum: bool, mxr: bool, levels: nat, root: nat,
                       tlbRead: seq<Entry>, tlbWrite: seq<Entry>, tlbCode: seq<Entry>)

  /** The two bitmaps of a range and which one is in use. */
  datatype Dirty = Untracked | Tracked(tab: seq<Bitmap>, index: nat)

  function ContextFor(h: Hart, access: Access): Context {
    Context(if h.mprv && access != CodeAccess then h.mpp else h.priv, h.sum, h.mxr, h.levels, h.root)
  }

  function TlbFor(h: Hart, access: Access): seq<Entry> {
    match access
    case ReadAccess => h.tlbRead
    case WriteAccess => h.tlbWrite
    case CodeAccess => h.tlbCode
  }

  function WithEntry(h: Hart, access: Access, i: nat, e: Entry): Hart
    requires i < |TlbFor(h, access)|
  {
    match access
    case ReadAccess => h.(tlbRead := h.tlbRead[i := e])
    case WriteAccess => h.(tlbWrite := h.tlbWrite[i := e])
    case CodeAccess => h.(tlbCode := h.tlbCode[i := e])
  }

  // ---- the slow path ---------------------------------------------------------------------------

  datatype Cause = Misaligned | PageError | BusError

  /** Where an access goes: host memory, a device, or nowhere. */
  datatype Outcome = Fault(cause: Cause) | Ram(ptr: int, paddr: int) | Device(range: nat, offset: nat)

  /** The page walk and the search for the range; code is only fetched from RAM. */
  function Slow(h: Hart, ranges: seq<Range>, host: Host, va: nat, access: Access): Outcome {
    match Translate(ContextFor(h, access), ranges, host, va, access)
    case PageFault => Fault(PageError)
    case AccessFault => Fault(BusError)
    case Ok(paddr) =>
      var r := RangeAt(ranges, paddr);
      if r.None? then Fault(BusError)
      else if ranges[r.value].isRam then Ram(Pointer(ranges[r.value], paddr), paddr)
      else if access == CodeAccess then Fault(BusError)
      else Device(r.value, paddr - ranges[r.value].addr)
  }

  // ---- agreement with the page walk --------------------------------------------------------------

  /** The fast path for va through this entry is the slow path. */
  predicate AgreesAt(h: Hart, ranges: seq<Range>, host: Host, access: Access, e: Entry, va: nat) {
    Slow(h, ranges, host, va, access) == Ram(e.memAddend + va, e.paddrAddend + va)
  }

  predicate Invalid(e: Entry) {
    e.vaddr == -1
  }

  predicate PageEntry(e: Entry) {
    e.vaddr >= 0 && e.vaddr % 4096 == 0
  }

  ghost predicate EntryAgrees(h: Hart, ranges: seq<Range>, host: Host, access: Access, e: Entry) {
    Invalid(e) ||
    (PageEntry(e) && forall va: nat :: SamePage(va, e.vaddr) ==> AgreesAt(h, ranges, host, access, e, va))
  }

  ghost predicate HartAgrees(h: Hart, ranges: seq<Range>, host: Host) {
    forall access, i :: 0 <= i < |TlbFor(h, access)| ==> EntryAgrees(h, ranges, host, access, TlbFor(h, access)[i])
  }

  /** The entry a miss installs serves its whole page. */
  lemma FilledAgrees(h: Hart, ranges: seq<Range>, host: Host, access: Access, va: nat, out: Outcome)
    requires PageAligned(ranges) && out == Slow(h, ranges, host, va, access) && out.Ram?
    ensures EntryAgrees(h, ranges, host, access, Entry(va - va % 4096, out.ptr - va, out.paddr - va))
  {
    hide Translate, RangeAt;
    var e := Entry(va - va % 4096, out.ptr - va, out.paddr - va);
    PageStart(va);
    forall va': nat | SamePage(va', e.vaddr)
      ensures AgreesAt(h, ranges, host, access, e, va')
    {
      var c := ContextFor(h, access);
      TranslateMoves(c, ranges, host, va, va', access);
      var t, t' := Translate(c, ranges, host, va, access), Translate(c, ranges, host, va', access);
      RangeOfPage(ranges, t.paddr, t'.paddr);
    }
  }

  lemma PageStart(va: nat)
    ensures va - va % 4096 >= 0 && (va - va % 4096) % 4096 == 0 && SamePage(va, va - va % 4096)
  {
  }

  /** Only the context matters, not the rest of the hart. */
  lemma SlowContext(h: Hart, h': Hart, ranges: seq<Range>, host: Host, va: nat, access: Access)
    requires ContextFor(h, access) == ContextFor(h', access)
    ensures Slow(h', ranges, host, va, access) == Slow(h, ranges, host, va, access)
  {
  }

  /** Contexts of loads, stores and fetches. */
  predicate SameContexts(h: Hart, h': Hart) {
    ContextFor(h, ReadAccess) == ContextFor(h', ReadAccess) && ContextFor(h, CodeAccess) == ContextFor(h', CodeAccess)
  }

  lemma SameContextsIs(h: Hart, h': Hart, access: Access)
    requires SameContexts(h, h')
    ensures ContextFor(h, access) == ContextFor(h', access)
  {
  }

  /** Entries of h' are entries of h, or invalid. */
  ghost predicate FewerEntries(h: Hart, h': Hart) {
    forall access, i :: 0 <= i < |TlbFor(h', access)| ==>
      Invalid(TlbFor(h', access)[i]) || (i < |TlbFor(h, access)| && TlbFor(h', access)[i] == TlbFor(h, access)[i])
  }

  /** Whatever the slow path found in RAM, it still finds there. */
  ghost predicate RamKept(h: Hart, ranges: seq<Range>, host: Host, h': Hart, ranges': seq<Range>, host': Host) {
    forall access, va: nat :: Slow(h, ranges, host, va, access).Ram? ==>
      Slow(h', ranges', host', va, access) == Slow(h, ranges, host, va, access)
  }

  lemma AgreesCarried(h: Hart, ranges: seq<Range>, host: Host, h': Hart, ranges': seq<Range>, host': Host)
    requires HartAgrees(h, ranges, host) && RamKept(h, ranges, host, h', ranges', host') && FewerEntries(h, h')
    ensures HartAgrees(h', ranges', host')
  {
    hide Slow, SamePage, PageEntry;
    forall access, i | 0 <= i < |TlbFor(h', access)|
      ensures EntryAgrees(h', ranges', host', access, TlbFor(h', access)[i])
    {
      var e := TlbFor(h', access)[i];
      if !Invalid(e) {
        assert EntryAgrees(h, ranges, host, access, e);
        forall va: nat | SamePage(va, e.vaddr)
          ensures AgreesAt(h', ranges', host', access, e, va)
        {
          assert AgreesAt(h, ranges, host, access, e, va);
        }
      }
    }
  }

  lemma AgreesWithFewer(h: Hart, h': Hart, ranges: seq<Range>, host: Host)
    requires HartAgrees(h, ranges, host) && SameContexts(h, h') && FewerEntries(h, h')
    ensures HartAgrees(h', ranges, host)
  {
    hide Slow, SameContexts, ContextFor, HartAgrees, FewerEntries;
    forall access, va: nat
      ensures Slow(h', ranges, host, va, access) == Slow(h, ranges, host, va, access)
    {
      SameContextsIs(h, h', access);
      SlowContext(h, h', ranges, host, va, access);
    }
    AgreesCarried(h, ranges, host, h', ranges, host);
  }

  lemma EntryContext(h: Hart, h': Hart, ranges: seq<Range>, host: Host, access: Access, e: Entry)
    requires EntryAgrees(h, ranges, host, access, e) && SameContexts(h, h')
    ensures EntryAgrees(h', ranges, host, access, e)
  {
    SameContextsIs(h, h', access);
    hide Slow, ContextFor, SamePage, PageEntry;
    if !Invalid(e) {
      forall va: nat | SamePage(va, e.vaddr)
        ensures AgreesAt(h', ranges, host, access, e, va)
      {
        SlowContext(h, h', ranges, host, va, access);
        assert AgreesAt(h, ranges, host, access, e, va);
      }
    }
  }

  lemma AgreesWithEntry(h: Hart, ranges: seq<Range>, host: Host, access: Access, i: nat, e: Entry)
    requires HartAgrees(h, ranges, host) && EntryAgrees(h, ranges, host, access, e) && i < |TlbFor(h, access)|
    ensures HartAgrees(WithEntry(h, access, i, e), ranges, host)
  {
    hide Slow, EntryAgrees;
    var h' := WithEntry(h, access, i, e);
    assert SameContexts(h, h');
    forall a, j | 0 <= j < |TlbFor(h', a)|
      ensures EntryAgrees(h', ranges, host, a, TlbFor(h', a)[j])
    {
      if a == access && i == j {
        EntryContext(h, h', ranges, host, a, e);
      } else {
        assert TlbFor(h', a)[j] == TlbFor(h, a)[j];
        EntryContext(h, h', ranges, host, a, TlbFor(h, a)[j]);
      }
    }
  }

  /** A word no page walk of the hart reads. */
  ghost predicate NoTable(h: Hart, ranges: seq<Range>, host: Host, p: int) {
    !TableWord(ContextFor(h, ReadAccess), ranges, host, p) && !TableWord(ContextFor(h, CodeAccess), ranges, host, p)
  }

  /** A store that leaves the page tables alone keeps the agreement. */
  lemma AgreesAfterStore(h: Hart, ranges: seq<Range>, host: Host, p: int, w: nat)
    requires HartAgrees(h, ranges, host) && NoTable(h, ranges, host, p)
    ensures HartAgrees(h, ranges, host[p := w])
  {
    hide Slow, NoTable, HartAgrees;
    forall access, va: nat
      ensures Slow(h, ranges, host[p := w], va, access) == Slow(h, ranges, host, va, access)
    {
      SlowKept(h, ranges, host, p, w, va, access);
    }
    AgreesCarried(h, ranges, host, h, ranges, host[p := w]);
  }

  lemma SlowKept(h: Hart, ranges: seq<Range>, host: Host, p: int, w: nat, va: nat, access: Access)
    requires NoTable(h, ranges, host, p)
    ensures Slow(h, ranges, host[p := w], va, access) == Slow(h, ranges, host, va, access)
  {
    hide TableWord, Translate, RangeAt;
    TranslateKept(ContextFor(h, access), ranges, host, p, w, va, access);
  }

  // ---- agreement across changes that do not flush ----------------------------------------------------

  /**
   * Moving MPP matters to the read and write entries: under MPRV, with translation on, and unless loads
   * and stores see no less afterwards.
   */
  predicate MppMatters(h: Hart, mpp: nat) {
    h.mprv && !SeesNoLess(ContextFor(h, ReadAccess), ContextFor(h.(mpp := mpp), ReadAccess))
  }

  lemma AgreesAfterMpp(h: Hart, mpp: nat, ranges: seq<Range>, host: Host)
    requires HartAgrees(h, ranges, host) && !MppMatters(h, mpp)
    ensures HartAgrees(h.(mpp := mpp), ranges, host)
  {
    hide Translate, RangeAt, HartAgrees, SeesNoLess;
    var h' := h.(mpp := mpp);
    forall access, va: nat | Slow(h, ranges, host, va, access).Ram?
      ensures Slow(h', ranges, host, va, access) == Slow(h, ranges, host, va, access)
    {
      if h.mprv && access != CodeAccess {
        TranslateNoLess(ContextFor(h, access), ContextFor(h', access), ranges, host, va, access);
      }
    }
    AgreesCarried(h, ranges, host, h', ranges, host);
  }

  /** The host pointer of the RAM at an address. */
  function RamAt(ranges: seq<Range>, paddr: int): Option<int> {
    var r := RangeAt(ranges, paddr);
    if r.Some? && ranges[r.value].isRam then Some(Pointer(ranges[r.value], paddr)) else None
  }

  /** RAM that could be seen is still seen, at the same place. */
  ghost predicate VisibleKept(ranges: seq<Range>, ranges': seq<Range>) {
    forall paddr: nat :: RamAt(ranges, paddr).Some? ==> RamAt(ranges', paddr) == RamAt(ranges, paddr)
  }

  lemma {:induction false} WalkAcrossMaps(c: Context, ranges: seq<Range>, ranges': seq<Range>, host: Host, va: nat,
                                          access: Access, table: nat, left: nat)
    requires VisibleKept(ranges, ranges') && Walk(c, ranges, host, va, access, table, left).Ok?
    ensures Walk(c, ranges', host, va, access, table, left) == Walk(c, ranges, host, va, access, table, left)
    decreases left
  {
    hide Leaf, PteAddress, PteXwr, PteV, RangeAt, PteIndex;
    var pteAddr := table + PteIndex(va, left - 1) * 8;
    assert PteWord(ranges, table, va, left - 1) == RamAt(ranges, pteAddr);
    assert PteWord(ranges', table, va, left - 1) == RamAt(ranges', pteAddr);
    hide PteWord, RamAt;
    var pte := WordAt(host, PteWord(ranges, table, va, left - 1).value);
    if PteXwr(pte) == 0 {
      WalkAcrossMaps(c, ranges, ranges', host, va, access, PteAddress(pte), left - 1);
    }
  }

  lemma SlowAcrossMaps(h: Hart, ranges: seq<Range>, ranges': seq<Range>, host: Host, va: nat, access: Access)
    requires VisibleKept(ranges, ranges') && Slow(h, ranges, host, va, access).Ram?
    ensures Slow(h, ranges', host, va, access) == Slow(h, ranges, host, va, access)
  {
    hide Walk, Canonical, RangeAt;
    var c := ContextFor(h, access);
    if c.priv != 3 && c.levels > 0 {
      WalkAcrossMaps(c, ranges, ranges', host, va, access, c.root * 4096, c.levels);
    }
    var paddr := Translate(c, ranges, host, va, access).paddr;
    assert RamAt(ranges, paddr).Some? && RamAt(ranges', paddr) == RamAt(ranges, paddr);
  }

  lemma AgreesAcrossMaps(h: Hart, ranges: seq<Range>, ranges': seq<Range>, host: Host)
    requires HartAgrees(h, ranges, host) && VisibleKept(ranges, ranges')
    ensures HartAgrees(h, ranges', host)
  {
    hide Slow, HartAgrees, VisibleKept;
    forall access, va: nat | Slow(h, ranges, host, va, access).Ram?
      ensures Slow(h, ranges', host, va, access) == Slow(h, ranges, host, va, access)
    {
      SlowAcrossMaps(h, ranges, ranges', host, va, access);
    }
    AgreesCarried(h, ranges, host, h, ranges', host);
  }

  // ---- dirty pages --------------------------------------------------------------------------------

  predicate InBlock(r: Range, p: int) {
    r.isRam && r.physMem <= p < r.physMem + r.orgSize
  }

  /** The page of a host pointer within its block. */
  function PageOf(r: Range, p: int): nat
    requires InBlock(r, p)
  {
    (p - r.physMem) / 4096
  }

  /** Pages are 4096 bytes long. */
  lemma PageIs(r: Range, p: int)
    requires InBlock(r, p)
    ensures 4096 * PageOf(r, p) <= p - r.physMem < 4096 * PageOf(r, p) + 4096
  {
  }

  predicate RangeOk(r: Range) {
    r.addr % 4096 == 0 && r.orgSize % 4096 == 0 && (r.size == 0 || r.size == r.orgSize) && r.physMem % 8 == 0
  }

  predicate DirtyOk(r: Range, d: Dirty) {
    d.Tracked? ==>
      r.isRam && d.index < 2 && |d.tab| == 2 &&
      |d.tab[0]| == (r.orgSize / 4096 + 31) / 32 && |d.tab[1]| == (r.orgSize / 4096 + 31) / 32
  }

  /** Page-aligned ranges whose host blocks do not overlap, with bitmaps of the right size. */
  ghost predicate MapOk(ranges: seq<Range>, dirty: seq<Dirty>) {
    && |dirty| == |ranges|
    && (forall i :: 0 <= i < |ranges| ==> RangeOk(ranges[i]) && DirtyOk(ranges[i], dirty[i]))
    && (forall i, j, p: int :: 0 <= i < j < |ranges| && InBlock(ranges[i], p) ==> !InBlock(ranges[j], p))
  }

  lemma MapAligned(ranges: seq<Range>, dirty: seq<Dirty>)
    requires MapOk(ranges, dirty)
    ensures PageAligned(ranges)
  {
    forall i | 0 <= i < |ranges|
      ensures ranges[i].addr % 4096 == 0 && ranges[i].size % 4096 == 0
    {
      assert RangeOk(ranges[i]);
    }
  }

  /** A walk reads its entries as the aligned words that stores change. */
  lemma TableWordAligned(c: Context, ranges: seq<Range>, dirty: seq<Dirty>, host: Host, p: int)
    requires MapOk(ranges, dirty) && TableWord(c, ranges, host, p)
    ensures p % 8 == 0
  {
    hide MapOk, WordAligned, WalkReads;
    var va: nat :| WalkReads(ranges, host, va, c.root * 4096, c.levels, p);
    MapWords(ranges, dirty);
    PageIsAligned(c.root);
    WalkReadsAligned(ranges, host, va, c.root * 4096, c.levels, p);
  }

  lemma MapWords(ranges: seq<Range>, dirty: seq<Dirty>)
    requires MapOk(ranges, dirty)
    ensures WordAligned(ranges)
  {
    hide InBlock, DirtyOk;
    forall i | 0 <= i < |ranges|
      ensures ranges[i].addr % 8 == 0 && ranges[i].physMem % 8 == 0
    {
      assert RangeOk(ranges[i]);
      PageIsAligned(ranges[i].addr / 4096);
    }
  }

  function CurrentBits(d: Dirty): Bitmap {
    if d.Tracked? && d.index < |d.tab| then d.tab[d.index] else []
  }

  /** The page is in an enabled block and, if the block is tracked, marked dirty. */
  predicate WritablePage(r: Range, d: Dirty, p: int) {
    && InBlock(r, p) && r.size != 0 && (p - r.physMem) % 4096 == 0
    && (d.Tracked? ==> IsDirty(CurrentBits(d), PageOf(r, p)))
  }

  /** Every write entry points to such a page. */
  ghost predicate EntryDirty(ranges: seq<Range>, dirty: seq<Dirty>, e: Entry)
    requires |dirty| == |ranges|
  {
    Invalid(e) ||
    (PageEntry(e) && exists i :: 0 <= i < |ranges| && WritablePage(ranges[i], dirty[i], e.memAddend + e.vaddr))
  }

  ghost predicate HartDirty(h: Hart, ranges: seq<Range>, dirty: seq<Dirty>)
    requires |dirty| == |ranges|
  {
    forall i :: 0 <= i < |h.tlbWrite| ==> EntryDirty(ranges, dirty, h.tlbWrite[i])
  }

  /** phys_mem_set_dirty_bit */
  function MarkPage(r: Range, d: Dirty, p: int): Dirty
    requires InBlock(r, p) && DirtyOk(r, d) && RangeOk(r)
  {
    if d.Untracked? then d
    else d.(tab := d.tab[d.index := Marked(d.tab[d.index], PageOf(r, p))])
  }

  lemma MarkPageIs(r: Range, d: Dirty, p: int, q: nat)
    requires InBlock(r, p) && DirtyOk(r, d) && RangeOk(r)
    ensures DirtyOk(r, MarkPage(r, d, p)) && MarkPage(r, d, p).Tracked? == d.Tracked?
    ensures d.Tracked? ==> (IsDirty(CurrentBits(MarkPage(r, d, p)), q) <==> q == PageOf(r, p) || IsDirty(CurrentBits(d), q))
  {
    hide IsDirty, Marked;
    if d.Tracked? {
      MarkedIs(d.tab[d.index], PageOf(r, p), q);
    }
  }

  lemma MarkAgain(r: Range, d: Dirty, p: int)
    requires InBlock(r, p) && DirtyOk(r, d) && RangeOk(r) && (d.Tracked? ==> IsDirty(CurrentBits(d), PageOf(r, p)))
    ensures MarkPage(r, d, p) == d
  {
    hide IsDirty, Marked;
    if d.Tracked? {
      MarkedAgain(d.tab[d.index], PageOf(r, p));
    }
  }

  /** Setting one bit keeps what the entries promise. */
  lemma MarkKeeps(h: Hart, ranges: seq<Range>, dirty: seq<Dirty>, k: nat, p: int)
    requires MapOk(ranges, dirty) && k < |ranges| && InBlock(ranges[k], p) && HartDirty(h, ranges, dirty)
    ensures RangeOk(ranges[k]) && DirtyOk(ranges[k], dirty[k])
    ensures HartDirty(h, ranges, dirty[k := MarkPage(ranges[k], dirty[k], p)])
  {
    hide IsDirty, Marked, MarkPage, CurrentBits, InBlock, RangeOk, DirtyOk;
    var dirty' := dirty[k := MarkPage(ranges[k], dirty[k], p)];
    forall i | 0 <= i < |h.tlbWrite|
      ensures EntryDirty(ranges, dirty', h.tlbWrite[i])
    {
      var e := h.tlbWrite[i];
      assert EntryDirty(ranges, dirty, e);
      if !Invalid(e) {
        var j :| 0 <= j < |ranges| && WritablePage(ranges[j], dirty[j], e.memAddend + e.vaddr);
        MarkPageIs(ranges[k], dirty[k], p, PageOf(ranges[j], e.memAddend + e.vaddr));
        assert WritablePage(ranges[j], dirty'[j], e.memAddend + e.vaddr);
      }
    }
  }

  /** A pointer in the page of an entry is in the same block and the same page of it. */
  lemma InEntryPage(r: Range, d: Dirty, e: Entry, va: nat)
    requires RangeOk(r) && PageEntry(e) && SamePage(va, e.vaddr) && WritablePage(r, d, e.memAddend + e.vaddr)
    ensures InBlock(r, e.memAddend + va) && PageOf(r, e.memAddend + va) == PageOf(r, e.memAddend + e.vaddr)
  {
    hide IsDirty, CurrentBits;
    SamePageBlock(r.orgSize, e.memAddend + e.vaddr - r.physMem, va - e.vaddr);
  }

  lemma SamePageBlock(size: nat, off: int, d: int)
    requires 0 <= off < size && size % 4096 == 0 && off % 4096 == 0 && 0 <= d < 4096
    ensures 0 <= off + d < size && (off + d) / 4096 == off / 4096
  {
  }

  // ---- pages stored to --------------------------------------------------------------------------------

  /** The pages of each range stored to since its bitmap was last collected. */
  type Stored = seq<set<nat>>

  ghost predicate StoredDirty(dirty: seq<Dirty>, stored: Stored) {
    && |stored| == |dirty|
    && forall i, page :: 0 <= i < |dirty| && dirty[i].Tracked? && page in stored[i] ==> IsDirty(CurrentBits(dirty[i]), page)
  }

  ghost function Recorded(ranges: seq<Range>, stored: Stored, p: int): (r: Stored)
    requires |stored| == |ranges|
    ensures |r| == |stored|
    ensures forall i :: 0 <= i < |stored| ==>
      r[i] == if InBlock(ranges[i], p) then stored[i] + {PageOf(ranges[i], p)} else stored[i]
  {
    seq(|stored|, i requires 0 <= i < |stored| =>
      if InBlock(ranges[i], p) then stored[i] + {PageOf(ranges[i], p)} else stored[i])
  }

  /** A store through a valid entry only reaches a page already marked. */
  lemma FastStored(ranges: seq<Range>, dirty: seq<Dirty>, stored: Stored, e: Entry, va: nat)
    requires MapOk(ranges, dirty) && StoredDirty(dirty, stored) && EntryDirty(ranges, dirty, e)
    requires PageEntry(e) && SamePage(va, e.vaddr)
    ensures StoredDirty(dirty, Recorded(ranges, stored, e.memAddend + va))
  {
    hide IsDirty, CurrentBits, InBlock, RangeOk, DirtyOk, PageOf;
    var j :| 0 <= j < |ranges| && WritablePage(ranges[j], dirty[j], e.memAddend + e.vaddr);
    assert RangeOk(ranges[j]);
    InEntryPage(ranges[j], dirty[j], e, va);
  }

  lemma SlowStored(ranges: seq<Range>, dirty: seq<Dirty>, stored: Stored, k: nat, p: int)
    requires MapOk(ranges, dirty) && StoredDirty(dirty, stored) && k < |ranges| && InBlock(ranges[k], p)
    ensures RangeOk(ranges[k]) && DirtyOk(ranges[k], dirty[k])
    ensures StoredDirty(dirty[k := MarkPage(ranges[k], dirty[k], p)], Recorded(ranges, stored, p))
  {
    hide IsDirty, CurrentBits, InBlock, RangeOk, DirtyOk, PageOf, MarkPage;
    var dirty', stored' := dirty[k := MarkPage(ranges[k], dirty[k], p)], Recorded(ranges, stored, p);
    forall i, page | 0 <= i < |dirty'| && dirty'[i].Tracked? && page in stored'[i]
      ensures IsDirty(CurrentBits(dirty'[i]), page)
    {
      MarkPageIs(ranges[k], dirty[k], p, page);
    }
  }
}
