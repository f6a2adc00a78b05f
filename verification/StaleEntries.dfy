/**
 * What the flush rules miss: exactly when a change that does not flush loses the agreement between the
 * TLBs and the page walk, and runs from reset on which a hit goes elsewhere than the page walk.
 */
module StaleEntries {
  import opened Basics
  import opened Powers
  import opened PageWalk
  import opened DirtyBits
  import opened Tlb
  import opened MachineModel

  function WithTlbs(h: Hart, read: seq<Entry>, write: seq<Entry>, code: seq<Entry>): Hart {
    h.(tlbRead := read, tlbWrite := write, tlbCode := code)
  }

  /** A hart whose TLBs agree, as one of a valid machine. */
  ghost predicate Sound(h: Hart, ranges: seq<Range>, dirty: seq<Dirty>, host: Host) {
    TlbSizes(h) && |dirty| == |ranges| && MapOk(ranges, dirty) && HartDirty(h, ranges, dirty) && HartAgrees(h, ranges, host)
  }

  // ---- traps and returns -----------------------------------------------------------------------

  /** Whatever its TLBs hold, and in whatever memory, a sound hart still agrees after the move. */
  ghost predicate MoveKeepsAgreement(h: Hart, mpp: nat, priv: nat) {
    forall read, write, code, ranges, dirty, host :: Sound(WithTlbs(h, read, write, code), ranges, dirty, host) ==>
      HartAgrees(AfterMove(WithTlbs(h, read, write, code), mpp, priv), ranges, host)
  }

  /** The move loses the agreement exactly when it does not change the privilege and matters to loads and stores. */
  lemma MoveKeepsExactly(h: Hart, mpp: nat, priv: nat)
    ensures MoveKeepsAgreement(h, mpp, priv) <==> !(h.priv == priv && MppMatters(h, mpp))
  {
    hide MppMatters, HartAgrees, HartDirty, MapOk;
    if h.priv == priv && MppMatters(h, mpp) {
      var read, ranges, dirty, host := LosingState(h, mpp);
      assert Sound(WithTlbs(h, read, Blank(), Blank()), ranges, dirty, host);
    } else {
      forall read, write, code, ranges, dirty, host | Sound(WithTlbs(h, read, write, code), ranges, dirty, host)
        ensures HartAgrees(AfterMove(WithTlbs(h, read, write, code), mpp, priv), ranges, host)
      {
        MoveKeeps(WithTlbs(h, read, write, code), h, mpp, priv, ranges, dirty, host);
      }
    }
  }

  lemma MoveKeeps(h: Hart, g: Hart, mpp: nat, priv: nat, ranges: seq<Range>, dirty: seq<Dirty>, host: Host)
    requires h == WithTlbs(g, h.tlbRead, h.tlbWrite, h.tlbCode) && Sound(h, ranges, dirty, host)
    requires !(g.priv == priv && MppMatters(g, mpp))
    ensures HartAgrees(AfterMove(h, mpp, priv), ranges, host)
  {
    hide HartAgrees, HartDirty, MapOk;
    if h.priv != priv {
      FlushedAgrees(h.(mpp := mpp, priv := priv), ranges, host, dirty);
    } else {
      assert !MppMatters(h, mpp);
      AgreesAfterMpp(h, mpp, ranges, host);
    }
  }

  function Blank(): (tlb: seq<Entry>)
    ensures |tlb| == TLB_SIZE && forall i :: 0 <= i < |tlb| ==> Invalid(tlb[i])
  {
    seq(TLB_SIZE, _ => Entry(-1, 0, 0))
  }

  function Slot(va: nat): (i: nat)
    ensures i < TLB_SIZE
  {
    va / 4096 % TLB_SIZE
  }

  /** The entry a miss installs. */
  function EntryTo(va: int, p: int, paddr: int): (e: Entry)
    ensures e == Entry(va - va % 4096, p - va, paddr - va)
  {
    Entry(va - va % 4096, p - va, paddr - va)
  }

  /** A hart with one read entry is sound when that entry agrees. */
  lemma OneRead(h: Hart, i: nat, e: Entry, ranges: seq<Range>, dirty: seq<Dirty>, host: Host)
    requires i < TLB_SIZE && |dirty| == |ranges| && MapOk(ranges, dirty)
    ensures var h' := WithTlbs(h, Blank()[i := e], Blank(), Blank());
            && TlbSizes(h') && HartDirty(h', ranges, dirty)
            && (HartAgrees(h', ranges, host) <==> EntryAgrees(h, ranges, host, ReadAccess, e))
  {
    hide Slow, MapOk, EntryAgrees, EntryDirty;
    var h' := WithTlbs(h, Blank()[i := e], Blank(), Blank());
    assert TlbFor(h', ReadAccess)[i] == e;
    forall access, j | 0 <= j < |TlbFor(h', access)| && !(access == ReadAccess && j == i)
      ensures EntryAgrees(h', ranges, host, access, TlbFor(h', access)[j])
    {
      InvalidAgrees(h', ranges, host, dirty, access, TlbFor(h', access)[j]);
    }
    forall j | 0 <= j < |h'.tlbWrite|
      ensures EntryDirty(ranges, dirty, h'.tlbWrite[j])
    {
      InvalidAgrees(h', ranges, host, dirty, WriteAccess, h'.tlbWrite[j]);
    }
    assert SameContexts(h, h') && SameContexts(h', h);
    if EntryAgrees(h, ranges, host, ReadAccess, e) {
      EntryContext(h, h', ranges, host, ReadAccess, e);
    }
    if EntryAgrees(h', ranges, host, ReadAccess, e) {
      EntryContext(h', h, ranges, host, ReadAccess, e);
    }
  }

  /** RAM of n pages from address 0. */
  function RamBlock(n: nat): (r: seq<Range>)
    ensures |r| == 1
  {
    [Range(0, n * 4096, n * 4096, true, 0)]
  }

  lemma RamBlockOk(n: nat)
    ensures MapOk(RamBlock(n), [Untracked])
  {
  }

  lemma InRamBlock(n: nat, paddr: int)
    ensures RangeAt(RamBlock(n), paddr) == if 0 <= paddr < n * 4096 then Some(0) else None
  {
    hide *;
    var ranges := RamBlock(n);
    CoversBlock(n, paddr);
    var r := RangeAt(ranges, paddr);
    if r.Some? {
      assert r.value == 0;
    }
  }

  lemma CoversBlock(n: nat, paddr: int)
    ensures Covers(RamBlock(n)[0], paddr) <==> 0 <= paddr < n * 4096
  {
  }

  /** For each move that matters, a sound state in which the agreement is lost. */
  lemma LosingState(h: Hart, mpp: nat) returns (read: seq<Entry>, ranges: seq<Range>, dirty: seq<Dirty>, host: Host)
    requires MppMatters(h, mpp)
    ensures |dirty| == |ranges| && Sound(WithTlbs(h, read, Blank(), Blank()), ranges, dirty, host)
    ensures !HartAgrees(WithTlbs(h, read, Blank(), Blank()).(mpp := mpp), ranges, host)
  {
    hide *;
    dirty := [Untracked];
    var va, e;
    MattersIs(h, mpp);
    if h.mpp == 3 {
      va, ranges, host := 0, RamBlock(1), map[];
      IdentityBefore(h, 0, 1, host);
      EmptyTables(h.(mpp := mpp), 1, host);
      RamBlockOk(1);
    } else {
      va, host := LeafTable(h);
      ranges := RamBlock(h.root + 1);
      LeafBefore(h, va, host);
      LeafAfter(h, mpp, va, host);
      RamBlockOk(h.root + 1);
    }
    e := EntryTo(va, 0, 0);
    MapAligned(ranges, dirty);
    FilledAgrees(h, ranges, host, ReadAccess, va, Ram(0, 0));
    NoLonger(h.(mpp := mpp), ranges, host, va, e);
    OneRead(h, Slot(va), e, ranges, dirty, host);
    OneRead(h.(mpp := mpp), Slot(va), e, ranges, dirty, host);
    read := Blank()[Slot(va) := e];
    SoundIs(WithTlbs(h, read, Blank(), Blank()), ranges, dirty, host);
    MppOfTlbs(h, mpp, read);
  }

  lemma MattersIs(h: Hart, mpp: nat)
    ensures MppMatters(h, mpp) <==>
            && h.mprv && h.levels > 0
            && !((h.mpp == 3 <==> mpp == 3) && (h.mpp == 1 <==> mpp == 1))
            && !(h.mpp != 1 && h.mpp != 3 && mpp == 1 && h.sum)
  {
  }

  lemma SoundIs(h: Hart, ranges: seq<Range>, dirty: seq<Dirty>, host: Host)
    requires TlbSizes(h) && |dirty| == |ranges| && MapOk(ranges, dirty) && HartDirty(h, ranges, dirty) && HartAgrees(h, ranges, host)
    ensures Sound(h, ranges, dirty, host)
  {
  }

  lemma MppOfTlbs(h: Hart, mpp: nat, read: seq<Entry>)
    ensures WithTlbs(h, read, Blank(), Blank()).(mpp := mpp) == WithTlbs(h.(mpp := mpp), read, Blank(), Blank())
  {
  }

  lemma NoLonger(h: Hart, ranges: seq<Range>, host: Host, va: nat, e: Entry)
    requires Slow(h, ranges, host, va, ReadAccess) != Ram(0, 0) && e == EntryTo(va, 0, 0)
    ensures !EntryAgrees(h, ranges, host, ReadAccess, e)
  {
    hide Slow;
    PageStart(va);
    assert SamePage(va, e.vaddr) && !AgreesAt(h, ranges, host, ReadAccess, e, va);
  }

  lemma IdentityBefore(h: Hart, va: nat, n: nat, host: Host)
    requires h.mprv && (h.mpp == 3 || h.levels == 0)
    ensures Slow(h, RamBlock(n), host, va, ReadAccess) == if va < n * 4096 then Ram(va, va) else Fault(BusError)
  {
    hide Walk, RangeAt;
    InRamBlock(n, va);
  }

  /** Without a page table, address 0 is not translated. */
  lemma EmptyTables(h: Hart, n: nat, host: Host)
    requires h.mprv && h.mpp != 3 && h.levels > 0 && host == map[]
    ensures Slow(h, RamBlock(n), host, 0, ReadAccess).Fault?
  {
    hide RangeAt, Pow2;
    var c := ContextFor(h, ReadAccess);
    NoEntry(c, RamBlock(n), host, 0, c.root * 4096, c.levels);
  }

  lemma NoEntry(c: Context, ranges: seq<Range>, host: Host, va: nat, table: nat, left: nat)
    requires host == map[]
    ensures !Walk(c, ranges, host, va, ReadAccess, table, left).Ok?
  {
    hide Leaf, PteWord;
  }

  /** A table whose second entry is a leaf, for S-mode or for U-mode, to address 0; and an address it translates. */
  lemma LeafTable(h: Hart) returns (va: nat, host: Host)
    requires h.levels > 0
    ensures va == Pow2(12 + 9 * (h.levels - 1)) && host == map[h.root * 4096 + 8 := LeafEntry(h.mpp == 1)]
  {
    va, host := Pow2(12 + 9 * (h.levels - 1)), map[h.root * 4096 + 8 := LeafEntry(h.mpp == 1)];
  }

  function LeafEntry(supervisor: bool): nat {
    if supervisor then 0x43 else 0x53
  }

  lemma LeafEntryIs(supervisor: bool)
    ensures var pte := LeafEntry(supervisor);
            && PteV(pte) && PteR(pte) && !PteW(pte) && (PteU(pte) <==> !supervisor) && PteA(pte)
            && pte / 1024 == 0 && PteAddress(pte) == 0
  {
  }

  /** Where that table takes its address. */
  lemma LeafWalk(c: Context, va: nat, host: Host, pte: nat)
    requires c.levels > 0 && c.priv != 3 && va == Pow2(12 + 9 * (c.levels - 1)) && host == map[c.root * 4096 + 8 := pte]
    requires PteV(pte) && PteR(pte)
    ensures Translate(c, RamBlock(c.root + 1), host, va, ReadAccess) == Leaf(c, pte, va, ReadAccess, c.levels - 1)
  {
    hide *;
    var j, ranges := c.levels - 1, RamBlock(c.root + 1);
    Pow2Mono(12 + 9 * j, 11 + 9 * c.levels);
    ShrUnique(va, 12 + 9 * j, 1, 0);
    SecondEntry(ranges, c.root, va, j);
    OnlyWord(host, c.root * 4096 + 8, pte);
    WalkAtLeaf(c, ranges, host, va, ReadAccess, c.root * 4096, c.levels, c.root * 4096 + 8);
    TranslatesByWalk(c, ranges, host, va);
  }

  lemma OnlyWord(host: Host, p: int, w: nat)
    requires host == map[p := w]
    ensures WordAt(host, p) == w
  {
  }

  lemma SecondEntry(ranges: seq<Range>, root: nat, va: nat, j: nat)
    requires ranges == RamBlock(root + 1) && Shr(va, 12 + 9 * j) == 1
    ensures PteWord(ranges, root * 4096, va, j) == Some(root * 4096 + 8)
  {
    hide RangeAt, Shr;
    InRamBlock(root + 1, root * 4096 + 8);
  }

  lemma TranslatesByWalk(c: Context, ranges: seq<Range>, host: Host, va: nat)
    requires c.levels > 0 && c.priv != 3 && va < Pow2(11 + 9 * c.levels)
    ensures Translate(c, ranges, host, va, ReadAccess) == Walk(c, ranges, host, va, ReadAccess, c.root * 4096, c.levels)
  {
    hide Pow2, Walk;
  }

  lemma LeafBefore(h: Hart, va: nat, host: Host)
    requires h.mprv && h.mpp != 3 && h.levels > 0
    requires va == Pow2(12 + 9 * (h.levels - 1)) && host == map[h.root * 4096 + 8 := LeafEntry(h.mpp == 1)]
    ensures Slow(h, RamBlock(h.root + 1), host, va, ReadAccess) == Ram(0, 0)
  {
    hide Pow2, Translate, RangeAt, LeafEntry, PteAddress, PteXwr, PteR, PteW, PteU, PteA, PteD, PteV, Shr, Low, Leaf;
    var c, pte := ContextFor(h, ReadAccess), LeafEntry(h.mpp == 1);
    LeafEntryIs(h.mpp == 1);
    LeafWalk(c, va, host, pte);
    LeafAtZero(c, pte, va, c.levels - 1);
    InRamBlock(h.root + 1, 0);
  }

  lemma LeafAtZero(c: Context, pte: nat, va: nat, j: nat)
    requires PteR(pte) && PteA(pte) && pte / 1024 == 0 && PteAddress(pte) == 0 && va == Pow2(12 + 9 * j)
    requires if PteU(pte) then c.priv != 1 || c.sum else c.priv == 1
    ensures Leaf(c, pte, va, ReadAccess, j) == Ok(0)
  {
    LeafOkIs(c, pte, ReadAccess, j);
    hide LeafOk, Pow2, PteR, PteW, PteX, PteA, PteU, PteAddress;
    LowSmall(0, j);
    LowSmall(0, 12 + 9 * j);
    ShrUnique(va, 12 + 9 * j, 1, 0);
  }

  lemma LeafAfter(h: Hart, mpp: nat, va: nat, host: Host)
    requires h.mprv && h.mpp != 3 && h.levels > 0 && MppMatters(h, mpp)
    requires va == Pow2(12 + 9 * (h.levels - 1)) && host == map[h.root * 4096 + 8 := LeafEntry(h.mpp == 1)]
    ensures Slow(h.(mpp := mpp), RamBlock(h.root + 1), host, va, ReadAccess) != Ram(0, 0)
  {
    hide Pow2, Translate, RangeAt, LeafEntry, PteAddress, PteXwr, PteR, PteW, PteU, PteA, PteD, PteV, Leaf, MppMatters;
    MattersIs(h, mpp);
    var h' := h.(mpp := mpp);
    if mpp == 3 {
      IdentityBefore(h', va, h.root + 1, host);
    } else {
      var c, pte := ContextFor(h', ReadAccess), LeafEntry(h.mpp == 1);
      LeafEntryIs(h.mpp == 1);
      LeafWalk(c, va, host, pte);
      LeafRefused(c, pte, va, c.levels - 1);
    }
  }

  lemma LeafRefused(c: Context, pte: nat, va: nat, j: nat)
    requires !(if PteU(pte) then c.priv != 1 || c.sum else c.priv == 1)
    ensures Leaf(c, pte, va, ReadAccess, j) == PageFault
  {
    hide PteU, PteAddress, Pow2, Low, Shr;
    LeafOkIs(c, pte, ReadAccess, j);
  }

  // ---- the memory map ----------------------------------------------------------------------------

  /** Every sound hart still agrees after range r was enabled, moved or disabled. */
  ghost predicate MapKeepsAgreement(ranges: seq<Range>, dirty: seq<Dirty>, r: nat, ranges': seq<Range>)
    requires r < |ranges|
  {
    forall h, host :: Sound(h, ranges, dirty, host) ==> HartAgrees(FlushedFor(h, ranges[r]), ranges', host)
  }

  /** Which is so exactly when all RAM that could be seen is still seen in its place. */
  lemma MapKeepsExactly(ranges: seq<Range>, dirty: seq<Dirty>, r: nat, ranges': seq<Range>)
    requires r < |ranges| == |dirty| && MapOk(ranges, dirty)
    ensures MapKeepsAgreement(ranges, dirty, r, ranges') <==> VisibleKept(ranges, ranges')
  {
    hide HartAgrees, HartDirty, MapOk, RamAt;
    if VisibleKept(ranges, ranges') {
      forall h, host | Sound(h, ranges, dirty, host)
        ensures HartAgrees(FlushedFor(h, ranges[r]), ranges', host)
      {
        MapKeeps(h, ranges, dirty, host, r, ranges');
      }
    } else {
      var paddr: nat :| RamAt(ranges, paddr).Some? && RamAt(ranges', paddr) != RamAt(ranges, paddr);
      var h := LostSight(ranges, dirty, r, ranges', paddr);
    }
  }

  lemma MapKeeps(h: Hart, ranges: seq<Range>, dirty: seq<Dirty>, host: Host, r: nat, ranges': seq<Range>)
    requires r < |ranges| && Sound(h, ranges, dirty, host) && VisibleKept(ranges, ranges')
    ensures HartAgrees(FlushedFor(h, ranges[r]), ranges', host)
  {
    hide HartAgrees, HartDirty, MapOk, VisibleKept;
    AgreesWithFewer(h, FlushedFor(h, ranges[r]), ranges, host);
    AgreesAcrossMaps(FlushedFor(h, ranges[r]), ranges, ranges', host);
  }

  /** A read entry for RAM that goes out of sight. */
  lemma LostSight(ranges: seq<Range>, dirty: seq<Dirty>, r: nat, ranges': seq<Range>, paddr: nat) returns (h: Hart)
    requires r < |ranges| == |dirty| && MapOk(ranges, dirty)
    requires RamAt(ranges, paddr).Some? && RamAt(ranges', paddr) != RamAt(ranges, paddr)
    ensures Sound(h, ranges, dirty, map[]) && !HartAgrees(FlushedFor(h, ranges[r]), ranges', map[])
  {
    hide *;
    var g := Hart(3, false, 0, false, false, 0, 0, Blank(), Blank(), Blank());
    var i, p := Slot(paddr), RamAt(ranges, paddr).value;
    var e := EntryTo(paddr, p, paddr);
    BareSlow(g, ranges, paddr);
    BareSlow(g, ranges', paddr);
    MapAligned(ranges, dirty);
    FilledAgrees(g, ranges, map[], ReadAccess, paddr, Ram(p, paddr));
    EntryLost(g, ranges', paddr, p, e);
    OneRead(g, i, e, ranges, dirty, map[]);
    h := WithTlbs(g, Blank()[i := e], Blank(), Blank());
    SoundIs(h, ranges, dirty, map[]);
    StillThere(g, h, i, e, ranges[r], ranges');
  }

  lemma BareSlow(h: Hart, ranges: seq<Range>, va: nat)
    requires h.priv == 3 && !h.mprv
    ensures var out := Slow(h, ranges, map[], va, ReadAccess);
            if RamAt(ranges, va).Some? then out == Ram(RamAt(ranges, va).value, va) else !out.Ram?
  {
    hide RangeAt, Walk;
  }

  lemma EntryLost(h: Hart, ranges: seq<Range>, va: nat, p: int, e: Entry)
    requires Slow(h, ranges, map[], va, ReadAccess) != Ram(p, va) && e == EntryTo(va, p, va)
    ensures !EntryAgrees(h, ranges, map[], ReadAccess, e)
  {
    hide Slow;
    PageStart(va);
    assert SamePage(va, e.vaddr) && !AgreesAt(h, ranges, map[], ReadAccess, e, va);
  }

  /** The flush of write entries leaves the read entry in place. */
  lemma StillThere(g: Hart, h: Hart, i: nat, e: Entry, r: Range, ranges: seq<Range>)
    requires i < TLB_SIZE && h == WithTlbs(g, Blank()[i := e], Blank(), Blank())
    requires !EntryAgrees(g, ranges, map[], ReadAccess, e)
    ensures !HartAgrees(FlushedFor(h, r), ranges, map[])
  {
    hide Slow, EntryAgrees;
    var h' := FlushedFor(h, r);
    assert TlbFor(h', ReadAccess)[i] == e;
    assert SameContexts(h', g);
    if EntryAgrees(h', ranges, map[], ReadAccess, e) {
      EntryContext(h', g, ranges, map[], ReadAccess, e);
    }
  }

  /** Nothing goes out of sight when a device or a disabled range is put where no RAM is. */
  lemma FreePlaceKept(ranges: seq<Range>, r: nat, addr: nat, size: nat)
    requires r < |ranges| && (ranges[r].size == 0 || !ranges[r].isRam)
    requires forall i, paddr :: 0 <= i < |ranges| && ranges[i].isRam && Covers(ranges[i], paddr) ==>
               !Covers(ranges[r].(addr := addr, size := size), paddr)
    ensures VisibleKept(ranges, ranges[r := ranges[r].(addr := addr, size := size)])
  {
    var ranges' := ranges[r := ranges[r].(addr := addr, size := size)];
    forall paddr: nat | RamAt(ranges, paddr).Some?
      ensures RamAt(ranges', paddr) == RamAt(ranges, paddr)
    {
      var k := RangeAt(ranges, paddr).value;
      var k' := RangeAt(ranges', paddr);
      hide RangeAt;
      assert k != r && Covers(ranges'[k], paddr);
      assert k'.Some? && k'.value >= k;
      assert k'.value != r;
    }
  }

  // ---- runs from reset on which a load goes elsewhere than the page walk ----------------------------

  function ResetHart(): (h: Hart)
    ensures TlbSizes(h) && h.priv == 3 && h.levels == 0 && !h.mprv
  {
    Hart(3, false, 0, false, false, 0, 0, Blank(), Blank(), Blank())
  }

  /** A load that reached RAM leaves an entry that serves the next load from the same address. */
  lemma HitNext(h: Hart, ranges: seq<Range>, host: Host, va: nat, h': Hart, ranges': seq<Range>, host': Host)
    requires TlbSizes(h) && TlbSizes(h') && Accessed(h, ranges, host, va, ReadAccess).0.Ram?
    requires h'.tlbRead == Accessed(h, ranges, host, va, ReadAccess).1.tlbRead
    ensures Accessed(h', ranges', host', va, ReadAccess) == (Accessed(h, ranges, host, va, ReadAccess).0, h')
  {
    hide Slow;
  }

  /** Loads and stores use the privilege in MPP, through page tables from address 0. */
  predicate UsesMpp(h: Hart, mpp: nat) {
    TlbSizes(h) && h.priv == 3 && h.mprv && h.mpp == mpp && h.levels == 3 && h.root == 0
  }

  /** A machine of one hart after reset, and writes to mstatus and satp. */
  method Configured(mpp: nat, host: Host) returns (m: Machine)
    ensures fresh(m) && m.Valid() && |m.harts| == 1 && UsesMpp(m.harts[0], mpp)
    ensures |m.stale| == 1 && !m.stale[0] && m.ranges == RamBlock(1) && m.host == host
  {
    hide MapOk, HartAgrees, HartDirty, StoredDirty, RamBlock;
    RamBlockOk(1);
    m := new Machine([ResetHart()], RamBlock(1), [Untracked], host);
    m.SetMstatus(0, true, mpp, false, false);
    m.WriteSatp(0, 8, 0);
    assert m.HartOk(0);
  }

  /** Two loads with a move of MPP between them. */
  lemma SecondHits(h: Hart, h1: Hart, mpp: nat, ranges: seq<Range>, host: Host, va: nat)
    requires TlbSizes(h) && h.priv == 3 && (Ram(0, 0), h1) == Accessed(h, ranges, host, va, ReadAccess)
    ensures var h2 := AfterMove(h1, mpp, 3);
            && TlbSizes(h2) && Accessed(h2, ranges, host, va, ReadAccess) == (Ram(0, 0), h2)
            && h2.mpp == mpp && h2.mprv == h.mprv && h2.levels == h.levels && h2.root == h.root
  {
    hide Slow;
    assert TlbSizes(h1) && h1.priv == 3;
    HitNext(h, ranges, host, va, AfterMove(h1, mpp, 3), ranges, host);
  }

  lemma ByteAligned(va: nat)
    ensures va % Pow2(0) == 0
  {
  }

  /** mret within M-mode under MPRV: the load hits, but the page walk faults. */
  method ReturnRun() returns (m: Machine, first: Outcome, second: Outcome)
    ensures m.Valid() && |m.harts| == 1 && first == Ram(0, 0) && second == Ram(0, 0)
    ensures Slow(m.harts[0], m.ranges, m.host, 0, ReadAccess).Fault?
  {
    hide *;
    m := Configured(3, map[]);
    ghost var h := m.harts[0];
    UsesMppIs(h, 3);
    IdentityBefore(h, 0, 1, map[]);
    ByteAligned(0);
    first := m.TargetRead(0, 0, 0);
    ghost var h1 := m.harts[0];
    SecondHits(h, h1, 0, m.ranges, m.host, 0);
    AccessedKeeps(h, m.ranges, m.host, 0);
    m.Mret(0);
    second := m.TargetRead(0, 0, 0);
    EmptyTables(m.harts[0], 1, map[]);
  }

  lemma UsesMppIs(h: Hart, mpp: nat)
    ensures UsesMpp(h, mpp) <==>
            TlbSizes(h) && h.priv == 3 && h.mprv && h.mpp == mpp && h.levels == 3 && h.root == 0
  {
  }

  lemma AccessedKeeps(h: Hart, ranges: seq<Range>, host: Host, va: nat)
    requires TlbSizes(h)
    ensures var h' := Accessed(h, ranges, host, va, ReadAccess).1; h'.priv == h.priv && h'.mpp == h.mpp
  {
    hide Slow;
  }

  /** A trap within M-mode under MPRV, loads having been translated as in U-mode: the load hits, but no RAM is there. */
  method TrapRun() returns (m: Machine, va: nat, first: Outcome, second: Outcome)
    ensures m.Valid() && |m.harts| == 1 && first == Ram(0, 0) && second == Ram(0, 0)
    ensures Slow(m.harts[0], m.ranges, m.host, va, ReadAccess) == Fault(BusError)
  {
    hide *;
    m := Configured(0, map[8 := LeafEntry(false)]);
    ghost var h := m.harts[0];
    UsesMppIs(h, 0);
    va := Pow2(30);
    LeafBefore(h, va, m.host);
    ByteAligned(va);
    first := m.TargetRead(0, va, 0);
    ghost var h1 := m.harts[0];
    SecondHits(h, h1, 3, m.ranges, m.host, va);
    AccessedKeeps(h, m.ranges, m.host, va);
    m.TrapToM(0);
    second := m.TargetRead(0, va, 0);
    Twelve();
    Pow2Mono(12, 30);
    IdentityBefore(m.harts[0], va, 1, m.host);
  }

  lemma BlockThere(n: nat)
    ensures n > 0 ==> AddrChanges(RamBlock(n)[0], 0, false)
    ensures RamBlock(n)[0] == Range(0, n * 4096, n * 4096, true, 0)
  {
  }

  lemma DisabledHits(h: Hart, h1: Hart, ranges: seq<Range>, host: Host, h2: Hart)
    requires UsesMpp(h, 3) && (Ram(0, 0), h1) == Accessed(h, RamBlock(1), host, 0, ReadAccess)
    requires h2 == FlushedFor(h1, RamBlock(1)[0]) && ranges == [Range(0, 4096, 0, true, 0)]
    ensures TlbSizes(h2) && Accessed(h2, ranges, host, 0, ReadAccess) == (Ram(0, 0), h2)
    ensures Slow(h2, ranges, host, 0, ReadAccess) == Fault(BusError)
  {
    assert TlbSizes(h2) && h2.mprv && h2.mpp == 3 && h2.tlbRead == h1.tlbRead by {
      hide Slow;
    }
    hide RamBlock, Accessed, FlushedFor, Walk, Canonical;
    HitNext(h, RamBlock(1), host, 0, h2, ranges, host);
    assert !Covers(ranges[0], 0);
  }

  /** RAM is disabled between two loads: the second one still reads it. */
  method DisableRun() returns (m: Machine, first: Outcome, second: Outcome)
    ensures m.Valid() && |m.harts| == 1 && first == Ram(0, 0) && second == Ram(0, 0)
    ensures Slow(m.harts[0], m.ranges, m.host, 0, ReadAccess) == Fault(BusError)
  {
    hide *;
    m := Configured(3, map[]);
    ghost var h := m.harts[0];
    UsesMppIs(h, 3);
    IdentityBefore(h, 0, 1, map[]);
    ByteAligned(0);
    first := m.TargetRead(0, 0, 0);
    ghost var h1 := m.harts[0];
    AccessedKeeps(h, m.ranges, m.host, 0);
    BlockThere(1);
    m.SetAddr(0, 0, false);
    DisabledHits(h, h1, m.ranges, m.host, m.harts[0]);
    second := m.TargetRead(0, 0, 0);
  }
}
