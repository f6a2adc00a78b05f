/** Several harts with software TLBs over one physical memory map. */
module MachineModel {
  import opened Basics
  import opened Powers
  import opened PageWalk
  import opened DirtyBits
  import opened Tlb

  /** Replacing size bytes of an 8-byte word. */
  function Merge(w: nat, offset: nat, size: nat, val: nat): nat {
    Shr(w, 8 * (offset + size)) * Pow2(8 * (offset + size)) + Low(val, 8 * size) * Pow2(8 * offset) + Low(w, 8 * offset)
  }

  /** The effect on host memory of storing size bytes at pointer p. */
  function StoreAt(host: Host, p: int, size: nat, val: nat): Host {
    host[p - p % 8 := Merge(WordAt(host, p - p % 8), p % 8, size, val)]
  }

  // ---- bytes ---------------------------------------------------------------------------------------

  function ByteOf(w: nat, j: nat): nat {
    w / Pow2(8 * j) % 256
  }

  /** The byte of host memory at pointer p; words are little-endian. */
  function HostByte(host: Host, p: int): nat {
    ByteOf(WordAt(host, p - p % 8), p % 8)
  }

  lemma EightBits()
    ensures Pow2(8) == 256
  {
  }

  /** Bytes above and below a cut. */
  lemma ByteAbove(w: nat, k: nat, j: nat)
    ensures ByteOf(w, k + j) == ByteOf(Shr(w, 8 * k), j)
  {
    DivPow2(w, 8 * k, 8 * j);
    assert 8 * (k + j) == 8 * k + 8 * j;
    hide Pow2;
  }

  lemma ByteBelow(w: nat, k: nat, j: nat)
    requires j < k
    ensures ByteOf(w, j) == ByteOf(Low(w, 8 * k), j)
  {
    hide *;
    EightBits();
    ByteIs(w, j);
    ByteIs(Low(w, 8 * k), j);
    LowOfLow(w, 8 * (j + 1), 8 * k);
    LowOfLow(w, 8 * j, 8 * k);
    ByteUnique(Low(w, 8 * (j + 1)), j, ByteOf(w, j), ByteOf(Low(w, 8 * k), j), Low(w, 8 * j));
  }

  /** A byte is what its place adds to the bits below it. */
  lemma ByteIs(w: nat, j: nat)
    ensures Low(w, 8 * (j + 1)) == ByteOf(w, j) * Pow2(8 * j) + Low(w, 8 * j)
  {
    EightBits();
    DivPow2(w, 8 * j, 8);
    assert 8 * (j + 1) == 8 * j + 8;
    hide Pow2;
  }

  lemma ByteUnique(n: nat, j: nat, a: nat, b: nat, low: nat)
    requires n == a * Pow2(8 * j) + low == b * Pow2(8 * j) + low
    ensures a == b
  {
    hide *;
    MulCompare(a, b, Pow2(8 * j));
  }

  lemma LowOfLow(w: nat, a: nat, b: nat)
    requires a <= b
    ensures Low(Low(w, b), a) == Low(w, a)
  {
    var q, r := Shr(Low(w, b), a), Low(Low(w, b), a);
    ShrSplit(w, b);
    ShrSplit(Low(w, b), a);
    Pow2Add(b - a, a);
    hide Pow2, Shr, Low;
    MulAssoc(Shr(w, b), Pow2(b - a), Pow2(a));
    MulSum(Shr(w, b) * Pow2(b - a), q, Pow2(a));
    ShrUnique(w, a, Shr(w, b) * Pow2(b - a) + q, r);
  }

  /** Of the bytes of a word, those from offset on are replaced by those of the value. */
  lemma MergeBytes(w: nat, offset: nat, size: nat, val: nat, j: nat)
    ensures ByteOf(Merge(w, offset, size, val), j) ==
            if offset <= j < offset + size then ByteOf(val, j - offset) else ByteOf(w, j)
  {
    hide *;
    var n, k := Merge(w, offset, size, val), offset + size;
    MergeParts(w, offset, size, val);
    if j < offset {
      ByteBelow(n, offset, j);
      ByteBelow(w, offset, j);
    } else if j < k {
      ByteAbove(n, offset, j - offset);
      ByteBelow(Shr(n, 8 * offset), size, j - offset);
      ByteBelow(val, size, j - offset);
    } else {
      ByteAbove(n, k, j - k);
      ByteAbove(w, k, j - k);
    }
  }

  lemma MergeParts(w: nat, offset: nat, size: nat, val: nat)
    ensures var n := Merge(w, offset, size, val);
            && Low(n, 8 * offset) == Low(w, 8 * offset) && Low(Shr(n, 8 * offset), 8 * size) == Low(val, 8 * size)
            && Shr(n, 8 * (offset + size)) == Shr(w, 8 * (offset + size))
  {
    var o, s := 8 * offset, 8 * size;
    var n, hi, mid, low := Merge(w, offset, size, val), Shr(w, o + s), Low(val, s), Low(w, o);
    assert 8 * (offset + size) == o + s;
    assert n == hi * Pow2(o + s) + mid * Pow2(o) + low;
    hide *;
    Pow2Add(s, o);
    MulAssoc(hi, Pow2(s), Pow2(o));
    MulSum(hi * Pow2(s), mid, Pow2(o));
    ShrUnique(n, o, hi * Pow2(s) + mid, low);
    ShrUnique(hi * Pow2(s) + mid, s, hi, mid);
    MulLe(mid + 1, Pow2(s), Pow2(o));
    MulSucc(mid, Pow2(o));
    ShrUnique(n, o + s, hi, mid * Pow2(o) + low);
  }

  /** A store changes exactly the bytes it is for. */
  lemma StoreBytes(host: Host, p: int, size: nat, val: nat, q: int)
    requires p % 8 + size <= 8
    ensures HostByte(StoreAt(host, p, size, val), q) == if p <= q < p + size then ByteOf(val, q - p) else HostByte(host, q)
  {
    hide Merge, ByteOf;
    MergeBytes(WordAt(host, p - p % 8), p % 8, size, val, q % 8);
    SameWord(p, q);
  }

  lemma SameWord(p: int, q: int)
    ensures p - p % 8 == q - q % 8 ==> q - p == q % 8 - p % 8
    ensures p - p % 8 != q - q % 8 ==> q < p - p % 8 || q >= p - p % 8 + 8
  {
  }

  /** An aligned access stays within a word. */
  lemma AlignedInWord(va: nat, p: int, sizeLog2: nat)
    requires sizeLog2 <= 3 && va % Pow2(sizeLog2) == 0 && p % 8 == va % 8
    ensures p % 8 + Pow2(sizeLog2) <= 8
  {
    SmallPowers();
    hide Pow2;
    assert sizeLog2 == 0 || sizeLog2 == 1 || sizeLog2 == 2 || sizeLog2 == 3;
  }

  /** Entries of a TLB that point into a block of host memory become invalid. */
  function WithoutBlock(tlb: seq<Entry>, lo: int, hi: int): (r: seq<Entry>)
    ensures |r| == |tlb|
    ensures forall i :: 0 <= i < |tlb| ==> r[i] == DropIn(tlb[i], lo, hi)
  {
    seq(|tlb|, i requires 0 <= i < |tlb| => DropIn(tlb[i], lo, hi))
  }

  predicate PointsInto(e: Entry, start: int, size: nat) {
    start <= e.memAddend + e.vaddr < start + size
  }

  function DropIn(e: Entry, lo: int, hi: int): Entry {
    if !Invalid(e) && lo <= e.memAddend + e.vaddr < hi then e.(vaddr := -1) else e
  }

  function AllInvalid(tlb: seq<Entry>): (r: seq<Entry>)
    ensures |r| == |tlb|
    ensures forall i :: 0 <= i < |tlb| ==> Invalid(r[i])
  {
    seq(|tlb|, i requires 0 <= i < |tlb| => tlb[i].(vaddr := -1))
  }

  /** tlb_flush_all */
  function TlbFlushAll(h: Hart): Hart {
    h.(tlbRead := AllInvalid(h.tlbRead), tlbWrite := AllInvalid(h.tlbWrite), tlbCode := AllInvalid(h.tlbCode))
  }

  predicate TlbSizes(h: Hart) {
    |h.tlbRead| == TLB_SIZE && |h.tlbWrite| == TLB_SIZE && |h.tlbCode| == TLB_SIZE
  }

  lemma FlushedAgrees(h: Hart, ranges: seq<Range>, host: Host, dirty: seq<Dirty>)
    requires |dirty| == |ranges|
    ensures HartAgrees(TlbFlushAll(h), ranges, host) && HartDirty(TlbFlushAll(h), ranges, dirty)
    ensures TlbSizes(h) ==> TlbSizes(TlbFlushAll(h))
  {
    hide EntryAgrees, EntryDirty;
    var h' := TlbFlushAll(h);
    forall access, i | 0 <= i < |TlbFor(h', access)|
      ensures EntryAgrees(h', ranges, host, access, TlbFor(h', access)[i])
    {
      InvalidAgrees(h', ranges, host, dirty, access, TlbFor(h', access)[i]);
    }
    forall i | 0 <= i < |h'.tlbWrite|
      ensures EntryDirty(ranges, dirty, h'.tlbWrite[i])
    {
      InvalidAgrees(h', ranges, host, dirty, WriteAccess, h'.tlbWrite[i]);
    }
  }

  lemma InvalidAgrees(h: Hart, ranges: seq<Range>, host: Host, dirty: seq<Dirty>, access: Access, e: Entry)
    requires |dirty| == |ranges| && Invalid(e)
    ensures EntryAgrees(h, ranges, host, access, e) && EntryDirty(ranges, dirty, e)
  {
  }

  /** The page walk, then the search for the range: what loads, stores and fetches do on a miss. */
  method SlowPath(h: Hart, ranges: seq<Range>, host: Host, va: nat, access: Access) returns (out: Outcome)
    ensures out == Slow(h, ranges, host, va, access)
  {
    hide Translate, RangeAt, ContextFor;
    var t := GetPhysAddr(ContextFor(h, access), ranges, host, va, access);
    match t
    case PageFault => return Fault(PageError);
    case AccessFault => return Fault(BusError);
    case Ok(paddr) =>
      var r := GetPhysMemRange(ranges, paddr);
      if r.None? {
        return Fault(BusError);
      }
      var pr := ranges[r.value];
      if pr.isRam {
        return Ram(Pointer(pr, paddr), paddr);
      }
      if access == CodeAccess {
        return Fault(BusError);
      }
      return Device(r.value, paddr - pr.addr);
  }

  /** A load or fetch by hart h: through a valid entry, or by the slow path, which fills the TLB from RAM. */
  function Accessed(h: Hart, ranges: seq<Range>, host: Host, va: nat, access: Access): (Outcome, Hart)
    requires TlbSizes(h)
  {
    var i := va / 4096 % TLB_SIZE;
    var e := TlbFor(h, access)[i];
    if e.vaddr == va - va % 4096 then (Ram(e.memAddend + va, e.paddrAddend + va), h)
    else
      var out := Slow(h, ranges, host, va, access);
      if out.Ram? then (out, WithEntry(h, access, i, Entry(va - va % 4096, out.ptr - va, out.paddr - va))) else (out, h)
  }

  /** set_priv, and what traps into M-mode and mret do: MPP is written directly, then set_priv is called. */
  function AfterPriv(h: Hart, priv: nat): Hart {
    if h.priv != priv then TlbFlushAll(h).(priv := priv) else h
  }

  function AfterMove(h: Hart, mpp: nat, priv: nat): Hart {
    AfterPriv(h.(mpp := mpp), priv)
  }

  /** The hart after riscv_flush_tlb_write_range for a range. */
  function WithoutWrites(h: Hart, r: Range): Hart {
    h.(tlbWrite := WithoutBlock(h.tlbWrite, r.physMem, r.physMem + r.orgSize))
  }

  /** The hart after that, if the range that changes is RAM. */
  function FlushedFor(h: Hart, r: Range): Hart {
    if r.isRam then WithoutWrites(h, r) else h
  }

  /** default_set_addr has something to do. */
  predicate AddrChanges(r: Range, addr: nat, enabled: bool) {
    if enabled then r.size == 0 || r.addr != addr else r.size != 0
  }

  /** No entry is left, or all are. */
  ghost predicate TlbsFlushed(h: Hart, h': Hart, flush: bool) {
    forall access ::
      && |TlbFor(h', access)| == |TlbFor(h, access)|
      && (if flush then forall i :: 0 <= i < |TlbFor(h', access)| ==> Invalid(TlbFor(h', access)[i])
          else TlbFor(h', access) == TlbFor(h, access))
  }

  /** No entry survives a change of privilege; otherwise all do, and nothing else changes but MPP. */
  ghost predicate TlbsAfter(h: Hart, h': Hart) {
    && h' == h.(priv := h'.priv, mpp := h'.mpp, tlbRead := h'.tlbRead, tlbWrite := h'.tlbWrite, tlbCode := h'.tlbCode)
    && TlbsFlushed(h, h', h'.priv != h.priv)
  }

  /** An access looks at one entry of one TLB, and a miss that reaches RAM replaces that entry alone. */
  lemma AccessedIs(h: Hart, ranges: seq<Range>, host: Host, va: nat, access: Access)
    requires TlbSizes(h)
    ensures var (out, h') := Accessed(h, ranges, host, va, access);
            var i, tlb, tlb' := va / 4096 % 256, TlbFor(h, access), TlbFor(h', access);
            && SameBesidesTlbs(h, h') && |tlb'| == |tlb| == 256
            && (forall a :: a != access ==> TlbFor(h', a) == TlbFor(h, a))
            && (forall j :: 0 <= j < 256 && j != i ==> tlb'[j] == tlb[j])
            && (tlb[i].vaddr == va / 4096 * 4096 ==> tlb' == tlb && out == Ram(tlb[i].memAddend + va, tlb[i].paddrAddend + va))
            && (tlb[i].vaddr != va / 4096 * 4096 ==> out == Slow(h, ranges, host, va, access))
            && (out.Ram? ==> tlb'[i].vaddr == va / 4096 * 4096 && out == Ram(tlb'[i].memAddend + va, tlb'[i].paddrAddend + va))
            && (!out.Ram? ==> h' == h)
  {
    hide Slow;
    assert va - va % 4096 == va / 4096 * 4096;
  }

  /** Only the TLBs differ. */
  predicate SameBesidesTlbs(h: Hart, h': Hart) {
    h' == h.(tlbRead := h'.tlbRead, tlbWrite := h'.tlbWrite, tlbCode := h'.tlbCode)
  }

  class Machine {
    var harts: seq<Hart>
    var ranges: seq<Range>
    var dirty: seq<Dirty>
    var host: Host
    /**
     * For each hart, whether since the last flush of all its TLBs something happened that the
     * flush rules do not cover: a store to its page tables, a change of the memory map, or a
     * change of the privilege of loads and stores by a trap or return within M-mode.
     */
    ghost var stale: seq<bool>
    ghost var stored: Stored

    ghost predicate HartOk(k: nat)
      reads this
      requires k < |harts| && |stale| == |harts| && |dirty| == |ranges|
    {
      TlbSizes(harts[k]) && HartDirty(harts[k], ranges, dirty) && (!stale[k] ==> HartAgrees(harts[k], ranges, host))
    }

    ghost predicate Valid()
      reads this
    {
      && |dirty| == |ranges| && MapOk(ranges, dirty)
      && |stale| == |harts| && |stored| == |ranges|
      && StoredDirty(dirty, stored)
      && forall k :: 0 <= k < |harts| ==> HartOk(k)
    }

    /** Harts start with empty TLBs, and no page was stored to. */
    constructor (harts: seq<Hart>, ranges: seq<Range>, dirty: seq<Dirty>, host: Host)
      requires |dirty| == |ranges| && MapOk(ranges, dirty)
      requires forall k :: 0 <= k < |harts| ==> TlbSizes(harts[k])
      ensures Valid() && |this.harts| == |harts| && this.ranges == ranges && this.dirty == dirty && this.host == host
      ensures forall k :: 0 <= k < |harts| ==> this.harts[k] == TlbFlushAll(harts[k])
      ensures (forall k :: 0 <= k < |stale| ==> !stale[k]) && (forall r :: 0 <= r < |stored| ==> stored[r] == {})
    {
      hide MapOk, HartAgrees, HartDirty, TlbFlushAll;
      this.harts := seq(|harts|, k requires 0 <= k < |harts| => TlbFlushAll(harts[k]));
      this.ranges, this.dirty, this.host := ranges, dirty, host;
      stale := seq(|harts|, _ => false);
      stored := seq(|ranges|, _ => {});
      new;
      forall k | 0 <= k < |harts|
        ensures HartOk(k)
      {
        FlushedAgrees(harts[k], ranges, host, dirty);
      }
    }

    // ---- accesses ----------------------------------------------------------------------------------

    /** target_read_uN: TLB hit, or page walk and TLB fill. Says where the data is read from. */
    method TargetRead(k: nat, va: nat, sizeLog2: nat) returns (out: Outcome)
      requires Valid() && k < |harts| && sizeLog2 <= 3
      modifies this`harts
      ensures Valid() && |harts| == |old(harts)|
      ensures forall j :: 0 <= j < |harts| ==> SameBesidesTlbs(old(harts)[j], harts[j])
      ensures va % Pow2(sizeLog2) != 0 ==> out == Fault(Misaligned) && harts == old(harts)
      ensures TlbSizes(old(harts)[k]) && harts == old(harts)[k := harts[k]]
      ensures va % Pow2(sizeLog2) == 0 ==> (out, harts[k]) == Accessed(old(harts)[k], ranges, host, va, ReadAccess)
      ensures va % Pow2(sizeLog2) == 0 && !stale[k] ==> out == Slow(old(harts[k]), ranges, host, va, ReadAccess)
    {
      hide Slow, Accessed;
      assert HartOk(k);
      if va % Pow2(sizeLog2) != 0 {
        return Fault(Misaligned);
      }
      out := AccessPage(k, va, ReadAccess);
    }

    /** target_read_insn_u16 */
    method TargetReadInsn(k: nat, va: nat) returns (out: Outcome)
      requires Valid() && k < |harts|
      modifies this`harts
      ensures Valid() && |harts| == |old(harts)|
      ensures forall j :: 0 <= j < |harts| ==> SameBesidesTlbs(old(harts)[j], harts[j])
      ensures TlbSizes(old(harts)[k]) && harts == old(harts)[k := harts[k]] &&
              (out, harts[k]) == Accessed(old(harts)[k], ranges, host, va, CodeAccess)
      ensures !stale[k] ==> out == Slow(old(harts[k]), ranges, host, va, CodeAccess)
    {
      out := AccessPage(k, va, CodeAccess);
    }

    /** The part common to loads and fetches. */
    method AccessPage(k: nat, va: nat, access: Access) returns (out: Outcome)
      requires Valid() && k < |harts| && access != WriteAccess
      modifies this`harts
      ensures Valid() && |harts| == |old(harts)|
      ensures forall j :: 0 <= j < |harts| ==> SameBesidesTlbs(old(harts)[j], harts[j])
      ensures TlbSizes(old(harts)[k]) && harts == old(harts)[k := harts[k]] &&
              (out, harts[k]) == Accessed(old(harts)[k], ranges, host, va, access)
      ensures !stale[k] ==> out == Slow(old(harts[k]), ranges, host, va, access)
    {
      hide Slow, MapOk, StoredDirty, EntryDirty, EntryAgrees;
      assert HartOk(k);
      var h := harts[k];
      var i := va / 4096 % TLB_SIZE;
      var e := TlbFor(h, access)[i];
      if e.vaddr == va - va % 4096 {
        HitAgrees(h, ranges, host, access, i, va, stale[k]);
        return Ram(e.memAddend + va, e.paddrAddend + va);
      }
      out := SlowPath(h, ranges, host, va, access);
      if out.Ram? {
        var e' := Entry(va - va % 4096, out.ptr - va, out.paddr - va);
        MapAligned(ranges, dirty);
        FilledAgrees(h, ranges, host, access, va, out);
        harts := harts[k := WithEntry(h, access, i, e')];
        if !stale[k] {
          AgreesWithEntry(h, ranges, host, access, i, e');
        }
        forall j | 0 <= j < |harts|
          ensures HartOk(j)
        {
          assert old(HartOk(j));
        }
      }
    }

    /**
     * target_write_uN. On a hit only host memory changes; the outcome, the dirty bits and the
     * data are those of the slow path all the same.
     */
    method TargetWrite(k: nat, va: nat, sizeLog2: nat, val: nat) returns (out: Outcome)
      requires Valid() && k < |harts| && sizeLog2 <= 3
      modifies this
      ensures Valid() && |harts| == |old(harts)| && ranges == old(ranges)
      ensures forall j :: 0 <= j < |harts| ==> SameBesidesTlbs(old(harts)[j], harts[j])
      ensures va % Pow2(sizeLog2) != 0 ==> out == Fault(Misaligned)
      ensures va % Pow2(sizeLog2) == 0 && !old(stale)[k] ==>
                && out == Slow(old(harts)[k], ranges, old(host), va, WriteAccess)
                && dirty == SlowDirty(ranges, old(dirty), out)
      ensures if out.Ram? then
                && host == StoreAt(old(host), out.ptr, Pow2(sizeLog2), val)
                && (forall q :: HostByte(host, q) ==
                      if out.ptr <= q < out.ptr + Pow2(sizeLog2) then ByteOf(val, q - out.ptr) else HostByte(old(host), q))
                && stored == Recorded(ranges, old(stored), out.ptr)
                && forall j :: 0 <= j < |stale| ==>
                     stale[j] == (old(stale)[j] || !NoTable(old(harts)[j], ranges, old(host), out.ptr - out.ptr % 8))
              else host == old(host) && dirty == old(dirty) && stored == old(stored) && stale == old(stale)
    {
      hide Slow, MapOk, StoredDirty, Merge, Recorded, SlowDirty, NoTable, HartAgrees, HartDirty, HostByte, ByteOf, Pow2;
      if va % Pow2(sizeLog2) != 0 {
        return Fault(Misaligned);
      }
      out := LocateStore(k, va);
      if out.Ram? {
        var p := out.ptr - out.ptr % 8;
        WriteHost(p, Merge(WordAt(host, p), out.ptr % 8, Pow2(sizeLog2), val));
        AlignedInWord(va, out.ptr, sizeLog2);
        forall q
          ensures HostByte(host, q) ==
            if out.ptr <= q < out.ptr + Pow2(sizeLog2) then ByteOf(val, q - out.ptr) else HostByte(old(host), q)
        {
          StoreBytes(old(host), out.ptr, Pow2(sizeLog2), val, q);
        }
        forall j | 0 <= j < |stale|
          ensures stale[j] == (old(stale)[j] || !NoTable(old(harts)[j], ranges, old(host), p))
        {
          SameNoTable(old(harts)[j], harts[j], ranges, old(host), p);
        }
      }
    }

    /** Finding the host pointer of a store, through the TLB or by filling it. */
    method LocateStore(k: nat, va: nat) returns (out: Outcome)
      requires Valid() && k < |harts|
      modifies this`harts, this`dirty, this`stored
      ensures Valid() && |harts| == |old(harts)|
      ensures forall j :: 0 <= j < |harts| ==> SameBesidesTlbs(old(harts)[j], harts[j])
      ensures !stale[k] ==>
                out == Slow(old(harts)[k], ranges, host, va, WriteAccess) && dirty == SlowDirty(ranges, old(dirty), out)
      ensures if out.Ram? then out.ptr % 8 == va % 8 && stored == Recorded(ranges, old(stored), out.ptr)
              else dirty == old(dirty) && stored == old(stored)
    {
      hide Slow, MapOk, StoredDirty, EntryDirty, EntryAgrees, Recorded, SlowDirty, ContextFor, HartDirty, HartAgrees;
      assert HartOk(k);
      var h := harts[k];
      var i := va / 4096 % TLB_SIZE;
      var e := h.tlbWrite[i];
      if e.vaddr == va - va % 4096 {
        out := Ram(e.memAddend + va, e.paddrAddend + va);
        HitAgrees(h, ranges, host, WriteAccess, i, va, stale[k]);
        HitDirty(h, ranges, host, dirty, stored, i, va, stale[k]);
        HitAligned(h, ranges, dirty, i, va);
        stored := Recorded(ranges, stored, out.ptr);
        forall j | 0 <= j < |harts|
          ensures HartOk(j)
        {
          assert old(HartOk(j));
        }
        return;
      }
      out := SlowPath(h, ranges, host, va, WriteAccess);
      if !out.Ram? {
        SlowDirtySame(ranges, dirty, out);
      } else {
        var range := GetPhysMemRange(ranges, out.paddr);
        SlowInRam(h, ranges, host, va, out);
        var r := range.value;
        MissAligned(ranges, dirty, r, va, out.paddr, out.ptr);
        MissMarks(ranges, dirty, stored, out, r);
        MissFills(h, ranges, host, dirty, i, va, out, stale[k], r);
        dirty := dirty[r := MarkPage(ranges[r], dirty[r], out.ptr)];
        harts := harts[k := WithEntry(h, WriteAccess, i, Entry(va - va % 4096, out.ptr - va, out.paddr - va))];
        stored := Recorded(ranges, stored, out.ptr);
        forall j | 0 <= j < |harts|
          ensures HartOk(j)
        {
          assert old(HartOk(j));
          if j != k {
            MarkKeeps(old(harts)[j], ranges, old(dirty), r, out.ptr);
          }
        }
      }
    }

    /** One word of host memory changes. */
    method WriteHost(p: int, w: nat)
      requires Valid()
      modifies this`host, this`stale
      ensures Valid() && host == old(host)[p := w] && |stale| == |old(stale)|
      ensures forall j :: 0 <= j < |stale| ==> stale[j] == (old(stale)[j] || !NoTable(harts[j], ranges, old(host), p))
    {
      hide MapOk, StoredDirty, NoTable, HartAgrees, HartDirty;
      stale := StaleAfter(harts, ranges, host, stale, p);
      host := host[p := w];
      forall j | 0 <= j < |harts|
        ensures HartOk(j)
      {
        assert old(HartOk(j));
        if !stale[j] {
          AgreesAfterStore(harts[j], ranges, old(host), p, w);
        }
      }
    }

    // ---- changes of the MMU's configuration ------------------------------------------------------------

    method PutHart(k: nat, h: Hart, ghost st: bool)
      requires Valid() && k < |harts|
      requires TlbSizes(h) && HartDirty(h, ranges, dirty) && (!st ==> HartAgrees(h, ranges, host))
      modifies this`harts, this`stale
      ensures Valid() && harts == old(harts)[k := h] && stale == old(stale)[k := st]
    {
      hide MapOk, StoredDirty, HartAgrees, HartDirty;
      harts, stale := harts[k := h], stale[k := st];
      forall j | 0 <= j < |harts|
        ensures HartOk(j)
      {
        if j != k {
          assert old(HartOk(j));
        }
      }
    }

    /** set_mstatus: a hart that was not stale stays so, because a change that matters flushes its TLBs. */
    method SetMstatus(k: nat, mprv: bool, mpp: nat, sum: bool, mxr: bool)
      requires Valid() && k < |harts|
      modifies this`harts, this`stale
      ensures Valid() && |harts| == |old(harts)|
      ensures harts == old(harts)[k := harts[k]]
      ensures SameBesidesTlbs(old(harts)[k].(mprv := mprv, mpp := mpp, sum := sum, mxr := mxr), harts[k])
      ensures var h := old(harts)[k];
              var flush := h.mprv != mprv || h.sum != sum || h.mxr != mxr || (h.mprv && h.mpp != mpp);
              TlbsFlushed(h, harts[k], flush) && stale == old(stale)[k := old(stale)[k] && !flush]
    {
      hide MapOk, StoredDirty, HartAgrees, HartDirty;
      assert HartOk(k);
      var h := harts[k];
      var h' := h.(mprv := mprv, mpp := mpp, sum := sum, mxr := mxr);
      if h.mprv != mprv || h.sum != sum || h.mxr != mxr || (h.mprv && h.mpp != mpp) {
        FlushedAgrees(h', ranges, host, dirty);
        PutHart(k, TlbFlushAll(h'), false);
      } else {
        SameTlbs(h, h', ranges, host, dirty, stale[k]);
        PutHart(k, h', stale[k]);
      }
    }

    /** The satp register: an unknown mode is ignored, and the TLBs are flushed in any case. */
    method WriteSatp(k: nat, mode: nat, root: nat)
      requires Valid() && k < |harts|
      modifies this`harts, this`stale
      ensures Valid() && |harts| == |old(harts)| && stale == old(stale)[k := false]
      ensures harts == old(harts)[k := harts[k]]
      ensures SameBesidesTlbs(if mode == 0 then old(harts)[k].(levels := 0, root := root)
                              else if mode == 8 then old(harts)[k].(levels := 3, root := root)
                              else if mode == 9 then old(harts)[k].(levels := 4, root := root)
                              else old(harts)[k], harts[k])
      ensures TlbsFlushed(old(harts)[k], harts[k], true)
    {
      hide MapOk, StoredDirty, HartAgrees, HartDirty;
      assert HartOk(k);
      var h := harts[k];
      if mode == 0 || mode == 8 || mode == 9 {
        h := h.(levels := if mode == 0 then 0 else mode - 8 + 3, root := root);
      }
      FlushedAgrees(h, ranges, host, dirty);
      PutHart(k, TlbFlushAll(h), false);
    }

    /** SFENCE.VMA flushes everything, whatever its operands. */
    method SfenceVma(k: nat)
      requires Valid() && k < |harts|
      modifies this`harts, this`stale
      ensures Valid() && |harts| == |old(harts)| && stale == old(stale)[k := false]
      ensures harts == old(harts)[k := harts[k]] && SameBesidesTlbs(old(harts)[k], harts[k])
      ensures TlbsFlushed(old(harts)[k], harts[k], true)
    {
      hide MapOk, StoredDirty, HartAgrees, HartDirty;
      assert HartOk(k);
      FlushedAgrees(harts[k], ranges, host, dirty);
      PutHart(k, TlbFlushAll(harts[k]), false);
    }

    /** set_priv, which delegated traps, sret and dret rely on. */
    method SetPriv(k: nat, priv: nat)
      requires Valid() && k < |harts|
      modifies this`harts, this`stale
      ensures Valid() && |harts| == |old(harts)| && harts == old(harts)[k := AfterPriv(old(harts)[k], priv)]
      ensures harts[k].priv == priv && harts[k].mpp == old(harts)[k].mpp && TlbsAfter(old(harts)[k], harts[k])
      ensures stale == old(stale)[k := old(stale)[k] && old(harts)[k].priv == priv]
    {
      hide MapOk, StoredDirty, HartAgrees, HartDirty;
      assert HartOk(k);
      var h := harts[k];
      if h.priv != priv {
        FlushedAgrees(h.(priv := priv), ranges, host, dirty);
        PutHart(k, TlbFlushAll(h).(priv := priv), false);
      } else {
        PutHart(k, h, stale[k]);
      }
    }

    /**
     * A trap into M-mode. From M-mode itself it moves MPP without a flush, so a hart that was not stale
     * becomes so exactly when that move matters.
     */
    method TrapToM(k: nat)
      requires Valid() && k < |harts|
      modifies this`harts, this`stale
      ensures Valid() && |harts| == |old(harts)|
      ensures harts == old(harts)[k := AfterMove(old(harts)[k], old(harts)[k].priv, 3)]
      ensures harts[k].priv == 3 && harts[k].mpp == old(harts)[k].priv && TlbsAfter(old(harts)[k], harts[k])
      ensures var h := old(harts)[k];
              stale == old(stale)[k := h.priv == 3 && (old(stale)[k] || MppMatters(h, h.priv))]
    {
      MoveMpp(k, harts[k].priv, 3);
    }

    /** mret: MPP becomes U-mode, and a return within M-mode does not flush. */
    method Mret(k: nat)
      requires Valid() && k < |harts|
      modifies this`harts, this`stale
      ensures Valid() && |harts| == |old(harts)|
      ensures harts == old(harts)[k := AfterMove(old(harts)[k], 0, old(harts)[k].mpp)]
      ensures harts[k].priv == old(harts)[k].mpp && harts[k].mpp == 0 && TlbsAfter(old(harts)[k], harts[k])
      ensures var h := old(harts)[k];
              stale == old(stale)[k := h.priv == h.mpp && (old(stale)[k] || MppMatters(h, 0))]
    {
      MoveMpp(k, 0, harts[k].mpp);
    }

    /** Writing the MPP field directly, then set_priv. */
    method MoveMpp(k: nat, mpp: nat, priv: nat)
      requires Valid() && k < |harts|
      modifies this`harts, this`stale
      ensures Valid() && |harts| == |old(harts)|
      ensures harts == old(harts)[k := AfterMove(old(harts)[k], mpp, priv)]
      ensures var h := old(harts)[k];
              stale == old(stale)[k := h.priv == priv && (old(stale)[k] || MppMatters(h, mpp))]
    {
      hide MapOk, StoredDirty, HartAgrees, HartDirty, MppMatters, EntryDirty;
      assert HartOk(k);
      var h := harts[k];
      ghost var st := stale[k] || MppMatters(h, mpp);
      SameWriteTlb(h, h.(mpp := mpp), ranges, dirty);
      if !st {
        AgreesAfterMpp(h, mpp, ranges, host);
      }
      PutHart(k, h.(mpp := mpp), st);
      SetPriv(k, priv);
    }

    // ---- dirty pages and the memory map -------------------------------------------------------------------

    /** riscv_flush_tlb_write_range: no hart keeps a write entry into the block. */
    method FlushTlbWriteRange(ramAddr: int, ramSize: nat)
      requires Valid()
      modifies this`harts, this`stale
      ensures Valid() && |harts| == |old(harts)| && stale == old(stale)
      ensures forall k :: 0 <= k < |harts| ==>
        harts[k] == old(harts)[k].(tlbWrite := WithoutBlock(old(harts)[k].tlbWrite, ramAddr, ramAddr + ramSize))
      ensures forall k :: 0 <= k < |harts| ==> |harts[k].tlbWrite| == |old(harts)[k].tlbWrite|
      ensures forall k, i :: 0 <= k < |harts| && 0 <= i < |harts[k].tlbWrite| && i < |old(harts)[k].tlbWrite| ==>
        var e := old(harts)[k].tlbWrite[i];
        Invalid(harts[k].tlbWrite[i]) <==> Invalid(e) || PointsInto(e, ramAddr, ramSize)
    {
      hide MapOk, StoredDirty, EntryAgrees, EntryDirty;
      for k := 0 to |harts|
        invariant |harts| == |old(harts)| && stale == old(stale)
        invariant Valid()
        invariant forall j :: 0 <= j < k ==>
          harts[j] == old(harts)[j].(tlbWrite := WithoutBlock(old(harts)[j].tlbWrite, ramAddr, ramAddr + ramSize))
        invariant forall j :: k <= j < |harts| ==> harts[j] == old(harts)[j]
      {
        assert HartOk(k);
        var tlb := FlushOne(harts[k].tlbWrite, ramAddr, ramAddr + ramSize);
        var h' := harts[k].(tlbWrite := tlb);
        FewerKeeps(harts[k], h', ranges, host, dirty, stale[k]);
        PutHart(k, h', stale[k]);
      }
    }

    /**
     * default_get_dirty_bits: every page stored to since the last call is in the bitmap, whichever
     * hart stored to it and however many stores went through a TLB entry.
     */
    method GetDirtyBits(r: nat) returns (bits: Bitmap)
      requires Valid() && r < |ranges| && dirty[r].Tracked?
      modifies this`harts, this`stale, this`dirty, this`stored
      ensures Valid() && |harts| == |old(harts)| && stale == old(stale)
      ensures forall j :: 0 <= j < |harts| ==> SameBesidesTlbs(old(harts)[j], harts[j])
      ensures forall j :: 0 <= j < |harts| ==>
        harts[j] == if !AllClear(bits) && ranges[r].size != 0 then WithoutWrites(old(harts)[j], ranges[r]) else old(harts)[j]
      ensures bits == CurrentBits(old(dirty)[r])
      ensures forall page :: page in old(stored)[r] ==> IsDirty(bits, page)
      ensures stored == old(stored)[r := {}] && dirty == old(dirty)[r := dirty[r]]
      ensures forall page: nat :: !IsDirty(CurrentBits(dirty[r]), page)
    {
      hide EntryAgrees, EntryDirty, HartDirty, HartAgrees, IsDirty;
      var d := dirty[r];
      assert DirtyOk(ranges[r], d);
      bits := d.tab[d.index];
      var has := HasDirtyBits(bits);
      if has && ranges[r].size != 0 {
        FlushTlbWriteRange(ranges[r].physMem, ranges[r].orgSize);
      }
      forall k | 0 <= k < |harts|
        ensures AvoidsBlock(harts[k], ranges[r])
      {
        assert HartOk(k);
        if has && ranges[r].size != 0 {
          FlushedBlock(old(harts)[k], ranges[r]);
        } else {
          QuietBlock(harts[k], ranges, dirty, r);
        }
      }
      SwapBits(r);
    }

    /** The bitmaps change places and the new one is cleared. */
    method SwapBits(r: nat)
      requires Valid() && r < |ranges| && dirty[r].Tracked?
      requires forall k :: 0 <= k < |harts| ==> AvoidsBlock(harts[k], ranges[r])
      modifies this`dirty, this`stored
      ensures Valid() && dirty == old(dirty)[r := dirty[r]] && dirty[r].Tracked?
      ensures stored == old(stored)[r := {}] && forall page: nat :: !IsDirty(CurrentBits(dirty[r]), page)
    {
      hide EntryAgrees, EntryDirty, HartDirty, HartAgrees, IsDirty;
      var d := dirty[r];
      assert DirtyOk(ranges[r], d);
      var index := 1 - d.index;
      var clear := seq(|d.tab[index]|, _ => 0);
      dirty := dirty[r := Tracked(d.tab[index := clear], index)];
      stored := stored[r := {}];
      forall page: nat
        ensures !IsDirty(CurrentBits(dirty[r]), page)
      {
        AllClearIs(clear, page);
      }
      assert DirtyOk(ranges[r], dirty[r]);
      forall k | 0 <= k < |harts|
        ensures HartOk(k)
      {
        assert old(HartOk(k));
        BlockChanges(harts[k], ranges, old(dirty), r, ranges, dirty);
      }
    }

    /**
     * default_set_addr: a range is enabled, moved or disabled. Write entries into it go; read and
     * code entries do not, so harts become stale if RAM that could be seen before is not seen any more.
     */
    method SetAddr(r: nat, addr: nat, enabled: bool)
      requires Valid() && r < |ranges| && addr % 4096 == 0
      modifies this`harts, this`stale, this`ranges
      ensures Valid() && |harts| == |old(harts)|
      ensures forall j :: 0 <= j < |harts| ==>
        harts[j] == if AddrChanges(old(ranges)[r], addr, enabled) then FlushedFor(old(harts)[j], old(ranges)[r]) else old(harts)[j]
      ensures ranges == old(ranges)[r := if enabled then old(ranges)[r].(addr := addr, size := old(ranges)[r].orgSize)
                                         else if old(ranges)[r].size == 0 then old(ranges)[r]
                                         else old(ranges)[r].(addr := 0, size := 0)]
      ensures |stale| == |old(stale)|
      ensures forall k :: 0 <= k < |stale| ==> stale[k] == (old(stale)[k] || !VisibleKept(old(ranges), ranges))
    {
      hide EntryAgrees, EntryDirty, HartDirty, HartAgrees, IsDirty;
      var pr := ranges[r];
      assert RangeOk(pr);
      if enabled {
        if pr.size == 0 || pr.addr != addr {
          MoveRange(r, addr, pr.orgSize);
        }
      } else if pr.size != 0 {
        MoveRange(r, 0, 0);
      }
    }

    method MoveRange(r: nat, addr: nat, size: nat)
      requires Valid() && r < |ranges| && addr % 4096 == 0 && (size == 0 || size == ranges[r].orgSize)
      modifies this`harts, this`stale, this`ranges
      ensures Valid() && |harts| == |old(harts)|
      ensures forall j :: 0 <= j < |harts| ==> harts[j] == FlushedFor(old(harts)[j], old(ranges)[r])
      ensures ranges == old(ranges)[r := old(ranges)[r].(addr := addr, size := size)]
      ensures |stale| == |old(stale)|
      ensures forall k :: 0 <= k < |stale| ==> stale[k] == (old(stale)[k] || !VisibleKept(old(ranges), ranges))
    {
      hide EntryAgrees, EntryDirty, HartDirty, HartAgrees, IsDirty, VisibleKept, StoredDirty, AvoidsBlock, TlbSizes;
      var pr := ranges[r];
      assert RangeOk(pr) && DirtyOk(pr, dirty[r]);
      if pr.isRam {
        FlushTlbWriteRange(pr.physMem, pr.orgSize);
      }
      forall k | 0 <= k < |harts|
        ensures AvoidsBlock(harts[k], pr)
      {
        FlushedBlock(old(harts)[k], pr);
      }
      ghost var before := ranges;
      label Flushed:
      ranges := ranges[r := pr.(addr := addr, size := size)];
      if !VisibleKept(before, ranges) {
        stale := seq(|stale|, _ => true);
      }
      forall k | 0 <= k < |harts|
        ensures HartOk(k)
      {
        assert old@Flushed(HartOk(k));
        BlockChanges(harts[k], before, dirty, r, ranges, dirty);
        if !stale[k] {
          AgreesAcrossMaps(harts[k], before, ranges, host);
        }
      }
      MovedOk(before, dirty, r, addr, size);
    }
  }

  lemma MovedOk(ranges: seq<Range>, dirty: seq<Dirty>, r: nat, addr: nat, size: nat)
    requires MapOk(ranges, dirty) && r < |ranges| && addr % 4096 == 0 && (size == 0 || size == ranges[r].orgSize)
    ensures MapOk(ranges[r := ranges[r].(addr := addr, size := size)], dirty)
  {
    var ranges' := ranges[r := ranges[r].(addr := addr, size := size)];
    assert RangeOk(ranges[r]) && DirtyOk(ranges[r], dirty[r]);
    forall i, p: int | 0 <= i < |ranges|
      ensures InBlock(ranges'[i], p) == InBlock(ranges[i], p)
    {
    }
  }

  /** Whether a page is marked at all. */
  method HasDirtyBits(bits: Bitmap) returns (has: bool)
    ensures has == !AllClear(bits)
  {
    for i := 0 to |bits|
      invariant forall j :: 0 <= j < i ==> bits[j] == 0
    {
      if bits[i] != 0 {
        return true;
      }
    }
    return false;
  }

  /** The maps agree except for range r. */
  ghost predicate SameElsewhere<T>(a: seq<T>, b: seq<T>, r: nat) {
    |a| == |b| && forall i :: 0 <= i < |a| && i != r ==> a[i] == b[i]
  }

  /** No write entry of the hart relies on range r. */
  ghost predicate AvoidsBlock(h: Hart, r: Range) {
    forall i :: 0 <= i < |h.tlbWrite| ==> Invalid(h.tlbWrite[i]) || !InBlock(r, h.tlbWrite[i].memAddend + h.tlbWrite[i].vaddr)
  }

  /** Then range r and its bitmaps may change. */
  lemma BlockChanges(h: Hart, ranges: seq<Range>, dirty: seq<Dirty>, r: nat, ranges': seq<Range>, dirty': seq<Dirty>)
    requires |dirty| == |ranges| && HartDirty(h, ranges, dirty) && r < |ranges| && AvoidsBlock(h, ranges[r])
    requires SameElsewhere(ranges, ranges', r) && SameElsewhere(dirty, dirty', r)
    ensures HartDirty(h, ranges', dirty')
  {
    hide IsDirty, CurrentBits;
    forall i | 0 <= i < |h.tlbWrite|
      ensures EntryDirty(ranges', dirty', h.tlbWrite[i])
    {
      var e := h.tlbWrite[i];
      assert EntryDirty(ranges, dirty, e);
      if !Invalid(e) {
        var j :| 0 <= j < |ranges| && WritablePage(ranges[j], dirty[j], e.memAddend + e.vaddr);
        assert WritablePage(ranges'[j], dirty'[j], e.memAddend + e.vaddr);
      }
    }
  }

  /** A range without dirty pages, or a disabled one, has no write entries. */
  lemma QuietBlock(h: Hart, ranges: seq<Range>, dirty: seq<Dirty>, r: nat)
    requires |dirty| == |ranges| && MapOk(ranges, dirty) && HartDirty(h, ranges, dirty) && r < |ranges|
    requires ranges[r].size == 0 || (dirty[r].Tracked? && AllClear(CurrentBits(dirty[r])))
    ensures AvoidsBlock(h, ranges[r])
  {
    hide IsDirty, CurrentBits, AllClear;
    forall i | 0 <= i < |h.tlbWrite| && !Invalid(h.tlbWrite[i])
      ensures !InBlock(ranges[r], h.tlbWrite[i].memAddend + h.tlbWrite[i].vaddr)
    {
      var e := h.tlbWrite[i];
      assert EntryDirty(ranges, dirty, e);
      var j :| 0 <= j < |ranges| && WritablePage(ranges[j], dirty[j], e.memAddend + e.vaddr);
      if j == r && dirty[r].Tracked? && AllClear(CurrentBits(dirty[r])) {
        AllClearIs(CurrentBits(dirty[r]), PageOf(ranges[r], e.memAddend + e.vaddr));
      }
    }
  }

  lemma FlushedBlock(h: Hart, r: Range)
    ensures AvoidsBlock(h.(tlbWrite := WithoutBlock(h.tlbWrite, r.physMem, r.physMem + r.orgSize)), r)
    ensures AvoidsBlock(FlushedFor(h, r), r)
  {
  }

  /** riscv_cpu_flush_tlb_write_range_ram */
  method FlushOne(tlb: seq<Entry>, ramPtr: int, ramEnd: int) returns (r: seq<Entry>)
    ensures r == WithoutBlock(tlb, ramPtr, ramEnd) && |r| == |tlb|
    ensures forall i :: 0 <= i < |tlb| ==>
      && (Invalid(r[i]) <==> Invalid(tlb[i]) || ramPtr <= tlb[i].memAddend + tlb[i].vaddr < ramEnd)
      && (!Invalid(r[i]) ==> r[i] == tlb[i])
  {
    r := tlb;
    for i := 0 to |tlb|
      invariant |r| == |tlb|
      invariant forall j :: 0 <= j < |tlb| ==> r[j] == if j < i then DropIn(tlb[j], ramPtr, ramEnd) else tlb[j]
    {
      if r[i].vaddr != -1 {
        var ptr := r[i].memAddend + r[i].vaddr;
        if ramPtr <= ptr < ramEnd {
          r := r[i := r[i].(vaddr := -1)];
        }
      }
    }
  }

  lemma SameWriteTlb(h: Hart, h': Hart, ranges: seq<Range>, dirty: seq<Dirty>)
    requires |dirty| == |ranges| && h'.tlbWrite == h.tlbWrite && HartDirty(h, ranges, dirty)
    ensures HartDirty(h', ranges, dirty)
  {
    hide EntryDirty;
  }

  lemma SameTlbs(h: Hart, h': Hart, ranges: seq<Range>, host: Host, dirty: seq<Dirty>, st: bool)
    requires |dirty| == |ranges| && h'.tlbRead == h.tlbRead && h'.tlbWrite == h.tlbWrite && h'.tlbCode == h.tlbCode
    requires TlbSizes(h) && HartDirty(h, ranges, dirty) && (!st ==> HartAgrees(h, ranges, host) && SameContexts(h, h'))
    ensures TlbSizes(h') && HartDirty(h', ranges, dirty) && (!st ==> HartAgrees(h', ranges, host))
  {
    hide HartAgrees, EntryDirty;
    if !st {
      AgreesWithFewer(h, h', ranges, host);
    }
  }

  lemma FewerKeeps(h: Hart, h': Hart, ranges: seq<Range>, host: Host, dirty: seq<Dirty>, st: bool)
    requires |dirty| == |ranges| && TlbSizes(h) && HartDirty(h, ranges, dirty) && (!st ==> HartAgrees(h, ranges, host))
    requires exists lo, hi :: h' == h.(tlbWrite := WithoutBlock(h.tlbWrite, lo, hi))
    ensures TlbSizes(h') && HartDirty(h', ranges, dirty) && (!st ==> HartAgrees(h', ranges, host))
  {
    hide HartAgrees;
    if !st {
      AgreesWithFewer(h, h', ranges, host);
    }
    forall i | 0 <= i < |h'.tlbWrite|
      ensures EntryDirty(ranges, dirty, h'.tlbWrite[i])
    {
      assert EntryDirty(ranges, dirty, h.tlbWrite[i]);
    }
  }

  /** A store to a word of its page tables makes a hart stale. */
  ghost function StaleAfter(harts: seq<Hart>, ranges: seq<Range>, host: Host, stale: seq<bool>, p: int): (r: seq<bool>)
    requires |stale| == |harts|
    ensures |r| == |stale|
    ensures forall j :: 0 <= j < |stale| ==> r[j] == (stale[j] || !NoTable(harts[j], ranges, host, p))
  {
    seq(|stale|, j requires 0 <= j < |stale| => stale[j] || !NoTable(harts[j], ranges, host, p))
  }

  lemma SameNoTable(h: Hart, h': Hart, ranges: seq<Range>, host: Host, p: int)
    requires SameContexts(h, h')
    ensures NoTable(h, ranges, host, p) == NoTable(h', ranges, host, p)
  {
  }

  lemma SlowDirtySame(ranges: seq<Range>, dirty: seq<Dirty>, out: Outcome)
    requires !out.Ram?
    ensures SlowDirty(ranges, dirty, out) == dirty
  {
  }

  /** A store through a valid write entry finds its page marked. */
  lemma HitDirty(h: Hart, ranges: seq<Range>, host: Host, dirty: seq<Dirty>, stored: Stored, i: nat, va: nat, stale: bool)
    requires |dirty| == |ranges| && MapOk(ranges, dirty) && StoredDirty(dirty, stored) && HartDirty(h, ranges, dirty)
    requires i < |h.tlbWrite| && h.tlbWrite[i].vaddr == va - va % 4096
    requires !stale ==> AgreesAt(h, ranges, host, WriteAccess, h.tlbWrite[i], va)
    ensures var e := h.tlbWrite[i];
            && StoredDirty(dirty, Recorded(ranges, stored, e.memAddend + va))
            && (!stale ==> SlowDirty(ranges, dirty, Ram(e.memAddend + va, e.paddrAddend + va)) == dirty)
  {
    hide StoredDirty, Recorded, Translate, RangeAt, IsDirty, CurrentBits, MarkPage;
    var e := h.tlbWrite[i];
    PageStart(va);
    assert EntryDirty(ranges, dirty, e);
    FastStored(ranges, dirty, stored, e, va);
    if !stale {
      var k := RangeAt(ranges, e.paddrAddend + va).value;
      var j :| 0 <= j < |ranges| && WritablePage(ranges[j], dirty[j], e.memAddend + e.vaddr);
      assert RangeOk(ranges[j]) && RangeOk(ranges[k]) && DirtyOk(ranges[k], dirty[k]);
      InEntryPage(ranges[j], dirty[j], e, va);
      assert InBlock(ranges[k], e.memAddend + va);
      assert j == k;
      MarkAgain(ranges[k], dirty[k], e.memAddend + va);
    }
  }

  lemma HitAligned(h: Hart, ranges: seq<Range>, dirty: seq<Dirty>, i: nat, va: nat)
    requires |dirty| == |ranges| && MapOk(ranges, dirty) && HartDirty(h, ranges, dirty)
    requires i < |h.tlbWrite| && h.tlbWrite[i].vaddr == va - va % 4096
    ensures (h.tlbWrite[i].memAddend + va) % 8 == va % 8
  {
    hide IsDirty, CurrentBits, InBlock, DirtyOk, PageOf;
    var e := h.tlbWrite[i];
    assert EntryDirty(ranges, dirty, e);
    PageStart(va);
    var j :| 0 <= j < |ranges| && WritablePage(ranges[j], dirty[j], e.memAddend + e.vaddr);
    assert RangeOk(ranges[j]);
    WordOfPage(e.memAddend, e.vaddr, va, ranges[j].physMem);
  }

  lemma WordOfPage(addend: int, page: nat, va: nat, physMem: int)
    requires page == va - va % 4096 && page % 4096 == 0 && (addend + page - physMem) % 4096 == 0 && physMem % 8 == 0
    ensures (addend + va) % 8 == va % 8
  {
    hide *;
    var a, b := (addend + page - physMem) / 4096, physMem / 8;
    EightAway(va % 4096, 512 * a + b, addend + va);
    EightAway(va % 4096, 512 * (va / 4096), va);
  }

  lemma EightAway(r: nat, k: int, x: int)
    requires x == 8 * k + r
    ensures x % 8 == r % 8
  {
    DivModUnique(x, 8, k + r / 8, r % 8);
  }

  /** The slow path keeps the alignment too, since blocks are aligned. */
  lemma MissAligned(ranges: seq<Range>, dirty: seq<Dirty>, r: nat, va: nat, paddr: int, p: int)
    requires |dirty| == |ranges| && MapOk(ranges, dirty) && r < |ranges| && p == Pointer(ranges[r], paddr)
    requires paddr >= 0 && paddr % 4096 == va % 4096
    ensures p % 8 == va % 8
  {
    hide InBlock, DirtyOk;
    var pr := ranges[r];
    assert RangeOk(pr);
    var a, b, c := paddr / 4096, pr.addr / 4096, pr.physMem / 8;
    hide *;
    EightAway(va % 4096, c + 512 * (a - b), p);
    EightAway(va % 4096, 512 * (va / 4096), va);
  }

  /** A miss marks the page. */
  lemma MissMarks(ranges: seq<Range>, dirty: seq<Dirty>, stored: Stored, out: Outcome, r: nat)
    requires |dirty| == |ranges| && MapOk(ranges, dirty) && StoredDirty(dirty, stored)
    requires out.Ram? && RangeAt(ranges, out.paddr) == Some(r) && r < |ranges|
    requires ranges[r].isRam && Covers(ranges[r], out.paddr) && out.ptr == Pointer(ranges[r], out.paddr)
    ensures InBlock(ranges[r], out.ptr) && RangeOk(ranges[r]) && DirtyOk(ranges[r], dirty[r])
    ensures var dirty' := dirty[r := MarkPage(ranges[r], dirty[r], out.ptr)];
            && MapOk(ranges, dirty') && StoredDirty(dirty', Recorded(ranges, stored, out.ptr))
            && SlowDirty(ranges, dirty, out) == dirty'
  {
    hide *;
    MapAt(ranges, dirty, r, out.paddr);
    SlowStored(ranges, dirty, stored, r, out.ptr);
    MarkedMap(ranges, dirty, r, out.ptr);
    SlowDirtyIs(ranges, dirty, out, r);
  }

  lemma MapAt(ranges: seq<Range>, dirty: seq<Dirty>, r: nat, paddr: int)
    requires |dirty| == |ranges| && MapOk(ranges, dirty) && r < |ranges| && ranges[r].isRam && Covers(ranges[r], paddr)
    ensures RangeOk(ranges[r]) && DirtyOk(ranges[r], dirty[r]) && InBlock(ranges[r], Pointer(ranges[r], paddr))
  {
  }

  lemma MarkedMap(ranges: seq<Range>, dirty: seq<Dirty>, r: nat, p: int)
    requires |dirty| == |ranges| && MapOk(ranges, dirty) && r < |ranges| && InBlock(ranges[r], p)
    requires RangeOk(ranges[r]) && DirtyOk(ranges[r], dirty[r])
    ensures MapOk(ranges, dirty[r := MarkPage(ranges[r], dirty[r], p)])
  {
    hide MarkPage, DirtyOk, RangeOk, InBlock;
    MarkPageIs(ranges[r], dirty[r], p, 0);
  }

  lemma SlowDirtyIs(ranges: seq<Range>, dirty: seq<Dirty>, out: Outcome, r: nat)
    requires |dirty| == |ranges| && out.Ram? && RangeAt(ranges, out.paddr) == Some(r) && r < |ranges|
    requires InBlock(ranges[r], out.ptr) && RangeOk(ranges[r]) && DirtyOk(ranges[r], dirty[r])
    ensures SlowDirty(ranges, dirty, out) == dirty[r := MarkPage(ranges[r], dirty[r], out.ptr)]
  {
    hide RangeAt, InBlock, RangeOk, DirtyOk, MarkPage;
  }

  /** And it installs an entry for the page. */
  lemma MissFills(h: Hart, ranges: seq<Range>, host: Host, dirty: seq<Dirty>, i: nat, va: nat, out: Outcome, stale: bool, r: nat)
    requires |dirty| == |ranges| && MapOk(ranges, dirty) && HartDirty(h, ranges, dirty)
    requires out == Slow(h, ranges, host, va, WriteAccess) && out.Ram? && RangeAt(ranges, out.paddr) == Some(r)
    requires r < |ranges| && InBlock(ranges[r], out.ptr) && RangeOk(ranges[r]) && DirtyOk(ranges[r], dirty[r])
    requires TlbSizes(h) && i < TLB_SIZE && (!stale ==> HartAgrees(h, ranges, host))
    ensures var dirty' := dirty[r := MarkPage(ranges[r], dirty[r], out.ptr)];
            var h' := WithEntry(h, WriteAccess, i, Entry(va - va % 4096, out.ptr - va, out.paddr - va));
            && TlbSizes(h') && SameContexts(h, h') && HartDirty(h', ranges, dirty')
            && (!stale ==> HartAgrees(h', ranges, host))
  {
    hide Slow, RangeAt, IsDirty, CurrentBits, MarkPage, HartAgrees, EntryAgrees, EntryDirty, PageOf, InBlock, MapOk,
      RangeOk, DirtyOk;
    var e := Entry(va - va % 4096, out.ptr - va, out.paddr - va);
    MapAligned(ranges, dirty);
    FilledAgrees(h, ranges, host, WriteAccess, va, out);
    if !stale {
      AgreesWithEntry(h, ranges, host, WriteAccess, i, e);
    }
    MarkPageIs(ranges[r], dirty[r], out.ptr, PageOf(ranges[r], out.ptr));
    MarkKeeps(h, ranges, dirty, r, out.ptr);
    SlowInRam(h, ranges, host, va, out);
    FilledDirty(ranges, dirty, r, MarkPage(ranges[r], dirty[r], out.ptr), va, out.paddr, out.ptr);
  }

  lemma SlowInRam(h: Hart, ranges: seq<Range>, host: Host, va: nat, out: Outcome)
    requires out == Slow(h, ranges, host, va, WriteAccess) && out.Ram?
    ensures out.paddr >= 0 && out.paddr % 4096 == va % 4096
    ensures var r := RangeAt(ranges, out.paddr);
            r.Some? && Covers(ranges[r.value], out.paddr) && ranges[r.value].isRam
            && out.ptr == Pointer(ranges[r.value], out.paddr)
  {
    TranslateMoves(ContextFor(h, WriteAccess), ranges, host, va, va, WriteAccess);
    hide Translate, RangeAt, ContextFor, Covers, Pointer;
  }

  /** The new entry points to a page that is now marked. */
  lemma FilledDirty(ranges: seq<Range>, dirty: seq<Dirty>, r: nat, d: Dirty, va: nat, paddr: int, p: int)
    requires |dirty| == |ranges| && r < |ranges| && RangeOk(ranges[r]) && InBlock(ranges[r], p)
    requires paddr % 4096 == va % 4096 && Covers(ranges[r], paddr) && p == Pointer(ranges[r], paddr)
    requires d.Tracked? ==> IsDirty(CurrentBits(d), PageOf(ranges[r], p))
    ensures EntryDirty(ranges, dirty[r := d], Entry(va - va % 4096, p - va, paddr - va))
  {
    hide IsDirty, CurrentBits;
    PageStart(va);
    var e := Entry(va - va % 4096, p - va, paddr - va);
    BlockPage(ranges[r].orgSize, ranges[r].addr, paddr, va);
    assert WritablePage(ranges[r], dirty[r := d][r], e.memAddend + e.vaddr);
  }

  /** The start of the page is in the block as well. */
  lemma BlockPage(size: nat, addr: nat, paddr: nat, va: nat)
    requires size % 4096 == 0 && addr % 4096 == 0 && addr <= paddr < addr + size && paddr % 4096 == va % 4096
    ensures var off := paddr - addr - va % 4096;
            0 <= off < size && off % 4096 == 0 && off / 4096 == (paddr - addr) / 4096
  {
  }

  /** The bitmaps after a store by the slow path. */
  function SlowDirty(ranges: seq<Range>, dirty: seq<Dirty>, out: Outcome): seq<Dirty> {
    var r := if out.Ram? then RangeAt(ranges, out.paddr) else None;
    if r.Some? && r.value < |dirty| && InBlock(ranges[r.value], out.ptr)
      && DirtyOk(ranges[r.value], dirty[r.value]) && RangeOk(ranges[r.value])
    then dirty[r.value := MarkPage(ranges[r.value], dirty[r.value], out.ptr)]
    else dirty
  }

  lemma HitAgrees(h: Hart, ranges: seq<Range>, host: Host, access: Access, i: nat, va: nat, stale: bool)
    requires i < |TlbFor(h, access)| && TlbFor(h, access)[i].vaddr == va - va % 4096
    requires !stale ==> HartAgrees(h, ranges, host)
    ensures !stale ==> AgreesAt(h, ranges, host, access, TlbFor(h, access)[i], va)
  {
    hide Slow;
    PageStart(va);
    if !stale {
      assert EntryAgrees(h, ranges, host, access, TlbFor(h, access)[i]);
    }
  }
}
