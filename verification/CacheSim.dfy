/**
 * Chains of simulated caches. Which way of a set is replaced is left open, so that the results hold
 * for the shift register of cache_sim_t and, read as one set whose entries are the slots, for the map
 * of fa_cache_sim_t, which fills empty slots first.
 */
module CacheSim {
  import opened Powers

  /** A word of the tag array: VALID, DIRTY and the tag. */
  datatype Line = Line(valid: bool, dirty: bool, tag: nat)

  datatype Cache = Cache(sets: nat, ways: nat, idxShift: nat, lines: seq<Line>,
                         readAccesses: nat, readMisses: nat, bytesRead: nat,
                         writeAccesses: nat, writeMisses: nat, bytesWritten: nat, writebacks: nat)

  predicate ShapeOk(c: Cache) {
    c.sets >= 1 && c.ways >= 1 && |c.lines| == c.sets * c.ways
  }

  function TagOf(c: Cache, addr: nat): nat {
    Shr(addr, c.idxShift)
  }

  /** The first slot of the set of a tag. */
  function SetStart(c: Cache, tag: nat): nat
    requires c.sets >= 1
  {
    tag % c.sets * c.ways
  }

  predicate InSet(c: Cache, tag: nat, k: nat)
    requires c.sets >= 1
  {
    SetStart(c, tag) <= k < SetStart(c, tag) + c.ways
  }

  /** A slot is for exactly the tags with the same remainder: slot k for those with remainder k / ways. */
  lemma SlotIs(c: Cache, tag: nat, k: nat)
    requires c.sets >= 1 && c.ways >= 1
    ensures InSet(c, tag, k) <==> k / c.ways == tag % c.sets
  {
    var s, w := tag % c.sets, c.ways;
    assert SetStart(c, tag) == s * w;
    hide SetStart;
    DivMod(k, w);
    if InSet(c, tag, k) {
      DivModUnique(k, w, s, k - s * w);
    }
  }

  /** The tag of an address is the number of its line. */
  lemma TagIs(c: Cache, addr: nat)
    ensures TagOf(c, addr) * Pow2(c.idxShift) <= addr < (TagOf(c, addr) + 1) * Pow2(c.idxShift)
  {
    ShrSplit(addr, c.idxShift);
    MulSucc(TagOf(c, addr), Pow2(c.idxShift));
    hide Pow2;
  }

  // ---- lines -------------------------------------------------------------------------------

  /** Valid lines sit in the set of their tag, and no line sits in two ways. */
  ghost predicate LinesOk(c: Cache) {
    && ShapeOk(c)
    && (forall k :: 0 <= k < |c.lines| && c.lines[k].valid ==> InSet(c, c.lines[k].tag, k))
    && (forall k :: 0 <= k < |c.lines| && c.lines[k].dirty ==> c.lines[k].valid)
    && (forall j, k :: 0 <= j < k < |c.lines| && c.lines[j].valid && c.lines[k].valid ==> c.lines[j].tag != c.lines[k].tag)
  }

  ghost predicate Present(c: Cache, tag: nat) {
    exists k :: 0 <= k < |c.lines| && c.lines[k].valid && c.lines[k].tag == tag
  }

  /** A line that was stored to since it was filled. */
  ghost predicate DirtyPresent(c: Cache, tag: nat) {
    exists k :: 0 <= k < |c.lines| && c.lines[k].valid && c.lines[k].tag == tag && c.lines[k].dirty
  }

  function DirtyLines(lines: seq<Line>): nat {
    if |lines| == 0 then 0 else DirtyLines(lines[..|lines| - 1]) + if lines[|lines| - 1].dirty then 1 else 0
  }

  /** Replacing a line changes the number of dirty ones accordingly. */
  lemma {:induction false} DirtyLinesAfter(lines: seq<Line>, k: nat, l: Line)
    requires k < |lines|
    ensures DirtyLines(lines[k := l]) + (if lines[k].dirty then 1 else 0) == DirtyLines(lines) + (if l.dirty then 1 else 0)
    decreases |lines|
  {
    var front := lines[..|lines| - 1];
    if k < |front| {
      DirtyLinesAfter(front, k, l);
      assert lines[k := l][..|lines| - 1] == front[k := l];
    } else {
      assert lines[k := l][..|lines| - 1] == front;
    }
  }

  lemma SetInside(c: Cache, tag: nat)
    requires ShapeOk(c)
    ensures 0 <= SetStart(c, tag) && SetStart(c, tag) + c.ways <= |c.lines|
  {
    var s := tag % c.sets;
    MulLe(s + 1, c.sets, c.ways);
    MulSucc(s, c.ways);
    MulLe(0, s, c.ways);
  }

  /** check_tag: the slot of a line, or none. */
  method CheckTag(c: Cache, addr: nat) returns (found: bool, slot: nat)
    requires LinesOk(c)
    ensures found == Present(c, TagOf(c, addr))
    ensures found ==> slot < |c.lines| && c.lines[slot].valid && c.lines[slot].tag == TagOf(c, addr)
  {
    hide SetStart;
    var tag := TagOf(c, addr);
    SetInside(c, tag);
    var start := SetStart(c, tag);
    for i := 0 to c.ways
      invariant forall k :: start <= k < start + i ==> !(c.lines[k].valid && c.lines[k].tag == tag)
    {
      slot := start + i;
      if c.lines[slot].valid && c.lines[slot].tag == tag {
        return true, slot;
      }
    }
    return false, 0;
  }

  /** Filling a slot of the right set with a line that was not present. */
  lemma FilledOk(c: Cache, tag: nat, k: nat, l: Line)
    requires LinesOk(c) && k < |c.lines| && InSet(c, tag, k) && l.valid && l.tag == tag
    requires !Present(c, tag) || (c.lines[k].valid && c.lines[k].tag == tag)
    ensures LinesOk(c.(lines := c.lines[k := l])) && Present(c.(lines := c.lines[k := l]), tag)
  {
    hide SetStart;
    var c' := c.(lines := c.lines[k := l]);
    forall j | 0 <= j < |c'.lines| && c'.lines[j].valid
      ensures InSet(c', c'.lines[j].tag, j)
      ensures j != k ==> c'.lines[j].tag != tag
    {
      SameStart(c, c', c'.lines[j].tag);
    }
    assert c'.lines[k].tag == tag;
  }

  lemma SameStart(c: Cache, c': Cache, tag: nat)
    requires c.sets >= 1 && c'.sets == c.sets && c'.ways == c.ways
    ensures SetStart(c', tag) == SetStart(c, tag)
  {
  }

  // ---- conservation ---------------------------------------------------------------------------

  /** What a cache passes on: a read for every miss and a write for every writeback, a line at a time. */
  ghost predicate Feeds(parent: Cache, child: Cache) {
    && child.readAccesses == parent.readMisses + parent.writeMisses
    && child.writeAccesses == parent.writebacks
    && child.bytesRead == Pow2(parent.idxShift) * child.readAccesses
    && child.bytesWritten == Pow2(parent.idxShift) * child.writeAccesses
  }

  /** Lines that became dirty were written back or are still there. */
  ghost predicate Conserved(c: Cache, dirtied: nat) {
    dirtied == c.writebacks + DirtyLines(c.lines)
  }

  /** Configuration that no access changes. */
  predicate SameGeometry(c: Cache, c': Cache) {
    c'.sets == c.sets && c'.ways == c.ways && c'.idxShift == c.idxShift
  }

  /** One more read of a line. */
  lemma FeedsRead(parent: Cache, child: Cache, parent': Cache, child': Cache)
    requires Feeds(parent, child) && parent'.idxShift == parent.idxShift
    requires parent'.readMisses + parent'.writeMisses == parent.readMisses + parent.writeMisses + 1
    requires parent'.writebacks == parent.writebacks
    requires child'.readAccesses == child.readAccesses + 1 && child'.bytesRead == child.bytesRead + Pow2(parent.idxShift)
    requires child'.writeAccesses == child.writeAccesses && child'.bytesWritten == child.bytesWritten
    ensures Feeds(parent', child')
  {
    hide Pow2;
    MulSucc(child.readAccesses, Pow2(parent.idxShift));
  }

  /** One more writeback of a line. */
  lemma FeedsWrite(parent: Cache, child: Cache, parent': Cache, child': Cache)
    requires Feeds(parent, child) && parent'.idxShift == parent.idxShift
    requires parent'.readMisses + parent'.writeMisses == parent.readMisses + parent.writeMisses
    requires parent'.writebacks == parent.writebacks + 1
    requires child'.writeAccesses == child.writeAccesses + 1 && child'.bytesWritten == child.bytesWritten + Pow2(parent.idxShift)
    requires child'.readAccesses == child.readAccesses && child'.bytesRead == child.bytesRead
    ensures Feeds(parent', child')
  {
    hide Pow2;
    MulSucc(child.writeAccesses, Pow2(parent.idxShift));
  }

  function Counted(c: Cache, bytes: nat, store: bool): Cache {
    if store then c.(writeAccesses := c.writeAccesses + 1, bytesWritten := c.bytesWritten + bytes)
    else c.(readAccesses := c.readAccesses + 1, bytesRead := c.bytesRead + bytes)
  }

  function Missed(c: Cache, store: bool): Cache {
    if store then c.(writeMisses := c.writeMisses + 1) else c.(readMisses := c.readMisses + 1)
  }

  /** Nothing but lines changed, and they are in order. */
  ghost predicate Relined(c: Cache, c': Cache) {
    c' == c.(lines := c'.lines) && |c'.lines| == |c.lines|
  }

  /** `*check_tag(addr) |= DIRTY`: the line is there, also after a miss. */
  method MarkDirty(c: Cache, addr: nat, ghost dirtied: nat) returns (c': Cache, ghost dirtied': nat)
    requires LinesOk(c) && Conserved(c, dirtied) && Present(c, TagOf(c, addr))
    ensures LinesOk(c') && Conserved(c', dirtied') && Relined(c, c') && DirtyPresent(c', TagOf(c, addr))
    ensures dirtied' == dirtied + if DirtyPresent(c, TagOf(c, addr)) then 0 else 1
  {
    hide DirtyLines;
    var found, slot := CheckTag(c, addr);
    var l := c.lines[slot].(dirty := true);
    FilledOk(c, TagOf(c, addr), slot, l);
    DirtyLinesAfter(c.lines, slot, l);
    SlotDirty(c, TagOf(c, addr), slot);
    dirtied' := if c.lines[slot].dirty then dirtied else dirtied + 1;
    c' := c.(lines := c.lines[slot := l]);
    assert c'.lines[slot] == l;
  }

  lemma SlotDirty(c: Cache, tag: nat, slot: nat)
    requires LinesOk(c) && slot < |c.lines| && c.lines[slot].valid && c.lines[slot].tag == tag
    ensures c.lines[slot].dirty <==> DirtyPresent(c, tag)
  {
  }

  /** A dirty victim was there before and is not afterwards. */
  ghost predicate Evicted(c: Cache, c': Cache, victim: Line) {
    victim.dirty ==> DirtyPresent(c, victim.tag) && !Present(c', victim.tag)
  }

  /** At most one line of the cache changed. */
  ghost predicate OneLineApart(c: Cache, c': Cache) {
    |c'.lines| == |c.lines| &&
    forall j, k :: 0 <= j < k < |c.lines| ==> c'.lines[j] == c.lines[j] || c'.lines[k] == c.lines[k]
  }

  /** What a cache is asked for. */
  datatype Request = Request(addr: nat, store: bool)

  /** What a miss asks of the next cache: room for a dirty victim, then the line. */
  function Traffic(idxShift: nat, victim: Line, tag: nat): seq<Request> {
    (if victim.dirty then [Request(victim.tag * Pow2(idxShift), true)] else []) + [Request(tag * Pow2(idxShift), false)]
  }

  /** victimize: some way of the set is given to the new line. */
  method Victimize(c: Cache, addr: nat) returns (c': Cache, victim: Line)
    requires LinesOk(c) && !Present(c, TagOf(c, addr))
    ensures LinesOk(c') && Relined(c, c') && Present(c', TagOf(c, addr)) && TagOf(c', addr) == TagOf(c, addr)
    ensures !DirtyPresent(c', TagOf(c, addr))
    ensures (victim.dirty ==> victim.valid) && Evicted(c, c', victim) && OneLineApart(c, c')
    ensures DirtyLines(c'.lines) + (if victim.dirty then 1 else 0) == DirtyLines(c.lines)
  {
    hide DirtyLines, SetStart;
    var tag := TagOf(c, addr);
    SetInside(c, tag);
    var start := SetStart(c, tag);
    var slot: nat :| start <= slot < start + c.ways;
    victim := c.lines[slot];
    var l := Line(true, false, tag);
    FilledOk(c, tag, slot, l);
    DirtyLinesAfter(c.lines, slot, l);
    c' := c.(lines := c.lines[slot := l]);
    assert c'.lines[slot] == l;
    SlotDirty(c', tag, slot);
    if victim.dirty {
      SlotDirty(c, victim.tag, slot);
      assert forall k :: 0 <= k < |c'.lines| && k != slot ==> c'.lines[k] == c.lines[k];
    }
  }

  class Hierarchy {
    /** Each cache is the miss handler of the one before it. */
    var levels: seq<Cache>
    /** How often a clean line of each cache became dirty. */
    ghost var dirtied: seq<nat>
    /** What each cache was asked for. */
    ghost var requests: seq<seq<Request>>

    /** Every cache from level i on is in order and passes on what it must. */
    ghost predicate OkFrom(i: nat)
      reads this
    {
      && |dirtied| == |levels| && |requests| == |levels|
      && (forall j :: i <= j < |levels| ==> LinesOk(levels[j]) && Conserved(levels[j], dirtied[j]))
      && (forall j :: i <= j < |levels| - 1 ==> Feeds(levels[j], levels[j + 1]))
    }

    ghost predicate Valid()
      reads this
    {
      OkFrom(0)
    }

    /** The levels above i are not involved, and level i counts the access. */
    twostate predicate Accessed(i: nat, bytes: nat, store: bool)
      requires i < |old(levels)|
      reads this
    {
      && |levels| == |old(levels)| && |dirtied| == |old(dirtied)| && |requests| == |old(requests)|
      && (forall j :: 0 <= j < i ==> levels[j] == old(levels)[j])
      && (forall j :: 0 <= j < i && j < |requests| ==> requests[j] == old(requests)[j])
      && (forall j :: 0 <= j < i && j < |dirtied| ==> dirtied[j] == old(dirtied)[j])
      && SameGeometry(old(levels)[i], levels[i])
      && levels[i].readAccesses == Counted(old(levels)[i], bytes, store).readAccesses
      && levels[i].writeAccesses == Counted(old(levels)[i], bytes, store).writeAccesses
      && levels[i].bytesRead == Counted(old(levels)[i], bytes, store).bytesRead
      && levels[i].bytesWritten == Counted(old(levels)[i], bytes, store).bytesWritten
    }

    constructor (levels: seq<Cache>)
      requires forall i :: 0 <= i < |levels| ==>
        ShapeOk(levels[i]) && levels[i] == Cache(levels[i].sets, levels[i].ways, levels[i].idxShift, levels[i].lines,
                                                 0, 0, 0, 0, 0, 0, 0)
      requires forall i, k :: 0 <= i < |levels| && 0 <= k < |levels[i].lines| ==> levels[i].lines[k] == Line(false, false, 0)
      ensures Valid() && this.levels == levels
    {
      this.levels := levels;
      dirtied, requests := seq(|levels|, _ => 0), seq(|levels|, _ => []);
      new;
      forall j | 0 <= j < |levels|
        ensures LinesOk(levels[j]) && Conserved(levels[j], 0)
      {
        NoDirtyLines(levels[j].lines);
      }
    }

    /** access, at any level of the chain. */
    method Access(i: nat, addr: nat, bytes: nat, store: bool)
      requires i < |levels| && OkFrom(i)
      modifies this
      ensures i < |old(levels)| && OkFrom(i) && Accessed(i, bytes, store)
      ensures var tag := TagOf(levels[i], addr);
              && Present(levels[i], tag) && (store ==> DirtyPresent(levels[i], tag))
              && i < |old(dirtied)|
              && dirtied[i] == old(dirtied)[i] + if store && !DirtyPresent(old(levels)[i], tag) then 1 else 0
      ensures var tag, c, c' := TagOf(levels[i], addr), old(levels)[i], levels[i];
              && c'.readMisses == c.readMisses + (if !store && !Present(c, tag) then 1 else 0)
              && c'.writeMisses == c.writeMisses + (if store && !Present(c, tag) then 1 else 0)
      ensures i < |old(requests)| && requests[i] == old(requests)[i] + [Request(addr, store)]
      ensures i + 1 < |levels| ==> Asked(old(levels)[i], TagOf(levels[i], addr), old(requests)[i + 1], requests[i + 1])
      decreases |levels| - i, 2
    {
      hide DirtyLines, LinesOk, Pow2, Present, DirtyPresent, Shr, Traffic, Asked, Conserved, Feeds;
      requests := requests[i := requests[i] + [Request(addr, store)]];
      Bring(i, addr, bytes, store);
      if store {
        Store(i, addr);
        DirtyIsPresent(levels[i], TagOf(levels[i], addr));
      }
    }

    /** All of access but the store itself: afterwards the line is there. */
    method Bring(i: nat, addr: nat, bytes: nat, store: bool)
      requires i < |levels| && OkFrom(i)
      modifies this
      ensures i < |old(levels)| && OkFrom(i) && Accessed(i, bytes, store)
      ensures var tag, c, c' := TagOf(levels[i], addr), old(levels)[i], levels[i];
              && Present(c', tag) && (DirtyPresent(c', tag) <==> DirtyPresent(c, tag))
              && c'.readMisses == c.readMisses + (if !store && !Present(c, tag) then 1 else 0)
              && c'.writeMisses == c.writeMisses + (if store && !Present(c, tag) then 1 else 0)
      ensures i < |old(dirtied)| && dirtied[i] == old(dirtied)[i]
      ensures i < |old(requests)| && requests[i] == old(requests)[i]
      ensures i + 1 < |levels| ==> Asked(old(levels)[i], TagOf(levels[i], addr), old(requests)[i + 1], requests[i + 1])
      decreases |levels| - i, 1
    {
      hide DirtyLines, LinesOk, Pow2, Present, DirtyPresent, Shr, Traffic, Evicted, OneLineApart;
      var c := Counted(levels[i], bytes, store);
      CountedOk(levels[i], bytes, store);
      MissedOk(levels[i], bytes, store, addr);
      var found, slot := CheckTag(c, addr);
      if found {
        levels := levels[i := c];
      } else {
        c := Missed(c, store);
        var victim;
        c, victim := Victimize(c, addr);
        VictimPresence(levels[i], c, bytes, store, victim);
        Exchange(i, addr, bytes, store, c, victim);
        hide Asked;
        AskedFor(old(levels)[i], victim, TagOf(c, addr), if i + 1 < |levels| then old(requests)[i + 1] else []);
      }
      PresenceOfLines(c, levels[i], TagOf(levels[i], addr));
    }

    /** The writeback of the victim and the fill of the new line, c being the cache with the line in place. */
    method Exchange(i: nat, addr: nat, bytes: nat, store: bool, c: Cache, victim: Line)
      requires i < |levels| && OkFrom(i) && LinesOk(c)
      requires Relined(Missed(Counted(levels[i], bytes, store), store), c)
      requires victim.dirty ==> victim.valid
      requires DirtyLines(c.lines) + (if victim.dirty then 1 else 0) == DirtyLines(levels[i].lines)
      modifies this
      ensures i < |old(levels)| && OkFrom(i) && Accessed(i, bytes, store)
      ensures levels[i].lines == c.lines && i < |old(dirtied)| && dirtied[i] == old(dirtied)[i]
      ensures levels[i].readMisses == c.readMisses && levels[i].writeMisses == c.writeMisses
      ensures i < |old(requests)| && requests[i] == old(requests)[i]
      ensures i + 1 < |levels| ==> requests[i + 1] == old(requests)[i + 1] + Traffic(c.idxShift, victim, TagOf(c, addr))
      decreases |levels| - i, 0
    {
      hide DirtyLines, LinesOk, Pow2, Shr;
      levels := levels[i := c];
      var linesz := Pow2(c.idxShift);
      if victim.valid && victim.dirty {
        PassOn(i, victim.tag * linesz, linesz, true);
        LineAddress(c, victim.tag);
        levels := levels[i := c.(writebacks := c.writebacks + 1)];
      }
      ghost var wb := levels;
      LineStart(c, addr);
      PassOn(i, addr - addr % linesz, linesz, false);
      WritebackOk(c);
      FeedsAll(old(levels), wb, levels, i, bytes, store, victim.valid && victim.dirty);
    }

    /** The store itself, once the line is there. */
    method Store(i: nat, addr: nat)
      requires i < |levels| && OkFrom(i) && Present(levels[i], TagOf(levels[i], addr))
      modifies this`levels, this`dirtied
      ensures |levels| == |old(levels)| && |dirtied| == |old(dirtied)| && OkFrom(i)
      ensures Relined(old(levels)[i], levels[i]) && DirtyPresent(levels[i], TagOf(levels[i], addr))
      ensures dirtied[i] == old(dirtied)[i] + if DirtyPresent(old(levels)[i], TagOf(levels[i], addr)) then 0 else 1
      ensures forall j :: 0 <= j < |levels| && j != i ==> levels[j] == old(levels)[j] && dirtied[j] == old(dirtied)[j]
    {
      hide DirtyLines, LinesOk, Present, DirtyPresent, Shr;
      var c, d := MarkDirty(levels[i], addr, dirtied[i]);
      RelinedFeeds(levels, i, c);
      levels, dirtied := levels[i := c], dirtied[i := d];
    }

    /** if (miss_handler) miss_handler->access(addr, linesz, store) */
    method PassOn(i: nat, addr: nat, linesz: nat, store: bool)
      requires i < |levels| && OkFrom(i + 1)
      modifies this
      ensures |levels| == |old(levels)| && |dirtied| == |old(dirtied)| && |requests| == |old(requests)| && OkFrom(i + 1)
      ensures forall j :: 0 <= j <= i ==>
        levels[j] == old(levels)[j] && dirtied[j] == old(dirtied)[j] && requests[j] == old(requests)[j]
      ensures i + 1 < |levels| ==> requests[i + 1] == old(requests)[i + 1] + [Request(addr, store)]
      ensures i + 1 < |levels| ==> Accessed(i + 1, linesz, store)
      decreases |levels| - i - 1, 3
    {
      hide LinesOk, Pow2, Conserved, Feeds;
      if i + 1 < |levels| {
        Access(i + 1, addr, linesz, store);
      }
    }
  }

  /** A hit asks the next cache for nothing, a miss for what Traffic says. */
  ghost predicate Asked(c: Cache, tag: nat, before: seq<Request>, after: seq<Request>) {
    if Present(c, tag) then after == before
    else exists victim: Line :: (victim.dirty ==> DirtyPresent(c, victim.tag))
                                && after == before + Traffic(c.idxShift, victim, tag)
  }

  lemma AskedFor(c: Cache, victim: Line, tag: nat, before: seq<Request>)
    requires !Present(c, tag) && (victim.dirty ==> DirtyPresent(c, victim.tag))
    ensures Asked(c, tag, before, before + Traffic(c.idxShift, victim, tag))
  {
    hide Present, DirtyPresent, Traffic;
  }

  lemma VictimPresence(c: Cache, c': Cache, bytes: nat, store: bool, victim: Line)
    requires Evicted(Missed(Counted(c, bytes, store), store), c', victim)
    ensures victim.dirty ==> DirtyPresent(c, victim.tag)
  {
  }

  /** `addr & ~(linesz - 1)` is the address of the line. */
  lemma LineStart(c: Cache, addr: nat)
    ensures addr - addr % Pow2(c.idxShift) == TagOf(c, addr) * Pow2(c.idxShift)
  {
    ShrSplit(addr, c.idxShift);
  }

  lemma MissedOk(c: Cache, bytes: nat, store: bool, addr: nat)
    requires LinesOk(c)
    ensures var c' := Missed(Counted(c, bytes, store), store);
            LinesOk(c') && c'.lines == c.lines && TagOf(c', addr) == TagOf(c, addr)
            && (Present(c', TagOf(c, addr)) == Present(c, TagOf(c, addr)))
            && (Present(Counted(c, bytes, store), TagOf(c, addr)) == Present(c, TagOf(c, addr)))
            && (DirtyPresent(Counted(c, bytes, store), TagOf(c, addr)) == DirtyPresent(c, TagOf(c, addr)))
            && (DirtyPresent(c, TagOf(c, addr)) ==> Present(c, TagOf(c, addr)))
  {
  }

  lemma DirtyIsPresent(c: Cache, tag: nat)
    requires DirtyPresent(c, tag)
    ensures Present(c, tag)
  {
  }

  lemma WritebackOk(c: Cache)
    requires LinesOk(c)
    ensures LinesOk(c.(writebacks := c.writebacks + 1))
  {
  }

  /** Presence is a matter of the lines alone. */
  lemma PresenceOfLines(c: Cache, c': Cache, tag: nat)
    requires c.lines == c'.lines
    ensures Present(c, tag) == Present(c', tag) && DirtyPresent(c, tag) == DirtyPresent(c', tag)
  {
  }

  /** A written back line is addressed by its own tag. */
  lemma LineAddress(c: Cache, tag: nat)
    ensures TagOf(c, tag * Pow2(c.idxShift)) == tag
  {
    ShrUnique(tag * Pow2(c.idxShift), c.idxShift, tag, 0);
  }

  /** The traffic of a miss, seen from both sides. */
  lemma FeedsAll(before: seq<Cache>, wb: seq<Cache>, after: seq<Cache>, i: nat, bytes: nat, store: bool, dirty: bool)
    requires |before| == |wb| == |after| && i < |before| && after[i] == wb[i]
    requires var m := Missed(Counted(before[i], bytes, store), store);
             var w := m.writebacks + (if dirty then 1 else 0);
             wb[i] == m.(writebacks := w, lines := wb[i].lines)
    requires i + 1 < |before| ==>
               && Feeds(before[i], before[i + 1])
               && CountsFrom(before[i + 1], wb[i + 1], Pow2(before[i].idxShift), false, dirty)
               && CountsFrom(wb[i + 1], after[i + 1], Pow2(before[i].idxShift), true, false)
    ensures i + 1 < |before| ==> Feeds(after[i], after[i + 1])
  {
    hide Pow2;
    if i + 1 < |before| {
      var p := before[i].(writebacks := wb[i].writebacks);
      if dirty {
        FeedsWrite(before[i], before[i + 1], p, wb[i + 1]);
      }
      FeedsRead(p, wb[i + 1], after[i], after[i + 1]);
    }
  }

  /** The counters of accesses after at most one read and one write of a line. */
  ghost predicate CountsFrom(c: Cache, c': Cache, linesz: nat, read: bool, write: bool) {
    && c'.readAccesses == c.readAccesses + (if read then 1 else 0)
    && c'.writeAccesses == c.writeAccesses + (if write then 1 else 0)
    && c'.bytesRead == c.bytesRead + (if read then linesz else 0)
    && c'.bytesWritten == c.bytesWritten + (if write then linesz else 0)
  }

  lemma RelinedFeeds(levels: seq<Cache>, i: nat, c: Cache)
    requires i < |levels| && Relined(levels[i], c) && (i + 1 < |levels| ==> Feeds(levels[i], levels[i + 1]))
    ensures i + 1 < |levels| ==> Feeds(c, levels[i + 1])
  {
  }

  lemma CountedOk(c: Cache, bytes: nat, store: bool)
    requires LinesOk(c)
    ensures LinesOk(Counted(c, bytes, store))
  {
  }

  lemma {:induction false} NoDirtyLines(lines: seq<Line>)
    requires forall k :: 0 <= k < |lines| ==> !lines[k].dirty
    ensures DirtyLines(lines) == 0
  {
    if |lines| > 0 {
      NoDirtyLines(lines[..|lines| - 1]);
    }
  }
}
