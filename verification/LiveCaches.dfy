/** LiveCache: reads and writes over a whole run, and the list of lines that warms up another cache. */
module LiveCaches {
  import opened Powers
  import opened Recency
  import opened SetAssociative
  import opened MergeSorts

  // ---- selecting from a list ----------------------------------------------------------------

  function Keep(s: seq<nat>, p: nat -> bool): seq<nat> {
    if |s| == 0 then []
    else Keep(s[..|s| - 1], p) + if p(s[|s| - 1]) then [s[|s| - 1]] else []
  }

  lemma KeepSnoc(s: seq<nat>, x: nat, p: nat -> bool)
    ensures Keep(s + [x], p) == Keep(s, p) + if p(x) then [x] else []
  {
    assert (s + [x])[..|s|] == s;
  }

  lemma KeepNone(p: nat -> bool)
    ensures Keep([], p) == []
  {
  }

  lemma {:induction false} KeepIn(s: seq<nat>, p: nat -> bool, x: nat)
    ensures x in Keep(s, p) <==> x in s && p(x)
    ensures |Keep(s, p)| <= |s|
  {
    if |s| > 0 {
      KeepIn(s[..|s| - 1], p, x);
      assert s == s[..|s| - 1] + [s[|s| - 1]];
    }
  }

  /** What is kept stays in the same order. */
  lemma {:induction false} KeepOrder(s: seq<nat>, p: nat -> bool, i: nat, j: nat) returns (i': nat, j': nat)
    requires i < j < |Keep(s, p)|
    ensures i' < j' < |s| && s[i'] == Keep(s, p)[i] && s[j'] == Keep(s, p)[j]
  {
    var front := s[..|s| - 1];
    if j < |Keep(front, p)| {
      i', j' := KeepOrder(front, p, i, j);
    } else {
      j' := |s| - 1;
      KeepIn(front, p, Keep(front, p)[i]);
      i' :| 0 <= i' < |front| && front[i'] == Keep(front, p)[i];
    }
  }

  ghost predicate NoDup(s: seq<nat>) {
    forall i, j :: 0 <= i < j < |s| ==> s[i] != s[j]
  }

  lemma KeepNoDup(s: seq<nat>, p: nat -> bool)
    requires NoDup(s)
    ensures NoDup(Keep(s, p))
  {
    hide Keep;
    forall i, j | 0 <= i < j < |Keep(s, p)|
      ensures Keep(s, p)[i] != Keep(s, p)[j]
    {
      var i', j' := KeepOrder(s, p, i, j);
    }
  }

  lemma {:induction false} NoDupOnce(s: seq<nat>, x: nat)
    requires NoDup(s)
    ensures multiset(s)[x] <= 1
    ensures x !in s ==> multiset(s)[x] == 0
  {
    if |s| > 0 {
      var front, y := s[..|s| - 1], s[|s| - 1];
      assert s == front + [y];
      NoDupOnce(front, x);
    }
  }

  lemma SameNoDup(s: seq<nat>, t: seq<nat>)
    requires NoDup(s) && multiset(s) == multiset(t)
    ensures NoDup(t)
  {
    forall i, j | 0 <= i < j < |t|
      ensures t[i] != t[j]
    {
      NoDupOnce(s, t[i]);
      assert t == t[..j] + [t[j]] + t[j + 1..];
      assert t[i] in t[..j];
    }
  }

  // ---- what traverse lists ------------------------------------------------------------------------

  function HasStamp(lines: seq<Line>): nat -> bool {
    (x: nat) => x < |lines| && lines[x].order != 0
  }

  function HasTag(lines: seq<Line>): nat -> bool {
    (x: nat) => x < |lines| && lines[x].tag != 0
  }

  function TagOf(lines: seq<Line>, x: nat): nat {
    if x < |lines| then lines[x].tag else 0
  }

  /** Every filled line sits in its set, stamped with its last use. */
  lemma LineInSet(g: Geometry, trace: Trace, lines: seq<Line>, c: seq<nat>, i: nat) returns (k: nat)
    requires Mirrors(g, trace, lines, c) && i < |c| && c[i] < |lines| && lines[c[i]].tag != 0
    ensures var s := g.SetOf(lines[c[i]].tag);
            k < g.Assoc() && i == s * g.Assoc() + k && SetWays(g, lines, c, s)[k] == lines[c[i]]
    ensures LineIs(g, trace, g.SetOf(lines[c[i]].tag), lines[c[i]]) && Resident(g, trace, lines[c[i]].tag)
  {
    hide Shape.SetOf, Shape.Assoc, LastUse, Written, Ordered, Complete, Resident, Proper;
    var n := g.Assoc();
    var s := i / n;
    k := i % n;
    SetOfIndex(i, n, g.sets);
    assert SetMirrors(g, trace, lines, c, s);
    var ways := SetWays(g, lines, c, s);
    assert ways[k] == lines[c[i]];
    assert LineIs(g, trace, s, ways[k]);
    ListedIsResident(g, trace, s, ways, k);
  }

  lemma SetOfIndex(i: nat, n: nat, sets: nat)
    requires n > 0 && i < sets * n
    ensures 0 <= i / n < sets && i == i / n * n + i % n
  {
    DivMod(i, n);
    if i / n >= sets {
      MulLe(sets, i / n, n);
    }
  }

  /** Two filled lines have different stamps. */
  lemma StampsDiffer(g: Geometry, trace: Trace, lines: seq<Line>, c: seq<nat>, i: nat, j: nat)
    requires Mirrors(g, trace, lines, c) && i < |c| && j < |c| && i != j && c[i] < |lines| && c[j] < |lines|
    requires lines[c[i]].tag != 0 && lines[c[j]].tag != 0
    ensures lines[c[i]].order != lines[c[j]].order
  {
    hide Shape.SetOf, Shape.Assoc, LastUse, Written, Complete, Resident, Proper, Permutes;
    var ki := LineInSet(g, trace, lines, c, i);
    var kj := LineInSet(g, trace, lines, c, j);
    var s := g.SetOf(lines[c[i]].tag);
    assert SetMirrors(g, trace, lines, c, s);
  }

  /** A resident tag is found in its set. */
  lemma ResidentLine(g: Geometry, trace: Trace, lines: seq<Line>, c: seq<nat>, tag: nat) returns (i: nat)
    requires Mirrors(g, trace, lines, c) && Resident(g, trace, tag)
    ensures i < |c| && c[i] < |lines| && lines[c[i]].tag == tag && tag != 0
  {
    hide Shape.SetOf, Shape.Assoc, Written, Ordered, Complete, UsedSince, LastUse;
    var s := g.SetOf(tag);
    assert SetMirrors(g, trace, lines, c, s);
    var ways := SetWays(g, lines, c, s);
    assert trace[LastUse(trace, tag)].tag == tag;
    HoldsIsResident(g, trace, s, ways, tag);
    var k := HeldAt(ways, tag);
    SetInside(g, s);
    i := s * g.Assoc() + k;
  }

  /** The lines traverse lists, in order. */
  ghost predicate Lists(g: Geometry, trace: Trace, lines: seq<Line>, out: seq<nat>) {
    && (forall i, j :: 0 <= i < j < |out| ==> LastUse(trace, TagOf(lines, out[i])) < LastUse(trace, TagOf(lines, out[j])))
    && (forall i :: 0 <= i < |out| ==> LineListed(g, trace, lines, out[i]))
    && (forall tag: nat :: Resident(g, trace, tag) && LastUse(trace, tag) != 0 ==>
          exists i :: 0 <= i < |out| && TagOf(lines, out[i]) == tag)
  }

  ghost predicate LineListed(g: Geometry, trace: Trace, lines: seq<Line>, x: nat) {
    && x < |lines| && Resident(g, trace, lines[x].tag) && LastUse(trace, lines[x].tag) != 0
    && lines[x].st == Written(g, trace, lines[x].tag)
  }

  ghost predicate Chosen(lines: seq<Line>, c: seq<nat>, t: seq<nat>, out: seq<nat>) {
    Sorts(lines, Keep(c, HasStamp(lines)), t) && out == Keep(t, HasTag(lines))
  }

  /** What is listed: the filled lines with a stamp, each once and oldest first. */
  lemma ChosenLines(lines: seq<Line>, c: seq<nat>, t: seq<nat>, out: seq<nat>)
    requires Permutes(c) && |lines| == |c| && Chosen(lines, c, t, out)
    ensures forall x :: x in out <==> x in c && x < |lines| && lines[x].order != 0 && lines[x].tag != 0
    ensures NoDup(out) && Sorted(lines, out)
  {
    hide Keep, Having, Key;
    var s := Keep(c, HasStamp(lines));
    SortsPermutes(lines, s, t);
    KeepNoDup(c, HasStamp(lines));
    SameNoDup(s, t);
    KeepNoDup(t, HasTag(lines));
    forall x: nat
      ensures x in out <==> x in c && x < |lines| && lines[x].order != 0 && lines[x].tag != 0
    {
      KeepIn(c, HasStamp(lines), x);
      KeepIn(t, HasTag(lines), x);
      assert x in t <==> x in multiset(t);
      assert x in s <==> x in multiset(s);
    }
    forall i, j | 0 <= i < j < |out|
      ensures Key(lines, out[i]) <= Key(lines, out[j])
    {
      var i', j' := KeepOrder(t, HasTag(lines), i, j);
    }
  }

  lemma ChosenIsListed(g: Geometry, trace: Trace, lines: seq<Line>, c: seq<nat>, t: seq<nat>, out: seq<nat>)
    requires Mirrors(g, trace, lines, c) && Chosen(lines, c, t, out)
    ensures Lists(g, trace, lines, out)
  {
    hide Shape.SetOf, Shape.Assoc, Written, LastUse, Resident, Keep, Sorts, HasStamp, HasTag, SetMirrors, Chosen;
    ChosenLines(lines, c, t, out);
    forall i | 0 <= i < |out|
      ensures LineListed(g, trace, lines, out[i])
    {
      assert out[i] in c;
      var p :| 0 <= p < |c| && c[p] == out[i];
      var k := LineInSet(g, trace, lines, c, p);
    }
    forall i, j | 0 <= i < j < |out|
      ensures LastUse(trace, TagOf(lines, out[i])) < LastUse(trace, TagOf(lines, out[j]))
    {
      ListedApart(g, trace, lines, c, out, i, j);
    }
    forall tag: nat | Resident(g, trace, tag) && LastUse(trace, tag) != 0
      ensures exists i :: 0 <= i < |out| && TagOf(lines, out[i]) == tag
    {
      var p := ResidentLine(g, trace, lines, c, tag);
      var k := LineInSet(g, trace, lines, c, p);
      assert c[p] in out;
      var i :| 0 <= i < |out| && out[i] == c[p];
      assert TagOf(lines, out[i]) == tag;
    }
  }

  lemma ListedApart(g: Geometry, trace: Trace, lines: seq<Line>, c: seq<nat>, out: seq<nat>, i: nat, j: nat)
    requires Mirrors(g, trace, lines, c) && i < j < |out| && NoDup(out) && Sorted(lines, out)
    requires forall x :: x in out ==> x in c && x < |lines| && lines[x].order != 0 && lines[x].tag != 0
    ensures LastUse(trace, TagOf(lines, out[i])) < LastUse(trace, TagOf(lines, out[j]))
  {
    hide Shape.SetOf, Shape.Assoc, Written, LastUse, Resident, SetMirrors, Mirrors;
    assert out[i] in out && out[j] in out;
    var p :| 0 <= p < |c| && c[p] == out[i];
    var q :| 0 <= q < |c| && c[q] == out[j];
    var k := LineInSet(g, trace, lines, c, p);
    var k' := LineInSet(g, trace, lines, c, q);
    StampsDiffer(g, trace, lines, c, p, q);
  }

  // ---- the class -----------------------------------------------------------------------------------

  class LiveCache {
    const bank: CacheAssoc
    var maxOrder: nat
    var nReadHit: nat
    var nReadMiss: nat
    var nWriteHit: nat
    var nWriteMiss: nat
    /** Every access so far. */
    ghost var trace: Trace

    /** The state is what the run says it must be. */
    ghost predicate Valid()
      reads this, bank.mem, bank.content
    {
      && bank.Valid()
      && maxOrder == |trace|
      && Mirrors(bank.g, trace, bank.mem[..], bank.content[..])
      && nReadHit == CountAccesses(bank.g, trace, false, true)
      && nReadMiss == CountAccesses(bank.g, trace, false, false)
      && nWriteHit == CountAccesses(bank.g, trace, true, true)
      && nWriteMiss == CountAccesses(bank.g, trace, true, false)
    }

    constructor (g: Geometry, numLines: nat, junk: nat -> (bool, nat))
      requires g.sets * g.Assoc() <= numLines
      ensures Valid() && trace == [] && bank.g == g && fresh(bank.mem) && fresh(bank.content)
      ensures nReadHit == 0 && forall i :: 0 <= i < bank.mem.Length ==> bank.mem[i].tag == 0
    {
      var b := new CacheAssoc(g, numLines, junk);
      bank := b;
      maxOrder, nReadHit, nReadMiss, nWriteHit, nWriteMiss := 0, 0, 0, 0, 0;
      trace := [];
      EmptyMirrors(g, b.mem[..], b.content[..]);
    }

    /**
     * A tag of zero is also that of an empty line, so such an access hits if there is one in the set, and
     * otherwise stops at an assertion. A hit moves the empty line to the front of its set and stamps it;
     * the lines then still follow their last use if and only if that set was empty.
     */
    twostate predicate ZeroTag(write: bool, aborts: bool)
      reads this, bank.mem, bank.content
      requires old(Valid()) && bank.Valid()
    {
      var mem, c := old(bank.mem[..]), old(bank.content[..]);
      && trace == old(trace) && aborts == !Holds(old(bank.Ways(bank.g.SetOf(0))), 0)
      && (if aborts then bank.mem[..] == mem && bank.content[..] == c && maxOrder == old(maxOrder)
          else
            && maxOrder == old(maxOrder) + 1
            && (exists p :: TakesEmpty(bank.g, mem, c, bank.mem[..], bank.content[..], old(maxOrder), write, p))
            && (Mirrors(bank.g, trace, bank.mem[..], bank.content[..]) <==>
                forall i :: 0 <= i < bank.g.Assoc() ==> Empty(old(bank.Ways(bank.g.SetOf(0)))[i])))
    }

    /** A run of accesses with nonzero tags keeps the law. */
    method Read(addr: nat) returns (aborts: bool)
      requires Valid()
      modifies this, bank.mem, bank.content
      ensures bank.CalcTag(addr) != 0 ==> !aborts && Valid() && trace == old(trace) + [Access(bank.CalcTag(addr), false)]
      ensures bank.CalcTag(addr) == 0 ==>
                && bank.Valid() && ZeroTag(false, aborts)
                && nReadHit == old(nReadHit) + (if aborts then 0 else 1) && nReadMiss == old(nReadMiss) + (if aborts then 1 else 0)
    {
      hide Mirrors, Shape.Assoc, Shape.SetOf, Rotated, CountAccesses, SetWays, Permutes, Holds;
      SetWaysAre(bank.g, bank.mem[..], bank.content[..], bank.g.SetOf(bank.CalcTag(addr)));
      ghost var a := Access(bank.CalcTag(addr), false);
      var found, l, p := bank.FindLinePrivate(addr);
      if found {
        bank.mem[l] := bank.mem[l].(order := maxOrder);
        maxOrder := maxOrder + 1;
        nReadHit := nReadHit + 1;
      } else {
        nReadMiss := nReadMiss + 1;
        if bank.CalcTag(addr) == 0 {
          return true;
        }
        l, p := bank.FillLine(addr);
        bank.mem[l] := bank.mem[l].(st := false);
        bank.mem[l] := bank.mem[l].(order := maxOrder);
        maxOrder := maxOrder + 1;
      }
      aborts := false;
      if bank.CalcTag(addr) != 0 {
        Record(bank.g, trace, old(bank.mem[..]), old(bank.content[..]), a, bank.CalcIndex4Tag(a.tag), p, bank.mem[l]);
        assert bank.mem[..] == old(bank.mem[..])[l := bank.mem[l]];
        trace := trace + [a];
      } else {
        ZeroTagTaken(bank.g, trace, old(bank.mem[..]), old(bank.content[..]), bank.mem[..], bank.content[..], old(maxOrder), false, p,
          bank.CalcIndex4Tag(0), l);
      }
    }

    method Write(addr: nat) returns (aborts: bool)
      requires Valid()
      modifies this, bank.mem, bank.content
      ensures bank.CalcTag(addr) != 0 ==> !aborts && Valid() && trace == old(trace) + [Access(bank.CalcTag(addr), true)]
      ensures bank.CalcTag(addr) == 0 ==>
                && bank.Valid() && ZeroTag(true, aborts)
                && nWriteHit == old(nWriteHit) + (if aborts then 0 else 1) && nWriteMiss == old(nWriteMiss) + (if aborts then 1 else 0)
    {
      hide Mirrors, Shape.Assoc, Shape.SetOf, Rotated, CountAccesses, SetWays, Permutes, Holds;
      SetWaysAre(bank.g, bank.mem[..], bank.content[..], bank.g.SetOf(bank.CalcTag(addr)));
      ghost var a := Access(bank.CalcTag(addr), true);
      var found, l, p := bank.FindLinePrivate(addr);
      if found {
        bank.mem[l] := bank.mem[l].(order := maxOrder);
        maxOrder := maxOrder + 1;
        bank.mem[l] := bank.mem[l].(st := true);
        nWriteHit := nWriteHit + 1;
      } else {
        nWriteMiss := nWriteMiss + 1;
        if bank.CalcTag(addr) == 0 {
          return true;
        }
        l, p := bank.FillLine(addr);
        bank.mem[l] := bank.mem[l].(st := true);
        bank.mem[l] := bank.mem[l].(order := maxOrder);
        maxOrder := maxOrder + 1;
      }
      aborts := false;
      if bank.CalcTag(addr) != 0 {
        Record(bank.g, trace, old(bank.mem[..]), old(bank.content[..]), a, bank.CalcIndex4Tag(a.tag), p, bank.mem[l]);
        assert bank.mem[..] == old(bank.mem[..])[l := bank.mem[l]];
        trace := trace + [a];
      } else {
        ZeroTagTaken(bank.g, trace, old(bank.mem[..]), old(bank.content[..]), bank.mem[..], bank.content[..], old(maxOrder), true, p,
          bank.CalcIndex4Tag(0), l);
      }
    }

    /**
     * traverse: the resident lines except one whose last use was the very first access, oldest
     * first, with the low bit of the address telling whether the line was written.
     */
    method Traverse() returns (addrs: array<nat>, nEntries: nat)
      requires Valid()
      ensures nEntries <= addrs.Length
      ensures exists tags :: ListsResident(bank.g, trace, tags) && addrs[..nEntries] == AddressesOf(bank, trace, tags)
    {
      hide Mirrors, Shape.Assoc, Shape.SetOf, CountAccesses, SetWays, Keep, Sorts, CacheAssoc.CalcAddr4Tag;
      ghost var lines, c := bank.mem[..], bank.content[..];
      var arr, cnt := StampedLines();
      KeepInMem(lines, c, HasStamp(lines));
      MergeSort(bank.mem[..], arr, cnt);
      ghost var t := arr[..cnt];
      addrs, nEntries := Entries(arr, cnt);
      ghost var out := Keep(t, HasTag(lines));
      assert Chosen(lines, c, t, out);
      ChosenIsListed(bank.g, trace, lines, c, t, out);
      ListedAddresses(bank, trace, lines, out, addrs[..nEntries]);
    }

    /** The first loop of traverse: lines with a stamp, set by set. */
    method StampedLines() returns (arr: array<nat>, cnt: nat)
      requires Valid()
      ensures fresh(arr) && cnt <= arr.Length && arr[..cnt] == Keep(bank.content[..], HasStamp(bank.mem[..]))
    {
      hide Mirrors, Shape.Assoc, Shape.SetOf, CountAccesses, SetWays, Keep;
      ghost var lines, c := bank.mem[..], bank.content[..];
      var lineCount := bank.content.Length;
      arr := new nat[lineCount];
      cnt := 0;
      KeepNone(HasStamp(lines));
      for i := 0 to lineCount
        invariant cnt <= i && arr[..cnt] == Keep(c[..i], HasStamp(lines))
      {
        assert c[..i + 1] == c[..i] + [c[i]];
        KeepSnoc(c[..i], c[i], HasStamp(lines));
        if bank.mem[bank.content[i]].order != 0 {
          arr[cnt] := bank.content[i];
          cnt := cnt + 1;
        }
      }
      assert c[..lineCount] == c;
    }

    /** The second loop: the addresses of those that were ever filled. */
    method Entries(arr: array<nat>, cnt: nat) returns (addrs: array<nat>, nEntries: nat)
      requires Valid() && cnt <= arr.Length && InMem(bank.mem[..], arr[..cnt])
      ensures fresh(addrs) && nEntries == |Keep(arr[..cnt], HasTag(bank.mem[..]))| <= addrs.Length
      ensures forall k :: 0 <= k < nEntries ==>
        addrs[k] == Entry(bank, bank.mem[..], Keep(arr[..cnt], HasTag(bank.mem[..]))[k])
    {
      hide Mirrors, Shape.Assoc, Shape.SetOf, CountAccesses, SetWays, Keep, CacheAssoc.CalcAddr4Tag;
      ghost var lines, t := bank.mem[..], arr[..cnt];
      KeepNone(HasTag(lines));
      addrs := new nat[cnt];
      nEntries := 0;
      for i := 0 to cnt
        invariant arr[..cnt] == t && nEntries <= i && nEntries == |Keep(t[..i], HasTag(lines))|
        invariant forall k :: 0 <= k < nEntries ==> addrs[k] == Entry(bank, lines, Keep(t[..i], HasTag(lines))[k])
      {
        assert t[..i + 1] == t[..i] + [t[i]] && arr[i] == t[i] < |lines|;
        KeepSnoc(t[..i], t[i], HasTag(lines));
        if bank.mem[arr[i]].tag != 0 {
          if bank.mem[arr[i]].st {
            addrs[nEntries] := 1 + bank.CalcAddr4Tag(bank.mem[arr[i]].tag);
          } else {
            addrs[nEntries] := bank.CalcAddr4Tag(bank.mem[arr[i]].tag);
            LineAddressEven(bank, bank.mem[arr[i]].tag);
            assert addrs[nEntries] % 2 == 0;
          }
          nEntries := nEntries + 1;
        }
      }
      assert t[..cnt] == t;
    }
  }

  /** The resident tags, except one last used by the very first access, each once and by last use. */
  ghost predicate ListsResident(g: Geometry, trace: Trace, tags: seq<nat>) {
    && (forall i, j :: 0 <= i < j < |tags| ==> LastUse(trace, tags[i]) < LastUse(trace, tags[j]))
    && (forall tag: nat :: tag in tags <==> Resident(g, trace, tag) && LastUse(trace, tag) != 0)
  }

  /** The addresses of lines, with the low bit set on those that were written. */
  ghost function AddressesOf(bank: CacheAssoc, trace: Trace, tags: seq<nat>): (r: seq<nat>)
    ensures |r| == |tags|
    ensures forall i :: 0 <= i < |tags| ==>
      r[i] == bank.CalcAddr4Tag(tags[i]) + if Written(bank.g, trace, tags[i]) then 1 else 0
  {
    seq(|tags|, i requires 0 <= i < |tags| =>
      bank.CalcAddr4Tag(tags[i]) + if Written(bank.g, trace, tags[i]) then 1 else 0)
  }

  lemma ListedAddresses(bank: CacheAssoc, trace: Trace, lines: seq<Line>, out: seq<nat>, addrs: seq<nat>)
    requires Lists(bank.g, trace, lines, out) && |addrs| == |out|
    requires forall k :: 0 <= k < |out| ==> addrs[k] == Entry(bank, lines, out[k])
    ensures exists tags :: ListsResident(bank.g, trace, tags) && addrs == AddressesOf(bank, trace, tags)
  {
    hide LastUse, Resident, Written, CacheAssoc.CalcAddr4Tag;
    var tags := seq(|out|, i requires 0 <= i < |out| => TagOf(lines, out[i]));
    forall i | 0 <= i < |out|
      ensures addrs[i] == AddressesOf(bank, trace, tags)[i]
    {
      assert LineListed(bank.g, trace, lines, out[i]);
    }
    forall tag: nat
      ensures tag in tags <==> Resident(bank.g, trace, tag) && LastUse(trace, tag) != 0
    {
      if tag in tags {
        var i :| 0 <= i < |tags| && tags[i] == tag;
        assert LineListed(bank.g, trace, lines, out[i]);
      }
      if Resident(bank.g, trace, tag) && LastUse(trace, tag) != 0 {
        var i :| 0 <= i < |out| && TagOf(lines, out[i]) == tag;
        assert tags[i] == tag;
      }
    }
    assert addrs == AddressesOf(bank, trace, tags);
    assert ListsResident(bank.g, trace, tags);
  }

  /** The entry for a line. Addresses of lines are even, so setting the low bit is adding one. */
  function Entry(bank: CacheAssoc, lines: seq<Line>, x: nat): nat {
    if x < |lines| then bank.CalcAddr4Tag(lines[x].tag) + if lines[x].st then 1 else 0 else 0
  }

  lemma LineAddressEven(bank: CacheAssoc, tag: nat)
    ensures bank.CalcAddr4Tag(tag) % 2 == 0
  {
    var k := bank.g.log2AddrLs;
    assert bank.CalcAddr4Tag(tag) == tag * (2 * Pow2(k - 1));
    assert tag * (2 * Pow2(k - 1)) == 2 * (tag * Pow2(k - 1));
  }

  lemma KeepInMem(lines: seq<Line>, c: seq<nat>, p: nat -> bool)
    requires forall i :: 0 <= i < |c| ==> c[i] < |lines|
    ensures InMem(lines, Keep(c, p))
  {
    forall i | 0 <= i < |Keep(c, p)|
      ensures Keep(c, p)[i] < |lines|
    {
      KeepIn(c, p, Keep(c, p)[i]);
    }
  }

  lemma SetWaysAre(g: Geometry, mem: seq<Line>, c: seq<nat>, s: nat)
    requires Fits(g, mem, c) && s < g.sets
    ensures s * g.Assoc() + g.Assoc() <= |c|
    ensures forall p :: 0 <= p < g.Assoc() ==>
      c[s * g.Assoc() + p] < |mem| && SetWays(g, mem, c, s)[p] == mem[c[s * g.Assoc() + p]]
  {
    SetInside(g, s);
    hide Shape.Assoc;
  }

  /** The effect of a hit with tag zero on the lines. */
  lemma ZeroTagTaken(g: Geometry, trace: Trace, mem: seq<Line>, c: seq<nat>, mem': seq<Line>, c': seq<nat>, stamp: nat,
                     write: bool, p: nat, base: nat, line: nat)
    requires Fits(g, mem, c) && Mirrors(g, trace, mem, c) && p < g.Assoc() && base == g.SetOf(0) * g.Assoc()
    requires base + p < |c| && line == c[base + p] < |mem| && mem[line].tag == 0
    requires c' == Rotated(c, base, p) && mem' == mem[line := Line(0, write || mem[line].st, stamp)]
    ensures TakesEmpty(g, mem, c, mem', c', stamp, write, p) && g.SetOf(0) < g.sets
    ensures Mirrors(g, trace, mem', c') <==> forall i :: 0 <= i < g.Assoc() ==> Empty(SetWays(g, mem, c, g.SetOf(0))[i])
  {
    SetInside(g, g.SetOf(0));
    hide *;
    TakesEmptyIs(g, mem, c, mem', c', stamp, write, p, base);
    TakesEmptyMirrors(g, trace, mem, c, mem', c', stamp, write, p);
  }

  /** One more access, on the lines and on the counters. */
  lemma Record(g: Geometry, trace: Trace, mem: seq<Line>, c: seq<nat>, a: Access, base: nat, p: nat, l: Line)
    requires Fits(g, mem, c) && Mirrors(g, trace, mem, c) && base == g.SetOf(a.tag) * g.Assoc()
    requires Accesses(g, trace, SetWays(g, mem, c, g.SetOf(a.tag)), a, p, l)
    ensures base + p < |c| && c[base + p] < |mem|
    ensures Mirrors(g, trace + [a], mem[c[base + p] := l], Rotated(c, base, p))
    ensures Holds(SetWays(g, mem, c, g.SetOf(a.tag)), a.tag) <==> Resident(g, trace, a.tag)
    ensures forall write, hit :: CountAccesses(g, trace + [a], write, hit) == CountAccesses(g, trace, write, hit)
              + if a.write == write && Resident(g, trace, a.tag) == hit then 1 else 0
  {
    hide Shape.SetOf, Shape.Assoc, Rotated, CountAccesses, ListsRecent, Permutes, Resident;
    AccessMirrors(g, trace, mem, c, a, base, p, l);
    assert SetMirrors(g, trace, mem, c, g.SetOf(a.tag));
    HoldsIsResident(g, trace, g.SetOf(a.tag), SetWays(g, mem, c, g.SetOf(a.tag)), a.tag);
    forall write, hit
      ensures CountAccesses(g, trace + [a], write, hit) == CountAccesses(g, trace, write, hit)
              + if a.write == write && Resident(g, trace, a.tag) == hit then 1 else 0
    {
      OneMoreCounted(g, trace, a, write, hit);
    }
  }

  /** In an empty cache, the first read of the first line counts as a hit. */
  method FirstLineHits(g: Geometry, junk: nat -> (bool, nat)) returns (cache: LiveCache)
    ensures cache.trace == [] && cache.nReadHit == 1
  {
    hide Shape.Assoc, Shape.SetOf, Mirrors, SetWays;
    cache := new LiveCache(g, g.sets * g.Assoc(), junk);
    ghost var s := g.SetOf(0);
    SetWaysAre(g, cache.bank.mem[..], cache.bank.content[..], s);
    assert cache.bank.CalcTag(0) == 0 && Holds(cache.bank.Ways(s), 0) by {
      ZeroTagIs(g);
      assert cache.bank.Ways(s)[0].tag == 0;
    }
    var aborts := cache.Read(0);
  }

  lemma ZeroTagIs(g: Geometry)
    ensures 0 / Pow2(g.log2AddrLs) == 0 && g.SetOf(0) < g.sets && g.Assoc() > 0
  {
  }

  /** The tag of an address is the number of its line. */
  lemma LineOfAddress(bank: CacheAssoc, addr: nat)
    ensures var line := bank.CalcAddr4Tag(bank.CalcTag(addr));
            line <= addr < line + Pow2(bank.g.log2AddrLs) && bank.CalcTag(line) == bank.CalcTag(addr)
  {
    hide Pow2, Shr, Low;
    var k, tag := bank.g.log2AddrLs, bank.CalcTag(addr);
    ShrSplit(addr, k);
    ShrUnique(tag * Pow2(k), k, tag, 0);
  }
}
