/**
 * What a set-associative LRU cache holds after a run of accesses, said in terms of the run alone:
 * when each tag was last used, and how many others of its set were used since.
 */
module Recency {
  import opened Powers
  import opened Bits

  datatype Access = Access(tag: nat, write: bool)

  type Trace = seq<Access>

  /** `a & b` */
  function And(a: nat, b: nat): (r: nat)
    ensures r <= b
  {
    if a == 0 || b == 0 then 0 else 2 * And(a / 2, b / 2) + a % 2 * (b % 2)
  }

  /** Number of sets, ways of a set, bytes of a line (the last two given by their logarithms). */
  datatype Shape = Shape(sets: nat, log2Assoc: nat, log2AddrLs: nat) {
    function Assoc(): (n: nat)
      ensures n >= 1
    {
      Pow2(log2Assoc)
    }

    /** `tag & maskSets` */
    function SetOf(tag: nat): (s: nat)
      requires sets >= 1
      ensures s < sets
    {
      And(tag, sets - 1)
    }
  }

  type Geometry = g: Shape | g.sets >= 1 && g.log2AddrLs >= 1 witness Shape(1, 4, 6)

  lemma {:induction false} AndBits(a: nat, b: nat, i: nat)
    ensures Bit(And(a, b), i) <==> Bit(a, i) && Bit(b, i)
    decreases a
  {
    hide Bit;
    if a == 0 || b == 0 {
      BitOfZero(i);
    } else {
      var r, rest, bit := And(a, b), And(a / 2, b / 2), a % 2 * (b % 2);
      assert r == 2 * rest + bit && (bit == 1 <==> a % 2 == 1 && b % 2 == 1) && 0 <= bit < 2;
      DivModUnique(r, 2, rest, bit);
      if i == 0 {
        BitZero(r);
        BitZero(a);
        BitZero(b);
      } else {
        BitHalf(r, i - 1);
        BitHalf(a, i - 1);
        BitHalf(b, i - 1);
        AndBits(a / 2, b / 2, i - 1);
      }
    }
  }

  /** With a power of two of sets, a tag belongs to the set of its remainder. */
  lemma SetOfPower(g: Geometry, k: nat, tag: nat)
    requires g.sets == Pow2(k)
    ensures g.SetOf(tag) == tag % g.sets
  {
    AndOnes(tag, k);
  }

  lemma {:induction false} AndOnes(a: nat, k: nat)
    ensures And(a, Pow2(k) - 1) == a % Pow2(k)
    decreases k
  {
    if a == 0 {
      DivModUnique(0, Pow2(k), 0, 0);
    } else if k > 0 {
      var n := Pow2(k) - 1;
      Pow2Succ(k - 1);
      hide Pow2;
      DivModUnique(n, 2, Pow2(k - 1) - 1, 1);
      AndOnes(a / 2, k - 1);
      assert And(a, n) == 2 * (a / 2 % Pow2(k - 1)) + a % 2;
      hide And;
      HalfRemainder(a, Pow2(k - 1));
    }
  }

  lemma HalfRemainder(a: nat, g: nat)
    requires g > 0
    ensures a % (2 * g) == 2 * (a / 2 % g) + a % 2
  {
    var q, r := a / 2 / g, a / 2 % g;
    DivMod(a / 2, g);
    assert q * (2 * g) == 2 * (q * g);
    DivModUnique(a, 2 * g, q, 2 * r + a % 2);
  }

  // ---- the specification -------------------------------------------------------------------

  /** The time of the last access to a tag, -1 if there was none. */
  function LastUse(trace: Trace, tag: nat): (i: int)
    ensures -1 <= i < |trace|
    ensures i >= 0 ==> trace[i].tag == tag
  {
    if |trace| == 0 then -1
    else if trace[|trace| - 1].tag == tag then |trace| - 1
    else LastUse(trace[..|trace| - 1], tag)
  }

  /** No access to the line of address zero, whose tag marks empty lines. */
  ghost predicate Proper(trace: Trace) {
    forall i :: 0 <= i < |trace| ==> trace[i].tag != 0
  }

  /** The other tags of the same set that were used since. */
  ghost function UsedSince(g: Geometry, trace: Trace, tag: nat): set<nat> {
    set i | 0 <= i < |trace| && g.SetOf(trace[i].tag) == g.SetOf(tag) && LastUse(trace, trace[i].tag) > LastUse(trace, tag)
      :: trace[i].tag
  }

  /** A tag is in the cache when it was used and fewer than Assoc others of its set were used since. */
  ghost predicate Resident(g: Geometry, trace: Trace, tag: nat) {
    LastUse(trace, tag) >= 0 && |UsedSince(g, trace, tag)| < g.Assoc()
  }

  /** Whether a line was written since it last came into the cache. */
  ghost predicate Written(g: Geometry, trace: Trace, tag: nat) {
    |trace| > 0 &&
    var before, a := trace[..|trace| - 1], trace[|trace| - 1];
    if a.tag == tag then a.write || (Resident(g, before, tag) && Written(g, before, tag))
    else Written(g, before, tag)
  }

  /** Accesses of one kind that found their line in the cache, or did not. */
  ghost function CountAccesses(g: Geometry, trace: Trace, write: bool, hit: bool): nat {
    if |trace| == 0 then 0
    else
      var before, a := trace[..|trace| - 1], trace[|trace| - 1];
      CountAccesses(g, before, write, hit) + if a.write == write && Resident(g, before, a.tag) == hit then 1 else 0
  }

  // ---- lists kept most recent first ----------------------------------------------------------

  datatype Line = Line(tag: nat, st: bool, order: nat)

  /** A tag of zero marks a line never filled; its other fields are whatever memory held. */
  ghost predicate Empty(l: Line) {
    l.tag == 0
  }

  ghost predicate LineIs(g: Geometry, trace: Trace, s: nat, l: Line) {
    && g.SetOf(l.tag) == s
    && LastUse(trace, l.tag) == l.order
    && l.st == Written(g, trace, l.tag)
  }

  ghost predicate Holds(ways: seq<Line>, tag: nat) {
    exists i :: 0 <= i < |ways| && ways[i].tag == tag
  }

  /** The filled lines come first, by decreasing stamp. */
  ghost predicate Ordered(ways: seq<Line>) {
    forall i, j :: 0 <= i < j < |ways| && !Empty(ways[j]) ==> !Empty(ways[i]) && ways[i].order > ways[j].order
  }

  /** A tag of the set that is not listed was used before every listed one, and no way is empty. */
  ghost predicate Complete(g: Geometry, trace: Trace, s: nat, ways: seq<Line>) {
    forall tag: nat :: tag != 0 && g.SetOf(tag) == s && LastUse(trace, tag) >= 0 && !Holds(ways, tag) ==>
      forall i :: 0 <= i < |ways| ==> !Empty(ways[i]) && LastUse(trace, tag) < ways[i].order
  }

  /** The ways of set s list exactly the Assoc most recently used tags of that set, most recent first. */
  ghost predicate ListsRecent(g: Geometry, trace: Trace, s: nat, ways: seq<Line>) {
    && Proper(trace)
    && |ways| == g.Assoc()
    && (forall i :: 0 <= i < |ways| && !Empty(ways[i]) ==> LineIs(g, trace, s, ways[i]))
    && Ordered(ways)
    && Complete(g, trace, s, ways)
  }

  // ---- being listed is being resident ----------------------------------------------------------

  lemma LastUseIs(trace: Trace, i: nat)
    requires i < |trace|
    ensures LastUse(trace, trace[i].tag) >= i
  {
    if trace[|trace| - 1].tag != trace[i].tag {
      LastUseIs(trace[..|trace| - 1], i);
    }
  }

  lemma UsedSinceIs(g: Geometry, trace: Trace, tag: nat, u: nat)
    ensures u in UsedSince(g, trace, tag) <==> g.SetOf(u) == g.SetOf(tag) && LastUse(trace, u) > LastUse(trace, tag)
  {
    hide Shape.SetOf;
    var i := LastUse(trace, u);
    if i >= 0 {
      assert trace[i].tag == u;
    }
  }

  /** The tags in front of a listed one are those used since. */
  lemma ListedIsResident(g: Geometry, trace: Trace, s: nat, ways: seq<Line>, k: nat)
    requires ListsRecent(g, trace, s, ways) && k < |ways| && !Empty(ways[k])
    ensures Resident(g, trace, ways[k].tag)
  {
    hide LastUse, UsedSince, Written, Shape.SetOf, Shape.Assoc;
    var tag := ways[k].tag;
    forall u | u in UsedSince(g, trace, tag)
      ensures u in TagsOf(ways[..k])
    {
      UsedSinceIs(g, trace, tag, u);
      ListedInFront(g, trace, s, ways, k, u);
    }
    assert UsedSince(g, trace, tag) <= TagsOf(ways[..k]);
    SubsetSize(UsedSince(g, trace, tag), TagsOf(ways[..k]));
    TagsOfSize(ways[..k]);
  }

  ghost function TagsOf(ways: seq<Line>): set<nat> {
    set i | 0 <= i < |ways| :: ways[i].tag
  }

  lemma ListedInFront(g: Geometry, trace: Trace, s: nat, ways: seq<Line>, k: nat, u: nat)
    requires ListsRecent(g, trace, s, ways) && k < |ways| && !Empty(ways[k])
    requires g.SetOf(u) == s && LastUse(trace, u) > LastUse(trace, ways[k].tag)
    ensures u in TagsOf(ways[..k])
  {
    hide LastUse, Written, Shape.SetOf, Shape.Assoc;
    assert LineIs(g, trace, s, ways[k]);
    assert trace[LastUse(trace, u)].tag == u;
    assert Holds(ways, u);
    var i :| 0 <= i < |ways| && ways[i].tag == u;
    assert LineIs(g, trace, s, ways[i]);
    assert ways[..k][i] == ways[i];
  }

  lemma {:induction false} TagsOfSize(ways: seq<Line>)
    ensures |TagsOf(ways)| <= |ways|
  {
    if |ways| > 0 {
      var front := ways[..|ways| - 1];
      TagsOfSize(front);
      assert TagsOf(ways) == TagsOf(front) + {ways[|ways| - 1].tag};
    }
  }

  lemma SubsetSize(a: set<nat>, b: set<nat>)
    requires a <= b
    ensures |a| <= |b|
  {
    assert b == a + (b - a);
  }

  /** An unlisted tag was not used, or every listed one was used since. */
  lemma UnlistedIsNot(g: Geometry, trace: Trace, s: nat, ways: seq<Line>, tag: nat)
    requires ListsRecent(g, trace, s, ways) && g.SetOf(tag) == s && tag != 0 && !Holds(ways, tag)
    ensures !Resident(g, trace, tag)
  {
    hide LastUse, UsedSince, Written, Shape.SetOf, Shape.Assoc;
    if LastUse(trace, tag) >= 0 {
      forall u | u in TagsOf(ways)
        ensures u in UsedSince(g, trace, tag)
      {
        var i :| 0 <= i < |ways| && ways[i].tag == u;
        assert LineIs(g, trace, s, ways[i]);
        UsedSinceIs(g, trace, tag, u);
      }
      SubsetSize(TagsOf(ways), UsedSince(g, trace, tag));
      DistinctTags(ways);
    }
  }

  lemma {:induction false} DistinctTags(ways: seq<Line>)
    requires forall i, j :: 0 <= i < j < |ways| ==> ways[i].tag != ways[j].tag
    ensures |TagsOf(ways)| == |ways|
  {
    if |ways| > 0 {
      var front := ways[..|ways| - 1];
      DistinctTags(front);
      assert TagsOf(ways) == TagsOf(front) + {ways[|ways| - 1].tag};
    }
  }

  /** The cache holds a tag exactly when the run says it is resident. */
  lemma HoldsIsResident(g: Geometry, trace: Trace, s: nat, ways: seq<Line>, tag: nat)
    requires ListsRecent(g, trace, s, ways) && g.SetOf(tag) == s && tag != 0
    ensures Holds(ways, tag) <==> Resident(g, trace, tag)
  {
    hide *;
    if Holds(ways, tag) {
      var i := HeldAt(ways, tag);
      ListedIsResident(g, trace, s, ways, i);
    } else {
      UnlistedIsNot(g, trace, s, ways, tag);
    }
  }

  lemma HeldAt(ways: seq<Line>, tag: nat) returns (i: nat)
    requires Holds(ways, tag) && tag != 0
    ensures i < |ways| && ways[i].tag == tag && !Empty(ways[i])
  {
    i :| 0 <= i < |ways| && ways[i].tag == tag;
  }

  // ---- one more access -------------------------------------------------------------------------

  lemma OneMore(g: Geometry, trace: Trace, a: Access, tag: nat)
    ensures LastUse(trace + [a], tag) == if tag == a.tag then |trace| else LastUse(trace, tag)
    ensures Written(g, trace + [a], tag) ==
            if tag == a.tag then a.write || (Resident(g, trace, tag) && Written(g, trace, tag)) else Written(g, trace, tag)
  {
    assert (trace + [a])[..|trace|] == trace;
    hide Resident;
  }

  lemma OneMoreCounted(g: Geometry, trace: Trace, a: Access, write: bool, hit: bool)
    ensures CountAccesses(g, trace + [a], write, hit) == CountAccesses(g, trace, write, hit)
            + if a.write == write && Resident(g, trace, a.tag) == hit then 1 else 0
  {
    assert (trace + [a])[..|trace|] == trace;
    hide Resident;
  }

  lemma OneMoreProper(trace: Trace, a: Access)
    requires Proper(trace) && a.tag != 0
    ensures Proper(trace + [a])
  {
  }

  /** Move to front. */
  function Touched(ways: seq<Line>, p: nat, l: Line): seq<Line>
    requires p < |ways|
  {
    [l] + ways[..p] + ways[p + 1..]
  }

  lemma TouchedAt(ways: seq<Line>, p: nat, l: Line, i: nat)
    requires p < |ways| && i < |ways|
    ensures |Touched(ways, p, l)| == |ways|
    ensures Touched(ways, p, l)[i] == if i == 0 then l else if i <= p then ways[i - 1] else ways[i]
  {
  }

  /** An access to another set. */
  lemma OtherSet(g: Geometry, trace: Trace, a: Access, s: nat, ways: seq<Line>)
    requires ListsRecent(g, trace, s, ways) && a.tag != 0 && g.SetOf(a.tag) != s
    ensures ListsRecent(g, trace + [a], s, ways)
  {
    hide LastUse, Written, Shape.SetOf, Shape.Assoc, Proper;
    OneMoreProper(trace, a);
    forall tag: nat
      ensures g.SetOf(tag) == s ==> LastUse(trace + [a], tag) == LastUse(trace, tag)
      ensures g.SetOf(tag) == s ==> Written(g, trace + [a], tag) == Written(g, trace, tag)
    {
      OneMore(g, trace, a, tag);
    }
  }

  /** An access to this set moves its line, or the oldest one, to the front. */
  lemma SameSet(g: Geometry, trace: Trace, a: Access, s: nat, ways: seq<Line>, p: nat, l: Line)
    requires ListsRecent(g, trace, s, ways) && a.tag != 0 && g.SetOf(a.tag) == s && p < |ways|
    requires if Holds(ways, a.tag) then ways[p].tag == a.tag && l.st == (a.write || ways[p].st)
             else p == |ways| - 1 && l.st == a.write
    requires l.tag == a.tag && l.order == |trace|
    ensures ListsRecent(g, trace + [a], s, Touched(ways, p, l))
  {
    hide LastUse, Written, Shape.SetOf, Shape.Assoc, Proper, Touched, Holds, Resident, ListsRecent;
    ListsRecentIs(g, trace, s, ways);
    OneMoreProper(trace, a);
    TouchedAt(ways, p, l, 0);
    var ways' := Touched(ways, p, l);
    TouchedLines(g, trace, a, s, ways, p, l);
    TouchedOrdered(g, trace, a, s, ways, p, l);
    TouchedComplete(g, trace, a, s, ways, p, l);
    ListsRecentFrom(g, trace + [a], s, ways');
  }

  lemma ListsRecentIs(g: Geometry, trace: Trace, s: nat, ways: seq<Line>)
    requires ListsRecent(g, trace, s, ways)
    ensures |ways| == g.Assoc() && Proper(trace)
  {
  }

  lemma ListsRecentFrom(g: Geometry, trace: Trace, s: nat, ways: seq<Line>)
    requires Proper(trace) && |ways| == g.Assoc() && Ordered(ways) && Complete(g, trace, s, ways)
    requires forall i :: 0 <= i < |ways| && !Empty(ways[i]) ==> LineIs(g, trace, s, ways[i])
    ensures ListsRecent(g, trace, s, ways)
  {
  }

  lemma TouchedLines(g: Geometry, trace: Trace, a: Access, s: nat, ways: seq<Line>, p: nat, l: Line)
    requires ListsRecent(g, trace, s, ways) && a.tag != 0 && g.SetOf(a.tag) == s && p < |ways|
    requires if Holds(ways, a.tag) then ways[p].tag == a.tag && l.st == (a.write || ways[p].st)
             else p == |ways| - 1 && l.st == a.write
    requires l.tag == a.tag && l.order == |trace|
    ensures var ways' := Touched(ways, p, l);
            forall i :: 0 <= i < |ways'| && !Empty(ways'[i]) ==> LineIs(g, trace + [a], s, ways'[i])
  {
    hide LastUse, Written, Shape.SetOf, Shape.Assoc, Proper, Touched, Resident, Complete;
    var ways' := Touched(ways, p, l);
    TouchedAt(ways, p, l, 0);
    HoldsIsResident(g, trace, s, ways, a.tag);
    OneMore(g, trace, a, a.tag);
    forall i | 0 <= i < |ways'| && !Empty(ways'[i])
      ensures LineIs(g, trace + [a], s, ways'[i])
    {
      TouchedAt(ways, p, l, i);
      if i == 0 {
        assert Holds(ways, a.tag) ==> LineIs(g, trace, s, ways[p]);
      } else {
        var j := if i <= p then i - 1 else i;
        assert ways'[i] == ways[j];
        assert LineIs(g, trace, s, ways[j]);
        OneMore(g, trace, a, ways[j].tag);
        assert ways[j].tag != a.tag;
      }
    }
  }

  lemma TouchedOrdered(g: Geometry, trace: Trace, a: Access, s: nat, ways: seq<Line>, p: nat, l: Line)
    requires ListsRecent(g, trace, s, ways) && p < |ways| && l.tag != 0 && l.order == |trace|
    ensures Ordered(Touched(ways, p, l))
  {
    hide LastUse, Written, Shape.SetOf, Shape.Assoc, Proper, Touched, Resident, Complete;
    var ways' := Touched(ways, p, l);
    TouchedAt(ways, p, l, 0);
    forall i, j | 0 <= i < j < |ways'| && !Empty(ways'[j])
      ensures !Empty(ways'[i]) && ways'[i].order > ways'[j].order
    {
      TouchedAt(ways, p, l, i);
      TouchedAt(ways, p, l, j);
      var k := if j <= p then j - 1 else j;
      assert ways'[j] == ways[k];
      assert LineIs(g, trace, s, ways[k]);
    }
  }

  lemma TouchedComplete(g: Geometry, trace: Trace, a: Access, s: nat, ways: seq<Line>, p: nat, l: Line)
    requires ListsRecent(g, trace, s, ways) && a.tag != 0 && g.SetOf(a.tag) == s && p < |ways|
    requires if Holds(ways, a.tag) then ways[p].tag == a.tag else p == |ways| - 1
    requires l.tag == a.tag && l.order == |trace|
    ensures Complete(g, trace + [a], s, Touched(ways, p, l))
  {
    hide LastUse, Written, Shape.SetOf, Shape.Assoc, Proper, Touched, Resident;
    var ways' := Touched(ways, p, l);
    TouchedAt(ways, p, l, 0);
    forall tag: nat, i | tag != 0 && g.SetOf(tag) == s && LastUse(trace + [a], tag) >= 0 && !Holds(ways', tag)
                         && 0 <= i < |ways'|
      ensures !Empty(ways'[i]) && LastUse(trace + [a], tag) < ways'[i].order
    {
      OneMore(g, trace, a, tag);
      TouchedAt(ways, p, l, i);
      assert ways'[0].tag == a.tag;
      if Holds(ways, tag) {
        HeldAfter(ways, p, l, tag);
        assert LineIs(g, trace, s, ways[p]);
      }
    }
  }

  lemma HeldAfter(ways: seq<Line>, p: nat, l: Line, tag: nat)
    requires p < |ways| && Holds(ways, tag) && !Holds(Touched(ways, p, l), tag)
    ensures ways[p].tag == tag
  {
    var i :| 0 <= i < |ways| && ways[i].tag == tag;
    hide Touched;
    TouchedAt(ways, p, l, if i < p then i + 1 else i);
  }

  /** Moving an empty line to the front spoils the list, unless it was empty altogether. */
  lemma EmptyToFront(g: Geometry, trace: Trace, s: nat, ways: seq<Line>, p: nat, l: Line)
    requires ListsRecent(g, trace, s, ways) && p < |ways| && Empty(ways[p]) && Empty(l)
    ensures ListsRecent(g, trace, s, Touched(ways, p, l)) <==> forall i :: 0 <= i < |ways| ==> Empty(ways[i])
  {
    hide Shape.SetOf, LineIs, Touched;
    var ways' := Touched(ways, p, l);
    TouchedAt(ways, p, l, 0);
    if i :| 0 <= i < |ways| && !Empty(ways[i]) {
      assert i < p;
      TouchedAt(ways, p, l, i + 1);
      assert !Empty(ways'[i + 1]) && Empty(ways'[0]);
    } else {
      forall i | 0 <= i < |ways'|
        ensures Empty(ways'[i])
      {
        TouchedAt(ways, p, l, i);
      }
      AllEmptyComplete(g, trace, s, ways, ways');
    }
  }

  lemma AllEmptyComplete(g: Geometry, trace: Trace, s: nat, ways: seq<Line>, ways': seq<Line>)
    requires Complete(g, trace, s, ways) && |ways'| == |ways| > 0
    requires forall i :: 0 <= i < |ways| ==> Empty(ways[i]) && Empty(ways'[i])
    ensures Complete(g, trace, s, ways')
  {
    hide Shape.SetOf;
    forall tag: nat | tag != 0
      ensures !(g.SetOf(tag) == s && LastUse(trace, tag) >= 0)
    {
      assert !Holds(ways, tag) && Empty(ways[0]);
    }
  }
}
