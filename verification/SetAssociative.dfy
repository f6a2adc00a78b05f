/**
 * The set-associative cache: lines in mem, and content, which lists them set by set with the
 * most recently used one first. A pointer to a line is its index in mem.
 */
module SetAssociative {
  import opened Powers
  import opened Recency

  // ---- content as a sequence ------------------------------------------------------------------

  /** Every line is listed exactly once. */
  ghost predicate Permutes(c: seq<nat>) {
    && (forall i :: 0 <= i < |c| ==> c[i] < |c|)
    && (forall i, j :: 0 <= i < j < |c| ==> c[i] != c[j])
  }

  /** Entry base + p moves to base, those in between move up by one. */
  function Rotated(c: seq<nat>, base: nat, p: nat): seq<nat>
    requires base + p < |c|
  {
    c[..base] + [c[base + p]] + c[base..base + p] + c[base + p + 1..]
  }

  lemma RotatedAt(c: seq<nat>, base: nat, p: nat, i: nat)
    requires base + p < |c| && i < |c|
    ensures |Rotated(c, base, p)| == |c|
    ensures Rotated(c, base, p)[i] ==
            if i < base || i > base + p then c[i] else if i == base then c[base + p] else c[i - 1]
  {
  }

  lemma RotatedPermutes(c: seq<nat>, base: nat, p: nat)
    requires Permutes(c) && base + p < |c|
    ensures Permutes(Rotated(c, base, p))
  {
    var d := Rotated(c, base, p);
    RotatedAt(c, base, p, base);
    hide Rotated;
    forall i | 0 <= i < |d|
      ensures d[i] < |d|
    {
      RotatedAt(c, base, p, i);
    }
    forall i, j | 0 <= i < j < |d|
      ensures d[i] != d[j]
    {
      RotatedAt(c, base, p, i);
      RotatedAt(c, base, p, j);
    }
  }

  /** The lines of n consecutive entries. */
  ghost function WaysAt(mem: seq<Line>, c: seq<nat>, base: nat, n: nat): (w: seq<Line>)
    requires Permutes(c) && |mem| == |c| && base + n <= |c|
    ensures |w| == n
    ensures forall i :: 0 <= i < n ==> w[i] == mem[c[base + i]]
  {
    seq(n, i requires 0 <= i < n => mem[c[base + i]])
  }

  /** The ways of a set. */
  ghost function SetWays(g: Geometry, mem: seq<Line>, c: seq<nat>, s: nat): (w: seq<Line>)
    requires Permutes(c) && |mem| == |c| && g.sets * g.Assoc() <= |c| && s < g.sets
    ensures |w| == g.Assoc()
  {
    SetInside(g, s);
    WaysAt(mem, c, s * g.Assoc(), g.Assoc())
  }

  lemma RotatedWays(mem: seq<Line>, c: seq<nat>, base: nat, n: nat, p: nat, l: Line)
    requires Permutes(c) && |mem| == |c| && base + n <= |c| && p < n
    ensures Permutes(Rotated(c, base, p)) && |Rotated(c, base, p)| == |c|
    ensures WaysAt(mem[c[base + p] := l], Rotated(c, base, p), base, n) == Touched(WaysAt(mem, c, base, n), p, l)
  {
    RotatedPermutes(c, base, p);
    RotatedAt(c, base, p, 0);
    var mem' := mem[c[base + p] := l];
    var w, w' := WaysAt(mem, c, base, n), WaysAt(mem', Rotated(c, base, p), base, n);
    TouchedAt(w, p, l, 0);
    hide Touched, Rotated;
    forall i | 0 <= i < n
      ensures w'[i] == Touched(w, p, l)[i]
    {
      TouchedAt(w, p, l, i);
      RotatedAt(c, base, p, base + i);
    }
  }

  /** Entries outside the set keep their lines. */
  lemma OtherWays(mem: seq<Line>, c: seq<nat>, base: nat, n: nat, p: nat, l: Line, i: nat)
    requires Permutes(c) && |mem| == |c| && base + n <= |c| && p < n && i < |c| && !(base <= i < base + n)
    ensures Permutes(Rotated(c, base, p)) && |Rotated(c, base, p)| == |c|
    ensures mem[c[base + p] := l][Rotated(c, base, p)[i]] == mem[c[i]]
  {
    RotatedPermutes(c, base, p);
    RotatedAt(c, base, p, i);
    hide Rotated;
  }

  // ---- the cache --------------------------------------------------------------------------------

  class CacheAssoc {
    const g: Geometry
    const mem: array<Line>
    const content: array<nat>

    ghost predicate Valid()
      reads content
    {
      mem.Length == content.Length && g.sets * g.Assoc() <= content.Length && Permutes(content[..])
    }

    /** The ways of a set, most recently used first. */
    ghost function Ways(s: nat): (w: seq<Line>)
      requires Valid() && s < g.sets
      reads mem, content
      ensures |w| == g.Assoc()
    {
      SetWays(g, mem[..], content[..], s)
    }

    /** Memory for the lines is not cleared except for the tags: junk stands for what it held. */
    constructor (g: Geometry, numLines: nat, junk: nat -> (bool, nat))
      requires g.sets * g.Assoc() <= numLines
      ensures this.g == g && Valid() && mem.Length == numLines && fresh(mem) && fresh(content)
      ensures forall i :: 0 <= i < numLines ==> mem[i].tag == 0
    {
      this.g := g;
      mem := new Line[numLines](i => Line(0, junk(i).0, junk(i).1));
      content := new nat[numLines](i => i);
    }

    function CalcTag(addr: nat): nat {
      Shr(addr, g.log2AddrLs)
    }

    function CalcIndex4Tag(tag: nat): nat {
      g.SetOf(tag) * g.Assoc()
    }

    function CalcAddr4Tag(tag: nat): nat {
      tag * Pow2(g.log2AddrLs)
    }

    /** The loops that make room at the front of a set. */
    method MoveToFront(base: nat, p: nat)
      requires base + p < content.Length
      modifies content
      ensures content[..] == Rotated(old(content[..]), base, p)
    {
      var tmp := content[base + p];
      var l := base + p;
      while l > base
        invariant base <= l <= base + p
        invariant forall i :: 0 <= i < content.Length ==>
          content[i] == if l < i <= base + p then old(content[i - 1]) else old(content[i])
      {
        content[l] := content[l - 1];
        l := l - 1;
      }
      content[base] := tmp;
      ghost var c := old(content[..]);
      RotatedAt(c, base, p, base);
      hide Rotated;
      forall i | 0 <= i < content.Length
        ensures content[..][i] == Rotated(c, base, p)[i]
      {
        RotatedAt(c, base, p, i);
      }
    }

    /** findLinePrivate: the line with this tag, which becomes the first of its set. */
    method FindLinePrivate(addr: nat) returns (found: bool, line: nat, ghost p: nat)
      requires Valid()
      modifies content
      ensures Valid()
      ensures var tag, s := CalcTag(addr), g.SetOf(CalcTag(addr));
              found == Holds(old(Ways(s)), tag)
      ensures !found ==> content[..] == old(content[..])
      ensures found ==>
                var tag, s := CalcTag(addr), g.SetOf(CalcTag(addr));
                && p < g.Assoc() && CalcIndex4Tag(tag) + p < content.Length
                && old(Ways(s))[p].tag == tag
                && line == old(content[..])[CalcIndex4Tag(tag) + p] < mem.Length
                && content[..] == Rotated(old(content[..]), CalcIndex4Tag(tag), p)
    {
      hide Shape.Assoc, Shape.SetOf, Rotated, Permutes;
      var tag := CalcTag(addr);
      var theSet := CalcIndex4Tag(tag);
      SetInside(g, g.SetOf(tag));
      PermutesIs(content[..]);
      ghost var ways := Ways(g.SetOf(tag));
      p := 0;
      found, line := true, content[theSet];
      if mem[content[theSet]].tag == tag {
        assert ways[0].tag == tag;
        RotatedZero(content[..], theSet);
        return;
      }
      var l := 1;
      while l < g.Assoc() && mem[content[theSet + l]].tag != tag
        invariant 1 <= l <= g.Assoc()
        invariant forall i :: 0 <= i < l ==> ways[i].tag != tag
      {
        l := l + 1;
      }
      if l == g.Assoc() {
        found := false;
        return;
      }
      assert ways[l].tag == tag;
      line, p := content[theSet + l], l;
      RotatedPermutes(content[..], theSet, l);
      MoveToFront(theSet, l);
    }

    /** findLine2Replace under the LRU policy: the line with this tag, or else the last of its set. */
    method FindLine2Replace(addr: nat) returns (line: nat, ghost p: nat)
      requires Valid() && CalcTag(addr) != 0
      modifies content
      ensures Valid()
      ensures var tag, s := CalcTag(addr), g.SetOf(CalcTag(addr));
              && p < g.Assoc() && CalcIndex4Tag(tag) + p < content.Length
              && (if Holds(old(Ways(s)), tag) then old(Ways(s))[p].tag == tag else p == g.Assoc() - 1)
              && line == old(content[..])[CalcIndex4Tag(tag) + p] < mem.Length
              && content[..] == Rotated(old(content[..]), CalcIndex4Tag(tag), p)
    {
      hide Shape.Assoc, Shape.SetOf, Rotated, Permutes;
      var tag := CalcTag(addr);
      var theSet := CalcIndex4Tag(tag);
      SetInside(g, g.SetOf(tag));
      PermutesIs(content[..]);
      ghost var ways := Ways(g.SetOf(tag));
      p := 0;
      line := content[theSet];
      RotatedZero(content[..], theSet);
      if mem[content[theSet]].tag == tag {
        assert ways[0].tag == tag;
        return;
      }
      var l := g.Assoc() - 1;
      while l >= 0 && mem[content[theSet + l]].tag != tag
        invariant -1 <= l < g.Assoc()
        invariant forall i :: l < i < g.Assoc() ==> ways[i].tag != tag
      {
        l := l - 1;
      }
      if l < 0 {
        l := g.Assoc() - 1;
        if l == 0 {
          return;
        }
      } else {
        assert ways[l].tag == tag;
      }
      line, p := content[theSet + l], l;
      RotatedPermutes(content[..], theSet, l);
      MoveToFront(theSet, l);
    }

    /** fillLine */
    method FillLine(addr: nat) returns (line: nat, ghost p: nat)
      requires Valid() && CalcTag(addr) != 0
      modifies mem, content
      ensures Valid()
      ensures var tag, s := CalcTag(addr), g.SetOf(CalcTag(addr));
              && p < g.Assoc() && CalcIndex4Tag(tag) + p < content.Length
              && (if Holds(old(Ways(s)), tag) then old(Ways(s))[p].tag == tag else p == g.Assoc() - 1)
              && line == old(content[..])[CalcIndex4Tag(tag) + p] < mem.Length
              && content[..] == Rotated(old(content[..]), CalcIndex4Tag(tag), p)
              && mem[..] == old(mem[..])[line := old(mem[..])[line].(tag := tag)]
    {
      hide Shape.Assoc, Shape.SetOf, Rotated, Permutes;
      line, p := FindLine2Replace(addr);
      mem[line] := mem[line].(tag := CalcTag(addr));
    }
  }

  // ---- the whole cache after a run -----------------------------------------------------------------

  /** Every set lists its most recent lines; lines that belong to no set were never filled. */
  ghost predicate Mirrors(g: Geometry, trace: Trace, mem: seq<Line>, c: seq<nat>) {
    && Permutes(c) && |mem| == |c| && g.sets * g.Assoc() <= |c|
    && (forall s :: 0 <= s < g.sets ==> SetMirrors(g, trace, mem, c, s))
    && (forall i :: g.sets * g.Assoc() <= i < |c| ==> Empty(mem[c[i]]))
  }

  ghost predicate SetMirrors(g: Geometry, trace: Trace, mem: seq<Line>, c: seq<nat>, s: nat)
    requires Permutes(c) && |mem| == |c| && g.sets * g.Assoc() <= |c| && s < g.sets
  {
    ListsRecent(g, trace, s, SetWays(g, mem, c, s))
  }

  lemma EmptyMirrors(g: Geometry, mem: seq<Line>, c: seq<nat>)
    requires Permutes(c) && |mem| == |c| && g.sets * g.Assoc() <= |c|
    requires forall i :: 0 <= i < |mem| ==> Empty(mem[i])
    ensures Mirrors(g, [], mem, c)
  {
    hide Shape.SetOf, Permutes, Shape.Assoc;
    PermutesIs(c);
    forall s | 0 <= s < g.sets
      ensures SetMirrors(g, [], mem, c, s)
    {
      SetInside(g, s);
    }
  }

  /** How an access finds its line: at way p of its set, and the line becomes l. */
  ghost predicate Accesses(g: Geometry, trace: Trace, ways: seq<Line>, a: Access, p: nat, l: Line) {
    && a.tag != 0 && p < |ways| && l.tag == a.tag && l.order == |trace|
    && if Holds(ways, a.tag) then ways[p].tag == a.tag && l.st == (a.write || ways[p].st)
       else p == |ways| - 1 && l.st == a.write
  }

  ghost predicate Fits(g: Geometry, mem: seq<Line>, c: seq<nat>) {
    Permutes(c) && |mem| == |c| && g.sets * g.Assoc() <= |c|
  }

  /** The effect of one access on the whole cache. */
  lemma AccessMirrors(g: Geometry, trace: Trace, mem: seq<Line>, c: seq<nat>, a: Access, base: nat, p: nat, l: Line)
    requires Mirrors(g, trace, mem, c) && base == g.SetOf(a.tag) * g.Assoc()
    requires Accesses(g, trace, SetWays(g, mem, c, g.SetOf(a.tag)), a, p, l)
    ensures base + p < |c| && c[base + p] < |mem|
    ensures Mirrors(g, trace + [a], mem[c[base + p] := l], Rotated(c, base, p))
  {
    SetInside(g, g.SetOf(a.tag));
    AccessFits(g, mem, c, base, p, l);
    hide Shape.SetOf, Shape.Assoc, Rotated, Accesses, SetMirrors, Permutes;
    var mem', c' := mem[c[base + p] := l], Rotated(c, base, p);
    forall s | 0 <= s < g.sets
      ensures SetMirrors(g, trace + [a], mem', c', s)
    {
      AccessSet(g, trace, mem, c, a, base, p, l, s);
    }
    forall i | g.sets * g.Assoc() <= i < |c'|
      ensures Empty(mem'[c'[i]])
    {
      OtherWays(mem, c, base, g.Assoc(), p, l, i);
    }
  }

  lemma AccessFits(g: Geometry, mem: seq<Line>, c: seq<nat>, base: nat, p: nat, l: Line)
    requires Fits(g, mem, c) && base + g.Assoc() <= g.sets * g.Assoc() && p < g.Assoc()
    ensures base + p < |c| && c[base + p] < |mem| && |Rotated(c, base, p)| == |c|
    ensures Fits(g, mem[c[base + p] := l], Rotated(c, base, p))
  {
    RotatedPermutes(c, base, p);
    RotatedAt(c, base, p, base);
  }

  lemma AccessSet(g: Geometry, trace: Trace, mem: seq<Line>, c: seq<nat>, a: Access, base: nat, p: nat, l: Line, s: nat)
    requires Fits(g, mem, c) && s < g.sets && SetMirrors(g, trace, mem, c, s)
    requires base == g.SetOf(a.tag) * g.Assoc() && Accesses(g, trace, SetWays(g, mem, c, g.SetOf(a.tag)), a, p, l)
    ensures base + p < |c| && c[base + p] < |mem|
    ensures Fits(g, mem[c[base + p] := l], Rotated(c, base, p))
    ensures SetMirrors(g, trace + [a], mem[c[base + p] := l], Rotated(c, base, p), s)
  {
    SetInside(g, g.SetOf(a.tag));
    SetInside(g, s);
    hide Shape.SetOf, Shape.Assoc, Rotated, ListsRecent, Holds, WaysAt, Touched;
    AccessFits(g, mem, c, base, p, l);
    if s == g.SetOf(a.tag) {
      RotatedWays(mem, c, base, g.Assoc(), p, l);
      SameSet(g, trace, a, s, SetWays(g, mem, c, s), p, l);
    } else {
      SetsApart(g.SetOf(a.tag), s, g.Assoc());
      KeptWays(mem, c, base, g.Assoc(), p, l, s * g.Assoc());
      OtherSet(g, trace, a, s, SetWays(g, mem, c, s));
    }
  }

  lemma SetsApart(s: nat, s': nat, n: nat)
    requires s != s'
    ensures s * n + n <= s' * n || s' * n + n <= s * n
  {
    MulSucc(s, n);
    MulSucc(s', n);
    if s < s' {
      MulLe(s + 1, s', n);
    } else {
      MulLe(s' + 1, s, n);
    }
  }

  lemma KeptWays(mem: seq<Line>, c: seq<nat>, base: nat, n: nat, p: nat, l: Line, base': nat)
    requires Permutes(c) && |mem| == |c| && base + n <= |c| && p < n && base' + n <= |c|
    requires base + n <= base' || base' + n <= base
    ensures Permutes(Rotated(c, base, p)) && |Rotated(c, base, p)| == |c|
    ensures WaysAt(mem[c[base + p] := l], Rotated(c, base, p), base', n) == WaysAt(mem, c, base', n)
  {
    RotatedPermutes(c, base, p);
    RotatedAt(c, base, p, 0);
    hide Rotated;
    var w, w' := WaysAt(mem, c, base', n), WaysAt(mem[c[base + p] := l], Rotated(c, base, p), base', n);
    forall i | 0 <= i < n
      ensures w'[i] == w[i]
    {
      OtherWays(mem, c, base, n, p, l, base' + i);
    }
  }

  lemma SetInside(g: Geometry, s: nat)
    requires s < g.sets
    ensures 0 <= s * g.Assoc() && s * g.Assoc() + g.Assoc() <= g.sets * g.Assoc()
  {
    var n := g.Assoc();
    hide *;
    MulLe(s + 1, g.sets, n);
    MulLe(0, s, n);
    MulSucc(s, n);
  }

  lemma PermutesIs(c: seq<nat>)
    requires Permutes(c)
    ensures forall i :: 0 <= i < |c| ==> c[i] < |c|
  {
  }

  lemma RotatedZero(c: seq<nat>, base: nat)
    requires base < |c|
    ensures Rotated(c, base, 0) == c
  {
  }

  // ---- a tag of zero ---------------------------------------------------------------------------------

  /** An access with tag zero takes the empty line at way p of its set: first of the set now, and stamped. */
  ghost predicate TakesEmpty(g: Geometry, mem: seq<Line>, c: seq<nat>, mem': seq<Line>, c': seq<nat>, stamp: nat, write: bool,
                             p: nat)
    requires Fits(g, mem, c)
  {
    SetInside(g, g.SetOf(0));
    var base := g.SetOf(0) * g.Assoc();
    p < g.Assoc() &&
    var line := mem[c[base + p]];
    Empty(line) && c' == Rotated(c, base, p) && mem' == mem[c[base + p] := Line(0, write || line.st, stamp)]
  }

  lemma TakesEmptyIs(g: Geometry, mem: seq<Line>, c: seq<nat>, mem': seq<Line>, c': seq<nat>, stamp: nat, write: bool, p: nat,
                     base: nat)
    requires Fits(g, mem, c) && base == g.SetOf(0) * g.Assoc() && p < g.Assoc() && base + p < |c| && c[base + p] < |mem|
    requires mem[c[base + p]].tag == 0 && c' == Rotated(c, base, p)
    requires mem' == mem[c[base + p] := Line(0, write || mem[c[base + p]].st, stamp)]
    ensures TakesEmpty(g, mem, c, mem', c', stamp, write, p)
  {
    hide Shape.SetOf, Shape.Assoc, Rotated, Permutes;
  }

  /** The ways of the set are still listed by their last use if and only if they were all empty. */
  lemma TakesEmptyMirrors(g: Geometry, trace: Trace, mem: seq<Line>, c: seq<nat>, mem': seq<Line>, c': seq<nat>, stamp: nat,
                          write: bool, p: nat)
    requires Mirrors(g, trace, mem, c) && Fits(g, mem, c) && TakesEmpty(g, mem, c, mem', c', stamp, write, p)
    ensures Mirrors(g, trace, mem', c') <==>
            forall i :: 0 <= i < g.Assoc() ==> Empty(SetWays(g, mem, c, g.SetOf(0))[i])
  {
    var z := g.SetOf(0);
    SetInside(g, z);
    var base := z * g.Assoc();
    var l := mem'[c[base + p]];
    var ways := SetWays(g, mem, c, z);
    hide Shape.SetOf, Shape.Assoc, Rotated, ListsRecent, WaysAt, Touched, Permutes;
    AccessFits(g, mem, c, base, p, l);
    RotatedWays(mem, c, base, g.Assoc(), p, l);
    assert SetMirrors(g, trace, mem, c, z);
    EmptyToFront(g, trace, z, ways, p, l);
    forall s | 0 <= s < g.sets && s != z
      ensures SetMirrors(g, trace, mem', c', s)
    {
      SetInside(g, s);
      SetsApart(z, s, g.Assoc());
      KeptWays(mem, c, base, g.Assoc(), p, l, s * g.Assoc());
      assert SetMirrors(g, trace, mem, c, s);
    }
    forall i | g.sets * g.Assoc() <= i < |c'|
      ensures Empty(mem'[c'[i]])
    {
      OtherWays(mem, c, base, g.Assoc(), p, l, i);
    }
    assert SetMirrors(g, trace, mem', c', z) <==> ListsRecent(g, trace, z, Touched(ways, p, l));
  }
}
