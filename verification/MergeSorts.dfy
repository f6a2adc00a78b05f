/** The merge sort of LiveCache: lines by increasing order stamp. A line is given by its index. */
module MergeSorts {
  import opened Recency

  predicate InMem(lines: seq<Line>, s: seq<nat>) {
    forall i :: 0 <= i < |s| ==> s[i] < |lines|
  }

  /** The stamp of a line. */
  function Key(lines: seq<Line>, x: nat): nat {
    if x < |lines| then lines[x].order else 0
  }

  predicate Sorted(lines: seq<Line>, s: seq<nat>) {
    forall i, j :: 0 <= i < j < |s| ==> Key(lines, s[i]) <= Key(lines, s[j])
  }

  /** The lines with stamp k, in the order they are listed. */
  function Having(lines: seq<Line>, s: seq<nat>, k: nat): seq<nat> {
    if |s| == 0 then []
    else Having(lines, s[..|s| - 1], k) + if Key(lines, s[|s| - 1]) == k then [s[|s| - 1]] else []
  }

  /** t is s sorted, and lines with equal stamps keep their order. */
  ghost predicate Sorts(lines: seq<Line>, s: seq<nat>, t: seq<nat>) {
    && |t| == |s|
    && Sorted(lines, t)
    && forall k: nat :: Having(lines, t, k) == Having(lines, s, k)
  }

  lemma HavingSnoc(lines: seq<Line>, s: seq<nat>, x: nat, k: nat)
    ensures Having(lines, s + [x], k) == Having(lines, s, k) + if Key(lines, x) == k then [x] else []
  {
    assert (s + [x])[..|s|] == s;
  }

  lemma {:induction false} HavingConcat(lines: seq<Line>, s: seq<nat>, t: seq<nat>, k: nat)
    ensures Having(lines, s + t, k) == Having(lines, s, k) + Having(lines, t, k)
  {
    if |t| == 0 {
      assert s + t == s;
    } else {
      var t', x := t[..|t| - 1], t[|t| - 1];
      assert t == t' + [x] && s + t == s + t' + [x];
      HavingConcat(lines, s, t', k);
      HavingSnoc(lines, s + t', x, k);
      HavingSnoc(lines, t', x, k);
    }
  }

  lemma {:induction false} HavingNone(lines: seq<Line>, s: seq<nat>, k: nat)
    requires forall i :: 0 <= i < |s| ==> Key(lines, s[i]) != k
    ensures Having(lines, s, k) == []
  {
    if |s| > 0 {
      HavingNone(lines, s[..|s| - 1], k);
    }
  }

  lemma {:induction false} HavingCount(lines: seq<Line>, s: seq<nat>, x: nat)
    ensures multiset(Having(lines, s, Key(lines, x)))[x] == multiset(s)[x]
  {
    if |s| > 0 {
      var s', y := s[..|s| - 1], s[|s| - 1];
      assert s == s' + [y];
      HavingCount(lines, s', x);
    }
  }

  /** A stable rearrangement is a rearrangement. */
  lemma SortsPermutes(lines: seq<Line>, s: seq<nat>, t: seq<nat>)
    requires Sorts(lines, s, t)
    ensures multiset(t) == multiset(s)
  {
    hide Having, Sorted;
    forall x: nat
      ensures multiset(t)[x] == multiset(s)[x]
    {
      HavingCount(lines, s, x);
      HavingCount(lines, t, x);
    }
  }

  /** There is only one way to sort stably. */
  lemma {:induction false} SortsUnique(lines: seq<Line>, s: seq<nat>, t: seq<nat>, u: seq<nat>)
    requires Sorts(lines, s, t) && Sorts(lines, s, u)
    ensures t == u
    decreases |s|
  {
    if |s| > 0 {
      hide Having, Key;
      var t', u' := t[..|t| - 1], u[..|u| - 1];
      var x, y := t[|t| - 1], u[|u| - 1];
      assert t == t' + [x] && u == u' + [y];
      LastKey(lines, s, t, u);
      WithoutLast(lines, s, t', x, u', y);
      SortsUnique(lines, t', t', u');
    }
  }

  /** The last lines are the same, and so is what is left. */
  lemma WithoutLast(lines: seq<Line>, s: seq<nat>, t: seq<nat>, x: nat, u: seq<nat>, y: nat)
    requires Key(lines, x) == Key(lines, y)
    requires forall k: nat :: Having(lines, t + [x], k) == Having(lines, s, k)
    requires forall k: nat :: Having(lines, u + [y], k) == Having(lines, s, k)
    ensures x == y && forall k: nat :: Having(lines, u, k) == Having(lines, t, k)
  {
    hide Having, Key;
    HavingLast(lines, t, x);
    HavingLast(lines, u, y);
    var k0 := Key(lines, x);
    assert Having(lines, t + [x], k0) == Having(lines, s, k0) && Having(lines, u + [y], k0) == Having(lines, s, k0);
    forall k: nat
      ensures Having(lines, u, k) == Having(lines, t, k)
    {
      HavingSnoc(lines, t, x, k);
      HavingSnoc(lines, u, y, k);
      SameFront(Having(lines, u, k), Having(lines, t, k), if Key(lines, x) == k then [x] else []);
    }
  }

  lemma SameFront(a: seq<nat>, b: seq<nat>, end: seq<nat>)
    requires a + end == b + end
    ensures a == b
  {
    assert |a| == |b| by {
      assert |a + end| == |a| + |end| && |b + end| == |b| + |end|;
    }
    assert a == (a + end)[..|a|] && b == (b + end)[..|b|];
  }

  lemma HavingLast(lines: seq<Line>, s: seq<nat>, x: nat)
    ensures var h := Having(lines, s + [x], Key(lines, x)); |h| > 0 && h[|h| - 1] == x
  {
    HavingSnoc(lines, s, x, Key(lines, x));
  }

  /** Two sorted forms of the same lines end with the same stamp. */
  lemma LastKey(lines: seq<Line>, s: seq<nat>, t: seq<nat>, u: seq<nat>)
    requires Sorts(lines, s, t) && Sorts(lines, s, u) && |s| > 0
    ensures Key(lines, t[|t| - 1]) == Key(lines, u[|u| - 1])
  {
    hide Having, Key;
    SortsPermutes(lines, s, t);
    SortsPermutes(lines, s, u);
    var x, y := t[|t| - 1], u[|u| - 1];
    assert x in multiset(t) && y in multiset(u);
    assert x in u && y in t;
  }

  /** The merge loop. */
  method Merge(lines: seq<Line>, arr: array<nat>, len: nat, arr1: array<nat>, arr2: array<nat>)
    requires len == arr1.Length + arr2.Length <= arr.Length && arr != arr1 && arr != arr2
    requires InMem(lines, arr1[..]) && InMem(lines, arr2[..])
    requires Sorted(lines, arr1[..]) && Sorted(lines, arr2[..])
    modifies arr
    ensures arr[len..] == old(arr[len..])
    ensures Sorts(lines, old(arr1[..]) + old(arr2[..]), arr[..len]) && InMem(lines, arr[..len])
  {
    hide Having, InMem;
    ghost var s1, s2 := arr1[..], arr2[..];
    var m, n, i := 0, 0, 0;
    MergedNone(lines, s1, s2, arr[..i]);
    while i < len
      invariant arr1[..] == s1 && arr2[..] == s2
      invariant 0 <= m <= |s1| && 0 <= n <= |s2| && i == m + n
      invariant arr[len..] == old(arr[len..])
      invariant Merged(lines, s1, s2, m, n, arr[..i])
    {
      InMemAt(lines, s1, s2, m, n);
      ghost var done := arr[..i];
      if n >= arr2.Length || (m < arr1.Length && lines[arr1[m]].order <= lines[arr2[n]].order) {
        MergeLeft(lines, s1, s2, m, n, done);
        arr[i] := arr1[m];
        m := m + 1;
      } else {
        MergeRight(lines, s1, s2, m, n, done);
        arr[i] := arr2[n];
        n := n + 1;
      }
      i := i + 1;
      assert arr[..i] == done + [arr[i - 1]];
    }
    MergedAll(lines, s1, s2, arr[..len]);
  }

  lemma InMemAt(lines: seq<Line>, s1: seq<nat>, s2: seq<nat>, m: nat, n: nat)
    requires InMem(lines, s1) && InMem(lines, s2)
    ensures m < |s1| ==> s1[m] < |lines| && Key(lines, s1[m]) == lines[s1[m]].order
    ensures n < |s2| ==> s2[n] < |lines| && Key(lines, s2[n]) == lines[s2[n]].order
  {
  }

  /** t is what merging has produced from the first m and the first n lines of its two inputs. */
  ghost predicate Merged(lines: seq<Line>, s1: seq<nat>, s2: seq<nat>, m: nat, n: nat, t: seq<nat>)
    requires m <= |s1| && n <= |s2|
  {
    && |t| == m + n && InMem(lines, t) && Sorted(lines, t)
    && (forall i :: 0 <= i < |t| && m < |s1| ==> Key(lines, t[i]) <= Key(lines, s1[m]))
    && (forall i :: 0 <= i < |t| && n < |s2| ==> Key(lines, t[i]) <= Key(lines, s2[n]))
    && (forall i :: 0 <= i < n && m < |s1| ==> Key(lines, s2[i]) < Key(lines, s1[m]))
    && (forall k: nat :: Having(lines, t, k) == Having(lines, s1[..m], k) + Having(lines, s2[..n], k))
  }

  lemma MergedNone(lines: seq<Line>, s1: seq<nat>, s2: seq<nat>, t: seq<nat>)
    requires t == []
    ensures Merged(lines, s1, s2, 0, 0, t)
  {
  }

  lemma MergeLeft(lines: seq<Line>, s1: seq<nat>, s2: seq<nat>, m: nat, n: nat, t: seq<nat>)
    requires m < |s1| && n <= |s2| && Merged(lines, s1, s2, m, n, t)
    requires Sorted(lines, s1) && Sorted(lines, s2) && InMem(lines, s1)
    requires n < |s2| ==> Key(lines, s1[m]) <= Key(lines, s2[n])
    ensures Merged(lines, s1, s2, m + 1, n, t + [s1[m]])
  {
    hide Having, Key;
    var x := s1[m];
    assert s1[..m + 1] == s1[..m] + [x];
    forall k: nat
      ensures Having(lines, t + [x], k) == Having(lines, s1[..m + 1], k) + Having(lines, s2[..n], k)
    {
      HavingSnoc(lines, t, x, k);
      HavingSnoc(lines, s1[..m], x, k);
      if Key(lines, x) == k {
        HavingNone(lines, s2[..n], k);
      }
    }
  }

  lemma MergeRight(lines: seq<Line>, s1: seq<nat>, s2: seq<nat>, m: nat, n: nat, t: seq<nat>)
    requires m <= |s1| && n < |s2| && Merged(lines, s1, s2, m, n, t)
    requires Sorted(lines, s1) && Sorted(lines, s2) && InMem(lines, s2)
    requires m < |s1| ==> Key(lines, s2[n]) < Key(lines, s1[m])
    ensures Merged(lines, s1, s2, m, n + 1, t + [s2[n]])
  {
    hide Having, Key;
    var x := s2[n];
    assert s2[..n + 1] == s2[..n] + [x];
    forall k: nat
      ensures Having(lines, t + [x], k) == Having(lines, s1[..m], k) + Having(lines, s2[..n + 1], k)
    {
      HavingSnoc(lines, t, x, k);
      HavingSnoc(lines, s2[..n], x, k);
    }
  }

  lemma MergedAll(lines: seq<Line>, s1: seq<nat>, s2: seq<nat>, t: seq<nat>)
    requires Merged(lines, s1, s2, |s1|, |s2|, t)
    ensures Sorts(lines, s1 + s2, t) && InMem(lines, t)
  {
    hide Having, Key;
    assert s1[..|s1|] == s1 && s2[..|s2|] == s2;
    forall k: nat
      ensures Having(lines, t, k) == Having(lines, s1 + s2, k)
    {
      HavingConcat(lines, s1, s2, k);
    }
  }

  /** Sorting the two halves first. */
  lemma SortsHalves(lines: seq<Line>, s1: seq<nat>, s2: seq<nat>, t1: seq<nat>, t2: seq<nat>, t: seq<nat>)
    requires Sorts(lines, s1, t1) && Sorts(lines, s2, t2) && Sorts(lines, t1 + t2, t)
    ensures Sorts(lines, s1 + s2, t)
  {
    hide Having, Key;
    forall k: nat
      ensures Having(lines, t, k) == Having(lines, s1 + s2, k)
    {
      HavingConcat(lines, s1, s2, k);
      HavingConcat(lines, t1, t2, k);
    }
  }

  lemma SwapSorts(lines: seq<Line>, s: seq<nat>, t: seq<nat>)
    requires |s| == 2 && |t| == 2 && InMem(lines, s)
    requires if Key(lines, s[0]) > Key(lines, s[1]) then t == [s[1], s[0]] else t == s
    ensures Sorts(lines, s, t)
  {
    assert s == [s[0]] + [s[1]] && t == [t[0]] + [t[1]];
    hide Key;
    forall k: nat
      ensures Having(lines, t, k) == Having(lines, s, k)
    {
      HavingSnoc(lines, [], s[0], k);
      HavingSnoc(lines, [], s[1], k);
      HavingSnoc(lines, [s[0]], s[1], k);
      HavingSnoc(lines, [t[0]], t[1], k);
    }
  }

  /** mergeSort: the first len entries of arr become sorted, whatever their number. */
  method MergeSort(lines: seq<Line>, arr: array<nat>, len: nat)
    requires len <= arr.Length && InMem(lines, arr[..len])
    modifies arr
    ensures arr[len..] == old(arr[len..])
    ensures Sorts(lines, old(arr[..len]), arr[..len]) && InMem(lines, arr[..len])
    decreases len
  {
    hide Having;
    ghost var s := arr[..len];
    if len < 2 {
      return;
    }
    if len == 2 {
      if lines[arr[0]].order > lines[arr[1]].order {
        arr[0], arr[1] := arr[1], arr[0];
      }
      SwapSorts(lines, s, arr[..len]);
      return;
    }
    var mid := len / 2;
    var arr1, arr2 := Split(lines, arr, len, mid);
    hide Sorts, InMem;
    MergeSort(lines, arr1, mid);
    MergeSort(lines, arr2, len - mid);
    assert arr1[..] == arr1[..mid] && arr2[..] == arr2[..len - mid] && s == s[..mid] + s[mid..];
    ghost var t1, t2 := arr1[..], arr2[..];
    SortsSorted(lines, s[..mid], t1);
    SortsSorted(lines, s[mid..], t2);
    Merge(lines, arr, len, arr1, arr2);
    SortsHalves(lines, s[..mid], s[mid..], t1, t2, arr[..len]);
  }

  /** Copies of the two halves. */
  method Split(lines: seq<Line>, arr: array<nat>, len: nat, mid: nat) returns (arr1: array<nat>, arr2: array<nat>)
    requires mid <= len <= arr.Length && InMem(lines, arr[..len])
    ensures fresh(arr1) && fresh(arr2) && arr1.Length == mid && arr2.Length == len - mid && arr1 != arr2
    ensures arr1[..mid] == arr[..len][..mid] && arr2[..len - mid] == arr[..len][mid..]
    ensures InMem(lines, arr1[..mid]) && InMem(lines, arr2[..len - mid])
  {
    arr1 := new nat[mid](i requires 0 <= i < mid reads arr => arr[i]);
    arr2 := new nat[len - mid](i requires 0 <= i < len - mid reads arr => arr[mid + i]);
  }

  lemma SortsSorted(lines: seq<Line>, s: seq<nat>, t: seq<nat>)
    requires Sorts(lines, s, t)
    ensures Sorted(lines, t)
  {
  }
}
