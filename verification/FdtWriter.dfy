/** FDTState: the incremental writer of flattened devicetrees. */
module FdtWriter {
  import opened Basics
  import opened FdtFormat

  /** The calls so far leave this many nodes open. */
  function Depth(evs: seq<Event>): int {
    if |evs| == 0 then 0
    else Depth(evs[..|evs| - 1]) + (match evs[|evs| - 1] case BeginNode(_) => 1 case EndNode => -1 case _ => 0)
  }

  lemma {:induction false} DepthConcat(a: seq<Event>, b: seq<Event>)
    ensures Depth(a + b) == Depth(a) + Depth(b)
    decreases |b|
  {
    if |b| == 0 {
      assert a + b == a;
    } else {
      var front := b[..|b| - 1];
      DepthConcat(a, front);
      assert (a + b)[..|a + b| - 1] == a + front;
    }
  }

  lemma DepthOne(e: Event)
    ensures Depth([e]) == match e case BeginNode(_) => 1 case EndNode => -1 case _ => 0
  {
    var one := [e];
    assert one[..0] == [];
  }

  /** Writing a tree closes every node it opens. */
  lemma {:induction false} TreeDepth(n: Node)
    ensures Depth(Events(n)) == 0
    decreases n, 1
  {
    var inner := ItemEvents(n, n.items);
    ItemsDepth(n, n.items);
    DepthConcat([BeginNode(n.name)], inner);
    DepthConcat([BeginNode(n.name)] + inner, [EndNode]);
    DepthOne(BeginNode(n.name));
    DepthOne(EndNode);
  }

  lemma {:induction false} ItemsDepth(n: Node, items: seq<Item>)
    requires forall i :: 0 <= i < |items| ==> items[i] in n.items
    ensures Depth(ItemEvents(n, items)) == 0
    decreases n, 0, |items|
  {
    if |items| > 0 {
      assert items[0] in n.items;
      ItemsDepth(n, items[1..]);
      match items[0]
      case Property(name, data) =>
        DepthConcat([Prop(name, data)], ItemEvents(n, items[1..]));
        DepthOne(Prop(name, data));
      case Child(c) =>
        TreeDepth(c);
        DepthConcat(Events(c), ItemEvents(n, items[1..]));
    }
  }

  // ---- the string table ----------------------------------------------------------------------

  /** Strings without a zero byte, no two the same. */
  ghost predicate NamesOk(names: seq<Name>) {
    && (forall i :: 0 <= i < |names| ==> NulFree(names[i]))
    && (forall i, j :: 0 <= i < j < |names| ==> names[i] != names[j])
  }

  lemma {:induction false} JoinedConcat(a: seq<Name>, b: seq<Name>)
    ensures Joined(a + b) == Joined(a) + Joined(b)
    decreases |b|
  {
    hide *;
    if |b| == 0 {
      assert a + b == a && b == [];
      JoinedNone();
    } else {
      var front, last := b[..|b| - 1], b[|b| - 1];
      assert b == front + [last];
      JoinedConcat(a, front);
      JoinedSnoc(front, last);
      JoinedSnoc(a + front, last);
      NamesAssoc(a, front, [last]);
    }
  }

  lemma NamesAssoc(a: seq<Name>, b: seq<Name>, c: seq<Name>)
    ensures a + b + c == a + (b + c)
  {
  }

  lemma JoinedSnoc(a: seq<Name>, name: Name)
    ensures Joined(a + [name]) == Joined(a) + (name + [0])
  {
    assert (a + [name])[..|a|] == a;
  }

  /** The string that starts where the first i strings end. */
  lemma StringAt(names: seq<Name>, i: nat)
    requires i < |names| && NulFree(names[i])
    ensures |Joined(names[..i])| < |Joined(names)| && CString(Joined(names)[|Joined(names[..i])|..]) == Some(names[i])
    ensures |Joined(names[..i + 1])| == |Joined(names[..i])| + |names[i]| + 1
  {
    var a, b := names[..i], names[i + 1..];
    assert names == a + [names[i]] + b && names[..i + 1] == a + [names[i]];
    JoinedConcat(a + [names[i]], b);
    JoinedConcat(a, [names[i]]);
    JoinedOne(names[i]);
    hide Joined;
    assert Joined(names)[|Joined(a)|..] == names[i] + [0] + Joined(b);
    CStringOf(names[i], Joined(b));
  }

  lemma {:induction false} FirstOffset(names: seq<Name>, i: nat)
    requires i < |names| && names[i] !in names[..i]
    ensures OffsetOf(names, names[i]) == |Joined(names[..i])|
    decreases |names|
  {
    var front := names[..|names| - 1];
    if i < |front| {
      assert front[..i] == names[..i];
      FirstOffset(front, i);
    }
  }

  /** Adding a string does not change what was written before. */
  lemma {:induction false} BytesKept(evs: seq<Event>, names: seq<Name>, more: Name)
    requires AllOk(evs, names)
    ensures AllOk(evs, names + [more]) && StructBytes(evs, names + [more]) == StructBytes(evs, names)
    decreases |evs|
  {
    forall i | 0 <= i < |evs|
      ensures EventOk(evs[i], names + [more]) && Bytes(evs[i], names + [more]) == Bytes(evs[i], names)
    {
      EventKept(evs[i], names, more);
    }
    hide EventOk, Bytes;
    if |evs| > 0 {
      BytesKept(evs[..|evs| - 1], names, more);
    }
  }

  lemma EventKept(e: Event, names: seq<Name>, more: Name)
    requires EventOk(e, names)
    ensures EventOk(e, names + [more]) && Bytes(e, names + [more]) == Bytes(e, names)
  {
    hide OffsetOf, Be32, Padded;
    match e
    case Prop(name, data) => OffsetKept(names, more, name);
    case _ =>
  }

  lemma AppendEvent(evs: seq<Event>, e: Event, names: seq<Name>)
    requires AllOk(evs, names) && EventOk(e, names)
    ensures AllOk(evs + [e], names) && StructBytes(evs + [e], names) == StructBytes(evs, names) + Bytes(e, names)
  {
    hide EventOk, Bytes;
    assert (evs + [e])[..|evs|] == evs;
  }

  class FdtState {
    var tab: seq<Byte>
    var openNodeCount: int
    var stringTable: seq<Byte>
    ghost var names: seq<Name>
    ghost var events: seq<Event>

    ghost predicate StringsOk()
      reads this
    {
      NamesOk(names) && stringTable == Joined(names)
    }

    ghost predicate Valid()
      reads this
    {
      && StringsOk()
      && AllOk(events, names) && tab == StructBytes(events, names)
      && openNodeCount == Depth(events)
    }

    constructor ()
      ensures Valid() && events == [] && names == []
    {
      tab, openNodeCount, stringTable, names, events := [], 0, [], [], [];
    }

    method FdtPut32(v: nat)
      modifies this`tab
      ensures tab == old(tab) + Be32(v)
    {
      tab := tab + Be32(v);
    }

    /** The data is zero padded. */
    method FdtPutData(data: seq<Byte>)
      modifies this`tab
      ensures tab == old(tab) + Padded(data)
    {
      var len1 := (|data| + 3) / 4;
      tab := tab + data + Zeros(4 * len1 - |data|);
    }

    method FdtBeginNode(name: Name)
      requires Valid() && NulFree(name)
      modifies this`tab, this`openNodeCount, this`events
      ensures Valid() && events == old(events) + [BeginNode(name)]
    {
      hide Joined, StructBytes, NamesOk;
      FdtPut32(FDT_BEGIN_NODE);
      FdtPutData(name + [0]);
      openNodeCount := openNodeCount + 1;
      AppendEvent(events, BeginNode(name), names);
      DepthConcat(events, [BeginNode(name)]);
      DepthOne(BeginNode(name));
      events := events + [BeginNode(name)];
    }

    method FdtEndNode()
      requires Valid()
      modifies this`tab, this`openNodeCount, this`events
      ensures Valid() && events == old(events) + [EndNode]
    {
      hide Joined, StructBytes, NamesOk;
      FdtPut32(FDT_END_NODE);
      openNodeCount := openNodeCount - 1;
      AppendEvent(events, EndNode, names);
      DepthConcat(events, [EndNode]);
      DepthOne(EndNode);
      events := events + [EndNode];
    }

    /** The offset of a name in the string table, which grows when the name is new. */
    method FdtGetStringOffset(name: Name) returns (pos: nat)
      requires StringsOk() && NulFree(name)
      modifies this`stringTable, this`names
      ensures StringsOk() && name in names && pos == OffsetOf(names, name)
      ensures names == if name in old(names) then old(names) else old(names) + [name]
    {
      hide Joined, OffsetOf, NulFree;
      pos := 0;
      ghost var i := 0;
      JoinedNone();
      assert names[..|names|] == names;
      while pos < |stringTable|
        invariant StringsOk() && names == old(names)
        invariant 0 <= i <= |names| && pos == |Joined(names[..i])| && name !in names[..i]
        decreases |names| - i
      {
        assert i < |names|;
        StringAt(names, i);
        var s := CString(stringTable[pos..]).value;
        if s == name {
          FirstOffset(names, i);
          return;
        }
        pos := pos + |s| + 1;
        assert names[..i + 1] == names[..i] + [names[i]];
        i := i + 1;
      }
      BeyondEnd(names, i);
      pos := |stringTable|;
      stringTable := stringTable + name + [0];
      NewName(names, name);
      names := names + [name];
    }

    /** The three words before the data of a property. */
    method FdtPropStart(propName: Name, len: nat)
      requires Valid() && NulFree(propName) && |stringTable| < WORD
      modifies this`tab, this`stringTable, this`names
      ensures StringsOk() && AllOk(events, names) && StructBytes(events, names) == old(tab)
      ensures propName in names && OffsetOf(names, propName) < WORD
      ensures tab == old(tab) + Be32(FDT_PROP) + Be32(len) + Be32(OffsetOf(names, propName))
    {
      hide Joined, StructBytes, NamesOk, AllOk, OffsetOf, Be32, Depth;
      FdtPut32(FDT_PROP);
      FdtPut32(len);
      var off := FdtGetStringOffset(propName);
      OffsetSmall(old(names), names, propName);
      if propName !in old(names) {
        BytesKept(events, old(names), propName);
      }
      FdtPut32(off);
    }

    method FdtProp(propName: Name, data: seq<Byte>)
      requires Valid() && NulFree(propName) && |data| < WORD && |stringTable| < WORD
      modifies this`tab, this`stringTable, this`names, this`events
      ensures Valid() && events == old(events) + [Prop(propName, data)]
    {
      hide Joined, StructBytes, NamesOk, AllOk, OffsetOf, Be32, Padded, Depth;
      FdtPropStart(propName, |data|);
      FdtPutData(data);
      PropAppended(events, names, propName, data);
      events := events + [Prop(propName, data)];
    }

    /** A property of 32-bit cells. */
    method FdtPropTabU32(propName: Name, cells: seq<nat>)
      requires Valid() && NulFree(propName) && 4 * |cells| < WORD && |stringTable| < WORD
      modifies this`tab, this`stringTable, this`names, this`events
      ensures Valid() && events == old(events) + [Prop(propName, Cells(cells))]
    {
      hide Joined, StructBytes, NamesOk, AllOk, OffsetOf, Be32, Padded, Depth, Cells;
      CellsLength(cells);
      PaddedWords(Cells(cells), |cells|);
      FdtPropStart(propName, 4 * |cells|);
      FdtPutCells(cells);
      PropAppended(events, names, propName, Cells(cells));
      events := events + [Prop(propName, Cells(cells))];
    }

    method FdtPutCells(cells: seq<nat>)
      modifies this`tab
      ensures tab == old(tab) + Cells(cells)
    {
      hide Be32;
      for i := 0 to |cells|
        invariant tab == old(tab) + Cells(cells[..i])
      {
        assert cells[..i + 1][..i] == cells[..i];
        FdtPut32(cells[i]);
      }
      assert cells[..|cells|] == cells;
    }

    /** fdt_output: what it writes is the tree that the calls described. */
    method FdtOutput(dst: array<Byte>) returns (size: nat)
      requires Valid() && openNodeCount == 0
      requires TotalSize(|tab| + 4, |stringTable|) <= dst.Length && TotalSize(|tab| + 4, |stringTable|) < WORD
      modifies this`tab, dst
      ensures tab == old(tab) + Be32(FDT_END) && size == TotalSize(|tab|, |stringTable|) <= dst.Length
      ensures dst[..size] == Blob(tab, stringTable) && forall k :: size <= k < dst.Length ==> dst[k] == old(dst[k])
      ensures forall n: Node :: events == Events(n) ==> LayoutOk(dst[..size]) && HeaderIs(dst[..size]) && ParseBlob(dst[..size]) == Some(n)
    {
      hide Joined, StructBytes, NamesOk, AllOk, Blob, Events, ParseBlob, LayoutOk;
      FdtPut32(FDT_END);
      size := WriteBlob(dst, tab, stringTable);
      forall n: Node | events == Events(n)
        ensures LayoutOk(dst[..size]) && HeaderIs(dst[..size]) && ParseBlob(dst[..size]) == Some(n)
      {
        NamesFree(names);
        BlobBack(n, names, tab);
      }
    }
  }

  function Cells(cells: seq<nat>): seq<Byte> {
    if |cells| == 0 then [] else Cells(cells[..|cells| - 1]) + Be32(cells[|cells| - 1])
  }

  lemma {:induction false} CellsLength(cells: seq<nat>)
    ensures |Cells(cells)| == 4 * |cells|
  {
    hide Be32;
    if |cells| > 0 {
      CellsLength(cells[..|cells| - 1]);
    }
  }

  lemma PaddedWords(s: seq<Byte>, n: nat)
    requires |s| == 4 * n
    ensures Padded(s) == s
  {
    assert Align(4 * n, 4) == 4 * n;
  }

  lemma NamesFree(names: seq<Name>)
    requires NamesOk(names)
    ensures forall i :: 0 <= i < |names| ==> NulFree(names[i])
  {
  }

  // ---- the blob in memory ------------------------------------------------------------------------

  /** memcpy */
  method Copy(dst: array<Byte>, pos: nat, src: seq<Byte>)
    requires pos + |src| <= dst.Length
    modifies dst
    ensures dst[..pos + |src|] == old(dst[..pos]) + src
    ensures forall k :: pos + |src| <= k < dst.Length ==> dst[k] == old(dst[k])
  {
    for i := 0 to |src|
      invariant dst[..pos + i] == old(dst[..pos]) + src[..i]
      invariant forall k :: pos + i <= k < dst.Length ==> dst[k] == old(dst[k])
    {
      dst[pos + i] := src[i];
      assert dst[..pos + i + 1] == dst[..pos + i] + [src[i]];
    }
  }

  /** Zeros up to the next multiple of eight. */
  method AlignTo8(dst: array<Byte>, start: nat) returns (pos: nat)
    requires Align(start, 8) <= dst.Length
    modifies dst
    ensures pos == Align(start, 8) >= start
    ensures dst[..pos] == old(dst[..start]) + Zeros(pos - start)
    ensures forall k :: pos <= k < dst.Length ==> dst[k] == old(dst[k])
  {
    AlignIs(start);
    pos := start;
    while pos % 8 != 0
      invariant start <= pos <= Align(start, 8)
      invariant dst[..pos] == old(dst[..start]) + Zeros(pos - start)
      invariant forall k :: pos <= k < dst.Length ==> dst[k] == old(dst[k])
      decreases Align(start, 8) - pos
    {
      NotYet(start, pos);
      dst[pos] := 0;
      pos := pos + 1;
      assert dst[..pos] == dst[..pos - 1] + [0] && Zeros(pos - start) == Zeros(pos - 1 - start) + [0];
    }
    AlignUnique(start, pos);
  }

  lemma NotYet(start: nat, pos: nat)
    requires start <= pos <= Align(start, 8) && pos % 8 != 0
    ensures pos < Align(start, 8)
  {
    AlignIs(start);
  }

  lemma AlignUnique(start: nat, pos: nat)
    requires start <= pos <= Align(start, 8) && pos % 8 == 0
    ensures pos == Align(start, 8)
  {
  }

  method WriteBlob(dst: array<Byte>, tab: seq<Byte>, strings: seq<Byte>) returns (pos: nat)
    requires TotalSize(|tab|, |strings|) <= dst.Length
    modifies dst
    ensures pos == TotalSize(|tab|, |strings|) && dst[..pos] == Blob(tab, strings)
    ensures forall k :: pos <= k < dst.Length ==> dst[k] == old(dst[k])
  {
    hide Be32, Align, Header, Zeros;
    AlignIs(HEADER_SIZE + |tab|);
    AlignIs(StringsStart(|tab|) + |strings|);
    pos := WriteBody(dst, tab, strings);
    ghost var body := dst[HEADER_SIZE..pos];
    Copy(dst, 0, Header(|tab|, |strings|));
    assert dst[HEADER_SIZE..pos] == body;
    assert dst[..pos] == dst[..HEADER_SIZE] + dst[HEADER_SIZE..pos];
  }

  /** The blocks after the header. */
  method WriteBody(dst: array<Byte>, tab: seq<Byte>, strings: seq<Byte>) returns (pos: nat)
    requires TotalSize(|tab|, |strings|) <= dst.Length
    modifies dst
    ensures pos == TotalSize(|tab|, |strings|) >= HEADER_SIZE
    ensures dst[HEADER_SIZE..pos] == Body(tab, strings)
    ensures forall k :: pos <= k < dst.Length ==> dst[k] == old(dst[k])
  {
    hide Align, Zeros, Body;
    AlignIs(HEADER_SIZE + |tab|);
    AlignIs(StringsStart(|tab|) + |strings|);
    ghost var h := dst[..HEADER_SIZE];
    Copy(dst, HEADER_SIZE, tab);
    var rsv := AlignTo8(dst, HEADER_SIZE + |tab|);
    Copy(dst, rsv, Zeros(16));
    Copy(dst, rsv + 16, strings);
    pos := AlignTo8(dst, rsv + 16 + |strings|);
    BodyParts(h, tab, strings, rsv, pos);
    assert dst[..pos] == h + Body(tab, strings);
    assert dst[HEADER_SIZE..pos] == dst[..pos][HEADER_SIZE..];
  }

  lemma BodyParts(h: seq<Byte>, tab: seq<Byte>, strings: seq<Byte>, rsv: nat, end: nat)
    requires rsv == ReserveStart(|tab|) >= HEADER_SIZE + |tab| && end == TotalSize(|tab|, |strings|) >= rsv + 16 + |strings|
    ensures h + tab + Zeros(rsv - (HEADER_SIZE + |tab|)) + Zeros(16) + strings + Zeros(end - (rsv + 16 + |strings|)) ==
            h + Body(tab, strings)
  {
    hide Align, Zeros;
  }

  lemma PropAppended(evs: seq<Event>, names: seq<Name>, name: Name, data: seq<Byte>)
    requires AllOk(evs, names) && name in names && |data| < WORD && OffsetOf(names, name) < WORD
    ensures var evs' := evs + [Prop(name, data)];
            && AllOk(evs', names) && Depth(evs') == Depth(evs)
            && StructBytes(evs', names) == StructBytes(evs, names) + Be32(FDT_PROP) + Be32(|data|)
                                           + Be32(OffsetOf(names, name)) + Padded(data)
  {
    var e := Prop(name, data);
    hide Be32, Padded, OffsetOf, AllOk, StructBytes, Depth;
    AppendEvent(evs, e, names);
    DepthConcat(evs, [e]);
    DepthOne(e);
    var s := StructBytes(evs, names);
    assert s + Bytes(e, names) == s + Be32(FDT_PROP) + Be32(|data|) + Be32(OffsetOf(names, name)) + Padded(data);
  }

  lemma JoinedOne(name: Name)
    ensures Joined([name]) == name + [0]
  {
    var one := [name];
    assert one[..0] == [];
  }

  lemma JoinedNone()
    ensures Joined([]) == []
  {
  }

  lemma BeyondEnd(names: seq<Name>, i: nat)
    requires i <= |names| && |Joined(names[..i])| >= |Joined(names)|
    ensures i == |names|
  {
    if i < |names| {
      assert names == names[..i] + names[i..];
      JoinedConcat(names[..i], names[i..]);
      JoinedPositive(names[i..]);
    }
  }

  lemma JoinedPositive(names: seq<Name>)
    requires |names| > 0
    ensures |Joined(names)| > 0
  {
  }

  lemma NewName(names: seq<Name>, name: Name)
    requires name !in names
    ensures Joined(names + [name]) == Joined(names) + name + [0] && OffsetOf(names + [name], name) == |Joined(names)|
  {
    assert (names + [name])[..|names|] == names;
  }

  lemma OffsetSmall(names: seq<Name>, names': seq<Name>, name: Name)
    requires |Joined(names)| < WORD && NamesOk(names)
    requires names' == if name in names then names else names + [name]
    requires name in names'
    ensures OffsetOf(names', name) < WORD
  {
    if name in names {
      NameAt(names, name);
    } else {
      NewName(names, name);
    }
  }

  /** The cells of a property are read back as words. */
  lemma {:induction false} CellBack(cells: seq<nat>, i: nat)
    requires i < |cells| && cells[i] < WORD
    ensures |Cells(cells)| == 4 * |cells| && Read32(Cells(cells)[4 * i..]) == cells[i]
    decreases |cells|
  {
    CellsLength(cells);
    var front, last := cells[..|cells| - 1], cells[|cells| - 1];
    CellsLength(front);
    assert Cells(cells) == Cells(front) + Be32(last);
    hide Cells, Be32, Read32;
    if i < |front| {
      CellBack(front, i);
      FirstFour(Cells(front)[4 * i..], Be32(last));
      assert Cells(cells)[4 * i..] == Cells(front)[4 * i..] + Be32(last);
    } else {
      Read32Be32(last, []);
      assert Cells(cells)[4 * i..] == Be32(last) + [];
    }
  }

  lemma FirstFour(a: seq<Byte>, b: seq<Byte>)
    requires |a| >= 4
    ensures Read32(a + b) == Read32(a)
  {
  }
}
