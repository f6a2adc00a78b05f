/**
 * Flattened devicetrees (sections 5.2 to 5.6 of the Devicetree Specification): trees, their bytes,
 * and a reference parser that knows nothing of how the bytes were written.
 */
module FdtFormat {
  import opened Basics

  type Byte = b: nat | b < 256

  type Name = seq<Byte>

  // ---- trees and events --------------------------------------------------------------------

  /** A node holds properties and nodes, in the order they were given. */
  datatype Node = Node(name: Name, items: seq<Item>)
  datatype Item = Property(name: Name, data: seq<Byte>) | Child(node: Node)

  /** The calls that write a tree. */
  datatype Event = BeginNode(name: Name) | Prop(name: Name, data: seq<Byte>) | EndNode

  function Events(n: Node): seq<Event>
    decreases n, 1
  {
    [BeginNode(n.name)] + ItemEvents(n, n.items) + [EndNode]
  }

  function ItemEvents(ghost n: Node, items: seq<Item>): seq<Event>
    requires forall i :: 0 <= i < |items| ==> items[i] in n.items
    decreases n, 0, |items|
  {
    if |items| == 0 then []
    else (match items[0]
          case Property(name, data) => [Prop(name, data)]
          case Child(c) => Events(c)) + ItemEvents(n, items[1..])
  }

  /** Items up to the end of the node they belong to, and the events after it. */
  function Items(evs: seq<Event>): (r: Option<(seq<Item>, seq<Event>)>)
    ensures r.Some? ==> |r.value.1| < |evs|
    decreases |evs|
  {
    if |evs| == 0 then None
    else
      match evs[0]
      case EndNode => Some(([], evs[1..]))
      case Prop(name, data) =>
        var rest := Items(evs[1..]);
        if rest.None? then None else Some(([Property(name, data)] + rest.value.0, rest.value.1))
      case BeginNode(name) =>
        var inner := Items(evs[1..]);
        if inner.None? then None
        else
          var rest := Items(inner.value.1);
          if rest.None? then None else Some(([Child(Node(name, inner.value.0))] + rest.value.0, rest.value.1))
  }

  /** The tree an event sequence describes. */
  function TreeOf(evs: seq<Event>): Option<Node> {
    if |evs| == 0 || !evs[0].BeginNode? then None
    else
      var r := Items(evs[1..]);
      if r.None? || r.value.1 != [] then None else Some(Node(evs[0].name, r.value.0))
  }

  lemma ItemsProperty(name: Name, data: seq<Byte>, evs: seq<Event>, items: seq<Item>, rest: seq<Event>)
    requires Items(evs) == Some((items, rest))
    ensures Items([Prop(name, data)] + evs) == Some(([Property(name, data)] + items, rest))
  {
    assert ([Prop(name, data)] + evs)[1..] == evs;
  }

  lemma ItemsChild(c: Node, evs: seq<Event>, tail: seq<Event>, items: seq<Item>, rest: seq<Event>)
    requires Items(evs) == Some((c.items, tail)) && Items(tail) == Some((items, rest))
    ensures Items([BeginNode(c.name)] + evs) == Some(([Child(c)] + items, rest))
  {
    assert ([BeginNode(c.name)] + evs)[1..] == evs;
  }

  lemma {:induction false} ItemsBack(n: Node, items: seq<Item>, rest: seq<Event>)
    requires forall i :: 0 <= i < |items| ==> items[i] in n.items
    ensures Items(ItemEvents(n, items) + [EndNode] + rest) == Some((items, rest))
    decreases n, 0, |items|
  {
    if |items| == 0 {
      assert ItemEvents(n, items) + [EndNode] + rest == [EndNode] + rest;
      assert ([EndNode] + rest)[1..] == rest;
    } else {
      assert items[0] in n.items;
      var later := ItemEvents(n, items[1..]);
      var tail := later + [EndNode] + rest;
      ItemsBack(n, items[1..], rest);
      assert [items[0]] + items[1..] == items;
      match items[0]
      case Property(name, data) =>
        assert ItemEvents(n, items) == [Prop(name, data)] + later;
        hide Items, ItemEvents;
        assert [Prop(name, data)] + later + [EndNode] + rest == [Prop(name, data)] + tail;
        ItemsProperty(name, data, tail, items[1..], rest);
      case Child(c) =>
        var inner := ItemEvents(c, c.items);
        ItemsBack(c, c.items, tail);
        assert ItemEvents(n, items) == [BeginNode(c.name)] + inner + [EndNode] + later;
        hide Items, ItemEvents;
        Regroup(BeginNode(c.name), inner, later, rest);
        ItemsChild(c, inner + [EndNode] + tail, tail, items[1..], rest);
    }
  }

  lemma Regroup(b: Event, inner: seq<Event>, later: seq<Event>, rest: seq<Event>)
    ensures [b] + inner + [EndNode] + later + [EndNode] + rest == [b] + (inner + [EndNode] + (later + [EndNode] + rest))
  {
  }

  /** A tree is given back by its events. */
  lemma TreeBack(n: Node)
    ensures TreeOf(Events(n)) == Some(n)
  {
    ItemsBack(n, n.items, []);
    assert Events(n)[1..] == ItemEvents(n, n.items) + [EndNode] + [];
  }

  // ---- bytes -------------------------------------------------------------------------------

  function Be32(v: nat): (r: seq<Byte>)
    ensures |r| == 4
  {
    [v / 0x100_0000 % 256, v / 0x1_0000 % 256, v / 0x100 % 256, v % 256]
  }

  function Read32(s: seq<Byte>): nat
    requires |s| >= 4
  {
    var a: nat, b: nat, c: nat, d: nat := s[0], s[1], s[2], s[3];
    a * 0x100_0000 + b * 0x1_0000 + c * 0x100 + d
  }

  lemma Read32Be32(v: nat, rest: seq<Byte>)
    requires v < WORD
    ensures Read32(Be32(v) + rest) == v
  {
    var q := v / 0x100;
    var p := q / 0x100;
    assert v / 0x1_0000 == p && v / 0x100_0000 == p / 0x100;
    assert v == q * 0x100 + v % 256 && q == p * 0x100 + q % 256 && p == p / 0x100 * 0x100 + p % 256;
  }

  function Zeros(n: nat): (r: seq<Byte>)
    ensures |r| == n && forall i :: 0 <= i < n ==> r[i] == 0
  {
    seq(n, _ => 0)
  }

  function Align(n: nat, a: nat): nat
    requires a > 0
  {
    (n + a - 1) / a * a
  }

  /** Bytes filled up with zeros to a multiple of four. */
  function Padded(s: seq<Byte>): (r: seq<Byte>)
    ensures |r| == Align(|s|, 4) && s <= r && forall i :: |s| <= i < |r| ==> r[i] == 0
  {
    s + Zeros(Align(|s|, 4) - |s|)
  }

  predicate NulFree(s: Name) {
    forall i :: 0 <= i < |s| ==> s[i] != 0
  }

  /** The bytes before the first zero. */
  function CString(s: seq<Byte>): (r: Option<Name>)
    ensures r.Some? ==> |r.value| < |s|
  {
    if |s| == 0 then None
    else if s[0] == 0 then Some([])
    else
      var r := CString(s[1..]);
      if r.None? then None else Some([s[0]] + r.value)
  }

  lemma {:induction false} CStringOf(name: Name, rest: seq<Byte>)
    requires NulFree(name)
    ensures CString(name + [0] + rest) == Some(name)
  {
    if |name| == 0 {
      assert name + [0] + rest == [0] + rest;
    } else {
      CStringOf(name[1..], rest);
      assert (name + [0] + rest)[1..] == name[1..] + [0] + rest;
      assert [name[0]] + name[1..] == name;
    }
  }

  // ---- the table of names ----------------------------------------------------------------------

  /** Names one after the other, each with its terminator. */
  function Joined(names: seq<Name>): seq<Byte> {
    if |names| == 0 then [] else Joined(names[..|names| - 1]) + names[|names| - 1] + [0]
  }

  /** Where a name starts. */
  function OffsetOf(names: seq<Name>, name: Name): nat
    requires name in names
  {
    var front := names[..|names| - 1];
    assert names == front + [names[|names| - 1]];
    if name in front then OffsetOf(front, name) else |Joined(front)|
  }

  lemma {:induction false} NameAt(names: seq<Name>, name: Name)
    requires name in names && (forall i :: 0 <= i < |names| ==> NulFree(names[i]))
    ensures OffsetOf(names, name) < |Joined(names)|
    ensures CString(Joined(names)[OffsetOf(names, name)..]) == Some(name)
    decreases |names|
  {
    var front, last := names[..|names| - 1], names[|names| - 1];
    assert names == front + [last];
    var table := Joined(names);
    assert table == Joined(front) + last + [0];
    if name in front {
      NameAt(front, name);
      var o := OffsetOf(front, name);
      assert table[o..] == Joined(front)[o..] + (last + [0]);
      CStringPrefix(Joined(front)[o..], last + [0]);
    } else {
      assert table[|Joined(front)|..] == last + [0] + [];
      CStringOf(last, []);
    }
  }

  /** A string that ends does not depend on what follows. */
  lemma {:induction false} CStringPrefix(s: seq<Byte>, more: seq<Byte>)
    requires CString(s).Some?
    ensures CString(s + more) == CString(s)
  {
    if s[0] != 0 {
      CStringPrefix(s[1..], more);
      assert (s + more)[1..] == s[1..] + more;
    }
  }

  /** Names keep their offsets when the table grows. */
  lemma OffsetKept(names: seq<Name>, more: Name, name: Name)
    requires name in names
    ensures name in names + [more] && OffsetOf(names + [more], name) == OffsetOf(names, name)
  {
    assert (names + [more])[..|names|] == names;
  }

  // ---- the structure block -----------------------------------------------------------------------

  const FDT_BEGIN_NODE: nat := 1
  const FDT_END_NODE: nat := 2
  const FDT_PROP: nat := 3
  const FDT_END: nat := 9

  predicate EventOk(e: Event, names: seq<Name>) {
    match e
    case BeginNode(name) => NulFree(name)
    case Prop(name, data) => name in names && |data| < WORD && OffsetOf(names, name) < WORD
    case EndNode => true
  }

  function Bytes(e: Event, names: seq<Name>): seq<Byte>
    requires EventOk(e, names)
  {
    match e
    case BeginNode(name) => Be32(FDT_BEGIN_NODE) + Padded(name + [0])
    case Prop(name, data) => Be32(FDT_PROP) + Be32(|data|) + Be32(OffsetOf(names, name)) + Padded(data)
    case EndNode => Be32(FDT_END_NODE)
  }

  predicate AllOk(evs: seq<Event>, names: seq<Name>) {
    forall i :: 0 <= i < |evs| ==> EventOk(evs[i], names)
  }

  function StructBytes(evs: seq<Event>, names: seq<Name>): seq<Byte>
    requires AllOk(evs, names)
  {
    if |evs| == 0 then [] else StructBytes(evs[..|evs| - 1], names) + Bytes(evs[|evs| - 1], names)
  }

  /** The reference parser: events up to FDT_END. */
  function Parse(s: seq<Byte>, strings: seq<Byte>): Option<seq<Event>>
    decreases |s|
  {
    if |s| < 4 then None
    else
      var token, rest := Read32(s), s[4..];
      if token == 9 then Some([])
      else if token == 2 then Prepend(EndNode, Parse(rest, strings))
      else if token == 1 then
        var name := CString(rest);
        if name.None? || |rest| < Align(|name.value| + 1, 4) then None
        else Prepend(BeginNode(name.value), Parse(rest[Align(|name.value| + 1, 4)..], strings))
      else if token == 3 then
        if |rest| < 8 then None
        else
          var len, off, data := Read32(rest), Read32(rest[4..]), rest[8..];
          var name := if off < |strings| then CString(strings[off..]) else None;
          if name.None? || |data| < Align(len, 4) then None
          else Prepend(Prop(name.value, data[..len]), Parse(data[Align(len, 4)..], strings))
      else None
  }

  function Prepend(e: Event, r: Option<seq<Event>>): Option<seq<Event>> {
    if r.None? then None else Some([e] + r.value)
  }

  // ---- the parser undoes the encoding ----------------------------------------------------------------

  lemma {:induction false} StructCons(e: Event, evs: seq<Event>, names: seq<Name>)
    requires EventOk(e, names) && AllOk(evs, names)
    ensures AllOk([e] + evs, names)
    ensures StructBytes([e] + evs, names) == Bytes(e, names) + StructBytes(evs, names)
    decreases |evs|
  {
    hide EventOk, Bytes;
    var all := [e] + evs;
    assert AllOk(all, names);
    if |evs| == 0 {
      assert all[..0] == [];
    } else {
      var front := evs[..|evs| - 1];
      StructCons(e, front, names);
      assert all[..|all| - 1] == [e] + front;
    }
  }

  /** A word, then the rest. */
  lemma Token(v: nat, rest: seq<Byte>)
    requires v < WORD
    ensures |Be32(v) + rest| >= 4 && Read32(Be32(v) + rest) == v && (Be32(v) + rest)[4..] == rest
  {
    Read32Be32(v, rest);
  }

  lemma ParseBegin(name: Name, rest: seq<Byte>, strings: seq<Byte>)
    requires NulFree(name)
    ensures Parse(Be32(FDT_BEGIN_NODE) + Padded(name + [0]) + rest, strings) == Prepend(BeginNode(name), Parse(rest, strings))
  {
    var pad := Zeros(Align(|name| + 1, 4) - (|name| + 1));
    var body := Padded(name + [0]) + rest;
    assert Be32(FDT_BEGIN_NODE) + Padded(name + [0]) + rest == Be32(FDT_BEGIN_NODE) + body;
    Token(FDT_BEGIN_NODE, body);
    assert body == name + [0] + (pad + rest);
    CStringOf(name, pad + rest);
    assert body[Align(|name| + 1, 4)..] == rest;
    hide CString, Read32, Be32, Align, Padded;
  }

  lemma ParseEnd(rest: seq<Byte>, strings: seq<Byte>)
    ensures Parse(Be32(FDT_END_NODE) + rest, strings) == Prepend(EndNode, Parse(rest, strings))
  {
    Token(FDT_END_NODE, rest);
    hide CString, Read32, Be32, Align, Padded;
  }

  lemma ParseProp(name: Name, off: nat, data: seq<Byte>, rest: seq<Byte>, strings: seq<Byte>)
    requires |data| < WORD && off < WORD && off < |strings| && CString(strings[off..]) == Some(name)
    ensures Parse(Be32(FDT_PROP) + Be32(|data|) + Be32(off) + Padded(data) + rest, strings) ==
            Prepend(Prop(name, data), Parse(rest, strings))
  {
    var body := Padded(data) + rest;
    var afterLen := Be32(off) + body;
    var afterTag := Be32(|data|) + afterLen;
    assert Be32(FDT_PROP) + Be32(|data|) + Be32(off) + Padded(data) + rest == Be32(FDT_PROP) + afterTag;
    Token(FDT_PROP, afterTag);
    Token(|data|, afterLen);
    Token(off, body);
    assert afterTag[8..] == body by {
      assert afterTag[8..] == afterTag[4..][4..];
    }
    assert body[..|data|] == data && body[Align(|data|, 4)..] == rest;
    hide CString, Read32, Be32, Align, Padded;
  }

  lemma ParseEvent(e: Event, names: seq<Name>, rest: seq<Byte>)
    requires EventOk(e, names) && (forall i :: 0 <= i < |names| ==> NulFree(names[i]))
    ensures Parse(Bytes(e, names) + rest, Joined(names)) == Prepend(e, Parse(rest, Joined(names)))
  {
    hide Parse, Be32, Padded, Joined, CString, OffsetOf;
    match e
    case BeginNode(name) => ParseBegin(name, rest, Joined(names));
    case EndNode => ParseEnd(rest, Joined(names));
    case Prop(name, data) =>
      NameAt(names, name);
      ParseProp(name, OffsetOf(names, name), data, rest, Joined(names));
  }

  /** The structure block of a sequence of events parses to that sequence. */
  lemma {:induction false} ParseBack(evs: seq<Event>, names: seq<Name>, rest: seq<Byte>)
    requires AllOk(evs, names) && (forall i :: 0 <= i < |names| ==> NulFree(names[i]))
    ensures Parse(StructBytes(evs, names) + Be32(FDT_END) + rest, Joined(names)) == Some(evs)
    decreases |evs|
  {
    hide EventOk, Be32, Joined, Bytes, NulFree;
    if |evs| == 0 {
      assert StructBytes(evs, names) + Be32(FDT_END) + rest == Be32(FDT_END) + rest;
      Token(FDT_END, rest);
    } else {
      hide Parse, StructBytes;
      var e, later := evs[0], evs[1..];
      assert evs == [e] + later && AllOk(later, names);
      ParseBack(later, names, rest);
      StructCons(e, later, names);
      var tail := StructBytes(later, names) + Be32(FDT_END) + rest;
      assert Bytes(e, names) + StructBytes(later, names) + Be32(FDT_END) + rest == Bytes(e, names) + tail;
      ParseEvent(e, names, tail);
    }
  }

  // ---- the whole blob ---------------------------------------------------------------------------------

  const FDT_MAGIC: nat := 0xd00dfeed
  const HEADER_SIZE: nat := 40

  /** Where the blocks start, and the end, for given sizes of the structure and strings blocks. */
  function ReserveStart(structSize: nat): nat {
    Align(HEADER_SIZE + structSize, 8)
  }

  function StringsStart(structSize: nat): nat {
    ReserveStart(structSize) + 16
  }

  function TotalSize(structSize: nat, stringsSize: nat): nat {
    Align(StringsStart(structSize) + stringsSize, 8)
  }

  function Header(structSize: nat, stringsSize: nat): (r: seq<Byte>)
    ensures |r| == HEADER_SIZE
  {
    Be32(FDT_MAGIC) + Be32(TotalSize(structSize, stringsSize)) + Be32(HEADER_SIZE) + Be32(StringsStart(structSize))
    + Be32(ReserveStart(structSize)) + Be32(17) + Be32(16) + Be32(0) + Be32(stringsSize) + Be32(structSize)
  }

  lemma AlignIs(n: nat)
    ensures n <= Align(n, 8) < n + 8 && Align(n, 8) % 8 == 0
  {
  }

  function Body(tab: seq<Byte>, strings: seq<Byte>): (r: seq<Byte>)
    ensures |r| == TotalSize(|tab|, |strings|) - HEADER_SIZE
  {
    AlignIs(HEADER_SIZE + |tab|);
    AlignIs(StringsStart(|tab|) + |strings|);
    tab + Zeros(ReserveStart(|tab|) - HEADER_SIZE - |tab|) + Zeros(16)
    + strings + Zeros(TotalSize(|tab|, |strings|) - StringsStart(|tab|) - |strings|)
  }

  function Blob(tab: seq<Byte>, strings: seq<Byte>): seq<Byte> {
    Header(|tab|, |strings|) + Body(tab, strings)
  }

  /** Field k of the header. */
  function Field(s: seq<Byte>, k: nat): nat
    requires 4 * k + 4 <= |s|
  {
    Read32(s[4 * k..4 * k + 4])
  }

  /** Blocks lie within totalsize, aligned, one after the other. */
  predicate LayoutOk(s: seq<Byte>) {
    && |s| >= 40 && s[..4] == [0xd0, 0x0d, 0xfe, 0xed] && Field(s, 5) >= 17 && Field(s, 6) <= 17
    && 40 <= Field(s, 2) && Field(s, 2) % 4 == 0 && Field(s, 9) % 4 == 0
    && Field(s, 2) + Field(s, 9) <= Field(s, 4) && Field(s, 4) % 8 == 0
    && Field(s, 4) + 16 <= Field(s, 3) && Field(s, 3) + Field(s, 8) <= Field(s, 1) <= |s|
  }

  /**
   * What is written beside the tree: versions 17 and 16, boot processor 0, the size of the whole, no
   * reserved memory, and zeros between the blocks.
   */
  predicate HeaderIs(s: seq<Byte>)
    requires LayoutOk(s)
  {
    && Field(s, 1) == |s| && Field(s, 5) == 17 && Field(s, 6) == 16 && Field(s, 7) == 0 && Field(s, 2) == 40
    && Field(s, 4) < Field(s, 2) + Field(s, 9) + 8 && Field(s, 3) == Field(s, 4) + 16 && |s| < Field(s, 3) + Field(s, 8) + 8
    && (forall i :: Field(s, 2) + Field(s, 9) <= i < Field(s, 3) ==> s[i] == 0)
    && (forall i :: Field(s, 3) + Field(s, 8) <= i < |s| ==> s[i] == 0)
  }

  /** The reference parser for a whole blob. */
  function ParseBlob(s: seq<Byte>): Option<Node> {
    if !LayoutOk(s) then None
    else
      var evs := Parse(s[Field(s, 2)..Field(s, 2) + Field(s, 9)], s[Field(s, 3)..Field(s, 3) + Field(s, 8)]);
      if evs.None? then None else TreeOf(evs.value)
  }

  /** A field of a header made of ten words. */
  lemma HeaderFields(w: seq<nat>, h: seq<Byte>, rest: seq<Byte>, k: nat)
    requires |w| == 10 && k < 10 && (forall i :: 0 <= i < 10 ==> w[i] < WORD)
    requires h == Be32(w[0]) + Be32(w[1]) + Be32(w[2]) + Be32(w[3]) + Be32(w[4])
                  + Be32(w[5]) + Be32(w[6]) + Be32(w[7]) + Be32(w[8]) + Be32(w[9])
    ensures |h| == 40 && Field(h + rest, k) == w[k]
  {
    hide Be32, Read32;
    assert (h + rest)[4 * k..4 * k + 4] == Be32(w[k]) + [];
    Token(w[k], []);
  }

  lemma BlobFields(tab: seq<Byte>, strings: seq<Byte>)
    requires TotalSize(|tab|, |strings|) < WORD
    ensures var s := Blob(tab, strings);
            && |s| == TotalSize(|tab|, |strings|) >= HEADER_SIZE
            && Field(s, 0) == FDT_MAGIC && Field(s, 1) == |s| && Field(s, 2) == HEADER_SIZE
            && Field(s, 3) == StringsStart(|tab|) && Field(s, 4) == ReserveStart(|tab|)
            && Field(s, 5) == 17 && Field(s, 6) == 16 && Field(s, 7) == 0 && Field(s, 8) == |strings| && Field(s, 9) == |tab|
  {
    AlignIs(HEADER_SIZE + |tab|);
    AlignIs(StringsStart(|tab|) + |strings|);
    var h, b := Header(|tab|, |strings|), Body(tab, strings);
    var w := [FDT_MAGIC, TotalSize(|tab|, |strings|), HEADER_SIZE, StringsStart(|tab|), ReserveStart(|tab|),
              17, 16, 0, |strings|, |tab|];
    assert h == Be32(w[0]) + Be32(w[1]) + Be32(w[2]) + Be32(w[3]) + Be32(w[4])
                + Be32(w[5]) + Be32(w[6]) + Be32(w[7]) + Be32(w[8]) + Be32(w[9]);
    hide Be32, Field, Align, Header, Body;
    forall k: nat | k < 10
      ensures |h| == 40 && Field(h + b, k) == w[k]
    {
      HeaderFields(w, h, b, k);
    }
    assert forall k: nat :: k < 10 ==> Field(h + b, k) == w[k];
  }

  lemma BlobBlocks(tab: seq<Byte>, strings: seq<Byte>)
    ensures var s := Blob(tab, strings);
            && HEADER_SIZE + |tab| <= |s| && s[HEADER_SIZE..HEADER_SIZE + |tab|] == tab
            && StringsStart(|tab|) + |strings| <= |s|
            && s[StringsStart(|tab|)..StringsStart(|tab|) + |strings|] == strings
            && (forall i :: HEADER_SIZE + |tab| <= i < StringsStart(|tab|) ==> s[i] == 0)
            && (forall i :: StringsStart(|tab|) + |strings| <= i < |s| ==> s[i] == 0)
  {
    AlignIs(HEADER_SIZE + |tab|);
    AlignIs(StringsStart(|tab|) + |strings|);
    var h, z, y := Header(|tab|, |strings|), Zeros(ReserveStart(|tab|) - HEADER_SIZE - |tab|) + Zeros(16),
                   Zeros(TotalSize(|tab|, |strings|) - StringsStart(|tab|) - |strings|);
    assert Blob(tab, strings) == h + tab + z + strings + y;
    Slices(h, tab, z, strings, y);
    var s := Blob(tab, strings);
    hide Blob, Header, Align;
    forall i | HEADER_SIZE + |tab| <= i < StringsStart(|tab|)
      ensures s[i] == 0
    {
      assert s[i] == z[i - (HEADER_SIZE + |tab|)];
    }
    forall i | StringsStart(|tab|) + |strings| <= i < |s|
      ensures s[i] == 0
    {
      assert s[i] == y[i - (StringsStart(|tab|) + |strings|)];
    }
  }

  lemma Slices(h: seq<Byte>, a: seq<Byte>, z: seq<Byte>, b: seq<Byte>, y: seq<Byte>)
    ensures var s := h + a + z + b + y;
            && s[|h|..|h| + |a|] == a && s[|h| + |a| + |z|..|h| + |a| + |z| + |b|] == b
            && s[|h| + |a|..|h| + |a| + |z|] == z && s[|h| + |a| + |z| + |b|..] == y
  {
  }

  /**
   * The round trip: the bytes of a tree, with any table that holds its property names, parse to that
   * tree, and their blocks are where the header says.
   */
  lemma BlobBack(n: Node, names: seq<Name>, tab: seq<Byte>)
    requires AllOk(Events(n), names) && (forall i :: 0 <= i < |names| ==> NulFree(names[i]))
    requires tab == StructBytes(Events(n), names) + Be32(FDT_END)
    requires TotalSize(|tab|, |Joined(names)|) < WORD
    ensures LayoutOk(Blob(tab, Joined(names))) && ParseBlob(Blob(tab, Joined(names))) == Some(n)
    ensures HeaderIs(Blob(tab, Joined(names)))
  {
    hide Parse, TreeOf, Events, Be32, StructBytes, Joined, Blob, Field, AllOk, NulFree, LayoutOk, TotalSize, StringsStart, HeaderIs;
    var strings := Joined(names);
    StructLength(Events(n), names);
    BlobLayout(tab, strings);
    BlobFields(tab, strings);
    BlobBlocks(tab, strings);
    ParseBack(Events(n), names, []);
    assert StructBytes(Events(n), names) + Be32(FDT_END) + [] == tab;
    TreeBack(n);
  }

  lemma BlobLayout(tab: seq<Byte>, strings: seq<Byte>)
    requires TotalSize(|tab|, |strings|) < WORD && |tab| % 4 == 0
    ensures LayoutOk(Blob(tab, strings)) && HeaderIs(Blob(tab, strings))
  {
    BlobMagic(tab, strings);
    hide Blob, Field, Align;
    BlobFields(tab, strings);
    BlobBlocks(tab, strings);
    AlignIs(HEADER_SIZE + |tab|);
    AlignIs(StringsStart(|tab|) + |strings|);
  }

  lemma BlobMagic(tab: seq<Byte>, strings: seq<Byte>)
    ensures |Blob(tab, strings)| >= 4 && Blob(tab, strings)[..4] == [0xd0, 0x0d, 0xfe, 0xed]
  {
    hide Header, Body, Be32, TotalSize;
    MagicBytes();
    HeaderMagic(|tab|, |strings|);
    FirstBytes(Header(|tab|, |strings|), Body(tab, strings));
  }

  lemma MagicBytes()
    ensures Be32(FDT_MAGIC) == [0xd0, 0x0d, 0xfe, 0xed]
  {
  }

  lemma HeaderMagic(structSize: nat, stringsSize: nat)
    ensures Header(structSize, stringsSize)[..4] == Be32(FDT_MAGIC)
  {
    hide Be32, TotalSize, StringsStart, ReserveStart;
  }

  lemma FirstBytes(a: seq<Byte>, b: seq<Byte>)
    requires |a| >= 4
    ensures (a + b)[..4] == a[..4]
  {
  }

  /** The structure block consists of words. */
  lemma {:induction false} StructLength(evs: seq<Event>, names: seq<Name>)
    requires AllOk(evs, names)
    ensures |StructBytes(evs, names)| % 4 == 0
    decreases |evs|
  {
    hide EventOk, Bytes;
    if |evs| > 0 {
      StructLength(evs[..|evs| - 1], names);
      EventLength(evs[|evs| - 1], names);
    }
  }

  lemma EventLength(e: Event, names: seq<Name>)
    requires EventOk(e, names)
    ensures |Bytes(e, names)| % 4 == 0
  {
    match e
    case BeginNode(name) => AlignFour(|name| + 1);
    case Prop(name, data) => AlignFour(|data|);
    case EndNode =>
  }

  lemma AlignFour(n: nat)
    ensures Align(n, 4) % 4 == 0
  {
  }
}
