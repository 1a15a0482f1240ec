/**
 The structure block: the tag scanner of fdt.c as a function, the sequence of items that a
 block of bytes spells, and the events those items stand for.
 */
module Lexer {
  import opened Bytes
  import opened DeviceTree

  const FDT_BEGIN_NODE := 1
  const FDT_END_NODE := 2
  const FDT_PROP := 3
  const FDT_NOP := 4
  const FDT_END := 9

  const FDT_ERR_NOTFOUND := 1
  const FDT_ERR_EXISTS := 2
  const FDT_ERR_NOSPACE := 3
  const FDT_ERR_BADOFFSET := 4
  const FDT_ERR_BADSTATE := 7
  const FDT_ERR_TRUNCATED := 8
  const FDT_ERR_BADMAGIC := 9
  const FDT_ERR_BADVERSION := 10
  const FDT_ERR_BADSTRUCTURE := 11
  const FDT_ERR_BADLAYOUT := 12
  const FDT_ERR_INTERNAL := 13
  const FDT_ERR_BADVALUE := 15
  const FDT_ERR_BADOVERLAY := 16

  /** What `fdt_next_tag` returns: the tag and, through its pointer, the next offset. */
  datatype Step = Step(tag: nat, next: int)

  /**
   `fdt_next_tag` on a structure block `s`. The advance over a property is computed in
   32 bits, so a length of 0xfffffff4 or more makes it wrap.
   */
  function NextTag(s: seq<Byte>, off: int): Step {
    if off < 0 || off + 4 > |s| then Step(FDT_END, -FDT_ERR_TRUNCATED)
    else
      var tag := Ld32(s, off);
      if tag == FDT_BEGIN_NODE then
        var z := NulAt(s, off + 4);
        if z == |s| then Step(FDT_END, -FDT_ERR_BADSTRUCTURE) else Step(tag, Align4(z + 1))
      else if tag == FDT_PROP then
        if off + 8 > |s| then Step(FDT_END, -FDT_ERR_BADSTRUCTURE)
        else
          var advance := Wrap32(12 + Ld32(s, off + 4));
          if off + advance > |s| then Step(FDT_END, -FDT_ERR_BADSTRUCTURE)
          else Step(tag, Align4(off + advance))
      else if tag == FDT_END || tag == FDT_END_NODE || tag == FDT_NOP then Step(tag, Align4(off + 4))
      else Step(FDT_END, -FDT_ERR_BADSTRUCTURE)
  }

  predicate IsPropAt(s: seq<Byte>, off: int) {
    0 <= off && off + 8 <= |s| && Ld32(s, off) == FDT_PROP
  }

  /**
   From an aligned offset the scanner lands on an aligned offset within the block, and it moves
   forward exactly when the tag is not a property of length 0xfffffff4.
   */
  lemma NextTagProgress(s: seq<Byte>, off: nat)
    requires off % 4 == 0 && NextTag(s, off).next >= 0
    ensures off <= NextTag(s, off).next <= Align4(|s|) && NextTag(s, off).next % 4 == 0
    ensures NextTag(s, off).next > off <==> !(IsPropAt(s, off) && Ld32(s, off + 4) == 0xffff_fff4)
  {
    hide Ld32, NulAt, Align4;
    var tag := Ld32(s, off);
    if tag == FDT_PROP {
      var len := Ld32(s, off + 4);
      assert Wrap32(12 + len) == if len >= 0xffff_fff4 then len - 0xffff_fff4 else 12 + len;
      AlignBelow(off + Wrap32(12 + len), |s|);
    } else if tag == FDT_BEGIN_NODE {
      AlignBelow(NulAt(s, off + 4) + 1, |s|);
    } else {
      AlignBelow(off + 4, |s|);
    }
  }

  lemma AlignBelow(n: nat, bound: nat)
    requires n <= bound
    ensures Align4(n) <= Align4(bound) && (n % 4 == 0 ==> Align4(n) == n)
  {
    hide Align4;
    var a, c := Align4(n) / 4, Align4(bound) / 4;
    assert Align4(n) == 4 * a && Align4(bound) == 4 * c;
    if n % 4 == 0 { assert n == 4 * (n / 4); }
  }

  /** A property is skipped whole exactly when its length does not wrap the 32-bit sum. */
  lemma PropSkippedWhole(s: seq<Byte>, off: nat)
    requires IsPropAt(s, off) && NextTag(s, off).next >= 0
    ensures NextTag(s, off).next >= off + 12 + Ld32(s, off + 4) <==> Ld32(s, off + 4) < 0xffff_fff4
  {
    var len := Ld32(s, off + 4);
    assert Wrap32(12 + len) == if len >= 0xffff_fff4 then len - 0xffff_fff4 else 12 + len;
  }

  /** A length that wraps: the scanner stays where it is for ever. */
  lemma StuckScanner()
    ensures var s := Be32(FDT_PROP) + Be32(0xffff_fff4) + Be32(0);
            NextTag(s, 0) == Step(FDT_PROP, 0)
  {
    hide Be32, Ld32;
    var s := Be32(FDT_PROP) + Be32(0xffff_fff4) + Be32(0);
    assert s[0..4] == Be32(FDT_PROP) && s[4..8] == Be32(0xffff_fff4);
    LoadStored(s, 0, FDT_PROP);
    LoadStored(s, 4, 0xffff_fff4);
  }

  // ------------------------------------------------------------------ items

  datatype Item = Begin(name: seq<Byte>) | EndNode | Data(nameoff: U32, value: seq<Byte>) | Nop | EndTree
  {
    function Tag(): nat {
      match this
      case Begin(_) => FDT_BEGIN_NODE
      case EndNode => FDT_END_NODE
      case Data(_, _) => FDT_PROP
      case Nop => FDT_NOP
      case EndTree => FDT_END
    }

    /** Bytes the item takes in the structure block. */
    function Size(): (n: nat)
      ensures n >= 4 && n % 4 == 0
    {
      match this
      case Begin(name) => 4 + Align4(|name| + 1)
      case Data(_, value) => 12 + Align4(|value|)
      case _ => 4
    }
  }

  /** `s` starts with the bytes of `it`; what fills the space up to the next multiple of four is free. */
  predicate Spells(s: seq<Byte>, it: Item) {
    it.Size() <= |s| && Ld32(s, 0) == it.Tag() &&
    match it
    case Begin(name) => NulFree(name) && s[4..4 + |name|] == name && s[4 + |name|] == 0
    case Data(nameoff, value) =>
      Ld32(s, 4) == |value| < 0xffff_fff4 && Ld32(s, 8) == nameoff && s[12..12 + |value|] == value
    case _ => true
  }

  /** The item at the front of `s`. */
  function First(s: seq<Byte>): (r: Option<Item>)
    ensures r.Some? ==> r.value.Size() <= |s|
  {
    if |s| < 4 then None
    else
      var tag := Ld32(s, 0);
      if tag == FDT_BEGIN_NODE then
        var z := NulAt(s, 4);
        if z < |s| && Align4(z + 1) <= |s| then Some(Begin(s[4..z])) else None
      else if tag == FDT_PROP then
        if |s| < 12 then None
        else
          var len := Ld32(s, 4);
          if len < 0xffff_fff4 && 12 + Align4(len) <= |s| then Some(Data(Ld32(s, 8), s[12..12 + len])) else None
      else if tag == FDT_END then Some(EndTree)
      else if tag == FDT_END_NODE then Some(EndNode)
      else if tag == FDT_NOP then Some(Nop)
      else None
  }

  lemma FirstSpells(s: seq<Byte>)
    requires First(s).Some?
    ensures Spells(s, First(s).value)
  {
  }

  /** At most one item is spelled at the front of a sequence. */
  lemma FirstIs(s: seq<Byte>, it: Item)
    requires Spells(s, it)
    ensures First(s) == Some(it)
  {
    hide Ld32, NulAt;
    if it.Begin? {
      NulAtIs(s, 4, 4 + |it.name|);
    }
  }

  /** Only the item's own bytes matter. */
  lemma SpellsSame(s: seq<Byte>, t: seq<Byte>, it: Item)
    requires Spells(s, it) && it.Size() <= |t| && s[..it.Size()] == t[..it.Size()]
    ensures Spells(t, it)
  {
    var n := it.Size();
    var p := s[..n];
    assert forall i :: 0 <= i < n ==> s[i] == p[i] == t[i];
    assert s[0..4] == p[0..4] == t[0..4];
    LoadSame(s, 0, t, 0);
    match it
    case Begin(name) =>
      assert s[4..4 + |name|] == p[4..4 + |name|] == t[4..4 + |name|];
    case Data(nameoff, value) =>
      assert s[4..8] == p[4..8] == t[4..8];
      LoadSame(s, 4, t, 4);
      assert s[8..12] == p[8..12] == t[8..12];
      LoadSame(s, 8, t, 8);
      assert s[12..12 + |value|] == p[12..12 + |value|] == t[12..12 + |value|];
    case _ =>
  }

  /** The items that `s` spells from its first to its last byte. */
  function Lex(s: seq<Byte>): (r: Option<seq<Item>>)
    decreases |s|
  {
    if s == [] then Some([])
    else
      var it := First(s);
      if it.None? then None
      else
        var rest := Lex(s[it.value.Size()..]);
        if rest.None? then None else Some([it.value] + rest.value)
  }

  lemma FirstOfConcat(a: seq<Byte>, b: seq<Byte>)
    requires First(a).Some?
    ensures First(a + b) == First(a)
  {
    hide First;
    var it := First(a).value;
    FirstSpells(a);
    assert a[..it.Size()] == (a + b)[..it.Size()];
    SpellsSame(a, a + b, it);
    FirstIs(a + b, it);
  }

  /** Spelling is compositional. */
  lemma {:induction false} LexConcat(a: seq<Byte>, b: seq<Byte>)
    requires Lex(a).Some?
    ensures Lex(a + b) == if Lex(b).Some? then Some(Lex(a).value + Lex(b).value) else None
    decreases |a|
  {
    hide First;
    if a == [] {
      assert a + b == b;
      if Lex(b).Some? { assert [] + Lex(b).value == Lex(b).value; }
    } else {
      FirstOfConcat(a, b);
      var it := First(a).value;
      var n := it.Size();
      assert a + b != [] && (a + b)[n..] == a[n..] + b;
      LexConcat(a[n..], b);
      if Lex(b).Some? {
        Assoc([it], Lex(a[n..]).value, Lex(b).value);
      }
    }
  }

  lemma LexOne(s: seq<Byte>, it: Item)
    requires Spells(s, it) && |s| == it.Size()
    ensures Lex(s) == Some([it])
  {
    hide First;
    FirstIs(s, it);
    var rest := s[it.Size()..];
    assert s != [] && rest == [] && [it] + [] == [it];
    assert Lex(rest) == Some([]);
  }

  lemma {:induction false} LexAligned(s: seq<Byte>)
    requires Lex(s).Some?
    ensures |s| % 4 == 0
    decreases |s|
  {
    hide First, Item.Size;
    if s != [] {
      var n := First(s).value.Size();
      LexAligned(s[n..]);
      Mod4Add(n, |s[n..]|);
    }
  }

  lemma Mod4Add(a: int, b: int)
    requires a % 4 == 0 && b % 4 == 0
    ensures (a + b) % 4 == 0
  {
  }

  /** Where an item is spelled, the scanner reads its tag and steps over it. */
  lemma NextTagSpelled(s: seq<Byte>, off: nat, it: Item)
    requires off <= |s| && off % 4 == 0 && Spells(s[off..], it)
    ensures NextTag(s, off) == Step(it.Tag(), off + it.Size())
  {
    hide Ld32, NulAt, Align4;
    var r := s[off..];
    assert s[off..off + 4] == r[0..4];
    LoadSame(s, off, r, 0);
    AlignedSame(off + 4);
    match it
    case Begin(name) =>
      assert s[off + 4..off + 4 + |name|] == r[4..4 + |name|];
      NulAtIs(s, off + 4, off + 4 + |name|);
      AlignShift(off + 4, |name| + 1);
    case Data(nameoff, value) =>
      assert s[off + 4..off + 8] == r[4..8];
      LoadSame(s, off + 4, r, 4);
      assert Wrap32(12 + |value|) == 12 + |value|;
      AlignShift(off + 12, |value|);
    case _ =>
  }

  lemma AlignedSame(a: nat)
    requires a % 4 == 0
    ensures Align4(a) == a
  {
  }

  lemma AlignShift(a: nat, b: nat)
    requires a % 4 == 0
    ensures Align4(a + b) == a + Align4(b)
  {
  }

  // ----------------------------------------------------------------- events

  /** The NUL-terminated string at `off` of the strings block (`fdt_get_string`). */
  function Str(ss: seq<Byte>, off: nat): (r: Option<seq<Byte>>)
    ensures r.Some? ==> NulFree(r.value)
  {
    if off < |ss| && NulAt(ss, off) < |ss| then Some(ss[off..NulAt(ss, off)]) else None
  }

  lemma StrIs(ss: seq<Byte>, off: nat, name: seq<Byte>)
    requires off + |name| < |ss| && NulFree(name) && ss[off..off + |name|] == name && ss[off + |name|] == 0
    ensures Str(ss, off) == Some(name)
  {
    NulAtIs(ss, off, off + |name|);
  }

  /** Appending strings leaves every offset with the string it had. */
  lemma StrGrow(ss: seq<Byte>, more: seq<Byte>, off: nat)
    requires Str(ss, off).Some?
    ensures Str(ss + more, off) == Str(ss, off)
  {
    var z := NulAt(ss, off);
    assert (ss + more)[off..z] == ss[off..z];
    NulAtIs(ss + more, off, z);
  }

  /** The event an item stands for: none for a NOP. */
  function EventOf(it: Item, ss: seq<Byte>): seq<Event> {
    match it
    case Begin(name) => [Enter(name)]
    case EndNode => [Leave]
    case Data(nameoff, value) =>
      (match Str(ss, nameoff) case Some(name) => [Set(name, value)] case None => [Dangling])
    case Nop => []
    case EndTree => [Finish]
  }

  function Events(items: seq<Item>, ss: seq<Byte>): seq<Event> {
    if items == [] then [] else EventOf(items[0], ss) + Events(items[1..], ss)
  }

  lemma {:induction false} EventsConcat(a: seq<Item>, b: seq<Item>, ss: seq<Byte>)
    ensures Events(a + b, ss) == Events(a, ss) + Events(b, ss)
  {
    hide EventOf;
    if a == [] {
      assert a + b == b;
    } else {
      assert (a + b)[1..] == a[1..] + b;
      EventsConcat(a[1..], b, ss);
      Assoc(EventOf(a[0], ss), Events(a[1..], ss), Events(b, ss));
    }
  }

  lemma EventsOne(it: Item, ss: seq<Byte>)
    ensures Events([it], ss) == EventOf(it, ss)
  {
    hide EventOf;
    assert [it][1..] == [];
  }

  lemma {:induction false} EventsGrow(items: seq<Item>, ss: seq<Byte>, more: seq<Byte>)
    requires Dangling !in Events(items, ss)
    ensures Events(items, ss + more) == Events(items, ss)
  {
    hide Str;
    if items != [] {
      var e := EventOf(items[0], ss);
      assert forall x :: x in e || x in Events(items[1..], ss) ==> x in Events(items, ss);
      assert Dangling !in e;
      if items[0].Data? {
        StrGrow(ss, more, items[0].nameoff);
      }
      EventsGrow(items[1..], ss, more);
    }
  }

  // ------------------------------------------------------------------ marks

  /**
   Offset `o` of the structure block `st` lies between two items, with the first `e` of the
   events `es` before it and the others after it.
   */
  predicate Mark(st: seq<Byte>, ss: seq<Byte>, es: seq<Event>, o: int, e: int) {
    0 <= o <= |st| && 0 <= e <= |es| &&
    Lex(st[..o]).Some? && Events(Lex(st[..o]).value, ss) == es[..e] &&
    Lex(st[o..]).Some? && Events(Lex(st[o..]).value, ss) == es[e..]
  }

  /** The item at a mark. */
  function ItemAt(st: seq<Byte>, o: nat): (it: Item)
    requires o < |st| && First(st[o..]).Some?
  {
    First(st[o..]).value
  }

  /** From a mark before the end the scanner reads the item there and reaches the next mark. */
  lemma MarkStep(st: seq<Byte>, ss: seq<Byte>, es: seq<Event>, o: int, e: int)
    requires Mark(st, ss, es, o, e) && o < |st|
    ensures First(st[o..]).Some?
    ensures var it := ItemAt(st, o);
            Spells(st[o..], it) && o % 4 == 0 &&
            NextTag(st, o) == Step(it.Tag(), o + it.Size()) &&
            Mark(st, ss, es, o + it.Size(), e + |EventOf(it, ss)|) &&
            es[e..e + |EventOf(it, ss)|] == EventOf(it, ss)
  {
    hide First, Spells, EventOf, NextTag;
    var rest := st[o..];
    assert rest != [];
    var it := First(rest).value;
    var n := it.Size();
    FirstSpells(rest);
    LexAligned(st[..o]);
    assert |st[..o]| == o;
    NextTagSpelled(st, o, it);
    assert st[o + n..] == rest[n..];
    var todo := Lex(rest).value;
    assert todo == [it] + Lex(rest[n..]).value;
    assert todo[0] == it && todo[1..] == Lex(rest[n..]).value;
    var v := EventOf(it, ss);
    SliceStep(es, e, v, Events(todo[1..], ss));
    MarkStepLeft(st, o, it);
    EventsConcat(Lex(st[..o]).value, [it], ss);
    EventsOne(it, ss);
  }

  lemma SliceStep(es: seq<Event>, e: nat, v: seq<Event>, rest: seq<Event>)
    requires e <= |es| && es[e..] == v + rest
    ensures e + |v| <= |es| && es[e..e + |v|] == v && es[e + |v|..] == rest && es[..e + |v|] == es[..e] + v
  {
    SuffixFront(es, e, |v|);
    SuffixSuffix(es, e, |v|);
    ThreeParts(es[..e + |v|], e, e + |v|);
    PrefixFront(es, e + |v|, e);
    PrefixSlice(es, e + |v|, e, e + |v|);
    assert (v + rest)[..|v|] == v && (v + rest)[|v|..] == rest;
  }

  lemma MarkStepLeft(st: seq<Byte>, o: nat, it: Item)
    requires o <= |st| && Lex(st[..o]).Some? && Spells(st[o..], it)
    ensures o + it.Size() <= |st|
    ensures Lex(st[..o + it.Size()]) == Some(Lex(st[..o]).value + [it])
  {
    hide First, Lex;
    var n := it.Size();
    assert n <= |st[o..]| by { SpellsSize(st[o..], it); }
    var mid := st[o..o + n];
    SuffixFront(st, o, n);
    assert mid[..n] == mid;
    SpellsSame(st[o..], mid, it);
    LexOne(mid, it);
    assert st[..o + n] == st[..o] + mid;
    LexConcat(st[..o], mid);
  }

  lemma SpellsSize(s: seq<Byte>, it: Item)
    requires Spells(s, it)
    ensures it.Size() <= |s|
  {
  }

  /** A block that spells its items has a mark at each end. */
  lemma MarkEnds(st: seq<Byte>, ss: seq<Byte>)
    requires Lex(st).Some?
    ensures var es := Events(Lex(st).value, ss);
            Mark(st, ss, es, 0, 0) && Mark(st, ss, es, |st|, |es|)
  {
    hide First;
    assert st[..0] == [] && st[0..] == st && st[..|st|] == st && st[|st|..] == [];
    var es := Events(Lex(st).value, ss);
    assert es[0..] == es && es[..|es|] == es && es[..0] == [] && es[|es|..] == [];
    assert Lex([]) == Some([]);
  }

  /** What follows a spelled prefix is spelled too. */
  lemma MarkAt(st: seq<Byte>, ss: seq<Byte>, o: nat)
    requires Lex(st).Some? && o <= |st| && Lex(st[..o]).Some?
    ensures var es := Events(Lex(st).value, ss);
            Mark(st, ss, es, o, |Events(Lex(st[..o]).value, ss)|)
  {
    hide First, Lex, Events;
    assert st == st[..o] + st[o..];
    LexConcat(st[..o], st[o..]);
    EventsConcat(Lex(st[..o]).value, Lex(st[o..]).value, ss);
  }

  /** Replacing a stretch between two marks replaces its events. */
  lemma MarkReplace(st: seq<Byte>, ss: seq<Byte>, es: seq<Event>, o: int, e: int, o2: int, e2: int,
                    st': seq<Byte>, p2: nat, items: seq<Item>)
    requires Mark(st, ss, es, o, e) && Mark(st, ss, es, o2, e2) && o <= o2 && e <= e2
    requires o <= p2 <= |st'| && st'[..o] == st[..o] && st'[p2..] == st[o2..]
    requires Lex(st'[o..p2]) == Some(items)
    ensures var es' := es[..e] + Events(items, ss) + es[e2..];
            Lex(st').Some? && Events(Lex(st').value, ss) == es' &&
            Mark(st', ss, es', o, e) && Mark(st', ss, es', p2, e + |Events(items, ss)|)
  {
    hide First, Lex, Events;
    var a, x, c := st'[..o], st'[o..p2], st'[p2..];
    LexThree(a, x, c, ss);
    ThreeParts(st', o, p2);
    SliceReplace(es[..e], Events(items, ss), es[e2..]);
  }

  lemma LexThree(a: seq<Byte>, x: seq<Byte>, c: seq<Byte>, ss: seq<Byte>)
    requires Lex(a).Some? && Lex(x).Some? && Lex(c).Some?
    ensures Lex(a + x + c).Some? && Lex(x + c).Some? && Lex(a + x).Some?
    ensures var va, vx, vc := Events(Lex(a).value, ss), Events(Lex(x).value, ss), Events(Lex(c).value, ss);
            Events(Lex(a + x + c).value, ss) == va + vx + vc &&
            Events(Lex(x + c).value, ss) == vx + vc && Events(Lex(a + x).value, ss) == va + vx
  {
    hide First, Lex, Events;
    LexConcat(a, x);
    LexConcat(a + x, c);
    LexConcat(x, c);
    EventsConcat(Lex(a).value, Lex(x).value, ss);
    EventsConcat(Lex(a + x).value, Lex(c).value, ss);
    EventsConcat(Lex(x).value, Lex(c).value, ss);
  }

  lemma SliceReplace(a: seq<Event>, v: seq<Event>, c: seq<Event>)
    ensures var s := a + v + c;
            s[..|a|] == a && s[|a|..] == v + c && s[..|a| + |v|] == a + v && s[|a| + |v|..] == c
  {
  }
}
