/** The read-only code of fdt.c and fdt_ro.c, on the bytes of a blob. */
module Traverse {
  import opened Bytes
  import opened DeviceTree
  import opened Lexer
  import opened Blob
  import opened Walk

  const INT_MIN := -0x8000_0000

  // ------------------------------------------------------------- bounds check

  /** `fdt_offset_ptr` returns non-NULL; every sum and comparison is on `unsigned int`. */
  predicate OffsetPtr(b: seq<Byte>, offset: int, len: nat) {
    var absoffset := Wrap32(offset + OffStruct(b));
    var end := Wrap32(absoffset + len);
    !(absoffset < Wrap32(offset) || end < absoffset || end > Total(b)) &&
    !(Hdr(b, H_VERSION) >= 17 &&
      (Wrap32(offset + len) < Wrap32(offset) || Wrap32(offset + len) > SizeStruct(b)))
  }

  /** On ordered blocks the check means what it should, for every 32-bit offset and length. */
  lemma OffsetPtrExact(b: seq<Byte>, offset: int, len: nat)
    requires Ordered(b) && Hdr(b, H_VERSION) >= 17
    requires INT_MIN <= offset <= INT_MAX && len < TWO32
    ensures OffsetPtr(b, offset, len) <==> 0 <= offset && offset + len <= SizeStruct(b)
  {
    hide Ld32;
    var o, t, n := OffStruct(b), Total(b), SizeStruct(b);
    assert Wrap32(offset) == if offset < 0 then offset + TWO32 else offset;
    assert Wrap32(offset + o) == if offset + o < 0 then offset + o + TWO32 else offset + o;
  }

  /** `fdt_check_header` for version 17 and later accepts exactly the headers whose blocks lie within the total size. */
  function CheckHeader(b: seq<Byte>): int {
    var total := Total(b);
    if Hdr(b, H_MAGIC) != FDT_MAGIC then -FDT_ERR_BADMAGIC
    else if Hdr(b, H_VERSION) < FDT_FIRST_SUPPORTED_VERSION || Hdr(b, H_LAST_COMP) > FDT_LAST_SUPPORTED_VERSION
    then -FDT_ERR_BADVERSION
    else if Hdr(b, H_VERSION) < Hdr(b, H_LAST_COMP) then -FDT_ERR_BADVERSION
    else if total < 40 || total > INT_MAX then -FDT_ERR_TRUNCATED
    else if !CheckOff(total, OffRsv(b)) then -FDT_ERR_TRUNCATED
    else if !CheckBlock(total, OffStruct(b), SizeStruct(b)) then -FDT_ERR_TRUNCATED
    else if !CheckBlock(total, OffStrings(b), SizeStrings(b)) then -FDT_ERR_TRUNCATED
    else 0
  }

  predicate CheckOff(total: nat, off: nat) {
    40 <= off <= total
  }

  predicate CheckBlock(total: nat, base: nat, size: nat) {
    CheckOff(total, base) && !(Wrap32(base + size) < base) && CheckOff(total, Wrap32(base + size))
  }

  lemma CheckHeaderExact(b: seq<Byte>)
    requires |b| >= 40 && Hdr(b, H_VERSION) >= 17
    ensures CheckHeader(b) == 0 <==>
            Hdr(b, H_MAGIC) == FDT_MAGIC && Hdr(b, H_LAST_COMP) <= 17 && 40 <= Total(b) <= INT_MAX &&
            40 <= OffRsv(b) <= Total(b) &&
            40 <= OffStruct(b) && OffStruct(b) + SizeStruct(b) <= Total(b) &&
            40 <= OffStrings(b) && OffStrings(b) + SizeStrings(b) <= Total(b)
  {
    hide Ld32;
    var a, s, c, z := OffStruct(b), SizeStruct(b), OffStrings(b), SizeStrings(b);
    assert Wrap32(a + s) == if a + s < TWO32 then a + s else a + s - TWO32;
    assert Wrap32(c + z) == if c + z < TWO32 then c + z else c + z - TWO32;
  }

  // -------------------------------------------------------------------- tags

  predicate Readable(b: seq<Byte>) {
    Ordered(b) && Hdr(b, H_VERSION) == 17
  }

  lemma StructWord(b: seq<Byte>, o: nat)
    requires Ordered(b) && o + 4 <= SizeStruct(b)
    ensures Ld32(b, OffStruct(b) + o) == Ld32(Struct(b), o)
  {
    var k := OffStruct(b) + o;
    assert b[k..k + 4] == Struct(b)[o..o + 4];
    LoadSame(b, k, Struct(b), o);
  }

  method PtrOk(b: seq<Byte>, offset: int, len: nat) returns (ok: bool)
    requires Readable(b) && INT_MIN <= offset <= INT_MAX && len < TWO32
    ensures ok <==> 0 <= offset && offset + len <= SizeStruct(b)
  {
    ok := OffsetPtr(b, offset, len);
    OffsetPtrExact(b, offset, len);
  }

  /** `fdt_next_tag` */
  method NextTagIn(b: seq<Byte>, start: int) returns (tag: nat, next: int)
    requires Readable(b) && INT_MIN <= start <= INT_MAX
    ensures Step(tag, next) == NextTag(Struct(b), start)
  {
    hide Ld32, NulAt, Align4;
    var base := Ld32(b, 4 * H_OFF_STRUCT);
    var ok := PtrOk(b, start, 4);
    if !ok {
      return FDT_END, -FDT_ERR_TRUNCATED;
    }
    StructWord(b, start);
    tag := Ld32(b, base + start);
    var offset := start + 4;
    if tag == FDT_BEGIN_NODE {
      var z := ScanName(b, base, offset);
      if z == SizeStruct(b) {
        return FDT_END, -FDT_ERR_BADSTRUCTURE;
      }
      offset := z + 1;
    } else if tag == FDT_PROP {
      ok := PtrOk(b, offset, 4);
      if !ok {
        return FDT_END, -FDT_ERR_BADSTRUCTURE;
      }
      StructWord(b, offset);
      offset := start + Wrap32(12 + Ld32(b, base + offset));
    } else if tag != FDT_END && tag != FDT_END_NODE && tag != FDT_NOP {
      return FDT_END, -FDT_ERR_BADSTRUCTURE;
    }
    ok := PtrOk(b, start, offset - start);
    if !ok {
      return FDT_END, -FDT_ERR_BADSTRUCTURE;
    }
    next := Align4(offset);
  }

  /** The loop that skips a node name: the offset of its NUL, or the block size if there is none. */
  method ScanName(b: seq<Byte>, base: nat, from: nat) returns (z: nat)
    requires Readable(b) && base == OffStruct(b) && from <= SizeStruct(b)
    ensures z == NulAt(Struct(b), from)
  {
    hide Ld32;
    ghost var st := Struct(b);
    z := from;
    while true
      invariant from <= z <= |st| && NulAt(st, from) == NulAt(st, z)
      decreases |st| - z
    {
      var p := PtrOk(b, z, 1);
      if !p { return; }
      assert b[base + z] == st[z];
      if b[base + z] == 0 { return; }
      z := z + 1;
    }
  }

  // ------------------------------------------------------------------- marks

  /** Offset `o` lies between the items of a readable blob, after `e` of its events. */
  predicate AtMark(b: seq<Byte>, es: seq<Event>, o: int, e: int) {
    Readable(b) && Mark(Struct(b), Strings(b), es, o, e)
  }

  /** The item at `o` is not a NOP: it is the one behind event `e`. */
  predicate OnItem(b: seq<Byte>, es: seq<Event>, o: int, e: int) {
    AtMark(b, es, o, e) && o < |Struct(b)| && First(Struct(b)[o..]).Some? && ItemAt(Struct(b), o) != Nop
  }

  /** `o` is the offset of the node that event `e` enters. */
  predicate NodeMark(b: seq<Byte>, es: seq<Event>, o: int, e: int) {
    OnItem(b, es, o, e) && e < |es| && es[e].Enter?
  }

  /** `o` is the offset of the property that event `e` sets. */
  predicate PropMark(b: seq<Byte>, es: seq<Event>, o: int, e: int) {
    OnItem(b, es, o, e) && e < |es| && (es[e].Set? || es[e].Dangling?)
  }

  function ItemOf(b: seq<Byte>, o: int): Item
    requires Readable(b) && 0 <= o < |Struct(b)| && First(Struct(b)[o..]).Some?
  {
    ItemAt(Struct(b), o)
  }

  predicate Terminated(es: seq<Event>) {
    |es| > 0 && es[|es| - 1] == Finish
  }

  /** While events remain there is an item; a NOP stands for none of them. */
  lemma AtStep(b: seq<Byte>, es: seq<Event>, o: int, e: int)
    requires AtMark(b, es, o, e) && e < |es|
    ensures o < |Struct(b)| && First(Struct(b)[o..]).Some?
    ensures var it := ItemOf(b, o);
            NextTag(Struct(b), o) == Step(it.Tag(), o + it.Size()) && o % 4 == 0 &&
            o + it.Size() <= |Struct(b)| <= INT_MAX && Spells(Struct(b)[o..], it) &&
            if it == Nop then AtMark(b, es, o + it.Size(), e)
            else OnItem(b, es, o, e) && AtMark(b, es, o + it.Size(), e + 1) && EventOf(it, Strings(b)) == [es[e]]
  {
    hide First, Lex, Events, Spells, Item.Size, NextTag, Ordered;
    assert o < |Struct(b)| by {
      assert |es[e..]| > 0;
      if o == |Struct(b)| {
        EmptySpelled(Struct(b)[o..], Strings(b));
      }
    }
    MarkStep(Struct(b), Strings(b), es, o, e);
    var it := ItemOf(b, o);
    var v := EventOf(it, Strings(b));
    if it != Nop {
      assert |v| == 1;
      assert es[e..e + 1] == [es[e]];
    }
    StructBound(b);
  }

  lemma StructBound(b: seq<Byte>)
    requires Ordered(b)
    ensures |Struct(b)| == SizeStruct(b) <= INT_MAX
  {
  }

  lemma EmptySpelled(s: seq<Byte>, ss: seq<Byte>)
    requires s == []
    ensures Lex(s) == Some([]) && Events([], ss) == []
  {
  }

  lemma NodeStep(b: seq<Byte>, es: seq<Event>, o: int, e: int)
    requires NodeMark(b, es, o, e)
    ensures var it := ItemOf(b, o);
            it == Begin(es[e].name) && AtMark(b, es, o + it.Size(), e + 1) && 0 <= o && o % 4 == 0 &&
            NextTag(Struct(b), o) == Step(FDT_BEGIN_NODE, o + it.Size()) && o + it.Size() <= INT_MAX
  {
    hide First, Lex, Events, Spells, Item.Size, NextTag, Ordered;
    AtStep(b, es, o, e);
  }

  lemma PropStep(b: seq<Byte>, es: seq<Event>, o: int, e: int)
    requires PropMark(b, es, o, e)
    ensures var it := ItemOf(b, o);
            it.Data? && AtMark(b, es, o + it.Size(), e + 1) && 0 <= o && o % 4 == 0 &&
            NextTag(Struct(b), o) == Step(FDT_PROP, o + it.Size()) && o + it.Size() <= |Struct(b)| <= INT_MAX &&
            Spells(Struct(b)[o..], it) &&
            (match Str(Strings(b), it.nameoff)
             case Some(name) => es[e] == Set(name, it.value)
             case None => es[e] == Dangling)
  {
    hide First, Lex, Events, Spells, Item.Size, NextTag, Ordered, Str;
    AtStep(b, es, o, e);
  }

  /** What the scanner can meet while events remain. */
  lemma AtTag(b: seq<Byte>, es: seq<Event>, o: int, e: int)
    requires AtMark(b, es, o, e) && e < |es|
    ensures var s := NextTag(Struct(b), o);
            0 <= o < s.next <= |Struct(b)| <= INT_MAX && AtMark(b, es, s.next, if s.tag == FDT_NOP then e else e + 1) &&
            (|| s.tag == FDT_NOP
             || (s.tag == FDT_BEGIN_NODE && es[e].Enter? && NodeMark(b, es, o, e))
             || (s.tag == FDT_END_NODE && es[e] == Leave)
             || (s.tag == FDT_PROP && (es[e].Set? || es[e].Dangling?) && PropMark(b, es, o, e))
             || (s.tag == FDT_END && es[e] == Finish))
  {
    hide First, Lex, Events, Spells, NextTag, Ordered;
    AtStep(b, es, o, e);
  }

  lemma NodeMarkIs(b: seq<Byte>, es: seq<Event>, o: int, e: int)
    requires NodeMark(b, es, o, e)
    ensures Readable(b) && 0 <= o <= INT_MAX && 0 <= e < |es| && es[e].Enter?
    ensures var next := CheckTagOffset(Struct(b), o, FDT_BEGIN_NODE);
            o < next <= |Struct(b)| <= INT_MAX && AtMark(b, es, next, e + 1)
  {
    hide First, Lex, Events, Spells, NextTag, Ordered;
    AtStep(b, es, o, e);
  }

  lemma MarkBound(b: seq<Byte>, es: seq<Event>, o: int, e: int)
    requires AtMark(b, es, o, e)
    ensures Readable(b) && 0 <= o <= |Struct(b)| <= INT_MAX
  {
  }

  // ------------------------------------------------------------------- nodes

  /** `fdt_check_node_offset_`, `fdt_check_prop_offset_` */
  function CheckTagOffset(st: seq<Byte>, offset: int, tag: nat): int {
    if offset < 0 || offset % 4 != 0 || NextTag(st, offset).tag != tag then -FDT_ERR_BADOFFSET
    else NextTag(st, offset).next
  }

  method CheckOffset(b: seq<Byte>, offset: int, want: nat) returns (r: int)
    requires Readable(b) && INT_MIN <= offset <= INT_MAX
    ensures r == CheckTagOffset(Struct(b), offset, want)
    ensures r < 0 && want != FDT_END ==> r == -FDT_ERR_BADOFFSET
  {
    if offset < 0 || offset % 4 != 0 {
      return -FDT_ERR_BADOFFSET;
    }
    var tag, next := NextTagIn(b, offset);
    r := if tag != want then -FDT_ERR_BADOFFSET else next;
  }

  /** `node` is not the offset of an opening tag, which the code detects. */
  predicate BadNode(b: seq<Byte>, node: int) {
    CheckTagOffset(Struct(b), node, FDT_BEGIN_NODE) < 0
  }

  /** An offset argument: either it is refused, or it is the offset of the node that event `e` enters. */
  predicate NodeArg(b: seq<Byte>, es: seq<Event>, node: int, e: nat) {
    Readable(b) && INT_MIN <= node <= INT_MAX && Terminated(es) && (!BadNode(b, node) ==> NodeMark(b, es, node, e))
  }

  lemma GoodNode(b: seq<Byte>, es: seq<Event>, node: int, e: nat)
    requires NodeMark(b, es, node, e) && Terminated(es)
    ensures NodeArg(b, es, node, e) && !BadNode(b, node) && 0 <= node
  {
    hide NextTag, Mark, Ordered, First;
    NodeMarkIs(b, es, node, e);
  }

  /**
   The event from which `fdt_next_node` searches: the first one for a negative offset, else that
   behind the opening tag.
   */
  function From(from: int, e: nat): nat {
    if from < 0 then 0 else e + 1
  }

  /** An offset from which `fdt_next_node` can be asked; any negative one stands for the beginning of the tree. */
  predicate Startable(b: seq<Byte>, es: seq<Event>, from: int, e: nat) {
    NodeArg(b, es, from, e) && (from < 0 ==> AtMark(b, es, 0, 0))
  }

  /** `fdt_next_node` with a depth counter. */
  method NextNode(b: seq<Byte>, from: int, depth: int, ghost es: seq<Event>, ghost e: nat) returns (res: int, d: int)
    requires Startable(b, es, from, e) && depth >= 0
    ensures from >= 0 && BadNode(b, from) ==> res == -FDT_ERR_BADOFFSET && d == depth
    ensures from < 0 || !BadNode(b, from) ==>
              match NextEnter(es, From(from, e), depth)
              case Found(j, dd) => NodeMark(b, es, res, j) && d == dd && from < Behind(b, from) <= res
              case Closed(j) => AtMark(b, es, res, j) && d == -1 && from < res
              case Ended => res == -FDT_ERR_NOTFOUND
  {
    hide NodeMark, AtMark, NextTag, PropMark, Ordered, Struct, Item.Size;
    d := depth;
    var next := 0;
    if from >= 0 {
      next := CheckOffset(b, from, FDT_BEGIN_NODE);
      if next < 0 {
        return next, d;
      }
      NodeMarkIs(b, es, from, e);
    } else {
      StartMark(b, es);
    }
    ghost var s := From(from, e);
    ghost var k := s;
    while true
      invariant AtMark(b, es, next, k) && k < |es| && Behind(b, from) <= next <= INT_MAX && from <= next
      invariant NextEnter(es, s, depth) == NextEnter(es, k, d)
      invariant d >= 0
      decreases |es| - k, |Struct(b)| - next
    {
      AtTag(b, es, next, k);
      var offset := next;
      var tag;
      tag, next := NextTagIn(b, offset);
      if tag == FDT_BEGIN_NODE {
        d := d + 1;
        return offset, d;
      } else if tag == FDT_END_NODE {
        d := d - 1;
        if d < 0 {
          return next, d;
        }
        k := k + 1;
      } else if tag == FDT_END {
        return -FDT_ERR_NOTFOUND, d;
      } else if tag == FDT_PROP {
        k := k + 1;
      }
    }
  }

  /** The first offset that a search from `from` can find. */
  function Behind(b: seq<Byte>, from: int): int {
    if from < 0 then 0 else CheckTagOffset(Struct(b), from, FDT_BEGIN_NODE)
  }

  lemma StartMark(b: seq<Byte>, es: seq<Event>)
    requires AtMark(b, es, 0, 0) && Terminated(es)
    ensures 0 < |es|
  {
  }

  /** `fdt_node_end_offset_` */
  method NodeEnd(b: seq<Byte>, from: int, ghost es: seq<Event>, ghost e: nat) returns (res: int)
    requires NodeArg(b, es, from, e)
    ensures BadNode(b, from) ==> res == if from < 0 then from else -FDT_ERR_BADOFFSET
    ensures !BadNode(b, from) ==>
              match Close(es, e + 1, 0)
              case Some(j) => AtMark(b, es, res, j) && 0 <= from < res
              case None => res == -FDT_ERR_NOTFOUND
  {
    hide NodeMark, AtMark, Mark, Ordered, Close, NextTag;
    res := from;
    var depth := 0;
    ghost var k := e;
    ghost var bad := BadNode(b, from);
    if !bad { NodeMarkIs(b, es, from, e); }
    while res >= 0 && depth >= 0
      invariant bad ==> (res == from || (res == -FDT_ERR_BADOFFSET && from >= 0)) && depth == 0 && k == e
      invariant !bad && depth >= 0 && res >= 0 ==>
                  NodeMark(b, es, res, k) && 0 <= k < |es| && 0 <= from <= res &&
                  Close(es, e + 1, 0) == Close(es, k + 1, depth)
      invariant !bad && !(depth >= 0 && res >= 0) ==>
                  match Close(es, e + 1, 0)
                  case Some(j) => AtMark(b, es, res, j) && 0 <= from < res
                  case None => res == -FDT_ERR_NOTFOUND
      decreases depth >= 0 && res >= 0, |es| - k
    {
      ghost var h := NextEnter(es, k + 1, depth);
      if !bad {
        CloseByHops(es, k + 1, depth);
        GoodNode(b, es, res, k);
      }
      res, depth := NextNode(b, res, depth, es, k);
      if !bad && h.Found? {
        NodeMarkIs(b, es, res, h.e);
        k := h.e;
      } else if !bad && h.Closed? {
        MarkBound(b, es, res, h.e);
      }
    }
  }

  /** `fdt_first_subnode`; from a negative offset it finds the root. */
  method FirstSubnode(b: seq<Byte>, from: int, ghost es: seq<Event>, ghost e: nat) returns (res: int)
    requires Startable(b, es, from, e)
    ensures from >= 0 && BadNode(b, from) ==> res == -FDT_ERR_NOTFOUND
    ensures from < 0 || !BadNode(b, from) ==>
              match Kid(es, From(from, e), 0)
              case Some(j) => 0 <= j < |es| && NodeMark(b, es, res, j) && 0 <= res
              case None => res == -FDT_ERR_NOTFOUND
  {
    hide NodeMark, AtMark, Mark, Ordered, Kid, BadNode;
    ghost var s := From(from, e);
    KidByHops(es, s, 0);
    FirstHop(es, s, 0);
    var depth;
    res, depth := NextNode(b, from, 0, es, e);
    ghost var h := NextEnter(es, s, 0);
    if (from < 0 || !BadNode(b, from)) && h.Found? { NodeMarkIs(b, es, res, h.e); }
    if res < 0 || depth != 1 {
      res := -FDT_ERR_NOTFOUND;
    }
  }

  /** From depth zero the next node found is one level down. */
  lemma {:induction false} FirstHop(es: seq<Event>, e: nat, d: int)
    requires d == 0
    ensures NextEnter(es, e, d).Found? ==> NextEnter(es, e, d).depth == 1
    decreases |es| - e
  {
    if e < |es| && !es[e].Enter? && !es[e].Leave? && es[e] != Finish {
      FirstHop(es, e + 1, d);
    }
  }

  /** `fdt_next_subnode`; from a negative offset it walks on from the beginning, one level down. */
  method NextSubnode(b: seq<Byte>, from: int, ghost es: seq<Event>, ghost e: nat) returns (res: int)
    requires Startable(b, es, from, e)
    ensures from >= 0 && BadNode(b, from) ==> res == -FDT_ERR_NOTFOUND
    ensures from < 0 || !BadNode(b, from) ==>
              match Kid(es, From(from, e), 1)
              case Some(j) => 0 <= j < |es| && NodeMark(b, es, res, j) && 0 <= res
              case None => res == -FDT_ERR_NOTFOUND
  {
    hide NodeMark, AtMark, Mark, Ordered, Kid, BadNode, Struct, CheckTagOffset, Hdr;
    res := from;
    var depth := 1;
    if from >= 0 && !BadNode(b, from) { NodeMarkIs(b, es, from, e); }
    ghost var s, bad := From(from, e), from >= 0 && BadNode(b, from);
    ghost var k, at := e, s;
    while true
      invariant bad ==> res == from
      invariant !bad ==> at == From(res, k) <= |es| && Kid(es, s, 1) == Kid(es, at, depth)
      invariant Startable(b, es, res, k) && (res >= 0 && !bad ==> !BadNode(b, res)) && depth >= 1
      decreases |es| - at
    {
      KidByHops(es, at, depth);
      ghost var h := NextEnter(es, at, depth);
      res, depth := NextNode(b, res, depth, es, k);
      if !bad && h.Found? {
        NodeMarkIs(b, es, res, h.e);
        GoodNode(b, es, res, h.e);
      }
      if res < 0 || depth < 1 {
        return -FDT_ERR_NOTFOUND;
      }
      if depth <= 1 {
        return;
      }
      k, at := h.e, h.e + 1;
    }
  }

  /** `fdt_get_name` at a node: the bytes between the tag and the NUL. */
  method GetName(b: seq<Byte>, offset: int, ghost es: seq<Event>, ghost e: nat) returns (name: seq<Byte>)
    requires NodeMark(b, es, offset, e)
    ensures name == es[e].name && NulFree(name)
  {
    hide First, Lex, Events, NextTag, Ld32, Spells, Mark;
    AtStep(b, es, offset, e);
    MarkBound(b, es, offset, e);
    var z := ScanName(b, OffStruct(b), offset + 4);
    var st := Struct(b);
    NameSpelled(st, offset, es[e].name);
    name := st[offset + 4..z];
  }

  lemma NameSpelled(st: seq<Byte>, o: nat, name: seq<Byte>)
    requires o <= |st| && Spells(st[o..], Begin(name))
    ensures NulAt(st, o + 4) == o + 4 + |name| < |st| && st[o + 4..o + 4 + |name|] == name && NulFree(name)
  {
    var r := st[o..];
    assert st[o + 4..o + 4 + |name|] == r[4..4 + |name|];
    assert st[o + 4 + |name|] == r[4 + |name|];
    NulAtIs(st, o + 4, o + 4 + |name|);
  }

  /** `fdt_subnode_offset_namelen` */
  method SubnodeOffset(b: seq<Byte>, from: int, s: seq<Byte>, ghost es: seq<Event>, ghost e: nat) returns (res: int)
    requires NodeArg(b, es, from, e)
    ensures BadNode(b, from) ==> res == if from < 0 then from else -FDT_ERR_BADOFFSET
    ensures !BadNode(b, from) ==>
              match FindKid(es, e + 1, 0, s)
              case Some(j) => 0 <= j < |es| && NodeMark(b, es, res, j) &&
                  0 <= CheckTagOffset(Struct(b), from, FDT_BEGIN_NODE) <= res
              case None => res == -FDT_ERR_NOTFOUND
  {
    hide NodeMark, AtMark, Mark, Ordered, FindKid, NameEq, NextTag;
    res := from;
    var depth := 0;
    ghost var k := e;
    ghost var bad := BadNode(b, from);
    if !bad { NodeMarkIs(b, es, from, e); }
    while res >= 0 && depth >= 0
      invariant bad ==> (res == from || (res == -FDT_ERR_BADOFFSET && from >= 0)) && depth == 0 && k == e
      invariant !bad && res >= 0 && depth >= 0 ==> NodeMark(b, es, res, k) && 0 <= k < |es| && es[k].Enter?
      invariant !bad && res >= 0 && depth >= 0 ==>
                  (res == from && depth == 0) || 0 <= CheckTagOffset(Struct(b), from, FDT_BEGIN_NODE) <= res
      invariant !bad && res >= 0 && depth >= 0 ==>
                  if depth == 1 && NameEq(es[k].name, s) then FindKid(es, e + 1, 0, s) == Some(k)
                  else FindKid(es, e + 1, 0, s) == FindKid(es, k + 1, depth, s)
      invariant !bad && !(res >= 0 && depth >= 0) ==>
                  FindKid(es, e + 1, 0, s) == None && (depth < 0 || res == -FDT_ERR_NOTFOUND)
      decreases depth >= 0 && res >= 0, |es| - k
    {
      if depth == 1 {
        var name := GetName(b, res, es, k);
        var eq := NameEq(name, s);
        if eq {
          return;
        }
      }
      ghost var h := NextEnter(es, k + 1, depth);
      if !bad {
        FindKidByHops(es, k + 1, depth, s);
        GoodNode(b, es, res, k);
      }
      res, depth := NextNode(b, res, depth, es, k);
      if !bad && h.Found? {
        NodeMarkIs(b, es, res, h.e);
        k := h.e;
      }
    }
    if depth < 0 {
      res := -FDT_ERR_NOTFOUND;
    }
  }

  // -------------------------------------------------------------- properties

  /** The property event at or after `e`, if properties come next. */
  function NextSet(es: seq<Event>, e: nat): Option<nat> {
    if e < |es| && (es[e].Set? || es[e].Dangling?) then Some(e) else None
  }

  /** `nextprop_` from a position inside a node. */
  method NextProp(b: seq<Byte>, from: int, ghost es: seq<Event>, ghost e: nat) returns (res: int)
    requires AtMark(b, es, from, e) && e < |es| && es[e] != Finish && Terminated(es)
    ensures match NextSet(es, e)
            case Some(j) => PropMark(b, es, res, j) && from <= res <= INT_MAX
            case None => res == -FDT_ERR_NOTFOUND
  {
    hide NodeMark, AtMark, Mark, Ordered, PropMark, NextTag;
    MarkBound(b, es, from, e);
    var offset := from;
    while true
      invariant Readable(b) && AtMark(b, es, offset, e) && from <= offset && 0 <= offset <= |Struct(b)| <= INT_MAX
      decreases |Struct(b)| - offset
    {
      AtTag(b, es, offset, e);
      var tag, next := NextTagIn(b, offset);
      if tag == FDT_END {
        return if next >= 0 then -FDT_ERR_BADSTRUCTURE else next;
      }
      if tag == FDT_PROP {
        return offset;
      }
      offset := next;
      if tag != FDT_NOP {
        return -FDT_ERR_NOTFOUND;
      }
    }
  }

  /** `fdt_first_property_offset` */
  method FirstProp(b: seq<Byte>, node: int, ghost es: seq<Event>, ghost e: nat) returns (res: int)
    requires NodeArg(b, es, node, e) && (!BadNode(b, node) ==> e + 1 < |es| && es[e + 1] != Finish)
    ensures BadNode(b, node) ==> res == -FDT_ERR_BADOFFSET
    ensures !BadNode(b, node) ==>
              match NextSet(es, e + 1)
              case Some(j) => PropMark(b, es, res, j) &&
                  CheckTagOffset(Struct(b), node, FDT_BEGIN_NODE) <= res <= INT_MAX
              case None => res == -FDT_ERR_NOTFOUND
  {
    hide NodeMark, AtMark, Mark, Ordered, PropMark, NextTag, NextSet;
    var offset := CheckOffset(b, node, FDT_BEGIN_NODE);
    if offset < 0 {
      return offset;
    }
    NodeMarkIs(b, es, node, e);
    res := NextProp(b, offset, es, e + 1);
  }

  /** `fdt_next_property_offset` */
  method NextPropAfter(b: seq<Byte>, prop: int, ghost es: seq<Event>, ghost e: nat) returns (res: int)
    requires PropMark(b, es, prop, e) && Terminated(es) && e + 1 < |es| && es[e + 1] != Finish
    ensures match NextSet(es, e + 1)
            case Some(j) => PropMark(b, es, res, j) && prop < res <= INT_MAX
            case None => res == -FDT_ERR_NOTFOUND
  {
    hide NodeMark, AtMark, Mark, Ordered, PropMark, NextTag, NextSet;
    PropMarkIs(b, es, prop, e);
    var offset := CheckOffset(b, prop, FDT_PROP);
    res := NextProp(b, offset, es, e + 1);
  }

  lemma PropMarkIs(b: seq<Byte>, es: seq<Event>, o: int, e: int)
    requires PropMark(b, es, o, e)
    ensures Readable(b) && 0 <= o <= INT_MAX && 0 <= e < |es| && (es[e].Set? || es[e].Dangling?)
    ensures var next := CheckTagOffset(Struct(b), o, FDT_PROP);
            o + 12 <= next <= |Struct(b)| <= INT_MAX && AtMark(b, es, next, e + 1)
  {
    hide First, Lex, Events, Spells, NextTag, Ordered, Str;
    PropStep(b, es, o, e);
  }

  /** `fdt_get_string` on a finished blob. */
  method GetString(b: seq<Byte>, stroff: nat) returns (r: Option<seq<Byte>>)
    requires Readable(b)
    ensures r == Str(Strings(b), stroff)
  {
    var ss := Strings(b);
    if stroff >= |ss| {
      return None;
    }
    var n := stroff;
    while n < |ss| && ss[n] != 0
      invariant stroff <= n <= |ss| && NulAt(ss, stroff) == NulAt(ss, n)
    {
      n := n + 1;
    }
    r := if n == |ss| then None else Some(ss[stroff..n]);
  }

  /** `fdt_get_property_by_offset_`: length, name offset and value of a property. */
  method PropAt(b: seq<Byte>, offset: int, ghost es: seq<Event>, ghost e: nat) returns (nameoff: nat, value: seq<Byte>)
    requires PropMark(b, es, offset, e)
    ensures match Str(Strings(b), nameoff)
            case Some(name) => es[e] == Set(name, value)
            case None => es[e] == Dangling
    ensures nameoff < TWO32 && ItemOf(b, offset) == Data(nameoff, value)
  {
    hide First, Lex, Events, NextTag, Ordered, Str, Mark, Ld32;
    PropStep(b, es, offset, e);
    var st := Struct(b);
    ghost var it := ItemOf(b, offset);
    DataSpelled(st, offset, it);
    var len := Ld32(st, offset + 4);
    nameoff := Ld32(st, offset + 8);
    value := st[offset + 12..offset + 12 + len];
  }

  lemma DataSpelled(st: seq<Byte>, o: nat, it: Item)
    requires o <= |st| && it.Data? && Spells(st[o..], it)
    ensures o + it.Size() <= |st| && o + 12 + |it.value| <= |st| && Ld32(st, o) == FDT_PROP &&
            |it.value| < 0xffff_fff4 && Ld32(st, o + 4) == |it.value| && Ld32(st, o + 8) == it.nameoff
    ensures st[o + 12..o + 12 + |it.value|] == it.value
  {
    hide Ld32, Align4;
    var r := st[o..];
    assert st[o..o + 4] == r[0..4] && st[o + 4..o + 8] == r[4..8] && st[o + 8..o + 12] == r[8..12];
    LoadSame(st, o, r, 0);
    LoadSame(st, o + 4, r, 4);
    LoadSame(st, o + 8, r, 8);
    assert st[o + 12..o + 12 + |it.value|] == r[12..12 + |it.value|];
  }

  /** `fdt_get_property_namelen_`: offset of the property, or an error. */
  method GetProperty(b: seq<Byte>, node: int, s: seq<Byte>, ghost es: seq<Event>, ghost e: nat) returns (res: int)
    requires NodeArg(b, es, node, e) && (!BadNode(b, node) ==> PropsClosed(es, e + 1))
    ensures BadNode(b, node) ==> res == -FDT_ERR_BADOFFSET
    ensures !BadNode(b, node) ==>
              match FindProp(es, e + 1, s)
              case Some(j) => PropMark(b, es, res, j) &&
                  CheckTagOffset(Struct(b), node, FDT_BEGIN_NODE) <= res <= INT_MAX
              case None => res == -FDT_ERR_NOTFOUND
  {
    hide NodeMark, AtMark, Mark, Ordered, PropMark, NextTag, Str, BadNode, CheckTagOffset;
    var offset := FirstProp(b, node, es, e);
    if BadNode(b, node) {
      return offset;
    }
    GoodStart(b, es, node, e);
    ghost var k, start := e + 1, CheckTagOffset(Struct(b), node, FDT_BEGIN_NODE);
    while offset >= 0
      invariant k < |es| && es[k] != Finish && PropsClosed(es, k)
      invariant FindProp(es, e + 1, s) == FindProp(es, k, s)
      invariant match NextSet(es, k)
                case Some(j) => PropMark(b, es, offset, j) && start <= offset <= INT_MAX
                case None => offset == -FDT_ERR_NOTFOUND
      decreases |es| - k
    {
      PropMarkIs(b, es, offset, k);
      var nameoff, value := PropAt(b, offset, es, k);
      var name := GetString(b, nameoff);
      if name == Some(s) {
        return offset;
      }
      offset := NextPropAfter(b, offset, es, k);
      k := k + 1;
    }
    res := offset;
  }

  lemma GoodStart(b: seq<Byte>, es: seq<Event>, node: int, e: nat)
    requires NodeArg(b, es, node, e) && !BadNode(b, node)
    ensures NodeMark(b, es, node, e) && 0 <= node < CheckTagOffset(Struct(b), node, FDT_BEGIN_NODE)
  {
    hide NextTag, Mark, Ordered, First;
    NodeMarkIs(b, es, node, e);
  }

  /** A run of properties from `e` on is followed by a node tag. */
  predicate PropsClosed(es: seq<Event>, e: nat)
    decreases |es| - e
  {
    e < |es| && es[e] != Finish && (es[e].Set? || es[e].Dangling? ==> PropsClosed(es, e + 1))
  }
}
