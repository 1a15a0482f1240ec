/**
 The sequential writer of fdt_sw.c: the structure block grows up, the string table grows down
 from the end of the buffer, and `fdt_finish` brings the two together.
 */
module SeqWrite {
  import opened Bytes
  import opened DeviceTree
  import opened Lexer
  import opened Blob
  import opened Splice
  import opened ReadWrite
  import opened NodeEdit

  // ------------------------------------------------------------------ the phases

  /** The strings written so far, at the end of the buffer. */
  function Tail(b: seq<Byte>): seq<Byte> {
    if SizeStrings(b) <= Total(b) then Cut(b, Total(b) - SizeStrings(b), Total(b)) else []
  }

  /** `fdt_sw_probe_` */
  function SwProbe(b: seq<Byte>): int {
    if Hdr(b, H_MAGIC) == FDT_MAGIC then -FDT_ERR_BADSTATE
    else if Hdr(b, H_MAGIC) != FDT_SW_MAGIC then -FDT_ERR_BADMAGIC else 0
  }

  /** `fdt_sw_probe_memrsv_` */
  function ProbeMemrsv(b: seq<Byte>): int {
    if SwProbe(b) != 0 then SwProbe(b) else if OffStrings(b) != 0 then -FDT_ERR_BADSTATE else 0
  }

  /** `fdt_sw_probe_struct_` */
  function ProbeStruct(b: seq<Byte>): int {
    if SwProbe(b) != 0 then SwProbe(b) else if OffStrings(b) != Total(b) then -FDT_ERR_BADSTATE else 0
  }

  predicate Fields(b: seq<Byte>) {
    |b| >= 48 && Hdr(b, H_MAGIC) == FDT_SW_MAGIC && Hdr(b, H_VERSION) == 17 && Hdr(b, H_LAST_COMP) == 2 &&
    OffRsv(b) == 48 && 48 <= Total(b) <= |b| && Total(b) <= INT_MAX
  }

  /** The first phase: `n` reserve entries written, nothing else. */
  predicate Reserving(b: seq<Byte>, n: nat) {
    Fields(b) && OffStrings(b) == 0 && SizeStruct(b) == 0 && SizeStrings(b) == 0 &&
    OffStruct(b) == 48 + 16 * n <= Total(b)
  }

  /** The second phase: structure below, strings above, never overlapping. */
  predicate Growing(b: seq<Byte>) {
    Fields(b) && OffStrings(b) == Total(b) && 64 <= OffStruct(b) &&
    OffStruct(b) + SizeStruct(b) + SizeStrings(b) <= Total(b)
  }

  /** A property item with its name offset made relative to the start of `n` bytes of strings. */
  function RebaseItem(it: Item, n: nat): Item {
    match it case Data(o, v) => Data(Wrap32(o + n), v) case _ => it
  }

  function Rebase(items: seq<Item>, n: nat): (r: seq<Item>)
    ensures |r| == |items| && forall i :: 0 <= i < |r| ==> r[i] == RebaseItem(items[i], n)
  {
    seq(|items|, i requires 0 <= i < |items| => RebaseItem(items[i], n))
  }

  /** The calls that a writer in its second phase has taken so far. */
  predicate Building(b: seq<Byte>, es: seq<Event>) {
    Growing(b) && Lex(Struct(b)).Some? && EndTree !in Lex(Struct(b)).value && Nop !in Lex(Struct(b)).value &&
    Events(Rebase(Lex(Struct(b)).value, |Tail(b)|), Tail(b)) == es && Dangling !in es
  }

  // ------------------------------------------------------------- items and strings

  lemma RebaseConcat(a: seq<Item>, c: seq<Item>, n: nat)
    ensures Rebase(a + c, n) == Rebase(a, n) + Rebase(c, n)
  {
  }

  /** Strings put in front leave every string at the same distance from the end. */
  lemma StrFront(more: seq<Byte>, ss: seq<Byte>, off: nat)
    requires Str(ss, off).Some?
    ensures Str(more + ss, |more| + off) == Str(ss, off)
  {
    var z := NulAt(ss, off);
    assert (more + ss)[|more| + off..|more| + z] == ss[off..z];
    NulAtIs(more + ss, |more| + off, |more| + z);
  }

  lemma {:induction false} EventsFront(items: seq<Item>, more: seq<Byte>, ss: seq<Byte>)
    requires Dangling !in Events(Rebase(items, |ss|), ss) && |more| + |ss| < TWO32
    ensures Events(Rebase(items, |more + ss|), more + ss) == Events(Rebase(items, |ss|), ss)
  {
    hide Str;
    if items != [] {
      var r, r' := Rebase(items, |ss|), Rebase(items, |more + ss|);
      assert r[1..] == Rebase(items[1..], |ss|) && r'[1..] == Rebase(items[1..], |more + ss|);
      assert forall x :: x in EventOf(r[0], ss) || x in Events(r[1..], ss) ==> x in Events(r, ss);
      assert Dangling !in EventOf(r[0], ss);
      if items[0].Data? {
        var off := Wrap32(items[0].nameoff + |ss|);
        StrShort(ss, off);
        assert Wrap32(items[0].nameoff + |more + ss|) == |more| + off by { WrapShift(items[0].nameoff, |ss|, |more|); }
        StrFront(more, ss, off);
      }
      EventsFront(items[1..], more, ss);
    }
  }

  lemma StrShort(ss: seq<Byte>, off: nat)
    requires Str(ss, off).Some?
    ensures off < |ss|
  {
  }

  lemma WrapShift(o: nat, n: nat, k: nat)
    requires o < TWO32 && Wrap32(o + n) < n && n + k < TWO32
    ensures Wrap32(o + (n + k)) == k + Wrap32(o + n)
  {
  }

  // ------------------------------------------------------------------- the header

  /** A change of the two size words, and of nothing else in the header. */
  predicate SizesOnly(b: seq<Byte>, b': seq<Byte>) {
    |b'| == |b| && |b| >= 40 &&
    (forall k :: 0 <= k < 10 && k != H_SIZE_STRINGS && k != H_SIZE_STRUCT ==> Hdr(b', k) == Hdr(b, k))
  }

  lemma SwBlocks(b: seq<Byte>)
    requires Growing(b)
    ensures Struct(b) == b[OffStruct(b)..OffStruct(b) + SizeStruct(b)] && |Struct(b)| == SizeStruct(b)
    ensures Tail(b) == b[Total(b) - SizeStrings(b)..Total(b)] && |Tail(b)| == SizeStrings(b)
    ensures Rsv(b) == b[48..OffStruct(b)]
  {
    hide Ld32;
  }

  /** The bytes after `fdt_grab_space_` and a write at the place it returned. */
  function Grabbed(b: seq<Byte>, len: nat, x: seq<Byte>): seq<Byte>
    requires Growing(b) && |x| <= len && OffStruct(b) + SizeStruct(b) + len + SizeStrings(b) <= Total(b)
  {
    Patch(SetHdr(b, H_SIZE_STRUCT, SizeStruct(b) + len), OffStruct(b) + SizeStruct(b), x)
  }

  lemma GrabbedHeader(b: seq<Byte>, len: nat, x: seq<Byte>)
    requires Growing(b) && |x| <= len && OffStruct(b) + SizeStruct(b) + len + SizeStrings(b) <= Total(b)
    ensures var b' := Grabbed(b, len, x);
            SizesOnly(b, b') && SizeStruct(b') == SizeStruct(b) + len && SizeStrings(b') == SizeStrings(b) &&
            Growing(b')
  {
    hide Ld32, Patch, SetHdr;
    var a := SetHdr(b, H_SIZE_STRUCT, SizeStruct(b) + len);
    SetHdrEffect(b, H_SIZE_STRUCT, SizeStruct(b) + len);
    forall k | 0 <= k < 10 ensures Hdr(Grabbed(b, len, x), k) == Hdr(a, k) {
      HdrAfterPatch(a, OffStruct(b) + SizeStruct(b), x, k);
    }
  }

  /** Bytes in use below and above. */
  function Used(b: seq<Byte>): nat { OffStruct(b) + SizeStruct(b) + SizeStrings(b) }

  lemma GrabbedUsed(b: seq<Byte>, len: nat, x: seq<Byte>)
    requires Growing(b) && |x| <= len && OffStruct(b) + SizeStruct(b) + len + SizeStrings(b) <= Total(b)
    ensures Used(Grabbed(b, len, x)) == Used(b) + len
  {
    hide Hdr, Grabbed;
    GrabbedHeader(b, len, x);
  }

  /** Growing the structure block keeps what is there and the strings above it. */
  lemma GrabbedEffect(b: seq<Byte>, len: nat, x: seq<Byte>)
    requires Growing(b) && |x| <= len && OffStruct(b) + SizeStruct(b) + len + SizeStrings(b) <= Total(b)
    ensures var b' := Grabbed(b, len, x);
            var st, st' := Struct(b), Struct(b');
            Growing(b') && SizesOnly(b, b') && Tail(b') == Tail(b) && Rsv(b') == Rsv(b) &&
            |st'| == |st| + len && st'[..|st|] == st && st'[|st|..|st| + |x|] == x
  {
    hide Hdr, Patch, SetHdr, Struct, Tail, Rsv, Grabbed;
    var b', at := Grabbed(b, len, x), OffStruct(b) + SizeStruct(b);
    GrabbedHeader(b, len, x);
    SwBlocks(b);
    SwBlocks(b');
    GrabbedSlice(b, len, x, 48, OffStruct(b));
    GrabbedSlice(b, len, x, OffStruct(b), at);
    GrabbedSlice(b, len, x, Total(b) - SizeStrings(b), Total(b));
    SliceOfSlice(b', OffStruct(b), at + len, 0, SizeStruct(b));
    SliceOfSlice(b', OffStruct(b), at + len, SizeStruct(b), SizeStruct(b) + |x|);
    GrabbedPut(b, len, x);
  }

  lemma GrabbedSlice(b: seq<Byte>, len: nat, x: seq<Byte>, lo: nat, hi: nat)
    requires Growing(b) && |x| <= len && OffStruct(b) + SizeStruct(b) + len + SizeStrings(b) <= Total(b)
    requires 40 <= lo <= hi <= |b| && (hi <= OffStruct(b) + SizeStruct(b) || OffStruct(b) + SizeStruct(b) + len <= lo)
    ensures |Grabbed(b, len, x)| == |b| && Grabbed(b, len, x)[lo..hi] == b[lo..hi]
  {
    hide Hdr, Patch, SetHdr;
    var a := SetHdr(b, H_SIZE_STRUCT, SizeStruct(b) + len);
    SetHdrEffect(b, H_SIZE_STRUCT, SizeStruct(b) + len);
    PatchOutside(a, OffStruct(b) + SizeStruct(b), x, lo, hi);
    TailSlice(a, b, lo, hi);
  }

  lemma GrabbedPut(b: seq<Byte>, len: nat, x: seq<Byte>)
    requires Growing(b) && |x| <= len && OffStruct(b) + SizeStruct(b) + len + SizeStrings(b) <= Total(b)
    ensures var at := OffStruct(b) + SizeStruct(b);
            |Grabbed(b, len, x)| == |b| && Grabbed(b, len, x)[at..at + |x|] == x
  {
    hide Hdr, SetHdr, Patch;
  }

  /** `fdt_grab_space_`: the offset of the new space, or `None`. */
  method GrabSpace(m: array<Byte>, len: nat) returns (r: Option<nat>)
    requires Growing(m[..])
    modifies m
    ensures r.None? <==> old(OffStruct(m[..]) + SizeStruct(m[..]) + len + SizeStrings(m[..])) > old(Total(m[..]))
    ensures r.None? ==> m[..] == old(m[..])
    ensures r.Some? ==> r.value == old(SizeStruct(m[..]))
    ensures r.Some? ==> m[..] == SetHdr(old(m[..]), H_SIZE_STRUCT, old(SizeStruct(m[..])) + len)
  {
    hide Ld32, SetHdr;
    var offset := SizeStruct(m[..]);
    var spaceleft := Total(m[..]) - OffStruct(m[..]) - SizeStrings(m[..]);
    if offset + len > spaceleft {
      return None;
    }
    StoreWord(m, H_SIZE_STRUCT, offset + len);
    r := Some(offset);
  }

  /** `fdt_grab_space_` followed by filling the space, or part of it, with `x`. */
  method GrabAndPut(m: array<Byte>, len: nat, x: seq<Byte>) returns (ok: bool)
    requires Growing(m[..]) && |x| <= len
    modifies m
    ensures ok <==> old(OffStruct(m[..]) + SizeStruct(m[..]) + len + SizeStrings(m[..])) <= old(Total(m[..]))
    ensures !ok ==> m[..] == old(m[..])
    ensures ok ==> m[..] == Grabbed(old(m[..]), len, x)
  {
    hide Hdr, SetHdr, Patch;
    var base := OffStruct(m[..]);
    var off := GrabSpace(m, len);
    if off.None? {
      return false;
    }
    Copy(m, base + off.value, x);
    ok := true;
  }

  /** One more item at the end of the structure block is one more call taken. */
  lemma AppendItem(b: seq<Byte>, es: seq<Event>, b': seq<Byte>, it: Item, e: Event)
    requires Building(b, es) && Growing(b') && Tail(b') == Tail(b) && it != EndTree && it != Nop && e != Dangling
    requires var st, st' := Struct(b), Struct(b');
             |st| <= |st'| && st'[..|st|] == st && Lex(st'[|st|..]) == Some([it])
    requires EventOf(RebaseItem(it, |Tail(b)|), Tail(b)) == [e]
    ensures Building(b', es + [e])
  {
    hide Lex, Events, Growing, Tail, Struct, EventOf;
    var st, st', ss := Struct(b), Struct(b'), Tail(b);
    assert st' == st + st'[|st|..];
    LexConcat(st, st'[|st|..]);
    var items := Lex(st).value;
    RebaseConcat(items, [it], |ss|);
    assert Rebase([it], |ss|) == [RebaseItem(it, |ss|)];
    EventsConcat(Rebase(items, |ss|), Rebase([it], |ss|), ss);
    EventsOne(RebaseItem(it, |ss|), ss);
  }

  // --------------------------------------------------------------------- the calls

  /** `fdt_begin_node` */
  method BeginNode(m: array<Byte>, name: seq<Byte>, ghost es: seq<Event>) returns (err: int)
    requires m.Length >= 40 && NulFree(name) && (ProbeStruct(m[..]) == 0 ==> Building(m[..], es))
    modifies m
    ensures old(ProbeStruct(m[..])) != 0 ==> err == old(ProbeStruct(m[..]))
    ensures old(ProbeStruct(m[..])) == 0 ==>
              err == if old(Used(m[..])) + 4 + Align4(|name| + 1) > old(Total(m[..]))
                     then -FDT_ERR_NOSPACE else 0
    ensures err != 0 ==> m[..] == old(m[..])
    ensures err == 0 ==>
              Building(m[..], es + [Enter(name)]) && SizesOnly(old(m[..]), m[..]) && Rsv(m[..]) == old(Rsv(m[..]))
    ensures err == 0 ==> Used(m[..]) == old(Used(m[..])) + 4 + Align4(|name| + 1)
  {
    hide Hdr, Building, Growing, Align4, Grabbed, Struct, Rsv, SizesOnly, Tail, SwProbe;
    err := ProbeStruct(m[..]);
    if err != 0 { return; }
    ghost var b := m[..];
    BuildingIs(b, es);
    var x := Be32(FDT_BEGIN_NODE) + (name + [0]);
    var ok := GrabAndPut(m, 4 + Align4(|name| + 1), x);
    if !ok {
      return -FDT_ERR_NOSPACE;
    }
    BeganNode(b, es, name, m[..]);
    GrabbedUsed(b, 4 + Align4(|name| + 1), x);
    err := 0;
  }

  lemma BuildingIs(b: seq<Byte>, es: seq<Event>)
    requires Building(b, es)
    ensures Growing(b) && Fields(b) && Dangling !in es && Lex(Struct(b)).Some? && |b| >= 48
  {
  }

  lemma BeganNode(b: seq<Byte>, es: seq<Event>, name: seq<Byte>, b': seq<Byte>)
    requires Building(b, es) && NulFree(name) &&
             OffStruct(b) + SizeStruct(b) + 4 + Align4(|name| + 1) + SizeStrings(b) <= Total(b)
    requires b' == Grabbed(b, 4 + Align4(|name| + 1), Be32(FDT_BEGIN_NODE) + (name + [0]))
    ensures Building(b', es + [Enter(name)]) && SizesOnly(b, b') && Rsv(b') == Rsv(b)
  {
    hide Hdr, Building, Align4, Grabbed, Struct, Lex, Be32, Ld32, Growing, Rsv, SizesOnly, Tail;
    BuildingIs(b, es);
    var x := Be32(FDT_BEGIN_NODE) + (name + [0]);
    GrabbedEffect(b, 4 + Align4(|name| + 1), x);
    var st, st', n := Struct(b), Struct(b'), |Struct(b)|;
    SliceOfSlice(st', n, n + |x|, 0, 4);
    SliceOfSlice(st', n, n + |x|, 4, |x|);
    assert x[0..4] == Be32(FDT_BEGIN_NODE) && x[4..|x|] == name + [0];
    LoadStored(st', n, FDT_BEGIN_NODE);
    BeginLex(st', n, name);
    assert st'[n..] == st'[n..n + 4 + Align4(|name| + 1)];
    AppendItem(b, es, b', Begin(name), Enter(name));
  }

  /** `fdt_end_node` */
  method EndNodeCall(m: array<Byte>, ghost es: seq<Event>) returns (err: int)
    requires m.Length >= 40 && (ProbeStruct(m[..]) == 0 ==> Building(m[..], es))
    modifies m
    ensures old(ProbeStruct(m[..])) != 0 ==> err == old(ProbeStruct(m[..]))
    ensures old(ProbeStruct(m[..])) == 0 ==>
              err == if old(Used(m[..])) + 4 > old(Total(m[..])) then -FDT_ERR_NOSPACE else 0
    ensures err != 0 ==> m[..] == old(m[..])
    ensures err == 0 ==> Building(m[..], es + [Leave]) && SizesOnly(old(m[..]), m[..]) && Rsv(m[..]) == old(Rsv(m[..]))
    ensures err == 0 ==> Used(m[..]) == old(Used(m[..])) + 4
  {
    hide Hdr, Building, Growing, Grabbed, Struct, Rsv, SizesOnly, Tail, SwProbe;
    err := ProbeStruct(m[..]);
    if err != 0 { return; }
    ghost var b := m[..];
    BuildingIs(b, es);
    var ok := GrabAndPut(m, 4, Be32(FDT_END_NODE));
    if !ok {
      return -FDT_ERR_NOSPACE;
    }
    EndedNode(b, es, m[..]);
    GrabbedUsed(b, 4, Be32(FDT_END_NODE));
    err := 0;
  }

  lemma EndedNode(b: seq<Byte>, es: seq<Event>, b': seq<Byte>)
    requires Building(b, es) && OffStruct(b) + SizeStruct(b) + 4 + SizeStrings(b) <= Total(b)
    requires b' == Grabbed(b, 4, Be32(FDT_END_NODE))
    ensures Building(b', es + [Leave]) && SizesOnly(b, b') && Rsv(b') == Rsv(b)
  {
    hide Hdr, Building, Grabbed, Struct, Lex, Be32, Ld32, Growing, Rsv, SizesOnly, Tail;
    BuildingIs(b, es);
    var x := Be32(FDT_END_NODE);
    GrabbedEffect(b, 4, x);
    var st', n := Struct(b'), |Struct(b)|;
    assert st'[n..] == st'[n..n + 4] == x && x[0..4] == x;
    LoadStored(x, 0, FDT_END_NODE);
    LexOne(x, EndNode);
    AppendItem(b, es, b', EndNode, Leave);
  }

  // ------------------------------------------------------------------- the strings

  /** The room check of `fdt_find_add_string_`, on `unsigned int` as in the source. */
  predicate NoRoom(total: nat, strings: nat, len: nat, top: nat) {
    Wrap32(total - strings - len) < top
  }

  /** The check means what it should exactly when the strings are no longer than the whole buffer. */
  lemma NoRoomExact(total: nat, strings: nat, len: nat, top: nat)
    requires total <= INT_MAX && strings + len <= INT_MAX && 0 < top <= total
    ensures (NoRoom(total, strings, len, top) <==> total - strings - len < top) <==> strings + len <= total
  {
    assert Wrap32(total - strings - len) == if strings + len <= total then
             total - strings - len else total - strings - len + TWO32;
  }

  /** A name longer than the buffer is let through. */
  lemma NoRoomWraps()
    ensures !NoRoom(100, 0, 101, 64)
  {
  }

  /** What adding a string leaves: only the strings have grown, downwards by `more`. */
  predicate GrownDown(b: seq<Byte>, b': seq<Byte>, more: seq<Byte>) {
    Growing(b) && Growing(b') && SizesOnly(b, b') && Rsv(b') == Rsv(b) && Struct(b') == Struct(b) &&
    SizeStruct(b') == SizeStruct(b) &&
    Tail(b') == more + Tail(b) && SizeStrings(b') == SizeStrings(b) + |more|
  }

  /** The string `s` begins `dist` bytes before the end of the buffer. */
  predicate NamedFromEnd(b: seq<Byte>, dist: nat, s: seq<Byte>) {
    0 < dist <= SizeStrings(b) && Str(Tail(b), SizeStrings(b) - dist) == Some(s)
  }

  /** The name is among the strings already, or is no longer than what is left of the buffer above them. */
  predicate Nameable(b: seq<Byte>, name: seq<Byte>) {
    Occurs(Tail(b), name) || SizeStrings(b) + |name| + 1 <= Total(b)
  }

  /** `fdt_find_add_string_` of the writer: the name offset is `-dist`, and 0 says there is no room. */
  method FindAddTail(m: array<Byte>, s: seq<Byte>, ghost es: seq<Event>) returns (dist: nat, ghost more: seq<Byte>)
    requires Building(m[..], es) && NulFree(s) && Nameable(m[..], s)
    modifies m
    ensures more == [] || more == s + [0]
    ensures more == [] <==> exists p: nat :: StringAt(old(Tail(m[..])), p, s)
    ensures dist == 0 <==>
              more != [] && old(Used(m[..])) + |s| + 1 > old(Total(m[..]))
    ensures dist == 0 ==> m[..] == old(m[..])
    ensures dist != 0 ==> Building(m[..], es) && GrownDown(old(m[..]), m[..], more) && NamedFromEnd(m[..], dist, s)
  {
    hide Hdr, Building, Growing, Struct, Rsv, Tail, StringAt, Str, SetHdr, Patch, SizesOnly, GrownDown, Occurs;
    ghost var b := m[..];
    BuildingIs(b, es);
    GrowingIs(b);
    var size, total := SizeStrings(m[..]), Total(m[..]);
    var ss := Tail(m[..]);
    var p := FindString(ss, s);
    if p.Some? {
      StringAtIs(ss, p.value, s);
      GrownDownSelf(b);
      return size - p.value, [];
    }
    more := s + [0];
    OccursIff(ss, s);
    var len := |s| + 1;
    var top := OffStruct(m[..]) + SizeStruct(m[..]);
    NoRoomExact(total, size, len, top);
    if NoRoom(total, size, len, top) {
      return 0, more;
    }
    Copy(m, total - size - len, s + [0]);
    StoreWord(m, H_SIZE_STRINGS, size + len);
    PrependEffect(b, es, s, m[..]);
    dist := size + len;
  }

  lemma GrownDownSelf(b: seq<Byte>)
    requires Growing(b)
    ensures GrownDown(b, b, [])
  {
    assert [] + Tail(b) == Tail(b);
  }

  lemma GrowingIs(b: seq<Byte>)
    requires Growing(b)
    ensures |b| >= 48 && 64 <= OffStruct(b) && OffStruct(b) + SizeStruct(b) + SizeStrings(b) <= Total(b) <= |b| &&
            Total(b) <= INT_MAX
    ensures |Tail(b)| == SizeStrings(b) && |Struct(b)| == SizeStruct(b)
  {
    hide Ld32;
  }

  /** The bytes after a string was put below the others. */
  function Prepended(b: seq<Byte>, x: seq<Byte>): seq<Byte>
    requires Growing(b) && OffStruct(b) + SizeStruct(b) + SizeStrings(b) + |x| <= Total(b)
  {
    SetHdr(Patch(b, Total(b) - SizeStrings(b) - |x|, x), H_SIZE_STRINGS, SizeStrings(b) + |x|)
  }

  lemma PrependedHeader(b: seq<Byte>, x: seq<Byte>)
    requires Growing(b) && OffStruct(b) + SizeStruct(b) + SizeStrings(b) + |x| <= Total(b)
    ensures var b' := Prepended(b, x);
            SizesOnly(b, b') && SizeStruct(b') == SizeStruct(b) && SizeStrings(b') == SizeStrings(b) + |x| &&
            Growing(b') &&
            b'[40..] == Patch(b, Total(b) - SizeStrings(b) - |x|, x)[40..]
  {
    hide Ld32, Patch, SetHdr;
    var at := Total(b) - SizeStrings(b) - |x|;
    var a := Patch(b, at, x);
    forall k | 0 <= k < 10 ensures Hdr(a, k) == Hdr(b, k) {
      HdrAfterPatch(b, at, x, k);
    }
    SetHdrEffect(a, H_SIZE_STRINGS, SizeStrings(b) + |x|);
  }

  lemma PrependedBlocks(b: seq<Byte>, x: seq<Byte>)
    requires Growing(b) && OffStruct(b) + SizeStruct(b) + SizeStrings(b) + |x| <= Total(b)
    ensures var b' := Prepended(b, x);
            Growing(b') && SizesOnly(b, b') && SizeStruct(b') == SizeStruct(b) &&
            SizeStrings(b') == SizeStrings(b) + |x| &&
            Struct(b') == Struct(b) && Rsv(b') == Rsv(b) && Tail(b') == x + Tail(b)
  {
    hide Hdr, Patch, Prepended, Struct, Rsv, Tail;
    var b', at, d := Prepended(b, x), Total(b) - SizeStrings(b) - |x|, Total(b);
    var a := Patch(b, at, x);
    PrependedHeader(b, x);
    SwBlocks(b);
    SwBlocks(b');
    TailSlice(b', a, 48, OffStruct(b));
    PatchOutside(b, at, x, 48, OffStruct(b));
    TailSlice(b', a, OffStruct(b), OffStruct(b) + SizeStruct(b));
    PatchOutside(b, at, x, OffStruct(b), OffStruct(b) + SizeStruct(b));
    TailSlice(b', a, at, at + |x|);
    TailSlice(b', a, at + |x|, d);
    PatchOutside(b, at, x, at + |x|, d);
    assert b'[at..d] == b'[at..at + |x|] + b'[at + |x|..d];
  }

  lemma PrependEffect(b: seq<Byte>, es: seq<Event>, s: seq<Byte>, b': seq<Byte>)
    requires Building(b, es) && NulFree(s) && OffStruct(b) + SizeStruct(b) + SizeStrings(b) + |s| + 1 <= Total(b)
    requires b' == Prepended(b, s + [0])
    ensures Building(b', es) && GrownDown(b, b', s + [0]) && SizeStrings(b') == SizeStrings(b) + |s| + 1 &&
            Str(Tail(b'), 0) == Some(s)
  {
    hide Hdr, Prepended, Growing, Lex, Events, Rebase, Tail, Struct, Rsv, SizesOnly, Str;
    BuildingIs(b, es);
    GrowingIs(b);
    PrependedBlocks(b, s + [0]);
    EventsFront(Lex(Struct(b)).value, s + [0], Tail(b));
    var w := Tail(b');
    assert w[0..|s| + 1] == s + [0];
    StringAtIs(w, 0, s);
  }

  // -------------------------------------------------------------------- properties

  /** Bytes that a property takes: its own, and those of its name unless the name occurs already. */
  function PropSize(b: seq<Byte>, name: seq<Byte>, len: nat): nat {
    NewPropSize(Tail(b), name, len)
  }

  /** `fdt_property`, including `fdt_property_placeholder`. */
  method PropertyCall(m: array<Byte>, name: seq<Byte>, val: seq<Byte>, ghost es: seq<Event>) returns (err: int)
    requires m.Length >= 40 && NulFree(name)
    requires ProbeStruct(m[..]) == 0 ==> Building(m[..], es) && Nameable(m[..], name)
    modifies m
    ensures old(ProbeStruct(m[..])) != 0 ==> err == old(ProbeStruct(m[..])) && m[..] == old(m[..])
    ensures old(ProbeStruct(m[..])) == 0 ==>
              err == if old(Used(m[..]) + PropSize(m[..], name, |val|)) > old(Total(m[..]))
                     then -FDT_ERR_NOSPACE else 0
    ensures old(ProbeStruct(m[..])) == 0 ==>
              Building(m[..], if err == 0 then es + [Set(name, val)] else es) && SizesOnly(old(m[..]), m[..]) &&
              Rsv(m[..]) == old(Rsv(m[..]))
    ensures err == 0 ==> Used(m[..]) == old(Used(m[..]) + PropSize(m[..], name, |val|))
  {
    hide Hdr, Building, Growing, Align4, Grabbed, Struct, Rsv, SizesOnly, Tail, SwProbe, GrownDown, NamedFromEnd,
         StringAt, Occurs, Be32;
    err := ProbeStruct(m[..]);
    if err != 0 { return; }
    ghost var b := m[..];
    BuildingIs(b, es);
    GrowingIs(b);
    OccursIff(Tail(b), name);
    var dist, more := FindAddTail(m, name, es);
    if dist == 0 {
      SizesSelf(b);
      return -FDT_ERR_NOSPACE;
    }
    ghost var b1 := m[..];
    GrownDownIs(b, b1, more);
    NamedIs(b1, dist, name);
    var x := PropHeaderOf(|val|, dist) + val;
    var ok := GrabAndPut(m, 12 + Align4(|val|), x);
    if !ok {
      return -FDT_ERR_NOSPACE;
    }
    PropertyAdded(b1, es, name, val, dist, m[..]);
    GrabbedUsed(b1, 12 + Align4(|val|), x);
    SizesTrans(b, b1, m[..]);
    err := 0;
  }

  /** The word that holds the negative name offset `-d`. */
  function Negative(d: int): (w: nat)
    ensures w < TWO32
  {
    Wrap32(-d)
  }

  /** The three words that the writer stores in front of a value; the name offset is negative. */
  function PropHeaderOf(len: nat, dist: nat): (r: seq<Byte>)
    ensures |r| == 12
  {
    Be32(FDT_PROP) + Be32(Wrap32(len)) + Be32(Negative(dist))
  }

  lemma SizesSelf(b: seq<Byte>)
    requires |b| >= 40
    ensures SizesOnly(b, b)
  {
  }

  lemma SizesTrans(a: seq<Byte>, b: seq<Byte>, c: seq<Byte>)
    requires SizesOnly(a, b) && SizesOnly(b, c)
    ensures SizesOnly(a, c)
  {
  }

  lemma GrownDownIs(b: seq<Byte>, b': seq<Byte>, more: seq<Byte>)
    requires GrownDown(b, b', more)
    ensures Growing(b') && SizesOnly(b, b') && Rsv(b') == Rsv(b) && SizeStruct(b') == SizeStruct(b)
    ensures SizeStrings(b') == SizeStrings(b) + |more| && OffStruct(b') == OffStruct(b) &&
            Total(b') == Total(b) <= INT_MAX
  {
  }

  lemma NamedIs(b: seq<Byte>, dist: nat, s: seq<Byte>)
    requires NamedFromEnd(b, dist, s)
    ensures 0 < dist <= SizeStrings(b)
  {
  }

  lemma PropertyAdded(b: seq<Byte>, es: seq<Event>, name: seq<Byte>, val: seq<Byte>, dist: nat, b': seq<Byte>)
    requires Building(b, es) && NamedFromEnd(b, dist, name)
    requires OffStruct(b) + SizeStruct(b) + 12 + Align4(|val|) + SizeStrings(b) <= Total(b)
    requires b' == Grabbed(b, 12 + Align4(|val|), PropHeaderOf(|val|, dist) + val)
    ensures Building(b', es + [Set(name, val)]) && SizesOnly(b, b') && Rsv(b') == Rsv(b)
  {
    hide Hdr, Building, Align4, Grabbed, Struct, Lex, Be32, Ld32, Growing, Rsv, SizesOnly, Tail, Str;
    BuildingIs(b, es);
    GrowingIs(b);
    var h := PropHeaderOf(|val|, dist);
    var x, nameoff := h + val, Negative(dist);
    GrabbedEffect(b, 12 + Align4(|val|), x);
    var st', n := Struct(b'), |Struct(b)|;
    PropertySpelled(st', n, val, dist);
    assert st'[n..] == st'[n..n + 12 + Align4(|val|)];
    assert nameoff == TWO32 - dist && Wrap32(nameoff + |Tail(b)|) == SizeStrings(b) - dist;
    AppendItem(b, es, b', Data(nameoff, val), Set(name, val));
  }

  lemma PropertySpelled(st: seq<Byte>, n: nat, val: seq<Byte>, dist: nat)
    requires |val| < 0xffff_fff4 && n + 12 + Align4(|val|) <= |st|
    requires st[n..n + 12 + |val|] == PropHeaderOf(|val|, dist) + val
    ensures Lex(st[n..n + 12 + Align4(|val|)]) == Some([Data(Negative(dist), val)])
  {
    hide Ld32, Lex, Align4, Be32;
    var h, nameoff := PropHeaderOf(|val|, dist), Negative(dist);
    var x := h + val;
    assert Wrap32(|val|) == |val|;
    ThreeWords(Be32(FDT_PROP), Be32(|val|), Be32(nameoff), val);
    ThreeWords(Be32(FDT_PROP), Be32(|val|), Be32(nameoff), []);
    assert h + [] == h;
    LoadStored(h, 0, FDT_PROP);
    LoadStored(h, 8, nameoff);
    SliceOfSlice(st, n, n + |x|, 0, 4);
    SliceOfSlice(st, n, n + |x|, 4, 8);
    SliceOfSlice(st, n, n + |x|, 8, 12);
    SliceOfSlice(st, n, n + |x|, 12, 12 + |val|);
    DataLex(st, n, nameoff, val, h, 0);
  }
}
