/** The other phases of the sequential writer: `fdt_create`, the reserve map, `fdt_finish`, and whole runs. */
module Finish {
  import opened Bytes
  import opened DeviceTree
  import opened Lexer
  import opened Blob
  import opened Traverse
  import opened Splice
  import opened Rewrite
  import opened ReadWrite
  import opened SeqWrite

  // ------------------------------------------------------------------- first phase

  /** `fdt_create` */
  method Create(m: array<Byte>, bufsize: nat) returns (err: int)
    requires bufsize <= m.Length && bufsize <= INT_MAX
    modifies m
    ensures err == if bufsize < 48 then -FDT_ERR_NOSPACE else 0
    ensures err != 0 ==> m[..] == old(m[..])
    ensures err == 0 ==> Reserving(m[..], 0) && Total(m[..]) == bufsize
  {
    hide Hdr, HdrWords, Patch;
    if bufsize < 48 {
      return -FDT_ERR_NOSPACE;
    }
    Copy(m, 0, seq(bufsize, _ => 0));
    ZeroHeader(m[..], bufsize);
    assert HdrWords(m[..]) == [0, 0, 0, 0, 0, 0, 0, 0, 0, 0];
    StoreField(m, H_MAGIC, FDT_SW_MAGIC);
    StoreField(m, H_VERSION, FDT_LAST_SUPPORTED_VERSION);
    StoreField(m, H_LAST_COMP, FDT_FIRST_SUPPORTED_VERSION);
    StoreField(m, H_TOTALSIZE, bufsize);
    StoreField(m, H_OFF_RSVMAP, 48);
    StoreField(m, H_OFF_STRUCT, 48);
    StoreField(m, H_OFF_STRINGS, 0);
    assert HdrWords(m[..]) == [FDT_SW_MAGIC, bufsize, 48, 0, 48, 17, 2, 0, 0, 0];
    Created(m[..], bufsize);
    err := 0;
  }

  lemma Created(b: seq<Byte>, bufsize: nat)
    requires 48 <= bufsize <= |b| && bufsize <= INT_MAX &&
             HdrWords(b) == [FDT_SW_MAGIC, bufsize, 48, 0, 48, 17, 2, 0, 0, 0]
    ensures Reserving(b, 0) && Total(b) == bufsize
  {
    hide Hdr, HdrWords;
    FieldsOf(b);
  }

  /** The ten header words. */
  function HdrWords(b: seq<Byte>): (r: seq<nat>)
    ensures |r| == 10
  {
    seq(10, k requires 0 <= k < 10 => Hdr(b, k))
  }

  lemma FieldsOf(b: seq<Byte>)
    ensures forall k :: 0 <= k < 10 ==> Hdr(b, k) == HdrWords(b)[k]
  {
    hide Hdr;
  }

  method StoreField(m: array<Byte>, k: nat, v: U32)
    requires k < 10 && m.Length >= 40
    modifies m
    ensures HdrWords(m[..]) == old(HdrWords(m[..]))[k := v]
    ensures m[..][40..] == old(m[..][40..])
  {
    hide Hdr, SetHdr;
    ghost var b := m[..];
    StoreWord(m, k, v);
    SetHdrEffect(b, k, v);
  }

  lemma ZeroHeader(b: seq<Byte>, n: nat)
    requires 40 <= n <= |b| && b[0..n] == seq(n, _ => 0)
    ensures HdrWords(b) == seq(10, _ => 0)
  {
    assert forall i :: 0 <= i < n ==> b[i] == b[0..n][i] == 0;
  }

  /** `fdt_add_reservemap_entry`: sixteen bytes, most significant first. */
  method AddReserve(m: array<Byte>, entry: seq<Byte>, ghost n: nat) returns (err: int)
    requires m.Length >= 40 && |entry| == 16 && (ProbeMemrsv(m[..]) == 0 ==> Reserving(m[..], n))
    modifies m
    ensures old(ProbeMemrsv(m[..])) != 0 ==> err == old(ProbeMemrsv(m[..]))
    ensures old(ProbeMemrsv(m[..])) == 0 ==> err == if old(OffStruct(m[..]) + 16) > old(Total(m[..]))
            then -FDT_ERR_NOSPACE else 0
    ensures err != 0 ==> m[..] == old(m[..])
    ensures err == 0 ==>
              Reserving(m[..], n + 1) && Total(m[..]) == old(Total(m[..])) && Rsv(m[..]) == old(Rsv(m[..])) + entry
  {
    hide Ld32, Patch, SetHdr;
    err := ProbeMemrsv(m[..]);
    if err != 0 { return; }
    ghost var b := m[..];
    var offset := OffStruct(m[..]);
    if offset + 16 > Total(m[..]) {
      return -FDT_ERR_NOSPACE;
    }
    Copy(m, offset, entry);
    StoreWord(m, H_OFF_STRUCT, offset + 16);
    ReservedEntry(b, n, entry, m[..]);
    err := 0;
  }

  lemma ReservedEntry(b: seq<Byte>, n: nat, entry: seq<Byte>, b': seq<Byte>)
    requires Reserving(b, n) && |entry| == 16 && OffStruct(b) + 16 <= Total(b)
    requires b' == SetHdr(Patch(b, OffStruct(b), entry), H_OFF_STRUCT, OffStruct(b) + 16)
    ensures Reserving(b', n + 1) && Total(b') == Total(b) && Rsv(b') == Rsv(b) + entry
  {
    hide Ld32, Patch, SetHdr;
    var o := OffStruct(b);
    var a := Patch(b, o, entry);
    forall k | 0 <= k < 10 ensures Hdr(a, k) == Hdr(b, k) {
      HdrAfterPatch(b, o, entry, k);
    }
    SetHdrEffect(a, H_OFF_STRUCT, o + 16);
    PatchOutside(b, o, entry, 48, o);
    TailSlice(b', a, 48, o);
    TailSlice(b', a, o, o + 16);
    assert b'[48..o + 16] == b'[48..o] + b'[o..o + 16];
  }

  /** `fdt_finish_reservemap` */
  method FinishReserve(m: array<Byte>, ghost n: nat) returns (err: int)
    requires m.Length >= 40 && (ProbeMemrsv(m[..]) == 0 ==> Reserving(m[..], n))
    modifies m
    ensures old(ProbeMemrsv(m[..])) != 0 ==> err == old(ProbeMemrsv(m[..]))
    ensures old(ProbeMemrsv(m[..])) == 0 ==> err == if old(OffStruct(m[..]) + 16) > old(Total(m[..]))
            then -FDT_ERR_NOSPACE else 0
    ensures err != 0 ==> m[..] == old(m[..])
    ensures err == 0 ==>
              Building(m[..], []) && Total(m[..]) == old(Total(m[..])) &&
              OffStruct(m[..]) == old(OffStruct(m[..])) + 16 &&
              Used(m[..]) == OffStruct(m[..]) &&
              Rsv(m[..]) == old(Rsv(m[..])) + seq(16, _ => 0)
  {
    hide Ld32, Patch, SetHdr, Building;
    err := AddReserve(m, seq(16, _ => 0), n);
    if err != 0 { return; }
    ghost var b := m[..];
    StoreWord(m, H_OFF_STRINGS, Total(m[..]));
    StartBuilding(b, n + 1, m[..]);
  }

  lemma StartBuilding(b: seq<Byte>, n: nat, b': seq<Byte>)
    requires Reserving(b, n) && n > 0 && b' == SetHdr(b, H_OFF_STRINGS, Total(b))
    ensures Building(b', []) && Total(b') == Total(b) && OffStruct(b') == OffStruct(b) && Rsv(b') == Rsv(b) &&
            Used(b') == OffStruct(b)
  {
    hide Ld32, SetHdr;
    SetHdrEffect(b, H_OFF_STRINGS, Total(b));
    TailSlice(b', b, 48, OffStruct(b));
    assert Struct(b') == [];
    assert Rebase([], |Tail(b')|) == [];
  }

  // -------------------------------------------------------------------- fdt_finish

  /** Blocks depend on the bytes after the header and on five header words. */
  lemma SameBody(b: seq<Byte>, b': seq<Byte>)
    requires Ordered(b) && |b'| == |b| && b'[40..] == b[40..]
    requires forall k :: 0 <= k < 10 && k != H_MAGIC && k != H_TOTALSIZE ==> Hdr(b', k) == Hdr(b, k)
    requires DataSize(b) <= Total(b') <= |b'| && Total(b') <= INT_MAX
    ensures Ordered(b') && Struct(b') == Struct(b) && Strings(b') == Strings(b) && Rsv(b') == Rsv(b)
  {
    hide Ld32;
    TailSlice(b', b, OffRsv(b), OffStruct(b));
    TailSlice(b', b, OffStruct(b), OffStruct(b) + SizeStruct(b));
    TailSlice(b', b, OffStrings(b), DataSize(b));
  }

  /** The bytes after the terminator was stored, the strings moved down and their offset set. */
  function Joined(b: seq<Byte>): seq<Byte>
    requires Growing(b) && OffStruct(b) + SizeStruct(b) + 4 + SizeStrings(b) <= Total(b)
  {
    var b1 := Grabbed(b, 4, Be32(FDT_END));
    var to := OffStruct(b) + SizeStruct(b) + 4;
    GrabbedHeader(b, 4, Be32(FDT_END));
    SetHdr(Patch(b1, to, b1[Total(b) - SizeStrings(b)..Total(b)]), H_OFF_STRINGS, to)
  }

  lemma JoinedHeader(b: seq<Byte>)
    requires Growing(b) && OffStruct(b) + SizeStruct(b) + 4 + SizeStrings(b) <= Total(b)
    ensures var b', b1, to := Joined(b), Grabbed(b, 4, Be32(FDT_END)), OffStruct(b) + SizeStruct(b) + 4;
            |b1| == |b| && |b'| == |b| && b'[40..] == Patch(b1, to, b1[Total(b) - SizeStrings(b)..Total(b)])[40..] &&
            SizeStruct(b') == SizeStruct(b) + 4 && OffStrings(b') == to &&
            (forall k :: 0 <= k < 10 && k != H_OFF_STRINGS && k != H_SIZE_STRUCT ==> Hdr(b', k) == Hdr(b, k))
  {
    hide Hdr, Patch, SetHdr, Grabbed, Be32;
    var b1, to := Grabbed(b, 4, Be32(FDT_END)), OffStruct(b) + SizeStruct(b) + 4;
    GrabbedHeader(b, 4, Be32(FDT_END));
    var s := b1[Total(b) - SizeStrings(b)..Total(b)];
    var b2 := Patch(b1, to, s);
    forall k | 0 <= k < 10 ensures Hdr(b2, k) == Hdr(b1, k) {
      HdrAfterPatch(b1, to, s, k);
    }
    SetHdrEffect(b2, H_OFF_STRINGS, to);
  }

  lemma JoinedSlice(b: seq<Byte>, lo: nat, hi: nat)
    requires Growing(b) && OffStruct(b) + SizeStruct(b) + 4 + SizeStrings(b) <= Total(b)
    requires 40 <= lo <= hi <= OffStruct(b) + SizeStruct(b) + 4
    ensures |Joined(b)| == |b| == |Grabbed(b, 4, Be32(FDT_END))| &&
            Joined(b)[lo..hi] == Grabbed(b, 4, Be32(FDT_END))[lo..hi]
  {
    hide Hdr, Patch, Grabbed, Be32, Joined;
    var b1, to := Grabbed(b, 4, Be32(FDT_END)), OffStruct(b) + SizeStruct(b) + 4;
    JoinedHeader(b);
    var s := b1[Total(b) - SizeStrings(b)..Total(b)];
    TailSlice(Joined(b), Patch(b1, to, s), lo, hi);
    PatchOutside(b1, to, s, lo, hi);
  }

  /** Joining keeps both blocks, with the terminator between them. */
  lemma JoinedEffect(b: seq<Byte>)
    requires Growing(b) && OffStruct(b) + SizeStruct(b) + 4 + SizeStrings(b) <= Total(b)
    ensures var b' := Joined(b);
            Readable(b') && Struct(b') == Struct(b) + Be32(FDT_END) && Strings(b') == Tail(b) && Rsv(b') == Rsv(b)
  {
    hide Hdr, Patch, SetHdr, Struct, Strings, Rsv, Tail, Grabbed, Be32, Joined;
    var x := Be32(FDT_END);
    var b', b1, o, to := Joined(b), Grabbed(b, 4, x), OffStruct(b), OffStruct(b) + SizeStruct(b) + 4;
    GrabbedHeader(b, 4, x);
    GrabbedEffect(b, 4, x);
    JoinedHeader(b);
    assert Ordered(b');
    Blocks(b');
    SwBlocks(b);
    SwBlocks(b1);
    JoinedSlice(b, 48, o);
    JoinedSlice(b, o, to);
    var s := b1[Total(b) - SizeStrings(b)..Total(b)];
    TailSlice(b', Patch(b1, to, s), to, to + |s|);
    var st := Struct(b1);
    assert st == st[..SizeStruct(b)] + st[SizeStruct(b)..SizeStruct(b) + 4];
  }

  /** The structure block with the name offsets of its first `k` items corrected by `n`. */
  predicate Corrected(st: seq<Byte>, o: int, items: seq<Item>, k: nat, n: nat) {
    0 <= o <= |st| && o % 4 == 0 && k <= |items| &&
    Lex(st[..o]) == Some(Rebase(items[..k], n)) && Lex(st[o..]) == Some(items[k..] + [EndTree])
  }

  lemma CorrectedItem(st: seq<Byte>, o: int, items: seq<Item>, k: nat, n: nat)
    requires Corrected(st, o, items, k, n)
    ensures o < |st| && First(st[o..]).Some?
    ensures var it := First(st[o..]).value;
            it == (if k < |items| then items[k] else EndTree) && Spells(st[o..], it) &&
            NextTag(st, o) == Step(it.Tag(), o + it.Size()) && o + it.Size() <= |st|
  {
    hide First, Spells, NextTag, Item.Size, Item.Tag, Rebase;
    var rest := st[o..];
    assert Lex(rest).value[0] == First(rest).value;
    FirstSpells(rest);
    SpellsSize(rest, First(rest).value);
    NextTagSpelled(st, o, First(rest).value);
  }

  lemma CorrectedStep(st: seq<Byte>, o: int, items: seq<Item>, k: nat, n: nat, st': seq<Byte>, it: Item)
    requires Corrected(st, o, items, k, n) && k < |items| && it == items[k] && o + it.Size() <= |st|
    requires |st'| == |st| && st'[..o] == st[..o] && st'[o + it.Size()..] == st[o + it.Size()..]
    requires Lex(st'[o..o + it.Size()]) == Some([RebaseItem(it, n)]) && First(st[o..]) == Some(it)
    ensures Corrected(st', o + it.Size(), items, k + 1, n)
  {
    hide First, Item.Size, RebaseItem;
    var z, rest := it.Size(), st[o..];
    assert st'[..o + z] == st'[..o] + st'[o..o + z];
    LexConcat(st'[..o], st'[o..o + z]);
    assert rest[z..] == st[o + z..];
    assert items[k..] + [EndTree] == [it] + (items[k + 1..] + [EndTree]);
    assert Lex(rest).value[1..] == Lex(rest[z..]).value;
    assert items[..k + 1] == items[..k] + [it];
    RebaseConcat(items[..k], [it], n);
    assert Rebase([it], n) == [RebaseItem(it, n)];
    Mod4Add(o, z);
  }

  /** A property with a new name offset stored over the old one. */
  lemma RenamedData(st: seq<Byte>, o: nat, it: Item, nameoff: U32)
    requires o + it.Size() <= |st| && it.Data? && Spells(st[o..], it)
    ensures var st', z := Patch(st, o + 8, Be32(nameoff)), it.Size();
            st'[..o] == st[..o] && st'[o + z..] == st[o + z..] && Lex(st'[o..o + z]) == Some([Data(nameoff, it.value)])
  {
    hide Ld32, Lex, Patch, Align4, Be32;
    var st', z := Patch(st, o + 8, Be32(nameoff)), it.Size();
    DataSpelled(st, o, it);
    PatchOutside(st, o + 8, Be32(nameoff), 0, o);
    PatchOutside(st, o + 8, Be32(nameoff), o, o + 4);
    PatchOutside(st, o + 8, Be32(nameoff), o + 4, o + 8);
    PatchOutside(st, o + 8, Be32(nameoff), o + 12, o + 12 + |it.value|);
    PatchOutside(st, o + 8, Be32(nameoff), o + z, |st|);
    LoadSame(st', o, st, o);
    StoreLoaded(st, o + 4);
    LoadStored(st', o + 8, nameoff);
    DataLex(st', o, nameoff, it.value, st', o);
  }

  lemma SameItem(st: seq<Byte>, o: nat, it: Item)
    requires o + it.Size() <= |st| && Spells(st[o..], it)
    ensures Lex(st[o..o + it.Size()]) == Some([it])
  {
    hide Lex, Spells, Item.Size;
    var z := it.Size();
    SuffixFront(st, o, z);
    assert st[o..o + z][..z] == st[o..o + z];
    SpellsSame(st[o..], st[o..o + z], it);
    LexOne(st[o..o + z], it);
  }

  /** The loop of `fdt_finish` over the structure block. */
  method CorrectOffsets(m: array<Byte>, ghost items: seq<Item>) returns (next: int)
    requires Readable(m[..]) && Lex(Struct(m[..])) == Some(items + [EndTree]) && EndTree !in items
    modifies m
    ensures next >= 0 && Frame(old(m[..]), m[..]) && Readable(m[..]) &&
            SizeStruct(m[..]) == old(SizeStruct(m[..])) && DataSize(m[..]) == old(DataSize(m[..]))
    ensures SizeStrings(m[..]) == old(SizeStrings(m[..]))
    ensures Lex(Struct(m[..])) == Some(Rebase(items, SizeStrings(m[..])) + [EndTree])
  {
    hide Ordered, Hdr, Frame, Struct, Strings, Lex, Corrected, First, Spells, NextTag, Item.Size, Patch, RebaseItem,
         Rebase, Be32, Ld32;
    ghost var b := m[..];
    var n := SizeStrings(m[..]);
    var offset := 0;
    ghost var k := 0;
    CorrectedStart(Struct(b), items, n);
    FrameSelf(b);
    var tag;
    while true
      invariant Readable(m[..]) && Frame(b, m[..]) && SizeStruct(m[..]) == SizeStruct(b) &&
                DataSize(m[..]) == DataSize(b) && SizeStrings(m[..]) == n
      invariant Corrected(Struct(m[..]), offset, items, k, n)
      invariant k <= |items| && 0 <= offset <= INT_MAX
      decreases |items| - k
    {
      ghost var st := Struct(m[..]);
      CorrectedItem(st, offset, items, k, n);
      ghost var it := First(st[offset..]).value;
      Bounds(m[..]);
      tag, next := NextTagIn(m[..], offset);
      if tag == FDT_END {
        TagEnd(items, k);
        break;
      }
      if tag == FDT_PROP {
        DataSpelled(st, offset, it);
        var nameoff := Ld32(Struct(m[..]), offset + 8);
        var fixed := Wrap32(nameoff + n);
        RenamedData(st, offset, it, fixed);
        RebasedData(it, n);
        ghost var b1 := m[..];
        PutStruct(m, offset + 8, Be32(fixed));
        FrameTrans(b, b1, m[..]);
        FrameReadable(b1, m[..]);
        CorrectedStep(st, offset, items, k, n, Struct(m[..]), it);
      } else {
        SameItem(st, offset, it);
        RebasedOther(it, n);
        CorrectedStep(st, offset, items, k, n, st, it);
      }
      offset := next;
      k := k + 1;
    }
    CorrectedEnd(Struct(m[..]), offset, items, k, n);
  }

  lemma FrameSelf(b: seq<Byte>)
    requires Ordered(b)
    ensures Frame(b, b)
  {
  }

  lemma FrameReadable(b: seq<Byte>, b': seq<Byte>)
    requires Frame(b, b') && Readable(b)
    ensures Readable(b') && SizeStrings(b') == SizeStrings(b)
  {
  }

  lemma TagEnd(items: seq<Item>, k: nat)
    requires EndTree !in items && k <= |items| && (if k < |items| then items[k] else EndTree).Tag() == FDT_END
    ensures k == |items|
  {
  }

  lemma RebasedData(it: Item, n: nat)
    requires it.Tag() == FDT_PROP
    ensures it.Data? && RebaseItem(it, n) == Data(Wrap32(it.nameoff + n), it.value)
  {
  }

  lemma RebasedOther(it: Item, n: nat)
    requires it.Tag() != FDT_PROP
    ensures RebaseItem(it, n) == it
  {
  }

  lemma CorrectedStart(st: seq<Byte>, items: seq<Item>, n: nat)
    requires Lex(st) == Some(items + [EndTree])
    ensures Corrected(st, 0, items, 0, n)
  {
    hide First;
    assert st[..0] == [] && st[0..] == st && items[..0] == [] && items[0..] == items && Rebase([], n) == [];
    assert Lex([]) == Some([]);
  }

  lemma CorrectedEnd(st: seq<Byte>, o: int, items: seq<Item>, k: nat, n: nat)
    requires Corrected(st, o, items, k, n) && k == |items|
    ensures Lex(st) == Some(Rebase(items, n) + [EndTree])
  {
    hide First, Lex;
    assert st == st[..o] + st[o..] && items[..k] == items && items[k..] + [EndTree] == [EndTree];
    LexConcat(st[..o], st[o..]);
  }

  /** A finished blob that spells the calls and then the end. */
  predicate Finished(b: seq<Byte>, es: seq<Event>) {
    Complete(b) && Spelled(b, es + [DeviceTree.Finish]) && Total(b) == DataSize(b) &&
    OffStrings(b) == OffStruct(b) + SizeStruct(b) && NopFree(b)
  }

  /** The writer leaves no NOPs. */
  predicate NopFree(b: seq<Byte>) {
    Lex(Struct(b)).Some? && Nop !in Lex(Struct(b)).value
  }

  lemma RebasedNops(items: seq<Item>, n: nat)
    requires Nop !in items
    ensures Nop !in Rebase(items, n) + [EndTree]
  {
    var r := Rebase(items, n);
    forall i | 0 <= i < |r| ensures r[i] != Nop {
      assert items[i] in items;
    }
  }

  /** `fdt_finish` */
  method FinishCall(m: array<Byte>, ghost es: seq<Event>) returns (err: int)
    requires m.Length >= 40 && (ProbeStruct(m[..]) == 0 ==> Building(m[..], es))
    modifies m
    ensures old(ProbeStruct(m[..])) != 0 ==> err == old(ProbeStruct(m[..]))
    ensures old(ProbeStruct(m[..])) == 0 ==>
              err == if old(Used(m[..])) + 4 > old(Total(m[..])) then -FDT_ERR_NOSPACE else 0
    ensures err != 0 ==> m[..] == old(m[..])
    ensures err == 0 ==> Finished(m[..], es) && Rsv(m[..]) == old(Rsv(m[..])) && Strings(m[..]) == old(Tail(m[..]))
  {
    hide Hdr, Building, Growing, Grabbed, Struct, Strings, Rsv, Tail, SwProbe, Be32, Lex, Events, Rebase, Frame,
         Ordered, Readable, Finished, Patch, SetHdr, HdrWords;
    err := ProbeStruct(m[..]);
    if err != 0 { return; }
    ghost var b := m[..];
    BuildingIs(b, es);
    GrowingIs(b);
    var ok := GrabAndPut(m, 4, Be32(FDT_END));
    if !ok {
      return -FDT_ERR_NOSPACE;
    }
    GrabbedHeader(b, 4, Be32(FDT_END));
    var oldoff := Total(m[..]) - SizeStrings(m[..]);
    var newoff := OffStruct(m[..]) + SizeStruct(m[..]);
    Move(m, newoff, oldoff, SizeStrings(m[..]));
    StoreWord(m, H_OFF_STRINGS, newoff);
    assert m[..] == Joined(b);
    JoinedEffect(b);
    JoinedHeader(b);
    ghost var items := Lex(Struct(b)).value;
    JoinedItems(b, es);
    var next := CorrectOffsets(m, items);
    if next < 0 {
      return next;
    }
    ghost var b2 := m[..];
    StoreField(m, H_TOTALSIZE, newoff + SizeStrings(m[..]));
    StoreField(m, H_MAGIC, FDT_MAGIC);
    FinishedIs(b, es, items, b2, m[..]);
    err := 0;
  }

  lemma JoinedItems(b: seq<Byte>, es: seq<Event>)
    requires Building(b, es) && OffStruct(b) + SizeStruct(b) + 4 + SizeStrings(b) <= Total(b)
    ensures EndTree !in Lex(Struct(b)).value
    ensures Lex(Struct(Joined(b))) == Some(Lex(Struct(b)).value + [EndTree])
  {
    hide Hdr, Struct, Joined, Lex, Be32, Ld32, Events, Tail;
    JoinedEffect(b);
    var x := Be32(FDT_END);
    assert x[0..4] == x;
    LoadStored(x, 0, FDT_END);
    LexOne(x, EndTree);
    LexConcat(Struct(b), x);
  }

  /** The events of the corrected items are the calls, and then the end. */
  lemma FinishedEvents(b: seq<Byte>, es: seq<Event>)
    requires Building(b, es)
    ensures Events(Rebase(Lex(Struct(b)).value, |Tail(b)|) + [EndTree], Tail(b)) == es + [DeviceTree.Finish]
  {
    hide Lex, Events, Struct, Tail, Rebase;
    EventsConcat(Rebase(Lex(Struct(b)).value, |Tail(b)|), [EndTree], Tail(b));
    EventsOne(EndTree, Tail(b));
  }

  lemma FinishedIs(b: seq<Byte>, es: seq<Event>, items: seq<Item>, b2: seq<Byte>, b3: seq<Byte>)
    requires Building(b, es) && OffStruct(b) + SizeStruct(b) + 4 + SizeStrings(b) <= Total(b) &&
             items == Lex(Struct(b)).value
    requires Frame(Joined(b), b2) && Readable(b2) && SizeStruct(b2) == SizeStruct(b) + 4 &&
             DataSize(b2) == DataSize(Joined(b))
    requires Lex(Struct(b2)) == Some(Rebase(items, SizeStrings(b2)) + [EndTree])
    requires |b3| == |b2| && b3[40..] == b2[40..]
    requires var total := OffStruct(b) + SizeStruct(b) + 4 + SizeStrings(b);
             HdrWords(b3) == HdrWords(b2)[H_TOTALSIZE := total][H_MAGIC := FDT_MAGIC]
    ensures Finished(b3, es) && Rsv(b3) == Rsv(b) && Strings(b3) == Tail(b)
  {
    hide Hdr, Struct, Strings, Rsv, Tail, Joined, Lex, Events, Rebase, HdrWords;
    BuildingIs(b, es);
    GrowingIs(b);
    JoinedEffect(b);
    JoinedHeader(b);
    FieldsOf(b2);
    FieldsOf(b3);
    SameBody(b2, b3);
    FinishedEvents(b, es);
    RebasedNops(items, SizeStrings(b2));
  }

  // -------------------------------------------------------------------- whole runs

  /** A call of the second phase. */
  method Call(m: array<Byte>, e: Event, ghost es: seq<Event>) returns (err: int)
    requires Building(m[..], es) && Plain(e) && !Unnameable(e, m[..])
    modifies m
    ensures Building(m[..], if err == 0 then es + [e] else es) && SizesOnly(old(m[..]), m[..]) &&
            Rsv(m[..]) == old(Rsv(m[..]))
    ensures err == 0 || err == -FDT_ERR_NOSPACE
    ensures old(Used(m[..])) + Need(e) <= old(Total(m[..])) ==> err == 0 && Used(m[..]) <= old(Used(m[..])) + Need(e)
  {
    hide Hdr, Building, Rsv, SizesOnly, Tail, Align4, PropSize;
    BuildingProbes(m[..], es);
    SizesSelf(m[..]);
    if e.Set? { PropNeed(m[..], e.name, |e.value|); }
    match e
    case Enter(name) => err := BeginNode(m, name, es);
    case Leave => err := EndNodeCall(m, es);
    case Set(name, value) => err := PropertyCall(m, name, value, es);
  }

  /** Bytes that a call takes at most. */
  function Need(e: Event): nat {
    match e
    case Enter(name) => 4 + Align4(|name| + 1)
    case Leave => 4
    case Set(name, value) => 12 + Align4(|value|) + |name| + 1
    case _ => 0
  }

  function NeedAll(es: seq<Event>): nat {
    if es == [] then 0 else NeedAll(es[..|es| - 1]) + Need(es[|es| - 1])
  }

  lemma {:induction false} NeedMore(es: seq<Event>, k: nat)
    requires k <= |es|
    ensures NeedAll(es[..k]) <= NeedAll(es)
    decreases |es| - k
  {
    hide Need;
    if k == |es| {
      assert es[..k] == es;
    } else {
      assert es[..k + 1][..k] == es[..k];
      NeedMore(es, k + 1);
    }
  }

  lemma PropNeed(b: seq<Byte>, name: seq<Byte>, len: nat)
    ensures PropSize(b, name, len) <= 12 + Align4(len) + |name| + 1
  {
    hide Tail;
  }

  lemma BuildingProbes(b: seq<Byte>, es: seq<Event>)
    requires Building(b, es)
    ensures |b| >= 40 && ProbeStruct(b) == 0
  {
    hide Ld32;
  }

  predicate Calls(es: seq<Event>) {
    forall e :: e in es ==> Plain(e)
  }

  predicate Plain(e: Event) {
    match e case Enter(name) => NulFree(name) case Leave => true case Set(name, _) => NulFree(name) case _ => false
  }

  /** A new name that cannot be put above the strings without wrapping the room check. */
  predicate Unnameable(e: Event, b: seq<Byte>) {
    e.Set? && !Nameable(b, e.name)
  }

  /**
   A whole run: create, finish the reserve map, make the calls, finish. If it succeeds, reading
   the blob back gives exactly the calls made. A new name longer than the buffer stops it, since the
   writer's own check would not.
   */
  method WriteAll(m: array<Byte>, bufsize: nat, calls: seq<Event>) returns (err: int)
    requires bufsize <= m.Length && bufsize <= INT_MAX && Calls(calls)
    modifies m
    ensures err == 0 ==> Finished(m[..], calls)
    ensures err == 0 || err == -FDT_ERR_NOSPACE
    ensures 64 + NeedAll(calls) + 4 <= bufsize ==> err == 0
  {
    hide Hdr, Building, Rsv, SizesOnly, Tail, Reserving, Finished;
    err := Create(m, bufsize);
    if err != 0 { return; }
    ReservingProbes(m[..]);
    err := FinishReserve(m, 0);
    if err != 0 { return; }
    var i := 0;
    while i < |calls|
      invariant 0 <= i <= |calls| && Building(m[..], calls[..i]) && Total(m[..]) == bufsize
      invariant 64 + NeedAll(calls) + 4 <= bufsize ==> Used(m[..]) <= 64 + NeedAll(calls[..i])
    {
      NeedMore(calls, i + 1);
      assert calls[..i + 1][..i] == calls[..i];
      ghost var b := m[..];
      if Unnameable(calls[i], m[..]) {
        return -FDT_ERR_NOSPACE;
      }
      assert calls[i] in calls;
      err := Call(m, calls[i], calls[..i]);
      if err != 0 { return; }
      SameTotal(b, m[..]);
      assert calls[..i + 1] == calls[..i] + [calls[i]];
      i := i + 1;
    }
    assert calls[..i] == calls;
    BuildingProbes(m[..], calls);
    err := FinishCall(m, calls);
  }

  lemma SameTotal(b: seq<Byte>, b': seq<Byte>)
    requires SizesOnly(b, b')
    ensures Total(b') == Total(b)
  {
  }

  lemma ReservingProbes(b: seq<Byte>)
    requires Reserving(b, 0)
    ensures |b| >= 40 && ProbeMemrsv(b) == 0 && OffStruct(b) == 48
  {
    hide Ld32;
  }

  /** The calls that spell a tree give a blob that holds it. */
  lemma WrittenTree(b: seq<Byte>, t: Node)
    requires Finished(b, Flatten(t))
    ensures Holds(b, t)
  {
  }

  /** Every tree that fits has a blob that holds it. */
  method WriteTree(t: Node) returns (m: array<Byte>)
    requires Calls(Flatten(t)) && 64 + NeedAll(Flatten(t)) + 4 <= INT_MAX
    ensures Holds(m[..], t) && NodeOff(m[..], t, [], 0)
  {
    hide Flatten, Calls, Holds, Finished, NodeOff;
    var size := 64 + NeedAll(Flatten(t)) + 4;
    m := new Byte[size](_ => 0);
    var err := WriteAll(m, size, Flatten(t));
    WrittenTree(m[..], t);
    RootWritten(m[..], t);
  }

  /** The root is at offset 0. */
  lemma RootWritten(b: seq<Byte>, t: Node)
    requires Finished(b, Flatten(t))
    ensures NodeOff(b, t, [], 0)
  {
    hide Events, Forest, Ordered, First;
    MarkEnds(Struct(b), Strings(b));
    var items := Lex(Struct(b)).value;
    assert items[0] in items;
  }

  /** Walking the finished blob with `fdt_next_tag` yields its events in order. */
  method ReadAll(b: seq<Byte>, ghost es: seq<Event>) returns (read: seq<Event>)
    requires Finished(b, es) && Calls(es)
    ensures read == es
  {
    hide Hdr, Ordered, Struct, Strings, Lex, Events, NextTag, AtMark, NodeMark, PropMark, Spells, First, EventOf,
         Finished, Item.Size;
    FinishedMark(b, es);
    read := [];
    var offset := 0;
    ghost var all := es + [DeviceTree.Finish];
    while true
      invariant Readable(b) && AtMark(b, all, offset, |read|) && |read| <= |es| && read == es[..|read|] &&
                0 <= offset <= INT_MAX
      decreases |es| - |read|, |Struct(b)| - offset
    {
      AtTag(b, all, offset, |read|);
      ghost var k := |read|;
      if k < |es| { assert es[k] in es; }
      var tag, next := NextTagIn(b, offset);
      if tag == FDT_END {
        return;
      } else if tag == FDT_BEGIN_NODE {
        var name := GetName(b, offset, all, k);
        read := read + [Enter(name)];
      } else if tag == FDT_END_NODE {
        read := read + [Leave];
      } else if tag == FDT_PROP {
        var nameoff, value := PropAt(b, offset, all, k);
        var name := GetString(b, nameoff);
        read := read + [Set(name.value, value)];
      }
      offset := next;
    }
  }

  lemma FinishedMark(b: seq<Byte>, es: seq<Event>)
    requires Finished(b, es)
    ensures Readable(b) && AtMark(b, es + [DeviceTree.Finish], 0, 0)
  {
    hide Lex, Events, Ordered;
    MarkEnds(Struct(b), Strings(b));
  }
}
