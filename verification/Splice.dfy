/** The byte-moving helpers of fdt_rw.c and what they do to the blocks of a blob. */
module Splice {
  import opened Bytes
  import opened Lexer
  import opened Blob

  /** Everything a change confined to the structure block leaves alone. */
  predicate Frame(b: seq<Byte>, b': seq<Byte>) {
    Ordered(b) && Ordered(b') && |b'| == |b| &&
    (forall k :: 0 <= k < 10 && k != H_OFF_STRINGS && k != H_SIZE_STRUCT ==> Hdr(b', k) == Hdr(b, k)) &&
    Rsv(b') == Rsv(b) && Strings(b') == Strings(b)
  }

  lemma FrameTrans(a: seq<Byte>, b: seq<Byte>, c: seq<Byte>)
    requires Frame(a, b) && Frame(b, c)
    ensures Frame(a, c)
  {
  }

  lemma FrameComplete(b: seq<Byte>, b': seq<Byte>)
    requires Frame(b, b') && Complete(b)
    ensures Complete(b')
  {
  }

  /** `fdt_splice_` */
  method SpliceAt(m: array<Byte>, p: nat, oldlen: nat, newlen: nat) returns (err: int)
    requires m.Length >= 40 && Total(m[..]) <= m.Length && DataSize(m[..]) <= m.Length
    modifies m
    ensures err == if p + oldlen > old(DataSize(m[..])) then -FDT_ERR_BADOFFSET
                   else if old(DataSize(m[..])) - oldlen + newlen > old(Total(m[..])) then -FDT_ERR_NOSPACE else 0
    ensures err != 0 ==> m[..] == old(m[..])
    ensures err == 0 ==> m[..] == Patch(old(m[..]), p + newlen, old(m[p + oldlen..DataSize(m[..])]))
  {
    var end := DataSize(m[..]);
    if p + oldlen > end {
      return -FDT_ERR_BADOFFSET;
    }
    if end - oldlen + newlen < 0 {
      return -FDT_ERR_BADOFFSET;
    }
    if end - oldlen + newlen > Total(m[..]) {
      return -FDT_ERR_NOSPACE;
    }
    Move(m, p + newlen, p + oldlen, end - p - oldlen);
    err := 0;
  }

  /**
   `b'` is `b` with `oldlen` bytes at `o` of the structure block made into `newlen` bytes: those that fit are
   still there, what follows has moved, and any others are unspecified.
   */
  predicate Spliced(b: seq<Byte>, b': seq<Byte>, o: nat, oldlen: nat, newlen: nat) {
    Frame(b, b') && o + oldlen <= SizeStruct(b) &&
    SizeStruct(b') == SizeStruct(b) - oldlen + newlen &&
    DataSize(b') == DataSize(b) - oldlen + newlen &&
    (var k := o + Min(oldlen, newlen); Struct(b')[..k] == Struct(b)[..k]) &&
    Struct(b')[o + newlen..] == Struct(b)[o + oldlen..]
  }

  function Min(a: int, b: int): int {
    if a < b then a else b
  }

  /** The bytes after the move and the two header updates of `fdt_splice_struct_`. */
  function SpliceBytes(b: seq<Byte>, o: nat, oldlen: nat, newlen: nat): seq<Byte>
    requires Ordered(b) && o + oldlen <= SizeStruct(b) && DataSize(b) - oldlen + newlen <= Total(b)
  {
    var p := OffStruct(b) + o;
    var moved := Patch(b, p + newlen, b[p + oldlen..DataSize(b)]);
    var sized := SetHdr(moved, H_SIZE_STRUCT, SizeStruct(b) - oldlen + newlen);
    SetHdr(sized, H_OFF_STRINGS, OffStrings(b) - oldlen + newlen)
  }

  lemma SpliceHeader(b: seq<Byte>, o: nat, oldlen: nat, newlen: nat)
    requires Ordered(b) && o + oldlen <= SizeStruct(b) && DataSize(b) - oldlen + newlen <= Total(b)
    ensures var b' := SpliceBytes(b, o, oldlen, newlen);
            var p := OffStruct(b) + o;
            |b'| == |b| &&
            b'[40..] == Patch(b, p + newlen, b[p + oldlen..DataSize(b)])[40..] &&
            (forall k :: 0 <= k < 10 ==>
               Hdr(b', k) == (if k == H_SIZE_STRUCT then SizeStruct(b) - oldlen + newlen
                              else if k == H_OFF_STRINGS then OffStrings(b) - oldlen + newlen
                              else Hdr(b, k)))
  {
    hide Ld32, Patch, SetHdr;
    var p := OffStruct(b) + o;
    var moved := Patch(b, p + newlen, b[p + oldlen..DataSize(b)]);
    forall k | 0 <= k < 10 ensures Hdr(moved, k) == Hdr(b, k) {
      HdrAfterPatch(b, p + newlen, b[p + oldlen..DataSize(b)], k);
    }
    SetHdrEffect(moved, H_SIZE_STRUCT, SizeStruct(b) - oldlen + newlen);
    var sized := SetHdr(moved, H_SIZE_STRUCT, SizeStruct(b) - oldlen + newlen);
    SetHdrEffect(sized, H_OFF_STRINGS, OffStrings(b) - oldlen + newlen);
  }

  lemma TailSlice(a: seq<Byte>, c: seq<Byte>, lo: nat, hi: nat)
    requires |a| == |c| && |a| >= 40 && a[40..] == c[40..] && 40 <= lo <= hi <= |a|
    ensures a[lo..hi] == c[lo..hi]
  {
    SuffixSlice(a, 40, lo - 40, hi - 40);
    SuffixSlice(c, 40, lo - 40, hi - 40);
  }

  lemma SpliceOrdered(b: seq<Byte>, o: nat, oldlen: nat, newlen: nat)
    requires Ordered(b) && o + oldlen <= SizeStruct(b) && DataSize(b) - oldlen + newlen <= Total(b)
    ensures Ordered(SpliceBytes(b, o, oldlen, newlen))
  {
    hide Ld32, SpliceBytes, Patch;
    SpliceHeader(b, o, oldlen, newlen);
  }

  lemma SpliceBefore(b: seq<Byte>, o: nat, oldlen: nat, newlen: nat)
    requires Ordered(b) && o + oldlen <= SizeStruct(b) && DataSize(b) - oldlen + newlen <= Total(b)
    ensures var b', a := SpliceBytes(b, o, oldlen, newlen), OffStruct(b);
            |b'| == |b| && b'[OffRsv(b)..a] == b[OffRsv(b)..a] && b'[a..a + o + newlen] == b[a..a + o + newlen]
  {
    hide Ld32, SpliceBytes, Patch;
    var b', a, p := SpliceBytes(b, o, oldlen, newlen), OffStruct(b), OffStruct(b) + o;
    SpliceHeader(b, o, oldlen, newlen);
    var x := b[p + oldlen..DataSize(b)];
    var moved := Patch(b, p + newlen, x);
    TailSlice(b', moved, OffRsv(b), a);
    PatchOutside(b, p + newlen, x, OffRsv(b), a);
    TailSlice(b', moved, a, p + newlen);
    PatchOutside(b, p + newlen, x, a, p + newlen);
  }

  lemma SpliceAfter(b: seq<Byte>, o: nat, oldlen: nat, newlen: nat, lo: nat, hi: nat)
    requires Ordered(b) && o + oldlen <= SizeStruct(b) && DataSize(b) - oldlen + newlen <= Total(b)
    requires OffStruct(b) + o + oldlen <= lo <= hi <= DataSize(b)
    ensures var b' := SpliceBytes(b, o, oldlen, newlen);
            |b'| == |b| && b'[lo - oldlen + newlen..hi - oldlen + newlen] == b[lo..hi]
  {
    hide Ld32, SpliceBytes, Patch;
    var b', p := SpliceBytes(b, o, oldlen, newlen), OffStruct(b) + o;
    SpliceHeader(b, o, oldlen, newlen);
    var x := b[p + oldlen..DataSize(b)];
    var moved := Patch(b, p + newlen, x);
    TailSlice(b', moved, p + newlen, p + newlen + |x|);
    SliceOfSlice(b', p + newlen, p + newlen + |x|, lo - p - oldlen, hi - p - oldlen);
    SliceOfSlice(b, p + oldlen, DataSize(b), lo - p - oldlen, hi - p - oldlen);
  }

  /** The blocks of an ordered blob as slices. */
  lemma Blocks(b: seq<Byte>)
    requires Ordered(b)
    ensures Rsv(b) == b[OffRsv(b)..OffStruct(b)]
    ensures Struct(b) == b[OffStruct(b)..OffStruct(b) + SizeStruct(b)]
    ensures Strings(b) == b[OffStrings(b)..DataSize(b)]
  {
    hide Ld32;
  }

  lemma SpliceFrame(b: seq<Byte>, o: nat, oldlen: nat, newlen: nat)
    requires Ordered(b) && o + oldlen <= SizeStruct(b) && DataSize(b) - oldlen + newlen <= Total(b)
    ensures Frame(b, SpliceBytes(b, o, oldlen, newlen))
  {
    hide Hdr, SpliceBytes, Patch, Rsv, Struct, Strings;
    SpliceHeader(b, o, oldlen, newlen);
    SpliceOrdered(b, o, oldlen, newlen);
    Blocks(b);
    Blocks(SpliceBytes(b, o, oldlen, newlen));
    SpliceBefore(b, o, oldlen, newlen);
    SpliceAfter(b, o, oldlen, newlen, OffStrings(b), DataSize(b));
  }

  lemma SpliceEffect(b: seq<Byte>, o: nat, oldlen: nat, newlen: nat)
    requires Ordered(b) && o + oldlen <= SizeStruct(b) && DataSize(b) - oldlen + newlen <= Total(b)
    ensures Spliced(b, SpliceBytes(b, o, oldlen, newlen), o, oldlen, newlen)
  {
    hide Hdr, SpliceBytes, Patch, Frame, Rsv, Struct, Strings, Ordered;
    SpliceHeader(b, o, oldlen, newlen);
    SpliceOrdered(b, o, oldlen, newlen);
    SpliceFrame(b, o, oldlen, newlen);
    SpliceFront(b, o, oldlen, newlen);
    SpliceRest(b, o, oldlen, newlen);
  }

  /** The structure block before the gap. */
  lemma SpliceFront(b: seq<Byte>, o: nat, oldlen: nat, newlen: nat)
    requires Ordered(b) && o + oldlen <= SizeStruct(b) && DataSize(b) - oldlen + newlen <= Total(b)
    ensures var b', k := SpliceBytes(b, o, oldlen, newlen), o + Min(oldlen, newlen);
            k <= |Struct(b)| && k <= |Struct(b')| && Struct(b')[..k] == Struct(b)[..k]
  {
    hide Hdr, SpliceBytes, Patch, Struct, Ordered;
    var b', a, k := SpliceBytes(b, o, oldlen, newlen), OffStruct(b), o + Min(oldlen, newlen);
    Bounds(b);
    SpliceHeader(b, o, oldlen, newlen);
    SpliceOrdered(b, o, oldlen, newlen);
    SpliceBefore(b, o, oldlen, newlen);
    SliceFront(b', a, o + newlen, k);
    SliceFront(b, a, o + newlen, k);
    StructPart(b, k);
    StructPart(b', k);
  }

  /** The parts of the structure block as slices. */
  lemma StructPart(b: seq<Byte>, k: nat)
    requires Ordered(b) && k <= SizeStruct(b)
    ensures |Struct(b)| == SizeStruct(b) && OffStruct(b) + SizeStruct(b) <= |b|
    ensures Struct(b)[..k] == b[OffStruct(b)..OffStruct(b) + k]
    ensures Struct(b)[k..] == b[OffStruct(b) + k..OffStruct(b) + SizeStruct(b)]
  {
    hide Hdr, Struct;
    Blocks(b);
    SliceFront(b, OffStruct(b), SizeStruct(b), k);
    SliceRest(b, OffStruct(b), SizeStruct(b), k);
  }

  /** The structure block behind the gap. */
  lemma SpliceRest(b: seq<Byte>, o: nat, oldlen: nat, newlen: nat)
    requires Ordered(b) && o + oldlen <= SizeStruct(b) && DataSize(b) - oldlen + newlen <= Total(b)
    ensures var b' := SpliceBytes(b, o, oldlen, newlen);
            |Struct(b)| == SizeStruct(b) && |Struct(b')| == SizeStruct(b) - oldlen + newlen &&
            Struct(b')[o + newlen..] == Struct(b)[o + oldlen..]
  {
    hide Hdr, SpliceBytes, Patch, Struct, Ordered;
    var b', a := SpliceBytes(b, o, oldlen, newlen), OffStruct(b);
    Bounds(b);
    SpliceHeader(b, o, oldlen, newlen);
    SpliceOrdered(b, o, oldlen, newlen);
    SpliceAfter(b, o, oldlen, newlen, a + o + oldlen, a + SizeStruct(b));
    StructPart(b, o + oldlen);
    StructPart(b', o + newlen);
  }

  lemma SliceFront(s: seq<Byte>, lo: nat, n: nat, k: nat)
    requires k <= n && lo + n <= |s|
    ensures s[lo..lo + n][..k] == s[lo..lo + k]
  {
    SliceOfSlice(s, lo, lo + n, 0, k);
    var w := s[lo..lo + n];
    assert w[..k] == w[0..k];
  }

  lemma SliceRest(s: seq<Byte>, lo: nat, n: nat, k: nat)
    requires k <= n && lo + n <= |s|
    ensures s[lo..lo + n][k..] == s[lo + k..lo + n]
  {
    SliceOfSlice(s, lo, lo + n, k, n);
    var w := s[lo..lo + n];
    assert w[k..] == w[k..n];
  }

  lemma Bounds(b: seq<Byte>)
    requires Ordered(b)
    ensures |b| >= 40 && 56 <= OffStruct(b) && OffStruct(b) + SizeStruct(b) <= OffStrings(b)
    ensures DataSize(b) == OffStrings(b) + SizeStrings(b) <= Total(b) <= |b| && Total(b) <= INT_MAX
    ensures |Struct(b)| == SizeStruct(b) && |Strings(b)| == SizeStrings(b)
  {
  }

  /** `fdt_splice_struct_` */
  method SpliceStruct(m: array<Byte>, o: nat, oldlen: nat, newlen: nat) returns (err: int)
    requires Ordered(m[..]) && o + oldlen <= SizeStruct(m[..])
    modifies m
    ensures err == if old(DataSize(m[..])) - oldlen + newlen > old(Total(m[..])) then -FDT_ERR_NOSPACE else 0
    ensures err != 0 ==> m[..] == old(m[..])
    ensures err == 0 ==> Spliced(old(m[..]), m[..], o, oldlen, newlen)
  {
    hide Ld32, Ordered, Patch, SetHdr, Spliced, Hdr;
    ghost var b := m[..];
    Bounds(b);
    var size, offs, base := SizeStruct(m[..]), OffStrings(m[..]), OffStruct(m[..]);
    err := SpliceAt(m, base + o, oldlen, newlen);
    if err != 0 { return; }
    StoreWord(m, H_SIZE_STRUCT, size - oldlen + newlen);
    StoreWord(m, H_OFF_STRINGS, offs - oldlen + newlen);
    assert m[..] == SpliceBytes(b, o, oldlen, newlen);
    SpliceEffect(b, o, oldlen, newlen);
  }

  /** `memcpy` into the structure block. */
  method PutStruct(m: array<Byte>, o: nat, x: seq<Byte>)
    requires Ordered(m[..]) && o + |x| <= SizeStruct(m[..])
    modifies m
    ensures Frame(old(m[..]), m[..]) && Ordered(m[..])
    ensures SizeStruct(m[..]) == old(SizeStruct(m[..])) && DataSize(m[..]) == old(DataSize(m[..]))
    ensures Struct(m[..]) == Patch(old(Struct(m[..])), o, x)
  {
    hide Ld32, Ordered, Patch, Frame, Hdr, Struct;
    ghost var b := m[..];
    Bounds(b);
    var base := OffStruct(m[..]);
    Copy(m, base + o, x);
    PutStructEffect(b, o, x);
  }

  lemma PutStructEffect(b: seq<Byte>, o: nat, x: seq<Byte>)
    requires Ordered(b) && o + |x| <= SizeStruct(b)
    ensures var b' := Patch(b, OffStruct(b) + o, x);
            Frame(b, b') && Ordered(b') && DataSize(b') == DataSize(b) && SizeStruct(b') == SizeStruct(b) &&
            Struct(b') == Patch(Struct(b), o, x)
  {
    hide Ld32, Patch;
    var at := OffStruct(b) + o;
    var b' := Patch(b, at, x);
    forall k | 0 <= k < 10 ensures Hdr(b', k) == Hdr(b, k) {
      HdrAfterPatch(b, at, x, k);
    }
    PatchOutside(b, at, x, OffRsv(b), OffStruct(b));
    PatchOutside(b, at, x, OffStrings(b), OffStrings(b) + SizeStrings(b));
    PatchInside(b, at, x, OffStruct(b), OffStruct(b) + SizeStruct(b));
  }

  // ----------------------------------------------------------------- strings

  predicate StringAt(ss: seq<Byte>, p: nat, s: seq<Byte>) {
    p + |s| + 1 <= |ss| && ss[p..p + |s| + 1] == s + [0]
  }

  /** `fdt_find_string_`: the first place where the string and its NUL occur. */
  method FindString(ss: seq<Byte>, s: seq<Byte>) returns (r: Option<nat>)
    ensures r.Some? ==> StringAt(ss, r.value, s) && forall q: nat :: q < r.value ==> !StringAt(ss, q, s)
    ensures r.None? ==> forall p: nat :: !StringAt(ss, p, s)
  {
    var len := |s| + 1;
    var p := 0;
    while p <= |ss| - len
      invariant 0 <= p && forall q: nat :: q < p ==> !StringAt(ss, q, s)
      decreases |ss| - p
    {
      if ss[p..p + len] == s + [0] {
        return Some(p);
      }
      p := p + 1;
    }
    r := None;
  }

  /** `b'` is `b` with `more` at the end of its strings. */
  predicate Grown(b: seq<Byte>, b': seq<Byte>, more: seq<Byte>) {
    Ordered(b) && Ordered(b') && |b'| == |b| &&
    (forall k :: 0 <= k < 10 && k != H_SIZE_STRINGS ==> Hdr(b', k) == Hdr(b, k)) &&
    Rsv(b') == Rsv(b) && Struct(b') == Struct(b) && Strings(b') == Strings(b) + more
  }

  /**
   `fdt_find_add_string_`: the offset of the string, which is appended unless it occurs,
   be it as the tail of another string.
   */
  method FindAddString(m: array<Byte>, s: seq<Byte>) returns (off: int, ghost more: seq<Byte>)
    requires Ordered(m[..]) && NulFree(s)
    modifies m
    ensures more == [] || more == s + [0]
    ensures more == [] <==> exists p: nat :: StringAt(old(Strings(m[..])), p, s)
    ensures Grown(old(m[..]), m[..], if off < 0 then [] else more)
    ensures off < 0 ==>
              off == -FDT_ERR_NOSPACE && m[..] == old(m[..]) && more != [] &&
              old(DataSize(m[..])) + |s| + 1 > old(Total(m[..]))
    ensures off >= 0 ==> off < TWO32 && Str(Strings(m[..]), off) == Some(s)
  {
    hide Ld32, Ordered, Patch, SetHdr, Grown, Hdr, StringAt, Str, Strings;
    ghost var b := m[..];
    Bounds(b);
    GrownNone(b);
    var ss := Strings(m[..]);
    var p := FindString(ss, s);
    if p.Some? {
      StringAtIs(ss, p.value, s);
      return p.value, [];
    }
    more := s + [0];
    var at, size := DataSize(m[..]), SizeStrings(m[..]);
    var err := SpliceAt(m, at, 0, |s| + 1);
    if err != 0 {
      return err, more;
    }
    StoreWord(m, H_SIZE_STRINGS, size + |s| + 1);
    Copy(m, at, s + [0]);
    GrowEffect(b, more, m[..]);
    off := size;
    StringAppended(ss, s);
    GrownStrings(b, m[..], more);
  }

  lemma GrownNone(b: seq<Byte>)
    requires Ordered(b)
    ensures Grown(b, b, [])
  {
    assert Strings(b) + [] == Strings(b);
  }

  lemma GrownStrings(b: seq<Byte>, b': seq<Byte>, more: seq<Byte>)
    requires Grown(b, b', more)
    ensures Ordered(b) && Ordered(b') && Strings(b') == Strings(b) + more
  {
  }

  lemma StringAppended(ss: seq<Byte>, s: seq<Byte>)
    requires NulFree(s)
    ensures Str(ss + (s + [0]), |ss|) == Some(s)
  {
    hide Str;
    var w := ss + (s + [0]);
    assert w[|ss|..|ss| + |s| + 1] == s + [0];
    StringAtIs(w, |ss|, s);
  }

  lemma StringAtIs(ss: seq<Byte>, p: nat, s: seq<Byte>)
    requires StringAt(ss, p, s) && NulFree(s)
    ensures Str(ss, p) == Some(s) && p < |ss|
  {
    var w := ss[p..p + |s| + 1];
    assert ss[p..p + |s|] == w[..|s|] && ss[p + |s|] == w[|s|];
    StrIs(ss, p, s);
  }

  lemma GrowEffect(b: seq<Byte>, more: seq<Byte>, b': seq<Byte>)
    requires Ordered(b) && DataSize(b) + |more| <= Total(b)
    requires var moved := Patch(b, DataSize(b) + |more|, b[DataSize(b)..DataSize(b)]);
             b' == Patch(SetHdr(moved, H_SIZE_STRINGS, SizeStrings(b) + |more|), DataSize(b), more)
    ensures Grown(b, b', more)
  {
    hide Hdr, Patch, SetHdr, Rsv, Struct, Strings;
    var d := DataSize(b);
    assert Patch(b, d + |more|, b[d..d]) == b by { EmptyPatch(b, d + |more|, b[d..d]); }
    var sized := SetHdr(b, H_SIZE_STRINGS, SizeStrings(b) + |more|);
    SetHdrEffect(b, H_SIZE_STRINGS, SizeStrings(b) + |more|);
    forall k | 0 <= k < 10 ensures Hdr(b', k) == Hdr(sized, k) {
      HdrAfterPatch(sized, d, more, k);
    }
    Blocks(b);
    Blocks(b');
    GrowSlice(b, sized, more, OffRsv(b), OffStruct(b));
    GrowSlice(b, sized, more, OffStruct(b), OffStruct(b) + SizeStruct(b));
    GrowSlice(b, sized, more, OffStrings(b), d);
    GrownSlice(b', OffStrings(b), d, d + |more|);
  }

  lemma GrownSlice(s: seq<Byte>, a: nat, d: nat, e: nat)
    requires a <= d <= e <= |s|
    ensures s[a..e] == s[a..d] + s[d..e]
  {
  }

  lemma GrowSlice(b: seq<Byte>, sized: seq<Byte>, more: seq<Byte>, lo: nat, hi: nat)
    requires |sized| == |b| >= 40 && sized[40..] == b[40..] && DataSize(b) + |more| <= |b|
    requires 40 <= lo <= hi <= DataSize(b)
    ensures Patch(sized, DataSize(b), more)[lo..hi] == b[lo..hi]
  {
    hide Hdr, Patch;
    PatchOutside(sized, DataSize(b), more, lo, hi);
    TailSlice(sized, b, lo, hi);
  }

  lemma EmptyPatch(b: seq<Byte>, at: nat, x: seq<Byte>)
    requires at <= |b| && x == []
    ensures Patch(b, at, x) == b
  {
  }
}
