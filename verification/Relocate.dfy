/**
 Relocation and packing of fdt_rw.c: `fdt_packblocks_`, `fdt_open_into` and `fdt_pack`. One memory
 holds the old blob and the new buffer, at any two addresses.
 */
module Relocate {
  import opened Bytes
  import opened DeviceTree
  import opened Lexer
  import opened Blob
  import opened Splice
  import opened Resize

  // ------------------------------------------------------------- the reserve map

  /** Reserve entry `i` has size zero: it ends the map. */
  predicate ZeroSize(b: seq<Byte>, i: nat) {
    Cut(b, OffRsv(b) + 16 * i + 8, OffRsv(b) + 16 * i + 16) == [0, 0, 0, 0, 0, 0, 0, 0]
  }

  /** The first entry of size zero inside the blob is entry `n`. */
  ghost predicate RsvEnds(b: seq<Byte>, n: nat) {
    OffRsv(b) + 16 * n + 16 <= Total(b) && ZeroSize(b, n) && forall i: nat :: i < n ==> !ZeroSize(b, i)
  }

  /** No entry inside the blob has size zero. */
  ghost predicate Unended(b: seq<Byte>) {
    forall i: nat :: OffRsv(b) + 16 * i + 16 <= Total(b) ==> !ZeroSize(b, i)
  }

  /** What counting the entries gives. */
  ghost predicate RsvCount(b: seq<Byte>, n: int) {
    if n >= 0 then RsvEnds(b, n) else n == -FDT_ERR_TRUNCATED && Unended(b)
  }

  /** `fdt_num_mem_rsv` */
  method NumMemRsv(b: seq<Byte>) returns (n: int)
    ensures RsvCount(b, n)
  {
    hide Hdr, ZeroSize;
    var i := 0;
    while OffRsv(b) + 16 * i + 16 <= Total(b)
      invariant i >= 0 && forall j: nat :: j < i ==> !ZeroSize(b, j)
      decreases Total(b) - 16 * i
    {
      if ZeroSize(b, i) {
        return i;
      }
      i := i + 1;
    }
    n := -FDT_ERR_TRUNCATED;
  }

  lemma RsvCountOnce(b: seq<Byte>, n: int, k: int)
    requires RsvCount(b, n) && RsvCount(b, k)
    ensures k == n
  {
    hide ZeroSize, Hdr;
    if n >= 0 { EndsOrNot(b, n); }
    if k >= 0 { EndsOrNot(b, k); }
  }

  lemma EndsOrNot(b: seq<Byte>, n: nat)
    ensures !(RsvEnds(b, n) && Unended(b))
  {
    hide ZeroSize, Hdr;
  }

  /** The size that `fdt_open_into` and `fdt_pack` compute from the count, without looking at its sign. */
  function RsvSize(count: int): int { (count + 1) * 16 }

  /** It is the size of a map exactly when the map ends; otherwise it is -112, which no move can be given. */
  lemma RsvSizeExact(b: seq<Byte>, count: int)
    requires RsvCount(b, count)
    ensures RsvSize(count) >= 16 <==> exists n: nat :: RsvEnds(b, n)
    ensures Unended(b) <==> RsvSize(count) == -112
  {
    hide ZeroSize, Hdr;
    forall n: nat ensures !(RsvEnds(b, n) && Unended(b)) {
      EndsOrNot(b, n);
    }
  }

  /** Big-endian words one after another. */
  function FromWords(ws: seq<U32>): (r: seq<Byte>)
    ensures |r| == 4 * |ws|
  {
    if ws == [] then [] else Be32(ws[0]) + FromWords(ws[1..])
  }

  lemma {:induction false} FromWordsAt(ws: seq<U32>, i: nat)
    requires i < |ws|
    ensures Ld32(FromWords(ws), 4 * i) == ws[i]
  {
    hide Ld32, Be32;
    var r, rest := FromWords(ws), FromWords(ws[1..]);
    if i == 0 {
      assert r[0..4] == Be32(ws[0]);
      LoadStored(r, 0, ws[0]);
    } else {
      FromWordsAt(ws[1..], i - 1);
      assert r[4 * i..4 * i + 4] == rest[4 * (i - 1)..4 * (i - 1) + 4];
      LoadSame(r, 4 * i, rest, 4 * (i - 1));
    }
  }

  /** A small blob: header, one reserve entry of size 0x0000000100000001, an empty root node, no strings. */
  const UNENDED: seq<U32> :=
    [FDT_MAGIC, 72, 56, 72, 40, 17, 16, 0, 0, 16, 1, 1, 1, 1, FDT_BEGIN_NODE, 0, FDT_END_NODE, FDT_END]

  lemma NonZero(b: seq<Byte>, o: nat)
    requires o + 8 <= |b| && Ld32(b, o) != 0
    ensures Cut(b, o, o + 8) != [0, 0, 0, 0, 0, 0, 0, 0]
  {
    var c := Cut(b, o, o + 8);
    assert c[0] == b[o] && c[1] == b[o + 1] && c[2] == b[o + 2] && c[3] == b[o + 3];
  }

  /** The probe accepts it, and its reserve map does not end. */
  lemma UnendedBlob()
    ensures var b := FromWords(UNENDED); Complete(b) && RwProbe(b) == 0 && Unended(b)
  {
    hide Ld32, FromWords;
    var b := FromWords(UNENDED);
    forall k | 0 <= k < 10 ensures Hdr(b, k) == UNENDED[k] {
      FromWordsAt(UNENDED, k);
    }
    CompleteProbes(b);
    FromWordsAt(UNENDED, 12);
    FromWordsAt(UNENDED, 16);
    NonZero(b, 48);
    NonZero(b, 64);
    forall i: nat | OffRsv(b) + 16 * i + 16 <= Total(b) ensures !ZeroSize(b, i) {
      assert i == 0 || i == 1;
    }
  }

  /** The reserve map: `n` entries and the terminator. */
  function RsvMap(b: seq<Byte>, n: nat): seq<Byte> {
    Cut(b, OffRsv(b), OffRsv(b) + 16 * (n + 1))
  }

  /** The reserve map is the part of memory that a reader sees. */
  lemma RsvMapEnds(b: seq<Byte>, b': seq<Byte>, n: nat)
    requires RsvEnds(b, n) && RsvMap(b', n) == RsvMap(b, n) && Total(b) <= |b| &&
             OffRsv(b') + 16 * n + 16 <= Total(b') <= |b'|
    ensures RsvEnds(b', n)
  {
    hide ZeroSize, Hdr, RsvMap;
    forall i: nat | i <= n ensures ZeroSize(b', i) == ZeroSize(b, i) {
      SameEntry(b, b', n, i);
    }
  }

  lemma SameEntry(b: seq<Byte>, b': seq<Byte>, n: nat, i: nat)
    requires i <= n && RsvMap(b', n) == RsvMap(b, n)
    requires OffRsv(b) + 16 * (n + 1) <= |b| && OffRsv(b') + 16 * (n + 1) <= |b'|
    ensures ZeroSize(b', i) == ZeroSize(b, i)
  {
    hide Hdr;
    SameInside(b, OffRsv(b), b', OffRsv(b'), 16 * (n + 1), 16 * i + 8);
  }

  lemma SameInside(b: seq<Byte>, o: nat, b': seq<Byte>, o': nat, len: nat, i: nat)
    requires i + 8 <= len && Cut(b, o, o + len) == Cut(b', o', o' + len) && o + len <= |b| && o' + len <= |b'|
    ensures Cut(b, o + i, o + i + 8) == Cut(b', o' + i, o' + i + 8)
  {
    SliceOfSlice(b, o, o + len, i, i + 8);
    SliceOfSlice(b', o', o' + len, i, i + 8);
  }

  // ------------------------------------------------------------------ the moves

  /** Each block lies in the memory after the blob's start. */
  predicate Inside(b: seq<Byte>, n: nat) {
    OffRsv(b) + 16 * (n + 1) <= |b| && OffStruct(b) + SizeStruct(b) <= |b| && DataSize(b) <= |b|
  }

  /** Each block lies inside the blob, in any order. */
  predicate Fits(b: seq<Byte>, n: nat) {
    40 <= Total(b) <= |b| && Total(b) <= INT_MAX &&
    OffRsv(b) + 16 * (n + 1) <= Total(b) && OffStruct(b) + SizeStruct(b) <= Total(b) && DataSize(b) <= Total(b)
  }

  function PackedSize(b: seq<Byte>, n: nat): nat {
    40 + 16 * (n + 1) + SizeStruct(b) + SizeStrings(b)
  }

  /** Blocks in order and disjoint, with the reserve map counted in full. */
  predicate InOrder(b: seq<Byte>, n: nat) {
    40 <= OffRsv(b) && OffRsv(b) + 16 * (n + 1) <= OffStruct(b) && OffStruct(b) + SizeStruct(b) <= OffStrings(b) &&
    DataSize(b) <= Total(b)
  }

  /** In place no block is moved over one that still has to be moved. */
  predicate Packable(b: seq<Byte>, n: nat) {
    40 <= OffRsv(b) && 40 + 16 * (n + 1) <= OffStruct(b) && 40 + 16 * (n + 1) + SizeStruct(b) <= OffStrings(b)
  }

  /** The places between which blocks can be moved one after another: apart, or the same. */
  predicate Movable(b: seq<Byte>, n: nat, f: nat, q: nat) {
    q + PackedSize(b, n) <= f || f + Total(b) <= q || (q == f && Packable(b, n))
  }

  /** The same three blocks. */
  predicate SameBlocks(b: seq<Byte>, b': seq<Byte>, n: nat) {
    RsvMap(b', n) == RsvMap(b, n) && Struct(b') == Struct(b) && Strings(b') == Strings(b)
  }

  /** Packed: nothing between the header and the blocks, nothing after them. */
  predicate Tight(b: seq<Byte>, n: nat) {
    OffRsv(b) == 40 && OffStruct(b) == 40 + 16 * (n + 1) && OffStrings(b) == OffStruct(b) + SizeStruct(b)
  }

  method MoveBlock(m: array<Byte>, dst: nat, src: nat, len: nat)
    requires dst + len <= m.Length && src + len <= m.Length
    modifies m
    ensures Cut(m[..], dst, dst + len) == old(Cut(m[..], src, src + len))
    ensures forall lo: nat, hi: nat :: hi <= dst || dst + len <= lo ==> Cut(m[..], lo, hi) == old(Cut(m[..], lo, hi))
    ensures dst == src ==> m[..] == old(m[..])
  {
    hide Patch;
    ghost var a := m[..];
    Move(m, dst, src, len);
    forall lo: nat, hi: nat | hi <= dst || dst + len <= lo ensures Cut(m[..], lo, hi) == Cut(a, lo, hi) {
      if lo <= hi <= |a| { PatchOutside(a, dst, a[src..src + len], lo, hi); }
    }
    if dst == src { PatchPoints(a, dst, a[src..src + len]); assert m[..] == a; }
  }

  /** A header word of the blob at `q`, with what stays there and in the header of a blob at `f`. */
  method SetField(m: array<Byte>, f: nat, q: nat, k: nat, v: U32)
    requires k < 10 && q + 40 <= m.Length && f + 40 <= m.Length && (f == q || f + 40 <= q || q + 40 <= f)
    modifies m
    ensures forall j :: 0 <= j < 10 ==> Hdr(m[q..], j) == if j == k then v else old(Hdr(m[q..], j))
    ensures forall j :: 0 <= j < 10 ==> Hdr(m[f..], j) == if f == q && j == k then v else old(Hdr(m[f..], j))
    ensures forall lo: nat, hi: nat :: hi <= q || q + 40 <= lo ==> Cut(m[..], lo, hi) == old(Cut(m[..], lo, hi))
    ensures old(Hdr(m[q..], k)) == v ==> m[..] == old(m[..])
  {
    hide Patch, Hdr, SetHdr;
    ghost var a := m[..];
    StoreAt(m, q, k, v);
    SetHdrEffect(a[q..], k, v);
    assert a[q..] == old(m[q..]);
    forall lo: nat, hi: nat | hi <= q || q + 40 <= lo ensures Cut(m[..], lo, hi) == Cut(a, lo, hi) {
    }
    if Hdr(a[q..], k) == v {
      SetSame(a[q..], k, v);
      assert m[..] == m[..][..q] + m[q..] && a == a[..q] + a[q..] && m[..][..q] == a[..q];
    }
    if f != q {
      HeaderKept(a, m[..], f);
      assert m[..][f..] == m[f..] && a[f..] == old(m[f..]);
    }
  }

  lemma SetSame(b: seq<Byte>, k: nat, v: U32)
    requires k < 10 && |b| >= 40 && Hdr(b, k) == v
    ensures SetHdr(b, k, v) == b
  {
    StoreLoaded(b, 4 * k);
    assert SetHdr(b, k, v) == b[..4 * k] + b[4 * k..4 * k + 4] + b[4 * k + 4..] == b;
  }

  lemma HeaderKept(a: seq<Byte>, a': seq<Byte>, f: nat)
    requires |a'| == |a| && f + 40 <= |a| && Cut(a', f, f + 40) == Cut(a, f, f + 40)
    ensures forall k :: 0 <= k < 10 ==> Hdr(a'[f..], k) == Hdr(a[f..], k)
  {
    hide Hdr;
    MovedHeader(a, f, a', f, 40);
  }

  lemma BlocksCut(a: seq<Byte>, f: nat, n: nat)
    requires f <= |a| && Inside(a[f..], n)
    ensures var b := a[f..];
            RsvMap(b, n) ==
               Cut(a, f + OffRsv(b), f + OffRsv(b) + 16 * (n + 1)) &&
            Struct(b) ==
               Cut(a, f + OffStruct(b), f + OffStruct(b) + SizeStruct(b)) &&
            Strings(b) ==
               Cut(a, f + OffStrings(b), f + OffStrings(b) + SizeStrings(b))
  {
    hide Hdr;
    var b := a[f..];
    SuffixSlice(a, f, OffRsv(b), OffRsv(b) + 16 * (n + 1));
    SuffixSlice(a, f, OffStruct(b), OffStruct(b) + SizeStruct(b));
    SuffixSlice(a, f, OffStrings(b), OffStrings(b) + SizeStrings(b));
  }

  /** What packing leaves at `q`: the packed offsets, the other header words, and the three blocks. */
  predicate PackedAt(a: seq<Byte>, f: nat, a': seq<Byte>, q: nat, n: nat) {
    f <= |a| && q <= |a'| && q <= |a| &&
    var b, b', was := a[f..], a'[q..], a[q..];
    Tight(b', n) && SizeStruct(b') == SizeStruct(b) && SizeStrings(b') == SizeStrings(b) && 
    Hdr(b', H_MAGIC) == Hdr(was, H_MAGIC) && Hdr(b', H_TOTALSIZE) == Hdr(was, H_TOTALSIZE) &&
    Hdr(b', H_VERSION) == Hdr(was, H_VERSION) && Hdr(b', H_LAST_COMP) == Hdr(was, H_LAST_COMP) &&
    SameBlocks(b, b', n)
  }

  /** The first two blocks of `fdt_packblocks_`, moved so that the strings block is still in place. */
  method PackFront(m: array<Byte>, f: nat, q: nat, r: nat, s: nat)
    requires f + 40 <= m.Length && q + 40 + r + s <= m.Length && 40 + r + s <= INT_MAX && s == SizeStruct(m[f..])
    requires f + OffRsv(m[f..]) + r <= m.Length && f + OffStruct(m[f..]) + s <= m.Length
    requires var oR, oS := OffRsv(m[f..]), OffStruct(m[f..]);
             q + 40 + r + s <= f || (f + 40 <= q && f + oR + r <= q && f + oS + s <= q) ||
             (q == f && 40 <= oR && 40 + r <= oS)
    modifies m
    ensures forall j :: 0 <= j < 10 ==>
              Hdr(m[q..], j) == if j == H_OFF_RSVMAP then
                40 else if j == H_OFF_STRUCT then 40 + r else if j == H_SIZE_STRUCT then s else old(Hdr(m[q..], j))
    ensures forall j :: 0 <= j < 10 && j != H_OFF_RSVMAP && j != H_OFF_STRUCT ==> Hdr(m[f..], j) == old(Hdr(m[f..], j))
    ensures Cut(m[..], q + 40, q + 40 + r) == old(Cut(m[..], f + OffRsv(m[f..]), f + OffRsv(m[f..]) + r))
    ensures Cut(m[..], q + 40 + r, q + 40 + r + s) == old(Cut(m[..], f + OffStruct(m[f..]), f + OffStruct(m[f..]) + s))
    ensures forall lo: nat, hi: nat :: hi <= q || q + 40 + r + s <= lo ==> Cut(m[..], lo, hi) == old(Cut(m[..], lo, hi))
    ensures f == q && old(OffRsv(m[f..])) == 40 && old(OffStruct(m[f..])) == 40 + r ==> m[..] == old(m[..])
  {
    hide Hdr, Cut;
    PlaceBlock(m, f, q, 40, OffRsv(m[f..]), r, H_OFF_RSVMAP);
    PlaceBlock(m, f, q, 40 + r, OffStruct(m[f..]), s, H_OFF_STRUCT);
    SetField(m, f, q, H_SIZE_STRUCT, s);
  }

  /** `fdt_packblocks_`, from the blob at `f` to address `q`. */
  method PackBlocks(m: array<Byte>, f: nat, q: nat, ghost n: nat, rsvSize: nat, structSize: nat)
    requires f + 40 <= m.Length && Fits(m[f..], n) && rsvSize == 16 * (n + 1) && structSize == SizeStruct(m[f..])
    requires q + PackedSize(m[f..], n) <= m.Length && PackedSize(m[f..], n) <= INT_MAX && Movable(m[f..], n, f, q)
    modifies m
    ensures PackedAt(old(m[..]), f, m[..], q, n)
    ensures forall lo: nat, hi: nat ::
              hi <= q || q + old(PackedSize(m[f..], n)) <= lo ==> Cut(m[..], lo, hi) == old(Cut(m[..], lo, hi))
    ensures f == q && old(Tight(m[f..], n)) ==> m[..] == old(m[..])
  {
    hide Hdr, Cut, RsvMap, Struct, Strings, PackedAt, SameBlocks;
    ghost var a := m[..];
    ghost var b, was := a[f..], a[q..];
    assert b == m[f..] && was == m[q..];
    var structOff := 40 + rsvSize;
    var stringsOff := structOff + structSize;
    PackFront(m, f, q, rsvSize, structSize);
    var stringsSize := SizeStrings(m[f..]);
    PlaceBlock(m, f, q, stringsOff, OffStrings(m[f..]), stringsSize, H_OFF_STRINGS);
    SetField(m, f, q, H_SIZE_STRINGS, stringsSize);
    assert m[..][q..] == m[q..];
    PackedIs(a, f, m[..], q, n);
  }

  lemma PackedIs(a: seq<Byte>, f: nat, a': seq<Byte>, q: nat, n: nat)
    requires |a'| == |a| && f <= |a| && q <= |a| && Fits(a[f..], n) && q + PackedSize(a[f..], n) <= |a|
    requires var b, b', was := a[f..], a'[q..], a[q..];
             Tight(b', n) && SizeStruct(b') == SizeStruct(b) && SizeStrings(b') == SizeStrings(b) && 
             Hdr(b', H_MAGIC) == Hdr(was, H_MAGIC) && Hdr(b', H_TOTALSIZE) == Hdr(was, H_TOTALSIZE) &&
             Hdr(b', H_VERSION) == Hdr(was, H_VERSION) && Hdr(b', H_LAST_COMP) == Hdr(was, H_LAST_COMP) &&
             Cut(a', q + OffRsv(b'), q + OffRsv(b') + 16 * (n + 1)) ==
               Cut(a, f + OffRsv(b), f + OffRsv(b) + 16 * (n + 1)) &&
             Cut(a', q + OffStruct(b'), q + OffStruct(b') + SizeStruct(b)) ==
               Cut(a, f + OffStruct(b), f + OffStruct(b) + SizeStruct(b)) &&
             Cut(a', q + OffStrings(b'), q + OffStrings(b') + SizeStrings(b)) ==
               Cut(a, f + OffStrings(b), f + OffStrings(b) + SizeStrings(b))
    ensures PackedAt(a, f, a', q, n)
  {
    hide Hdr, Cut, RsvMap, Struct, Strings;
    BlocksCut(a, f, n);
    BlocksCut(a', q, n);
  }

  /** A block moved to offset `off` of the new blob, whose header word `k` is set to that offset. */
  method PlaceBlock(m: array<Byte>, f: nat, q: nat, off: U32, src: nat, len: nat, k: nat)
    requires 40 <= off && q + off + len <= m.Length && f + src + len <= m.Length && f + 40 <= m.Length && k < 10
    requires (f == q || f + 40 <= q || q + 40 <= f) && (f + 40 <= q + off || q + off + len <= f)
    modifies m
    ensures forall j :: 0 <= j < 10 ==> Hdr(m[q..], j) == if j == k then off else old(Hdr(m[q..], j))
    ensures forall j :: 0 <= j < 10 ==> Hdr(m[f..], j) == if f == q && j == k then off else old(Hdr(m[f..], j))
    ensures Cut(m[..], q + off, q + off + len) == old(Cut(m[..], f + src, f + src + len))
    ensures forall lo: nat, hi: nat ::
              hi <= q || q + 40 <= lo <= hi <= q + off || q + off + len <= lo ==>
              Cut(m[..], lo, hi) == old(Cut(m[..], lo, hi))
    ensures f == q && off == src && old(Hdr(m[q..], k)) == off ==> m[..] == old(m[..])
  {
    hide Hdr, Cut;
    MoveAndKeep(m, f, q, q + off, f + src, len);
    SetField(m, f, q, k, off);
  }

  /** A move that leaves two headers alone. */
  method MoveAndKeep(m: array<Byte>, ghost f: nat, ghost q: nat, dst: nat, src: nat, len: nat)
    requires dst + len <= m.Length && src + len <= m.Length && q + 40 <= dst && (f + 40 <= dst || dst + len <= f)
    requires f + 40 <= m.Length
    modifies m
    ensures forall j :: 0 <= j < 10 ==> Hdr(m[q..], j) == old(Hdr(m[q..], j)) && Hdr(m[f..], j) == old(Hdr(m[f..], j))
    ensures Cut(m[..], dst, dst + len) == old(Cut(m[..], src, src + len))
    ensures forall lo: nat, hi: nat :: hi <= dst || dst + len <= lo ==> Cut(m[..], lo, hi) == old(Cut(m[..], lo, hi))
    ensures dst == src ==> m[..] == old(m[..])
  {
    hide Hdr, Cut;
    ghost var a := m[..];
    MoveBlock(m, dst, src, len);
    HeaderKept(a, m[..], q);
    HeaderKept(a, m[..], f);
    assert m[..][q..] == m[q..] && m[..][f..] == m[f..] && a[q..] == old(m[q..]) && a[f..] == old(m[f..]);
  }

  // -------------------------------------------------------------------- fdt_pack

  /** `fdt_pack`, on a blob whose reserve map ends and whose packed map does not reach into the structure block. */
  method Pack(m: array<Byte>, ghost n: nat) returns (err: int)
    requires m.Length >= 40
    requires RwProbe(m[..]) == 0 ==> Fits(m[..], n) && RsvEnds(m[..], n) && Packable(m[..], n)
    modifies m
    ensures err == old(RwProbe(m[..]))
    ensures err != 0 ==> m[..] == old(m[..])
    ensures err == 0 ==>
              SameBlocks(old(m[..]), m[..], n) && Tight(m[..], n) &&
              Total(m[..]) == DataSize(m[..]) == old(PackedSize(m[..], n)) &&
              Total(m[..]) <= old(Total(m[..])) && RsvEnds(m[..], n) && RwProbe(m[..]) == 0 && InOrder(m[..], n) &&
              Fits(m[..], n)
    ensures err == 0 ==> forall t :: old(Holds(m[..], t)) ==> Holds(m[..], t)
    ensures old(Tight(m[..], n)) && old(Total(m[..]) == DataSize(m[..])) ==> m[..] == old(m[..])
  {
    hide Hdr, Cut, RsvMap, Struct, Strings, RsvEnds, RwProbe, Holds;
    err := RwProbe(m[..]);
    if err != 0 { return; }
    ghost var a := m[..];
    assert m[0..] == m[..] == a == a[0..];
    var count := NumMemRsv(m[..]);
    RsvCountOnce(a, n, count);
    PackBlocks(m, 0, 0, n, RsvSize(count), SizeStruct(m[..]));
    ghost var a1 := m[..];
    assert m[0..] == m[..] == a1 == a1[0..];
    SetField(m, 0, 0, H_TOTALSIZE, DataSize(m[..]));
    assert m[0..] == m[..];
    PackedSame(a1, m[..], n);
    RsvMapEnds(a, m[..], n);
    PackedProbe(a, m[..], n);
    HoldsComplete(a, m[..], n);
    forall t | Holds(a, t) ensures Holds(m[..], t) {
      HoldsAcross(a, m[..], n, t);
    }
  }

  lemma PackedSame(a: seq<Byte>, a': seq<Byte>, n: nat)
    requires Tight(a, n) && Total(a') == PackedSize(a, n) <= |a'| && |a| == |a'| && Total(a') <= INT_MAX
    requires forall k :: 0 <= k < 10 && k != H_TOTALSIZE ==> Hdr(a', k) == Hdr(a, k)
    requires forall lo: nat, hi: nat :: 40 <= lo ==> Cut(a', lo, hi) == Cut(a, lo, hi)
    ensures SameBlocks(a, a', n) && Fits(a', n) && InOrder(a', n)
  {
    hide Hdr, Cut;
  }

  lemma PackedProbe(b: seq<Byte>, b': seq<Byte>, n: nat)
    requires RwProbe(b) == 0 && Fits(b', n) && InOrder(b', n)
    requires forall k ::
               k == H_MAGIC || k == H_VERSION || k == H_LAST_COMP || k == H_SIZE_STRUCT ==> Hdr(b', k) == Hdr(b, k)
    ensures RwProbe(b') == 0
  {
    hide Hdr;
  }

  lemma HoldsComplete(b: seq<Byte>, b': seq<Byte>, n: nat)
    requires |b'| >= 40 && Fits(b', n) && InOrder(b', n)
    requires forall k :: k == H_MAGIC || k == H_VERSION || k == H_LAST_COMP ==> Hdr(b', k) == Hdr(b, k)
    ensures forall t :: Holds(b, t) ==> Complete(b')
  {
    hide Hdr, Spelled;
  }

  /** The three blocks determine the tree, wherever they are. */
  lemma HoldsAcross(b: seq<Byte>, b': seq<Byte>, n: nat, t: Node)
    requires Holds(b, t) && SameBlocks(b, b', n) && Complete(b')
    ensures Holds(b', t)
  {
    hide Hdr, Struct, Strings, Lex, Events, RsvMap;
  }

  // --------------------------------------------------------------- fdt_open_into

  /** Copying the first `len` bytes of a blob copies the blocks that lie in them. */
  lemma Carried(a: seq<Byte>, f: nat, a': seq<Byte>, p: nat, len: nat, n: nat)
    requires 40 <= len && f + len <= |a| && p + len <= |a'| && Cut(a', p, p + len) == Cut(a, f, f + len)
    requires var b := a[f..];
             40 <= OffRsv(b) && OffRsv(b) + 16 * (n + 1) <= len && 40 <= OffStruct(b) &&
             OffStruct(b) + SizeStruct(b) <= len &&
             40 <= OffStrings(b) && DataSize(b) <= len
    ensures SameBlocks(a[f..], a'[p..], n) && forall k :: 0 <= k < 10 ==> Hdr(a'[p..], k) == Hdr(a[f..], k)
  {
    hide Hdr;
    var b := a[f..];
    MovedHeader(a, f, a', p, len);
    SameSlice(a, f, a', p, len, OffRsv(b), OffRsv(b) + 16 * (n + 1));
    SameSlice(a, f, a', p, len, OffStruct(b), OffStruct(b) + SizeStruct(b));
    SameSlice(a, f, a', p, len, OffStrings(b), OffStrings(b) + SizeStrings(b));
  }

  /** The blocks depend on five header words and on the bytes behind the header. */
  lemma Stamped(a: seq<Byte>, a': seq<Byte>, p: nat, n: nat)
    requires |a'| == |a| && p + 40 <= |a| && Inside(a[p..], n)
    requires 40 <= OffRsv(a[p..]) && 40 <= OffStruct(a[p..]) && 40 <= OffStrings(a[p..])
    requires forall k ::
               0 <= k < 10 && (k == 2 || k == 3 || k == 4 || k == 8 || k == 9) ==> Hdr(a'[p..], k) == Hdr(a[p..], k)
    requires forall lo: nat, hi: nat :: p + 40 <= lo ==> Cut(a', lo, hi) == Cut(a, lo, hi)
    ensures SameBlocks(a[p..], a'[p..], n)
  {
    hide Hdr, Cut, RsvMap, Struct, Strings;
    BlocksCut(a, p, n);
    BlocksCut(a', p, n);
  }

  /** The result of opening: the blocks in order in a version-17 blob of the given size. */
  predicate Opened(b: seq<Byte>, b': seq<Byte>, n: nat, bufsize: nat) {
    SameBlocks(b, b', n) && Total(b') == bufsize && Ordered(b') && InOrder(b', n) && Fits(b', n) &&
    Hdr(b', H_VERSION) == 17 &&
    (Hdr(b, H_MAGIC) == FDT_MAGIC ==> Complete(b'))
  }

  /** The whole blob copied, with a new total size and version 17. */
  predicate Copied(b: seq<Byte>, b': seq<Byte>, bufsize: nat) {
    Total(b') == bufsize <= |b'| && Hdr(b', H_VERSION) == 17 && Cut(b', 40, Total(b)) == Cut(b, 40, Total(b)) &&
    (forall k :: 0 <= k < 10 && k != H_TOTALSIZE && k != H_VERSION ==> Hdr(b', k) == Hdr(b, k))
  }

  /** The path that needs no reordering: move everything, then set three words. */
  method OpenInOrder(m: array<Byte>, f: nat, p: nat, bufsize: nat)
    requires f + 40 <= m.Length && p + bufsize <= m.Length && bufsize <= INT_MAX
    requires var b := m[f..]; 40 <= Total(b) <= bufsize && Total(b) <= |b|
    modifies m
    ensures Copied(old(m[f..]), m[p..], bufsize)
    ensures forall lo: nat, hi: nat :: hi <= p || p + bufsize <= lo ==> Cut(m[..], lo, hi) == old(Cut(m[..], lo, hi))
  {
    hide Hdr, Cut;
    ghost var a := m[..];
    assert m[f..] == a[f..];
    var structSize, total := SizeStruct(m[f..]), Total(m[f..]);
    HdrFits(a[f..], H_SIZE_STRUCT);
    MoveBlock(m, p, f, total);
    ghost var a1 := m[..];
    assert m[p..] == a1[p..];
    CarriedWhole(a, f, a1, p, total);
    SetField(m, p, p, H_VERSION, 17);
    SetField(m, p, p, H_SIZE_STRUCT, structSize);
    SetField(m, p, p, H_TOTALSIZE, bufsize);
    assert m[p..] == m[..][p..];
    SuffixCut(a1, p, 40, total);
    SuffixCut(m[..], p, 40, total);
  }

  lemma CarriedWhole(a: seq<Byte>, f: nat, a': seq<Byte>, p: nat, len: nat)
    requires 40 <= len && f + len <= |a| && p + len <= |a'| && Cut(a', p, p + len) == Cut(a, f, f + len)
    ensures forall k :: 0 <= k < 10 ==> Hdr(a'[p..], k) == Hdr(a[f..], k)
    ensures Cut(a'[p..], 40, len) == Cut(a[f..], 40, len)
  {
    hide Hdr;
    MovedHeader(a, f, a', p, len);
  }

  /** A copy has the same blocks, if they lie behind the header. */
  lemma CopiedBlocks(b: seq<Byte>, b': seq<Byte>, bufsize: nat, n: nat)
    requires Copied(b, b', bufsize) && Fits(b, n) && InOrder(b, n) && Total(b) <= bufsize <= INT_MAX
    requires RoProbe(b) == 0
    ensures Opened(b, b', n, bufsize)
  {
    hide Hdr, Cut;
    CutInside(b, b', Total(b), OffRsv(b), OffRsv(b) + 16 * (n + 1));
    CutInside(b, b', Total(b), OffStruct(b), OffStruct(b) + SizeStruct(b));
    CutInside(b, b', Total(b), OffStrings(b), OffStrings(b) + SizeStrings(b));
    ProbeCompat(b);
  }

  lemma CutInside(b: seq<Byte>, b': seq<Byte>, n: nat, lo: nat, hi: nat)
    requires 40 <= lo <= hi <= n <= |b| && n <= |b'| && Cut(b', 40, n) == Cut(b, 40, n)
    ensures Cut(b', lo, hi) == Cut(b, lo, hi)
  {
    CutCut(b, b', n, lo, hi);
  }

  lemma ProbeCompat(b: seq<Byte>)
    requires RoProbe(b) == 0
    ensures Hdr(b, H_MAGIC) == FDT_MAGIC ==> Hdr(b, H_LAST_COMP) <= 17
  {
  }

  lemma HdrFits(b: seq<Byte>, k: nat)
    ensures Hdr(b, k) < TWO32
  {
  }

  /** The path that reorders: pack at `tmp`, move to `p`, then set the remaining header words. */
  method OpenReordered(m: array<Byte>, f: nat, p: nat, tmp: nat, bufsize: nat, ghost n: nat, rsvSize: nat, newsize: nat)
    requires f + 40 <= m.Length && p + bufsize <= m.Length && bufsize <= INT_MAX && Fits(m[f..], n)
    requires rsvSize == 16 * (n + 1) && newsize == PackedSize(m[f..], n) <= bufsize
    requires p <= tmp && tmp + newsize <= p + bufsize && (tmp + newsize <= f || f + Total(m[f..]) <= tmp)
    modifies m
    ensures Opened(old(m[f..]), m[p..], n, bufsize) && Complete(m[p..])
    ensures forall lo: nat, hi: nat :: hi <= p || p + bufsize <= lo ==> Cut(m[..], lo, hi) == old(Cut(m[..], lo, hi))
  {
    hide Hdr, Cut, RsvMap, Struct, Strings;
    ghost var a := m[..];
    assert m[f..] == a[f..];
    PackBlocks(m, f, tmp, n, rsvSize, SizeStruct(m[f..]));
    ghost var a1 := m[..];
    MoveBlock(m, p, tmp, newsize);
    ghost var a2 := m[..];
    assert m[p..] == a2[p..];
    Carried(a1, tmp, a2, p, newsize, n);
    SetField(m, p, p, H_MAGIC, FDT_MAGIC);
    SetField(m, p, p, H_TOTALSIZE, bufsize);
    SetField(m, p, p, H_VERSION, 17);
    SetField(m, p, p, H_LAST_COMP, 16);
    HdrFits(m[f..], H_BOOT_CPU);
    SetField(m, p, p, H_BOOT_CPU, Hdr(m[f..], H_BOOT_CPU));
    assert m[p..] == m[..][p..];
    Stamped(a2, m[..], p, n);
  }

  /**
   Room enough: for the whole blob when its blocks are in order, else for the packed blocks, at the
   buffer or behind the old blob.
   */
  predicate Room(b: seq<Byte>, n: int, f: nat, p: nat, bufsize: nat) {
    if n < 0 || InOrder(b, n) then Total(b) <= bufsize
    else PackedSize(b, n) <= bufsize &&
         (p + PackedSize(b, n) <= f || f + Total(b) <= p || f + Total(b) + PackedSize(b, n) <= p + bufsize)
  }

  /**
   The count is that of the map, and if the map does not end the blocks look ordered, so that
   nothing has to be packed.
   */
  ghost predicate Openable(b: seq<Byte>, n: int) {
    Hdr(b, H_VERSION) >= 17 && RsvCount(b, n) && 40 <= Total(b) <= |b| && Total(b) <= INT_MAX &&
    (n >= 0 ==> Fits(b, n)) && (n < 0 ==> !Misordered(b, RsvSize(n), SizeStruct(b)))
  }

  /**
   `fdt_open_into`, for a blob of version 17 at address `f` and a buffer at address `p`, in any relative
   position. Without an end of the reserve map the blob is only ever copied whole.
   */
  method OpenInto(m: array<Byte>, f: nat, p: nat, bufsize: nat, ghost n: int) returns (err: int)
    requires f + 40 <= m.Length && p + bufsize <= m.Length && bufsize <= INT_MAX
    requires RoProbe(m[f..]) == 0 ==> Openable(m[f..], n)
    modifies m
    ensures old(RoProbe(m[f..])) != 0 ==> err == old(RoProbe(m[f..]))
    ensures old(RoProbe(m[f..])) == 0 ==> err == if old(Room(m[f..], n, f, p, bufsize)) then 0 else -FDT_ERR_NOSPACE
    ensures err != 0 ==> m[..] == old(m[..])
    ensures err == 0 && n >= 0 ==> Opened(old(m[f..]), m[p..], n, bufsize)
    ensures err == 0 && n < 0 ==> Copied(old(m[f..]), m[p..], bufsize)
    ensures forall lo: nat, hi: nat :: hi <= p || p + bufsize <= lo ==> Cut(m[..], lo, hi) == old(Cut(m[..], lo, hi))
  {
    hide Hdr, Cut, RsvMap, Struct, Strings, RsvEnds, Opened, Copied, RoProbe, Misordered, RsvCount;
    err := RoProbe(m[f..]);
    if err != 0 { return; }
    ghost var b := m[f..];
    var count := NumMemRsv(m[f..]);
    RsvCountOnce(b, n, count);
    var rsvSize := RsvSize(count);
    if n >= 0 { MisorderedIff(b, n); }
    if !Misordered(m[f..], rsvSize, SizeStruct(m[f..])) {
      if Total(m[f..]) > bufsize {
        return -FDT_ERR_NOSPACE;
      }
      OpenInOrder(m, f, p, bufsize);
      if n >= 0 { CopiedBlocks(b, m[p..], bufsize, n); }
      return 0;
    }
    var newsize := 40 + rsvSize + SizeStruct(m[f..]) + SizeStrings(m[f..]);
    if bufsize < newsize {
      return -FDT_ERR_NOSPACE;
    }
    var fdtend := f + Total(m[f..]);
    var tmp := p;
    if tmp + newsize > f && tmp < fdtend {
      tmp := fdtend;
      if tmp + newsize > p + bufsize {
        return -FDT_ERR_NOSPACE;
      }
    }
    OpenReordered(m, f, p, tmp, bufsize, n, rsvSize, newsize);
    err := 0;
  }

  lemma MisorderedIff(b: seq<Byte>, n: nat)
    requires Fits(b, n)
    ensures Misordered(b, 16 * (n + 1), SizeStruct(b)) <==> !InOrder(b, n)
  {
    hide Hdr;
  }

  /** Whatever tree the old blocks spell, in whatever order they lie, the new blob holds. */
  lemma OpenedHolds(b: seq<Byte>, b': seq<Byte>, n: nat, bufsize: nat, t: Node)
    requires Opened(b, b', n, bufsize) && Complete(b')
    requires Lex(Struct(b)).Some? && Events(Lex(Struct(b)).value, Strings(b)) == Flatten(t) + [Finish]
    ensures Holds(b', t)
  {
    hide Hdr, Struct, Strings, Lex, Events, RsvMap;
  }
}
