/**
 A blob in memory: header words, the three blocks behind them, what it means for a blob to
 hold a tree, and the memory primitives that the editing code is built from.
 */
module Blob {
  import opened Bytes
  import opened DeviceTree
  import opened Lexer

  const FDT_MAGIC := 0xd00d_feed
  const FDT_SW_MAGIC := 0x2ff2_0112
  const FDT_FIRST_SUPPORTED_VERSION := 2
  const FDT_LAST_SUPPORTED_VERSION := 17

  // Positions of the header words.
  const H_MAGIC := 0
  const H_TOTALSIZE := 1
  const H_OFF_STRUCT := 2
  const H_OFF_STRINGS := 3
  const H_OFF_RSVMAP := 4
  const H_VERSION := 5
  const H_LAST_COMP := 6
  const H_BOOT_CPU := 7
  const H_SIZE_STRINGS := 8
  const H_SIZE_STRUCT := 9

  /** Header word `k`. */
  function Hdr(b: seq<Byte>, k: nat): nat {
    if 4 * k + 4 <= |b| then Ld32(b, 4 * k) else 0
  }

  function Cut(b: seq<Byte>, lo: nat, hi: nat): seq<Byte> {
    if lo <= hi <= |b| then b[lo..hi] else []
  }

  function Total(b: seq<Byte>): nat { Hdr(b, H_TOTALSIZE) }
  function OffStruct(b: seq<Byte>): nat { Hdr(b, H_OFF_STRUCT) }
  function OffStrings(b: seq<Byte>): nat { Hdr(b, H_OFF_STRINGS) }
  function OffRsv(b: seq<Byte>): nat { Hdr(b, H_OFF_RSVMAP) }
  function SizeStrings(b: seq<Byte>): nat { Hdr(b, H_SIZE_STRINGS) }
  function SizeStruct(b: seq<Byte>): nat { Hdr(b, H_SIZE_STRUCT) }

  /** `fdt_data_size_` */
  function DataSize(b: seq<Byte>): nat { OffStrings(b) + SizeStrings(b) }

  /** Blocks in order, disjoint, and inside the total size. */
  predicate Ordered(b: seq<Byte>) {
    |b| >= 40 &&
    40 <= OffRsv(b) && OffRsv(b) + 16 <= OffStruct(b) &&
    OffStruct(b) + SizeStruct(b) <= OffStrings(b) &&
    OffStrings(b) + SizeStrings(b) <= Total(b) <= |b| && Total(b) <= INT_MAX
  }

  /** The memory reserve map, up to the structure block. */
  function Rsv(b: seq<Byte>): seq<Byte> {
    Cut(b, OffRsv(b), OffStruct(b))
  }

  /** The structure block. */
  function Struct(b: seq<Byte>): seq<Byte> {
    Cut(b, OffStruct(b), OffStruct(b) + SizeStruct(b))
  }

  /** The strings block. */
  function Strings(b: seq<Byte>): seq<Byte> {
    Cut(b, OffStrings(b), OffStrings(b) + SizeStrings(b))
  }

  /** `fdt_ro_probe_` */
  function RoProbe(b: seq<Byte>): int {
    if Hdr(b, H_MAGIC) == FDT_MAGIC then
      if Hdr(b, H_VERSION) < FDT_FIRST_SUPPORTED_VERSION || Hdr(b, H_LAST_COMP) > FDT_LAST_SUPPORTED_VERSION
      then -FDT_ERR_BADVERSION else 0
    else if Hdr(b, H_MAGIC) == FDT_SW_MAGIC then
      if SizeStruct(b) == 0 then -FDT_ERR_BADSTATE else 0
    else -FDT_ERR_BADMAGIC
  }

  /** `fdt_blocks_misordered_`; the sums are 32-bit. */
  predicate Misordered(b: seq<Byte>, rsvSize: int, structSize: nat) {
    OffRsv(b) < 40 || OffStruct(b) < Wrap32(OffRsv(b) + rsvSize) ||
    OffStrings(b) < Wrap32(OffStruct(b) + structSize) ||
    Total(b) < Wrap32(OffStrings(b) + SizeStrings(b))
  }

  /** `fdt_rw_probe_` */
  function RwProbe(b: seq<Byte>): int {
    if RoProbe(b) != 0 then RoProbe(b)
    else if Hdr(b, H_VERSION) < 17 then -FDT_ERR_BADVERSION
    else if Misordered(b, 16, SizeStruct(b)) then -FDT_ERR_BADLAYOUT
    else 0
  }

  /** A complete version-17 blob with ordered blocks. */
  predicate Complete(b: seq<Byte>) {
    Ordered(b) && Hdr(b, H_MAGIC) == FDT_MAGIC && Hdr(b, H_VERSION) == 17 && Hdr(b, H_LAST_COMP) <= 17
  }

  /** The events of a blob's structure block. */
  predicate Spelled(b: seq<Byte>, es: seq<Event>) {
    Ordered(b) && Lex(Struct(b)).Some? && Events(Lex(Struct(b)).value, Strings(b)) == es
  }

  /** The blob holds the tree. */
  predicate Holds(b: seq<Byte>, t: Node) {
    Complete(b) && Spelled(b, Flatten(t) + [Finish])
  }

  /** A complete blob passes the probe, so the editing functions accept it. */
  lemma CompleteProbes(b: seq<Byte>)
    requires Complete(b)
    ensures RwProbe(b) == 0 && RoProbe(b) == 0
  {
    hide Ld32;
  }

  /** With header words that do not wrap, the probe accepts exactly the complete blobs. */
  lemma ProbeExact(b: seq<Byte>)
    requires |b| >= 40 && Hdr(b, H_MAGIC) == FDT_MAGIC && Hdr(b, H_VERSION) == 17
    requires Total(b) <= |b| && Total(b) <= INT_MAX
    requires OffRsv(b) + 16 < TWO32 && OffStruct(b) + SizeStruct(b) < TWO32 && DataSize(b) < TWO32
    ensures RwProbe(b) == 0 <==> Complete(b)
  {
    hide Ld32;
  }

  /** A blob holds at most one tree: the one its events decode to. */
  lemma HoldsDecodes(b: seq<Byte>, t: Node)
    ensures Holds(b, t) ==> Decode(Events(Lex(Struct(b)).value, Strings(b))) == Some(t)
  {
    hide Lex, Events, Ordered, Decode;
    DecodeFlatten(t);
  }

  // ---------------------------------------------------------------- patches

  /** `b` with `x` written at `at`. */
  function Patch(b: seq<Byte>, at: nat, x: seq<Byte>): (r: seq<Byte>)
    requires at + |x| <= |b|
    ensures |r| == |b|
    ensures r[..at] == b[..at] && r[at..at + |x|] == x && r[at + |x|..] == b[at + |x|..]
  {
    b[..at] + x + b[at + |x|..]
  }

  /** A patch leaves the stretches before and after it. */
  lemma PatchOutside(b: seq<Byte>, at: nat, x: seq<Byte>, lo: nat, hi: nat)
    requires at + |x| <= |b| && lo <= hi <= |b| && (hi <= at || at + |x| <= lo)
    ensures Patch(b, at, x)[lo..hi] == b[lo..hi]
  {
    var r := Patch(b, at, x);
    if hi <= at {
      PrefixSlice(r, at, lo, hi);
      PrefixSlice(b, at, lo, hi);
    } else {
      var k := at + |x|;
      SuffixSlice(r, k, lo - k, hi - k);
      SuffixSlice(b, k, lo - k, hi - k);
    }
  }

  lemma PatchPoints(b: seq<Byte>, at: nat, x: seq<Byte>)
    requires at + |x| <= |b|
    ensures forall i :: 0 <= i < |b| && !(at <= i < at + |x|) ==> Patch(b, at, x)[i] == b[i]
  {
  }

  /** A patch inside a stretch patches the stretch. */
  lemma PatchInside(b: seq<Byte>, at: nat, x: seq<Byte>, lo: nat, hi: nat)
    requires lo <= at && at + |x| <= hi <= |b|
    ensures Patch(b, at, x)[lo..hi] == Patch(b[lo..hi], at - lo, x)
  {
  }

  lemma HdrAfterPatch(b: seq<Byte>, at: nat, x: seq<Byte>, j: nat)
    requires |b| >= 40 && at + |x| <= |b| && j < 10 && (4 * j + 4 <= at || at + |x| <= 4 * j)
    ensures Hdr(Patch(b, at, x), j) == Hdr(b, j)
  {
    hide Patch, Ld32;
    PatchOutside(b, at, x, 4 * j, 4 * j + 4);
    LoadSame(Patch(b, at, x), 4 * j, b, 4 * j);
  }

  /** `b` with header word `k` set to `v`. */
  function SetHdr(b: seq<Byte>, k: nat, v: U32): (r: seq<Byte>)
    requires k < 10 && |b| >= 40
    ensures |r| == |b|
  {
    Patch(b, 4 * k, Be32(v))
  }

  /** Setting a header word sets that word and nothing else. */
  lemma SetHdrEffect(b: seq<Byte>, k: nat, v: U32)
    requires k < 10 && |b| >= 40
    ensures forall j :: 0 <= j < 10 ==> Hdr(SetHdr(b, k, v), j) == if j == k then v else Hdr(b, j)
    ensures SetHdr(b, k, v)[40..] == b[40..]
  {
    var r := SetHdr(b, k, v);
    forall j | 0 <= j < 10 ensures Hdr(r, j) == if j == k then v else Hdr(b, j) {
      hide Ld32, Be32, Patch;
      if j == k {
        LoadStored(r, 4 * k, v);
      } else {
        HdrAfterPatch(b, 4 * k, Be32(v), j);
      }
    }
    hide Ld32, Be32, Patch;
    PatchOutside(b, 4 * k, Be32(v), 40, |b|);
    assert r[40..] == r[40..|b|] && b[40..] == b[40..|b|];
  }

  method StoreWord(m: array<Byte>, k: nat, v: U32)
    requires k < 10 && m.Length >= 40
    modifies m
    ensures m[..] == SetHdr(old(m[..]), k, v)
  {
    Copy(m, 4 * k, Be32(v));
  }

  lemma PatchIs(b: seq<Byte>, at: nat, x: seq<Byte>, c: seq<Byte>)
    requires at + |x| <= |b| == |c|
    requires forall i :: 0 <= i < |c| ==> c[i] == if at <= i < at + |x| then x[i - at] else b[i]
    ensures c == Patch(b, at, x)
  {
  }

  /** `memcpy` from a value. */
  method Copy(m: array<Byte>, at: nat, x: seq<Byte>)
    requires at + |x| <= m.Length
    modifies m
    ensures m[..] == Patch(old(m[..]), at, x)
  {
    hide Patch;
    ghost var b := m[..];
    forall i | 0 <= i < |x| {
      m[at + i] := x[i];
    }
    PatchIs(b, at, x, m[..]);
  }

  /** `memcpy` to an address that may lie past the end of the memory looked at; bytes stored there are not seen. */
  method CopyPast(m: array<Byte>, at: nat, x: seq<Byte>, ghost n: nat)
    requires n <= at && n <= m.Length
    modifies m
    ensures Cut(m[..], 0, n) == old(Cut(m[..], 0, n))
  {
    forall i | 0 <= i < |x| && at + i < m.Length {
      m[at + i] := x[i];
    }
    assert m[..][0..n] == old(m[..])[0..n];
  }

  /** `memmove`: source and destination may overlap. */
  method Move(m: array<Byte>, dst: nat, src: nat, n: nat)
    requires dst + n <= m.Length && src + n <= m.Length
    modifies m
    ensures m[..] == Patch(old(m[..]), dst, old(m[src..src + n]))
  {
    hide Patch;
    ghost var b, x := m[..], m[src..src + n];
    forall i | 0 <= i < n {
      m[dst + i] := m[src + i];
    }
    PatchIs(b, dst, x, m[..]);
  }
}
