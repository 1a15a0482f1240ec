/** `fdt_resize`: a blob under construction moves to another buffer, which may overlap the old one. */
module Resize {
  import opened Bytes
  import opened DeviceTree
  import opened Lexer
  import opened Blob
  import opened Splice
  import opened SeqWrite

  /** The phases of the sequential writer, with what was written so far. */
  datatype Phase = Reserve(entries: nat) | Build(calls: seq<Event>)

  predicate InPhase(b: seq<Byte>, ph: Phase) {
    match ph case Reserve(n) => Reserving(b, n) case Build(es) => Building(b, es)
  }

  function HeadSize(b: seq<Byte>): nat { OffStruct(b) + SizeStruct(b) }

  lemma PhaseSizes(b: seq<Byte>, ph: Phase)
    requires InPhase(b, ph)
    ensures 48 <= HeadSize(b) && HeadSize(b) + SizeStrings(b) <= Total(b) <= |b|
  {
    hide Ld32, Lex, Events;
  }

  /** The same writer in a buffer of `n` bytes: only the two words that depend on its size differ. */
  predicate Resized(b: seq<Byte>, b': seq<Byte>, n: nat) {
    |b| >= 40 && 40 <= n <= |b'| && Total(b') == n && OffStrings(b') == (if OffStrings(b) == 0 then 0 else n) &&
    (forall k :: 0 <= k < 10 && k != H_TOTALSIZE && k != H_OFF_STRINGS ==> Hdr(b', k) == Hdr(b, k)) &&
    Cut(b', 40, HeadSize(b)) == Cut(b, 40, HeadSize(b)) && Tail(b') == Tail(b)
  }

  lemma CutCut(b: seq<Byte>, b': seq<Byte>, h: nat, lo: nat, hi: nat)
    requires 40 <= lo <= hi <= h <= |b| && h <= |b'| && Cut(b', 40, h) == Cut(b, 40, h)
    ensures Cut(b', lo, hi) == Cut(b, lo, hi)
  {
    SliceOfSlice(b, 40, h, lo - 40, hi - 40);
    SliceOfSlice(b', 40, h, lo - 40, hi - 40);
  }

  /** The phase, the reserve map, the calls taken and every end-relative name survive. */
  lemma ResizedPhase(b: seq<Byte>, b': seq<Byte>, n: nat, ph: Phase)
    requires InPhase(b, ph) && Resized(b, b', n) && HeadSize(b) + SizeStrings(b) <= n <= INT_MAX
    ensures InPhase(b', ph) && Rsv(b') == Rsv(b) && Struct(b') == Struct(b)
    ensures forall dist, s :: NamedFromEnd(b, dist, s) ==> NamedFromEnd(b', dist, s)
  {
    hide Hdr, Tail, Lex, Events, Rebase, Cut;
    PhaseSizes(b, ph);
    CutCut(b, b', HeadSize(b), 48, OffStruct(b));
    CutCut(b, b', HeadSize(b), OffStruct(b), HeadSize(b));
  }

  /** What two moves, to disjoint places from places the other move does not reach, leave in memory. */
  predicate TwoMoved(m: seq<Byte>, m': seq<Byte>, p: nat, x: seq<Byte>, q: nat, y: seq<Byte>) {
    |m'| == |m| && Cut(m', p, p + |x|) == x && Cut(m', q, q + |y|) == y &&
    forall i :: 0 <= i < |m| && !(p <= i < p + |x|) && !(q <= i < q + |y|) ==> m'[i] == m[i]
  }

  lemma PatchedTwice(m: seq<Byte>, p: nat, x: seq<Byte>, q: nat, y: seq<Byte>)
    requires p + |x| <= |m| && q + |y| <= |m| && (p + |x| <= q || q + |y| <= p)
    ensures TwoMoved(m, Patch(Patch(m, p, x), q, y), p, x, q, y)
  {
    hide Patch;
    PatchOutside(Patch(m, p, x), q, y, p, p + |x|);
    PatchPoints(m, p, x);
    PatchPoints(Patch(m, p, x), q, y);
  }

  lemma TwoMovedSwap(m: seq<Byte>, m': seq<Byte>, p: nat, x: seq<Byte>, q: nat, y: seq<Byte>)
    requires TwoMoved(m, m', q, y, p, x)
    ensures TwoMoved(m, m', p, x, q, y)
  {
  }

  /** The two moves in the order that destroys nothing. */
  method MoveBoth(m: array<Byte>, f: nat, p: nat, head: nat, oldtail: nat, newtail: nat, tail: nat)
    requires f + head <= oldtail && oldtail + tail <= m.Length && p + head <= newtail && newtail + tail <= m.Length
    modifies m
    ensures TwoMoved(old(m[..]), m[..], p, old(m[f..f + head]), newtail, old(m[oldtail..oldtail + tail]))
  {
    hide Patch, TwoMoved;
    ghost var a, x, y := m[..], m[f..f + head], m[oldtail..oldtail + tail];
    if p <= f {
      Move(m, p, f, head);
      PatchOutside(a, p, x, oldtail, oldtail + tail);
      assert m[oldtail..oldtail + tail] == m[..][oldtail..oldtail + tail] == y;
      Move(m, newtail, oldtail, tail);
      PatchedTwice(a, p, x, newtail, y);
    } else {
      Move(m, newtail, oldtail, tail);
      PatchOutside(a, newtail, y, f, f + head);
      assert m[f..f + head] == m[..][f..f + head] == x;
      Move(m, p, f, head);
      PatchedTwice(a, newtail, y, p, x);
      TwoMovedSwap(a, m[..], p, x, newtail, y);
    }
  }

  /** A header word of the blob at address `p`. */
  method StoreAt(m: array<Byte>, p: nat, k: nat, v: U32)
    requires k < 10 && p + 40 <= m.Length
    modifies m
    ensures m[p..] == SetHdr(old(m[p..]), k, v)
    ensures forall i :: 0 <= i < m.Length && !(p <= i < p + 40) ==> m[i] == old(m[i])
  {
    ghost var a := m[..];
    Copy(m, p + 4 * k, Be32(v));
    PatchPoints(a, p + 4 * k, Be32(v));
    PatchInside(a, p + 4 * k, Be32(v), p, |a|);
    assert a[p..|a|] == a[p..] && m[..][p..|a|] == m[p..];
  }

  /** `fdt_resize`, with the old blob at address `f` and the new buffer at address `p` of one memory. */
  method ResizeCall(m: array<Byte>, f: nat, p: nat, bufsize: nat, ghost ph: Phase) returns (err: int)
    requires f + 40 <= m.Length && p + bufsize <= m.Length && bufsize <= INT_MAX
    requires SwProbe(m[f..]) == 0 ==> InPhase(m[f..], ph)
    modifies m
    ensures old(SwProbe(m[f..])) != 0 ==> err == old(SwProbe(m[f..]))
    ensures old(SwProbe(m[f..])) == 0 ==>
              err == if old(HeadSize(m[f..]) + SizeStrings(m[f..])) > bufsize then -FDT_ERR_NOSPACE else 0
    ensures err != 0 ==> m[..] == old(m[..])
    ensures err == 0 ==>
              InPhase(m[p..], ph) && Resized(old(m[f..]), m[p..], bufsize) &&
              Rsv(m[p..]) == old(Rsv(m[f..])) && Struct(m[p..]) == old(Struct(m[f..]))
    ensures err == 0 ==> forall dist, s :: old(NamedFromEnd(m[f..], dist, s)) ==> NamedFromEnd(m[p..], dist, s)
    ensures forall i :: 0 <= i < m.Length && !(p <= i < p + bufsize) ==> m[i] == old(m[i])
  {
    hide Hdr, InPhase, TwoMoved, Patch, SetHdr, Resized, Rsv, Struct, NamedFromEnd, SwProbe;
    ghost var a := m[..];
    ghost var b := m[f..];
    assert a[f..] == b;
    err := SwProbe(m[f..]);
    if err != 0 { return; }
    PhaseSizes(b, ph);
    var headsize := HeadSize(m[f..]);
    var tailsize := SizeStrings(m[f..]);
    if headsize + tailsize > Total(m[f..]) {
      return -FDT_ERR_INTERNAL;
    }
    if headsize + tailsize > bufsize {
      return -FDT_ERR_NOSPACE;
    }
    var oldtail := f + Total(m[f..]) - tailsize;
    var newtail := p + bufsize - tailsize;
    MoveBoth(m, f, p, headsize, oldtail, newtail, tailsize);
    ghost var a1 := m[..];
    TwoMovedOutside(a, a1, p, headsize, newtail, tailsize, f, oldtail);
    ghost var b1 := m[p..];
    assert a1[p..] == b1;
    StoreAt(m, p, H_TOTALSIZE, bufsize);
    ghost var b2 := m[p..];
    if OffStrings(m[p..]) != 0 {
      StoreAt(m, p, H_OFF_STRINGS, bufsize);
    }
    ResizedIs(a, f, a1, p, bufsize, b2, m[p..]);
    ResizedPhase(b, m[p..], bufsize, ph);
    err := 0;
  }

  lemma TwoMovedOutside(m: seq<Byte>, m': seq<Byte>, p: nat, head: nat, newtail: nat, tail: nat, f: nat, oldtail: nat)
    requires f + head <= |m| && oldtail + tail <= |m| && p + head <= newtail && newtail + tail <= |m|
    requires TwoMoved(m, m', p, m[f..f + head], newtail, m[oldtail..oldtail + tail])
    ensures |m'| == |m| && forall i :: 0 <= i < |m| && !(p <= i < newtail + tail) ==> m'[i] == m[i]
  {
  }

  lemma MovedHeader(a: seq<Byte>, f: nat, a1: seq<Byte>, p: nat, head: nat)
    requires 40 <= head && f + head <= |a| && p + head <= |a1| && a1[p..p + head] == a[f..f + head]
    ensures forall k :: 0 <= k < 10 ==> Hdr(a1[p..], k) == Hdr(a[f..], k)
    ensures Cut(a1[p..], 40, head) == Cut(a[f..], 40, head)
  {
    hide Ld32;
    forall k | 0 <= k < 10 ensures Hdr(a1[p..], k) == Hdr(a[f..], k) {
      SameSlice(a, f, a1, p, head, 4 * k, 4 * k + 4);
      LoadSame(a1[p..], 4 * k, a[f..], 4 * k);
    }
    SameSlice(a, f, a1, p, head, 40, head);
  }

  lemma SameSlice(a: seq<Byte>, f: nat, a1: seq<Byte>, p: nat, head: nat, lo: nat, hi: nat)
    requires f + head <= |a| && p + head <= |a1| && a1[p..p + head] == a[f..f + head] && lo <= hi <= head
    ensures a1[p..][lo..hi] == a[f..][lo..hi]
  {
    SuffixSlice(a, f, lo, hi);
    SuffixSlice(a1, p, lo, hi);
    SliceOfSlice(a, f, f + head, lo, hi);
    SliceOfSlice(a1, p, p + head, lo, hi);
  }

  lemma ResizedIs(a: seq<Byte>, f: nat, a1: seq<Byte>, p: nat, n: nat, b2: seq<Byte>, b': seq<Byte>)
    requires f + 40 <= |a| == |a1| && p + n <= |a1| && n <= INT_MAX
    requires var b := a[f..];
             48 <= HeadSize(b) && HeadSize(b) + SizeStrings(b) <= n &&
             HeadSize(b) + SizeStrings(b) <= Total(b) <= |b| &&
             TwoMoved(a, a1, p, a[f..f + HeadSize(b)], p + n - SizeStrings(b),
                 a[f + Total(b) - SizeStrings(b)..f + Total(b)])
    requires b2 == SetHdr(a1[p..], H_TOTALSIZE, n) && b' == if OffStrings(b2) != 0 then
               SetHdr(b2, H_OFF_STRINGS, n) else b2
    ensures Resized(a[f..], b', n)
  {
    hide Hdr, SetHdr, Cut, TwoMoved;
    var b, b1 := a[f..], a1[p..];
    var h, z := HeadSize(b), SizeStrings(b);
    MovedParts(a, f, a1, p, n, h, z);
    MovedHeader(a, f, a1, p, h);
    SetHdrEffect(b1, H_TOTALSIZE, n);
    SetHdrEffect(b2, H_OFF_STRINGS, n);
    TailCut(b', b1, 40, h);
    TailCut(b', b1, n - z, n);
  }

  lemma TailCut(a: seq<Byte>, c: seq<Byte>, lo: nat, hi: nat)
    requires |a| == |c| && |a| >= 40 && a[40..] == c[40..] && 40 <= lo <= hi <= |a|
    ensures Cut(a, lo, hi) == Cut(c, lo, hi)
  {
    TailSlice(a, c, lo, hi);
  }

  lemma MovedParts(a: seq<Byte>, f: nat, a1: seq<Byte>, p: nat, n: nat, h: nat, z: nat)
    requires f + 40 <= |a| == |a1| && p + n <= |a1| && h + z <= n && h + z <= Total(a[f..]) <= |a| - f &&
             z == SizeStrings(a[f..])
    requires TwoMoved(a, a1, p, a[f..f + h], p + n - z, a[f + Total(a[f..]) - z..f + Total(a[f..])])
    ensures a1[p..p + h] == a[f..f + h] && Cut(a1[p..], n - z, n) == Tail(a[f..])
  {
    hide Hdr, Cut, Tail, TwoMoved;
    var total := Total(a[f..]);
    MovedTwo(a, a1, p, f, h, p + n - z, f + total - z, z);
    SuffixCut(a1, p, n - z, n);
    SuffixCut(a, f, total - z, total);
    TailCutIs(a[f..]);
  }

  lemma SuffixCut(a: seq<Byte>, f: nat, lo: nat, hi: nat)
    requires lo <= hi && f + hi <= |a|
    ensures Cut(a[f..], lo, hi) == Cut(a, f + lo, f + hi) == a[f + lo..f + hi]
  {
    SuffixSlice(a, f, lo, hi);
  }

  lemma TailCutIs(b: seq<Byte>)
    requires SizeStrings(b) <= Total(b)
    ensures Tail(b) == Cut(b, Total(b) - SizeStrings(b), Total(b))
  {
  }

  lemma MovedTwo(a: seq<Byte>, a1: seq<Byte>, p: nat, f: nat, h: nat, q: nat, g: nat, z: nat)
    requires f + h <= |a| && g + z <= |a| && p + h <= |a1| && q + z <= |a1|
    requires TwoMoved(a, a1, p, a[f..f + h], q, a[g..g + z])
    ensures a1[p..p + h] == a[f..f + h] && a1[q..q + z] == a[g..g + z]
  {
  }
}
