/** Bytes, big-endian words and alignment: what every other module is written in. */
module Bytes {
  type Byte = x: int | 0 <= x < 0x100
  type U32 = x: int | 0 <= x < 0x1_0000_0000

  const TWO32 := 0x1_0000_0000
  const INT_MAX := 0x7fff_ffff

  datatype Option<+T> = None | Some(value: T)

  /** The value of a C `uint32_t` expression whose mathematical value is `x`. */
  function Wrap32(x: int): (v: nat)
    ensures v < TWO32
  {
    x % TWO32
  }

  /** Four bytes, most significant first (`fdt32_st`). */
  function Be32(v: U32): (r: seq<Byte>)
    ensures |r| == 4
  {
    [v / 0x100_0000, v / 0x1_0000 % 0x100, v / 0x100 % 0x100, v % 0x100]
  }

  /** The word whose bytes are `a`, `b`, `c`, `d`, most significant first. */
  function Word(a: int, b: int, c: int, d: int): int {
    0x100_0000 * a + 0x1_0000 * b + 0x100 * c + d
  }

  /** The big-endian word at `i` (`fdt32_ld`). */
  function Ld32(s: seq<Byte>, i: nat): (v: nat)
    requires i + 4 <= |s|
    ensures v < TWO32
  {
    Word(s[i], s[i + 1], s[i + 2], s[i + 3])
  }

  lemma Recompose(v: int)
    requires 0 <= v < TWO32
    ensures v == Word(v / 0x100_0000, v / 0x1_0000 % 0x100, v / 0x100 % 0x100, v % 0x100)
  {
    var x, y, z := v / 0x100, v / 0x1_0000, v / 0x100_0000;
    assert v == 0x100 * x + v % 0x100;
    assert x == 0x100 * y + x % 0x100 by { assert x / 0x100 == y; }
    assert y == 0x100 * z + y % 0x100 by { assert y / 0x100 == z; }
  }

  /** Loading what was stored gives the stored word. */
  lemma LoadStored(s: seq<Byte>, i: nat, v: U32)
    requires i + 4 <= |s| && s[i..i + 4] == Be32(v)
    ensures Ld32(s, i) == v
  {
    var w := s[i..i + 4];
    assert s[i] == w[0] && s[i + 1] == w[1] && s[i + 2] == w[2] && s[i + 3] == w[3];
    Recompose(v);
  }

  /** The last digit of a number to the base 256, and those before it. */
  lemma LastDigit(x: nat, d: int)
    requires 0 <= d < 0x100
    ensures (0x100 * x + d) / 0x100 == x && (0x100 * x + d) % 0x100 == d
  {
  }

  lemma Digits(a: nat, b: nat, c: nat, d: nat)
    requires a < 0x100 && b < 0x100 && c < 0x100 && d < 0x100
    ensures var w := Word(a, b, c, d);
            w / 0x100_0000 % 0x100 == a && w / 0x1_0000 % 0x100 == b && w / 0x100 % 0x100 == c && w % 0x100 == d
  {
    var x := 0x100 * a + b;
    var y := 0x100 * x + c;
    var w := 0x100 * y + d;
    assert w == Word(a, b, c, d);
    LastDigit(y, d);
    LastDigit(x, c);
    LastDigit(a, b);
    assert w / 0x1_0000 == w / 0x100 / 0x100 && w / 0x100_0000 == w / 0x1_0000 / 0x100;
  }

  /** Storing what was loaded changes nothing. */
  lemma StoreLoaded(s: seq<Byte>, i: nat)
    requires i + 4 <= |s|
    ensures Be32(Ld32(s, i)) == s[i..i + 4]
  {
    Digits(s[i], s[i + 1], s[i + 2], s[i + 3]);
    hide Word;
    var r, w := Be32(Ld32(s, i)), s[i..i + 4];
    assert r[0] == w[0] && r[1] == w[1] && r[2] == w[2] && r[3] == w[3];
  }

  /** Equal bytes load equal words. */
  lemma LoadSame(s: seq<Byte>, i: nat, t: seq<Byte>, j: nat)
    requires i + 4 <= |s| && j + 4 <= |t| && s[i..i + 4] == t[j..j + 4]
    ensures Ld32(s, i) == Ld32(t, j)
  {
    var w := s[i..i + 4];
    assert s[i] == w[0] && s[i + 1] == w[1] && s[i + 2] == w[2] && s[i + 3] == w[3];
    assert t[j] == w[0] && t[j + 1] == w[1] && t[j + 2] == w[2] && t[j + 3] == w[3];
  }

  // -------------------------------------------------------------- slices of slices

  lemma SliceOfSlice<T>(s: seq<T>, lo: nat, hi: nat, a: nat, z: nat)
    requires lo <= hi <= |s| && a <= z && lo + z <= hi
    ensures s[lo..hi][a..z] == s[lo + a..lo + z]
  {
    var w := s[lo..hi];
    var l, r := w[a..z], s[lo + a..lo + z];
    forall i | 0 <= i < |l| ensures l[i] == r[i] {
      assert l[i] == w[a + i] == s[lo + a + i];
    }
    assert |l| == |r|;
  }

  /** A slice of what follows `k`. */
  lemma SuffixSlice<T>(s: seq<T>, k: nat, a: nat, z: nat)
    requires a <= z && k + z <= |s|
    ensures s[k..][a..z] == s[k + a..k + z]
  {
    var w := s[k..];
    var l, r := w[a..z], s[k + a..k + z];
    forall i | 0 <= i < |l| ensures l[i] == r[i] {
      assert l[i] == w[a + i] == s[k + a + i];
    }
    assert |l| == |r|;
  }

  /** The front of what follows `k`. */
  lemma SuffixFront<T>(s: seq<T>, k: nat, n: nat)
    requires k + n <= |s|
    ensures s[k..][..n] == s[k..k + n]
  {
    var w := s[k..];
    var l, r := w[..n], s[k..k + n];
    forall i | 0 <= i < n ensures l[i] == r[i] {
      assert l[i] == w[i] == s[k + i];
    }
    assert |l| == |r|;
  }

  /** What follows in what follows. */
  lemma SuffixSuffix<T>(s: seq<T>, k: nat, n: nat)
    requires k + n <= |s|
    ensures s[k..][n..] == s[k + n..]
  {
    var w := s[k..];
    var l, r := w[n..], s[k + n..];
    assert |l| == |r|;
    forall i | 0 <= i < |l| ensures l[i] == r[i] {
      assert l[i] == w[n + i] == s[k + n + i];
    }
  }

  /** A slice of what comes before `k`. */
  lemma PrefixSlice<T>(s: seq<T>, k: nat, a: nat, z: nat)
    requires a <= z <= k <= |s|
    ensures s[..k][a..z] == s[a..z]
  {
    var w := s[..k];
    var l, r := w[a..z], s[a..z];
    forall i | 0 <= i < |l| ensures l[i] == r[i] {
      assert l[i] == w[a + i] == s[a + i];
    }
    assert |l| == |r|;
  }

  lemma PrefixFront<T>(s: seq<T>, k: nat, n: nat)
    requires n <= k <= |s|
    ensures s[..k][..n] == s[..n]
  {
    var w := s[..k];
    var l, r := w[..n], s[..n];
    forall i | 0 <= i < n ensures l[i] == r[i] {
      assert l[i] == w[i] == s[i];
    }
    assert |l| == |r|;
  }

  lemma PrefixRest<T>(s: seq<T>, k: nat, a: nat)
    requires a <= k <= |s|
    ensures s[..k][a..] == s[a..k]
  {
    var w := s[..k];
    var l, r := w[a..], s[a..k];
    assert |l| == |r|;
    forall i | 0 <= i < |l| ensures l[i] == r[i] {
      assert l[i] == w[a + i] == s[a + i];
    }
  }

  /** A sequence is its three parts. */
  lemma ThreeParts<T>(s: seq<T>, lo: nat, hi: nat)
    requires lo <= hi <= |s|
    ensures s == s[..lo] + s[lo..hi] + s[hi..]
    ensures s[lo..] == s[lo..hi] + s[hi..] && s[..hi] == s[..lo] + s[lo..hi]
  {
    SuffixFront(s, lo, hi - lo);
    SuffixSuffix(s, lo, hi - lo);
  }

  /** Three words and what follows them. */
  lemma ThreeWords<T>(a: seq<T>, b: seq<T>, c: seq<T>, v: seq<T>)
    requires |a| == |b| == |c| == 4
    ensures var x := a + b + c + v; x[0..4] == a && x[4..8] == b && x[8..12] == c && x[12..12 + |v|] == v
  {
    var x := a + b + c + v;
    assert forall i :: 0 <= i < 4 ==> x[i] == a[i] && x[4 + i] == b[i] && x[8 + i] == c[i];
    assert forall i :: 0 <= i < |v| ==> x[12 + i] == v[i];
    var p, q, r, w := x[0..4], x[4..8], x[8..12], x[12..12 + |v|];
    assert forall i :: 0 <= i < 4 ==> p[i] == x[i] && q[i] == x[4 + i] && r[i] == x[8 + i];
    assert forall i :: 0 <= i < |v| ==> w[i] == x[12 + i];
    assert p == a && q == b && r == c && w == v;
  }

  /** Round up to a multiple of four (`FDT_TAGALIGN`). */
  function Align4(n: nat): (r: nat)
    ensures n <= r < n + 4 && r % 4 == 0
  {
    (n + 3) / 4 * 4
  }

  predicate NulFree(s: seq<Byte>) {
    0 !in s
  }

  /** Index of the first NUL at or after `i`, or `|s|` if there is none (`strlen`, `memchr`). */
  function NulAt(s: seq<Byte>, i: nat): (z: nat)
    requires i <= |s|
    ensures i <= z <= |s| && NulFree(s[i..z]) && (z < |s| ==> s[z] == 0)
    decreases |s| - i
  {
    if i == |s| || s[i] == 0 then i
    else
      var z := NulAt(s, i + 1);
      assert s[i..z] == [s[i]] + s[i + 1..z];
      z
  }

  /** A NUL-free stretch followed by a NUL pins down `NulAt`. */
  lemma NulAtIs(s: seq<Byte>, i: nat, z: nat)
    requires i <= z < |s| && NulFree(s[i..z]) && s[z] == 0
    ensures NulAt(s, i) == z
    decreases z - i
  {
    if i < z {
      assert s[i] == s[i..z][0];
      assert s[i + 1..z] == s[i..z][1..];
      NulAtIs(s, i + 1, z);
    }
  }
}
