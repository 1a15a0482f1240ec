/** How KidVPN packs frames: padding to whole blocks, the block cipher, and the cut at the receiver. */
module Framing {
  import opened Bytes
  import opened Blob
  import opened Splice

  const BLOCK := 16
  /** ETH_ZLEN: shorter packets are control packets, and no data frame is sent shorter. */
  const ETH_ZLEN := 60
  const MAX_MTU := 1472
  /** KV_VND_FRAME_BSIZE */
  const FRAME_BSIZE := MAX_MTU + 18 + BLOCK

  /** The packet buffers: KV_VND_FRAME_BSIZE in words, and one word more. */
  const BUFFER := (FRAME_BSIZE / 4 + 1) * 4

  /** The block cipher under one key. */
  datatype Cipher = Cipher(enc: seq<Byte> -> seq<Byte>, dec: seq<Byte> -> seq<Byte>)

  ghost predicate Sized(f: seq<Byte> -> seq<Byte>) {
    forall b :: |b| == BLOCK ==> |f(b)| == BLOCK
  }

  /** Decryption undoes encryption, block by block. */
  ghost predicate Proper(c: Cipher) {
    Sized(c.enc) && Sized(c.dec) && forall b :: |b| == BLOCK ==> c.dec(c.enc(b)) == b
  }

  /** ROUND_UP to whole blocks. */
  function RoundUp(n: nat): (r: nat)
    ensures n <= r < n + BLOCK && r % BLOCK == 0
  {
    (n + (BLOCK - 1)) / BLOCK * BLOCK
  }

  /** Every block through the cipher. */
  function Blocks(f: seq<Byte> -> seq<Byte>, s: seq<Byte>): seq<Byte> {
    if |s| < BLOCK then [] else f(s[..BLOCK]) + Blocks(f, s[BLOCK..])
  }

  function Zeros(n: nat): seq<Byte> { seq(n, _ => 0) }

  function Padded(s: seq<Byte>): seq<Byte> { s + Zeros(RoundUp(|s|) - |s|) }

  /** Padding: the input, then zeros up to the next multiple of the block length. */
  lemma PaddedIs(s: seq<Byte>)
    ensures var p := Padded(s);
            |s| <= |p| < |s| + BLOCK && |p| % BLOCK == 0 && p[..|s|] == s && forall i :: |s| <= i < |p| ==> p[i] == 0
  {
  }

  /** Each block of the output is the cipher of the block of the input at the same place. */
  lemma {:induction false} BlockAt(f: seq<Byte> -> seq<Byte>, s: seq<Byte>, k: nat)
    requires Sized(f) && |s| % BLOCK == 0 && k % BLOCK == 0 && k + BLOCK <= |s|
    ensures |Blocks(f, s)| == |s| && Blocks(f, s)[k..k + BLOCK] == f(s[k..k + BLOCK])
    decreases |s|
  {
    hide Sized;
    BlocksSize(f, s);
    SizedAt(f, s[..BLOCK]);
    var a, rest := f(s[..BLOCK]), Blocks(f, s[BLOCK..]);
    if k == 0 {
      assert (a + rest)[..BLOCK] == a && s[0..BLOCK] == s[..BLOCK];
    } else {
      BlockAt(f, s[BLOCK..], k - BLOCK);
      assert (a + rest)[k..k + BLOCK] == rest[k - BLOCK..k];
      assert s[BLOCK..][k - BLOCK..k] == s[k..k + BLOCK];
    }
  }

  lemma {:induction false} BlocksSize(f: seq<Byte> -> seq<Byte>, s: seq<Byte>)
    requires Sized(f) && |s| % BLOCK == 0
    ensures |Blocks(f, s)| == |s|
    decreases |s|
  {
    if |s| >= BLOCK {
      BlocksSize(f, s[BLOCK..]);
    }
  }

  lemma {:induction false} BlocksConcat(f: seq<Byte> -> seq<Byte>, a: seq<Byte>, b: seq<Byte>)
    requires |a| % BLOCK == 0
    ensures Blocks(f, a + b) == Blocks(f, a) + Blocks(f, b)
    decreases |a|
  {
    if a == [] {
      assert a + b == b;
    } else {
      assert (a + b)[..BLOCK] == a[..BLOCK] && (a + b)[BLOCK..] == a[BLOCK..] + b;
      BlocksConcat(f, a[BLOCK..], b);
    }
  }

  lemma ProperAt(c: Cipher, b: seq<Byte>)
    requires Proper(c) && |b| == BLOCK
    ensures |c.enc(b)| == BLOCK && c.dec(c.enc(b)) == b
  {
  }

  lemma SizedAt(f: seq<Byte> -> seq<Byte>, b: seq<Byte>)
    requires Sized(f) && |b| == BLOCK
    ensures |f(b)| == BLOCK
  {
  }

  /** Decoding what was encoded gives the blocks back. */
  lemma {:induction false} DecodeEncode(c: Cipher, s: seq<Byte>)
    requires Proper(c) && |s| % BLOCK == 0
    ensures Blocks(c.dec, Blocks(c.enc, s)) == s
    decreases |s|
  {
    hide Proper;
    if |s| >= BLOCK {
      ProperAt(c, s[..BLOCK]);
      var e, rest := c.enc(s[..BLOCK]), Blocks(c.enc, s[BLOCK..]);
      assert (e + rest)[..BLOCK] == e && (e + rest)[BLOCK..] == rest;
      DecodeEncode(c, s[BLOCK..]);
    }
  }

  // ------------------------------------------------------------------- the loops

  /** The body that `kv_lib_encode` and `kv_lib_decode` share, from offset `at` of both buffers. */
  method Crypt(out: array<Byte>, inp: array<Byte>, at: nat, len: nat, f: seq<Byte> -> seq<Byte>) returns (rlen: nat)
    requires out != inp && at + RoundUp(len) <= out.Length && at + RoundUp(len) <= inp.Length && Sized(f)
    modifies out, inp
    ensures rlen == RoundUp(len)
    ensures out[at..at + rlen] == Blocks(f, Padded(old(inp[at..at + len])))
    ensures out[..at] == old(out[..at]) && out[at + rlen..] == old(out[at + rlen..])
    ensures inp[..at + len] == old(inp[..at + len]) && inp[at + rlen..] == old(inp[at + rlen..])
    ensures forall i :: at + len <= i < at + rlen ==> inp[i] == 0
  {
    hide Sized, Blocks, Patch, Filled, RoundUp, Padded, Zeros;
    rlen := RoundUp(len);
    ghost var a, b := out[..], inp[..];
    ghost var text := Padded(b[at..at + len]);
    assert inp[at..at + len] == b[at..at + len];
    PadBuffers(out, inp, at, len, rlen);
    PaddedSize(b[at..at + len]);
    PaddedTail(inp[..], at, b[at..at + len]);
    CryptLoop(out, inp, at, rlen, f, text, a);
    FilledAll(out[..], a, at, rlen, Blocks(f, text));
    Views(out, at, rlen);
    Views(inp, at + len, rlen - len);
  }

  /** The padding of what lies at `at` is zero. */
  lemma PaddedTail(x: seq<Byte>, at: nat, s: seq<Byte>)
    requires at + |Padded(s)| <= |x| && x[at..at + |Padded(s)|] == Padded(s)
    ensures forall i :: at + |s| <= i < at + |Padded(s)| ==> x[i] == 0
  {
    hide Padded;
    PaddedIs(s);
    var p := Padded(s);
    forall i | at + |s| <= i < at + |p| ensures x[i] == 0 {
      assert x[at..at + |p|][i - at] == x[i];
    }
  }

  /** Slices of an array are slices of its contents. */
  lemma Views(m: array<Byte>, at: nat, n: nat)
    requires at + n <= m.Length
    ensures m[at..at + n] == m[..][at..at + n] && m[..at] == m[..][..at] && m[at + n..] == m[..][at + n..]
  {
  }

  /** The two `bzero` calls. */
  method PadBuffers(out: array<Byte>, inp: array<Byte>, at: nat, len: nat, rlen: nat)
    requires out != inp && rlen == RoundUp(len) && at + rlen <= out.Length && at + rlen <= inp.Length
    modifies out, inp
    ensures Filled(out[..], old(out[..]), at, rlen, 0, [])
    ensures inp[..][at..at + rlen] == Padded(old(inp[..])[at..at + len])
    ensures inp[..][..at + len] == old(inp[..])[..at + len] && inp[..][at + rlen..] == old(inp[..])[at + rlen..]
  {
    hide Patch, Filled, RoundUp, Padded, Zeros;
    ghost var a, b := out[..], inp[..];
    if rlen > len {
      ZerosSize(rlen - len);
      Copy(out, at + len, Zeros(rlen - len));
      Copy(inp, at + len, Zeros(rlen - len));
    }
    PaddedOut(a, out[..], at, len);
    PaddedIn(b, inp[..], at, len);
  }

  method CryptLoop(out: array<Byte>, inp: array<Byte>, at: nat, rlen: nat, f: seq<Byte> -> seq<Byte>,
                   ghost text: seq<Byte>, ghost a: seq<Byte>)
    requires out != inp && at + rlen <= inp.Length && Sized(f) && rlen % BLOCK == 0
    requires |text| == rlen && inp[..][at..at + rlen] == text && Filled(out[..], a, at, rlen, 0, [])
    modifies out
    ensures Filled(out[..], a, at, rlen, rlen, Blocks(f, text))
  {
    hide Sized, Blocks, Patch, Filled;
    BlocksNone(f, text);
    var i := 0;
    while i < rlen / BLOCK
      invariant 0 <= i <= rlen / BLOCK
      invariant Filled(out[..], a, at, rlen, BLOCK * i, Blocks(f, text[..BLOCK * i]))
    {
      var k := BLOCK * i;
      FilledRoom(out[..], a, at, rlen, k, Blocks(f, text[..k]));
      ghost var was := out[..];
      NextText(inp[..], at, text, k);
      SizedAt(f, text[k..k + BLOCK]);
      var block := inp[at + k..at + k + BLOCK];
      assert block == text[k..k + BLOCK];
      Copy(out, at + k, f(block));
      NextBlock(f, text, k);
      FilledMore(was, a, at, rlen, k, Blocks(f, text[..k]), f(block));
      i := i + 1;
    }
    assert text[..rlen] == text;
  }

  lemma FilledRoom(x: seq<Byte>, a: seq<Byte>, at: nat, n: nat, k: nat, y: seq<Byte>)
    requires Filled(x, a, at, n, k, y)
    ensures at + n <= |x|
  {
  }

  /** `x` with `k` bytes of output at `at` and everything outside the `n` bytes from there as in `a`. */
  ghost predicate Filled(x: seq<Byte>, a: seq<Byte>, at: nat, n: nat, k: nat, y: seq<Byte>) {
    |x| == |a| && at + n <= |a| && k <= n && x[at..at + k] == y && x[..at] == a[..at] && x[at + n..] == a[at + n..]
  }

  lemma FilledMore(x: seq<Byte>, a: seq<Byte>, at: nat, n: nat, k: nat, y: seq<Byte>, b: seq<Byte>)
    requires Filled(x, a, at, n, k, y) && k + |b| <= n
    ensures Filled(Patch(x, at + k, b), a, at, n, k + |b|, y + b)
  {
    hide Patch;
    var x' := Patch(x, at + k, b);
    PatchOutside(x, at + k, b, at, at + k);
    PatchOutside(x, at + k, b, 0, at);
    PatchOutside(x, at + k, b, at + n, |x|);
    assert x'[at..at + k + |b|] == x'[at..at + k] + x'[at + k..at + k + |b|];
    assert x'[..at] == x'[0..at] && x[..at] == x[0..at];
  }

  lemma FilledAll(x: seq<Byte>, a: seq<Byte>, at: nat, n: nat, y: seq<Byte>)
    requires Filled(x, a, at, n, n, y)
    ensures x[at..at + n] == y && x[..at] == a[..at] && x[at + n..] == a[at + n..]
  {
  }

  lemma PaddedOut(a: seq<Byte>, x: seq<Byte>, at: nat, len: nat)
    requires var n := RoundUp(len); at + n <= |a| && x == if n > len then Patch(a, at + len, Zeros(n - len)) else a
    ensures Filled(x, a, at, RoundUp(len), 0, [])
  {
    assert x[at..at + 0] == [];
  }

  lemma PaddedIn(b: seq<Byte>, x: seq<Byte>, at: nat, len: nat)
    requires var n := RoundUp(len); at + n <= |b| && x == if n > len then Patch(b, at + len, Zeros(n - len)) else b
    ensures var n := RoundUp(len);
            |x| == |b| && x[at..at + n] == Padded(b[at..at + len]) && x[..at + len] == b[..at + len] &&
            x[at + n..] == b[at + n..]
  {
  }

  lemma NextText(x: seq<Byte>, at: nat, text: seq<Byte>, k: nat)
    requires at + |text| <= |x| && x[at..at + |text|] == text && k + BLOCK <= |text|
    ensures x[at + k..at + k + BLOCK] == text[k..k + BLOCK]
  {
    SliceOfSlice(x, at, at + |text|, k, k + BLOCK);
  }

  lemma PaddedSize(s: seq<Byte>)
    ensures |Padded(s)| == RoundUp(|s|)
  {
  }

  lemma ZerosSize(n: nat)
    ensures |Zeros(n)| == n
  {
  }

  lemma BlocksNone(f: seq<Byte> -> seq<Byte>, s: seq<Byte>)
    ensures Blocks(f, s[..0]) == []
  {
  }

  lemma NextBlock(f: seq<Byte> -> seq<Byte>, s: seq<Byte>, k: nat)
    requires k + BLOCK <= |s| && k % BLOCK == 0
    ensures Blocks(f, s[..k + BLOCK]) == Blocks(f, s[..k]) + f(s[k..k + BLOCK])
  {
    var b := s[k..k + BLOCK];
    assert s[..k + BLOCK] == s[..k] + b;
    BlocksConcat(f, s[..k], b);
    assert b[..BLOCK] == b && b[BLOCK..] == [] && Blocks(f, b[BLOCK..]) == [];
  }

  // ------------------------------------------------------------- sending, receiving

  /** The length under which a device frame of `n` bytes is sent. */
  function FrameLen(n: nat): nat { if n < ETH_ZLEN then ETH_ZLEN else n }

  /** A frame of `n` bytes read from the device into `inp`, encoded for the network. */
  method Emit(inp: array<Byte>, n: nat, c: Cipher) returns (packet: seq<Byte>)
    requires Proper(c) && InBounds(FrameLen(n)) && inp.Length == BUFFER
    modifies inp
    ensures packet == Blocks(c.enc, Padded(old(inp[..FrameLen(n)])))
  {
    hide Sized, Blocks, Padded;
    var out := new Byte[BUFFER](_ => 0);
    ghost var s := inp[..FrameLen(n)];
    assert inp[0..0 + FrameLen(n)] == s;
    var aesLen := Crypt(out, inp, 0, FrameLen(n), c.enc);
    packet := out[..aesLen];
    assert out[0..0 + aesLen] == packet;
  }

  /** What a receiver writes to its device: the whole packet decoded, cut to the frame length of the MTU. */
  function Received(c: Cipher, packet: seq<Byte>, mtu: nat): seq<Byte> {
    var text := Blocks(c.dec, Padded(packet));
    var num := if |packet| > mtu + 18 then mtu + 18 else |packet|;
    if num <= |text| then text[..num] else text
  }

  lemma TextSize(c: Cipher, packet: seq<Byte>)
    requires Proper(c)
    ensures |Blocks(c.dec, Padded(packet))| == RoundUp(|packet|)
  {
    hide Blocks, Sized;
    BlocksSize(c.dec, Padded(packet));
  }

  /** Decoding or encoding a packet stays inside the packet buffers. */
  predicate InBounds(num: nat) {
    RoundUp(num) <= BUFFER
  }

  /**
   Of what `recvfrom` and `read` can return, exactly the packets and frames of up to 1504 bytes are decoded, in
   one call or in two, and encoded inside the buffers.
   */
  lemma InBoundsExact(num: nat)
    requires num <= FRAME_BSIZE
    ensures InBounds(num) <==> num <= 1504
    ensures InBounds(FrameLen(num)) <==> num <= 1504
    ensures num >= BLOCK ==> BLOCK + RoundUp(num - BLOCK) == RoundUp(num)
  {
  }

  /** The client decodes a packet in one call. */
  method ReceiveWhole(packet: seq<Byte>, mtu: nat, c: Cipher) returns (written: seq<Byte>)
    requires Proper(c) && InBounds(|packet|)
    ensures written == Received(c, packet, mtu)
  {
    hide Blocks, Padded, Sized;
    var num := |packet|;
    var en := new Byte[BUFFER](i requires i >= 0 => if i < num then packet[i] else 0);
    var text := new Byte[BUFFER](_ => 0);
    assert en[0..0 + num] == packet;
    var aesLen := Crypt(text, en, 0, num, c.dec);
    TextSize(c, packet);
    if num > mtu + 18 {
      num := mtu + 18;
    }
    written := text[..num];
    assert text[0..0 + aesLen] == text[..aesLen];
    assert text[..num] == text[..aesLen][..num];
  }

  /** Splitting off the first block does not change what the blocks are. */
  lemma SplitBlocks(f: seq<Byte> -> seq<Byte>, packet: seq<Byte>)
    requires |packet| >= BLOCK
    ensures Blocks(f, Padded(packet)) == Blocks(f, Padded(packet[..BLOCK])) + Blocks(f, Padded(packet[BLOCK..]))
  {
    var a, b := packet[..BLOCK], packet[BLOCK..];
    assert Padded(a) == a;
    assert Padded(packet) == a + Padded(b) by {
      assert RoundUp(|packet|) == BLOCK + RoundUp(|b|);
      assert packet == a + b;
    }
    BlocksConcat(f, a, Padded(b));
  }

  /** The first block decoded by one call and the rest by another. */
  method DecodeSplit(text: array<Byte>, en: array<Byte>, num: nat, c: Cipher) returns (aesLen: nat)
    requires text != en && Proper(c) && BLOCK <= num && BLOCK + RoundUp(num - BLOCK) <= en.Length &&
             text.Length == en.Length
    modifies text, en
    ensures aesLen == BLOCK + RoundUp(num - BLOCK) && text[..aesLen] == Blocks(c.dec, Padded(old(en[..num])))
  {
    hide Blocks, Padded, Sized;
    ghost var packet, tail := en[..num], en[BLOCK..];
    assert en[0..0 + BLOCK] == packet[..BLOCK];
    var first := Crypt(text, en, 0, BLOCK, c.dec);
    assert text[0..0 + first] == text[..BLOCK] && en[0 + first..] == tail;
    assert en[BLOCK..BLOCK + (num - BLOCK)] == tail[..num - BLOCK] == packet[BLOCK..];
    var rest := Crypt(text, en, BLOCK, num - BLOCK, c.dec);
    SplitBlocks(c.dec, packet);
    aesLen := BLOCK + rest;
    assert text[..aesLen] == text[..BLOCK] + text[BLOCK..aesLen];
  }

  /** The server decodes the first block to see the MAC addresses, and the rest only for itself. */
  method ReceiveSplit(packet: seq<Byte>, mtu: nat, c: Cipher) returns (written: seq<Byte>)
    requires Proper(c) && |packet| >= ETH_ZLEN && InBounds(|packet|)
    ensures written == Received(c, packet, mtu)
  {
    hide Blocks, Padded, Sized;
    var num := |packet|;
    var en := new Byte[BUFFER](i requires i >= 0 => if i < num then packet[i] else 0);
    var text := new Byte[BUFFER](_ => 0);
    SplitSize(num);
    assert en[..num] == packet;
    var aesLen := DecodeSplit(text, en, num, c);
    TextSize(c, packet);
    if num > mtu + 18 {
      num := mtu + 18;
    }
    written := text[..num];
    assert text[..num] == text[..aesLen][..num];
  }

  lemma SplitSize(num: nat)
    requires num >= BLOCK
    ensures BLOCK + RoundUp(num - BLOCK) == RoundUp(num)
  {
  }

  /**
   A frame survives its journey: what is written starts with it, unless it was longer than the MTU allows; behind
   the bytes that were sent there are zeros, up to the next block or the frame length of the MTU.
   */
  lemma Delivered(c: Cipher, s: seq<Byte>, n: nat, mtu: nat)
    requires Proper(c) && |s| == FrameLen(n)
    ensures var w := Received(c, Blocks(c.enc, Padded(s)), mtu);
            |w| == Min(RoundUp(|s|), mtu + 18) && (n <= |w| <==> n <= mtu + 18) &&
            (forall i :: 0 <= i < |w| ==> w[i] == if i < |s| then s[i] else 0) && (n <= mtu + 18 ==> w[..n] == s[..n])
  {
    hide Blocks, Sized, Padded;
    var p := Padded(s);
    PaddedSize(s);
    PaddedIs(s);
    var packet := Blocks(c.enc, p);
    BlocksSize(c.enc, p);
    PaddedWhole(packet);
    DecodeEncode(c, p);
    var w := Received(c, packet, mtu);
    assert w == p[..|w|];
    forall i | 0 <= i < |w| ensures w[i] == if i < |s| then s[i] else 0 {
      if i < |s| { assert p[..|s|][i] == p[i]; }
    }
    if n <= mtu + 18 { assert w[..n] == s[..n]; }
  }

  /** What is whole blocks long is not padded. */
  lemma PaddedWhole(s: seq<Byte>)
    requires |s| % BLOCK == 0
    ensures Padded(s) == s
  {
  }

  /** Lengths of the control messages that are sent: hello and client respond, welcome, the others. */
  predicate ControlLen(n: nat) { n == 18 || n == 16 || n == 12 }

  /** The length of a packet tells control from data. */
  lemma LengthClassifies(n: nat)
    ensures ControlLen(n) ==> RoundUp(n) < ETH_ZLEN
    ensures RoundUp(FrameLen(n)) >= ETH_ZLEN
    ensures n <= FrameLen(n) && FrameLen(n) >= 60 && (FrameLen(n) == n || FrameLen(n) == 60)
  {
  }

  /** Encoded frames of at most the frame length fit the packet buffers, for every MTU the program allows. */
  lemma FramesFit(n: nat, mtu: nat)
    requires n <= mtu + 18 && mtu <= MAX_MTU
    ensures RoundUp(FrameLen(n)) <= FRAME_BSIZE && InBounds(RoundUp(FrameLen(n)))
  {
  }
}
