/** The parser of `__fixups__` values: records "path:property:offset", each ended by a NUL. */
module Fixups {
  import opened Bytes

  const COLON: Byte := 58

  datatype Record = Record(path: seq<Byte>, name: seq<Byte>, offset: int)

  // ---------------------------------------------------------------------- numbers

  predicate IsDigit(c: Byte) { 48 <= c <= 57 }

  predicate IsBlank(c: Byte) { c == 32 || 9 <= c <= 13 }

  /** How many bytes at the front of `s` satisfy `p`. */
  function Span(p: Byte -> bool, s: seq<Byte>): (k: nat)
    ensures k <= |s| && (forall i :: 0 <= i < k ==> p(s[i])) && (k < |s| ==> !p(s[k]))
  {
    if s == [] || !p(s[0]) then 0 else 1 + Span(p, s[1..])
  }

  function Value(ds: seq<Byte>): nat
    requires forall c :: c in ds ==> IsDigit(c)
  {
    if ds == [] then 0
    else
      var c: int := ds[|ds| - 1];
      assert IsDigit(c) && forall x :: x in ds[..|ds| - 1] ==> x in ds;
      10 * Value(ds[..|ds| - 1]) + (c - 48)
  }

  /** C's `strtoul` in base ten: the number and how many bytes it took; `max` is `ULONG_MAX`. */
  function StrToUL(s: seq<Byte>, max: nat): (r: (nat, nat))
    ensures r.1 <= |s|
  {
    var blanks := Span(IsBlank, s);
    var t := s[blanks..];
    var sign := if t != [] && (t[0] == 43 || t[0] == 45) then 1 else 0;
    var u := t[sign..];
    var digits := Span(IsDigit, u);
    if digits == 0 then (0, 0)
    else
      var v := Value(u[..digits]);
      (if v > max then
        max else if sign == 1 && t[0] == 45 then (max + 1 - v) % (max + 1) else v, blanks + sign + digits)
  }

  /** The `int` that an `unsigned long` is converted to. */
  function ToInt(v: nat): int {
    var w := Wrap32(v);
    if w > INT_MAX then w - TWO32 else w
  }

  /** A number in decimal. */
  function Decimal(n: nat): (ds: seq<Byte>)
    ensures ds != [] && forall c :: c in ds ==> IsDigit(c)
  {
    if n < 10 then [n + 48] else Decimal(n / 10) + [n % 10 + 48]
  }

  lemma {:induction false} DecimalValue(n: nat)
    ensures Value(Decimal(n)) == n
  {
    if n >= 10 {
      DecimalValue(n / 10);
      var ds := Decimal(n);
      assert ds[..|ds| - 1] == Decimal(n / 10);
    }
  }

  lemma {:induction false} SpanAll(p: Byte -> bool, s: seq<Byte>)
    requires forall c :: c in s ==> p(c)
    ensures Span(p, s) == |s|
  {
    if s != [] { SpanAll(p, s[1..]); }
  }

  /** A text of digits alone is read whole. */
  lemma DigitsRead(ds: seq<Byte>, max: nat)
    requires ds != [] && (forall c :: c in ds ==> IsDigit(c)) && Value(ds) <= max
    ensures StrToUL(ds, max) == (Value(ds), |ds|)
  {
    hide Value;
    assert IsDigit(ds[0]);
    assert !IsBlank(ds[0]);
    assert ds[0..] == ds && ds[..|ds|] == ds;
    SpanAll(IsDigit, ds);
    SpanNone(IsBlank, ds);
    hide Span;
  }

  lemma SpanNone(p: Byte -> bool, s: seq<Byte>)
    requires s != [] && !p(s[0])
    ensures Span(p, s) == 0
  {
  }

  lemma DecimalRead(n: nat, max: nat)
    requires n <= INT_MAX <= max
    ensures StrToUL(Decimal(n), max) == (n, |Decimal(n)|) && ToInt(n) == n
  {
    hide Decimal, Value, StrToUL;
    DecimalValue(n);
    DigitsRead(Decimal(n), max);
  }

  // ---------------------------------------------------------------------- records

  /** `memchr`: the first `c`, or the length. */
  function Find(s: seq<Byte>, c: Byte): (k: nat)
    ensures k <= |s| && c !in s[..k] && (k < |s| ==> s[k] == c)
  {
    if s == [] || s[0] == c then 0
    else
      var k := Find(s[1..], c);
      assert s[..k + 1] == [s[0]] + s[1..][..k];
      k + 1
  }

  lemma FindIs(s: seq<Byte>, c: Byte, k: nat)
    requires k < |s| && c !in s[..k] && s[k] == c
    ensures Find(s, c) == k
  {
    if k > 0 {
      assert s[..k] == [s[0]] + s[1..][..k - 1];
      FindIs(s[1..], c, k - 1);
    }
  }

  /** One record, as the loop body of `overlay_fixup_phandle` takes it apart. */
  function ParseText(s: seq<Byte>, max: nat): Option<Record> {
    var p := Find(s, COLON);
    if p == |s| || p == |s| - 1 then None
    else
      var t := s[p + 1..];
      var q := Find(t, COLON);
      if q == |t| || q == 0 then None
      else
        var num := t[q + 1..];
        var r := StrToUL(num, max);
        if r.1 < |num| || r.1 == 0 then None else Some(Record(s[..p], t[..q], ToInt(r.0)))
  }

  /** What the text of a record looks like. */
  predicate Shaped(s: seq<Byte>, r: Record, num: seq<Byte>, max: nat) {
    s == r.path + [COLON] + r.name + [COLON] + num && COLON !in r.path && COLON !in r.name && r.name != [] &&
    num != [] && StrToUL(num, max).1 == |num| && r.offset == ToInt(StrToUL(num, max).0)
  }

  /** The number part of a text. */
  function NumberPart(s: seq<Byte>): seq<Byte> {
    var p := Find(s, COLON);
    if p == |s| then [] else var t := s[p + 1..]; var q := Find(t, COLON); if q == |t| then [] else t[q + 1..]
  }

  /** The parser accepts exactly the texts of that shape, and returns their parts. */
  lemma ParseTextSound(s: seq<Byte>, r: Record, max: nat)
    requires ParseText(s, max) == Some(r)
    ensures Shaped(s, r, NumberPart(s), max)
  {
    hide StrToUL, ToInt, Find;
    var p := Find(s, COLON);
    var t := s[p + 1..];
    var q := Find(t, COLON);
    assert t == t[..q] + [COLON] + t[q + 1..];
    assert s == s[..p] + [COLON] + t;
  }

  lemma ParseTextComplete(s: seq<Byte>, r: Record, num: seq<Byte>, max: nat)
    requires Shaped(s, r, num, max)
    ensures ParseText(s, max) == Some(r)
  {
    hide StrToUL, ToInt;
    var p, q := |r.path|, |r.name|;
    assert s[..p] == r.path && s[p] == COLON;
    FindIs(s, COLON, p);
    var t := s[p + 1..];
    assert t == r.name + [COLON] + num;
    assert t[..q] == r.name && t[q] == COLON;
    FindIs(t, COLON, q);
    assert t[q + 1..] == num;
  }

  // ------------------------------------------------------------------- the whole value

  /** The records at the front of a value, and whether they are all of it. */
  function Parse(value: seq<Byte>, max: nat): (seq<Record>, bool)
    decreases |value|
  {
    var z := NulAt(value, 0);
    if z == |value| then ([], false)
    else
      var r, rest := ParseText(value[..z], max), value[z + 1..];
      if r.None? then ([], false)
      else if rest == [] then ([r.value], true)
      else var more := Parse(rest, max); ([r.value] + more.0, more.1)
  }

  lemma ParseStep(value: seq<Byte>, max: nat)
    ensures var z, p := NulAt(value, 0), Parse(value, max);
            if z == |value| || ParseText(value[..z], max).None? then p == ([], false)
            else
              var r, rest := ParseText(value[..z], max).value, value[z + 1..];
              p.0 == [r] + (if rest == [] then [] else Parse(rest, max).0) && p.1 == (rest == [] || Parse(rest, max).1)
  {
    hide ParseText, NulAt;
  }

  /** NUL-terminated texts one after another. */
  function Join(texts: seq<seq<Byte>>): seq<Byte> {
    if texts == [] then [] else texts[0] + [0] + Join(texts[1..])
  }

  lemma JoinFirst(texts: seq<seq<Byte>>, value: seq<Byte>)
    requires texts != [] && value == Join(texts) && NulFree(texts[0])
    ensures var z := |texts[0]|;
            z < |value| && NulAt(value, 0) == z && value[..z] == texts[0] && value[z + 1..] == Join(texts[1..])
  {
    var z := |texts[0]|;
    assert value[0..z] == texts[0];
    NulAtIs(value, 0, z);
  }

  /** Accepted values are exactly the non-empty sequences of shaped texts; the records are their parts, in order. */
  ghost predicate AllShaped(texts: seq<seq<Byte>>, rs: seq<Record>, max: nat) {
    |texts| == |rs| && forall i :: 0 <= i < |rs| ==> NulFree(texts[i]) && ParseText(texts[i], max) == Some(rs[i])
  }

  lemma {:induction false} ParseJoined(texts: seq<seq<Byte>>, rs: seq<Record>, max: nat)
    requires texts != [] && AllShaped(texts, rs, max)
    ensures Parse(Join(texts), max) == (rs, true)
    decreases |texts|
  {
    hide ParseText;
    var value := Join(texts);
    JoinFirst(texts, value);
    if |texts| > 1 {
      assert AllShaped(texts[1..], rs[1..], max);
      ParseJoined(texts[1..], rs[1..], max);
      assert Join(texts[1..]) != [];
      assert rs == [rs[0]] + rs[1..];
    } else {
      assert Join(texts[1..]) == [] && rs == [rs[0]];
    }
  }

  /** The texts that an accepted value consists of. */
  lemma {:induction false} ParsedTexts(value: seq<Byte>, max: nat) returns (texts: seq<seq<Byte>>)
    requires Parse(value, max).1
    ensures texts != [] && value == Join(texts) && AllShaped(texts, Parse(value, max).0, max)
    decreases |value|
  {
    hide ParseText;
    var z := NulAt(value, 0);
    var rest := value[z + 1..];
    assert value[0..z] == value[..z];
    assert value == value[..z] + [0] + rest;
    if rest == [] {
      texts := [value[..z]];
      assert Join(texts[1..]) == [];
    } else {
      var more := ParsedTexts(rest, max);
      texts := [value[..z]] + more;
      assert texts[1..] == more;
    }
  }

  /** A record that can be printed: no separator in its parts, a name, an offset that fits an `int`. */
  predicate Printable(r: Record) {
    NulFree(r.path) && NulFree(r.name) && COLON !in r.path && COLON !in r.name && r.name != [] &&
    0 <= r.offset <= INT_MAX
  }

  function PrintRecord(r: Record): seq<Byte>
    requires Printable(r)
  {
    r.path + [COLON] + r.name + [COLON] + Decimal(r.offset)
  }

  function Print(rs: seq<Record>): seq<Byte>
    requires forall r :: r in rs ==> Printable(r)
  {
    Join(seq(|rs|, i requires 0 <= i < |rs| => PrintRecord(rs[i])))
  }

  /** Printing and parsing give the records back. */
  lemma PrintParse(rs: seq<Record>, max: nat)
    requires rs != [] && (forall r :: r in rs ==> Printable(r)) && max >= INT_MAX
    ensures Parse(Print(rs), max) == (rs, true)
  {
    hide StrToUL, ParseText, ToInt;
    var texts := seq(|rs|, i requires 0 <= i < |rs| => PrintRecord(rs[i]));
    forall i | 0 <= i < |rs| ensures NulFree(texts[i]) && ParseText(texts[i], max) == Some(rs[i]) {
      assert rs[i] in rs;
      DecimalRead(rs[i].offset, max);
      ParseTextComplete(texts[i], rs[i], Decimal(rs[i].offset), max);
    }
    ParseJoined(texts, rs, max);
  }
}
