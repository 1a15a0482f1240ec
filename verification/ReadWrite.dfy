/** The editing functions of fdt_rw.c: bytes shifted in place, proved against the edits on trees. */
module ReadWrite {
  import opened Bytes
  import opened DeviceTree
  import opened Lexer
  import opened Blob
  import opened Walk
  import opened Traverse
  import opened Splice
  import opened Edit
  import opened Rewrite

  // ------------------------------------------------- what the edits have in common

  /**
   What an edit is given: if the probe accepts the blob it holds `t`, and unless the offset is
   detectably none, it is that of the node at `path`.
   */
  predicate Accepts(b: seq<Byte>, t: Node, path: Path, node: int) {
    |b| >= 40 && INT_MIN <= node <= INT_MAX &&
    (RwProbe(b) == 0 ==> Holds(b, t) && (!BadNode(b, node) ==> NodeOff(b, t, path, node)))
  }

  /** The probe accepts the blob and the offset is that of a node. */
  predicate Live(b: seq<Byte>, node: int) {
    |b| >= 40 && RwProbe(b) == 0 && Readable(b) && !BadNode(b, node)
  }

  /** An edit that is refused at the door changes nothing. */
  predicate Refusal(b: seq<Byte>, b': seq<Byte>, node: int, err: int) {
    (RwProbe(b) != 0 ==> err == RwProbe(b) && b' == b) &&
    (RwProbe(b) == 0 && Readable(b) && BadNode(b, node) ==> err == -FDT_ERR_BADOFFSET && b' == b)
  }

  /** What no edit changes: the layout, the reserve map, and the string at every offset. */
  predicate Kept(b: seq<Byte>, b': seq<Byte>) {
    Complete(b) && Complete(b') && |b'| == |b| && Total(b') == Total(b) && Rsv(b') == Rsv(b) &&
    Strings(b) <= Strings(b')
  }

  lemma KeptTrans(a: seq<Byte>, b: seq<Byte>, c: seq<Byte>)
    requires Kept(a, b) && Kept(b, c)
    ensures Kept(a, c)
  {
    hide Ordered, Ld32;
  }

  lemma FrameKept(b: seq<Byte>, b': seq<Byte>)
    requires Frame(b, b') && Complete(b)
    ensures Kept(b, b')
  {
    hide Ld32;
  }

  lemma GrownKept(b: seq<Byte>, b': seq<Byte>, more: seq<Byte>)
    requires Grown(b, b', more) && Complete(b)
    ensures Kept(b, b')
  {
    hide Ld32;
  }

  /** `po` is the offset of property `i` of the node at `path`. */
  predicate PropOff(b: seq<Byte>, t: Node, path: Path, i: nat, po: int) {
    Holds(b, t) && ValidPath(t, path) && i < |At(t, path).props| &&
    PropMark(b, Tokens(t), po, |Before(t, path)| + 1 + i)
  }

  // ------------------------------------------------------- property bytes, rewritten

  /** A property whose value space was resized and whose length word was stored. */
  lemma ResizedSpelled(st: seq<Byte>, o: nat, it: Item, st1: seq<Byte>, st2: seq<Byte>, len: nat)
    requires o <= |st| && it.Data? && Spells(st[o..], it) && len < 0xffff_fff4
    requires var a, a' := Align4(|it.value|), Align4(len);
             o + 12 + a <= |st| && |st1| == |st| - a + a' &&
             (var k := o + 12 + Min(a, a'); st1[..k] == st[..k]) && st1[o + 12 + a'..] == st[o + 12 + a..]
    requires st2 == Patch(st1, o + 4, Be32(len))
    ensures var v := st2[o + 12..o + 12 + len];
            var n := 12 + Align4(len);
            var k := Min(|it.value|, len);
            |v| == len && v[..k] == it.value[..k] && Lex(st2[o..o + n]) == Some([Data(it.nameoff, v)]) &&
            st2[..o] == st[..o] && st2[o + n..] == st[o + 12 + Align4(|it.value|)..]
  {
    hide Ld32, Align4, Be32, Lex, Patch, Spells;
    var k := o + 12 + Min(Align4(|it.value|), Align4(len));
    DataSpelled(st, o, it);
    ResizedHead(st, st1, k, o, len);
    PatchOutside(st1, o + 4, Be32(len), o + 12 + Align4(len), |st1|);
    DataLex(st2, o, it.nameoff, st2[o + 12..o + 12 + len], st, o);
    ResizedValue(st, st1, k, o, len, it.value);
  }

  lemma ResizedHead(st: seq<Byte>, st1: seq<Byte>, k: nat, o: nat, len: U32)
    requires o + 12 <= k <= |st| && k <= |st1| && st1[..k] == st[..k]
    ensures var st2 := Patch(st1, o + 4, Be32(len));
            st2[..o] == st[..o] && st2[o..o + 4] == st[o..o + 4] && st2[o + 8..o + 12] == st[o + 8..o + 12]
  {
    hide Patch, Be32;
    KeepSlice(st, st1, k, o + 4, Be32(len), 0, o);
    KeepSlice(st, st1, k, o + 4, Be32(len), o, o + 4);
    KeepSlice(st, st1, k, o + 4, Be32(len), o + 8, o + 12);
  }

  lemma ResizedValue(st: seq<Byte>, st1: seq<Byte>, k: nat, o: nat, len: U32, value: seq<Byte>)
    requires o + 12 <= k <= |st| && k <= |st1| && st1[..k] == st[..k]
    requires o + 12 + |value| <= |st| && st[o + 12..o + 12 + |value|] == value
    requires o + 12 + len <= |st1| && o + 12 + Min(|value|, len) <= k
    ensures var v, j := Patch(st1, o + 4, Be32(len))[o + 12..o + 12 + len], Min(|value|, len);
            v[..j] == value[..j]
  {
    hide Patch, Be32;
    var st2, j := Patch(st1, o + 4, Be32(len)), Min(|value|, len);
    KeepSlice(st, st1, k, o + 4, Be32(len), o + 12, o + 12 + j);
    SliceOfSlice(st2, o + 12, o + 12 + len, 0, j);
    SliceOfSlice(st, o + 12, o + 12 + |value|, 0, j);
  }

  lemma KeepSlice(s: seq<Byte>, t: seq<Byte>, k: nat, at: nat, x: seq<Byte>, lo: nat, hi: nat)
    requires k <= |s| && k <= |t| && t[..k] == s[..k] && at + |x| <= |t| && lo <= hi <= k &&
             (hi <= at || at + |x| <= lo)
    ensures Patch(t, at, x)[lo..hi] == s[lo..hi]
  {
    hide Patch;
    PatchOutside(t, at, x, lo, hi);
    SliceOfSlice(t, 0, k, lo, hi);
    SliceOfSlice(s, 0, k, lo, hi);
  }

  /** Three words and a value spell a property. */
  lemma DataLex(st: seq<Byte>, o: nat, nameoff: U32, v: seq<Byte>, src: seq<Byte>, so: nat)
    requires |v| < 0xffff_fff4 && o + 12 + Align4(|v|) <= |st| && so + 12 <= |src|
    requires st[o..o + 4] == src[so..so + 4] && Ld32(src, so) == FDT_PROP
    requires st[o + 4..o + 8] == Be32(|v|)
    requires st[o + 8..o + 12] == src[so + 8..so + 12] && Ld32(src, so + 8) == nameoff
    requires st[o + 12..o + 12 + |v|] == v
    ensures Lex(st[o..o + 12 + Align4(|v|)]) == Some([Data(nameoff, v)])
  {
    hide Ld32, Align4, Be32, Lex;
    var n := 12 + Align4(|v|);
    var x := st[o..o + n];
    SliceOfSlice(st, o, o + n, 0, 4);
    SliceOfSlice(st, o, o + n, 4, 8);
    SliceOfSlice(st, o, o + n, 8, 12);
    SliceOfSlice(st, o, o + n, 12, 12 + |v|);
    LoadSame(x, 0, src, so);
    LoadStored(x, 4, |v|);
    LoadSame(x, 8, src, so + 8);
    LexOne(x, Data(nameoff, v));
  }

  /** Property `i` of the node at `path`, seen in the events. */
  lemma PropHere(t: Node, path: Path, i: nat)
    requires ValidPath(t, path) && i < |At(t, path).props|
    ensures var e, p := |Before(t, path)| + 1 + i, At(t, path).props[i];
            e < |Tokens(t)| && Tokens(t)[e] == Set(p.name, p.value)
  {
    hide Flatten, Before, Here;
    NodeHere(t, path);
    NodeParts(Tokens(t), |Before(t, path)|, At(t, path));
    HereAt(Tokens(t), |Before(t, path)| + 1, PropEvents(At(t, path).props), i);
    HereSize(Tokens(t), |Before(t, path)| + 1, PropEvents(At(t, path).props));
  }

  /** The bytes of a property in a blob that holds a tree. */
  lemma PropOffIs(b: seq<Byte>, t: Node, path: Path, i: nat, po: int)
    requires PropOff(b, t, path, i, po)
    ensures Complete(b) && Readable(b) && Ordered(b) && ValidPath(t, path) && i < |At(t, path).props|
    ensures var st, p := Struct(b), At(t, path).props[i];
            0 <= po < |st| && First(st[po..]).Some? && ItemOf(b, po).Data? && ItemOf(b, po).value == p.value &&
            Spells(st[po..], ItemOf(b, po)) && po + ItemOf(b, po).Size() <= |st| <= INT_MAX && po % 4 == 0 &&
            Str(Strings(b), ItemOf(b, po).nameoff) == Some(p.name) &&
            AtMark(b, Tokens(t), po, |Before(t, path)| + 1 + i) &&
            AtMark(b, Tokens(t), po + ItemOf(b, po).Size(), |Before(t, path)| + 2 + i)
  {
    hide First, Lex, Events, Spells, NextTag, Ordered, Str, Flatten, Before, Mark, Item.Size;
    PropStep(b, Tokens(t), po, |Before(t, path)| + 1 + i);
    PropHere(t, path, i);
  }

  /** One property's bytes replaced by those of another of the same name offset. */
  lemma PropReplaced(b: seq<Byte>, t: Node, path: Path, i: nat, po: nat, it: Item, b': seq<Byte>, v: seq<Byte>)
    requires PropOff(b, t, path, i, po) && |v| < 0xffff_fff4
    requires po < |Struct(b)| && First(Struct(b)[po..]) == Some(it) && it.Data?
    requires Replaced(b, b', po, po + it.Size(), po + 12 + Align4(|v|))
    requires Lex(Struct(b')[po..po + 12 + Align4(|v|)]) == Some([Data(it.nameoff, v)])
    ensures var n := At(t, path);
            var t' := Put(t, path, n.(props := n.props[i := Prop(n.props[i].name, v)]));
            PropOff(b', t', path, i, po) && Before(t', path) == Before(t, path) && SameUpTo(b, b', po) && Kept(b, b')
  {
    hide Lex, Events, Ordered, Ld32, Flatten, Before, Put, First, Spells, Align4, NextTag, Str, AtMark, Replaced,
         SameUpTo, Kept, Forest, Struct, Tokens, Item.Size;
    var n := At(t, path);
    var p := Prop(n.props[i].name, v);
    var n' := n.(props := n.props[i := p]);
    PropOffIs(b, t, path, i, po);
    PropSplit(n, i, p);
    var q, q' := [Set(n.props[i].name, n.props[i].value)], [Set(p.name, p.value)];
    var h, r := [Enter(n.name)] + PropEvents(n.props[..i]), PropEvents(n.props[i + 1..]) + Forest(n.kids) + [Leave];
    EventsOne(Data(it.nameoff, v), Strings(b));
    assert Events([Data(it.nameoff, v)], Strings(b)) == q';
    ReplacedTree(b, t, path, n', h, q, q', r, b', po, po + it.Size(), po + 12 + Align4(|v|), [Data(it.nameoff, v)]);
    var t' := Put(t, path, n');
    PutAt(t, path, n');
    PropHere(t', path, i);
    ReplacedKeeps(b, b', po, po + it.Size(), po + 12 + Align4(|v|));
    FirstAfter(Struct(b'), po, po + 12 + Align4(|v|), Data(it.nameoff, v));
  }

  lemma ReplacedKeeps(b: seq<Byte>, b': seq<Byte>, o: nat, o2: nat, p2: nat)
    requires Replaced(b, b', o, o2, p2) && Complete(b)
    ensures SameUpTo(b, b', o) && Kept(b, b') && p2 <= |Struct(b')| && Readable(b')
  {
    hide Ld32, Ordered;
    FrameKept(b, b');
  }

  /** A stretch that spells one item begins with it. */
  lemma FirstAfter(st: seq<Byte>, o: nat, p: nat, it: Item)
    requires o < p <= |st| && Lex(st[o..p]) == Some([it])
    ensures First(st[o..]) == Some(it)
  {
    hide First;
    var x := st[o..p];
    assert First(x) == Some(it) by {
      assert Lex(x).value[0] == First(x).value;
    }
    assert st[o..] == x + st[p..];
    FirstOfConcat(x, st[p..]);
  }

  // ---------------------------------------------------------- properties, in memory

  /** Bytes written over part of a value still spell a property. */
  lemma ValueSpelled(st: seq<Byte>, po: nat, it: Item, idx: nat, x: seq<Byte>)
    requires po <= |st| && it.Data? && Spells(st[po..], it) && idx + |x| <= |it.value| && po + it.Size() <= |st|
    ensures var st', v, n := Patch(st, po + 12 + idx, x), Patch(it.value, idx, x), it.Size();
            |st'| == |st| && st'[..po] == st[..po] && st'[po + n..] == st[po + n..] && n == 12 + Align4(|v|) &&
            Lex(st'[po..po + n]) == Some([Data(it.nameoff, v)])
  {
    hide Ld32, Lex, Patch, Align4, Be32;
    var st', v, n := Patch(st, po + 12 + idx, x), Patch(it.value, idx, x), it.Size();
    var at := po + 12 + idx;
    DataSpelled(st, po, it);
    PatchOutside(st, at, x, 0, po);
    PatchOutside(st, at, x, po, po + 4);
    PatchOutside(st, at, x, po + 4, po + 8);
    PatchOutside(st, at, x, po + 8, po + 12);
    PatchOutside(st, at, x, po + n, |st|);
    PatchInside(st, at, x, po + 12, po + 12 + |v|);
    SliceOfSlice(st, po, |st|, 0, 4);
    assert st[po..] == st[po..|st|];
    LoadSame(st, po, st[po..], 0);
    StoreLoaded(st, po + 4);
    DataLex(st', po, it.nameoff, v, st, po);
  }

  /** Bytes written over part of a value change that part of the value. */
  lemma ValueWritten(b: seq<Byte>, t: Node, path: Path, i: nat, po: nat, it: Item, idx: nat, x: seq<Byte>,
                     b': seq<Byte>)
    requires PropOff(b, t, path, i, po) && po < |Struct(b)| && First(Struct(b)[po..]) == Some(it) && it.Data?
    requires idx + |x| <= |it.value| && po + 12 + |it.value| <= |Struct(b)|
    requires Frame(b, b') && Struct(b') == Patch(Struct(b), po + 12 + idx, x)
    ensures var n := At(t, path);
            var t' := Put(t, path, n.(props := n.props[i := Prop(n.props[i].name, Patch(it.value, idx, x))]));
            it.value == n.props[i].value &&
            PropOff(b', t', path, i, po) && Before(t', path) == Before(t, path) && SameUpTo(b, b', po) && Kept(b, b')
  {
    hide Lex, Events, Ordered, Ld32, Flatten, Before, Put, First, NextTag, Str, Mark, Align4, Spells, Patch, Kept,
         SameUpTo;
    PropOffIs(b, t, path, i, po);
    ValueSpelled(Struct(b), po, it, idx, x);
    PropReplaced(b, t, path, i, po, it, b', Patch(it.value, idx, x));
  }

  /** Only the structure block changed, by bytes written at `at`. */
  predicate StructPatched(b: seq<Byte>, b': seq<Byte>, at: nat, x: seq<Byte>) {
    Frame(b, b') && at + |x| <= |Struct(b)| && Struct(b') == Patch(Struct(b), at, x)
  }

  /** Copy `x` into the value of a property, from byte `idx` of it on. */
  method WriteValue(m: array<Byte>, po: nat, idx: nat, x: seq<Byte>, ghost t: Node, ghost path: Path, ghost i: nat)
    requires PropOff(m[..], t, path, i, po) && idx + |x| <= |At(t, path).props[i].value|
    modifies m
    ensures var n := At(t, path);
            var t' := Put(t, path, n.(props := n.props[i := Prop(n.props[i].name, Patch(n.props[i].value, idx, x))]));
            PropOff(m[..], t', path, i, po) && Before(t', path) == Before(t, path) &&
            SameUpTo(old(m[..]), m[..], po) && Kept(old(m[..]), m[..]) && DataSize(m[..]) == old(DataSize(m[..]))
    ensures StructPatched(old(m[..]), m[..], po + 12 + idx, x)
  {
    hide PropOff, Ordered, Frame, Patch, Put, Before, At, Hdr, SameUpTo, Kept, Struct, Strings, First, Spells, Str,
         Mark, AtMark, NextTag;
    ghost var b := m[..];
    PropOffIs(b, t, path, i, po);
    Bounds(b);
    ghost var it := ItemOf(b, po);
    PutStruct(m, po + 12 + idx, x);
    ValueWritten(b, t, path, i, po, it, idx, x, m[..]);
  }

  /** The events behind a node argument. */
  lemma ArgOf(b: seq<Byte>, t: Node, path: Path, node: int)
    requires Holds(b, t) && INT_MIN <= node <= INT_MAX && (!BadNode(b, node) ==> NodeOff(b, t, path, node))
    ensures Ordered(b) && Readable(b) && Complete(b)
    ensures !BadNode(b, node) ==>
              ValidPath(t, path) && NodeArg(b, Tokens(t), node, |Before(t, path)|) && NodeEvents(t, path)
    ensures !BadNode(b, node) ==> PropsClosed(Tokens(t), |Before(t, path)| + 1)
    ensures BadNode(b, node) ==> forall e: nat :: NodeArg(b, Tokens(t), node, e)
    ensures !BadNode(b, node) ==> 0 <= node < CheckTagOffset(Struct(b), node, FDT_BEGIN_NODE) <= |Struct(b)|
  {
    hide Ordered, NextTag, NodeMark, Before, Flatten, Struct, Lex, Events, Ld32;
    if !BadNode(b, node) {
      NodeOffIs(b, t, path, node);
    }
  }

  lemma FindPropInTree(t: Node, path: Path, name: seq<Byte>)
    requires ValidPath(t, path)
    ensures var i := MatchProp(At(t, path).props, name);
            FindProp(Tokens(t), |Before(t, path)| + 1, name) ==
            if i < |At(t, path).props| then Some(|Before(t, path)| + 1 + i) else None
  {
    hide Flatten, Before, Here, Tokens;
    NodeHere(t, path);
    FindPropInNode(Tokens(t), |Before(t, path)|, At(t, path), name);
  }

  lemma FoundProp(b: seq<Byte>, t: Node, path: Path, i: nat, po: int)
    requires Holds(b, t) && ValidPath(t, path) && i < |At(t, path).props| &&
             PropMark(b, Tokens(t), po, |Before(t, path)| + 1 + i)
    ensures PropOff(b, t, path, i, po)
  {
  }

  lemma SplicedIs(b: seq<Byte>, b': seq<Byte>, o: nat, oldlen: nat, newlen: nat)
    requires Spliced(b, b', o, oldlen, newlen)
    ensures Ordered(b) && Ordered(b') && SizeStruct(b') == SizeStruct(b) - oldlen + newlen
    ensures DataSize(b') == DataSize(b) - oldlen + newlen
  {
  }

  /** The tree after the value of property `i` was resized. */
  lemma ResizedTree(b: seq<Byte>, t: Node, path: Path, i: nat, po: nat, it: Item, b1: seq<Byte>, b2: seq<Byte>,
                    len: nat, name: seq<Byte>)
    requires PropOff(b, t, path, i, po) && po < |Struct(b)| && First(Struct(b)[po..]) == Some(it) && it.Data?
    requires i == MatchProp(At(t, path).props, name)
    requires po + it.Size() <= |Struct(b)| && Spliced(b, b1, po + 12, Align4(|it.value|), Align4(len))
    requires Frame(b1, b2) && po + 12 + Align4(len) <= |Struct(b1)| &&
             Struct(b2) == Patch(Struct(b1), po + 4, Be32(len))
    ensures var v, n := Struct(b2)[po + 12..po + 12 + len], At(t, path);
            var k, t' := Min(|n.props[i].value|, len), Put(t, path, SetProp(n, name, v));
            |v| == len && v[..k] == n.props[i].value[..k] && Before(t', path) == Before(t, path) &&
            PropOff(b2, t', path, i, po) && Kept(b, b2) && SameUpTo(b, b2, po)
  {
    hide Lex, Events, Ordered, Ld32, Flatten, Before, Put, First, NextTag, Str, Mark, Align4, Spells, Patch, Kept,
         SameUpTo, MatchProp;
    PropOffIs(b, t, path, i, po);
    Bounds(b1);
    ResizedSpelled(Struct(b), po, it, Struct(b1), Struct(b2), len);
    FrameTrans(b, b1, b2);
    PropReplaced(b, t, path, i, po, it, b2, Struct(b2)[po + 12..po + 12 + len]);
  }

  /** `fdt_resize_property_` */
  method ResizeProperty(m: array<Byte>, node: int, name: seq<Byte>, len: nat, ghost t: Node, ghost path: Path)
    returns (err: int, po: int, ghost i: nat, ghost v: seq<Byte>)
    requires Holds(m[..], t) && INT_MIN <= node <= INT_MAX && (!BadNode(m[..], node) ==> NodeOff(m[..], t, path, node))
    modifies m
    ensures err != 0 ==> m[..] == old(m[..])
    ensures old(BadNode(m[..], node)) ==> err == -FDT_ERR_BADOFFSET
    ensures !old(BadNode(m[..], node)) ==>
              var n := At(t, path);
              i == MatchProp(n.props, name) &&
              if i == |n.props| then err == -FDT_ERR_NOTFOUND
              else err == if old(DataSize(m[..])) - Align4(|n.props[i].value|) + Align4(len) > old(Total(m[..]))
                  then -FDT_ERR_NOSPACE else 0
    ensures err == 0 ==>
              var n := At(t, path);
              var k := Min(|n.props[i].value|, len);
              var t' := Put(t, path, SetProp(n, name, v));
              |v| == len && v[..k] == n.props[i].value[..k] && Before(t', path) == Before(t, path) &&
              PropOff(m[..], t', path, i, po) && Kept(old(m[..]), m[..]) &&
              old(CheckTagOffset(Struct(m[..]), node, FDT_BEGIN_NODE)) <= po && SameUpTo(old(m[..]), m[..], po) &&
              DataSize(m[..]) == old(DataSize(m[..])) - Align4(|n.props[i].value|) + Align4(len)
  {
    hide PropOff, Ordered, Frame, Patch, Put, Before, Hdr, SameUpTo, Kept, Struct, Strings, First, Spells, Str,
         Mark, AtMark, NextTag, NodeMark, PropMark, Tokens, Flatten, BadNode, Lex, Events, Align4, MatchProp, Ld32,
         At, Be32, Min, SetProp, Spliced, NodeOff, NodeEvents, Holds, CheckTagOffset, ValidPath, PropsClosed,
         FindProp, Total, DataSize, SizeStruct, EventOf, NodeArg;
    ghost var b, n, es, e := m[..], At(t, path), Tokens(t), |Before(t, path)|;
    ArgOf(b, t, path, node);
    i, v := 0, [];
    po := GetProperty(m[..], node, name, es, e);
    if !BadNode(b, node) {
      i := MatchProp(n.props, name);
      FindPropInTree(t, path, name);
      if i < |n.props| {
        FoundProp(b, t, path, i, po);
        PropOffIs(b, t, path, i, po);
      }
    }
    if po < 0 {
      err := po;
      return;
    }
    ghost var it := ItemOf(b, po);
    Bounds(b);
    var oldlen := Ld32(Struct(m[..]), po + 4);
    DataSpelled(Struct(b), po, it);
    err := SpliceStruct(m, po + 12, Align4(oldlen), Align4(len));
    if err != 0 { return; }
    ghost var b1 := m[..];
    SplicedIs(b, b1, po + 12, Align4(oldlen), Align4(len));
    Bounds(b1);
    PutStruct(m, po + 4, Be32(len));
    v := Struct(m[..])[po + 12..po + 12 + len];
    ResizedTree(b, t, path, i, po, it, b1, m[..], len, name);
  }

  /** The three words in front of a value. */
  function PropHeader(len: U32, nameoff: U32): (r: seq<Byte>)
    ensures |r| == 12
  {
    Be32(FDT_PROP) + Be32(len) + Be32(nameoff)
  }

  lemma InsertedSpelled(st: seq<Byte>, o: nat, st1: seq<Byte>, st2: seq<Byte>, len: U32, nameoff: U32)
    requires len < 0xffff_fff4 && o <= |st| && |st1| == |st| + 12 + Align4(len)
    requires st1[..o] == st[..o] && st1[o + 12 + Align4(len)..] == st[o..]
    requires st2 == Patch(st1, o, PropHeader(len, nameoff))
    ensures var v, n := st2[o + 12..o + 12 + len], 12 + Align4(len);
            |v| == len && st2[..o] == st[..o] && st2[o + n..] == st[o..] &&
            Lex(st2[o..o + n]) == Some([Data(nameoff, v)])
  {
    hide Ld32, Lex, Patch, Align4, Be32;
    var v, n, h := st2[o + 12..o + 12 + len], 12 + Align4(len), PropHeader(len, nameoff);
    PatchOutside(st1, o, h, o + n, |st1|);
    assert h[0..4] == Be32(FDT_PROP) && h[4..8] == Be32(len) && h[8..12] == Be32(nameoff);
    LoadStored(h, 0, FDT_PROP);
    LoadStored(h, 8, nameoff);
    SliceOfSlice(st2, o, o + 12, 0, 4);
    SliceOfSlice(st2, o, o + 12, 4, 8);
    SliceOfSlice(st2, o, o + 12, 8, 12);
    DataLex(st2, o, nameoff, v, h, 0);
  }

  /** The tree after a property was put in front of the others. */
  lemma InsertedTree(b: seq<Byte>, t: Node, path: Path, node: int, b1: seq<Byte>, b2: seq<Byte>, len: U32,
                     nameoff: U32, name: seq<Byte>, v: seq<Byte>)
    requires NodeOff(b, t, path, node) && len < 0xffff_fff4 && Str(Strings(b), nameoff) == Some(name)
    requires var o := CheckTagOffset(Struct(b), node, FDT_BEGIN_NODE);
             0 <= o && Spliced(b, b1, o, 0, 12 + Align4(len)) && Frame(b1, b2) &&
             o + 12 + Align4(len) <= |Struct(b1)| &&
             Struct(b2) == Patch(Struct(b1), o, PropHeader(len, nameoff)) &&
             v == Cut(Struct(b2), o + 12, o + 12 + len)
    ensures var o, n := CheckTagOffset(Struct(b), node, FDT_BEGIN_NODE), At(t, path);
            var t' := Put(t, path, n.(props := [Prop(name, v)] + n.props));
            |v| == len && Before(t', path) == Before(t, path) && ValidPath(t', path) &&
            PropOff(b2, t', path, 0, o) && Kept(b, b2) && SameUpTo(b, b2, o)
  {
    hide Lex, Events, Ordered, Hdr, Flatten, Before, Put, First, NextTag, Str, AtMark, Align4, Spells, Patch,
         PropHeader, NodeEvents, Forest, Tokens, Kept;
    NodeOffIs(b, t, path, node);
    var o, n := CheckTagOffset(Struct(b), node, FDT_BEGIN_NODE), At(t, path);
    Bounds(b);
    Bounds(b1);
    InsertedSpelled(Struct(b), o, Struct(b1), Struct(b2), len, nameoff);
    FrameTrans(b, b1, b2);
    var p := Prop(name, v);
    var n' := n.(props := [p] + n.props);
    PropFront(n, p);
    EventsOne(Data(nameoff, v), Strings(b));
    ReplacedTree(b, t, path, n', [Enter(n.name)], [], [Set(name, v)], PropEvents(n.props) + Forest(n.kids) + [Leave],
                 b2, o, o, o + 12 + Align4(len), [Data(nameoff, v)]);
    FirstAfter(Struct(b2), o, o + 12 + Align4(len), Data(nameoff, v));
    PutAt(t, path, n');
    PropHere(Put(t, path, n'), path, 0);
    FrameKept(b, b2);
  }

  predicate Occurs(ss: seq<Byte>, s: seq<Byte>) {
    exists p :: 0 <= p < |ss| && StringAt(ss, p, s)
  }

  /** Bytes that a new property takes: its own, and those of its name unless the name occurs already. */
  function NewPropSize(ss: seq<Byte>, name: seq<Byte>, len: nat): nat {
    12 + Align4(len) + if Occurs(ss, name) then 0 else |name| + 1
  }

  lemma OccursIff(ss: seq<Byte>, s: seq<Byte>)
    ensures Occurs(ss, s) <==> exists p: nat :: StringAt(ss, p, s)
  {
    if p: nat :| StringAt(ss, p, s) {
      assert p < |ss|;
    }
  }

  /** `fdt_add_property_` */
  method AddProperty(m: array<Byte>, node: int, name: seq<Byte>, len: nat, ghost t: Node, ghost path: Path)
    returns (err: int, po: int, ghost v: seq<Byte>)
    requires Holds(m[..], t) && INT_MIN <= node <= INT_MAX && (!BadNode(m[..], node) ==> NodeOff(m[..], t, path, node))
    requires NulFree(name)
    modifies m
    ensures old(BadNode(m[..], node)) ==> err == -FDT_ERR_BADOFFSET && m[..] == old(m[..])
    ensures !old(BadNode(m[..], node)) ==>
              Kept(old(m[..]), m[..]) &&
              err == if old(DataSize(m[..]) + NewPropSize(Strings(m[..]), name, len)) > old(Total(m[..]))
                  then -FDT_ERR_NOSPACE else 0
    ensures !old(BadNode(m[..], node)) && err != 0 ==>
              NodeOff(m[..], t, path, node) && Struct(m[..]) == old(Struct(m[..]))
    ensures err == 0 ==>
              var n := At(t, path);
              var t' := Put(t, path, n.(props := [Prop(name, v)] + n.props));
              |v| == len && Before(t', path) == Before(t, path) && ValidPath(t', path) &&
              po == old(CheckTagOffset(Struct(m[..]), node, FDT_BEGIN_NODE)) &&
              PropOff(m[..], t', path, 0, po) && SameUpTo(old(m[..]), m[..], po) &&
              DataSize(m[..]) == old(DataSize(m[..]) + NewPropSize(Strings(m[..]), name, len))
  {
    hide PropOff, Ordered, Frame, Patch, Put, Before, Hdr, SameUpTo, Kept, Struct, Strings, First, Spells, Str,
         Mark, AtMark, NextTag, NodeMark, PropMark, Tokens, Flatten, Lex, Events, Align4, Ld32, At, Be32, NodeOff,
         StringAt, Occurs, PropHeader, Grown, Spliced, NodeEvents;
    ghost var b := m[..];
    ArgOf(b, t, path, node);
    v := [];
    po := CheckOffset(m[..], node, FDT_BEGIN_NODE);
    if po < 0 {
      err := po;
      return;
    }
    OccursIff(Strings(b), name);
    var nameoff, more := FindAddString(m, name);
    ghost var b0 := m[..];
    GrownNode(b, b0, if nameoff < 0 then [] else more, t, path, node);
    if nameoff < 0 {
      err := nameoff;
      return;
    }
    Bounds(b0);
    err := SpliceStruct(m, po, 0, 12 + Align4(len));
    if err != 0 { return; }
    ghost var b1 := m[..];
    SplicedIs(b0, b1, po, 0, 12 + Align4(len));
    Bounds(b1);
    PutStruct(m, po, PropHeader(len, nameoff));
    v := Cut(Struct(m[..]), po + 12, po + 12 + len);
    InsertedTree(b0, t, path, node, b1, m[..], len, nameoff, name, v);
    KeptTrans(b, b0, m[..]);
    SameUpToTrans(b, b0, m[..], po);
  }

  lemma GrownNode(b: seq<Byte>, b': seq<Byte>, more: seq<Byte>, t: Node, path: Path, node: int)
    requires NodeOff(b, t, path, node) && Grown(b, b', more)
    ensures NodeOff(b', t, path, node) && Kept(b, b') && SameUpTo(b, b', |Struct(b)|) && Struct(b') == Struct(b)
    ensures Ordered(b') && DataSize(b') == DataSize(b) + |more| && Total(b') == Total(b)
  {
    hide Lex, Events, Ordered, Ld32, Flatten, NextTag, NodeMark, Before;
    GrownHolds(b, b', more, t);
    NodeOffIs(b, t, path, node);
    NodeKept(b, t, path, node, b', t, |Struct(b)|);
    GrownKept(b, b', more);
    Bounds(b);
    Bounds(b');
  }

  lemma SameUpToTrans(a: seq<Byte>, b: seq<Byte>, c: seq<Byte>, k: nat)
    requires Struct(b) == Struct(a) && Readable(a) && SameUpTo(b, c, k)
    ensures SameUpTo(a, c, k)
  {
    hide Ordered, Struct;
  }

  // --------------------------------------------------------------- fdt_setprop

  /** What setting a property to a value of length `len` adds to the data size. */
  function SetGrowth(b: seq<Byte>, n: Node, name: seq<Byte>, len: nat): int {
    var i := MatchProp(n.props, name);
    if i < |n.props| then Align4(len) - Align4(|n.props[i].value|) else NewPropSize(Strings(b), name, len)
  }

  /** The blob holds `t'` now, the node is where it was, and so is everything up to its contents. */
  predicate Edited(b: seq<Byte>, b': seq<Byte>, t': Node, path: Path, node: int) {
    NodeOff(b', t', path, node) && Kept(b, b') && SameUpTo(b, b', Inside(b, node)) &&
    Inside(b', node) == Inside(b, node)
  }

  /** Where the contents of a node begin: just after its opening tag. */
  function Inside(b: seq<Byte>, node: int): nat {
    var c := CheckTagOffset(Struct(b), node, FDT_BEGIN_NODE);
    if c < 0 then 0 else c
  }

  lemma EditedIs(b: seq<Byte>, t: Node, path: Path, node: int, b': seq<Byte>, t': Node, c: nat)
    requires NodeOff(b, t, path, node) && Holds(b', t') && ValidPath(t', path) && Before(t', path) == Before(t, path)
    requires Kept(b, b') && SameUpTo(b, b', c) && Inside(b, node) <= c
    ensures Edited(b, b', t', path, node)
  {
    hide Lex, Events, Ordered, Flatten, NextTag, NodeMark, Before, Hdr, Strings, Struct, NodeEvents;
    NodeOffIs(b, t, path, node);
    NodeKept(b, t, path, node, b', t', c);
    SameUpToLess(b, b', c, Inside(b, node));
  }

  lemma SameUpToLess(b: seq<Byte>, b': seq<Byte>, c: nat, d: nat)
    requires SameUpTo(b, b', c) && d <= c
    ensures SameUpTo(b, b', d)
  {
    hide Ordered, Struct;
    var s, s' := Struct(b), Struct(b');
    PrefixFront(s, c, d);
    PrefixFront(s', c, d);
  }

  lemma SameUpToSelf(b: seq<Byte>, c: nat)
    requires Readable(b) && c <= |Struct(b)|
    ensures SameUpTo(b, b, c)
  {
  }

  lemma PropOffNode(b: seq<Byte>, t: Node, path: Path, i: nat, po: int)
    requires PropOff(b, t, path, i, po)
    ensures Holds(b, t) && ValidPath(t, path) && i < |At(t, path).props|
  {
  }

  /** `fdt_setprop_placeholder`: room for a value whose bytes are still unspecified. */
  method SetPropPlaceholder(m: array<Byte>, node: int, name: seq<Byte>, len: nat, ghost t: Node, ghost path: Path)
    returns (err: int, po: int, ghost i: nat, ghost v: seq<Byte>)
    requires Accepts(m[..], t, path, node) && NulFree(name)
    modifies m
    ensures Refusal(old(m[..]), m[..], node, err)
    ensures old(Live(m[..], node)) ==>
              err == if old(DataSize(m[..]) + SetGrowth(m[..], At(t, path), name, len)) > old(Total(m[..]))
                  then -FDT_ERR_NOSPACE else 0
    ensures old(Live(m[..], node)) ==>
              Edited(old(m[..]), m[..], if err == 0 then Put(t, path, SetProp(At(t, path), name, v)) else t, path, node)
    ensures old(Live(m[..], node)) && err == 0 ==>
              |v| == len && i == MatchProp(SetProp(At(t, path), name, v).props, name) &&
              PropOff(m[..], Put(t, path, SetProp(At(t, path), name, v)), path, i, po) && Inside(old(m[..]), node) <= po
    ensures old(Live(m[..], node)) && err == 0 ==>
              DataSize(m[..]) == old(DataSize(m[..]) + SetGrowth(m[..], At(t, path), name, len))
    ensures !old(Live(m[..], node)) ==> err != 0
  {
    hide PropOff, Ordered, Frame, Put, Before, Hdr, SameUpTo, Kept, Struct, Strings, Mark, AtMark, NextTag,
         NodeMark, Tokens, Flatten, Lex, Events, Align4, MatchProp, Ld32, At, Min, SetProp, NewPropSize, NodeOff,
         NodeEvents, CheckTagOffset, ValidPath, Total, DataSize, Edited, Complete, Spelled;
    ghost var b, n := m[..], At(t, path);
    err, po, i, v := RwProbe(m[..]), 0, 0, [];
    if err != 0 { return; }
    ArgOf(b, t, path, node);
    err, po, i, v := ResizeProperty(m, node, name, len, t, path);
    if err == 0 {
      SetPropFound(n, name, v);
      PropOffNode(m[..], Put(t, path, SetProp(n, name, v)), path, i, po);
      EditedIs(b, t, path, node, m[..], Put(t, path, SetProp(n, name, v)), po);
    } else if !BadNode(b, node) {
      KeptSelf(b);
      SameUpToSelf(b, Inside(b, node));
      EditedIs(b, t, path, node, b, t, Inside(b, node));
    }
    if err == -FDT_ERR_NOTFOUND {
      err, po, v := AddProperty(m, node, name, len, t, path);
      if err == 0 {
        i := 0;
        SetPropMissing(n, name, v);
        PropOffNode(m[..], Put(t, path, SetProp(n, name, v)), path, i, po);
        EditedIs(b, t, path, node, m[..], Put(t, path, SetProp(n, name, v)), po);
      } else {
        SameStruct(b, m[..], Inside(b, node));
        NodeOffIs(m[..], t, path, node);
        EditedIs(b, t, path, node, m[..], t, Inside(b, node));
      }
    }
  }

  lemma SetPropFound(n: Node, name: seq<Byte>, v: seq<Byte>)
    requires MatchProp(n.props, name) < |n.props|
    ensures MatchProp(SetProp(n, name, v).props, name) == MatchProp(n.props, name)
  {
    hide MatchProp;
    MatchPropIs(SetProp(n, name, v).props, name, MatchProp(n.props, name));
  }

  lemma SetPropMissing(n: Node, name: seq<Byte>, v: seq<Byte>)
    requires MatchProp(n.props, name) == |n.props|
    ensures SetProp(n, name, v) == n.(props := [Prop(name, v)] + n.props) &&
            MatchProp(SetProp(n, name, v).props, name) == 0
  {
  }

  lemma KeptSelf(b: seq<Byte>)
    requires Complete(b)
    ensures Kept(b, b)
  {
  }

  lemma SameStruct(b: seq<Byte>, b': seq<Byte>, c: nat)
    requires Kept(b, b') && Struct(b') == Struct(b) && c <= |Struct(b)|
    ensures SameUpTo(b, b', c)
  {
    hide Ordered;
  }

  lemma EditedSelf(b: seq<Byte>, t: Node, path: Path, node: int)
    requires NodeOff(b, t, path, node)
    ensures Edited(b, b, t, path, node)
  {
    hide Ordered, Before, Flatten, Lex, Events, NextTag, Struct, NodeMark, Hdr, Spelled, NodeEvents, NodeOff;
    NodeOffIs(b, t, path, node);
    KeptSelf(b);
    SameUpToSelf(b, Inside(b, node));
  }

  lemma EditedNode(b: seq<Byte>, b': seq<Byte>, t': Node, path: Path, node: int)
    requires Edited(b, b', t', path, node)
    ensures NodeOff(b', t', path, node)
  {
  }

  /** `fdt_setprop` */
  method SetPropBytes(m: array<Byte>, node: int, name: seq<Byte>, val: seq<Byte>, ghost t: Node, ghost path: Path)
                      returns (err: int)
    requires Accepts(m[..], t, path, node) && NulFree(name)
    modifies m
    ensures Refusal(old(m[..]), m[..], node, err)
    ensures old(Live(m[..], node)) ==>
              err == if old(DataSize(m[..]) + SetGrowth(m[..], At(t, path), name, |val|)) > old(Total(m[..]))
                  then -FDT_ERR_NOSPACE else 0
    ensures old(Live(m[..], node)) ==>
              Edited(old(m[..]), m[..], if err == 0 then
                Put(t, path, SetProp(At(t, path), name, val)) else t, path, node)
    ensures old(Live(m[..], node)) && err == 0 ==>
              DataSize(m[..]) == old(DataSize(m[..]) + SetGrowth(m[..], At(t, path), name, |val|))
    ensures !old(Live(m[..], node)) ==> err != 0
  {
    hide PropOff, Ordered, Frame, Put, Before, Hdr, SameUpTo, Kept, Struct, Strings, Mark, AtMark, NextTag,
         NodeMark, Tokens, Flatten, Lex, Events, Align4, MatchProp, Ld32, At, Min, SetProp, NewPropSize, NodeOff,
         NodeEvents, CheckTagOffset, ValidPath, Total, DataSize, Edited, Complete, Spelled, SetGrowth, Patch,
         Inside;
    ghost var b, n := m[..], At(t, path);
    var po;
    ghost var i, v;
    err, po, i, v := SetPropPlaceholder(m, node, name, |val|, t, path);
    if err != 0 { return; }
    LiveNode(b, t, path, node);
    ghost var t1, b1 := Put(t, path, SetProp(n, name, v)), m[..];
    PlacedValue(b1, t, path, i, po, name, v, val);
    if |val| > 0 {
      WriteValue(m, po, 0, val, t1, path, i);
      ValueEdited(b, t, path, node, b1, i, po, name, v, val, m[..]);
    } else {
      assert v == val;
    }
  }

  /** Where a placeholder was put, and what overwriting all of it gives. */
  lemma PlacedValue(b: seq<Byte>, t: Node, path: Path, i: nat, po: int, name: seq<Byte>, v: seq<Byte>, val: seq<Byte>)
    requires var n' := SetProp(At(t, path), name, v);
             i == MatchProp(n'.props, name) && PropOff(b, Put(t, path, n'), path, i, po) && |v| == |val| &&
             ValidPath(t, path)
    ensures 0 <= po
    ensures var n' := SetProp(At(t, path), name, v);
            var t' := Put(t, path, n');
            At(t', path) == n' && i < |n'.props| && n'.props[i] == Prop(name, v) && Patch(v, 0, val) == val &&
            Put(t', path, n'.(props := n'.props[i := Prop(name, val)])) == Put(t, path, SetProp(At(t, path), name, val))
  {
    hide PropOff, Put, At, Ordered, Before, Struct, Strings, SetProp, MatchProp, ValidPath, Spells, AtMark, First,
         Hdr;
    var n := At(t, path);
    var n' := SetProp(n, name, v);
    PropOffIs(b, Put(t, path, n'), path, i, po);
    PutAt(t, path, n');
    SetAgain(n, name, v, val);
    PutTwice(t, path, n', SetProp(n, name, val));
    assert Patch(v, 0, val) == val;
  }

  /** Overwriting the value just set is setting the other value. */
  lemma SetAgain(n: Node, name: seq<Byte>, v: seq<Byte>, val: seq<Byte>)
    ensures var n' := SetProp(n, name, v);
            var i := MatchProp(n'.props, name);
            i < |n'.props| && n'.props[i] == Prop(name, v) &&
            n'.(props := n'.props[i := Prop(name, val)]) == SetProp(n, name, val)
  {
    hide MatchProp;
    if MatchProp(n.props, name) < |n.props| {
      SetPropFound(n, name, v);
    } else {
      SetPropMissing(n, name, v);
      SetPropMissing(n, name, val);
      assert ([Prop(name, v)] + n.props)[0 := Prop(name, val)] == [Prop(name, val)] + n.props;
    }
  }

  lemma LiveNode(b: seq<Byte>, t: Node, path: Path, node: int)
    requires Accepts(b, t, path, node) && Live(b, node)
    ensures NodeOff(b, t, path, node) && Holds(b, t) && ValidPath(t, path)
  {
  }

  lemma ValueEdited(b: seq<Byte>, t: Node, path: Path, node: int, b1: seq<Byte>, i: nat, po: nat, name: seq<Byte>,
                    v: seq<Byte>, val: seq<Byte>, b2: seq<Byte>)
    requires var t1 := Put(t, path, SetProp(At(t, path), name, v));
             var t2 := Put(t, path, SetProp(At(t, path), name, val));
             Edited(b, b1, t1, path, node) && Inside(b, node) <= po && PropOff(b2, t2, path, i, po) &&
             ValidPath(t, path) &&
             SameUpTo(b1, b2, po) && Kept(b1, b2)
    ensures Edited(b, b2, Put(t, path, SetProp(At(t, path), name, val)), path, node)
  {
    hide Put, At, Lex, Events, Ordered, Before, Struct, Strings, Hdr, NodeMark, PropMark;
    var n := At(t, path);
    PutAt(t, path, SetProp(n, name, v));
    PutAt(t, path, SetProp(n, name, val));
    EditedIs(b1, Put(t, path, SetProp(n, name, v)), path, node, b2, Put(t, path, SetProp(n, name, val)), po);
    EditedTrans(b, b1, b2, Put(t, path, SetProp(n, name, v)), Put(t, path, SetProp(n, name, val)), path, node);
  }

  lemma EditedTrans(a: seq<Byte>, b: seq<Byte>, c: seq<Byte>, t: Node, t': Node, path: Path, node: int)
    requires Edited(a, b, t, path, node) && Edited(b, c, t', path, node)
    ensures Edited(a, c, t', path, node)
  {
    hide NodeOff, Ordered, Struct, Hdr;
    KeptTrans(a, b, c);
  }

  // ------------------------------------------------- fdt_appendprop, fdt_delprop

  /** What appending `len` bytes adds to the data size. */
  function AppendGrowth(b: seq<Byte>, n: Node, name: seq<Byte>, len: nat): int {
    SetGrowth(b, n, name, len + match Lookup(n, name) case Some(v) => |v| case None => 0)
  }

  /** `fdt_appendprop` */
  method AppendPropBytes(m: array<Byte>, node: int, name: seq<Byte>, val: seq<Byte>, ghost t: Node, ghost path: Path)
                         returns (err: int)
    requires Accepts(m[..], t, path, node) && NulFree(name)
    modifies m
    ensures Refusal(old(m[..]), m[..], node, err)
    ensures old(Live(m[..], node)) ==>
              err == if old(DataSize(m[..]) + AppendGrowth(m[..], At(t, path), name, |val|)) > old(Total(m[..]))
                  then -FDT_ERR_NOSPACE else 0
    ensures old(Live(m[..], node)) ==>
              Edited(old(m[..]), m[..], if err == 0 then
                Put(t, path, AppendProp(At(t, path), name, val)) else t, path, node)
    ensures old(Live(m[..], node)) && err == 0 ==>
              DataSize(m[..]) == old(DataSize(m[..]) + AppendGrowth(m[..], At(t, path), name, |val|))
    ensures !old(Live(m[..], node)) ==> err != 0
  {
    hide PropOff, Ordered, Frame, Put, Before, Hdr, SameUpTo, Kept, Struct, Strings, Mark, AtMark, Patch, PropMark,
         NextTag, NodeMark, Tokens, Flatten, Lex, Events, Align4, MatchProp, Ld32, At, Min, SetProp, NewPropSize,
         FindProp, NodeOff, NodeEvents, CheckTagOffset, ValidPath, Total, DataSize, Edited, Complete, Spelled,
         NodeArg, PropsClosed, First, Spells;
    ghost var b, n := m[..], At(t, path);
    err := RwProbe(m[..]);
    if err != 0 { return; }
    ArgOf(b, t, path, node);
    var po := GetProperty(m[..], node, name, Tokens(t), |Before(t, path)|);
    ghost var i, v := MatchProp(n.props, name), [];
    if !BadNode(b, node) {
      FindPropInTree(t, path, name);
      KeptSelf(b);
      SameUpToSelf(b, Inside(b, node));
      EditedIs(b, t, path, node, b, t, Inside(b, node));
    }
    if po >= 0 {
      FoundProp(b, t, path, i, po);
      PropOffIs(b, t, path, i, po);
      DataSpelled(Struct(b), po, ItemOf(b, po));
      var oldlen := Ld32(Struct(m[..]), po + 4);
      err, po, i, v := ResizeProperty(m, node, name, oldlen + |val|, t, path);
      if err != 0 { return; }
      ghost var old', b1 := n.props[i].value, m[..];
      SetPropFound(n, name, v);
      PropOffNode(b1, Put(t, path, SetProp(n, name, v)), path, i, po);
      EditedIs(b, t, path, node, b1, Put(t, path, SetProp(n, name, v)), po);
      PlacedValue(b1, t, path, i, po, name, v, old' + val);
      WriteValue(m, po, oldlen, val, Put(t, path, SetProp(n, name, v)), path, i);
      Appended(v, old', val);
      ValueEdited(b, t, path, node, b1, i, po, name, v, old' + val, m[..]);
    } else {
      err, po, v := AddProperty(m, node, name, |val|, t, path);
      if err != 0 {
        if !BadNode(b, node) {
          SameStruct(b, m[..], Inside(b, node));
          NodeOffIs(m[..], t, path, node);
          EditedIs(b, t, path, node, m[..], t, Inside(b, node));
        }
        return;
      }
      ghost var b1 := m[..];
      SetPropMissing(n, name, v);
      PropOffNode(b1, Put(t, path, SetProp(n, name, v)), path, 0, po);
      EditedIs(b, t, path, node, b1, Put(t, path, SetProp(n, name, v)), po);
      PlacedValue(b1, t, path, 0, po, name, v, val);
      WriteValue(m, po, 0, val, Put(t, path, SetProp(n, name, v)), path, 0);
      ValueEdited(b, t, path, node, b1, 0, po, name, v, val, m[..]);
    }
  }

  lemma Appended(v: seq<Byte>, a: seq<Byte>, x: seq<Byte>)
    requires |v| == |a| + |x| && v[..Min(|a|, |v|)] == a[..Min(|a|, |v|)]
    ensures Patch(v, |a|, x) == a + x
  {
    assert a[..|a|] == a;
  }

  /** `fdt_delprop` */
  method DelPropBytes(m: array<Byte>, node: int, name: seq<Byte>, ghost t: Node, ghost path: Path) returns (err: int)
    requires Accepts(m[..], t, path, node)
    modifies m
    ensures Refusal(old(m[..]), m[..], node, err)
    ensures old(Live(m[..], node)) ==>
              var n := At(t, path);
              var i := MatchProp(n.props, name);
              if i == |n.props| then err == -FDT_ERR_NOTFOUND && m[..] == old(m[..])
              else err == 0 && Edited(old(m[..]), m[..], Put(t, path, DropProp(n, i)), path, node)
    ensures !old(Live(m[..], node)) ==> err != 0
  {
    hide PropOff, Ordered, Frame, Put, Before, Hdr, SameUpTo, Kept, Struct, Strings, Mark, AtMark, Patch, PropMark,
         NextTag, NodeMark, Tokens, Flatten, Lex, Events, Align4, MatchProp, Ld32, At, Min, FindProp, DropProp,
         Spliced, NodeOff, NodeEvents, CheckTagOffset, ValidPath, Total, DataSize, Edited, Complete, Spelled,
         NodeArg, PropsClosed, First, Spells;
    ghost var b, n := m[..], At(t, path);
    err := RwProbe(m[..]);
    if err != 0 { return; }
    ArgOf(b, t, path, node);
    var po := GetProperty(m[..], node, name, Tokens(t), |Before(t, path)|);
    ghost var i := MatchProp(n.props, name);
    if !BadNode(b, node) {
      FindPropInTree(t, path, name);
    }
    if po < 0 {
      err := po;
      return;
    }
    FoundProp(b, t, path, i, po);
    PropOffIs(b, t, path, i, po);
    ghost var it := ItemOf(b, po);
    DataSpelled(Struct(b), po, it);
    Bounds(b);
    var len := Ld32(Struct(m[..]), po + 4);
    err := SpliceStruct(m, po, 12 + Align4(len), 0);
    assert err == 0 by { Shrinks(b, 12 + Align4(len)); }
    NothingSpelled(b, m[..], po, it.Size());
    DroppedTree(b, t, path, node, i, po, it, m[..], po, []);
  }

  lemma Shrinks(b: seq<Byte>, k: nat)
    requires Ordered(b)
    ensures DataSize(b) - k <= Total(b)
  {
  }

  /** The bytes of a property replaced by bytes that stand for no event. */
  lemma DroppedTree(b: seq<Byte>, t: Node, path: Path, node: int, i: nat, po: nat, it: Item, b': seq<Byte>, p2: nat,
                    items: seq<Item>)
    requires PropOff(b, t, path, i, po) && po < |Struct(b)| && First(Struct(b)[po..]) == Some(it) && it.Data?
    requires NodeOff(b, t, path, node) && Inside(b, node) <= po
    requires Replaced(b, b', po, po + it.Size(), p2) && Lex(Struct(b')[po..p2]) == Some(items) &&
             Events(items, Strings(b)) == []
    ensures i < |At(t, path).props| && Edited(b, b', Put(t, path, DropProp(At(t, path), i)), path, node)
  {
    hide Lex, Events, Ordered, Hdr, Flatten, Before, Put, First, NextTag, Str, AtMark, Align4, Spells, Kept,
         NodeOff, NodeMark, Edited, Forest, Struct, DropProp, Inside, Tokens, Replaced;
    PropOffIs(b, t, path, i, po);
    var n := At(t, path);
    PropSplit(n, i, n.props[i]);
    var h, r := [Enter(n.name)] + PropEvents(n.props[..i]), PropEvents(n.props[i + 1..]) + Forest(n.kids) + [Leave];
    ReplacedTree(b, t, path, DropProp(n, i), h, [Set(n.props[i].name, n.props[i].value)], [], r, b', po,
        po + it.Size(), p2, items);
    PutAt(t, path, DropProp(n, i));
    ReplacedKeeps(b, b', po, po + it.Size(), p2);
    EditedIs(b, t, path, node, b', Put(t, path, DropProp(n, i)), po);
  }

  /** A stretch that was cut out leaves no items. */
  lemma NothingSpelled(b: seq<Byte>, b': seq<Byte>, o: nat, len: nat)
    requires Spliced(b, b', o, len, 0)
    ensures Replaced(b, b', o, o + len, o) && Lex(Struct(b')[o..o]) == Some([]) && Events([], Strings(b)) == []
  {
    hide Hdr, Ordered;
    Bounds(b);
    Bounds(b');
    EmptySpelled(Struct(b')[o..o], Strings(b));
  }
}
