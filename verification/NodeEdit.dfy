/** The node-level editing functions of fdt_rw.c: renaming, adding and deleting nodes. */
module NodeEdit {
  import opened Bytes
  import opened DeviceTree
  import opened Lexer
  import opened Blob
  import opened Walk
  import opened Traverse
  import opened Splice
  import opened Edit
  import opened Rewrite
  import opened ReadWrite

  // -------------------------------------------------------------- fdt_set_name

  /** A tag, a name, a NUL and any padding spell an opening tag. */
  lemma BeginLex(st: seq<Byte>, o: nat, name: seq<Byte>)
    requires NulFree(name) && o + 4 + Align4(|name| + 1) <= |st|
    requires Ld32(st, o) == FDT_BEGIN_NODE && st[o + 4..o + 4 + |name| + 1] == name + [0]
    ensures Lex(st[o..o + 4 + Align4(|name| + 1)]) == Some([Begin(name)])
  {
    hide Ld32, Align4, Lex;
    var n := 4 + Align4(|name| + 1);
    var x := st[o..o + n];
    SliceOfSlice(st, o, o + n, 0, 4);
    SliceOfSlice(st, o, o + n, 4, 4 + |name| + 1);
    LoadSame(x, 0, st, o);
    var w := name + [0];
    SliceOfSlice(x, 4, 4 + |name| + 1, 0, |name|);
    assert w[..|name|] == name;
    var y := x[4..4 + |name| + 1];
    assert y == w && y[|name|] == 0 && x[4 + |name|] == y[|name|];
    LexOne(x, Begin(name));
  }

  lemma RenamedSpelled(st: seq<Byte>, o: nat, old': seq<Byte>, name: seq<Byte>, st1: seq<Byte>)
    requires o <= |st| && Spells(st[o..], Begin(old')) && NulFree(name)
    requires var a, a' := Align4(|old'| + 1), Align4(|name| + 1);
             o + 4 + a <= |st| && |st1| == |st| - a + a' &&
             (var k := o + 4 + Min(a, a'); st1[..k] == st[..k]) && st1[o + 4 + a'..] == st[o + 4 + a..]
    ensures var st2, n := Patch(st1, o + 4, name + [0]), 4 + Align4(|name| + 1);
            st2[..o] == st[..o] && st2[o + n..] == st[o + 4 + Align4(|old'| + 1)..] &&
            Lex(st2[o..o + n]) == Some([Begin(name)])
  {
    hide Ld32, Align4, Lex, Patch;
    var x := name + [0];
    var st2, k := Patch(st1, o + 4, x), o + 4 + Min(Align4(|old'| + 1), Align4(|name| + 1));
    KeepSlice(st, st1, k, o + 4, x, 0, o);
    KeepSlice(st, st1, k, o + 4, x, o, o + 4);
    SuffixSlice(st, o, 0, 4);
    LoadSame(st, o, st[o..], 0);
    LoadSame(st2, o, st, o);
    PatchOutside(st1, o + 4, x, o + 4 + Align4(|name| + 1), |st1|);
    BeginLex(st2, o, name);
  }

  /** `fdt_set_name` */
  method SetNameBytes(m: array<Byte>, node: int, name: seq<Byte>, ghost t: Node, ghost path: Path) returns (err: int)
    requires Accepts(m[..], t, path, node) && NulFree(name)
    modifies m
    ensures Refusal(old(m[..]), m[..], node, err)
    ensures old(Live(m[..], node)) ==>
              var was, now := Align4(|At(t, path).name| + 1), Align4(|name| + 1);
              err == if old(DataSize(m[..])) - was + now > old(Total(m[..])) then -FDT_ERR_NOSPACE else 0
    ensures old(Live(m[..], node)) && err != 0 ==> m[..] == old(m[..])
    ensures old(Live(m[..], node)) && err == 0 ==>
              NodeOff(m[..], Put(t, path, At(t, path).(name := name)), path, node) &&
              Kept(old(m[..]), m[..]) && SameUpTo(old(m[..]), m[..], node)
    ensures !old(Live(m[..], node)) ==> err != 0
  {
    hide Ordered, Frame, Put, Before, Hdr, SameUpTo, Kept, Struct, Strings, Mark, AtMark, Patch, NextTag, Tokens,
         Flatten, Lex, Events, Align4, Ld32, At, Min, Spliced, NodeMark, NodeOff, NodeEvents, ValidPath, Total,
         DataSize, Complete, Spelled, PropsClosed, First, Spells;
    ghost var b, n := m[..], At(t, path);
    err := RwProbe(m[..]);
    if err != 0 { return; }
    ArgOf(b, t, path, node);
    var r := CheckOffset(m[..], node, FDT_BEGIN_NODE);
    if r < 0 {
      err := r;
      return;
    }
    NodeBegins(b, t, path, node);
    var oldname := GetName(m[..], node, Tokens(t), |Before(t, path)|);
    Bounds(b);
    err := SpliceStruct(m, node + 4, Align4(|oldname| + 1), Align4(|name| + 1));
    if err != 0 { return; }
    ghost var b1 := m[..];
    SplicedIs(b, b1, node + 4, Align4(|oldname| + 1), Align4(|name| + 1));
    Bounds(b1);
    PutStruct(m, node + 4, name + [0]);
    RenamedTree(b, t, path, node, name, b1, m[..]);
  }

  /** The opening tag of a node in a blob that holds a tree. */
  lemma NodeBegins(b: seq<Byte>, t: Node, path: Path, node: int)
    requires NodeOff(b, t, path, node)
    ensures var es, e, n := Tokens(t), |Before(t, path)|, At(t, path);
            NodeMark(b, es, node, e) && e < |es| && es[e] == Enter(n.name) && NulFree(n.name) && 0 <= node &&
            Terminated(es) &&
            node + 4 + Align4(|n.name| + 1) <= |Struct(b)| && Spells(Struct(b)[node..], Begin(n.name)) &&
            AtMark(b, es, node, e) && AtMark(b, es, node + 4 + Align4(|n.name| + 1), e + 1) &&
            Inside(b, node) == node + 4 + Align4(|n.name| + 1)
  {
    hide Ordered, Before, Flatten, Lex, Events, First, NextTag, Mark, Here, Align4, Struct, Strings;
    NodeOffIs(b, t, path, node);
    var es, e, n := Tokens(t), |Before(t, path)|, At(t, path);
    NodeHere(t, path);
    NodeParts(es, e, n);
    AtStep(b, es, node, e);
    NodeStep(b, es, node, e);
    NameSpelled(Struct(b), node, n.name);
  }

  lemma RenamedTree(b: seq<Byte>, t: Node, path: Path, node: nat, name: seq<Byte>, b1: seq<Byte>, b2: seq<Byte>)
    requires NodeOff(b, t, path, node) && NulFree(name)
    requires Spliced(b, b1, node + 4, Align4(|At(t, path).name| + 1), Align4(|name| + 1)) && Frame(b1, b2)
    requires node + 4 + |name| + 1 <= |Struct(b1)| && Struct(b2) == Patch(Struct(b1), node + 4, name + [0])
    ensures NodeOff(b2, Put(t, path, At(t, path).(name := name)), path, node) && Kept(b, b2) && SameUpTo(b, b2, node)
  {
    hide Lex, Events, Ordered, Hdr, Before, Put, AtMark, Align4, Spells, Patch, Tokens, Kept, SameUpTo, NodeMark,
         Inside, NodeOff, At, Struct, Strings;
    NodeBegins(b, t, path, node);
    Bounds(b);
    Bounds(b1);
    RenamedSpelled(Struct(b), node, At(t, path).name, name, Struct(b1));
    FrameTrans(b, b1, b2);
    BeginReplaced(b, t, path, node, name, b2, node + 4 + Align4(|At(t, path).name| + 1), node + 4 + Align4(|name| + 1));
  }

  lemma BeginReplaced(b: seq<Byte>, t: Node, path: Path, node: nat, name: seq<Byte>, b': seq<Byte>, o2: nat, p2: nat)
    requires NodeOff(b, t, path, node) && NulFree(name)
    requires o2 == node + 4 + Align4(|At(t, path).name| + 1) && p2 == node + 4 + Align4(|name| + 1)
    requires node <= p2 <= |Struct(b')| && Lex(Struct(b')[node..p2]) == Some([Begin(name)]) &&
             Replaced(b, b', node, o2, p2)
    ensures NodeOff(b', Put(t, path, At(t, path).(name := name)), path, node) && Kept(b, b') && SameUpTo(b, b', node)
  {
    hide Lex, Events, Ordered, Hdr, Flatten, Before, Put, First, NextTag, AtMark, Align4, Spells, NodeEvents,
         Forest, Tokens, Kept, SameUpTo, NodeMark, Inside, PropEvents, NodeOff, Replaced, Struct, Strings;
    NodeBegins(b, t, path, node);
    NodeOffIs(b, t, path, node);
    var n := At(t, path);
    var n' := n.(name := name);
    NameSplit(n, name);
    EventsOne(Begin(name), Strings(b));
    ReplacedTree(b, t, path, n', [], [Enter(n.name)], [Enter(name)], PropEvents(n.props) + Forest(n.kids) + [Leave],
                 b', node, o2, p2, [Begin(name)]);
    ReplacedKeeps(b, b', node, o2, p2);
    FirstAfter(Struct(b'), node, p2, Begin(name));
    PutAt(t, path, n');
    NodeMarkFrom(b', Put(t, path, n'), path, node, name);
  }

  lemma NodeMarkFrom(b: seq<Byte>, t: Node, path: Path, o: nat, name: seq<Byte>)
    requires Holds(b, t) && ValidPath(t, path) && o < |Struct(b)| && First(Struct(b)[o..]) == Some(Begin(name))
    requires AtMark(b, Tokens(t), o, |Before(t, path)|)
    ensures NodeOff(b, t, path, o)
  {
    hide Lex, Events, Ordered, Hdr, Flatten, Before, First, AtMark, Here, Struct;
    NodeHere(t, path);
    NodeParts(Tokens(t), |Before(t, path)|, At(t, path));
  }

  // ----------------------------------------------------------- fdt_add_subnode

  /** An empty node: opening tag, name with its NUL and zero padding, closing tag. */
  function NodeBytes(name: seq<Byte>): (r: seq<Byte>)
    ensures |r| == 8 + Align4(|name| + 1)
  {
    Be32(FDT_BEGIN_NODE) + name + Pad(name) + Be32(FDT_END_NODE)
  }

  /** The NUL behind a name and the padding. */
  function Pad(name: seq<Byte>): (r: seq<Byte>)
    ensures |r| == Align4(|name| + 1) - |name| && forall i :: 0 <= i < |r| ==> r[i] == 0
  {
    seq(Align4(|name| + 1) - |name|, _ => 0)
  }

  lemma NodeBytesLex(name: seq<Byte>)
    requires NulFree(name)
    ensures Lex(NodeBytes(name)) == Some([Begin(name), EndNode])
  {
    hide Ld32, Be32, Lex, Align4;
    var r, n := NodeBytes(name), 4 + Align4(|name| + 1);
    var z := seq(Align4(|name| + 1) - |name|, _ => 0);
    var a, c := Be32(FDT_BEGIN_NODE) + name + z, Be32(FDT_END_NODE);
    assert r == a + c && |a| == n;
    assert a[0..4] == Be32(FDT_BEGIN_NODE);
    LoadStored(a, 0, FDT_BEGIN_NODE);
    assert a[4..4 + |name|] == name && a[4 + |name|] == z[0];
    assert a[4..4 + |name| + 1] == name + [0];
    BeginLex(a, 0, name);
    assert a[0..n] == a;
    assert c[0..4] == c;
    LoadStored(c, 0, FDT_END_NODE);
    LexOne(c, EndNode);
    LexConcat(a, c);
    assert [Begin(name)] + [EndNode] == [Begin(name), EndNode];
  }

  function EmptyNode(name: seq<Byte>): Node {
    Node(name, [], [])
  }

  lemma EmptyNodeEvents(name: seq<Byte>, ss: seq<Byte>)
    ensures Events([Begin(name), EndNode], ss) == [Enter(name), Leave] == Flatten(EmptyNode(name))
  {
    var items := [Begin(name), EndNode];
    assert items[1..] == [EndNode] && [EndNode][1..] == [];
    EventsOne(EndNode, ss);
    assert Forest([]) == [];
    assert PropEvents([]) == [];
  }

  /** The mark after a node's properties, at its first child or its closing tag. */
  predicate AfterProps(b: seq<Byte>, t: Node, path: Path, o: int) {
    Holds(b, t) && ValidPath(t, path) && 0 <= o <= |Struct(b)| &&
    AtMark(b, Tokens(t), o, |Before(t, path)| + |Head(At(t, path))|)
  }

  /** The scan of `fdt_add_subnode_namelen` over the parent's properties. */
  method SkipPropTags(b: seq<Byte>, parent: int, ghost t: Node, ghost path: Path) returns (offset: int)
    requires NodeOff(b, t, path, parent)
    ensures AfterProps(b, t, path, offset) && Inside(b, parent) <= offset
  {
    hide Ordered, Before, Hdr, Struct, Strings, AtMark, NextTag, Tokens, Flatten, Lex, Events, NodeMark, PropMark,
         NodeOff, NodeEvents, ValidPath, Complete, Spelled, First, Here, Head;
    NodeOffIs(b, t, path, parent);
    ghost var es, e, n := Tokens(t), |Before(t, path)|, At(t, path);
    HeadEvents(t, path);
    var tag, next := NextTagIn(b, parent);
    ghost var k := 0;
    while true
      invariant 0 <= k <= |n.props| && AtMark(b, es, next, e + 1 + k) && Inside(b, parent) <= next <= |Struct(b)|
      decreases |n.props| - k, |Struct(b)| - next
    {
      AtTag(b, es, next, e + 1 + k);
      offset := next;
      tag, next := NextTagIn(b, offset);
      if tag != FDT_PROP && tag != FDT_NOP {
        return;
      }
      if tag == FDT_PROP {
        k := k + 1;
      }
    }
  }

  /** Which of a node's events are properties. */
  lemma HeadEvents(t: Node, path: Path)
    requires ValidPath(t, path)
    ensures var es, e, n := Tokens(t), |Before(t, path)|, At(t, path);
            |Head(n)| == 1 + |n.props| && e + 1 + |n.props| < |es| &&
            (forall i :: e + 1 <= i < e + 1 + |n.props| ==> es[i].Set?) &&
            (es[e + 1 + |n.props|].Enter? || es[e + 1 + |n.props|].Leave?)
  {
    hide Before, Flatten, Here;
    var es, e, n := Tokens(t), |Before(t, path)|, At(t, path);
    NodeHere(t, path);
    NodeParts(es, e, n);
    var f := e + 1 + |n.props|;
    if n.kids != [] {
      HereSplit(es, f, Flatten(n.kids[0]), Forest(n.kids[1..]));
      NodeParts(es, f, n.kids[0]);
    }
    forall i | e + 1 <= i < f ensures es[i].Set? {
      HereAt(es, e + 1, PropEvents(n.props), i - e - 1);
    }
  }

  predicate RoomFor(b: seq<Byte>, name: seq<Byte>) {
    DataSize(b) + 8 + Align4(|name| + 1) <= Total(b)
  }

  /**
   What is left when the parent offset is `-FDT_ERR_NOTFOUND`, which the code takes for a failed search
   of the name: an empty node spliced in eight bytes before the structure block.
   */
  function Misplaced(b: seq<Byte>, name: seq<Byte>): seq<Byte>
    requires Ordered(b) && RoomFor(b, name)
  {
    var p, len := OffStruct(b) - 8, 8 + Align4(|name| + 1);
    var moved := Patch(b, p + len, b[p..DataSize(b)]);
    var sized := SetHdr(SetHdr(moved, H_SIZE_STRUCT, SizeStruct(b) + len), H_OFF_STRINGS, OffStrings(b) + len);
    Patch(sized, p, NodeBytes(name))
  }

  /** The call on an offset that is no node. */
  predicate BadParent(b: seq<Byte>, b': seq<Byte>, parent: int, name: seq<Byte>, res: int) {
    Ordered(b) &&
    if parent >= 0 then res == -FDT_ERR_BADOFFSET && b' == b
    else if parent != -FDT_ERR_NOTFOUND then res == parent && b' == b
    else if !RoomFor(b, name) then res == -FDT_ERR_NOSPACE && b' == b
    else res == -FDT_ERR_TRUNCATED && b' == Misplaced(b, name)
  }

  lemma MisplacedHeader(b: seq<Byte>, name: seq<Byte>)
    requires Ordered(b) && RoomFor(b, name)
    ensures |Misplaced(b, name)| == |b| && OffStruct(Misplaced(b, name)) == OffStruct(b)
    ensures SizeStruct(Misplaced(b, name)) == SizeStruct(b) + 8 + Align4(|name| + 1)
  {
    hide Hdr, Patch, SetHdr, NodeBytes;
    var p, len := OffStruct(b) - 8, 8 + Align4(|name| + 1);
    var moved := Patch(b, p + len, b[p..DataSize(b)]);
    var sized := SetHdr(moved, H_SIZE_STRUCT, SizeStruct(b) + len);
    var both := SetHdr(sized, H_OFF_STRINGS, OffStrings(b) + len);
    HdrAfterPatch(b, p + len, b[p..DataSize(b)], H_OFF_STRUCT);
    SetHdrEffect(moved, H_SIZE_STRUCT, SizeStruct(b) + len);
    SetHdrEffect(sized, H_OFF_STRINGS, OffStrings(b) + len);
    HdrAfterPatch(both, p, NodeBytes(name), H_OFF_STRUCT);
    HdrAfterPatch(both, p, NodeBytes(name), H_SIZE_STRUCT);
  }

  /** The word at the front of the structure block is part of the new node, and never an opening tag or a NOP. */
  lemma MisplacedWord(name: seq<Byte>)
    requires NulFree(name)
    ensures var w := Ld32(NodeBytes(name), 8);
            w == FDT_END_NODE || (w != FDT_BEGIN_NODE && w != FDT_PROP && w != FDT_NOP && w != FDT_END)
  {
    hide Be32, Ld32, Align4, NodeBytes;
    if |name| < 4 {
      ShortName(name);
    } else {
      LongName(name);
    }
  }

  lemma ShortName(name: seq<Byte>)
    requires |name| < 4
    ensures Ld32(NodeBytes(name), 8) == FDT_END_NODE
  {
    hide Be32, Ld32;
    var x, z := NodeBytes(name), name + Pad(name);
    assert Align4(|name| + 1) == 4 && |z| == 4;
    var e := Be32(FDT_END_NODE);
    assert x == (Be32(FDT_BEGIN_NODE) + z) + e;
    assert x[8..12] == e;
    LoadStored(x, 8, FDT_END_NODE);
  }

  /** The word behind the first four bytes of a longer name is 0, or begins with a byte of the name. */
  lemma LongName(name: seq<Byte>)
    requires |name| >= 4 && NulFree(name)
    ensures var w := Ld32(NodeBytes(name), 8); w == 0 || w >= 0x100_0000
  {
    hide Be32, Align4;
    var x, c := NodeBytes(name), Be32(FDT_BEGIN_NODE);
    if |name| == 4 {
      FourAligned();
      var z := Pad(name);
      assert x == (c + name) + (z + Be32(FDT_END_NODE));
      assert x[8] == z[0] && x[9] == z[1] && x[10] == z[2] && x[11] == z[3];
    } else {
      assert x[8] == name[4] && name[4] in name;
    }
  }

  lemma FourAligned()
    ensures Align4(5) == 8
  {
  }


  lemma MisplacedFront(b: seq<Byte>, name: seq<Byte>)
    requires Ordered(b) && RoomFor(b, name)
    ensures |Struct(Misplaced(b, name))| >= 4 && Cut(Struct(Misplaced(b, name)), 0, 4) == Cut(NodeBytes(name), 8, 12)
  {
    hide Hdr, NodeBytes, Patch, SetHdr;
    var b', p, x := Misplaced(b, name), OffStruct(b) - 8, NodeBytes(name);
    MisplacedHeader(b, name);
    assert b'[p..p + |x|] == x;
    SliceOfSlice(b', p, p + |x|, 8, 12);
    if OffStruct(b) + SizeStruct(b') <= |b| {
      SliceOfSlice(b', OffStruct(b), OffStruct(b) + SizeStruct(b'), 0, 4);
    }
  }

  /** The blob then holds no tree at all, and it is not the blob it was. */
  lemma MisplacedHoldsNothing(b: seq<Byte>, name: seq<Byte>)
    requires Ordered(b) && RoomFor(b, name) && NulFree(name)
    ensures Misplaced(b, name) != b && forall u :: !Holds(Misplaced(b, name), u)
  {
    hide Hdr, NodeBytes, Misplaced, Ld32, Lex, Events;
    var b' := Misplaced(b, name);
    MisplacedHeader(b, name);
    MisplacedFront(b, name);
    MisplacedWord(name);
    var st := Struct(b');
    LoadSame(st, 0, NodeBytes(name), 8);
    forall u ensures !Holds(b', u) {
      NoOpeningTag(st, Strings(b'), u);
    }
  }

  lemma NoOpeningTag(st: seq<Byte>, ss: seq<Byte>, u: Node)
    requires |st| >= 4
    requires var w := Ld32(st, 0);
               w == FDT_END_NODE || (w != FDT_BEGIN_NODE && w != FDT_PROP && w != FDT_NOP && w != FDT_END)
    ensures !(Lex(st).Some? && Events(Lex(st).value, ss) == Flatten(u) + [Finish])
  {
    hide Ld32;
    if Lex(st).Some? {
      assert First(st) == Some(EndNode);
      assert Lex(st).value[0] == EndNode;
      assert Events(Lex(st).value, ss)[0] == Leave;
      assert (Flatten(u) + [Finish])[0] == Enter(u.name);
    }
  }

  lemma NegativeBad(b: seq<Byte>, node: int)
    requires node < 0
    ensures BadNode(b, node)
  {
  }

  /** The scan from an offset that is an error code stops at once, on an error code. */
  method SkipFromError(b: seq<Byte>) returns (offset: int)
    requires Readable(b)
    ensures offset == -FDT_ERR_TRUNCATED
  {
    var tag, next := NextTagIn(b, -FDT_ERR_NOTFOUND);
    offset := next;
    tag, next := NextTagIn(b, offset);
    assert tag == FDT_END;
  }

  /** The rest of `fdt_add_subnode_namelen` for the parent offset `-FDT_ERR_NOTFOUND`. */
  method AddBeforeStruct(m: array<Byte>, name: seq<Byte>) returns (res: int)
    requires Readable(m[..]) && NulFree(name)
    modifies m
    ensures BadParent(old(m[..]), m[..], -FDT_ERR_NOTFOUND, name, res)
    ensures m[..] == old(m[..]) <==> old(!RoomFor(m[..], name))
    ensures m[..] != old(m[..]) ==> forall u :: !Holds(m[..], u)
  {
    hide Hdr, Patch, SetHdr, NodeBytes, Ordered, Holds, Align4;
    ghost var b := m[..];
    Bounds(b);
    OrderedSizes(b);
    var offset := SkipFromError(m[..]);
    var base, size, offs, len := OffStruct(m[..]), SizeStruct(m[..]), OffStrings(m[..]), 8 + Align4(|name| + 1);
    res := SpliceAt(m, base + offset, 0, len);
    if res != 0 { return; }
    StoreWord(m, H_SIZE_STRUCT, size + len);
    StoreWord(m, H_OFF_STRINGS, offs + len);
    Copy(m, base + offset, NodeBytes(name));
    MisplacedHoldsNothing(b, name);
    res := offset;
  }

  lemma OrderedSizes(b: seq<Byte>)
    requires Ordered(b)
    ensures |b| >= 40 && 56 <= OffStruct(b) && OffStruct(b) + SizeStruct(b) <= OffStrings(b) &&
            DataSize(b) <= Total(b) <= |b| && Total(b) <= INT_MAX
  {
    hide Hdr;
  }

  /** `fdt_add_subnode_namelen`, `fdt_add_subnode`: the offset of the new node, or an error. */
  method AddSubnodeBytes(m: array<Byte>, parent: int, name: seq<Byte>, ghost t: Node, ghost path: Path)
                         returns (res: int)
    requires Accepts(m[..], t, path, parent) && NulFree(name)
    modifies m
    ensures old(RwProbe(m[..])) != 0 ==> res == old(RwProbe(m[..])) && m[..] == old(m[..])
    ensures old(RwProbe(m[..])) == 0 && old(BadNode(m[..], parent)) ==>
              BadParent(old(m[..]), m[..], parent, name, res) &&
              (m[..] == old(m[..]) <==> parent != -FDT_ERR_NOTFOUND || old(!RoomFor(m[..], name))) &&
              (m[..] != old(m[..]) ==> forall u :: !Holds(m[..], u))
    ensures old(Live(m[..], parent)) ==>
              if MatchKid(At(t, path).kids, name) < |At(t, path).kids| then res == -FDT_ERR_EXISTS
              else if old(!RoomFor(m[..], name)) then res == -FDT_ERR_NOSPACE
              else res >= 0
    ensures old(Live(m[..], parent)) && res < 0 ==> m[..] == old(m[..])
    ensures res >= 0 ==>
              var t' := Put(t, path, AddKid(At(t, path), EmptyNode(name)));
              Edited(old(m[..]), m[..], t', path, parent) && NodeOff(m[..], t', path + [0], res) &&
              Inside(old(m[..]), parent) <= res && DataSize(m[..]) == old(DataSize(m[..])) + 8 + Align4(|name| + 1)
    ensures !old(Live(m[..], parent)) ==> res < 0
  {
    hide Ordered, Frame, Put, Before, Hdr, SameUpTo, Kept, Struct, Strings, AtMark, Patch, NextTag, Tokens, Flatten,
         Lex, Events, Align4, Ld32, At, Spliced, NodeMark, MatchKid, FindKid, NodeBytes, AddKid, EmptyNode, NodeOff,
         NodeEvents, ValidPath, Total, DataSize, Complete, Spelled, PropsClosed, First, NodeArg, Edited, AfterProps,
         Misplaced, BadNode;
    ghost var b, n := m[..], At(t, path);
    res := RwProbe(m[..]);
    if res != 0 {
      RwProbeNegative(b);
      return;
    }
    ArgOf(b, t, path, parent);
    var offset := SubnodeOffset(m[..], parent, name, Tokens(t), |Before(t, path)|);
    if !BadNode(b, parent) {
      FindKidInTree(t, path, name);
    }
    if offset >= 0 {
      return -FDT_ERR_EXISTS;
    } else if offset != -FDT_ERR_NOTFOUND {
      return offset;
    }
    if parent < 0 {
      NegativeBad(b, parent);
      res := AddBeforeStruct(m, name);
      return;
    }
    offset := SkipPropTags(m[..], parent, t, path);
    AfterPropsIs(b, t, path, offset);
    Bounds(b);
    var err := SpliceStruct(m, offset, 0, 8 + Align4(|name| + 1));
    if err != 0 {
      return err;
    }
    ghost var b1 := m[..];
    SplicedIs(b, b1, offset, 0, 8 + Align4(|name| + 1));
    Bounds(b1);
    PutStruct(m, offset, NodeBytes(name));
    AddedTree(b, t, path, parent, offset, name, b1, m[..]);
    res := offset;
  }

  lemma RwProbeNegative(b: seq<Byte>)
    ensures RwProbe(b) <= 0
  {
  }

  lemma FindKidInTree(t: Node, path: Path, name: seq<Byte>)
    requires ValidPath(t, path)
    ensures FindKid(Tokens(t), |Before(t, path)| + 1, 0, name).Some? <==>
            MatchKid(At(t, path).kids, name) < |At(t, path).kids|
  {
    hide Flatten, Before, Here, Tokens, FindKid, MatchKid;
    NodeHere(t, path);
    FindKidInNode(Tokens(t), |Before(t, path)|, At(t, path), name);
  }

  lemma AfterPropsIs(b: seq<Byte>, t: Node, path: Path, o: int)
    requires AfterProps(b, t, path, o)
    ensures 0 <= o <= |Struct(b)|
  {
  }

  lemma AddedTree(b: seq<Byte>, t: Node, path: Path, parent: nat, o: nat, name: seq<Byte>, b1: seq<Byte>, b2: seq<Byte>)
    requires NodeOff(b, t, path, parent) && NulFree(name) && AfterProps(b, t, path, o) && Inside(b, parent) <= o
    requires Spliced(b, b1, o, 0, 8 + Align4(|name| + 1)) && Frame(b1, b2) && o + 8 + Align4(|name| + 1) <= |Struct(b1)|
    requires Struct(b2) == Patch(Struct(b1), o, NodeBytes(name))
    ensures var t' := Put(t, path, AddKid(At(t, path), EmptyNode(name)));
            Edited(b, b2, t', path, parent) && NodeOff(b2, t', path + [0], o)
  {
    hide Lex, Events, Ordered, Hdr, Flatten, Before, Put, First, NextTag, AtMark, Align4, Patch, NodeOff, AddKid,
         Forest, Tokens, Kept, SameUpTo, Inside, Edited, NodeBytes, EmptyNode, Head, Struct;
    var n, k, z := At(t, path), EmptyNode(name), NodeBytes(name);
    var n', p2 := AddKid(n, k), o + |z|;
    Bounds(b);
    Bounds(b1);
    InsertedBytes(Struct(b), Struct(b1), o, z);
    FrameTrans(b, b1, b2);
    NodeBytesLex(name);
    EmptyNodeEvents(name, Strings(b));
    KidFront(n, k);
    ReplacedTree(b, t, path, n', Head(n), [], Flatten(k), Forest(n.kids) + [Leave], b2, o, o, p2,
        [Begin(name), EndNode]);
    PutAt(t, path, n');
    ReplacedKeeps(b, b2, o, o, p2);
    var t' := Put(t, path, n');
    EditedIs(b, t, path, parent, b2, t', o);
    AddKidShape(n, k);
    FirstChild(b2, t', path, o, name, n', k, z);
  }

  lemma AddKidShape(n: Node, k: Node)
    ensures var n' := AddKid(n, k);
            n'.kids != [] && n'.kids[0] == k && Head(n') == Head(n)
  {
  }

  lemma InsertedBytes(st: seq<Byte>, st1: seq<Byte>, o: nat, z: seq<Byte>)
    requires o <= |st| && |st1| == |st| + |z| && st1[..o] == st[..o] && st1[o + |z|..] == st[o..]
    ensures var st2 := Patch(st1, o, z);
            st2[..o] == st[..o] && st2[o..o + |z|] == z && st2[o + |z|..] == st[o..]
  {
    hide Patch;
    PatchOutside(st1, o, z, o + |z|, |st1|);
  }

  lemma FirstChild(b: seq<Byte>, t: Node, path: Path, o: nat, name: seq<Byte>, n: Node, k: Node, z: seq<Byte>)
    requires Holds(b, t) && ValidPath(t, path) && At(t, path) == n && n.kids != [] && n.kids[0] == k
    requires AtMark(b, Tokens(t), o, |Before(t, path)| + |Head(n)|)
    requires o + |z| <= |Struct(b)| && Struct(b)[o..o + |z|] == z && |z| > 0 && Lex(z) == Some([Begin(name), EndNode])
    ensures NodeOff(b, t, path + [0], o)
  {
    hide Lex, Events, Ordered, Hdr, Flatten, Before, First, NextTag, AtMark, Tokens, Struct, Head;
    ChildAt(t, path, 0);
    assert n.kids[..0] == [] && Forest([]) == [];
    LexFirst(z);
    assert Struct(b)[o..] == z + Struct(b)[o + |z|..];
    FirstOfConcat(z, Struct(b)[o + |z|..]);
    NodeMarkFrom(b, t, path + [0], o, name);
  }

  lemma LexFirst(z: seq<Byte>)
    requires z != [] && Lex(z).Some?
    ensures First(z).Some? && |Lex(z).value| > 0 && First(z).value == Lex(z).value[0]
  {
    hide First;
  }

  // -------------------------------------------------------------- fdt_del_node

  function Parent(path: Path): Path
    requires path != []
  {
    path[..|path| - 1]
  }

  /** The tree without the node at `path`, which is not the root. */
  function Without(t: Node, path: Path): Node
    requires path != []
  {
    var n, i := At(t, Parent(path)), path[|path| - 1];
    if i < |n.kids| then Put(t, Parent(path), DropKid(n, i)) else t
  }

  lemma {:induction false} ParentAt(t: Node, path: Path)
    requires ValidPath(t, path) && path != []
    ensures ValidPath(t, Parent(path)) && path[|path| - 1] < |At(t, Parent(path)).kids|
  {
    var p, i := Parent(path), path[|path| - 1];
    if p != [] {
      assert Parent(path)[1..] == Parent(path[1..]) && path[1..][|path[1..]| - 1] == i;
      ParentAt(t.kids[path[0]], path[1..]);
    } else {
      assert path == [i];
    }
  }

  /** The bytes of a node replaced by bytes that stand for no event. */
  lemma VanishedTree(b: seq<Byte>, t: Node, path: Path, node: nat, end: nat, b': seq<Byte>, p2: nat, items: seq<Item>)
    requires NodeOff(b, t, path, node) && node <= end &&
             AtMark(b, Tokens(t), end, |Before(t, path)| + |Flatten(At(t, path))|)
    requires Replaced(b, b', node, end, p2) && Lex(Struct(b')[node..p2]) == Some(items) &&
             Events(items, Strings(b)) == []
    ensures Kept(b, b') && SameUpTo(b, b', node)
    ensures path == [] ==> Spelled(b', [Finish])
    ensures path != [] ==> Holds(b', Without(t, path))
  {
    hide Lex, Events, Ordered, Hdr, Flatten, Before, Put, First, NextTag, AtMark, Kept, SameUpTo, Struct, Replaced,
         At, NodeMark, NodeEvents, Inside, Spells, ValidPath;
    NodeOffIs(b, t, path, node);
    NodeBegins(b, t, path, node);
    ReplacedKeeps(b, b', node, end, p2);
    if path == [] {
      RootEvents(t);
      ReplacedEvents(b, Tokens(t), b', node, 0, end, |Flatten(t)|, p2, items);
    } else {
      ParentAt(t, path);
      var q, i := Parent(path), path[|path| - 1];
      var n := At(t, q);
      assert q + [i] == path;
      ChildAt(t, q, i);
      KidSplit(n, i);
      ReplacedTree(b, t, q, DropKid(n, i), Head(n) + Forest(n.kids[..i]), Flatten(n.kids[i]), [],
          Forest(n.kids[i + 1..]) + [Leave],
                   b', node, end, p2, items);
    }
  }

  lemma RootEvents(t: Node)
    ensures At(t, []) == t && Before(t, []) == [] && Tokens(t)[|Flatten(t)|..] == [Finish]
    ensures Tokens(t)[..0] + [] + Tokens(t)[|Flatten(t)|..] == [Finish]
  {
    hide Flatten;
  }

  lemma EndOfNode(t: Node, path: Path)
    requires ValidPath(t, path)
    ensures Close(Tokens(t), |Before(t, path)| + 1, 0) == Some(|Before(t, path)| + |Flatten(At(t, path))|)
  {
    hide Flatten, Before, Here, Tokens, Close;
    NodeHere(t, path);
    CloseNode(Tokens(t), |Before(t, path)|, At(t, path));
  }

  /** `fdt_del_node` */
  method DelNodeBytes(m: array<Byte>, node: int, ghost t: Node, ghost path: Path) returns (err: int)
    requires Accepts(m[..], t, path, node)
    modifies m
    ensures old(RwProbe(m[..])) != 0 ==> err == old(RwProbe(m[..])) && m[..] == old(m[..])
    ensures old(RwProbe(m[..])) == 0 && old(BadNode(m[..], node)) ==>
              err == (if node < 0 then node else -FDT_ERR_BADOFFSET) && m[..] == old(m[..])
    ensures old(Live(m[..], node)) ==>
              err == 0 && Kept(old(m[..]), m[..]) && SameUpTo(old(m[..]), m[..], node) &&
              (path == [] ==> Spelled(m[..], [Finish])) && (path != [] ==> Holds(m[..], Without(t, path)))
  {
    hide Ordered, Frame, Put, Before, Hdr, SameUpTo, Kept, Struct, Strings, AtMark, NextTag, Tokens, Flatten, Lex,
         Events, At, Spliced, NodeMark, Close, Without, CheckTagOffset, NodeOff, NodeEvents, ValidPath, Total,
         DataSize, Complete, Spelled, PropsClosed, First, NodeArg;
    ghost var b := m[..];
    err := RwProbe(m[..]);
    if err != 0 { return; }
    ArgOf(b, t, path, node);
    var end := NodeEnd(m[..], node, Tokens(t), |Before(t, path)|);
    if !BadNode(b, node) {
      EndOfNode(t, path);
      MarkBound(b, Tokens(t), end, |Before(t, path)| + |Flatten(At(t, path))|);
      Bounds(b);
    }
    if end < 0 {
      return end;
    }
    err := SpliceStruct(m, node, end - node, 0);
    assert err == 0 by { Shrinks(b, end - node); }
    NothingSpelled(b, m[..], node, end - node);
    VanishedTree(b, t, path, node, end, m[..], node, []);
  }

  // ------------------------------------------------- fdt_nop_property, fdt_nop_node

  /** `n` NOP tags. */
  function NopBytes(n: nat): (r: seq<Byte>)
    ensures |r| == 4 * n
  {
    if n == 0 then [] else NopBytes(n - 1) + Be32(FDT_NOP)
  }

  lemma {:induction false} NopLex(n: nat, ss: seq<Byte>)
    ensures Lex(NopBytes(n)).Some? && Events(Lex(NopBytes(n)).value, ss) == []
  {
    hide Lex, Events, Be32, Ld32;
    if n == 0 {
      EmptySpelled([], ss);
    } else {
      NopLex(n - 1, ss);
      var w := Be32(FDT_NOP);
      assert w[0..4] == w;
      LoadStored(w, 0, FDT_NOP);
      LexOne(w, Nop);
      LexConcat(NopBytes(n - 1), w);
      EventsConcat(Lex(NopBytes(n - 1)).value, [Nop], ss);
      EventsOne(Nop, ss);
    }
  }

  /** `fdt_nop_region_`: NOPs over the region, up to the next multiple of four. */
  method NopRegion(m: array<Byte>, start: nat, len: nat)
    requires start + Align4(len) <= m.Length
    modifies m
    ensures m[..] == Patch(old(m[..]), start, NopBytes(Align4(len) / 4))
  {
    ghost var b := m[..];
    var p := start;
    ghost var k := 0;
    EmptyPatch(b, start, []);
    while p < start + len
      invariant p == start + 4 * k && p <= start + Align4(len) && k <= Align4(len) / 4
      invariant m[..] == Patch(b, start, NopBytes(k))
      decreases start + len - p
    {
      Copy(m, p, Be32(FDT_NOP));
      PatchAgain(b, start, NopBytes(k), Be32(FDT_NOP));
      p := p + 4;
      k := k + 1;
    }
    assert k == Align4(len) / 4;
  }

  lemma PatchAgain(b: seq<Byte>, at: nat, x: seq<Byte>, y: seq<Byte>)
    requires at + |x| + |y| <= |b|
    ensures Patch(Patch(b, at, x), at + |x|, y) == Patch(b, at, x + y)
  {
  }

  /** A stretch of the structure block overwritten with NOPs. */
  lemma NoppedBlock(b: seq<Byte>, o: nat, len: nat, b': seq<Byte>) returns (items: seq<Item>)
    requires Ordered(b) && len % 4 == 0 && o + len <= |Struct(b)| && b' == Patch(b, OffStruct(b) + o, NopBytes(len / 4))
    ensures Replaced(b, b', o, o + len, o + len) && DataSize(b') == DataSize(b) && o + len <= |Struct(b')|
    ensures Lex(Struct(b')[o..o + len]) == Some(items) && Events(items, Strings(b)) == []
  {
    hide Lex, Events, NopBytes, Hdr, Patch;
    Bounds(b);
    var z := NopBytes(len / 4);
    PutStructEffect(b, o, z);
    NopLex(len / 4, Strings(b));
    items := Lex(z).value;
    PatchOutside(Struct(b), o, z, o + len, |Struct(b)|);
  }

  /** `fdt_nop_node` */
  method NopNodeBytes(m: array<Byte>, node: int, ghost t: Node, ghost path: Path) returns (err: int)
    requires Holds(m[..], t) && INT_MIN <= node <= INT_MAX && (!BadNode(m[..], node) ==> NodeOff(m[..], t, path, node))
    modifies m
    ensures old(BadNode(m[..], node)) ==> err == (if node < 0 then node else -FDT_ERR_BADOFFSET) && m[..] == old(m[..])
    ensures !old(BadNode(m[..], node)) ==>
              err == 0 && Kept(old(m[..]), m[..]) && SameUpTo(old(m[..]), m[..], node) &&
              DataSize(m[..]) == old(DataSize(m[..])) &&
              (path == [] ==> Spelled(m[..], [Finish])) && (path != [] ==> Holds(m[..], Without(t, path)))
  {
    hide Ordered, Frame, Put, Before, Hdr, SameUpTo, Kept, Struct, Strings, AtMark, Patch, NopBytes, NextTag,
         Tokens, Flatten, Lex, Events, At, NodeMark, Close, Without, CheckTagOffset, Replaced, DataSize, NodeOff,
         NodeEvents, ValidPath, Complete, Spelled, PropsClosed, First, NodeArg;
    ghost var b := m[..];
    ArgOf(b, t, path, node);
    var end := NodeEnd(m[..], node, Tokens(t), |Before(t, path)|);
    if !BadNode(b, node) {
      EndOfNode(t, path);
      MarkBound(b, Tokens(t), end, |Before(t, path)| + |Flatten(At(t, path))|);
      NodeBegins(b, t, path, node);
      Bounds(b);
    }
    if end < 0 {
      return end;
    }
    MarkAligned(b, Tokens(t), node, |Before(t, path)|);
    MarkAligned(b, Tokens(t), end, |Before(t, path)| + |Flatten(At(t, path))|);
    AlignedSame(end - node);
    NopRegion(m, OffStruct(m[..]) + node, end - node);
    ghost var items := NoppedBlock(b, node, end - node, m[..]);
    VanishedTree(b, t, path, node, end, m[..], end, items);
    err := 0;
  }

  lemma MarkAligned(b: seq<Byte>, es: seq<Event>, o: int, e: int)
    requires AtMark(b, es, o, e)
    ensures o % 4 == 0
  {
    hide Lex, Events, Ordered;
    LexAligned(Struct(b)[..o]);
  }

  /** `fdt_nop_property` */
  method NopPropertyBytes(m: array<Byte>, node: int, name: seq<Byte>, ghost t: Node, ghost path: Path)
                          returns (err: int)
    requires Holds(m[..], t) && INT_MIN <= node <= INT_MAX && (!BadNode(m[..], node) ==> NodeOff(m[..], t, path, node))
    modifies m
    ensures old(BadNode(m[..], node)) ==> err == -FDT_ERR_BADOFFSET && m[..] == old(m[..])
    ensures !old(BadNode(m[..], node)) ==>
              var n := At(t, path);
              var i := MatchProp(n.props, name);
              if i == |n.props| then err == -FDT_ERR_NOTFOUND && m[..] == old(m[..])
              else
                err == 0 && Edited(old(m[..]), m[..], Put(t, path, DropProp(n, i)), path, node) &&
                DataSize(m[..]) == old(DataSize(m[..]))
  {
    hide PropOff, Ordered, Frame, Put, Before, Hdr, SameUpTo, Kept, Struct, Strings, Mark, AtMark, Patch, PropMark,
         NopBytes, NextTag, NodeMark, Tokens, Flatten, Lex, Events, Align4, MatchProp, Ld32, At, Min, FindProp,
         DropProp, Replaced, DataSize, NodeOff, NodeEvents, CheckTagOffset, ValidPath, Edited, Complete, Spelled,
         NodeArg, PropsClosed, First, Spells;
    ghost var b, n := m[..], At(t, path);
    ArgOf(b, t, path, node);
    var po := GetProperty(m[..], node, name, Tokens(t), |Before(t, path)|);
    ghost var i := MatchProp(n.props, name);
    if !BadNode(b, node) {
      FindPropInTree(t, path, name);
    }
    if po < 0 {
      err := po;
      return;
    }
    FoundProp(b, t, path, i, po);
    PropOffIs(b, t, path, i, po);
    ghost var it := ItemOf(b, po);
    DataSpelled(Struct(b), po, it);
    Bounds(b);
    var len := Ld32(Struct(m[..]), po + 4);
    AlignShift(12, len);
    NopRegion(m, OffStruct(m[..]) + po, len + 12);
    ghost var items := NoppedBlock(b, po, it.Size(), m[..]);
    DroppedTree(b, t, path, node, i, po, it, m[..], po + it.Size(), items);
    err := 0;
  }
}
