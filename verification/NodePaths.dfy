/**
 `fdt_get_path` and `get_path_len`: the names from the root to a node, written into a value of the blob that is
 being walked.
 */
module NodePaths {
  import opened Bytes
  import opened DeviceTree
  import opened Lexer
  import opened Blob
  import opened Walk
  import opened Traverse
  import opened Splice
  import opened Edit
  import opened Rewrite
  import opened ReadWrite
  import opened TreeWalk
  import opened Phandles
  import opened InPlace
  import opened PhandleBytes
  import opened RefBytes
  import opened AllNodes
  import opened Paths
  import opened Symbols
  import opened Ancestors

  // ------------------------------------------------------------------ on the tree

  /** The names from the root to a node, each with a slash behind it. */
  function Joined(t: Node, path: Path): (r: seq<Byte>)
    ensures r != [] && r[|r| - 1] == SLASH
  {
    t.name + [SLASH] + if path == [] || path[0] >= |t.kids| then [] else Joined(t.kids[path[0]], path[1..])
  }

  /** The path of a node as text: no slash at the end, unless it is all there is. */
  function PathText(t: Node, path: Path): seq<Byte> {
    var j := Joined(t, path);
    if |j| > 1 then j[..|j| - 1] else j
  }

  lemma {:induction false} JoinedSnoc(t: Node, path: Path, i: nat)
    requires ValidPath(t, path) && i < |At(t, path).kids|
    ensures Joined(t, path + [i]) == Joined(t, path) + (At(t, path).kids[i].name + [SLASH])
    decreases path
  {
    if path == [] {
      assert path + [i] == [i] && [i][1..] == [];
      assert t.name + [SLASH] + [] == t.name + [SLASH];
      var k := t.kids[i].name + [SLASH];
      assert k + [] == k;
    } else {
      var k := t.kids[path[0]];
      assert (path + [i])[1..] == path[1..] + [i] && (path + [i])[0] == path[0];
      JoinedSnoc(k, path[1..], i);
      Assoc(t.name + [SLASH], Joined(k, path[1..]), At(t, path).kids[i].name + [SLASH]);
    }
  }

  /** `get_path_len` without its last line: up to the nearest node without a name. */
  function LenUp(t: Node, path: Path): Outcome<nat>
    decreases |path|
  {
    if At(t, path).name == [] then Ok(0)
    else if path == [] then Err(-FDT_ERR_NOTFOUND)
    else
      match LenUp(t, path[..|path| - 1])
      case Err(c) => Err(c)
      case Ok(n) => Ok(n + |At(t, path).name| + 1)
  }

  /** The length of the text of a path, or the slash of the root. */
  function PathLen(t: Node, path: Path): Outcome<nat> {
    match LenUp(t, path)
    case Err(c) => Err(c)
    case Ok(n) => Ok(if n == 0 then 1 else n)
  }

  /** No name has a slash in it. */
  predicate Slashless(t: Node) {
    SLASH !in t.name && forall k :: k in t.kids ==> Slashless(k)
  }

  /** Only the root has no name. */
  predicate NamedBelow(t: Node, path: Path) {
    forall k :: 0 < k <= |path| ==> At(t, path[..k]).name != []
  }

  /** There is a length exactly if some node on the way up has no name. */
  lemma {:induction false} LenUpExact(t: Node, path: Path)
    ensures LenUp(t, path).Ok? <==> exists k :: 0 <= k <= |path| && At(t, path[..k]).name == []
    ensures LenUp(t, path).Ok? && LenUp(t, path).value <= 1 <==> At(t, path).name == []
    decreases |path|
  {
    hide At;
    assert path[..|path|] == path;
    if path != [] {
      var up := path[..|path| - 1];
      forall k | 0 <= k <= |up| ensures path[..k] == up[..k] { }
      LenUpExact(t, up);
      if k :| 0 <= k <= |up| && At(t, up[..k]).name == [] {
        assert At(t, path[..k]).name == [];
      }
    }
  }

  /** The computed length is that of the path's text exactly if the root is the nearest node without a name. */
  lemma {:induction false} PathLenExact(t: Node, path: Path)
    requires ValidPath(t, path) && LenUp(t, path).Ok?
    ensures LenUp(t, path).value < |Joined(t, path)|
    ensures LenUp(t, path).value + 1 == |Joined(t, path)| <==> t.name == [] && NamedBelow(t, path)
    decreases |path|
  {
    hide At, ValidPath, Joined, NamedBelow;
    RootSize(t);
    NamedUp(t, path);
    if path == [] {
      RootJoined(t);
    } else {
      UpAt(t, path);
      var up, i := path[..|path| - 1], path[|path| - 1];
      JoinedSnoc(t, up, i);
      KidNode(t, up, i);
      if At(t, path).name != [] {
        PathLenExact(t, up);
      }
    }
  }

  lemma NamedUp(t: Node, path: Path)
    ensures NamedBelow(t, path) <==>
            path == [] || (At(t, path).name != [] && NamedBelow(t, path[..|path| - 1]))
  {
    hide At;
    if path != [] {
      var up := path[..|path| - 1];
      assert path[..|path|] == path;
      forall k | 0 < k <= |up| ensures path[..k] == up[..k] { }
      if NamedBelow(t, path) {
        forall k | 0 < k <= |up| ensures At(t, up[..k]).name != [] {
          assert At(t, path[..k]).name != [];
        }
      }
    }
  }

  lemma RootJoined(t: Node)
    ensures Joined(t, []) == t.name + [SLASH]
  {
  }

  lemma {:induction false} LenUpError(t: Node, path: Path)
    ensures LenUp(t, path).Err? ==> LenUp(t, path).code == -FDT_ERR_NOTFOUND
    decreases |path|
  {
    hide At;
    if path != [] { LenUpError(t, path[..|path| - 1]); }
  }

  /** `get_path_len` */
  method PathLenOf(b: seq<Byte>, node: int, ghost t: Node, ghost path: Path) returns (len: int)
    requires NodeOff(b, t, [], 0) && NodeOff(b, t, path, node)
    ensures match PathLen(t, path)
            case Ok(n) => len == n > 0
            case Err(c) => len == c < 0
  {
    hide NodeOff, At;
    len := 0;
    LenUpError(t, path);
    var nodeoffset := node;
    ghost var p := path;
    while true
      invariant NodeOff(b, t, p, nodeoffset) && len >= 0 && (len == 0 <==> p == path)
      invariant LenUp(t, path) == match LenUp(t, p) case Err(c) => Err(c) case Ok(n) => Ok(n + len)
      invariant LenUp(t, p).Err? ==> LenUp(t, p).code < 0
      decreases |p|
    {
      var name := NameOf(b, nodeoffset, t, p);
      if |name| == 0 {
        break;
      }
      nodeoffset := ParentOffset(b, nodeoffset, t, p);
      if nodeoffset < 0 {
        return nodeoffset;
      }
      len := len + |name| + 1;
      p := p[..|p| - 1];
    }
    if len == 0 {
      len := 1;
    }
  }

  // ------------------------------------------------------------ and back to the node

  /** A slash in front of every name below `t`. */
  function Tail(t: Node, path: Path): seq<Byte> {
    if path == [] || path[0] >= |t.kids| then []
    else [SLASH] + (t.kids[path[0]].name + Tail(t.kids[path[0]], path[1..]))
  }

  lemma {:induction false} JoinedTail(t: Node, path: Path)
    ensures Joined(t, path) == t.name + (Tail(t, path) + [SLASH])
    decreases path
  {
    if path != [] && path[0] < |t.kids| {
      var k := t.kids[path[0]];
      JoinedTail(k, path[1..]);
      Shift(t.name, [SLASH], k.name, Tail(k, path[1..]), [SLASH]);
    } else {
      assert t.name + [SLASH] + [] == t.name + ([] + [SLASH]);
    }
  }

  lemma Shift(a: seq<Byte>, b: seq<Byte>, c: seq<Byte>, d: seq<Byte>, e: seq<Byte>)
    ensures a + b + (c + (d + e)) == a + ((b + (c + d)) + e)
  {
  }

  /** No sibling in front of a node on the way has a name that the node's name selects as well. */
  predicate FirstMatches(t: Node, path: Path) {
    path == [] ||
    (path[0] < |t.kids| && MatchKid(t.kids, t.kids[path[0]].name) == path[0] &&
     FirstMatches(t.kids[path[0]], path[1..]))
  }

  lemma {:induction false} FindName(name: seq<Byte>, rest: seq<Byte>)
    requires SLASH !in name && (rest == [] || rest[0] == SLASH)
    ensures Fixups.Find(name + rest, SLASH) == |name|
    decreases |name|
  {
    if name == [] {
      assert name + rest == rest;
    } else {
      assert (name + rest)[1..] == name[1..] + rest && name[0] in name;
      FindName(name[1..], rest);
    }
  }

  lemma NamedKid(t: Node, path: Path)
    requires ValidPath(t, path) && path != [] && NamedBelow(t, path)
    ensures t.kids[path[0]].name != [] && NamedBelow(t.kids[path[0]], path[1..])
  {
    var k, rest := t.kids[path[0]], path[1..];
    forall j | 0 <= j <= |rest| ensures At(k, rest[..j]).name != [] {
      assert path[..j + 1][1..] == rest[..j];
      assert At(t, path[..j + 1]).name != [];
    }
    assert rest[..0] == [];
  }

  /** The text of a path leads back to the node exactly if no sibling of the same name stands in front on the way. */
  lemma {:induction false} ResolveTail(t: Node, path: Path)
    requires ValidPath(t, path) && Slashless(t) && NamedBelow(t, path)
    ensures Resolve(t, Tail(t, path)) == Some(path) <==> FirstMatches(t, path)
    decreases path
  {
    hide MatchKid, Fixups.Find, NamedBelow, Slashless;
    if path != [] {
      var k, rest := t.kids[path[0]], path[1..];
      SlashlessKid(t, path[0]);
      var s, i := Tail(k, rest), MatchKid(t.kids, t.kids[path[0]].name);
      NamedKid(t, path);
      var w := k.name + s;
      assert Tail(t, path)[1..] == w;
      assert w[0] == k.name[0] && k.name[0] in k.name;
      FindName(k.name, s);
      assert w[..|k.name|] == k.name && w[|k.name|..] == s;
      ResolveTail(k, rest);
      SelfMatch(t.kids, path[0]);
      assert path == [path[0]] + rest;
      if i == path[0] && Resolve(k, s).Some? {
        assert ([i] + Resolve(k, s).value)[1..] == Resolve(k, s).value;
      }
    }
  }

  lemma SlashlessKid(t: Node, i: nat)
    requires Slashless(t) && i < |t.kids|
    ensures Slashless(t.kids[i]) && SLASH !in t.kids[i].name
  {
  }

  lemma SelfMatch(ks: seq<Node>, i: nat)
    requires i < |ks|
    ensures MatchKid(ks, ks[i].name) <= i
  {
    hide MatchKid;
    assert NameEq(ks[i].name, ks[i].name);
  }

  /** `fdt_path_offset` on what `fdt_get_path` writes finds the node again, exactly under that condition. */
  lemma PathRoundTrip(t: Node, path: Path)
    requires ValidPath(t, path) && Slashless(t) && t.name == [] && NamedBelow(t, path)
    ensures Absolute(PathText(t, path))
    ensures Resolve(t, PathText(t, path)) == Some(path) <==> FirstMatches(t, path)
  {
    hide MatchKid, Slashless, Fixups.Find, NamedBelow, ValidPath, FirstMatches, Joined, Resolve, Tail;
    JoinedTail(t, path);
    FirstNone(t);
    if path != [] {
      TailSome(t, path);
      assert Joined(t, path)[..|Joined(t, path)| - 1] == Tail(t, path);
      ResolveTail(t, path);
    } else {
      assert Joined(t, path) == [SLASH];
    }
  }

  lemma FirstNone(t: Node)
    ensures FirstMatches(t, []) && Tail(t, []) == [] && Resolve(t, [SLASH]) == Some([])
  {
    var s := [SLASH];
    assert s[1..] == [];
    assert Resolve(t, s) == Resolve(t, s[1..]) == Some([]);
  }

  lemma TailSome(t: Node, path: Path)
    requires ValidPath(t, path) && path != []
    ensures Absolute(Tail(t, path))
  {
  }

  // -------------------------------------------------------------- names in a blob

  predicate CleanEvent(e: Event) {
    e.Enter? ==> NulFree(e.name)
  }

  /** The names that a structure block spells have no NUL. */
  lemma {:induction false} LexClean(s: seq<Byte>, ss: seq<Byte>)
    requires Lex(s).Some?
    ensures forall e :: e in Events(Lex(s).value, ss) ==> CleanEvent(e)
    decreases |s|
  {
    hide First, Item.Size, CleanEvent, EventOf;
    if s != [] {
      var it := First(s).value;
      FirstClean(s, ss);
      LexClean(s[it.Size()..], ss);
      assert Lex(s).value[1..] == Lex(s[it.Size()..]).value;
    }
  }

  lemma FirstClean(s: seq<Byte>, ss: seq<Byte>)
    requires First(s).Some?
    ensures First(s).value.Size() > 0 && forall e :: e in EventOf(First(s).value, ss) ==> CleanEvent(e)
  {
    hide First, Ld32, Str;
    FirstSpells(s);
  }

  lemma NameClean(b: seq<Byte>, t: Node, path: Path)
    requires Holds(b, t) && ValidPath(t, path)
    ensures NulFree(At(t, path).name)
  {
    hide Lex, Events, Flatten, Before, Here, At, Struct, Strings, Ordered, Hdr, PropEvents, Forest;
    LexClean(Struct(b), Strings(b));
    NodeHere(t, path);
    NodeParts(Tokens(t), |Before(t, path)|, At(t, path));
    assert Tokens(t)[|Before(t, path)|] in Tokens(t);
    assert CleanEvent(Enter(At(t, path).name));
  }

  /** Nor has the text of a path. */
  lemma {:induction false} JoinedClean(b: seq<Byte>, t: Node, path: Path)
    requires Holds(b, t) && ValidPath(t, path)
    ensures NulFree(Joined(t, path))
    decreases |path|
  {
    hide Holds, At, ValidPath, Joined;
    NameClean(b, t, path);
    RootSize(t);
    if path == [] {
      RootJoined(t);
    } else {
      UpAt(t, path);
      var up, i := path[..|path| - 1], path[|path| - 1];
      JoinedClean(b, t, up);
      JoinedSnoc(t, up, i);
      KidNode(t, up, i);
    }
  }

  // ------------------------------------------------------------------ the buffer

  /** The tree with property `name` of the node at `sp` set to `v`. */
  function WithProp(t: Node, sp: Path, name: seq<Byte>, v: seq<Byte>): Node {
    Put(t, sp, SetProp(At(t, sp), name, v))
  }

  /** The blob holds the tree with value `v`, and the value lies at `po` as when room was made for it. */
  ghost predicate Buffered(b: seq<Byte>, m: seq<Byte>, t: Node, sp: Path, name: seq<Byte>, i: nat, po: int,
                           v: seq<Byte>)
  {
    ValidPath(t, sp) && i == MatchProp(SetProp(At(t, sp), name, v).props, name) &&
    PropOff(m, WithProp(t, sp, name, v), sp, i, po) && SameUpTo(b, m, po) && Kept(b, m) && DataSize(m) == DataSize(b)
  }

  lemma BufferSize(b: seq<Byte>, m: seq<Byte>, t: Node, sp: Path, name: seq<Byte>, i: nat, po: int, v: seq<Byte>)
    requires Buffered(b, m, t, sp, name, i, po, v)
    ensures DataSize(m) == DataSize(b) && Kept(b, m)
  {
    hide PropOff, SameUpTo, Kept, WithProp, SetProp, MatchProp;
  }

  lemma BufferIs(b: seq<Byte>, m: seq<Byte>, t: Node, sp: Path, name: seq<Byte>, i: nat, po: int, v: seq<Byte>)
    requires Buffered(b, m, t, sp, name, i, po, v)
    ensures ValidPath(t, sp) && PropOff(m, WithProp(t, sp, name, v), sp, i, po) && 0 <= po
    ensures var n' := At(WithProp(t, sp, name, v), sp);
            n' == SetProp(At(t, sp), name, v) && i < |n'.props| && n'.props[i] == Prop(name, v)
    ensures forall w :: Put(WithProp(t, sp, name, v), sp,
              (var n' := SetProp(At(t, sp), name, v); n'.(props := n'.props[i := Prop(name, w)]))) ==
              WithProp(t, sp, name, w)
  {
    hide PropOff, Put, At, SetProp, MatchProp, ValidPath, Kept, SameUpTo, Struct, First, Spells, Str, AtMark,
         Ordered;
    var n := At(t, sp);
    PropOffIs(m, WithProp(t, sp, name, v), sp, i, po);
    PutAt(t, sp, SetProp(n, name, v));
    forall w ensures Put(WithProp(t, sp, name, v), sp,
        (var n' := SetProp(n, name, v); n'.(props := n'.props[i := Prop(name, w)]))) == WithProp(t, sp, name, w) {
      SetAgain(n, name, v, w);
      PutTwice(t, sp, SetProp(n, name, v), SetProp(n, name, w));
    }
    SetAgain(n, name, v, v);
  }

  /** Two values of the same length make trees that differ nowhere else. */
  lemma SetAlike(t: Node, sp: Path, name: seq<Byte>, v: seq<Byte>, w: seq<Byte>)
    requires ValidPath(t, sp)
    ensures SameShape(WithProp(t, sp, name, v), WithProp(t, sp, name, w)) &&
            Alike(WithProp(t, sp, name, v), WithProp(t, sp, name, w))
  {
    hide Put, At, SetProp, ValidPath, SameShape, Alike;
    var n := At(t, sp);
    var a, c := SetProp(n, name, v), SetProp(n, name, w);
    SetPropKids(n, name, v);
    SetPropKids(n, name, w);
    SetPropSize(n, name, v, w);
    PutAgain(t, sp, a, c);
    SameKids(a, c);
    AlikeProps(a, c);
    PutShape(WithProp(t, sp, name, v), sp, c);
    AlikePut(WithProp(t, sp, name, v), sp, c);
  }

  lemma SetPropSize(n: Node, name: seq<Byte>, v: seq<Byte>, w: seq<Byte>)
    ensures |SetProp(n, name, v).props| == |SetProp(n, name, w).props|
  {
  }

  /** Bytes written into the buffer; no node and no property moves. */
  method WriteBuffer(m: array<Byte>, po: nat, idx: nat, x: seq<Byte>, ghost b: seq<Byte>, ghost t: Node,
                     ghost sp: Path, ghost name: seq<Byte>, ghost i: nat, ghost v: seq<Byte>)
    requires Buffered(b, m[..], t, sp, name, i, po, v) && idx + |x| <= |v|
    modifies m
    ensures Buffered(b, m[..], t, sp, name, i, po, Patch(v, idx, x))
    ensures Steady(old(m[..]), WithProp(t, sp, name, v), m[..], WithProp(t, sp, name, Patch(v, idx, x)))
  {
    hide PropOff, Put, At, SetProp, MatchProp, ValidPath, Kept, SameUpTo, Struct, First, Spells, Str, AtMark,
         Ordered, Patch, Steady, StructPatched, Before, WithProp, DataSize;
    ghost var was, u := m[..], WithProp(t, sp, name, v);
    BufferIs(b, was, t, sp, name, i, po, v);
    WriteValue(m, po, idx, x, u, sp, i);
    PartialSteady(was, u, sp, i, po, idx, x, m[..]);
    KeptTrans(b, was, m[..]);
    SameUpToMore(b, was, m[..], po);
    SetAgain(At(t, sp), name, v, v);
    SetAgain(At(t, sp), name, Patch(v, idx, x), v);
    SetPlace(At(t, sp), name, v, Patch(v, idx, x));
  }

  lemma SetPlace(n: Node, name: seq<Byte>, v: seq<Byte>, w: seq<Byte>)
    ensures MatchProp(SetProp(n, name, v).props, name) == MatchProp(SetProp(n, name, w).props, name)
  {
    hide MatchProp;
    if MatchProp(n.props, name) < |n.props| {
      SetPropFound(n, name, v);
      SetPropFound(n, name, w);
    } else {
      SetPropMissing(n, name, v);
      SetPropMissing(n, name, w);
    }
  }

  lemma SameUpToMore(a: seq<Byte>, b: seq<Byte>, c: seq<Byte>, k: nat)
    requires SameUpTo(a, b, k) && SameUpTo(b, c, k)
    ensures SameUpTo(a, c, k)
  {
    hide Ordered, Struct;
  }

  /** A byte of the buffer. */
  method BufferByte(m: array<Byte>, po: nat, k: nat, ghost b: seq<Byte>, ghost t: Node, ghost sp: Path,
                    ghost name: seq<Byte>, ghost i: nat, ghost v: seq<Byte>) returns (c: Byte)
    requires Buffered(b, m[..], t, sp, name, i, po, v) && k < |v|
    ensures c == v[k]
  {
    hide PropOff, Put, At, SetProp, MatchProp, ValidPath, Kept, SameUpTo, Struct, First, Spells, Str, AtMark,
         Ordered, WithProp;
    ghost var u := WithProp(t, sp, name, v);
    BufferIs(b, m[..], t, sp, name, i, po, v);
    PropOffIs(m[..], u, sp, i, po);
    DataSpelled(Struct(m[..]), po, ItemOf(m[..], po));
    ValueByte(Struct(m[..]), po + 12, v, k);
    c := Struct(m[..])[po + 12 + k];
  }

  lemma ValueByte(s: seq<Byte>, at: nat, v: seq<Byte>, k: nat)
    requires at + |v| <= |s| && s[at..at + |v|] == v && k < |v|
    ensures s[at + k] == v[k]
  {
    assert s[at..at + |v|][k] == v[k];
  }

  // ------------------------------------------------------------ names in the buffer

  lemma {:induction false} SlashlessAt(t: Node, path: Path)
    requires Slashless(t) && ValidPath(t, path)
    ensures SLASH !in At(t, path).name
    decreases path
  {
    if path != [] {
      SlashlessAt(t.kids[path[0]], path[1..]);
    }
  }

  /** The names of the first `k` nodes on the way to `q`. */
  function Front(t: Node, q: Path, k: nat): seq<Byte>
    requires k <= |q| + 1
  {
    if k == 0 then [] else Joined(t, q[..k - 1])
  }

  lemma NoFront(t: Node, q: Path)
    ensures Front(t, q, 0) == []
  {
  }

  lemma FrontMore(t: Node, q: Path, k: nat)
    requires ValidPath(t, q) && k <= |q|
    ensures Front(t, q, k + 1) == Front(t, q, k) + (At(t, q[..k]).name + [SLASH])
  {
    hide At, ValidPath, Joined;
    RootSize(t);
    if k == 0 {
      RootJoined(t);
      assert q[..0] == [];
      Assoc([], t.name, [SLASH]);
    } else {
      var r := q[..k];
      assert q == r + q[k..];
      PrefixValid(t, r, q[k..]);
      UpAt(t, r);
      assert r[..k - 1] == q[..k - 1];
      JoinedSnoc(t, q[..k - 1], r[k - 1]);
      KidNode(t, q[..k - 1], r[k - 1]);
    }
  }

  /** The longer the way, the longer its text. */
  lemma {:induction false} FrontGrows(t: Node, q: Path, j: nat, k: nat)
    requires ValidPath(t, q) && j <= k <= |q| + 1
    ensures |Front(t, q, j)| <= |Front(t, q, k)|
    decreases k
  {
    hide At, ValidPath, Front;
    if j < k {
      FrontGrows(t, q, j, k - 1);
      FrontMore(t, q, k - 1);
    }
  }

  /** Nodes that follow each other share their ancestors. */
  lemma FrontFollows(t: Node, q: Path, q': Path, k: nat)
    requires Follows(q, q') && k <= |q'|
    ensures k <= |q| + 1 && Front(t, q', k) == Front(t, q, k)
  {
    hide Joined;
    if k > 0 {
      var j := |q'| - 1;
      assert q'[..k - 1] == q'[..j][..k - 1] == q[..j][..k - 1] == q[..k - 1];
    }
  }

  /**
   The names of the first `k` nodes on the way to `q` stand in the buffer, `p` bytes in all, and if the last one is
   missing, the next name did not fit.
   */
  predicate Stack(t: Node, q: Path, k: nat, v: seq<Byte>, p: nat, limit: nat) {
    k <= |q| + 1 && p <= limit && p <= |v| && v[..p] == Front(t, q, k) &&
    (k <= |q| ==> |Front(t, q, k + 1)| > limit)
  }

  /** On the way to the next node, with what was too deep taken off. */
  lemma StackFollows(t: Node, q: Path, q': Path, k: nat, k': nat, v: seq<Byte>, p: nat, p': nat, limit: nat)
    requires Stack(t, q, k, v, p, limit) && Follows(q, q') && k' == Min(k, |q'|)
    requires p' <= p && v[..p'] == Front(t, q, k')
    ensures v[..p'] == Front(t, q', k') && (k' < |q'| ==> Stack(t, q', k', v, p', limit))
  {
    hide Front;
    FrontFollows(t, q, q', k');
    if k' < |q'| { FrontFollows(t, q, q', k' + 1); }
  }

  /** The loops that take off the names below depth `depth`: each goes back to the slash before a name. */
  method PopNames(m: array<Byte>, po: nat, pdepth: nat, from: nat, depth: nat, ghost b: seq<Byte>, ghost t: Node,
                  ghost sp: Path, ghost name: seq<Byte>, ghost i: nat, ghost v: seq<Byte>, ghost u: Node, ghost q: Path)
    returns (d: nat, p: nat)
    requires Buffered(b, m[..], t, sp, name, i, po, v) && Slashless(u) && ValidPath(u, q) && pdepth <= |q| + 1
    requires from <= |v| && v[..from] == Front(u, q, pdepth) && depth > 0
    ensures d == Min(pdepth, depth) && p <= from && v[..p] == Front(u, q, d)
  {
    hide Buffered, Slashless, ValidPath, Front, At;
    d, p := pdepth, from;
    while d > depth
      invariant Min(pdepth, depth) <= d <= pdepth && p <= from && v[..p] == Front(u, q, d)
    {
      ghost var lo, was := |Front(u, q, d - 1)|, p;
      FrontMore(u, q, d - 1);
      LastSlash(u, q, d - 1);
      ghost var last := At(u, q[..d - 1]).name;
      PlainAt(u, q, d - 1);
      p := p - 1;
      var c := BufferByte(m, po, p - 1, b, t, sp, name, i, v);
      while c != SLASH
        invariant lo <= p < was && c == v[p - 1]
        decreases p
      {
        InFront(v, was, Front(u, q, d - 1), last, p - 1);
        p := p - 1;
        c := BufferByte(m, po, p - 1, b, t, sp, name, i, v);
      }
      InFront(v, was, Front(u, q, d - 1), last, p - 1);
      assert v[..p] == v[..was][..lo];
      d := d - 1;
    }
  }

  lemma LastSlash(t: Node, q: Path, k: nat)
    requires 0 < k <= |q| + 1
    ensures var f := Front(t, q, k); f != [] && f[|f| - 1] == SLASH
  {
    hide Joined;
  }

  lemma PlainAt(t: Node, q: Path, k: nat)
    requires Slashless(t) && ValidPath(t, q) && k <= |q|
    ensures SLASH !in At(t, q[..k]).name
  {
    hide At, ValidPath, Slashless;
    assert q == q[..k] + q[k..];
    PrefixValid(t, q[..k], q[k..]);
    SlashlessAt(t, q[..k]);
  }

  /** Before the slash at the end stands either the last name or the slash before it. */
  lemma InFront(v: seq<Byte>, n: nat, f: seq<Byte>, name: seq<Byte>, k: nat)
    requires n <= |v| && v[..n] == f + (name + [SLASH]) && f != [] && f[|f| - 1] == SLASH && |f| - 1 <= k < n - 1
    requires SLASH !in name
    ensures if k == |f| - 1 then v[k] == SLASH else v[k] != SLASH
  {
    assert v[k] == v[..n][k];
    if k >= |f| { assert v[k] == name[k - |f|]; }
  }

  // --------------------------------------------------------------------- the call

  lemma PatchEnd(v: seq<Byte>, p: nat, x: seq<Byte>, limit: nat)
    requires p + |x| <= limit <= |v|
    ensures var w := Patch(v, p, x); |w| == |v| && w[..p + |x|] == v[..p] + x && w[limit..] == v[limit..]
  {
  }

  lemma TextFits(t: Node, path: Path, limit: nat)
    ensures |PathText(t, path)| + 1 <= limit <==> limit >= 2 && |Joined(t, path)| <= limit
    ensures Front(t, path, |path| + 1) == Joined(t, path)
  {
    hide Joined;
    assert path[..|path|] == path;
  }

  /** After the last name: the slash at the end makes room for the NUL. */
  lemma TextEnds(t: Node, path: Path, v: seq<Byte>, p: nat)
    requires p <= |v| && v[..p] == Joined(t, path)
    ensures var e, text := if p > 1 then p - 1 else p, PathText(t, path);
            e == |text| && v[..e] == text && p >= 1
  {
    hide Joined;
    if p > 1 { assert v[..p][..p - 1] == v[..p - 1]; }
  }

  /** A node's name and place are the same whatever the buffer holds. */
  lemma SameNode(t: Node, sp: Path, name: seq<Byte>, v0: seq<Byte>, v: seq<Byte>, q: Path)
    requires ValidPath(t, sp) && ValidPath(WithProp(t, sp, name, v0), q)
    ensures var u, a := WithProp(t, sp, name, v0), WithProp(t, sp, name, v);
            ValidPath(a, q) && |Before(a, q)| == |Before(u, q)| && At(a, q).name == At(u, q).name
  {
    hide WithProp, SameShape, Alike, At, Before, ValidPath;
    SetAlike(t, sp, name, v0, v);
    AlikePath(WithProp(t, sp, name, v0), WithProp(t, sp, name, v), q);
    ShapeName(WithProp(t, sp, name, v0), WithProp(t, sp, name, v), q);
  }

  lemma {:induction false} ShapeName(a: Node, c: Node, q: Path)
    requires SameShape(a, c) && ValidPath(a, q)
    ensures At(c, q).name == At(a, q).name
    decreases q
  {
    if q != [] {
      ShapeName(a.kids[q[0]], c.kids[q[0]], q[1..]);
    }
  }

  /** One name more in the buffer. */
  method PushName(m: array<Byte>, po: nat, p: nat, s: seq<Byte>, limit: nat, ghost b: seq<Byte>, ghost t: Node,
                  ghost sp: Path, ghost name: seq<Byte>, ghost i: nat, ghost v: seq<Byte>)
    returns (p': nat, ghost w: seq<Byte>)
    requires Buffered(b, m[..], t, sp, name, i, po, v) && p + |s| + 1 <= limit <= |v|
    modifies m
    ensures Buffered(b, m[..], t, sp, name, i, po, w)
    ensures Steady(old(m[..]), WithProp(t, sp, name, v), m[..], WithProp(t, sp, name, w))
    ensures p' == p + |s| + 1 && |w| == |v| && w[..p'] == v[..p] + (s + [SLASH]) && w[limit..] == v[limit..]
  {
    hide Buffered, Steady, WithProp, Patch;
    ghost var was := m[..];
    WriteBuffer(m, po, p, s, b, t, sp, name, i, v);
    ghost var mid, v1 := m[..], Patch(v, p, s);
    PatchEnd(v, p, s, limit);
    WriteBuffer(m, po, p + |s|, [SLASH], b, t, sp, name, i, v1);
    w := Patch(v1, p + |s|, [SLASH]);
    PatchEnd(v1, p + |s|, [SLASH], limit);
    SteadyTrans(was, WithProp(t, sp, name, v), mid, WithProp(t, sp, name, v1), m[..], WithProp(t, sp, name, w));
    p' := p + |s| + 1;
    Assoc(v[..p], s, [SLASH]);
  }

  /** One round of the loop, up to the comparison of the offsets: the name of the node at `q`, if it fits. */
  method VisitNode(m: array<Byte>, po: nat, buflen: nat, offset: int, depth: nat, pdepth: nat, from: nat,
                   ghost b: seq<Byte>, ghost t: Node, ghost sp: Path, ghost name: seq<Byte>, ghost i: nat,
                   ghost v0: seq<Byte>, ghost v: seq<Byte>, ghost q0: Path, ghost q: Path)
    returns (d: nat, p: nat, ghost w: seq<Byte>)
    requires Buffered(b, m[..], t, sp, name, i, po, v) && Slashless(WithProp(t, sp, name, v0)) && buflen <= |v|
    requires ValidPath(t, sp) && ValidPath(WithProp(t, sp, name, v0), q) && depth == |q|
    requires NodeOff(m[..], WithProp(t, sp, name, v), q, offset)
    requires Arriving(WithProp(t, sp, name, v0), q0, q, pdepth, v, from, buflen)
    modifies m
    ensures Buffered(b, m[..], t, sp, name, i, po, w) && |w| == |v| && w[buflen..] == v[buflen..]
    ensures Steady(old(m[..]), WithProp(t, sp, name, v), m[..], WithProp(t, sp, name, w))
    ensures Stack(WithProp(t, sp, name, v0), q, d, w, p, buflen)
  {
    hide Buffered, NodeOff, Steady, WithProp, Slashless, ValidPath, Front, At, Before, Follows, Patch, Alike,
         SameShape;
    ghost var u := WithProp(t, sp, name, v0);
    d, p, w := pdepth, from, v;
    if pdepth > depth {
      d, p := PopNames(m, po, pdepth, from, depth, b, t, sp, name, i, v, u, q0);
    }
    if q != [] { StackFollows(u, q0, q, pdepth, d, v, from, p, buflen); }
    NoFront(u, q);
    StillHere(m[..], WithProp(t, sp, name, v), q, offset);
    if d >= depth {
      var s := NameOf(m[..], offset, WithProp(t, sp, name, v), q);
      SameNode(t, sp, name, v0, v, q);
      FrontMore(u, q, |q|);
      assert q[..|q|] == q;
      if p + |s| + 1 <= buflen {
        p, w := PushName(m, po, p, s, buflen, b, t, sp, name, i, v);
        d := d + 1;
      }
    }
  }

  /** The buffer when the walk comes to the node at `q`: the names for the node before it, or nothing yet. */
  predicate Arriving(t: Node, q0: Path, q: Path, k: nat, v: seq<Byte>, p: nat, limit: nat) {
    if q == [] then k == 0 && p == 0 && q0 == []
    else ValidPath(t, q0) && Follows(q0, q) && Stack(t, q0, k, v, p, limit)
  }

  /** What the call does at the node itself. */
  method EndText(m: array<Byte>, po: nat, buflen: nat, depth: nat, pdepth: nat, from: nat, ghost b: seq<Byte>,
                 ghost t: Node, ghost sp: Path, ghost name: seq<Byte>, ghost i: nat, ghost v: seq<Byte>, ghost u: Node,
                 ghost q: Path)
    returns (err: int, ghost w: seq<Byte>)
    requires Buffered(b, m[..], t, sp, name, i, po, v) && 2 <= buflen <= |v|
    requires ValidPath(u, q) && depth == |q| && Stack(u, q, pdepth, v, from, buflen)
    modifies m
    ensures Buffered(b, m[..], t, sp, name, i, po, w) && |w| == |v| && w[buflen..] == v[buflen..]
    ensures Steady(old(m[..]), WithProp(t, sp, name, v), m[..], WithProp(t, sp, name, w))
    ensures err == if |PathText(u, q)| + 1 <= buflen then 0 else -FDT_ERR_NOSPACE
    ensures err == 0 ==> |PathText(u, q)| < |w| && w[..|PathText(u, q)| + 1] == PathText(u, q) + [0]
  {
    hide Buffered, NodeOff, Steady, WithProp, ValidPath, Front, At, Before, Patch, Joined, PathText;
    w := v;
    TextFits(u, q, buflen);
    FrontGrows(u, q, Min(pdepth + 1, |q| + 1), |q| + 1);
    if pdepth < depth + 1 {
      BufferSteady(b, m[..], t, sp, name, i, po, v);
      return -FDT_ERR_NOSPACE, w;
    }
    var p := from;
    TextEnds(u, q, v, p);
    if p > 1 {
      p := p - 1;
    }
    WriteBuffer(m, po, p, [0], b, t, sp, name, i, v);
    PatchEnd(v, p, [0], buflen);
    w := Patch(v, p, [0]);
    err := 0;
  }

  lemma BufferSteady(b: seq<Byte>, m: seq<Byte>, t: Node, sp: Path, name: seq<Byte>, i: nat, po: int, v: seq<Byte>)
    requires Buffered(b, m, t, sp, name, i, po, v)
    ensures Steady(m, WithProp(t, sp, name, v), m, WithProp(t, sp, name, v))
  {
    hide NodeOff, PropOff, Alike, Ordered, Struct, WithProp, First, Spells, Str, AtMark;
    PropOffIs(m, WithProp(t, sp, name, v), sp, i, po);
    KeptSelf(m);
    SteadySelf(m, WithProp(t, sp, name, v));
  }

  lemma Departs(t: Node, q: Path, k: nat, v: seq<Byte>, p: nat, limit: nat)
    requires Stack(t, q, k, v, p, limit) && ValidPath(t, q)
    ensures forall q' :: Follows(q, q') ==> Arriving(t, q, q', k, v, p, limit)
  {
    hide Stack, ValidPath;
  }

  lemma Starts(t: Node, v: seq<Byte>, limit: nat)
    ensures Arriving(t, [], [], 0, v, 0, limit)
  {
  }

  /** `fdt_get_path` with the `buflen` bytes at the front of a value of the same blob as buffer. */
  method GetPath(m: array<Byte>, nodeoffset: int, po: nat, buflen: nat, ghost t: Node, ghost sp: Path,
                 ghost name: seq<Byte>, ghost i: nat, ghost v0: seq<Byte>, ghost path: Path)
    returns (err: int, ghost v: seq<Byte>)
    requires Buffered(m[..], m[..], t, sp, name, i, po, v0) && buflen <= |v0|
    requires var u := WithProp(t, sp, name, v0);
             Slashless(u) && NodeOff(m[..], u, [], 0) && NodeOff(m[..], u, path, nodeoffset)
    modifies m
    ensures Buffered(old(m[..]), m[..], t, sp, name, i, po, v) && |v| == |v0| && v[buflen..] == v0[buflen..]
    ensures Steady(old(m[..]), WithProp(t, sp, name, v0), m[..], WithProp(t, sp, name, v))
    ensures err == if |PathText(WithProp(t, sp, name, v0), path)| + 1 <= buflen then 0 else -FDT_ERR_NOSPACE
    ensures err == 0 ==>
              var text := PathText(WithProp(t, sp, name, v0), path);
              v[..|text| + 1] == text + [0]
  {
    hide Buffered, NodeOff, Steady, WithProp, Slashless, ValidPath, Front, At, Before, Follows, Patch, Alike,
         SameShape, Joined, PathText, Stack, Arriving;
    ghost var b, u := m[..], WithProp(t, sp, name, v0);
    v := v0;
    StillHere(b, u, [], 0);
    TextFits(u, path, buflen);
    if buflen < 2 {
      return -FDT_ERR_NOSPACE, v;
    }
    var pdepth, p, offset, depth := 0, 0, 0, 0;
    ghost var q0: Path, q: Path := [], [];
    NodeOffPath(b, u, path, nodeoffset);
    BufferIs(b, b, t, sp, name, i, po, v0);
    RootSize(u);
    Starts(u, v, buflen);
    while true
      invariant Buffered(b, m[..], t, sp, name, i, po, v) && Steady(b, u, m[..], WithProp(t, sp, name, v))
      invariant |v| == |v0| && v[buflen..] == v0[buflen..]
      invariant NodeOff(m[..], WithProp(t, sp, name, v), q, offset) && depth == |q| && offset >= 0
      invariant ValidPath(u, q) && |Before(u, q)| <= |Before(u, path)|
      invariant Arriving(u, q0, q, pdepth, v, p, buflen)
      decreases |Before(u, path)| - |Before(u, q)|
    {
      ghost var b1, v1 := m[..], v;
      pdepth, p, v := VisitNode(m, po, buflen, offset, depth, pdepth, p, b, t, sp, name, i, v0, v, q0, q);
      ghost var a := WithProp(t, sp, name, v);
      SteadyTrans(b, u, b1, WithProp(t, sp, name, v1), m[..], a);
      SteadyNode(b1, WithProp(t, sp, name, v1), m[..], a, q, offset);
      SteadyNode(b, u, m[..], a, path, nodeoffset);
      SameNode(t, sp, name, v0, v, q);
      SameNode(t, sp, name, v0, v, path);
      OffsetOrder(m[..], a, q, offset, path, nodeoffset);
      if offset == nodeoffset {
        OnePath(u, q, path);
        ghost var b2, v2 := m[..], v;
        err, v := EndText(m, po, buflen, depth, pdepth, p, b, t, sp, name, i, v, u, q);
        SteadyTrans(b, u, b2, a, m[..], WithProp(t, sp, name, v));
        return;
      }
      Departs(u, q, pdepth, v, p, buflen);
      q0 := q;
      offset, depth, q := StepToward(m[..], offset, depth, a, q0, path);
      NodeOffPath(m[..], a, q, offset);
      SameNode(t, sp, name, v, v0, q);
    }
  }
}
