/** `overlay_symbol_update`: the symbols of an overlay, put into the `__symbols__` of the merged base. */
module SymbolUpdate {
  import opened Bytes
  import opened DeviceTree
  import opened Lexer
  import opened Blob
  import opened Walk
  import opened Traverse
  import opened Edit
  import opened Rewrite
  import opened ReadWrite
  import opened NodeEdit
  import opened TreeWalk
  import opened Merge
  import opened Overlay
  import opened Phandles
  import opened InPlace
  import opened RefBytes
  import opened AllNodes
  import opened Paths
  import opened Symbols
  import opened Fragments
  import opened Ancestors
  import opened NodePaths
  import Fixups

  // --------------------------------------------------------------- the text of a symbol

  /** "/__overlay__/" */
  const INFIX: seq<Byte> := [SLASH] + OVERLAY + [SLASH]

  /** A symbol of an overlay: a fragment, and a path below its `__overlay__` node. */
  datatype Symbol = Symbol(fragment: seq<Byte>, rel: seq<Byte>)

  /** The checks on a symbol's value, in order. */
  function ParseSymbol(v: seq<Byte>): Outcome<Symbol> {
    if |v| < 1 || NulAt(v, 0) != |v| - 1 || v[0] != SLASH then Err(-FDT_ERR_BADVALUE)
    else
      var s := 1 + Fixups.Find(v[1..], SLASH);
      if |v| - s < |INFIX| || v[s..s + |INFIX|] != INFIX then Err(-FDT_ERR_BADOVERLAY)
      else Ok(Symbol(v[1..s], Cut(v, s + |INFIX|, |v| - 1)))
  }

  /** How a symbol is written. */
  function Written(x: Symbol): seq<Byte> {
    [SLASH] + x.fragment + INFIX + x.rel + [0]
  }

  predicate Writable(x: Symbol) {
    NulFree(x.fragment) && SLASH !in x.fragment && NulFree(x.rel)
  }

  /** An accepted value is written that way. */
  lemma ParseSymbolSound(v: seq<Byte>)
    requires ParseSymbol(v).Ok?
    ensures v == Written(ParseSymbol(v).value) && Writable(ParseSymbol(v).value)
  {
    hide Fixups.Find, NulAt;
    var k := Fixups.Find(v[1..], SLASH);
    InfixEnds(v, 1 + k);
    FiveParts(v, k, |INFIX|);
  }

  lemma InfixEnds(v: seq<Byte>, s: nat)
    requires s + |INFIX| <= |v| && v[s..s + |INFIX|] == INFIX && v[|v| - 1] == 0
    ensures s + |INFIX| < |v|
  {
    assert INFIX[|INFIX| - 1] == SLASH;
    assert v[s..s + |INFIX|][|INFIX| - 1] == v[s + |INFIX| - 1];
  }

  lemma FiveParts(v: seq<Byte>, k: nat, n: nat)
    requires 1 + k + n < |v|
    ensures var s, e := 1 + k, |v| - 1;
            v == [v[0]] + v[1..s] + v[s..s + n] + v[s + n..e] + [v[e]] && v[1..s] == v[1..][..k] == v[0..e][1..s] &&
            v[s + n..e] == v[0..e][s + n..]
  {
  }

  /** What is returned otherwise: a value that is no path, or one that is no path into a fragment. */
  lemma ParseSymbolError(v: seq<Byte>)
    requires ParseSymbol(v).Err?
    ensures ParseSymbol(v).code ==
            if v != [] && v[0] == SLASH && v[|v| - 1] == 0 && NulFree(v[..|v| - 1]) then -FDT_ERR_BADOVERLAY
            else -FDT_ERR_BADVALUE
  {
    hide Fixups.Find;
    if v != [] {
      assert v[0..|v| - 1] == v[..|v| - 1];
      if v[|v| - 1] == 0 && NulFree(v[..|v| - 1]) { NulAtIs(v, 0, |v| - 1); }
    }
  }

  /** And every value written that way is accepted with its parts. */
  lemma ParseSymbolComplete(x: Symbol)
    requires Writable(x)
    ensures ParseSymbol(Written(x)) == Ok(x)
  {
    hide Fixups.Find, NulAt;
    var v := Written(x);
    WrittenParts([SLASH], x.fragment, INFIX, x.rel, [0]);
    assert NulFree([SLASH] + x.fragment + INFIX + x.rel) by { assert 0 !in INFIX; }
    NulAtIs(v, 0, |v| - 1);
    FindName(x.fragment, INFIX + (x.rel + [0]));
  }

  lemma WrittenParts(a: seq<Byte>, f: seq<Byte>, i: seq<Byte>, r: seq<Byte>, z: seq<Byte>)
    requires |a| == 1 && |z| == 1
    ensures var v, n := a + f + i + r + z, 1 + |f|;
            v[1..] == f + (i + (r + z)) && v[1..n] == f && v[n..n + |i|] == i && v[n + |i|..|v| - 1] == r &&
            v[0..|v| - 1] == a + f + i + r && v[|v| - 1] == z[0]
  {
  }

  /** The value that goes into the base: target, slash, the path below it with its NUL, and one more NUL. */
  function NewValue(text: seq<Byte>, rel: seq<Byte>): seq<Byte> {
    text + [SLASH] + (rel + [0]) + [0]
  }

  /** No value that is put into the base would pass the checks that its original has passed. */
  lemma NewValueRefused(text: seq<Byte>, rel: seq<Byte>)
    ensures ParseSymbol(NewValue(text, rel)) == Err(-FDT_ERR_BADVALUE)
  {
    var v := NewValue(text, rel);
    assert v[|v| - 2] == 0;
    NulBefore(v, 0, |v| - 2);
  }

  lemma {:induction false} NulBefore(s: seq<Byte>, i: nat, k: nat)
    requires i <= k < |s| && s[k] == 0
    ensures NulAt(s, i) <= k
    decreases k - i
  {
    if s[i] != 0 { NulBefore(s, i + 1, k); }
  }

  // ------------------------------------------------------------------ what it becomes

  /** The path of a fragment's target, as it goes in front; nothing for the root. */
  function TargetText(t: Node, f: Node, path: Path): Outcome<seq<Byte>> {
    match PathGiven(f)
    case Some(s) => Ok(if |CString(s)| > 1 then CString(s) else [])
    case None =>
      match PathLen(t, path)
      case Err(c) => Err(c)
      case Ok(n) =>
        if n <= 1 then Ok([])
        else if |PathText(t, path)| > n then Err(-FDT_ERR_NOSPACE)
        else Ok(PathText(t, path))
  }

  /** There is a text for every given path, for a node without a name, and where the root alone has none. */
  lemma TextExact(t: Node, f: Node, path: Path)
    requires ValidPath(t, path)
    ensures TargetText(t, f, path).Ok? <==>
            PathGiven(f).Some? || At(t, path).name == [] || (t.name == [] && NamedBelow(t, path))
  {
    hide At, PathGiven, Joined, CString, LenUp, ValidPath;
    LenUpExact(t, path);
    RootSize(t);
    assert path[..0] == [];
    if LenUp(t, path).Ok? { PathLenExact(t, path); }
  }

  /** The fragment that a symbol names, if it has an `__overlay__` node. */
  function FragmentOf(o: Node, x: Symbol): Option<Node> {
    var i := MatchKid(o.kids, x.fragment);
    if i < |o.kids| && MatchKid(o.kids[i].kids, OVERLAY) < |o.kids[i].kids| then Some(o.kids[i]) else None
  }

  /** The fragment's target is the node of the base at `path`, and that makes the value `w`. */
  ghost predicate Becomes(t: Node, f: Node, rel: seq<Byte>, path: Path, w: seq<Byte>) {
    ValidPath(t, path) && TargetOf(t, f, path) && TargetText(t, f, path).Ok? &&
    w == NewValue(TargetText(t, f, path).value, rel)
  }

  /** Value `v` of a symbol of overlay `o` becomes `w` in base `t`. */
  ghost predicate NewSymbol(t: Node, o: Node, v: seq<Byte>, w: seq<Byte>) {
    ParseSymbol(v).Ok? &&
    var x := ParseSymbol(v).value;
    FragmentOf(o, x).Some? && exists path :: Becomes(t, FragmentOf(o, x).value, x.rel, path, w)
  }

  // ------------------------------------------------------------ where the symbol leads

  lemma CStringOf(s: seq<Byte>, rest: seq<Byte>)
    requires NulFree(s)
    ensures CString(s + [0] + rest) == s
  {
    hide NulAt;
    var v := s + [0] + rest;
    assert v[0..|s|] == s && v[|s|] == 0;
    NulAtIs(v, 0, |s|);
  }

  lemma CStringClean(v: seq<Byte>)
    ensures NulFree(CString(v))
  {
    assert v[..NulAt(v, 0)] == v[0..NulAt(v, 0)];
  }

  /**
   In the base the symbol leads from the fragment's target along the path below it: always for a target that is
   named by a path, and for one that is named by its phandle if names select the nodes on the way to it.
   */
  lemma SymbolLeads(t: Node, f: Node, rel: seq<Byte>, path: Path, w: seq<Byte>)
    requires Becomes(t, f, rel, path, w) && PathEnds(f) && NulFree(rel)
    requires PathGiven(f).None? ==>
               Slashless(t) && NulFree(Joined(t, path)) && FirstMatches(t, path) && NamedBelow(t, path)
    ensures Resolve(t, CString(w)) == Continue(t, path, [SLASH] + rel)
  {
    hide At, Lookup, TargetWord, Resolve, Joined, MatchKid, Slashless, NulAt, FirstWith, FirstMatches, NamedBelow,
         ValidPath, PathText;
    var text := TargetText(t, f, path).value;
    TextLeads(t, f, path);
    var s := text + [SLASH] + rel;
    assert w == s + [0] + [0];
    assert NulFree(s);
    CStringOf(s, [0]);
    if text == [] {
      assert s == [SLASH] + rel;
      ContinueStart(t, s);
    } else {
      assert s == text + ([SLASH] + rel);
      ResolveAppend(t, text, [SLASH] + rel);
    }
  }

  /** The text in front leads to the target, or is left out and the target is the root. */
  lemma TextLeads(t: Node, f: Node, path: Path)
    requires ValidPath(t, path) && TargetOf(t, f, path) && TargetText(t, f, path).Ok? && PathEnds(f)
    requires PathGiven(f).None? ==>
               Slashless(t) && NulFree(Joined(t, path)) && FirstMatches(t, path) && NamedBelow(t, path)
    ensures var text := TargetText(t, f, path).value;
            NulFree(text) && if text == [] then path == [] else Resolve(t, text) == Some(path)
  {
    hide At, Lookup, TargetWord, Resolve, Joined, MatchKid, Slashless, NulAt, FirstWith, FirstMatches, ValidPath,
         LenUp, CString;
    if PathGiven(f).Some? {
      var s := CString(PathGiven(f).value);
      CStringClean(PathGiven(f).value);
      if |s| <= 1 {
        assert s == [SLASH];
        FirstNone(t);
      }
    } else {
      PathLenExact(t, path);
      PathLenUp(t, path);
      if TargetText(t, f, path).value != [] {
        TextFits(t, path, LenUp(t, path).value + 1);
        PathRoundTrip(t, path);
      }
    }
  }

  lemma PathLenUp(t: Node, path: Path)
    requires LenUp(t, path).Ok? && NamedBelow(t, path)
    ensures LenUp(t, path).value != 1 && (LenUp(t, path).value == 0 ==> path == [])
  {
    hide At;
    if path != [] {
      assert path[..|path|] == path;
    }
  }

  // ---------------------------------------------------------- what an update leaves alone

  /** Same nodes, names and phandles. */
  ghost predicate Unmoved(a: Node, c: Node) {
    SameShape(a, c) && forall q :: ValidPath(a, q) ==> PhandleOf(At(c, q)) == PhandleOf(At(a, q))
  }

  lemma UnmovedSelf(a: Node)
    ensures Unmoved(a, a)
  {
    SameShapeSelf(a);
  }

  lemma UnmovedTrans(a: Node, b: Node, c: Node)
    requires Unmoved(a, b) && Unmoved(b, c)
    ensures Unmoved(a, c)
  {
    hide SameShape, At, PhandleOf;
    SameShapeTrans(a, b, c);
    forall q | ValidPath(a, q) ensures PhandleOf(At(c, q)) == PhandleOf(At(a, q)) {
      ShapePath(a, b, q);
    }
  }

  lemma PhandleProps(a: Node, c: Node)
    requires Lookup(a, PHANDLE) == Lookup(c, PHANDLE) && Lookup(a, LINUX_PHANDLE) == Lookup(c, LINUX_PHANDLE)
    ensures PhandleOf(a) == PhandleOf(c)
  {
    hide Lookup;
  }

  lemma SameProps(a: Node, c: Node)
    requires a.props == c.props
    ensures PhandleOf(a) == PhandleOf(c)
  {
    assert forall x :: Lookup(a, x) == Lookup(c, x);
    PhandleProps(a, c);
  }

  /** A property that is no phandle. */
  lemma SetUnmoved(t: Node, p: Path, name: seq<Byte>, v: seq<Byte>)
    requires ValidPath(t, p) && name != PHANDLE && name != LINUX_PHANDLE
    ensures Unmoved(t, WithProp(t, p, name, v))
  {
    hide SameShape, At, PhandleOf, Lookup, SetProp, Put, ValidPath;
    var n := At(t, p);
    var n' := SetProp(n, name, v);
    SetPropKids(n, name, v);
    SameKids(n, n');
    PutShape(t, p, n');
    forall q | ValidPath(t, q) ensures PhandleOf(At(Put(t, p, n'), q)) == PhandleOf(At(t, q)) {
      PropsElsewhere(t, p, n', q);
      if q == p {
        SetPropLookup(n, name, v, PHANDLE);
        SetPropLookup(n, name, v, LINUX_PHANDLE);
        SameProps(At(Put(t, p, n'), q), n');
        PhandleProps(n, n');
      } else {
        SameProps(At(Put(t, p, n'), q), At(t, q));
      }
    }
  }

  lemma FirstWithStays(t: Node, t': Node, phandle: nat, path: Path)
    requires Unmoved(t, t') && FirstWith(t, phandle, path)
    ensures FirstWith(t', phandle, path)
  {
    hide SameShape, At, PhandleOf, Before, ValidPath;
    ShapePath(t, t', path);
    forall q | ValidPath(t', q) && PhandleOf(At(t', q)) == phandle ensures |Before(t', path)| <= |Before(t', q)| {
      ShapeBack(t, t', q);
      BeforeOrder(t, path, q);
      BeforeOrder(t', path, q);
    }
  }

  lemma ShapeBack(t: Node, t': Node, q: Path)
    requires SameShape(t, t') && ValidPath(t', q)
    ensures ValidPath(t, q)
  {
    ShapeSym(t, t');
    ShapePath(t', t, q);
  }

  lemma {:induction false} ShapeSym(a: Node, c: Node)
    requires SameShape(a, c)
    ensures SameShape(c, a)
  {
    forall i | 0 <= i < |a.kids| ensures SameShape(c.kids[i], a.kids[i]) {
      ShapeSym(a.kids[i], c.kids[i]);
    }
  }

  lemma UnmovedSym(t: Node, t': Node)
    requires Unmoved(t, t')
    ensures Unmoved(t', t)
  {
    hide SameShape, At, PhandleOf, ValidPath;
    ShapeSym(t, t');
    forall q | ValidPath(t', q) ensures PhandleOf(At(t, q)) == PhandleOf(At(t', q)) {
      ShapePath(t', t, q);
    }
  }

  /** Fragments have the same targets. */
  lemma TargetStays(t: Node, t': Node, f: Node, path: Path)
    requires Unmoved(t, t') && TargetOf(t, f, path)
    ensures TargetOf(t', f, path)
  {
    hide SameShape, At, PhandleOf, ValidPath, Resolve, Lookup, TargetWord, FirstWith, CString;
    if TargetWord(f) == 0 {
      ResolveShape(t, t', CString(Lookup(f, TARGET_PATH).value));
    } else {
      FirstWithStays(t, t', TargetWord(f), path);
    }
  }

  lemma {:induction false} JoinedShape(a: Node, c: Node, path: Path)
    requires SameShape(a, c)
    ensures Joined(a, path) == Joined(c, path)
    decreases path
  {
    if path != [] && path[0] < |a.kids| {
      JoinedShape(a.kids[path[0]], c.kids[path[0]], path[1..]);
    }
  }

  lemma {:induction false} LenShape(a: Node, c: Node, path: Path)
    requires SameShape(a, c) && ValidPath(a, path)
    ensures LenUp(a, path) == LenUp(c, path)
    decreases |path|
  {
    hide At, SameShape;
    ShapeName(a, c, path);
    if path != [] {
      UpAt(a, path);
      LenShape(a, c, path[..|path| - 1]);
    }
  }

  lemma BecomesStays(t: Node, t': Node, f: Node, rel: seq<Byte>, path: Path, w: seq<Byte>)
    requires Unmoved(t, t') && Becomes(t, f, rel, path, w)
    ensures Becomes(t', f, rel, path, w)
  {
    hide SameShape, At, PhandleOf, ValidPath, TargetOf, Joined, LenUp, PathGiven, CString, NewValue;
    ShapePath(t, t', path);
    TargetStays(t, t', f, path);
    JoinedShape(t, t', path);
    LenShape(t, t', path);
  }

  /** What a symbol becomes does not depend on the symbols that were put in before. */
  lemma NewSymbolStays(t: Node, t': Node, o: Node, v: seq<Byte>, w: seq<Byte>)
    requires Unmoved(t, t')
    ensures NewSymbol(t, o, v, w) <==> NewSymbol(t', o, v, w)
  {
    hide Unmoved, Becomes, ParseSymbol;
    UnmovedSym(t, t');
    if NewSymbol(t, o, v, w) {
      var x := ParseSymbol(v).value;
      var path :| Becomes(t, FragmentOf(o, x).value, x.rel, path, w);
      BecomesStays(t, t', FragmentOf(o, x).value, x.rel, path, w);
    }
    if NewSymbol(t', o, v, w) {
      var x := ParseSymbol(v).value;
      var path :| Becomes(t', FragmentOf(o, x).value, x.rel, path, w);
      BecomesStays(t', t, FragmentOf(o, x).value, x.rel, path, w);
    }
  }

  lemma {:induction false} SlashlessShape(a: Node, c: Node)
    requires SameShape(a, c) && Slashless(a)
    ensures Slashless(c)
  {
    forall k | k in c.kids ensures Slashless(k) {
      var i :| 0 <= i < |c.kids| && c.kids[i] == k;
      assert a.kids[i] in a.kids;
      SlashlessShape(a.kids[i], k);
    }
  }

  // -------------------------------------------------------------------- one symbol

  /** The text in front is computed from what an update leaves alone. */
  lemma TextStays(t: Node, t': Node, f: Node, path: Path)
    requires Unmoved(t, t') && ValidPath(t, path)
    ensures TargetText(t', f, path) == TargetText(t, f, path)
  {
    hide SameShape, At, PhandleOf, ValidPath, Joined, LenUp, PathGiven, CString;
    JoinedShape(t, t', path);
    LenShape(t, t', path);
  }

  /** The length of the text in front before the slash of a path that is all there is was taken off. */
  function TextLen(t: Node, f: Node, path: Path): Outcome<nat> {
    match PathGiven(f)
    case Some(s) => Ok(|CString(s)|)
    case None => PathLen(t, path)
  }

  /** What the lookups for a symbol with value `v` give, in base `t` and overlay `o`. */
  ghost predicate LookedUp(t: Node, o: Node, v: seq<Byte>, f: Node, rel: seq<Byte>, path: Path, len: int) {
    ParseSymbol(v).Ok? && ParseSymbol(v).value.rel == rel && FragmentOf(o, ParseSymbol(v).value) == Some(f) &&
    ValidPath(t, path) && TargetOf(t, f, path) && TextLen(t, f, path) == Ok(len) && len >= 1
  }

  lemma LookedUpBecomes(t: Node, o: Node, v: seq<Byte>, f: Node, rel: seq<Byte>, path: Path, len: int)
    requires LookedUp(t, o, v, f, rel, path, len)
    ensures TargetText(t, f, path).Ok? ==> NewSymbol(t, o, v, NewValue(TargetText(t, f, path).value, rel))
    ensures TargetText(t, f, path).Err? ==> forall w :: !NewSymbol(t, o, v, w)
  {
    hide ParseSymbol, TargetOf, TargetText, FragmentOf, NewValue, TextLen, ValidPath;
    if TargetText(t, f, path).Ok? {
      assert Becomes(t, f, rel, path, NewValue(TargetText(t, f, path).value, rel));
    }
    forall w, q | Becomes(t, f, rel, q, w) ensures q == path {
      OneTarget(t, f, path, q);
    }
  }

  /** A symbol becomes one value. */
  lemma NewSymbolUnique(t: Node, o: Node, v: seq<Byte>, a: seq<Byte>, c: seq<Byte>)
    requires NewSymbol(t, o, v, a) && NewSymbol(t, o, v, c)
    ensures a == c
  {
    hide ParseSymbol, TargetOf, TargetText, FragmentOf, NewValue, ValidPath;
    var x := ParseSymbol(v).value;
    var f := FragmentOf(o, x).value;
    var p :| Becomes(t, f, x.rel, p, a);
    var q :| Becomes(t, f, x.rel, q, c);
    OneTarget(t, f, p, q);
  }

  /** The symbol names a target whose path can be given. */
  ghost predicate NamesTarget(t: Node, o: Node, x: Symbol, path: Path) {
    Writable(x) && FragmentOf(o, x).Some? && ValidPath(t, path) && TargetOf(t, FragmentOf(o, x).value, path) &&
    (PathGiven(FragmentOf(o, x).value).Some? || At(t, path).name == [] || (t.name == [] && NamedBelow(t, path)))
  }

  /** Exactly the values that are written as symbols that name a target become something. */
  lemma NewSymbolExact(t: Node, o: Node, v: seq<Byte>)
    ensures (exists w :: NewSymbol(t, o, v, w)) <==> exists x, path :: v == Written(x) && NamesTarget(t, o, x, path)
  {
    hide ParseSymbol, TargetOf, TargetText, FragmentOf, NewValue, ValidPath, Written, Writable, PathGiven, At;
    if w :| NewSymbol(t, o, v, w) {
      var x := ParseSymbol(v).value;
      var f := FragmentOf(o, x).value;
      var path :| Becomes(t, f, x.rel, path, w);
      ParseSymbolSound(v);
      TextExact(t, f, path);
      assert v == Written(x) && NamesTarget(t, o, x, path);
    }
    if x, path :| v == Written(x) && NamesTarget(t, o, x, path) {
      var f := FragmentOf(o, x).value;
      ParseSymbolComplete(x);
      TextExact(t, f, path);
      assert Becomes(t, f, x.rel, path, NewValue(TargetText(t, f, path).value, x.rel));
      assert NewSymbol(t, o, v, NewValue(TargetText(t, f, path).value, x.rel));
    }
  }

  /** The length of the text is the one that was computed, but for the slash of the root. */
  lemma TextLenIs(t: Node, f: Node, path: Path, len: nat)
    requires ValidPath(t, path) && TextLen(t, f, path) == Ok(len) && TargetText(t, f, path).Ok?
    ensures |TargetText(t, f, path).value| == if len > 1 then len else 0
  {
    hide PathGiven, PathLen, PathText, CString, ValidPath;
    if PathGiven(f).None? && len > 1 { GivenText(t, f, path, len); }
  }

  /** The error when the lookups find nothing. */
  function LookupError(o: Node, v: seq<Byte>): int {
    match ParseSymbol(v)
    case Err(c) => c
    case Ok(x) =>
      match FragmentOf(o, x)
      case None => -FDT_ERR_BADOVERLAY
      case Some(f) => TargetError(f)
  }

  lemma LookupErrors(o: Node, v: seq<Byte>)
    ensures LookupError(o, v) < 0 && (ParseSymbol(v).Err? ==> ParseSymbol(v).code == LookupError(o, v))
    ensures ParseSymbol(v).Ok? && FragmentOf(o, ParseSymbol(v).value).None? ==> LookupError(o, v) == -FDT_ERR_BADOVERLAY
  {
    hide FragmentOf, NulAt, Fixups.Find, TargetWord, Lookup;
  }

  /** The fragment that a symbol names, and whether it has an `__overlay__` node. */
  method FindFragment(ob: seq<Byte>, x: Symbol, ghost o: Node) returns (frag: int, ghost i: nat)
    requires NodeOff(ob, o, [], 0)
    ensures frag >= 0 ==> i < |o.kids| && FragmentOf(o, x) == Some(o.kids[i]) && NodeOff(ob, o, [] + [i], frag)
    ensures frag < 0 ==> frag == -FDT_ERR_BADOVERLAY && FragmentOf(o, x).None?
  {
    hide NodeOff, At, MatchKid, Inside;
    RootKid(o, 0);
    i := MatchKid(o.kids, x.fragment);
    frag := FindKidOf(ob, 0, x.fragment, o, []);
    if frag < 0 {
      KidNegative(ob, o, [], i, frag);
      return -FDT_ERR_BADOVERLAY, i;
    }
    RootKid(o, i);
    var overlay := FindKidOf(ob, frag, OVERLAY, o, [] + [i]);
    if overlay < 0 {
      KidNegative(ob, o, [] + [i], MatchKid(o.kids[i].kids, OVERLAY), overlay);
      return -FDT_ERR_BADOVERLAY, i;
    }
  }

  /** From the value of a symbol to its target in the base. */
  method LookUpSymbol(b: seq<Byte>, ob: seq<Byte>, v: seq<Byte>, ghost t: Node, ghost o: Node)
    returns (err: int, frag: int, target: int, rel: seq<Byte>, s: Option<seq<Byte>>, len: int, ghost i: nat,
             ghost path: Path)
    requires NodeOff(b, t, [], 0) && NodeOff(ob, o, [], 0) && (forall f :: f in o.kids ==> PathEnds(f))
    ensures err == 0 ==>
              i < |o.kids| && LookedUp(t, o, v, o.kids[i], rel, path, len) && s == PathGiven(o.kids[i]) &&
              NodeOff(ob, o, [] + [i], frag) && NodeOff(b, t, path, target)
    ensures err != 0 ==> err < 0 && forall w :: !NewSymbol(t, o, v, w)
    ensures err != 0 ==> err == LookupError(o, v) || err == -FDT_ERR_NOTFOUND
  {
    hide NodeOff, At, MatchKid, TargetOf, PathEnds, ParseSymbol, FragmentOf, PathLen, CString, PathGiven,
         LookupError, ValidPath, TargetText;
    frag, target, rel, s, len, i, path := 0, 0, [], None, 0, 0, [];
    LookupErrors(o, v);
    var x := ParseSymbol(v);
    if x.Err? {
      return x.code, frag, target, rel, s, len, i, path;
    }
    rel := x.value.rel;
    frag, i := FindFragment(ob, x.value, o);
    if frag < 0 {
      return frag, frag, target, rel, s, len, i, path;
    }
    RootKid(o, i);
    ghost var f := o.kids[i];
    assert f in o.kids;
    target, s, path := GetTarget(b, ob, frag, t, o, [] + [i]);
    if target < 0 {
      NoTarget(t, o, v, f);
      return target, frag, target, rel, s, len, i, path;
    }
    NodeOffPath(b, t, path, target);
    if s.None? {
      len := PathLenOf(b, target, t, path);
      if len < 0 {
        NoText(t, o, v, f, path);
        PathLenError(t, path);
        return len, frag, target, rel, s, len, i, path;
      }
    } else {
      len := |CString(s.value)|;
      PathGivenSome(t, f);
    }
    err := 0;
  }

  lemma PathLenError(t: Node, path: Path)
    requires PathLen(t, path).Err?
    ensures PathLen(t, path).code == -FDT_ERR_NOTFOUND
  {
    LenUpError(t, path);
  }

  lemma PathGivenSome(t: Node, f: Node)
    requires PathEnds(f) && PathGiven(f).Some?
    ensures |CString(PathGiven(f).value)| >= 1
  {
    hide Lookup, TargetWord, NulAt;
  }

  lemma NoTarget(t: Node, o: Node, v: seq<Byte>, f: Node)
    requires ParseSymbol(v).Ok? && FragmentOf(o, ParseSymbol(v).value) == Some(f) && forall q :: !TargetOf(t, f, q)
    ensures LookupError(o, v) == TargetError(f) && forall w :: !NewSymbol(t, o, v, w)
  {
    hide ParseSymbol, FragmentOf, TargetOf;
  }

  lemma NoText(t: Node, o: Node, v: seq<Byte>, f: Node, path: Path)
    requires ParseSymbol(v).Ok? && FragmentOf(o, ParseSymbol(v).value) == Some(f) && ValidPath(t, path)
    requires TargetOf(t, f, path) && PathGiven(f).None? && PathLen(t, path).Err?
    ensures forall w :: !NewSymbol(t, o, v, w)
  {
    hide ParseSymbol, FragmentOf, TargetOf, PathGiven, PathLen, NewValue;
    forall w, q | Becomes(t, f, ParseSymbol(v).value.rel, q, w) ensures q == path {
      OneTarget(t, f, path, q);
    }
  }

  lemma PatchOn(v: seq<Byte>, p: nat, x: seq<Byte>, text: seq<Byte>)
    requires p + |x| <= |v| && v[..p] == text
    ensures |Patch(v, p, x)| == |v| && Patch(v, p, x)[..p + |x|] == text + x
  {
    PatchEnd(v, p, x, |v|);
  }

  /** Slash, path below the target, NUL, and one more NUL, behind the text in front. */
  method WriteRest(m: array<Byte>, po: nat, len: nat, rel: seq<Byte>, ghost b: seq<Byte>, ghost t: Node,
                   ghost sp: Path, ghost name: seq<Byte>, ghost i: nat, ghost v: seq<Byte>, ghost text: seq<Byte>)
    requires Buffered(b, m[..], t, sp, name, i, po, v) && |v| == len + 1 + (|rel| + 1) + 1 && v[..len] == text
    modifies m
    ensures Buffered(b, m[..], t, sp, name, i, po, NewValue(text, rel))
  {
    hide Buffered, Patch, Steady, WithProp;
    WriteBuffer(m, po, len, [SLASH], b, t, sp, name, i, v);
    PatchOn(v, len, [SLASH], text);
    ghost var v1 := Patch(v, len, [SLASH]);
    WriteBuffer(m, po, len + 1, rel + [0], b, t, sp, name, i, v1);
    PatchOn(v1, len + 1, rel + [0], text + [SLASH]);
    ghost var v2 := Patch(v1, len + 1, rel + [0]);
    WriteBuffer(m, po, len + 1 + (|rel| + 1), [0], b, t, sp, name, i, v2);
    PatchOn(v2, len + 1 + (|rel| + 1), [0], text + [SLASH] + (rel + [0]));
    ghost var v3 := Patch(v2, len + 1 + (|rel| + 1), [0]);
    assert v3 == v3[..|v|] == NewValue(text, rel);
  }

  /** What goes in front of the slash, written into the buffer: nothing, the given path, or that of the target. */
  method WriteTarget(m: array<Byte>, ob: seq<Byte>, frag: int, po: nat, s: Option<seq<Byte>>, len: nat,
                     ghost t: Node, ghost sp: Path, ghost name: seq<Byte>, ghost i: nat, ghost v0: seq<Byte>,
                     ghost o: Node, ghost fpath: Path, ghost path: Path)
    returns (err: int, ghost v: seq<Byte>)
    requires Buffered(m[..], m[..], t, sp, name, i, po, v0) && len + 1 <= |v0| && len >= 1
    requires var u, f := WithProp(t, sp, name, v0), At(o, fpath);
             Slashless(u) && NodeOff(m[..], u, [], 0) && ValidPath(u, path) && TargetOf(u, f, path) &&
             TextLen(u, f, path) == Ok(len) && s == PathGiven(f) && NodeOff(ob, o, fpath, frag) && PathEnds(f)
    modifies m
    ensures |v| == |v0| && Buffered(old(m[..]), m[..], t, sp, name, i, po, v)
    ensures match TargetText(WithProp(t, sp, name, v0), At(o, fpath), path)
            case Ok(text) => err == 0 && |text| == (if len > 1 then len else 0) && v[..|text|] == text
            case Err(c) => err == c && c < 0
  {
    hide Buffered, NodeOff, At, TargetOf, PathEnds, Steady, WithProp, Slashless, ValidPath, PathGiven, PathLen,
         PathText, Patch, CString;
    ghost var u, f := WithProp(t, sp, name, v0), At(o, fpath);
    err, v := 0, v0;
    var target, s2 := 0, s;
    ghost var p2;
    if s.None? {
      target, s2, p2 := GetTarget(m[..], ob, frag, u, o, fpath);
      if target < 0 { return target, v; }
      NodeOffPath(m[..], u, p2, target);
      OneTarget(u, f, path, p2);
    }
    if len > 1 {
      if s2.None? {
        GivenText(u, f, path, len);
        err, v := GetPath(m, target, po, len + 1, t, sp, name, i, v0, path);
        ghost var text := PathText(u, path);
        if err == 0 { assert v[..len] == v[..len + 1][..len] == text; }
      } else {
        GivenEnd(s.value, f);
        WriteBuffer(m, po, 0, s.value[..len + 1], m[..], t, sp, name, i, v0);
        PatchOn(v0, 0, s.value[..len + 1], []);
        v := Patch(v0, 0, s.value[..len + 1]);
        assert v[..len] == v[..len + 1][..len];
      }
    }
  }

  /** A computed length of more than one is at most that of the text, and is it when the text is used. */
  lemma GivenText(t: Node, f: Node, path: Path, len: nat)
    requires ValidPath(t, path) && PathGiven(f).None? && PathLen(t, path) == Ok(len) && len > 1
    ensures |PathText(t, path)| >= len
    ensures TargetText(t, f, path) == if |PathText(t, path)| > len then
              Err(-FDT_ERR_NOSPACE) else Ok(PathText(t, path))
  {
    hide PathGiven, LenUp, Joined;
    PathLenExact(t, path);
  }

  lemma GivenEnd(s: seq<Byte>, f: Node)
    requires PathGiven(f) == Some(s) && PathEnds(f)
    ensures |CString(s)| < |s| && s[..|CString(s)| + 1][..|CString(s)|] == CString(s)
  {
    hide Lookup, TargetWord;
    assert 0 in s;
    var k :| 0 <= k < |s| && s[k] == 0;
    NulBefore(s, 0, k);
  }

  /** After room was made: the bytes of the value, or an error that leaves some other value of that length. */
  method FillSymbol(m: array<Byte>, ob: seq<Byte>, frag: int, node: int, po: nat, rel: seq<Byte>, s: Option<seq<Byte>>,
                    len: nat, ghost b: seq<Byte>, ghost t: Node, ghost sp: Path, ghost name: seq<Byte>, ghost i: nat,
                    ghost v0: seq<Byte>, ghost o: Node, ghost fpath: Path, ghost path: Path)
    returns (err: int, ghost w: seq<Byte>)
    requires Edited(b, m[..], WithProp(t, sp, name, v0), sp, node) && Inside(b, node) <= po
    requires Buffered(m[..], m[..], t, sp, name, i, po, v0) && len >= 1 &&
             |v0| == len + (if len > 1 then 1 else 0) + (|rel| + 1) + 1
    requires var u, f := WithProp(t, sp, name, v0), At(o, fpath);
             Slashless(u) && NodeOff(m[..], u, [], 0) && ValidPath(u, path) && TargetOf(u, f, path) &&
             TextLen(u, f, path) == Ok(len) && s == PathGiven(f) && NodeOff(ob, o, fpath, frag) && PathEnds(f)
    modifies m
    ensures Edited(b, m[..], WithProp(t, sp, name, w), sp, node)
    ensures match TargetText(WithProp(t, sp, name, v0), At(o, fpath), path)
            case Ok(text) => err == 0 && w == NewValue(text, rel)
            case Err(c) => err == c && c < 0
    ensures DataSize(m[..]) == old(DataSize(m[..]))
  {
    hide Buffered, NodeOff, At, TargetOf, PathEnds, WithProp, Slashless, ValidPath, PathGiven, TargetText, TextLen,
         Edited, NewValue, Inside;
    ghost var b1, u := m[..], WithProp(t, sp, name, v0);
    err, w := WriteTarget(m, ob, frag, po, s, len, t, sp, name, i, v0, o, fpath, path);
    if err == 0 {
      ghost var text := TargetText(u, At(o, fpath), path).value;
      WriteRest(m, po, if len > 1 then len else len - 1, rel, b1, t, sp, name, i, w, text);
      w := NewValue(text, rel);
    }
    BufferEdited(b, b1, m[..], t, sp, name, node, i, po, v0, w);
    BufferSize(b1, m[..], t, sp, name, i, po, w);
  }

  lemma BufferEdited(b: seq<Byte>, b1: seq<Byte>, b2: seq<Byte>, t: Node, sp: Path, name: seq<Byte>, node: int, i: nat,
                     po: nat, v: seq<Byte>, w: seq<Byte>)
    requires Edited(b, b1, WithProp(t, sp, name, v), sp, node) && Inside(b, node) <= po
    requires Buffered(b1, b2, t, sp, name, i, po, w)
    ensures Edited(b, b2, WithProp(t, sp, name, w), sp, node)
  {
    hide Edited, PropOff, Put, SetProp, At, ValidPath, Kept, SameUpTo, Inside;
    ValueEdited(b, t, sp, node, b1, i, po, name, v, w, b2);
  }

  /** The placeholder as a buffer. */
  method MakeRoom(m: array<Byte>, node: int, name: seq<Byte>, len: nat, ghost t: Node, ghost sp: Path)
    returns (err: int, po: int, ghost i: nat, ghost v: seq<Byte>)
    requires NodeOff(m[..], t, sp, node) && NulFree(name)
    modifies m
    ensures err == 0 ==>
              Edited(old(m[..]), m[..], WithProp(t, sp, name, v), sp, node) && |v| == len && po >= 0 &&
              Inside(old(m[..]), node) <= po && Buffered(m[..], m[..], t, sp, name, i, po, v)
    ensures err != 0 ==> err == -FDT_ERR_NOSPACE && Edited(old(m[..]), m[..], t, sp, node)
    ensures Paid(old(m[..]), m[..], err == 0, 12 + Align4(len) + |name| + 1)
  {
    hide NodeOff, At, Edited, Inside, Accepts, Live, SetGrowth, Align4, Total, DataSize, PropOff, SetProp,
         MatchProp, Put, Kept, SameUpTo, ValidPath;
    ghost var b := m[..];
    LiveOf(b, t, sp, node);
    NodeOffPath(b, t, sp, node);
    RoomBound(b, At(t, sp), name, len);
    err, po, i, v := SetPropPlaceholder(m, node, name, len, t, sp);
    if err == 0 {
      BufferStart(m[..], WithProp(t, sp, name, v), sp, i, po);
    }
  }

  lemma RoomBound(b: seq<Byte>, n: Node, name: seq<Byte>, len: nat)
    ensures SetGrowth(b, n, name, len) <= 12 + Align4(len) + |name| + 1
  {
    hide MatchProp, Occurs, Strings;
  }

  lemma BufferStart(b: seq<Byte>, u: Node, sp: Path, i: nat, po: int)
    requires PropOff(b, u, sp, i, po)
    ensures SameUpTo(b, b, po) && Kept(b, b) && po >= 0
  {
    hide PropOff, At, Struct, Ordered, First, Spells, Str, AtMark;
    PropOffIs(b, u, sp, i, po);
    KeptSelf(b);
    SameUpToSelf(b, po);
  }

  /** What was looked up is still so with room for the value. */
  lemma RoomStays(t: Node, u: Node, f: Node, path: Path)
    requires Unmoved(t, u) && ValidPath(t, path) && TargetOf(t, f, path) && Slashless(t)
    ensures ValidPath(u, path) && TargetOf(u, f, path) && Slashless(u) && TextLen(u, f, path) == TextLen(t, f, path) &&
            TargetText(u, f, path) == TargetText(t, f, path)
  {
    hide SameShape, At, PhandleOf, ValidPath, Slashless, TargetOf, PathGiven, TargetText, LenUp;
    ShapePath(t, u, path);
    TargetStays(t, u, f, path);
    SlashlessShape(t, u);
    TextStays(t, u, f, path);
    LenShape(t, u, path);
  }

  /** Room for the value, and the value. */
  method PlaceSymbol(m: array<Byte>, ob: seq<Byte>, node: int, name: seq<Byte>, frag: int, rel: seq<Byte>,
                     s: Option<seq<Byte>>, len: nat, ghost t: Node, ghost sp: Path, ghost o: Node, ghost fpath: Path,
                     ghost path: Path)
    returns (err: int, ghost w: seq<Byte>, ghost t': Node)
    requires NodeOff(m[..], t, [], 0) && NodeOff(m[..], t, sp, node) && Slashless(t) && NulFree(name) && len >= 1
    requires name != PHANDLE && name != LINUX_PHANDLE
    requires var f := At(o, fpath);
             ValidPath(t, path) && TargetOf(t, f, path) && TextLen(t, f, path) == Ok(len) && s == PathGiven(f) &&
             NodeOff(ob, o, fpath, frag) && PathEnds(f)
    modifies m
    ensures Edited(old(m[..]), m[..], t', sp, node)
    ensures err == 0 ==>
              t' == WithProp(t, sp, name, w) && TargetText(t, At(o, fpath), path).Ok? &&
              w == NewValue(TargetText(t, At(o, fpath), path).value, rel)
    ensures err != 0 ==>
              err == -FDT_ERR_NOSPACE || TargetText(t, At(o, fpath), path) == Err(err)
    ensures TargetText(t, At(o, fpath), path).Ok? ==>
              Paid(old(m[..]), m[..], err == 0,
                PropNeed(Prop(name, NewValue(TargetText(t, At(o, fpath), path).value, rel))))
  {
    hide NodeOff, At, TargetOf, PathEnds, WithProp, Slashless, ValidPath, PathGiven, TargetText, TextLen, Edited,
         Inside, Unmoved, NewValue, Buffered, Align4, DataSize, Total;
    ghost var b, f := m[..], At(o, fpath);
    if TargetText(t, f, path).Ok? { NewValueSize(t, f, path, len, rel); }
    t', w := t, [];
    NodeOffPath(b, t, sp, node);
    var po;
    ghost var i, v0;
    err, po, i, v0 := MakeRoom(m, node, name, len + (if len > 1 then 1 else 0) + (|rel| + 1) + 1, t, sp);
    if err != 0 { return; }
    ghost var u := WithProp(t, sp, name, v0);
    RootKept(b, t, sp, node, m[..], u);
    SetUnmoved(t, sp, name, v0);
    RoomStays(t, u, f, path);
    err, w := FillSymbol(m, ob, frag, node, po, rel, s, len, b, t, sp, name, i, v0, o, fpath, path);
    t' := WithProp(t, sp, name, w);
  }

  /** One round of the loop: symbol `name`, of value `v` in the overlay, is put into the node at `sp`. */
  method PutSymbol(m: array<Byte>, ob: seq<Byte>, node: int, name: seq<Byte>, v: seq<Byte>, ghost t: Node,
                   ghost sp: Path, ghost o: Node)
    returns (err: int, ghost w: seq<Byte>, ghost t': Node)
    requires NodeOff(m[..], t, [], 0) && NodeOff(m[..], t, sp, node) && NodeOff(ob, o, [], 0)
    requires Slashless(t) && NulFree(name) && (forall f :: f in o.kids ==> PathEnds(f))
    requires ParseSymbol(v).Ok? ==> name != PHANDLE && name != LINUX_PHANDLE
    modifies m
    ensures Edited(old(m[..]), m[..], t', sp, node) && NodeOff(m[..], t', [], 0)
    ensures err == 0 ==> NewSymbol(t, o, v, w) && t' == WithProp(t, sp, name, w)
    ensures err != 0 && err != -FDT_ERR_NOSPACE ==> forall x :: !NewSymbol(t, o, v, x)
    ensures err != 0 ==> err == LookupError(o, v) || err == -FDT_ERR_NOTFOUND || err == -FDT_ERR_NOSPACE
    ensures forall x :: NewSymbol(t, o, v, x) ==> Paid(old(m[..]), m[..], err == 0, PropNeed(Prop(name, x)))
  {
    hide NodeOff, At, TargetOf, PathEnds, WithProp, Slashless, ValidPath, PathGiven, TargetText, TextLen, Edited,
         Inside, LookupError, ParseSymbol, FragmentOf, NewValue, NewSymbol, Paid, PropNeed;
    ghost var b := m[..];
    t', w := t, [];
    EditedSelf(b, t, sp, node);
    var frag, target, rel, s, len;
    ghost var i, path;
    err, frag, target, rel, s, len, i, path := LookUpSymbol(m[..], ob, v, t, o);
    if err != 0 { return; }
    RootKid(o, i);
    assert o.kids[i] in o.kids;
    LookedUpBecomes(t, o, v, o.kids[i], rel, path, len);
    TextError(t, o.kids[i], path);
    err, w, t' := PlaceSymbol(m, ob, node, name, frag, rel, s, len, t, sp, o, [] + [i], path);
    RootKept(b, t, sp, node, m[..], t');
    if TargetText(t, o.kids[i], path).Ok? {
      ghost var y := NewValue(TargetText(t, o.kids[i], path).value, rel);
      assert Paid(b, m[..], err == 0, PropNeed(Prop(name, y)));
      forall x | NewSymbol(t, o, v, x) ensures Paid(b, m[..], err == 0, PropNeed(Prop(name, x))) {
        NewSymbolUnique(t, o, v, x, y);
      }
    }
  }

  lemma NewValueSize(t: Node, f: Node, path: Path, len: nat, rel: seq<Byte>)
    requires ValidPath(t, path) && TextLen(t, f, path) == Ok(len) && TargetText(t, f, path).Ok? && len >= 1
    ensures |NewValue(TargetText(t, f, path).value, rel)| == len + (if len > 1 then 1 else 0) + (|rel| + 1) + 1
  {
    hide TargetText, TextLen, ValidPath;
    TextLenIs(t, f, path, len);
  }

  lemma TextError(t: Node, f: Node, path: Path)
    ensures TargetText(t, f, path).Err? ==>
              TargetText(t, f, path).code == -FDT_ERR_NOSPACE || TargetText(t, f, path).code == -FDT_ERR_NOTFOUND
  {
    hide PathGiven, Joined;
    LenUpError(t, path);
  }

  // ------------------------------------------------------------------- all symbols

  /** The values of all symbols. */
  ghost predicate NewSymbols(t: Node, o: Node, ps: seq<Prop>, ws: seq<Prop>) {
    |ws| == |ps| && forall k ::
      0 <= k < |ps| ==> ws[k].name == ps[k].name && NewSymbol(t, o, ps[k].value, ws[k].value)
  }

  /** The base with the symbols `ws` put into its child `s`. */
  function With(a: Node, s: nat, ws: seq<Prop>): Node
    requires s < |a.kids|
  {
    Put(a, [s], MergeProps(a.kids[s], ws))
  }

  /** Base `t` with the symbols of overlay `o`; their node is added if there is none. */
  ghost predicate Updated(t: Node, o: Node, t': Node) {
    var j := MatchKid(o.kids, SYMBOLS[1..]);
    if j == |o.kids| then t' == t
    else
      var (a, s) := KidSlot(t, SYMBOLS[1..]);
      exists ws :: NewSymbols(a, o, o.kids[j].props, ws) && t' == With(a, s, ws)
  }

  /** The values that the symbols of overlay `o` get, if it has any. */
  ghost predicate SymbolValues(t: Node, o: Node, ws: seq<Prop>) {
    var j := MatchKid(o.kids, SYMBOLS[1..]);
    if j == |o.kids| then ws == [] else NewSymbols(KidSlot(t, SYMBOLS[1..]).0, o, o.kids[j].props, ws)
  }

  /** The first property of each phandle name is a word, as the first pass leaves it. */
  predicate SizedNode(n: Node) {
    (Lookup(n, PHANDLE).Some? ==> |Lookup(n, PHANDLE).value| == 4) &&
    (Lookup(n, LINUX_PHANDLE).Some? ==> |Lookup(n, LINUX_PHANDLE).value| == 4)
  }

  /** Then no symbol with an accepted value has such a name, if all before it were accepted. */
  lemma NotPhandle(n: Node, k: nat)
    requires SizedNode(n) && k < |n.props| && forall j :: 0 <= j <= k ==> ParseSymbol(n.props[j].value).Ok?
    ensures n.props[k].name != PHANDLE && n.props[k].name != LINUX_PHANDLE
  {
    hide ParseSymbol, MatchProp;
    var i := MatchProp(n.props, n.props[k].name);
    assert i <= k;
    ParseSymbolSound(n.props[i].value);
  }

  /** The size of an empty `__symbols__` node. */
  const SYMBOLS_NEED := 20

  /** `__symbols__` of the base, added if it is not there. */
  method OpenSymbols(m: array<Byte>, ghost t: Node) returns (root_sym: int)
    requires NodeOff(m[..], t, [], 0)
    modifies m
    ensures root_sym < 0 ==> root_sym == -FDT_ERR_NOSPACE && m[..] == old(m[..])
    ensures root_sym >= 0 ==>
              var (a, s) := KidSlot(t, SYMBOLS[1..]);
              NodeOff(m[..], a, [], 0) && NodeOff(m[..], a, [s], root_sym) && Kept(old(m[..]), m[..]) &&
              if MatchKid(t.kids, SYMBOLS[1..]) < |t.kids| then a == t && s == MatchKid(t.kids, SYMBOLS[1..])
              else a == t.(kids := [Node(SYMBOLS[1..], [], [])] + t.kids) && s == 0
    ensures Paid(old(m[..]), m[..], root_sym >= 0, SYMBOLS_NEED)
  {
    hide NodeOff, Edited, Put, At, Live, Accepts, Inside, EmptyNode, AddKid, MatchKid, Kept, KidSlot, DataSize,
         Total;
    ghost var b := m[..];
    SlotIs(t, SYMBOLS[1..]);
    RootSize(t);
    LiveOf(b, t, [], 0);
    SelfKept(b, t);
    root_sym := FindKidOf(m[..], 0, SYMBOLS[1..], t, []);
    if root_sym == -FDT_ERR_NOTFOUND {
      KidNegative(b, t, [], MatchKid(t.kids, SYMBOLS[1..]), root_sym);
      root_sym := AddSubnodeBytes(m, 0, SYMBOLS[1..], t, []);
      PutWhole(t, AddKid(t, EmptyNode(SYMBOLS[1..])));
      if root_sym >= 0 {
        EditedNode(b, m[..], AddKid(t, EmptyNode(SYMBOLS[1..])), [], 0);
        EditedKept(b, m[..], AddKid(t, EmptyNode(SYMBOLS[1..])), [], 0);
      }
    } else {
      NonNegative(b, t, [] + [MatchKid(t.kids, SYMBOLS[1..])], root_sym);
    }
    assert forall i: nat :: [] + [i] == [i];
  }

  lemma PutWhole(t: Node, a: Node)
    ensures Put(t, [], a) == a
  {
  }

  lemma KidPath(a: Node, s: nat)
    requires s < |a.kids|
    ensures ValidPath(a, [s]) && At(a, [s]) == a.kids[s]
  {
    assert [s][1..] == [];
  }

  lemma WithNone(a: Node, s: nat)
    requires s < |a.kids|
    ensures With(a, s, []) == a
  {
    hide Put, At;
    KidPath(a, s);
    MergeNothing(a.kids[s]);
    PutSame(a, [s]);
  }

  lemma WithMore(a: Node, s: nat, ws: seq<Prop>, p: Prop)
    requires s < |a.kids|
    ensures With(a, s, ws + [p]) == WithProp(With(a, s, ws), [s], p.name, p.value) && ValidPath(With(a, s, ws), [s])
  {
    hide Put, At, SetProp, ValidPath;
    var n := a.kids[s];
    KidPath(a, s);
    assert (ws + [p])[..|ws|] == ws && (ws + [p])[..|ws| + 1] == ws + [p];
    MergePropsStep(n, ws + [p], |ws|);
    PutAgain(a, [s], MergeProps(n, ws), SetProp(MergeProps(n, ws), p.name, p.value));
  }

  /** Values for the first `k` symbols `ps` of overlay node `n`, all of them accepted, leave targets where they are. */
  lemma {:induction false} WithUnmoved(a: Node, s: nat, o: Node, n: Node, ws: seq<Prop>)
    requires s < |a.kids| && |ws| <= |n.props| && NewSymbols(a, o, n.props[..|ws|], ws) && SizedNode(n)
    ensures Unmoved(a, With(a, s, ws))
    decreases |ws|
  {
    hide Unmoved, With, NewSymbol, ParseSymbol, SizedNode, ValidPath;
    if ws == [] {
      WithNone(a, s);
      UnmovedSelf(a);
    } else {
      var k := |ws| - 1;
      var h, p := ws[..k], ws[k];
      assert ws == h + [p];
      WithUnmoved(a, s, o, n, h);
      WithMore(a, s, h, p);
      forall j | 0 <= j <= k ensures ParseSymbol(n.props[j].value).Ok? {
        NewSymbolParses(a, o, n.props[..|ws|][j].value, ws[j].value);
      }
      NotPhandle(n, k);
      SetUnmoved(With(a, s, h), [s], p.name, p.value);
      UnmovedTrans(a, With(a, s, h), With(a, s, ws));
    }
  }

  lemma NewSymbolParses(t: Node, o: Node, v: seq<Byte>, w: seq<Byte>)
    requires NewSymbol(t, o, v, w)
    ensures ParseSymbol(v).Ok?
  {
    hide ParseSymbol;
  }

  lemma NewSymbolsMore(a: Node, o: Node, ps: seq<Prop>, ws: seq<Prop>, w: seq<Byte>)
    requires |ws| < |ps| && NewSymbols(a, o, ps[..|ws|], ws) && NewSymbol(a, o, ps[|ws|].value, w)
    ensures NewSymbols(a, o, ps[..|ws| + 1], ws + [Prop(ps[|ws|].name, w)])
  {
    hide NewSymbol;
  }

  /** What holds in the loop after the symbols `ws`. */
  ghost predicate Updating(b: seq<Byte>, m: seq<Byte>, a: Node, s: nat, o: Node, n: Node, ws: seq<Prop>,
                           root_sym: int) {
    s < |a.kids| && |ws| <= |n.props| && NewSymbols(a, o, n.props[..|ws|], ws) && Kept(b, m) &&
    NodeOff(m, With(a, s, ws), [], 0) && NodeOff(m, With(a, s, ws), [s], root_sym)
  }

  /** One round of the loop: the next property of the overlay's `__symbols__`. */
  method NextSymbol(m: array<Byte>, ob: seq<Byte>, root_sym: int, po: int, ghost b: seq<Byte>, ghost a: Node,
                    ghost s: nat, ghost o: Node, ghost op: Path, ghost ws: seq<Prop>)
    returns (err: int, ghost w: seq<Byte>, ghost t': Node)
    requires Updating(b, m[..], a, s, o, At(o, op), ws, root_sym) && NodeOff(ob, o, [], 0)
    requires PropOff(ob, o, op, |ws|, po) && Slashless(a) && SizedNode(At(o, op))
    requires forall f :: f in o.kids ==> PathEnds(f)
    modifies m
    ensures Kept(b, m[..]) && NodeOff(m[..], t', [], 0)
    ensures err == 0 ==>
              |ws| < |At(o, op).props| &&
              Updating(b, m[..], a, s, o, At(o, op), ws + [Prop(At(o, op).props[|ws|].name, w)], root_sym)
    ensures err != 0 && err != -FDT_ERR_NOSPACE ==>
              |ws| < |At(o, op).props| && forall x :: !NewSymbol(a, o, At(o, op).props[|ws|].value, x)
    ensures |ws| < |At(o, op).props| && forall x :: NewSymbol(a, o, At(o, op).props[|ws|].value, x) ==>
              Paid(old(m[..]), m[..], err == 0, PropNeed(Prop(At(o, op).props[|ws|].name, x)))
  {
    hide NodeOff, PropOff, At, Edited, With, NewSymbol, Kept, PathEnds, Slashless, SizedNode, WithProp, ParseSymbol,
         LookupError, NewSymbols, Unmoved, ValidPath, Paid, PropNeed;
    ghost var b1, u, n := m[..], With(a, s, ws), At(o, op);
    var name, v := ReadProp(ob, po, o, op, |ws|);
    WithUnmoved(a, s, o, n, ws);
    UnmovedSlashless(a, u);
    NextName(a, o, n, ws);
    err, w, t' := PutSymbol(m, ob, root_sym, name, v, u, [s], o);
    EditedKept(b1, m[..], t', [s], root_sym);
    KeptTrans(b, b1, m[..]);
    NewSymbolStaysAll(a, u, o, v);
    if err == 0 {
      WithMore(a, s, ws, Prop(name, w));
      NewSymbolsMore(a, o, n.props, ws, w);
      EditedNode(b1, m[..], t', [s], root_sym);
    }
  }

  lemma UnmovedSlashless(a: Node, u: Node)
    requires Unmoved(a, u) && Slashless(a)
    ensures Slashless(u)
  {
    hide SameShape, Slashless;
    SlashlessShape(a, u);
  }

  lemma NewSymbolStaysAll(a: Node, u: Node, o: Node, v: seq<Byte>)
    requires Unmoved(a, u)
    ensures forall w :: NewSymbol(a, o, v, w) <==> NewSymbol(u, o, v, w)
  {
    hide Unmoved, NewSymbol;
    forall w ensures NewSymbol(a, o, v, w) <==> NewSymbol(u, o, v, w) {
      NewSymbolStays(a, u, o, v, w);
    }
  }

  /** The next accepted symbol has no phandle's name. */
  lemma NextName(a: Node, o: Node, n: Node, ws: seq<Prop>)
    requires |ws| < |n.props| && NewSymbols(a, o, n.props[..|ws|], ws) && SizedNode(n)
    ensures ParseSymbol(n.props[|ws|].value).Ok? ==>
              n.props[|ws|].name != PHANDLE && n.props[|ws|].name != LINUX_PHANDLE
  {
    hide ParseSymbol, NewSymbol, SizedNode;
    if ParseSymbol(n.props[|ws|].value).Ok? {
      forall j | 0 <= j <= |ws| ensures ParseSymbol(n.props[j].value).Ok? {
        if j < |ws| { NewSymbolParses(a, o, n.props[..|ws|][j].value, ws[j].value); }
      }
      NotPhandle(n, |ws|);
    }
  }

  /** The loop over the symbols of the overlay. */
  method PutSymbols(m: array<Byte>, ob: seq<Byte>, ov_sym: int, root_sym: int, ghost a: Node, ghost s: nat,
                    ghost o: Node, ghost op: Path)
    returns (err: int, ghost t': Node)
    requires s < |a.kids| && NodeOff(m[..], a, [], 0) && NodeOff(m[..], a, [s], root_sym)
    requires NodeOff(ob, o, [], 0) && NodeOff(ob, o, op, ov_sym)
    requires Slashless(a) && SizedNode(At(o, op)) && forall f :: f in o.kids ==> PathEnds(f)
    modifies m
    ensures NodeOff(m[..], t', [], 0) && Kept(old(m[..]), m[..])
    ensures err == 0 ==> exists ws :: NewSymbols(a, o, At(o, op).props, ws) && t' == With(a, s, ws)
    ensures err != 0 && err != -FDT_ERR_NOSPACE ==> forall ws :: !NewSymbols(a, o, At(o, op).props, ws)
    ensures forall ws :: NewSymbols(a, o, At(o, op).props, ws) ==> Paid(old(m[..]), m[..], err == 0, PropsNeed(ws))
  {
    hide NodeOff, At, Kept, Slashless, PathEnds, SizedNode, With, PropOff, NewSymbols, NewSymbol, Updating, Paid,
         PropsNeed, PropNeed;
    ghost var b, n, ws: seq<Prop> := m[..], At(o, op), [];
    PaidNothing(b);
    NoNeed();
    UpdatingStart(b, a, s, o, n, root_sym);
    var prop := FirstPropOf(ob, ov_sym, o, op);
    while prop >= 0
      invariant Updating(b, m[..], a, s, o, n, ws, root_sym) && PropOrEnd(ob, o, op, |ws|, prop)
      invariant Paid(b, m[..], true, PropsNeed(ws))
      decreases |n.props| - |ws|
    {
      ghost var w;
      ghost var b1 := m[..];
      UpdatingEnd(b, b1, a, s, o, n, ws, root_sym);
      UpdatingSymbols(b, b1, a, s, o, n, ws, root_sym);
      KeptTotal(b, b1);
      err, w, t' := NextSymbol(m, ob, root_sym, prop, b, a, s, o, op, ws);
      PaidNext(b, b1, m[..], a, o, n.props, ws, err == 0);
      if err != 0 {
        NoSymbols(a, o, n.props, |ws|);
        return;
      }
      prop := NextPropOf(ob, prop, o, op, |ws|);
      UpdatingSymbols(b, m[..], a, s, o, n, ws + [Prop(n.props[|ws|].name, w)], root_sym);
      PaidDone(b, b1, m[..], a, o, n.props, ws, w);
      ws := ws + [Prop(n.props[|ws|].name, w)];
    }
    err, t' := 0, With(a, s, ws);
    UpdatingEnd(b, m[..], a, s, o, n, ws, root_sym);
    UpdatingSymbols(b, m[..], a, s, o, n, ws, root_sym);
    forall vs: seq<Prop> | NewSymbols(a, o, n.props, vs) ensures vs == ws {
      NewSymbolsUnique(a, o, n.props, vs, ws);
    }
  }

  lemma UpdatingSymbols(b: seq<Byte>, m: seq<Byte>, a: Node, s: nat, o: Node, n: Node, ws: seq<Prop>, root_sym: int)
    requires Updating(b, m, a, s, o, n, ws, root_sym)
    ensures |ws| <= |n.props| && NewSymbols(a, o, n.props[..|ws|], ws)
  {
    hide NodeOff, With, NewSymbols, Kept;
  }

  lemma NewSymbolsUnique(a: Node, o: Node, ps: seq<Prop>, vs: seq<Prop>, ws: seq<Prop>)
    requires NewSymbols(a, o, ps, vs) && |ws| <= |ps| && NewSymbols(a, o, ps[..|ws|], ws)
    ensures vs[..|ws|] == ws && |vs| == |ps| && (|ws| == |ps| ==> vs == ws)
  {
    hide NewSymbol;
    forall k | 0 <= k < |ws| ensures vs[k] == ws[k] {
      assert ps[..|ws|][k] == ps[k];
      NewSymbolUnique(a, o, ps[k].value, vs[k].value, ws[k].value);
    }
  }

  lemma NewSymbolsAt(a: Node, o: Node, ps: seq<Prop>, vs: seq<Prop>, k: nat)
    requires NewSymbols(a, o, ps, vs) && k < |ps|
    ensures |vs| == |ps| && vs[k] == Prop(ps[k].name, vs[k].value) && NewSymbol(a, o, ps[k].value, vs[k].value)
  {
    hide NewSymbol;
  }

  /** The next symbol, seen from all of them. */
  lemma PaidNext(b: seq<Byte>, b1: seq<Byte>, b2: seq<Byte>, a: Node, o: Node, ps: seq<Prop>, ws: seq<Prop>, ok: bool)
    requires |ws| < |ps| && NewSymbols(a, o, ps[..|ws|], ws) && Paid(b, b1, true, PropsNeed(ws)) &&
             Total(b1) == Total(b)
    requires forall x :: NewSymbol(a, o, ps[|ws|].value, x) ==> Paid(b1, b2, ok, PropNeed(Prop(ps[|ws|].name, x)))
    ensures !ok ==> forall vs :: NewSymbols(a, o, ps, vs) ==> Paid(b, b2, ok, PropsNeed(vs))
  {
    hide NewSymbol, NewSymbols, Paid, PropsNeed, PropNeed, Total;
    var k := |ws|;
    forall vs: seq<Prop> | NewSymbols(a, o, ps, vs) && !ok ensures Paid(b, b2, ok, PropsNeed(vs)) {
      NewSymbolsUnique(a, o, ps, vs, ws);
      NewSymbolsAt(a, o, ps, vs, k);
      PropsNeedUpTo(vs, k);
      PaidMore(b, b1, b2, ok, PropsNeed(ws), PropNeed(vs[k]));
      PaidUpTo(b, b2, ok, PropsNeed(ws) + PropNeed(vs[k]), PropsNeed(vs));
    }
  }

  lemma PaidDone(b: seq<Byte>, b1: seq<Byte>, b2: seq<Byte>, a: Node, o: Node, ps: seq<Prop>, ws: seq<Prop>,
                 w: seq<Byte>)
    requires |ws| < |ps| && Paid(b, b1, true, PropsNeed(ws)) && Total(b1) == Total(b)
    requires NewSymbols(a, o, ps[..|ws| + 1], ws + [Prop(ps[|ws|].name, w)])
    requires forall x :: NewSymbol(a, o, ps[|ws|].value, x) ==> Paid(b1, b2, true, PropNeed(Prop(ps[|ws|].name, x)))
    ensures Paid(b, b2, true, PropsNeed(ws + [Prop(ps[|ws|].name, w)]))
  {
    hide NewSymbol, Paid, PropsNeed, PropNeed, Total;
    var p, us := Prop(ps[|ws|].name, w), ws + [Prop(ps[|ws|].name, w)];
    assert us[|ws|] == p && ps[..|ws| + 1][|ws|] == ps[|ws|];
    assert NewSymbol(a, o, ps[|ws|].value, w);
    PropsNeedUpTo(us, |ws|);
    assert us[..|ws|] == ws && us[..|ws| + 1] == us;
    PaidMore(b, b1, b2, true, PropsNeed(ws), PropNeed(p));
  }

  lemma UpdatingStart(b: seq<Byte>, a: Node, s: nat, o: Node, n: Node, root_sym: int)
    requires s < |a.kids| && NodeOff(b, a, [], 0) && NodeOff(b, a, [s], root_sym)
    ensures Updating(b, b, a, s, o, n, [], root_sym)
  {
    hide NodeOff, With, NewSymbol, Kept;
    WithNone(a, s);
    SelfKept(b, a);
  }

  lemma UpdatingEnd(b: seq<Byte>, m: seq<Byte>, a: Node, s: nat, o: Node, n: Node, ws: seq<Prop>, root_sym: int)
    requires Updating(b, m, a, s, o, n, ws, root_sym)
    ensures |ws| <= |n.props| && Kept(b, m) && NodeOff(m, With(a, s, ws), [], 0)
    ensures |ws| == |n.props| ==> NewSymbols(a, o, n.props, ws)
  {
    hide NodeOff, With, NewSymbols, Kept;
    if |ws| == |n.props| { assert n.props[..|ws|] == n.props; }
  }

  lemma NoSymbols(a: Node, o: Node, ps: seq<Prop>, k: nat)
    requires k < |ps|
    ensures (forall x :: !NewSymbol(a, o, ps[k].value, x)) ==> forall ws :: !NewSymbols(a, o, ps, ws)
  {
    hide NewSymbol;
    forall ws: seq<Prop> | NewSymbols(a, o, ps, ws) ensures NewSymbol(a, o, ps[k].value, ws[k].value) { }
  }

  lemma SlotSlashless(t: Node)
    requires Slashless(t)
    ensures Slashless(KidSlot(t, SYMBOLS[1..]).0)
  {
    hide MatchKid;
    var e := EmptyNode(SYMBOLS[1..]);
    assert SLASH !in SYMBOLS[1..];
    assert Slashless(e);
    forall k | k in [e] + t.kids ensures Slashless(k) { }
  }

  /** `overlay_symbol_update` */
  method UpdateSymbols(m: array<Byte>, ob: seq<Byte>, ghost t: Node, ghost o: Node) returns (err: int, ghost t': Node)
    requires NodeOff(m[..], t, [], 0) && NodeOff(ob, o, [], 0) && Slashless(t)
    requires forall f :: f in o.kids ==> PathEnds(f) && SizedNode(f)
    modifies m
    ensures NodeOff(m[..], t', [], 0) && Kept(old(m[..]), m[..])
    ensures err == 0 ==> Updated(t, o, t')
    ensures err != 0 && err != -FDT_ERR_NOSPACE ==> forall x :: !Updated(t, o, x)
    ensures forall ws :: SymbolValues(t, o, ws) ==> Paid(old(m[..]), m[..], err == 0, SYMBOLS_NEED + PropsNeed(ws))
  {
    hide NodeOff, At, MatchKid, Inside, KidSlot, Kept, Slashless, PathEnds, SizedNode, NewSymbols, Paid, PropsNeed;
    ghost var b := m[..];
    PaidNothing(b);
    t' := t;
    SelfKept(b, t);
    RootSize(o);
    var ov_sym := FindKidOf(ob, 0, SYMBOLS[1..], o, []);
    ghost var j := MatchKid(o.kids, SYMBOLS[1..]);
    if ov_sym < 0 {
      KidNegative(ob, o, [], j, ov_sym);
      forall ws | SymbolValues(t, o, ws) ensures Paid(b, b, true, SYMBOLS_NEED + PropsNeed(ws)) {
        PaidUpTo(b, b, true, 0, SYMBOLS_NEED + PropsNeed(ws));
      }
      return 0, t';
    }
    var root_sym := OpenSymbols(m, t);
    if root_sym < 0 {
      forall ws | SymbolValues(t, o, ws) ensures Paid(b, m[..], false, SYMBOLS_NEED + PropsNeed(ws)) {
        PaidUpTo(b, m[..], false, SYMBOLS_NEED, SYMBOLS_NEED + PropsNeed(ws));
      }
      return root_sym, t';
    }
    ghost var (a, s) := KidSlot(t, SYMBOLS[1..]);
    ghost var b1 := m[..];
    SlotSlashless(t);
    SymbolsKid(ob, o, j, ov_sym);
    assert o.kids[j] in o.kids;
    KeptTotal(b, b1);
    err, t' := PutSymbols(m, ob, ov_sym, root_sym, a, s, o, [] + [j]);
    KeptTrans(b, b1, m[..]);
    forall ws | SymbolValues(t, o, ws) ensures Paid(b, m[..], err == 0, SYMBOLS_NEED + PropsNeed(ws)) {
      PaidMore(b, b1, m[..], err == 0, SYMBOLS_NEED, PropsNeed(ws));
    }
    if err != 0 && err != -FDT_ERR_NOSPACE { NotUpdated(t, o); }
  }

  lemma NotUpdated(t: Node, o: Node)
    requires var j := MatchKid(o.kids, SYMBOLS[1..]);
             j < |o.kids| && forall ws :: !NewSymbols(KidSlot(t, SYMBOLS[1..]).0, o, o.kids[j].props, ws)
    ensures forall x :: !Updated(t, o, x)
  {
    hide NewSymbols, KidSlot, MatchKid, Put, MergeProps;
  }

  lemma SymbolsKid(ob: seq<Byte>, o: Node, j: nat, ov_sym: int)
    requires j == |o.kids| ==> ov_sym == -FDT_ERR_NOTFOUND
    requires ov_sym >= 0 && j <= |o.kids|
    ensures j < |o.kids| && At(o, [] + [j]) == o.kids[j]
  {
    hide At;
    RootKid(o, j);
  }

  // ----------------------------------------------------------------- what it means

  /** The last value of every name. */
  lemma {:induction false} LastSymbol(a: Node, o: Node, ps: seq<Prop>, ws: seq<Prop>, x: seq<Byte>)
    requires NewSymbols(a, o, ps, ws)
    ensures LastValue(ws, x).Some? <==> LastValue(ps, x).Some?
    ensures LastValue(ps, x).Some? ==> NewSymbol(a, o, LastValue(ps, x).value, LastValue(ws, x).value)
    decreases |ps|
  {
    hide NewSymbol;
    if ps != [] {
      LastSymbol(a, o, ps[..|ps| - 1], ws[..|ws| - 1], x);
    }
  }

  /** Only the child `s` of the root changed, and there only values. */
  ghost predicate OnlyKid(a: Node, s: nat, t': Node) {
    s < |a.kids| == |t'.kids| && t' == a.(kids := a.kids[s := t'.kids[s]]) &&
    t'.kids[s].name == a.kids[s].name && t'.kids[s].kids == a.kids[s].kids
  }

  /**
   Every symbol of the overlay is a property of the base's `__symbols__` afterwards, with the value that its last
   value in the overlay becomes; every other property of that node and everything else is as it was.
   */
  lemma UpdatedMeans(t: Node, o: Node, t': Node, x: seq<Byte>)
    requires var j := MatchKid(o.kids, SYMBOLS[1..]);
             j < |o.kids| && SizedNode(o.kids[j]) && Updated(t, o, t')
    ensures var (a, s) := KidSlot(t, SYMBOLS[1..]);
            var v := LastValue(o.kids[MatchKid(o.kids, SYMBOLS[1..])].props, x);
            OnlyKid(a, s, t') && Unmoved(a, t') &&
            if v.None? then Lookup(t'.kids[s], x) == Lookup(a.kids[s], x)
            else Lookup(t'.kids[s], x).Some? && NewSymbol(t', o, v.value, Lookup(t'.kids[s], x).value)
  {
    hide KidSlot, MatchKid, SizedNode, NewSymbol, Lookup, Unmoved, MergeProps, Put;
    var j := MatchKid(o.kids, SYMBOLS[1..]);
    var (a, s) := KidSlot(t, SYMBOLS[1..]);
    var n := o.kids[j];
    var ws :| NewSymbols(a, o, n.props, ws) && t' == With(a, s, ws);
    assert n.props[..|ws|] == n.props;
    WithUnmoved(a, s, o, n, ws);
    PutKid(a, s, MergeProps(a.kids[s], ws));
    MergePropsLookup(a.kids[s], ws, x);
    LastSymbol(a, o, n.props, ws, x);
    if LastValue(n.props, x).Some? {
      NewSymbolStays(a, t', o, LastValue(n.props, x).value, LastValue(ws, x).value);
    }
  }

  lemma PutKid(a: Node, s: nat, n: Node)
    requires s < |a.kids|
    ensures Put(a, [s], n) == a.(kids := a.kids[s := n])
  {
    assert [s][1..] == [];
  }

  /**
   After the update every symbol of the overlay is in the base's `__symbols__`. Its value leads from the target of the
   symbol's fragment along the path below it: always for a target that is given by a path, and for one that is
   given by its phandle if names select the nodes on the way to it.
   */
  lemma SymbolFound(b: seq<Byte>, t: Node, o: Node, t': Node, x: seq<Byte>, y: Symbol)
    returns (path: Path, w: seq<Byte>)
    requires Updated(t, o, t') && Holds(b, t') && Slashless(t)
    requires forall f :: f in o.kids ==> PathEnds(f) && SizedNode(f)
    requires var j := MatchKid(o.kids, SYMBOLS[1..]);
             j < |o.kids| && LastValue(o.kids[j].props, x).Some? &&
             ParseSymbol(LastValue(o.kids[j].props, x).value) == Ok(y)
    ensures var s := MatchKid(t'.kids, SYMBOLS[1..]);
            s < |t'.kids| && Lookup(t'.kids[s], x) == Some(w)
    ensures FragmentOf(o, y).Some? && Becomes(t', FragmentOf(o, y).value, y.rel, path, w)
    ensures PathGiven(FragmentOf(o, y).value).Some? || (FirstMatches(t', path) && NamedBelow(t', path)) ==>
              Resolve(t', CString(w)) == Continue(t', path, [SLASH] + y.rel)
  {
    hide NodeOff, MatchKid, Updated, Slashless, SizedNode, PathEnds, ParseSymbol, FragmentOf, Becomes, Lookup,
         KidSlot, Holds, Unmoved, Resolve, FirstMatches, NamedBelow, CString, At, PathGiven, Joined, OnlyKid;
    var j := MatchKid(o.kids, SYMBOLS[1..]);
    var v := LastValue(o.kids[j].props, x).value;
    var (a, s) := KidSlot(t, SYMBOLS[1..]);
    assert o.kids[j] in o.kids;
    UpdatedMeans(t, o, t', x);
    SymbolsSlot(t, t');
    w := Lookup(t'.kids[s], x).value;
    assert NewSymbol(t', o, v, w);
    var f := FragmentOf(o, y).value;
    path :| Becomes(t', f, y.rel, path, w);
    FragmentIn(o, y);
    SlotSlashless(t);
    UnmovedSlashless(a, t');
    BecomesAt(t', f, y.rel, path, w);
    JoinedClean(b, t', path);
    ParseSymbolSound(v);
    if PathGiven(f).Some? || (FirstMatches(t', path) && NamedBelow(t', path)) {
      SymbolLeads(t', f, y.rel, path, w);
    }
  }

  lemma SymbolsSlot(t: Node, t': Node)
    requires var (a, s) := KidSlot(t, SYMBOLS[1..]); OnlyKid(a, s, t')
    ensures var (a, s) := KidSlot(t, SYMBOLS[1..]); s < |t'.kids| && MatchKid(t'.kids, SYMBOLS[1..]) == s
  {
    hide NameEq, MatchKid;
    var (a, s) := KidSlot(t, SYMBOLS[1..]);
    SelfMatch([EmptyNode(SYMBOLS[1..])], 0);
    MatchKidIs(a.kids, SYMBOLS[1..], s);
    MatchKidNames(a.kids, t'.kids, SYMBOLS[1..]);
  }

  lemma FragmentIn(o: Node, y: Symbol)
    requires FragmentOf(o, y).Some?
    ensures FragmentOf(o, y).value in o.kids
  {
    hide MatchKid;
  }

  lemma BecomesAt(t: Node, f: Node, rel: seq<Byte>, path: Path, w: seq<Byte>)
    requires Becomes(t, f, rel, path, w)
    ensures ValidPath(t, path)
  {
    hide TargetOf, TargetText, ValidPath;
  }
}
