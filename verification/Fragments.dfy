/** `overlay_merge`: every fragment of an overlay is merged at its target in the base merged so far. */
module Fragments {
  import opened Bytes
  import opened DeviceTree
  import opened Lexer
  import opened Blob
  import opened Walk
  import opened Traverse
  import opened Edit
  import opened Rewrite
  import opened ReadWrite
  import opened TreeWalk
  import opened Merge
  import opened MergeKeeps
  import opened Overlay
  import opened Phandles
  import opened PhandleBytes
  import opened AllNodes
  import opened Paths

  /** "target" */
  const TARGET: seq<Byte> := [0x74, 0x61, 0x72, 0x67, 0x65, 0x74]
  /** "target-path" */
  const TARGET_PATH: seq<Byte> := [0x74, 0x61, 0x72, 0x67, 0x65, 0x74, 0x2d, 0x70, 0x61, 0x74, 0x68]
  /** "__overlay__" */
  const OVERLAY: seq<Byte> := [0x5f, 0x5f, 0x6f, 0x76, 0x65, 0x72, 0x6c, 0x61, 0x79, 0x5f, 0x5f]

  // ------------------------------------------------------------------- the targets

  /** `overlay_get_target_phandle`: 0 if there is none, all ones if it is malformed. */
  function TargetWord(f: Node): nat {
    match Lookup(f, TARGET)
    case None => 0
    case Some(v) => if |v| != 4 then 0xffff_ffff else Ld32(v, 0)
  }

  /** The node of the base that a fragment names: by phandle, or without one by its path. */
  ghost predicate TargetOf(t: Node, f: Node, path: Path) {
    if TargetWord(f) == 0 then
      Lookup(f, TARGET_PATH).Some? && Resolve(t, CString(Lookup(f, TARGET_PATH).value)) == Some(path)
    else TargetWord(f) != 0xffff_ffff && FirstWith(t, TargetWord(f), path)
  }

  /** What the lookup returns when it names none. */
  function TargetError(f: Node): int {
    if TargetWord(f) == 0xffff_ffff then -FDT_ERR_BADPHANDLE
    else if TargetWord(f) == 0 && Lookup(f, TARGET_PATH).None? then -FDT_ERR_BADOVERLAY
    else -FDT_ERR_NOTFOUND
  }

  /** A target path is used only as an absolute path that ends inside its property. */
  predicate PathEnds(f: Node) {
    TargetWord(f) == 0 && Lookup(f, TARGET_PATH).Some? ==>
      0 in Lookup(f, TARGET_PATH).value && Absolute(CString(Lookup(f, TARGET_PATH).value))
  }

  /** What names a target, and what is returned when nothing does. */
  lemma TargetMeans(t: Node, f: Node, path: Path)
    ensures match Lookup(f, TARGET)
            case Some(v) =>
              if |v| == 4 && Ld32(v, 0) != 0
              then (TargetOf(t, f, path) <==> Ld32(v, 0) != 0xffff_ffff && FirstWith(t, Ld32(v, 0), path)) &&
                   TargetError(f) == (if Ld32(v, 0) == 0xffff_ffff then -FDT_ERR_BADPHANDLE else -FDT_ERR_NOTFOUND)
              else |v| != 4 ==> !TargetOf(t, f, path) && TargetError(f) == -FDT_ERR_BADPHANDLE
            case None => true
    ensures Lookup(f, TARGET).None? || (|Lookup(f, TARGET).value| == 4 && Ld32(Lookup(f, TARGET).value, 0) == 0) ==>
              match Lookup(f, TARGET_PATH)
              case Some(s) =>
                (TargetOf(t, f, path) <==> Resolve(t, CString(s)) == Some(path)) && TargetError(f) == -FDT_ERR_NOTFOUND
              case None => !TargetOf(t, f, path) && TargetError(f) == -FDT_ERR_BADOVERLAY
  {
    hide Lookup, Ld32, FirstWith, Resolve, CString;
  }

  method TargetPhandle(ob: seq<Byte>, frag: int, ghost to: Node, ghost fpath: Path) returns (p: nat)
    requires NodeOff(ob, to, fpath, frag)
    ensures p == TargetWord(At(to, fpath))
    ensures match Lookup(At(to, fpath), TARGET)
            case None => p == 0
            case Some(v) => if |v| == 4 then p == Ld32(v, 0) else p == 0xffff_ffff
  {
    hide NodeOff, At, Lookup, Ld32;
    var v := GetProp(ob, frag, TARGET, to, fpath);
    if v.None? {
      return 0;
    }
    if |v.value| != 4 || Ld32(v.value, 0) == 0xffff_ffff {
      return 0xffff_ffff;
    }
    p := Ld32(v.value, 0);
  }

  /** The path in a fragment that names its target by one. */
  function PathGiven(f: Node): Option<seq<Byte>> {
    if TargetWord(f) == 0 then Lookup(f, TARGET_PATH) else None
  }

  /** `overlay_get_target`, with the path that names the target if one does. */
  method GetTarget(b: seq<Byte>, ob: seq<Byte>, frag: int, ghost t: Node, ghost to: Node, ghost fpath: Path)
    returns (res: int, s: Option<seq<Byte>>, ghost path: Path)
    requires NodeOff(b, t, [], 0) && NodeOff(ob, to, fpath, frag) && PathEnds(At(to, fpath))
    ensures res >= 0 ==> NodeOff(b, t, path, res) && TargetOf(t, At(to, fpath), path)
    ensures res >= 0 ==> s == PathGiven(At(to, fpath))
    ensures res < 0 ==> res == TargetError(At(to, fpath)) && forall q :: !TargetOf(t, At(to, fpath), q)
  {
    hide NodeOff, At, Lookup, TargetWord, FirstWith, NoneWith, Resolve, CString, Holds;
    ghost var f := At(to, fpath);
    s, path := None, [];
    NodeOffPath(b, t, [], 0);
    var phandle := TargetPhandle(ob, frag, to, fpath);
    if phandle == 0xffff_ffff {
      return -FDT_ERR_BADPHANDLE, s, path;
    }
    if phandle == 0 {
      s := GetProp(ob, frag, TARGET_PATH, to, fpath);
      if s.None? {
        return -FDT_ERR_BADOVERLAY, s, path;
      }
      res := PathOffset(b, CString(s.value), t);
      path := PathFor(t, CString(s.value));
    } else {
      res, path := NodeByPhandle(b, phandle, t);
      if res < 0 {
        NoHolder(t, phandle);
      }
    }
  }

  lemma NoHolder(t: Node, phandle: nat)
    requires NoneWith(t, phandle)
    ensures forall q :: !FirstWith(t, phandle, q)
  {
  }

  /** A fragment has one target. */
  lemma OneTarget(t: Node, f: Node, p: Path, q: Path)
    requires ValidPath(t, p) && ValidPath(t, q) && TargetOf(t, f, p) && TargetOf(t, f, q)
    ensures p == q
  {
    hide At, Lookup, TargetWord, Resolve, PhandleOf, ValidPath, Before;
    if TargetWord(f) != 0 {
      OnePath(t, p, q);
    }
  }

  // ----------------------------------------------------------------- the fragments

  /** One fragment: nothing without an `__overlay__` child, else that child merged at the target. */
  ghost predicate MergesOne(t: Node, f: Node, t': Node) {
    var i := MatchKid(f.kids, OVERLAY);
    if i == |f.kids| then t' == t
    else exists path ::
      ValidPath(t, path) && TargetOf(t, f, path) && t' == Put(t, path, MergeNode(At(t, path), f.kids[i]))
  }

  /** The fragments one after the other, each target looked up in what the earlier ones left. */
  ghost predicate Merges(t: Node, fs: seq<Node>, t': Node) {
    if fs == [] then t' == t
    else
      var h, f := fs[..|fs| - 1], fs[|fs| - 1];
      exists mid :: MergesOne(mid, f, t') && Merges(t, h, mid)
  }

  lemma MergesMore(t: Node, fs: seq<Node>, k: nat, mid: Node, t': Node)
    requires k < |fs| && Merges(t, fs[..k], mid) && MergesOne(mid, fs[k], t')
    ensures Merges(t, fs[..k + 1], t')
  {
    hide MergesOne;
    assert fs[..k + 1][..k] == fs[..k];
  }

  /** There is at most one outcome. */
  lemma MergesOneUnique(t: Node, f: Node, a: Node, c: Node)
    requires MergesOne(t, f, a) && MergesOne(t, f, c)
    ensures a == c
  {
    hide TargetOf, MergeNode, MatchKid, Put, ValidPath;
    var i := MatchKid(f.kids, OVERLAY);
    if i < |f.kids| {
      var p :| ValidPath(t, p) && TargetOf(t, f, p) && a == Put(t, p, MergeNode(At(t, p), f.kids[i]));
      var q :| ValidPath(t, q) && TargetOf(t, f, q) && c == Put(t, q, MergeNode(At(t, q), f.kids[i]));
      OneTarget(t, f, p, q);
    }
  }

  lemma {:induction false} MergesUnique(t: Node, fs: seq<Node>, a: Node, c: Node)
    requires Merges(t, fs, a) && Merges(t, fs, c)
    ensures a == c
    decreases |fs|
  {
    hide MergesOne;
    if fs != [] {
      var h, f := fs[..|fs| - 1], fs[|fs| - 1];
      var x :| MergesOne(x, f, a) && Merges(t, h, x);
      var y :| MergesOne(y, f, c) && Merges(t, h, y);
      MergesUnique(t, h, x, y);
      MergesOneUnique(x, f, a, c);
    }
  }

  /** Fragment `k` cannot be merged into what the ones before it leave, and so all of them cannot. */
  ghost predicate Stuck(t: Node, fs: seq<Node>, k: nat, mid: Node) {
    k < |fs| && Merges(t, fs[..k], mid) && forall x :: !MergesOne(mid, fs[k], x)
  }

  /** Some fragment is stuck, and the error says why it names no target. */
  ghost predicate StuckWith(t: Node, fs: seq<Node>, err: int) {
    exists k: nat, mid :: Stuck(t, fs, k, mid) && err == TargetError(fs[k])
  }

  lemma {:induction false} StuckAll(t: Node, fs: seq<Node>, k: nat, mid: Node)
    requires Stuck(t, fs, k, mid)
    ensures forall x :: !Merges(t, fs, x)
    decreases |fs|
  {
    hide MergesOne;
    var h, f := fs[..|fs| - 1], fs[|fs| - 1];
    forall x ensures !Merges(t, fs, x) {
      if Merges(t, fs, x) {
        var y :| MergesOne(y, f, x) && Merges(t, h, y);
        if k == |fs| - 1 {
          MergesUnique(t, h, mid, y);
        } else {
          assert h[..k] == fs[..k] && h[k] == fs[k];
          StuckAll(t, h, k, mid);
        }
      }
    }
  }

  /** A node is what a merge of overlay node `o` makes of `n`. */
  ghost predicate Blended(r: Node, n: Node, o: Node) {
    Keeps(r, n, o.props, o.kids) && Covers(r, o)
  }

  /** One fragment: its target has what the overlay says and keeps what it does not, and no other place changes. */
  lemma MergesOneMeans(t: Node, f: Node, t': Node) returns (path: Path)
    requires MergesOne(t, f, t') && MatchKid(f.kids, OVERLAY) < |f.kids|
    ensures ValidPath(t, path) && TargetOf(t, f, path) && t' == Put(t, path, At(t', path)) &&
            Blended(At(t', path), At(t, path), f.kids[MatchKid(f.kids, OVERLAY)])
  {
    hide TargetOf, MergeNode, MatchKid, Put, At, ValidPath, Keeps, Covers;
    var i := MatchKid(f.kids, OVERLAY);
    path :| ValidPath(t, path) && TargetOf(t, f, path) && t' == Put(t, path, MergeNode(At(t, path), f.kids[i]));
    PutAgain(t, path, MergeNode(At(t, path), f.kids[i]), MergeNode(At(t, path), f.kids[i]));
    MergedKeeps(At(t, path), f.kids[i]);
    MergeCovers(At(t, path), f.kids[i]);
  }

  /** What the fragments can take in the base at most. */
  function FragmentNeed(f: Node): nat {
    var i := MatchKid(f.kids, OVERLAY);
    if i < |f.kids| then Need(f.kids[i]) else 0
  }

  function FragmentsNeed(fs: seq<Node>): nat {
    if fs == [] then 0 else FragmentsNeed(fs[..|fs| - 1]) + FragmentNeed(fs[|fs| - 1])
  }

  lemma {:induction false} FragmentsNeedUpTo(fs: seq<Node>, k: nat)
    requires k < |fs|
    ensures FragmentsNeed(fs[..k + 1]) == FragmentsNeed(fs[..k]) + FragmentNeed(fs[k]) <= FragmentsNeed(fs)
    decreases |fs|
  {
    hide FragmentNeed;
    assert fs[..k + 1][..k] == fs[..k];
    if k + 1 < |fs| {
      var h := fs[..|fs| - 1];
      assert h[..k + 1] == fs[..k + 1] && h[..k] == fs[..k];
      FragmentsNeedUpTo(h, k);
    } else {
      assert fs[..k + 1] == fs;
    }
  }

  /** The root stays at offset 0 through an edit of any node. */
  lemma RootKept(b: seq<Byte>, t: Node, path: Path, target: int, b': seq<Byte>, t': Node)
    requires NodeOff(b, t, [], 0) && NodeOff(b, t, path, target) && Edited(b, b', t', path, target)
    ensures NodeOff(b', t', [], 0)
  {
    hide NodeOff, Inside, Kept, SameUpTo, Struct, Strings, First, Lex, Events, Mark, Ordered, NodeMark, AtMark,
         NextTag, Before, Tokens;
    RootFirst(b, t, path, target);
    EditedNode(b, b', t', path, target);
    NodeOffPath(b', t', path, target);
    RootBefore(t, t');
    InsideIs(b, t, [], 0);
    KeptStrings(b, b');
    SameUpToLess(b, b', Inside(b, target), Inside(b, 0));
    NodeKept(b, t, [], 0, b', t', Inside(b, 0));
  }

  lemma KeptStrings(b: seq<Byte>, b': seq<Byte>)
    requires Kept(b, b')
    ensures Strings(b) <= Strings(b')
  {
  }

  lemma RootBefore(t: Node, t': Node)
    ensures Before(t, []) == Before(t', []) == [] && ValidPath(t, []) && ValidPath(t', [])
  {
  }

  lemma InsideIs(b: seq<Byte>, t: Node, path: Path, o: int)
    requires NodeOff(b, t, path, o)
    ensures CheckTagOffset(Struct(b), o, FDT_BEGIN_NODE) == Inside(b, o)
  {
    hide NodeOff, Struct, NextTag;
    NodeOffIs(b, t, path, o);
  }

  /** No contents begin before those of the root. */
  lemma RootFirst(b: seq<Byte>, t: Node, path: Path, target: int)
    requires NodeOff(b, t, [], 0) && NodeOff(b, t, path, target)
    ensures Inside(b, 0) <= Inside(b, target)
  {
    hide First, Lex, Events, Ordered, Before, Flatten, Head, Forest, NextTag, Struct, Strings, NodeEvents, Mark;
    NodeOffIs(b, t, [], 0);
    NodeOffIs(b, t, path, target);
    RootBefore(t, t);
    if path == [] {
      MarkOrder(Struct(b), Strings(b), Tokens(t), 0, 0, target, 0);
      MarkOrder(Struct(b), Strings(b), Tokens(t), target, 0, 0, 0);
    } else {
      BeforeSome(t, path);
      MarkOrder(Struct(b), Strings(b), Tokens(t), Inside(b, 0), 1, target, |Before(t, path)|);
    }
  }

  lemma BeforeSome(t: Node, path: Path)
    requires ValidPath(t, path) && path != []
    ensures |Before(t, path)| >= 1
  {
  }

  /** One round of the loop of `overlay_merge`. */
  method MergeFragment(m: array<Byte>, ob: seq<Byte>, frag: int, ghost t: Node, ghost to: Node, ghost fpath: Path)
    returns (err: int, ghost t': Node)
    requires NodeOff(m[..], t, [], 0) && NodeOff(ob, to, fpath, frag) && PathEnds(At(to, fpath))
    modifies m
    ensures NodeOff(m[..], t', [], 0) && Kept(old(m[..]), m[..])
    ensures err == 0 ==> MergesOne(t, At(to, fpath), t')
    ensures err != 0 && err != -FDT_ERR_NOSPACE ==>
              err == TargetError(At(to, fpath)) && m[..] == old(m[..]) && forall x :: !MergesOne(t, At(to, fpath), x)
    ensures err == 0 || err == -FDT_ERR_NOSPACE ==> Paid(old(m[..]), m[..], err == 0, FragmentNeed(At(to, fpath)))
  {
    hide NodeOff, At, Put, Edited, Kept, MatchKid, MergeNode, TargetOf, Inside, PathEnds, Paid, Need, Keeps, Covers,
         TargetError;
    PaidNothing(m[..]);
    TargetErrors(At(to, fpath));
    ghost var b, f := m[..], At(to, fpath);
    t' := t;
    SelfKept(b, t);
    NodeOffPath(ob, to, fpath, frag);
    var overlay := FindKidOf(ob, frag, OVERLAY, to, fpath);
    ghost var i := MatchKid(f.kids, OVERLAY);
    if overlay == -FDT_ERR_NOTFOUND {
      KidNegative(ob, to, fpath, i, overlay);
      return 0, t';
    }
    var target, s, path := GetTarget(m[..], ob, frag, t, to, fpath);
    if target < 0 {
      return target, t';
    }
    NodeOffPath(b, t, path, target);
    KidNode(to, fpath, i);
    ghost var n';
    err, n' := ApplyNode(m, target, ob, overlay, t, path, to, fpath + [i], f.kids[i]);
    t' := Put(t, path, n');
    RootKept(b, t, path, target, m[..], t');
    EditedKept(b, m[..], t', path, target);
  }

  lemma TargetErrors(f: Node)
    ensures TargetError(f) != -FDT_ERR_NOSPACE && TargetError(f) < 0
  {
    hide Lookup, TargetWord;
  }

  lemma SelfKept(b: seq<Byte>, t: Node)
    requires NodeOff(b, t, [], 0)
    ensures Kept(b, b)
  {
    hide NodeOff, Struct, NextTag, Ordered;
    NodeOffIs(b, t, [], 0);
    KeptSelf(b);
  }

  lemma EditedKept(b: seq<Byte>, b': seq<Byte>, t': Node, path: Path, node: int)
    requires Edited(b, b', t', path, node)
    ensures Kept(b, b')
  {
  }

  /** `overlay_merge` */
  method MergeOverlay(m: array<Byte>, ob: seq<Byte>, ghost t: Node, ghost to: Node) returns (err: int, ghost t': Node)
    requires NodeOff(m[..], t, [], 0) && NodeOff(ob, to, [], 0)
    requires forall f :: f in to.kids ==> PathEnds(f)
    modifies m
    ensures NodeOff(m[..], t', [], 0) && Kept(old(m[..]), m[..])
    ensures err == 0 ==> Merges(t, to.kids, t')
    ensures err != 0 && err != -FDT_ERR_NOSPACE ==>
              StuckWith(t, to.kids, err) && forall x :: !Merges(t, to.kids, x)
    ensures err == 0 || err == -FDT_ERR_NOSPACE ==> Paid(old(m[..]), m[..], err == 0, FragmentsNeed(to.kids))
  {
    hide NodeOff, Put, Edited, Kept, MatchKid, MergeNode, Merges, MergesOne, TargetOf, Inside, PathEnds, Paid,
         FragmentsNeed, FragmentNeed, TargetError, Total;
    ghost var b := m[..];
    PaidNothing(b);
    NoFragments();
    t' := t;
    ghost var k := 0;
    SelfKept(b, t);
    MergesNone(t, to.kids);
    var frag := FirstKidOf(ob, 0, to, []);
    while frag >= 0
      invariant k <= |to.kids| && KidOrEnd(ob, to, [], k, frag)
      invariant NodeOff(m[..], t', [], 0) && Kept(b, m[..]) && Merges(t, to.kids[..k], t')
      invariant Paid(b, m[..], true, FragmentsNeed(to.kids[..k]))
      decreases |to.kids| - k
    {
      ghost var t1, b1 := t', m[..];
      RootKid(to, k);
      assert to.kids[k] in to.kids;
      err, t' := MergeFragment(m, ob, frag, t1, to, [] + [k]);
      KeptTrans(b, b1, m[..]);
      KeptTotal(b, b1);
      FragmentsNeedUpTo(to.kids, k);
      ghost var need := FragmentsNeed(to.kids[..k]);
      if err == 0 || err == -FDT_ERR_NOSPACE {
        PaidMore(b, b1, m[..], err == 0, need, FragmentNeed(to.kids[k]));
      }
      if err != 0 {
        if err == -FDT_ERR_NOSPACE {
          PaidUpTo(b, m[..], false, need + FragmentNeed(to.kids[k]), FragmentsNeed(to.kids));
        } else {
          assert Stuck(t, to.kids, k, t1);
          StuckAll(t, to.kids, k, t1);
        }
        return;
      }
      MergesMore(t, to.kids, k, t1, t');
      frag := NextKidOf(ob, frag, to, [], k);
      k := k + 1;
    }
    assert to.kids[..k] == to.kids;
    err := 0;
  }

  lemma KeptTotal(b: seq<Byte>, b': seq<Byte>)
    requires Kept(b, b')
    ensures Total(b') == Total(b)
  {
  }

  lemma NoFragments()
    ensures FragmentsNeed([]) == 0
  {
  }

  lemma MergesNone(t: Node, fs: seq<Node>)
    ensures Merges(t, fs[..0], t)
  {
    assert fs[..0] == [];
  }

  lemma RootKid(t: Node, k: nat)
    ensures At(t, []) == t && ValidPath(t, [])
    ensures k < |t.kids| ==> At(t, [] + [k]) == t.kids[k]
  {
    hide Before;
    if k < |t.kids| {
      ChildAt(t, [], k);
    }
  }
}
