/**
 The reference pass of fdt_overlay.c on a blob: tree and fixups lie in the same blob, and the words
 are shifted where they are.
 */
module RefBytes {
  import opened Bytes
  import opened DeviceTree
  import opened Lexer
  import opened Blob
  import opened Walk
  import opened Traverse
  import opened Edit
  import opened Rewrite
  import opened ReadWrite
  import opened TreeWalk
  import opened Phandles
  import opened InPlace
  import opened PhandleBytes

  // ------------------------------------------------------------- two places of a tree

  /** A node is not affected by a change elsewhere. */
  lemma {:induction false} AtElsewhere(t: Node, p: Path, a: Node, q: Path)
    requires ValidPath(t, p) && ValidPath(t, q) && !(q <= p)
    requires p <= q ==> q[|p|] < |a.kids| && q[|p|] < |At(t, p).kids| && a.kids[q[|p|]] == At(t, p).kids[q[|p|]]
    ensures ValidPath(Put(t, p, a), q) && At(Put(t, p, a), q) == At(t, q)
    decreases p
  {
    if p != [] && q[0] == p[0] {
      assert q[1..] <= p[1..] ==> q <= p;
      assert p[1..] <= q[1..] ==> p <= q && q[1..][|p| - 1] == q[|p|];
      AtElsewhere(t.kids[p[0]], p[1..], a, q[1..]);
    }
  }

  /** Replacing the properties of one node leaves those of every other. */
  lemma {:induction false} PropsElsewhere(t: Node, p: Path, n: Node, q: Path)
    requires ValidPath(t, p) && ValidPath(t, q) && n.kids == At(t, p).kids
    ensures At(Put(t, p, n), q).props == if q == p then n.props else At(t, q).props
    decreases p
  {
    if p != [] && q != [] && q[0] == p[0] {
      PropsElsewhere(t.kids[p[0]], p[1..], n, q[1..]);
      assert q == [q[0]] + q[1..] && p == [p[0]] + p[1..];
    }
  }

  /** The fixup node at `q` is outside what its fixups change below the node at `p`. */
  ghost predicate Clear(n: Node, f: Node, p: Path, q: Path) {
    !(q <= p) && (p <= q ==> q[|p|] < |n.kids| && forall g :: g in f.kids ==> MatchKid(n.kids, g.name) != q[|p|])
  }

  /** Matching children stay clear of each other. */
  lemma ClearKid(n: Node, f: Node, p: Path, q: Path, i: nat, k: nat)
    requires Clear(n, f, p, q) && k < |f.kids| && i == MatchKid(n.kids, f.kids[k].name) && i < |n.kids|
    ensures Clear(n.kids[i], f.kids[k], p + [i], q + [k])
  {
    assert f.kids[k] in f.kids;
    SnocPrefix(p, q, i, k);
    SnocPrefix(q, p, k, i);
  }

  lemma SnocPrefix(a: Path, b: Path, i: nat, k: nat)
    ensures a + [i] <= b + [k] ==> a <= b && (a == b || b[|a|] == i)
  {
    if a + [i] <= b + [k] {
      assert a == (a + [i])[..|a|] == (b + [k])[..|a|];
      assert (a + [i])[|a|] == (b + [k])[|a|];
    }
  }

  lemma {:induction false} WordsAt(v: seq<Byte>, i: nat)
    requires |v| % 4 == 0 && 4 * i + 4 <= |v|
    ensures |Words(v)| == |v| / 4 && Words(v)[i] == Ld32(v, 4 * i)
    decreases |v|
  {
    hide Ld32;
    var w := v[..|v| - 4];
    if 4 * i + 4 < |v| {
      WordsAt(w, i);
      assert w[4 * i..4 * i + 4] == v[4 * i..4 * i + 4];
      LoadSame(w, 4 * i, v, 4 * i);
    } else {
      WordsSize(w);
    }
  }

  lemma {:induction false} WordsSize(v: seq<Byte>)
    requires |v| % 4 == 0
    ensures |Words(v)| == |v| / 4
    decreases |v|
  {
    hide Ld32;
    if |v| >= 4 { WordsSize(v[..|v| - 4]); }
  }

  // ----------------------------------------------------------------- one property

  lemma SetPropTwice(n: Node, name: seq<Byte>, v: seq<Byte>, w: seq<Byte>)
    requires Lookup(n, name).Some?
    ensures SetProp(SetProp(n, name, v), name, w) == SetProp(n, name, w)
    ensures Lookup(SetProp(n, name, v), name) == Some(v) && SetProp(n, name, v).kids == n.kids
  {
    hide MatchProp;
    var i := MatchProp(n.props, name);
    SetPropLookup(n, name, v, name);
    MatchPropSet(n.props, name, v, i);
  }

  lemma {:induction false} MatchPropSet(ps: seq<Prop>, name: seq<Byte>, v: seq<Byte>, i: nat)
    requires i == MatchProp(ps, name) && i < |ps|
    ensures MatchProp(ps[i := Prop(name, v)], name) == i && ps[i].name == name
  {
    var ps' := ps[i := Prop(name, v)];
    if i > 0 {
      assert ps'[1..] == ps[1..][i - 1 := Prop(name, v)];
      MatchPropSet(ps[1..], name, v, i - 1);
    }
  }

  /** The value after one more word was shifted. */
  lemma ShiftedSnoc(v: seq<Byte>, ps: seq<nat>, k: nat, delta: nat)
    requires k < |ps|
    ensures var w, p := Shifted(v, ps[..k], delta), ps[k];
            Shifted(v, ps[..k + 1], delta) == if p + 4 <= |v| then Patch(w, p, Be32(Wrap32(Ld32(w, p) + delta))) else w
  {
    hide Ld32, Be32, Patch;
    assert ps[..k + 1][..k] == ps[..k];
  }

  /** The words that one fixup property lists, shifted one after the other in the property of the same name. */
  method RefPropBytes(m: array<Byte>, tree: int, name: seq<Byte>, fixup: seq<Byte>, delta: U32, ghost t: Node,
                      ghost p: Path)
    returns (err: int, ghost n': Node)
    requires NodeOff(m[..], t, p, tree)
    modifies m
    ensures Steady(old(m[..]), t, m[..], Put(t, p, n')) && n'.kids == At(t, p).kids
    ensures match RefProp(At(t, p), Prop(name, fixup), delta)
            case Ok(x) => err == 0 && n' == x
            case Err(c) => err == c
  {
    hide NodeOff, At, Put, SetProp, Patch, Edited, Ld32, Be32, Lookup, Words, Shifted, Steady;
    ghost var n, b := At(t, p), m[..];
    n' := n;
    StillHere(b, t, p, tree);
    if |fixup| % 4 != 0 {
      return -FDT_ERR_BADOVERLAY, n';
    }
    var val := GetProp(m[..], tree, name, t, p);
    if val.None? {
      return -FDT_ERR_BADOVERLAY, n';
    }
    ghost var v, ps := val.value, Words(fixup);
    WordsSize(fixup);
    ShiftStart(n, name, v, ps, delta);
    var i := 0;
    while i < |fixup| / 4
      invariant 0 <= i <= |ps| && n' == SetProp(n, name, Shifted(v, ps[..i], delta)) && Passes(v, ps[..i])
      invariant Steady(b, t, m[..], Put(t, p, n')) && n'.kids == n.kids
    {
      ghost var t1, b1 := Put(t, p, n'), m[..];
      SteadyNode(b, t, b1, t1, p, tree);
      PutAgain(t, p, n', n');
      SetPropTwice(n, name, Shifted(v, ps[..i], delta), []);
      WordsAt(fixup, i);
      var poffset := Ld32(fixup, 4 * i);
      // The source reads through a pointer to the value, so it sees the words shifted so far. It reads
      // before the check: what a position outside the value gives there is not used, and is 0 here.
      var cur := GetProp(m[..], tree, name, t1, p);
      var word := if poffset + 4 <= |cur.value| then Ld32(cur.value, poffset) else 0;
      var adj := Be32(Wrap32(word + delta));
      err := SetPropPartial(m, tree, name, poffset, adj, t1, p);
      if err == -FDT_ERR_NOSPACE {
        return -FDT_ERR_BADOVERLAY, n';
      }
      if err != 0 { return; }
      ShiftedSnoc(v, ps, i, delta);
      ghost var w := if poffset + 4 <= |v| then Patch(cur.value, poffset, adj) else cur.value;
      SetPropTwice(n, name, cur.value, w);
      PutAgain(t, p, n', SetProp(n, name, w));
      n' := SetProp(n, name, w);
      SteadyTrans(b, t, b1, t1, m[..], Put(t, p, n'));
      assert ps[..i + 1] == ps[..i] + [ps[i]];
      SetPropTwice(n, name, w, []);
      i := i + 1;
    }
    assert ps[..i] == ps;
    err := 0;
  }

  lemma StillHere(b: seq<Byte>, t: Node, p: Path, o: int)
    requires NodeOff(b, t, p, o)
    ensures Put(t, p, At(t, p)) == t && Steady(b, t, b, t) && ValidPath(t, p)
  {
    hide NodeOff, At, Put, Steady, Ordered, Struct, AtMark, NodeMark;
    NodeOffIs(b, t, p, o);
    PutSame(t, p);
    KeptSelf(b);
    SteadySelf(b, t);
  }

  lemma ShiftStart(n: Node, name: seq<Byte>, v: seq<Byte>, ps: seq<nat>, delta: nat)
    requires Lookup(n, name) == Some(v)
    ensures SetProp(n, name, Shifted(v, ps[..0], delta)) == n && Passes(v, ps[..0])
  {
    hide Lookup, SetProp;
    assert ps[..0] == [];
    SetPropSame(n, name, v);
  }

  lemma SteadyNode(b: seq<Byte>, t: Node, b': seq<Byte>, t': Node, q: Path, o: int)
    requires Steady(b, t, b', t') && NodeOff(b, t, q, o)
    ensures NodeOff(b', t', q, o)
  {
    hide NodeOff, PropOff, Alike, Kept;
  }

  lemma SteadyProp(b: seq<Byte>, t: Node, b': seq<Byte>, t': Node, q: Path, i: nat, o: int)
    requires Steady(b, t, b', t') && PropOff(b, t, q, i, o)
    ensures PropOff(b', t', q, i, o)
  {
    hide NodeOff, PropOff, Alike, Kept;
  }

  // ----------------------------------------------------------------- the recursion

  lemma RefPropsSnoc(n: Node, fs: seq<Prop>, k: nat, delta: nat)
    requires k < |fs| && RefProps(n, fs[..k], delta).Ok?
    ensures RefProps(n, fs[..k + 1], delta) == RefProp(RefProps(n, fs[..k], delta).value, fs[k], delta)
    ensures RefProps(n, fs[..k + 1], delta).Err? ==> RefProps(n, fs, delta) == RefProps(n, fs[..k + 1], delta)
  {
    hide RefProp;
    assert fs[..k + 1][..k] == fs[..k];
    if RefProps(n, fs[..k + 1], delta).Err? {
      RefPropsStuck(n, fs, k + 1, delta);
    }
  }

  lemma {:induction false} RefPropsStuck(n: Node, fs: seq<Prop>, k: nat, delta: nat)
    requires k <= |fs| && RefProps(n, fs[..k], delta).Err?
    ensures RefProps(n, fs, delta) == RefProps(n, fs[..k], delta)
    decreases |fs|
  {
    hide RefProp;
    if k == |fs| {
      assert fs[..k] == fs;
    } else {
      var h := fs[..|fs| - 1];
      assert h[..k] == fs[..k];
      RefPropsStuck(n, h, k, delta);
    }
  }

  /** What the passes over a fixup node keep: both nodes in place, and the fixups as they were. */
  ghost predicate Both(b: seq<Byte>, t: Node, p: Path, q: Path, tree: int, fix: int, a: Node, f: Node) {
    NodeOff(b, t, p, tree) && NodeOff(b, t, q, fix) && At(t, p) == a && At(t, q) == f && ValidPath(t, p) &&
    ValidPath(t, q)
  }

  /** A steady change of the node at `p` that spares the child towards `q` keeps both nodes. */
  lemma BothKept(b: seq<Byte>, t: Node, p: Path, q: Path, tree: int, fix: int, n: Node, f: Node, b': seq<Byte>, a: Node)
    requires Both(b, t, p, q, tree, fix, n, f) && Steady(b, t, b', Put(t, p, a)) && !(q <= p)
    requires p <= q ==> q[|p|] < |a.kids| && q[|p|] < |n.kids| && a.kids[q[|p|]] == n.kids[q[|p|]]
    ensures Both(b', Put(t, p, a), p, q, tree, fix, a, f)
  {
    hide NodeOff, At, Put, Steady;
    PutAgain(t, p, a, a);
    AtElsewhere(t, p, a, q);
    SteadyNode(b, t, b', Put(t, p, a), p, tree);
    SteadyNode(b, t, b', Put(t, p, a), q, fix);
  }

  /** The loop over the properties of the fixup node. */
  method RefPropsBytes(m: array<Byte>, tree: int, fix: int, delta: U32, ghost t: Node, ghost p: Path, ghost q: Path,
                       ghost n: Node, ghost f: Node)
    returns (err: int, ghost a: Node)
    requires Both(m[..], t, p, q, tree, fix, n, f) && Clear(n, f, p, q)
    modifies m
    ensures Steady(old(m[..]), t, m[..], Put(t, p, a)) && a.kids == n.kids
    ensures match RefProps(n, f.props, delta)
            case Ok(x) => err == 0 && a == x
            case Err(c) => err == c
  {
    hide NodeOff, PropOff, At, Put, Steady, RefProp, RefProps, Words;
    ghost var b := m[..];
    a := n;
    StillHere(b, t, p, tree);
    RefPropsNone(n, f.props, delta);
    ghost var k := 0;
    var po := FirstPropOf(m[..], fix, t, q);
    while po >= 0
      invariant k <= |f.props| && RefProps(n, f.props[..k], delta) == Ok(a) && a.kids == n.kids
      invariant Steady(b, t, m[..], Put(t, p, a)) && Both(m[..], Put(t, p, a), p, q, tree, fix, a, f)
      invariant PropOrEnd(m[..], Put(t, p, a), q, k, po)
      decreases |f.props| - k
    {
      ghost var t1, b1, a1 := Put(t, p, a), m[..], a;
      var name, fixup := ReadProp(m[..], po, t1, q, k);
      RefPropsSnoc(n, f.props, k, delta);
      err, a := RefPropBytes(m, tree, name, fixup, delta, t1, p);
      PutAgain(t, p, a1, a);
      SteadyTrans(b, t, b1, t1, m[..], Put(t, p, a));
      RefPropErr(a1, f.props[k], delta);
      if err != 0 { return; }
      BothKept(b1, t1, p, q, tree, fix, a1, f, m[..], a);
      SteadyProp(b1, t1, m[..], Put(t, p, a), q, k, po);
      po := NextPropOf(m[..], po, Put(t, p, a), q, k);
      k := k + 1;
    }
    assert f.props[..k] == f.props;
    err := 0;
  }

  lemma RefPropsNone(n: Node, fs: seq<Prop>, delta: nat)
    ensures RefProps(n, fs[..0], delta) == Ok(n)
  {
    assert fs[..0] == [];
  }

  lemma RefPropErr(n: Node, f: Prop, delta: nat)
    ensures RefProp(n, f, delta).Err? ==> RefProp(n, f, delta).code == -FDT_ERR_BADOVERLAY
  {
  }

  lemma RefKidsSnoc(n: Node, fs: seq<Node>, k: nat, delta: nat)
    requires k < |fs| && RefKids(n, fs[..k], delta).Ok?
    ensures RefKids(n, fs[..k + 1], delta) == RefKid(RefKids(n, fs[..k], delta).value, fs[k], delta)
    ensures RefKids(n, fs[..k + 1], delta).Err? ==> RefKids(n, fs, delta) == RefKids(n, fs[..k + 1], delta)
  {
    hide RefKid;
    assert fs[..k + 1][..k] == fs[..k];
    if RefKids(n, fs[..k + 1], delta).Err? {
      RefKidsStuck(n, fs, k + 1, delta);
    }
  }

  lemma {:induction false} RefKidsStuck(n: Node, fs: seq<Node>, k: nat, delta: nat)
    requires k <= |fs| && RefKids(n, fs[..k], delta).Err?
    ensures RefKids(n, fs, delta) == RefKids(n, fs[..k], delta)
    decreases |fs|
  {
    hide RefKid;
    if k == |fs| {
      assert fs[..k] == fs;
    } else {
      var h := fs[..|fs| - 1];
      assert h[..k] == fs[..k];
      RefKidsStuck(n, h, k, delta);
    }
  }

  /** `overlay_update_local_node_references`, with the fixup node outside what it changes. */
  method RefNodeBytes(m: array<Byte>, tree: int, fix: int, delta: U32, ghost t: Node, ghost p: Path, ghost q: Path,
                      ghost n: Node, ghost f: Node)
    returns (err: int, ghost a: Node)
    requires Both(m[..], t, p, q, tree, fix, n, f) && Clear(n, f, p, q)
    modifies m
    ensures Steady(old(m[..]), t, m[..], Put(t, p, a))
    ensures match RefNode(n, f, delta)
            case Ok(x) => err == 0 && a == x
            case Err(c) => err == c && c != 0
    decreases f, 1
  {
    hide NodeOff, PropOff, At, Put, Steady, RefProp, RefProps, RefKids;
    ghost var b := m[..];
    err, a := RefPropsBytes(m, tree, fix, delta, t, p, q, n, f);
    RefPropsErr(n, f.props, delta);
    if err != 0 { return; }
    ghost var d := a;
    BothKept(b, t, p, q, tree, fix, n, f, m[..], d);
    err, a := RefKidsBytes(m, tree, fix, delta, b, t, p, q, d, f);
  }

  lemma {:induction false} RefPropsErr(n: Node, fs: seq<Prop>, delta: nat)
    ensures RefProps(n, fs, delta).Err? ==> RefProps(n, fs, delta).code == -FDT_ERR_BADOVERLAY
  {
    hide RefProp;
    if fs != [] {
      RefPropsErr(n, fs[..|fs| - 1], delta);
      if RefProps(n, fs[..|fs| - 1], delta).Ok? {
        RefPropErr(RefProps(n, fs[..|fs| - 1], delta).value, fs[|fs| - 1], delta);
      }
    }
  }

  /** The loop over the children of the fixup node. */
  method RefKidsBytes(m: array<Byte>, tree: int, fix: int, delta: U32, ghost b: seq<Byte>, ghost t: Node,
                      ghost p: Path, ghost q: Path,
                      ghost d: Node, ghost f: Node)
    returns (err: int, ghost a: Node)
    requires ValidPath(t, p) && Steady(b, t, m[..], Put(t, p, d)) && Both(m[..], Put(t, p, d), p, q, tree, fix, d, f)
    requires Clear(d, f, p, q)
    modifies m
    ensures Steady(b, t, m[..], Put(t, p, a))
    ensures match RefKids(d, f.kids, delta)
            case Ok(x) => err == 0 && a == x
            case Err(c) => err == c && c != 0
    decreases f, 0
  {
    hide NodeOff, PropOff, At, Put, Steady, RefNode, RefKids, MatchKid, Clear, Inside;
    a := d;
    RefKidsNone(d, f.kids, delta);
    ghost var k := 0;
    var child := FirstKidOf(m[..], fix, Put(t, p, d), q);
    while child >= 0
      invariant k <= |f.kids| && RefKids(d, f.kids[..k], delta) == Ok(a)
      invariant Steady(b, t, m[..], Put(t, p, a)) && Both(m[..], Put(t, p, a), p, q, tree, fix, a, f)
      invariant KidOrEnd(m[..], Put(t, p, a), q, k, child)
      decreases |f.kids| - k
    {
      ghost var t1, b1, a1 := Put(t, p, a), m[..], a;
      RefKidsSnoc(d, f.kids, k, delta);
      ChildNode(t1, q, k, f);
      ClearNow(d, f, k, delta, a, p, q);
      var name := NameOf(m[..], child, t1, q + [k]);
      var treeChild := FindKidOf(m[..], tree, name, t1, p);
      ghost var i := MatchKid(a.kids, name);
      if treeChild == -FDT_ERR_NOTFOUND {
        NoSuchKid(m[..], t1, p, i, a, treeChild);
        return -FDT_ERR_BADOVERLAY, a;
      }
      ChildNode(t1, p, i, a);
      ClearKid(a, f, p, q, i, k);
      ghost var x;
      err, x := RefNodeBytes(m, treeChild, child, delta, t1, p + [i], q + [k], a.kids[i], f.kids[k]);
      a := a1.(kids := a1.kids[i := x]);
      PutChild(t1, p, i, x);
      PutAgain(t, p, a1, a);
      SteadyTrans(b, t, b1, t1, m[..], Put(t, p, a));
      if err != 0 { return; }
      Spared(a1, f, p, q, i, k);
      BothKept(b1, t1, p, q, tree, fix, a1, f, m[..], a);
      SteadyNode(b1, t1, m[..], Put(t, p, a), q + [k], child);
      child := NextKidOf(m[..], child, Put(t, p, a), q, k);
      k := k + 1;
    }
    assert f.kids[..k] == f.kids;
    err := 0;
  }

  lemma RefKidsNone(n: Node, fs: seq<Node>, delta: nat)
    ensures RefKids(n, fs[..0], delta) == Ok(n)
  {
    assert fs[..0] == [];
  }

  lemma ChildNode(t: Node, q: Path, k: nat, f: Node)
    requires ValidPath(t, q) && At(t, q) == f
    ensures k < |f.kids| ==> ValidPath(t, q + [k]) && At(t, q + [k]) == f.kids[k]
  {
    hide At, Before;
    if k < |f.kids| {
      ChildAt(t, q, k);
    }
  }

  /** Matching goes by names, and those never change. */
  lemma ClearNow(d: Node, f: Node, k: nat, delta: nat, a: Node, p: Path, q: Path)
    requires k <= |f.kids| && RefKids(d, f.kids[..k], delta) == Ok(a) && Clear(d, f, p, q)
    ensures Clear(a, f, p, q)
  {
    hide MatchKid, RefKids;
    RefKidsShape(d, f.kids[..k], delta);
    ShapeKids(d, a);
    forall g | g in f.kids ensures MatchKid(a.kids, g.name) == MatchKid(d.kids, g.name) {
      MatchKidNames(a.kids, d.kids, g.name);
    }
  }

  lemma NoSuchKid(b: seq<Byte>, t: Node, p: Path, i: nat, a: Node, o: int)
    requires At(t, p) == a && o == -FDT_ERR_NOTFOUND && (i < |a.kids| ==> NodeOff(b, t, p + [i], o))
    ensures i >= |a.kids|
  {
    hide At, Before, NodeMark;
    if i < |a.kids| {
      NodeOffIs(b, t, p + [i], o);
    }
  }

  lemma Spared(a: Node, f: Node, p: Path, q: Path, i: nat, k: nat)
    requires Clear(a, f, p, q) && k < |f.kids| && i == MatchKid(a.kids, f.kids[k].name)
    ensures !(q <= p) && (p <= q ==> q[|p|] < |a.kids| && q[|p|] != i)
  {
    assert f.kids[k] in f.kids;
  }
}
