/** Exactly when renumbering an overlay and its local references succeeds, and what it returns otherwise. */
module AdjustExact {
  import opened Bytes
  import opened DeviceTree
  import opened Lexer
  import opened Walk
  import opened Edit
  import opened Phandles
  import opened RefBytes
  import opened AllNodes

  // ------------------------------------------------------------------- the phandles

  /** What is wrong with a phandle property that is to be raised by `delta`; a missing one is not wrong. */
  function PropFault(n: Node, x: seq<Byte>, delta: nat): Option<int> {
    match Lookup(n, x)
    case None => None
    case Some(v) =>
      if |v| != 4 then Some(-FDT_ERR_BADPHANDLE)
      else if Ld32(v, 0) + delta >= 0xffff_ffff then Some(-FDT_ERR_NOPHANDLES)
      else None
  }

  /** What is wrong with a node: "phandle" is looked at before "linux,phandle". */
  function NodeFault(n: Node, delta: nat): Option<int> {
    if PropFault(n, PHANDLE, delta).Some? then PropFault(n, PHANDLE, delta) else PropFault(n, LINUX_PHANDLE, delta)
  }

  /** Nothing is wrong with any node. */
  ghost predicate Faultless(t: Node, delta: nat) {
    forall q :: ValidPath(t, q) ==> NodeFault(At(t, q), delta) == None
  }

  /** The node at `q` is the first in the order of the blob with which something is wrong. */
  ghost predicate FirstFault(t: Node, delta: nat, q: Path, c: int) {
    ValidPath(t, q) && NodeFault(At(t, q), delta) == Some(c) &&
    forall p :: ValidPath(t, p) && Precedes(p, q) && p != q ==> NodeFault(At(t, p), delta) == None
  }

  lemma BumpExact(n: Node, x: seq<Byte>, delta: nat)
    requires delta < TWO32
    ensures match Bump(n, x, delta)
            case Ok(_) => PropFault(n, x, delta) == None
            case Err(c) => PropFault(n, x, delta) == Some(c)
  {
    hide Lookup, SetProp;
    match Lookup(n, x)
    case None =>
    case Some(v) =>
      if |v| == 4 {
        var w := Ld32(v, 0);
        assert Wrap32(w + delta) == if w + delta < TWO32 then w + delta else w + delta - TWO32;
      }
  }

  /** The two properties of one node. */
  lemma NodeExact(n: Node, delta: nat)
    requires delta < TWO32
    ensures match Adjust(n, delta)
            case Ok(_) => NodeFault(n, delta) == None && AdjustKids(n.kids, delta).Ok?
            case Err(c) =>
              (NodeFault(n, delta) == Some(c) || (NodeFault(n, delta) == None && AdjustKids(n.kids, delta) == Err(c)))
    ensures NodeFault(n, delta) == None ==> Adjust(n, delta).Ok? == AdjustKids(n.kids, delta).Ok?
  {
    hide Bump, Lookup, AdjustKids, Ld32;
    BumpExact(n, PHANDLE, delta);
    if Bump(n, PHANDLE, delta).Ok? {
      var a := Bump(n, PHANDLE, delta).value;
      assert PHANDLE != LINUX_PHANDLE by { assert |PHANDLE| != |LINUX_PHANDLE|; }
      BumpEffect(n, PHANDLE, delta, LINUX_PHANDLE);
      BumpExact(a, LINUX_PHANDLE, delta);
    }
  }

  /** The first child that cannot be renumbered. */
  lemma {:induction false} KidsStop(ks: seq<Node>, delta: nat) returns (i: nat)
    requires AdjustKids(ks, delta).Err?
    ensures i < |ks| && Adjust(ks[i], delta) == Err(AdjustKids(ks, delta).code) &&
            forall j :: 0 <= j < i ==> Adjust(ks[j], delta).Ok?
    decreases ks
  {
    hide Adjust;
    if Adjust(ks[0], delta).Err? {
      i := 0;
    } else {
      i := KidsStop(ks[1..], delta);
      i := i + 1;
    }
  }

  lemma {:induction false} KidsPass(ks: seq<Node>, delta: nat)
    requires forall i :: 0 <= i < |ks| ==> Adjust(ks[i], delta).Ok?
    ensures AdjustKids(ks, delta).Ok?
    decreases ks
  {
    hide Adjust;
    if ks != [] { KidsPass(ks[1..], delta); }
  }

  /**
   Renumbering succeeds if and only if at every node each of the two properties that is present is a word that does
   not reach 0xffffffff; otherwise it returns what is wrong with the first node in the order of the blob.
   */
  lemma {:induction false} RenumberExact(t: Node, delta: nat)
    requires delta < TWO32
    ensures Adjust(t, delta).Ok? <==> Faultless(t, delta)
    ensures Adjust(t, delta).Err? ==> exists q :: FirstFault(t, delta, q, Adjust(t, delta).code)
    decreases t
  {
    hide NodeFault, Adjust, AdjustKids;
    NodeExact(t, delta);
    RootOne(t);
    if NodeFault(t, delta) != None {
      RootFault(t, delta);
    } else if AdjustKids(t.kids, delta).Ok? {
      forall q | ValidPath(t, q) ensures NodeFault(At(t, q), delta) == None {
        if q != [] {
          AdjustKidsAt(t.kids, delta, q[0]);
          RenumberExact(t.kids[q[0]], delta);
        }
      }
    } else {
      var i := KidsStop(t.kids, delta);
      RenumberExact(t.kids[i], delta);
      var r :| FirstFault(t.kids[i], delta, r, Adjust(t.kids[i], delta).code);
      forall j | 0 <= j < i ensures Faultless(t.kids[j], delta) { RenumberExact(t.kids[j], delta); }
      KidFault(t, delta, i, r, Adjust(t.kids[i], delta).code);
    }
  }

  lemma RootOne(t: Node)
    ensures ValidPath(t, []) && At(t, []) == t
  {
  }

  lemma RootFault(t: Node, delta: nat)
    requires NodeFault(t, delta).Some?
    ensures FirstFault(t, delta, [], NodeFault(t, delta).value) && !Faultless(t, delta)
  {
    hide NodeFault;
    RootOne(t);
  }

  lemma KidFault(t: Node, delta: nat, i: nat, r: Path, c: int)
    requires i < |t.kids| && FirstFault(t.kids[i], delta, r, c) && NodeFault(t, delta) == None
    requires forall j :: 0 <= j < i ==> Faultless(t.kids[j], delta)
    ensures FirstFault(t, delta, [i] + r, c) && !Faultless(t, delta)
  {
    hide NodeFault;
    var q := [i] + r;
    assert q[1..] == r && q[0] == i;
    forall p | ValidPath(t, p) && Precedes(p, q) && p != q ensures NodeFault(At(t, p), delta) == None {
      if p != [] {
        assert p == [p[0]] + p[1..];
      }
    }
  }

  // ---------------------------------------------------------------- local references

  /** The length of a property's value. */
  function SizeOf(n: Node, x: seq<Byte>): Option<nat> {
    match Lookup(n, x) case Some(v) => Some(|v|) case None => None
  }

  /** The same nodes and names, and every property is as long as it was. */
  ghost predicate SameSizes(a: Node, b: Node) {
    SameShape(a, b) && forall q, x :: ValidPath(a, q) ==> SizeOf(At(b, q), x) == SizeOf(At(a, q), x)
  }

  lemma SizesSelf(a: Node)
    ensures SameSizes(a, a)
  {
    SameShapeSelf(a);
  }

  lemma SizesTrans(a: Node, b: Node, c: Node)
    requires SameSizes(a, b) && SameSizes(b, c)
    ensures SameSizes(a, c)
  {
    hide SameShape, At, SizeOf, ValidPath;
    SameShapeTrans(a, b, c);
    forall q, x | ValidPath(a, q) ensures SizeOf(At(c, q), x) == SizeOf(At(a, q), x) {
      ShapePath(a, b, q);
    }
  }

  lemma SizesKid(a: Node, b: Node, i: nat)
    requires SameSizes(a, b) && i < |a.kids|
    ensures i < |b.kids| && SameSizes(a.kids[i], b.kids[i])
  {
    hide SameShape, SizeOf;
    ShapeKids(a, b);
    forall q, x | ValidPath(a.kids[i], q) ensures SizeOf(At(b.kids[i], q), x) == SizeOf(At(a.kids[i], q), x) {
      var p := [i] + q;
      assert p[1..] == q && ValidPath(a, p);
      assert SizeOf(At(b, p), x) == SizeOf(At(a, p), x);
    }
  }

  lemma SizesHere(a: Node, b: Node, x: seq<Byte>)
    requires SameSizes(a, b)
    ensures SizeOf(b, x) == SizeOf(a, x)
  {
    hide SameShape, SizeOf;
    RootOne(a);
    RootOne(b);
  }

  /** A fixup property that can be applied: whole words, for a property that is there, at positions the check passes. */
  predicate Listable(n: Node, f: Prop) {
    |f.value| % 4 == 0 && SizeOf(n, f.name).Some? &&
    forall i :: 0 <= i < |f.value| / 4 ==> Wrap32(Ld32(f.value, 4 * i) + 4) <= SizeOf(n, f.name).value
  }

  /** A fixup tree that can be applied: every property, and every child to the node that its name selects. */
  predicate Applicable(n: Node, f: Node)
    decreases f
  {
    (forall p :: p in f.props ==> Listable(n, p)) &&
    forall g :: g in f.kids ==> MatchKid(n.kids, g.name) < |n.kids| && Applicable(n.kids[MatchKid(n.kids, g.name)], g)
  }

  lemma {:induction false} ApplicableSame(a: Node, b: Node, f: Node)
    requires SameSizes(a, b)
    ensures Applicable(a, f) == Applicable(b, f)
    decreases f
  {
    hide SameSizes, MatchKid, SizeOf, Ld32;
    forall p | p in f.props ensures Listable(a, p) == Listable(b, p) {
      SizesHere(a, b, p.name);
    }
    SizesShape(a, b);
    ShapeKids(a, b);
    forall g | g in f.kids
      ensures MatchKid(a.kids, g.name) == MatchKid(b.kids, g.name)
      ensures MatchKid(a.kids, g.name) < |a.kids| ==>
                Applicable(a.kids[MatchKid(a.kids, g.name)], g) == Applicable(b.kids[MatchKid(a.kids, g.name)], g)
    {
      MatchKidNames(a.kids, b.kids, g.name);
      if MatchKid(a.kids, g.name) < |a.kids| {
        SizesKid(a, b, MatchKid(a.kids, g.name));
        ApplicableSame(a.kids[MatchKid(a.kids, g.name)], b.kids[MatchKid(a.kids, g.name)], g);
      }
    }
  }

  lemma SizesShape(a: Node, b: Node)
    requires SameSizes(a, b)
    ensures SameShape(a, b)
  {
  }

  /** References leave every length. */
  lemma RefSizes(n: Node, f: Node, delta: nat)
    requires RefNode(n, f, delta).Ok?
    ensures SameSizes(n, RefNode(n, f, delta).value)
  {
    hide SameShape, At, RefNode, Lookup, PosAt, ValidPath, Shifted;
    RefShape(n, f, delta);
    forall q, x | ValidPath(n, q) ensures SizeOf(At(RefNode(n, f, delta).value, q), x) == SizeOf(At(n, q), x) {
      RefEverywhere(n, f, delta, q, x);
    }
  }

  lemma PassesWords(v: seq<Byte>, f: seq<Byte>)
    requires |f| % 4 == 0
    ensures Passes(v, Words(f)) <==> forall i :: 0 <= i < |f| / 4 ==> Wrap32(Ld32(f, 4 * i) + 4) <= |v|
  {
    hide Ld32;
    WordsSize(f);
    forall i | 0 <= i < |f| / 4 ensures Words(f)[i] == Ld32(f, 4 * i) {
      WordsAt(f, i);
    }
  }

  lemma RefPropExact(n: Node, f: Prop, delta: nat)
    ensures RefProp(n, f, delta).Ok? <==> Listable(n, f)
    ensures RefProp(n, f, delta).Err? ==> RefProp(n, f, delta).code == -FDT_ERR_BADOVERLAY
  {
    hide Lookup, Words, Passes, Ld32, SetProp;
    if |f.value| % 4 == 0 && Lookup(n, f.name).Some? {
      PassesWords(Lookup(n, f.name).value, f.value);
    }
  }

  lemma {:induction false} RefPropsExact(n: Node, fs: seq<Prop>, delta: nat)
    ensures RefProps(n, fs, delta).Ok? <==> forall f :: f in fs ==> Listable(n, f)
    ensures RefProps(n, fs, delta).Err? ==> RefProps(n, fs, delta).code == -FDT_ERR_BADOVERLAY
    decreases |fs|
  {
    hide RefProp, Listable;
    if fs != [] {
      var h, f := fs[..|fs| - 1], fs[|fs| - 1];
      RefPropsExact(n, h, delta);
      assert fs == h + [f];
      if RefProps(n, h, delta).Ok? {
        var a := RefProps(n, h, delta).value;
        RefPropExact(a, f, delta);
        RefPropsEffect(n, h, delta, f.name);
        ListableSame(n, a, f);
      } else {
        assert exists g :: g in h && !Listable(n, g);
      }
    }
  }

  lemma ListableSame(n: Node, a: Node, f: Prop)
    requires match Lookup(n, f.name) case None => Lookup(a, f.name).None?
                                     case Some(v) => Lookup(a, f.name).Some? && |Lookup(a, f.name).value| == |v|
    ensures Listable(n, f) == Listable(a, f)
  {
    hide Lookup, Ld32;
  }

  /** The pass over the references succeeds if and only if the fixups can be applied; otherwise it is BADOVERLAY. */
  lemma {:induction false} RefExact(n: Node, f: Node, delta: nat)
    ensures RefNode(n, f, delta).Ok? <==> Applicable(n, f)
    ensures RefNode(n, f, delta).Err? ==> RefNode(n, f, delta).code == -FDT_ERR_BADOVERLAY
    decreases f, 1
  {
    hide RefProps, RefKids, Listable, MatchKid;
    RefPropsExact(n, f.props, delta);
    if RefProps(n, f.props, delta).Ok? {
      var a := RefProps(n, f.props, delta).value;
      RefPropsEffect(n, f.props, delta, []);
      RefKidsExact(a, f.kids, delta);
    }
  }

  /** The children of a fixup node. */
  predicate KidApplicable(n: Node, g: Node) {
    MatchKid(n.kids, g.name) < |n.kids| && Applicable(n.kids[MatchKid(n.kids, g.name)], g)
  }

  lemma {:induction false} RefKidsExact(n: Node, fs: seq<Node>, delta: nat)
    ensures RefKids(n, fs, delta).Ok? <==> forall g :: g in fs ==> KidApplicable(n, g)
    ensures RefKids(n, fs, delta).Err? ==> RefKids(n, fs, delta).code == -FDT_ERR_BADOVERLAY
    decreases fs, 0
  {
    hide RefNode, KidApplicable, MatchKid;
    if fs != [] {
      var h, g := fs[..|fs| - 1], fs[|fs| - 1];
      RefKidsExact(n, h, delta);
      assert fs == h + [g];
      if RefKids(n, h, delta).Ok? {
        var a := RefKids(n, h, delta).value;
        RefKidsSizes(n, h, delta);
        KidSame(n, a, g);
        RefKidExact(a, g, delta);
      } else {
        assert exists x :: x in h && !KidApplicable(n, x);
      }
    }
  }

  lemma {:induction false} RefKidExact(n: Node, g: Node, delta: nat)
    ensures RefKid(n, g, delta).Ok? <==> KidApplicable(n, g)
    ensures RefKid(n, g, delta).Err? ==> RefKid(n, g, delta).code == -FDT_ERR_BADOVERLAY
    decreases g, 2
  {
    hide RefNode, MatchKid, Applicable;
    var i := MatchKid(n.kids, g.name);
    if i < |n.kids| { RefExact(n.kids[i], g, delta); }
  }

  lemma KidSame(n: Node, a: Node, g: Node)
    requires SameSizes(n, a)
    ensures KidApplicable(n, g) == KidApplicable(a, g)
  {
    hide SameSizes, MatchKid, Applicable;
    SizesShape(n, a);
    ShapeKids(n, a);
    MatchKidNames(n.kids, a.kids, g.name);
    var i := MatchKid(n.kids, g.name);
    if i < |n.kids| {
      SizesKid(n, a, i);
      ApplicableSame(n.kids[i], a.kids[i], g);
    }
  }

  lemma RefKidsSizes(n: Node, fs: seq<Node>, delta: nat)
    requires RefKids(n, fs, delta).Ok?
    ensures SameSizes(n, RefKids(n, fs, delta).value)
  {
    hide SameShape, RefKids, Lookup, Shifted, PosIn;
    var a := RefKids(n, fs, delta).value;
    RefKidsShape(n, fs, delta);
    forall q, x | ValidPath(n, q) ensures SizeOf(At(a, q), x) == SizeOf(At(n, q), x) {
      if q == [] {
        LookupProps(a, n, x);
      } else {
        RefKidsEverywhere(n, fs, delta, q, x);
      }
    }
  }

  // ------------------------------------------------------------- what the lists amount to

  /** Property `x` of fixup node `f` lists position `p`. */
  ghost predicate ListsHere(f: Node, x: seq<Byte>, p: nat) {
    exists h, i :: h in f.props && h.name == x && 0 <= i && 4 * i + 4 <= |h.value| && Ld32At(h.value, i) == p
  }

  function Ld32At(v: seq<Byte>, i: int): int {
    if 0 <= i && 4 * i + 4 <= |v| then Ld32(v, 4 * i) else -1
  }

  /** The fixups below `f` list position `p` for property `x` of the node at `path` below `n`. */
  ghost predicate Lists(n: Node, f: Node, path: Path, x: seq<Byte>, p: nat)
    decreases f, 0
  {
    if path == [] then ListsHere(f, x, p)
    else exists g :: g in f.kids && ListsKid(n, g, path, x, p)
  }

  ghost predicate ListsKid(n: Node, g: Node, path: Path, x: seq<Byte>, p: nat)
    requires path != []
    decreases g, 1
  {
    MatchKid(n.kids, g.name) == path[0] && path[0] < |n.kids| && Lists(n.kids[path[0]], g, path[1..], x, p)
  }

  lemma WordIn(v: seq<Byte>, p: nat)
    requires |v| % 4 == 0
    ensures p in Words(v) <==> exists i :: 0 <= i && 4 * i + 4 <= |v| && Ld32At(v, i) == p
  {
    hide Ld32;
    WordsSize(v);
    forall i | 0 <= i < |v| / 4 ensures Words(v)[i] == Ld32At(v, i) {
      WordsAt(v, i);
    }
  }

  lemma {:induction false} PosOfExact(fs: seq<Prop>, x: seq<Byte>, p: nat)
    requires forall f :: f in fs ==> |f.value| % 4 == 0
    ensures p in PosOf(fs, x) <==> exists f :: f in fs && f.name == x && p in Words(f.value)
    decreases |fs|
  {
    hide Words;
    if fs != [] {
      PosOfExact(fs[..|fs| - 1], x, p);
      assert fs == fs[..|fs| - 1] + [fs[|fs| - 1]];
    }
  }

  /** The positions of the pass are exactly the listed ones. */
  lemma {:induction false} PositionsExact(n: Node, f: Node, path: Path, x: seq<Byte>, p: nat)
    requires Applicable(n, f)
    ensures p in PosAt(n, f, path, x) <==> Lists(n, f, path, x, p)
    decreases f, 1
  {
    hide Words, PosOf, MatchKid, Listable, Ld32At, PosIn;
    if path == [] {
      WholeWords(n, f);
      PosOfExact(f.props, x, p);
      forall h | h in f.props ensures p in Words(h.value) <==>
          exists i :: 0 <= i && 4 * i + 4 <= |h.value| && Ld32At(h.value, i) == p {
        WordIn(h.value, p);
      }
    } else {
      PositionsIn(n, f.kids, path, x, p);
    }
  }

  lemma WholeWords(n: Node, f: Node)
    requires Applicable(n, f)
    ensures forall h :: h in f.props ==> |h.value| % 4 == 0
  {
    hide MatchKid, SizeOf, Ld32;
    forall h | h in f.props ensures |h.value| % 4 == 0 {
      assert Listable(n, h);
    }
  }

  lemma {:induction false} PositionsIn(n: Node, fs: seq<Node>, path: Path, x: seq<Byte>, p: nat)
    requires path != [] && forall g :: g in fs ==> KidApplicable(n, g)
    ensures p in PosIn(n, fs, path, x) <==> exists g :: g in fs && ListsKid(n, g, path, x, p)
    decreases fs, 0
  {
    hide MatchKid, PosAt, Lists, Applicable;
    if fs != [] {
      var h, g := fs[..|fs| - 1], fs[|fs| - 1];
      PositionsIn(n, h, path, x, p);
      assert fs == h + [g];
      assert KidApplicable(n, g);
      if MatchKid(n.kids, g.name) == path[0] && path[0] < |n.kids| {
        PositionsExact(n.kids[path[0]], g, path[1..], x, p);
      }
    }
  }

  /** Byte `i` lies in no listed word. */
  ghost predicate Unlisted(n: Node, f: Node, path: Path, x: seq<Byte>, i: nat) {
    forall p: nat :: Lists(n, f, path, x, p) ==> i < p || p + 4 <= i
  }

  /**
   What the pass makes of a value: with the listed positions at least a word apart, the word at each of them that fits
   is raised by `delta` once, and every byte in none of these words is what it was.
   */
  lemma ReferencesMean(n: Node, f: Node, delta: nat, path: Path, x: seq<Byte>)
    requires RefNode(n, f, delta).Ok? && ValidPath(n, path) && Lookup(At(n, path), x).Some?
    requires Apart(PosAt(n, f, path, x))
    ensures var n', v := RefNode(n, f, delta).value, Lookup(At(n, path), x).value;
            ValidPath(n', path) && Lookup(At(n', path), x).Some? &&
            var w := Lookup(At(n', path), x).value;
            |w| == |v| &&
            (forall p: nat :: Lists(n, f, path, x, p) && p + 4 <= |v| ==> Ld32(w, p) == Wrap32(Ld32(v, p) + delta)) &&
            (forall i :: 0 <= i < |v| && Unlisted(n, f, path, x, i) ==> w[i] == v[i])
  {
    hide RefNode, Lookup, At, PosAt, Shifted, Ld32, Lists, Apart, Applicable, ValidPath;
    RefExact(n, f, delta);
    RefEverywhere(n, f, delta, path, x);
    var v, ps := Lookup(At(n, path), x).value, PosAt(n, f, path, x);
    var w := Shifted(v, ps, delta);
    forall p: nat ensures p in ps <==> Lists(n, f, path, x, p) { PositionsExact(n, f, path, x, p); }
    forall p: nat | Lists(n, f, path, x, p) && p + 4 <= |v| ensures Ld32(w, p) == Wrap32(Ld32(v, p) + delta) {
      var k :| 0 <= k < |ps| && ps[k] == p;
      ShiftedWord(v, ps, delta, k);
    }
    forall i | 0 <= i < |v| && Unlisted(n, f, path, x, i) ensures w[i] == v[i] {
      forall k | 0 <= k < |ps| ensures i < ps[k] || ps[k] + 4 <= i { assert ps[k] in ps; }
      ByteUnshifted(v, ps, delta, i);
    }
  }

  lemma {:induction false} ByteUnshifted(v: seq<Byte>, ps: seq<nat>, delta: nat, i: nat)
    requires i < |v| && forall k :: 0 <= k < |ps| ==> i < ps[k] || ps[k] + 4 <= i
    ensures Shifted(v, ps, delta)[i] == v[i]
    decreases |ps|
  {
    hide Ld32, Be32;
    if ps != [] {
      var h, p := ps[..|ps| - 1], ps[|ps| - 1];
      forall k | 0 <= k < |h| ensures i < h[k] || h[k] + 4 <= i { assert h[k] == ps[k]; }
      ByteUnshifted(v, h, delta, i);
      assert i < p || p + 4 <= i;
    }
  }
}
