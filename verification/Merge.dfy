/** Merging one tree into another, as `overlay_apply_node` does it, and what the result contains. */
module Merge {
  import opened Bytes
  import opened DeviceTree
  import opened Walk
  import opened Edit

  function MergeProps(n: Node, ps: seq<Prop>): Node {
    if ps == [] then n
    else
      var last := |ps| - 1;
      SetProp(MergeProps(n, ps[..last]), ps[last].name, ps[last].value)
  }

  /** The tree that `overlay_apply_node` makes of node `n` and overlay node `o`. */
  function MergeNode(n: Node, o: Node): Node
    decreases o, 2
  {
    MergeKids(MergeProps(n, o.props), o.kids)
  }

  function MergeKids(n: Node, ks: seq<Node>): Node
    decreases ks, 0
  {
    if ks == [] then n
    else
      var last := |ks| - 1;
      MergeKid(MergeKids(n, ks[..last]), ks[last])
  }

  /** One overlay child: merged into the child that matches its name, or added in front. */
  function MergeKid(n: Node, k: Node): Node
    decreases k, 3
  {
    var i := MatchKid(n.kids, k.name);
    if i < |n.kids| then n.(kids := n.kids[i := MergeNode(n.kids[i], k)])
    else n.(kids := [MergeNode(Node(k.name, [], []), k)] + n.kids)
  }

  // ------------------------------------------------------- what a merge contains

  /** The last value given to a name. */
  function LastValue(ps: seq<Prop>, name: seq<Byte>): Option<seq<Byte>> {
    if ps == [] then None
    else
      var p := ps[|ps| - 1];
      if p.name == name then Some(p.value) else LastValue(ps[..|ps| - 1], name)
  }

  lemma {:induction false} MergePropsLookup(n: Node, ps: seq<Prop>, name: seq<Byte>)
    ensures Lookup(MergeProps(n, ps), name) == if LastValue(ps, name).Some? then
              LastValue(ps, name) else Lookup(n, name)
    ensures MergeProps(n, ps).kids == n.kids && MergeProps(n, ps).name == n.name
  {
    hide Lookup, SetProp;
    if ps != [] {
      var last := |ps| - 1;
      MergePropsLookup(n, ps[..last], name);
      SetPropLookup(MergeProps(n, ps[..last]), ps[last].name, ps[last].value, name);
      SetPropKids(MergeProps(n, ps[..last]), ps[last].name, ps[last].value);
    }
  }

  lemma {:induction false} MergeKidsProps(n: Node, ks: seq<Node>)
    ensures MergeKids(n, ks).props == n.props && MergeKids(n, ks).name == n.name
  {
    hide MergeNode, MatchKid;
    if ks != [] {
      MergeKidsProps(n, ks[..|ks| - 1]);
    }
  }

  /** Overlay properties win; every other property keeps its value; the name stays. */
  lemma MergeLookup(n: Node, o: Node, name: seq<Byte>)
    ensures MergeNode(n, o).name == n.name
    ensures Lookup(MergeNode(n, o), name) == if LastValue(o.props, name).Some? then
              LastValue(o.props, name) else Lookup(n, name)
  {
    MergePropsLookup(n, o.props, name);
    MergeKidsProps(MergeProps(n, o.props), o.kids);
  }

  /**
   What a merge with overlay children `ks` leaves of the children `base`: added children stand in front, the old
   ones follow in their order and under their names, and each is what it was unless it is the first match of
   an overlay child.
   */
  ghost predicate Placed(base: seq<Node>, ks: seq<Node>, r: seq<Node>) {
    |base| <= |r| <= |base| + |ks| && Old(base, ks, r[|r| - |base|..]) && Added(ks, r[..|r| - |base|])
  }

  ghost predicate Old(base: seq<Node>, ks: seq<Node>, r: seq<Node>) {
    |r| == |base| && forall i ::
      0 <= i < |base| ==> r[i].name == base[i].name && (Spared(base, ks, i) ==> r[i] == base[i])
  }

  ghost predicate Added(ks: seq<Node>, r: seq<Node>) {
    forall j :: 0 <= j < |r| ==> exists k :: 0 <= k < |ks| && ks[k].name == r[j].name
  }

  /** No overlay child has child `i` as its first match. */
  ghost predicate Spared(base: seq<Node>, ks: seq<Node>, i: nat) {
    forall k :: 0 <= k < |ks| ==> MatchKid(base, ks[k].name) != i
  }

  /** The first match behind added children that do not match is the first match of the old ones. */
  lemma MatchBehind(base: seq<Node>, ks: seq<Node>, r: seq<Node>, s: seq<Byte>)
    requires Placed(base, ks, r)
    ensures var i, d := MatchKid(r, s), |r| - |base|; d <= i < |r| ==> MatchKid(base, s) == i - d
  {
    hide NameEq, MatchKid;
    var i, j, d := MatchKid(r, s), MatchKid(base, s), |r| - |base|;
    var q := r[d..];
    if d <= i < |r| {
      assert q[i - d] == r[i];
      if j < |base| { assert q[j] == r[d + j]; }
    }
  }

  lemma {:induction false} MergeKidsPlaces(n: Node, ks: seq<Node>)
    ensures Placed(n.kids, ks, MergeKids(n, ks).kids)
  {
    if ks != [] {
      hide NameEq, MergeNode, MergeKid, MatchKid, Placed;
      MergeKidsPlaces(n, ks[..|ks| - 1]);
      MergeKidPlaces(n.kids, ks, MergeKids(n, ks[..|ks| - 1]));
    }
  }

  lemma MergeKidPlaces(base: seq<Node>, ks: seq<Node>, m: Node)
    requires ks != [] && Placed(base, ks[..|ks| - 1], m.kids)
    ensures Placed(base, ks, MergeKid(m, ks[|ks| - 1]).kids)
  {
    hide NameEq, MergeNode, MatchKid, Placed, Spared;
    var k := ks[|ks| - 1];
    var i := MatchKid(m.kids, k.name);
    PlacedMore(base, ks, m.kids);
    if i < |m.kids| {
      MergeName(m.kids[i], k);
      FirstMatch(base, ks, m.kids, i);
      PlacedReplace(base, ks, m.kids, i, MergeNode(m.kids[i], k));
      assert MergeKid(m, k).kids == m.kids[i := MergeNode(m.kids[i], k)];
    } else {
      MergeName(Node(k.name, [], []), k);
      PlacedFront(base, ks, m.kids, MergeNode(Node(k.name, [], []), k));
      assert MergeKid(m, k).kids == [MergeNode(Node(k.name, [], []), k)] + m.kids;
    }
  }

  lemma PlacedMore(base: seq<Node>, ks: seq<Node>, r: seq<Node>)
    requires ks != [] && Placed(base, ks[..|ks| - 1], r)
    ensures Placed(base, ks, r) && |r| - |base| < |ks|
  {
    hide MatchKid, Spared;
    var h, d := ks[..|ks| - 1], |r| - |base|;
    forall i | 0 <= i < |base| && Spared(base, ks, i) ensures Spared(base, h, i) {
      SparedLess(base, ks, i);
    }
    var a := r[..d];
    forall j | 0 <= j < |a| ensures exists y :: 0 <= y < |ks| && ks[y].name == a[j].name {
      var y :| 0 <= y < |h| && h[y].name == a[j].name;
      assert ks[y].name == a[j].name;
    }
  }

  lemma SparedLess(base: seq<Node>, ks: seq<Node>, i: nat)
    requires ks != [] && Spared(base, ks, i)
    ensures Spared(base, ks[..|ks| - 1], i)
  {
    hide MatchKid;
    var h := ks[..|ks| - 1];
    forall y | 0 <= y < |h| ensures MatchKid(base, h[y].name) != i {
      assert h[y] == ks[y];
    }
  }

  lemma FirstMatch(base: seq<Node>, ks: seq<Node>, r: seq<Node>, i: nat)
    requires Placed(base, ks, r) && ks != [] && i == MatchKid(r, ks[|ks| - 1].name) && i < |r|
    ensures |base| <= |r| && (i >= |r| - |base| ==> !Spared(base, ks, i - (|r| - |base|)))
  {
    hide MatchKid;
    MatchBehind(base, ks, r, ks[|ks| - 1].name);
  }

  lemma PlacedReplace(base: seq<Node>, ks: seq<Node>, r: seq<Node>, i: nat, x: Node)
    requires Placed(base, ks, r) && i < |r| && x.name == r[i].name
    requires i >= |r| - |base| ==> !Spared(base, ks, i - (|r| - |base|))
    ensures Placed(base, ks, r[i := x])
  {
    hide Spared;
    var r', d := r[i := x], |r| - |base|;
    if i < d {
      assert r'[d..] == r[d..] && r'[..d] == r[..d][i := x];
    } else {
      assert r'[..d] == r[..d] && r'[d..] == r[d..][i - d := x];
    }
  }

  lemma PlacedFront(base: seq<Node>, ks: seq<Node>, r: seq<Node>, x: Node)
    requires Placed(base, ks, r) && |r| - |base| < |ks| && x.name == ks[|ks| - 1].name
    ensures Placed(base, ks, [x] + r)
  {
    hide Spared;
    var r', d := [x] + r, |r| - |base|;
    assert r'[d + 1..] == r[d..] && r'[..d + 1] == [x] + r[..d];
  }

  lemma MergeName(n: Node, o: Node)
    ensures MergeNode(n, o).name == n.name
  {
    hide Lookup;
    MergeLookup(n, o, []);
  }

  /** Children of the target that are not the first match of an overlay child stay what and where they are. */
  lemma MergeElsewhere(n: Node, o: Node)
    ensures Placed(n.kids, o.kids, MergeNode(n, o).kids)
  {
    hide MergeKids, Lookup, Placed;
    MergePropsLookup(n, o.props, []);
    MergeKidsPlaces(MergeProps(n, o.props), o.kids);
  }

  // ---------------------------------------------- everything the overlay says, holds

  /** `n` says what `o` says: its last values, and at every level those children that no later sibling clashes with. */
  predicate Covers(n: Node, o: Node)
    decreases o
  {
    (forall p :: p in o.props ==> Lookup(n, p.name) == LastValue(o.props, p.name)) &&
    (forall i :: 0 <= i < |o.kids| && Unclashed(o.kids, i) ==>
       var j := MatchKid(n.kids, o.kids[i].name);
       j < |n.kids| && Covers(n.kids[j], o.kids[i]))
  }

  /** The child of `n` that overlay child `k` matches says everything that `k` says. */
  predicate Covered(n: Node, k: Node) {
    var i := MatchKid(n.kids, k.name);
    i < |n.kids| && Covers(n.kids[i], k)
  }

  /** No later sibling has a name that selects that of child `i`, or is selected by it. */
  predicate Unclashed(ks: seq<Node>, i: nat)
    requires i < |ks|
  {
    forall j :: i < j < |ks| ==> !NameEq(ks[i].name, ks[j].name) && !NameEq(ks[j].name, ks[i].name)
  }

  /** A name that matches two names makes one of them match the other. */
  lemma MatchesBoth(name: seq<Byte>, a: seq<Byte>, c: seq<Byte>)
    requires NameEq(name, a) && NameEq(name, c)
    ensures NameEq(a, c) || NameEq(c, a)
  {
    if |a| == |c| {
      assert a == c;
    } else if |a| < |c| {
      assert c[..|a|] == name[..|c|][..|a|] == name[..|a|];
      assert c[|a|] == name[..|c|][|a|];
    } else {
      assert a[..|c|] == name[..|a|][..|c|] == name[..|c|];
      assert a[|c|] == name[..|a|][|c|];
    }
  }

  lemma MatchKidIs(ks: seq<Node>, s: seq<Byte>, i: nat)
    requires i < |ks| && NameEq(ks[i].name, s) && forall j :: 0 <= j < i ==> !NameEq(ks[j].name, s)
    ensures MatchKid(ks, s) == i
  {
  }

  /** Merging one overlay child leaves alone the child that another one matches. */
  lemma MergeKidOther(n: Node, k: Node, c: seq<Byte>)
    requires !NameEq(k.name, c) && !NameEq(c, k.name) && MatchKid(n.kids, c) < |n.kids|
    ensures var n', i := MergeKid(n, k), MatchKid(MergeKid(n, k).kids, c);
            i < |n'.kids| && n'.kids[i] == n.kids[MatchKid(n.kids, c)]
  {
    hide MergeNode, NameEq, MatchKid;
    var n', i, j := MergeKid(n, k), MatchKid(n.kids, c), MatchKid(n.kids, k.name);
    if j < |n.kids| {
      if i == j { MatchesBoth(n.kids[i].name, k.name, c); }
      MergeLookup(n.kids[j], k, []);
      MatchKidIs(n'.kids, c, i);
    } else {
      MergeLookup(Node(k.name, [], []), k, []);
      MatchKidIs(n'.kids, c, i + 1);
    }
  }

  /** The child that an overlay child matches afterwards is a merge with it. */
  lemma MergeKidSelf(n: Node, k: Node) returns (x: Node)
    ensures var n', i := MergeKid(n, k), MatchKid(MergeKid(n, k).kids, k.name);
            i < |n'.kids| && n'.kids[i] == MergeNode(x, k)
  {
    hide MergeNode, MatchKid;
    var n', j := MergeKid(n, k), MatchKid(n.kids, k.name);
    if j < |n.kids| {
      x := n.kids[j];
      MergeLookup(x, k, []);
      MatchKidIs(n'.kids, k.name, j);
    } else {
      x := Node(k.name, [], []);
      MergeLookup(x, k, []);
      MatchKidIs(n'.kids, k.name, 0);
    }
  }

  /** After a merge the target says what the overlay node says, at every level. */
  lemma {:induction false} MergeCovers(n: Node, o: Node)
    ensures Covers(MergeNode(n, o), o)
    decreases o, 1
  {
    hide MergeKid, NameEq, MatchKid, Unclashed;
    var n', m := MergeNode(n, o), MergeProps(n, o.props);
    forall p | p in o.props ensures Lookup(n', p.name) == LastValue(o.props, p.name) {
      MergeLookup(n, o, p.name);
      LastValueSome(o.props, p);
    }
    MergeKidsCover(m, o, |o.kids|);
    assert o.kids[..|o.kids|] == o.kids;
    forall i | 0 <= i < |o.kids| && Unclashed(o.kids, i) ensures Covered(n', o.kids[i]) { }
  }

  lemma LastValueSome(ps: seq<Prop>, p: Prop)
    requires p in ps
    ensures LastValue(ps, p.name).Some?
  {
    if ps[|ps| - 1] != p {
      assert p in ps[..|ps| - 1];
    }
  }

  lemma {:induction false} MergeKidsCover(n: Node, o: Node, m: nat)
    requires m <= |o.kids|
    ensures forall i :: 0 <= i < m && Unclashed(o.kids[..m], i) ==> Covered(MergeKids(n, o.kids[..m]), o.kids[i])
    decreases o, 0, m
  {
    if m > 0 {
      hide MergeKid, NameEq, MatchKid, MergeNode, Covers, Covered, Unclashed;
      var ks, last := o.kids[..m], m - 1;
      assert ks[..last] == o.kids[..last];
      var a, k := MergeKids(n, ks[..last]), ks[last];
      var n' := MergeKid(a, k);
      MergeKidsCover(n, o, last);
      var x := MergeKidSelf(a, k);
      MergeCovers(x, k);
      CoveredSelf(n', k, x);
      forall i | 0 <= i < m && Unclashed(ks, i)
        ensures Covered(n', o.kids[i])
      {
        if i < last {
          UnclashedLess(ks, i);
          CoveredOther(a, k, o.kids[i]);
        }
      }
    }
  }

  lemma UnclashedLess(ks: seq<Node>, i: nat)
    requires i < |ks| - 1 && Unclashed(ks, i)
    ensures Unclashed(ks[..|ks| - 1], i)
    ensures !NameEq(ks[i].name, ks[|ks| - 1].name) && !NameEq(ks[|ks| - 1].name, ks[i].name)
  {
    hide NameEq;
    var h := ks[..|ks| - 1];
    forall j | i < j < |h| ensures !NameEq(h[i].name, h[j].name) && !NameEq(h[j].name, h[i].name) {
      assert h[j] == ks[j] && h[i] == ks[i];
    }
  }

  lemma CoveredSelf(n: Node, k: Node, x: Node)
    requires var i := MatchKid(n.kids, k.name);
               i < |n.kids| && n.kids[i] == MergeNode(x, k) && Covers(MergeNode(x, k), k)
    ensures Covered(n, k)
  {
    hide MatchKid, MergeNode, Covers;
  }

  lemma CoveredOther(a: Node, k: Node, c: Node)
    requires Covered(a, c) && !NameEq(k.name, c.name) && !NameEq(c.name, k.name)
    ensures Covered(MergeKid(a, k), c)
  {
    hide MatchKid, MergeKid, Covers, NameEq;
    MergeKidOther(a, k, c.name);
  }
}
