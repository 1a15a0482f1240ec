/** What a merge leaves of the base and what it brings in, at every level, without saying how it is done. */
module MergeKeeps {
  import opened Bytes
  import opened DeviceTree
  import opened Walk
  import opened Edit
  import opened Merge

  // ---------------------------------------------------------- overlay nodes taken together

  /** The properties of overlay nodes that go into the same place. */
  function PropsOf(ks: seq<Node>): seq<Prop> {
    if ks == [] then [] else PropsOf(ks[..|ks| - 1]) + ks[|ks| - 1].props
  }

  /** And their children. */
  function KidsOf(ks: seq<Node>): seq<Node> {
    if ks == [] then [] else KidsOf(ks[..|ks| - 1]) + ks[|ks| - 1].kids
  }

  /** The overlay nodes in `ks` whose name selects one of this name. */
  function Selecting(ks: seq<Node>, name: seq<Byte>): seq<Node> {
    if ks == [] then []
    else
      var k := ks[|ks| - 1];
      Selecting(ks[..|ks| - 1], name) + if NameEq(name, k.name) then [k] else []
  }

  /** The overlay nodes in `ks` that have child `i` of the base as their first match. */
  function Into(base: seq<Node>, i: nat, ks: seq<Node>): seq<Node> {
    if ks == [] then []
    else
      var k := ks[|ks| - 1];
      Into(base, i, ks[..|ks| - 1]) + if MatchKid(base, k.name) == i then [k] else []
  }

  /** Some overlay node has this name. */
  predicate Named(ks: seq<Node>, name: seq<Byte>) {
    exists k :: k in ks && k.name == name
  }

  /**
   A node that was not in the base holds only what overlay nodes with properties `ps` and children `ks` say: every
   property is one of theirs, every child has the name of one of their children and holds only what those of their
   children say whose name selects it.
   */
  ghost predicate Only(r: Node, ps: seq<Prop>, ks: seq<Node>)
    decreases r, 0
  {
    (forall p :: p in r.props ==> p in ps) &&
    (forall c :: c in r.kids ==> OnlyKid(c, ks))
  }

  ghost predicate OnlyKid(c: Node, ks: seq<Node>)
    decreases c, 1
  {
    Named(ks, c.name) && Only(c, PropsOf(Selecting(ks, c.name)), KidsOf(Selecting(ks, c.name)))
  }

  /** No property of that name among `ps`. */
  predicate Unset(ps: seq<Prop>, x: seq<Byte>) {
    forall p :: p in ps ==> p.name != x
  }

  /**
   What node `n` of the base has become, `r`, when overlay nodes with properties `ps` and children `ks` went into it:
   it has its name, every property that is not among `ps` has its value, and no property came from elsewhere. The
   children that were added stand in front and hold only what the overlay says. Every child of the base stands behind
   them at its place, and it is what it was, or if overlay nodes have it as their first match, what became of it with
   them.
   */
  ghost predicate Keeps(r: Node, n: Node, ps: seq<Prop>, ks: seq<Node>)
    decreases n, 0
  {
    r.name == n.name && (forall x :: Unset(ps, x) ==> Lookup(r, x) == Lookup(n, x)) &&
    (forall p :: p in r.props ==> p in n.props || p in ps) &&
    |n.kids| <= |r.kids| &&
    var d := |r.kids| - |n.kids|;
    (forall j :: 0 <= j < d ==> OnlyKid(r.kids[j], ks)) &&
    (forall i :: 0 <= i < |n.kids| ==> KeepsKid(r.kids[d + i], n.kids[i], Into(n.kids, i, ks)))
  }

  /** What a child of the base has become when the overlay nodes `os` have it as their first match. */
  ghost predicate KeepsKid(r: Node, n: Node, os: seq<Node>)
    decreases n, 1
  {
    if os == [] then r == n else Keeps(r, n, PropsOf(os), KidsOf(os))
  }

  // ----------------------------------------------------------------- more of the overlay

  lemma SelectingMore(ks: seq<Node>, k: Node, name: seq<Byte>)
    ensures Selecting(ks + [k], name) == Selecting(ks, name) + if NameEq(name, k.name) then [k] else []
  {
    hide NameEq;
    assert (ks + [k])[..|ks|] == ks;
  }

  lemma IntoMore(base: seq<Node>, i: nat, ks: seq<Node>, k: Node)
    ensures Into(base, i, ks + [k]) == Into(base, i, ks) + if MatchKid(base, k.name) == i then [k] else []
  {
    hide MatchKid;
    assert (ks + [k])[..|ks|] == ks;
  }

  lemma OfMore(ks: seq<Node>, k: Node)
    ensures PropsOf(ks + [k]) == PropsOf(ks) + k.props && KidsOf(ks + [k]) == KidsOf(ks) + k.kids
    ensures PropsOf([]) == [] && KidsOf([]) == []
  {
    assert (ks + [k])[..|ks|] == ks;
  }

  lemma NamedMore(ks: seq<Node>, k: Node, name: seq<Byte>)
    requires Named(ks, name)
    ensures Named(ks + [k], name)
  {
  }

  /** What only the overlay says stays so with more of the overlay. */
  lemma {:induction false} OnlyMore(r: Node, ps: seq<Prop>, qs: seq<Prop>, ks: seq<Node>, ls: seq<Node>)
    requires Only(r, ps, ks)
    ensures Only(r, ps + qs, ks + ls)
    decreases r, 2
  {
    hide Only;
    OnlyProps(r, ps, ks, qs);
    OnlyKidsMore(r, ps + qs, ks, ls);
  }

  lemma OnlyProps(r: Node, ps: seq<Prop>, ks: seq<Node>, qs: seq<Prop>)
    requires Only(r, ps, ks)
    ensures Only(r, ps + qs, ks)
  {
    hide OnlyKid;
  }

  lemma {:induction false} OnlyKidsMore(r: Node, ps: seq<Prop>, ks: seq<Node>, ls: seq<Node>)
    requires Only(r, ps, ks)
    ensures Only(r, ps, ks + ls)
    decreases r, 1, |ls|
  {
    if ls == [] {
      assert ks + ls == ks;
    } else {
      var h, k := ls[..|ls| - 1], ls[|ls| - 1];
      OnlyKidsMore(r, ps, ks, h);
      assert ks + ls == (ks + h) + [k];
      forall c | c in r.kids ensures OnlyKid(c, (ks + h) + [k]) {
        OnlyKidMore(c, ks + h, k);
      }
    }
  }

  lemma {:induction false} OnlyKidMore(c: Node, ks: seq<Node>, k: Node)
    requires OnlyKid(c, ks)
    ensures OnlyKid(c, ks + [k])
    decreases c, 3
  {
    hide Only, NameEq, Named;
    var os := Selecting(ks, c.name);
    SelectingMore(ks, k, c.name);
    NamedMore(ks, k, c.name);
    if NameEq(c.name, k.name) {
      OfMore(os, k);
      OnlyMore(c, PropsOf(os), k.props, KidsOf(os), k.kids);
    } else {
      assert os + [] == os;
    }
  }

  lemma KeepsSelf(n: Node)
    ensures Keeps(n, n, [], [])
  {
  }

  lemma KeepsName(r: Node, n: Node, os: seq<Node>)
    requires KeepsKid(r, n, os)
    ensures r.name == n.name
  {
  }

  lemma KeepsProps(r: Node, n: Node, ps: seq<Prop>, qs: seq<Prop>, ks: seq<Node>)
    requires Keeps(r, n, ps, ks)
    ensures Keeps(r, n, ps + qs, ks)
  {
    hide Lookup, OnlyKid, KeepsKid, Into;
    forall x | Unset(ps + qs, x) ensures Unset(ps, x) {
      forall p | p in ps ensures p.name != x { assert p in ps + qs; }
    }
  }

  /** More of the overlay with nothing done does no harm. */
  lemma {:induction false} KeepsMore(r: Node, n: Node, ps: seq<Prop>, qs: seq<Prop>, ks: seq<Node>, ls: seq<Node>)
    requires Keeps(r, n, ps, ks)
    ensures Keeps(r, n, ps + qs, ks + ls)
    decreases n, 2, |ls|
  {
    hide Keeps;
    if ls == [] {
      KeepsProps(r, n, ps, qs, ks);
      assert ks + ls == ks;
    } else {
      var h, k := ls[..|ls| - 1], ls[|ls| - 1];
      KeepsMore(r, n, ps, qs, ks, h);
      assert ks + ls == (ks + h) + [k];
      KeepsOne(r, n, ps + qs, ks + h, k);
    }
  }

  lemma {:induction false} KeepsOne(r: Node, n: Node, ps: seq<Prop>, ks: seq<Node>, k: Node)
    requires Keeps(r, n, ps, ks)
    ensures Keeps(r, n, ps, ks + [k])
    decreases n, 1
  {
    hide Lookup, OnlyKid, KeepsKid, Into, MatchKid, Unset;
    var d := |r.kids| - |n.kids|;
    forall j | 0 <= j < d ensures OnlyKid(r.kids[j], ks + [k]) {
      OnlyKidMore(r.kids[j], ks, k);
    }
    forall i | 0 <= i < |n.kids| ensures KeepsKid(r.kids[d + i], n.kids[i], Into(n.kids, i, ks + [k])) {
      IntoMore(n.kids, i, ks, k);
      var os := Into(n.kids, i, ks);
      if MatchKid(n.kids, k.name) == i {
        KeepsKidMore(r.kids[d + i], n.kids[i], os, k);
      } else {
        assert os + [] == os;
      }
    }
  }

  lemma {:induction false} KeepsKidMore(r: Node, n: Node, os: seq<Node>, k: Node)
    requires KeepsKid(r, n, os)
    ensures KeepsKid(r, n, os + [k])
    decreases n, 3
  {
    hide Keeps;
    if os == [] { KeepsSelf(n); }
    OfMore(os, k);
    KeepsMore(r, n, PropsOf(os), k.props, KidsOf(os), k.kids);
  }

  // --------------------------------------------------------------------- what a merge does

  lemma SetLookups(n: Node, p: Prop)
    ensures forall x :: x != p.name ==> Lookup(SetProp(n, p.name, p.value), x) == Lookup(n, x)
    ensures forall q :: q in SetProp(n, p.name, p.value).props ==> q in n.props || q == p
    ensures SetProp(n, p.name, p.value).kids == n.kids && SetProp(n, p.name, p.value).name == n.name
  {
    hide Lookup;
    forall x | x != p.name ensures Lookup(SetProp(n, p.name, p.value), x) == Lookup(n, x) {
      SetPropLookup(n, p.name, p.value, x);
    }
  }

  lemma {:induction false} PropsOnly(c: Node, ps: seq<Prop>, ks: seq<Node>, qs: seq<Prop>)
    requires Only(c, ps, ks)
    ensures Only(MergeProps(c, qs), ps + qs, ks)
    decreases |qs|
  {
    hide OnlyKid, SetProp;
    if qs == [] {
      assert ps + qs == ps;
    } else {
      var h, p := qs[..|qs| - 1], qs[|qs| - 1];
      PropsOnly(c, ps, ks, h);
      SetLookups(MergeProps(c, h), p);
      assert ps + qs == (ps + h) + [p];
    }
  }

  /** A merge into a node that the overlay made. */
  lemma {:induction false} MergeOnly(c: Node, ps: seq<Prop>, ks: seq<Node>, o: Node)
    requires Only(c, ps, ks)
    ensures Only(MergeNode(c, o), ps + o.props, ks + o.kids)
    decreases o, 2
  {
    hide Only, MergeProps, MergeKids;
    PropsOnly(c, ps, ks, o.props);
    MergeKidsOnly(MergeProps(c, o.props), ps + o.props, ks, o.kids);
  }

  lemma {:induction false} MergeKidsOnly(c: Node, ps: seq<Prop>, ks: seq<Node>, ls: seq<Node>)
    requires Only(c, ps, ks)
    ensures Only(MergeKids(c, ls), ps, ks + ls)
    decreases ls, 0
  {
    hide Only, MergeKid;
    if ls == [] {
      assert ks + ls == ks;
    } else {
      var h, k := ls[..|ls| - 1], ls[|ls| - 1];
      MergeKidsOnly(c, ps, ks, h);
      MergeKidOnly(MergeKids(c, h), ps, ks + h, k);
      assert ks + ls == (ks + h) + [k];
    }
  }

  lemma {:induction false} MergeKidOnly(c: Node, ps: seq<Prop>, ks: seq<Node>, k: Node)
    requires Only(c, ps, ks)
    ensures Only(MergeKid(c, k), ps, ks + [k])
    decreases k, 4
  {
    hide OnlyKid, MergeNode, MatchKid, NameEq;
    var i := MatchKid(c.kids, k.name);
    forall x | x in c.kids ensures OnlyKid(x, ks + [k]) {
      OnlyKidMore(x, ks, k);
    }
    if i < |c.kids| {
      IntoOnly(c.kids[i], ks, k);
    } else {
      NewOnly(ks, k);
    }
  }

  /** A merge into a child that the overlay made. */
  lemma {:induction false} IntoOnly(c: Node, ks: seq<Node>, k: Node)
    requires OnlyKid(c, ks) && NameEq(c.name, k.name)
    ensures OnlyKid(MergeNode(c, k), ks + [k])
    decreases k, 3
  {
    hide Only, MergeNode, NameEq, Named;
    var os := Selecting(ks, c.name);
    MergeName(c, k);
    NamedMore(ks, k, c.name);
    SelectingMore(ks, k, c.name);
    OfMore(os, k);
    MergeOnly(c, PropsOf(os), KidsOf(os), k);
  }

  /** A child that is added. */
  lemma {:induction false} NewOnly(ks: seq<Node>, k: Node)
    ensures OnlyKid(MergeNode(Node(k.name, [], []), k), ks + [k])
    decreases k, 3
  {
    hide MergeNode;
    var c, os := Node(k.name, [], []), Selecting(ks, k.name);
    MergeName(c, k);
    SelectingMore(ks, k, k.name);
    OfMore(os, k);
    assert Only(c, PropsOf(os), KidsOf(os));
    MergeOnly(c, PropsOf(os), KidsOf(os), k);
    assert k in ks + [k];
  }

  lemma {:induction false} PropsKeep(r: Node, n: Node, ps: seq<Prop>, ks: seq<Node>, qs: seq<Prop>)
    requires Keeps(r, n, ps, ks)
    ensures Keeps(MergeProps(r, qs), n, ps + qs, ks)
    decreases |qs|
  {
    hide OnlyKid, KeepsKid, SetProp, Lookup, Into;
    if qs == [] {
      assert ps + qs == ps;
    } else {
      var h, p := qs[..|qs| - 1], qs[|qs| - 1];
      PropsKeep(r, n, ps, ks, h);
      SetLookups(MergeProps(r, h), p);
      assert ps + qs == (ps + h) + [p];
      UnsetLess(ps + h, p);
    }
  }

  lemma UnsetLess(ps: seq<Prop>, p: Prop)
    ensures forall x :: Unset(ps + [p], x) ==> Unset(ps, x) && x != p.name
  {
    forall x | Unset(ps + [p], x) ensures Unset(ps, x) && x != p.name {
      assert p in ps + [p];
      forall q | q in ps ensures q.name != x { assert q in ps + [p]; }
    }
  }

  /** A merge into what became of a node of the base. */
  lemma {:induction false} MergeOnto(r: Node, n: Node, ps: seq<Prop>, ks: seq<Node>, o: Node)
    requires Keeps(r, n, ps, ks)
    ensures Keeps(MergeNode(r, o), n, ps + o.props, ks + o.kids)
    decreases o, 2
  {
    hide Keeps, MergeProps, MergeKids;
    PropsKeep(r, n, ps, ks, o.props);
    MergeKidsOnto(MergeProps(r, o.props), n, ps + o.props, ks, o.kids);
  }

  lemma {:induction false} MergeKidsOnto(r: Node, n: Node, ps: seq<Prop>, ks: seq<Node>, ls: seq<Node>)
    requires Keeps(r, n, ps, ks)
    ensures Keeps(MergeKids(r, ls), n, ps, ks + ls)
    decreases ls, 0
  {
    hide Keeps, MergeKid;
    if ls == [] {
      assert ks + ls == ks;
    } else {
      var h, k := ls[..|ls| - 1], ls[|ls| - 1];
      MergeKidsOnto(r, n, ps, ks, h);
      MergeKidOnto(MergeKids(r, h), n, ps, ks + h, k);
      assert ks + ls == (ks + h) + [k];
    }
  }

  lemma {:induction false} MergeKidOnto(r: Node, n: Node, ps: seq<Prop>, ks: seq<Node>, k: Node)
    requires Keeps(r, n, ps, ks)
    ensures Keeps(MergeKid(r, k), n, ps, ks + [k])
    decreases k, 4
  {
    hide OnlyKid, MergeNode, MatchKid, KeepsKid, Into, Lookup, NameEq;
    var j, d := MatchKid(r.kids, k.name), |r.kids| - |n.kids|;
    KeepsOne(r, n, ps, ks, k);
    if j < d {
      IntoOnly(r.kids[j], ks, k);
      LookupKids(r, r.kids[j := MergeNode(r.kids[j], k)]);
    } else if j < |r.kids| {
      var i := j - d;
      FirstBehind(r, n, ps, ks, k.name);
      IntoMore(n.kids, i, ks, k);
      KidOnto(r.kids[j], n.kids[i], Into(n.kids, i, ks), k);
      KeepsSlot(r, n, ps, ks + [k], i, MergeNode(r.kids[j], k));
    } else {
      NewOnly(ks, k);
      KeepsFront(r, n, ps, ks + [k], MergeNode(Node(k.name, [], []), k));
    }
  }

  lemma KeepsSlot(r: Node, n: Node, ps: seq<Prop>, ks: seq<Node>, i: nat, c: Node)
    requires Keeps(r, n, ps, ks) && i < |n.kids| && KeepsKid(c, n.kids[i], Into(n.kids, i, ks))
    ensures var d := |r.kids| - |n.kids|; Keeps(r.(kids := r.kids[d + i := c]), n, ps, ks)
  {
    hide OnlyKid, KeepsKid, Into, Lookup, Unset;
    LookupKids(r, r.kids[|r.kids| - |n.kids| + i := c]);
  }

  lemma KeepsFront(r: Node, n: Node, ps: seq<Prop>, ks: seq<Node>, c: Node)
    requires Keeps(r, n, ps, ks) && OnlyKid(c, ks)
    ensures Keeps(r.(kids := [c] + r.kids), n, ps, ks)
  {
    hide OnlyKid, KeepsKid, Into, Lookup, Unset;
    LookupKids(r, [c] + r.kids);
  }

  lemma LookupKids(r: Node, ks: seq<Node>)
    ensures forall x :: Lookup(r.(kids := ks), x) == Lookup(r, x)
  {
  }

  /** A first match behind the added children is the first match among those of the base. */
  lemma FirstBehind(r: Node, n: Node, ps: seq<Prop>, ks: seq<Node>, s: seq<Byte>)
    requires Keeps(r, n, ps, ks)
    ensures var j, d := MatchKid(r.kids, s), |r.kids| - |n.kids|;
            d <= j < |r.kids| ==> MatchKid(n.kids, s) == j - d
  {
    hide NameEq, MatchKid, OnlyKid, KeepsKid, Into, Lookup;
    var j, d := MatchKid(r.kids, s), |r.kids| - |n.kids|;
    forall i | 0 <= i < |n.kids| ensures r.kids[d + i].name == n.kids[i].name {
      KeepsName(r.kids[d + i], n.kids[i], Into(n.kids, i, ks));
    }
    if d <= j < |r.kids| {
      forall i | 0 <= i < j - d ensures !NameEq(n.kids[i].name, s) {
        assert !NameEq(r.kids[d + i].name, s);
      }
      MatchKidIs(n.kids, s, j - d);
    }
  }

  lemma {:induction false} KidOnto(r: Node, n: Node, os: seq<Node>, k: Node)
    requires KeepsKid(r, n, os)
    ensures KeepsKid(MergeNode(r, k), n, os + [k])
    decreases k, 3
  {
    hide Keeps, MergeNode;
    if os == [] { KeepsSelf(n); }
    OfMore(os, k);
    MergeOnto(r, n, PropsOf(os), KidsOf(os), k);
  }

  /** What a merge keeps of the base and what it brings in, at every level. */
  lemma MergedKeeps(n: Node, o: Node)
    ensures Keeps(MergeNode(n, o), n, o.props, o.kids)
  {
    hide Keeps, MergeNode;
    KeepsSelf(n);
    MergeOnto(n, n, [], [], o);
    assert [] + o.props == o.props && [] + o.kids == o.kids;
  }
}
