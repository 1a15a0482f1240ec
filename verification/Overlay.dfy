/** `overlay_apply_node`: the overlay's tree merged into the base blob, byte by byte. */
module Overlay {
  import opened Bytes
  import opened DeviceTree
  import opened Lexer
  import opened Blob
  import opened Walk
  import opened Traverse
  import opened Edit
  import opened Rewrite
  import opened ReadWrite
  import opened NodeEdit
  import opened TreeWalk
  import opened Merge
  import opened MergeKeeps

  lemma MergePropsStep(n: Node, ps: seq<Prop>, k: nat)
    requires k < |ps|
    ensures MergeProps(n, ps[..k + 1]) == SetProp(MergeProps(n, ps[..k]), ps[k].name, ps[k].value)
  {
    assert ps[..k + 1][..k] == ps[..k];
  }

  lemma MergeKidsStep(n: Node, ks: seq<Node>, k: nat)
    requires k < |ks|
    ensures MergeKids(n, ks[..k + 1]) == MergeKid(MergeKids(n, ks[..k]), ks[k])
  {
    hide MergeKid;
    assert ks[..k + 1][..k] == ks[..k];
  }

  // ------------------------------------------------------------------------- room

  /** What a property, a node's properties and everything below a node can take in the base at most. */
  function PropNeed(p: Prop): nat {
    12 + Align4(|p.value|) + |p.name| + 1
  }

  function PropsNeed(ps: seq<Prop>): nat {
    if ps == [] then 0 else PropsNeed(ps[..|ps| - 1]) + PropNeed(ps[|ps| - 1])
  }

  function Need(o: Node): nat
    decreases o, 1
  {
    PropsNeed(o.props) + KidsNeed(o.kids)
  }

  function KidsNeed(ks: seq<Node>): nat
    decreases ks, 0
  {
    if ks == [] then 0 else KidsNeed(ks[..|ks| - 1]) + (8 + Align4(|ks[|ks| - 1].name| + 1) + Need(ks[|ks| - 1]))
  }

  /** What succeeds takes at most `need`, and what fails had less room than that. */
  predicate Paid(b: seq<Byte>, b': seq<Byte>, ok: bool, need: nat) {
    if ok then DataSize(b') <= DataSize(b) + need else DataSize(b) + need > Total(b)
  }

  lemma PaidMore(b: seq<Byte>, b1: seq<Byte>, b2: seq<Byte>, ok: bool, need: nat, more: nat)
    requires Paid(b, b1, true, need) && Total(b1) == Total(b) && Paid(b1, b2, ok, more)
    ensures Paid(b, b2, ok, need + more)
  {
    hide Total, DataSize;
  }

  lemma PaidUpTo(b: seq<Byte>, b': seq<Byte>, ok: bool, need: nat, need': nat)
    requires Paid(b, b', ok, need) && need <= need'
    ensures Paid(b, b', ok, need')
  {
    hide Total, DataSize;
  }

  lemma PaidNothing(b: seq<Byte>)
    ensures Paid(b, b, true, 0)
  {
  }

  lemma EditedTotal(b: seq<Byte>, b': seq<Byte>, t': Node, path: Path, node: int)
    requires Edited(b, b', t', path, node)
    ensures Total(b') == Total(b)
  {
    hide NodeOff, Inside, SameUpTo;
  }

  lemma {:induction false} PropsNeedUpTo(ps: seq<Prop>, k: nat)
    requires k < |ps|
    ensures PropsNeed(ps[..k + 1]) == PropsNeed(ps[..k]) + PropNeed(ps[k]) <= PropsNeed(ps)
    decreases |ps|
  {
    hide PropNeed;
    assert ps[..k + 1][..k] == ps[..k];
    if k + 1 < |ps| {
      var h := ps[..|ps| - 1];
      assert h[..k + 1] == ps[..k + 1] && h[..k] == ps[..k];
      PropsNeedUpTo(h, k);
    } else {
      assert ps[..k + 1] == ps;
    }
  }

  lemma {:induction false} KidsNeedUpTo(ks: seq<Node>, k: nat)
    requires k < |ks|
    ensures KidsNeed(ks[..k + 1]) == KidsNeed(ks[..k]) + (8 + Align4(|ks[k].name| + 1) + Need(ks[k])) <= KidsNeed(ks)
    decreases |ks|
  {
    hide Need, Align4;
    assert ks[..k + 1][..k] == ks[..k];
    if k + 1 < |ks| {
      var h := ks[..|ks| - 1];
      assert h[..k + 1] == ks[..k + 1] && h[..k] == ks[..k];
      KidsNeedUpTo(h, k);
    } else {
      assert ks[..k + 1] == ks;
    }
  }

  lemma GrowthBound(b: seq<Byte>, n: Node, name: seq<Byte>, value: seq<Byte>)
    ensures SetGrowth(b, n, name, |value|) <= PropNeed(Prop(name, value))
  {
    hide MatchProp, Occurs, Strings;
  }

  /** One `fdt_setprop` on the target, after earlier edits of it. */
  method SetOn(m: array<Byte>, target: int, name: seq<Byte>, value: seq<Byte>, ghost b: seq<Byte>, ghost t: Node,
               ghost path: Path, ghost n': Node)
    returns (err: int)
    requires ValidPath(t, path) && Edited(b, m[..], Put(t, path, n'), path, target) && NulFree(name)
    modifies m
    ensures Edited(b, m[..], Put(t, path, if err == 0 then SetProp(n', name, value) else n'), path, target)
    ensures err == 0 || err == -FDT_ERR_NOSPACE
    ensures Paid(old(m[..]), m[..], err == 0, PropNeed(Prop(name, value)))
  {
    hide NodeOff, Edited, Put, At, Before, Tokens, Live, Accepts, SetProp, SetGrowth, DataSize, Total, Hdr,
         PropNeed;
    GrowthBound(m[..], n', name, value);
    EditedNode(b, m[..], Put(t, path, n'), path, target);
    LiveOf(m[..], Put(t, path, n'), path, target);
    PutAgain(t, path, n', SetProp(n', name, value));
    ghost var b1 := m[..];
    err := SetPropBytes(m, target, name, value, Put(t, path, n'), path);
    EditedTrans(b, b1, m[..], Put(t, path, n'), Put(t, path, if err == 0 then SetProp(n', name, value) else n'),
        path, target);
  }

  /** The first loop of `overlay_apply_node`: every property of the overlay node is set on the target. */
  method ApplyProps(m: array<Byte>, target: int, ob: seq<Byte>, node: int,
                    ghost t: Node, ghost path: Path, ghost to: Node, ghost opath: Path)
                        returns (err: int, ghost n': Node)
    requires NodeOff(m[..], t, path, target) && NodeOff(ob, to, opath, node)
    modifies m
    ensures Edited(old(m[..]), m[..], Put(t, path, n'), path, target)
    ensures err == 0 ==> n' == MergeProps(At(t, path), At(to, opath).props)
    ensures err == 0 || err == -FDT_ERR_NOSPACE
    ensures Paid(old(m[..]), m[..], err == 0, PropsNeed(At(to, opath).props))
  {
    hide NodeOff, Edited, Put, At, PropOff, SetProp, MergeProps, Holds, Ordered, Paid, PropsNeed, PropNeed, Total;
    PaidNothing(m[..]);
    NoNeed();
    ghost var b, n, ps := m[..], At(t, path), At(to, opath).props;
    NodeOffPath(m[..], t, path, target);
    n' := n;
    PutSame(t, path);
    EditedSelf(b, t, path, target);
    MergeNothing(n);
    var po := FirstPropOf(ob, node, to, opath);
    ghost var k := 0;
    while po >= 0
      invariant k <= |ps| && n' == MergeProps(n, ps[..k])
      invariant Edited(b, m[..], Put(t, path, n'), path, target)
      invariant PropOrEnd(ob, to, opath, k, po) && Paid(b, m[..], true, PropsNeed(ps[..k]))
      decreases |ps| - k
    {
      ghost var b1 := m[..];
      EditedTotal(b, b1, Put(t, path, n'), path, target);
      var name, value := ReadProp(ob, po, to, opath, k);
      err := SetOn(m, target, name, value, b, t, path, n');
      PropsNeedUpTo(ps, k);
      PaidMore(b, b1, m[..], err == 0, PropsNeed(ps[..k]), PropNeed(ps[k]));
      if err != 0 {
        PaidUpTo(b, m[..], false, PropsNeed(ps[..k + 1]), PropsNeed(ps));
        return err, n';
      }
      n' := SetProp(n', name, value);
      MergePropsStep(n, ps, k);
      po := NextPropOf(ob, po, to, opath, k);
      k := k + 1;
    }
    err := 0;
    assert ps[..k] == ps;
  }

  lemma NoNeed()
    ensures PropsNeed([]) == 0 && KidsNeed([]) == 0
  {
  }

  lemma MergeNothing(n: Node)
    ensures MergeProps(n, []) == n && MergeKids(n, []) == n
  {
  }

  // -------------------------------------------------------------------- children

  /** The child that an overlay child goes into: matched by name, or new and empty. */
  function KidSlot(n: Node, name: seq<Byte>): (r: (Node, nat))
    ensures r.1 < |r.0.kids|
  {
    var i := MatchKid(n.kids, name);
    if i < |n.kids| then (n, i) else (AddKid(n, EmptyNode(name)), 0)
  }

  lemma SlotIs(n: Node, name: seq<Byte>)
    ensures KidSlot(n, name) ==
            if MatchKid(n.kids, name) < |n.kids| then (n, MatchKid(n.kids, name)) else (AddKid(n, EmptyNode(name)), 0)
    ensures AddKid(n, EmptyNode(name)) == n.(kids := [Node(name, [], [])] + n.kids)
  {
    hide MatchKid;
  }

  lemma MergeKidSlot(n: Node, k: Node)
    ensures var (a, i) := KidSlot(n, k.name);
            MergeKid(n, k) == a.(kids := a.kids[i := MergeNode(a.kids[i], k)])
  {
    hide MergeNode, MatchKid;
    var e := EmptyNode(k.name);
    assert ([e] + n.kids)[0 := MergeNode(e, k)] == [MergeNode(e, k)] + n.kids;
  }

  /** `fdt_add_subnode`, or `fdt_subnode_offset` if the child exists: the offset of the child to merge into. */
  method OpenKid(m: array<Byte>, target: int, name: seq<Byte>, ghost b: seq<Byte>, ghost t: Node, ghost path: Path,
                 ghost n: Node)
    returns (nnode: int)
    requires ValidPath(t, path) && Edited(b, m[..], Put(t, path, n), path, target) && NulFree(name) && target >= 0
    modifies m
    ensures nnode < 0 ==> nnode == -FDT_ERR_NOSPACE && Edited(b, m[..], Put(t, path, n), path, target)
    ensures Paid(old(m[..]), m[..], nnode >= 0, 8 + Align4(|name| + 1))
    ensures nnode >= 0 ==>
              var (a, i) := KidSlot(n, name);
              Edited(b, m[..], Put(t, path, a), path, target) && NodeOff(m[..], Put(t, path, a), path + [i], nnode) &&
              Inside(m[..], target) <= nnode &&
              if MatchKid(n.kids, name) < |n.kids| then a == n && i == MatchKid(n.kids, name) && m[..] == old(m[..])
              else a == n.(kids := [Node(name, [], [])] + n.kids) && i == 0
  {
    hide NodeOff, Edited, Put, At, Before, Tokens, Live, Accepts, DataSize, Total, Hdr, Inside, EmptyNode, AddKid,
         MatchKid, Align4, Ordered, KidSlot;
    SlotIs(n, name);
    EditedNode(b, m[..], Put(t, path, n), path, target);
    LiveOf(m[..], Put(t, path, n), path, target);
    PutAgain(t, path, n, AddKid(n, EmptyNode(name)));
    ghost var b1 := m[..];
    nnode := AddSubnodeBytes(m, target, name, Put(t, path, n), path);
    if nnode == -FDT_ERR_EXISTS {
      nnode := FindKidOf(m[..], target, name, Put(t, path, n), path);
      NonNegative(m[..], Put(t, path, n), path + [MatchKid(n.kids, name)], nnode);
    } else if nnode >= 0 {
      EditedTrans(b, b1, m[..], Put(t, path, n), Put(t, path, AddKid(n, EmptyNode(name))), path, target);
      EditedInside(b1, m[..], Put(t, path, AddKid(n, EmptyNode(name))), path, target);
    }
  }

  lemma NonNegative(b: seq<Byte>, t: Node, path: Path, node: int)
    requires NodeOff(b, t, path, node)
    ensures 0 <= node <= INT_MAX
  {
    hide NodeMark, Before, Holds, Tokens, Ordered;
    NodeOffIs(b, t, path, node);
  }

  lemma EditedInside(b: seq<Byte>, b': seq<Byte>, t': Node, path: Path, node: int)
    requires Edited(b, b', t', path, node)
    ensures Inside(b', node) == Inside(b, node)
  {
  }

  /** An edit of a child is an edit of its parent. */
  lemma EditedUp(b: seq<Byte>, t: Node, path: Path, target: int, b': seq<Byte>, i: nat, nnode: int, x: Node)
    requires NodeOff(b, t, path, target) && i < |At(t, path).kids| && NodeOff(b, t, path + [i], nnode) &&
             Inside(b, target) <= nnode
    requires ValidPath(t, path + [i]) && Edited(b, b', Put(t, path + [i], x), path + [i], nnode)
    ensures var n := At(t, path);
            Edited(b, b', Put(t, path, n.(kids := n.kids[i := x])), path, target)
  {
    hide NodeOff, Put, At, Before, Tokens, Holds, Kept, Ordered, Struct, NextTag, Inside, SameUpTo, ValidPath;
    NodeOffPath(b, t, path, target);
    PutChild(t, path, i, x);
    var n := At(t, path);
    var t' := Put(t, path, n.(kids := n.kids[i := x]));
    PutAt(t, path, n.(kids := n.kids[i := x]));
    NodeOffPath(b', t', path + [i], nnode);
    InsideAfter(b, t, path + [i], nnode);
    EditedIs(b, t, path, target, b', t', Inside(b, nnode));
  }

  lemma InsideAfter(b: seq<Byte>, t: Node, path: Path, node: int)
    requires NodeOff(b, t, path, node)
    ensures node <= Inside(b, node)
  {
    hide NodeMark, Before, Holds, Tokens, Ordered, NextTag;
    NodeOffIs(b, t, path, node);
  }

  /** One round of the second loop: the child is opened, and the overlay child merged into it. */
  method ApplyKid(m: array<Byte>, target: int, ob: seq<Byte>, sub: int, ghost b: seq<Byte>, ghost t: Node,
                  ghost path: Path, ghost n: Node, ghost to: Node, ghost kpath: Path, ghost k: Node)
    returns (err: int, ghost n': Node)
    requires ValidPath(t, path) && Edited(b, m[..], Put(t, path, n), path, target) && target >= 0
    requires NodeOff(ob, to, kpath, sub) && k == At(to, kpath)
    modifies m
    ensures Edited(b, m[..], Put(t, path, n'), path, target)
    ensures err == 0 ==> n' == MergeKid(n, k)
    ensures err == 0 || err == -FDT_ERR_NOSPACE
    ensures Paid(old(m[..]), m[..], err == 0, 8 + Align4(|k.name| + 1) + Need(k))
    decreases k, 2
  {
    hide NodeOff, Edited, Put, At, MergeNode, Holds, Ordered, Inside, KidSlot, Keeps, Covers, Paid, Need, Align4,
         Total, MatchKid;
    ghost var b0, open := m[..], 8 + Align4(|k.name| + 1);
    EditedTotal(b, b0, Put(t, path, n), path, target);
    var name := NameOf(ob, sub, to, kpath);
    var nnode := OpenKid(m, target, name, b, t, path, n);
    if nnode < 0 {
      PaidUpTo(b0, m[..], false, open, open + Need(k));
      return nnode, n;
    }
    ghost var (a, i) := KidSlot(n, name);
    SlotAt(t, path, a, i);
    ghost var b1 := m[..];
    EditedTotal(b, b1, Put(t, path, a), path, target);
    ghost var x;
    err, x := ApplyNode(m, nnode, ob, sub, Put(t, path, a), path + [i], to, kpath, k);
    AppliedKid(b, b1, t, path, target, m[..], a, i, nnode, x);
    PaidMore(b0, b1, m[..], err == 0, open, Need(k));
    n' := a.(kids := a.kids[i := x]);
    MergeKidSlot(n, k);
  }

  /**
   `overlay_apply_node`: on success the base blob holds the tree with the overlay node merged
   into the target; whatever happens it holds a tree that differs only below the target, and the
   target is still at the same offset.
   */
  method ApplyNode(m: array<Byte>, target: int, ob: seq<Byte>, node: int,
                   ghost t: Node, ghost path: Path, ghost to: Node, ghost opath: Path, ghost o: Node)
                       returns (err: int, ghost n': Node)
    requires NodeOff(m[..], t, path, target) && NodeOff(ob, to, opath, node) && o == At(to, opath)
    modifies m
    ensures Edited(old(m[..]), m[..], Put(t, path, n'), path, target)
    ensures err == 0 ==> n' == MergeNode(At(t, path), o)
    ensures err == 0 ==> Keeps(n', At(t, path), o.props, o.kids) && Covers(n', o)
    ensures err == 0 || err == -FDT_ERR_NOSPACE
    ensures Paid(old(m[..]), m[..], err == 0, Need(o))
    decreases o, 0
  {
    hide NodeOff, Edited, Put, At, MergeKid, MergeProps, Holds, Ordered, Inside, KidSlot, Keeps, Covers, Paid,
         PropsNeed, KidsNeed, Need, Align4, Total, MatchKid, MergeNode, MergeKids, ValidPath;
    NeedIs(o);
    NoNeed();
    ghost var b, n := m[..], At(t, path);
    MergeNodeIs(n, o);
    NodeOffPath(m[..], t, path, target);
    NodeOffPath(ob, to, opath, node);
    NonNegative(m[..], t, path, target);
    err, n' := ApplyProps(m, target, ob, node, t, path, to, opath);
    if err != 0 {
      PaidUpTo(b, m[..], false, PropsNeed(o.props), Need(o));
      return;
    }
    ghost var n0 := n';
    MergeNothing(n0);
    var sub := FirstKidOf(ob, node, to, opath);
    ghost var k := 0;
    while sub >= 0
      invariant k <= |o.kids| && n' == MergeKids(n0, o.kids[..k])
      invariant Edited(b, m[..], Put(t, path, n'), path, target)
      invariant KidOrEnd(ob, to, opath, k, sub) && Paid(b, m[..], true, PropsNeed(o.props) + KidsNeed(o.kids[..k]))
      decreases |o.kids| - k
    {
      ghost var b0, need, kid := m[..], PropsNeed(o.props) + KidsNeed(o.kids[..k]), o.kids[k];
      EditedTotal(b, b0, Put(t, path, n'), path, target);
      KidsNeedUpTo(o.kids, k);
      ChildAt(to, opath, k);
      MergeKidsStep(n0, o.kids, k);
      err, n' := ApplyKid(m, target, ob, sub, b, t, path, n', to, opath + [k], kid);
      PaidMore(b, b0, m[..], err == 0, need, 8 + Align4(|kid.name| + 1) + Need(kid));
      if err != 0 {
        PaidUpTo(b, m[..], false, need + (8 + Align4(|kid.name| + 1) + Need(kid)), Need(o));
        return;
      }
      sub := NextKidOf(ob, sub, to, opath, k);
      k := k + 1;
    }
    err := 0;
    assert o.kids[..k] == o.kids;
    MergedKeeps(n, o);
    MergeCovers(n, o);
  }

  lemma MergeNodeIs(n: Node, o: Node)
    ensures MergeNode(n, o) == MergeKids(MergeProps(n, o.props), o.kids)
  {
  }

  lemma NeedIs(o: Node)
    ensures Need(o) == PropsNeed(o.props) + KidsNeed(o.kids)
  {
  }

  lemma SlotAt(t: Node, path: Path, a: Node, i: nat)
    requires ValidPath(t, path) && i < |a.kids|
    ensures At(Put(t, path, a), path + [i]) == a.kids[i]
  {
    hide Put, At, Before;
    PutAgain(t, path, a, a);
    ChildAt(Put(t, path, a), path, i);
  }

  lemma AppliedKid(b: seq<Byte>, b1: seq<Byte>, t: Node, path: Path, target: int, b2: seq<Byte>, a: Node, i: nat,
                   nnode: int, x: Node)
    requires ValidPath(t, path) && Edited(b, b1, Put(t, path, a), path, target) && i < |a.kids|
    requires NodeOff(b1, Put(t, path, a), path + [i], nnode) && Inside(b1, target) <= nnode
    requires Edited(b1, b2, Put(Put(t, path, a), path + [i], x), path + [i], nnode)
    ensures Edited(b, b2, Put(t, path, a.(kids := a.kids[i := x])), path, target)
  {
    hide NodeOff, Edited, Put, At, Inside, Ordered, Holds;
    var t1, a' := Put(t, path, a), a.(kids := a.kids[i := x]);
    PutAgain(t, path, a, a');
    EditedNode(b, b1, t1, path, target);
    NodeOffPath(b1, t1, path + [i], nnode);
    EditedUp(b1, t1, path, target, b2, i, nnode, x);
    EditedTrans(b, b1, b2, t1, Put(t, path, a'), path, target);
  }
}
