/** The in-place property writes of fdt_wip.c and the renumbering pass of fdt_overlay.c on a blob. */
module PhandleBytes {
  import opened Bytes
  import opened DeviceTree
  import opened Lexer
  import opened Blob
  import opened Walk
  import opened Traverse
  import opened Edit
  import opened Rewrite
  import opened ReadWrite
  import opened TreeWalk
  import opened Overlay
  import opened Phandles
  import opened InPlace

  /** `fdt_get_property` at a node: offset, or the error that there is none. */
  method PropOffsetOf(b: seq<Byte>, node: int, name: seq<Byte>, ghost t: Node, ghost path: Path) returns (po: int)
    requires NodeOff(b, t, path, node)
    ensures var i := MatchProp(At(t, path).props, name);
            if i < |At(t, path).props| then
              PropOff(b, t, path, i, po) && 0 <= po && Inside(b, node) <= po else po == -FDT_ERR_NOTFOUND
  {
    hide NodeOff, Before, Tokens, NodeMark, PropMark, NodeEvents, Struct, Ordered, FindProp, AtMark, CheckTagOffset,
         MatchProp, NodeArg, BadNode, PropOff, PropsClosed;
    NodeOffIs(b, t, path, node);
    NodeProps(t, path);
    FindPropInTree(t, path, name);
    GoodNode(b, Tokens(t), node, |Before(t, path)|);
    po := GetProperty(b, node, name, Tokens(t), |Before(t, path)|);
    if MatchProp(At(t, path).props, name) < |At(t, path).props| {
      FoundProp(b, t, path, MatchProp(At(t, path).props, name), po);
    }
  }

  lemma NodeProps(t: Node, path: Path)
    requires NodeEvents(t, path)
    ensures PropsClosed(Tokens(t), |Before(t, path)| + 1)
  {
  }

  /** `fdt_getprop`: the value of a property, or `None`. */
  method GetProp(b: seq<Byte>, node: int, name: seq<Byte>, ghost t: Node, ghost path: Path)
                 returns (v: Option<seq<Byte>>)
    requires NodeOff(b, t, path, node)
    ensures v == Lookup(At(t, path), name)
  {
    hide NodeOff, PropOff, MatchProp, Inside, At;
    var po := PropOffsetOf(b, node, name, t, path);
    if po < 0 {
      return None;
    }
    var x, value := ReadProp(b, po, t, path, MatchProp(At(t, path).props, name));
    v := Some(value);
  }

  /**
   `fdt_setprop_inplace_namelen_partial`: part of a value overwritten where it is. The sum in the
   length check is 32-bit; where it wraps and passes, the bytes go to an address past the blob
   (with 64-bit pointers; `NameOverwritten` has the case of 32-bit ones), the value stays as it was, and the call
   reports success.
   */
  method SetPropPartial(m: array<Byte>, node: int, name: seq<Byte>, idx: nat, val: seq<Byte>, ghost t: Node,
                        ghost path: Path) returns (err: int)
    requires NodeOff(m[..], t, path, node) && idx < TWO32 && |val| <= INT_MAX
    modifies m
    ensures match Lookup(At(t, path), name)
            case None => err == -FDT_ERR_NOTFOUND && m[..] == old(m[..])
            case Some(v) =>
              if TooLong(|v|, idx, |val|) then err == -FDT_ERR_NOSPACE && m[..] == old(m[..])
              else if idx + |val| > |v| then
                err == 0 && SameWithin(old(m[..]), m[..]) && Edited(old(m[..]), m[..], t, path, node) &&
                Steady(old(m[..]), t, m[..], t)
              else
                var t' := Put(t, path, SetProp(At(t, path), name, Patch(v, idx, val)));
                err == 0 && Edited(old(m[..]), m[..], t', path, node) && Steady(old(m[..]), t, m[..], t')
  {
    hide NodeOff, PropOff, MatchProp, Inside, At, Put, SetProp, Patch, Edited, Kept, SameUpTo, Before, DataSize,
         StructPatched, Steady;
    ghost var b, n := m[..], At(t, path);
    ghost var i := MatchProp(n.props, name);
    var po := PropOffsetOf(m[..], node, name, t, path);
    if po < 0 {
      return po;
    }
    var x, value := ReadProp(m[..], po, t, path, i);
    if TooLong(|value|, idx, |val|) {
      return -FDT_ERR_NOSPACE;
    }
    PartialWrap(b, t, path, i, po, idx, |val|);
    if idx + |val| > |value| {
      CopyPast(m, OffStruct(m[..]) + po + 12 + idx, val, Total(b));
      PastSteady(b, t, path, node, m[..]);
      return 0;
    }
    WriteValue(m, po, idx, val, t, path, i);
    SetPropPlace(n, name, Patch(value, idx, val));
    PartialEdited(b, t, path, node, m[..], i, po, SetProp(n, name, Patch(value, idx, val)));
    PartialSteady(b, t, path, i, po, idx, val, m[..]);
    err := 0;
  }

  /** Where the check passes although the bytes do not fit, the index is beyond every blob. */
  lemma PartialWrap(b: seq<Byte>, t: Node, path: Path, i: nat, po: int, idx: nat, len: nat)
    requires PropOff(b, t, path, i, po) && idx < TWO32 && len <= INT_MAX &&
             !TooLong(|At(t, path).props[i].value|, idx, len)
    ensures Total(b) <= |b| && 0 <= po && (idx + len > |At(t, path).props[i].value| ==> Total(b) <= idx)
  {
    hide PropOff, At, Hdr, Struct, First, Spells, Str, AtMark;
    PropOffIs(b, t, path, i, po);
    assert Wrap32(len + idx) == if idx + len < TWO32 then idx + len else idx + len - TWO32;
  }

  /**
   With 32-bit pointers the address wraps as the check does: position 0xfffffffc of a value is the word before it,
   so that what is written there becomes the name offset of the property.
   */
  lemma NameOverwritten(st: seq<Byte>, po: nat, it: Item, x: U32)
    requires po + 12 <= |st| <= INT_MAX && it.Data? && Spells(st[po..], it)
    ensures Wrap32(po + 12 + 0xffff_fffc) == po + 8
    ensures First(Patch(st, po + 8, Be32(x))[po..]) == Some(Data(x, it.value))
  {
    hide Ld32, Patch, Be32, Spells, First, Lex, Align4;
    var n, st' := it.Size(), Patch(st, po + 8, Be32(x));
    DataSpelled(st, po, it);
    PatchOutside(st, po + 8, Be32(x), po, po + 4);
    PatchOutside(st, po + 8, Be32(x), po + 4, po + 8);
    PatchOutside(st, po + 8, Be32(x), po + 12, po + 12 + |it.value|);
    PatchInside(st, po + 8, Be32(x), po + 8, po + 12);
    StoreLoaded(st, po + 4);
    var w := Be32(FDT_PROP) + Be32(|it.value|) + Be32(x) + [];
    ThreeWords(Be32(FDT_PROP), Be32(|it.value|), Be32(x), []);
    LoadStored(w, 0, FDT_PROP);
    LoadStored(w, 8, x);
    StoreLoaded(st, po);
    DataLex(st', po, x, it.value, w, 0);
    FirstAfter(st', po, po + n, Data(x, it.value));
  }

  lemma PastSteady(b: seq<Byte>, t: Node, path: Path, node: int, b': seq<Byte>)
    requires NodeOff(b, t, path, node) && SameWithin(b, b')
    ensures Edited(b, b', t, path, node) && Steady(b, t, b', t)
  {
    hide NodeOff, PropOff, SameWithin, Ordered, Struct, Strings, Hdr, NodeMark, AtMark, Before, NodeEvents, Alike,
         NextTag, Tokens;
    NodeOffIs(b, t, path, node);
    WithinBlocks(b, b');
    WithinSteady(b, t, b');
    SameStruct(b, b', Inside(b, node));
  }

  lemma PartialSteady(b: seq<Byte>, t: Node, path: Path, i: nat, po: nat, idx: nat, x: seq<Byte>, b': seq<Byte>)
    requires PropOff(b, t, path, i, po) && idx + |x| <= |At(t, path).props[i].value| &&
             StructPatched(b, b', po + 12 + idx, x) && Kept(b, b')
    requires var n := At(t, path);
             PropOff(b', Put(t, path,
                 n.(props := n.props[i := Prop(n.props[i].name, Patch(n.props[i].value, idx, x))])), path, i, po)
    ensures var n := At(t, path);
            Steady(b, t, b', Put(t, path,
                n.(props := n.props[i := Prop(n.props[i].name, Patch(n.props[i].value, idx, x))])))
  {
    hide PropOff, At, Put, Patch, Kept, Steady, Struct, First, Spells, Str, AtMark;
    PropOffIs(b, t, path, i, po);
    WrittenSteady(b, t, path, i, po, idx, x, b');
  }

  lemma SetPropPlace(n: Node, name: seq<Byte>, v: seq<Byte>)
    requires MatchProp(n.props, name) < |n.props|
    ensures var i := MatchProp(n.props, name);
            n.props[i].name == name && SetProp(n, name, v) == n.(props := n.props[i := Prop(n.props[i].name, v)])
  {
  }

  lemma PartialEdited(b: seq<Byte>, t: Node, path: Path, node: int, b': seq<Byte>, i: nat, po: nat, n': Node)
    requires NodeOff(b, t, path, node) && PropOff(b', Put(t, path, n'), path, i, po)
    requires Before(Put(t, path, n'), path) == Before(t, path) && Kept(b, b') && SameUpTo(b, b', po) &&
             Inside(b, node) <= po
    ensures Edited(b, b', Put(t, path, n'), path, node)
  {
    hide NodeOff, PropOff, Put, Before, Inside, Kept, SameUpTo, Edited;
    PropOffNode(b', Put(t, path, n'), path, i, po);
    EditedIs(b, t, path, node, b', Put(t, path, n'), po);
  }

  /** `overlay_phandle_add_offset` */
  method BumpBytes(m: array<Byte>, node: int, name: seq<Byte>, delta: U32, ghost t: Node, ghost path: Path)
                   returns (err: int, ghost n': Node)
    requires NodeOff(m[..], t, path, node)
    modifies m
    ensures Edited(old(m[..]), m[..], Put(t, path, n'), path, node)
    ensures match Bump(At(t, path), name, delta)
            case Ok(x) => n' == x && err == if Lookup(At(t, path), name).None? then -FDT_ERR_NOTFOUND else 0
            case Err(c) => n' == At(t, path) && err == c && c < 0 && c != -FDT_ERR_NOTFOUND
    ensures match Lookup(At(t, path), name)
            case None => err == -FDT_ERR_NOTFOUND && n' == At(t, path)
            case Some(v) =>
              if |v| != 4 then err == -FDT_ERR_BADPHANDLE
              else if Ld32(v, 0) + delta >= 0xffff_ffff then err == -FDT_ERR_NOPHANDLES
              else err == 0 && n' == SetProp(At(t, path), name, Be32(Ld32(v, 0) + delta))
  {
    hide NodeOff, At, Put, SetProp, Patch, Edited, Ld32, Be32, Lookup;
    ghost var n := At(t, path);
    n' := n;
    NodeOffPath(m[..], t, path, node);
    PutSame(t, path);
    EditedSelf(m[..], t, path, node);
    var val := GetProp(m[..], node, name, t, path);
    if val.None? {
      return -FDT_ERR_NOTFOUND, n';
    }
    if |val.value| != 4 {
      return -FDT_ERR_BADPHANDLE, n';
    }
    var adj := Ld32(val.value, 0);
    SumFits(adj, delta);
    if Wrap32(adj + delta) < adj {
      return -FDT_ERR_NOPHANDLES, n';
    }
    adj := Wrap32(adj + delta);
    if adj == 0xffff_ffff {
      return -FDT_ERR_NOPHANDLES, n';
    }
    err := SetPropPartial(m, node, name, 0, Be32(adj), t, path);
    n' := SetProp(n, name, Be32(adj));
    assert Patch(val.value, 0, Be32(adj)) == Be32(adj) by { PatchWhole(val.value, Be32(adj)); }
  }

  lemma SumFits(w: U32, delta: U32)
    ensures Wrap32(w + delta) == if w + delta < TWO32 then w + delta else w + delta - TWO32
  {
  }

  lemma PatchWhole(v: seq<Byte>, x: seq<Byte>)
    requires |v| == |x|
    ensures Patch(v, 0, x) == x
  {
  }

  // ------------------------------------------------------------------ the recursion

  lemma {:induction false} AdjustKidsSnoc(ks: seq<Node>, delta: nat, k: nat)
    requires k < |ks| && AdjustKids(ks[..k], delta).Ok?
    ensures match Adjust(ks[k], delta)
            case Ok(x) => AdjustKids(ks[..k + 1], delta) == Ok(AdjustKids(ks[..k], delta).value + [x])
            case Err(c) => AdjustKids(ks, delta) == Err(c)
    decreases k
  {
    hide Adjust;
    if k == 0 {
      assert ks[..0] == [] && ks[..1] == [ks[0]];
      assert [ks[0]][1..] == [];
      assert AdjustKids([], delta) == Ok([]);
      if Adjust(ks[0], delta).Ok? {
        assert [Adjust(ks[0], delta).value] + [] == [] + [Adjust(ks[0], delta).value];
      }
    } else {
      assert ks[..k][1..] == ks[1..][..k - 1] && ks[..k + 1][1..] == ks[1..][..k];
      AdjustKidsSnoc(ks[1..], delta, k - 1);
      if Adjust(ks[k], delta).Ok? {
        Assoc([Adjust(ks[0], delta).value], AdjustKids(ks[1..][..k - 1], delta).value, [Adjust(ks[k], delta).value]);
      }
    }
  }

  /** `overlay_adjust_node_phandles` */
  method AdjustBytes(m: array<Byte>, node: int, delta: U32, ghost t: Node, ghost path: Path, ghost n: Node)
                     returns (err: int, ghost n': Node)
    requires NodeOff(m[..], t, path, node) && n == At(t, path)
    modifies m
    ensures Edited(old(m[..]), m[..], Put(t, path, n'), path, node)
    ensures match Adjust(n, delta)
            case Ok(x) => err == 0 && n' == x
            case Err(c) => err == c
    decreases n
  {
    hide NodeOff, At, Put, Edited, Lookup, Bump, AdjustKids, Inside;
    ghost var b := m[..];
    NodeOffPath(b, t, path, node);
    err, n' := BumpBytes(m, node, PHANDLE, delta, t, path);
    if err != 0 && err != -FDT_ERR_NOTFOUND {
      return;
    }
    ghost var a, b1 := n', m[..];
    PutAgain(t, path, a, a);
    EditedNode(b, b1, Put(t, path, a), path, node);
    err, n' := BumpBytes(m, node, LINUX_PHANDLE, delta, Put(t, path, a), path);
    PutAgain(t, path, a, n');
    EditedTrans(b, b1, m[..], Put(t, path, a), Put(t, path, n'), path, node);
    if err != 0 && err != -FDT_ERR_NOTFOUND {
      return;
    }
    ghost var d := n';
    BumpKids(n, PHANDLE, delta);
    BumpKids(a, LINUX_PHANDLE, delta);
    err, n' := AdjustKidsBytes(m, node, delta, b, t, path, d);
  }

  lemma BumpKids(n: Node, name: seq<Byte>, delta: nat)
    requires Bump(n, name, delta).Ok?
    ensures Bump(n, name, delta).value.kids == n.kids
  {
  }

  /** The loop of `overlay_adjust_node_phandles` over the children. */
  method AdjustKidsBytes(m: array<Byte>, node: int, delta: U32, ghost b: seq<Byte>, ghost t: Node, ghost path: Path,
                         ghost d: Node)
    returns (err: int, ghost n': Node)
    requires ValidPath(t, path) && Edited(b, m[..], Put(t, path, d), path, node)
    modifies m
    ensures Edited(b, m[..], Put(t, path, n'), path, node)
    ensures match AdjustKids(d.kids, delta)
            case Ok(ks) => err == 0 && n' == d.(kids := ks)
            case Err(c) => err == c
    decreases d.kids
  {
    hide NodeOff, At, Put, Edited, Lookup, Bump, AdjustKids, Inside, Adjust;
    n' := d;
    PutAgain(t, path, d, d);
    EditedNode(b, m[..], Put(t, path, d), path, node);
    var child := FirstKidOf(m[..], node, Put(t, path, d), path);
    ghost var k := 0;
    assert AdjustKids([], delta) == Ok([]) by { AdjustNone(delta); }
    while child >= 0
      invariant k <= |d.kids| && AdjustKids(d.kids[..k], delta).Ok?
      invariant n' == d.(kids := AdjustKids(d.kids[..k], delta).value + d.kids[k..])
      invariant Edited(b, m[..], Put(t, path, n'), path, node)
      invariant At(Put(t, path, n'), path) == n' && ValidPath(Put(t, path, n'), path)
      invariant KidOrEnd(m[..], Put(t, path, n'), path, k, child)
      decreases |d.kids| - k
    {
      ghost var t1, b1 := Put(t, path, n'), m[..];
      SlotAt(t, path, n', k);
      AdjustedPrefix(d.kids, delta, k);
      ghost var x;
      err, x := AdjustBytes(m, child, delta, t1, path + [k], d.kids[k]);
      VisitedKid(b, b1, t, path, node, m[..], n', k, child, x);
      AdjustKidsSnoc(d.kids, delta, k);
      n' := n'.(kids := n'.kids[k := x]);
      AdjustErr(d.kids[k], delta);
      if err != 0 {
        return err, n';
      }
      child := NextKidOf(m[..], child, Put(t, path, n'), path, k);
      k := k + 1;
    }
    err := 0;
    assert d.kids[..k] == d.kids && d.kids[k..] == [];
  }

  /** One visited child more, in the sequence of children. */
  lemma AdjustedPrefix(ks: seq<Node>, delta: nat, k: nat)
    requires k < |ks| && AdjustKids(ks[..k], delta).Ok?
    ensures var done := AdjustKids(ks[..k], delta).value;
            |done| == k && (done + ks[k..])[k] == ks[k] &&
            forall x :: (done + ks[k..])[k := x] == (done + [x]) + ks[k + 1..]
  {
    hide AdjustKids;
    var done := AdjustKids(ks[..k], delta).value;
    forall x ensures (done + ks[k..])[k := x] == (done + [x]) + ks[k + 1..] {
      assert ks[k..] == [ks[k]] + ks[k + 1..];
    }
  }

  /** A child edited in place below a node edited before. */
  lemma VisitedKid(b: seq<Byte>, b1: seq<Byte>, t: Node, path: Path, node: int, b2: seq<Byte>, a: Node, k: nat,
                   child: int, x: Node)
    requires ValidPath(t, path) && Edited(b, b1, Put(t, path, a), path, node) && k < |a.kids|
    requires NodeOff(b1, Put(t, path, a), path + [k], child)
    requires Edited(b1, b2, Put(Put(t, path, a), path + [k], x), path + [k], child)
    ensures var a' := a.(kids := a.kids[k := x]);
            Edited(b, b2, Put(t, path, a'), path, node) && NodeOff(b2, Put(t, path, a'), path + [k], child) &&
            ValidPath(Put(t, path, a'), path) && At(Put(t, path, a'), path) == a'
  {
    hide NodeOff, At, Put, Edited, Inside;
    var t1, a' := Put(t, path, a), a.(kids := a.kids[k := x]);
    PutAgain(t, path, a, a');
    PutAgain(t, path, a', a');
    EditedNode(b, b1, t1, path, node);
    KidInside(b1, t1, path, node, k, child);
    AppliedKid(b, b1, t, path, node, b2, a, k, child, x);
    PutChild(t1, path, k, x);
    EditedNode(b1, b2, Put(t1, path + [k], x), path + [k], child);
  }

  lemma {:induction false} AdjustErr(n: Node, delta: nat)
    ensures Adjust(n, delta).Err? ==> Adjust(n, delta).code < 0
    decreases n, 1
  {
    hide Lookup, SetProp, Ld32;
    AdjustKidsErr(n.kids, delta);
  }

  lemma {:induction false} AdjustKidsErr(ks: seq<Node>, delta: nat)
    ensures AdjustKids(ks, delta).Err? ==> AdjustKids(ks, delta).code < 0
    decreases ks, 0
  {
    hide Bump;
    if ks != [] {
      AdjustErr(ks[0], delta);
      AdjustKidsErr(ks[1..], delta);
    }
  }

  lemma AdjustNone(delta: nat)
    ensures AdjustKids([], delta) == Ok([])
  {
  }
}
