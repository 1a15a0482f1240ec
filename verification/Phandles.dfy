/** Renumbering the phandles of an overlay tree and the references between its nodes. */
module Phandles {
  import opened Bytes
  import opened DeviceTree
  import opened Lexer
  import opened Walk
  import opened Edit
  import opened Blob

  datatype Outcome<+T> = Ok(value: T) | Err(code: int)

  const FDT_ERR_BADPHANDLE := 6
  const FDT_ERR_NOPHANDLES := 17

  /** "phandle" */
  const PHANDLE: seq<Byte> := [0x70, 0x68, 0x61, 0x6e, 0x64, 0x6c, 0x65]
  /** "linux,phandle" */
  const LINUX_PHANDLE: seq<Byte> := [0x6c, 0x69, 0x6e, 0x75, 0x78, 0x2c, 0x70, 0x68, 0x61, 0x6e, 0x64, 0x6c, 0x65]

  /** The word a property holds, if it is four bytes long. */
  function WordProp(n: Node, name: seq<Byte>): Option<nat> {
    match Lookup(n, name)
    case Some(v) => if |v| == 4 then Some(Ld32(v, 0)) else None
    case None => None
  }

  /** `fdt_get_phandle`, with `None` where it returns 0 for want of a property. */
  function Phandle(n: Node): Option<nat> {
    if WordProp(n, PHANDLE).Some? then WordProp(n, PHANDLE) else WordProp(n, LINUX_PHANDLE)
  }

  /** `fdt_get_phandle` */
  function PhandleOf(n: Node): nat {
    match Phandle(n) case Some(p) => p case None => 0
  }

  /** "phandle" counts before "linux,phandle", and either only if it is a word. */
  lemma PhandleRead(n: Node, v: seq<Byte>)
    requires |v| == 4
    ensures Lookup(n, PHANDLE) == Some(v) ==> PhandleOf(n) == Ld32(v, 0)
    ensures (Lookup(n, PHANDLE).None? || |Lookup(n, PHANDLE).value| != 4) ==>
              (Lookup(n, LINUX_PHANDLE) == Some(v) ==> PhandleOf(n) == Ld32(v, 0)) &&
              (Lookup(n, LINUX_PHANDLE).None? || |Lookup(n, LINUX_PHANDLE).value| != 4 ==> PhandleOf(n) == 0)
  {
    hide Lookup, Ld32;
  }

  // ------------------------------------------------------------------ the maximum

  function Max(a: nat, b: nat): nat {
    if a < b then b else a
  }

  /** `fdt_find_max_phandle` */
  function MaxPhandle(t: Node): nat
    decreases t, 1
  {
    Max(match Phandle(t) case Some(p) => p case None => 0, MaxPhandleIn(t.kids))
  }

  function MaxPhandleIn(ks: seq<Node>): nat
    decreases ks, 0
  {
    if ks == [] then 0 else Max(MaxPhandle(ks[0]), MaxPhandleIn(ks[1..]))
  }

  /** No node's phandle exceeds the maximum. */
  lemma {:induction false} MaxPhandleBounds(t: Node, path: Path)
    requires ValidPath(t, path)
    ensures Phandle(At(t, path)).Some? ==> Phandle(At(t, path)).value <= MaxPhandle(t)
    decreases path
  {
    hide Phandle;
    if path != [] {
      MaxPhandleBounds(t.kids[path[0]], path[1..]);
      MaxPhandleInBounds(t.kids, path[0]);
    }
  }

  lemma {:induction false} MaxPhandleInBounds(ks: seq<Node>, i: nat)
    requires i < |ks|
    ensures MaxPhandle(ks[i]) <= MaxPhandleIn(ks)
    decreases ks
  {
    hide MaxPhandle;
    if i > 0 {
      MaxPhandleInBounds(ks[1..], i - 1);
    }
  }

  /** Unless it is 0, the maximum is the phandle of some node. */
  lemma {:induction false} MaxPhandleAttained(t: Node) returns (path: Path)
    ensures ValidPath(t, path) && (MaxPhandle(t) > 0 ==> Phandle(At(t, path)) == Some(MaxPhandle(t)))
    decreases t, 1
  {
    hide Phandle;
    path := [];
    if MaxPhandle(t) > PhandleOf(t) {
      var i, rest := MaxPhandleInAttained(t.kids);
      path := [i] + rest;
      assert path[1..] == rest;
    }
  }

  lemma {:induction false} MaxPhandleInAttained(ks: seq<Node>) returns (i: nat, rest: Path)
    requires MaxPhandleIn(ks) > 0
    ensures i < |ks| && ValidPath(ks[i], rest) && Phandle(At(ks[i], rest)) == Some(MaxPhandleIn(ks))
    decreases ks, 0
  {
    hide Phandle;
    if MaxPhandle(ks[0]) == MaxPhandleIn(ks) {
      i := 0;
      rest := MaxPhandleAttained(ks[0]);
    } else {
      i, rest := MaxPhandleInAttained(ks[1..]);
      i := i + 1;
    }
  }

  // ---------------------------------------------------------------- the phandles

  /** `overlay_phandle_add_offset`; a node without the property is left alone. */
  function Bump(n: Node, name: seq<Byte>, delta: nat): Outcome<Node> {
    match Lookup(n, name)
    case None => Ok(n)
    case Some(v) =>
      if |v| != 4 then Err(-FDT_ERR_BADPHANDLE)
      else
        var old' := Ld32(v, 0);
        if Wrap32(old' + delta) < old' then Err(-FDT_ERR_NOPHANDLES)
        else if Wrap32(old' + delta) == 0xffff_ffff then Err(-FDT_ERR_NOPHANDLES)
        else Ok(SetProp(n, name, Be32(Wrap32(old' + delta))))
  }

  /** `overlay_adjust_node_phandles` */
  function Adjust(n: Node, delta: nat): Outcome<Node>
    decreases n, 1
  {
    match Bump(n, PHANDLE, delta)
    case Err(c) => Err(c)
    case Ok(a) =>
      match Bump(a, LINUX_PHANDLE, delta)
      case Err(c) => Err(c)
      case Ok(d) =>
        match AdjustKids(n.kids, delta)
        case Err(c) => Err(c)
        case Ok(ks) => Ok(d.(kids := ks))
  }

  function AdjustKids(ks: seq<Node>, delta: nat): (r: Outcome<seq<Node>>)
    ensures r.Ok? ==> |r.value| == |ks|
    decreases ks, 0
  {
    if ks == [] then Ok([])
    else
      match Adjust(ks[0], delta)
      case Err(c) => Err(c)
      case Ok(k) =>
        match AdjustKids(ks[1..], delta)
        case Err(c) => Err(c)
        case Ok(rest) => Ok([k] + rest)
  }

  /** What bumping one property does to every property of the node. */
  lemma BumpEffect(n: Node, name: seq<Byte>, delta: nat, other: seq<Byte>)
    requires Bump(n, name, delta).Ok? && delta < TWO32
    ensures var n' := Bump(n, name, delta).value;
            n'.name == n.name && n'.kids == n.kids &&
            (other != name ==> Lookup(n', other) == Lookup(n, other)) &&
            (Lookup(n, name).None? ==> n' == n) &&
            (Lookup(n, name).Some? ==>
               WordProp(n, name).Some? && WordProp(n, name).value + delta < 0xffff_ffff &&
               WordProp(n', name) == Some(WordProp(n, name).value + delta))
  {
    hide Lookup, SetProp, Ld32, Be32;
    if Lookup(n, name).Some? {
      var v := Lookup(n, name).value;
      var w := Wrap32(Ld32(v, 0) + delta);
      SetPropLookup(n, name, Be32(w), other);
      SetPropLookup(n, name, Be32(w), name);
      SetPropKids(n, name, Be32(w));
      assert Be32(w)[0..4] == Be32(w);
      LoadStored(Be32(w), 0, w);
      assert w == Ld32(v, 0) + delta;
    }
  }

  /** A value plus `delta`. */
  function Plus(p: Option<nat>, delta: nat): Option<nat> {
    match p case Some(v) => Some(v + delta) case None => None
  }

  /** One node of an adjusted tree: same name, same other properties, phandle raised by `delta`. */
  ghost predicate Raised(n: Node, n': Node, delta: nat) {
    n'.name == n.name && |n'.kids| == |n.kids| &&
    (forall x :: x != PHANDLE && x != LINUX_PHANDLE ==> Lookup(n', x) == Lookup(n, x)) &&
    Phandle(n') == Plus(Phandle(n), delta) && (Phandle(n').Some? ==> Phandle(n').value < 0xffff_ffff)
  }

  lemma AdjustNodeEffect(n: Node, delta: nat)
    requires Adjust(n, delta).Ok? && delta < TWO32
    ensures Raised(n, Adjust(n, delta).value, delta)
    ensures AdjustKids(n.kids, delta) == Ok(Adjust(n, delta).value.kids)
  {
    hide Lookup, AdjustKids, Bump;
    var a := Bump(n, PHANDLE, delta).value;
    var d := Bump(a, LINUX_PHANDLE, delta).value;
    var n' := Adjust(n, delta).value;
    assert PHANDLE != LINUX_PHANDLE by { assert |PHANDLE| != |LINUX_PHANDLE|; }
    BumpEffect(n, PHANDLE, delta, LINUX_PHANDLE);
    BumpEffect(a, LINUX_PHANDLE, delta, PHANDLE);
    forall x ensures Lookup(n', x) == Lookup(d, x) { LookupProps(n', d, x); }
    forall x | x != PHANDLE && x != LINUX_PHANDLE ensures Lookup(n', x) == Lookup(n, x) {
      BumpEffect(n, PHANDLE, delta, x);
      BumpEffect(a, LINUX_PHANDLE, delta, x);
    }
  }

  lemma LookupProps(a: Node, b: Node, x: seq<Byte>)
    requires a.props == b.props
    ensures Lookup(a, x) == Lookup(b, x)
  {
  }

  lemma {:induction false} AdjustKidsAt(ks: seq<Node>, delta: nat, i: nat)
    requires AdjustKids(ks, delta).Ok? && i < |ks|
    ensures Adjust(ks[i], delta) == Ok(AdjustKids(ks, delta).value[i])
    decreases ks
  {
    hide Adjust;
    if i > 0 {
      AdjustKidsAt(ks[1..], delta, i - 1);
    }
  }

  /** Every node of the overlay is raised, wherever it is. */
  lemma {:induction false} AdjustEverywhere(t: Node, delta: nat, path: Path)
    requires Adjust(t, delta).Ok? && ValidPath(t, path) && delta < TWO32
    ensures ValidPath(Adjust(t, delta).value, path) && Raised(At(t, path), At(Adjust(t, delta).value, path), delta)
    decreases path
  {
    hide Raised, Adjust, AdjustKids;
    AdjustNodeEffect(t, delta);
    if path != [] {
      AdjustKidsAt(t.kids, delta, path[0]);
      AdjustEverywhere(t.kids[path[0]], delta, path[1..]);
      SameArity(t, Adjust(t, delta).value, delta);
    }
  }

  lemma SameArity(n: Node, n': Node, delta: nat)
    requires Raised(n, n', delta)
    ensures |n'.kids| == |n.kids| && n'.name == n.name
  {
  }

  /** Distinct phandles stay distinct, and all of them end up above every phandle of the base. */
  lemma AdjustSeparates(base: Node, t: Node, p: Path, q: Path, r: Path)
    requires var delta := MaxPhandle(base); delta < TWO32 && Adjust(t, delta).Ok?
    requires ValidPath(t, p) && ValidPath(t, q) && ValidPath(base, r)
    requires Phandle(At(t, p)).Some? && Phandle(At(t, q)).Some? && Phandle(At(t, p)).value >= 1
    ensures var t' := Adjust(t, MaxPhandle(base)).value;
            ValidPath(t', p) && ValidPath(t', q) && Phandle(At(t', p)).Some? && Phandle(At(t', q)).Some? &&
            (Phandle(At(t, p)) != Phandle(At(t, q)) <==> Phandle(At(t', p)) != Phandle(At(t', q))) &&
            (Phandle(At(base, r)).Some? ==> Phandle(At(base, r)).value < Phandle(At(t', p)).value)
  {
    hide Adjust, Phandle, MaxPhandle;
    var delta := MaxPhandle(base);
    AdjustEverywhere(t, delta, p);
    AdjustEverywhere(t, delta, q);
    MaxPhandleBounds(base, r);
  }

  /** A phandle of 0 in the overlay, which is not allowed, ends up on the largest phandle of the base. */
  lemma ZeroCollides(base: Node, t: Node, p: Path) returns (r: Path)
    requires var delta := MaxPhandle(base); 0 < delta < TWO32 && Adjust(t, delta).Ok?
    requires ValidPath(t, p) && Phandle(At(t, p)) == Some(0)
    ensures var t' := Adjust(t, MaxPhandle(base)).value;
            ValidPath(t', p) && ValidPath(base, r) && Phandle(At(base, r)) == Phandle(At(t', p))
  {
    hide Adjust, Phandle, MaxPhandle;
    AdjustEverywhere(t, MaxPhandle(base), p);
    r := MaxPhandleAttained(base);
  }

  // -------------------------------------------------------------- the references

  /** The list of positions that a fixup property holds. */
  function Words(v: seq<Byte>): seq<nat>
    decreases |v|
  {
    if |v| < 4 then [] else Words(v[..|v| - 4]) + [Ld32(v, |v| - 4)]
  }

  /** The value with `delta` added to the words at the given positions, one after the other. */
  function Shifted(v: seq<Byte>, ps: seq<nat>, delta: nat): (r: seq<Byte>)
    ensures |r| == |v|
  {
    if ps == [] then v
    else
      var w, p := Shifted(v, ps[..|ps| - 1], delta), ps[|ps| - 1];
      if p + 4 <= |v| then Patch(w, p, Be32(Wrap32(Ld32(w, p) + delta))) else w
  }

  /** Every position has a whole word of the value behind it. */
  predicate Within(v: seq<Byte>, ps: seq<nat>) {
    forall i :: 0 <= i < |ps| ==> ps[i] + 4 <= |v|
  }

  /** The length check of `fdt_setprop_inplace_namelen_partial`, on `uint32_t` as in the source. */
  predicate TooLong(size: nat, idx: nat, len: nat) {
    size < Wrap32(len + idx)
  }

  /**
   The check means what it should exactly when the sum does not wrap, or the value is shorter than
   the wrapped sum.
   */
  lemma TooLongExact(size: nat, idx: nat, len: nat)
    requires size <= INT_MAX && idx < TWO32 && len <= INT_MAX
    ensures (TooLong(size, idx, len) <==> idx + len > size) <==> idx + len < TWO32 || size < Wrap32(len + idx)
  {
    assert Wrap32(len + idx) == if idx + len < TWO32 then idx + len else idx + len - TWO32;
  }

  /** A word at position 0xfffffffc of a value of four bytes is let through. */
  lemma TooLongWraps()
    ensures !TooLong(4, 0xffff_fffc, 4)
  {
  }

  /** Every position passes the check. */
  predicate Passes(v: seq<Byte>, ps: seq<nat>) {
    forall i :: 0 <= i < |ps| ==> !TooLong(|v|, ps[i], 4)
  }

  /** A list that passes lies within the value exactly when it has no position from 0xfffffffc on. */
  lemma PassesExact(v: seq<Byte>, ps: seq<nat>)
    requires |v| <= INT_MAX && forall i :: 0 <= i < |ps| ==> ps[i] < TWO32
    ensures Passes(v, ps) ==> (Within(v, ps) <==> forall i :: 0 <= i < |ps| ==> ps[i] < 0xffff_fffc)
    ensures Within(v, ps) ==> Passes(v, ps)
  {
    forall i | 0 <= i < |ps|
      ensures !TooLong(|v|, ps[i], 4) ==> (ps[i] + 4 <= |v| <==> ps[i] < 0xffff_fffc)
      ensures ps[i] + 4 <= |v| ==> !TooLong(|v|, ps[i], 4)
    {
      assert Wrap32(4 + ps[i]) == if ps[i] < 0xffff_fffc then ps[i] + 4 else ps[i] + 4 - TWO32;
    }
  }

  /** One property of a fixup node: the words it lists, in the property of the same name. */
  function RefProp(n: Node, f: Prop, delta: nat): Outcome<Node> {
    if |f.value| % 4 != 0 then Err(-FDT_ERR_BADOVERLAY)
    else
      match Lookup(n, f.name)
      case None => Err(-FDT_ERR_BADOVERLAY)
      case Some(v) =>
        if Passes(v, Words(f.value)) then Ok(SetProp(n, f.name, Shifted(v, Words(f.value), delta)))
        else Err(-FDT_ERR_BADOVERLAY)
  }

  function RefProps(n: Node, fs: seq<Prop>, delta: nat): Outcome<Node> {
    if fs == [] then Ok(n)
    else
      match RefProps(n, fs[..|fs| - 1], delta)
      case Err(c) => Err(c)
      case Ok(a) => RefProp(a, fs[|fs| - 1], delta)
  }

  /** `overlay_update_local_node_references` for tree node `n` and fixup node `f`. */
  function RefNode(n: Node, f: Node, delta: nat): Outcome<Node>
    decreases f, 1
  {
    match RefProps(n, f.props, delta)
    case Err(c) => Err(c)
    case Ok(a) => RefKids(a, f.kids, delta)
  }

  function RefKids(n: Node, fs: seq<Node>, delta: nat): Outcome<Node>
    decreases fs, 0
  {
    if fs == [] then Ok(n)
    else
      match RefKids(n, fs[..|fs| - 1], delta)
      case Err(c) => Err(c)
      case Ok(a) => RefKid(a, fs[|fs| - 1], delta)
  }

  function RefKid(n: Node, f: Node, delta: nat): Outcome<Node>
    decreases f, 2
  {
    var i := MatchKid(n.kids, f.name);
    if i == |n.kids| then Err(-FDT_ERR_BADOVERLAY)
    else
      match RefNode(n.kids[i], f, delta)
      case Err(c) => Err(c)
      case Ok(k) => Ok(n.(kids := n.kids[i := k]))
  }

  // ------------------------------------------------- where the references are, and the effect

  /** The positions that a fixup node lists for property `x` of its tree node. */
  function PosOf(fs: seq<Prop>, x: seq<Byte>): seq<nat> {
    if fs == [] then []
    else
      var f := fs[|fs| - 1];
      PosOf(fs[..|fs| - 1], x) + if f.name == x then Words(f.value) else []
  }

  /** The positions that the fixups below `f` list for property `x` of the node at `path` below `n`. */
  function PosAt(n: Node, f: Node, path: Path, x: seq<Byte>): seq<nat>
    decreases f, 1
  {
    if path == [] then PosOf(f.props, x) else PosIn(n, f.kids, path, x)
  }

  function PosIn(n: Node, fs: seq<Node>, path: Path, x: seq<Byte>): seq<nat>
    requires path != []
    decreases fs, 0
  {
    if fs == [] then []
    else
      var f, j := fs[|fs| - 1], path[0];
      PosIn(n, fs[..|fs| - 1], path, x) +
      if MatchKid(n.kids, f.name) == j && j < |n.kids| then PosAt(n.kids[j], f, path[1..], x) else []
  }

  /** The same nodes with the same names. */
  predicate SameShape(a: Node, b: Node) {
    a.name == b.name && |a.kids| == |b.kids| && forall i :: 0 <= i < |a.kids| ==> SameShape(a.kids[i], b.kids[i])
  }

  lemma {:induction false} SameShapeSelf(a: Node)
    ensures SameShape(a, a)
  {
    forall i | 0 <= i < |a.kids| ensures SameShape(a.kids[i], a.kids[i]) {
      SameShapeSelf(a.kids[i]);
    }
  }

  lemma {:induction false} SameShapeTrans(a: Node, b: Node, c: Node)
    requires SameShape(a, b) && SameShape(b, c)
    ensures SameShape(a, c)
  {
    forall i | 0 <= i < |a.kids| ensures SameShape(a.kids[i], c.kids[i]) {
      SameShapeTrans(a.kids[i], b.kids[i], c.kids[i]);
    }
  }

  lemma {:induction false} MatchKidNames(a: seq<Node>, b: seq<Node>, s: seq<Byte>)
    requires |a| == |b| && forall i :: 0 <= i < |a| ==> a[i].name == b[i].name
    ensures MatchKid(a, s) == MatchKid(b, s)
  {
    hide NameEq;
    if a != [] {
      MatchKidNames(a[1..], b[1..], s);
    }
  }

  lemma {:induction false} PosAtShape(a: Node, b: Node, f: Node, path: Path, x: seq<Byte>)
    requires SameShape(a, b)
    ensures PosAt(a, f, path, x) == PosAt(b, f, path, x)
    decreases f, 1
  {
    if path != [] {
      PosInShape(a, b, f.kids, path, x);
    }
  }

  lemma {:induction false} PosInShape(a: Node, b: Node, fs: seq<Node>, path: Path, x: seq<Byte>)
    requires SameShape(a, b) && path != []
    ensures PosIn(a, fs, path, x) == PosIn(b, fs, path, x)
    decreases fs, 0
  {
    hide MatchKid;
    if fs != [] {
      var f, j := fs[|fs| - 1], path[0];
      PosInShape(a, b, fs[..|fs| - 1], path, x);
      MatchKidNames(a.kids, b.kids, f.name);
      if j < |a.kids| {
        PosAtShape(a.kids[j], b.kids[j], f, path[1..], x);
      }
    }
  }

  /** A property value after the listed words were shifted. */
  function ShiftOpt(v: Option<seq<Byte>>, ps: seq<nat>, delta: nat): Option<seq<Byte>> {
    match v case Some(x) => Some(Shifted(x, ps, delta)) case None => None
  }

  lemma {:induction false} ShiftedConcat(v: seq<Byte>, a: seq<nat>, b: seq<nat>, delta: nat)
    ensures Shifted(v, a + b, delta) == Shifted(Shifted(v, a, delta), b, delta)
  {
    hide Ld32, Be32, Patch;
    if b == [] {
      assert a + b == a;
    } else {
      assert (a + b)[..|a + b| - 1] == a + b[..|b| - 1];
      ShiftedConcat(v, a, b[..|b| - 1], delta);
    }
  }

  lemma {:induction false} RefPropsEffect(n: Node, fs: seq<Prop>, delta: nat, x: seq<Byte>)
    requires RefProps(n, fs, delta).Ok?
    ensures var n' := RefProps(n, fs, delta).value;
            n'.kids == n.kids && n'.name == n.name && Lookup(n', x) == ShiftOpt(Lookup(n, x), PosOf(fs, x), delta)
  {
    hide Lookup, SetProp, Words, Passes;
    if fs != [] {
      var f := fs[|fs| - 1];
      var a := RefProps(n, fs[..|fs| - 1], delta).value;
      RefPropsEffect(n, fs[..|fs| - 1], delta, x);
      var v := Lookup(a, f.name).value;
      SetPropLookup(a, f.name, Shifted(v, Words(f.value), delta), x);
      SetPropKids(a, f.name, Shifted(v, Words(f.value), delta));
      if Lookup(n, x).Some? {
        ShiftedConcat(Lookup(n, x).value, PosOf(fs[..|fs| - 1], x), if f.name == x then Words(f.value) else [], delta);
      }
    }
  }

  lemma {:induction false} ShapePath(a: Node, b: Node, path: Path)
    requires SameShape(a, b) && ValidPath(a, path)
    ensures ValidPath(b, path)
    decreases path
  {
    if path != [] {
      ShapePath(a.kids[path[0]], b.kids[path[0]], path[1..]);
    }
  }

  /** Updating references changes no node and no name. */
  lemma {:induction false} RefShape(n: Node, f: Node, delta: nat)
    requires RefNode(n, f, delta).Ok?
    ensures SameShape(n, RefNode(n, f, delta).value)
    decreases f, 1
  {
    hide RefProps, SameShape, RefKid;
    var a := RefProps(n, f.props, delta).value;
    RefPropsEffect(n, f.props, delta, []);
    SameKids(n, a);
    RefKidsShape(a, f.kids, delta);
    SameShapeTrans(n, a, RefNode(n, f, delta).value);
  }

  lemma SameKids(a: Node, b: Node)
    requires a.name == b.name && a.kids == b.kids
    ensures SameShape(a, b)
  {
    SameShapeSelf(a);
  }

  lemma {:induction false} RefKidsShape(n: Node, fs: seq<Node>, delta: nat)
    requires RefKids(n, fs, delta).Ok?
    ensures SameShape(n, RefKids(n, fs, delta).value) && RefKids(n, fs, delta).value.props == n.props
    decreases fs, 0
  {
    hide MatchKid;
    if fs == [] {
      SameShapeSelf(n);
    } else {
      var f := fs[|fs| - 1];
      var a, n' := RefKids(n, fs[..|fs| - 1], delta).value, RefKids(n, fs, delta).value;
      RefKidsShape(n, fs[..|fs| - 1], delta);
      var i := MatchKid(a.kids, f.name);
      RefShape(a.kids[i], f, delta);
      forall j | 0 <= j < |a.kids| ensures SameShape(a.kids[j], n'.kids[j]) {
        SameShapeSelf(a.kids[j]);
      }
      SameShapeTrans(n, a, n');
    }
  }

  /** Each property of each node has exactly the listed words shifted. */
  lemma {:induction false} RefEverywhere(n: Node, f: Node, delta: nat, path: Path, x: seq<Byte>)
    requires RefNode(n, f, delta).Ok? && ValidPath(n, path)
    ensures var n' := RefNode(n, f, delta).value;
            ValidPath(n', path) &&
            Lookup(At(n', path), x) == ShiftOpt(Lookup(At(n, path), x), PosAt(n, f, path, x), delta)
    decreases f, 1
  {
    hide RefProps, SameShape, RefKids, Lookup, PosOf, PosIn;
    var a, n' := RefProps(n, f.props, delta).value, RefNode(n, f, delta).value;
    RefShape(n, f, delta);
    ShapePath(n, n', path);
    RefPropsEffect(n, f.props, delta, x);
    if path == [] {
      RefKidsShape(a, f.kids, delta);
      LookupProps(n', a, x);
    } else {
      RefKidsEverywhere(a, f.kids, delta, path, x);
      SameKids(n, a);
      PosInShape(n, a, f.kids, path, x);
    }
  }

  lemma {:induction false} RefKidsEverywhere(n: Node, fs: seq<Node>, delta: nat, path: Path, x: seq<Byte>)
    requires RefKids(n, fs, delta).Ok? && ValidPath(n, path) && path != []
    ensures var n' := RefKids(n, fs, delta).value;
            Lookup(At(n', path), x) == ShiftOpt(Lookup(At(n, path), x), PosIn(n, fs, path, x), delta)
    decreases fs, 0
  {
    hide SameShape, Lookup, MatchKid, RefNode, Shifted;
    var v := Lookup(At(n, path), x);
    if fs == [] {
      ShiftNothing(v, delta);
    } else {
      var f, j := fs[|fs| - 1], path[0];
      var a, n' := RefKids(n, fs[..|fs| - 1], delta).value, RefKids(n, fs, delta).value;
      RefKidsEverywhere(n, fs[..|fs| - 1], delta, path, x);
      RefKidsShape(n, fs[..|fs| - 1], delta);
      ShapeKids(n, a);
      ShapePath(n, a, path);
      MatchKidNames(n.kids, a.kids, f.name);
      var here := if MatchKid(n.kids, f.name) == j then PosAt(n.kids[j], f, path[1..], x) else [];
      if MatchKid(n.kids, f.name) == j {
        RefEverywhere(a.kids[j], f, delta, path[1..], x);
        PosAtShape(n.kids[j], a.kids[j], f, path[1..], x);
      } else {
        ShiftNothing(Lookup(At(a, path), x), delta);
      }
      if v.Some? {
        ShiftedConcat(v.value, PosIn(n, fs[..|fs| - 1], path, x), here, delta);
      }
    }
  }

  lemma ShiftNothing(v: Option<seq<Byte>>, delta: nat)
    ensures ShiftOpt(v, [], delta) == v
  {
  }

  lemma ShapeKids(a: Node, b: Node)
    requires SameShape(a, b)
    ensures |a.kids| == |b.kids| && forall i ::
              0 <= i < |a.kids| ==> a.kids[i].name == b.kids[i].name && SameShape(a.kids[i], b.kids[i])
  {
  }

  /** Positions at least a word apart. */
  predicate Apart(ps: seq<nat>) {
    forall i, j :: 0 <= i < j < |ps| ==> ps[i] + 4 <= ps[j] || ps[j] + 4 <= ps[i]
  }

  lemma {:induction false} ShiftedElsewhere(v: seq<Byte>, ps: seq<nat>, delta: nat, p: nat)
    requires p + 4 <= |v| && forall i :: 0 <= i < |ps| ==> ps[i] + 4 <= p || p + 4 <= ps[i]
    ensures Ld32(Shifted(v, ps, delta), p) == Ld32(v, p)
  {
    hide Ld32, Be32, Patch;
    if ps != [] {
      var w, q := Shifted(v, ps[..|ps| - 1], delta), ps[|ps| - 1];
      ShiftedElsewhere(v, ps[..|ps| - 1], delta, p);
      if q + 4 <= |v| {
        PatchOutside(w, q, Be32(Wrap32(Ld32(w, q) + delta)), p, p + 4);
        LoadSame(Shifted(v, ps, delta), p, w, p);
      }
    }
  }

  /** A listed word is raised by `delta`, once. */
  lemma {:induction false} ShiftedWord(v: seq<Byte>, ps: seq<nat>, delta: nat, k: nat)
    requires Apart(ps) && k < |ps| && ps[k] + 4 <= |v|
    ensures Ld32(Shifted(v, ps, delta), ps[k]) == Wrap32(Ld32(v, ps[k]) + delta)
  {
    hide Ld32, Be32, Patch;
    var last, p := |ps| - 1, ps[k];
    var w := Shifted(v, ps[..last], delta);
    if k == last {
      ShiftedElsewhere(v, ps[..last], delta, p);
      var word := Wrap32(Ld32(w, p) + delta);
      LoadStored(Shifted(v, ps, delta), p, word);
    } else {
      ShiftedWord(v, ps[..last], delta, k);
      var q := ps[last];
      if q + 4 <= |v| {
        PatchOutside(w, q, Be32(Wrap32(Ld32(w, q) + delta)), p, p + 4);
        LoadSame(Shifted(v, ps, delta), p, w, p);
      }
    }
  }

  /**
   A local reference that named the node at `r` before both passes names it afterwards: the word
   at the listed position equals that node's phandle again.
   */
  lemma ReferenceKept(o: Node, f: Node, delta: nat, q: Path, x: seq<Byte>, k: nat, r: Path)
    requires delta < TWO32 && Adjust(o, delta).Ok? && RefNode(Adjust(o, delta).value, f, delta).Ok?
    requires ValidPath(o, q) && ValidPath(o, r) && x != PHANDLE && x != LINUX_PHANDLE
    requires var ps, v := PosAt(Adjust(o, delta).value, f, q, x), Lookup(At(o, q), x);
             k < |ps| && Apart(ps) && v.Some? && ps[k] + 4 <= |v.value| &&
             Phandle(At(o, r)) == Some(Ld32(v.value, ps[k]))
    requires PosAt(Adjust(o, delta).value, f, r, PHANDLE) == [] &&
             PosAt(Adjust(o, delta).value, f, r, LINUX_PHANDLE) == []
    ensures var o', p := RefNode(Adjust(o, delta).value, f, delta).value, PosAt(Adjust(o, delta).value, f, q, x)[k];
            ValidPath(o', q) && ValidPath(o', r) && Lookup(At(o', q), x).Some? &&
            p + 4 <= |Lookup(At(o', q), x).value| &&
            Phandle(At(o', r)) == Some(Ld32(Lookup(At(o', q), x).value, p))
  {
    hide Adjust, RefNode, Lookup, PosAt, Shifted, Ld32;
    var o1 := Adjust(o, delta).value;
    var ps, v := PosAt(o1, f, q, x), Lookup(At(o, q), x).value;
    AdjustEverywhere(o, delta, q);
    AdjustEverywhere(o, delta, r);
    RefEverywhere(o1, f, delta, q, x);
    RefEverywhere(o1, f, delta, r, PHANDLE);
    RefEverywhere(o1, f, delta, r, LINUX_PHANDLE);
    ShiftNothing(Lookup(At(o1, r), PHANDLE), delta);
    ShiftNothing(Lookup(At(o1, r), LINUX_PHANDLE), delta);
    ShiftedWord(v, ps, delta, k);
  }
}
