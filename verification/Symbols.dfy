/** Resolving external references: the `__fixups__` of an overlay against the `__symbols__` of the base. */
module Symbols {
  import opened Bytes
  import opened DeviceTree
  import opened Lexer
  import opened Blob
  import opened Walk
  import opened Edit
  import opened Rewrite
  import opened ReadWrite
  import opened TreeWalk
  import opened Phandles
  import opened PhandleBytes
  import opened InPlace
  import opened RefBytes
  import opened AllNodes
  import opened Paths
  import Fixups

  /** "/__symbols__" */
  const SYMBOLS: seq<Byte> := [47, 95, 95, 115, 121, 109, 98, 111, 108, 115, 95, 95]

  /** The phandle of the node that a symbol of the base names. */
  function SymbolPhandle(base: Node, symbol: seq<Byte>): Outcome<nat> {
    match Resolve(base, SYMBOLS)
    case None => Err(-FDT_ERR_NOTFOUND)
    case Some(sp) =>
      match Lookup(At(base, sp), symbol)
      case None => Err(-FDT_ERR_NOTFOUND)
      case Some(v) =>
        match Resolve(base, CString(v))
        case None => Err(-FDT_ERR_NOTFOUND)
        case Some(p) => if PhandleOf(At(base, p)) == 0 then Err(-FDT_ERR_NOTFOUND) else Ok(PhandleOf(At(base, p)))
  }

  /** One record: the symbol's phandle stored at a position of a property of the overlay. */
  function FixOne(base: Node, o: Node, symbol: seq<Byte>, r: Fixups.Record): Outcome<Node> {
    match SymbolPhandle(base, symbol)
    case Err(c) => Err(c)
    case Ok(ph) =>
      match Resolve(o, r.path)
      case None => Err(-FDT_ERR_BADOVERLAY)
      case Some(q) =>
        match Lookup(At(o, q), r.name)
        case None => Err(-FDT_ERR_NOTFOUND)
        case Some(v) =>
          var idx := Wrap32(r.offset);
          if TooLong(|v|, idx, 4) then Err(-FDT_ERR_NOSPACE)
          else if idx + 4 <= |v| then Ok(Put(o, q, SetProp(At(o, q), r.name, Patch(v, idx, Be32(Wrap32(ph))))))
          else Ok(o)
  }

  /** The records of a value one after the other. */
  function FixAll(base: Node, o: Node, symbol: seq<Byte>, rs: seq<Fixups.Record>): Outcome<Node> {
    if rs == [] then Ok(o)
    else
      match FixAll(base, o, symbol, rs[..|rs| - 1])
      case Err(c) => Err(c)
      case Ok(a) => FixOne(base, a, symbol, rs[|rs| - 1])
  }

  /** One property of `__fixups__`: its name is a symbol, its value the list of records. */
  function FixProp(base: Node, o: Node, f: Prop, max: nat): Outcome<Node> {
    var p := Fixups.Parse(f.value, max);
    match FixAll(base, o, f.name, p.0)
    case Err(c) => Err(c)
    case Ok(a) => if p.1 then Ok(a) else Err(-FDT_ERR_BADOVERLAY)
  }

  function FixProps(base: Node, o: Node, fs: seq<Prop>, max: nat): Outcome<Node> {
    if fs == [] then Ok(o)
    else
      match FixProps(base, o, fs[..|fs| - 1], max)
      case Err(c) => Err(c)
      case Ok(a) => FixProp(base, a, fs[|fs| - 1], max)
  }

  // -------------------------------------------------------------------- one record

  /** Symbols are absolute paths that end inside their property. */
  ghost predicate SymbolsEnd(base: Node) {
    match Resolve(base, SYMBOLS)
    case None => true
    case Some(sp) =>
      forall x :: Lookup(At(base, sp), x).Some? ==>
        0 in Lookup(At(base, sp), x).value && Absolute(CString(Lookup(At(base, sp), x).value))
  }

  /** The lookups of `overlay_fixup_one_phandle` in the base. */
  method FindSymbol(b: seq<Byte>, symbol: seq<Byte>, ghost base: Node) returns (err: int, phandle: nat)
    requires NodeOff(b, base, [], 0) && SymbolsEnd(base)
    ensures match SymbolPhandle(base, symbol)
            case Err(c) => err == c
            case Ok(p) => err == 0 && phandle == p < TWO32
  {
    hide NodeOff, At, Lookup, Resolve, PhandleOf, CString;
    phandle := 0;
    var symbols := PathOffset(b, SYMBOLS, base);
    ghost var sp := PathFor(base, SYMBOLS);
    if symbols < 0 {
      return symbols, phandle;
    }
    var s := GetProp(b, symbols, symbol, base, sp);
    if s.None? {
      return -FDT_ERR_NOTFOUND, phandle;
    }
    var named := PathOffset(b, CString(s.value), base);
    ghost var p := PathFor(base, CString(s.value));
    if named < 0 {
      return named, phandle;
    }
    phandle := GetPhandle(b, named, base, p);
    if phandle == 0 {
      return -FDT_ERR_NOTFOUND, phandle;
    }
    err := 0;
  }

  /** `overlay_fixup_one_phandle` */
  method FixOneBytes(m: array<Byte>, b: seq<Byte>, symbol: seq<Byte>, r: Fixups.Record, ghost o: Node, ghost base: Node)
    returns (err: int, ghost o': Node)
    requires NodeOff(m[..], o, [], 0) && NodeOff(b, base, [], 0) && SymbolsEnd(base) && Absolute(r.path)
    modifies m
    ensures Steady(old(m[..]), o, m[..], o')
    ensures match FixOne(base, o, symbol, r)
            case Ok(x) => err == 0 && o' == x
            case Err(c) => err == c && m[..] == old(m[..])
  {
    hide NodeOff, At, Lookup, Resolve, Put, SetProp, Patch, Edited, Steady, SymbolsEnd, SymbolPhandle, SameWithin;
    o' := o;
    StillHere(m[..], o, [], 0);
    var phandle;
    err, phandle := FindSymbol(b, symbol, base);
    SymbolError(base, symbol);
    if err != 0 { return; }
    var node := PathOffset(m[..], r.path, o);
    ghost var q := PathFor(o, r.path);
    if node == -FDT_ERR_NOTFOUND {
      return -FDT_ERR_BADOVERLAY, o';
    }
    assert Wrap32(phandle) == phandle;
    ghost var v := Lookup(At(o, q), r.name);
    err := SetPropPartial(m, node, r.name, Wrap32(r.offset), Be32(phandle), o, q);
    if err != 0 { return; }
    if Wrap32(r.offset) + 4 <= |v.value| {
      o' := Put(o, q, SetProp(At(o, q), r.name, Patch(v.value, Wrap32(r.offset), Be32(phandle))));
    }
  }

  lemma SymbolError(base: Node, symbol: seq<Byte>)
    ensures SymbolPhandle(base, symbol).Err? ==> SymbolPhandle(base, symbol).code == -FDT_ERR_NOTFOUND
  {
  }

  // ------------------------------------------------------------ what a record leaves alone

  lemma {:induction false} PutShape(t: Node, q: Path, n: Node)
    requires ValidPath(t, q) && SameShape(At(t, q), n)
    ensures SameShape(t, Put(t, q, n))
    decreases q
  {
    if q != [] {
      PutShape(t.kids[q[0]], q[1..], n);
      forall i | 0 <= i < |t.kids| ensures SameShape(t.kids[i], t.kids[i]) {
        SameShapeSelf(t.kids[i]);
      }
    }
  }

  /** A path resolves by names alone. */
  lemma {:induction false} ResolveShape(a: Node, c: Node, s: seq<Byte>)
    requires SameShape(a, c)
    ensures Resolve(a, s) == Resolve(c, s)
    decreases |s|
  {
    hide MatchKid, Fixups.Find;
    if s != [] {
      if s[0] == SLASH {
        ResolveShape(a, c, s[1..]);
      } else {
        var k := Fixups.Find(s, SLASH);
        ShapeKids(a, c);
        MatchKidNames(a.kids, c.kids, s[..k]);
        var i := MatchKid(a.kids, s[..k]);
        if k > 0 && i < |a.kids| {
          ResolveShape(a.kids[i], c.kids[i], s[k..]);
        }
      }
    }
  }

  /** The record does not point at the node at `fp` or below it. */
  predicate Aside(o: Node, r: Fixups.Record, fp: Path) {
    Absolute(r.path) && (Resolve(o, r.path).Some? ==> !(fp <= Resolve(o, r.path).value))
  }

  lemma FixOneKeeps(base: Node, o: Node, symbol: seq<Byte>, r: Fixups.Record, fp: Path)
    requires FixOne(base, o, symbol, r).Ok? && ValidPath(o, fp) && Aside(o, r, fp)
    ensures var x := FixOne(base, o, symbol, r).value;
            SameShape(o, x) && ValidPath(x, fp) && At(x, fp) == At(o, fp)
  {
    hide Resolve, At, Put, SetProp, Patch, SameShape, Lookup, SymbolPhandle, ValidPath;
    SameShapeSelf(o);
    var x, q := FixOne(base, o, symbol, r).value, Resolve(o, r.path).value;
    ResolveValid(o, r.path);
    if x != o {
      var n := At(o, q);
      var v := Lookup(n, r.name).value;
      var n' := SetProp(n, r.name, Patch(v, Wrap32(r.offset), Be32(Wrap32(SymbolPhandle(base, symbol).value))));
      SetPropKids(n, r.name, Patch(v, Wrap32(r.offset), Be32(Wrap32(SymbolPhandle(base, symbol).value))));
      SameKids(n, n');
      PutShape(o, q, n');
      if q <= fp { BelowKid(o, q, fp); }
      AtElsewhere(o, q, n', fp);
    }
  }

  lemma {:induction false} BelowKid(t: Node, q: Path, fp: Path)
    requires ValidPath(t, fp) && ValidPath(t, q) && q <= fp && |q| < |fp|
    ensures fp[|q|] < |At(t, q).kids|
    decreases q
  {
    if q != [] {
      assert q[1..] <= fp[1..] && fp[1..][|q| - 1] == fp[|q|];
      BelowKid(t.kids[q[0]], q[1..], fp[1..]);
    }
  }

  // ---------------------------------------------------------------- one property

  lemma FixAllSnoc(base: Node, o: Node, symbol: seq<Byte>, rs: seq<Fixups.Record>, r: Fixups.Record)
    requires FixAll(base, o, symbol, rs).Ok?
    ensures FixAll(base, o, symbol, rs + [r]) == FixOne(base, FixAll(base, o, symbol, rs).value, symbol, r)
  {
    hide FixOne;
    assert (rs + [r])[..|rs|] == rs;
  }

  lemma {:induction false} FixAllStuck(base: Node, o: Node, symbol: seq<Byte>, rs: seq<Fixups.Record>,
                                       more: seq<Fixups.Record>)
    requires FixAll(base, o, symbol, rs).Err?
    ensures FixAll(base, o, symbol, rs + more) == FixAll(base, o, symbol, rs)
    decreases |more|
  {
    hide FixOne;
    if more == [] {
      assert rs + more == rs;
    } else {
      var h := more[..|more| - 1];
      assert (rs + more)[..|rs + more| - 1] == rs + h;
      FixAllStuck(base, o, symbol, rs, h);
    }
  }

  ghost predicate AllAside(o: Node, rs: seq<Fixups.Record>, fp: Path) {
    forall r :: r in rs ==> Aside(o, r, fp)
  }

  lemma AsideShape(o: Node, c: Node, rs: seq<Fixups.Record>, fp: Path)
    requires AllAside(o, rs, fp) && SameShape(o, c)
    ensures AllAside(c, rs, fp)
  {
    hide Resolve, SameShape;
    forall r | r in rs ensures Aside(c, r, fp) {
      ResolveShape(o, c, r.path);
    }
  }

  /** What the records resolved so far leave: the same shape, and the fixup node as it was. */
  ghost predicate Aligned(o: Node, a: Node, fp: Path) {
    SameShape(o, a) && ValidPath(a, fp) && At(a, fp) == At(o, fp)
  }

  /**
   `overlay_fixup_phandle` with the property value `value`, of the fixup node at `fp`. The value is
   read through a pointer into the overlay; records that do not point at the fixups leave it as it is.
   */
  method FixPropBytes(m: array<Byte>, b: seq<Byte>, symbol: seq<Byte>, value: seq<Byte>, max: nat,
                      ghost o: Node, ghost base: Node, ghost fp: Path)
    returns (err: int, ghost a: Node)
    requires NodeOff(m[..], o, [], 0) && NodeOff(b, base, [], 0) && SymbolsEnd(base)
    requires ValidPath(o, fp) && AllAside(o, Fixups.Parse(value, max).0, fp)
    modifies m
    ensures Steady(old(m[..]), o, m[..], a)
    ensures match FixProp(base, o, Prop(symbol, value), max)
            case Ok(x) => err == 0 && a == x && Aligned(o, a, fp)
            case Err(c) => err == c && c != 0
  {
    hide NodeOff, At, Put, Steady, SymbolsEnd, FixOne, FixAll, Fixups.ParseText, Fixups.Parse, NulAt, Aligned,
         AllAside;
    ghost var bytes, all, done: seq<Fixups.Record> := m[..], Fixups.Parse(value, max), [];
    a := o;
    StillHere(m[..], o, [], 0);
    FixStart(base, o, symbol, fp);
    var rest := value;
    while true
      invariant all.0 == done + Fixups.Parse(rest, max).0 && all.1 == Fixups.Parse(rest, max).1
      invariant FixAll(base, o, symbol, done) == Ok(a) && Steady(bytes, o, m[..], a) && Aligned(o, a, fp)
      decreases |rest|
    {
      var z := NulAt(rest, 0);
      Fixups.ParseStep(rest, max);
      if z == |rest| {
        assert all.0 == done;
        return -FDT_ERR_BADOVERLAY, a;
      }
      var text := rest[..z];
      rest := rest[z + 1..];
      var r := Fixups.ParseText(text, max);
      if r.None? {
        assert all.0 == done;
        return -FDT_ERR_BADOVERLAY, a;
      }
      ghost var more := if rest == [] then [] else Fixups.Parse(rest, max).0;
      assert all.0 == done + ([r.value] + more) == (done + [r.value]) + more;
      ghost var a1, bytes1 := a, m[..];
      SteadyNode(bytes, o, bytes1, a1, [], 0);
      FixReady(o, a1, all.0, r.value, fp);
      err, a := FixOneBytes(m, b, symbol, r.value, a1, base);
      SteadyTrans(bytes, o, bytes1, a1, m[..], a);
      FixAllSnoc(base, o, symbol, done, r.value);
      done := done + [r.value];
      FixOneError(base, a1, symbol, r.value);
      if err != 0 {
        FixAllStuck(base, o, symbol, done, more);
        return;
      }
      FixAligned(base, o, a1, symbol, r.value, fp);
      if rest == [] {
        assert all.0 == done;
        return 0, a;
      }
    }
  }

  lemma FixStart(base: Node, o: Node, symbol: seq<Byte>, fp: Path)
    requires ValidPath(o, fp)
    ensures FixAll(base, o, symbol, []) == Ok(o) && Aligned(o, o, fp)
  {
    SameShapeSelf(o);
  }

  lemma FixReady(o: Node, a: Node, rs: seq<Fixups.Record>, r: Fixups.Record, fp: Path)
    requires AllAside(o, rs, fp) && Aligned(o, a, fp) && r in rs
    ensures Aside(a, r, fp) && Absolute(r.path) && ValidPath(a, fp)
  {
    hide Resolve, SameShape, At;
    ResolveShape(o, a, r.path);
  }

  lemma FixAligned(base: Node, o: Node, a: Node, symbol: seq<Byte>, r: Fixups.Record, fp: Path)
    requires Aligned(o, a, fp) && Aside(a, r, fp) && FixOne(base, a, symbol, r).Ok?
    ensures Aligned(o, FixOne(base, a, symbol, r).value, fp)
  {
    hide SameShape, At, FixOne, Aside, ValidPath;
    FixOneKeeps(base, a, symbol, r, fp);
    SameShapeTrans(o, a, FixOne(base, a, symbol, r).value);
  }

  lemma FixOneError(base: Node, o: Node, symbol: seq<Byte>, r: Fixups.Record)
    ensures FixOne(base, o, symbol, r).Err? ==> FixOne(base, o, symbol, r).code < 0
  {
    hide SymbolPhandle, Resolve, Lookup, SetProp, Patch, Put;
    SymbolError(base, symbol);
  }

  // ----------------------------------------------------------------- all properties

  ghost predicate PropsAside(o: Node, fs: seq<Prop>, fp: Path, max: nat) {
    forall k :: 0 <= k < |fs| ==> AllAside(o, Fixups.Parse(fs[k].value, max).0, fp)
  }

  lemma FixPropsSnoc(base: Node, o: Node, fs: seq<Prop>, k: nat, max: nat)
    requires k < |fs| && FixProps(base, o, fs[..k], max).Ok?
    ensures FixProps(base, o, fs[..k + 1], max) == FixProp(base, FixProps(base, o, fs[..k], max).value, fs[k], max)
    ensures FixProps(base, o, fs[..k + 1], max).Err? ==>
            FixProps(base, o, fs, max) == FixProps(base, o, fs[..k + 1], max)
  {
    hide FixProp;
    assert fs[..k + 1][..k] == fs[..k];
    if FixProps(base, o, fs[..k + 1], max).Err? {
      FixPropsStuck(base, o, fs, k + 1, max);
    }
  }

  lemma {:induction false} FixPropsStuck(base: Node, o: Node, fs: seq<Prop>, k: nat, max: nat)
    requires k <= |fs| && FixProps(base, o, fs[..k], max).Err?
    ensures FixProps(base, o, fs, max) == FixProps(base, o, fs[..k], max)
    decreases |fs|
  {
    hide FixProp;
    if k == |fs| {
      assert fs[..k] == fs;
    } else {
      var h := fs[..|fs| - 1];
      assert h[..k] == fs[..k];
      FixPropsStuck(base, o, h, k, max);
    }
  }

  /** The loop of `overlay_fixup_phandles` over the properties of the fixup node at `fp`. */
  method FixPropsBytes(m: array<Byte>, b: seq<Byte>, fix: int, max: nat, ghost o: Node, ghost base: Node,
                       ghost fp: Path, ghost f: Node)
    returns (err: int, ghost a: Node)
    requires NodeOff(m[..], o, [], 0) && NodeOff(b, base, [], 0) && SymbolsEnd(base)
    requires NodeOff(m[..], o, fp, fix) && f == At(o, fp) && PropsAside(o, f.props, fp, max)
    modifies m
    ensures Steady(old(m[..]), o, m[..], a)
    ensures match FixProps(base, o, f.props, max)
            case Ok(x) => err == 0 && a == x && Aligned(o, a, fp)
            case Err(c) => err == c && c != 0
  {
    hide NodeOff, PropOff, At, Put, Steady, SymbolsEnd, FixProp, FixProps, Fixups.Parse, Aligned, AllAside;
    ghost var bytes := m[..];
    a := o;
    StillHere(m[..], o, [], 0);
    NodeOffPath(m[..], o, fp, fix);
    FixPropsStart(base, o, f.props, fp, max);
    ghost var k := 0;
    var po := FirstPropOf(m[..], fix, o, fp);
    while po >= 0
      invariant k <= |f.props| && FixProps(base, o, f.props[..k], max) == Ok(a)
      invariant Steady(bytes, o, m[..], a) && Aligned(o, a, fp)
      invariant PropOrEnd(m[..], a, fp, k, po)
      decreases |f.props| - k
    {
      ghost var a1, bytes1 := a, m[..];
      AlignedAt(o, a1, fp);
      SteadyNode(bytes, o, bytes1, a1, [], 0);
      var symbol, value := ReadProp(m[..], po, a1, fp, k);
      FixPropsSnoc(base, o, f.props, k, max);
      AlignedAside(o, a1, Fixups.Parse(value, max).0, fp);
      err, a := FixPropBytes(m, b, symbol, value, max, a1, base, fp);
      SteadyTrans(bytes, o, bytes1, a1, m[..], a);
      if err != 0 { return; }
      AlignedTrans(o, a1, a, fp);
      AlignedAt(o, a, fp);
      SteadyProp(bytes1, a1, m[..], a, fp, k, po);
      po := NextPropOf(m[..], po, a, fp, k);
      k := k + 1;
    }
    AlignedAt(o, a, fp);
    assert f.props[..k] == f.props;
    err := 0;
  }

  lemma FixPropsStart(base: Node, o: Node, fs: seq<Prop>, fp: Path, max: nat)
    requires ValidPath(o, fp)
    ensures FixProps(base, o, fs[..0], max) == Ok(o) && Aligned(o, o, fp)
  {
    assert fs[..0] == [];
    SameShapeSelf(o);
  }

  lemma AlignedAt(o: Node, a: Node, fp: Path)
    requires Aligned(o, a, fp)
    ensures At(a, fp) == At(o, fp) && ValidPath(a, fp) && SameShape(o, a)
  {
  }

  lemma AlignedAside(o: Node, a: Node, rs: seq<Fixups.Record>, fp: Path)
    requires Aligned(o, a, fp) && AllAside(o, rs, fp)
    ensures AllAside(a, rs, fp)
  {
    hide At, SameShape, AllAside;
    AsideShape(o, a, rs, fp);
  }

  lemma AlignedTrans(o: Node, a: Node, c: Node, fp: Path)
    requires Aligned(o, a, fp) && Aligned(a, c, fp)
    ensures Aligned(o, c, fp)
  {
    hide At, SameShape;
    SameShapeTrans(o, a, c);
  }
}
