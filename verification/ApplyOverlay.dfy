/** The passes of `fdt_overlay_apply` one after the other, on the two blobs. */
module ApplyOverlay {
  import opened Bytes
  import opened DeviceTree
  import opened Lexer
  import opened Blob
  import opened Walk
  import opened Edit
  import opened Rewrite
  import opened ReadWrite
  import opened TreeWalk
  import opened Phandles
  import opened PhandleBytes
  import opened InPlace
  import opened RefBytes
  import opened Merge
  import opened Overlay
  import opened AllNodes
  import opened AdjustExact
  import opened FixupsExact
  import opened Paths
  import opened Symbols
  import Fixups
  import opened Fragments
  import opened Ancestors
  import opened NodePaths
  import opened SymbolUpdate

  /** "/__local_fixups__" */
  const LOCAL: seq<Byte> := [47, 95, 95, 108, 111, 99, 97, 108, 95, 102, 105, 120, 117, 112, 115, 95, 95]
  /** "/__fixups__" */
  const FIXUPS: seq<Byte> := [47, 95, 95, 102, 105, 120, 117, 112, 115, 95, 95]

  // ------------------------------------------------------------------- on the trees

  /** `overlay_update_local_references` */
  function References(o: Node, delta: nat): Outcome<Node> {
    match Resolve(o, LOCAL)
    case None => Ok(o)
    case Some(q) => RefNode(o, At(o, q), delta)
  }

  /** Phandles of the overlay raised above those of the base, and the references between its nodes with them. */
  function Renumbered(base: Node, o: Node): Outcome<Node> {
    match Adjust(o, MaxPhandle(base))
    case Err(c) => Err(c)
    case Ok(a) => References(a, MaxPhandle(base))
  }

  /** `overlay_fixup_phandles` */
  function External(base: Node, o: Node, max: nat): Outcome<Node> {
    match Resolve(o, FIXUPS)
    case None => Ok(o)
    case Some(q) => FixProps(base, o, At(o, q).props, max)
  }

  /** The overlay as it is merged. */
  function Prepared(base: Node, o: Node, max: nat): Outcome<Node> {
    match Renumbered(base, o)
    case Err(c) => Err(c)
    case Ok(a) => External(base, a, max)
  }

  // -------------------------------------------------------------------- shape

  /** The local fixups do not list themselves. */
  ghost predicate LocalClear(o: Node) {
    match Resolve(o, LOCAL)
    case None => true
    case Some(q) => Clear(o, At(o, q), [], q)
  }

  lemma {:induction false} ShapeAt(a: Node, c: Node, q: Path)
    requires SameShape(a, c) && ValidPath(a, q)
    ensures ValidPath(c, q) && SameShape(At(a, q), At(c, q))
    decreases q
  {
    if q != [] {
      ShapeAt(a.kids[q[0]], c.kids[q[0]], q[1..]);
    }
  }

  lemma LocalClearShape(a: Node, c: Node)
    requires SameShape(a, c) && LocalClear(a)
    ensures LocalClear(c)
  {
    hide Resolve, SameShape, At, MatchKid, ValidPath;
    ResolveShape(a, c, LOCAL);
    ResolveValid(a, LOCAL);
    if Resolve(a, LOCAL).Some? {
      var q := Resolve(a, LOCAL).value;
      ShapeAt(a, c, q);
      ShapeKids(a, c);
      var f, g := At(a, q), At(c, q);
      ShapeKids(f, g);
      forall x | x in g.kids ensures MatchKid(c.kids, x.name) != q[0] {
        var i :| 0 <= i < |g.kids| && g.kids[i] == x;
        assert f.kids[i] in f.kids && f.kids[i].name == x.name;
        MatchKidNames(a.kids, c.kids, x.name);
      }
    }
  }

  /** Raising phandles changes no node and no name. */
  lemma {:induction false} AdjustShape(n: Node, delta: nat)
    requires Adjust(n, delta).Ok? && delta < TWO32
    ensures SameShape(n, Adjust(n, delta).value)
    decreases n
  {
    hide Adjust, AdjustKids, Raised;
    AdjustNodeEffect(n, delta);
    var n' := Adjust(n, delta).value;
    SameArity(n, n', delta);
    forall i | 0 <= i < |n.kids| ensures SameShape(n.kids[i], n'.kids[i]) {
      AdjustKidsAt(n.kids, delta, i);
      AdjustShape(n.kids[i], delta);
    }
  }

  // ------------------------------------------------------------------ on the blobs

  /** `overlay_update_local_references` */
  method LocalReferences(m: array<Byte>, delta: U32, ghost o: Node) returns (err: int, ghost a: Node)
    requires NodeOff(m[..], o, [], 0) && LocalClear(o)
    modifies m
    ensures NodeOff(m[..], a, [], 0) && Steady(old(m[..]), o, m[..], a)
    ensures match References(o, delta)
            case Ok(x) => err == 0 && a == x
            case Err(c) => err == c && c != 0
  {
    hide NodeOff, At, Steady, RefNode, MatchKid, Resolve, Clear;
    ghost var b := m[..];
    a := o;
    StillHere(b, o, [], 0);
    RootSize(o);
    var fix := PathOffset(m[..], LOCAL, o);
    ghost var q := PathFor(o, LOCAL);
    if fix < 0 {
      return 0, a;
    }
    NodeOffPath(m[..], o, q, fix);
    err, a := RefNodeBytes(m, 0, fix, delta, o, [], q, o, At(o, q));
    PutWhole(o, a);
    SteadyNode(b, o, m[..], a, [], 0);
  }

  // ---------------------------------------------------------- what renumbering means

  /** The positions that the local fixups list for property `x` of the node at `p`, when they are applied. */
  function Listed(base: Node, o: Node, p: Path, x: seq<Byte>): seq<nat> {
    match Adjust(o, MaxPhandle(base))
    case Err(_) => []
    case Ok(a) => (match Resolve(a, LOCAL) case None => [] case Some(q) => PosAt(a, At(a, q), p, x))
  }

  function ListedAt(base: Node, o: Node, p: Path, x: seq<Byte>, k: nat): nat {
    if k < |Listed(base, o, p, x)| then Listed(base, o, p, x)[k] else 0
  }

  lemma RenumberedAdjusts(base: Node, o: Node)
    ensures Renumbered(base, o).Ok? ==> Adjust(o, MaxPhandle(base)).Ok?
  {
    hide Adjust, MaxPhandle, References;
  }

  /** No listed position lies in a phandle property of the node at `p`. */
  predicate PhandleFree(base: Node, o: Node, p: Path) {
    Listed(base, o, p, PHANDLE) == [] && Listed(base, o, p, LINUX_PHANDLE) == []
  }

  /** Every property of every node has exactly the listed words shifted. */
  lemma ListedShifted(base: Node, o: Node, p: Path, x: seq<Byte>)
    requires Renumbered(base, o).Ok? && MaxPhandle(base) < TWO32 && ValidPath(o, p)
    ensures var a, a' := Adjust(o, MaxPhandle(base)).value, Renumbered(base, o).value;
            ValidPath(a, p) && ValidPath(a', p) &&
            Lookup(At(a', p), x) == ShiftOpt(Lookup(At(a, p), x), Listed(base, o, p, x), MaxPhandle(base))
  {
    hide Adjust, RefNode, Lookup, PosAt, Resolve, At, MaxPhandle, ValidPath;
    var delta := MaxPhandle(base);
    var a := Adjust(o, delta).value;
    AdjustEverywhere(o, delta, p);
    if Resolve(a, LOCAL).Some? {
      RefEverywhere(a, At(a, Resolve(a, LOCAL).value), delta, p, x);
    } else {
      ShiftNothing(Lookup(At(a, p), x), delta);
    }
  }

  lemma PhandleStays(base: Node, o: Node, p: Path)
    requires Renumbered(base, o).Ok? && MaxPhandle(base) < TWO32 && ValidPath(o, p) && PhandleFree(base, o, p)
    ensures Adjust(o, MaxPhandle(base)).Ok?
    ensures var a, a' := Adjust(o, MaxPhandle(base)).value, Renumbered(base, o).value;
            ValidPath(a, p) && ValidPath(a', p) && Phandle(At(a', p)) == Phandle(At(a, p))
  {
    hide Adjust, Lookup, Listed, At, MaxPhandle, Renumbered, ValidPath;
    RenumberedAdjusts(base, o);
    var a := Adjust(o, MaxPhandle(base)).value;
    ListedShifted(base, o, p, PHANDLE);
    ListedShifted(base, o, p, LINUX_PHANDLE);
    ShiftNothing(Lookup(At(a, p), PHANDLE), MaxPhandle(base));
    ShiftNothing(Lookup(At(a, p), LINUX_PHANDLE), MaxPhandle(base));
  }

  /** Phandles of the renumbered overlay differ where they differed, and are greater than every phandle of the base. */
  ghost predicate Separated(base: Node, o: Node, a: Node) {
    forall p, q :: Numbered(base, o, p) && Numbered(base, o, q) ==> SeparatedAt(base, o, a, p, q)
  }

  predicate SeparatedAt(base: Node, o: Node, a: Node, p: Path, q: Path) {
    ValidPath(a, p) && ValidPath(a, q) && Phandle(At(a, p)).Some? && Phandle(At(a, q)).Some? &&
    (Phandle(At(o, p)) != Phandle(At(o, q)) <==> Phandle(At(a, p)) != Phandle(At(a, q))) &&
    Phandle(At(a, p)).value > MaxPhandle(base)
  }

  /** The node has a phandle of at least 1, in which no fixup is listed. */
  predicate Numbered(base: Node, o: Node, p: Path) {
    ValidPath(o, p) && Phandle(At(o, p)).Some? && Phandle(At(o, p)).value >= 1 && PhandleFree(base, o, p)
  }

  lemma SeparatedPair(base: Node, o: Node, p: Path, q: Path)
    requires Renumbered(base, o).Ok? && MaxPhandle(base) < TWO32 && Numbered(base, o, p) && Numbered(base, o, q)
    ensures SeparatedAt(base, o, Renumbered(base, o).value, p, q)
  {
    hide Adjust, At, MaxPhandle, Phandle, PhandleFree, ValidPath, Renumbered;
    RaisedBy(base, o, p);
    RaisedBy(base, o, q);
  }

  lemma RaisedBy(base: Node, o: Node, p: Path)
    requires Renumbered(base, o).Ok? && MaxPhandle(base) < TWO32 && Numbered(base, o, p)
    ensures var a := Renumbered(base, o).value;
            ValidPath(a, p) && Phandle(At(a, p)) == Some(Phandle(At(o, p)).value + MaxPhandle(base))
  {
    hide Adjust, At, MaxPhandle, Phandle, PhandleFree, ValidPath, Renumbered, Lookup;
    PhandleStays(base, o, p);
    AdjustEverywhere(o, MaxPhandle(base), p);
  }

  /** A listed word that was the phandle of a node is again its phandle. */
  ghost predicate Repointed(base: Node, o: Node, a: Node) {
    forall p, x, k: nat, r :: Pointing(base, o, p, x, k, r) ==> PointsAt(a, p, x, ListedAt(base, o, p, x, k), r)
  }

  /** Word `k` that is listed for property `x` of the node at `p` is the phandle of the node at `r`. */
  ghost predicate Pointing(base: Node, o: Node, p: Path, x: seq<Byte>, k: nat, r: Path) {
    ValidPath(o, p) && ValidPath(o, r) && x != PHANDLE && x != LINUX_PHANDLE && PhandleFree(base, o, r) &&
    k < |Listed(base, o, p, x)| && Apart(Listed(base, o, p, x)) && PointsAt(o, p, x, ListedAt(base, o, p, x, k), r)
  }

  /** The word at position `i` of property `x` of the node at `p` is the phandle of the node at `r`. */
  predicate PointsAt(o: Node, p: Path, x: seq<Byte>, i: nat, r: Path) {
    ValidPath(o, p) && ValidPath(o, r) && Lookup(At(o, p), x).Some? &&
    i + 4 <= |Lookup(At(o, p), x).value| && Phandle(At(o, r)) == Some(Ld32(Lookup(At(o, p), x).value, i))
  }

  lemma RepointedOne(base: Node, o: Node, p: Path, x: seq<Byte>, k: nat, r: Path)
    requires Renumbered(base, o).Ok? && MaxPhandle(base) < TWO32 && Pointing(base, o, p, x, k, r)
    ensures PointsAt(Renumbered(base, o).value, p, x, ListedAt(base, o, p, x, k), r)
  {
    hide Adjust, At, MaxPhandle, Phandle, PhandleFree, ValidPath, Lookup, Ld32, Renumbered, Listed, Shifted;
    var delta := MaxPhandle(base);
    PhandleStays(base, o, r);
    AdjustEverywhere(o, delta, r);
    AdjustEverywhere(o, delta, p);
    ListedShifted(base, o, p, x);
    ShiftedWord(Lookup(At(o, p), x).value, Listed(base, o, p, x), delta, k);
  }

  lemma RenumberedMeans(base: Node, o: Node)
    requires Renumbered(base, o).Ok? && MaxPhandle(base) < TWO32
    ensures Separated(base, o, Renumbered(base, o).value) && Repointed(base, o, Renumbered(base, o).value)
  {
    hide Renumbered, At, MaxPhandle, Phandle, Numbered, Pointing, PointsAt, Listed, ValidPath, SeparatedAt;
    forall p, q | Numbered(base, o, p) && Numbered(base, o, q)
        ensures SeparatedAt(base, o, Renumbered(base, o).value, p, q) {
      SeparatedPair(base, o, p, q);
    }
    forall p, x, k: nat, r | Pointing(base, o, p, x, k, r)
      ensures PointsAt(Renumbered(base, o).value, p, x, ListedAt(base, o, p, x, k), r)
    {
      RepointedOne(base, o, p, x, k, r);
    }
  }

  /** The first two passes: after them the overlay's blob holds the renumbered tree. */
  method RenumberOverlay(m: array<Byte>, b: seq<Byte>, ghost o: Node, ghost base: Node)
                         returns (err: int, ghost a: Node)
    requires NodeOff(m[..], o, [], 0) && Holds(b, base) && LocalClear(o)
    modifies m
    ensures NodeOff(m[..], a, [], 0) && Kept(old(m[..]), m[..])
    ensures match Renumbered(base, o)
            case Ok(x) => err == 0 && a == x && Separated(base, o, a) && Repointed(base, o, a)
            case Err(c) => err == c && c != 0
  {
    hide NodeOff, At, Put, Edited, Steady, Adjust, References, MaxPhandle, LocalClear, Holds, Kept, Separated,
         Repointed;
    ghost var was := m[..];
    var delta := FindMaxPhandle(b, base);
    RootSize(o);
    err, a := AdjustBytes(m, 0, delta, o, [], o);
    AdjustErr(o, delta);
    PutWhole(o, a);
    EditedNode(was, m[..], a, [], 0);
    EditedKept(was, m[..], a, [], 0);
    if err != 0 { return; }
    AdjustShape(o, delta);
    LocalClearShape(o, a);
    ghost var b1, a1 := m[..], a;
    err, a := LocalReferences(m, delta, a1);
    SteadyKept(b1, a1, m[..], a);
    KeptTrans(was, b1, m[..]);
    if err == 0 { RenumberedMeans(base, o); }
  }

  lemma SteadyKept(b: seq<Byte>, t: Node, b': seq<Byte>, t': Node)
    requires Steady(b, t, b', t')
    ensures Kept(b, b')
  {
    hide NodeOff, PropOff;
  }

  // --------------------------------------------------------------- the whole call

  /** The external fixups point at absolute paths outside themselves. */
  ghost predicate ExternalAside(o: Node, max: nat) {
    match Resolve(o, FIXUPS)
    case None => true
    case Some(q) => PropsAside(o, At(o, q).props, q, max)
  }

  /** `overlay_fixup_phandles` */
  method ExternalReferences(m: array<Byte>, b: seq<Byte>, max: nat, ghost o: Node, ghost base: Node)
                            returns (err: int, ghost a: Node)
    requires NodeOff(m[..], o, [], 0) && NodeOff(b, base, [], 0) && SymbolsEnd(base) && ExternalAside(o, max)
    modifies m
    ensures NodeOff(m[..], a, [], 0) && Steady(old(m[..]), o, m[..], a)
    ensures match External(base, o, max)
            case Ok(x) => err == 0 && a == x
            case Err(c) => err == c && c != 0
  {
    hide NodeOff, At, Steady, FixProps, Resolve, SymbolsEnd, PropsAside;
    ghost var bytes := m[..];
    a := o;
    StillHere(bytes, o, [], 0);
    var fix := PathOffset(m[..], FIXUPS, o);
    ghost var q := PathFor(o, FIXUPS);
    if fix < 0 {
      return 0, a;
    }
    err, a := FixPropsBytes(m, b, fix, max, o, base, q, At(o, q));
    SteadyNode(bytes, o, m[..], a, [], 0);
  }

  // ---------------------------------------------------------- when the passes succeed

  /** The local fixups, if there are any, can be applied. */
  predicate LocalsApply(a: Node) {
    match Resolve(a, LOCAL) case None => true case Some(q) => Applicable(a, At(a, q))
  }

  /** What the external fixups ask for. */
  function TasksAt(a: Node, max: nat): seq<Task> {
    match Resolve(a, FIXUPS) case None => [] case Some(q) => Tasks(At(a, q).props, max)
  }

  lemma ReferencesExact(a: Node, delta: nat)
    ensures References(a, delta).Ok? <==> LocalsApply(a)
    ensures References(a, delta).Err? ==> References(a, delta).code == -FDT_ERR_BADOVERLAY
  {
    hide Resolve, At, RefNode, Applicable;
    if Resolve(a, LOCAL).Some? { RefExact(a, At(a, Resolve(a, LOCAL).value), delta); }
  }

  /** With nothing wrong the pass stores the phandles that the symbols name, and else it says what is wrong first. */
  lemma ExternalExact(base: Node, a: Node, max: nat)
    ensures External(base, a, max).Ok? <==> NothingWrong(base, a, TasksAt(a, max))
    ensures External(base, a, max).Ok? ==> Stored(base, a, External(base, a, max).value, TasksAt(a, max))
    ensures External(base, a, max).Err? ==>
              exists k :: FirstWrong(base, a, TasksAt(a, max), k, External(base, a, max).code)
  {
    hide Resolve, At, FixProps, Stored, Tasks, TaskFault;
    match Resolve(a, FIXUPS)
    case None => StoredNone(base, a);
    case Some(q) => FixPropsExact(base, a, At(a, q).props, max);
  }

  /** Renumbering succeeds exactly so, and these are its errors. */
  lemma RenumberedExact(base: Node, o: Node)
    requires MaxPhandle(base) < TWO32
    ensures var delta, r := MaxPhandle(base), Renumbered(base, o);
            (r.Ok? <==> Faultless(o, delta) && Adjust(o, delta).Ok? && LocalsApply(Adjust(o, delta).value)) &&
            (!Faultless(o, delta) ==> r.Err? && exists q :: FirstFault(o, delta, q, r.code)) &&
            (Faultless(o, delta) && r.Err? ==> r.code == -FDT_ERR_BADOVERLAY)
  {
    hide Adjust, References, LocalsApply, Faultless, MaxPhandle;
    RenumberExact(o, MaxPhandle(base));
    if Adjust(o, MaxPhandle(base)).Ok? { ReferencesExact(Adjust(o, MaxPhandle(base)).value, MaxPhandle(base)); }
  }

  /**
   The passes before the merge succeed if and only if no phandle property is malformed or too large, the local fixups
   can be applied to the overlay so renumbered, and nothing is wrong with any external fixup. Then the words that the
   external fixups list are the phandles that their symbols name in the base, and nothing else has changed since.
   */
  lemma PreparedExact(base: Node, o: Node, max: nat)
    requires MaxPhandle(base) < TWO32
    ensures var delta, r, c := MaxPhandle(base), Renumbered(base, o), Prepared(base, o, max);
            (c.Ok? <==> Faultless(o, delta) && Adjust(o, delta).Ok? && LocalsApply(Adjust(o, delta).value) &&
                        r.Ok? && NothingWrong(base, r.value, TasksAt(r.value, max))) &&
            (c.Ok? ==> Stored(base, r.value, c.value, TasksAt(r.value, max))) &&
            (r.Err? ==> c == r) &&
            (r.Ok? && c.Err? ==> exists k :: FirstWrong(base, r.value, TasksAt(r.value, max), k, c.code))
  {
    hide Adjust, References, LocalsApply, Faultless, MaxPhandle, External, Renumbered, Stored, NothingWrong,
         TasksAt;
    RenumberedExact(base, o);
    if Renumbered(base, o).Ok? { ExternalExact(base, Renumbered(base, o).value, max); }
  }

  // ------------------------------------------------------ what the passes leave of a tree

  /** The same nodes and names, and phandle properties that were words are. */
  ghost predicate Reworked(o: Node, a: Node) {
    SameShape(o, a) && forall q :: ValidPath(o, q) && SizedNode(At(o, q)) ==> SizedNode(At(a, q))
  }

  lemma ReworkedSelf(o: Node)
    ensures Reworked(o, o)
  {
    SameShapeSelf(o);
  }

  lemma ReworkedTrans(o: Node, a: Node, c: Node)
    requires Reworked(o, a) && Reworked(a, c)
    ensures Reworked(o, c)
  {
    hide SameShape, At, SizedNode, ValidPath;
    SameShapeTrans(o, a, c);
    forall q | ValidPath(o, q) && SizedNode(At(o, q)) ensures SizedNode(At(c, q)) {
      ShapePath(o, a, q);
    }
  }

  /** A property was set to a value of the same length. */
  lemma SetReworked(o: Node, q: Path, name: seq<Byte>, v: seq<Byte>)
    requires ValidPath(o, q) && Lookup(At(o, q), name).Some? && |Lookup(At(o, q), name).value| == |v|
    ensures Reworked(o, Put(o, q, SetProp(At(o, q), name, v)))
  {
    hide SameShape, At, Lookup, SetProp, Put, ValidPath;
    var n := At(o, q);
    var n' := SetProp(n, name, v);
    SetPropKids(n, name, v);
    SameKids(n, n');
    PutShape(o, q, n');
    forall p | ValidPath(o, p) && SizedNode(At(o, p)) ensures SizedNode(At(Put(o, q, n'), p)) {
      PropsElsewhere(o, q, n', p);
      var c := if p == q then n' else At(o, p);
      LookupProps(At(Put(o, q, n'), p), c, PHANDLE);
      LookupProps(At(Put(o, q, n'), p), c, LINUX_PHANDLE);
      SetPropLookup(n, name, v, PHANDLE);
      SetPropLookup(n, name, v, LINUX_PHANDLE);
    }
  }

  lemma FixOneReworked(base: Node, o: Node, symbol: seq<Byte>, r: Fixups.Record)
    requires FixOne(base, o, symbol, r).Ok?
    ensures Reworked(o, FixOne(base, o, symbol, r).value)
  {
    hide Resolve, At, Put, SetProp, Patch, Lookup, SymbolPhandle, ValidPath, Reworked;
    ReworkedSelf(o);
    var x, q := FixOne(base, o, symbol, r).value, Resolve(o, r.path).value;
    ResolveValid(o, r.path);
    if x != o {
      var v := Lookup(At(o, q), r.name).value;
      SetReworked(o, q, r.name, Patch(v, Wrap32(r.offset), Be32(Wrap32(SymbolPhandle(base, symbol).value))));
    }
  }

  lemma {:induction false} FixAllReworked(base: Node, o: Node, symbol: seq<Byte>, rs: seq<Fixups.Record>)
    requires FixAll(base, o, symbol, rs).Ok?
    ensures Reworked(o, FixAll(base, o, symbol, rs).value)
  {
    hide Reworked, FixOne;
    if rs == [] {
      ReworkedSelf(o);
    } else {
      var h := rs[..|rs| - 1];
      FixAllReworked(base, o, symbol, h);
      FixOneReworked(base, FixAll(base, o, symbol, h).value, symbol, rs[|rs| - 1]);
      ReworkedTrans(o, FixAll(base, o, symbol, h).value, FixAll(base, o, symbol, rs).value);
    }
  }

  lemma {:induction false} FixPropsReworked(base: Node, o: Node, fs: seq<Prop>, max: nat)
    requires FixProps(base, o, fs, max).Ok?
    ensures Reworked(o, FixProps(base, o, fs, max).value)
    decreases |fs|
  {
    hide Reworked, FixAll, Fixups.Parse;
    if fs == [] {
      ReworkedSelf(o);
    } else {
      var h, f := fs[..|fs| - 1], fs[|fs| - 1];
      FixPropsReworked(base, o, h, max);
      var a := FixProps(base, o, h, max).value;
      FixAllReworked(base, a, f.name, Fixups.Parse(f.value, max).0);
      ReworkedTrans(o, a, FixProps(base, o, fs, max).value);
    }
  }

  lemma RefReworked(o: Node, f: Node, delta: nat)
    requires RefNode(o, f, delta).Ok?
    ensures Reworked(o, RefNode(o, f, delta).value)
  {
    hide SameShape, At, RefNode, Lookup, PosAt, ValidPath, Shifted;
    var a := RefNode(o, f, delta).value;
    RefShape(o, f, delta);
    forall q | ValidPath(o, q) && SizedNode(At(o, q)) ensures SizedNode(At(a, q)) {
      RefEverywhere(o, f, delta, q, PHANDLE);
      RefEverywhere(o, f, delta, q, LINUX_PHANDLE);
    }
  }

  /** After the first pass the phandle properties of every node are words. */
  lemma {:induction false} AdjustSized(n: Node, delta: nat, q: Path)
    requires Adjust(n, delta).Ok? && delta < TWO32 && ValidPath(n, q)
    ensures SizedNode(At(Adjust(n, delta).value, q))
    decreases q
  {
    hide AdjustKids, Bump, SizedNode, Raised;
    var n' := Adjust(n, delta).value;
    if q == [] {
      AdjustSizedHere(n, delta);
    } else {
      AdjustNodeEffect(n, delta);
      SameArity(n, n', delta);
      AdjustKidsAt(n.kids, delta, q[0]);
      AdjustSized(n.kids[q[0]], delta, q[1..]);
    }
  }

  lemma AdjustSizedHere(n: Node, delta: nat)
    requires Adjust(n, delta).Ok? && delta < TWO32
    ensures SizedNode(Adjust(n, delta).value)
  {
    hide AdjustKids, Bump, Lookup, Ld32;
    var a := Bump(n, PHANDLE, delta).value;
    var d := Bump(a, LINUX_PHANDLE, delta).value;
    assert PHANDLE != LINUX_PHANDLE by { assert |PHANDLE| != |LINUX_PHANDLE|; }
    BumpEffect(n, PHANDLE, delta, PHANDLE);
    BumpEffect(a, LINUX_PHANDLE, delta, PHANDLE);
    BumpEffect(a, LINUX_PHANDLE, delta, LINUX_PHANDLE);
    LookupProps(Adjust(n, delta).value, d, PHANDLE);
    LookupProps(Adjust(n, delta).value, d, LINUX_PHANDLE);
  }

  /** The overlay as it is merged has the nodes it had, and its phandle properties are words. */
  lemma PreparedIs(base: Node, o: Node, max: nat)
    requires Prepared(base, o, max).Ok? && MaxPhandle(base) < TWO32
    ensures SameShape(o, Prepared(base, o, max).value)
    ensures forall f :: f in Prepared(base, o, max).value.kids ==> SizedNode(f)
  {
    hide SameShape, At, Adjust, RefNode, FixProps, Resolve, SizedNode, ValidPath, MaxPhandle, Reworked;
    var delta := MaxPhandle(base);
    var a, b, c := Adjust(o, delta).value, Renumbered(base, o).value, Prepared(base, o, max).value;
    AdjustShape(o, delta);
    ReworkedSelf(a);
    ReworkedSelf(b);
    if Resolve(a, LOCAL).Some? { RefReworked(a, At(a, Resolve(a, LOCAL).value), delta); }
    if Resolve(b, FIXUPS).Some? { FixPropsReworked(base, b, At(b, Resolve(b, FIXUPS).value).props, max); }
    ReworkedTrans(a, b, c);
    ReworkedShape(a, c);
    SameShapeTrans(o, a, c);
    forall f | f in c.kids ensures SizedNode(f) {
      var i :| 0 <= i < |c.kids| && c.kids[i] == f;
      ShapeKids(o, c);
      KidPath(o, i);
      KidPath(c, i);
      AdjustSized(o, delta, [i]);
      ShapePath(o, a, [i]);
      ReworkedAt(a, c, [i]);
    }
  }

  lemma ReworkedShape(a: Node, c: Node)
    requires Reworked(a, c)
    ensures SameShape(a, c)
  {
  }

  lemma ReworkedAt(a: Node, c: Node, q: Path)
    requires Reworked(a, c) && ValidPath(a, q) && SizedNode(At(a, q))
    ensures SizedNode(At(c, q))
  {
    hide At, ValidPath, SizedNode, SameShape;
  }

  // ------------------------------------------------------------------- names without slashes

  lemma {:induction false} MergeSlashless(n: Node, o: Node)
    requires Slashless(n) && Slashless(o)
    ensures Slashless(MergeNode(n, o))
    decreases o, 2
  {
    hide Slashless, MergeProps, MergeKids;
    MergePropsLookup(n, o.props, []);
    SlashlessKids(n, MergeProps(n, o.props));
    KidsSlashless(o);
    MergeKidsSlashless(MergeProps(n, o.props), o.kids);
  }

  lemma SlashlessKids(a: Node, c: Node)
    requires Slashless(a) && a.name == c.name && a.kids == c.kids
    ensures Slashless(c)
  {
  }

  lemma KidsSlashless(n: Node)
    requires Slashless(n)
    ensures forall k :: k in n.kids ==> Slashless(k)
  {
  }

  lemma {:induction false} MergeKidsSlashless(n: Node, ks: seq<Node>)
    requires Slashless(n) && forall k :: k in ks ==> Slashless(k)
    ensures Slashless(MergeKids(n, ks))
    decreases ks, 0
  {
    hide Slashless, MatchKid, MergeNode;
    if ks != [] {
      var h, k := ks[..|ks| - 1], ks[|ks| - 1];
      MergeKidsSlashless(n, h);
      var a := MergeKids(n, h);
      var i := MatchKid(a.kids, k.name);
      if i < |a.kids| {
        SlashlessKid(a, i);
        MergeSlashless(a.kids[i], k);
        ReplaceSlashless(a, i, MergeNode(a.kids[i], k));
      } else {
        EmptySlashless(k);
        MergeSlashless(Node(k.name, [], []), k);
        FrontSlashless(a, MergeNode(Node(k.name, [], []), k));
      }
    }
  }

  lemma ReplaceSlashless(n: Node, i: nat, k: Node)
    requires Slashless(n) && Slashless(k) && i < |n.kids|
    ensures Slashless(n.(kids := n.kids[i := k]))
  {
    forall c | c in n.kids[i := k] ensures Slashless(c) { }
  }

  lemma FrontSlashless(n: Node, k: Node)
    requires Slashless(n) && Slashless(k)
    ensures Slashless(n.(kids := [k] + n.kids))
  {
    forall c | c in [k] + n.kids ensures Slashless(c) { }
  }

  lemma EmptySlashless(k: Node)
    requires Slashless(k)
    ensures Slashless(Node(k.name, [], []))
  {
  }

  lemma {:induction false} PutSlashless(t: Node, path: Path, n: Node)
    requires Slashless(t) && Slashless(n) && ValidPath(t, path)
    ensures Slashless(Put(t, path, n))
    decreases path
  {
    hide Slashless;
    if path != [] {
      SlashlessKid(t, path[0]);
      PutSlashless(t.kids[path[0]], path[1..], n);
      ReplaceSlashless(t, path[0], Put(t.kids[path[0]], path[1..], n));
    }
  }

  lemma {:induction false} SlashlessBelow(t: Node, path: Path)
    requires Slashless(t) && ValidPath(t, path)
    ensures Slashless(At(t, path))
    decreases path
  {
    if path != [] {
      SlashlessBelow(t.kids[path[0]], path[1..]);
    }
  }

  /** The base with the fragments merged in has no slash in a name if neither had one. */
  lemma {:induction false} MergesSlashless(t: Node, fs: seq<Node>, t': Node)
    requires Merges(t, fs, t') && Slashless(t) && forall f :: f in fs ==> Slashless(f)
    ensures Slashless(t')
    decreases fs
  {
    hide Slashless, TargetOf, MergeNode, MatchKid;
    if fs != [] {
      var h, f := fs[..|fs| - 1], fs[|fs| - 1];
      var mid :| MergesOne(mid, f, t') && Merges(t, h, mid);
      MergesSlashless(t, h, mid);
      var i := MatchKid(f.kids, OVERLAY);
      if i < |f.kids| {
        var path :| ValidPath(mid, path) && TargetOf(mid, f, path) &&
                    t' == Put(mid, path, MergeNode(At(mid, path), f.kids[i]));
        SlashlessKid(f, i);
        SlashlessBelow(mid, path);
        MergeSlashless(At(mid, path), f.kids[i]);
        PutSlashless(mid, path, MergeNode(At(mid, path), f.kids[i]));
      }
    }
  }

  // ------------------------------------------------------------------------ all passes

  /** What the call expects of the overlay; `max` is `ULONG_MAX`. */
  ghost predicate Wellformed(base: Node, o: Node, max: nat) {
    LocalClear(o) && SymbolsEnd(base) && Slashless(base) && Slashless(o) &&
    (Renumbered(base, o).Ok? ==> ExternalAside(Renumbered(base, o).value, max)) &&
    (Prepared(base, o, max).Ok? ==> forall f :: f in Prepared(base, o, max).value.kids ==> PathEnds(f))
  }

  /** The base with all fragments of the overlay merged and then all its symbols put in. */
  ghost predicate Applied(t: Node, o: Node, t': Node) {
    exists mid :: Merges(t, o.kids, mid) && Updated(mid, o, t')
  }

  /** There is an outcome, and the blob has room for what it can take at most. */
  ghost predicate Fitting(b: seq<Byte>, t: Node, o: Node) {
    exists mid, ws :: Merges(t, o.kids, mid) && SymbolValues(mid, o, ws) &&
      DataSize(b) + FragmentsNeed(o.kids) + SYMBOLS_NEED + PropsNeed(ws) <= Total(b)
  }

  lemma ValuesUpdate(t: Node, o: Node, ws: seq<Prop>)
    requires SymbolValues(t, o, ws)
    ensures exists x :: Updated(t, o, x)
  {
    hide NewSymbols, KidSlot, MatchKid, With;
    var j := MatchKid(o.kids, SYMBOLS[1..]);
    var (a, s) := KidSlot(t, SYMBOLS[1..]);
    if j == |o.kids| {
      assert Updated(t, o, t);
    } else {
      assert Updated(t, o, With(a, s, ws));
    }
  }

  /** With an outcome that fits, the merge has room, and so have the symbols after it. */
  lemma FittingMerge(b: seq<Byte>, t: Node, o: Node) returns (mid: Node, ws: seq<Prop>)
    requires Fitting(b, t, o)
    ensures Merges(t, o.kids, mid) && SymbolValues(mid, o, ws) && exists x :: Updated(mid, o, x)
    ensures DataSize(b) + FragmentsNeed(o.kids) + SYMBOLS_NEED + PropsNeed(ws) <= Total(b)
  {
    hide Merges, SymbolValues, DataSize, Total, FragmentsNeed, PropsNeed, Updated;
    mid, ws :| Merges(t, o.kids, mid) && SymbolValues(mid, o, ws) &&
      DataSize(b) + FragmentsNeed(o.kids) + SYMBOLS_NEED + PropsNeed(ws) <= Total(b);
    ValuesUpdate(mid, o, ws);
  }

  lemma NotApplied(t: Node, o: Node, mid: Node)
    requires Merges(t, o.kids, mid) && forall x :: !Updated(mid, o, x)
    ensures forall x :: !Applied(t, o, x)
  {
    hide Merges, Updated;
    forall x, y | Merges(t, o.kids, y) && Updated(y, o, x) ensures false {
      MergesUnique(t, o.kids, mid, y);
    }
  }

  /** The merge and the symbols: an outcome if there is one and room for it. */
  method MergeAndUpdate(m: array<Byte>, ob: seq<Byte>, ghost t: Node, ghost o: Node) returns (err: int, ghost t': Node)
    requires NodeOff(m[..], t, [], 0) && NodeOff(ob, o, [], 0) && Slashless(t) && Slashless(o)
    requires forall f :: f in o.kids ==> PathEnds(f) && SizedNode(f)
    modifies m
    ensures NodeOff(m[..], t', [], 0) && Kept(old(m[..]), m[..])
    ensures err == 0 ==> Applied(t, o, t')
    ensures err != 0 && err != -FDT_ERR_NOSPACE ==> forall x :: !Applied(t, o, x)
    ensures Fitting(old(m[..]), t, o) ==> err == 0
  {
    hide NodeOff, Kept, PathEnds, Merges, Updated, Slashless, SizedNode, SymbolValues, DataSize, Total,
         FragmentsNeed, PropsNeed, Fitting;
    ghost var b, mid, ws := m[..], t, [];
    ghost var fits := Fitting(b, t, o);
    if fits { mid, ws := FittingMerge(b, t, o); }
    err, t' := MergeOverlay(m, ob, t, o);
    if err != 0 { return; }
    if fits { MergesUnique(t, o.kids, mid, t'); }
    KidsSlashless(o);
    MergesSlashless(t, o.kids, t');
    ghost var b1, t1 := m[..], t';
    KeptTotal(b, b1);
    err, t' := UpdateSymbols(m, ob, t1, o);
    KeptTrans(b, b1, m[..]);
    if err != 0 && err != -FDT_ERR_NOSPACE { NotApplied(t, o, t1); }
  }

  /** The passes in order; the base is untouched when one before the merge fails. */
  method ApplyPasses(m: array<Byte>, om: array<Byte>, max: nat, ghost t: Node, ghost o: Node)
                     returns (err: int, ghost t': Node)
    requires m != om && NodeOff(m[..], t, [], 0) && NodeOff(om[..], o, [], 0) && Wellformed(t, o, max)
    modifies m, om
    ensures NodeOff(m[..], t', [], 0) && Kept(old(m[..]), m[..]) && om[..] != [] && |om[..]| >= 40
    ensures match Prepared(t, o, max)
            case Err(c) => err == c && c != 0 && m[..] == old(m[..])
            case Ok(a) => err == 0 ==> Applied(t, a, t')
    ensures Prepared(t, o, max).Ok? && Fitting(old(m[..]), t, Prepared(t, o, max).value) ==> err == 0
    ensures Prepared(t, o, max).Ok? && err != 0 && err != -FDT_ERR_NOSPACE ==>
              forall x :: !Applied(t, Prepared(t, o, max).value, x)
  {
    hide NodeOff, Steady, Kept, Renumbered, External, ExternalAside, MatchKid, LocalClear, SymbolsEnd, Separated,
         Repointed, PathEnds, Applied, Fitting, Holds, Slashless, SizedNode, SameShape, MaxPhandle;
    t' := t;
    SelfKept(m[..], t);
    NodeOffPath(m[..], t, [], 0);
    ghost var b := m[..];
    ghost var a;
    err, a := RenumberOverlay(om, m[..], o, t);
    OverlaySize(om[..], a);
    if err != 0 { return; }
    err, a := ExternalReferences(om, m[..], max, a, t);
    OverlaySize(om[..], a);
    if err != 0 { return; }
    PhandleBound(b, t);
    PreparedIs(t, o, max);
    SlashlessShape(o, a);
    err, t' := MergeAndUpdate(m, om[..], t, a);
  }

  lemma PhandleBound(b: seq<Byte>, t: Node)
    requires NodeOff(b, t, [], 0)
    ensures MaxPhandle(t) < TWO32
  {
    hide NodeOff, Ld32;
    var p := MaxPhandleAttained(t);
  }

  lemma OverlaySize(b: seq<Byte>, a: Node)
    requires NodeOff(b, a, [], 0)
    ensures |b| >= 40
  {
    hide NodeOff, Struct, NextTag;
    NodeOffIs(b, a, [], 0);
  }

  /**
   `fdt_overlay_apply`. On success every fragment and every symbol of the overlay is in the base and the overlay is
   no longer a blob; on failure neither is, so that no later call accepts what is left.
   */
  method Apply(m: array<Byte>, om: array<Byte>, max: nat, ghost t: Node, ghost o: Node)
               returns (err: int, ghost t': Node)
    requires m != om && NodeOff(m[..], t, [], 0) && NodeOff(om[..], o, [], 0) && Wellformed(t, o, max)
    modifies m, om
    ensures Prepared(t, o, max).Err? ==> err == Prepared(t, o, max).code
    ensures err == 0 ==> Prepared(t, o, max).Ok? && Applied(t, Prepared(t, o, max).value, t')
    ensures Prepared(t, o, max).Ok? && Fitting(old(m[..]), t, Prepared(t, o, max).value) ==> err == 0
    ensures Prepared(t, o, max).Ok? && err != 0 && err != -FDT_ERR_NOSPACE ==>
              forall x :: !Applied(t, Prepared(t, o, max).value, x)
    ensures err == 0 ==> Holds(m[..], t') && Kept(old(m[..]), m[..])
    ensures err != 0 ==> RoProbe(m[..]) == -FDT_ERR_BADMAGIC
    ensures RoProbe(om[..]) == -FDT_ERR_BADMAGIC
  {
    hide NodeOff, Kept, Prepared, Wellformed, Applied, Fitting, Holds, Hdr, SetHdr;
    err, t' := ApplyPasses(m, om, max, t, o);
    OverlaySize(m[..], t');
    NodeOffPath(m[..], t', [], 0);
    ghost var b, ob := m[..], om[..];
    StoreWord(om, H_MAGIC, 0xffff_ffff);
    SetHdrEffect(ob, H_MAGIC, 0xffff_ffff);
    if err == 0 { return; }
    StoreWord(m, H_MAGIC, 0xffff_ffff);
    SetHdrEffect(b, H_MAGIC, 0xffff_ffff);
  }
}
