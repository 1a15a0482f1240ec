/** What the pass over `__fixups__` stores where, and exactly when it succeeds. */
module FixupsExact {
  import opened Bytes
  import opened DeviceTree
  import opened Lexer
  import opened Blob
  import opened Edit
  import opened Phandles
  import opened RefBytes
  import opened Paths
  import opened Symbols
  import opened AdjustExact
  import Fixups

  // ------------------------------------------------------------------ the list of tasks

  /** A record with the symbol it is for, or the place where a value turns out to be no list of records. */
  datatype Task = Store(symbol: seq<Byte>, rec: Fixups.Record) | BadList

  /** What one property of the fixup node asks for. */
  function TasksOf(f: Prop, max: nat): seq<Task> {
    var p := Fixups.Parse(f.value, max);
    Stores(f.name, p.0) + if p.1 then [] else [BadList]
  }

  function Stores(symbol: seq<Byte>, rs: seq<Fixups.Record>): seq<Task> {
    if rs == [] then [] else Stores(symbol, rs[..|rs| - 1]) + [Store(symbol, rs[|rs| - 1])]
  }

  /** What all its properties ask for, in order. */
  function Tasks(fs: seq<Prop>, max: nat): seq<Task> {
    if fs == [] then [] else Tasks(fs[..|fs| - 1], max) + TasksOf(fs[|fs| - 1], max)
  }

  lemma {:induction false} StoresAre(symbol: seq<Byte>, rs: seq<Fixups.Record>, t: Task)
    ensures t in Stores(symbol, rs) <==> t.Store? && t.symbol == symbol && t.rec in rs
    decreases |rs|
  {
    if rs != [] {
      StoresAre(symbol, rs[..|rs| - 1], t);
      assert rs == rs[..|rs| - 1] + [rs[|rs| - 1]];
    }
  }

  /** The property holds this record, or is no list of records. */
  predicate AsksFor(f: Prop, max: nat, t: Task) {
    match t
    case Store(symbol, r) => symbol == f.name && r in Fixups.Parse(f.value, max).0
    case BadList => !Fixups.Parse(f.value, max).1
  }

  /** The tasks are the records of all values, and a value that is no list of records. */
  lemma {:induction false} TasksAre(fs: seq<Prop>, max: nat, t: Task)
    ensures t in Tasks(fs, max) <==> exists f :: f in fs && AsksFor(f, max, t)
    decreases |fs|
  {
    hide TasksOf, AsksFor;
    if fs != [] {
      var h, f := fs[..|fs| - 1], fs[|fs| - 1];
      TasksAre(h, max, t);
      TasksOfAre(f, max, t);
      assert fs == h + [f];
    }
  }

  lemma TasksOfAre(f: Prop, max: nat, t: Task)
    ensures t in TasksOf(f, max) <==> AsksFor(f, max, t)
  {
    hide Fixups.Parse, Stores;
    var p := Fixups.Parse(f.value, max);
    StoresAre(f.name, p.0, t);
    var last: seq<Task> := if p.1 then [] else [BadList];
    assert t in Stores(f.name, p.0) + last <==> t in Stores(f.name, p.0) || t in last;
  }

  function Do(base: Node, o: Node, t: Task): Outcome<Node> {
    match t case Store(symbol, r) => FixOne(base, o, symbol, r) case BadList => Err(-FDT_ERR_BADOVERLAY)
  }

  function DoAll(base: Node, o: Node, ts: seq<Task>): Outcome<Node> {
    if ts == [] then Ok(o)
    else
      match DoAll(base, o, ts[..|ts| - 1])
      case Err(c) => Err(c)
      case Ok(a) => Do(base, a, ts[|ts| - 1])
  }

  lemma {:induction false} DoConcat(base: Node, o: Node, a: seq<Task>, b: seq<Task>)
    ensures DoAll(base, o, a + b) ==
            match DoAll(base, o, a) case Err(c) => Err(c) case Ok(x) => DoAll(base, x, b)
    decreases |b|
  {
    hide Do;
    if b == [] {
      assert a + b == a;
    } else {
      assert (a + b)[..|a + b| - 1] == a + b[..|b| - 1];
      DoConcat(base, o, a, b[..|b| - 1]);
    }
  }

  lemma {:induction false} StoresDo(base: Node, o: Node, symbol: seq<Byte>, rs: seq<Fixups.Record>)
    ensures DoAll(base, o, Stores(symbol, rs)) == FixAll(base, o, symbol, rs)
    decreases |rs|
  {
    hide FixOne;
    if rs != [] {
      var h, t := rs[..|rs| - 1], Store(symbol, rs[|rs| - 1]);
      StoresDo(base, o, symbol, h);
      DoConcat(base, o, Stores(symbol, h), [t]);
      if DoAll(base, o, Stores(symbol, h)).Ok? { DoOne(base, DoAll(base, o, Stores(symbol, h)).value, t); }
    }
  }

  lemma PropDoes(base: Node, o: Node, f: Prop, max: nat)
    ensures FixProp(base, o, f, max) == DoAll(base, o, TasksOf(f, max))
  {
    hide FixOne, FixAll, Fixups.Parse;
    var p := Fixups.Parse(f.value, max);
    var ts := Stores(f.name, p.0);
    StoresDo(base, o, f.name, p.0);
    DoConcat(base, o, ts, if p.1 then [] else [BadList]);
    if !p.1 && DoAll(base, o, ts).Ok? {
      DoOne(base, DoAll(base, o, ts).value, BadList);
    }
  }

  lemma DoOne(base: Node, o: Node, t: Task)
    ensures DoAll(base, o, [t]) == Do(base, o, t)
  {
    assert [t][..0] == [];
  }

  /** The pass is the tasks one after the other. */
  lemma {:induction false} PropsDo(base: Node, o: Node, fs: seq<Prop>, max: nat)
    ensures FixProps(base, o, fs, max) == DoAll(base, o, Tasks(fs, max))
    decreases |fs|
  {
    hide FixProp, TasksOf;
    if fs != [] {
      var h, f := fs[..|fs| - 1], fs[|fs| - 1];
      PropsDo(base, o, h, max);
      DoConcat(base, o, Tasks(h, max), TasksOf(f, max));
      if FixProps(base, o, h, max).Ok? {
        PropDoes(base, FixProps(base, o, h, max).value, f, max);
      }
    }
  }

  // --------------------------------------------------------------- when a task succeeds

  /** The symbol's path leads to a node of the base whose phandle is `ph`. */
  predicate SymbolIs(base: Node, symbol: seq<Byte>, ph: nat) {
    ph != 0 && Resolve(base, SYMBOLS).Some? &&
    var v := Lookup(At(base, Resolve(base, SYMBOLS).value), symbol);
    v.Some? && Resolve(base, CString(v.value)).Some? &&
    PhandleOf(At(base, Resolve(base, CString(v.value)).value)) == ph
  }

  /** What is wrong with a task. */
  ghost function TaskFault(base: Node, o: Node, t: Task): Option<int> {
    match t
    case BadList => Some(-FDT_ERR_BADOVERLAY)
    case Store(symbol, r) =>
      if forall ph: nat :: !SymbolIs(base, symbol, ph) then Some(-FDT_ERR_NOTFOUND)
      else
        match Resolve(o, r.path)
        case None => Some(-FDT_ERR_BADOVERLAY)
        case Some(q) =>
          match SizeOf(At(o, q), r.name)
          case None => Some(-FDT_ERR_NOTFOUND)
          case Some(n) => if n < Wrap32(Wrap32(r.offset) + 4) then Some(-FDT_ERR_NOSPACE) else None
  }

  lemma SymbolExact(base: Node, symbol: seq<Byte>)
    ensures match SymbolPhandle(base, symbol)
            case Ok(ph) => SymbolIs(base, symbol, ph) && (forall x: nat :: SymbolIs(base, symbol, x) ==> x == ph)
            case Err(c) => c == -FDT_ERR_NOTFOUND && (forall x: nat :: !SymbolIs(base, symbol, x))
  {
    hide Resolve, At, Lookup, PhandleOf, CString;
  }

  /** A task does what it should, or returns what is wrong with it. */
  lemma DoExact(base: Node, o: Node, t: Task)
    ensures match Do(base, o, t)
            case Ok(_) => TaskFault(base, o, t) == None
            case Err(c) => TaskFault(base, o, t) == Some(c)
  {
    hide SymbolPhandle, Resolve, At, Lookup, Put, SetProp, Patch, SymbolIs;
    if t.Store? { SymbolExact(base, t.symbol); }
  }

  lemma FaultSame(base: Node, o: Node, a: Node, t: Task)
    requires SameSizes(o, a)
    ensures TaskFault(base, a, t) == TaskFault(base, o, t)
  {
    hide SymbolIs, At, SizeOf, SameShape, Resolve, ValidPath;
    if t.Store? {
      ResolveShape(o, a, t.rec.path);
      ResolveValid(o, t.rec.path);
    }
  }

  // --------------------------------------------------------------------- what it stores

  /** The task points at property `x` of the node at `q`. */
  ghost predicate Hits(o: Node, t: Task, q: Path, x: seq<Byte>) {
    t.Store? && Resolve(o, t.rec.path) == Some(q) && t.rec.name == x
  }

  function SymbolOf(t: Task): seq<Byte> {
    match t case Store(symbol, _) => symbol case BadList => []
  }

  function Pos(t: Task): nat {
    match t case Store(_, r) => Wrap32(r.offset) case BadList => 0
  }

  /** Byte `i` lies in no word that a task writes to property `x` of the node at `q`. */
  ghost predicate Untouched(o: Node, ts: seq<Task>, q: Path, x: seq<Byte>, i: nat) {
    forall k :: 0 <= k < |ts| && Hits(o, ts[k], q, x) ==> i < Pos(ts[k]) || Pos(ts[k]) + 4 <= i
  }

  /** Task `k` writes to that property, and no later one overlaps its word. */
  ghost predicate Lasting(o: Node, ts: seq<Task>, q: Path, x: seq<Byte>, k: nat) {
    k < |ts| && Hits(o, ts[k], q, x) &&
    forall j :: k < j < |ts| && Hits(o, ts[j], q, x) ==>
      Pos(ts[j]) + 4 <= Pos(ts[k]) || Pos(ts[k]) + 4 <= Pos(ts[j])
  }

  /** Value `v` has become `w`: each word that lasts is the phandle that its symbol names, every other byte is kept. */
  ghost predicate ValueStored(base: Node, o: Node, ts: seq<Task>, q: Path, x: seq<Byte>, v: seq<Byte>, w: seq<Byte>) {
    |w| == |v| &&
    (forall i :: 0 <= i < |v| && Untouched(o, ts, q, x, i) ==> w[i] == v[i]) &&
    (forall k: nat :: Lasting(o, ts, q, x, k) && Pos(ts[k]) + 4 <= |v| ==>
       SymbolIs(base, SymbolOf(ts[k]), Ld32(w, Pos(ts[k]))))
  }

  /** The same nodes, and every value of every node stored so. */
  ghost predicate Stored(base: Node, o: Node, a: Node, ts: seq<Task>) {
    SameSizes(o, a) && forall q, x :: ValidPath(o, q) && Lookup(At(o, q), x).Some? ==>
      Lookup(At(a, q), x).Some? && ValueStored(base, o, ts, q, x, Lookup(At(o, q), x).value, Lookup(At(a, q), x).value)
  }

  /** What one task makes of a value. */
  ghost predicate Written(base: Node, o: Node, t: Task, q: Path, x: seq<Byte>, v: seq<Byte>, w: seq<Byte>) {
    if Hits(o, t, q, x) && Pos(t) + 4 <= |v|
    then exists ph: U32 :: SymbolIs(base, SymbolOf(t), ph) && w == Patch(v, Pos(t), Be32(ph))
    else w == v
  }

  /** One task: its word is written and nothing else. */
  lemma DoWrites(base: Node, o: Node, t: Task, q: Path, x: seq<Byte>)
    requires Do(base, o, t).Ok? && ValidPath(o, q)
    ensures var a := Do(base, o, t).value;
            Lookup(At(o, q), x).Some? == Lookup(At(a, q), x).Some? &&
            (Lookup(At(o, q), x).Some? ==>
               Written(base, o, t, q, x, Lookup(At(o, q), x).value, Lookup(At(a, q), x).value))
  {
    hide SymbolPhandle, Resolve, At, Lookup, Put, SetProp, Patch, SymbolIs, ValidPath, Be32, PhandleOf;
    var a, r := Do(base, o, t).value, t.rec;
    var p := Resolve(o, r.path).value;
    SymbolExact(base, t.symbol);
    SymbolWord(base, t.symbol);
    ResolveValid(o, r.path);
    var n, idx, ph := At(o, p), Wrap32(r.offset), SymbolPhandle(base, t.symbol).value;
    var v := Lookup(n, r.name).value;
    assert Wrap32(ph) == ph;
    if idx + 4 <= |v| {
      var n' := SetProp(n, r.name, Patch(v, idx, Be32(ph)));
      SetPropKids(n, r.name, Patch(v, idx, Be32(ph)));
      PropsElsewhere(o, p, n', q);
      LookupProps(At(a, q), if q == p then n' else At(o, q), x);
      SetPropLookup(n, r.name, Patch(v, idx, Be32(ph)), x);
    }
  }

  lemma SymbolWord(base: Node, symbol: seq<Byte>)
    ensures SymbolPhandle(base, symbol).Ok? ==> 0 < SymbolPhandle(base, symbol).value < TWO32
  {
    hide Resolve, At, Lookup, Ld32;
  }

  lemma DoSizes(base: Node, o: Node, t: Task)
    requires Do(base, o, t).Ok?
    ensures SameSizes(o, Do(base, o, t).value)
  {
    hide At, Lookup, Written, ValidPath, SameShape, FixOne;
    var a := Do(base, o, t).value;
    FixOneShape(base, o, t.symbol, t.rec);
    forall q, x | ValidPath(o, q) ensures SizeOf(At(a, q), x) == SizeOf(At(o, q), x) {
      DoWrites(base, o, t, q, x);
      if Lookup(At(o, q), x).Some? {
        WrittenSize(base, o, t, q, x, Lookup(At(o, q), x).value, Lookup(At(a, q), x).value);
      }
    }
  }

  lemma WrittenSize(base: Node, o: Node, t: Task, q: Path, x: seq<Byte>, v: seq<Byte>, w: seq<Byte>)
    requires Written(base, o, t, q, x, v, w)
    ensures |w| == |v|
  {
    hide Hits, SymbolIs, Be32;
  }

  lemma FixOneShape(base: Node, o: Node, symbol: seq<Byte>, r: Fixups.Record)
    requires FixOne(base, o, symbol, r).Ok?
    ensures SameShape(o, FixOne(base, o, symbol, r).value)
  {
    hide SymbolPhandle, Resolve, At, Lookup, Put, SetProp, Patch, ValidPath, SameShape, Be32;
    SameShapeSelf(o);
    var q := Resolve(o, r.path).value;
    var n, idx := At(o, q), Wrap32(r.offset);
    var v := Lookup(n, r.name).value;
    ResolveValid(o, r.path);
    if idx + 4 <= |v| {
      var w := Patch(v, idx, Be32(Wrap32(SymbolPhandle(base, symbol).value)));
      SetPropKids(n, r.name, w);
      SameKids(n, SetProp(n, r.name, w));
      PutShape(o, q, SetProp(n, r.name, w));
    }
  }

  lemma HitsSame(o: Node, a: Node, t: Task, q: Path, x: seq<Byte>)
    requires SameSizes(o, a)
    ensures Hits(a, t, q, x) == Hits(o, t, q, x)
  {
    hide SameShape, Resolve, SizeOf;
    if t.Store? { ResolveShape(o, a, t.rec.path); }
  }

  /** One task more, on one value. */
  lemma ValueMore(base: Node, o: Node, ts: seq<Task>, t: Task, q: Path, x: seq<Byte>, v: seq<Byte>, w: seq<Byte>,
                  z: seq<Byte>)
    requires ValueStored(base, o, ts, q, x, v, w) && Written(base, o, t, q, x, w, z)
    ensures ValueStored(base, o, ts + [t], q, x, v, z)
  {
    hide Hits, SymbolIs, Be32, Ld32, Patch;
    var us, n := ts + [t], |ts|;
    WrittenSize(base, o, t, q, x, w, z);
    forall i | 0 <= i < |v| && Untouched(o, us, q, x, i) ensures z[i] == v[i] {
      assert us[n] == t;
      assert Untouched(o, ts, q, x, i) by {
        forall k | 0 <= k < |ts| && Hits(o, ts[k], q, x) ensures i < Pos(ts[k]) || Pos(ts[k]) + 4 <= i {
          assert us[k] == ts[k];
        }
      }
      ByteKept(base, o, t, q, x, w, z, i);
    }
    forall k: nat | Lasting(o, us, q, x, k) && Pos(us[k]) + 4 <= |v|
      ensures SymbolIs(base, SymbolOf(us[k]), Ld32(z, Pos(us[k])))
    {
      if k < n {
        assert Lasting(o, ts, q, x, k) by {
          forall j | k < j < |ts| && Hits(o, ts[j], q, x)
            ensures Pos(ts[j]) + 4 <= Pos(ts[k]) || Pos(ts[k]) + 4 <= Pos(ts[j]) {
            assert us[j] == ts[j];
          }
        }
        assert us[n] == t;
        WordKept(base, o, t, q, x, w, z, Pos(us[k]));
      } else {
        WordWritten(base, o, t, q, x, w, z);
      }
    }
  }

  lemma ByteKept(base: Node, o: Node, t: Task, q: Path, x: seq<Byte>, v: seq<Byte>, w: seq<Byte>, i: nat)
    requires Written(base, o, t, q, x, v, w) && i < |v|
    requires Hits(o, t, q, x) ==> i < Pos(t) || Pos(t) + 4 <= i
    ensures |w| == |v| && w[i] == v[i]
  {
    hide Hits, SymbolIs, Be32;
  }

  lemma WordKept(base: Node, o: Node, t: Task, q: Path, x: seq<Byte>, v: seq<Byte>, w: seq<Byte>, p: nat)
    requires Written(base, o, t, q, x, v, w) && p + 4 <= |v|
    requires Hits(o, t, q, x) ==> Pos(t) + 4 <= p || p + 4 <= Pos(t)
    ensures |w| == |v| && Ld32(w, p) == Ld32(v, p)
  {
    hide Hits, SymbolIs, Be32, Ld32, Patch;
    WrittenSize(base, o, t, q, x, v, w);
    if w != v {
      var ph: U32 :| SymbolIs(base, SymbolOf(t), ph) && w == Patch(v, Pos(t), Be32(ph));
      PatchOutside(v, Pos(t), Be32(ph), p, p + 4);
      LoadSame(w, p, v, p);
    }
  }

  lemma WordWritten(base: Node, o: Node, t: Task, q: Path, x: seq<Byte>, v: seq<Byte>, w: seq<Byte>)
    requires Written(base, o, t, q, x, v, w) && Hits(o, t, q, x) && Pos(t) + 4 <= |v|
    ensures |w| == |v| && SymbolIs(base, SymbolOf(t), Ld32(w, Pos(t)))
  {
    hide Hits, SymbolIs, Be32, Ld32, Patch;
    WrittenSize(base, o, t, q, x, v, w);
    var ph: U32 :| SymbolIs(base, SymbolOf(t), ph) && w == Patch(v, Pos(t), Be32(ph));
    PatchInside(v, Pos(t), Be32(ph), Pos(t), Pos(t) + 4);
    LoadStored(w, Pos(t), ph);
  }

  // -------------------------------------------------------------------------- the pass

  lemma StoredNone(base: Node, o: Node)
    ensures Stored(base, o, o, [])
  {
    hide At, Lookup, SymbolIs, ValidPath;
    SizesSelf(o);
  }

  lemma StoredMore(base: Node, o: Node, a: Node, ts: seq<Task>, t: Task)
    requires Stored(base, o, a, ts) && Do(base, a, t).Ok?
    ensures Stored(base, o, Do(base, a, t).value, ts + [t])
  {
    hide At, Lookup, SymbolIs, ValidPath, ValueStored, Do, SameSizes, Written;
    var c := Do(base, a, t).value;
    DoSizes(base, a, t);
    SizesTrans(o, a, c);
    forall q, x | ValidPath(o, q) && Lookup(At(o, q), x).Some?
      ensures Lookup(At(c, q), x).Some? &&
              ValueStored(base, o, ts + [t], q, x, Lookup(At(o, q), x).value, Lookup(At(c, q), x).value)
    {
      SizesPath(o, a, q);
      DoWrites(base, a, t, q, x);
      WrittenSame(base, o, a, t, q, x, Lookup(At(a, q), x).value, Lookup(At(c, q), x).value);
      ValueMore(base, o, ts, t, q, x, Lookup(At(o, q), x).value, Lookup(At(a, q), x).value, Lookup(At(c, q), x).value);
    }
  }

  lemma SizesPath(o: Node, a: Node, q: Path)
    requires SameSizes(o, a) && ValidPath(o, q)
    ensures ValidPath(a, q)
  {
    hide SameShape, SizeOf, At, ValidPath;
    ShapePath(o, a, q);
  }

  lemma WrittenSame(base: Node, o: Node, a: Node, t: Task, q: Path, x: seq<Byte>, v: seq<Byte>, w: seq<Byte>)
    requires SameSizes(o, a) && Written(base, a, t, q, x, v, w)
    ensures Written(base, o, t, q, x, v, w)
  {
    hide SameSizes, Hits, SymbolIs, Patch, Be32;
    HitsSame(o, a, t, q, x);
  }

  /**
   The pass succeeds if and only if nothing is wrong with any task, and then every word that lasts is the phandle of
   the node that its symbol names in the base and nothing else has changed; otherwise it returns what is wrong with
   the first task.
   */
  lemma {:induction false} TasksExact(base: Node, o: Node, ts: seq<Task>)
    ensures DoAll(base, o, ts).Ok? ==> NothingWrong(base, o, ts) && Stored(base, o, DoAll(base, o, ts).value, ts)
    ensures DoAll(base, o, ts).Err? ==> exists k :: FirstWrong(base, o, ts, k, DoAll(base, o, ts).code)
    decreases |ts|
  {
    hide TaskFault, Stored, Do;
    if ts == [] {
      StoredNone(base, o);
    } else {
      var h, t := ts[..|ts| - 1], ts[|ts| - 1];
      TasksExact(base, o, h);
      assert ts == h + [t];
      if DoAll(base, o, h).Ok? {
        var a := DoAll(base, o, h).value;
        DoExact(base, a, t);
        StoredSizes(base, o, a, h);
        FaultSame(base, o, a, t);
        if Do(base, a, t).Ok? {
          StoredMore(base, o, a, h, t);
        } else {
          assert FirstWrong(base, o, ts, |h|, Do(base, a, t).code);
        }
      } else {
        var k :| FirstWrong(base, o, h, k, DoAll(base, o, h).code);
        assert FirstWrong(base, o, ts, k, DoAll(base, o, h).code);
      }
    }
  }

  ghost predicate NothingWrong(base: Node, o: Node, ts: seq<Task>) {
    forall k :: 0 <= k < |ts| ==> TaskFault(base, o, ts[k]) == None
  }

  /** Task `k` is the first with which something is wrong. */
  ghost predicate FirstWrong(base: Node, o: Node, ts: seq<Task>, k: nat, c: int) {
    k < |ts| && TaskFault(base, o, ts[k]) == Some(c) &&
    forall j :: 0 <= j < k ==> TaskFault(base, o, ts[j]) == None
  }

  lemma StoredSizes(base: Node, o: Node, a: Node, ts: seq<Task>)
    requires Stored(base, o, a, ts)
    ensures SameSizes(o, a)
  {
    hide SameSizes, ValueStored, At, Lookup, ValidPath;
  }

  /** The same of the pass itself. */
  lemma FixPropsExact(base: Node, o: Node, fs: seq<Prop>, max: nat)
    ensures var ts, r := Tasks(fs, max), FixProps(base, o, fs, max);
            (r.Ok? <==> NothingWrong(base, o, ts)) && (r.Ok? ==> Stored(base, o, r.value, ts)) &&
            (r.Err? ==> exists k :: FirstWrong(base, o, ts, k, r.code))
  {
    hide FixProps, Tasks, DoAll, TaskFault, Stored;
    PropsDo(base, o, fs, max);
    TasksExact(base, o, Tasks(fs, max));
  }
}
