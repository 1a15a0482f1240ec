/**
 Whole lives of a blob under construction: any calls of the sequential writer in any order, moves
 between buffers included.
 */
module Writer {
  import opened Bytes
  import opened DeviceTree
  import opened Lexer
  import opened Blob
  import opened ReadWrite
  import opened SeqWrite
  import opened Resize
  import opened Finish

  /** A call of the writer; `MoveTo` is `fdt_resize` to a buffer at address `at`. */
  datatype Op =
    | Entry(entry: seq<Byte>)
    | EndMap
    | Begin(name: seq<Byte>)
    | End
    | Property(name: seq<Byte>, value: seq<Byte>)
    | Complete
    | MoveTo(at: nat, size: nat)

  /** Where the blob stands, with what it has taken so far. */
  datatype Stage = Writing(phase: Phase) | Done(calls: seq<Event>)

  predicate AtStage(b: seq<Byte>, st: Stage) {
    match st case Writing(ph) => InPhase(b, ph) case Done(es) => Finished(b, es)
  }

  /** The call belongs to another phase. */
  predicate OutOfPhase(st: Stage, op: Op) {
    match st
    case Done(_) => true
    case Writing(Reserve(_)) => op.Begin? || op.End? || op.Property? || op.Complete?
    case Writing(Build(_)) => op.Entry? || op.EndMap?
  }

  /** The stage after a call that succeeded. */
  function Next(st: Stage, op: Op): Stage {
    match (st, op)
    case (Writing(Reserve(n)), Entry(_)) => Writing(Reserve(n + 1))
    case (Writing(Reserve(n)), EndMap) => Writing(Build([]))
    case (Writing(Build(es)), Begin(name)) => Writing(Build(es + [Enter(name)]))
    case (Writing(Build(es)), End) => Writing(Build(es + [Leave]))
    case (Writing(Build(es)), Property(name, value)) => Writing(Build(es + [Set(name, value)]))
    case (Writing(Build(es)), Complete) => Done(es)
    case _ => st
  }

  /** Arguments that C can pass, and a buffer inside the memory looked at. */
  predicate Proper(op: Op, memory: nat) {
    match op
    case Entry(entry) => |entry| == 16
    case Begin(name) => NulFree(name)
    case Property(name, _) => NulFree(name)
    case MoveTo(at, size) => at + size <= memory && size <= INT_MAX
    case _ => true
  }

  lemma StageProbes(b: seq<Byte>, st: Stage)
    requires AtStage(b, st)
    ensures |b| >= 40
    ensures st.Done? ==> ProbeMemrsv(b) == ProbeStruct(b) == SwProbe(b) == -FDT_ERR_BADSTATE
    ensures st.Writing? && st.phase.Reserve? ==>
              ProbeMemrsv(b) == 0 && ProbeStruct(b) == -FDT_ERR_BADSTATE && SwProbe(b) == 0
    ensures st.Writing? && st.phase.Build? ==>
              ProbeMemrsv(b) == -FDT_ERR_BADSTATE && ProbeStruct(b) == 0 && SwProbe(b) == 0
  {
    hide Ld32, Lex, Events;
  }

  /** The memory from an address on, as the call sees it. */
  method Window(mem: array<Byte>, f: nat) returns (w: array<Byte>)
    requires f <= mem.Length
    ensures fresh(w) && w[..] == mem[f..]
  {
    var n := mem.Length - f;
    w := new Byte[n](_ => 0);
    forall i | 0 <= i < n {
      w[i] := mem[f + i];
    }
    assert w[..] == mem[f..];
  }

  method Restore(mem: array<Byte>, f: nat, w: array<Byte>)
    requires f + w.Length == mem.Length && w != mem
    modifies mem
    ensures mem[f..] == w[..] && mem[..f] == old(mem[..f])
  {
    forall i | 0 <= i < w.Length {
      mem[f + i] := w[i];
    }
    assert mem[f..] == w[..];
  }

  /** The buffer has room for what the call adds. */
  predicate Fits(b: seq<Byte>, op: Op) {
    match op
    case Entry(_) => OffStruct(b) + 16 <= Total(b)
    case EndMap => OffStruct(b) + 16 <= Total(b)
    case Begin(name) => Used(b) + 4 + Align4(|name| + 1) <= Total(b)
    case End => Used(b) + 4 <= Total(b)
    case Property(name, value) => Used(b) + PropSize(b, name, |value|) <= Total(b)
    case Complete => Used(b) + 4 <= Total(b)
    case MoveTo(_, size) => HeadSize(b) + SizeStrings(b) <= size
  }

  /** What a call returns. */
  function Answer(b: seq<Byte>, st: Stage, op: Op): int {
    if OutOfPhase(st, op) then -FDT_ERR_BADSTATE else if Fits(b, op) then 0 else -FDT_ERR_NOSPACE
  }

  /** A property that fits has a name that fits. */
  lemma FitsNamed(b: seq<Byte>, name: seq<Byte>, len: nat)
    ensures Used(b) + PropSize(b, name, len) <= Total(b) ==> Nameable(b, name)
  {
    hide Tail, Occurs, Hdr;
  }

  /** A call on the blob at the front of `w`. */
  method CallHere(w: array<Byte>, op: Op, ghost st: Stage) returns (err: int)
    requires AtStage(w[..], st) && Proper(op, 0) && !op.MoveTo?
    modifies w
    ensures AtStage(w[..], if err == 0 then Next(st, op) else st)
    ensures OutOfPhase(st, op) ==> w[..] == old(w[..])
    ensures err == Answer(old(w[..]), st, op)
  {
    hide Hdr, Reserving, Building, Finished, SwProbe, Rsv, Tail, SizesOnly, Used, PropSize, Align4, Nameable;
    StageProbes(w[..], st);
    ghost var es := if st.Writing? && st.phase.Build? then st.phase.calls else [];
    ghost var n := if st.Writing? && st.phase.Reserve? then st.phase.entries else 0;
    match op
    case Entry(entry) => err := AddReserve(w, entry, n);
    case EndMap => err := FinishReserve(w, n);
    case Begin(name) => err := BeginNode(w, name, es);
    case End => err := EndNodeCall(w, es);
    case Property(name, value) =>
      FitsNamed(w[..], name, |value|);
      if ProbeStruct(w[..]) == 0 && !Nameable(w[..], name) {
        return -FDT_ERR_NOSPACE;
      }
      err := PropertyCall(w, name, value, es);
    case Complete => err := FinishCall(w, es);
  }

  /** One call: wherever the blob is, it ends at the stage that the call leads to, or stays where it was. */
  method Step(mem: array<Byte>, f: nat, op: Op, ghost st: Stage) returns (err: int, f': nat)
    requires f + 40 <= mem.Length && AtStage(mem[f..], st) && Proper(op, mem.Length)
    modifies mem
    ensures f' + 40 <= mem.Length && AtStage(mem[f'..], if err == 0 then Next(st, op) else st)
    ensures OutOfPhase(st, op) ==> mem[..] == old(mem[..]) && mem[f'..] == old(mem[f..])
    ensures f' == (if op.MoveTo? && err == 0 then op.at else f)
    ensures err == Answer(old(mem[f..]), st, op)
  {
    hide Hdr, HeadSize, InPhase, Finished, SwProbe, NamedFromEnd, Rsv, Struct, Resized;
    f' := f;
    StageProbes(mem[f..], st);
    if op.MoveTo? {
      err := ResizeCall(mem, f, op.at, op.size, if st.Writing? then st.phase else Reserve(0));
      if err == 0 {
        f' := op.at;
        StageProbes(mem[f'..], st);
      }
    } else {
      var w := Window(mem, f);
      err := CallHere(w, op, st);
      ghost var was := mem[..];
      Restore(mem, f, w);
      SameMemory(was, mem[..], f);
    }
  }

  lemma SameMemory(a: seq<Byte>, c: seq<Byte>, f: nat)
    requires |a| == |c| && f <= |a| && a[..f] == c[..f]
    ensures a[f..] == c[f..] ==> a == c
  {
    assert a == a[..f] + a[f..] && c == c[..f] + c[f..];
  }

  /** One call of a run: what it returns, the stage it leads to, and that a call of another phase changes nothing. */
  predicate Moves(b: seq<Byte>, st: Stage, op: Op, err: int, b': seq<Byte>, st': Stage) {
    err == Answer(b, st, op) && st' == (if err == 0 then Next(st, op) else st) && (OutOfPhase(st, op) ==> b' == b)
  }

  /** A run: the blob before each call and at the end, and the stage it is at every time. */
  ghost predicate Run(blobs: seq<seq<Byte>>, stages: seq<Stage>, ops: seq<Op>, errs: seq<int>) {
    |blobs| == |stages| == |ops| + 1 && |errs| == |ops| && stages[0] == Writing(Reserve(0)) &&
    (forall i :: 0 <= i < |blobs| ==> AtStage(blobs[i], stages[i])) &&
    (forall i :: 0 <= i < |ops| ==> Moves(blobs[i], stages[i], ops[i], errs[i], blobs[i + 1], stages[i + 1]))
  }

  /**
   Any calls in any order, from `fdt_create` on: each returns what the stage and the room at that point say,
   and at every point the blob is exactly at the stage that the successful calls lead to.
   */
  method Drive(mem: array<Byte>, f: nat, size: nat, ops: seq<Op>)
    returns (err: int, errs: seq<int>, at: nat, ghost blobs: seq<seq<Byte>>, ghost stages: seq<Stage>)
    requires f + 40 <= mem.Length && f + size <= mem.Length && size <= INT_MAX
    requires forall op :: op in ops ==> Proper(op, mem.Length)
    modifies mem
    ensures err == if size < 48 then -FDT_ERR_NOSPACE else 0
    ensures err != 0 ==> errs == []
    ensures err == 0 ==> at <= mem.Length && Run(blobs, stages, ops, errs) && blobs[|ops|] == mem[at..]
  {
    hide AtStage, Proper, Reserving, Moves;
    errs, at, blobs, stages := [], f, [], [];
    var w := Window(mem, f);
    err := Create(w, size);
    Restore(mem, f, w);
    if err != 0 { return; }
    blobs, stages := [mem[f..]], [Writing(Reserve(0))];
    StartStage(mem[f..]);
    var i := 0;
    while i < |ops|
      invariant 0 <= i == |errs| <= |ops| && at + 40 <= mem.Length
      invariant Run(blobs, stages, ops[..i], errs) && blobs[i] == mem[at..]
    {
      assert ops[i] in ops;
      ghost var st := stages[i];
      var e;
      ghost var was := mem[at..];
      ghost var before := at;
      e, at := Step(mem, at, ops[i], st);
      ghost var st' := if e == 0 then Next(st, ops[i]) else st;
      StepMoves(was, st, ops[i], e, mem[at..]);
      RunMore(blobs, stages, ops, i, errs, e, mem[at..], st');
      blobs, stages, errs := blobs + [mem[at..]], stages + [st'], errs + [e];
      i := i + 1;
    }
    assert ops[..i] == ops;
  }

  lemma StartStage(b: seq<Byte>)
    requires Reserving(b, 0)
    ensures AtStage(b, Writing(Reserve(0)))
  {
  }

  lemma StepMoves(b: seq<Byte>, st: Stage, op: Op, err: int, b': seq<Byte>)
    requires err == Answer(b, st, op) && (OutOfPhase(st, op) ==> b' == b)
    ensures Moves(b, st, op, err, b', if err == 0 then Next(st, op) else st)
  {
    hide OutOfPhase, Next, Fits;
  }

  lemma RunMore(blobs: seq<seq<Byte>>, stages: seq<Stage>, ops: seq<Op>, i: nat, errs: seq<int>,
                e: int, b': seq<Byte>, st': Stage)
    requires i < |ops| && Run(blobs, stages, ops[..i], errs)
    requires Moves(blobs[i], stages[i], ops[i], e, b', st') && AtStage(b', st')
    ensures Run(blobs + [b'], stages + [st'], ops[..i + 1], errs + [e])
  {
    hide AtStage, Moves;
    var bs, ss, os, es := blobs + [b'], stages + [st'], ops[..i + 1], errs + [e];
    forall j | 0 <= j < |os| ensures Moves(bs[j], ss[j], os[j], es[j], bs[j + 1], ss[j + 1]) {
      if j < i {
        assert ops[..i][j] == os[j];
      }
    }
  }
}
