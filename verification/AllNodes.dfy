/** Loops over every node of a blob: `fdt_next_node` without a depth, and the searches by phandle built on it. */
module AllNodes {
  import opened Bytes
  import opened DeviceTree
  import opened Lexer
  import opened Blob
  import opened Walk
  import opened Traverse
  import opened Edit
  import opened Rewrite
  import opened Phandles
  import opened PhandleBytes

  /** The next opening tag, at any depth. */
  function NextOpen(es: seq<Event>, e: nat): (r: Option<nat>)
    ensures r.Some? ==> e <= r.value < |es| && es[r.value].Enter? && forall i :: e <= i < r.value ==> !es[i].Enter?
    ensures r.None? && Finish !in es[..|es| - (if es == [] then 0 else 1)] ==>
              forall i :: e <= i < |es| ==> !es[i].Enter?
    decreases |es| - e
  {
    if e >= |es| then None
    else if es[e].Enter? then Some(e)
    else if es[e] == Finish then None
    else NextOpen(es, e + 1)
  }

  /** The events from which the search starts: the first one for a negative offset, else those inside the node. */
  predicate StartsAt(b: seq<Byte>, es: seq<Event>, from: int, s: nat) {
    Readable(b) && Terminated(es) && INT_MIN <= from <= INT_MAX &&
    if from < 0 then s == 0 && AtMark(b, es, 0, 0) else s > 0 && NodeMark(b, es, from, s - 1)
  }

  /** `fdt_next_node` with no depth: from a node, or from any negative offset, to the next node of the whole tree. */
  method NextNodeFlat(b: seq<Byte>, from: int, ghost es: seq<Event>, ghost s: nat) returns (res: int)
    requires StartsAt(b, es, from, s)
    ensures match NextOpen(es, s)
            case Some(j) => NodeMark(b, es, res, j) && 0 <= res <= INT_MAX
            case None => res == -FDT_ERR_NOTFOUND
  {
    hide NodeMark, AtMark, NextTag, PropMark, Ordered, Struct, Item.Size;
    var next := 0;
    if from >= 0 {
      GoodNode(b, es, from, s - 1);
      next := CheckOffset(b, from, FDT_BEGIN_NODE);
      NodeMarkIs(b, es, from, s - 1);
    }
    ghost var k := s;
    MarkBounds(b, es, next, k);
    while true
      invariant AtMark(b, es, next, k) && k < |es| && 0 <= next <= INT_MAX && NextOpen(es, s) == NextOpen(es, k)
      decreases |es| - k, |Struct(b)| - next
    {
      AtTag(b, es, next, k);
      var offset := next;
      var tag;
      tag, next := NextTagIn(b, offset);
      if tag == FDT_BEGIN_NODE {
        return offset;
      } else if tag == FDT_END {
        return -FDT_ERR_NOTFOUND;
      } else if tag != FDT_NOP {
        k := k + 1;
      }
    }
  }

  /** A mark with nothing behind it lies behind the last event, which no node opens. */
  lemma MarkBounds(b: seq<Byte>, es: seq<Event>, o: int, e: int)
    requires AtMark(b, es, o, e) && Terminated(es) && (e == 0 || es[e - 1].Enter?)
    ensures e < |es|
  {
    hide Mark;
    MarkRange(Struct(b), Strings(b), es, o, e);
  }

  lemma MarkRange(st: seq<Byte>, ss: seq<Byte>, es: seq<Event>, o: int, e: int)
    requires Mark(st, ss, es, o, e)
    ensures 0 <= e <= |es|
  {
  }

  // -------------------------------------------------------------- events and paths

  /** Every opening event belongs to a node of the tree. */
  lemma {:induction false} PathOf(t: Node, j: nat) returns (path: Path)
    requires j < |Flatten(t)| && Flatten(t)[j].Enter?
    ensures ValidPath(t, path) && |Before(t, path)| == j
    decreases t, 1
  {
    if j == 0 {
      path := [];
    } else {
      var h := |Head(t)|;
      assert h == 1 + |t.props|;
      var fs := Forest(t.kids);
      NotOpening(t, j);
      assert fs[j - h] == Flatten(t)[j];
      var i, rest := PathIn(t.kids, j - h);
      path := [i] + rest;
      assert path[1..] == rest;
    }
  }

  lemma NotOpening(t: Node, j: nat)
    requires j < |Flatten(t)|
    ensures 0 < j < |Head(t)| || |Head(t)| + |Forest(t.kids)| <= j ==> !Flatten(t)[j].Enter?
  {
    hide Forest;
    var es, a, c := Flatten(t), Head(t), Forest(t.kids);
    assert es == a + (c + [Leave]);
  }

  lemma {:induction false} PathIn(ks: seq<Node>, j: nat) returns (i: nat, rest: Path)
    requires j < |Forest(ks)| && Forest(ks)[j].Enter?
    ensures i < |ks| && ValidPath(ks[i], rest) && |Forest(ks[..i])| + |Before(ks[i], rest)| == j
    decreases ks, 0
  {
    hide Before;
    var n := |Flatten(ks[0])|;
    if j < n {
      assert Forest(ks)[j] == Flatten(ks[0])[j];
      i := 0;
      rest := PathOf(ks[0], j);
      assert ks[..0] == [];
    } else {
      assert Forest(ks)[j] == Forest(ks[1..])[j - n];
      var i', rest' := PathIn(ks[1..], j - n);
      i, rest := i' + 1, rest';
      assert ks[..i][1..] == ks[1..][..i'] && ks[..i][0] == ks[0];
    }
  }

  /** The opening event of a node. */
  lemma EnterAt(t: Node, path: Path)
    requires ValidPath(t, path)
    ensures |Before(t, path)| < |Tokens(t)| && Tokens(t)[|Before(t, path)|].Enter?
  {
    hide Before, Flatten, Here;
    NodeHere(t, path);
    NodeParts(Tokens(t), |Before(t, path)|, At(t, path));
  }

  lemma OnlyLast(t: Node)
    ensures var es := Tokens(t); es != [] && Finish !in es[..|es| - 1] && es[|es| - 1] == Finish && Terminated(es)
  {
    hide Flatten;
    PlainEvents(t);
    assert Tokens(t)[..|Tokens(t)| - 1] == Flatten(t);
  }

  /** The node that the search has met, by its path. */
  lemma MetNode(b: seq<Byte>, t: Node, o: int, j: nat) returns (path: Path)
    requires Holds(b, t) && NodeMark(b, Tokens(t), o, j) && j < |Tokens(t)| && Tokens(t)[j].Enter?
    ensures NodeOff(b, t, path, o) && |Before(t, path)| == j && ValidPath(t, path)
  {
    hide Before, Flatten, NodeMark, Holds;
    assert j < |Flatten(t)| && Tokens(t)[j] == Flatten(t)[j];
    path := PathOf(t, j);
  }

  lemma StartOf(b: seq<Byte>, t: Node)
    requires Holds(b, t)
    ensures StartsAt(b, Tokens(t), -1, 0)
  {
    hide Lex, Events, Flatten, Ordered;
    MarkEnds(Struct(b), Strings(b));
    TokensEnd(t);
  }

  /** No node opens from event `s` on. */
  ghost predicate NoneFrom(t: Node, s: nat) {
    forall q :: ValidPath(t, q) ==> |Before(t, q)| < s
  }

  /** The node at `path` is the first that opens from event `s` on. */
  ghost predicate FirstFrom(t: Node, s: nat, path: Path) {
    ValidPath(t, path) && s <= |Before(t, path)| &&
    forall q :: ValidPath(t, q) && s <= |Before(t, q)| ==> |Before(t, path)| <= |Before(t, q)|
  }

  /** One step of a loop over all nodes. */
  method NextNodeOf(b: seq<Byte>, from: int, ghost t: Node, ghost s: nat) returns (res: int, ghost path: Path)
    requires Holds(b, t) && StartsAt(b, Tokens(t), from, s)
    ensures res < 0 ==> res == -FDT_ERR_NOTFOUND && NoneFrom(t, s)
    ensures res >= 0 ==>
              NodeOff(b, t, path, res) && FirstFrom(t, s, path) && StartsAt(b, Tokens(t), res, |Before(t, path)| + 1) &&
              |Before(t, path)| < |Tokens(t)|
  {
    hide Holds, NodeOff, NodeMark, NextOpen, Before, StartsAt, Tokens, ValidPath;
    path := [];
    OnlyLast(t);
    res := NextNodeFlat(b, from, Tokens(t), s);
    forall q | ValidPath(t, q) ensures |Before(t, q)| < |Tokens(t)| && Tokens(t)[|Before(t, q)|].Enter? {
      EnterAt(t, q);
    }
    if res >= 0 {
      path := MetNode(b, t, res, NextOpen(Tokens(t), s).value);
      NextStart(b, Tokens(t), res, |Before(t, path)| + 1);
    }
  }

  lemma NextStart(b: seq<Byte>, es: seq<Event>, o: int, s: nat)
    requires s > 0 && NodeMark(b, es, o, s - 1) && Terminated(es) && 0 <= o <= INT_MAX
    ensures StartsAt(b, es, o, s)
  {
    hide Mark, First;
  }

  // --------------------------------------------------------------------- phandles

  /** `fdt_get_phandle` */
  method GetPhandle(b: seq<Byte>, node: int, ghost t: Node, ghost path: Path) returns (p: nat)
    requires NodeOff(b, t, path, node)
    ensures p == PhandleOf(At(t, path)) && p < TWO32
  {
    hide NodeOff, At, Lookup, Ld32;
    var v := GetProp(b, node, PHANDLE, t, path);
    if v.None? || |v.value| != 4 {
      v := GetProp(b, node, LINUX_PHANDLE, t, path);
      if v.None? || |v.value| != 4 {
        return 0;
      }
    }
    p := Ld32(v.value, 0);
  }

  /** Phandles of all nodes that open before event `s` are at most `max`, and one of them is `max`. */
  ghost predicate MaxBefore(t: Node, s: nat, max: nat) {
    (forall q :: ValidPath(t, q) && |Before(t, q)| < s ==> PhandleOf(At(t, q)) <= max) &&
    (max == 0 || exists q :: ValidPath(t, q) && PhandleOf(At(t, q)) == max)
  }

  lemma MaxMore(t: Node, s: nat, max: nat, path: Path)
    requires MaxBefore(t, s, max) && FirstFrom(t, s, path)
    ensures MaxBefore(t, |Before(t, path)| + 1, Max(max, PhandleOf(At(t, path))))
  {
    hide PhandleOf, At, ValidPath, Before;
    var v, e := PhandleOf(At(t, path)), |Before(t, path)|;
    forall q | ValidPath(t, q) && |Before(t, q)| < e + 1 ensures PhandleOf(At(t, q)) <= Max(max, v) {
      if |Before(t, q)| == e {
        OnePath(t, path, q);
      }
    }
  }

  /** Two nodes that open at the same event are the same node. */
  lemma {:induction false} OnePath(t: Node, p: Path, q: Path)
    requires ValidPath(t, p) && ValidPath(t, q) && |Before(t, p)| == |Before(t, q)|
    ensures p == q
    decreases |p|
  {
    hide Forest, Flatten;
    if p != [] && q != [] {
      var a, c := t.kids[p[0]], t.kids[q[0]];
      PathInside(a, p[1..]);
      PathInside(c, q[1..]);
      ForestGrows(t.kids, p[0], q[0]);
      ForestGrows(t.kids, q[0], p[0]);
      if p[0] == q[0] {
        OnePath(a, p[1..], q[1..]);
        assert p == [p[0]] + p[1..] && q == [q[0]] + q[1..];
      }
    }
  }

  /** The order of nodes in the blob is that of their paths. */
  predicate Precedes(p: Path, q: Path) {
    p == [] || (q != [] && (p[0] < q[0] || (p[0] == q[0] && Precedes(p[1..], q[1..]))))
  }

  lemma {:induction false} BeforeOrder(t: Node, p: Path, q: Path)
    requires ValidPath(t, p) && ValidPath(t, q)
    ensures |Before(t, p)| <= |Before(t, q)| <==> Precedes(p, q)
    decreases |p|
  {
    hide Forest, Flatten;
    if p != [] && q != [] {
      var a, c := t.kids[p[0]], t.kids[q[0]];
      PathInside(a, p[1..]);
      PathInside(c, q[1..]);
      ForestGrows(t.kids, p[0], q[0]);
      ForestGrows(t.kids, q[0], p[0]);
      if p[0] == q[0] {
        BeforeOrder(a, p[1..], q[1..]);
      }
    }
  }

  lemma PathInside(t: Node, p: Path)
    requires ValidPath(t, p)
    ensures |Before(t, p)| < |Flatten(t)|
  {
    hide Flatten, Before, After, At;
    FlattenAt(t, p);
    FlattenSome(At(t, p));
  }

  lemma FlattenSome(n: Node)
    ensures |Flatten(n)| >= 1
  {
  }

  lemma ForestGrows(ks: seq<Node>, i: nat, j: nat)
    requires i < |ks| && j <= |ks|
    ensures i < j ==> |Forest(ks[..i])| + |Flatten(ks[i])| <= |Forest(ks[..j])|
  {
    hide Flatten, Forest;
    if i < j {
      ForestSnoc(ks, i);
      assert ks[..j] == ks[..i + 1] + ks[i + 1..j];
      ForestConcat(ks[..i + 1], ks[i + 1..j]);
    }
  }

  /** The loop's result is the maximum of the tree. */
  lemma MaxIs(t: Node, s: nat, max: nat)
    requires MaxBefore(t, s, max) && NoneFrom(t, s)
    ensures max == MaxPhandle(t)
  {
    hide PhandleOf, At, ValidPath, Before, MaxPhandle;
    var p := MaxPhandleAttained(t);
    if MaxPhandle(t) > 0 { PhandleIs(At(t, p), MaxPhandle(t)); }
    forall q | ValidPath(t, q) ensures PhandleOf(At(t, q)) <= MaxPhandle(t) {
      MaxPhandleBounds(t, q);
      PhandleOr(At(t, q), MaxPhandle(t));
    }
  }

  lemma PhandleIs(n: Node, p: nat)
    requires Phandle(n) == Some(p)
    ensures PhandleOf(n) == p
  {
    hide Phandle;
  }

  lemma PhandleOr(n: Node, max: nat)
    requires Phandle(n).Some? ==> Phandle(n).value <= max
    ensures PhandleOf(n) <= max
  {
    hide Phandle;
  }

  /** `fdt_find_max_phandle` */
  method FindMaxPhandle(b: seq<Byte>, ghost t: Node) returns (max: nat)
    requires Holds(b, t)
    ensures max == MaxPhandle(t) < TWO32
  {
    hide Holds, NodeOff, Before, At, PhandleOf, MaxPhandle, StartsAt, MaxBefore, NoneFrom, FirstFrom, Tokens,
         ValidPath;
    max := 0;
    var offset := -1;
    ghost var s, path := 0, [];
    StartOf(b, t);
    MaxNone(t);
    while true
      invariant StartsAt(b, Tokens(t), offset, s) && s <= |Tokens(t)| && MaxBefore(t, s, max) && max < TWO32
      decreases |Tokens(t)| - s
    {
      offset, path := NextNodeOf(b, offset, t, s);
      if offset < 0 {
        break;
      }
      var value := GetPhandle(b, offset, t, path);
      MaxMore(t, s, max, path);
      FirstIsLater(t, s, path);
      if value > max {
        max := value;
      }
      s := |Before(t, path)| + 1;
    }
    MaxIs(t, s, max);
  }

  lemma MaxNone(t: Node)
    ensures MaxBefore(t, 0, 0)
  {
  }

  lemma FirstIsLater(t: Node, s: nat, path: Path)
    requires FirstFrom(t, s, path)
    ensures s <= |Before(t, path)|
  {
  }

  // ------------------------------------------------------------- search by phandle

  /** The first node with this phandle, in the order of the blob. */
  ghost predicate FirstWith(t: Node, phandle: nat, path: Path) {
    ValidPath(t, path) && PhandleOf(At(t, path)) == phandle &&
    forall q :: ValidPath(t, q) && PhandleOf(At(t, q)) == phandle ==> |Before(t, path)| <= |Before(t, q)|
  }

  ghost predicate NoneWith(t: Node, phandle: nat) {
    forall q :: ValidPath(t, q) ==> PhandleOf(At(t, q)) != phandle
  }

  /** No node that opens before event `s` has this phandle. */
  ghost predicate NoneWithBefore(t: Node, phandle: nat, s: nat) {
    forall q :: ValidPath(t, q) && |Before(t, q)| < s ==> PhandleOf(At(t, q)) != phandle
  }

  lemma WithMore(t: Node, phandle: nat, s: nat, path: Path)
    requires NoneWithBefore(t, phandle, s) && FirstFrom(t, s, path)
    ensures if PhandleOf(At(t, path)) == phandle then FirstWith(t, phandle, path)
            else NoneWithBefore(t, phandle, |Before(t, path)| + 1)
  {
    hide PhandleOf, At, ValidPath, Before;
    var e := |Before(t, path)|;
    forall q | ValidPath(t, q) && |Before(t, q)| < e + 1 && PhandleOf(At(t, path)) != phandle
        ensures PhandleOf(At(t, q)) != phandle {
      if |Before(t, q)| == e {
        OnePath(t, path, q);
      }
    }
  }

  lemma WithNone(t: Node, phandle: nat, s: nat)
    requires NoneWithBefore(t, phandle, s) && NoneFrom(t, s)
    ensures NoneWith(t, phandle)
  {
  }

  /** `fdt_node_offset_by_phandle` */
  method NodeByPhandle(b: seq<Byte>, phandle: nat, ghost t: Node) returns (res: int, ghost path: Path)
    requires Holds(b, t)
    ensures phandle == 0 || phandle == 0xffff_ffff ==> res == -FDT_ERR_BADPHANDLE
    ensures phandle != 0 && phandle != 0xffff_ffff && res < 0 ==> res == -FDT_ERR_NOTFOUND && NoneWith(t, phandle)
    ensures res >= 0 ==> NodeOff(b, t, path, res) && FirstWith(t, phandle, path)
  {
    hide Holds, NodeOff, Before, At, PhandleOf, StartsAt, NoneFrom, FirstFrom, Tokens, ValidPath, FirstWith,
         NoneWith, NoneWithBefore;
    path := [];
    if phandle == 0 || phandle == 0xffff_ffff {
      return -FDT_ERR_BADPHANDLE, path;
    }
    res := -1;
    ghost var s := 0;
    StartOf(b, t);
    assert NoneWithBefore(t, phandle, 0) by { NoneYet(t, phandle); }
    while true
      invariant StartsAt(b, Tokens(t), res, s) && s <= |Tokens(t)| && NoneWithBefore(t, phandle, s)
      decreases |Tokens(t)| - s
    {
      res, path := NextNodeOf(b, res, t, s);
      if res < 0 {
        WithNone(t, phandle, s);
        return;
      }
      WithMore(t, phandle, s, path);
      FirstIsLater(t, s, path);
      var value := GetPhandle(b, res, t, path);
      if value == phandle {
        return;
      }
      s := |Before(t, path)| + 1;
    }
  }

  lemma NoneYet(t: Node, phandle: nat)
    ensures NoneWithBefore(t, phandle, 0)
  {
  }
}
