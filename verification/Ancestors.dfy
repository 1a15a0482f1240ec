/** `fdt_next_node` with its depth counter, seen from the tree, and the walks to an ancestor built on it. */
module Ancestors {
  import opened Bytes
  import opened DeviceTree
  import opened Lexer
  import opened Blob
  import opened Walk
  import opened Traverse
  import opened Edit
  import opened Rewrite
  import opened TreeWalk
  import opened AllNodes

  // --------------------------------------------------------------- the next node

  /** The node after the one at `path` and everything below it: the next sibling of the closest node that has one. */
  function Climb(t: Node, path: Path): Option<Path> {
    if path == [] then None
    else
      var up, i := path[..|path| - 1], path[|path| - 1];
      if i + 1 < |At(t, up).kids| then Some(up + [i + 1]) else Climb(t, up)
  }

  /** The node after the one at `path` in the order of the blob. */
  function Next(t: Node, path: Path): Option<Path> {
    if At(t, path).kids != [] then Some(path + [0]) else Climb(t, path)
  }

  /** Where `fdt_next_node` ends up, given the node it reaches. */
  function HopTo(t: Node, next: Option<Path>): Hop {
    match next
    case Some(q) => Found(|Before(t, q)|, |q|)
    case None => Closed(|Flatten(t)|)
  }

  lemma UpAt(t: Node, path: Path)
    requires ValidPath(t, path) && path != []
    ensures var up, i := path[..|path| - 1], path[|path| - 1];
            ValidPath(t, up) && i < |At(t, up).kids| && path == up + [i]
  {
    hide At;
    var up, i := path[..|path| - 1], path[|path| - 1];
    assert path == up + [i];
    PrefixValid(t, up, [i]);
  }

  lemma {:induction false} PrefixValid(t: Node, p: Path, rest: Path)
    requires ValidPath(t, p + rest)
    ensures ValidPath(t, p) && ValidPath(At(t, p), rest) && At(t, p + rest) == At(At(t, p), rest)
    decreases p
  {
    if p == [] {
      assert p + rest == rest;
    } else {
      assert (p + rest)[1..] == p[1..] + rest;
      PrefixValid(t.kids[p[0]], p[1..], rest);
    }
  }

  /** Where the parts of a node's events are. */
  lemma NodePlace(t: Node, path: Path)
    requires ValidPath(t, path)
    ensures var es, e, n := Tokens(t), |Before(t, path)|, At(t, path);
            var k := e + |Head(n)| + |Forest(n.kids)|;
            k < |es| && es[e].Enter? && es[k] == Leave && k + 1 == e + |Flatten(n)| &&
            Here(es, e + 1, PropEvents(n.props)) && |Head(n)| == 1 + |n.props|
  {
    hide Flatten, Forest, Before, Here, At, PropEvents;
    NodeHere(t, path);
    NodeParts(Tokens(t), |Before(t, path)|, At(t, path));
  }

  /** Child `i` opens where the children before it end. */
  lemma KidPlace(t: Node, path: Path, i: nat)
    requires ValidPath(t, path) && i < |At(t, path).kids|
    ensures var e, n := |Before(t, path)| + |Head(At(t, path))|, At(t, path);
            ValidPath(t, path + [i]) && |Before(t, path + [i])| == e + |Forest(n.kids[..i])| &&
            e + |Forest(n.kids[..i + 1])| == |Before(t, path + [i])| + |Flatten(n.kids[i])| &&
            At(t, path + [i]) == n.kids[i]
  {
    hide Flatten, Forest, Before, At, Head;
    ChildAt(t, path, i);
    ForestSnoc(At(t, path).kids, i);
  }

  /** Behind a node: from its end tag the walk climbs. */
  lemma {:induction false} HopUp(t: Node, path: Path)
    requires ValidPath(t, path)
    ensures NextEnter(Tokens(t), |Before(t, path)| + |Flatten(At(t, path))| - 1, |path|) == HopTo(t, Climb(t, path))
    decreases |path|
  {
    hide Flatten, Forest, Before, At, Head, Tokens, PropEvents;
    var es := Tokens(t);
    NodePlace(t, path);
    if path == [] {
      RootSize(t);
    } else {
      UpAt(t, path);
      var up, i := path[..|path| - 1], path[|path| - 1];
      var n := At(t, up);
      KidPlace(t, up, i);
      if i + 1 < |n.kids| {
        KidPlace(t, up, i + 1);
        NodePlace(t, up + [i + 1]);
      } else {
        assert n.kids[..i + 1] == n.kids;
        NodePlace(t, up);
        HopUp(t, up);
      }
    }
  }

  lemma RootSize(t: Node)
    ensures |Before(t, [])| == 0 && At(t, []) == t && ValidPath(t, [])
  {
  }

  /** From a node `fdt_next_node` gets to the next one in the order of the blob, with the depth of that one. */
  lemma HopFrom(t: Node, path: Path)
    requires ValidPath(t, path)
    ensures NextEnter(Tokens(t), |Before(t, path)| + 1, |path|) == HopTo(t, Next(t, path))
  {
    hide Flatten, Forest, Before, At, Head, Tokens, PropEvents, Here, Climb, NextEnter, ValidPath;
    var es, n, e := Tokens(t), At(t, path), |Before(t, path)| + 1;
    NodePlace(t, path);
    SkipProps(es, e, n.props, |path|, []);
    NoForest(n.kids);
    if n.kids != [] {
      KidPlace(t, path, 0);
      NodePlace(t, path + [0]);
      FoundHere(es, e + |n.props|, |path|);
    } else {
      HopUp(t, path);
    }
  }

  lemma NoForest(ks: seq<Node>)
    ensures Forest(ks[..0]) == [] && (ks == [] ==> Forest(ks) == [])
  {
  }

  lemma FoundHere(es: seq<Event>, e: nat, d: int)
    requires e < |es| && es[e].Enter?
    ensures NextEnter(es, e, d) == Found(e, d + 1)
  {
  }

  lemma {:induction false} HopSkips(es: seq<Event>, e: nat, d: int, j: nat)
    requires e <= j < |es| && es[j].Enter?
    ensures match NextEnter(es, e, d)
            case Found(k, _) => k <= j
            case Closed(k) => k <= j
            case Ended => Finish in es[..j]
    decreases |es| - e
  {
    if e < j {
      match es[e]
      case Enter(_) =>
      case Leave => if d >= 1 { HopSkips(es, e + 1, d - 1, j); }
      case Finish => assert es[..j][e] == Finish;
      case _ => HopSkips(es, e + 1, d, j);
    }
  }

  lemma NextOne(t: Node, q: Path)
    requires ValidPath(t, q) && Next(t, q).Some?
    ensures Follows(q, Next(t, q).value)
  {
    hide At, ValidPath;
    if At(t, q).kids == [] {
      ClimbFollows(t, q);
    }
  }

  /** The step from a node to the next: to the first child, or to the next sibling of the node or of an ancestor. */
  predicate Follows(q: Path, q': Path) {
    q' != [] &&
    var k := |q'| - 1;
    k <= |q| && q'[..k] == q[..k]
  }

  lemma {:induction false} ClimbFollows(t: Node, q: Path)
    ensures Climb(t, q).Some? ==> Follows(q, Climb(t, q).value)
    decreases |q|
  {
    hide At;
    if q != [] {
      var up, i := q[..|q| - 1], q[|q| - 1];
      if i + 1 < |At(t, up).kids| {
        assert (up + [i + 1])[..|up|] == up;
      } else {
        ClimbFollows(t, up);
        if Climb(t, up).Some? {
          var k := |Climb(t, up).value| - 1;
          assert up[..k] == q[..k];
        }
      }
    }
  }

  lemma {:induction false} ClimbValid(t: Node, q: Path)
    requires ValidPath(t, q)
    ensures Climb(t, q).Some? ==> ValidPath(t, Climb(t, q).value)
    decreases |q|
  {
    hide At, ValidPath, Before;
    if q != [] {
      UpAt(t, q);
      var up, i := q[..|q| - 1], q[|q| - 1];
      if i + 1 < |At(t, up).kids| {
        ChildAt(t, up, i + 1);
      } else {
        ClimbValid(t, up);
      }
    }
  }

  /** While the node at `path` lies ahead there is a next node, and it does not lie behind `path`. */
  lemma NextToward(t: Node, q: Path, path: Path)
    requires ValidPath(t, q) && ValidPath(t, path) && |Before(t, q)| < |Before(t, path)|
    ensures Next(t, q).Some? && ValidPath(t, Next(t, q).value) && Follows(q, Next(t, q).value)
    ensures |Before(t, q)| < |Before(t, Next(t, q).value)| <= |Before(t, path)|
  {
    hide At, ValidPath, Before, Flatten, Tokens, Climb;
    var es, j := Tokens(t), |Before(t, path)|;
    HopFrom(t, q);
    EnterAt(t, path);
    OnlyLast(t);
    PathInside(t, path);
    HopSkips(es, |Before(t, q)| + 1, |q|, j);
    TokenCount(t);
    NextOne(t, q);
    ClimbValid(t, q);
    if At(t, q).kids != [] { ChildAt(t, q, 0); }
  }

  lemma TokenCount(t: Node)
    ensures |Tokens(t)| == |Flatten(t)| + 1
  {
    hide Flatten;
  }

  // -------------------------------------------------------------------- offsets

  /** Nodes lie in the blob in the order of their events. */
  lemma OffsetOrder(b: seq<Byte>, t: Node, p: Path, o: int, q: Path, o': int)
    requires NodeOff(b, t, p, o) && NodeOff(b, t, q, o')
    ensures o < o' <==> |Before(t, p)| < |Before(t, q)|
    ensures o == o' <==> |Before(t, p)| == |Before(t, q)|
  {
    hide First, Lex, Events, Before, Flatten, Struct, Strings, Ordered;
    var st, ss, es, e, e' := Struct(b), Strings(b), Tokens(t), |Before(t, p)|, |Before(t, q)|;
    if e <= e' { MarkOrder(st, ss, es, o, e, o', e'); }
    if e' <= e { MarkOrder(st, ss, es, o', e', o, e); }
    if o == o' { MarkUnique(st, ss, es, o, e, e'); }
  }

  lemma MarkUnique(st: seq<Byte>, ss: seq<Byte>, es: seq<Event>, o: int, e: int, e': int)
    requires Mark(st, ss, es, o, e) && Mark(st, ss, es, o, e')
    ensures e == e'
  {
    hide Lex, Events;
    assert |es[..e]| == |es[..e']|;
  }

  /** One step of a walk towards the node at `path`. */
  method StepToward(b: seq<Byte>, from: int, depth: int, ghost t: Node, ghost q: Path, ghost path: Path)
                    returns (res: int, d: int, ghost q': Path)
    requires NodeOff(b, t, q, from) && depth == |q| && ValidPath(t, path) && |Before(t, q)| < |Before(t, path)|
    ensures NodeOff(b, t, q', res) && d == |q'| && 0 <= res && Next(t, q) == Some(q') && Follows(q, q')
    ensures |Before(t, q)| < |Before(t, q')| <= |Before(t, path)|
  {
    hide NodeOff, NodeMark, AtMark, Before, Tokens, NodeEvents, Struct, Ordered, CheckTagOffset, ValidPath,
         NextEnter, Next, Follows, Behind;
    NodeOffIs(b, t, q, from);
    NextToward(t, q, path);
    HopFrom(t, q);
    q' := Next(t, q).value;
    GoodNode(b, Tokens(t), from, |Before(t, q)|);
    res, d := NextNode(b, from, depth, Tokens(t), |Before(t, q)|);
    NodeMarkIs(b, Tokens(t), res, |Before(t, q')|);
    HereOff(b, t, q', res);
  }

  lemma HereOff(b: seq<Byte>, t: Node, path: Path, o: int)
    requires Holds(b, t) && ValidPath(t, path) && NodeMark(b, Tokens(t), o, |Before(t, path)|)
    ensures NodeOff(b, t, path, o)
  {
  }

  // ------------------------------------------------------------------- ancestors

  /** The offset met last at depth `d` is that of the ancestor, once the walk is that deep. */
  predicate AncestorOff(b: seq<Byte>, t: Node, q: Path, d: int, o: int) {
    0 <= d <= |q| ==> NodeOff(b, t, q[..d], o)
  }

  lemma AncestorStep(b: seq<Byte>, t: Node, q: Path, q': Path, d: int, o: int)
    requires AncestorOff(b, t, q, d, o) && Follows(q, q') && d != |q'|
    ensures AncestorOff(b, t, q', d, o)
  {
    hide NodeOff;
    var k := |q'| - 1;
    if 0 <= d <= k {
      assert q'[..d] == q'[..k][..d] == q[..k][..d] == q[..d];
    }
  }

  /** `fdt_supernode_atdepth_offset`, called for a node. */
  method SupernodeAtDepth(b: seq<Byte>, nodeoffset: int, supernodedepth: int, ghost t: Node, ghost path: Path)
                          returns (res: int, nodedepth: int)
    requires NodeOff(b, t, [], 0) && NodeOff(b, t, path, nodeoffset)
    ensures supernodedepth < 0 || supernodedepth > |path| ==> res == -FDT_ERR_NOTFOUND
    ensures 0 <= supernodedepth <= |path| ==> res >= 0 && NodeOff(b, t, path[..supernodedepth], res)
    ensures supernodedepth >= 0 ==> nodedepth == |path|
  {
    hide NodeOff, Before, ValidPath, Follows;
    nodedepth := 0;
    if supernodedepth < 0 {
      return -FDT_ERR_NOTFOUND, nodedepth;
    }
    var offset, depth, supernode := 0, 0, -FDT_ERR_INTERNAL;
    ghost var q: Path := [];
    NodeOffPath(b, t, path, nodeoffset);
    NodeOffPath(b, t, [], 0);
    RootSize(t);
    while true
      invariant NodeOff(b, t, q, offset) && depth == |q| && |Before(t, q)| <= |Before(t, path)| && offset >= 0
      invariant depth != supernodedepth ==> AncestorOff(b, t, q, supernodedepth, supernode)
      invariant depth > supernodedepth ==> supernode >= 0
      decreases |Before(t, path)| - |Before(t, q)|
    {
      OffsetOrder(b, t, q, offset, path, nodeoffset);
      if depth == supernodedepth {
        supernode := offset;
        assert q[..depth] == q;
      }
      if offset == nodeoffset {
        NodeOffPath(b, t, q, offset);
        OnePath(t, q, path);
        nodedepth := depth;
        return if supernodedepth > depth then -FDT_ERR_NOTFOUND else supernode, nodedepth;
      }
      ghost var q0 := q;
      offset, depth, q := StepToward(b, offset, depth, t, q0, path);
      if depth != supernodedepth { AncestorStep(b, t, q0, q, supernodedepth, supernode); }
      FollowsDepth(q0, q);
    }
  }

  lemma FollowsDepth(q: Path, q': Path)
    requires Follows(q, q')
    ensures |q'| <= |q| + 1
  {
  }

  /** `fdt_node_depth` */
  method NodeDepth(b: seq<Byte>, nodeoffset: int, ghost t: Node, ghost path: Path) returns (depth: int)
    requires NodeOff(b, t, [], 0) && NodeOff(b, t, path, nodeoffset)
    ensures depth == |path|
  {
    hide NodeOff, Before;
    var err;
    err, depth := SupernodeAtDepth(b, nodeoffset, 0, t, path);
    assert path[..0] == [];
    OffsetOrder(b, t, [], err, [], 0);
    if err != 0 {
      return if err < 0 then err else -FDT_ERR_INTERNAL;
    }
  }

  /** `fdt_parent_offset` */
  method ParentOffset(b: seq<Byte>, nodeoffset: int, ghost t: Node, ghost path: Path) returns (res: int)
    requires NodeOff(b, t, [], 0) && NodeOff(b, t, path, nodeoffset)
    ensures path == [] ==> res == -FDT_ERR_NOTFOUND
    ensures path != [] ==> res >= 0 && NodeOff(b, t, path[..|path| - 1], res)
  {
    hide NodeOff;
    var depth := NodeDepth(b, nodeoffset, t, path);
    if depth < 0 {
      return depth;
    }
    var d;
    res, d := SupernodeAtDepth(b, nodeoffset, depth - 1, t, path);
  }
}
