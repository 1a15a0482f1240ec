/**
 What the traversal loops of fdt.c, fdt_ro.c and fdt_wip.c compute, as functions of the
 event sequence, and what those functions mean for a tree.
 */
module Walk {
  import opened Bytes
  import opened DeviceTree

  /** Where `fdt_next_node` stops: at a node, just after the tag that closes the start level, or at the end. */
  datatype Hop = Found(e: nat, depth: int) | Closed(e: nat) | Ended

  /** `fdt_next_node` from event `e` with its depth counter. */
  function NextEnter(es: seq<Event>, e: nat, depth: int): (h: Hop)
    ensures h.Found? ==> e <= h.e < |es| && es[h.e].Enter? && (depth >= 0 ==> h.depth >= 1)
    ensures h.Closed? ==> e < h.e <= |es| && es[h.e - 1] == Leave
    decreases |es| - e
  {
    if e >= |es| then Ended
    else match es[e]
      case Enter(_) => Found(e, depth + 1)
      case Leave => if depth < 1 then Closed(e + 1) else NextEnter(es, e + 1, depth - 1)
      case Finish => Ended
      case _ => NextEnter(es, e + 1, depth)
  }

  /** `fdt_node_end_offset_`: the event after the tag that closes the start level. */
  function Close(es: seq<Event>, e: nat, depth: int): Option<nat>
    decreases |es| - e
  {
    if e >= |es| then None
    else match es[e]
      case Enter(_) => Close(es, e + 1, depth + 1)
      case Leave => if depth < 1 then Some(e + 1) else Close(es, e + 1, depth - 1)
      case Finish => None
      case _ => Close(es, e + 1, depth)
  }

  /** `fdt_first_subnode` (depth 0) and `fdt_next_subnode` (depth 1): the next node one level below the parent. */
  function Kid(es: seq<Event>, e: nat, depth: int): Option<nat>
    decreases |es| - e
  {
    if e >= |es| then None
    else match es[e]
      case Enter(_) => if depth < 1 then Some(e) else Kid(es, e + 1, depth + 1)
      case Leave => if depth < 1 then None else Kid(es, e + 1, depth - 1)
      case Finish => None
      case _ => Kid(es, e + 1, depth)
  }

  /**
   `fdt_nodename_eq_`: the name is `s`, or `s` has no unit address and the name is `s`
   followed by one.
   */
  predicate NameEq(name: seq<Byte>, s: seq<Byte>) {
    |s| <= |name| && name[..|s|] == s && (|name| == |s| || (0x40 !in s && name[|s|] == 0x40))
  }

  /** `fdt_subnode_offset_namelen` */
  function FindKid(es: seq<Event>, e: nat, depth: int, s: seq<Byte>): Option<nat>
    decreases |es| - e
  {
    if e >= |es| then None
    else match es[e]
      case Enter(name) => if depth == 0 && NameEq(name, s) then Some(e) else FindKid(es, e + 1, depth + 1, s)
      case Leave => if depth < 1 then None else FindKid(es, e + 1, depth - 1, s)
      case Finish => None
      case _ => FindKid(es, e + 1, depth, s)
  }

  /** `fdt_get_property_namelen_`: the first property of that name before any other tag. */
  function FindProp(es: seq<Event>, e: nat, s: seq<Byte>): Option<nat>
    decreases |es| - e
  {
    if e >= |es| then None
    else match es[e]
      case Set(name, _) => if name == s then Some(e) else FindProp(es, e + 1, s)
      case Dangling => FindProp(es, e + 1, s)
      case _ => None
  }

  // ------------------------------------------------------ each loop, one hop

  /** Following `fdt_next_node` until the level closes is `Close`. */
  lemma {:induction false} CloseByHops(es: seq<Event>, e: nat, depth: int)
    ensures Close(es, e, depth) ==
            match NextEnter(es, e, depth)
            case Found(j, d) => Close(es, j + 1, d)
            case Closed(j) => Some(j)
            case Ended => None
    decreases |es| - e
  {
    if e < |es| {
      match es[e]
      case Enter(_) =>
      case Leave => if depth >= 1 { CloseByHops(es, e + 1, depth - 1); }
      case Finish =>
      case _ => CloseByHops(es, e + 1, depth);
    }
  }

  lemma {:induction false} KidByHops(es: seq<Event>, e: nat, depth: int)
    requires depth >= 0
    ensures Kid(es, e, depth) ==
            match NextEnter(es, e, depth)
            case Found(j, d) => if d <= 1 then Some(j) else Kid(es, j + 1, d)
            case Closed(j) => None
            case Ended => None
    decreases |es| - e
  {
    if e < |es| {
      match es[e]
      case Enter(_) =>
      case Leave => if depth >= 1 { KidByHops(es, e + 1, depth - 1); }
      case Finish =>
      case _ => KidByHops(es, e + 1, depth);
    }
  }

  lemma {:induction false} FindKidByHops(es: seq<Event>, e: nat, depth: int, s: seq<Byte>)
    requires depth >= 0
    ensures FindKid(es, e, depth, s) ==
            match NextEnter(es, e, depth)
            case Found(j, d) => if d == 1 && NameEq(es[j].name, s) then Some(j) else FindKid(es, j + 1, d, s)
            case Closed(j) => None
            case Ended => None
    decreases |es| - e
  {
    hide NameEq;
    if e < |es| {
      match es[e]
      case Enter(_) =>
      case Leave => if depth >= 1 { FindKidByHops(es, e + 1, depth - 1, s); }
      case Finish =>
      case _ => FindKidByHops(es, e + 1, depth, s);
    }
  }

  // ------------------------------------------------------------ over a tree

  /** `x` is what `es` has from `e` on. */
  predicate Here(es: seq<Event>, e: nat, x: seq<Event>) {
    e + |x| <= |es| && es[e..e + |x|] == x
  }

  lemma HereSplit(es: seq<Event>, e: nat, a: seq<Event>, b: seq<Event>)
    requires Here(es, e, a + b)
    ensures Here(es, e, a) && Here(es, e + |a|, b)
  {
    var w := a + b;
    SliceOfSlice(es, e, e + |w|, 0, |a|);
    SliceOfSlice(es, e, e + |w|, |a|, |w|);
    assert w[0..|a|] == a && w[|a|..|w|] == b;
  }

  lemma HereAt(es: seq<Event>, e: nat, x: seq<Event>, i: nat)
    requires Here(es, e, x) && i < |x|
    ensures es[e + i] == x[i]
  {
    var w := es[e..e + |x|];
    assert w[i] == es[e + i];
  }

  lemma NodeParts(es: seq<Event>, e: nat, n: Node)
    requires Here(es, e, Flatten(n))
    ensures es[e] == Enter(n.name)
    ensures Here(es, e + 1, PropEvents(n.props))
    ensures Here(es, e + 1 + |n.props|, Forest(n.kids))
    ensures e + 1 + |n.props| + |Forest(n.kids)| < |es|
    ensures es[e + 1 + |n.props| + |Forest(n.kids)|] == Leave
    ensures |Flatten(n)| == 2 + |n.props| + |Forest(n.kids)|
  {
    hide Here;
    var h, f := Head(n), Forest(n.kids);
    HereSplit(es, e, h + f, [Leave]);
    HereSplit(es, e, h, f);
    HereSplit(es, e, [Enter(n.name)], PropEvents(n.props));
    HereAt(es, e, [Enter(n.name)], 0);
    HereAt(es, e + |h + f|, [Leave], 0);
    assert Here(es, e + |h + f|, [Leave]) ==> e + |h + f| + 1 <= |es| by { HereSize(es, e + |h + f|, [Leave]); }
  }

  lemma HereSize(es: seq<Event>, e: nat, x: seq<Event>)
    ensures Here(es, e, x) ==> e + |x| <= |es|
  {
  }

  /** Properties are skipped by every walk. */
  lemma {:induction false} SkipProps(es: seq<Event>, e: nat, ps: seq<Prop>, d: int, s: seq<Byte>)
    requires Here(es, e, PropEvents(ps))
    ensures NextEnter(es, e, d) == NextEnter(es, e + |ps|, d)
    ensures Close(es, e, d) == Close(es, e + |ps|, d)
    ensures Kid(es, e, d) == Kid(es, e + |ps|, d)
    ensures FindKid(es, e, d, s) == FindKid(es, e + |ps|, d, s)
    decreases |ps|
  {
    hide Here;
    if ps != [] {
      HereAt(es, e, PropEvents(ps), 0);
      HereSize(es, e, PropEvents(ps));
      assert PropEvents(ps) == [PropEvents(ps)[0]] + PropEvents(ps[1..]);
      HereSplit(es, e, [PropEvents(ps)[0]], PropEvents(ps[1..]));
      SkipProps(es, e + 1, ps[1..], d, s);
    }
  }

  /** A complete node is skipped by a walk that is already below the wanted level. */
  lemma {:induction false} SkipNode(es: seq<Event>, e: nat, n: Node, d: int, s: seq<Byte>)
    requires Here(es, e, Flatten(n)) && d >= 0
    ensures Close(es, e, d) == Close(es, e + |Flatten(n)|, d)
    ensures d >= 1 ==> Kid(es, e, d) == Kid(es, e + |Flatten(n)|, d)
    ensures d >= 1 || !NameEq(n.name, s) ==> FindKid(es, e, d, s) == FindKid(es, e + |Flatten(n)|, d, s)
    decreases n, 1
  {
    hide Here, NameEq, Flatten;
    NodeParts(es, e, n);
    SkipProps(es, e + 1, n.props, d + 1, s);
    SkipForest(es, e + 1 + |n.props|, n.kids, d + 1, s);
  }

  lemma {:induction false} SkipForest(es: seq<Event>, e: nat, ks: seq<Node>, d: int, s: seq<Byte>)
    requires Here(es, e, Forest(ks)) && d >= 0
    ensures Close(es, e, d) == Close(es, e + |Forest(ks)|, d)
    ensures d >= 1 ==> Kid(es, e, d) == Kid(es, e + |Forest(ks)|, d)
    ensures d >= 1 || (forall k :: k in ks ==> !NameEq(k.name, s)) ==>
              FindKid(es, e, d, s) == FindKid(es, e + |Forest(ks)|, d, s)
    decreases ks, 0
  {
    hide Here, NameEq, Flatten, Close, Kid, FindKid;
    if ks != [] {
      HereSplit(es, e, Flatten(ks[0]), Forest(ks[1..]));
      SkipNode(es, e, ks[0], d, s);
      SkipForest(es, e + |Flatten(ks[0])|, ks[1..], d, s);
    }
  }

  /** The end offset of a node is just after its own closing tag. */
  lemma CloseNode(es: seq<Event>, e: nat, n: Node)
    requires Here(es, e, Flatten(n))
    ensures Close(es, e + 1, 0) == Some(e + |Flatten(n)|)
  {
    hide Here, Flatten;
    NodeParts(es, e, n);
    SkipProps(es, e + 1, n.props, 0, []);
    SkipForest(es, e + 1 + |n.props|, n.kids, 0, []);
  }

  /** The first child of a node, if it has one. */
  lemma FirstKid(es: seq<Event>, e: nat, n: Node)
    requires Here(es, e, Flatten(n))
    ensures Kid(es, e + 1, 0) == if n.kids == [] then None else Some(e + |Head(n)|)
  {
    hide Here, Flatten;
    NodeParts(es, e, n);
    SkipProps(es, e + 1, n.props, 0, []);
    if n.kids != [] {
      HereSplit(es, e + 1 + |n.props|, Flatten(n.kids[0]), Forest(n.kids[1..]));
      NodeParts(es, e + 1 + |n.props|, n.kids[0]);
    }
  }

  lemma KidsHere(es: seq<Event>, e: nat, ks: seq<Node>, i: nat)
    requires Here(es, e, Forest(ks)) && i < |ks|
    ensures Here(es, e + |Forest(ks[..i])|, Flatten(ks[i]))
    ensures Here(es, e + |Forest(ks[..i])| + |Flatten(ks[i])|, Forest(ks[i + 1..]))
    ensures Forest(ks[..i + 1]) == Forest(ks[..i]) + Flatten(ks[i])
  {
    hide Here, Flatten;
    ForestAround(ks, i);
    HereSplit(es, e, Forest(ks[..i]) + Flatten(ks[i]), Forest(ks[i + 1..]));
    HereSplit(es, e, Forest(ks[..i]), Flatten(ks[i]));
    ForestSnoc(ks, i);
  }

  /** The child after child `i` of a node, if there is one. */
  lemma NextKid(es: seq<Event>, e: nat, n: Node, i: nat)
    requires Here(es, e, Flatten(n)) && i < |n.kids|
    ensures Kid(es, e + |Head(n)| + |Forest(n.kids[..i])| + 1, 1) ==
            if i + 1 < |n.kids| then Some(e + |Head(n)| + |Forest(n.kids[..i + 1])|) else None
  {
    hide Here, Flatten, Kid, Forest;
    NodeParts(es, e, n);
    var f := e + |Head(n)|;
    KidsHere(es, f, n.kids, i);
    var c, k := f + |Forest(n.kids[..i])|, n.kids[i];
    var r := c + |Flatten(k)|;
    KidAfter(es, c, k);
    if i + 1 < |n.kids| {
      KidsHere(es, f, n.kids, i + 1);
      NodeParts(es, r, n.kids[i + 1]);
      KidFound(es, r);
    } else {
      assert n.kids[..i + 1] == n.kids;
      KidsEnd(es, r);
    }
  }

  /** From inside a child the walk gets to what follows the child. */
  lemma KidAfter(es: seq<Event>, c: nat, k: Node)
    requires Here(es, c, Flatten(k))
    ensures Kid(es, c + 1, 1) == Kid(es, c + |Flatten(k)|, 0)
  {
    hide Here, Flatten, Forest;
    NodeParts(es, c, k);
    SkipProps(es, c + 1, k.props, 1, []);
    SkipForest(es, c + 1 + |k.props|, k.kids, 1, []);
  }

  lemma KidFound(es: seq<Event>, e: nat)
    requires e < |es| && es[e].Enter?
    ensures Kid(es, e, 0) == Some(e)
  {
  }

  lemma KidsEnd(es: seq<Event>, e: nat)
    requires e < |es| && es[e].Leave?
    ensures Kid(es, e, 0) == None
  {
  }

  /** Position of the first child whose name matches, or the number of children. */
  function MatchKid(ks: seq<Node>, s: seq<Byte>): (i: nat)
    ensures i <= |ks|
    ensures forall j :: 0 <= j < i ==> !NameEq(ks[j].name, s)
    ensures i < |ks| ==> NameEq(ks[i].name, s)
  {
    if ks == [] || NameEq(ks[0].name, s) then 0 else 1 + MatchKid(ks[1..], s)
  }

  /** Looking a child up by name finds the first matching child of the tree node. */
  lemma FindKidInNode(es: seq<Event>, e: nat, n: Node, s: seq<Byte>)
    requires Here(es, e, Flatten(n))
    ensures var i := MatchKid(n.kids, s);
            FindKid(es, e + 1, 0, s) ==
            if i < |n.kids| then Some(e + |Head(n)| + |Forest(n.kids[..i])|) else None
  {
    hide Here, Flatten, NameEq, FindKid, MatchKid, Forest;
    NodeParts(es, e, n);
    SkipProps(es, e + 1, n.props, 0, s);
    var f, i := e + |Head(n)|, MatchKid(n.kids, s);
    FrontHere(es, f, n.kids, i);
    SkipForest(es, f, n.kids[..i], 0, s);
    if i < |n.kids| {
      KidsHere(es, f, n.kids, i);
      NodeParts(es, f + |Forest(n.kids[..i])|, n.kids[i]);
      FindKidHere(es, f + |Forest(n.kids[..i])|, s);
    } else {
      assert n.kids[..i] == n.kids;
      FindKidEnd(es, f + |Forest(n.kids)|, s);
    }
  }

  lemma FrontHere(es: seq<Event>, f: nat, ks: seq<Node>, i: nat)
    requires Here(es, f, Forest(ks)) && i <= |ks|
    ensures Here(es, f, Forest(ks[..i]))
  {
    hide Here, Forest;
    assert ks == ks[..i] + ks[i..];
    ForestConcat(ks[..i], ks[i..]);
    HereSplit(es, f, Forest(ks[..i]), Forest(ks[i..]));
  }

  lemma FindKidHere(es: seq<Event>, e: nat, s: seq<Byte>)
    requires e < |es| && es[e].Enter? && NameEq(es[e].name, s)
    ensures FindKid(es, e, 0, s) == Some(e)
  {
    hide NameEq;
  }

  lemma FindKidEnd(es: seq<Event>, e: nat, s: seq<Byte>)
    requires e < |es| && es[e].Leave?
    ensures FindKid(es, e, 0, s) == None
  {
  }

  /** Position of the first property of that name, or the number of properties. */
  function MatchProp(ps: seq<Prop>, s: seq<Byte>): (i: nat)
    ensures i <= |ps|
    ensures forall j :: 0 <= j < i ==> ps[j].name != s
    ensures i < |ps| ==> ps[i].name == s
  {
    if ps == [] || ps[0].name == s then 0 else 1 + MatchProp(ps[1..], s)
  }

  lemma {:induction false} FindPropFrom(es: seq<Event>, e: nat, ps: seq<Prop>, s: seq<Byte>)
    requires Here(es, e, PropEvents(ps)) && e + |ps| < |es| && (es[e + |ps|].Enter? || es[e + |ps|].Leave?)
    ensures var i := MatchProp(ps, s);
            FindProp(es, e, s) == if i < |ps| then Some(e + i) else None
    decreases |ps|
  {
    hide Here, PropEvents;
    if ps != [] {
      PropsStep(es, e, ps);
      FindPropFrom(es, e + 1, ps[1..], s);
    }
  }

  lemma PropsStep(es: seq<Event>, e: nat, ps: seq<Prop>)
    requires Here(es, e, PropEvents(ps)) && ps != []
    ensures e < |es| && es[e] == Set(ps[0].name, ps[0].value) && Here(es, e + 1, PropEvents(ps[1..]))
  {
    hide Here;
    HereAt(es, e, PropEvents(ps), 0);
    assert PropEvents(ps) == [PropEvents(ps)[0]] + PropEvents(ps[1..]);
    HereSplit(es, e, [PropEvents(ps)[0]], PropEvents(ps[1..]));
  }

  /** Looking a property up by name finds the first one of that name of the tree node. */
  lemma FindPropInNode(es: seq<Event>, e: nat, n: Node, s: seq<Byte>)
    requires Here(es, e, Flatten(n))
    ensures var i := MatchProp(n.props, s);
            FindProp(es, e + 1, s) == if i < |n.props| then Some(e + 1 + i) else None
  {
    hide Here, Flatten;
    NodeParts(es, e, n);
    if n.kids != [] {
      HereSplit(es, e + 1 + |n.props|, Flatten(n.kids[0]), Forest(n.kids[1..]));
      NodeParts(es, e + 1 + |n.props|, n.kids[0]);
    }
    FindPropFrom(es, e + 1, n.props, s);
  }
}
