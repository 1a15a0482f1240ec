/**
 The abstract value of a blob: a tree of named nodes with properties, its flattening to
 the event sequence that the structure block spells out, and addressing by path.
 */
module DeviceTree {
  import opened Bytes

  datatype Prop = Prop(name: seq<Byte>, value: seq<Byte>)
  datatype Node = Node(name: seq<Byte>, props: seq<Prop>, kids: seq<Node>)

  /** `Dangling` is a property whose name offset does not denote a string. */
  datatype Event = Enter(name: seq<Byte>) | Leave | Set(name: seq<Byte>, value: seq<Byte>) | Dangling | Finish

  /** Child indices from the root down. */
  type Path = seq<nat>

  function PropEvents(ps: seq<Prop>): (r: seq<Event>)
    ensures |r| == |ps| && forall i :: 0 <= i < |ps| ==> r[i] == Set(ps[i].name, ps[i].value)
  {
    seq(|ps|, i requires 0 <= i < |ps| => Set(ps[i].name, ps[i].value))
  }

  function Head(n: Node): (r: seq<Event>)
  {
    [Enter(n.name)] + PropEvents(n.props)
  }

  function Flatten(n: Node): (r: seq<Event>)
    decreases n, 1
  {
    Head(n) + Forest(n.kids) + [Leave]
  }

  function Forest(ks: seq<Node>): (r: seq<Event>)
    decreases ks, 0
  {
    if ks == [] then [] else Flatten(ks[0]) + Forest(ks[1..])
  }

  lemma {:induction false} ForestConcat(a: seq<Node>, b: seq<Node>)
    ensures Forest(a + b) == Forest(a) + Forest(b)
  {
    if a == [] {
      assert a + b == b;
    } else {
      assert (a + b)[1..] == a[1..] + b;
      ForestConcat(a[1..], b);
    }
  }

  lemma ForestOne(n: Node)
    ensures Forest([n]) == Flatten(n)
  {
    assert [n][1..] == [];
  }

  lemma ForestSnoc(ks: seq<Node>, i: nat)
    requires i < |ks|
    ensures Forest(ks[..i + 1]) == Forest(ks[..i]) + Flatten(ks[i])
  {
    hide Flatten, Forest;
    assert ks[..i + 1] == ks[..i] + [ks[i]];
    ForestConcat(ks[..i], [ks[i]]);
    ForestOne(ks[i]);
  }

  /** The forest around child `i`. */
  lemma {:induction false} ForestAround(ks: seq<Node>, i: nat)
    requires i < |ks|
    ensures Forest(ks) == Forest(ks[..i]) + Flatten(ks[i]) + Forest(ks[i + 1..])
  {
    var l, r := ks[..i], ks[i..];
    assert ks == l + r;
    ForestConcat(l, r);
    assert r[0] == ks[i] && r[1..] == ks[i + 1..];
    assert Forest(r) == Flatten(ks[i]) + Forest(ks[i + 1..]);
  }

  /** A tree spells out only nodes and named properties. */
  lemma {:induction false} PlainEvents(n: Node)
    ensures Dangling !in Flatten(n) && Finish !in Flatten(n)
    decreases n, 1
  {
    PlainForest(n.kids);
  }

  lemma {:induction false} PlainForest(ks: seq<Node>)
    ensures Dangling !in Forest(ks) && Finish !in Forest(ks)
    decreases ks, 0
  {
    if ks != [] {
      PlainEvents(ks[0]);
      PlainForest(ks[1..]);
    }
  }

  // ------------------------------------------------------------------ paths

  predicate ValidPath(t: Node, path: Path) {
    path == [] || (path[0] < |t.kids| && ValidPath(t.kids[path[0]], path[1..]))
  }

  function At(t: Node, path: Path): Node {
    if path == [] || path[0] >= |t.kids| then t else At(t.kids[path[0]], path[1..])
  }

  /** The tree with the node at `path` replaced by `n`. */
  function Put(t: Node, path: Path, n: Node): Node {
    if path == [] || path[0] >= |t.kids| then n
    else t.(kids := t.kids[path[0] := Put(t.kids[path[0]], path[1..], n)])
  }

  /** The events before the node at `path`. */
  function Before(t: Node, path: Path): seq<Event> {
    if path == [] || path[0] >= |t.kids| then []
    else Head(t) + Forest(t.kids[..path[0]]) + Before(t.kids[path[0]], path[1..])
  }

  /** The events after the node at `path`. */
  function After(t: Node, path: Path): seq<Event> {
    if path == [] || path[0] >= |t.kids| then []
    else After(t.kids[path[0]], path[1..]) + Forest(t.kids[path[0] + 1..]) + [Leave]
  }

  lemma Assoc<T>(a: seq<T>, b: seq<T>, c: seq<T>)
    ensures (a + b) + c == a + (b + c)
  {
  }

  lemma Regroup(h: seq<Event>, l: seq<Event>, b: seq<Event>, x: seq<Event>, a: seq<Event>, r: seq<Event>, e: seq<Event>)
    ensures h + (l + (b + x + a) + r) + e == (h + l + b) + x + (a + r + e)
  {
  }

  /** A tree flattens to what precedes a node, the node, and what follows it. */
  lemma {:induction false} FlattenAt(t: Node, path: Path)
    requires ValidPath(t, path)
    ensures Flatten(t) == Before(t, path) + Flatten(At(t, path)) + After(t, path)
  {
    if path == [] {
      assert Flatten(t) == [] + Flatten(t) + [];
    } else {
      var i, k := path[0], t.kids[path[0]];
      FlattenAt(k, path[1..]);
      ForestAround(t.kids, i);
      Regroup(Head(t), Forest(t.kids[..i]), Before(k, path[1..]), Flatten(At(t, path)), After(k, path[1..]),
              Forest(t.kids[i + 1..]), [Leave]);
    }
  }

  /** Replacing a node keeps its path and everything around it. */
  lemma {:induction false} PutAt(t: Node, path: Path, n: Node)
    requires ValidPath(t, path)
    ensures var t' := Put(t, path, n);
            ValidPath(t', path) && At(t', path) == n &&
            Before(t', path) == Before(t, path) && After(t', path) == After(t, path)
  {
    if path != [] {
      var k := t.kids[path[0]];
      PutAt(k, path[1..], n);
      var t' := Put(t, path, n);
      assert t'.kids[..path[0]] == t.kids[..path[0]];
      assert t'.kids[path[0] + 1..] == t.kids[path[0] + 1..];
    }
  }

  lemma {:induction false} PutSame(t: Node, path: Path)
    requires ValidPath(t, path)
    ensures Put(t, path, At(t, path)) == t
  {
    if path != [] {
      PutSame(t.kids[path[0]], path[1..]);
    }
  }

  lemma {:induction false} PutTwice(t: Node, path: Path, a: Node, b: Node)
    requires ValidPath(t, path)
    ensures ValidPath(Put(t, path, a), path)
    ensures Put(Put(t, path, a), path, b) == Put(t, path, b)
  {
    PutAt(t, path, a);
    if path != [] {
      PutTwice(t.kids[path[0]], path[1..], a, b);
    }
  }

  /** An edit of the node that an earlier edit already replaced. */
  lemma PutAgain(t: Node, path: Path, a: Node, c: Node)
    requires ValidPath(t, path)
    ensures ValidPath(Put(t, path, a), path) && At(Put(t, path, a), path) == a &&
            Put(Put(t, path, a), path, c) == Put(t, path, c)
    ensures Before(Put(t, path, a), path) == Before(t, path)
  {
    hide Put, At, Before;
    PutAt(t, path, a);
    PutTwice(t, path, a, c);
  }

  /** Stepping from a node to its child `i`. */
  lemma {:induction false} ChildAt(t: Node, path: Path, i: nat)
    requires ValidPath(t, path) && i < |At(t, path).kids|
    ensures ValidPath(t, path + [i]) && At(t, path + [i]) == At(t, path).kids[i]
    ensures Before(t, path + [i]) == Before(t, path) + (Head(At(t, path)) + Forest(At(t, path).kids[..i]))
    ensures After(t, path + [i]) == (Forest(At(t, path).kids[i + 1..]) + [Leave]) + After(t, path)
  {
    var n := At(t, path);
    var l, r := Head(n) + Forest(n.kids[..i]), Forest(n.kids[i + 1..]) + [Leave];
    if path == [] {
      assert path + [i] == [i] && [i][1..] == [];
      assert l + [] == l && [] + r == r;
    } else {
      var j, k, rest := path[0], t.kids[path[0]], path[1..];
      assert (path + [i])[1..] == rest + [i] && (path + [i])[0] == j;
      ChildAt(k, rest, i);
      Assoc(Head(t) + Forest(t.kids[..j]), Before(k, rest), l);
      Assoc(r, After(k, rest), Forest(t.kids[j + 1..]));
      Assoc(r, After(k, rest) + Forest(t.kids[j + 1..]), [Leave]);
    }
  }

  lemma KidNode(t: Node, path: Path, i: nat)
    requires ValidPath(t, path) && i < |At(t, path).kids|
    ensures At(t, path + [i]) == At(t, path).kids[i]
  {
    hide At, Before;
    ChildAt(t, path, i);
  }

  /** Replacing child `i` of the node at `path`, seen from the node. */
  lemma {:induction false} PutChild(t: Node, path: Path, i: nat, n: Node)
    requires ValidPath(t, path) && i < |At(t, path).kids|
    ensures ValidPath(t, path + [i])
    ensures Put(t, path + [i], n) == Put(t, path, At(t, path).(kids := At(t, path).kids[i := n]))
  {
    ChildAt(t, path, i);
    if path == [] {
      assert path + [i] == [i] && [i][1..] == [];
    } else {
      assert (path + [i])[1..] == path[1..] + [i] && (path + [i])[0] == path[0];
      PutChild(t.kids[path[0]], path[1..], i, n);
    }
  }

  // ---------------------------------------------------------------- parsing

  datatype Parsed<T> = Parsed(value: T, rest: seq<Event>) | Malformed

  /** The properties at the front of `es`. */
  function ParseProps(es: seq<Event>): (r: (seq<Prop>, seq<Event>))
    ensures |r.1| <= |es|
  {
    if es != [] && es[0].Set? then
      var r := ParseProps(es[1..]);
      ([Prop(es[0].name, es[0].value)] + r.0, r.1)
    else ([], es)
  }

  function ParseNode(es: seq<Event>): (r: Parsed<Node>)
    ensures r.Parsed? ==> |r.rest| < |es|
    decreases |es|, 0
  {
    if es == [] || !es[0].Enter? then Malformed
    else
      var ps := ParseProps(es[1..]);
      var ks := ParseForest(ps.1);
      if ks.Malformed? || ks.rest == [] || !ks.rest[0].Leave? then Malformed
      else Parsed(Node(es[0].name, ps.0, ks.value), ks.rest[1..])
  }

  function ParseForest(es: seq<Event>): (r: Parsed<seq<Node>>)
    ensures r.Parsed? ==> |r.rest| <= |es|
    decreases |es|, 1
  {
    if es == [] || !es[0].Enter? then Parsed([], es)
    else
      var n := ParseNode(es);
      if n.Malformed? then Malformed
      else
        var ks := ParseForest(n.rest);
        if ks.Malformed? then Malformed else Parsed([n.value] + ks.value, ks.rest)
  }

  lemma {:induction false} ParsePropsOf(ps: seq<Prop>, rest: seq<Event>)
    requires rest == [] || !rest[0].Set?
    ensures ParseProps(PropEvents(ps) + rest) == (ps, rest)
  {
    var es := PropEvents(ps) + rest;
    if ps == [] {
      assert es == rest;
    } else {
      assert es[0] == PropEvents(ps)[0] && es[1..] == PropEvents(ps[1..]) + rest;
      ParsePropsOf(ps[1..], rest);
      assert [ps[0]] + ps[1..] == ps;
    }
  }

  /** Parsing inverts flattening. */
  lemma {:induction false} ParseFlatten(n: Node, rest: seq<Event>)
    ensures ParseNode(Flatten(n) + rest) == Parsed(n, rest)
    decreases n, 1
  {
    var es := Flatten(n) + rest;
    var tail := Forest(n.kids) + ([Leave] + rest);
    assert es[1..] == PropEvents(n.props) + tail;
    assert tail[0] == Leave || tail[0].Enter? by {
      if n.kids == [] {
        assert tail == [Leave] + rest;
      } else {
        assert tail[0] == Flatten(n.kids[0])[0];
      }
    }
    ParsePropsOf(n.props, tail);
    ParseForestOf(n.kids, [Leave] + rest);
    assert ([Leave] + rest)[1..] == rest;
  }

  lemma {:induction false} ParseForestOf(ks: seq<Node>, rest: seq<Event>)
    requires rest == [] || !rest[0].Enter?
    ensures ParseForest(Forest(ks) + rest) == Parsed(ks, rest)
    decreases ks, 0
  {
    if ks == [] {
      assert Forest(ks) + rest == rest;
    } else {
      assert Forest(ks) + rest == Flatten(ks[0]) + (Forest(ks[1..]) + rest);
      ParseFlatten(ks[0], Forest(ks[1..]) + rest);
      ParseForestOf(ks[1..], rest);
      assert [ks[0]] + ks[1..] == ks;
    }
  }

  /** The tree spelled out by a complete event sequence. */
  function Decode(es: seq<Event>): Option<Node> {
    match ParseNode(es)
    case Malformed => None
    case Parsed(n, rest) => if rest == [Finish] then Some(n) else None
  }

  /** Every tree is recovered from its events, so no two trees share them. */
  lemma DecodeFlatten(t: Node)
    ensures Decode(Flatten(t) + [Finish]) == Some(t)
  {
    ParseFlatten(t, [Finish]);
  }
}
