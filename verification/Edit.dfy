/** The edits as functions on trees, and what each of them changes. */
module Edit {
  import opened Bytes
  import opened DeviceTree
  import opened Walk

  /** The value of a property, if the node has one of that name. */
  function Lookup(n: Node, name: seq<Byte>): Option<seq<Byte>> {
    var i := MatchProp(n.props, name);
    if i < |n.props| then Some(n.props[i].value) else None
  }

  /** `fdt_setprop`: replace the value in place, or add the property in front. */
  function SetProp(n: Node, name: seq<Byte>, value: seq<Byte>): Node {
    var i := MatchProp(n.props, name);
    n.(props := if i < |n.props| then n.props[i := Prop(name, value)] else [Prop(name, value)] + n.props)
  }

  /** `fdt_appendprop` */
  function AppendProp(n: Node, name: seq<Byte>, value: seq<Byte>): Node {
    match Lookup(n, name)
    case Some(v) => SetProp(n, name, v + value)
    case None => SetProp(n, name, value)
  }

  /** `fdt_delprop` of property `i` */
  function DropProp(n: Node, i: nat): Node
    requires i < |n.props|
  {
    n.(props := n.props[..i] + n.props[i + 1..])
  }

  /** `fdt_add_subnode`: the new child comes first. */
  function AddKid(n: Node, k: Node): Node {
    n.(kids := [k] + n.kids)
  }

  /** `fdt_del_node` of child `i` */
  function DropKid(n: Node, i: nat): Node
    requires i < |n.kids|
  {
    n.(kids := n.kids[..i] + n.kids[i + 1..])
  }

  lemma MatchPropIs(ps: seq<Prop>, s: seq<Byte>, i: nat)
    requires i <= |ps| && (i < |ps| ==> ps[i].name == s) && forall j :: 0 <= j < i ==> ps[j].name != s
    ensures MatchProp(ps, s) == i
  {
  }

  /** After a set, that name has the new value and every other name the old one. */
  lemma SetPropLookup(n: Node, name: seq<Byte>, value: seq<Byte>, other: seq<Byte>)
    ensures Lookup(SetProp(n, name, value), other) == if other == name then Some(value) else Lookup(n, other)
  {
    hide MatchProp;
    var i, j := MatchProp(n.props, name), MatchProp(n.props, other);
    var ps := SetProp(n, name, value).props;
    if i < |n.props| {
      MatchPropIs(ps, other, j);
    } else if other == name {
      MatchPropIs(ps, other, 0);
    } else {
      MatchPropIs(ps, other, j + 1);
    }
  }

  /** After an append the value has the new bytes behind the old ones, and every other name its old value. */
  lemma AppendPropLookup(n: Node, name: seq<Byte>, value: seq<Byte>, other: seq<Byte>)
    ensures Lookup(AppendProp(n, name, value), other) ==
            if other != name then Lookup(n, other)
            else match Lookup(n, name) case Some(v) => Some(v + value) case None => Some(value)
    ensures AppendProp(n, name, value).kids == n.kids && AppendProp(n, name, value).name == n.name
  {
    hide Lookup;
    match Lookup(n, name)
    case Some(v) => SetPropLookup(n, name, v + value, other);
    case None => SetPropLookup(n, name, value, other);
  }

  /** After a deletion every other name has its value, and this name the value of the next property of that name. */
  lemma DropPropLookup(n: Node, name: seq<Byte>, other: seq<Byte>)
    requires MatchProp(n.props, name) < |n.props|
    ensures var i := MatchProp(n.props, name);
            Lookup(DropProp(n, i), other) ==
            if other != name then Lookup(n, other) else Lookup(n.(props := n.props[i + 1..]), name)
  {
    hide MatchProp;
    var i, ps := MatchProp(n.props, name), n.props;
    if other != name {
      DropOther(ps, i, other);
    } else {
      DropSame(ps, i, name);
    }
  }

  lemma DropOther(ps: seq<Prop>, i: nat, other: seq<Byte>)
    requires i < |ps| && ps[i].name != other
    ensures var qs, j := ps[..i] + ps[i + 1..], MatchProp(ps, other);
            MatchProp(qs, other) == (if j < i then j else j - 1) &&
            (j < |ps| ==> qs[if j < i then j else j - 1] == ps[j])
  {
    hide MatchProp;
    var j := MatchProp(ps, other);
    MatchPropIs(ps[..i] + ps[i + 1..], other, if j < i then j else j - 1);
  }

  lemma DropSame(ps: seq<Prop>, i: nat, name: seq<Byte>)
    requires i < |ps| && forall j :: 0 <= j < i ==> ps[j].name != name
    ensures var qs, j := ps[..i] + ps[i + 1..], MatchProp(ps[i + 1..], name);
            MatchProp(qs, name) == i + j && (i + j < |qs| ==> qs[i + j] == ps[i + 1..][j])
  {
    hide MatchProp;
    MatchPropIs(ps[..i] + ps[i + 1..], name, i + MatchProp(ps[i + 1..], name));
  }

  lemma SetPropKids(n: Node, name: seq<Byte>, value: seq<Byte>)
    ensures SetProp(n, name, value).kids == n.kids && SetProp(n, name, value).name == n.name
  {
  }

  /** Setting what is already set changes nothing. */
  lemma SetPropSame(n: Node, name: seq<Byte>, value: seq<Byte>)
    requires Lookup(n, name) == Some(value)
    ensures SetProp(n, name, value) == n
  {
    var i := MatchProp(n.props, name);
    assert n.props[i] == Prop(name, value);
  }

  // ------------------------------------------------- edits of event sequences

  function Tokens(t: Node): seq<Event> {
    Flatten(t) + [Finish]
  }

  /** Replacing a stretch of one node's events replaces it in the tree's events. */
  lemma TokensAfter(t: Node, path: Path, n': Node, p: seq<Event>, q: seq<Event>, q': seq<Event>, r: seq<Event>)
    requires ValidPath(t, path) && Flatten(At(t, path)) == p + q + r && Flatten(n') == p + q' + r
    ensures var e := |Before(t, path)| + |p|;
            e + |q| <= |Tokens(t)| && Tokens(Put(t, path, n')) == Tokens(t)[..e] + q' + Tokens(t)[e + |q|..]
    ensures |Before(t, path)| + |p + q + r| <= |Tokens(t)|
  {
    hide Flatten, Before, After, Put, At;
    FlattenAt(t, path);
    PutAt(t, path, n');
    FlattenAt(Put(t, path, n'), path);
    Around(Before(t, path), p, q, q', r, After(t, path), [Finish]);
  }

  lemma Around(b: seq<Event>, p: seq<Event>, q: seq<Event>, q': seq<Event>, r: seq<Event>, a: seq<Event>, f: seq<Event>)
    ensures var es := b + (p + q + r) + a + f;
            var e := |b| + |p|;
            b + (p + q' + r) + a + f == es[..e] + q' + es[e + |q|..]
  {
    var es := b + (p + q + r) + a + f;
    var e := |b| + |p|;
    assert es[..e] == b + p;
    assert es[e + |q|..] == r + a + f;
  }

  lemma NodeHere(t: Node, path: Path)
    requires ValidPath(t, path)
    ensures Here(Tokens(t), |Before(t, path)|, Flatten(At(t, path)))
    ensures Tokens(t)[..|Before(t, path)|] == Before(t, path)
  {
    hide Flatten, Before, After, At;
    FlattenAt(t, path);
    var b, x, a := Before(t, path), Flatten(At(t, path)), After(t, path);
    assert Tokens(t) == b + (x + (a + [Finish]));
    assert Tokens(t)[|b|..|b| + |x|] == x;
  }

  // The decomposition of a node's events for each edit.

  lemma PropSplit(n: Node, i: nat, p: Prop)
    requires i < |n.props|
    ensures var h, r := [Enter(n.name)] + PropEvents(n.props[..i]),
            PropEvents(n.props[i + 1..]) + Forest(n.kids) + [Leave];
            Flatten(n) == h + [Set(n.props[i].name, n.props[i].value)] + r &&
            Flatten(n.(props := n.props[i := p])) == h + [Set(p.name, p.value)] + r &&
            Flatten(DropProp(n, i)) == h + [] + r
  {
    hide Forest, PropEvents;
    var x := [Enter(n.name)];
    var a, c := PropEvents(n.props[..i]), PropEvents(n.props[i + 1..]);
    PropEventsAround(n.props, i, p);
    Shuffle(x, a, [Set(n.props[i].name, n.props[i].value)], c, Forest(n.kids), [Leave]);
    Shuffle(x, a, [Set(p.name, p.value)], c, Forest(n.kids), [Leave]);
    Shuffle(x, a, [], c, Forest(n.kids), [Leave]);
  }

  lemma PropEventsAround(ps: seq<Prop>, i: nat, p: Prop)
    requires i < |ps|
    ensures var a, c := PropEvents(ps[..i]), PropEvents(ps[i + 1..]);
            PropEvents(ps) == a + [Set(ps[i].name, ps[i].value)] + c &&
            PropEvents(ps[i := p]) == a + [Set(p.name, p.value)] + c &&
            PropEvents(ps[..i] + ps[i + 1..]) == a + [] + c
  {
    hide PropEvents;
    var a, c := ps[..i], ps[i + 1..];
    assert ps == a + ([ps[i]] + c) && ps[i := p] == a + ([p] + c);
    PropEventsThree(a, ps[i], c);
    PropEventsThree(a, p, c);
    PropEventsConcat(a, c);
    assert PropEvents(a) + [] == PropEvents(a);
  }

  lemma PropEventsThree(a: seq<Prop>, p: Prop, c: seq<Prop>)
    ensures PropEvents(a + ([p] + c)) == PropEvents(a) + [Set(p.name, p.value)] + PropEvents(c)
  {
    PropEventsConcat(a, [p] + c);
    PropEventsConcat([p], c);
    assert PropEvents([p]) == [Set(p.name, p.value)];
    hide PropEvents;
    Assoc(PropEvents(a), [Set(p.name, p.value)], PropEvents(c));
  }

  lemma PropEventsConcat(a: seq<Prop>, b: seq<Prop>)
    ensures PropEvents(a + b) == PropEvents(a) + PropEvents(b)
  {
    var l, r := PropEvents(a + b), PropEvents(a) + PropEvents(b);
    assert |l| == |r| && forall i :: 0 <= i < |l| ==> l[i] == r[i];
  }

  lemma Shuffle(x: seq<Event>, a: seq<Event>, s: seq<Event>, c: seq<Event>, f: seq<Event>, l: seq<Event>)
    ensures (x + (a + s + c)) + f + l == (x + a) + s + (c + f + l)
  {
  }

  lemma PropFront(n: Node, p: Prop)
    ensures var r := PropEvents(n.props) + Forest(n.kids) + [Leave];
            Flatten(n) == [Enter(n.name)] + [] + r &&
            Flatten(n.(props := [p] + n.props)) == [Enter(n.name)] + [Set(p.name, p.value)] + r
  {
    hide Forest;
    var ps := [p] + n.props;
    assert PropEvents(ps) == [Set(p.name, p.value)] + PropEvents(n.props);
    assert ([Enter(n.name)] + ([Set(p.name, p.value)] + PropEvents(n.props))) + Forest(n.kids) + [Leave]
        == [Enter(n.name)] + [Set(p.name, p.value)] + (PropEvents(n.props) + Forest(n.kids) + [Leave]);
    assert [Enter(n.name)] + [] == [Enter(n.name)];
    assert ([Enter(n.name)] + PropEvents(n.props)) + Forest(n.kids) + [Leave]
        == [Enter(n.name)] + (PropEvents(n.props) + Forest(n.kids) + [Leave]);
  }

  lemma NameSplit(n: Node, name: seq<Byte>)
    ensures var r := PropEvents(n.props) + Forest(n.kids) + [Leave];
            Flatten(n) == [] + [Enter(n.name)] + r && Flatten(n.(name := name)) == [] + [Enter(name)] + r
  {
    hide Forest;
    var r := PropEvents(n.props) + Forest(n.kids) + [Leave];
    assert ([Enter(n.name)] + PropEvents(n.props)) + Forest(n.kids) + [Leave] == [] + [Enter(n.name)] + r;
    assert ([Enter(name)] + PropEvents(n.props)) + Forest(n.kids) + [Leave] == [] + [Enter(name)] + r;
  }

  lemma KidFront(n: Node, k: Node)
    ensures var r := Forest(n.kids) + [Leave];
            Flatten(n) == Head(n) + [] + r && Flatten(AddKid(n, k)) == Head(n) + Flatten(k) + r
  {
    var ks := [k] + n.kids;
    ForestConcat([k], n.kids);
    ForestOne(k);
    assert Head(AddKid(n, k)) == Head(n);
    assert Forest(ks) == Flatten(k) + Forest(n.kids);
    hide Flatten;
    assert Head(n) + (Flatten(k) + Forest(n.kids)) + [Leave] == Head(n) + Flatten(k) + (Forest(n.kids) + [Leave]);
    assert Head(n) + Forest(n.kids) + [Leave] == Head(n) + [] + (Forest(n.kids) + [Leave]);
  }

  lemma KidSplit(n: Node, i: nat)
    requires i < |n.kids|
    ensures var p, r := Head(n) + Forest(n.kids[..i]), Forest(n.kids[i + 1..]) + [Leave];
            Flatten(n) == p + Flatten(n.kids[i]) + r && Flatten(DropKid(n, i)) == p + [] + r
  {
    hide Forest;
    var a, c := n.kids[..i], n.kids[i + 1..];
    ForestAround(n.kids, i);
    ForestConcat(a, c);
    HeadKids(n, a + c);
    var x := Flatten(n.kids[i]);
    hide Flatten, Head;
    Enclose(Head(n), Forest(a), x, Forest(c), [Leave]);
    Enclose(Head(n), Forest(a), [], Forest(c), [Leave]);
    assert Forest(a) + [] + Forest(c) == Forest(a) + Forest(c);
  }

  lemma HeadKids(n: Node, ks: seq<Node>)
    ensures Flatten(n.(kids := ks)) == Head(n) + Forest(ks) + [Leave]
    ensures Flatten(n) == Head(n) + Forest(n.kids) + [Leave]
  {
    hide Forest;
  }

  lemma Enclose(h: seq<Event>, a: seq<Event>, x: seq<Event>, c: seq<Event>, l: seq<Event>)
    ensures h + (a + x + c) + l == (h + a) + x + (c + l)
  {
  }
}
