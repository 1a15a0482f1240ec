/** From bytes replaced between two marks to a tree replaced at a path. */
module Rewrite {
  import opened Bytes
  import opened DeviceTree
  import opened Lexer
  import opened Blob
  import opened Walk
  import opened Traverse
  import opened Splice
  import opened Edit

  /** `o` is the offset of the node at `path` of the tree that the blob holds. */
  predicate NodeOff(b: seq<Byte>, t: Node, path: Path, o: int) {
    Holds(b, t) && ValidPath(t, path) && NodeMark(b, Tokens(t), o, |Before(t, path)|)
  }

  /** The position of a node's events, and what the walks need to know there. */
  lemma NodeOffIs(b: seq<Byte>, t: Node, path: Path, o: int)
    requires NodeOff(b, t, path, o)
    ensures Holds(b, t) && Readable(b) && Ordered(b) && Complete(b) && ValidPath(t, path)
    ensures NodeMark(b, Tokens(t), o, |Before(t, path)|) && 0 <= o <= INT_MAX
    ensures NodeEvents(t, path) && Terminated(Tokens(t))
    ensures var next := CheckTagOffset(Struct(b), o, FDT_BEGIN_NODE);
            o < next <= |Struct(b)| <= INT_MAX && AtMark(b, Tokens(t), next, |Before(t, path)| + 1)
  {
    hide First, Lex, Events, Spells, NextTag, Ordered, Before, Flatten, NodeMark, AtMark, Tokens, NodeEvents,
         Struct;
    NodeMarkIs(b, Tokens(t), o, |Before(t, path)|);
    NodeEventsHold(t, path);
    TokensEnd(t);
  }

  lemma TokensEnd(t: Node)
    ensures Terminated(Tokens(t))
  {
  }

  /** Where the events of the node at `path` are, and that its properties are followed by a node tag. */
  predicate NodeEvents(t: Node, path: Path) {
    ValidPath(t, path) &&
    var es, e := Tokens(t), |Before(t, path)|;
    Terminated(es) && Here(es, e, Flatten(At(t, path))) &&
    e + 1 < |es| && es[e + 1] != Finish && PropsClosed(es, e + 1)
  }

  lemma NodeEventsHold(t: Node, path: Path)
    requires ValidPath(t, path)
    ensures NodeEvents(t, path)
  {
    hide Flatten, Before, Here;
    var es, e, n := Tokens(t), |Before(t, path)|, At(t, path);
    NodeHere(t, path);
    NodeParts(es, e, n);
    var f := e + 1 + |n.props|;
    if n.kids != [] {
      HereSplit(es, f, Flatten(n.kids[0]), Forest(n.kids[1..]));
      NodeParts(es, f, n.kids[0]);
    }
    PropsCloseAt(es, e + 1, n.props);
  }

  lemma {:induction false} PropsCloseAt(es: seq<Event>, e: nat, ps: seq<Prop>)
    requires Here(es, e, PropEvents(ps)) && e + |ps| < |es| && (es[e + |ps|].Enter? || es[e + |ps|].Leave?)
    ensures PropsClosed(es, e) && es[e] != Finish
    decreases |ps|
  {
    hide Here;
    if ps != [] {
      HereAt(es, e, PropEvents(ps), 0);
      assert PropEvents(ps) == [PropEvents(ps)[0]] + PropEvents(ps[1..]);
      HereSplit(es, e, [PropEvents(ps)[0]], PropEvents(ps[1..]));
      PropsCloseAt(es, e + 1, ps[1..]);
    }
  }

  // ------------------------------------------------------ replacing a stretch

  /** The bytes of `b'` from `o` to `p2` stand where those of `b` from `o` to `o2` stood. */
  predicate Replaced(b: seq<Byte>, b': seq<Byte>, o: nat, o2: nat, p2: nat) {
    Frame(b, b') && o <= o2 <= |Struct(b)| && o <= p2 <= |Struct(b')| &&
    Struct(b')[..o] == Struct(b)[..o] && Struct(b')[p2..] == Struct(b)[o2..]
  }

  /** Items of known events in place of a stretch of a blob's events. */
  lemma ReplacedEvents(b: seq<Byte>, es: seq<Event>, b': seq<Byte>, o: nat, e: nat, o2: nat, e2: nat, p2: nat,
                       items: seq<Item>)
    requires AtMark(b, es, o, e) && AtMark(b, es, o2, e2) && e <= e2 && Replaced(b, b', o, o2, p2)
    requires Lex(Struct(b')[o..p2]) == Some(items)
    ensures var es' := es[..e] + Events(items, Strings(b)) + es[e2..];
            Spelled(b', es') && AtMark(b', es', o, e) && AtMark(b', es', p2, e + |Events(items, Strings(b))|)
  {
    hide Lex, Events, Ordered, Ld32, Mark;
    MarkReplace(Struct(b), Strings(b), es, o, e, o2, e2, Struct(b'), p2, items);
  }

  /** The same, for one node of the tree. */
  lemma ReplacedTree(b: seq<Byte>, t: Node, path: Path, n': Node, p: seq<Event>, q: seq<Event>, q': seq<Event>,
                     r: seq<Event>,
                     b': seq<Byte>, o: nat, o2: nat, p2: nat, items: seq<Item>)
    requires Holds(b, t) && ValidPath(t, path) && Flatten(At(t, path)) == p + q + r && Flatten(n') == p + q' + r
    requires AtMark(b, Tokens(t), o, |Before(t, path)| + |p|)
    requires AtMark(b, Tokens(t), o2, |Before(t, path)| + |p| + |q|)
    requires Replaced(b, b', o, o2, p2) && Lex(Struct(b')[o..p2]) == Some(items) && Events(items, Strings(b)) == q'
    ensures ValidPath(Put(t, path, n'), path) && Before(Put(t, path, n'), path) == Before(t, path)
    ensures Holds(b', Put(t, path, n'))
    ensures AtMark(b', Tokens(Put(t, path, n')), o, |Before(t, path)| + |p|)
    ensures AtMark(b', Tokens(Put(t, path, n')), p2, |Before(t, path)| + |p| + |q'|)
  {
    hide Lex, Events, Ordered, Ld32, Flatten, Before, AtMark, Put, At;
    TokensAfter(t, path, n', p, q, q', r);
    PutAt(t, path, n');
    FrameComplete(b, b');
    ReplacedEvents(b, Tokens(t), b', o, |Before(t, path)| + |p|, o2, |Before(t, path)| + |p| + |q|, p2, items);
  }

  /** The structure block is the same up to `c`. */
  predicate SameUpTo(b: seq<Byte>, b': seq<Byte>, c: nat) {
    Readable(b) && Readable(b') && c <= |Struct(b)| && c <= |Struct(b')| && Struct(b')[..c] == Struct(b)[..c]
  }

  /** A node whose opening tag lies in the part that stays keeps its offset. */
  lemma NodeKept(b: seq<Byte>, t: Node, path: Path, o: int, b': seq<Byte>, t': Node, c: nat)
    requires NodeOff(b, t, path, o) && Holds(b', t') && SameUpTo(b, b', c)
    requires CheckTagOffset(Struct(b), o, FDT_BEGIN_NODE) <= c
    requires ValidPath(t', path) && Before(t', path) == Before(t, path) && Strings(b) <= Strings(b')
    ensures NodeOff(b', t', path, o)
    ensures CheckTagOffset(Struct(b'), o, FDT_BEGIN_NODE) == CheckTagOffset(Struct(b), o, FDT_BEGIN_NODE)
  {
    hide Before, Flatten, NextTag, Lex, Events, Ordered, Ld32, First, Mark, Spells;
    var es, es', e := Tokens(t), Tokens(t'), |Before(t, path)|;
    var st, st' := Struct(b), Struct(b');
    NodeStep(b, es, o, e);
    AtStep(b, es, o, e);
    NodeHere(t, path);
    NodeHere(t', path);
    PlainTokens(t);
    MarkKept(st, Strings(b), es, st', Strings(b'), es', o, e, c);
    ItemKept(st, st', o, c, ItemOf(b, o));
    NodeParts(es', e, At(t', path));
  }

  lemma PlainTokens(t: Node)
    ensures Dangling !in Tokens(t)
  {
    PlainEvents(t);
  }

  lemma MarkKept(st: seq<Byte>, ss: seq<Byte>, es: seq<Event>, st': seq<Byte>, ss': seq<Byte>, es': seq<Event>,
                 o: int, e: int, c: nat)
    requires Mark(st, ss, es, o, e) && o <= c <= |st| && c <= |st'| && st'[..c] == st[..c]
    requires ss <= ss' && Dangling !in es
    requires Lex(st').Some? && Events(Lex(st').value, ss') == es' && e <= |es'| && es'[..e] == es[..e]
    ensures Mark(st', ss', es', o, e)
  {
    hide Lex, Events;
    PrefixFront(st, c, o);
    PrefixFront(st', c, o);
    MarkAt(st', ss', o);
    PrefixEvents(Lex(st[..o]).value, ss, ss', es[..e]);
  }

  lemma ItemKept(st: seq<Byte>, st': seq<Byte>, o: nat, c: nat, it: Item)
    requires o % 4 == 0 && o + it.Size() <= c <= |st| && c <= |st'| && st'[..c] == st[..c] && Spells(st[o..], it)
    ensures First(st'[o..]) == Some(it) && NextTag(st', o) == Step(it.Tag(), o + it.Size()) && Spells(st'[o..], it)
  {
    hide First, Spells, NextTag;
    var n := it.Size();
    SuffixFront(st, o, n);
    SuffixFront(st', o, n);
    PrefixSlice(st, c, o, o + n);
    PrefixSlice(st', c, o, o + n);
    SpellsSame(st[o..], st'[o..], it);
    FirstIs(st'[o..], it);
    NextTagSpelled(st', o, it);
  }

  lemma PrefixEvents(items: seq<Item>, ss: seq<Byte>, ss': seq<Byte>, es: seq<Event>)
    requires ss <= ss' && Events(items, ss) == es && Dangling !in es
    ensures Events(items, ss') == es
  {
    hide Events;
    assert ss' == ss + ss'[|ss|..];
    EventsGrow(items, ss, ss'[|ss|..]);
  }

  /** A blob whose strings have grown holds the same tree, with every node where it was. */
  lemma GrownHolds(b: seq<Byte>, b': seq<Byte>, more: seq<Byte>, t: Node)
    requires Holds(b, t) && Grown(b, b', more)
    ensures Holds(b', t) && SameUpTo(b, b', |Struct(b)|) && Strings(b) <= Strings(b')
  {
    hide Lex, Events, Ordered, Ld32, Flatten;
    PlainTokens(t);
    EventsGrow(Lex(Struct(b)).value, Strings(b), more);
  }
}
