/** Writing over a value where it lies moves nothing: every node and every property keeps its offset. */
module InPlace {
  import opened Bytes
  import opened DeviceTree
  import opened Lexer
  import opened Blob
  import opened Traverse
  import opened Splice
  import opened Edit
  import opened Rewrite
  import opened ReadWrite

  // ---------------------------------------------------------------------- bytes

  /** The bytes of one item, of `z` bytes at `po`, were replaced. */
  predicate Swapped(st: seq<Byte>, st': seq<Byte>, po: nat, z: nat) {
    0 < z && po + z <= |st| == |st'| && st'[..po] == st[..po] && st'[po + z..] == st[po + z..]
  }

  lemma LexFirstOf(x: seq<Byte>, rest: seq<Byte>)
    requires x != [] && Lex(x).Some?
    ensures First(x).Some? && First(x + rest) == First(x) && First(x).value.Size() <= |x|
  {
    hide First, Item.Size, Spells;
    FirstOfConcat(x, rest);
    FirstSpells(x);
    SpellsSize(x, First(x).value);
  }

  /** What lies between two marks is spelled. */
  lemma LexBetween(st: seq<Byte>, lo: nat, hi: nat)
    requires lo <= hi <= |st| && Lex(st[..lo]).Some? && Lex(st[..hi]).Some?
    ensures Lex(st[lo..hi]).Some? && Lex(st[..hi]).value == Lex(st[..lo]).value + Lex(st[lo..hi]).value
  {
    hide Lex;
    assert st[..hi] == st[..lo] + st[lo..hi];
    LexConcat(st[..lo], st[lo..hi]);
  }

  /** No mark lies inside an item. */
  lemma MarkOutside(st: seq<Byte>, po: nat, z: nat, o: nat)
    requires po < |st| && o <= |st| && Lex(st[..po]).Some? && Lex(st[..o]).Some? && First(st[po..]).Some? &&
             First(st[po..]).value.Size() == z
    ensures o <= po || po + z <= o
  {
    hide Lex, First, Item.Size;
    if po < o {
      LexBetween(st, po, o);
      LexFirstOf(st[po..o], st[o..]);
      assert st[po..] == st[po..o] + st[o..];
    }
  }

  /** A mark of the old bytes is a mark of the new ones, with as many events before it. */
  lemma MarkSwapped(st: seq<Byte>, ss: seq<Byte>, es: seq<Event>, st': seq<Byte>, es': seq<Event>, po: nat, z: nat,
                    k: nat, o: nat, e: nat)
    requires Swapped(st, st', po, z) && Mark(st, ss, es, po + z, k + 1) && Mark(st', ss, es', po + z, k + 1)
    requires Lex(st').Some? && Events(Lex(st').value, ss) == es' && Mark(st, ss, es, o, e) && (o <= po || po + z <= o)
    ensures Mark(st', ss, es', o, e)
  {
    hide Lex, Events;
    if o <= po {
      PrefixFront(st, po, o);
      PrefixFront(st', po, o);
    } else {
      var c := po + z;
      LexBetween(st, c, o);
      SuffixFront(st, c, o - c);
      SuffixFront(st', c, o - c);
      assert st'[..o] == st'[..c] + st'[c..o];
      LexConcat(st'[..c], st'[c..o]);
      EventsConcat(Lex(st'[..c]).value, Lex(st'[c..o]).value, ss);
      EventsConcat(Lex(st[..c]).value, Lex(st[c..o]).value, ss);
    }
    MarkAt(st', ss, o);
  }

  /** And the same item lies there, unless it is the one that was replaced. */
  lemma FirstSwapped(st: seq<Byte>, st': seq<Byte>, po: nat, z: nat, o: nat)
    requires Swapped(st, st', po, z) && o <= |st| && Lex(st[..po]).Some? && Lex(st[..o]).Some? &&
             (o <= po || po + z <= o) && o != po
    ensures First(st'[o..]) == First(st[o..])
  {
    hide Lex, First, Item.Size;
    if o < po {
      LexBetween(st, o, po);
      LexFirstOf(st[o..po], st[po..]);
      LexFirstOf(st[o..po], st'[po..]);
      PrefixRest(st, po, o);
      PrefixRest(st', po, o);
      assert st[o..] == st[o..po] + st[po..] && st'[o..] == st'[o..po] + st'[po..];
    } else {
      SuffixSuffix(st, po + z, o - po - z);
      SuffixSuffix(st', po + z, o - po - z);
    }
  }

  // ---------------------------------------------------------------------- blobs

  /** A property of `b`, event `k`, was replaced by one of the same size, and the events of `b'` are `es'`. */
  predicate PropSwapped(b: seq<Byte>, es: seq<Event>, b': seq<Byte>, es': seq<Event>, po: nat, k: nat) {
    Readable(b) && Readable(b') && Strings(b') == Strings(b) && PropMark(b, es, po, k) && PropMark(b', es', po, k) &&
    var z := ItemOf(b, po).Size();
    Swapped(Struct(b), Struct(b'), po, z) && AtMark(b, es, po + z, k + 1) && AtMark(b', es', po + z, k + 1) &&
    Spelled(b', es') && |es'| == |es| && (forall e :: 0 <= e < |es| && e != k ==> es'[e] == es[e])
  }

  lemma ItemSwapped(b: seq<Byte>, es: seq<Event>, b': seq<Byte>, es': seq<Event>, po: nat, k: nat, o: int, e: int)
    requires PropSwapped(b, es, b', es', po, k) && OnItem(b, es, o, e) && e < |es|
    ensures OnItem(b', es', o, e) && (e == k ==> es[e].Set? || es[e].Dangling?) && (e != k ==> es'[e] == es[e])
  {
    hide Lex, Events, Ordered, Item.Size, First, Struct, Strings;
    var st, st', ss, z := Struct(b), Struct(b'), Strings(b), ItemOf(b, po).Size();
    MarkOutside(st, po, z, o);
    MarkSwapped(st, ss, es, st', es', po, z, k, o, e);
    if o != po {
      FirstSwapped(st, st', po, z, o);
    }
  }

  // ---------------------------------------------------------------------- trees

  /** The same nodes with equally many properties: nothing in the one is at another place than in the other. */
  predicate Alike(a: Node, b: Node) {
    |a.props| == |b.props| && |a.kids| == |b.kids| && forall i :: 0 <= i < |a.kids| ==> Alike(a.kids[i], b.kids[i])
  }

  lemma {:induction false} AlikeSelf(a: Node)
    ensures Alike(a, a)
  {
    forall i | 0 <= i < |a.kids| ensures Alike(a.kids[i], a.kids[i]) {
      AlikeSelf(a.kids[i]);
    }
  }

  lemma {:induction false} AlikeTrans(a: Node, b: Node, c: Node)
    requires Alike(a, b) && Alike(b, c)
    ensures Alike(a, c)
  {
    forall i | 0 <= i < |a.kids| ensures Alike(a.kids[i], c.kids[i]) {
      AlikeTrans(a.kids[i], b.kids[i], c.kids[i]);
    }
  }

  lemma {:induction false} AlikeFlatten(a: Node, b: Node)
    requires Alike(a, b)
    ensures |Flatten(a)| == |Flatten(b)|
    decreases a, 1
  {
    AlikeForest(a.kids, b.kids);
  }

  lemma {:induction false} AlikeForest(a: seq<Node>, b: seq<Node>)
    requires |a| == |b| && forall i :: 0 <= i < |a| ==> Alike(a[i], b[i])
    ensures |Forest(a)| == |Forest(b)|
    decreases a, 0
  {
    hide Alike;
    if a != [] {
      AlikeFlatten(a[0], b[0]);
      AlikeForest(a[1..], b[1..]);
    }
  }

  lemma {:induction false} AlikePath(a: Node, b: Node, q: Path)
    requires Alike(a, b) && ValidPath(a, q)
    ensures ValidPath(b, q) && |Before(a, q)| == |Before(b, q)| && Alike(At(a, q), At(b, q))
    decreases q
  {
    hide Forest, Flatten;
    if q != [] {
      AlikePath(a.kids[q[0]], b.kids[q[0]], q[1..]);
      AlikeForest(a.kids[..q[0]], b.kids[..q[0]]);
    }
  }

  lemma {:induction false} AlikePut(t: Node, path: Path, n: Node)
    requires ValidPath(t, path) && Alike(At(t, path), n)
    ensures Alike(t, Put(t, path, n))
    decreases path
  {
    if path != [] {
      AlikePut(t.kids[path[0]], path[1..], n);
      forall i | 0 <= i < |t.kids| ensures Alike(t.kids[i], t.kids[i]) {
        AlikeSelf(t.kids[i]);
      }
    }
  }

  /** Every node and every property of `t` is where it was, now in `t'`. */
  ghost predicate Steady(b: seq<Byte>, t: Node, b': seq<Byte>, t': Node) {
    Alike(t, t') && Kept(b, b') &&
    (forall q, o :: NodeOff(b, t, q, o) ==> NodeOff(b', t', q, o)) &&
    (forall q, i, o :: PropOff(b, t, q, i, o) ==> PropOff(b', t', q, i, o))
  }

  lemma SteadySelf(b: seq<Byte>, t: Node)
    requires Kept(b, b)
    ensures Steady(b, t, b, t)
  {
    AlikeSelf(t);
  }

  lemma SteadyTrans(a: seq<Byte>, t: Node, b: seq<Byte>, u: Node, c: seq<Byte>, v: Node)
    requires Steady(a, t, b, u) && Steady(b, u, c, v)
    ensures Steady(a, t, c, v)
  {
    hide NodeOff, PropOff, Alike, Kept;
    AlikeTrans(t, u, v);
    KeptTrans(a, b, c);
  }

  /** A value of unchanged length swaps one property for one of the same size. */
  lemma WrittenSwapped(b: seq<Byte>, t: Node, path: Path, i: nat, po: nat, idx: nat, x: seq<Byte>, b': seq<Byte>,
                       t': Node)
    requires PropOff(b, t, path, i, po) && PropOff(b', t', path, i, po) && Before(t', path) == Before(t, path)
    requires |At(t', path).props[i].value| == |At(t, path).props[i].value| && idx + |x| <= |At(t, path).props[i].value|
    requires Frame(b, b') && po + 12 + |At(t, path).props[i].value| <= |Struct(b)| &&
             Struct(b') == Patch(Struct(b), po + 12 + idx, x)
    requires var k := |Before(t, path)| + 1 + i;
               k < |Tokens(t)| &&
               Tokens(t') == Tokens(t)[k := Set(At(t', path).props[i].name, At(t', path).props[i].value)]
    ensures PropSwapped(b, Tokens(t), b', Tokens(t'), po, |Before(t, path)| + 1 + i)
  {
    hide Lex, Events, Ordered, First, Struct, Strings, Before, Flatten, Spells, Mark, Patch, Str, Align4, Hdr;
    PropOffIs(b, t, path, i, po);
    PropOffIs(b', t', path, i, po);
    var z := ItemOf(b, po).Size();
    assert ItemOf(b', po).Size() == z;
    PatchOutside(Struct(b), po + 12 + idx, x, 0, po);
    PatchOutside(Struct(b), po + 12 + idx, x, po + z, |Struct(b)|);
    Ends(Struct(b), po, po + z);
    Ends(Struct(b'), po, po + z);
  }

  lemma Ends(s: seq<Byte>, lo: nat, hi: nat)
    requires lo <= hi <= |s|
    ensures s[0..lo] == s[..lo] && s[hi..|s|] == s[hi..]
  {
  }

  /** Property `i` of the node at `path`, with the bytes of `x` written into its value. */
  function Overwritten(t: Node, path: Path, i: nat, idx: nat, x: seq<Byte>): Node {
    var n := At(t, path);
    if i < |n.props| && idx + |x| <= |n.props[i].value|
    then Put(t, path, n.(props := n.props[i := Prop(n.props[i].name, Patch(n.props[i].value, idx, x))])) else t
  }

  lemma OverwrittenTokens(t: Node, path: Path, i: nat, idx: nat, x: seq<Byte>)
    requires ValidPath(t, path) && i < |At(t, path).props| && idx + |x| <= |At(t, path).props[i].value|
    ensures var n, t', k := At(t, path), Overwritten(t, path, i, idx, x), |Before(t, path)| + 1 + i;
            ValidPath(t', path) && Before(t', path) == Before(t, path) && Alike(t, t') && k < |Tokens(t)| &&
            At(t', path) == n.(props := n.props[i := Prop(n.props[i].name, Patch(n.props[i].value, idx, x))]) &&
            Tokens(t') == Tokens(t)[k := Set(n.props[i].name, Patch(n.props[i].value, idx, x))]
  {
    hide Patch, Flatten, Forest, Before, Put, At, Tokens, Alike, PropEvents;
    var n := At(t, path);
    var p := Prop(n.props[i].name, Patch(n.props[i].value, idx, x));
    var n' := n.(props := n.props[i := p]);
    PropSplit(n, i, p);
    var h, r := [Enter(n.name)] + PropEvents(n.props[..i]), PropEvents(n.props[i + 1..]) + Forest(n.kids) + [Leave];
    TokensAfter(t, path, n', h, [Set(n.props[i].name, n.props[i].value)], [Set(p.name, p.value)], r);
    SliceUpdate(Tokens(t), |Before(t, path)| + |h|, Set(p.name, p.value));
    HeadSize(n, i);
    PutAt(t, path, n');
    AlikeProps(n, n');
    AlikePut(t, path, n');
  }

  lemma SliceUpdate(es: seq<Event>, e: nat, x: Event)
    requires e < |es|
    ensures es[..e] + [x] + es[e + 1..] == es[e := x]
  {
  }

  lemma HeadSize(n: Node, i: nat)
    requires i <= |n.props|
    ensures |[Enter(n.name)] + PropEvents(n.props[..i])| == 1 + i
  {
  }

  lemma AlikeProps(a: Node, b: Node)
    requires |a.props| == |b.props| && a.kids == b.kids
    ensures Alike(a, b)
  {
    AlikeSelf(a);
  }

  lemma NodeSteady(b: seq<Byte>, t: Node, b': seq<Byte>, t': Node, po: nat, k: nat, q: Path, o: int)
    requires PropSwapped(b, Tokens(t), b', Tokens(t'), po, k) && Alike(t, t') && Holds(b', t') && NodeOff(b, t, q, o)
    ensures NodeOff(b', t', q, o)
  {
    hide Lex, Events, Ordered, First, Struct, Strings, Before, Flatten, Tokens, OnItem, PropSwapped, Holds;
    AlikePath(t, t', q);
    ItemSwapped(b, Tokens(t), b', Tokens(t'), po, k, o, |Before(t, q)|);
    SwappedSize(b, Tokens(t), b', Tokens(t'), po, k);
  }

  lemma PropSteady(b: seq<Byte>, t: Node, b': seq<Byte>, t': Node, po: nat, k: nat, q: Path, i: nat, o: int)
    requires PropSwapped(b, Tokens(t), b', Tokens(t'), po, k) && Alike(t, t') && Holds(b', t') && PropOff(b, t, q, i, o)
    ensures PropOff(b', t', q, i, o)
  {
    hide Lex, Events, Ordered, First, Struct, Strings, Before, Flatten, Tokens, OnItem, PropSwapped, Holds;
    AlikePath(t, t', q);
    ItemSwapped(b, Tokens(t), b', Tokens(t'), po, k, o, |Before(t, q)| + 1 + i);
    SwappedSize(b, Tokens(t), b', Tokens(t'), po, k);
  }

  lemma SwappedSize(b: seq<Byte>, es: seq<Event>, b': seq<Byte>, es': seq<Event>, po: nat, k: nat)
    requires PropSwapped(b, es, b', es', po, k)
    ensures |es'| == |es| && k < |es'| && (es'[k].Set? || es'[k].Dangling?)
  {
  }

  /** A write into a value is steady. */
  lemma WrittenSteady(b: seq<Byte>, t: Node, path: Path, i: nat, po: nat, idx: nat, x: seq<Byte>, b': seq<Byte>)
    requires PropOff(b, t, path, i, po) && idx + |x| <= |At(t, path).props[i].value|
    requires Frame(b, b') && po + 12 + |At(t, path).props[i].value| <= |Struct(b)| &&
             Struct(b') == Patch(Struct(b), po + 12 + idx, x)
    requires PropOff(b', Overwritten(t, path, i, idx, x), path, i, po) && Kept(b, b')
    ensures Steady(b, t, b', Overwritten(t, path, i, idx, x))
  {
    hide Lex, Events, Ordered, First, Struct, Strings, Before, Flatten, Tokens, PropSwapped, Frame, Patch, NodeOff,
         PropOff, Alike, Overwritten, Kept;
    var t', k := Overwritten(t, path, i, idx, x), |Before(t, path)| + 1 + i;
    PropOffIs(b, t, path, i, po);
    OverwrittenTokens(t, path, i, idx, x);
    WrittenSwapped(b, t, path, i, po, idx, x, b', t');
    PropOffHolds(b', t', path, i, po);
    forall q, o | NodeOff(b, t, q, o) ensures NodeOff(b', t', q, o) {
      NodeSteady(b, t, b', t', po, k, q, o);
    }
    forall q, j, o | PropOff(b, t, q, j, o) ensures PropOff(b', t', q, j, o) {
      PropSteady(b, t, b', t', po, k, q, j, o);
    }
  }

  lemma PropOffHolds(b: seq<Byte>, t: Node, path: Path, i: nat, po: int)
    requires PropOff(b, t, path, i, po)
    ensures Holds(b, t)
  {
  }

  // ------------------------------------------------------------- bytes past the blob

  /** Nothing inside the blob's total size changed. */
  predicate SameWithin(b: seq<Byte>, b': seq<Byte>) {
    |b'| == |b| && Cut(b', 0, Total(b)) == Cut(b, 0, Total(b))
  }

  lemma WithinCut(b: seq<Byte>, b': seq<Byte>, n: nat, lo: nat, hi: nat)
    requires |b'| == |b| && lo <= hi <= n <= |b| && Cut(b', 0, n) == Cut(b, 0, n)
    ensures Cut(b', lo, hi) == Cut(b, lo, hi)
  {
    SliceOfSlice(b, 0, n, lo, hi);
    SliceOfSlice(b', 0, n, lo, hi);
  }

  lemma WithinBlocks(b: seq<Byte>, b': seq<Byte>)
    requires Complete(b) && SameWithin(b, b')
    ensures Complete(b') && Struct(b') == Struct(b) && Strings(b') == Strings(b) && Rsv(b') == Rsv(b) &&
            Total(b') == Total(b)
    ensures Readable(b') == Readable(b) && SizeStruct(b') == SizeStruct(b) && |b'| == |b|
  {
    hide Cut, Ld32;
    forall k | 0 <= k < 10 ensures Hdr(b', k) == Hdr(b, k) {
      WithinWord(b, b', 4 * k);
    }
    WithinCut(b, b', Total(b), OffRsv(b), OffStruct(b));
    WithinCut(b, b', Total(b), OffStruct(b), OffStruct(b) + SizeStruct(b));
    WithinCut(b, b', Total(b), OffStrings(b), OffStrings(b) + SizeStrings(b));
  }

  lemma WithinWord(b: seq<Byte>, b': seq<Byte>, o: nat)
    requires Complete(b) && SameWithin(b, b') && o + 4 <= 40
    ensures Ld32(b', o) == Ld32(b, o)
  {
    hide Ld32, Hdr;
    WithinCut(b, b', Total(b), o, o + 4);
    LoadSame(b', o, b, o);
  }

  /** Then every node and every property is where it was. */
  lemma WithinSteady(b: seq<Byte>, t: Node, b': seq<Byte>)
    requires Complete(b) && SameWithin(b, b')
    ensures Steady(b, t, b', t)
  {
    hide Lex, Events, First, Mark, Struct, Strings, Rsv, Hdr, Ordered, Before, Flatten, SameWithin, Item.Size,
         Alike, Tokens;
    WithinBlocks(b, b');
    AlikeSelf(t);
  }
}
