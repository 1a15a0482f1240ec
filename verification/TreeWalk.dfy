/** The read-only functions seen from the tree: offsets of properties and children by their place in the tree. */
module TreeWalk {
  import opened Bytes
  import opened DeviceTree
  import opened Lexer
  import opened Blob
  import opened Walk
  import opened Traverse
  import opened Splice
  import opened Edit
  import opened Rewrite
  import opened ReadWrite
  import opened NodeEdit

  // ------------------------------------------------------------ children by path

  lemma FirstKidAt(t: Node, path: Path)
    requires ValidPath(t, path)
    ensures Kid(Tokens(t), |Before(t, path)| + 1, 0) ==
            if At(t, path).kids == [] then None else Some(|Before(t, path + [0])|)
  {
    hide Flatten, Before, Here, Tokens, Kid, Head;
    NodeHere(t, path);
    FirstKid(Tokens(t), |Before(t, path)|, At(t, path));
    if At(t, path).kids != [] {
      ChildAt(t, path, 0);
      assert At(t, path).kids[..0] == [] && Forest([]) == [];
    }
  }

  lemma NextKidAt(t: Node, path: Path, i: nat)
    requires ValidPath(t, path) && i < |At(t, path).kids|
    ensures Kid(Tokens(t), |Before(t, path + [i])| + 1, 1) ==
            if i + 1 < |At(t, path).kids| then Some(|Before(t, path + [i + 1])|) else None
  {
    hide Flatten, Before, Here, Tokens, Kid, Head, Forest;
    NodeHere(t, path);
    NextKid(Tokens(t), |Before(t, path)|, At(t, path), i);
    ChildAt(t, path, i);
    if i + 1 < |At(t, path).kids| {
      ChildAt(t, path, i + 1);
    }
  }

  lemma FindKidAt(t: Node, path: Path, name: seq<Byte>)
    requires ValidPath(t, path)
    ensures var i := MatchKid(At(t, path).kids, name);
            FindKid(Tokens(t), |Before(t, path)| + 1, 0, name) ==
            if i < |At(t, path).kids| then Some(|Before(t, path + [i])|) else None
  {
    hide Flatten, Before, Here, Tokens, FindKid, Head, Forest, MatchKid;
    NodeHere(t, path);
    FindKidInNode(Tokens(t), |Before(t, path)|, At(t, path), name);
    var i := MatchKid(At(t, path).kids, name);
    if i < |At(t, path).kids| {
      ChildAt(t, path, i);
    }
  }

  lemma ChildOff(b: seq<Byte>, t: Node, path: Path, i: nat, o: int)
    requires Holds(b, t) && ValidPath(t, path) && i < |At(t, path).kids| &&
             NodeMark(b, Tokens(t), o, |Before(t, path + [i])|)
    ensures NodeOff(b, t, path + [i], o)
  {
    hide Before, NodeMark, Spelled;
    ChildAt(t, path, i);
  }

  // ------------------------------------------------------------------ properties

  /** Which event follows property `k` of a node. */
  lemma PropSteps(t: Node, path: Path, k: nat)
    requires ValidPath(t, path) && k <= |At(t, path).props|
    ensures var es, e, ps := Tokens(t), |Before(t, path)| + 1 + k, At(t, path).props;
            e < |es| && es[e] != Finish && NextSet(es, e) == (if k < |ps| then Some(e) else None) &&
            (k < |ps| ==> es[e] == Set(ps[k].name, ps[k].value))
  {
    hide Before, Flatten;
    HeadEvents(t, path);
    if k < |At(t, path).props| {
      PropHere(t, path, k);
    }
  }

  lemma LiveOf(b: seq<Byte>, t: Node, path: Path, node: int)
    requires NodeOff(b, t, path, node)
    ensures Accepts(b, t, path, node) && Live(b, node)
  {
    hide Ordered, Before, Flatten, Lex, Events, NextTag, Struct, NodeMark, Hdr, Spelled, NodeEvents;
    NodeOffIs(b, t, path, node);
    CompleteProbes(b);
    Bounds(b);
  }

  lemma NodeOffPath(b: seq<Byte>, t: Node, path: Path, node: int)
    requires NodeOff(b, t, path, node)
    ensures ValidPath(t, path) && Holds(b, t)
  {
  }

  /** A mark with no more events before it than an item has lies no further than the item. */
  lemma MarkOrder(st: seq<Byte>, ss: seq<Byte>, es: seq<Event>, o1: int, e1: int, o2: int, e2: int)
    requires Mark(st, ss, es, o1, e1) && Mark(st, ss, es, o2, e2) && e1 <= e2
    requires o2 < |st| && First(st[o2..]).Some? && First(st[o2..]).value != Nop
    ensures o1 <= o2
  {
    hide First, Lex, Events;
    if o2 < o1 {
      var a, mid := st[..o2], st[o2..o1];
      assert st[..o1] == a + mid && st[o2..] == mid + st[o1..];
      LexConcat(a, mid);
      EventsConcat(Lex(a).value, Lex(mid).value, ss);
      FirstSome(mid, ss);
      FirstOfConcat(mid, st[o1..]);
    }
  }

  lemma FirstSome(s: seq<Byte>, ss: seq<Byte>)
    requires s != [] && Lex(s).Some?
    ensures First(s).Some? && (First(s).value != Nop ==> |Events(Lex(s).value, ss)| >= 1)
  {
    hide First, Str;
    var items := Lex(s).value;
    assert items[0] == First(s).value;
  }

  /** Children lie inside their parent. */
  lemma KidInside(b: seq<Byte>, t: Node, path: Path, node: int, k: nat, child: int)
    requires NodeOff(b, t, path, node) && NodeOff(b, t, path + [k], child) && k < |At(t, path).kids|
    ensures Inside(b, node) <= child
  {
    hide First, Lex, Events, Ordered, Before, Flatten, Head, Forest, NextTag, Struct, Strings, NodeEvents, Mark;
    NodeOffIs(b, t, path, node);
    ChildAt(t, path, k);
    HeadOne(At(t, path));
    MarkOrder(Struct(b), Strings(b), Tokens(t), Inside(b, node), |Before(t, path)| + 1, child, |Before(t, path + [k])|);
  }

  lemma HeadOne(n: Node)
    ensures |Head(n)| >= 1
  {
  }

  // ------------------------------------------------------------- walking a tree

  /** `po` is the offset of property `k`, or the error that says there is none. */
  predicate PropOrEnd(b: seq<Byte>, t: Node, path: Path, k: nat, po: int) {
    if k < |At(t, path).props| then PropOff(b, t, path, k, po) && 0 <= po <= INT_MAX else po == -FDT_ERR_NOTFOUND
  }

  /** `fdt_first_property_offset` visits property 0 first. */
  method FirstPropOf(b: seq<Byte>, node: int, ghost t: Node, ghost path: Path) returns (po: int)
    requires NodeOff(b, t, path, node)
    ensures PropOrEnd(b, t, path, 0, po)
  {
    hide NodeOff, Before, Tokens, PropMark, NextSet, NodeMark, NodeEvents, Struct, Ordered, CheckTagOffset, NodeArg,
         BadNode, PropOff;
    NodeOffIs(b, t, path, node);
    PropSteps(t, path, 0);
    GoodNode(b, Tokens(t), node, |Before(t, path)|);
    po := FirstProp(b, node, Tokens(t), |Before(t, path)|);
    if At(t, path).props != [] {
      FoundProp(b, t, path, 0, po);
    }
  }

  /** `fdt_next_property_offset` visits property `k + 1` after property `k`. */
  method NextPropOf(b: seq<Byte>, po: int, ghost t: Node, ghost path: Path, ghost k: nat) returns (next: int)
    requires PropOff(b, t, path, k, po)
    ensures PropOrEnd(b, t, path, k + 1, next)
  {
    hide Before, Tokens, PropMark, NextSet, Struct, Ordered, PropOff, ItemOf, Spells, First, AtMark, Str;
    PropOffIs(b, t, path, k, po);
    PropOffMark(b, t, path, k, po);
    PropSteps(t, path, k + 1);
    next := NextPropAfter(b, po, Tokens(t), |Before(t, path)| + 1 + k);
    if k + 1 < |At(t, path).props| {
      FoundProp(b, t, path, k + 1, next);
    }
  }

  lemma PropOffMark(b: seq<Byte>, t: Node, path: Path, k: nat, po: int)
    requires PropOff(b, t, path, k, po)
    ensures Holds(b, t) && ValidPath(t, path) && k < |At(t, path).props| &&
            PropMark(b, Tokens(t), po, |Before(t, path)| + 1 + k)
    ensures Terminated(Tokens(t))
  {
    TokensEnd(t);
  }

  /** `fdt_getprop_by_offset`: name and value of property `k`. */
  method ReadProp(b: seq<Byte>, po: int, ghost t: Node, ghost path: Path, ghost k: nat)
                  returns (name: seq<Byte>, value: seq<Byte>)
    requires PropOff(b, t, path, k, po)
    ensures k < |At(t, path).props| && Prop(name, value) == At(t, path).props[k] && NulFree(name)
  {
    hide Before, Tokens, PropMark, Struct, Strings, Ordered, PropOff, ItemOf, Spells, First, AtMark, Str;
    PropOffIs(b, t, path, k, po);
    PropOffMark(b, t, path, k, po);
    PropSteps(t, path, k);
    var nameoff;
    nameoff, value := PropAt(b, po, Tokens(t), |Before(t, path)| + 1 + k);
    var s := GetString(b, nameoff);
    name := s.value;
  }

  predicate KidOrEnd(b: seq<Byte>, t: Node, path: Path, k: nat, o: int) {
    if k < |At(t, path).kids| then NodeOff(b, t, path + [k], o) && 0 <= o else o == -FDT_ERR_NOTFOUND
  }

  /** `fdt_first_subnode` visits child 0 first. */
  method FirstKidOf(b: seq<Byte>, node: int, ghost t: Node, ghost path: Path) returns (o: int)
    requires NodeOff(b, t, path, node)
    ensures KidOrEnd(b, t, path, 0, o)
  {
    hide NodeOff, Before, Tokens, NodeMark, NodeEvents, Struct, Ordered, Kid, AtMark, CheckTagOffset;
    NodeOffIs(b, t, path, node);
    FirstKidAt(t, path);
    GoodNode(b, Tokens(t), node, |Before(t, path)|);
    o := FirstSubnode(b, node, Tokens(t), |Before(t, path)|);
    if At(t, path).kids != [] {
      ChildOff(b, t, path, 0, o);
    }
  }

  /** `fdt_next_subnode` visits child `k + 1` after child `k`, and ends after the last. */
  method NextKidOf(b: seq<Byte>, from: int, ghost t: Node, ghost path: Path, ghost k: nat) returns (o: int)
    requires ValidPath(t, path) && k < |At(t, path).kids| && NodeOff(b, t, path + [k], from)
    ensures KidOrEnd(b, t, path, k + 1, o)
  {
    hide NodeOff, Before, Tokens, NodeMark, NodeEvents, Struct, Ordered, Kid, AtMark, CheckTagOffset;
    NodeOffIs(b, t, path + [k], from);
    NextKidAt(t, path, k);
    GoodNode(b, Tokens(t), from, |Before(t, path + [k])|);
    o := NextSubnode(b, from, Tokens(t), |Before(t, path + [k])|);
    if k + 1 < |At(t, path).kids| {
      ChildOff(b, t, path, k + 1, o);
    }
  }

  /** `fdt_subnode_offset`: the first child whose name matches. */
  method FindKidOf(b: seq<Byte>, node: int, name: seq<Byte>, ghost t: Node, ghost path: Path) returns (o: int)
    requires NodeOff(b, t, path, node)
    ensures var i := MatchKid(At(t, path).kids, name);
            if i < |At(t, path).kids| then
              NodeOff(b, t, path + [i], o) && Inside(b, node) <= o else o == -FDT_ERR_NOTFOUND
  {
    hide NodeOff, Before, Tokens, NodeMark, NodeEvents, Struct, Ordered, FindKid, AtMark, CheckTagOffset, MatchKid,
         NodeArg, BadNode;
    NodeOffIs(b, t, path, node);
    FindKidAt(t, path, name);
    GoodNode(b, Tokens(t), node, |Before(t, path)|);
    o := SubnodeOffset(b, node, name, Tokens(t), |Before(t, path)|);
    if MatchKid(At(t, path).kids, name) < |At(t, path).kids| {
      ChildOff(b, t, path, MatchKid(At(t, path).kids, name), o);
    }
  }

  /** `fdt_get_name` */
  method NameOf(b: seq<Byte>, node: int, ghost t: Node, ghost path: Path) returns (name: seq<Byte>)
    requires NodeOff(b, t, path, node)
    ensures name == At(t, path).name && NulFree(name)
  {
    hide NodeOff, Before, Tokens, NodeMark, NodeEvents, Struct, Ordered, AtMark, CheckTagOffset, Spells;
    NodeBegins(b, t, path, node);
    name := GetName(b, node, Tokens(t), |Before(t, path)|);
  }
}
