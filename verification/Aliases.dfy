/** Slot allocation by alias number: `fdtdec_find_aliases_for_id` and `fdtdec_add_aliases_for_id`. */
module Aliases {

  /** An alias whose name begins as wanted: the node its path leads to, not positive if none, and its number. */
  datatype Alias = Alias(node: int, number: int)

  /** Nodes in the order of the blob, none of them the root. */
  ghost predicate Ascending(c: seq<int>) {
    (forall i :: 0 <= i < |c| ==> c[i] > 0) && forall i, j :: 0 <= i < j < |c| ==> c[i] < c[j]
  }

  /** Slots hold enabled nodes of `c`, each at most once; 0 marks a free slot. */
  ghost predicate Slots(c: seq<int>, on: set<int>, l: seq<int>) {
    (forall i :: 0 <= i < |l| && l[i] != 0 ==> l[i] in c && l[i] in on) &&
    forall i, j :: 0 <= i < j < |l| && l[i] != 0 ==> l[i] != l[j]
  }

  /** While aliases are read: each node is still waiting or done with, and then it has a slot unless it is disabled. */
  ghost predicate Pending(c: seq<int>, on: set<int>, n: seq<int>, l: seq<int>) {
    |c| <= |n| == |l| && Slots(c, on, l) &&
    (forall j :: |c| <= j < |n| ==> n[j] == 0) &&
    (forall j :: 0 <= j < |c| ==> if n[j] == 0 then c[j] in l || c[j] !in on else n[j] == c[j] && c[j] !in l)
  }

  /** One more than the highest filled index. */
  ghost predicate Highest(l: seq<int>, r: nat) {
    r <= |l| && (r > 0 ==> l[r - 1] != 0) && forall i :: r <= i < |l| ==> l[i] == 0
  }

  // ---------------------------------------------------------------- single steps

  lemma Placed(c: seq<int>, on: set<int>, n: seq<int>, l: seq<int>, j: nat, k: nat)
    requires Ascending(c) && Pending(c, on, n, l) && j < |c| && n[j] != 0 && c[j] in on && k < |l| && l[k] == 0
    ensures Pending(c, on, n[j := 0], l[k := c[j]])
  {
    var l', n' := l[k := c[j]], n[j := 0];
    assert l'[k] == c[j];
    forall i | 0 <= i < |c| ensures if n'[i] == 0 then c[i] in l' || c[i] !in on else n'[i] == c[i] && c[i] !in l' {
      if c[i] in l {
        var s :| 0 <= s < |l| && l[s] == c[i];
        assert l'[s] == c[i];
      }
    }
  }

  lemma Dropped(c: seq<int>, on: set<int>, n: seq<int>, l: seq<int>, j: nat)
    requires Pending(c, on, n, l) && j < |c| && c[j] !in on
    ensures Pending(c, on, n[j := 0], l)
  {
  }

  lemma HighestPlaced(l: seq<int>, r: nat, k: nat, v: int)
    requires Highest(l, r) && k < |l| && v != 0
    ensures Highest(l[k := v], if k >= r then k + 1 else r)
  {
  }

  // ------------------------------------------------------------------- the aliases

  /** The alias names a node of `c` that is enabled, and a slot. */
  predicate Usable(c: seq<int>, on: set<int>, size: nat, a: Alias) {
    a.node in c && a.node in on && 0 <= a.number < size
  }

  /** The alias got its slot, or an earlier alias had taken the slot or the node. */
  ghost predicate Honoured(c: seq<int>, on: set<int>, as_: seq<Alias>, l: seq<int>, k: nat) {
    k < |as_| && (Usable(c, on, |l|, as_[k]) ==>
      l[as_[k].number] == as_[k].node ||
      exists e :: 0 <= e < k && Usable(c, on, |l|, as_[e]) && l[as_[e].number] == as_[e].node &&
                  (as_[e].number == as_[k].number || as_[e].node == as_[k].node))
  }

  /** Every filled slot was asked for by an alias. */
  ghost predicate Asked(as_: seq<Alias>, l: seq<int>, k: nat) {
    forall i :: 0 <= i < |l| && l[i] != 0 ==> exists e :: 0 <= e < k && e < |as_| && as_[e] == Alias(l[i], i)
  }

  ghost predicate AllHonoured(c: seq<int>, on: set<int>, as_: seq<Alias>, l: seq<int>, k: nat) {
    forall e :: 0 <= e < k ==> Honoured(c, on, as_, l, e)
  }

  /** `l'` has every filled slot of `l`. */
  ghost predicate Extends(l: seq<int>, l': seq<int>) {
    |l'| == |l| && forall i :: 0 <= i < |l| && l[i] != 0 ==> l'[i] == l[i]
  }

  lemma HonouredKept(c: seq<int>, on: set<int>, as_: seq<Alias>, l: seq<int>, l': seq<int>, k: nat)
    requires Ascending(c) && AllHonoured(c, on, as_, l, k) && Extends(l, l')
    ensures AllHonoured(c, on, as_, l', k)
  {
    forall e | 0 <= e < k ensures Honoured(c, on, as_, l', e) {
      assert Honoured(c, on, as_, l, e);
    }
  }

  /** The alias asks for a slot that is taken. */
  lemma SlotTaken(c: seq<int>, on: set<int>, as_: seq<Alias>, l: seq<int>, k: nat)
    requires Slots(c, on, l) && Asked(as_, l, k) && k < |as_| && 0 <= as_[k].number < |l| && l[as_[k].number] != 0
    ensures Honoured(c, on, as_, l, k)
  {
    var i := as_[k].number;
    var e :| 0 <= e < k && e < |as_| && as_[e] == Alias(l[i], i);
    assert Usable(c, on, |l|, as_[e]);
  }

  /** The alias names a node that is no longer waiting. */
  lemma NodeTaken(c: seq<int>, on: set<int>, as_: seq<Alias>, n: seq<int>, l: seq<int>, k: nat)
    requires Ascending(c) && Pending(c, on, n, l) && Asked(as_, l, k) && k < |as_| && as_[k].node > 0
    requires forall j :: 0 <= j < |c| ==> n[j] != as_[k].node
    ensures Honoured(c, on, as_, l, k)
  {
    if Usable(c, on, |l|, as_[k]) {
      var j :| 0 <= j < |c| && c[j] == as_[k].node;
      assert c[j] in l;
      var i :| 0 <= i < |l| && l[i] == c[j];
      var e :| 0 <= e < k && e < |as_| && as_[e] == Alias(l[i], i);
      assert Usable(c, on, |l|, as_[e]);
    }
  }

  lemma AskedMore(as_: seq<Alias>, l: seq<int>, k: nat, i: nat)
    requires Asked(as_, l, k) && k < |as_| && i < |l| && as_[k].number == i
    ensures Asked(as_, l[i := as_[k].node], k + 1)
  {
    var l' := l[i := as_[k].node];
    forall s | 0 <= s < |l'| && l'[s] != 0 ensures exists e ::
      0 <= e < k + 1 && e < |as_| && as_[e] == Alias(l'[s], s) {
      if s == i {
        assert as_[k] == Alias(l'[s], s);
      } else {
        assert l[s] == l'[s];
      }
    }
  }

  /** What holds after `k` aliases. */
  ghost predicate ReadSoFar(c: seq<int>, on: set<int>, as_: seq<Alias>, n: seq<int>, l: seq<int>, k: nat, top: nat) {
    k <= |as_| && Pending(c, on, n, l) && Highest(l, top) && AllHonoured(c, on, as_, l, k) && Asked(as_, l, k)
  }

  lemma ReadStep(c: seq<int>, on: set<int>, as_: seq<Alias>, n: seq<int>, l: seq<int>, k: nat, top: nat)
    requires ReadSoFar(c, on, as_, n, l, k, top) && k < |as_| && Honoured(c, on, as_, l, k)
    ensures ReadSoFar(c, on, as_, n, l, k + 1, top)
  {
    hide Honoured, Pending;
  }

  lemma ReadPlace(c: seq<int>, on: set<int>, as_: seq<Alias>, n: seq<int>, l: seq<int>, k: nat, top: nat, j: nat)
    requires Ascending(c) && ReadSoFar(c, on, as_, n, l, k, top) && k < |as_| && Usable(c, on, |l|, as_[k])
    requires j < |c| <= |n| && n[j] == as_[k].node && l[as_[k].number] == 0
    ensures var i := as_[k].number;
            ReadSoFar(c, on, as_, n[j := 0], l[i := as_[k].node], k + 1, if i >= top then i + 1 else top)
  {
    hide Honoured;
    var i, v := as_[k].number, as_[k].node;
    assert n[j] == c[j];
    Placed(c, on, n, l, j, i);
    hide Pending;
    HighestPlaced(l, top, i, v);
    HonouredKept(c, on, as_, l, l[i := v], k);
    AskedMore(as_, l, k, i);
    PlacedHonoured(c, on, as_, l[i := v], k);
  }

  lemma PlacedHonoured(c: seq<int>, on: set<int>, as_: seq<Alias>, l: seq<int>, k: nat)
    requires k < |as_| && 0 <= as_[k].number < |l| && l[as_[k].number] == as_[k].node
    ensures Honoured(c, on, as_, l, k)
  {
  }

  lemma Unusable(c: seq<int>, on: set<int>, as_: seq<Alias>, l: seq<int>, k: nat)
    requires k < |as_| && !Usable(c, on, |l|, as_[k])
    ensures Honoured(c, on, as_, l, k)
  {
  }

  /** The second loop: aliases claim their slots. */
  method ReadAliases(nodes: array<int>, list: array<int>, count: nat, as_: seq<Alias>, on: set<int>,
                     ghost c: seq<int>) returns (top: nat)
    requires nodes != list && nodes.Length == list.Length && count == |c| <= nodes.Length && Ascending(c)
    requires ReadSoFar(c, on, as_, nodes[..], list[..], 0, 0)
    modifies nodes, list
    ensures ReadSoFar(c, on, as_, nodes[..], list[..], |as_|, top)
  {
    hide Pending, Honoured, ReadSoFar, Highest;
    top := 0;
    var k := 0;
    while k < |as_|
      invariant 0 <= k <= |as_| && ReadSoFar(c, on, as_, nodes[..], list[..], k, top)
    {
      var node, number := as_[k].node, as_[k].number;
      if node <= 0 || number < 0 || number >= list.Length {
        Unusable(c, on, as_, list[..], k);
      } else {
        var found := FindNode(nodes, count, node);
        if found == -1 {
          NoneWaiting(c, on, as_, nodes[..], list[..], k, top);
        } else if node in on {
          if list[number] != 0 {
            ReadTaken(c, on, as_, nodes[..], list[..], k, top);
          } else {
            WaitingNode(c, on, as_, nodes[..], list[..], k, top, found);
            ReadPlace(c, on, as_, nodes[..], list[..], k, top, found);
            ghost var n, l := nodes[..], list[..];
            list[number] := node;
            if number >= top {
              top := number + 1;
            }
            nodes[found] := 0;
            assert nodes[..] == n[found := 0] && list[..] == l[number := node];
            k := k + 1;
            continue;
          }
        } else {
          WaitingNode(c, on, as_, nodes[..], list[..], k, top, found);
          Unusable(c, on, as_, list[..], k);
          ReadDrop(c, on, as_, nodes[..], list[..], k, top, found);
          ghost var n := nodes[..];
          nodes[found] := 0;
          assert nodes[..] == n[found := 0];
        }
      }
      ReadStep(c, on, as_, nodes[..], list[..], k, top);
      k := k + 1;
    }
  }

  /** The search for a node that is still waiting. */
  method FindNode(nodes: array<int>, count: nat, node: int) returns (found: int)
    requires count <= nodes.Length
    ensures found == -1 ==> forall j :: 0 <= j < count ==> nodes[j] != node
    ensures found != -1 ==> 0 <= found < count && nodes[found] == node
  {
    var j := 0;
    while j < count
      invariant 0 <= j <= count && forall i :: 0 <= i < j ==> nodes[i] != node
    {
      if nodes[j] == node {
        return j;
      }
      j := j + 1;
    }
    found := -1;
  }

  lemma NoneWaiting(c: seq<int>, on: set<int>, as_: seq<Alias>, n: seq<int>, l: seq<int>, k: nat, top: nat)
    requires Ascending(c) && ReadSoFar(c, on, as_, n, l, k, top) && k < |as_| && as_[k].node > 0 && |c| <= |n|
    requires forall j :: 0 <= j < |c| ==> n[j] != as_[k].node
    ensures Honoured(c, on, as_, l, k)
  {
    hide Honoured;
    NodeTaken(c, on, as_, n, l, k);
  }

  lemma ReadTaken(c: seq<int>, on: set<int>, as_: seq<Alias>, n: seq<int>, l: seq<int>, k: nat, top: nat)
    requires ReadSoFar(c, on, as_, n, l, k, top) && k < |as_| && 0 <= as_[k].number < |l| && l[as_[k].number] != 0
    ensures Honoured(c, on, as_, l, k)
  {
    hide Honoured;
    SlotTaken(c, on, as_, l, k);
  }

  lemma WaitingNode(c: seq<int>, on: set<int>, as_: seq<Alias>, n: seq<int>, l: seq<int>, k: nat, top: nat, j: nat)
    requires ReadSoFar(c, on, as_, n, l, k, top) && j < |c| <= |n| && n[j] != 0
    ensures n[j] == c[j] && n[j] in c
  {
  }

  lemma ReadDrop(c: seq<int>, on: set<int>, as_: seq<Alias>, n: seq<int>, l: seq<int>, k: nat, top: nat, j: nat)
    requires ReadSoFar(c, on, as_, n, l, k, top) && j < |c| <= |n| && c[j] !in on
    ensures ReadSoFar(c, on, as_, n[j := 0], l, k, top)
  {
    hide Honoured;
    Dropped(c, on, n, l, j);
  }

  // ------------------------------------------------------------------ the rest

  /**
   Slots before `i` are filled, and the nodes before `j` that were waiting and enabled have one;
   later ones have none.
   */
  ghost predicate Filling(c: seq<int>, on: set<int>, n: seq<int>, l: seq<int>, i: nat, j: nat) {
    |c| <= |n| == |l| && i <= |l| && j <= |n| && Slots(c, on, l) &&
    (forall s :: 0 <= s < i ==> l[s] != 0) &&
    (forall s :: |c| <= s < |n| ==> n[s] == 0) &&
    (forall s :: 0 <= s < |c| ==> if n[s] == 0 then c[s] in l || c[s] !in on else n[s] == c[s]) &&
    (forall s :: 0 <= s < j && n[s] != 0 && n[s] in on ==> n[s] in l) &&
    (forall s :: j <= s < |n| && n[s] != 0 ==> n[s] !in l)
  }

  lemma FillStart(c: seq<int>, on: set<int>, n: seq<int>, l: seq<int>)
    requires Pending(c, on, n, l)
    ensures Filling(c, on, n, l, 0, 0)
  {
    forall s | 0 <= s < |n| && n[s] != 0 ensures n[s] !in l {
      assert s < |c|;
    }
  }

  lemma FillSkip(c: seq<int>, on: set<int>, n: seq<int>, l: seq<int>, i: nat, j: nat)
    requires Filling(c, on, n, l, i, j) && j < |n| && (n[j] == 0 || n[j] !in on)
    ensures Filling(c, on, n, l, i, j + 1)
  {
  }

  lemma FillPlace(c: seq<int>, on: set<int>, n: seq<int>, l: seq<int>, i: nat, j: nat)
    requires Ascending(c) && Filling(c, on, n, l, i, j) && i < |l| && l[i] == 0 && j < |n| && n[j] != 0 && n[j] in on
    ensures Filling(c, on, n, l[i := n[j]], i + 1, j + 1)
  {
    var l' := l[i := n[j]];
    assert l'[i] == n[j] && n[j] == c[j];
    forall v | v in l && v != 0 ensures v in l' {
      var s :| 0 <= s < |l| && l[s] == v;
      assert l'[s] == v;
    }
    forall v | v in l' && v != n[j] ensures v in l {
    }
    assert forall s :: 0 <= s < |c| ==> c[s] != 0;
    assert forall s :: j + 1 <= s < |n| && n[s] != 0 ==> n[s] == c[s] && c[s] > c[j];
  }

  /** The slots filled now, lowest first, by waiting nodes in the order of the blob. */
  ghost predicate Orderly(c: seq<int>, p: seq<int>, l: seq<int>, i: nat, j: nat) {
    |p| == |l| && i <= |l| && (forall s :: i <= s < |l| ==> l[s] == p[s]) &&
    (forall s :: 0 <= s < i && p[s] != 0 ==> l[s] == p[s]) &&
    (forall s :: 0 <= s < i && p[s] == 0 ==> exists t :: 0 <= t < j && t < |c| && l[s] == c[t]) &&
    (forall s, s' :: 0 <= s < s' < i && p[s] == 0 && p[s'] == 0 ==> l[s] < l[s'])
  }

  lemma OrderlyPlace(c: seq<int>, p: seq<int>, l: seq<int>, i: nat, j: nat)
    requires Ascending(c) && Orderly(c, p, l, i, j) && i < |l| && l[i] == 0 && j < |c|
    ensures Orderly(c, p, l[i := c[j]], i + 1, j + 1)
  {
    var l' := l[i := c[j]];
    forall s | 0 <= s < i + 1 && p[s] == 0 ensures exists t :: 0 <= t < j + 1 && t < |c| && l'[s] == c[t] {
      if s < i {
        var t :| 0 <= t < j && t < |c| && l[s] == c[t];
        assert l'[s] == c[t];
      }
    }
    forall s | 0 <= s < i && p[s] == 0 ensures l[s] < c[j] {
      var t :| 0 <= t < j && t < |c| && l[s] == c[t];
    }
  }

  /** Every enabled node has a slot. */
  ghost predicate Complete(c: seq<int>, on: set<int>, l: seq<int>) {
    forall v :: v in c && v in on ==> v in l
  }

  lemma FillDone(c: seq<int>, on: set<int>, n: seq<int>, l: seq<int>, i: nat, j: nat)
    requires Filling(c, on, n, l, i, j) && (i == |l| || j == |n|)
    ensures Complete(c, on, l)
  {
    if j == |n| {
      forall v | v in c && v in on ensures v in l {
        var s :| 0 <= s < |c| && c[s] == v;
        assert n[s] == 0 || n[s] == v;
      }
    } else {
      Pigeonhole(c, l);
    }
  }

  function Members(s: seq<int>): set<int> { set v | v in s }

  lemma {:induction false} MembersAtMost(s: seq<int>)
    ensures |Members(s)| <= |s|
  {
    if s != [] {
      MembersAtMost(s[1..]);
      assert Members(s) == Members(s[1..]) + {s[0]};
    }
  }

  lemma {:induction false} MembersDistinct(s: seq<int>)
    requires forall i, j :: 0 <= i < j < |s| ==> s[i] != s[j]
    ensures |Members(s)| == |s|
  {
    if s != [] {
      MembersDistinct(s[1..]);
      assert Members(s) == Members(s[1..]) + {s[0]};
      assert s[0] !in s[1..];
    }
  }

  /** As many distinct members as there are candidates leave no candidate out. */
  lemma Pigeonhole(c: seq<int>, l: seq<int>)
    requires |c| <= |l| && (forall i :: 0 <= i < |l| ==> l[i] in c) && forall i, j :: 0 <= i < j < |l| ==> l[i] != l[j]
    ensures forall v :: v in c ==> v in l
  {
    MembersAtMost(c);
    MembersDistinct(l);
    assert Members(l) <= Members(c);
    SubsetSame(Members(l), Members(c));
    assert forall v :: v in c ==> v in Members(c);
  }

  lemma SubsetSame(a: set<int>, b: set<int>)
    requires a <= b && |b| <= |a|
    ensures a == b
  {
    assert |b - a| == |b| - |a| == 0;
    assert b == a + (b - a);
  }

  /** The third loop: the nodes that no alias placed. */
  method PlaceRest(nodes: array<int>, list: array<int>, on: set<int>, from: nat, ghost c: seq<int>) returns (top: nat)
    requires nodes != list && nodes.Length == list.Length && Ascending(c) && Pending(c, on, nodes[..], list[..]) &&
             Highest(list[..], from)
    modifies list
    ensures Slots(c, on, list[..]) && Complete(c, on, list[..]) && Highest(list[..], top)
    ensures LowestFirst(old(list[..]), list[..])
  {
    hide Pending, Filling, Orderly, Highest, Slots, Complete;
    ghost var p := list[..];
    FillStart(c, on, nodes[..], p);
    OrderlyStart(c, p);
    top := from;
    var i, j := 0, 0;
    while i < list.Length
      invariant 0 <= i <= list.Length && 0 <= j <= nodes.Length
      invariant Filling(c, on, nodes[..], list[..], i, j) && Orderly(c, p, list[..], i, j) && Highest(list[..], top)
    {
      if list[i] == 0 {
        ghost var l := list[..];
        while j < nodes.Length
          invariant 0 <= j <= nodes.Length && list[..] == l && Filling(c, on, nodes[..], list[..], i, j) &&
                    Orderly(c, p, list[..], i, j)
        {
          if nodes[j] != 0 && nodes[j] in on {
            break;
          }
          FillSkip(c, on, nodes[..], list[..], i, j);
          OrderlySkip(c, p, list[..], i, j);
          j := j + 1;
        }
        if j == nodes.Length {
          break;
        }
        WaitingAt(c, on, nodes[..], l, i, j);
        FillPlace(c, on, nodes[..], l, i, j);
        OrderlyPlace(c, p, l, i, j);
        HighestPlaced(l, top, i, nodes[j]);
        list[i] := nodes[j];
        assert list[..] == l[i := nodes[j]];
        j := j + 1;
        if i >= top {
          top := i + 1;
        }
      } else {
        FillNext(c, on, nodes[..], list[..], i, j);
        OrderlyNext(c, p, list[..], i, j);
      }
      i := i + 1;
    }
    FillDone(c, on, nodes[..], list[..], i, j);
    FillSlots(c, on, nodes[..], list[..], i, j);
    OrderlyDone(c, on, nodes[..], p, list[..], i, j);
  }

  /** Slots kept, and slots filled since: no free slot below one of them, and nodes in the order of the blob. */
  ghost predicate LowestFirst(p: seq<int>, l: seq<int>) {
    Extends(p, l) &&
    (forall s, s' :: 0 <= s < s' < |l| && p[s'] == 0 && l[s'] != 0 ==> l[s] != 0) &&
    (forall s, s' :: 0 <= s < s' < |l| && p[s] == 0 && p[s'] == 0 && l[s] != 0 && l[s'] != 0 ==> l[s] < l[s'])
  }

  lemma OrderlyDone(c: seq<int>, on: set<int>, n: seq<int>, p: seq<int>, l: seq<int>, i: nat, j: nat)
    requires Filling(c, on, n, l, i, j) && Orderly(c, p, l, i, j)
    ensures LowestFirst(p, l)
  {
  }

  lemma OrderlyStart(c: seq<int>, p: seq<int>)
    ensures Orderly(c, p, p, 0, 0)
  {
  }

  lemma OrderlySkip(c: seq<int>, p: seq<int>, l: seq<int>, i: nat, j: nat)
    requires Orderly(c, p, l, i, j)
    ensures Orderly(c, p, l, i, j + 1)
  {
    forall s | 0 <= s < i && p[s] == 0 ensures exists t :: 0 <= t < j + 1 && t < |c| && l[s] == c[t] {
      var t :| 0 <= t < j && t < |c| && l[s] == c[t];
    }
  }

  lemma OrderlyNext(c: seq<int>, p: seq<int>, l: seq<int>, i: nat, j: nat)
    requires Orderly(c, p, l, i, j) && i < |l| && l[i] != 0
    ensures Orderly(c, p, l, i + 1, j)
  {
  }

  lemma FillNext(c: seq<int>, on: set<int>, n: seq<int>, l: seq<int>, i: nat, j: nat)
    requires Filling(c, on, n, l, i, j) && i < |l| && l[i] != 0
    ensures Filling(c, on, n, l, i + 1, j)
  {
  }

  lemma FillSlots(c: seq<int>, on: set<int>, n: seq<int>, l: seq<int>, i: nat, j: nat)
    requires Filling(c, on, n, l, i, j)
    ensures Slots(c, on, l)
  {
  }

  lemma WaitingAt(c: seq<int>, on: set<int>, n: seq<int>, l: seq<int>, i: nat, j: nat)
    requires Filling(c, on, n, l, i, j) && j < |n| && n[j] != 0
    ensures j < |c| && n[j] == c[j]
  {
  }

  // ------------------------------------------------------------------- all three

  /** The first loop: at most as many nodes as there are slots. */
  method Collect(all: seq<int>, nodes: array<int>) returns (count: nat)
    requires forall i :: 0 <= i < nodes.Length ==> nodes[i] == 0
    modifies nodes
    ensures count == (if |all| < nodes.Length then |all| else nodes.Length)
    ensures nodes[..count] == all[..count] && forall i :: count <= i < nodes.Length ==> nodes[i] == 0
  {
    count := 0;
    while count < |all| && count < nodes.Length
      invariant 0 <= count <= |all| && count <= nodes.Length
      invariant nodes[..count] == all[..count] && forall i :: count <= i < nodes.Length ==> nodes[i] == 0
    {
      nodes[count] := all[count];
      count := count + 1;
    }
  }

  /**
   `fdtdec_find_aliases_for_id`: `all` are the compatible nodes in order, `as_` the aliases with the
   wanted name in order, `on` the enabled nodes. `claimed` is the list after the aliases were read.
   */
  method FindAliases(all: seq<int>, as_: seq<Alias>, on: set<int>, list: array<int>)
                     returns (top: nat, ghost claimed: seq<int>)
    requires Ascending(all)
    modifies list
    ensures var c := if |all| < list.Length then all else all[..list.Length];
            Slots(c, on, list[..]) && Complete(c, on, list[..]) && Highest(list[..], top) &&
            AllHonoured(c, on, as_, claimed, |as_|) && Asked(as_, claimed, |as_|) && LowestFirst(claimed, list[..])
  {
    hide Slots, Complete, AllHonoured, Asked, LowestFirst, Pending, ReadSoFar;
    forall i | 0 <= i < list.Length {
      list[i] := 0;
    }
    var nodes := new int[list.Length](_ => 0);
    var count := Collect(all, nodes);
    ghost var c := if |all| < list.Length then all else all[..list.Length];
    assert all[..count] == c;
    ReadStart(c, on, as_, nodes[..], list[..]);
    top := ReadAliases(nodes, list, count, as_, on, c);
    claimed := list[..];
    ReadDone(c, on, as_, nodes[..], claimed, top);
    top := PlaceRest(nodes, list, on, top, c);
  }

  lemma ReadStart(c: seq<int>, on: set<int>, as_: seq<Alias>, n: seq<int>, l: seq<int>)
    requires |c| <= |n| == |l| && Ascending(c) && n[..|c|] == c && (forall i :: |c| <= i < |n| ==> n[i] == 0) &&
             forall i :: 0 <= i < |l| ==> l[i] == 0
    ensures ReadSoFar(c, on, as_, n, l, 0, 0)
  {
    assert forall i :: 0 <= i < |c| ==> n[i] == n[..|c|][i];
  }

  lemma ReadDone(c: seq<int>, on: set<int>, as_: seq<Alias>, n: seq<int>, l: seq<int>, top: nat)
    requires ReadSoFar(c, on, as_, n, l, |as_|, top)
    ensures Pending(c, on, n, l) && Highest(l, top) && AllHonoured(c, on, as_, l, |as_|) && Asked(as_, l, |as_|)
  {
  }

  /** With distinct nodes in the slots, a node is in exactly one. */
  lemma ExactlyOne(c: seq<int>, on: set<int>, l: seq<int>, v: int) returns (i: nat)
    requires Ascending(c) && Slots(c, on, l) && Complete(c, on, l) && v in c && v in on
    ensures i < |l| && l[i] == v && forall j :: 0 <= j < |l| && l[j] == v ==> j == i
  {
    i :| 0 <= i < |l| && l[i] == v;
  }
}
