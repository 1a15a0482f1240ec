/** Absolute paths: `fdt_path_offset` against the tree. */
module Paths {
  import opened Bytes
  import opened DeviceTree
  import opened Lexer
  import opened Walk
  import opened Rewrite
  import opened ReadWrite
  import opened TreeWalk
  import Fixups

  const SLASH: Byte := 47

  /** The node that a path names below `t`: components between slashes, each the first child that matches. */
  function Resolve(t: Node, s: seq<Byte>): Option<Path>
    decreases |s|
  {
    if s == [] then Some([])
    else if s[0] == SLASH then Resolve(t, s[1..])
    else
      var k := Fixups.Find(s, SLASH);
      var i := MatchKid(t.kids, s[..k]);
      if k == 0 || i == |t.kids| then None
      else match Resolve(t.kids[i], s[k..])
        case None => None
        case Some(p) => Some([i] + p)
  }

  /** The path found, if there is one. */
  function PathFor(t: Node, s: seq<Byte>): Path {
    match Resolve(t, s) case Some(p) => p case None => []
  }

  predicate Absolute(s: seq<Byte>) {
    s != [] && s[0] == SLASH
  }

  /** A path found is a path of the tree. */
  lemma {:induction false} ResolveValid(t: Node, s: seq<Byte>)
    ensures Resolve(t, s).Some? ==> ValidPath(t, Resolve(t, s).value)
    decreases |s|
  {
    hide MatchKid, Fixups.Find;
    if s != [] {
      if s[0] == SLASH {
        ResolveValid(t, s[1..]);
      } else {
        var k := Fixups.Find(s, SLASH);
        var i := MatchKid(t.kids, s[..k]);
        if k > 0 && i < |t.kids| {
          ResolveValid(t.kids[i], s[k..]);
        }
      }
    }
  }

  /** What is still to be resolved below a node already reached. */
  function Continue(t: Node, path: Path, s: seq<Byte>): Option<Path> {
    match Resolve(At(t, path), s)
    case None => None
    case Some(p) => Some(path + p)
  }

  /** The components of a path: its stretches without slashes. */
  function Parts(s: seq<Byte>): seq<seq<Byte>>
    decreases |s|
  {
    if s == [] then []
    else if s[0] == SLASH then Parts(s[1..])
    else
      var k := Fixups.Find(s, SLASH);
      if k == 0 then [] else [s[..k]] + Parts(s[k..])
  }

  /** The node at `p` is reached by the components: each selects the first child that matches it. */
  predicate Reached(t: Node, ps: seq<seq<Byte>>, p: Path) {
    |p| == |ps| && (ps == [] || (p[0] < |t.kids| && MatchKid(t.kids, ps[0]) == p[0] &&
                                 Reached(t.kids[p[0]], ps[1..], p[1..])))
  }

  lemma FindSome(s: seq<Byte>)
    requires s != [] && s[0] != SLASH
    ensures Fixups.Find(s, SLASH) > 0
  {
  }

  /** A path leads to a node exactly if its components reach it one by one. */
  lemma {:induction false} ResolveExact(t: Node, s: seq<Byte>, p: Path)
    ensures Resolve(t, s) == Some(p) <==> Reached(t, Parts(s), p)
    decreases |s|
  {
    hide MatchKid, Fixups.Find;
    if s != [] {
      if s[0] == SLASH {
        ResolveExact(t, s[1..], p);
      } else {
        var k := Fixups.Find(s, SLASH);
        FindSome(s);
        var i := MatchKid(t.kids, s[..k]);
        var ps := Parts(s);
        assert ps[0] == s[..k] && ps[1..] == Parts(s[k..]);
        if i < |t.kids| {
          if p != [] { ResolveExact(t.kids[i], s[k..], p[1..]); }
          var r := Resolve(t.kids[i], s[k..]);
          if r.Some? {
            assert ([i] + r.value)[1..] == r.value;
            ResolveExact(t.kids[i], s[k..], r.value);
          }
          if p != [] { assert p == [p[0]] + p[1..]; }
        }
      }
    }
  }

  lemma PartsStep(s: seq<Byte>)
    ensures s == [] ==> Parts(s) == []
    ensures s != [] && s[0] == SLASH ==> Parts(s) == Parts(s[1..])
    ensures s != [] && s[0] != SLASH ==>
              var k := Fixups.Find(s, SLASH); 0 < k <= |s| && Parts(s) == [s[..k]] + Parts(s[k..])
  {
    hide Fixups.Find;
    if s != [] && s[0] != SLASH { FindSome(s); }
  }

  /** The components of two paths one behind the other. */
  lemma {:induction false} PartsConcat(s: seq<Byte>, rest: seq<Byte>)
    requires Absolute(rest)
    ensures Parts(s + rest) == Parts(s) + Parts(rest)
    decreases |s|
  {
    hide Fixups.Find, Parts;
    PartsStep(s);
    PartsStep(s + rest);
    assert s != [] ==> (s + rest)[0] == s[0];
    if s == [] {
      assert s + rest == rest && [] + Parts(rest) == Parts(rest);
    } else if s[0] == SLASH {
      assert (s + rest)[1..] == s[1..] + rest;
      PartsConcat(s[1..], rest);
    } else {
      var k := Fixups.Find(s, SLASH);
      FindAppend(s, rest);
      assert (s + rest)[..k] == s[..k] && (s + rest)[k..] == s[k..] + rest;
      PartsConcat(s[k..], rest);
      Assoc([s[..k]], Parts(s[k..]), Parts(rest));
    }
  }

  lemma {:induction false} FindNone(s: seq<Byte>)
    requires SLASH !in s
    ensures Fixups.Find(s, SLASH) == |s|
    decreases |s|
  {
    if s != [] {
      assert s[0] in s;
      FindNone(s[1..]);
    }
  }

  /** One component. */
  lemma PartsOne(name: seq<Byte>)
    requires name != [] && SLASH !in name
    ensures Parts([SLASH] + name) == [name]
  {
    hide Parts;
    var s, k := [SLASH] + name, Fixups.Find(name, SLASH);
    assert s[1..] == name && name[0] in name;
    FindNone(name);
    assert name[..k] == name && name[k..] == [];
    PartsStep(s);
    PartsStep(name);
    PartsStep(name[k..]);
  }

  /** A path of two parts is resolved one after the other. */
  lemma {:induction false} ResolveAppend(t: Node, s: seq<Byte>, rest: seq<Byte>)
    requires Absolute(rest)
    ensures Resolve(t, s + rest) == match Resolve(t, s) case None => None case Some(p) => Continue(t, p, rest)
    decreases |s|
  {
    hide MatchKid, Fixups.Find, At;
    if s == [] {
      assert s + rest == rest;
      ContinueStart(t, rest);
    } else if s[0] == SLASH {
      assert (s + rest)[1..] == s[1..] + rest;
      ResolveAppend(t, s[1..], rest);
    } else {
      var k := Fixups.Find(s, SLASH);
      FindAppend(s, rest);
      assert (s + rest)[..k] == s[..k] && (s + rest)[k..] == s[k..] + rest;
      var i := MatchKid(t.kids, s[..k]);
      if k > 0 && i < |t.kids| {
        ResolveAppend(t.kids[i], s[k..], rest);
        if Resolve(t.kids[i], s[k..]).Some? { AppendStep(t, i, Resolve(t.kids[i], s[k..]), rest); }
      }
    }
  }

  lemma {:induction false} FindAppend(s: seq<Byte>, rest: seq<Byte>)
    requires Absolute(rest)
    ensures Fixups.Find(s + rest, SLASH) == Fixups.Find(s, SLASH) <= |s|
    decreases |s|
  {
    if s == [] {
      assert s + rest == rest;
    } else {
      assert (s + rest)[1..] == s[1..] + rest;
      FindAppend(s[1..], rest);
    }
  }

  lemma AppendStep(t: Node, i: nat, r: Option<Path>, rest: seq<Byte>)
    requires i < |t.kids| && r.Some?
    ensures At(t, [i] + r.value) == At(t.kids[i], r.value)
    ensures Continue(t, [i] + r.value, rest) == match Continue(t.kids[i], r.value, rest)
                                                case None => None
                                                case Some(p) => Some([i] + p)
  {
    hide Resolve;
    assert ([i] + r.value)[1..] == r.value;
    var x := Resolve(At(t.kids[i], r.value), rest);
    if x.Some? { Assoc([i], r.value, x.value); }
  }

  lemma ContinueSlash(t: Node, path: Path, s: seq<Byte>)
    requires Absolute(s)
    ensures Continue(t, path, s) == Continue(t, path, s[1..])
  {
    hide At;
  }

  lemma ContinueStep(t: Node, path: Path, s: seq<Byte>, k: nat)
    requires ValidPath(t, path) && s != [] && s[0] != SLASH && k == Fixups.Find(s, SLASH)
    ensures 0 < k <= |s|
    ensures var i := MatchKid(At(t, path).kids, s[..k]);
            Continue(t, path, s) == if i < |At(t, path).kids| then Continue(t, path + [i], s[k..]) else None
  {
    hide At, MatchKid, Before;
    var n := At(t, path);
    var i := MatchKid(n.kids, s[..k]);
    if i < |n.kids| {
      ChildAt(t, path, i);
      var r := Resolve(n.kids[i], s[k..]);
      if r.Some? {
        Assoc(path, [i], r.value);
      }
    }
  }

  /** `fdt_path_offset_namelen` on a path that begins with a slash. */
  method PathOffset(b: seq<Byte>, s: seq<Byte>, ghost t: Node) returns (offset: int)
    requires NodeOff(b, t, [], 0) && Absolute(s)
    ensures Resolve(t, s).None? ==> offset == -FDT_ERR_NOTFOUND
    ensures Resolve(t, s).Some? ==> offset >= 0 && NodeOff(b, t, Resolve(t, s).value, offset)
  {
    hide NodeOff, At, MatchKid, Resolve, Fixups.Find, Inside;
    offset := 0;
    ghost var path: Path := [];
    var rest := s;
    ContinueStart(t, s);
    while rest != []
      invariant NodeOff(b, t, path, offset) && offset >= 0 && Continue(t, [], s) == Continue(t, path, rest)
      decreases |rest|
    {
      if rest[0] == SLASH {
        ContinueSlash(t, path, rest);
        rest := rest[1..];
      } else {
        var k := Fixups.Find(rest, SLASH);
        NodeOffPath(b, t, path, offset);
        ContinueStep(t, path, rest, k);
        ghost var i := MatchKid(At(t, path).kids, rest[..k]);
        offset := FindKidOf(b, offset, rest[..k], t, path);
        if offset < 0 {
          KidNegative(b, t, path, i, offset);
          return;
        }
        path := path + [i];
        rest := rest[k..];
      }
    }
    ContinueEnd(t, path);
  }

  lemma ContinueStart(t: Node, s: seq<Byte>)
    ensures Continue(t, [], s) == Resolve(t, s)
  {
    hide Resolve;
    var r := Resolve(t, s);
    if r.Some? { assert [] + r.value == r.value; }
  }

  lemma ContinueEnd(t: Node, path: Path)
    ensures Continue(t, path, []) == Some(path)
  {
    hide At;
    assert path + [] == path;
  }

  lemma KidNegative(b: seq<Byte>, t: Node, path: Path, i: nat, o: int)
    requires o < 0 && (i < |At(t, path).kids| ==> NodeOff(b, t, path + [i], o))
    ensures i >= |At(t, path).kids|
  {
    hide At, Before;
    if i < |At(t, path).kids| {
      NodeOffIs(b, t, path + [i], o);
    }
  }

  /** The C string at the front of a value. */
  function CString(v: seq<Byte>): seq<Byte> {
    v[..NulAt(v, 0)]
  }
}
