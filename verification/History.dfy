/** The server's table as a function of what happened: accepted hellos and sweeps, in any interleaving. */
module History {
  import opened KidVpn

  datatype Happening = Greeted(mac: Mac, addr: Addr) | Swept

  /** The table after a history, started empty. */
  function After(hist: seq<Happening>): Table {
    if hist == [] then map[]
    else
      var t := After(hist[..|hist| - 1]);
      match hist[|hist| - 1]
      case Greeted(m, a) => Hello(t, m, a)
      case Swept => ServerSweep(t)
  }

  function Sweeps(hist: seq<Happening>): nat {
    if hist == [] then 0 else Sweeps(hist[..|hist| - 1]) + if hist[|hist| - 1].Swept? then 1 else 0
  }

  /** Happening `i` is the last hello of `m`, and it came from `a`. */
  ghost predicate LastHello(hist: seq<Happening>, m: Mac, i: nat, a: Addr) {
    i < |hist| && hist[i] == Greeted(m, a) && forall j :: i < j < |hist| ==> !(hist[j].Greeted? && hist[j].mac == m)
  }

  ghost predicate NeverGreeted(hist: seq<Happening>, m: Mac) {
    forall j :: 0 <= j < |hist| ==> !(hist[j].Greeted? && hist[j].mac == m)
  }

  /** A MAC that never said hello is not in the table. */
  lemma {:induction false} Unknown(hist: seq<Happening>, m: Mac)
    requires NeverGreeted(hist, m)
    ensures m !in After(hist)
  {
    if hist != [] {
      Unknown(hist[..|hist| - 1], m);
    }
  }

  /** After the last hello of `m` the record lives for fewer than six sweeps, at that hello's address. */
  lemma {:induction false} Known(hist: seq<Happening>, m: Mac, i: nat, a: Addr)
    requires LastHello(hist, m, i, a)
    ensures var k := Sweeps(hist[i + 1..]);
            if k < 6 then
              m in After(hist) && After(hist)[m] == Rec(a, HELLO_TIMEOUT - HELLO_PERIOD * k, CLOSE)
              else m !in After(hist)
    decreases |hist|
  {
    AllClosed(hist);
    if i == |hist| - 1 {
      assert hist[i + 1..] == [];
      AllClosed(hist[..i]);
    } else {
      var h := hist[..|hist| - 1];
      Known(h, m, i, a);
      var later := hist[i + 1..];
      assert later[..|later| - 1] == h[i + 1..];
      assert later[|later| - 1] == hist[|hist| - 1];
    }
  }

  lemma {:induction false} AllClosed(hist: seq<Happening>)
    ensures forall m :: m in After(hist) ==> After(hist)[m].stat == CLOSE
  {
    if hist != [] { AllClosed(hist[..|hist| - 1]); }
  }

  lemma {:induction false} LastOf(hist: seq<Happening>, m: Mac) returns (i: nat, a: Addr)
    requires !NeverGreeted(hist, m)
    ensures LastHello(hist, m, i, a)
  {
    var last := hist[|hist| - 1];
    if last.Greeted? && last.mac == m {
      i, a := |hist| - 1, last.addr;
    } else {
      var h := hist[..|hist| - 1];
      assert !NeverGreeted(h, m);
      i, a := LastOf(h, m);
    }
  }

  /** The table is exactly what the history says: present if and only if fewer than six sweeps since the last hello. */
  lemma TableIsHistory(hist: seq<Happening>, m: Mac)
    ensures m in After(hist) <==> exists i: nat, a :: LastHello(hist, m, i, a) && Sweeps(hist[i + 1..]) < 6
    ensures forall i: nat, a :: LastHello(hist, m, i, a) && m in After(hist) ==> After(hist)[m].addr == a
  {
    forall i: nat, a | LastHello(hist, m, i, a)
      ensures m in After(hist) <==> Sweeps(hist[i + 1..]) < 6
      ensures m in After(hist) ==> After(hist)[m].addr == a
    {
      Known(hist, m, i, a);
    }
    if NeverGreeted(hist, m) {
      Unknown(hist, m);
    } else {
      var i, a := LastOf(hist, m);
    }
  }
}
