/** The server's handlers on its table: registration, query, forwarding, and the timeout sweep. */
module Server {
  import opened Bytes
  import opened KidVpn
  import opened ClientTable
  import opened History

  /** An accepted hello from address `a`. */
  method OnHello(t: Chains, m: Mac, a: Addr)
    requires t.Valid()
    modifies t, t.header, t.repr
    ensures t.Valid() && t.View() == Hello(old(t.View()), m, a) && fresh(t.repr - old(t.repr))
  {
    hide Shaped, AllLinked, ByMac, LinksOf;
    ghost var data := DataOf(t.repr);
    ShapedDistinct(t.chains, t.repr);
    ByMacKeys(data);
    var cli := t.Find(m);
    if cli != null {
      var addr := cli.addr;
      if addr != a {
        addr := a;
      }
      t.Store(cli, Rec(addr, HELLO_TIMEOUT, cli.stat));
    } else {
      cli := new CliNode(m, a, HELLO_TIMEOUT);
      t.Add(cli);
    }
  }

  /** A client query: the address on record, if any. */
  method OnQuery(t: Chains, m: Mac) returns (r: Option<Addr>)
    requires t.Valid()
    ensures r == if m in t.View() then Some(t.View()[m].addr) else None
  {
    hide Shaped, AllLinked, ByMac, LinksOf;
    ShapedDistinct(t.chains, t.repr);
    ByMacKeys(DataOf(t.repr));
    var cli := t.Find(m);
    r := if cli == null then None else Some(cli.addr);
  }

  // ------------------------------------------------------------------- the sweep

  /** Records where the sweep has passed the nodes in `done`. */
  ghost function SweptAt(data: map<CliNode, Rec>, done: set<CliNode>): map<CliNode, Rec> {
    map n | n in data && (n in done ==> ServerTick(data[n]).alive > 0) ::
      if n in done then ServerTick(data[n]) else data[n]
  }

  /** A sweep that has passed every node is the sweep of the table. */
  lemma SweptAll(data: map<CliNode, Rec>)
    requires Distinct(data.Keys)
    ensures ByMac(SweptAt(data, data.Keys)) == ServerSweep(ByMac(data))
  {
    var swept := SweptAt(data, data.Keys);
    assert swept.Keys <= data.Keys;
    hide ByMac;
    ByMacKeys(data);
    ByMacKeys(swept);
  }

  /** The nodes that a pass over the buckets has met when it stands at position `k` of bucket `h`. */
  ghost predicate Passed(chains: seq<seq<CliNode>>, repr: set<CliNode>, done: set<CliNode>, h: nat, k: nat) {
    |chains| == HASH_SIZE && h <= HASH_SIZE && (h < HASH_SIZE ==> k <= |chains[h]|) &&
    forall n ::
      n in repr ==> (n in done <==> Hash(n.hwaddr) < h || (Hash(n.hwaddr) == h && h < HASH_SIZE && n in chains[h][..k]))
  }

  lemma PassedHere(chains: seq<seq<CliNode>>, repr: set<CliNode>, done: set<CliNode>, h: nat, k: nat)
    requires Shaped(chains, repr) && Passed(chains, repr, done, h, k) && h < HASH_SIZE && k < |chains[h]|
    ensures chains[h][k] in repr && chains[h][k] !in done
    ensures Passed(chains, repr, done + {chains[h][k]}, h, k + 1)
  {
    hide Hash;
    var ch := chains[h];
    assert ch[..k + 1] == ch[..k] + [ch[k]];
    assert ch[k] !in ch[..k];
  }

  lemma PassedDrop(chains: seq<seq<CliNode>>, repr: set<CliNode>, done: set<CliNode>, h: nat, k: nat)
    requires Passed(chains, repr, done, h, k) && h < HASH_SIZE && k < |chains[h]|
    ensures var ch := chains[h];
            Passed(chains[h := ch[..k] + ch[k + 1..]], repr - {ch[k]}, done + {ch[k]}, h, k)
  {
    hide Hash;
    var ch := chains[h];
    assert (ch[..k] + ch[k + 1..])[..k] == ch[..k];
  }

  lemma PassedBucket(chains: seq<seq<CliNode>>, repr: set<CliNode>, done: set<CliNode>, h: nat)
    requires Shaped(chains, repr) && h < HASH_SIZE && Passed(chains, repr, done, h, |chains[h]|)
    ensures Passed(chains, repr, done, h + 1, 0)
  {
    hide Hash;
    var ch := chains[h];
    assert ch[..|ch|] == ch;
  }

  lemma SweptKeep(data: map<CliNode, Rec>, done: set<CliNode>, cli: CliNode)
    requires cli in data && cli !in done
    ensures var next := SweptAt(data, done)[cli := ServerTick(data[cli])];
            SweptAt(data, done + {cli}) == if ServerTick(data[cli]).alive > 0 then next else next - {cli}
  {
  }

  /** One bucket of the sweep: dead nodes are unlinked while the chain is being walked. */
  method SweepBucket(t: Chains, h: nat, ghost data: map<CliNode, Rec>, ghost before: set<CliNode>)
                     returns (ghost done: set<CliNode>)
    requires t.Valid() && h < HASH_SIZE && Passed(t.chains, t.repr, before, h, 0)
    requires DataOf(t.repr) == SweptAt(data, before)
    modifies t, t.header, t.repr
    ensures t.Valid() && t.repr <= old(t.repr) && Passed(t.chains, t.repr, done, h + 1, 0)
    ensures DataOf(t.repr) == SweptAt(data, done) && before <= done
  {
    hide Shaped, AllLinked, ByMac, LinksOf, Passed, SweptAt;
    done := before;
    ghost var k := 0;
    HeadAt(t, h);
    var cli := t.header[h];
    while cli != null
      invariant t.Valid() && t.repr <= old(t.repr) && |t.chains| == HASH_SIZE
      invariant k <= |t.chains[h]| && cli == NodeAt(t.chains[h], k)
      invariant Passed(t.chains, t.repr, done, h, k) && DataOf(t.repr) == SweptAt(data, done) && before <= done
      decreases |t.chains[h]| - k
    {
      PassedHere(t.chains, t.repr, done, h, k);
      SweptIs(data, done, cli);
      SweptKeep(data, done, cli);
      NextLinked(t.header[..], t.chains, t.repr, h, k);
      var alive := if cli.alive >= HELLO_PERIOD then cli.alive - HELLO_PERIOD else 0;
      t.Store(cli, Rec(cli.addr, alive, cli.stat));
      if cli.alive <= 0 {
        var del := cli;
        cli := cli.next;
        PassedDrop(t.chains, t.repr, done, h, k);
        t.Delete(del, h, k);
        done := done + {del};
      } else {
        done := done + {cli};
        cli := cli.next;
        k := k + 1;
      }
    }
    PassedBucket(t.chains, t.repr, done, h);
  }

  lemma HeadAt(t: Chains, h: nat)
    requires t.Valid() && h < HASH_SIZE
    ensures |t.chains| == HASH_SIZE && t.header[h] == NodeAt(t.chains[h], 0)
  {
    hide Shaped, AllLinked, LinksOf;
    FirstLinked(t.header[..], t.chains, LinksOf(t.repr), h);
  }

  lemma SweptIs(data: map<CliNode, Rec>, done: set<CliNode>, cli: CliNode)
    requires cli in SweptAt(data, done) && cli !in done
    ensures cli in data && SweptAt(data, done)[cli] == data[cli]
  {
  }

  /** `kv_serv_hello`, one pass under the lock. */
  method Sweep(t: Chains)
    requires t.Valid()
    modifies t, t.header, t.repr
    ensures t.Valid() && t.View() == ServerSweep(old(t.View())) && t.repr <= old(t.repr)
  {
    hide Shaped, AllLinked, ByMac, LinksOf, Passed, SweptAt;
    ghost var data := DataOf(t.repr);
    ghost var done: set<CliNode> := {};
    SweptNone(data);
    PassedNone(t.chains, t.repr);
    ShapedDistinct(t.chains, t.repr);
    var h := 0;
    while h < HASH_SIZE
      invariant 0 <= h <= HASH_SIZE && t.Valid() && t.repr <= old(t.repr)
      invariant Passed(t.chains, t.repr, done, h, 0) && DataOf(t.repr) == SweptAt(data, done)
    {
      done := SweepBucket(t, h, data, done);
      h := h + 1;
    }
    PassedAll(t.chains, t.repr, done, data);
    SweptAll(data);
  }

  lemma SweptNone(data: map<CliNode, Rec>)
    ensures SweptAt(data, {}) == data
  {
  }

  lemma PassedNone(chains: seq<seq<CliNode>>, repr: set<CliNode>)
    requires Shaped(chains, repr)
    ensures Passed(chains, repr, {}, 0, 0)
  {
  }

  lemma PassedAll(chains: seq<seq<CliNode>>, repr: set<CliNode>, done: set<CliNode>, data: map<CliNode, Rec>)
    requires Passed(chains, repr, done, HASH_SIZE, 0) && SweptAt(data, done).Keys == repr
    ensures SweptAt(data, done) == SweptAt(data, data.Keys)
  {
    hide Hash;
    HashBelow();
    forall n | n in data ensures n in done {
      assert n !in done ==> n in SweptAt(data, done).Keys;
    }
  }

  lemma HashBelow()
    ensures forall m: Mac :: Hash(m) < HASH_SIZE
  {
  }

  // ------------------------------------------------------------------ forwarding

  /** A frame sent to the address on record for a MAC. */
  datatype Sending = Sending(mac: Mac, addr: Addr)

  /** Every target is sent to exactly once, at the address on record, and nobody else is. */
  ghost predicate Reaches(sent: seq<Sending>, t: Table, targets: set<Mac>) {
    (forall i, j :: 0 <= i < j < |sent| ==> sent[i].mac != sent[j].mac) &&
    (forall i ::
      0 <= i < |sent| ==> sent[i].mac in targets && sent[i].mac in t && sent[i].addr == t[sent[i].mac].addr) &&
    (forall m :: m in targets ==> exists i :: 0 <= i < |sent| && sent[i].mac == m)
  }

  ghost predicate Visited(sent: seq<Sending>, data: map<CliNode, Rec>, done: set<CliNode>, skip: CliNode?) {
    (forall i, j :: 0 <= i < j < |sent| ==> sent[i].mac != sent[j].mac) &&
    (forall x ::
      x in sent ==> exists n :: n in done && n in data && n != skip && x == Sending(n.hwaddr, data[n].addr)) &&
    (forall n :: n in done && n in data && n != skip ==> Sending(n.hwaddr, data[n].addr) in sent)
  }

  lemma VisitedNext(sent: seq<Sending>, data: map<CliNode, Rec>, done: set<CliNode>, skip: CliNode?, n: CliNode)
    requires Distinct(data.Keys) && Visited(sent, data, done, skip) && n in data && n !in done
    ensures Visited(if n == skip then sent else sent + [Sending(n.hwaddr, data[n].addr)], data, done + {n}, skip)
  {
    if n != skip {
      var sent' := sent + [Sending(n.hwaddr, data[n].addr)];
      forall i | 0 <= i < |sent| ensures sent[i].mac != n.hwaddr {
        assert sent[i] in sent;
      }
      forall x | x in sent' ensures exists y ::
        y in done + {n} && y in data && y != skip && x == Sending(y.hwaddr, data[y].addr) {
        if x !in sent {
          assert n in done + {n};
        }
      }
    }
  }

  lemma VisitedAll(sent: seq<Sending>, data: map<CliNode, Rec>, done: set<CliNode>, skip: CliNode?)
    requires Distinct(data.Keys) && Visited(sent, data, done, skip) && (forall n :: n in data ==> n in done) &&
             (skip != null ==> skip in data)
    ensures Reaches(sent, ByMac(data), ByMac(data).Keys - (if skip == null then {} else {skip.hwaddr}))
  {
    hide ByMac;
    ByMacKeys(data);
    forall i | 0 <= i < |sent|
      ensures sent[i].mac in ByMac(data) && (skip != null ==> sent[i].mac != skip.hwaddr) &&
              sent[i].addr == ByMac(data)[sent[i].mac].addr
    {
      assert sent[i] in sent;
    }
  }

  /** The broadcast loops: every client but `skip`. */
  method Broadcast(t: Chains, skip: CliNode?) returns (sent: seq<Sending>)
    requires t.Valid() && (skip != null ==> skip in t.repr)
    ensures Reaches(sent, t.View(), t.View().Keys - (if skip == null then {} else {skip.hwaddr}))
  {
    hide Shaped, AllLinked, ByMac, LinksOf, Passed, Visited, Reaches;
    sent := [];
    ghost var done: set<CliNode> := {};
    ghost var data := DataOf(t.repr);
    PassedNone(t.chains, t.repr);
    VisitedNone(data, skip);
    ShapedDistinct(t.chains, t.repr);
    var h := 0;
    while h < HASH_SIZE
      invariant 0 <= h <= HASH_SIZE && Passed(t.chains, t.repr, done, h, 0) && Visited(sent, data, done, skip)
    {
      HeadAt(t, h);
      ghost var k := 0;
      var dest := t.header[h];
      while dest != null
        invariant 0 <= k <= |t.chains[h]| && dest == NodeAt(t.chains[h], k)
        invariant Passed(t.chains, t.repr, done, h, k) && Visited(sent, data, done, skip)
        decreases |t.chains[h]| - k
      {
        PassedHere(t.chains, t.repr, done, h, k);
        VisitedNext(sent, data, done, skip, dest);
        NextLinked(t.header[..], t.chains, t.repr, h, k);
        if dest != skip {
          sent := sent + [Sending(dest.hwaddr, dest.addr)];
        }
        done := done + {dest};
        dest := dest.next;
        k := k + 1;
      }
      PassedBucket(t.chains, t.repr, done, h);
      h := h + 1;
    }
    PassedEvery(t.chains, t.repr, done);
    VisitedAll(sent, data, done, skip);
  }

  lemma VisitedNone(data: map<CliNode, Rec>, skip: CliNode?)
    ensures Visited([], data, {}, skip)
  {
  }

  lemma PassedEvery(chains: seq<seq<CliNode>>, repr: set<CliNode>, done: set<CliNode>)
    requires Passed(chains, repr, done, HASH_SIZE, 0)
    ensures repr <= done
  {
    hide Hash;
    HashBelow();
  }

  /** A data frame: sender, destination, whether the destination is a group, and where it came from. */
  datatype Packet = Packet(src: Mac, dst: Mac, group: bool, from: Addr)

  /** The server takes frames only from clients it knows, from the address it knows. */
  predicate Trusted(t: Table, p: Packet) {
    p.src in t && t[p.src].addr == p.from
  }

  /** A data packet from the network: where it is forwarded, and whether the server's own device gets it. */
  method Forward(t: Chains, p: Packet, own: Mac) returns (sent: seq<Sending>, toMe: bool)
    requires t.Valid()
    ensures var v := t.View();
            if !Trusted(v, p) then sent == [] && !toMe
            else if p.group then toMe && Reaches(sent, v, v.Keys - {p.src})
            else Reaches(sent, v, {p.dst} * v.Keys) && (toMe <==> p.dst !in v && p.dst == own)
  {
    hide Shaped, AllLinked, ByMac, LinksOf;
    ShapedDistinct(t.chains, t.repr);
    ByMacKeys(DataOf(t.repr));
    sent, toMe := [], false;
    var cli := t.Find(p.src);
    if cli != null && cli.addr == p.from {
      if p.group {
        sent := Broadcast(t, cli);
        toMe := true;
      } else {
        var dest := t.Find(p.dst);
        if dest != null {
          sent := [Sending(p.dst, dest.addr)];
          assert sent[0].mac == p.dst;
        } else if p.dst == own {
          toMe := true;
        }
      }
    }
  }

  // -------------------------------------------------------------------- whole runs

  /** Critical sections of the two threads in any order: the table is a function of the history. */
  method Serve(hist: seq<Happening>) returns (t: Chains)
    ensures t.Valid() && t.View() == After(hist)
  {
    hide Shaped, AllLinked, ByMac, LinksOf;
    t := new Chains();
    var i := 0;
    assert hist[..0] == [];
    while i < |hist|
      invariant 0 <= i <= |hist| && t.Valid() && t.View() == After(hist[..i])
      invariant fresh(t) && fresh(t.header) && fresh(t.repr)
    {
      assert hist[..i + 1][..i] == hist[..i];
      match hist[i] {
        case Greeted(m, a) => OnHello(t, m, a);
        case Swept => Sweep(t);
      }
      i := i + 1;
    }
    assert hist[..i] == hist;
  }

  /** A broadcast after any history reaches every other live client exactly once. */
  lemma BroadcastReachesLive(hist: seq<Happening>, sent: seq<Sending>, src: Mac, m: Mac, i: nat, a: Addr)
    requires Reaches(sent, After(hist), After(hist).Keys - {src}) && m != src
    requires LastHello(hist, m, i, a)
    ensures Sweeps(hist[i + 1..]) < 6 <==> Sending(m, a) in sent
    ensures forall x, y :: 0 <= x < y < |sent| ==> sent[x].mac != sent[y].mac
  {
    Known(hist, m, i, a);
    if Sweeps(hist[i + 1..]) < 6 {
      assert m in After(hist).Keys - {src};
      var k :| 0 <= k < |sent| && sent[k].mac == m;
      assert sent[k] == Sending(m, a);
    }
  }
}
