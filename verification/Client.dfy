/** The client's handlers on its peer table: routing a frame, hole punching, and the alive sweep. */
module Client {
  import opened KidVpn
  import opened ClientTable
  import opened PeerLife
  import Server

  /** The record of a peer, made if there is none. */
  method PeerNode(t: Chains, m: Mac) returns (cli: CliNode)
    requires t.Valid()
    modifies t, t.header, t.repr
    ensures t.Valid() && t.View() == old(t.View())[m := PeerOf(old(t.View()), m)] && fresh(t.repr - old(t.repr))
    ensures cli in t.repr && cli.hwaddr == m && cli.Data() == PeerOf(old(t.View()), m)
  {
    hide Shaped, AllLinked, ByMac, LinksOf;
    ShapedDistinct(t.chains, t.repr);
    ByMacKeys(DataOf(t.repr));
    var found := t.Find(m);
    if found != null {
      return found;
    }
    cli := new CliNode(m, Addr(0, 0), 0);
    t.Add(cli);
    RecordOf(t, cli);
  }

  lemma RecordOf(t: Chains, cli: CliNode)
    requires t.Valid() && cli in t.repr
    ensures cli.hwaddr in t.View() && t.View()[cli.hwaddr] == cli.Data()
  {
    hide Shaped, AllLinked, ByMac, LinksOf;
    ShapedDistinct(t.chains, t.repr);
    ByMacKeys(DataOf(t.repr));
  }

  /** A unicast frame for another client, under the lock. */
  method RouteFrame(t: Chains, m: Mac) returns (route: Route)
    requires t.Valid()
    modifies t, t.header, t.repr
    ensures t.Valid() && t.View() == AfterSend(old(t.View()), m) && fresh(t.repr - old(t.repr))
    ensures route == RouteOf(old(t.View()), m)
    ensures OthersKept(old(t.View()), t.View(), m)
    ensures m in old(t.View()) && old(t.View())[m].stat != CLOSE ==>
              t.View() == old(t.View()) && route == if old(t.View())[m].stat == HPRESPOND then
                Straight else ToServer(false)
    ensures m !in old(t.View()) || old(t.View())[m].stat == CLOSE ==>
              m in t.View() && t.View()[m].stat == CQUERY && t.View()[m].alive == 60 && route == ToServer(true)
  {
    hide Shaped, AllLinked, ByMac, LinksOf, DataOf;
    FrameEffect(t.View(), m);
    var cli := PeerNode(t, m);
    match cli.stat {
      case 0 =>
        t.Store(cli, Rec(cli.addr, PUNCH_ALIVE, CQUERY));
        route := ToServer(true);
      case 3 => route := Straight;
      case _ => route := ToServer(false);
    }
  }

  /** The server's answer to a query; `punch` says that a punch must be sent to the address. */
  method OnAnswer(t: Chains, m: Mac, a: Addr) returns (punch: bool)
    requires t.Valid()
    modifies t.repr
    ensures t.Valid() && t.View() == AfterAnswer(old(t.View()), m, a)
    ensures punch <==> m in old(t.View()) && old(t.View())[m].stat == CQUERY
    ensures OthersKept(old(t.View()), t.View(), m)
    ensures if punch then m in t.View() && t.View()[m] == Rec(a, 60, HPQUERY) else t.View() == old(t.View())
  {
    AnswerEffect(t.View(), m, a);
    hide Shaped, AllLinked, ByMac, LinksOf;
    ShapedDistinct(t.chains, t.repr);
    ByMacKeys(DataOf(t.repr));
    punch := false;
    var cli := t.Find(m);
    if cli != null && cli.stat == CQUERY {
      t.Store(cli, Rec(a, PUNCH_ALIVE, HPQUERY));
      punch := true;
    }
  }

  /** A punch response that came from address `a`. */
  method OnPunch(t: Chains, m: Mac, a: Addr)
    requires t.Valid()
    modifies t.repr
    ensures t.Valid() && t.View() == AfterPunch(old(t.View()), m, a) && OthersKept(old(t.View()), t.View(), m)
    ensures if m in old(t.View()) && old(t.View())[m].stat == HPQUERY && old(t.View())[m].addr == a then
              m in t.View() && t.View()[m] == Rec(a, 60, HPRESPOND) else t.View() == old(t.View())
  {
    PunchEffect(t.View(), m, a);
    hide Shaped, AllLinked, ByMac, LinksOf;
    ShapedDistinct(t.chains, t.repr);
    ByMacKeys(DataOf(t.repr));
    var cli := t.Find(m);
    if cli != null && cli.addr == a {
      if cli.stat == HPQUERY {
        t.Store(cli, Rec(cli.addr, PUNCH_ALIVE, HPRESPOND));
      }
    }
  }

  /** A data packet is delivered if it came from the server's host or from the address on record for its sender. */
  method Delivers(t: Chains, src: Mac, from: Addr, serverIp: nat) returns (toMe: bool)
    requires t.Valid()
    ensures toMe <==> from.ip == serverIp || (src in t.View() && t.View()[src].addr == from)
  {
    hide Shaped, AllLinked, ByMac, LinksOf;
    if from.ip == serverIp {
      return true;
    }
    ShapedDistinct(t.chains, t.repr);
    ByMacKeys(DataOf(t.repr));
    var cli := t.Find(src);
    toMe := cli != null && cli.addr == from;
  }

  // ------------------------------------------------------------------- the sweep

  /** Records where the sweep has passed the nodes in `done`. */
  ghost function AgedAt(data: map<CliNode, Rec>, done: set<CliNode>): map<CliNode, Rec> {
    map n | n in data :: if n in done then ClientTick(data[n]) else data[n]
  }

  lemma AgedNext(data: map<CliNode, Rec>, done: set<CliNode>, cli: CliNode)
    requires cli in data && cli !in done
    ensures AgedAt(data, done)[cli] == data[cli] &&
            AgedAt(data, done + {cli}) == AgedAt(data, done)[cli := ClientTick(data[cli])]
  {
  }

  lemma AgedAll(data: map<CliNode, Rec>, done: set<CliNode>)
    requires Distinct(data.Keys) && data.Keys <= done
    ensures ByMac(AgedAt(data, done)) == ClientSweep(ByMac(data))
  {
    var aged := AgedAt(data, done);
    assert aged.Keys == data.Keys;
    hide ByMac;
    ByMacKeys(data);
    ByMacKeys(aged);
  }

  lemma AgedNone(data: map<CliNode, Rec>)
    ensures AgedAt(data, {}) == data
  {
  }

  lemma AgedKeys(data: map<CliNode, Rec>, done: set<CliNode>)
    ensures AgedAt(data, done).Keys == data.Keys
  {
  }

  /** `kv_cli_hello`, its pass over the peers under the lock. */
  method AgePeers(t: Chains)
    requires t.Valid()
    modifies t.repr
    ensures t.Valid() && t.View() == ClientSweep(old(t.View()))
  {
    hide Shaped, AllLinked, ByMac, LinksOf, Server.Passed, AgedAt;
    ghost var data := DataOf(t.repr);
    ghost var done: set<CliNode> := {};
    AgedNone(data);
    Server.PassedNone(t.chains, t.repr);
    ShapedDistinct(t.chains, t.repr);
    var h := 0;
    while h < HASH_SIZE
      invariant 0 <= h <= HASH_SIZE && t.Valid()
      invariant Server.Passed(t.chains, t.repr, done, h, 0) && DataOf(t.repr) == AgedAt(data, done)
    {
      Server.HeadAt(t, h);
      ghost var k := 0;
      var cli := t.header[h];
      while cli != null
        invariant t.Valid() && 0 <= k <= |t.chains[h]| && cli == NodeAt(t.chains[h], k)
        invariant Server.Passed(t.chains, t.repr, done, h, k) && DataOf(t.repr) == AgedAt(data, done)
        decreases |t.chains[h]| - k
      {
        Server.PassedHere(t.chains, t.repr, done, h, k);
        AgedKeys(data, done);
        AgedNext(data, done, cli);
        NextLinked(t.header[..], t.chains, t.repr, h, k);
        if cli.alive >= HELLO_PERIOD {
          var alive := cli.alive - HELLO_PERIOD;
          t.Store(cli, Rec(cli.addr, alive, if alive <= 0 then CLOSE else cli.stat));
        }
        done := done + {cli};
        cli := cli.next;
        k := k + 1;
      }
      Server.PassedBucket(t.chains, t.repr, done, h);
      h := h + 1;
    }
    Server.PassedEvery(t.chains, t.repr, done);
    AgedKeys(data, done);
    AgedAll(data, done);
  }

  // -------------------------------------------------------------------- whole runs

  /** Whatever frames, messages and sweeps come, the peer table follows the state machine. */
  method Live(es: seq<Event>) returns (t: Chains)
    ensures t.Valid() && t.View() == Run(map[], es) && Good(t.View())
  {
    hide Shaped, AllLinked, ByMac, LinksOf, Run;
    t := new Chains();
    RunNothing();
    var i := 0;
    assert es[..0] == [];
    while i < |es|
      invariant 0 <= i <= |es| && t.Valid() && t.View() == Run(map[], es[..i])
      invariant fresh(t) && fresh(t.header) && fresh(t.repr)
    {
      assert es[..i + 1] == es[..i] + [es[i]];
      RunConcat(map[], es[..i], [es[i]]);
      RunOne(t.View(), es[i]);
      match es[i] {
        case Send(m) => var _ := RouteFrame(t, m);
        case Answer(m, a) => var _ := OnAnswer(t, m, a);
        case Punch(m, a) => OnPunch(t, m, a);
        case Sweep => AgePeers(t);
      }
      i := i + 1;
    }
    assert es[..i] == es;
    RunGood(map[], es);
  }

  lemma RunNothing()
    ensures Run(map[], []) == map[]
  {
  }
}
