/**
 The whole network: one server, one client per MAC, and messages that may be lost, duplicated and
 reordered. Each client has two threads whose critical sections are atomic steps; a frame or a
 punch decided under the lock is sent in a later step, after the lock was released.
 */
module Network {
  import opened KidVpn

  datatype Body =
    | HelloMsg(mac: Mac, mtu: nat)
    | MtuError(code: nat)
    | CQuery(mac: Mac)
    | CRespond(mac: Mac, addr: Addr)
    | HpQuery(mac: Mac)
    | HpRespond(mac: Mac)

  /** A control message with the address it came from. */
  datatype Msg = Msg(from: Addr, body: Body)

  /** What a client's main thread still has to send after releasing the lock. */
  datatype Pending = Idle | Punch(mac: Mac) | Forward(mac: Mac)

  datatype Client = Client(mtu: nat, peers: Table, pending: Pending)

  /** What is remembered of a run. */
  datatype Fact =
    | Accepted(mac: Mac, addr: Addr)              // the server took a hello
    | Responded(mac: Mac, addr: Addr)             // the owner of the MAC answered a punch from that address
    | Direct(sender: Mac, peer: Mac, to: Addr)    // a frame went straight to a peer

  datatype Net = Net(mtu: nat, server: Table, clients: map<Mac, Client>, sent: set<Msg>, log: seq<Fact>)

  /**
   One step; `at` is the address that the rest of the network sees the acting client at, which may
   change at any time.
   */
  datatype Action =
    | SayHello(c: Mac, at: Addr)
    | Age(c: Mac)
    | Frame(c: Mac, dest: Mac, at: Addr)
    | Emit(c: Mac, at: Addr)
    | Receive(c: Mac, msg: Msg, at: Addr)
    | Serve(msg: Msg, at: Addr)
    | Expire

  // --------------------------------------------------------------------- steps

  function SetClient(s: Net, c: Mac, cl: Client): Net {
    s.(clients := s.clients[c := cl])
  }

  /** The server's main loop on a control message. */
  function ServeMsg(s: Net, msg: Msg, at: Addr): Net {
    match msg.body
    case HelloMsg(m, mtu) =>
      if mtu != s.mtu then s.(sent := s.sent + {Msg(at, MtuError(s.mtu))})
      else s.(server := Hello(s.server, m, msg.from), log := s.log + [Accepted(m, msg.from)])
    case CQuery(m) =>
      if m in s.server then s.(sent := s.sent + {Msg(at, CRespond(m, s.server[m].addr))}) else s
    case _ => s
  }

  /** A client's main loop on a control message. */
  function ReceiveMsg(s: Net, c: Mac, cl: Client, msg: Msg, at: Addr): Net {
    match msg.body
    case MtuError(code) => SetClient(s, c, cl.(mtu := code))
    case CRespond(m, a) =>
      SetClient(s, c, cl.(peers := AfterAnswer(cl.peers, m, a), pending := if Awaits(cl.peers, m) then
        Punch(m) else Idle))
    case HpQuery(m) =>
      if m == c then s.(sent := s.sent + {Msg(at, HpRespond(c))}, log := s.log + [Responded(c, at)]) else s
    case HpRespond(m) => SetClient(s, c, cl.(peers := AfterPunch(cl.peers, m, msg.from)))
    case _ => s
  }

  /** A unicast frame for another client, up to the release of the lock. */
  function SendFrame(s: Net, c: Mac, cl: Client, m: Mac, at: Addr): Net {
    var next := cl.(peers := AfterSend(cl.peers, m));
    match RouteOf(cl.peers, m)
    case Straight => SetClient(s, c, next.(pending := Forward(m)))
    case ToServer(query) => SetClient(s, c, next).(sent := s.sent + if query then {Msg(at, CQuery(m))} else {})
  }

  /** The send after the lock was released: it reads the peer's address again. */
  function EmitPending(s: Net, c: Mac, cl: Client, at: Addr): Net {
    match cl.pending
    case Idle => s
    case Punch(m) => SetClient(s, c, cl.(pending := Idle)).(sent := s.sent + {Msg(at, HpQuery(m))})
    case Forward(m) => SetClient(s, c, cl.(pending := Idle)).(log := s.log + [Direct(c, m, PeerOf(cl.peers, m).addr)])
  }

  /** A step of the network; a step that is not enabled changes nothing. */
  function Apply(s: Net, a: Action): Net {
    match a
    case Serve(msg, at) => if msg in s.sent then ServeMsg(s, msg, at) else s
    case Expire => s.(server := ServerSweep(s.server))
    case SayHello(c, at) => if c in s.clients then s.(sent := s.sent + {Msg(at, HelloMsg(c, s.clients[c].mtu))}) else s
    case Age(c) => if c in s.clients then
      SetClient(s, c, s.clients[c].(peers := ClientSweep(s.clients[c].peers))) else s
    case Frame(c, m, at) => if c in s.clients && s.clients[c].pending.Idle? then
      SendFrame(s, c, s.clients[c], m, at) else s
    case Emit(c, at) => if c in s.clients then EmitPending(s, c, s.clients[c], at) else s
    case Receive(c, msg, at) =>
      if c in s.clients && s.clients[c].pending.Idle? && msg in s.sent then
        ReceiveMsg(s, c, s.clients[c], msg, at) else s
  }

  function Run(s: Net, acts: seq<Action>): Net
    decreases |acts|
  {
    if acts == [] then s else Run(Apply(s, acts[0]), acts[1..])
  }

  /** Nobody knows anybody and nothing was sent. */
  ghost predicate Start(s: Net) {
    s.server == map[] && s.sent == {} && s.log == [] &&
    forall c :: c in s.clients ==> s.clients[c].peers == map[] && s.clients[c].pending == Idle
  }

  // ----------------------------------------------------------------- the invariant

  ghost predicate ServerKnows(s: Net) {
    forall m :: m in s.server ==> Accepted(m, s.server[m].addr) in s.log
  }

  predicate MsgTrue(msg: Msg, log: seq<Fact>) {
    match msg.body
    case CRespond(m, a) => Accepted(m, a) in log
    case HpRespond(m) => Responded(m, msg.from) in log
    case _ => true
  }

  ghost predicate MessagesTrue(s: Net) {
    forall msg :: msg in s.sent ==> MsgTrue(msg, s.log)
  }

  /** An address that punching may use, and one that it has proved. */
  predicate RecTrue(m: Mac, r: Rec, log: seq<Fact>) {
    (r.stat == HPQUERY || r.stat == HPRESPOND ==> Accepted(m, r.addr) in log) &&
    (r.stat == HPRESPOND ==> Responded(m, r.addr) in log)
  }

  ghost predicate ClientTrue(cl: Client, log: seq<Fact>) {
    (forall m :: m in cl.peers ==> RecTrue(m, cl.peers[m], log)) &&
    (cl.pending.Forward? ==>
       var m := cl.pending.mac;
       m in cl.peers && Accepted(m, cl.peers[m].addr) in log && Responded(m, cl.peers[m].addr) in log)
  }

  ghost predicate ClientsTrue(s: Net) {
    forall c :: c in s.clients ==> ClientTrue(s.clients[c], s.log)
  }

  /** Every direct frame was preceded by an accepted hello and by a punch response, both for its address. */
  ghost predicate Safe(log: seq<Fact>) {
    forall k :: 0 <= k < |log| && log[k].Direct? ==>
      Accepted(log[k].peer, log[k].to) in log[..k] && Responded(log[k].peer, log[k].to) in log[..k]
  }

  ghost predicate Inv(s: Net) {
    ServerKnows(s) && MessagesTrue(s) && ClientsTrue(s) && Safe(s.log)
  }

  // ------------------------------------------------- what a step is made of keeps it

  lemma LogInv(s: Net, f: Fact)
    requires Inv(s) && (f.Direct? ==> Accepted(f.peer, f.to) in s.log && Responded(f.peer, f.to) in s.log)
    ensures Inv(s.(log := s.log + [f]))
  {
    hide RecTrue, MsgTrue;
    var log' := s.log + [f];
    forall k | 0 <= k < |log'| && log'[k].Direct?
      ensures Accepted(log'[k].peer, log'[k].to) in log'[..k] && Responded(log'[k].peer, log'[k].to) in log'[..k]
    {
      assert log'[..k] == s.log[..k];
    }
    LogMonotone(s.log, f);
  }

  lemma LogMonotone(log: seq<Fact>, f: Fact)
    ensures forall msg :: MsgTrue(msg, log) ==> MsgTrue(msg, log + [f])
    ensures forall m, r :: RecTrue(m, r, log) ==> RecTrue(m, r, log + [f])
  {
  }

  lemma SentInv(s: Net, msg: Msg)
    requires Inv(s) && MsgTrue(msg, s.log)
    ensures Inv(s.(sent := s.sent + {msg}))
  {
    hide RecTrue, MsgTrue, Safe;
  }

  lemma ClientInv(s: Net, c: Mac, cl: Client)
    requires Inv(s) && ClientTrue(cl, s.log)
    ensures Inv(SetClient(s, c, cl))
  {
    hide RecTrue, MsgTrue, Safe, ClientTrue;
  }

  lemma ServerInv(s: Net, t: Table)
    requires Inv(s) && forall m :: m in t ==> Accepted(m, t[m].addr) in s.log
    ensures Inv(s.(server := t))
  {
    hide RecTrue, MsgTrue, Safe, ClientTrue;
  }

  // --------------------------------------------------------------------- each step

  lemma ServeInv(s: Net, msg: Msg, at: Addr)
    requires Inv(s) && msg in s.sent
    ensures Inv(ServeMsg(s, msg, at))
  {
    hide RecTrue, Safe, ClientTrue, Inv;
    match msg.body
    case HelloMsg(m, mtu) =>
      if mtu != s.mtu {
        SentInv(s, Msg(at, MtuError(s.mtu)));
      } else {
        var s1 := s.(log := s.log + [Accepted(m, msg.from)]);
        LogInv(s, Accepted(m, msg.from));
        InvParts(s1);
        ServerInv(s1, Hello(s.server, m, msg.from));
      }
    case CQuery(m) =>
      if m in s.server {
        InvParts(s);
        SentInv(s, Msg(at, CRespond(m, s.server[m].addr)));
      }
    case _ =>
  }

  lemma InvParts(s: Net)
    requires Inv(s)
    ensures ServerKnows(s) && MessagesTrue(s) && ClientsTrue(s)
  {
  }

  lemma ReceiveInv(s: Net, c: Mac, msg: Msg, at: Addr)
    requires Inv(s) && c in s.clients && s.clients[c].pending.Idle? && msg in s.sent
    ensures Inv(ReceiveMsg(s, c, s.clients[c], msg, at))
  {
    hide Safe, Inv;
    InvParts(s);
    var cl := s.clients[c];
    match msg.body
    case MtuError(code) => ClientInv(s, c, cl.(mtu := code));
    case CRespond(m, a) =>
      ClientInv(s, c, cl.(peers := AfterAnswer(cl.peers, m, a), pending := if Awaits(cl.peers, m) then
        Punch(m) else Idle));
    case HpQuery(m) =>
      if m == c {
        LogInv(s, Responded(c, at));
        SentInv(s.(log := s.log + [Responded(c, at)]), Msg(at, HpRespond(c)));
      }
    case HpRespond(m) => ClientInv(s, c, cl.(peers := AfterPunch(cl.peers, m, msg.from)));
    case _ =>
  }

  lemma FrameInv(s: Net, c: Mac, m: Mac, at: Addr)
    requires Inv(s) && c in s.clients && s.clients[c].pending.Idle?
    ensures Inv(SendFrame(s, c, s.clients[c], m, at))
  {
    hide Safe, Inv;
    InvParts(s);
    var cl := s.clients[c];
    var next := cl.(peers := AfterSend(cl.peers, m));
    match RouteOf(cl.peers, m)
    case Straight => ClientInv(s, c, next.(pending := Forward(m)));
    case ToServer(query) =>
      ClientInv(s, c, next);
      var s1 := SetClient(s, c, next);
      SentInv(s1, Msg(at, CQuery(m)));
      assert s1.(sent := s.sent + {}) == s1;
  }

  lemma EmitInv(s: Net, c: Mac, at: Addr)
    requires Inv(s) && c in s.clients
    ensures Inv(EmitPending(s, c, s.clients[c], at))
  {
    hide Safe, Inv;
    InvParts(s);
    var cl := s.clients[c];
    ClientInv(s, c, cl.(pending := Idle));
    var s1 := SetClient(s, c, cl.(pending := Idle));
    match cl.pending
    case Idle =>
    case Punch(m) => SentInv(s1, Msg(at, HpQuery(m)));
    case Forward(m) => LogInv(s1, Direct(c, m, PeerOf(cl.peers, m).addr));
  }

  lemma AgeInv(s: Net, c: Mac)
    requires Inv(s) && c in s.clients
    ensures Inv(Apply(s, Age(c)))
  {
    hide Safe, Inv;
    InvParts(s);
    ClientInv(s, c, s.clients[c].(peers := ClientSweep(s.clients[c].peers)));
  }

  lemma ExpireInv(s: Net)
    requires Inv(s)
    ensures Inv(Apply(s, Expire))
  {
    hide Safe, Inv, ClientTrue;
    InvParts(s);
    ServerInv(s, ServerSweep(s.server));
  }

  /** Every step keeps the invariant. */
  lemma ApplyInv(s: Net, a: Action)
    requires Inv(s)
    ensures Inv(Apply(s, a))
  {
    hide Inv, ServeMsg, ReceiveMsg, SendFrame, EmitPending;
    match a
    case Serve(msg, at) => if msg in s.sent { ServeInv(s, msg, at); }
    case Expire => ExpireInv(s);
    case SayHello(c, at) => if c in s.clients { SentInv(s, Msg(at, HelloMsg(c, s.clients[c].mtu))); }
    case Age(c) => if c in s.clients { AgeInv(s, c); }
    case Frame(c, m, at) => if c in s.clients && s.clients[c].pending.Idle? { FrameInv(s, c, m, at); }
    case Emit(c, at) => if c in s.clients { EmitInv(s, c, at); }
    case Receive(c, msg, at) => if c in s.clients && s.clients[c].pending.Idle? &&
        msg in s.sent { ReceiveInv(s, c, msg, at); }
  }

  lemma {:induction false} RunInv(s: Net, acts: seq<Action>)
    requires Inv(s)
    ensures Inv(Run(s, acts))
    decreases |acts|
  {
    hide Inv, Apply;
    if acts != [] {
      ApplyInv(s, acts[0]);
      RunInv(Apply(s, acts[0]), acts[1..]);
    }
  }

  /** Safety of hole punching in every run. */
  lemma PunchingSafe(s: Net, acts: seq<Action>)
    requires Start(s)
    ensures Safe(Run(s, acts).log)
  {
    RunInv(s, acts);
  }

  // ------------------------------------------- punching succeeds, under steady traffic too

  lemma RunNone(s: Net)
    ensures Run(s, []) == s
  {
  }

  /** The ten steps of an undisturbed punch. */
  function PunchSteps(mtu: nat, c: Mac, d: Mac, a: Addr, x: Addr): (r: seq<Action>)
    ensures |r| == 10
  {
    [SayHello(d, a), Serve(Msg(a, HelloMsg(d, mtu)), x), Frame(c, d, x), Serve(Msg(x, CQuery(d)), x),
     Receive(c, Msg(x, CRespond(d, a)), x), Emit(c, x), Receive(d, Msg(x, HpQuery(d)), a),
     Receive(c, Msg(a, HpRespond(d)), x), Frame(c, d, x), Emit(c, x)]
  }

  /** Action `f` that many times. */
  function Repeated(f: Action, n: nat): seq<Action> {
    if n == 0 then [] else [f] + Repeated(f, n - 1)
  }

  /** The actions with `f` put in before each of them and after the last, as often as `ns` says. */
  function Stuffed(acts: seq<Action>, f: Action, ns: seq<nat>): seq<Action>
    requires |ns| == |acts| + 1
  {
    Repeated(f, ns[0]) + if acts == [] then [] else [acts[0]] + Stuffed(acts[1..], f, ns[1..])
  }

  /** The facts after `k` of the steps. */
  function FactsAt(k: nat, c: Mac, d: Mac, a: Addr): seq<Fact> {
    (if k >= 2 then [Accepted(d, a)] else []) + (if k >= 7 then [Responded(d, a)] else []) +
    (if k >= 10 then [Direct(c, d, a)] else [])
  }

  /** What holds after `k` of the steps, whatever frames to `d` have come in between. */
  ghost predicate StageAt(k: nat, s: Net, c: Mac, d: Mac, a: Addr, x: Addr) {
    c != d && c in s.clients && d in s.clients && s.clients[d].mtu == s.mtu && s.clients[d].pending.Idle? &&
    s.log == FactsAt(k, c, d, a) &&
    (k == 1 ==> Msg(a, HelloMsg(d, s.mtu)) in s.sent) &&
    (2 <= k <= 3 ==> d in s.server && s.server[d].addr == a) &&
    (k == 4 ==> Msg(x, CRespond(d, a)) in s.sent) &&
    (k == 6 ==> Msg(x, HpQuery(d)) in s.sent) &&
    (k == 7 ==> Msg(a, HpRespond(d)) in s.sent) &&
    PeerAt(k, s, c, d, a, x)
  }

  /** The client's own state after `k` of the steps. */
  ghost predicate PeerAt(k: nat, s: Net, c: Mac, d: Mac, a: Addr, x: Addr)
    requires c in s.clients
  {
    var cl := s.clients[c];
    (k < 3 || d in cl.peers) && (k < 5 || k == 6 || k == 7 ==> cl.pending.Idle?) &&
    (k < 5 && d in cl.peers ==> cl.peers[d] == Rec(Addr(0, 0), 60, CQUERY) && Msg(x, CQuery(d)) in s.sent) &&
    (5 <= k < 8 ==> cl.peers[d] == Rec(a, 60, HPQUERY)) && (k == 5 ==> cl.pending == Punch(d)) &&
    (k >= 8 ==> cl.peers[d] == Rec(a, 60, HPRESPOND) && (cl.pending.Idle? || cl.pending == Forward(d))) &&
    (k == 9 ==> cl.pending == Forward(d))
  }

  /** A frame more changes no stage. */
  lemma FrameKeepsStage(k: nat, s: Net, c: Mac, d: Mac, a: Addr, x: Addr)
    requires StageAt(k, s, c, d, a, x) && k <= 10
    ensures StageAt(k, Apply(s, Frame(c, d, x)), c, d, a, x)
  {
  }

  /** Each of the steps leads to the next stage. */
  lemma StepAdvances(k: nat, s: Net, c: Mac, d: Mac, a: Addr, x: Addr)
    requires StageAt(k, s, c, d, a, x) && k < 10
    ensures StageAt(k + 1, Apply(s, PunchSteps(s.mtu, c, d, a, x)[k]), c, d, a, x)
  {
  }

  lemma {:induction false} RunConcat(s: Net, a: seq<Action>, b: seq<Action>)
    ensures Run(s, a + b) == Run(Run(s, a), b)
    decreases |a|
  {
    hide Apply;
    if a == [] {
      assert a + b == b;
    } else {
      assert (a + b)[1..] == a[1..] + b;
      RunConcat(Apply(s, a[0]), a[1..], b);
    }
  }

  lemma {:induction false} RepeatedKeeps(k: nat, s: Net, c: Mac, d: Mac, a: Addr, x: Addr, n: nat)
    requires StageAt(k, s, c, d, a, x) && k <= 10
    ensures StageAt(k, Run(s, Repeated(Frame(c, d, x), n)), c, d, a, x)
    ensures Run(s, Repeated(Frame(c, d, x), n)).mtu == s.mtu
    decreases n
  {
    hide StageAt, Apply;
    if n > 0 {
      FrameKeepsStage(k, s, c, d, a, x);
      var r := Repeated(Frame(c, d, x), n);
      assert r[1..] == Repeated(Frame(c, d, x), n - 1);
      SameMtu(s, Frame(c, d, x));
      RepeatedKeeps(k, Apply(s, Frame(c, d, x)), c, d, a, x, n - 1);
    }
  }

  lemma SameMtu(s: Net, act: Action)
    ensures Apply(s, act).mtu == s.mtu
  {
  }

  lemma {:induction false} StuffedRun(k: nat, s: Net, c: Mac, d: Mac, a: Addr, x: Addr, ns: seq<nat>)
    requires StageAt(k, s, c, d, a, x) && k <= 10 && |ns| == 11 - k
    ensures StageAt(10, Run(s, Stuffed(PunchSteps(s.mtu, c, d, a, x)[k..], Frame(c, d, x), ns)), c, d, a, x)
    decreases 10 - k
  {
    hide StageAt, Apply, Run, Repeated, PunchSteps;
    var acts, f := PunchSteps(s.mtu, c, d, a, x), Frame(c, d, x);
    var s1 := Run(s, Repeated(f, ns[0]));
    RepeatedKeeps(k, s, c, d, a, x, ns[0]);
    if k == 10 {
      assert acts[k..] == [];
      assert Stuffed(acts[k..], f, ns) == Repeated(f, ns[0]) + [];
      RunConcat(s, Repeated(f, ns[0]), []);
      RunNone(s1);
    } else {
      var rest := Stuffed(acts[k + 1..], f, ns[1..]);
      assert acts[k..][0] == acts[k] && acts[k..][1..] == acts[k + 1..];
      RunConcat(s, Repeated(f, ns[0]), [acts[k]] + rest);
      RunStep(s1, acts[k], rest);
      StepAdvances(k, s1, c, d, a, x);
      SameMtu(s1, acts[k]);
      StuffedRun(k + 1, Apply(s1, acts[k]), c, d, a, x, ns[1..]);
    }
  }

  lemma RunStep(s: Net, act: Action, rest: seq<Action>)
    ensures Run(s, [act] + rest) == Run(Apply(s, act), rest)
  {
    assert ([act] + rest)[1..] == rest;
  }

  /** Any number of frames to the peer before, between and behind the steps leaves what the punch achieves. */
  lemma PunchingPersists(s: Net, c: Mac, d: Mac, a: Addr, x: Addr, ns: seq<nat>)
    requires Start(s) && c in s.clients && d in s.clients && c != d && s.clients[d].mtu == s.mtu && |ns| == 11
    ensures Run(s, Stuffed(PunchSteps(s.mtu, c, d, a, x), Frame(c, d, x), ns)).log ==
            [Accepted(d, a), Responded(d, a), Direct(c, d, a)]
  {
    hide Run, Stuffed, PunchSteps;
    assert PunchSteps(s.mtu, c, d, a, x)[0..] == PunchSteps(s.mtu, c, d, a, x);
    StuffedRun(0, s, c, d, a, x, ns);
  }

  /** So a run without loss ends with a frame sent straight to the peer. */
  lemma PunchingWorks(s: Net, c: Mac, d: Mac, a: Addr, x: Addr) returns (acts: seq<Action>)
    requires Start(s) && c in s.clients && d in s.clients && c != d && s.clients[d].mtu == s.mtu
    ensures Run(s, acts).log == [Accepted(d, a), Responded(d, a), Direct(c, d, a)]
  {
    var ns := seq(11, _ => 0);
    acts := Stuffed(PunchSteps(s.mtu, c, d, a, x), Frame(c, d, x), ns);
    PunchingPersists(s, c, d, a, x, ns);
  }
}
