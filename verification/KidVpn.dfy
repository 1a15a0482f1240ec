/** The records that a KidVPN node keeps about others, and what each handler does to them. */
module KidVpn {
  import opened Bytes

  type Mac = s: seq<Byte> | |s| == 6 witness [0, 0, 0, 0, 0, 0]
  datatype Addr = Addr(ip: nat, port: nat)

  /** KV_CLI_HELLO_TIMEOUT, KV_CLI_HELLO_PERIOD, KV_CLI_HOLE_PUNCHING_ALIVE, in seconds. */
  const HELLO_TIMEOUT := 60
  const HELLO_PERIOD := 10
  const PUNCH_ALIVE := 60

  /** States of hole punching; the server leaves every record in `CLOSE`. */
  const CLOSE := 0
  const CQUERY := 1
  const HPQUERY := 2
  const HPRESPOND := 3

  datatype Rec = Rec(addr: Addr, alive: int, stat: int)
  type Table = map<Mac, Rec>

  // ------------------------------------------------------------------- the server

  /** An accepted hello. */
  function Hello(t: Table, m: Mac, a: Addr): Table {
    t[m := Rec(a, HELLO_TIMEOUT, if m in t then t[m].stat else CLOSE)]
  }

  function ServerTick(r: Rec): Rec {
    r.(alive := if r.alive >= HELLO_PERIOD then r.alive - HELLO_PERIOD else 0)
  }

  /** One pass of the server's timeout thread: records age and the dead ones go. */
  function ServerSweep(t: Table): Table {
    map m | m in t && ServerTick(t[m]).alive > 0 :: ServerTick(t[m])
  }

  // ------------------------------------------------------------------- the client

  /** What to do with a unicast frame after the decision under the lock. */
  datatype Route = ToServer(query: bool) | Straight

  /** The record that a frame for `m` finds, or that is made for it. */
  function PeerOf(t: Table, m: Mac): Rec {
    if m in t then t[m] else Rec(Addr(0, 0), 0, CLOSE)
  }

  function RouteOf(t: Table, m: Mac): Route {
    var s := PeerOf(t, m).stat;
    if s == CLOSE then ToServer(true) else if s == HPRESPOND then Straight else ToServer(false)
  }

  function AfterSend(t: Table, m: Mac): Table {
    var r := PeerOf(t, m);
    t[m := if r.stat == CLOSE then r.(stat := CQUERY, alive := PUNCH_ALIVE) else r]
  }

  /** The client asked the server for this peer and has no answer yet. */
  predicate Awaits(t: Table, m: Mac) {
    m in t && t[m].stat == CQUERY
  }

  /** A peer's address arrives from the server. */
  function AfterAnswer(t: Table, m: Mac, a: Addr): Table {
    if Awaits(t, m) then t[m := Rec(a, PUNCH_ALIVE, HPQUERY)] else t
  }

  /** A punch response arrives from address `a`. */
  function AfterPunch(t: Table, m: Mac, a: Addr): Table {
    if m in t && t[m].addr == a && t[m].stat == HPQUERY then
      t[m := t[m].(alive := PUNCH_ALIVE, stat := HPRESPOND)] else t
  }

  function ClientTick(r: Rec): Rec {
    if r.alive >= HELLO_PERIOD then
      r.(alive := r.alive - HELLO_PERIOD, stat := if r.alive - HELLO_PERIOD <= 0 then CLOSE else r.stat)
    else r
  }

  /** One pass of the client's hello thread over its peers. */
  function ClientSweep(t: Table): Table {
    map m | m in t :: ClientTick(t[m])
  }

  // ---------------------------------------------------- what each handler does to a record

  /** Every record but that of `m` is as it was. */
  ghost predicate OthersKept(t: Table, t': Table, m: Mac) {
    forall x :: x != m ==> (x in t' <==> x in t) && (x in t ==> t'[x] == t[x])
  }

  /**
   A frame to a peer whose record is open changes nothing and asks for nothing; it goes straight exactly in the last
   state. A closed or new record opens with 60 seconds to live, and the server is asked for it once.
   */
  lemma FrameEffect(t: Table, m: Mac)
    ensures OthersKept(t, AfterSend(t, m), m)
    ensures m in t && t[m].stat != 0 ==> AfterSend(t, m) == t && RouteOf(t, m) != ToServer(true)
    ensures m !in t || t[m].stat == 0 ==>
              m in AfterSend(t, m) && AfterSend(t, m)[m].stat == 1 && AfterSend(t, m)[m].alive == 60 &&
              (m in t ==> AfterSend(t, m)[m].addr == t[m].addr) && RouteOf(t, m) == ToServer(true)
    ensures RouteOf(t, m) == Straight <==> m in t && t[m].stat == 3
  {
    if m in t && t[m].stat != 0 { assert t[m := t[m]] == t; }
  }

  /** An answer counts only for a record that waits for one, which then has that address and waits for a punch. */
  lemma AnswerEffect(t: Table, m: Mac, a: Addr)
    ensures OthersKept(t, AfterAnswer(t, m, a), m)
    ensures !(m in t && t[m].stat == 1) ==> AfterAnswer(t, m, a) == t
    ensures m in t && t[m].stat == 1 ==> m in AfterAnswer(t, m, a) && AfterAnswer(t, m, a)[m] == Rec(a, 60, 2)
  {
  }

  /** A punch response counts only from the address on record and only while one is waited for. */
  lemma PunchEffect(t: Table, m: Mac, a: Addr)
    ensures OthersKept(t, AfterPunch(t, m, a), m)
    ensures !(m in t && t[m].stat == 2 && t[m].addr == a) ==> AfterPunch(t, m, a) == t
    ensures m in t && t[m].stat == 2 && t[m].addr == a ==>
              m in AfterPunch(t, m, a) && AfterPunch(t, m, a)[m] == Rec(a, 60, 3)
  {
  }

  /** A sweep takes ten seconds from a life that has them, and closes the record whose life it ends. */
  lemma SweepEffect(t: Table, m: Mac)
    ensures m in ClientSweep(t) <==> m in t
    ensures m in t && t[m].alive >= 10 ==>
              ClientSweep(t)[m] == Rec(t[m].addr, t[m].alive - 10, if t[m].alive == 10 then 0 else t[m].stat)
    ensures m in t && t[m].alive < 10 ==> ClientSweep(t)[m] == t[m]
  {
  }
}
