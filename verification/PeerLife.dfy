/** How long a peer record of a client can stay open: hole punching always falls back to `CLOSE`. */
module PeerLife {
  import opened KidVpn

  /** What can happen to a client's table: frames to send, messages, and sweeps. */
  datatype Event = Send(mac: Mac) | Answer(mac: Mac, addr: Addr) | Punch(mac: Mac, addr: Addr) | Sweep

  function Step(t: Table, e: Event): Table {
    match e
    case Send(m) => AfterSend(t, m)
    case Answer(m, a) => AfterAnswer(t, m, a)
    case Punch(m, a) => AfterPunch(t, m, a)
    case Sweep => ClientSweep(t)
  }

  function Run(t: Table, es: seq<Event>): Table
    decreases |es|
  {
    if es == [] then t else Run(Step(t, es[0]), es[1..])
  }

  function Sweeps(es: seq<Event>): nat {
    if es == [] then 0 else (if es[0].Sweep? then 1 else 0) + Sweeps(es[1..])
  }

  predicate GoodRec(r: Rec) {
    CLOSE <= r.stat <= HPRESPOND && (r.stat != CLOSE ==> r.alive in {10, 20, 30, 40, 50, 60})
  }

  /** An open record has a life of ten to sixty seconds left, in whole periods. */
  ghost predicate Good(t: Table) {
    forall m :: m in t ==> GoodRec(t[m])
  }

  lemma StepGood(t: Table, e: Event)
    requires Good(t)
    ensures Good(Step(t, e)) && forall m :: m in t ==> m in Step(t, e)
  {
  }

  /** Every state that a client can reach is good. */
  lemma {:induction false} RunGood(t: Table, es: seq<Event>)
    requires Good(t)
    ensures Good(Run(t, es))
    decreases |es|
  {
    if es != [] {
      StepGood(t, es[0]);
      RunGood(Step(t, es[0]), es[1..]);
    }
  }

  /** Sweeps left before the record must close. */
  function Left(r: Rec): int { 5 * (HPRESPOND - r.stat) + r.alive / 10 }

  /** No message lengthens the life of an open record, and every sweep shortens it. */
  lemma StepLeft(t: Table, e: Event, m: Mac)
    requires Good(t) && m in t && t[m].stat != CLOSE && m in Step(t, e) && Step(t, e)[m].stat != CLOSE
    ensures Left(Step(t, e)[m]) <= Left(t[m]) - if e.Sweep? then 1 else 0
  {
  }

  /** Some prefix with at most `n` sweeps leaves the record closed. */
  ghost predicate ClosesWithin(t: Table, es: seq<Event>, m: Mac, n: int) {
    exists k :: 0 <= k <= |es| && ClosedAfter(t, es, m, k) && Sweeps(es[..k]) <= n
  }

  predicate ClosedAfter(t: Table, es: seq<Event>, m: Mac, k: nat) {
    k <= |es| && m in Run(t, es[..k]) && Run(t, es[..k])[m].stat == CLOSE
  }

  lemma {:induction false} Closes(t: Table, es: seq<Event>, m: Mac)
    requires Good(t) && m in t && Sweeps(es) >= Left(t[m])
    ensures ClosesWithin(t, es, m, if t[m].stat == CLOSE then 0 else Left(t[m]))
    decreases |es|
  {
    hide Step, Run, ClosedAfter, GoodRec;
    if t[m].stat == CLOSE {
      ClosedNow(t, es, m);
    } else {
      LeftIs(t, m);
      var t', rest := Step(t, es[0]), es[1..];
      StepGood(t, es[0]);
      if t'[m].stat != CLOSE {
        StepLeft(t, es[0], m);
        Closes(t', rest, m);
      } else {
        ClosedNow(t', rest, m);
      }
      var k :| 0 <= k <= |rest| && ClosedAfter(t', rest, m, k) && Sweeps(rest[..k]) <= if t'[m].stat == CLOSE then
        0 else Left(t'[m]);
      Later(t, es, m, k);
    }
  }

  lemma LeftIs(t: Table, m: Mac)
    requires Good(t) && m in t && t[m].stat != CLOSE
    ensures 1 <= Left(t[m]) <= 16
  {
  }

  lemma ClosedNow(t: Table, es: seq<Event>, m: Mac)
    requires m in t && t[m].stat == CLOSE
    ensures ClosedAfter(t, es, m, 0) && Sweeps(es[..0]) == 0
  {
    assert es[..0] == [];
  }

  lemma Later(t: Table, es: seq<Event>, m: Mac, k: nat)
    requires es != [] && ClosedAfter(Step(t, es[0]), es[1..], m, k)
    ensures ClosedAfter(t, es, m, k + 1) &&
            Sweeps(es[..k + 1]) == (if es[0].Sweep? then 1 else 0) + Sweeps(es[1..][..k])
  {
    hide Step;
    assert es[..k + 1][1..] == es[1..][..k];
  }

  /** An open record is closed again within 16 sweeps, whatever else happens. */
  lemma BackToClose(t: Table, es: seq<Event>, m: Mac)
    requires Good(t) && m in t && Sweeps(es) >= 16
    ensures ClosesWithin(t, es, m, 16)
  {
    if t[m].stat == CLOSE {
      ClosedNow(t, es, m);
    } else {
      LeftIs(t, m);
      Closes(t, es, m);
    }
  }

  lemma {:induction false} RunConcat(t: Table, a: seq<Event>, b: seq<Event>)
    ensures Run(t, a + b) == Run(Run(t, a), b) && Sweeps(a + b) == Sweeps(a) + Sweeps(b)
    decreases |a|
  {
    if a == [] {
      assert a + b == b;
    } else {
      assert (a + b)[1..] == a[1..] + b;
      RunConcat(Step(t, a[0]), a[1..], b);
    }
  }

  /** A closed record opens only when a frame is sent to that peer. */
  lemma {:induction false} StaysClosed(t: Table, es: seq<Event>, m: Mac)
    requires m in t && t[m].stat == CLOSE && Send(m) !in es
    ensures m in Run(t, es) && Run(t, es)[m].stat == CLOSE
    decreases |es|
  {
    if es != [] {
      assert es[0] != Send(m);
      StaysClosed(Step(t, es[0]), es[1..], m);
    }
  }

  const FIVE: seq<Event> := [Sweep, Sweep, Sweep, Sweep, Sweep]

  lemma FiveSweeps(t: Table, m: Mac)
    requires m in t && t[m].alive == 60
    ensures m in Run(t, FIVE) && Run(t, FIVE)[m] == t[m].(alive := 10) && Sweeps(FIVE) == 5
  {
    var t1 := ClientSweep(t);
    var t2 := ClientSweep(t1);
    var t3 := ClientSweep(t2);
    var t4 := ClientSweep(t3);
    var t5 := ClientSweep(t4);
    assert t5[m] == t[m].(alive := 10);
    assert FIVE[1..] == [Sweep, Sweep, Sweep, Sweep] && FIVE[1..][1..] == [Sweep, Sweep, Sweep];
    assert FIVE[1..][1..][1..] == [Sweep, Sweep] && FIVE[1..][1..][1..][1..] == [Sweep];
    assert Run(t, FIVE) == t5;
  }

  /** Fifteen sweeps are not enough: both answers can come at the last moment. */
  lemma SixteenIsTight(t: Table, m: Mac, a: Addr)
    requires m in t && t[m] == Rec(t[m].addr, 60, CQUERY)
    ensures var es := FIVE + ([Answer(m, a)] + (FIVE + ([Punch(m, a)] + FIVE)));
            Sweeps(es) == 15 && forall k :: 0 <= k <= |es| ==> !ClosedAfter(t, es, m, k)
  {
    hide Sweeps, Run, Step, ClosedAfter;
    var c := [Punch(m, a)] + FIVE;
    var b := [Answer(m, a)] + (FIVE + c);
    var t1 := Run(t, FIVE);
    FiveSweeps(t, m);
    Answered(t1, m, a);
    var t2 := Step(t1, Answer(m, a));
    var t3 := Run(t2, FIVE);
    FiveSweeps(t2, m);
    Punched(t3, m, a);
    var t4 := Step(t3, Punch(m, a));
    FiveSweeps(t4, m);
    RunConcat(t, FIVE, b);
    RunConcat(t1, [Answer(m, a)], FIVE + c);
    RunOne(t1, Answer(m, a));
    RunConcat(t2, FIVE, c);
    RunConcat(t3, [Punch(m, a)], FIVE);
    RunOne(t3, Punch(m, a));
    StaysOpen(t, FIVE + b, m);
  }

  lemma Answered(t: Table, m: Mac, a: Addr)
    requires m in t && t[m].stat == CQUERY
    ensures Step(t, Answer(m, a)) == t[m := Rec(a, 60, HPQUERY)]
  {
  }

  lemma Punched(t: Table, m: Mac, a: Addr)
    requires m in t && t[m].stat == HPQUERY && t[m].addr == a
    ensures Step(t, Punch(m, a)) == t[m := Rec(a, 60, HPRESPOND)]
  {
  }

  /** A record open at the end of a run without frames to that peer was open all along. */
  lemma StaysOpen(t: Table, es: seq<Event>, m: Mac)
    requires Send(m) !in es && m in Run(t, es) && Run(t, es)[m].stat != CLOSE
    ensures forall k :: 0 <= k <= |es| ==> !ClosedAfter(t, es, m, k)
  {
    forall k | 0 <= k <= |es| ensures !ClosedAfter(t, es, m, k) {
      ClosedToTheEnd(t, es, m, k);
    }
  }

  lemma ClosedToTheEnd(t: Table, es: seq<Event>, m: Mac, k: nat)
    requires Send(m) !in es
    ensures ClosedAfter(t, es, m, k) ==> m in Run(t, es) && Run(t, es)[m].stat == CLOSE
  {
    hide Step, Run;
    if ClosedAfter(t, es, m, k) {
      assert es == es[..k] + es[k..];
      RunConcat(t, es[..k], es[k..]);
      StaysClosed(Run(t, es[..k]), es[k..], m);
    }
  }

  lemma RunOne(t: Table, e: Event)
    ensures Run(t, [e]) == Step(t, e) && Sweeps([e]) == if e.Sweep? then 1 else 0
  {
    assert [e][1..] == [];
  }
}
