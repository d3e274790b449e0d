/** Connect, Disconnect and Ping of the Postgres snapshot store, run by any number of threads
    (snapshotstore/postgres/snapshot_store.go).  Every step is one action of one thread; the mutex
    makes a thread wait, and Ping lets go of it before it calls Connect. */
module Lifecycle {
  import opened Base

  // Where a thread is; the name says what it does next.
  datatype Pc =
    | Idle
    | ConnectLock | ConnectCheck | ConnectOpen | ConnectSet
    | DisconnectLock | DisconnectCheck | DisconnectClose | DisconnectClear
    | PingLock | PingCheck | PingUnlockThenConnect | PingUnlockThenPing | PingDatabase
    | Unlock

  datatype State = State(
    mutex: Option<nat>,
    connected: bool,
    opens: nat,   // successful calls of the database's Connect
    closes: nat,  // successful calls of its Disconnect
    threads: map<nat, Pc>)

  const START := State(None, false, 0, 0, map[])

  function PcOf(s: State, t: nat): Pc {
    if t in s.threads then s.threads[t] else Idle
  }

  datatype Step =
    | CallConnect(t: nat)
    | CallDisconnect(t: nat)
    | CallPing(t: nat)
    | Advance(t: nat, ok: bool)  // ok: whether a database call made by the step succeeds

  predicate TakesMutex(pc: Pc) {
    pc in {ConnectLock, DisconnectLock, PingLock}
  }

  predicate Holds(pc: Pc) {
    pc !in {Idle, ConnectLock, DisconnectLock, PingLock, PingDatabase}
  }

  predicate Enabled(s: State, step: Step) {
    match step
    case Advance(t, _) => PcOf(s, t) != Idle && (TakesMutex(PcOf(s, t)) ==> s.mutex == None)
    case _ => PcOf(s, step.t) == Idle
  }

  function At(s: State, t: nat, pc: Pc): State {
    s.(threads := s.threads[t := pc])
  }

  function Next(s: State, step: Step): State {
    match step
    case CallConnect(t) => At(s, t, ConnectLock)
    case CallDisconnect(t) => At(s, t, DisconnectLock)
    case CallPing(t) => At(s, t, PingLock)
    case Advance(t, ok) =>
      match PcOf(s, t)
      case Idle => s
      case ConnectLock => At(s, t, ConnectCheck).(mutex := Some(t))
      case ConnectCheck => At(s, t, if s.connected then Unlock else ConnectOpen)
      case ConnectOpen => if ok then At(s, t, ConnectSet).(opens := s.opens + 1) else At(s, t, Unlock)
      case ConnectSet => At(s, t, Unlock).(connected := true)
      case DisconnectLock => At(s, t, DisconnectCheck).(mutex := Some(t))
      case DisconnectCheck => At(s, t, if s.connected then DisconnectClose else Unlock)
      case DisconnectClose => if ok then At(s, t, DisconnectClear).(closes := s.closes + 1) else At(s, t, Unlock)
      case DisconnectClear => At(s, t, Unlock).(connected := false)
      case PingLock => At(s, t, PingCheck).(mutex := Some(t))
      case PingCheck => At(s, t, if s.connected then PingUnlockThenPing else PingUnlockThenConnect)
      case PingUnlockThenConnect => At(s, t, ConnectLock).(mutex := None)
      case PingUnlockThenPing => At(s, t, PingDatabase).(mutex := None)
      case PingDatabase => At(s, t, Idle)
      case Unlock => At(s, t, Idle).(mutex := None)
  }

  ghost predicate MutexHeld(s: State) {
    forall t: nat :: Holds(PcOf(s, t)) <==> s.mutex == Some(t)
  }

  function HolderPc(s: State): Pc {
    match s.mutex case None => Idle case Some(t) => PcOf(s, t)
  }

  // What is open, given how far the holder of the mutex has come.
  predicate Balanced(s: State) {
    var pc := HolderPc(s);
    && (pc in {ConnectOpen, ConnectSet, PingUnlockThenConnect} ==> !s.connected)
    && (pc in {DisconnectClose, DisconnectClear, PingUnlockThenPing} ==> s.connected)
    && s.opens - s.closes ==
      if pc == ConnectSet then 1
      else if pc == DisconnectClear then 0
      else if s.connected then 1 else 0
  }

  ghost predicate Inv(s: State) {
    MutexHeld(s) && Balanced(s)
  }

  lemma StepKeepsMutex(s: State, step: Step)
    requires Inv(s) && Enabled(s, step)
    ensures MutexHeld(Next(s, step))
  {
    hide Balanced;
    var s' := Next(s, step);
    var t := step.t;
    assert Holds(PcOf(s, t)) <==> s.mutex == Some(t);
    forall u: nat ensures Holds(PcOf(s', u)) <==> s'.mutex == Some(u) {
      assert Holds(PcOf(s, u)) <==> s.mutex == Some(u);
      assert u != t ==> PcOf(s', u) == PcOf(s, u);
    }
  }

  lemma StepKeepsBalance(s: State, step: Step)
    requires Inv(s) && Enabled(s, step)
    ensures Balanced(Next(s, step))
  {
    assert Holds(PcOf(s, step.t)) <==> s.mutex == Some(step.t);
  }

  lemma StepKeepsInv(s: State, step: Step)
    requires Inv(s) && Enabled(s, step)
    ensures Inv(Next(s, step))
  {
    hide Balanced, MutexHeld, Next;
    StepKeepsMutex(s, step);
    StepKeepsBalance(s, step);
  }

  ghost predicate IsRun(s: State, steps: seq<Step>)
    decreases |steps|
  {
    steps != [] ==> Enabled(s, steps[0]) && IsRun(Next(s, steps[0]), steps[1..])
  }

  function Run(s: State, steps: seq<Step>): State
    decreases |steps|
  {
    if steps == [] then s else Run(Next(s, steps[0]), steps[1..])
  }

  lemma {:induction false} RunKeepsInv(s: State, steps: seq<Step>)
    requires Inv(s) && IsRun(s, steps)
    ensures Inv(Run(s, steps))
    decreases |steps|
  {
    if steps != [] {
      StepKeepsInv(s, steps[0]);
      RunKeepsInv(Next(s, steps[0]), steps[1..]);
    }
  }

  /** In every interleaving: two threads never hold the mutex at once, and while it is free there
      is one open database connection if the store says it is connected and none otherwise. */
  lemma FreeMutexBalance(steps: seq<Step>)
    requires IsRun(START, steps)
    ensures var s := Run(START, steps);
      && (s.mutex == None ==> s.opens - s.closes == if s.connected then 1 else 0)
      && AtMostOneHolder(s)
  {
    hide *;
    ReachableInv(steps);
    OneHolder(Run(START, steps));
  }

  lemma ReachableInv(steps: seq<Step>)
    requires IsRun(START, steps)
    ensures Inv(Run(START, steps))
  {
    hide Run, IsRun, Next;
    RunKeepsInv(START, steps);
  }

  ghost predicate AtMostOneHolder(s: State) {
    forall t: nat, u: nat :: Holds(PcOf(s, t)) && Holds(PcOf(s, u)) ==> t == u
  }

  lemma OneHolder(s: State)
    requires Inv(s)
    ensures AtMostOneHolder(s)
    ensures s.mutex == None ==> s.opens - s.closes == if s.connected then 1 else 0
  {
  }

  /** No interleaving gets stuck: a thread that holds the mutex can go on, and while none does every
      thread can go on or be called. */
  lemma NeverStuck(steps: seq<Step>, t: nat, ok: bool)
    requires IsRun(START, steps)
    ensures var s := Run(START, steps);
      && (s.mutex == Some(t) || (s.mutex == None && PcOf(s, t) != Idle) ==>
            IsRun(START, steps + [Advance(t, ok)]) && Run(START, steps + [Advance(t, ok)]) == Next(s, Advance(t, ok)))
      && (PcOf(s, t) == Idle ==>
            IsRun(START, steps + [CallConnect(t)]) && IsRun(START, steps + [CallDisconnect(t)])
            && IsRun(START, steps + [CallPing(t)]))
  {
    ReachableInv(steps);
    hide Run, IsRun, Next;
    var s := Run(START, steps);
    assert Holds(PcOf(s, t)) <==> s.mutex == Some(t);
    if s.mutex == Some(t) || (s.mutex == None && PcOf(s, t) != Idle) {
      RunGoesOn(START, steps, Advance(t, ok));
    }
    if PcOf(s, t) == Idle {
      RunGoesOn(START, steps, CallConnect(t));
      RunGoesOn(START, steps, CallDisconnect(t));
      RunGoesOn(START, steps, CallPing(t));
    }
  }

  lemma {:induction false} RunGoesOn(s: State, steps: seq<Step>, step: Step)
    requires IsRun(s, steps) && Enabled(Run(s, steps), step)
    ensures IsRun(s, steps + [step]) && Run(s, steps + [step]) == Next(Run(s, steps), step)
    decreases |steps|
  {
    hide Enabled, Next;
    var more := steps + [step];
    if steps == [] {
      assert more[1..] == [];
    } else {
      RunGoesOn(Next(s, steps[0]), steps[1..], step);
      assert more[1..] == steps[1..] + [step];
    }
  }

  /** A thread about to open the database finds it closed, and one about to close it finds it open,
      in every interleaving. */
  lemma NeverOpenedTwice(steps: seq<Step>, t: nat)
    requires IsRun(START, steps)
    ensures var s := Run(START, steps);
      && (PcOf(s, t) == ConnectOpen ==> s.opens == s.closes)
      && (PcOf(s, t) == DisconnectClose ==> s.opens == s.closes + 1)
  {
    hide *;
    ReachableInv(steps);
    HolderCalls(Run(START, steps), t);
  }

  lemma HolderCalls(s: State, t: nat)
    requires Inv(s)
    ensures PcOf(s, t) == ConnectOpen ==> s.opens == s.closes
    ensures PcOf(s, t) == DisconnectClose ==> s.opens == s.closes + 1
  {
  }

  // ----- One thread on its own -----

  // The thread goes on until it is done, or has taken that many actions; ok says whether the database calls succeed.
  function Finish(s: State, t: nat, ok: bool, actions: nat): State
    decreases actions
  {
    if actions == 0 || PcOf(s, t) == Idle then s else Finish(Next(s, Advance(t, ok)), t, ok, actions - 1)
  }

  // Everything as it was, but for what is said of the connection.
  ghost predicate After(s: State, s': State, t: nat, connected: bool, opens: nat, closes: nat) {
    && PcOf(s', t) == Idle && s'.mutex == None
    && s'.connected == connected && s'.opens == s.opens + opens && s'.closes == s.closes + closes
    && forall u: nat :: u != t ==> PcOf(s', u) == PcOf(s, u)
  }

  // One action of the thread, from one place to the next.
  lemma Proceeds(s: State, t: nat, pc: Pc, ok: bool, actions: nat, later: State, next: Pc)
    requires actions >= 1 && pc != Idle && Next(At(s, t, pc), Advance(t, ok)) == At(later, t, next)
    ensures Finish(At(s, t, pc), t, ok, actions) == Finish(At(later, t, next), t, ok, actions - 1)
  {
    hide Next;
  }

  lemma AtAgain(s: State, t: nat, pc: Pc, next: Pc)
    ensures At(At(s, t, pc), t, next) == At(s, t, next)
  {
  }

  // From the unlocking on.
  lemma LetsGo(s: State, s': State, t: nat, ok: bool, actions: nat)
    requires actions >= 1
    requires s'.threads == s.threads && s'.mutex == Some(t) && s'.opens >= s.opens && s'.closes >= s.closes
    ensures var end := Finish(At(s', t, Unlock), t, ok, actions);
      After(s, end, t, s'.connected, s'.opens - s.opens, s'.closes - s.closes)
  {
    AtAgain(s', t, Unlock, Idle);
    Proceeds(s', t, Unlock, ok, actions, s'.(mutex := None), Idle);
  }

  /** A call of Connect that nothing disturbs opens the database once if it is closed, and leaves the
      store connected unless the opening fails; on a connected store it does nothing. */
  lemma ConnectAlone(s: State, t: nat, ok: bool)
    requires PcOf(s, t) == Idle && s.mutex == None
    ensures var s' := Finish(Next(s, CallConnect(t)), t, ok, 5);
      After(s, s', t, s.connected || ok, if !s.connected && ok then 1 else 0, 0)
  {
    hide Finish, After;
    var held := s.(mutex := Some(t));
    AtAgain(s, t, ConnectLock, ConnectCheck);
    Proceeds(s, t, ConnectLock, ok, 5, held, ConnectCheck);
    if s.connected {
      AtAgain(held, t, ConnectCheck, Unlock);
      Proceeds(held, t, ConnectCheck, ok, 4, held, Unlock);
      LetsGo(s, held, t, ok, 3);
    } else {
      AtAgain(held, t, ConnectCheck, ConnectOpen);
      Proceeds(held, t, ConnectCheck, ok, 4, held, ConnectOpen);
      if ok {
        var open := held.(opens := s.opens + 1);
        AtAgain(held, t, ConnectOpen, ConnectSet);
        Proceeds(held, t, ConnectOpen, ok, 3, open, ConnectSet);
        AtAgain(open, t, ConnectSet, Unlock);
        Proceeds(open, t, ConnectSet, ok, 2, open.(connected := true), Unlock);
        LetsGo(s, open.(connected := true), t, ok, 1);
      } else {
        AtAgain(held, t, ConnectOpen, Unlock);
        Proceeds(held, t, ConnectOpen, ok, 3, held, Unlock);
        LetsGo(s, held, t, ok, 2);
      }
    }
  }

  /** Disconnect closes it once if it is open, and does nothing on a store that is not connected. */
  lemma DisconnectAlone(s: State, t: nat, ok: bool)
    requires PcOf(s, t) == Idle && s.mutex == None
    ensures var s' := Finish(Next(s, CallDisconnect(t)), t, ok, 5);
      After(s, s', t, s.connected && !ok, 0, if s.connected && ok then 1 else 0)
  {
    hide Finish, After;
    var held := s.(mutex := Some(t));
    AtAgain(s, t, DisconnectLock, DisconnectCheck);
    Proceeds(s, t, DisconnectLock, ok, 5, held, DisconnectCheck);
    if !s.connected {
      AtAgain(held, t, DisconnectCheck, Unlock);
      Proceeds(held, t, DisconnectCheck, ok, 4, held, Unlock);
      LetsGo(s, held, t, ok, 3);
    } else {
      AtAgain(held, t, DisconnectCheck, DisconnectClose);
      Proceeds(held, t, DisconnectCheck, ok, 4, held, DisconnectClose);
      if ok {
        var closed := held.(closes := s.closes + 1);
        AtAgain(held, t, DisconnectClose, DisconnectClear);
        Proceeds(held, t, DisconnectClose, ok, 3, closed, DisconnectClear);
        AtAgain(closed, t, DisconnectClear, Unlock);
        Proceeds(closed, t, DisconnectClear, ok, 2, closed.(connected := false), Unlock);
        LetsGo(s, closed.(connected := false), t, ok, 1);
      } else {
        AtAgain(held, t, DisconnectClose, Unlock);
        Proceeds(held, t, DisconnectClose, ok, 3, held, Unlock);
        LetsGo(s, held, t, ok, 2);
      }
    }
  }

  // A Ping up to where it has let go of the mutex.
  lemma PingLetsGo(s: State, t: nat, ok: bool)
    requires PcOf(s, t) == Idle && s.mutex == None
    ensures Finish(At(s, t, PingLock), t, ok, 8) ==
      Finish(At(s, t, if s.connected then PingDatabase else ConnectLock), t, ok, 5)
  {
    hide Finish;
    var held := s.(mutex := Some(t));
    AtAgain(s, t, PingLock, PingCheck);
    Proceeds(s, t, PingLock, ok, 8, held, PingCheck);
    if s.connected {
      AtAgain(held, t, PingCheck, PingUnlockThenPing);
      Proceeds(held, t, PingCheck, ok, 7, held, PingUnlockThenPing);
      AtAgain(held, t, PingUnlockThenPing, PingDatabase);
      Proceeds(held, t, PingUnlockThenPing, ok, 6, s, PingDatabase);
    } else {
      AtAgain(held, t, PingCheck, PingUnlockThenConnect);
      Proceeds(held, t, PingCheck, ok, 7, held, PingUnlockThenConnect);
      AtAgain(held, t, PingUnlockThenConnect, ConnectLock);
      Proceeds(held, t, PingUnlockThenConnect, ok, 6, s, ConnectLock);
    }
  }

  /** Ping connects a store that is not connected, and otherwise leaves it as it is. */
  lemma PingAlone(s: State, t: nat, ok: bool)
    requires PcOf(s, t) == Idle && s.mutex == None
    ensures var s' := Finish(Next(s, CallPing(t)), t, ok, 8);
      After(s, s', t, s.connected || ok, if !s.connected && ok then 1 else 0, 0)
  {
    hide Finish, After, PcOf;
    PingLetsGo(s, t, ok);
    if s.connected {
      DatabasePinged(s, t, ok);
    } else {
      ConnectAlone(s, t, ok);
    }
  }

  lemma DatabasePinged(s: State, t: nat, ok: bool)
    requires s.mutex == None
    ensures After(s, Finish(At(s, t, PingDatabase), t, ok, 5), t, s.connected, 0, 0)
  {
    hide Finish;
    AtAgain(s, t, PingDatabase, Idle);
    Proceeds(s, t, PingDatabase, ok, 5, s, Idle);
    Done(At(s, t, Idle), t, ok, 4);
  }

  lemma Done(s: State, t: nat, ok: bool, actions: nat)
    requires PcOf(s, t) == Idle
    ensures Finish(s, t, ok, actions) == s
  {
  }
}
