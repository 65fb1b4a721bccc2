/** The command pipeline: any number of producers, the dispatcher and the executer, joined by
    the dispatcher queue (25 commands), the executer queue (1) and the status queue (1).
    Every queue call goes through the mutex, sleep and broadcast states of QueueProtocol. */
module Pipeline {

  /** A command handed around by pointer. */
  type Cmd = nat

  type Thread = nat

  /** Capacity of dispatcher_queue. */
  const ROOM := 25

  datatype Phase = Ready | Asleep | Notify

  datatype Dispatcher =
    | Fetch(ph: Phase, got: seq<Cmd>)      // osQueueReceive(dispatcher_queue); `got` once received
    | Forward(ph: Phase, c: Cmd)           // osQueueSend(executer_cmd_queue)
    | Await(ph: Phase)                     // osQueueReceive(executer_stat_queue)

  datatype Executer =
    | Take(ph: Phase, got: seq<Cmd>)       // osQueueReceive(executer_cmd_queue)
    | Execute(c: Cmd)                      // run_cmd->function(...)
    | Release(c: Cmd)                      // cmd_free(run_cmd)
    | Report(ph: Phase)                    // osQueueSend(executer_stat_queue)

  datatype Producer = Free | Sending(ph: Phase, c: Cmd)   // cmd_send

  datatype State = State(
    dispatcherQueue: seq<Cmd>, executerQueue: seq<Cmd>, statQueue: nat,
    d: Dispatcher, e: Executer, producers: map<Thread, Producer>,
    accepted: seq<Cmd>, executed: seq<Cmd>, freed: seq<Cmd>)

  datatype Step =
    | Call(t: Thread, c: Cmd)    // a producer starts cmd_send
    | Produce(t: Thread)         // a producer's mutex section or broadcast
    | Dispatch                   // the dispatcher's next mutex section or broadcast
    | Run                        // the executer's next one, or the command and its release
    | Spurious(w: Sleeper)       // a thread leaves its wait without a broadcast

  datatype Sleeper = TheDispatcher | TheExecuter | AProducer(t: Thread)

  predicate Enabled(s: State, step: Step) {
    match step
    case Call(t, _) => t in s.producers && s.producers[t].Free?
    case Produce(t) => t in s.producers && s.producers[t].Sending? && !s.producers[t].ph.Asleep?
    case Dispatch => !s.d.ph.Asleep?
    case Run => !ExecuterAsleep(s.e)
    case Spurious(TheDispatcher) => s.d.ph.Asleep?
    case Spurious(TheExecuter) => ExecuterAsleep(s.e)
    case Spurious(AProducer(t)) => t in s.producers && s.producers[t].Sending? && s.producers[t].ph.Asleep?
  }

  predicate ExecuterAsleep(e: Executer) {
    (e.Take? && e.ph.Asleep?) || (e.Report? && e.ph.Asleep?)
  }

  function WakeDispatcher(d: Dispatcher, onFetch: bool): Dispatcher {
    if onFetch && d.Fetch? && d.ph.Asleep? then Fetch(Ready, [])
    else if !onFetch && d.Await? && d.ph.Asleep? then Await(Ready)
    else d
  }

  function WakeForward(d: Dispatcher): Dispatcher {
    if d.Forward? && d.ph.Asleep? then Forward(Ready, d.c) else d
  }

  function WakeExecuter(e: Executer, onTake: bool): Executer {
    if onTake && e.Take? && e.ph.Asleep? then Take(Ready, [])
    else if !onTake && e.Report? && e.ph.Asleep? then Report(Ready)
    else e
  }

  function WakeProducer(p: Producer): Producer {
    if p.Sending? && p.ph.Asleep? then Sending(Ready, p.c) else p
  }

  function WakeProducers(ps: map<Thread, Producer>): (ps': map<Thread, Producer>)
    ensures ps'.Keys == ps.Keys
  {
    map t | t in ps :: WakeProducer(ps[t])
  }

  function DispatchStep(s: State): State
    requires Enabled(s, Dispatch)
  {
    match s.d
    case Fetch(Ready, _) =>
      if s.dispatcherQueue == [] then s.(d := Fetch(Asleep, []))
      else s.(dispatcherQueue := s.dispatcherQueue[1..], d := Fetch(Notify, [s.dispatcherQueue[0]]))
    case Fetch(_, got) =>
      s.(producers := WakeProducers(s.producers), d := if got == [] then Fetch(Ready, []) else Forward(Ready, got[0]))
    case Forward(Ready, c) =>
      if |s.executerQueue| == 1 then s.(d := Forward(Asleep, c))
      else s.(executerQueue := s.executerQueue + [c], d := Forward(Notify, c))
    case Forward(_, _) => s.(e := WakeExecuter(s.e, true), d := Await(Ready))
    case Await(Ready) =>
      if s.statQueue == 0 then s.(d := Await(Asleep))
      else s.(statQueue := s.statQueue - 1, d := Await(Notify))
    case Await(_) => s.(e := WakeExecuter(s.e, false), d := Fetch(Ready, []))
  }

  function RunStep(s: State): State
    requires Enabled(s, Run)
  {
    match s.e
    case Take(Ready, _) =>
      if s.executerQueue == [] then s.(e := Take(Asleep, []))
      else s.(executerQueue := s.executerQueue[1..], e := Take(Notify, [s.executerQueue[0]]))
    case Take(_, got) =>
      s.(d := WakeForward(s.d), e := if got == [] then Take(Ready, []) else Execute(got[0]))
    case Execute(c) => s.(executed := s.executed + [c], e := Release(c))
    case Release(c) => s.(freed := s.freed + [c], e := Report(Ready))
    case Report(Ready) =>
      if s.statQueue == 1 then s.(e := Report(Asleep))
      else s.(statQueue := s.statQueue + 1, e := Report(Notify))
    case Report(_) => s.(d := WakeDispatcher(s.d, false), e := Take(Ready, []))
  }

  function ProduceStep(s: State, t: Thread): State
    requires Enabled(s, Produce(t))
  {
    var c := s.producers[t].c;
    if s.producers[t].ph.Notify? then
      s.(d := WakeDispatcher(s.d, true), producers := s.producers[t := Free])
    else if |s.dispatcherQueue| == ROOM then
      s.(producers := s.producers[t := Sending(Asleep, c)])
    else
      s.(dispatcherQueue := s.dispatcherQueue + [c], accepted := s.accepted + [c],
         producers := s.producers[t := Sending(Notify, c)])
  }

  function Next(s: State, step: Step): State
    requires Enabled(s, step)
  {
    match step
    case Call(t, c) => s.(producers := s.producers[t := Sending(Ready, c)])
    case Produce(t) => ProduceStep(s, t)
    case Dispatch => DispatchStep(s)
    case Run => RunStep(s)
    case Spurious(TheDispatcher) => s.(d := s.d.(ph := Ready))
    case Spurious(TheExecuter) => s.(e := if s.e.Take? then Take(Ready, s.e.got) else Report(Ready))
    case Spurious(AProducer(t)) => s.(producers := s.producers[t := WakeProducer(s.producers[t])])
  }

  predicate Initial(s: State) {
    && s.dispatcherQueue == [] && s.executerQueue == [] && s.statQueue == 0
    && s.d == Fetch(Ready, []) && s.e == Take(Ready, [])
    && s.accepted == [] && s.executed == [] && s.freed == []
    && forall t :: t in s.producers ==> s.producers[t].Free?
  }

  // ------------------------------------------------------------------------------------
  // What every step keeps.

  /** The command the dispatcher took and did not pass on yet. */
  function Held(d: Dispatcher): seq<Cmd> {
    match d
    case Fetch(_, got) => got
    case Forward(Ready, c) => [c]
    case Forward(Asleep, c) => [c]
    case _ => []
  }

  /** The command the executer took and did not run yet. */
  function Running(e: Executer): seq<Cmd> {
    match e
    case Take(_, got) => got
    case Execute(c) => [c]
    case _ => []
  }

  /** The command that ran and is not freed yet. */
  function Unfreed(e: Executer): seq<Cmd> {
    if e.Release? then [e.c] else []
  }

  /** Conservation: every accepted command is in exactly one place, in order. */
  ghost predicate Conserved(s: State) {
    && s.accepted == s.executed + Running(s.e) + s.executerQueue + Held(s.d) + s.dispatcherQueue
    && s.executed == s.freed + Unfreed(s.e)
  }

  predicate WellPhased(s: State) {
    && (s.d.Fetch? ==> |s.d.got| == if s.d.ph.Notify? then 1 else 0)
    && (s.e.Take? ==> |s.e.got| == if s.e.ph.Notify? then 1 else 0)
  }

  /** The dispatcher has passed a command on and not yet read its status. */
  predicate InFlight(d: Dispatcher) {
    (d.Forward? && d.ph.Notify?) || (d.Await? && !d.ph.Notify?)
  }

  /** The executer has no command: it waits for one, or only has to broadcast its status. */
  predicate Vacant(e: Executer) {
    (e.Take? && !e.ph.Notify?) || (e.Report? && e.ph.Notify?)
  }

  /** The two one-place queues hold at most one token together, and neither inner send sleeps. */
  predicate OneToken(s: State) {
    && |s.executerQueue| + s.statQueue + (if Vacant(s.e) then 0 else 1) == (if InFlight(s.d) then 1 else 0)
    && !(s.d.Forward? && s.d.ph.Asleep?) && !(s.e.Report? && s.e.ph.Asleep?)
  }

  /** Nobody sleeps through a broadcast: whoever could go on will still be woken. */
  ghost predicate NobodyForgotten(s: State) {
    && (s.d.Fetch? && s.d.ph.Asleep? && s.dispatcherQueue != [] ==>
          exists t :: t in s.producers && s.producers[t].Sending? && s.producers[t].ph.Notify?)
    && (s.d.Await? && s.d.ph.Asleep? && s.statQueue > 0 ==> s.e.Report? && s.e.ph.Notify?)
    && (s.e.Take? && s.e.ph.Asleep? && s.executerQueue != [] ==> s.d.Forward? && s.d.ph.Notify?)
    && (forall t :: t in s.producers && s.producers[t].Sending? && s.producers[t].ph.Asleep? ==>
          |s.dispatcherQueue| == ROOM || (s.d.Fetch? && s.d.ph.Notify?))
  }

  ghost predicate Inv(s: State) {
    && |s.dispatcherQueue| <= ROOM && WellPhased(s)
    && Conserved(s) && OneToken(s) && NobodyForgotten(s)
  }

  /** The first command of a queue moves in front of the rest. */
  lemma {:induction false} MoveFirst(a: seq<Cmd>, q: seq<Cmd>)
    requires q != []
    ensures a + [] + q == a + [q[0]] + q[1..]
  {
    assert q == [q[0]] + q[1..];
  }

  lemma {:induction false} MoveLast(a: seq<Cmd>, q: seq<Cmd>, c: Cmd)
    ensures a + q + [c] == a + (q + [c]) + [] && a + [c] + q == (a + [c]) + [] + q
  {}

  lemma {:induction false} DispatchConserves(s: State)
    requires WellPhased(s) && Conserved(s) && Enabled(s, Dispatch)
    ensures Conserved(DispatchStep(s))
  {
    var before := s.executed + Running(s.e);
    if s.d.Fetch? && s.d.ph.Ready? {
      if s.dispatcherQueue != [] { MoveFirst(before + s.executerQueue, s.dispatcherQueue); }
    } else if s.d.Forward? && s.d.ph.Ready? {
      MoveLast(before, s.executerQueue, s.d.c);
    }
  }

  lemma {:induction false} RunConserves(s: State)
    requires WellPhased(s) && Conserved(s) && Enabled(s, Run)
    ensures Conserved(RunStep(s))
  {
    if s.e.Take? && s.e.ph.Ready? {
      if s.executerQueue != [] { MoveFirst(s.executed, s.executerQueue); }
    } else if s.e.Execute? {
      MoveLast(s.executed, s.executerQueue, s.e.c);
    }
  }

  lemma {:induction false} DispatchKeepsInv(s: State)
    requires Inv(s) && Enabled(s, Dispatch)
    ensures Inv(DispatchStep(s))
  {
    DispatchConserves(s);
    hide Conserved;
  }

  lemma {:induction false} RunKeepsInv(s: State)
    requires Inv(s) && Enabled(s, Run)
    ensures Inv(RunStep(s))
  {
    RunConserves(s);
    hide Conserved;
  }

  /** Some producer has stored a command and not yet broadcast. */
  ghost predicate NotifyPending(s: State) {
    exists t :: t in s.producers && s.producers[t].Sending? && s.producers[t].ph.Notify?
  }

  lemma {:induction false} ProduceKeepsInv(s: State, t: Thread)
    requires Inv(s) && Enabled(s, Produce(t))
    ensures Inv(ProduceStep(s, t))
  {
    var s' := ProduceStep(s, t);
    if s.producers[t].ph.Ready? && s'.d.Fetch? && s'.d.ph.Asleep? && s'.dispatcherQueue != [] {
      if |s.dispatcherQueue| == ROOM {
        var u :| u in s.producers && s.producers[u].Sending? && s.producers[u].ph.Notify?;
        assert s'.producers[u] == s.producers[u];
      } else {
        assert s'.producers[t].ph.Notify?;
      }
    }
  }

  lemma {:induction false} CallKeepsInv(s: State, t: Thread, c: Cmd)
    requires Inv(s) && Enabled(s, Call(t, c))
    ensures Inv(Next(s, Call(t, c)))
  {
    var s' := Next(s, Call(t, c));
    if NotifyPending(s) {
      var u :| u in s.producers && s.producers[u].Sending? && s.producers[u].ph.Notify?;
      assert s'.producers[u] == s.producers[u];
    }
  }

  lemma {:induction false} WakeKeepsInv(s: State, w: Sleeper)
    requires Inv(s) && Enabled(s, Spurious(w))
    ensures Inv(Next(s, Spurious(w)))
  {
    var s' := Next(s, Spurious(w));
    if w.AProducer? && NotifyPending(s) {
      var u :| u in s.producers && s.producers[u].Sending? && s.producers[u].ph.Notify?;
      assert s'.producers[u] == s.producers[u];
    }
  }

  lemma {:induction false} StepKeepsInv(s: State, step: Step)
    requires Inv(s) && Enabled(s, step)
    ensures Inv(Next(s, step))
  {
    match step
    case Call(t, c) => CallKeepsInv(s, t, c);
    case Produce(t) => ProduceKeepsInv(s, t);
    case Dispatch => DispatchKeepsInv(s);
    case Run => RunKeepsInv(s);
    case Spurious(w) => WakeKeepsInv(s, w);
  }

  /** `trace` follows `steps`. */
  ghost predicate Follows(trace: seq<State>, steps: seq<Step>) {
    && |trace| == |steps| + 1
    && forall i :: 0 <= i < |steps| ==> Enabled(trace[i], steps[i]) && trace[i + 1] == Next(trace[i], steps[i])
  }

  lemma {:induction false} RunsKeepInv(trace: seq<State>, steps: seq<Step>, n: nat)
    requires Follows(trace, steps) && Inv(trace[0]) && n < |trace|
    ensures Inv(trace[n])
  {
    if n > 0 {
      RunsKeepInv(trace, steps, n - 1);
      StepKeepsInv(trace[n - 1], steps[n - 1]);
    }
  }

  /** In every interleaving from start-up, commands run in the order they were accepted, each at
      most once; each is freed once, after it ran; and at most one is in flight. */
  lemma {:induction false} ExactlyOnceInOrder(trace: seq<State>, steps: seq<Step>, n: nat)
    requires Follows(trace, steps) && Initial(trace[0]) && n < |trace|
    ensures var s := trace[n];
      && Conserved(s) && s.executed <= s.accepted && s.freed <= s.executed && |s.executed| <= |s.freed| + 1
      && |Running(s.e)| + |s.executerQueue| + |Unfreed(s.e)| <= 1
      && |s.accepted| <= |s.executed| + 2 + |s.dispatcherQueue|
  {
    RunsKeepInv(trace, steps, n);
  }

  /** In every interleaving from start-up, the two one-place queues together hold at most one token,
      and each of the two inner sends finds its queue empty and never sleeps. */
  lemma {:induction false} InnerSendsNeverBlock(trace: seq<State>, steps: seq<Step>, n: nat)
    requires Follows(trace, steps) && Initial(trace[0]) && n < |trace|
    ensures var s := trace[n];
      && |s.executerQueue| + s.statQueue <= 1
      && (s.d.Forward? ==> !s.d.ph.Asleep? && (s.d.ph.Ready? ==> s.executerQueue == [] && s.statQueue == 0))
      && (s.e.Report? ==> !s.e.ph.Asleep? && (s.e.ph.Ready? ==> s.statQueue == 0 && s.executerQueue == []))
  {
    RunsKeepInv(trace, steps, n);
  }

  // ------------------------------------------------------------------------------------
  // Progress.

  /** No thread can move unless a producer makes a new call. */
  ghost predicate Stuck(s: State) {
    !Enabled(s, Dispatch) && !Enabled(s, Run) && forall t :: t in s.producers ==> !Enabled(s, Produce(t))
  }

  /** The pipeline only comes to rest when every accepted command ran and was freed, and no
      producer is left waiting. */
  lemma {:induction false} RestsOnlyWhenDone(s: State)
    requires Inv(s) && Stuck(s)
    ensures s.executed == s.accepted == s.freed
    ensures forall t :: t in s.producers ==> s.producers[t].Free?
  {}

  /** Transfers still to be made for the commands in the system. */
  ghost function Work(s: State): nat {
    8 * |SendingProducers(s)| + InnerWork(s)
  }

  /** Those behind the dispatcher queue's entrance. */
  function InnerWork(s: State): nat {
    7 * |s.dispatcherQueue| + 6 * |Held(s.d)| + 5 * |s.executerQueue|
    + (match s.e case Take(_, got) => 4 * |got| case Execute(_) => 4 case Release(_) => 3
                 case Report(ph) => if ph.Notify? then 0 else 2)
    + s.statQueue
  }

  /** Producers whose command is not accepted yet. */
  ghost function SendingProducers(s: State): set<Thread> {
    set t | t in s.producers && s.producers[t].Sending? && !s.producers[t].ph.Notify?
  }

  ghost function NotifyingProducers(s: State): set<Thread> {
    set t | t in s.producers && s.producers[t].Sending? && s.producers[t].ph.Notify?
  }

  ghost function ReadyProducers(s: State): set<Thread> {
    set t | t in s.producers && s.producers[t].Sending? && s.producers[t].ph.Ready?
  }

  /** Broadcasts still to be made. */
  ghost function Notifies(s: State): nat {
    |NotifyingProducers(s)| + InnerNotifies(s)
  }

  function InnerNotifies(s: State): nat {
    (if s.d.ph.Notify? then 1 else 0)
    + (if (s.e.Take? && s.e.ph.Notify?) || (s.e.Report? && s.e.ph.Notify?) then 1 else 0)
  }

  /** Threads that may test a queue again. */
  ghost function Readies(s: State): nat {
    |ReadyProducers(s)| + InnerReadies(s)
  }

  function InnerReadies(s: State): nat {
    (if s.d.ph.Ready? then 1 else 0)
    + (if (s.e.Take? && s.e.ph.Ready?) || (s.e.Report? && s.e.ph.Ready?) then 1 else 0)
  }

  function Times(a: nat, b: nat): nat { a * b }

  /** A bound on the number of steps until the pipeline rests. */
  ghost function StepsLeft(s: State): nat {
    var n := |s.producers.Keys|;
    Times(n + 5, Work(s)) + Times(n + 4, Notifies(s)) + Readies(s)
  }

  lemma {:induction false} SubsetSize(a: set<Thread>, b: set<Thread>)
    requires a <= b
    ensures |a| <= |b|
  {
    assert b == a + (b - a);
  }

  /** What one step may do to the three counters behind `StepsLeft`. */
  ghost predicate Paid(s: State, s': State) {
    var n := |s.producers.Keys|;
    && s'.producers.Keys == s.producers.Keys
    && (|| (Work(s') == Work(s) - 1 && Notifies(s') == Notifies(s) + 1 && Readies(s') <= Readies(s))
        || (Work(s') == Work(s) - 1 && Notifies(s') == Notifies(s) && Readies(s') <= Readies(s) + 1)
        || (Work(s') == Work(s) && Notifies(s') == Notifies(s) - 1 && Readies(s') <= Readies(s) + n + 2)
        || (Work(s') == Work(s) && Notifies(s') == Notifies(s) && Readies(s') < Readies(s)))
  }

  /** A transfer is worth a broadcast, and a broadcast more than every thread it may wake. */
  lemma {:induction false} Weights(n: int, w: int, w': int, k: int, k': int, r: int, r': int)
    requires n >= 0
    requires || (w' == w - 1 && k' == k + 1 && r' <= r)
             || (w' == w - 1 && k' == k && r' <= r + 1)
             || (w' == w && k' == k - 1 && r' <= r + n + 2)
             || (w' == w && k' == k && r' < r)
    ensures (n + 5) * w' + (n + 4) * k' + r' < (n + 5) * w + (n + 4) * k + r
  {}

  lemma {:induction false} PaidDecreases(s: State, s': State)
    requires Paid(s, s')
    ensures StepsLeft(s') < StepsLeft(s)
  {
    Weights(|s.producers.Keys|, Work(s), Work(s'), Notifies(s), Notifies(s'), Readies(s), Readies(s'));
  }

  /** The same for the part of the counters that has nothing to do with producers. */
  predicate InnerPaid(s: State, s': State) {
    || (InnerWork(s') == InnerWork(s) - 1 && InnerNotifies(s') == InnerNotifies(s) + 1 && InnerReadies(s') <= InnerReadies(s))
    || (InnerWork(s') == InnerWork(s) - 1 && InnerNotifies(s') == InnerNotifies(s) && InnerReadies(s') <= InnerReadies(s) + 1)
    || InnerBroadcast(s, s')
    || (InnerWork(s') == InnerWork(s) && InnerNotifies(s') == InnerNotifies(s) && InnerReadies(s') < InnerReadies(s))
  }

  predicate InnerBroadcast(s: State, s': State) {
    InnerWork(s') == InnerWork(s) && InnerNotifies(s') == InnerNotifies(s) - 1 && InnerReadies(s') <= InnerReadies(s) + 2
  }

  lemma {:induction false} DispatchIsPaidInside(s: State)
    requires WellPhased(s) && Enabled(s, Dispatch)
    ensures InnerPaid(s, DispatchStep(s))
    ensures s.d.Fetch? && s.d.ph.Notify? ==> InnerBroadcast(s, DispatchStep(s))
  {}

  lemma {:induction false} RunIsPaidInside(s: State)
    requires WellPhased(s) && Enabled(s, Run)
    ensures InnerPaid(s, RunStep(s))
  {}

  lemma {:induction false} SameProducers(s: State, s': State)
    requires s'.producers == s.producers && InnerPaid(s, s')
    ensures Paid(s, s')
  {
    assert SendingProducers(s') == SendingProducers(s) && NotifyingProducers(s') == NotifyingProducers(s)
        && ReadyProducers(s') == ReadyProducers(s);
  }

  lemma {:induction false} WokenProducers(s: State, s': State)
    requires s'.producers == WakeProducers(s.producers) && InnerBroadcast(s, s')
    ensures Paid(s, s')
  {
    assert SendingProducers(s') == SendingProducers(s);
    assert NotifyingProducers(s') == NotifyingProducers(s);
    SubsetSize(ReadyProducers(s'), s.producers.Keys);
  }

  lemma {:induction false} DispatchIsPaid(s: State)
    requires WellPhased(s) && Enabled(s, Dispatch)
    ensures Paid(s, DispatchStep(s))
  {
    DispatchIsPaidInside(s);
    if s.d.Fetch? && s.d.ph.Notify? {
      WokenProducers(s, DispatchStep(s));
    } else {
      SameProducers(s, DispatchStep(s));
    }
  }

  lemma {:induction false} RunIsPaid(s: State)
    requires WellPhased(s) && Enabled(s, Run)
    ensures Paid(s, RunStep(s))
  {
    RunIsPaidInside(s);
    SameProducers(s, RunStep(s));
  }

  /** How one producer's change of state moves it between the three groups. */
  lemma {:induction false} GroupsAfter(s: State, s': State, t: Thread)
    requires t in s.producers && t in s'.producers && s'.producers == s.producers[t := s'.producers[t]]
    ensures SendingProducers(s') - {t} == SendingProducers(s) - {t}
    ensures NotifyingProducers(s') - {t} == NotifyingProducers(s) - {t}
    ensures ReadyProducers(s') - {t} == ReadyProducers(s) - {t}
  {}

  lemma {:induction false} Count(a: set<Thread>, b: set<Thread>, t: Thread)
    requires a - {t} == b - {t}
    ensures |a| - (if t in a then 1 else 0) == |b| - (if t in b then 1 else 0)
  {
    if t in a { assert a == (a - {t}) + {t}; } else { assert a == a - {t}; }
    if t in b { assert b == (b - {t}) + {t}; } else { assert b == b - {t}; }
  }

  lemma {:induction false} ProduceIsPaid(s: State, t: Thread)
    requires WellPhased(s) && Enabled(s, Produce(t))
    ensures Paid(s, ProduceStep(s, t))
  {
    var s' := ProduceStep(s, t);
    GroupsAfter(s, s', t);
    Count(SendingProducers(s'), SendingProducers(s), t);
    Count(NotifyingProducers(s'), NotifyingProducers(s), t);
    Count(ReadyProducers(s'), ReadyProducers(s), t);
  }

  /** A spurious wake-up costs one more test of a queue. */
  lemma {:induction false} WakeCostsOne(s: State, w: Sleeper)
    requires Enabled(s, Spurious(w))
    ensures StepsLeft(Next(s, Spurious(w))) == StepsLeft(s) + 1
  {
    hide Times;
    var s' := Next(s, Spurious(w));
    assert s'.producers.Keys == s.producers.Keys;
    assert InnerWork(s') == InnerWork(s) && InnerNotifies(s') == InnerNotifies(s);
    assert InnerReadies(s') == InnerReadies(s) + if w.AProducer? then 0 else 1;
    if w.AProducer? {
      GroupsAfter(s, s', w.t);
      Count(SendingProducers(s'), SendingProducers(s), w.t);
      Count(NotifyingProducers(s'), NotifyingProducers(s), w.t);
      Count(ReadyProducers(s'), ReadyProducers(s), w.t);
    } else {
      assert SendingProducers(s') == SendingProducers(s) && NotifyingProducers(s') == NotifyingProducers(s)
          && ReadyProducers(s') == ReadyProducers(s);
    }
  }

  /** The number of spurious wake-ups among some steps. */
  function Wakes(steps: seq<Step>): nat {
    if steps == [] then 0 else Wakes(steps[..|steps| - 1]) + if steps[|steps| - 1].Spurious? then 1 else 0
  }

  /** Steps other than calls and spurious wake-ups bring the pipeline nearer to rest. */
  lemma {:induction false} StepIsPaid(s: State, step: Step)
    requires WellPhased(s) && Enabled(s, step) && !step.Call? && !step.Spurious?
    ensures StepsLeft(Next(s, step)) < StepsLeft(s)
  {
    match step {
      case Produce(t) => ProduceIsPaid(s, t);
      case Dispatch => DispatchIsPaid(s);
      case Run => RunIsPaid(s);
    }
    PaidDecreases(s, Next(s, step));
  }

  /** Draining: without new calls, at most `StepsLeft` steps can be made, and two more for each spurious
      wake-up, whatever the scheduling. */
  lemma {:induction false} DrainsInBoundedTime(trace: seq<State>, steps: seq<Step>, n: nat)
    requires Follows(trace, steps) && Inv(trace[0]) && n < |trace|
    requires forall i :: 0 <= i < |steps| ==> !steps[i].Call?
    ensures n + StepsLeft(trace[n]) <= StepsLeft(trace[0]) + 2 * Wakes(steps[..n])
  {
    if n > 0 {
      DrainsInBoundedTime(trace, steps, n - 1);
      RunsKeepInv(trace, steps, n - 1);
      assert steps[..n][..n - 1] == steps[..n - 1];
      var s, step := trace[n - 1], steps[n - 1];
      if step.Spurious? {
        WakeCostsOne(s, step.w);
      } else {
        StepIsPaid(s, step);
      }
    }
  }

  lemma {:induction false} NothingLeft(s: State)
    requires WellPhased(s) && StepsLeft(s) == 0
    ensures Stuck(s)
  {
    if Enabled(s, Dispatch) { StepIsPaid(s, Dispatch); }
    if Enabled(s, Run) { StepIsPaid(s, Run); }
    forall t | t in s.producers ensures !Enabled(s, Produce(t)) {
      if Enabled(s, Produce(t)) { StepIsPaid(s, Produce(t)); }
    }
  }

  /** From start-up: once calls stop, after step `k`, every schedule is over after at most `StepsLeft` steps and
      two more for each spurious wake-up. The state it then rests in has run and freed every accepted command, in
      order, and no producer waits; and after exactly that many steps it is at rest. */
  lemma {:induction false} Drains(trace: seq<State>, steps: seq<Step>, k: nat)
    requires Follows(trace, steps) && Initial(trace[0]) && k <= |steps|
    requires forall i :: k <= i < |steps| ==> !steps[i].Call?
    ensures var s, bound := trace[|steps|], StepsLeft(trace[k]) + 2 * Wakes(steps[k..]);
      && |steps| - k <= bound
      && (|steps| - k == bound ==> Stuck(s))
      && (Stuck(s) ==> s.executed == s.accepted == s.freed && forall t :: t in s.producers ==> s.producers[t].Free?)
  {
    RunsKeepInv(trace, steps, k);
    RunsKeepInv(trace, steps, |steps|);
    var rest := |steps| - k;
    assert steps[k..][..rest] == steps[k..];
    DrainsInBoundedTime(trace[k..], steps[k..], rest);
    var s := trace[|steps|];
    if StepsLeft(s) == 0 { NothingLeft(s); }
    if Stuck(s) { RestsOnlyWhenDone(s); }
  }

  /** A command that itself sends to the dispatcher queue is a producer `t` that the executer waits for. */
  ghost predicate WaitsFor(trace: seq<State>, steps: seq<Step>, t: Thread)
    requires Follows(trace, steps)
  {
    forall i :: 0 <= i < |steps| && steps[i].Run? ==> t in trace[i].producers && trace[i].producers[t].Free?
  }

  /** The executing command's own send is stuck: it has not stored its command, and the queue is full. */
  predicate SendBlocked(s: State, t: Thread) {
    && s.e.Execute? && |s.dispatcherQueue| == ROOM
    && t in s.producers && s.producers[t].Sending? && !s.producers[t].ph.Notify?
  }

  lemma {:induction false} StaysBlocked(s: State, step: Step, t: Thread)
    requires Inv(s) && Enabled(s, step) && SendBlocked(s, t) && !step.Run?
    ensures SendBlocked(Next(s, step), t) && Next(s, step).e == s.e
    ensures Next(s, step).dispatcherQueue == s.dispatcherQueue
  {}

  /** Why commands must not send and wait themselves: one that finds the queue full waits for ever, and
      nothing is executed any more, whatever the scheduling and however many spurious wake-ups. */
  lemma {:induction false} SendingCommandDeadlocks(trace: seq<State>, steps: seq<Step>, t: Thread, n: nat)
    requires Follows(trace, steps) && Inv(trace[0]) && SendBlocked(trace[0], t) && WaitsFor(trace, steps, t) && n < |trace|
    ensures SendBlocked(trace[n], t) && trace[n].e == trace[0].e && trace[n].dispatcherQueue == trace[0].dispatcherQueue
  {
    if n > 0 {
      SendingCommandDeadlocks(trace, steps, t, n - 1);
      RunsKeepInv(trace, steps, n - 1);
      StaysBlocked(trace[n - 1], steps[n - 1], t);
    }
  }

  /** While a command is executing, no other thread ever takes anything out of the dispatcher queue. */
  lemma {:induction false} ExecutingCommandHoldsQueue(trace: seq<State>, steps: seq<Step>, n: nat)
    requires Follows(trace, steps) && Inv(trace[0]) && trace[0].e.Execute? && n < |trace|
    requires forall i :: 0 <= i < |steps| ==> !steps[i].Run?
    ensures trace[n].e == trace[0].e && trace[0].dispatcherQueue <= trace[n].dispatcherQueue
  {
    if n > 0 {
      ExecutingCommandHoldsQueue(trace, steps, n - 1);
      RunsKeepInv(trace, steps, n - 1);
      StepHoldsQueue(trace[n - 1], steps[n - 1]);
    }
  }

  lemma {:induction false} StepHoldsQueue(s: State, step: Step)
    requires Inv(s) && Enabled(s, step) && s.e.Execute? && !step.Run?
    ensures Next(s, step).e == s.e && s.dispatcherQueue <= Next(s, step).dispatcherQueue
  {}
  // ------------------------------------------------------------------------------------
  // From calls to executed commands.

  /** How often `c` was handed to cmd_send. */
  function Calls(steps: seq<Step>, c: Cmd): nat {
    if steps == [] then 0
    else
      var last := steps[|steps| - 1];
      Calls(steps[..|steps| - 1], c) + if last.Call? && last.c == c then 1 else 0
  }

  /** The producers that have called cmd_send with `c` and not stored it yet. */
  ghost function Offering(s: State, c: Cmd): set<Thread> {
    set t | t in s.producers && Offers(s.producers[t], c)
  }

  ghost predicate Offers(p: Producer, c: Cmd) {
    p.Sending? && !p.ph.Notify? && p.c == c
  }

  lemma {:induction false} OneOffer(s: State, s': State, t: Thread, c: Cmd)
    requires t in s.producers && t in s'.producers && s'.producers == s.producers[t := s'.producers[t]]
    ensures |Offering(s', c)| - (if Offers(s'.producers[t], c) then 1 else 0)
         == |Offering(s, c)| - (if Offers(s.producers[t], c) then 1 else 0)
  {
    hide Offers;
    assert Offering(s', c) - {t} == Offering(s, c) - {t};
    Count(Offering(s', c), Offering(s, c), t);
  }

  lemma {:induction false} WakingOffers(s: State, s': State, c: Cmd)
    requires s'.producers == s.producers || s'.producers == WakeProducers(s.producers)
    ensures Offering(s', c) == Offering(s, c)
  {}

  /** `n` commands `c` were accepted or are offered. */
  ghost predicate Accounts(s: State, c: Cmd, n: int) {
    multiset(s.accepted)[c] + |Offering(s, c)| == n
  }

  lemma {:induction false} ProduceAccounts(s: State, t: Thread, c: Cmd, n: int)
    requires Enabled(s, Produce(t)) && Accounts(s, c, n)
    ensures Accounts(ProduceStep(s, t), c, n)
  {
    OneOffer(s, ProduceStep(s, t), t, c);
  }

  predicate Inner(step: Step) {
    step.Dispatch? || step.Run? || (step.Spurious? && !step.w.AProducer?)
  }

  /** No other thread accepts a command or does more to producers than wake them. */
  lemma {:induction false} InnerOnlyWakes(s: State, step: Step)
    requires Inner(step) && Enabled(s, step)
    ensures var s' := Next(s, step);
      s'.accepted == s.accepted && (s'.producers == s.producers || s'.producers == WakeProducers(s.producers))
  {}

  lemma {:induction false} InnerAccounts(s: State, step: Step, c: Cmd, n: int)
    requires Inner(step) && Enabled(s, step) && Accounts(s, c, n)
    ensures Accounts(Next(s, step), c, n)
  {
    InnerOnlyWakes(s, step);
    hide Next, Enabled;
    WakingOffers(s, Next(s, step), c);
  }

  lemma {:induction false} StepAccounts(s: State, step: Step, c: Cmd, n: int)
    requires Enabled(s, step) && Accounts(s, c, n)
    ensures Accounts(Next(s, step), c, n + if step.Call? && step.c == c then 1 else 0)
  {
    match step
    case Call(t, _) => OneOffer(s, Next(s, step), t, c);
    case Produce(t) => ProduceAccounts(s, t, c, n);
    case Spurious(AProducer(t)) => OneOffer(s, Next(s, step), t, c);
    case _ => InnerAccounts(s, step, c, n);
  }

  /** In every state of every run, each call of cmd_send with a command was accepted once or is still under way. */
  lemma {:induction false} EveryCallAccounted(trace: seq<State>, steps: seq<Step>, c: Cmd, n: nat)
    requires Follows(trace, steps) && Initial(trace[0]) && n <= |steps|
    ensures Calls(steps[..n], c) == multiset(trace[n].accepted)[c] + |Offering(trace[n], c)|
  {
    if n > 0 {
      EveryCallAccounted(trace, steps, c, n - 1);
      assert steps[..n][..n - 1] == steps[..n - 1];
      StepAccounts(trace[n - 1], steps[n - 1], c, Calls(steps[..n - 1], c));
    }
  }

  /** So when the pipeline rests, every command has run, and was freed, exactly as often as cmd_send was called with
      it. */
  lemma {:induction false} EveryCallRuns(trace: seq<State>, steps: seq<Step>, c: Cmd)
    requires Follows(trace, steps) && Initial(trace[0]) && Stuck(trace[|steps|])
    ensures multiset(trace[|steps|].executed)[c] == multiset(trace[|steps|].freed)[c] == Calls(steps, c)
  {
    RunsKeepInv(trace, steps, |steps|);
    RestsOnlyWhenDone(trace[|steps|]);
    EveryCallAccounted(trace, steps, c, |steps|);
    assert steps[..|steps|] == steps;
    assert Offering(trace[|steps|], c) == {};
  }

}
