/** The locking protocol around the ring buffer, for any number of threads that send and
    receive on one queue. Each mutex section is one step; waiting on a condition variable,
    and the gap between unlocking and broadcasting, are states of their own. */
module QueueProtocol {

  type Thread = nat

  datatype Pc<T> =
    | Idle
    | SendReady(v: T)    // about to take the mutex and test for room
    | SendAsleep(v: T)   // waiting on cond_full
    | SendNotify         // item stored, mutex released, cond_empty not yet broadcast
    | RecvReady
    | RecvAsleep         // waiting on cond_empty
    | RecvNotify         // item taken, mutex released, cond_full not yet broadcast

  /** `sent` and `received` record the items that crossed the queue so far. */
  datatype State<T> = State(size: nat, items: seq<T>, pcs: map<Thread, Pc<T>>, sent: seq<T>, received: seq<T>)

  datatype Step<T> =
    | CallSend(t: Thread, v: T)
    | CallReceive(t: Thread)
    | Enter(t: Thread)       // the mutex section, ending asleep or about to notify
    | Broadcast(t: Thread)
    | WakeUp(t: Thread)      // spurious
    | TimeOut(t: Thread)     // the call returns PTHREAD_QUEUE_FULL or PTHREAD_QUEUE_EMPTY

  predicate Enabled<T>(s: State<T>, step: Step<T>) {
    && step.t in s.pcs
    && var pc := s.pcs[step.t];
       match step
       case CallSend(_, _) => pc.Idle?
       case CallReceive(_) => pc.Idle?
       case Enter(_) => pc.SendReady? || pc.RecvReady?
       case Broadcast(_) => pc.SendNotify? || pc.RecvNotify?
       case WakeUp(_) => pc.SendAsleep? || pc.RecvAsleep?
       case TimeOut(_) => pc.SendAsleep? || pc.RecvAsleep?
  }

  /** Broadcasting cond_empty wakes every sleeping receiver, cond_full every sleeping sender. */
  function Woken<T>(pc: Pc<T>, receivers: bool): Pc<T> {
    if receivers && pc.RecvAsleep? then RecvReady
    else if !receivers && pc.SendAsleep? then SendReady(pc.v)
    else pc
  }

  function Next<T>(s: State<T>, step: Step<T>): State<T>
    requires Enabled(s, step)
  {
    var t := step.t;
    match (step, s.pcs[t])
    case (CallSend(_, v), _) => s.(pcs := s.pcs[t := SendReady(v)])
    case (CallReceive(_), _) => s.(pcs := s.pcs[t := RecvReady])
    case (Enter(_), SendReady(v)) =>
      if |s.items| == s.size then s.(pcs := s.pcs[t := SendAsleep(v)])
      else s.(items := s.items + [v], pcs := s.pcs[t := SendNotify], sent := s.sent + [v])
    case (Enter(_), _) =>
      if s.items == [] then s.(pcs := s.pcs[t := RecvAsleep])
      else s.(items := s.items[1..], pcs := s.pcs[t := RecvNotify], received := s.received + [s.items[0]])
    case (Broadcast(_), pc) =>
      s.(pcs := map u | u in s.pcs :: if u == t then Idle else Woken(s.pcs[u], pc.SendNotify?))
    case (WakeUp(_), pc) => s.(pcs := s.pcs[t := Woken(pc, pc.RecvAsleep?)])
    case (TimeOut(_), _) => s.(pcs := s.pcs[t := Idle])
  }

  predicate Initial<T>(s: State<T>) {
    s.items == [] && s.sent == [] && s.received == [] && forall t :: t in s.pcs ==> s.pcs[t].Idle?
  }

  /** `trace` is a run of the protocol from an initial state. */
  ghost predicate Run<T>(trace: seq<State<T>>, steps: seq<Step<T>>) {
    && |trace| == |steps| + 1 && Initial(trace[0])
    && forall i :: 0 <= i < |steps| ==> Enabled(trace[i], steps[i]) && trace[i + 1] == Next(trace[i], steps[i])
  }

  /** A receiver only sleeps on a non-empty queue while some sender is still to broadcast. */
  ghost predicate NoReceiverForgotten<T>(s: State<T>) {
    forall t :: t in s.pcs && s.pcs[t].RecvAsleep? && s.items != [] ==> exists u :: u in s.pcs && s.pcs[u].SendNotify?
  }

  /** A sender only sleeps on a queue with room while some receiver is still to broadcast. */
  ghost predicate NoSenderForgotten<T>(s: State<T>) {
    forall t :: t in s.pcs && s.pcs[t].SendAsleep? && |s.items| < s.size ==>
      exists u :: u in s.pcs && s.pcs[u].RecvNotify?
  }

  ghost predicate Inv<T>(s: State<T>) {
    && |s.items| <= s.size
    && s.sent == s.received + s.items
    && NoReceiverForgotten(s) && NoSenderForgotten(s)
  }

  lemma {:induction false} StepKeepsOrder<T>(s: State<T>, step: Step<T>)
    requires Inv(s) && Enabled(s, step)
    ensures var s' := Next(s, step); |s'.items| <= s'.size && s'.sent == s'.received + s'.items
  {}

  lemma {:induction false} StepForgetsNoReceiver<T>(s: State<T>, step: Step<T>)
    requires Inv(s) && Enabled(s, step)
    ensures NoReceiverForgotten(Next(s, step))
  {
    var s' := Next(s, step);
    forall t | t in s'.pcs && s'.pcs[t].RecvAsleep? && s'.items != []
      ensures exists u :: u in s'.pcs && s'.pcs[u].SendNotify?
    {
      if step.Enter? && s.pcs[step.t].SendReady? && |s.items| < s.size {
        assert s'.pcs[step.t].SendNotify?;
      } else {
        var u :| u in s.pcs && s.pcs[u].SendNotify?;
        assert s'.pcs[u].SendNotify?;
      }
    }
  }

  lemma {:induction false} StepForgetsNoSender<T>(s: State<T>, step: Step<T>)
    requires Inv(s) && Enabled(s, step)
    ensures NoSenderForgotten(Next(s, step))
  {
    var s' := Next(s, step);
    forall t | t in s'.pcs && s'.pcs[t].SendAsleep? && |s'.items| < s'.size
      ensures exists u :: u in s'.pcs && s'.pcs[u].RecvNotify?
    {
      if step.Enter? && s.pcs[step.t].RecvReady? && s.items != [] {
        assert s'.pcs[step.t].RecvNotify?;
      } else {
        var u :| u in s.pcs && s.pcs[u].RecvNotify?;
        assert s'.pcs[u].RecvNotify?;
      }
    }
  }

  /** In every state of every run: the queue is a bounded FIFO and no wake-up is lost. */
  lemma {:induction false} RunsLoseNoWakeUp<T>(trace: seq<State<T>>, steps: seq<Step<T>>, n: nat)
    requires Run(trace, steps) && n < |trace|
    ensures Inv(trace[n])
  {
    if n > 0 {
      RunsLoseNoWakeUp(trace, steps, n - 1);
      var s, step := trace[n - 1], steps[n - 1];
      StepKeepsOrder(s, step);
      StepForgetsNoReceiver(s, step);
      StepForgetsNoSender(s, step);
    }
  }

  /** No thread can move without a spurious wake-up, a time-out or a new call. */
  ghost predicate Stuck<T>(s: State<T>) {
    forall t :: t in s.pcs ==> !Enabled(s, Enter(t)) && !Enabled(s, Broadcast(t))
  }

  /** A run only gets stuck when every sleeper really has to wait: senders on a full queue,
      receivers on an empty one, and never both. */
  lemma {:induction false} StuckOnlyWhenBlocked<T>(s: State<T>)
    requires Inv(s) && Stuck(s)
    ensures forall t :: t in s.pcs ==> s.pcs[t].Idle? || s.pcs[t].SendAsleep? || s.pcs[t].RecvAsleep?
    ensures forall t :: t in s.pcs && s.pcs[t].SendAsleep? ==> |s.items| == s.size
    ensures forall t :: t in s.pcs && s.pcs[t].RecvAsleep? ==> s.items == []
    ensures s.size > 0 ==>
      !exists t, u :: t in s.pcs && u in s.pcs && s.pcs[t].SendAsleep? && s.pcs[u].RecvAsleep?
  {}

  // ------------------------------------------------------------------------------------
  // What becomes of each call.

  /** The threads whose call to send `v` has not stored it yet. */
  ghost function Holding<T>(s: State<T>, v: T): set<Thread> {
    set t | t in s.pcs && Holds(s.pcs[t], v)
  }

  ghost predicate Holds<T>(pc: Pc<T>, v: T) {
    (pc.SendReady? || pc.SendAsleep?) && pc.v == v
  }

  /** The calls to send `v` among the first `n` steps, less those that timed out. */
  ghost function Outstanding<T>(trace: seq<State<T>>, steps: seq<Step<T>>, v: T, n: nat): int
    requires |trace| == |steps| + 1 && n <= |steps|
  {
    if n == 0 then 0 else Outstanding(trace, steps, v, n - 1) + Opens(trace[n - 1], steps[n - 1], v)
  }

  ghost function Opens<T>(s: State<T>, step: Step<T>, v: T): int {
    match step
    case CallSend(_, w) => if w == v then 1 else 0
    case TimeOut(t) => if t in Holding(s, v) then -1 else 0
    case _ => 0
  }

  lemma {:induction false} HoldingAfter<T>(s: State<T>, step: Step<T>, v: T)
    requires Enabled(s, step)
    ensures Holding(Next(s, step), v) - {step.t} == Holding(s, v) - {step.t}
  {
    hide Holds;
    var s' := Next(s, step);
    forall t | t in s.pcs && t != step.t ensures Holds(s'.pcs[t], v) <==> Holds(s.pcs[t], v) {
      WokenHolds(s, step, t, v);
    }
  }

  lemma {:induction false} WokenHolds<T>(s: State<T>, step: Step<T>, t: Thread, v: T)
    requires Enabled(s, step) && t in s.pcs && t != step.t
    ensures Holds(Next(s, step).pcs[t], v) <==> Holds(s.pcs[t], v)
  {}

  lemma {:induction false} SizeBut(a: set<Thread>, b: set<Thread>, t: Thread)
    requires a - {t} == b - {t}
    ensures |a| - (if t in a then 1 else 0) == |b| - (if t in b then 1 else 0)
  {
    if t in a { assert a == (a - {t}) + {t}; } else { assert a == a - {t}; }
    if t in b { assert b == (b - {t}) + {t}; } else { assert b == b - {t}; }
  }

  lemma {:induction false} StepAccounts<T>(s: State<T>, step: Step<T>, v: T)
    requires Enabled(s, step)
    ensures var s' := Next(s, step);
      multiset(s'.sent)[v] + |Holding(s', v)| == multiset(s.sent)[v] + |Holding(s, v)| + Opens(s, step, v)
  {
    HoldingAfter(s, step, v);
    SizeBut(Holding(Next(s, step), v), Holding(s, v), step.t);
  }

  /** No item is dropped or stored twice: in every state of every run, each call to send an item has stored it once,
      is still under way, or has timed out. */
  lemma {:induction false} EveryCallAccounted<T>(trace: seq<State<T>>, steps: seq<Step<T>>, v: T, n: nat)
    requires Run(trace, steps) && n <= |steps|
    ensures Outstanding(trace, steps, v, n) == multiset(trace[n].sent)[v] + |Holding(trace[n], v)|
  {
    if n > 0 {
      EveryCallAccounted(trace, steps, v, n - 1);
      StepAccounts(trace[n - 1], steps[n - 1], v);
    }
  }

  // ------------------------------------------------------------------------------------
  // Termination: calls in progress finish or block after finitely many steps.

  /** Calls whose item has not crossed the queue yet. */
  ghost function Waiting<T>(s: State<T>): set<Thread> {
    set t | t in s.pcs && (s.pcs[t].SendReady? || s.pcs[t].SendAsleep? || s.pcs[t].RecvReady? || s.pcs[t].RecvAsleep?)
  }

  ghost function Notifying<T>(s: State<T>): set<Thread> {
    set t | t in s.pcs && (s.pcs[t].SendNotify? || s.pcs[t].RecvNotify?)
  }

  ghost function Ready<T>(s: State<T>): set<Thread> {
    set t | t in s.pcs && (s.pcs[t].SendReady? || s.pcs[t].RecvReady?)
  }

  /** Every mutex section and every broadcast decreases (waiting calls, pending broadcasts,
      ready threads) lexicographically, so calls cannot keep waking each other for ever. */
  lemma {:induction false} StepsDecrease<T>(s: State<T>, step: Step<T>)
    requires Enabled(s, step) && (step.Enter? || step.Broadcast?)
    ensures var s' := Next(s, step);
      || |Waiting(s')| < |Waiting(s)|
      || (|Waiting(s')| == |Waiting(s)| && |Notifying(s')| < |Notifying(s)|)
      || (|Waiting(s')| == |Waiting(s)| && |Notifying(s')| == |Notifying(s)| && |Ready(s')| < |Ready(s)|)
  {
    var s', t := Next(s, step), step.t;
    if step.Broadcast? {
      BroadcastGroups(s, t);
      LosesOne(Notifying(s), t);
    } else if s'.pcs[t].SendAsleep? || s'.pcs[t].RecvAsleep? {
      SleepGroups(s, t);
      LosesOne(Ready(s), t);
    } else {
      CrossGroups(s, t);
      LosesOne(Waiting(s), t);
    }
  }

  lemma {:induction false} LosesOne(a: set<Thread>, t: Thread)
    requires t in a
    ensures |a - {t}| < |a|
  {
    assert a == (a - {t}) + {t};
  }

  lemma {:induction false} BroadcastGroups<T>(s: State<T>, t: Thread)
    requires Enabled(s, Broadcast(t))
    ensures Waiting(Next(s, Broadcast(t))) == Waiting(s)
    ensures t in Notifying(s) && Notifying(Next(s, Broadcast(t))) == Notifying(s) - {t}
  {}

  lemma {:induction false} SleepGroups<T>(s: State<T>, t: Thread)
    requires Enabled(s, Enter(t)) && (Next(s, Enter(t)).pcs[t].SendAsleep? || Next(s, Enter(t)).pcs[t].RecvAsleep?)
    ensures Waiting(Next(s, Enter(t))) == Waiting(s) && Notifying(Next(s, Enter(t))) == Notifying(s)
    ensures t in Ready(s) && Ready(Next(s, Enter(t))) == Ready(s) - {t}
  {}

  lemma {:induction false} CrossGroups<T>(s: State<T>, t: Thread)
    requires Enabled(s, Enter(t)) && !Next(s, Enter(t)).pcs[t].SendAsleep? && !Next(s, Enter(t)).pcs[t].RecvAsleep?
    ensures t in Waiting(s) && Waiting(Next(s, Enter(t))) == Waiting(s) - {t}
  {}
}
