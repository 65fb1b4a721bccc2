/** What a client of the flight plan observes: an entry that was set comes back when its time is asked for, a periodic
    one at every period for ever, whatever else is requested in between. */
module Periodic {
  import opened Bytes
  import opened PlanRecord
  import opened FlashLayout
  import opened PlanSpec
  import opened Storage
  import opened RamPlan

  /** The first `n` periods after the entry's time fit 32 bits. */
  predicate InTime(e: Entry, n: nat) {
    e.time > 0 && e.period > 0 && Moment(e, n) < 0x8000_0000
  }

  /** The time `k` periods after the entry's. */
  function Moment(e: Entry, k: nat): int {
    e.time + k * e.period
  }

  /** The entry `k` periods later. */
  function Occurrence(e: Entry, k: nat): Entry
    requires InTime(e, k)
  {
    e.(time := Moment(e, k))
  }

  lemma {:induction false} InTimeBefore(e: Entry, k: nat, n: nat)
    requires InTime(e, n) && k <= n
    ensures InTime(e, k) && 0 < Moment(e, k) && (k < n ==> Moment(e, k) + e.period <= Moment(e, n))
    ensures Moment(e, 0) == e.time && Moment(e, k + 1) == Moment(e, k) + e.period
  {
    if k < n { ProductStep(k, n, e.period); }
    assert (k + 1) * e.period == k * e.period + e.period;
  }

  // ------------------------------------------------------------------------------------
  // On the list of entries.

  /** `x` is in the plan, and no entry before it has its time. */
  ghost predicate First(plan: seq<Entry>, x: Entry) {
    exists i :: 0 <= i < |plan| && plan[i] == x && forall j :: 0 <= j < i ==> plan[j].time != x.time
  }

  ghost predicate FreeAt(plan: seq<Entry>, t: int) {
    forall i :: 0 <= i < |plan| ==> plan[i].time != t
  }

  lemma {:induction false} FirstIsFound(plan: seq<Entry>, x: Entry)
    requires First(plan, x)
    ensures FindTime(plan, x.time) >= 0 && plan[FindTime(plan, x.time)] == x
  {
    var i :| 0 <= i < |plan| && plan[i] == x && forall j :: 0 <= j < i ==> plan[j].time != x.time;
    assert FindTime(plan, x.time) == i;
  }

  lemma {:induction false} FirstAppended(plan: seq<Entry>, y: Entry, x: Entry)
    requires First(plan, x) || (FreeAt(plan, y.time) && x == y)
    ensures First(plan + [y], x)
  {
    var plan' := plan + [y];
    if First(plan, x) {
      var i :| 0 <= i < |plan| && plan[i] == x && forall j :: 0 <= j < i ==> plan[j].time != x.time;
      assert plan'[i] == x && forall j :: 0 <= j < i ==> plan'[j].time != x.time;
    } else {
      assert plan'[|plan|] == x && forall j :: 0 <= j < |plan| ==> plan'[j].time != x.time;
    }
  }

  /** Erasing another entry leaves it first. */
  lemma {:induction false} FirstKept(plan: seq<Entry>, gone: nat, x: Entry, i: nat, n: nat)
    requires i < |plan| && plan[i] == x && (forall j :: 0 <= j < i ==> plan[j].time != x.time)
    requires n <= |plan| && gone != i && x.time != 0
    ensures if n <= i then FreeAt(Kept(plan, gone, n), x.time) else First(Kept(plan, gone, n), x)
  {
    if n > 0 {
      FirstKept(plan, gone, x, i, n - 1);
      var rest := Kept(plan, gone, n - 1);
      KeptStep(plan, gone, n - 1);
      if n - 1 >= i && n - 1 != gone && plan[n - 1].time != 0 {
        FirstAppended(rest, plan[n - 1], x);
      }
    }
  }

  lemma {:induction false} FirstLeft(plan: seq<Entry>, gone: nat, x: Entry)
    requires First(plan, x) && gone < |plan| && plan[gone].time != x.time && x.time != 0
    ensures First(Kept(plan, gone, |plan|), x)
  {
    var i :| 0 <= i < |plan| && plan[i] == x && forall j :: 0 <= j < i ==> plan[j].time != x.time;
    FirstKept(plan, gone, x, i, |plan|);
  }

  lemma {:induction false} KeptStaysFree(plan: seq<Entry>, gone: int, n: nat, t: int)
    requires n <= |plan| && forall i :: 0 <= i < n && i != gone ==> plan[i].time != t
    ensures FreeAt(Kept(plan, gone, n), t)
  {
    if n > 0 {
      KeptStaysFree(plan, gone, n - 1, t);
      KeptStep(plan, gone, n - 1);
    }
  }

  // ------------------------------------------------------------------------------------
  // On storage.

  /** A request that neither resets the plan nor takes out the entry at time `t`. */
  predicate LeavesAlone(op: Op, t: int) {
    !Resets(op) && (op.GetPlan? ==> op.t != t) && (op.ErasePlan? ==> op.t != t)
  }

  lemma {:induction false} StepLeaves(m: Model, op: Op, x: Entry)
    requires Sized(op) && |m.logs| == PAYLOADS && First(m.plan, x) && x.time != 0 && LeavesAlone(op, x.time)
    ensures First(Apply(m, op).plan, x)
  {
    if op.SetPlan? {
      FirstAppended(m.plan, op.e, x);
    } else if op.GetPlan? || op.ErasePlan? {
      var i := FindTime(m.plan, op.t);
      if i >= 0 {
        FirstLeft(m.plan, i, x);
        if op.GetPlan? && m.plan[i].period > 0 {
          var rest := Kept(m.plan, i, |m.plan|);
          var y := Apply(m, op).plan[|rest|];
          FirstAppended(rest, y, x);
        }
      }
    }
  }

  lemma {:induction false} RunLeaves(m: Model, before: seq<Op>, gap: seq<Op>, x: Entry)
    requires AllSized(before) && AllSized(gap) && AllSized(before + gap) && |m.logs| == PAYLOADS && x.time != 0
    requires First(ModelRun(m, before).plan, x) && forall i :: 0 <= i < |gap| ==> LeavesAlone(gap[i], x.time)
    ensures First(ModelRun(m, before + gap).plan, x)
    decreases |gap|
  {
    if gap == [] {
      assert before + gap == before;
    } else {
      var rest, op := gap[..|gap| - 1], gap[|gap| - 1];
      assert (before + gap)[..|before + gap| - 1] == before + rest;
      RunLeaves(m, before, rest, x);
      StepLeaves(ModelRun(m, before + rest), op, x);
    }
  }

  /** Fetching a periodic entry answers it, and leaves it one period later unless that time is taken. */
  lemma {:induction false} FetchPeriodic(m: Model, x: Entry, y: Entry)
    requires |m.logs| == PAYLOADS && First(m.plan, x) && x.period > 0
    ensures Output(m, GetPlan(x.time)) == Entries(Fetched(x))
    ensures y == x.(time := y.time) && y.time == x.time + x.period && FreeAt(m.plan, y.time) ==>
      First(Apply(m, GetPlan(x.time)).plan, y)
  {
    FirstIsFound(m.plan, x);
    if y == x.(time := y.time) && y.time == x.time + x.period && FreeAt(m.plan, y.time) {
      PeriodPasses(m.plan, x, y);
    }
  }

  lemma {:induction false} PeriodPasses(plan: seq<Entry>, x: Entry, y: Entry)
    requires First(plan, x) && x.period > 0 && y == x.(time := y.time) && y.time == x.time + x.period && FreeAt(plan, y.time)
    ensures var i := FindTime(plan, x.time);
      i >= 0 && PlanAfterGet(plan, x.time) == Kept(plan, i, |plan|) + [y] && First(PlanAfterGet(plan, x.time), y)
  {
    FirstIsFound(plan, x);
    var i := FindTime(plan, x.time);
    KeptStaysFree(plan, i, |plan|, y.time);
    FirstAppended(Kept(plan, i, |plan|), y, y);
  }

  /** The requests up to just behind the entry's `n`-th fetch: it is set, and then fetched at each of its times, `gaps[k]`
      being whatever else is requested before fetch `k`. */
  ghost function Life(e: Entry, gaps: seq<seq<Op>>, n: nat): (ops: seq<Op>)
    requires n <= |gaps| && InTime(e, n) && forall k :: 0 <= k < |gaps| ==> AllSized(gaps[k])
    ensures AllSized(ops)
  {
    if n == 0 then [SetPlan(e)]
    else
      InTimeBefore(e, n - 1, n);
      Life(e, gaps, n - 1) + gaps[n - 1] + [GetPlan(Moment(e, n - 1))]
  }

  /** Nothing in between resets the plan or takes the entry out, and whenever it is stored no other entry has its time. */
  ghost predicate Undisturbed(m: Model, e: Entry, gaps: seq<seq<Op>>, n: nat)
    requires n < |gaps| && InTime(e, n) && |m.logs| == PAYLOADS && forall k :: 0 <= k < |gaps| ==> AllSized(gaps[k])
  {
    && (forall i :: 0 <= i < |gaps[n]| ==> LeavesAlone(gaps[n][i], Moment(e, n)))
    && if n == 0 then |m.plan| < PLAN_MAX && FreeAt(m.plan, e.time)
       else
         InTimeBefore(e, n - 1, n);
         && Undisturbed(m, e, gaps, n - 1)
         && FreeAt(ModelRun(m, Life(e, gaps, n - 1) + gaps[n - 1]).plan, Moment(e, n))
  }

  lemma {:induction false} StandsFirst(m: Model, e: Entry, gaps: seq<seq<Op>>, n: nat)
    requires n < |gaps| && InTime(e, n) && |m.logs| == PAYLOADS && forall k :: 0 <= k < |gaps| ==> AllSized(gaps[k])
    requires Undisturbed(m, e, gaps, n)
    ensures First(ModelRun(m, Life(e, gaps, n) + gaps[n]).plan, Occurrence(e, n))
  {
    hide Apply, ModelRun, First, Moment;
    InTimeBefore(e, n, n);
    if n == 0 {
      SetStandsFirst(m, e);
      assert Occurrence(e, 0) == e;
    } else {
      InTimeBefore(e, n - 1, n);
      StandsFirst(m, e, gaps, n - 1);
      var before := Life(e, gaps, n - 1) + gaps[n - 1];
      FetchPeriodic(ModelRun(m, before), Occurrence(e, n - 1), Occurrence(e, n));
      RunSnoc(m, before, GetPlan(Moment(e, n - 1)));
    }
    RunLeaves(m, Life(e, gaps, n), gaps[n], Occurrence(e, n));
  }

  lemma {:induction false} SetStandsFirst(m: Model, e: Entry)
    requires |m.logs| == PAYLOADS && |m.plan| < PLAN_MAX && FreeAt(m.plan, e.time)
    ensures First(ModelRun(m, [SetPlan(e)]).plan, e)
  {
    FirstAppended(m.plan, e, e);
    RunSnoc(m, [], SetPlan(e));
    assert [] + [SetPlan(e)] == [SetPlan(e)];
  }

  lemma {:induction false} RunSnoc(m: Model, ops: seq<Op>, op: Op)
    requires AllSized(ops) && Sized(op) && |m.logs| == PAYLOADS
    ensures AllSized(ops + [op]) && ModelRun(m, ops + [op]) == Apply(ModelRun(m, ops), op)
  {
    assert (ops + [op])[..|ops|] == ops;
  }

  lemma {:induction false} LastOutput(m: Model, ops: seq<Op>, op: Op)
    requires AllSized(ops) && Sized(op) && |m.logs| == PAYLOADS
    ensures AllSized(ops + [op]) && |Outputs(m, ops)| == |ops|
    ensures Outputs(m, ops + [op]) == Outputs(m, ops) + [Output(ModelRun(m, ops), op)]
  {
    assert (ops + [op])[..|ops|] == ops;
    OutputsCount(m, ops);
  }

  lemma {:induction false} OutputsCount(m: Model, ops: seq<Op>)
    requires AllSized(ops) && |m.logs| == PAYLOADS
    ensures |Outputs(m, ops)| == |ops|
  {
    if ops != [] { OutputsCount(m, ops[..|ops| - 1]); }
  }

  /** An entry with a period, once set, is answered at its time and at every period after it, with the same name,
      arguments, executions and period, however often it was fetched before and whatever was requested in between. */
  lemma {:induction false} FiresEveryPeriod(m: Model, e: Entry, gaps: seq<seq<Op>>, n: nat)
    requires n < |gaps| && InTime(e, n) && |m.logs| == PAYLOADS && forall k :: 0 <= k < |gaps| ==> AllSized(gaps[k])
    requires Undisturbed(m, e, gaps, n)
    ensures 0 < e.time + n * e.period < 0x8000_0000
    ensures var ops := Life(e, gaps, n) + gaps[n] + [GetPlan(e.time + n * e.period)];
      && AllSized(ops) && |Outputs(m, ops)| == |ops|
      && Outputs(m, ops)[|ops| - 1]
         == Entries(Fetched(EntryData.Entry(e.time + n * e.period, e.name, e.args, e.executions, e.period)))
  {
    InTimeBefore(e, n, n);
    StandsFirst(m, e, gaps, n);
    AnswersAt(m, Life(e, gaps, n) + gaps[n], Occurrence(e, n));
  }

  lemma {:induction false} AnswersAt(m: Model, ops: seq<Op>, x: Entry)
    requires AllSized(ops) && |m.logs| == PAYLOADS && First(ModelRun(m, ops).plan, x) && x.period > 0
    ensures var all := ops + [GetPlan(x.time)];
      AllSized(all) && |Outputs(m, all)| == |all| && Outputs(m, all)[|all| - 1] == Entries(Fetched(x))
  {
    hide Apply, Output, ModelRun, First;
    FetchPeriodic(ModelRun(m, ops), x, x);
    LastOutput(m, ops, GetPlan(x.time));
    OutputsCount(m, ops + [GetPlan(x.time)]);
  }

  /** An entry without a period is answered once; asking again finds nothing. */
  lemma {:induction false} FiresOnce(m: Model, e: Entry)
    requires |m.logs| == PAYLOADS && |m.plan| < PLAN_MAX && FreeAt(m.plan, e.time) && e.period <= 0
    ensures var ops := [SetPlan(e), GetPlan(e.time), GetPlan(e.time)];
      AllSized(ops) && Outputs(m, ops) == [Code(0), Entries(Fetched(e)), Entries(Missing)]
  {
    var m1 := Apply(m, SetPlan(e));
    FirstAppended(m.plan, e, e);
    FirstIsFound(m1.plan, e);
    var i := FindTime(m1.plan, e.time);
    assert i == |m.plan|;
    KeptStaysFree(m1.plan, i, |m1.plan|, e.time);
    ThreeOutputs(m, SetPlan(e), GetPlan(e.time), GetPlan(e.time));
  }

  /** An erased entry is not answered any more. */
  lemma {:induction false} ErasedIsGone(m: Model, e: Entry)
    requires |m.logs| == PAYLOADS && |m.plan| < PLAN_MAX && FreeAt(m.plan, e.time)
    ensures var ops := [SetPlan(e), ErasePlan(e.time), GetPlan(e.time)];
      AllSized(ops) && Outputs(m, ops) == [Code(0), Code(0), Entries(Missing)]
  {
    var m1 := Apply(m, SetPlan(e));
    FirstAppended(m.plan, e, e);
    FirstIsFound(m1.plan, e);
    var i := FindTime(m1.plan, e.time);
    assert i == |m.plan|;
    KeptStaysFree(m1.plan, i, |m1.plan|, e.time);
    ThreeOutputs(m, SetPlan(e), ErasePlan(e.time), GetPlan(e.time));
  }

  lemma {:induction false} NothingRun(m: Model)
    requires |m.logs| == PAYLOADS
    ensures ModelRun(m, []) == m && Outputs(m, []) == []
  {}

  lemma {:induction false} OneOutput(m: Model, a: Op)
    requires |m.logs| == PAYLOADS && Sized(a)
    ensures AllSized([a]) && ModelRun(m, [a]) == Apply(m, a) && Outputs(m, [a]) == [Output(m, a)]
  {
    hide Apply, Output;
    NothingRun(m);
    assert [a][..0] == [];
  }

  lemma {:induction false} TwoOutputs(m: Model, a: Op, b: Op)
    requires |m.logs| == PAYLOADS && Sized(a) && Sized(b)
    ensures AllSized([a, b]) && ModelRun(m, [a, b]) == Apply(Apply(m, a), b)
    ensures Outputs(m, [a, b]) == [Output(m, a), Output(Apply(m, a), b)]
  {
    OneOutput(m, a);
    hide Apply, Output, Outputs, ModelRun;
    LastOutput(m, [a], b);
    RunSnoc(m, [a], b);
    assert [a] + [b] == [a, b];
  }

  lemma {:induction false} ThreeOutputs(m: Model, a: Op, b: Op, c: Op)
    requires |m.logs| == PAYLOADS && Sized(a) && Sized(b) && Sized(c)
    ensures AllSized([a, b, c])
    ensures Outputs(m, [a, b, c]) == [Output(m, a), Output(Apply(m, a), b), Output(Apply(Apply(m, a), b), c)]
  {
    TwoOutputs(m, a, b);
    hide Apply, Output, Outputs, ModelRun;
    LastOutput(m, [a, b], c);
    assert [a, b] + [c] == [a, b, c];
  }

  /** The log of a payload read back, newest first: a delay of zero gives the sample added last, and a longer one what
      the delay before it gave before that. */
  lemma {:induction false} NewestFirst(m: Model, p: nat, d: Sample, delay: nat)
    requires |m.logs| == PAYLOADS && p < PAYLOADS && |d| == SampleSize(p) && |m.logs[p]| < Capacity(p)
    requires delay < 0x7FFF_FFFF
    ensures var m' := Apply(m, AddTo(p, d));
      && Output(m', ReadFrom(p, 0)) == Samples(Sampled(d))
      && Output(m', ReadFrom(p, delay + 1)) == Output(m, ReadFrom(p, delay))
      && (delay >= |m.logs[p]| ==> Output(m, ReadFrom(p, delay)) == Samples(NoSample))
  {}

  // ------------------------------------------------------------------------------------
  // In RAM.

  /** Fetches at the times `k` to `n - 1` periods after the first. */
  function Fetches(e: Entry, k: nat, n: nat): seq<Request>
    requires k <= n && InTime(e, n)
    decreases n - k
  {
    InTimeBefore(e, k, n);
    if k == n then [] else [GetAt(Moment(e, k))] + Fetches(e, k + 1, n)
  }

  /** The entry, each time as it was set but for its time. */
  function Answers(e: Entry, k: nat, n: nat): seq<(bool, Fetched)>
    requires k <= n && InTime(e, n)
    decreases n - k
  {
    InTimeBefore(e, k, n);
    if k == n then []
    else
      var now := EntryData.Entry(e.time + k * e.period, e.name, e.args, e.executions, e.period);
      [(true, Fetched(now))] + Answers(e, k + 1, n)
  }

  /** No entry stands at a later time of `e`, up to the `n`-th. */
  ghost predicate LaterFree(plan: seq<Entry>, e: Entry, k: nat, n: nat) {
    forall j: nat :: k < j <= n ==> FreeAt(plan, Moment(e, j))
  }

  /** The RAM table answers an entry with a period in the same way, from the time on at which it holds it, as long as one
      slot stays free for re-arming. */
  lemma {:induction false} RamAnswersOn(slots: seq<Entry>, plan: seq<Entry>, e: Entry, k: nat, n: nat)
    requires k <= n && InTime(e, n) && InTime(e, k)
    requires Same(slots, plan) && |plan| < PLAN_MAX && First(plan, Occurrence(e, k)) && LaterFree(plan, e, k, n)
    ensures RamAnswers(slots, Fetches(e, k, n)) == Answers(e, k, n)
    decreases n - k
  {
    if k < n {
      InTimeBefore(e, k, n);
      InTimeBefore(e, k + 1, n);
      var x, y := Occurrence(e, k), Occurrence(e, k + 1);
      assert FreeAt(plan, Moment(e, k + 1));
      OneFetch(slots, plan, x, y);
      LaterStaysFree(plan, e, k, n, x, y);
      hide RamAnswer, RamStep, Same, First, LaterFree, PlanAfterGet, Moment;
      RamAnswersOn(RamStep(slots, GetAt(x.time)), PlanAfterGet(plan, x.time), e, k + 1, n);
      assert Fetches(e, k, n)[1..] == Fetches(e, k + 1, n);
    }
  }

  /** One fetch from the table. */
  lemma {:induction false} OneFetch(slots: seq<Entry>, plan: seq<Entry>, x: Entry, y: Entry)
    requires Same(slots, plan) && |plan| < PLAN_MAX && First(plan, x) && x.time > 0 && x.period > 0
    requires y == x.(time := y.time) && y.time == x.time + x.period && FreeAt(plan, y.time)
    ensures RamAnswer(slots, GetAt(x.time)) == (true, Fetched(x))
    ensures var plan' := PlanAfterGet(plan, x.time);
      Same(RamStep(slots, GetAt(x.time)), plan') && |plan'| < PLAN_MAX && First(plan', y)
  {
    FirstIsFound(plan, x);
    TimesFree(plan, y.time);
    PeriodPasses(plan, x, y);
    hide Same, First, RamAnswer, RamStep, Kept, PlanAfterGet, Times;
    SameStep(slots, plan, GetAt(x.time));
  }

  lemma {:induction false} TimesFree(plan: seq<Entry>, t: int)
    requires FreeAt(plan, t)
    ensures t !in Times(plan)
  {}

  lemma {:induction false} LaterStaysFree(plan: seq<Entry>, e: Entry, k: nat, n: nat, x: Entry, y: Entry)
    requires k < n && InTime(e, n) && LaterFree(plan, e, k, n) && First(plan, x) && x.period > 0
    requires y == x.(time := y.time) && y.time == x.time + x.period == Moment(e, k + 1)
    ensures LaterFree(PlanAfterGet(plan, x.time), e, k + 1, n)
  {
    assert FreeAt(plan, Moment(e, k + 1));
    PeriodPasses(plan, x, y);
    var i := FindTime(plan, x.time);
    forall j: nat | k + 1 < j <= n ensures FreeAt(PlanAfterGet(plan, x.time), Moment(e, j)) {
      assert FreeAt(plan, Moment(e, j));
      KeptStaysFree(plan, i, |plan|, Moment(e, j));
      InTimeBefore(e, j, n);
      InTimeBefore(e, k + 1, j);
    }
  }

  /** Set in RAM and then fetched at each of its times, it is answered as it was set, every period. */
  lemma {:induction false} RamFiresEveryPeriod(slots: seq<Entry>, plan: seq<Entry>, e: Entry, n: nat)
    requires InTime(e, n) && FitsSlot(e) && Same(slots, plan) && |plan| + 1 < PLAN_MAX
    requires forall j: nat :: j <= n ==> FreeAt(plan, Moment(e, j))
    ensures RamAnswers(slots, [SetAt(e)] + Fetches(e, 0, n)) == [(true, Missing)] + Answers(e, 0, n)
  {
    var rs := [SetAt(e)] + Fetches(e, 0, n);
    assert rs[0] == SetAt(e) && rs[1..] == Fetches(e, 0, n);
    InTimeBefore(e, 0, n);
    assert FreeAt(plan, Moment(e, 0));
    TimesFree(plan, e.time);
    SameStep(slots, plan, SetAt(e));
    SameRoom(slots, plan);
    FirstAppended(plan, e, e);
    assert Occurrence(e, 0) == e;
    forall j: nat | 0 < j <= n ensures FreeAt(plan + [e], Moment(e, j)) {
      InTimeBefore(e, j, n);
      InTimeBefore(e, 0, j);
      assert FreeAt(plan, Moment(e, j));
    }
    hide Fetches, Answers, Same, Moment;
    RamAnswersOn(RamStep(slots, SetAt(e)), plan + [e], e, 0, n);
  }
}
