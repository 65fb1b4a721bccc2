/** The flight plan kept in RAM by repoData.c: 25 slots, a slot being free when its time is
    zero; and its comparison with the flash plan. */
module RamPlan {
  import opened Bytes
  import opened PlanRecord
  import opened FlashLayout
  import opened PlanSpec

  /** What an unused slot holds. */
  const FREE: Entry := EntryData.Entry(0, [], [], 0, 0)

  /** strcpy into a buffer of 50 bytes. */
  predicate FitsSlot(e: Entry) {
    |e.name| < 50 && |e.args| < 50
  }

  /** dat_set_fp_async */
  function AfterSet(slots: seq<Entry>, e: Entry): (slots': seq<Entry>)
    ensures |slots'| == |slots|
  {
    var f := FindTime(slots, 0);
    if f < 0 then slots else slots[f := e]
  }

  /** dat_del_fp_async */
  function AfterDelete(slots: seq<Entry>, t: int32): (slots': seq<Entry>)
    ensures |slots'| == |slots|
  {
    var i := FindTime(slots, t);
    if i < 0 then slots else slots[i := FREE]
  }

  /** dat_get_fp: re-arm first, then delete. */
  function AfterGet(slots: seq<Entry>, t: int32): (slots': seq<Entry>)
    ensures |slots'| == |slots|
  {
    var i := FindTime(slots, t);
    if i < 0 then slots
    else AfterDelete(if slots[i].period > 0 then AfterSet(slots, Rearmed(slots[i])) else slots, t)
  }

  class Table {
    const slots: array<Entry>

    ghost predicate Valid() { slots.Length == PLAN_MAX }

    constructor ()
      ensures Valid() && fresh(slots) && slots[..] == seq(PLAN_MAX, _ => FREE)
    {
      slots := new Entry[PLAN_MAX](_ => FREE);
    }

    method Find(t: int32) returns (i: int)
      requires Valid()
      ensures i == FindTime(slots[..], t)
    {
      i := 0;
      while i < PLAN_MAX
        invariant 0 <= i <= PLAN_MAX
        invariant forall j :: 0 <= j < i ==> slots[j].time != t
      {
        if slots[i].time == t {
          return;
        }
        i := i + 1;
      }
      i := -1;
    }

    method SetAsync(e: Entry) returns (rc: int)
      requires Valid() && FitsSlot(e)
      modifies slots
      ensures slots[..] == AfterSet(old(slots[..]), e)
      ensures rc == if FindTime(old(slots[..]), 0) < 0 then 1 else 0
    {
      var i := Find(0);
      if i >= 0 {
        slots[i] := e;
        return 0;
      }
      return 1;
    }

    method DeleteAsync(t: int32) returns (rc: int)
      requires Valid()
      modifies slots
      ensures slots[..] == AfterDelete(old(slots[..]), t)
      ensures rc == if FindTime(old(slots[..]), t) < 0 then 1 else 0
    {
      var i := Find(t);
      if i >= 0 {
        slots[i] := FREE;
        return 0;
      }
      return 1;
    }

    /** dat_reset_fp */
    method Reset()
      requires Valid()
      modifies slots
      ensures slots[..] == seq(PLAN_MAX, _ => FREE)
    {
      for i := 0 to PLAN_MAX
        invariant forall j :: 0 <= j < i ==> slots[j] == FREE
      {
        slots[i] := FREE;
      }
    }

    /** dat_get_fp. At time zero it takes the first free slot for an entry and copies from its pointers, which are null or
        freed: `stray`, where the model stops. */
    method Get(t: int32) returns (r: Fetched, stray: bool)
      requires Valid()
      requires forall i :: 0 <= i < slots.Length ==> FitsSlot(slots[i])
      modifies slots
      ensures stray <==> t == 0 && exists i :: 0 <= i < slots.Length && old(slots[i]).time == 0
      ensures stray ==> slots[..] == old(slots[..])
      ensures !stray ==> slots[..] == AfterGet(old(slots[..]), t) && r == PlanGetResult(old(slots[..]), t)
    {
      var i := Find(t);
      if i < 0 {
        return Missing, false;
      }
      var e := slots[i];
      if e.time == 0 {
        r := *;
        return r, true;
      }
      if e.period > 0 {
        var _ := SetAsync(Rearmed(e));
      }
      var _ := DeleteAsync(t);
      return Fetched(e), false;
    }
  }

  // ------------------------------------------------------------------------------------
  // Comparison with the flash plan.

  ghost predicate Distinct(s: seq<Entry>) {
    forall i, j :: 0 <= i < j < |s| && s[i].time == s[j].time ==> s[i].time == 0
  }

  ghost predicate NoZero(s: seq<Entry>) {
    forall i :: 0 <= i < |s| ==> s[i].time != 0
  }

  /** The entries that are in use. */
  function Entries(s: seq<Entry>): set<Entry> {
    set e | e in s && e.time != 0
  }

  function Times(s: seq<Entry>): set<int32> {
    set e | e in Entries(s) :: e.time
  }

  /** Both plans hold the same entries, at most one per time. */
  ghost predicate Same(slots: seq<Entry>, plan: seq<Entry>) {
    && |slots| == PLAN_MAX && Distinct(slots) && Distinct(plan) && NoZero(plan)
    && Entries(slots) == Entries(plan)
  }

  function Used(s: seq<Entry>): (n: nat)
    ensures n <= |s|
    ensures n == |s| <==> forall i :: 0 <= i < |s| ==> s[i].time != 0
  {
    if s == [] then 0 else Used(s[1..]) + if s[0].time != 0 then 1 else 0
  }

  /** With distinct times, the number of used slots is the number of entries. */
  lemma {:induction false} UsedCountsEntries(s: seq<Entry>)
    requires Distinct(s)
    ensures |Entries(s)| == Used(s)
  {
    if s != [] {
      UsedCountsEntries(s[1..]);
      EntriesCons(s);
      if s[0].time != 0 {
        assert forall k :: 0 <= k < |s[1..]| ==> s[1..][k] == s[k + 1];
        assert s[0] !in Entries(s[1..]);
      }
    }
  }

  lemma {:induction false} EntriesCons(s: seq<Entry>)
    requires s != []
    ensures Entries(s) == Entries(s[1..]) + if s[0].time != 0 then {s[0]} else {}
  {
    assert s == [s[0]] + s[1..];
  }

  /** Both plans are full at the same moment. */
  lemma {:induction false} SameRoom(slots: seq<Entry>, plan: seq<Entry>)
    requires Same(slots, plan)
    ensures |plan| <= PLAN_MAX
    ensures FindTime(slots, 0) < 0 <==> |plan| == PLAN_MAX
  {
    UsedCountsEntries(slots);
    UsedCountsEntries(plan);
  }

  /** With distinct times, looking up a time finds the one entry that has it. */
  lemma {:induction false} Lookup(s: seq<Entry>, t: int32)
    requires Distinct(s) && t != 0
    ensures FindTime(s, t) >= 0 ==> s[FindTime(s, t)] in Entries(s)
    ensures t in Times(s) <==> FindTime(s, t) >= 0
    ensures forall e :: e in Entries(s) && e.time == t ==> FindTime(s, t) >= 0 && s[FindTime(s, t)] == e
  {}

  /** Looking up a time gives the same answer. */
  lemma {:induction false} SameAnswer(slots: seq<Entry>, plan: seq<Entry>, t: int32)
    requires Same(slots, plan) && t != 0
    ensures PlanGetResult(slots, t) == PlanGetResult(plan, t)
  {
    Lookup(plan, t);
  }

  /** Filling a free slot. */
  lemma {:induction false} FillSlot(slots: seq<Entry>, f: nat, e: Entry)
    requires f < |slots| && slots[f].time == 0 && Distinct(slots) && e.time != 0 && e.time !in Times(slots)
    ensures Distinct(slots[f := e]) && Entries(slots[f := e]) == Entries(slots) + {e}
  {
    var slots' := slots[f := e];
    forall i | 0 <= i < |slots| && i != f ensures slots'[i].time != e.time {
    }
    assert slots'[f] == e;
    forall x | x in Entries(slots) ensures x in slots' {
      var k :| 0 <= k < |slots| && slots[k] == x;
      assert slots'[k] == x;
    }
  }

  /** Freeing a used slot. */
  lemma {:induction false} FreeSlot(slots: seq<Entry>, i: nat)
    requires i < |slots| && slots[i].time != 0 && Distinct(slots)
    ensures Distinct(slots[i := FREE]) && Entries(slots[i := FREE]) == Entries(slots) - {slots[i]}
  {
    var slots' := slots[i := FREE];
    forall x | x in Entries(slots) && x != slots[i] ensures x in slots' {
      var k :| 0 <= k < |slots| && slots[k] == x;
      assert slots'[k] == x;
    }
  }

  /** Taking one entry out of the list. */
  lemma {:induction false} Remove(plan: seq<Entry>, j: nat)
    requires j < |plan| && Distinct(plan) && NoZero(plan)
    ensures Distinct(Without(plan, j)) && NoZero(Without(plan, j))
    ensures Entries(Without(plan, j)) == Entries(plan) - {plan[j]}
  {}

  /** Flight plan requests of a client. */
  datatype Request = SetAt(e: Entry) | GetAt(t: int32) | DeleteAt(t: int32) | ResetAll

  /** Requests on which the two plans are meant to agree: times are positive and not taken,
      and a periodic entry that is fetched finds its next time in range and not taken. */
  ghost predicate Compatible(plan: seq<Entry>, r: Request) {
    match r
    case SetAt(e) => e.time > 0 && FitsSlot(e) && e.time !in Times(plan)
    case GetAt(t) =>
      && t > 0
      && var i := FindTime(plan, t);
         i >= 0 && plan[i].period > 0 ==>
           t + plan[i].period < 0x8000_0000 && t + plan[i].period !in Times(plan)
    case DeleteAt(t) => t > 0
    case ResetAll => true
  }

  /** RAM re-arms before it deletes, so fetching a periodic entry needs a free slot. */
  predicate HasRoom(plan: seq<Entry>, r: Request) {
    r.GetAt? ==> var i := FindTime(plan, r.t); i >= 0 && plan[i].period > 0 ==> |plan| < PLAN_MAX
  }

  function RamStep(slots: seq<Entry>, r: Request): (slots': seq<Entry>)
    ensures |slots'| == |slots|
  {
    match r
    case SetAt(e) => AfterSet(slots, e)
    case GetAt(t) => AfterGet(slots, t)
    case DeleteAt(t) => AfterDelete(slots, t)
    case ResetAll => seq(|slots|, _ => FREE)
  }

  function FlashStep(plan: seq<Entry>, r: Request): seq<Entry> {
    match r
    case SetAt(e) => PlanAfterSet(plan, e)
    case GetAt(t) => PlanAfterGet(plan, t)
    case DeleteAt(t) => PlanAfterErase(plan, t)
    case ResetAll => []
  }

  /** Whether the request succeeds, and what a get returns. */
  function RamAnswer(slots: seq<Entry>, r: Request): (bool, Fetched) {
    match r
    case SetAt(_) => (FindTime(slots, 0) >= 0, Missing)
    case GetAt(t) => (FindTime(slots, t) >= 0, PlanGetResult(slots, t))
    case DeleteAt(t) => (FindTime(slots, t) >= 0, Missing)
    case ResetAll => (true, Missing)
  }

  function FlashAnswer(plan: seq<Entry>, r: Request): (bool, Fetched) {
    match r
    case SetAt(_) => (|plan| < PLAN_MAX, Missing)
    case GetAt(t) => (FindTime(plan, t) >= 0, PlanGetResult(plan, t))
    case DeleteAt(t) => (FindTime(plan, t) >= 0, Missing)
    case ResetAll => (true, Missing)
  }

  lemma {:induction false} SameAfterSet(slots: seq<Entry>, plan: seq<Entry>, e: Entry)
    requires Same(slots, plan) && e.time != 0 && e.time !in Times(plan)
    ensures Same(AfterSet(slots, e), PlanAfterSet(plan, e))
  {
    SameRoom(slots, plan);
    var f := FindTime(slots, 0);
    if f >= 0 {
      FillSlot(slots, f, e);
    }
  }

  lemma {:induction false} SameAfterDelete(slots: seq<Entry>, plan: seq<Entry>, t: int32)
    requires Same(slots, plan) && t != 0
    ensures Same(AfterDelete(slots, t), PlanAfterErase(plan, t))
  {
    SameAnswer(slots, plan, t);
    var i, j := FindTime(slots, t), FindTime(plan, t);
    if j >= 0 {
      FreeSlot(slots, i);
      Remove(plan, j);
      EraseRemovesOne(plan, j);
    }
  }

  lemma {:induction false} FindTimeAppended(plan: seq<Entry>, later: Entry, t: int32)
    requires FindTime(plan, t) >= 0
    ensures FindTime(plan + [later], t) == FindTime(plan, t)
  {
    var j, plan' := FindTime(plan, t), plan + [later];
    assert plan'[j] == plan[j];
  }

  lemma {:induction false} KeptAppended(plan: seq<Entry>, later: Entry, gone: int, n: nat)
    requires n <= |plan|
    ensures Kept(plan + [later], gone, n) == Kept(plan, gone, n)
  {
    if n > 0 {
      KeptAppended(plan, later, gone, n - 1);
    }
  }

  lemma {:induction false} KeptWithLast(plan: seq<Entry>, later: Entry, gone: nat)
    requires gone < |plan| && later.time != 0
    ensures Kept(plan + [later], gone, |plan + [later]|) == Kept(plan, gone, |plan|) + [later]
  {
    KeptAppended(plan, later, gone, |plan|);
  }

  /** Re-arming and then deleting, as RAM does, is deleting and then re-arming, as flash does. */
  lemma {:induction false} RearmThenErase(plan: seq<Entry>, later: Entry, t: int32)
    requires FindTime(plan, t) >= 0 && later.time != 0
    ensures PlanAfterErase(plan + [later], t) == PlanAfterErase(plan, t) + [later]
  {
    FindTimeAppended(plan, later, t);
    KeptWithLast(plan, later, FindTime(plan, t));
  }

  lemma {:induction false} SameAfterGet(slots: seq<Entry>, plan: seq<Entry>, t: int32)
    requires Same(slots, plan) && Compatible(plan, GetAt(t)) && HasRoom(plan, GetAt(t))
    ensures Same(AfterGet(slots, t), PlanAfterGet(plan, t))
  {
    SameAnswer(slots, plan, t);
    var j := FindTime(plan, t);
    if j >= 0 {
      var later := Rearmed(plan[j]);
      if plan[j].period > 0 {
        SameAfterSet(slots, plan, later);
        SameAfterDelete(AfterSet(slots, later), PlanAfterSet(plan, later), t);
        RearmThenErase(plan, later, t);
      } else {
        SameAfterDelete(slots, plan, t);
      }
    }
  }

  /** One compatible request gets the same answer, and keeps the plans the same if RAM has room. */
  lemma {:induction false} SameStep(slots: seq<Entry>, plan: seq<Entry>, r: Request)
    requires Same(slots, plan) && Compatible(plan, r)
    ensures RamAnswer(slots, r) == FlashAnswer(plan, r)
    ensures HasRoom(plan, r) ==> Same(RamStep(slots, r), FlashStep(plan, r))
  {
    SameRoom(slots, plan);
    match r
    case SetAt(e) =>
      SameAfterSet(slots, plan, e);
    case GetAt(t) =>
      SameAnswer(slots, plan, t);
      if HasRoom(plan, r) { SameAfterGet(slots, plan, t); }
    case DeleteAt(t) =>
      SameAnswer(slots, plan, t);
      SameAfterDelete(slots, plan, t);
    case ResetAll =>
  }

  ghost predicate AgreeableRun(plan: seq<Entry>, rs: seq<Request>)
    decreases rs
  {
    rs != [] ==>
      && Compatible(plan, rs[0]) && HasRoom(plan, rs[0])
      && AgreeableRun(FlashStep(plan, rs[0]), rs[1..])
  }

  function RamAnswers(slots: seq<Entry>, rs: seq<Request>): seq<(bool, Fetched)>
    decreases rs
  {
    if rs == [] then [] else [RamAnswer(slots, rs[0])] + RamAnswers(RamStep(slots, rs[0]), rs[1..])
  }

  function FlashAnswers(plan: seq<Entry>, rs: seq<Request>): seq<(bool, Fetched)>
    decreases rs
  {
    if rs == [] then [] else [FlashAnswer(plan, rs[0])] + FlashAnswers(FlashStep(plan, rs[0]), rs[1..])
  }

  /** Over any run of compatible requests the RAM and the flash plan cannot be told apart,
      periodic entries included. */
  lemma {:induction false} PlansAgree(slots: seq<Entry>, plan: seq<Entry>, rs: seq<Request>)
    requires Same(slots, plan) && AgreeableRun(plan, rs)
    ensures RamAnswers(slots, rs) == FlashAnswers(plan, rs)
    decreases rs
  {
    if rs != [] {
      SameStep(slots, plan, rs[0]);
      PlansAgree(RamStep(slots, rs[0]), FlashStep(plan, rs[0]), rs[1..]);
    }
  }

  /** The room condition is exact: fetching a periodic entry from a full RAM table loses it,
      while the flash plan keeps it at its next time. */
  lemma {:induction false} FullTableLosesPeriodic(slots: seq<Entry>, plan: seq<Entry>, t: int32)
    requires Same(slots, plan) && Compatible(plan, GetAt(t))
    ensures HasRoom(plan, GetAt(t)) <==> Same(AfterGet(slots, t), PlanAfterGet(plan, t))
  {
    if HasRoom(plan, GetAt(t)) {
      SameAfterGet(slots, plan, t);
    } else {
      SameRoom(slots, plan);
      SameAfterDelete(slots, plan, t);
      LateEntry(plan, t);
    }
  }

  /** A full plan whose first entry repeats every 100 seconds. */
  function FullPlan(): seq<Entry> {
    seq(PLAN_MAX, i requires 0 <= i < PLAN_MAX => EntryData.Entry(i + 1, [], [], 1, if i == 0 then 100 else 0))
  }

  /** The failing fetch: afterwards the flash plan has the entry at its next time, and the table does not. */
  lemma {:induction false} FullPlanLosesEntry()
    ensures Same(FullPlan(), FullPlan()) && Compatible(FullPlan(), GetAt(1)) && !HasRoom(FullPlan(), GetAt(1))
    ensures FindTime(PlanAfterGet(FullPlan(), 1), 101) == PLAN_MAX - 1
    ensures FindTime(AfterGet(FullPlan(), 1), 101) == -1
  {
    FullPlanFacts();
    var plan := FullPlan();
    FlashKeepsEntry(plan);
    TableDropsEntry(plan);
  }

  lemma {:induction false} FullPlanFacts()
    ensures var plan := FullPlan();
      && FirstRepeats(plan) && FindTime(plan, 1) == 0 && NoZero(plan) && Distinct(plan) && 101 !in Times(plan)
      && |plan| == PLAN_MAX
  {
    assert FullPlan()[0].time == 1;
  }

  ghost predicate FirstRepeats(plan: seq<Entry>) {
    |plan| > 0 && plan[0].time == 1 && plan[0].period == 100
  }

  lemma {:induction false} FlashKeepsEntry(plan: seq<Entry>)
    requires FirstRepeats(plan) && FindTime(plan, 1) == 0 && NoZero(plan) && 101 !in Times(plan)
    ensures FindTime(PlanAfterGet(plan, 1), 101) == |plan| - 1
  {
    EraseRemovesOne(plan, 0);
    var after := PlanAfterGet(plan, 1);
    assert after == plan[1..] + [Rearmed(plan[0])];
    assert after[|plan| - 1].time == 101;
    forall i | 0 <= i < |plan| - 1 ensures after[i].time != 101 {
      assert after[i] == plan[i + 1] && plan[i + 1] in Entries(plan);
    }
  }

  lemma {:induction false} TableDropsEntry(slots: seq<Entry>)
    requires FirstRepeats(slots) && FindTime(slots, 1) == 0 && NoZero(slots) && 101 !in Times(slots)
    ensures FindTime(AfterGet(slots, 1), 101) == -1
  {
    assert FindTime(slots, 0) == -1;
    assert AfterGet(slots, 1) == slots[0 := FREE];
    forall i | 0 <= i < |slots| ensures slots[i].time != 101 {
      assert slots[i] in Entries(slots);
    }
  }

  /** After a periodic entry is fetched, the flash plan holds an entry that it did not hold before. */
  lemma {:induction false} LateEntry(plan: seq<Entry>, t: int32)
    requires Compatible(plan, GetAt(t)) && FindTime(plan, t) >= 0 && plan[FindTime(plan, t)].period > 0
    ensures Entries(PlanAfterGet(plan, t)) != Entries(PlanAfterErase(plan, t))
  {
    var j := FindTime(plan, t);
    var e := Rearmed(plan[j]);
    var rest := Kept(plan, j, |plan|);
    assert e.time == t + plan[j].period;
    assert (rest + [e])[|rest|] == e;
    assert e in Entries(rest + [e]);
    KeptAreOld(plan, j, |plan|);
    assert e !in plan by {
      assert e in Entries(plan) ==> e.time in Times(plan);
    }
  }

  lemma {:induction false} KeptAreOld(plan: seq<Entry>, gone: int, n: nat)
    requires n <= |plan|
    ensures forall e :: e in Kept(plan, gone, n) ==> e in plan
  {
    if n > 0 {
      KeptAreOld(plan, gone, n - 1);
    }
  }
}
