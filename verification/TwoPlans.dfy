/** The RAM table and the flash store, run side by side. */
module TwoPlans {
  import opened Bytes
  import opened PlanRecord
  import opened FlashLayout
  import opened PlanSpec
  import opened RamPlan
  import opened Storage

  ghost predicate AllFit(slots: seq<Entry>) {
    forall i :: 0 <= i < |slots| ==> FitsSlot(slots[i])
  }

  lemma {:induction false} StepFits(slots: seq<Entry>, r: Request)
    requires AllFit(slots) && (r.SetAt? ==> FitsSlot(r.e))
    ensures AllFit(RamStep(slots, r))
  {}

  method RamPerform(table: Table, r: Request) returns (answer: (bool, Fetched))
    requires table.Valid() && AllFit(table.slots[..])
    requires (r.SetAt? ==> FitsSlot(r.e)) && (r.GetAt? ==> r.t != 0)
    modifies table.slots
    ensures AllFit(table.slots[..]) && table.slots[..] == RamStep(old(table.slots[..]), r)
    ensures answer == RamAnswer(old(table.slots[..]), r)
  {
    StepFits(table.slots[..], r);
    match r
    case SetAt(e) => var rc := table.SetAsync(e); answer := (rc == 0, Missing);
    case GetAt(t) => var got, _ := table.Get(t); answer := (got.Fetched?, got);
    case DeleteAt(t) => var rc := table.DeleteAsync(t); answer := (rc == 0, Missing);
    case ResetAll => table.Reset(); answer := (true, Missing);
  }

  method FlashPerform(store: Store, r: Request) returns (answer: (bool, Fetched))
    requires store.Valid()
    modifies store, store.flash.mem
    ensures store.Valid() && store.plan == FlashStep(old(store.plan), r)
    ensures answer == FlashAnswer(old(store.plan), r)
  {
    match r
    case SetAt(e) => var rc := store.SetCounted(e); answer := (rc == 0, Missing);
    case GetAt(t) => var got := store.PlanGet(t); answer := (got.Fetched?, got);
    case DeleteAt(t) => var rc := store.PlanErase(t); answer := (rc == 0, Missing);
    case ResetAll => var _ := store.ResetBooted(); answer := (true, Missing);
  }

  lemma {:induction false} NextAnswer(slots: seq<Entry>, rs: seq<Request>, i: nat, ram: seq<(bool, Fetched)>, all: seq<(bool, Fetched)>)
    requires i < |rs| && ram + RamAnswers(slots, rs[i..]) == all
    ensures ram + [RamAnswer(slots, rs[i])] + RamAnswers(RamStep(slots, rs[i]), rs[i + 1..]) == all
  {
    assert rs[i..][1..] == rs[i + 1..];
  }

  lemma {:induction false} NextAgrees(plan: seq<Entry>, rs: seq<Request>, i: nat)
    requires i < |rs| && AgreeableRun(plan, rs[i..])
    ensures Compatible(plan, rs[i]) && HasRoom(plan, rs[i]) && AgreeableRun(FlashStep(plan, rs[i]), rs[i + 1..])
  {
    assert rs[i..][1..] == rs[i + 1..];
  }

  /** One request for both. */
  method PerformBoth(table: Table, store: Store, r: Request) returns (a: (bool, Fetched), b: (bool, Fetched))
    requires table.Valid() && AllFit(table.slots[..]) && store.Valid()
    requires Same(table.slots[..], store.plan) && Compatible(store.plan, r) && HasRoom(store.plan, r)
    modifies table.slots, store, store.flash.mem
    ensures AllFit(table.slots[..]) && store.Valid() && Same(table.slots[..], store.plan)
    ensures table.slots[..] == RamStep(old(table.slots[..]), r) && store.plan == FlashStep(old(store.plan), r)
    ensures a == b == RamAnswer(old(table.slots[..]), r)
  {
    SameStep(table.slots[..], store.plan, r);
    a := RamPerform(table, r);
    b := FlashPerform(store, r);
  }

  /** Given the same compatible requests, the byte-level flash driver and the RAM table answer alike,
      request by request, and end up holding the same entries. */
  method RunBoth(table: Table, store: Store, rs: seq<Request>) returns (ram: seq<(bool, Fetched)>, flash: seq<(bool, Fetched)>)
    requires table.Valid() && AllFit(table.slots[..]) && store.Valid()
    requires Same(table.slots[..], store.plan) && AgreeableRun(store.plan, rs)
    modifies table.slots, store, store.flash.mem
    ensures ram == flash == RamAnswers(old(table.slots[..]), rs)
    ensures store.Valid() && Same(table.slots[..], store.plan)
  {
    ram, flash := [], [];
    ghost var start := table.slots[..];
    for i := 0 to |rs|
      invariant AllFit(table.slots[..]) && store.Valid()
      invariant Same(table.slots[..], store.plan) && AgreeableRun(store.plan, rs[i..])
      invariant ram == flash && ram + RamAnswers(table.slots[..], rs[i..]) == RamAnswers(start, rs)
    {
      hide RamAnswers, RamAnswer, RamStep, FlashStep, AgreeableRun, Compatible, HasRoom, Same, AllFit;
      NextAnswer(table.slots[..], rs, i, ram, RamAnswers(start, rs));
      NextAgrees(store.plan, rs, i);
      var a, b := PerformBoth(table, store, rs[i]);
      ram, flash := ram + [a], flash + [b];
    }
  }
}
