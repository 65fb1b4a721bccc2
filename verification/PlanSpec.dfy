/** The flight plan as a list of entries: what set, get, erase and reset mean, without flash. */
module PlanSpec {
  import opened Bytes
  import opened PlanRecord
  import opened FlashLayout

  /** Index of the first entry with time `t`, or -1. */
  function FindTime(plan: seq<Entry>, t: int32): (i: int)
    ensures -1 <= i < |plan|
    ensures i >= 0 ==> plan[i].time == t
    ensures forall j :: 0 <= j < (if i >= 0 then i else |plan|) ==> plan[j].time != t
  {
    if plan == [] then -1
    else if plan[0].time == t then 0
    else var i := FindTime(plan[1..], t); if i < 0 then -1 else i + 1
  }

  /** The entries among the first `n` that erasing index `gone` writes back: neither the
      erased one nor any with time zero. */
  function Kept(plan: seq<Entry>, gone: int, n: nat): (kept: seq<Entry>)
    requires n <= |plan|
    ensures |kept| <= n
    ensures 0 <= gone < n ==> |kept| < n
  {
    if n == 0 then []
    else
      var rest := Kept(plan, gone, n - 1);
      if n - 1 != gone && plan[n - 1].time != 0 then rest + [plan[n - 1]] else rest
  }

  lemma {:induction false} KeptStep(plan: seq<Entry>, gone: int, i: nat)
    requires i < |plan|
    ensures i != gone && plan[i].time != 0 ==> Kept(plan, gone, i + 1) == Kept(plan, gone, i) + [plan[i]]
    ensures i == gone || plan[i].time == 0 ==> Kept(plan, gone, i + 1) == Kept(plan, gone, i)
  {}

  function Without(plan: seq<Entry>, i: nat): seq<Entry>
    requires i < |plan|
  {
    plan[..i] + plan[i + 1..]
  }

  predicate OthersTimed(plan: seq<Entry>, i: nat) {
    forall j :: 0 <= j < |plan| && j != i ==> plan[j].time != 0
  }

  /** Erasing removes exactly one entry and keeps the order of the rest if and only if no other entry has time zero. */
  lemma {:induction false} EraseRemovesOne(plan: seq<Entry>, i: nat)
    requires i < |plan|
    ensures Kept(plan, i, |plan|) == Without(plan, i) <==> OthersTimed(plan, i)
  {
    if OthersTimed(plan, i) {
      KeptAll(plan, i, |plan|);
    } else {
      var j :| 0 <= j < |plan| && j != i && plan[j].time == 0;
      KeptShorter(plan, i, j, |plan|);
    }
  }

  lemma {:induction false} KeptAll(plan: seq<Entry>, i: nat, n: nat)
    requires i < |plan| && n <= |plan| && OthersTimed(plan, i)
    ensures Kept(plan, i, n) == if n <= i then plan[..n] else plan[..i] + plan[i + 1..n]
  {
    if n > 0 { KeptAll(plan, i, n - 1); }
  }

  lemma {:induction false} KeptShorter(plan: seq<Entry>, i: nat, j: nat, n: nat)
    requires i < |plan| && j < |plan| && i != j && plan[j].time == 0 && n <= |plan|
    ensures |Kept(plan, i, n)| <= n - (if i < n then 1 else 0) - (if j < n then 1 else 0)
  {
    if n > 0 { KeptShorter(plan, i, j, n - 1); }
  }

  datatype Fetched = Missing | Fetched(e: Entry)

  /** A periodic entry's next occurrence. */
  function Rearmed(e: Entry): Entry {
    e.(time := WrapInt32(e.time + e.period))
  }

  /** The plan once entry `i` was taken out: a periodic one comes back at the end, one period later. */
  function Taken(plan: seq<Entry>, i: nat): (plan': seq<Entry>)
    requires i < |plan|
    ensures |plan'| <= |plan|
  {
    var rest := Kept(plan, i, |plan|);
    if plan[i].period > 0 then rest + [Rearmed(plan[i])] else rest
  }

  /** storage_flight_plan_get takes the first entry with time `t`. */
  function PlanAfterGet(plan: seq<Entry>, t: int32): (plan': seq<Entry>)
    ensures |plan'| <= |plan|
  {
    var i := FindTime(plan, t);
    if i < 0 then plan else Taken(plan, i)
  }

  function PlanGetResult(plan: seq<Entry>, t: int32): Fetched {
    var i := FindTime(plan, t);
    if i < 0 then Missing else Fetched(plan[i])
  }

  function PlanAfterErase(plan: seq<Entry>, t: int32): (plan': seq<Entry>)
    ensures |plan'| <= |plan|
  {
    var i := FindTime(plan, t);
    if i < 0 then plan else Kept(plan, i, |plan|)
  }

  function PlanAfterSet(plan: seq<Entry>, e: Entry): seq<Entry> {
    if |plan| < PLAN_MAX then plan + [e] else plan
  }
}
