/** The status repository in RAM: every variable is stored three times and read by majority. */
module StatusRepo {
  import opened Bytes

  /** dat_system_last_var */
  const VARS := 57

  /** The vote of dat_get_system_var; with three different copies it settles for the first. */
  function Vote(a: int32, b: int32, c: int32): int32 {
    if a == b || a == c then a
    else if b == c then b
    else a
  }

  /** The value that dat_get_system_var reads from the cells. */
  function Value(cells: seq<int32>, i: nat): int32
    requires |cells| == 3 * VARS && i < VARS
  {
    Vote(cells[i], cells[i + VARS], cells[i + 2 * VARS])
  }

  /** How many of the three copies of variable `i` hold `w`. */
  function Votes(cells: seq<int32>, i: nat, w: int32): nat
    requires |cells| == 3 * VARS && i < VARS
  {
    (if cells[i] == w then 1 else 0) + (if cells[i + VARS] == w then 1 else 0) + (if cells[i + 2 * VARS] == w then 1 else 0)
  }

  /** dat_set_system_var */
  function Stored(cells: seq<int32>, i: nat, v: int32): (cells': seq<int32>)
    requires |cells| == 3 * VARS && i < VARS
    ensures |cells'| == 3 * VARS
  {
    cells[i := v][i + VARS := v][i + 2 * VARS := v]
  }

  class Repo {
    const buff: array<int32>   // DAT_SYSTEM_VAR_BUFF

    ghost predicate Valid() { buff.Length == 3 * VARS }

    ghost function Var(i: nat): int32
      requires Valid() && i < VARS
      reads buff
    {
      Value(buff[..], i)
    }

    /** The first loop of dat_repo_init. */
    constructor (initial: int32)
      ensures Valid() && fresh(buff) && forall i: nat :: i < VARS ==> Var(i) == initial
    {
      buff := new int32[3 * VARS](_ => initial);
    }

    method Set(i: nat, v: int32)
      requires Valid() && i < VARS
      modifies buff
      ensures buff[..] == Stored(old(buff[..]), i, v)
      ensures forall j: nat :: j < VARS ==> Var(j) == if j == i then v else old(Var(j))
    {
      buff[i] := v;
      buff[i + VARS] := v;
      buff[i + VARS * 2] := v;
    }

    method Get(i: nat) returns (v: int32)
      requires Valid() && i < VARS
      ensures v == Var(i)
      ensures forall w :: Votes(buff[..], i, w) >= 2 ==> v == w
      ensures (forall w :: Votes(buff[..], i, w) < 2) ==> v == buff[i]
    {
      var v1, v2, v3 := buff[i], buff[i + VARS], buff[i + VARS * 2];
      assert v2 == v3 ==> Votes(buff[..], i, v2) >= 2;
      if v1 == v2 || v1 == v3 {
        return v1;
      } else if v2 == v3 {
        return v2;
      } else {
        return v1;
      }
    }

    /** The first part of drp_execute_before_flight: every variable becomes zero, except the clock. */
    method ZeroAll(now: int32)
      requires Valid()
      modifies buff
      ensures forall i: nat :: i < VARS ==> Var(i) == if i == RTC_DATE_TIME then now else 0
    {
      for i := 0 to VARS
        invariant forall j: nat :: j < i ==> Var(j) == 0
      {
        Set(i, 0);
      }
      Set(RTC_DATE_TIME, now);
    }
  }

  const RTC_DATE_TIME := 12

  // ------------------------------------------------------------------------------------
  // Redundancy over runs.

  /** A program write, or a cell changing by itself. */
  datatype Event = Write(i: nat, v: int32) | Upset(cell: nat, w: int32)

  predicate Possible(e: Event) {
    match e
    case Write(i, _) => i < VARS
    case Upset(cell, _) => cell < 3 * VARS
  }

  /** `last` is the value last written to each variable, `dirty` the cells upset since. */
  datatype History = History(cells: seq<int32>, last: map<nat, int32>, dirty: set<nat>)

  function Copies(i: nat): set<nat> { {i, i + VARS, i + 2 * VARS} }

  ghost function After(h: History, e: Event): (h': History)
    requires |h.cells| == 3 * VARS && Possible(e)
    ensures |h'.cells| == 3 * VARS
  {
    match e
    case Write(i, v) => History(Stored(h.cells, i, v), h.last[i := v], h.dirty - Copies(i))
    case Upset(cell, w) => History(h.cells[cell := w], h.last, h.dirty + {cell})
  }

  ghost function Run(h: History, es: seq<Event>): (h': History)
    requires |h.cells| == 3 * VARS && forall k :: 0 <= k < |es| ==> Possible(es[k])
    ensures |h'.cells| == 3 * VARS
  {
    if es == [] then h else After(Run(h, es[..|es| - 1]), es[|es| - 1])
  }

  /** Cells that were not upset still hold what was last written to their variable. */
  ghost predicate CleanCellsRight(h: History) {
    && |h.cells| == 3 * VARS
    && forall i: nat, c: nat :: i < VARS && i in h.last && c in Copies(i) && c !in h.dirty ==> h.cells[c] == h.last[i]
  }

  lemma {:induction false} EventKeepsCleanCells(h: History, e: Event)
    requires CleanCellsRight(h) && Possible(e)
    ensures CleanCellsRight(After(h, e))
  {}

  lemma {:induction false} RunKeepsCleanCells(cells: seq<int32>, es: seq<Event>)
    requires |cells| == 3 * VARS && forall k :: 0 <= k < |es| ==> Possible(es[k])
    ensures CleanCellsRight(Run(History(cells, map[], {}), es))
  {
    if es != [] {
      RunKeepsCleanCells(cells, es[..|es| - 1]);
      EventKeepsCleanCells(Run(History(cells, map[], {}), es[..|es| - 1]), es[|es| - 1]);
    }
  }

  /** Whatever is written and whatever is upset: a variable with at most one copy upset since its
      last write reads as the value written. */
  lemma {:induction false} OneUpsetIsMasked(cells: seq<int32>, es: seq<Event>, i: nat)
    requires |cells| == 3 * VARS && forall k :: 0 <= k < |es| ==> Possible(es[k])
    requires i < VARS
    ensures var h := Run(History(cells, map[], {}), es);
      i in h.last && |h.dirty * Copies(i)| <= 1 ==> Value(h.cells, i) == h.last[i]
  {
    RunKeepsCleanCells(cells, es);
    var h := Run(History(cells, map[], {}), es);
    if i in h.last && |h.dirty * Copies(i)| <= 1 {
      var a, b, c := i, i + VARS, i + 2 * VARS;
      AtMostOne(h.dirty * Copies(i), a, b);
      AtMostOne(h.dirty * Copies(i), a, c);
      AtMostOne(h.dirty * Copies(i), b, c);
    }
  }

  lemma {:induction false} AtMostOne(s: set<nat>, a: nat, b: nat)
    requires |s| <= 1 && a != b
    ensures a !in s || b !in s
  {
    if a in s {
      assert |s - {a}| == |s| - 1;
      assert s - {a} == {};
    }
  }

  /** Two upset copies are too many: agreeing on a wrong value, they outvote the third. */
  lemma {:induction false} TwoUpsetsOutvote(cells: seq<int32>, i: nat, v: int32, w: int32)
    requires |cells| == 3 * VARS && i < VARS && v != w
    ensures var h := Run(History(cells, map[], {}), [Write(i, v), Upset(i + VARS, w), Upset(i, w)]);
      i in h.last && h.last[i] == v && Value(h.cells, i) == w
  {
    var h0 := History(cells, map[], {});
    var es := [Write(i, v), Upset(i + VARS, w), Upset(i, w)];
    assert Run(h0, [Write(i, v)]) == After(h0, Write(i, v));
    assert Run(h0, es[..2]) == After(After(h0, Write(i, v)), Upset(i + VARS, w));
  }
}
