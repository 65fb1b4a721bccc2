/** quicksort_by_name: an in-place, stable quicksort whose first recursive call keeps the pivot. */
module QuickSort {
  import opened Names

  /** The commands before `p` in name order, and the others. */
  function Lower(s: seq<Command>, p: string): (l: seq<Command>)
    ensures |l| <= |s|
  {
    if s == [] then []
    else
      var rest := Lower(s[..|s| - 1], p);
      if Less(s[|s| - 1].name, p) then rest + [s[|s| - 1]] else rest
  }

  function Upper(s: seq<Command>, p: string): (u: seq<Command>)
    ensures |u| + |Lower(s, p)| == |s|
  {
    if s == [] then []
    else
      var rest := Upper(s[..|s| - 1], p);
      if Less(s[|s| - 1].name, p) then rest else rest + [s[|s| - 1]]
  }

  /** `[p] + s` with the commands below `p` moved in front of it. */
  function Parted(p: Command, s: seq<Command>): (r: seq<Command>)
    ensures |r| == |s| + 1
  {
    Lower(s, p.name) + [p] + Upper(s, p.name)
  }

  lemma {:induction false} LowerUpperNames(s: seq<Command>, p: string)
    ensures forall x :: x in Lower(s, p) ==> Less(x.name, p)
    ensures forall x :: x in Upper(s, p) ==> AtMost(p, x.name)
  {
    if s != [] {
      LowerUpperNames(s[..|s| - 1], p);
    }
  }

  /** Parting is stable. */
  lemma {:induction false} PartedSameByName(p: Command, s: seq<Command>, n: string)
    ensures WithName(Parted(p, s), n) == WithName([p] + s, n)
  {
    if s != [] {
      var s0, x := s[..|s| - 1], s[|s| - 1];
      PartedSameByName(p, s0, n);
      assert s == s0 + [x] && [p] + s == ([p] + s0) + [x];
      PartedSnoc(p, s0, x, n);
    }
  }

  lemma {:induction false} PartedSnoc(p: Command, s: seq<Command>, x: Command, n: string)
    ensures WithName(Parted(p, s + [x]), n)
         == if x.name == n then WithName(Parted(p, s), n) + [x] else WithName(Parted(p, s), n)
  {
    var l, u := Lower(s, p.name), Upper(s, p.name);
    if Less(x.name, p.name) {
      if x.name == n {
        NoneBelow(p, s, n);
      }
      InsertBelow(l, x, [p] + u, n);
      Bracket(l + [x], p, u);
      Bracket(l, p, u);
    } else {
      assert l + [p] + (u + [x]) == l + [p] + u + [x];
    }
  }

  lemma {:induction false} Bracket(l: seq<Command>, p: Command, u: seq<Command>)
    ensures l + [p] + u == l + ([p] + u)
  {}

  lemma {:induction false} InsertBelow(l: seq<Command>, x: Command, u: seq<Command>, n: string)
    requires x.name == n ==> WithName(u, n) == []
    ensures WithName((l + [x]) + u, n) == if x.name == n then WithName(l + u, n) + [x] else WithName(l + u, n)
  {
    WithNameConcat(l + [x], u, n);
    WithNameConcat(l, u, n);
  }

  lemma {:induction false} NoneBelow(p: Command, s: seq<Command>, n: string)
    requires Less(n, p.name)
    ensures WithName([p] + Upper(s, p.name), n) == []
  {
    LowerUpperNames(s, p.name);
    LessTotal(n, p.name);
    WithNameNone([p] + Upper(s, p.name), n);
  }

  /** Stably sorting both halves of a parted sequence sorts the whole. */
  lemma {:induction false} SortedHalves(p: Command, s: seq<Command>)
    ensures SortedCopy(Lower(s, p.name) + [p]) + SortedCopy(Upper(s, p.name)) == SortedCopy([p] + s)
  {
    var l, u := Lower(s, p.name), Upper(s, p.name);
    SortedCopyIsStable(l + [p]);
    SortedCopyIsStable(u);
    HalvesStable(p, s, SortedCopy(l + [p]), SortedCopy(u));
    StableSortIsCopy([p] + s, SortedCopy(l + [p]) + SortedCopy(u));
  }

  lemma {:induction false} HalvesStable(p: Command, s: seq<Command>, a: seq<Command>, b: seq<Command>)
    requires StableSort(Lower(s, p.name) + [p], a) && StableSort(Upper(s, p.name), b)
    ensures StableSort([p] + s, a + b)
  {
    var l, u := Lower(s, p.name), Upper(s, p.name);
    forall n ensures WithName([p] + s, n) == WithName(a + b, n) {
      PartedSameByName(p, s, n);
      WithNameConcat(l + [p], u, n);
      WithNameConcat(a, b, n);
    }
    LowerUpperNames(s, p.name);
    forall i, j | 0 <= i < |a| && 0 <= j < |b| ensures AtMost(a[i].name, b[j].name) {
      SameMembers(l + [p], a, a[i]);
      SameMembers(u, b, b[j]);
      LessTotal(a[i].name, p.name);
      AtMostTransitive(a[i].name, p.name, b[j].name);
    }
  }

  /** `t` is `s` with command `i` moved down to index `p`. */
  ghost predicate MovedDown(s: seq<Command>, t: seq<Command>, p: nat, i: nat)
    requires p <= i < |s|
  {
    && |t| == |s| && t[p] == s[i]
    && (forall k :: p < k <= i ==> t[k] == s[k - 1])
    && (forall k :: 0 <= k < p || i < k < |s| ==> t[k] == s[k])
  }

  /** The inner loop: shift the commands from `p` to `i` up and put command `i` below them. */
  method MoveDown(a: array<Command>, p: nat, i: nat)
    requires p <= i < a.Length
    modifies a
    ensures MovedDown(old(a[..]), a[..], p, i)
  {
    var aux := a[i];
    var j := i;
    while j > p
      invariant p <= j <= i
      invariant forall k :: 0 <= k <= j ==> a[k] == old(a[k])
      invariant forall k :: j < k <= i ==> a[k] == old(a[k - 1])
      invariant forall k :: i < k < a.Length ==> a[k] == old(a[k])
    {
      a[j] := a[j - 1];
      j := j - 1;
    }
    a[p] := aux;
  }

  /** `s` and `t` agree outside `start..end`, both included. */
  ghost predicate SameOutside(s: seq<Command>, t: seq<Command>, start: nat, end: int) {
    start <= end + 1 <= |s| == |t| && s[..start] == t[..start] && s[end + 1..] == t[end + 1..]
  }

  /** The partition loop in progress: `low`, the pivot `p` and `high` stand from `start` up to `i`. */
  ghost predicate Parting(s: seq<Command>, start: nat, pivot: nat, i: nat, low: seq<Command>, p: Command, high: seq<Command>) {
    start <= pivot < i <= |s| && s[start..pivot] == low && s[pivot] == p && s[pivot + 1..i] == high
  }

  /** `low` and `high` are the commands after `start` and before `i`, by whether they come before the first. */
  ghost predicate PartsOf(s: seq<Command>, start: nat, i: nat, low: seq<Command>, high: seq<Command>) {
    && start < i <= |s|
    && low == Lower(s[start + 1..i], s[start].name) && high == Upper(s[start + 1..i], s[start].name)
  }

  lemma {:induction false} PartsStep(s: seq<Command>, start: nat, i: nat, low: seq<Command>, high: seq<Command>)
    requires i < |s| && PartsOf(s, start, i, low, high)
    ensures if Less(s[i].name, s[start].name) then PartsOf(s, start, i + 1, low + [s[i]], high)
            else PartsOf(s, start, i + 1, low, high + [s[i]])
  {
    assert s[start + 1..i + 1] == s[start + 1..i] + [s[i]];
  }

  /** When the pivot ends up last, the last command was below the first one, and now is above it. */
  lemma {:induction false} PivotLast(s: seq<Command>, start: nat, end: nat)
    requires start < end < |s| && PivotAt(s, start, end + 1) == end
    ensures var t := PartedAt(s, start, end + 1);
      Less(s[end].name, s[start].name) && !Less(t[end].name, t[start].name)
  {
    PartedState(s, start, end + 1);
    var t, rest, p := PartedAt(s, start, end + 1), s[start + 1..end + 1], s[start].name;
    LowerUpperNames(rest, p);
    LessTotal(t[start].name, p);
  }

  lemma {:induction false} UpToPivot(s: seq<Command>, start: nat, pivot: nat, i: nat, low: seq<Command>, p: Command, high: seq<Command>)
    requires Parting(s, start, pivot, i, low, p, high)
    ensures s[start..pivot + 1] == low + [p]
  {}

  /** One turn of the partition loop: command `i` joins the part below the pivot, which moves
      up by one, or the part above it. */
  method Place(a: array<Command>, start: nat, pivot: nat, i: nat, ghost low: seq<Command>, ghost p: Command, ghost high: seq<Command>,
               ghost x: Command)
    returns (below: bool)
    requires i < a.Length && a[..][i] == x && Parting(a[..], start, pivot, i, low, p, high)
    modifies a
    ensures below == Less(x.name, p.name)
    ensures below ==> Parting(a[..], start, pivot + 1, i + 1, low + [x], p, high)
    ensures !below ==> Parting(a[..], start, pivot, i + 1, low, p, high + [x])
    ensures SameOutside(old(a[..]), a[..], start, i)
  {
    below := Less(a[i].name, a[pivot].name);
    if below {
      MoveDown(a, pivot, i);
    }
  }

  lemma {:induction false} OutsideGrows(s: seq<Command>, t: seq<Command>, start: nat, i: nat)
    requires SameOutside(s, t, start, i - 1) && i < |s|
    ensures SameOutside(s, t, start, i) && s[i] == t[i]
  {}

  /** What holds when the partition loop reaches `i`, `s` being the array it started from. */
  ghost predicate PartState(s: seq<Command>, t: seq<Command>, start: nat, pivot: nat, i: nat, low: seq<Command>, high: seq<Command>) {
    PartsOf(s, start, i, low, high) && Parting(t, start, pivot, i, low, s[start], high) && SameOutside(s, t, start, i - 1)
  }

  /** The array the loop has made when it reaches `i`: the smaller commands seen so far, the pivot, the others. */
  ghost function PartedAt(s: seq<Command>, start: nat, i: nat): (t: seq<Command>)
    requires start < i <= |s|
    ensures |t| == |s|
  {
    s[..start] + Parted(s[start], s[start + 1..i]) + s[i..]
  }

  /** The index the pivot has then. */
  ghost function PivotAt(s: seq<Command>, start: nat, i: nat): (k: nat)
    requires start < i <= |s|
    ensures start <= k < i
  {
    start + |Lower(s[start + 1..i], s[start].name)|
  }

  lemma {:induction false} PartedState(s: seq<Command>, start: nat, i: nat)
    requires start < i <= |s|
    ensures var seen, n := s[start + 1..i], s[start].name;
      PartState(s, PartedAt(s, start, i), start, PivotAt(s, start, i), i, Lower(seen, n), Upper(seen, n))
  {
    var seen, p := s[start + 1..i], s[start];
    assert PartedAt(s, start, i) == s[..start] + (Lower(seen, p.name) + ([p] + (Upper(seen, p.name) + s[i..])));
  }

  lemma {:induction false} StateIsParted(s: seq<Command>, t: seq<Command>, start: nat, pivot: nat, i: nat, low: seq<Command>, high: seq<Command>)
    requires PartState(s, t, start, pivot, i, low, high)
    ensures t == PartedAt(s, start, i) && pivot == PivotAt(s, start, i)
  {
    FiveParts(t, start, pivot, i);
  }

  lemma {:induction false} FiveParts(t: seq<Command>, start: nat, pivot: nat, i: nat)
    requires start <= pivot < i <= |t|
    ensures t == t[..start] + (t[start..pivot] + [t[pivot]] + t[pivot + 1..i]) + t[i..]
  {
    assert t[start..i] == t[start..pivot] + [t[pivot]] + t[pivot + 1..i];
    assert t == t[..start] + t[start..i] + t[i..];
  }

  lemma {:induction false} PartStart(s: seq<Command>, start: nat)
    requires start < |s|
    ensures PartedAt(s, start, start + 1) == s && PivotAt(s, start, start + 1) == start
  {}

  method Turn(a: array<Command>, start: nat, pivot: nat, i: nat, ghost s: seq<Command>) returns (pivot': nat)
    requires start < i < a.Length == |s| && a[..] == PartedAt(s, start, i) && pivot == PivotAt(s, start, i)
    modifies a
    ensures a[..] == PartedAt(s, start, i + 1) && pivot' == PivotAt(s, start, i + 1)
  {
    hide PartedAt, PivotAt, Lower, Upper;
    ghost var t, seen, n := a[..], s[start + 1..i], s[start].name;
    ghost var low, high := Lower(seen, n), Upper(seen, n);
    PartedState(s, start, i);
    PartsStep(s, start, i, low, high);
    OutsideGrows(s, t, start, i);
    var below := Place(a, start, pivot, i, low, s[start], high, s[i]);
    pivot' := if below then pivot + 1 else pivot;
    StateIsParted(s, a[..], start, pivot', i + 1, if below then low + [s[i]] else low, if below then high else high + [s[i]]);
  }

  /** The partition loop. */
  method PartLoop(a: array<Command>, start: nat, end: nat) returns (pivot: nat)
    requires start < end < a.Length
    modifies a
    ensures a[..] == PartedAt(old(a[..]), start, end + 1) && pivot == PivotAt(old(a[..]), start, end + 1)
  {
    hide PartedAt, PivotAt;
    ghost var s := a[..];
    pivot := start;
    PartStart(s, start);
    for i := start + 1 to end + 1
      invariant a[..] == PartedAt(s, start, i) && pivot == PivotAt(s, start, i)
    {
      pivot := Turn(a, start, pivot, i, s);
    }
  }

  /** The state between partition and recursion; should the pivot be last, then the last
      command used to come before the first, and no longer does. */
  method Part(a: array<Command>, start: nat, end: nat) returns (pivot: nat)
    requires start < end < a.Length
    modifies a
    ensures Sides(old(a[..]), a[..], start, pivot, end)
    ensures pivot == end ==> Less(old(a[end]).name, old(a[start]).name) && !Less(a[end].name, a[start].name)
  {
    ghost var s := a[..];
    pivot := PartLoop(a, start, end);
    PartedSides(s, start, end);
    if pivot == end {
      PivotLast(s, start, end);
    }
  }

  /** Changing `start..pivot` and then `pivot + 1..end` changes the two sides independently. */
  lemma {:induction false} BothSides(t: seq<Command>, u: seq<Command>, v: seq<Command>, start: nat, pivot: nat, end: nat)
    requires start <= pivot <= end < |t|
    requires SameOutside(t, u, start, pivot) && SameOutside(u, v, pivot + 1, end)
    ensures u[pivot + 1..end + 1] == t[pivot + 1..end + 1]
    ensures v[start..end + 1] == u[start..pivot + 1] + v[pivot + 1..end + 1]
  {}

  lemma {:induction false} PartsSorted(s: seq<Command>, start: nat, end: nat, low: seq<Command>, high: seq<Command>)
    requires start < end < |s| && PartsOf(s, start, end + 1, low, high)
    ensures SortedCopy(low + [s[start]]) + SortedCopy(high) == SortedCopy(s[start..end + 1])
  {
    hide SortedCopy, Lower, Upper;
    SortedHalves(s[start], s[start + 1..end + 1]);
    assert s[start..end + 1] == [s[start]] + s[start + 1..end + 1];
  }

  lemma {:induction false} OutsideAll(s: seq<Command>, t: seq<Command>, u: seq<Command>, v: seq<Command>,
                                      start: nat, pivot: nat, end: nat)
    requires start <= pivot <= end
    requires SameOutside(s, t, start, end) && SameOutside(t, u, start, pivot) && SameOutside(u, v, pivot + 1, end)
    ensures SameOutside(s, v, start, end)
  {}

  /** `t` is `s` with `start..end` parted: the smaller commands and the pivot, then the others. */
  ghost predicate Sides(s: seq<Command>, t: seq<Command>, start: nat, pivot: nat, end: nat) {
    && start <= pivot <= end && SameOutside(s, t, start, end) && start < end < |s| == |t|
    && t[start..pivot + 1] == Lower(s[start + 1..end + 1], s[start].name) + [s[start]]
    && t[pivot + 1..end + 1] == Upper(s[start + 1..end + 1], s[start].name)
  }

  lemma {:induction false} PartedSides(s: seq<Command>, start: nat, end: nat)
    requires start < end < |s|
    ensures Sides(s, PartedAt(s, start, end + 1), start, PivotAt(s, start, end + 1), end)
  {
    var seen, p := s[start + 1..end + 1], s[start];
    PartedState(s, start, end + 1);
    UpToPivot(PartedAt(s, start, end + 1), start, PivotAt(s, start, end + 1), end + 1, Lower(seen, p.name), p, Upper(seen, p.name));
  }

  lemma {:induction false} SortsSides(s: seq<Command>, t: seq<Command>, u: seq<Command>, v: seq<Command>,
                                      start: nat, pivot: nat, end: nat, low: seq<Command>, high: seq<Command>)
    requires start <= pivot <= end && start < end < |s| == |t| && PartsOf(s, start, end + 1, low, high)
    requires SameOutside(t, u, start, pivot) && SameOutside(u, v, pivot + 1, end)
    requires t[start..pivot + 1] == low + [s[start]] && t[pivot + 1..end + 1] == high
    requires u[start..pivot + 1] == SortedCopy(t[start..pivot + 1])
    requires v[pivot + 1..end + 1] == SortedCopy(u[pivot + 1..end + 1])
    ensures v[start..end + 1] == SortedCopy(s[start..end + 1])
  {
    BothSides(t, u, v, start, pivot, end);
    PartsSorted(s, start, end, low, high);
  }

  /** `s` with the commands `start..end` in stable order. */
  ghost function SortedRange(s: seq<Command>, start: nat, end: int): (t: seq<Command>)
    requires start <= end + 1 <= |s|
    ensures |t| == |s|
  {
    s[..start] + SortedCopy(s[start..end + 1]) + s[end + 1..]
  }

  lemma {:induction false} SortedRangeParts(s: seq<Command>, start: nat, end: int)
    requires start <= end + 1 <= |s|
    ensures SameOutside(s, SortedRange(s, start, end), start, end)
    ensures SortedRange(s, start, end)[start..end + 1] == SortedCopy(s[start..end + 1])
  {}

  lemma {:induction false} IsSortedRange(s: seq<Command>, t: seq<Command>, start: nat, end: int)
    requires start <= end + 1 <= |s| && SameOutside(s, t, start, end) && t[start..end + 1] == SortedCopy(s[start..end + 1])
    ensures t == SortedRange(s, start, end)
  {
    assert t[..end + 1] == t[..start] + t[start..end + 1];
    assert t == t[..end + 1] + t[end + 1..];
  }

  /** Parting and then sorting both sides, in place, sorts the whole range. */
  lemma {:induction false} SortsRange(s: seq<Command>, t: seq<Command>, start: nat, pivot: nat, end: nat)
    requires Sides(s, t, start, pivot, end)
    ensures SortedRange(SortedRange(t, start, pivot), pivot + 1, end) == SortedRange(s, start, end)
  {
    var seen, n := s[start + 1..end + 1], s[start].name;
    var u := SortedRange(t, start, pivot);
    var v := SortedRange(u, pivot + 1, end);
    SortedRangeParts(t, start, pivot);
    SortedRangeParts(u, pivot + 1, end);
    OutsideAll(s, t, u, v, start, pivot, end);
    SortsSides(s, t, u, v, start, pivot, end, Lower(seen, n), Upper(seen, n));
    IsSortedRange(s, v, start, end);
  }

  /** quicksort_by_name is stable insertion sort. The first recursive call may cover the whole
      range again, but then the last command has become a strict maximum. */
  method Sort(a: array<Command>, start: nat, end: int)
    requires start <= end + 1 <= a.Length
    modifies a
    ensures a[..] == SortedRange(old(a[..]), start, end)
    decreases end - start, if start < end && Less(a[end].name, a[start].name) then 1 else 0
  {
    hide SortedRange;
    ghost var s := a[..];
    if start >= end {
      SmallRange(s, start, end);
      return;
    }
    var pivot := PartForSort(a, start, end);
    Sort(a, start, pivot);
    Sort(a, pivot + 1, end);
  }

  /** Parting leaves two sides that remain to be sorted. */
  method PartForSort(a: array<Command>, start: nat, end: nat) returns (pivot: nat)
    requires start < end < a.Length
    modifies a
    ensures start <= pivot <= end
    ensures SortedRange(SortedRange(a[..], start, pivot), pivot + 1, end) == SortedRange(old(a[..]), start, end)
    ensures pivot == end ==> Less(old(a[end]).name, old(a[start]).name) && !Less(a[end].name, a[start].name)
  {
    ghost var s := a[..];
    pivot := Part(a, start, end);
    SortsRange(s, a[..], start, pivot, end);
  }

  lemma {:induction false} SmallRange(s: seq<Command>, start: nat, end: int)
    requires start <= end + 1 <= |s| && end <= start
    ensures SortedRange(s, start, end) == s
  {
    OneIsSorted(s[start..end + 1]);
    IsSortedRange(s, s, start, end);
  }

  lemma {:induction false} OneIsSorted(s: seq<Command>)
    requires |s| <= 1
    ensures SortedCopy(s) == s
  {}
}
