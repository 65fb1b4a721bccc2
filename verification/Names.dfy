/** Command names in strcmp order, and stable sorting of records by name. */
module Names {

  /** strcmp(a, b) < 0 */
  predicate Less(a: string, b: string) {
    b != [] && (a == [] || a[0] < b[0] || (a[0] == b[0] && Less(a[1..], b[1..])))
  }

  /** strcmp finds `a` before `b` at position `k`: the names agree before it, and there `a` ends or has the smaller
      character. */
  predicate DiffersAt(a: string, b: string, k: nat) {
    k <= |a| && k < |b| && a[..k] == b[..k] && (k == |a| || a[k] < b[k])
  }

  /** `Less` is strcmp order, for all strings: one name is a proper prefix of the other, or smaller at the first
      difference. */
  lemma {:induction false} LessIsStrcmp(a: string, b: string)
    ensures Less(a, b) <==> exists k: nat :: DiffersAt(a, b, k)
  {
    if Less(a, b) {
      var _ := FirstDifference(a, b);
    } else {
      forall k: nat ensures !DiffersAt(a, b, k) {
        if DiffersAt(a, b, k) { SmallerIsLess(a, b, k); }
      }
    }
  }

  lemma {:induction false} FirstDifference(a: string, b: string) returns (k: nat)
    requires Less(a, b)
    ensures DiffersAt(a, b, k)
  {
    k := 0;
    if a != [] && !(a[0] < b[0]) {
      k := FirstDifference(a[1..], b[1..]);
      k := k + 1;
      assert a[..k] == [a[0]] + a[1..][..k - 1] && b[..k] == [b[0]] + b[1..][..k - 1];
    }
  }

  lemma {:induction false} SmallerIsLess(a: string, b: string, k: nat)
    requires DiffersAt(a, b, k)
    ensures Less(a, b)
  {
    if k > 0 {
      assert a[0] == a[..k][0] == b[..k][0] == b[0];
      assert a[1..][..k - 1] == a[..k][1..] && b[1..][..k - 1] == b[..k][1..];
      SmallerIsLess(a[1..], b[1..], k - 1);
    }
  }

  /** So a name comes before every longer one that starts with it, as obc_reset before obc_reset_wdt. */
  lemma {:induction false} PrefixFirst(s: string, t: string)
    ensures t != "" ==> Less(s, s + t) && !Less(s + t, s)
  {
    if t != "" {
      assert DiffersAt(s, s + t, |s|);
      SmallerIsLess(s, s + t, |s|);
      LessTotal(s, s + t);
    }
  }

  lemma {:induction false} LessTotal(a: string, b: string)
    ensures Less(a, b) || Less(b, a) || a == b
    ensures !(Less(a, b) && Less(b, a))
  {
    if a != [] && b != [] && a[0] == b[0] {
      LessTotal(a[1..], b[1..]);
    }
  }

  lemma {:induction false} LessTransitive(a: string, b: string, c: string)
    requires Less(a, b) && Less(b, c)
    ensures Less(a, c)
  {
    if a != [] && a[0] == b[0] == c[0] {
      LessTransitive(a[1..], b[1..], c[1..]);
    }
  }

  /** `a` comes before `b` or is the same name. */
  predicate AtMost(a: string, b: string) {
    !Less(b, a)
  }

  lemma {:induction false} AtMostTransitive(a: string, b: string, c: string)
    requires AtMost(a, b) && AtMost(b, c)
    ensures AtMost(a, c)
    ensures Less(a, b) || Less(b, c) ==> Less(a, c)
  {
    LessTotal(a, b);
    LessTotal(b, c);
    LessTotal(a, c);
    if Less(a, b) && Less(b, c) { LessTransitive(a, b, c); }
  }

  /** cmd_list_t */
  datatype Command = Command(name: string, fmt: string, handler: nat, nparams: int)

  ghost predicate Sorted(s: seq<Command>) {
    forall i, j :: 0 <= i < j < |s| ==> AtMost(s[i].name, s[j].name)
  }

  /** The commands called `n`, in order. */
  function WithName(s: seq<Command>, n: string): seq<Command> {
    if s == [] then []
    else
      var rest := WithName(s[..|s| - 1], n);
      if s[|s| - 1].name == n then rest + [s[|s| - 1]] else rest
  }

  /** `t` is `s` stably sorted by name: sorted, with the same commands of each name in the same order. */
  ghost predicate StableSort(s: seq<Command>, t: seq<Command>) {
    Sorted(t) && SameByName(s, t)
  }

  ghost predicate SameByName(s: seq<Command>, t: seq<Command>) {
    forall n :: WithName(s, n) == WithName(t, n)
  }

  lemma {:induction false} WithNameSnoc(s: seq<Command>, x: Command, n: string)
    ensures WithName(s + [x], n) == if x.name == n then WithName(s, n) + [x] else WithName(s, n)
  {}

  lemma {:induction false} WithNameConcat(s: seq<Command>, t: seq<Command>, n: string)
    ensures WithName(s + t, n) == WithName(s, n) + WithName(t, n)
  {
    if t == [] {
      assert s + t == s;
    } else {
      var t0, x := t[..|t| - 1], t[|t| - 1];
      assert s + t == (s + t0) + [x] && t == t0 + [x];
      WithNameConcat(s, t0, n);
    }
  }

  lemma {:induction false} WithNameMember(s: seq<Command>, n: string)
    ensures forall x :: x in WithName(s, n) <==> x in s && x.name == n
  {
    if s != [] {
      WithNameMember(s[..|s| - 1], n);
    }
  }

  /** Same commands by name means the same commands. */
  lemma {:induction false} SameMembers(s: seq<Command>, t: seq<Command>, x: Command)
    requires SameByName(s, t)
    ensures x in s <==> x in t
  {
    WithNameMember(s, x.name);
    WithNameMember(t, x.name);
  }

  lemma {:induction false} WithNameNone(s: seq<Command>, n: string)
    requires forall x :: x in s ==> x.name != n
    ensures WithName(s, n) == []
  {
    if s != [] {
      WithNameNone(s[..|s| - 1], n);
    }
  }

  lemma {:induction false} CancelLast(a: seq<Command>, b: seq<Command>, x: Command)
    requires a + [x] == b + [x]
    ensures a == b
  {
    assert a == (a + [x])[..|a + [x]| - 1] && b == (b + [x])[..|b + [x]| - 1];
  }

  /** `StableSort` leaves no freedom: there is one such sequence, a permutation of `s`. */
  lemma {:induction false} StableSortUnique(t: seq<Command>, u: seq<Command>)
    requires Sorted(t) && Sorted(u) && SameByName(t, u)
    ensures t == u
  {
    if t == [] || u == [] {
      if t != [] { SameMembers(t, u, t[0]); }
      if u != [] { SameMembers(t, u, u[0]); }
    } else {
      hide SameByName, Less;
      var t0, x, u0, y := t[..|t| - 1], t[|t| - 1], u[..|u| - 1], u[|u| - 1];
      assert t == t0 + [x] && u == u0 + [y];
      SameLast(t0, x, u0, y);
      SameRest(t0, u0, x);
      StableSortUnique(t0, u0);
    }
  }

  lemma {:induction false} LastIsGreatest(t0: seq<Command>, x: Command, y: Command)
    requires Sorted(t0 + [x]) && y in t0 + [x]
    ensures AtMost(y.name, x.name)
  {
    var t := t0 + [x];
    var i :| 0 <= i < |t| && t[i] == y;
    LessTotal(y.name, x.name);
    assert i < |t| - 1 ==> AtMost(t[i].name, t[|t| - 1].name);
  }

  lemma {:induction false} SameLast(t0: seq<Command>, x: Command, u0: seq<Command>, y: Command)
    requires Sorted(t0 + [x]) && Sorted(u0 + [y]) && SameByName(t0 + [x], u0 + [y])
    ensures x == y
  {
    SameMembers(t0 + [x], u0 + [y], x);
    SameMembers(t0 + [x], u0 + [y], y);
    assert (t0 + [x])[|t0|] == x && (u0 + [y])[|u0|] == y;
    LastIsGreatest(t0, x, y);
    LastIsGreatest(u0, y, x);
    LessTotal(x.name, y.name);
    WithNameSnoc(t0, x, x.name);
    WithNameSnoc(u0, y, x.name);
    assert WithName(t0 + [x], x.name) == WithName(u0 + [y], x.name);
    LastsEqual(WithName(t0, x.name), x, WithName(u0, x.name), y);
  }

  lemma {:induction false} LastsEqual(a: seq<Command>, x: Command, b: seq<Command>, y: Command)
    requires a + [x] == b + [y]
    ensures x == y
  {
    assert (a + [x])[|a + [x]| - 1] == x && (b + [y])[|b + [y]| - 1] == y;
  }

  lemma {:induction false} SameRest(t0: seq<Command>, u0: seq<Command>, x: Command)
    requires SameByName(t0 + [x], u0 + [x])
    ensures SameByName(t0, u0)
  {
    forall n ensures WithName(t0, n) == WithName(u0, n) {
      WithNameSnoc(t0, x, n);
      WithNameSnoc(u0, x, n);
      assert WithName(t0 + [x], n) == WithName(u0 + [x], n);
      if x.name == n { CancelLast(WithName(t0, n), WithName(u0, n), x); }
    }
  }

  lemma {:induction false} StableSortPermutes(s: seq<Command>, t: seq<Command>, x: Command)
    requires SameByName(s, t)
    ensures multiset(s)[x] == multiset(t)[x]
  {
    CountByName(s, x);
    CountByName(t, x);
  }

  lemma {:induction false} CountByName(s: seq<Command>, x: Command)
    ensures multiset(s)[x] == multiset(WithName(s, x.name))[x]
  {
    if s != [] {
      CountByName(s[..|s| - 1], x);
      assert s == s[..|s| - 1] + [s[|s| - 1]];
    }
  }

  /** `x` inserted into the sorted `s` behind every command whose name is not after its own. */
  function Insert(s: seq<Command>, x: Command): (r: seq<Command>)
    ensures |r| == |s| + 1
  {
    if s == [] || !Less(x.name, s[|s| - 1].name) then s + [x]
    else Insert(s[..|s| - 1], x) + [s[|s| - 1]]
  }

  /** The reference for sorting by name: stable insertion sort. */
  function SortedCopy(s: seq<Command>): (r: seq<Command>)
    ensures |r| == |s|
  {
    if s == [] then [] else Insert(SortedCopy(s[..|s| - 1]), s[|s| - 1])
  }

  lemma {:induction false} InsertSameByName(s: seq<Command>, x: Command, n: string)
    requires Sorted(s)
    ensures WithName(Insert(s, x), n) == WithName(s + [x], n)
  {
    if s != [] && Less(x.name, s[|s| - 1].name) {
      hide Less, WithName;
      var s0, y := s[..|s| - 1], s[|s| - 1];
      InsertSameByName(s0, x, n);
      LessTotal(x.name, y.name);
      assert s == s0 + [y];
      WithNameSnoc(Insert(s0, x), y, n);
      WithNameSnoc(s0, x, n);
      WithNameSnoc(s0, y, n);
      WithNameSnoc(s, x, n);
    }
  }

  lemma {:induction false} InsertSorted(s: seq<Command>, x: Command)
    requires Sorted(s)
    ensures Sorted(Insert(s, x))
    ensures forall y :: y in Insert(s, x) ==> y in s || y == x
  {
    if s == [] {
    } else if Less(x.name, s[|s| - 1].name) {
      var s0, y := s[..|s| - 1], s[|s| - 1];
      InsertSorted(s0, x);
      var r := Insert(s0, x);
      forall i | 0 <= i < |r| ensures AtMost(r[i].name, y.name) {
        assert r[i] in r;
        LessTotal(x.name, y.name);
      }
    } else {
      forall i | 0 <= i < |s| ensures AtMost(s[i].name, x.name) {
        if i < |s| - 1 { AtMostTransitive(s[i].name, s[|s| - 1].name, x.name); }
      }
    }
  }

  /** The reference is a stable sort. */
  lemma {:induction false} SortedCopyIsStable(s: seq<Command>)
    ensures StableSort(s, SortedCopy(s))
  {
    if s != [] {
      var s0, x := s[..|s| - 1], s[|s| - 1];
      SortedCopyIsStable(s0);
      InsertSorted(SortedCopy(s0), x);
      forall n ensures WithName(s, n) == WithName(SortedCopy(s), n) {
        InsertSameByName(SortedCopy(s0), x, n);
      }
    }
  }

  /** And every stable sort is the reference. */
  lemma {:induction false} StableSortIsCopy(s: seq<Command>, t: seq<Command>)
    requires StableSort(s, t)
    ensures t == SortedCopy(s)
  {
    SortedCopyIsStable(s);
    StableSortUnique(t, SortedCopy(s));
  }
}
