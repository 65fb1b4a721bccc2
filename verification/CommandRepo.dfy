/** repoCommand.c: the table of registered commands, its sorted flag, and lookup by name. */
module CommandRepo {
  import opened Names
  import QuickSort

  /** SCH_CMD_MAX_ENTRIES */
  const MAX_ENTRIES := 65

  const CMD_ERROR := -1

  const NULL_NAME := "null"

  /** cmd_t as cmd_get_idx fills it, before parameters are added. */
  datatype Request = NotFound | Request(id: nat, fmt: string, handler: nat, nparams: int)

  /** Index of the first command called `n`, or -1. */
  function FirstNamed(s: seq<Command>, n: string): (i: int)
    ensures -1 <= i < |s|
    ensures i >= 0 ==> s[i].name == n
    ensures forall j :: 0 <= j < (if i >= 0 then i else |s|) ==> s[j].name != n
  {
    if s == [] then -1
    else if s[0].name == n then 0
    else var i := FirstNamed(s[1..], n); if i < 0 then -1 else i + 1
  }

  /** The first command called `n` heads the list of those called `n`. */
  lemma {:induction false} FirstHeadsNamed(s: seq<Command>, n: string)
    ensures FirstNamed(s, n) < 0 <==> WithName(s, n) == []
    ensures FirstNamed(s, n) >= 0 ==> WithName(s, n)[0] == s[FirstNamed(s, n)]
  {
    var i := FirstNamed(s, n);
    if i < 0 {
      WithNameNone(s, n);
    } else {
      WithNameNone(s[..i], n);
      WithNameConcat(s[..i], s[i..], n);
      WithNameConcat([s[i]], s[i + 1..], n);
      assert s == s[..i] + s[i..] && s[i..] == [s[i]] + s[i + 1..];
    }
  }

  /** What adding one command at a time compares: entry `i` with its predecessor, from index 2
      on, unless it is called "null". */
  ghost predicate StepsUp(s: seq<Command>, n: nat)
    requires n <= |s|
  {
    forall i :: 2 <= i < n && s[i].name != NULL_NAME ==> AtMost(s[i - 1].name, s[i].name)
  }

  /** The table after sort_cmd_list, when `n` commands are registered. */
  ghost function AfterSort(isSorted: bool, s: seq<Command>, n: nat): (t: seq<Command>)
    requires n <= |s|
    ensures |t| == |s|
  {
    if isSorted then s else SortedCopy(s[..n]) + s[n..]
  }

  /** The entry that a lookup fetches, and its index. */
  datatype Lookup = Miss | Hit(id: nat, c: Command)

  /** The first command called `name` from index `m` on. */
  function FirstFrom(t: seq<Command>, name: string, m: nat): (k: int)
    ensures k == -1 || (m <= k < |t| && t[k].name == name)
    ensures forall j :: m <= j < (if k >= 0 then k else |t|) ==> t[j].name != name
    decreases |t| - m
  {
    if m >= |t| then -1 else if t[m].name == name then m else FirstFrom(t, name, m + 1)
  }

  /** A lookup during which table `s` turns into `t`: comparison `j` is section `j`, and fetching entry `i` section
      `i + 1`; sections from `m` on see `t`. */
  function Raced(s: seq<Command>, t: seq<Command>, name: string, m: nat): Lookup
    requires |s| == |t|
  {
    var i := FirstNamed(s, name);
    if 0 <= i < m then Hit(i, if i + 1 < m then s[i] else t[i])
    else
      var k := FirstFrom(t, name, m);
      if k < 0 then Miss else Hit(k, t[k])
  }

  /** The first `i` comparisons of such a lookup fail. */
  ghost predicate Unmatched(s: seq<Command>, t: seq<Command>, name: string, m: nat, i: nat)
    requires i <= |s| == |t|
  {
    (forall j :: 0 <= j < i && j < m ==> s[j].name != name) && (forall j :: m <= j < i ==> t[j].name != name)
  }

  lemma {:induction false} RacedHit(s: seq<Command>, t: seq<Command>, name: string, m: nat, i: nat)
    requires i < |s| == |t| && Unmatched(s, t, name, m, i) && (if i < m then s[i].name else t[i].name) == name
    ensures Raced(s, t, name, m) == Hit(i, if i + 1 < m then s[i] else t[i])
  {
    var f, k := FirstNamed(s, name), FirstFrom(t, name, m);
    if i < m {
      assert f == i;
    } else {
      assert !(0 <= f < m);
      assert k == i;
    }
  }

  lemma {:induction false} RacedMiss(s: seq<Command>, t: seq<Command>, name: string, m: nat)
    requires |s| == |t| && Unmatched(s, t, name, m, |s|)
    ensures Raced(s, t, name, m) == Miss
  {
    var f, k := FirstNamed(s, name), FirstFrom(t, name, m);
    assert !(0 <= f < m);
    assert k < 0;
  }

  class Repo {
    const list: array<Command>
    var index: nat
    var isSorted: bool

    ghost predicate Valid()
      reads this, list
    {
      && list.Length == MAX_ENTRIES && index <= MAX_ENTRIES
      && (isSorted <==> StepsUp(list[..], index))
    }

    /** Static storage: an empty table. */
    constructor ()
      ensures Valid() && index == 0 && isSorted && fresh(list)
    {
      list := new Command[MAX_ENTRIES](_ => Command("", "", 0, 0));
      index, isSorted := 0, true;
    }

    /** cmd_add */
    method Add(c: Command) returns (rc: int)
      requires Valid()
      modifies this, list
      ensures Valid()
      ensures if old(index) < MAX_ENTRIES
        then && rc == index == old(index) + 1 && list[..] == old(list[..])[old(index) := c]
             && (c.name == NULL_NAME ==> isSorted == old(isSorted))
        else rc == CMD_ERROR && index == old(index) && list[..] == old(list[..]) && isSorted == old(isSorted)
    {
      if index >= MAX_ENTRIES {
        return CMD_ERROR;
      }
      ghost var was, n := list[..], index;
      list[index] := c;
      if c.name != NULL_NAME && isSorted && index > 1 {
        if Less(list[index].name, list[index - 1].name) {
          isSorted := false;
        }
      }
      index := index + 1;
      StepsUpSnoc(was, list[..], n);
      return index;
    }

    /** cmd_get_str over cmd_get_idx */
    method GetStr(name: string) returns (r: Request)
      requires list.Length == MAX_ENTRIES
      ensures r == Found(list[..], name)
      ensures r.NotFound? <==> forall j :: 0 <= j < MAX_ENTRIES ==> list[j].name != name
      ensures r.Request? ==>
        && r.id < MAX_ENTRIES && list[r.id].name == name && (forall j :: 0 <= j < r.id ==> list[j].name != name)
        && r.fmt == list[r.id].fmt && r.handler == list[r.id].handler && r.nparams == list[r.id].nparams
    {
      for i := 0 to MAX_ENTRIES
        invariant forall j :: 0 <= j < i ==> list[j].name != name
      {
        if name == list[i].name {
          return Request(i, list[i].fmt, list[i].handler, list[i].nparams);
        }
      }
      return NotFound;
    }

    /** cmd_get_str as its critical sections follow each other: it takes the semaphore for every comparison and once more
        to fetch the entry, and `help` sorts the table, on another task, right before section `moment`. */
    method GetStrWhileSorting(name: string, moment: nat) returns (r: Lookup)
      requires Valid()
      modifies this, list
      ensures Valid() && |old(list[..])| == MAX_ENTRIES == |AfterSort(old(isSorted), old(list[..]), old(index))|
      ensures r == Raced(old(list[..]), AfterSort(old(isSorted), old(list[..]), old(index)), name, moment)
    {
      hide StepsUp, AfterSort;
      ghost var s: seq<Command>, t: seq<Command> := list[..], AfterSort(isSorted, list[..], index);
      var i := 0;
      while i < MAX_ENTRIES
        invariant 0 <= i <= MAX_ENTRIES && Valid() && index == old(index)
        invariant list[..] == if i <= moment then s else t
        invariant i <= moment ==> isSorted == old(isSorted)
        invariant Unmatched(s, t, name, moment, i)
      {
        if i == moment {
          SortList();
        }
        assert list[..] == if i < moment then s else t;
        assert list[i] == list[..][i];
        if name == list[i].name {
          RacedHit(s, t, name, moment, i);
          if i + 1 == moment {
            SortList();
          }
          assert list[..] == if i + 1 < moment then s else t;
          assert list[i] == list[..][i];
          return Hit(i, list[i]);
        }
        i := i + 1;
      }
      RacedMiss(s, t, name, moment);
      return Miss;
    }

    /** sort_cmd_list */
    method SortList()
      requires Valid()
      modifies this, list
      ensures Valid() && isSorted && index == old(index)
      ensures list[..] == AfterSort(old(isSorted), old(list[..]), index)
    {
      if !isSorted {
        ghost var was := list[..];
        QuickSort.Sort(list, 0, index - 1);
        isSorted := true;
        SortedTable(was, list[..], index);
      }
    }

    /** The filling loop of cmd_repo_init, given `turns` turns, and the restored number of real commands once it
        has been left. It is left after as many turns as there are free entries; but a full table makes cmd_add
        return CMD_ERROR, which is less than MAX_ENTRIES, for ever. */
    method FillWithNull(handler: nat, turns: nat) returns (left: bool)
      requires Valid()
      modifies this, list
      ensures Valid() && isSorted == old(isSorted)
      ensures left <==> 0 < MAX_ENTRIES - old(index) <= turns
      ensures left ==> index == old(index) && list[..] == NullsBehind(old(list[..]), index, MAX_ENTRIES, handler)
      ensures !left ==> index == old(index) + (if old(index) < MAX_ENTRIES then turns else 0)
      ensures !left ==> list[..] == NullsBehind(old(list[..]), old(index), index, handler)
      ensures left ==> forall k :: index <= k < MAX_ENTRIES ==>
        list[k].name == "null" && list[k].fmt == "" && list[k].handler == handler && list[k].nparams == 0
    {
      var last := index;
      left := false;
      var i := 0;
      assert NullsBehind(list[..], index, index, handler) == list[..];
      while i < turns && !left
        invariant i <= turns && Valid() && isSorted == old(isSorted)
        invariant left <==> 0 < MAX_ENTRIES - last <= i
        invariant index == if left then MAX_ENTRIES else if last < MAX_ENTRIES then last + i else last
        invariant list[..] == NullsBehind(old(list[..]), last, index, handler)
      {
        var n := AddNull(handler, old(list[..]), last);
        left := n >= MAX_ENTRIES;
        i := i + 1;
      }
      if left {
        index := last;
        NullsKeepSteps(old(list[..]), last, MAX_ENTRIES, handler);
        forall k | last <= k < MAX_ENTRIES ensures list[k] == Command("null", "", handler, 0) {
          assert list[..][k] == NullsBehind(old(list[..]), last, MAX_ENTRIES, handler)[k];
        }
      }
    }

    /** One turn of that loop. */
    method AddNull(handler: nat, ghost was: seq<Command>, ghost last: nat) returns (n: int)
      requires Valid() && |was| == MAX_ENTRIES && last <= index && list[..] == NullsBehind(was, last, index, handler)
      modifies this, list
      ensures Valid() && isSorted == old(isSorted)
      ensures if old(index) < MAX_ENTRIES then n == index == old(index) + 1 else n == CMD_ERROR && index == old(index)
      ensures list[..] == NullsBehind(was, last, index, handler)
    {
      if index < MAX_ENTRIES {
        NullsSnoc(was, last, index, handler);
      }
      n := Add(Command("null", "", handler, 0));
    }

    /** Registering a list of commands in an empty table. */
    method RegisterAll(cs: seq<Command>)
      requires Valid() && index == 0 && |cs| <= MAX_ENTRIES
      modifies this, list
      ensures Valid() && index == |cs| && list[..|cs|] == cs
    {
      for i := 0 to |cs|
        invariant Valid() && index == i && list[..i] == cs[..i]
      {
        var _ := Add(cs[i]);
        assert cs[..i + 1] == cs[..i] + [cs[i]] && list[..i + 1] == list[..i] + [cs[i]];
      }
    }

    /** Whatever is registered, and whether the table is sorted before or not: looking a name up yields format, function and
        parameter count of the first command registered under it. */
    method RegisterAndFind(cs: seq<Command>, sorted: bool, name: string, ghost k: nat) returns (r: Request)
      requires Valid() && index == 0 && |cs| <= MAX_ENTRIES
      requires k < |cs| && cs[k].name == name && forall j :: 0 <= j < k ==> cs[j].name != name
      modifies this, list
      ensures r.Request? && r.fmt == cs[k].fmt && r.handler == cs[k].handler && r.nparams == cs[k].nparams
    {
      RegisterAll(cs);
      ghost var was := list[..];
      FirstIs(was, name, k);
      if sorted {
        SortKeepsMeaning(was, index, name);
        SortList();
      }
      r := GetStr(name);
    }

    /** Registering the first two commands of cmd_obc_init sets the flag on an unsorted table. */
    method RegisterFirstTwo(ident: nat, debug: nat)
      requires Valid() && index == 0
      modifies this, list
      ensures Valid() && index == 2 && isSorted && !Sorted(list[..2])
    {
      var _ := Add(Command("obc_ident", "", ident, 0));
      var _ := Add(Command("obc_debug", "%d", debug, 1));
      IdentAfterDebug();
      assert list[..2][0].name == "obc_ident" && list[..2][1].name == "obc_debug";
    }
  }

  lemma {:induction false} IdentAfterDebug()
    ensures Less("obc_debug", "obc_ident") && !AtMost("obc_ident", "obc_debug")
  {
    var a, b := "obc_debug", "obc_ident";
    assert a[1..] == "bc_debug" && b[1..] == "bc_ident";
    assert a[1..][1..] == "c_debug" && b[1..][1..] == "c_ident";
    assert a[1..][1..][1..] == "_debug" && b[1..][1..][1..] == "_ident";
    assert Less("_debug", "_ident") by {
      assert "_debug"[1..] == "debug" && "_ident"[1..] == "ident";
      assert Less("debug", "ident");
    }
    LessTotal(a, b);
  }

  /** `s` with entries `from..to` replaced by the null command. */
  function NullsBehind(s: seq<Command>, from: nat, to: nat, handler: nat): seq<Command>
    requires from <= to <= |s|
  {
    s[..from] + seq(to - from, _ => Command("null", "", handler, 0)) + s[to..]
  }

  lemma {:induction false} NullsKeepSteps(s: seq<Command>, from: nat, to: nat, handler: nat)
    requires from <= to <= |s|
    ensures StepsUp(NullsBehind(s, from, to, handler), from) <==> StepsUp(s, from)
  {
    var t := NullsBehind(s, from, to, handler);
    assert forall k :: 0 <= k < from ==> t[k] == s[k];
    if StepsUp(t, from) {
      forall i | 2 <= i < from && s[i].name != NULL_NAME ensures AtMost(s[i - 1].name, s[i].name) {
        assert t[i] == s[i] && t[i - 1] == s[i - 1];
      }
    }
  }

  lemma {:induction false} NullsSnoc(s: seq<Command>, from: nat, to: nat, handler: nat)
    requires from <= to < |s|
    ensures NullsBehind(s, from, to, handler)[to := Command("null", "", handler, 0)] == NullsBehind(s, from, to + 1, handler)
  {}

  /** What looking `name` up in a table yields. */
  function Found(s: seq<Command>, name: string): Request {
    var i := FirstNamed(s, name);
    if i < 0 then NotFound else Request(i, s[i].fmt, s[i].handler, s[i].nparams)
  }

  lemma {:induction false} FirstIs(s: seq<Command>, name: string, k: nat)
    requires k < |s| && s[k].name == name && forall j :: 0 <= j < k ==> s[j].name != name
    ensures FirstNamed(s, name) == k
  {}

  lemma {:induction false} StepsUpSnoc(s: seq<Command>, t: seq<Command>, n: nat)
    requires n < |s| == |t| && t == s[n := t[n]]
    ensures StepsUp(t, n + 1) <==> StepsUp(s, n) && (n >= 2 && t[n].name != NULL_NAME ==> AtMost(t[n - 1].name, t[n].name))
  {
    if StepsUp(t, n + 1) {
      forall i | 2 <= i < n && s[i].name != NULL_NAME ensures AtMost(s[i - 1].name, s[i].name) {
        assert t[i] == s[i] && t[i - 1] == s[i - 1];
      }
    }
  }

  lemma {:induction false} SortedTable(s: seq<Command>, t: seq<Command>, n: nat)
    requires n <= |s| && t == QuickSort.SortedRange(s, 0, n - 1)
    ensures t == SortedCopy(s[..n]) + s[n..] && StepsUp(t, n)
  {
    SortedCopyIsStable(s[..n]);
    forall i | 2 <= i < n ensures AtMost(t[i - 1].name, t[i].name) {
    }
  }

  // ------------------------------------------------------------------------------------
  // What the flag and the sort are worth.

  /** Sorting part of the table never changes what a name finds, whatever names occur twice:
      the same format, function and parameter count, at a possibly different id. */
  lemma {:induction false} SortKeepsMeaning(s: seq<Command>, n: nat, name: string)
    requires n <= |s|
    ensures var f, g := Found(s, name), Found(SortedCopy(s[..n]) + s[n..], name);
      if f.NotFound? then g.NotFound? else g.Request? && g == f.(id := g.id)
  {
    SortKeepsNamed(s, n, name);
    SameHead(s, SortedCopy(s[..n]) + s[n..], name);
  }

  /** The sort does not disturb a lookup of `name` when it comes before section `m`: the scan has not yet passed the place
      that the command moves to, or the command stays where it was found, or it was already fetched. */
  ghost predicate Undisturbed(s: seq<Command>, t: seq<Command>, name: string, m: nat) {
    var i, l := FirstNamed(s, name), FirstNamed(t, name);
    m > i + 1 || (m == i + 1 && l == i) || (m <= i && m <= l)
  }

  lemma {:induction false} SameHead(s: seq<Command>, t: seq<Command>, name: string)
    requires WithName(s, name) == WithName(t, name)
    ensures FirstNamed(s, name) < 0 <==> FirstNamed(t, name) < 0
    ensures FirstNamed(s, name) >= 0 ==> s[FirstNamed(s, name)] == t[FirstNamed(t, name)]
  {
    FirstHeadsNamed(s, name);
    FirstHeadsNamed(t, name);
  }

  lemma {:induction false} OnlyOnce(t: seq<Command>, name: string, l: nat, k: nat)
    requires |WithName(t, name)| == 1 && l < |t| && k < |t| && t[l].name == name == t[k].name
    ensures l == k
  {
    if l < k {
      TwoNamed(t, name, l, k);
    } else if k < l {
      TwoNamed(t, name, k, l);
    }
  }

  lemma {:induction false} TwoNamed(t: seq<Command>, name: string, l: nat, k: nat)
    requires l < k < |t| && t[l].name == name == t[k].name
    ensures |WithName(t, name)| >= 2
  {
    assert t == t[..k] + t[k..];
    WithNameConcat(t[..k], t[k..], name);
    WithNameMember(t[..k], name);
    WithNameMember(t[k..], name);
    assert t[..k][l] in WithName(t[..k], name);
    assert t[k..][0] in WithName(t[k..], name);
  }

  /** Without disturbance a lookup fetches the command it would fetch in a table at rest; and for a name that is registered
      once, only then. A name that is not registered is never found. */
  lemma {:induction false} RaceExactly(s: seq<Command>, n: nat, name: string, m: nat)
    requires n <= |s|
    ensures var t, i := AfterSort(false, s, n), FirstNamed(s, name);
      && (i < 0 ==> Raced(s, t, name, m) == Miss)
      && (var r := Raced(s, t, name, m); r.Hit? ==> r.id < |s| && (r.c == s[r.id] || r.c == t[r.id]))
      && (i >= 0 && Undisturbed(s, t, name, m) ==> Raced(s, t, name, m).Hit? && Raced(s, t, name, m).c == s[i])
      && (|WithName(s, name)| == 1 && !Undisturbed(s, t, name, m) ==>
            Raced(s, t, name, m).Miss? || Raced(s, t, name, m).c.name != name)
  {
    var t := AfterSort(false, s, n);
    SortKeepsNamed(s, n, name);
    SameHead(s, t, name);
    var i, l, k := FirstNamed(s, name), FirstNamed(t, name), FirstFrom(t, name, m);
    if i >= 0 && m <= i && m <= l {
      assert k == l;
    }
    if |WithName(s, name)| == 1 && !Undisturbed(s, t, name, m) {
      FirstHeadsNamed(s, name);
      if m == i + 1 {
        if t[i].name == name { OnlyOnce(t, name, l, i); }
      } else if k >= 0 {
        OnlyOnce(t, name, l, k);
      }
    }
  }

  lemma {:induction false} SortKeepsNamed(s: seq<Command>, n: nat, name: string)
    requires n <= |s|
    ensures WithName(AfterSort(false, s, n), name) == WithName(s, name)
  {
    SortedCopyIsStable(s[..n]);
    assert s == s[..n] + s[n..];
    WithNameConcat(s[..n], s[n..], name);
    WithNameConcat(SortedCopy(s[..n]), s[n..], name);
  }

  /** Two commands, the second below the first: sorting between match and fetch makes the name of one run the other, and
      sorting between the two comparisons makes the other's name unknown. */
  lemma {:induction false} RaceYieldsOther(b: Command, a: Command)
    requires Less(a.name, b.name)
    ensures var s := [b, a]; var t := AfterSort(false, s, 2);
      Raced(s, t, b.name, 1) == Hit(0, a) && Raced(s, t, a.name, 1) == Miss
  {
    var s := [b, a];
    LessTotal(a.name, b.name);
    var t := AfterSort(false, s, 2);
    assert t == [a, b] by {
      assert s[..2] == s && s[2..] == [];
      StableSortIsCopy(s, [a, b]) by {
        forall n ensures WithName(s, n) == WithName([a, b], n) {
          WithNameConcat([b], [a], n);
          WithNameConcat([a], [b], n);
          assert [b] + [a] == s && [a] + [b] == [a, b];
        }
      }
    }
    assert FirstNamed(s, b.name) == 0;
    assert FirstNamed(s, a.name) == 1;
    assert t[0] == a && t[1] == b;
  }

  ghost predicate NoNull(s: seq<Command>) {
    forall i :: 0 <= i < |s| ==> s[i].name != NULL_NAME
  }

  /** Without commands called "null", the flag says exactly that the table is sorted from index 1 on. */
  lemma {:induction false} FlagMeansSortedFromOne(s: seq<Command>, n: nat)
    requires 1 <= n <= |s| && NoNull(s[..n])
    ensures StepsUp(s, n) <==> Sorted(s[1..n])
  {
    var t := s[1..n];
    if StepsUp(s, n) {
      forall i, j | 0 <= i < j < |t| ensures AtMost(t[i].name, t[j].name) {
        StepsUpFar(s, n, i + 1, j + 1);
      }
    }
    if Sorted(t) {
      forall i | 2 <= i < n && s[i].name != NULL_NAME ensures AtMost(s[i - 1].name, s[i].name) {
        assert t[i - 2] == s[i - 1] && t[i - 1] == s[i];
      }
    }
  }

  lemma {:induction false} StepsUpFar(s: seq<Command>, n: nat, i: nat, j: nat)
    requires n <= |s| && NoNull(s[..n]) && StepsUp(s, n) && 1 <= i < j < n
    ensures AtMost(s[i].name, s[j].name)
    decreases j
  {
    if i < j - 1 {
      StepsUpFar(s, n, i, j - 1);
      AtMostTransitive(s[i].name, s[j - 1].name, s[j].name);
    }
  }

  /** So a set flag means a sorted table if and only if the first two entries happen to be in order. */
  lemma {:induction false} FlagMissesFirstPair(s: seq<Command>, n: nat)
    requires 2 <= n <= |s| && NoNull(s[..n]) && StepsUp(s, n)
    ensures Sorted(s[..n]) <==> AtMost(s[0].name, s[1].name)
  {
    var t := s[..n];
    if AtMost(s[0].name, s[1].name) {
      forall i, j | 0 <= i < j < n ensures AtMost(t[i].name, t[j].name) {
        if i > 0 {
          StepsUpFar(s, n, i, j);
        } else if j > 1 {
          StepsUpFar(s, n, 1, j);
          AtMostTransitive(s[0].name, s[1].name, s[j].name);
        }
      }
    }
  }
}
