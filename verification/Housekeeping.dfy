/** taskHousekeeping.c: the mission phase machine and the commands each tick queues, driven by the minute
    counter that drp_update_hours_alive advances. */
module Housekeeping {
  import opened Bytes
  import opened StatusRepo

  const HRS_ALIVE := 2
  const HRS_WO_RESET := 3
  const BALLOON_PHASE := 53

  /** phase_n: A0, A1, A, B, B1, B2, C, C1 are 0 to 7. */
  const PHASE_A0 := 0
  const PHASE_B1 := 4
  const PHASE_C1 := 7

  datatype Command = GetGps | GetPrs | GetDpl | RunSstv | SendXbee | SendSun | OpenDpl | AddMinute

  /** The phase of a minute; minute -1 marks an unset counter. */
  function PhaseOf(minutes: int): (p: nat)
    ensures p <= PHASE_C1
  {
    if minutes <= 20 then 0 else if minutes <= 26 then 1 else if minutes <= 60 then 2 else if minutes <= 95 then 3
    else if minutes <= 101 then 4 else if minutes <= 107 then 5 else if minutes <= 138 then 6 else 7
  }

  /** change_system_phase */
  method ChangeSystemPhase(repo: Repo)
    requires repo.Valid()
    modifies repo.buff
    ensures forall j: nat :: j < VARS && j != BALLOON_PHASE ==> repo.Var(j) == old(repo.Var(j))
    ensures repo.Var(BALLOON_PHASE) == PhaseAfter(old(repo.Var(BALLOON_PHASE)), old(repo.Var(HRS_ALIVE)))
  {
    var current := repo.Get(BALLOON_PHASE);
    var minutes := repo.Get(HRS_ALIVE);
    if minutes == -1 {
      return;
    }
    if minutes <= 20 {
      if current != 0 { repo.Set(BALLOON_PHASE, 0); }
    } else if 20 < minutes <= 26 {
      if current != 1 { repo.Set(BALLOON_PHASE, 1); }
    } else if 26 < minutes <= 60 {
      if current != 2 { repo.Set(BALLOON_PHASE, 2); }
    } else if 60 < minutes <= 95 {
      if current != 3 { repo.Set(BALLOON_PHASE, 3); }
    } else if 95 < minutes <= 101 {
      if current != 4 { repo.Set(BALLOON_PHASE, 4); }
    } else if 101 < minutes <= 107 {
      if current != 5 { repo.Set(BALLOON_PHASE, 5); }
    } else if 107 < minutes <= 138 {
      if current != 6 { repo.Set(BALLOON_PHASE, 6); }
    } else if minutes > 138 {
      if current != 7 { repo.Set(BALLOON_PHASE, 7); }
    }
  }

  function PhaseAfter(phase: int32, minutes: int32): int32 {
    if minutes == -1 then phase else PhaseOf(minutes)
  }

  /** One turn of the task loop, `height` being whatever the pressure sample holds. */
  method Tick(repo: Repo, elapsed: u32, height: real) returns (elapsed': u32, queued: seq<Command>)
    requires repo.Valid()
    modifies repo.buff
    ensures elapsed' == (elapsed + 1) % 0x1_0000_0000
    ensures forall j: nat :: j < VARS && j != BALLOON_PHASE ==> repo.Var(j) == old(repo.Var(j))
    ensures repo.Var(BALLOON_PHASE) == PhaseAfter(old(repo.Var(BALLOON_PHASE)), old(repo.Var(HRS_ALIVE)))
    ensures InOrder(queued) && forall c :: c in queued <==> Falls(c, repo.Var(BALLOON_PHASE), elapsed')
  {
    elapsed' := (elapsed + 1) % 0x1_0000_0000;
    ChangeSystemPhase(repo);
    var phase := repo.Get(BALLOON_PHASE);
    queued := Sampling(elapsed');
    if phase == PHASE_A0 {
      queued := QueueIf(queued, elapsed' % 300 == 0, OpenDpl);
    }
    if phase == PHASE_B1 || (10210.0 <= height < 10310.0) {
      if phase == PHASE_B1 {
        queued := QueueIf(queued, elapsed' % 20 == 0, OpenDpl);
      }
    }
    queued := QueueIf(queued, elapsed' % 60 == 0, AddMinute);
  }

  /** The commands of a second: sampling, deployment by phase, and the minute counter. */
  predicate Falls(c: Command, phase: int, elapsed: u32) {
    Due(c, elapsed) || (c == OpenDpl && Deploys(phase, elapsed)) || (c == AddMinute && elapsed % 60 == 0)
  }

  /** The sampling commands that fall due in a second, whatever the phase. */
  predicate Due(c: Command, elapsed: u32) {
    match c
    case GetGps => elapsed % 10 == 1
    case GetPrs => elapsed % 10 == 4
    case GetDpl => elapsed % 60 == 0
    case RunSstv => elapsed % 300 == 0
    case SendXbee => elapsed % 600 == 0
    case SendSun => elapsed % 10 == 0
    case _ => false
  }

  /** The first half of the loop body: sampling in all phases. */
  method Sampling(elapsed: u32) returns (queued: seq<Command>)
    ensures InOrder(queued) && forall c :: c in queued <==> Due(c, elapsed)
  {
    queued := QueueIf([], elapsed % 10 == 1, GetGps);
    queued := QueueIf(queued, elapsed % 10 == 4, GetPrs);
    queued := QueueIf(queued, elapsed % 60 == 0, GetDpl);
    queued := QueueIf(queued, elapsed % 300 == 0, RunSstv);
    queued := QueueIf(queued, elapsed % 600 == 0, SendXbee);
    queued := QueueIf(queued, elapsed % 10 == 0, SendSun);
  }

  /** The order in which the loop body comes to the commands. */
  function Place(c: Command): nat {
    match c
    case GetGps => 0
    case GetPrs => 1
    case GetDpl => 2
    case RunSstv => 3
    case SendXbee => 4
    case SendSun => 5
    case OpenDpl => 6
    case AddMinute => 7
  }

  /** No command twice, and all in that order; so the commands that occur determine the sequence. */
  predicate InOrder(queued: seq<Command>) {
    forall i, j :: 0 <= i < j < |queued| ==> Place(queued[i]) < Place(queued[j])
  }

  lemma {:induction false} OrderDetermines(a: seq<Command>, b: seq<Command>)
    requires InOrder(a) && InOrder(b) && forall c :: c in a <==> c in b
    ensures a == b
  {
    if b != [] { HasFirst(b); }
    if a != [] {
      HasFirst(a);
      assert a[0] in b && b[0] in a;
      assert a[0] == b[0];
      forall c ensures c in a[1..] <==> c in b[1..] {
        if c in a[1..] { SameBehind(a, b, c); }
        if c in b[1..] { SameBehind(b, a, c); }
      }
      OrderDetermines(a[1..], b[1..]);
    }
  }

  lemma {:induction false} HasFirst(a: seq<Command>)
    requires a != []
    ensures exists c :: c in a
  {
    assert a[0] in a;
  }

  lemma {:induction false} SameBehind(a: seq<Command>, b: seq<Command>, c: Command)
    requires a != [] && b != [] && a[0] == b[0] && InOrder(a) && c in a[1..] && c in b
    ensures c in b[1..]
  {}

  lemma {:induction false} FallsTogether(c: Command, elapsed: u32)
    requires elapsed % 600 == 0
    ensures Falls(c, PHASE_A0, elapsed) <==> c != GetGps && c != GetPrs
  {
    var k := elapsed / 600;
    QuotientIs(elapsed, 10, 60 * k, 0);
    QuotientIs(elapsed, 60, 10 * k, 0);
    QuotientIs(elapsed, 300, 2 * k, 0);
  }

  /** A second in which everything but GPS and pressure falls due. */
  lemma {:induction false} AllAtOnce(queued: seq<Command>, elapsed: u32)
    requires InOrder(queued) && (forall c :: c in queued <==> Falls(c, PHASE_A0, elapsed)) && elapsed % 600 == 0
    ensures queued == [GetDpl, RunSstv, SendXbee, SendSun, OpenDpl, AddMinute]
  {
    forall c ensures Falls(c, PHASE_A0, elapsed) <==> c in [GetDpl, RunSstv, SendXbee, SendSun, OpenDpl, AddMinute] {
      FallsTogether(c, elapsed);
    }
    hide Falls;
    OrderDetermines(queued, [GetDpl, RunSstv, SendXbee, SendSun, OpenDpl, AddMinute]);
  }

  /** A command queued behind others under a condition. */
  method QueueIf(queued: seq<Command>, condition: bool, c: Command) returns (queued': seq<Command>)
    requires InOrder(queued) && forall x :: x in queued ==> Place(x) < Place(c)
    ensures InOrder(queued') && forall x :: x in queued' <==> x in queued || (condition && x == c)
  {
    queued' := if condition then queued + [c] else queued;
  }

  /** When open_dpl_1 is queued: in phase A0 every five minutes and in phase B1 every twenty seconds,
      at any height. */
  predicate Deploys(phase: int, elapsed: u32) {
    (phase == PHASE_A0 && elapsed % 300 == 0) || (phase == PHASE_B1 && elapsed % 20 == 0)
  }

  /** drp_update_hours_alive */
  method UpdateHoursAlive(repo: Repo, value: int32)
    requires repo.Valid()
    modifies repo.buff
    ensures repo.Var(HRS_ALIVE) == WrapInt32(old(repo.Var(HRS_ALIVE)) + value)
    ensures repo.Var(HRS_WO_RESET) == WrapInt32(old(repo.Var(HRS_WO_RESET)) + value)
    ensures forall j: nat :: j < VARS && j != HRS_ALIVE && j != HRS_WO_RESET ==> repo.Var(j) == old(repo.Var(j))
  {
    var current := repo.Get(HRS_ALIVE);
    repo.Set(HRS_ALIVE, WrapInt32(current + value));
    current := repo.Get(HRS_WO_RESET);
    repo.Set(HRS_WO_RESET, WrapInt32(current + value));
  }

  // ------------------------------------------------------------------------------------
  // Whole missions.

  /** The counter, the stored phase, the seconds counter, and whether the last tick deployed. */
  datatype Mission = Mission(minutes: int32, phase: int32, elapsed: u32, deploys: bool)

  /** Before each tick, the executer has run some number of minute commands; the counter wraps. */
  function TickAfter(m: Mission, added: nat): Mission {
    var minutes, elapsed := WrapInt32(m.minutes + added), (m.elapsed + 1) % 0x1_0000_0000;
    var phase := PhaseAfter(m.phase, minutes);
    Mission(minutes, phase, elapsed, Deploys(phase, elapsed))
  }

  function Fly(m: Mission, added: seq<nat>): Mission {
    if added == [] then m else TickAfter(Fly(m, added[..|added| - 1]), added[|added| - 1])
  }

  /** The minutes added in all. */
  function Sum(added: seq<nat>): nat {
    if added == [] then 0 else Sum(added[..|added| - 1]) + added[|added| - 1]
  }

  function MissionOf(repo: Repo, elapsed: u32, deploys: bool): Mission
    requires repo.Valid()
    reads repo.buff
  {
    Mission(Value(repo.buff[..], HRS_ALIVE), Value(repo.buff[..], BALLOON_PHASE), elapsed, deploys)
  }

  lemma {:induction false} WrapTwice(a: int, b: int)
    ensures WrapInt32(WrapInt32(a) + b) == WrapInt32(a + b)
  {
    var q := if a % 0x1_0000_0000 < 0x8000_0000 then a / 0x1_0000_0000 else a / 0x1_0000_0000 + 1;
    assert WrapInt32(a) == a - q * 0x1_0000_0000;
  }

  /** The executer runs `n` minute commands. */
  method AddMinutes(repo: Repo, n: nat)
    requires repo.Valid()
    modifies repo.buff
    ensures repo.Var(HRS_ALIVE) == WrapInt32(old(repo.Var(HRS_ALIVE)) + n)
    ensures repo.Var(BALLOON_PHASE) == old(repo.Var(BALLOON_PHASE))
  {
    ghost var start: int32 := repo.Var(HRS_ALIVE);
    for i := 0 to n
      invariant repo.Var(HRS_ALIVE) == WrapInt32(start + i)
      invariant repo.Var(BALLOON_PHASE) == old(repo.Var(BALLOON_PHASE))
    {
      UpdateHoursAlive(repo, 1);
      WrapTwice(start + i, 1);
    }
  }

  /** A tick queued exactly the commands of its second and phase, in order. */
  ghost predicate QueuedAt(queued: seq<Command>, m: Mission) {
    InOrder(queued) && forall c :: c in queued <==> Falls(c, m.phase, m.elapsed)
  }

  /** Some minute commands and a tick are one step of the mission. */
  method MinutesAndTick(repo: Repo, elapsed: u32, added: nat, height: real, ghost m: Mission)
    returns (elapsed': u32, queued: seq<Command>)
    requires repo.Valid() && MissionOf(repo, elapsed, m.deploys) == m
    modifies repo.buff
    ensures MissionOf(repo, elapsed', TickAfter(m, added).deploys) == TickAfter(m, added)
    ensures OpenDpl in queued <==> TickAfter(m, added).deploys
    ensures QueuedAt(queued, TickAfter(m, added))
  {
    AddMinutes(repo, added);
    elapsed', queued := Tick(repo, elapsed, height);
  }

  /** A mission on the status repository: the task ticks and the executer runs minute commands in between.
      Repository and queued commands are those of `Fly`. */
  method RunMission(repo: Repo, elapsed: u32, added: seq<nat>, heights: seq<real>) returns (elapsed': u32, queued: seq<seq<Command>>)
    requires repo.Valid() && |heights| == |added|
    modifies repo.buff
    ensures |queued| == |added|
    ensures var start := old(MissionOf(repo, elapsed, false));
      && MissionOf(repo, elapsed', Fly(start, added).deploys) == Fly(start, added)
      && forall i :: 0 <= i < |added| ==>
        (OpenDpl in queued[i] <==> Fly(start, added[..i + 1]).deploys) && QueuedAt(queued[i], Fly(start, added[..i + 1]))
  {
    ghost var start := MissionOf(repo, elapsed, false);
    elapsed', queued := elapsed, [];
    for n := 0 to |added|
      invariant |queued| == n
      invariant MissionOf(repo, elapsed', Fly(start, added[..n]).deploys) == Fly(start, added[..n])
      invariant forall i :: 0 <= i < n ==>
        (OpenDpl in queued[i] <==> Fly(start, added[..i + 1]).deploys) && QueuedAt(queued[i], Fly(start, added[..i + 1]))
    {
      assert added[..n + 1][..n] == added[..n];
      var commands;
      elapsed', commands := MinutesAndTick(repo, elapsed', added[n], heights[n], Fly(start, added[..n]));
      queued := queued + [commands];
    }
    assert added[..|added|] == added;
  }

  // ------------------------------------------------------------------------------------
  // A whole flight, second by second.

  /** The seconds after which the phases A1, A, B, B1, B2, C and C1 begin. */
  const PHASE_STARTS: seq<nat> := [1260, 1620, 3660, 5760, 6120, 6480, 8340]

  /** The phase of a second: how many phases have begun before it. */
  function PhaseAt(second: nat, n: nat): nat
    requires n <= |PHASE_STARTS|
  {
    if n == 0 then 0 else PhaseAt(second, n - 1) + if PHASE_STARTS[n - 1] < second then 1 else 0
  }

  /** When open_dpl_1 is queued: every five minutes during the first 21 minutes, and every twenty seconds during the
      six minutes after the 96th. */
  predicate OpensAt(second: nat) {
    second > 0 && ((second % 300 == 0 && second <= 21 * 60) || (second % 20 == 0 && 96 * 60 < second <= 102 * 60))
  }

  lemma {:induction false} PhaseOfSecond(second: nat)
    requires second > 0
    ensures PhaseOf((second - 1) / 60) == PhaseAt(second, 7)
  {
    var m := (second - 1) / 60;
    assert 60 * m < second <= 60 * m + 60;
    assert PhaseAt(second, 2) == PhaseAt(second, 1) + if 1620 < second then 1 else 0;
    assert PhaseAt(second, 4) == PhaseAt(second, 3) + if 5760 < second then 1 else 0;
    assert PhaseAt(second, 6) == PhaseAt(second, 5) + if 6480 < second then 1 else 0;
  }

  lemma {:induction false} OpensBySecond(second: u32)
    requires second > 0
    ensures Deploys(PhaseOf((second - 1) / 60), second) <==> OpensAt(second)
  {
    var m := (second - 1) / 60;
    assert 60 * m < second <= 60 * m + 60;
  }

  /** A flight from a zeroed counter in which every minute command runs before the next tick: at exactly which
      seconds open_dpl_1 is queued, and which phase is stored at the end. */
  method FlyPromptly(repo: Repo, seconds: nat, heights: seq<real>) returns (openSeconds: seq<nat>)
    requires repo.Valid() && repo.Var(HRS_ALIVE) == 0 && seconds < 0x1_0000_0000 && |heights| == seconds
    modifies repo.buff
    ensures forall s :: s in openSeconds <==> 1 <= s <= seconds && OpensAt(s)
    ensures repo.Var(HRS_ALIVE) == seconds / 60
    ensures seconds > 0 ==> repo.Var(BALLOON_PHASE) == PhaseAt(seconds, 7)
  {
    var elapsed: u32 := 0;
    openSeconds := [];
    for i := 0 to seconds
      invariant elapsed == i && repo.Var(HRS_ALIVE) == i / 60
      invariant i > 0 ==> repo.Var(BALLOON_PHASE) == PhaseAt(i, 7)
      invariant forall s :: s in openSeconds <==> 1 <= s <= i && OpensAt(s)
    {
      PhaseOfSecond(i + 1);
      OpensBySecond(i + 1);
      var open;
      elapsed, open := PromptSecond(repo, elapsed, heights[i]);
      if open {
        openSeconds := openSeconds + [i + 1];
      }
    }
  }

  /** A tick, and the minute command it queues. */
  method PromptSecond(repo: Repo, elapsed: u32, height: real) returns (elapsed': u32, open: bool)
    requires repo.Valid() && elapsed < 0xFFFF_FFFF && repo.Var(HRS_ALIVE) == elapsed / 60
    modifies repo.buff
    ensures elapsed' == elapsed + 1 && repo.Var(HRS_ALIVE) == elapsed' / 60
    ensures repo.Var(BALLOON_PHASE) == PhaseOf(elapsed / 60)
    ensures open <==> Deploys(PhaseOf(elapsed / 60), elapsed')
  {
    var queued;
    elapsed', queued := Tick(repo, elapsed, height);
    open := OpenDpl in queued;
    if AddMinute in queued {
      UpdateHoursAlive(repo, 1);
    }
  }

  /** How often a sampling command falls due in the first `n` seconds. */
  function DueTimes(c: Command, n: u32): nat {
    if n == 0 then 0 else DueTimes(c, n - 1) + if Due(c, n) then 1 else 0
  }

  /** GPS and pressure are sampled and sun data is sent every ten seconds, the deployment is sampled every minute, a
      picture is sent every five minutes and the radio data every ten: GPS from second 1 on, pressure from second 4, and
      the others from the end of their first period. */
  function Rate(c: Command, n: nat): nat {
    match c
    case GetGps => (n + 9) / 10
    case GetPrs => (n + 6) / 10
    case GetDpl => n / 60
    case RunSstv => n / 300
    case SendXbee => n / 600
    case SendSun => n / 10
    case _ => 0
  }

  lemma {:induction false} SamplingRates(c: Command, n: u32)
    ensures DueTimes(c, n) == Rate(c, n)
  {
    if n > 0 {
      SamplingRates(c, n - 1);
      RateStep(c, n);
    }
  }

  lemma {:induction false} RateStep(c: Command, n: u32)
    requires n > 0
    ensures Rate(c, n) == Rate(c, n - 1) + if Due(c, n) then 1 else 0
  {
    match c
    case GetGps => Tens(n, 9);
    case GetPrs => Tens(n, 6);
    case GetDpl => Carry(n, 60);
    case RunSstv => Carry(n, 300);
    case SendXbee => Carry(n, 600);
    case SendSun => Carry(n, 10);
    case _ =>
  }

  lemma {:induction false} Tens(n: nat, lead: nat)
    requires n > 0 && 0 < lead < 10
    ensures (n + lead) / 10 == (n - 1 + lead) / 10 + if n % 10 == 10 - lead then 1 else 0
  {
    Carry(n + lead, 10);
  }

  lemma {:induction false} OneFewer(q: nat, per: nat, m: nat)
    requires m == q * per && m > 0
    ensures q > 0 && m - per == (q - 1) * per
  {}

  lemma {:induction false} Carry(m: nat, per: nat)
    requires m > 0 && per > 0
    ensures m / per == (m - 1) / per + if m % per == 0 then 1 else 0
  {
    var q, r := m / per, m % per;
    assert m == q * per + r;
    if r > 0 {
      QuotientIs(m - 1, per, q, r - 1);
    } else {
      OneFewer(q, per, m);
      QuotientIs(m - 1, per, q - 1, per - 1);
    }
  }

  lemma {:induction false} TickCounts(m: Mission, added: nat, minutes: int, elapsed: nat)
    requires m.minutes == WrapInt32(minutes) && m.elapsed == elapsed % 0x1_0000_0000
    ensures TickAfter(m, added).minutes == WrapInt32(minutes + added)
    ensures TickAfter(m, added).elapsed == (elapsed + 1) % 0x1_0000_0000
  {
    WrapTwice(minutes, added);
  }

  /** The counter's value and the seconds counter after a mission. */
  lemma {:induction false} FlyCounts(m: Mission, added: seq<nat>)
    ensures Fly(m, added).minutes == WrapInt32(m.minutes + Sum(added))
    ensures Fly(m, added).elapsed == (m.elapsed + |added|) % 0x1_0000_0000
  {
    if added != [] {
      var rest, last := added[..|added| - 1], added[|added| - 1];
      FlyCounts(m, rest);
      TickCounts(Fly(m, rest), last, m.minutes + Sum(rest), m.elapsed + |rest|);
    }
  }

  /** The stored phase is the one of the counter, or both are unset. */
  ghost predicate Current(m: Mission) {
    m.phase == PhaseOf(m.minutes) || Unset(m)
  }

  /** A first boot with persistent storage: counter and phase were never written. */
  ghost predicate Unset(m: Mission) {
    m.minutes == -1 == m.phase
  }

  /** A tick that does not wrap the counter moves the phase along, and one that does throws it back. */
  lemma {:induction false} TickCurrent(m: Mission, added: nat)
    requires Current(m)
    ensures m.minutes + added < 0x8000_0000 ==>
      && Current(TickAfter(m, added)) && TickAfter(m, added).minutes == m.minutes + added
      && (Unset(TickAfter(m, added)) <==> Unset(m) && added == 0)
    ensures m.minutes + added >= 0x8000_0000 && added <= 0x4000_0000 ==> TickAfter(m, added).phase < m.phase
  {}

  /** As long as the counter does not wrap, it counts up and the stored phase follows it. */
  lemma {:induction false} FlyCurrent(m: Mission, added: seq<nat>)
    requires Current(m) && m.minutes + Sum(added) < 0x8000_0000
    ensures Current(Fly(m, added)) && Fly(m, added).minutes == m.minutes + Sum(added)
    ensures Unset(Fly(m, added)) <==> Unset(m) && Sum(added) == 0
  {
    if added != [] {
      FlyCurrent(m, added[..|added| - 1]);
      TickCurrent(Fly(m, added[..|added| - 1]), added[|added| - 1]);
    }
  }

  lemma {:induction false} SumGrows(added: seq<nat>, k: nat)
    requires k <= |added|
    ensures Sum(added[..k]) <= Sum(added)
    decreases |added|
  {
    if k < |added| {
      var rest := added[..|added| - 1];
      assert rest[..k] == added[..k];
      SumGrows(rest, k);
    } else {
      assert added[..k] == added;
    }
  }

  /** Between two moments of a mission the phase did not go back, and from past minute 101 on nothing deploys. */
  ghost predicate MovedOn(now: Mission, later: Mission) {
    now.phase <= later.phase && (now.minutes > 101 ==> !later.deploys)
  }

  /** The phase never goes back, and once the counter is past 101 no tick deploys again. */
  ghost predicate MovesOn(m: Mission, added: seq<nat>) {
    forall j, k :: 0 <= j < k <= |added| ==> MovedOn(Fly(m, added[..j]), Fly(m, added[..k]))
  }

  lemma {:induction false} DeploysByPhase(m: Mission, added: seq<nat>)
    requires added != []
    ensures Fly(m, added).deploys <==> Deploys(Fly(m, added).phase, Fly(m, added).elapsed)
  {}

  lemma {:induction false} LaterMovedOn(now: Mission, later: Mission)
    requires Current(now) && Current(later) && now.minutes <= later.minutes && (Unset(later) ==> Unset(now))
    requires later.deploys <==> Deploys(later.phase, later.elapsed)
    ensures MovedOn(now, later)
  {}

  lemma {:induction false} PrefixMovedOn(m: Mission, before: seq<nat>, added: seq<nat>)
    requires Current(m) && m.minutes + Sum(added) < 0x8000_0000 && Sum(before) <= Sum(added) && added != []
    ensures MovedOn(Fly(m, before), Fly(m, added))
  {
    FlyCurrent(m, before);
    FlyCurrent(m, added);
    DeploysByPhase(m, added);
    LaterMovedOn(Fly(m, before), Fly(m, added));
  }

  lemma {:induction false} UnwrappedMovesOn(m: Mission, added: seq<nat>)
    requires Current(m) && m.minutes + Sum(added) < 0x8000_0000
    ensures MovesOn(m, added)
  {
    forall j, k | 0 <= j < k <= |added| ensures MovedOn(Fly(m, added[..j]), Fly(m, added[..k])) {
      SumGrows(added, k);
      assert added[..k][..j] == added[..j];
      SumGrows(added[..k], j);
      PrefixMovedOn(m, added[..j], added[..k]);
    }
  }

  /** The tick after `k` ticks throws the phase back. */
  ghost predicate FallsBack(m: Mission, added: seq<nat>, k: nat) {
    k < |added| && Fly(m, added[..k]).phase > Fly(m, added[..k + 1]).phase
  }

  lemma {:induction false} LastFallsBack(m: Mission, rest: seq<nat>, last: nat)
    requires Current(m) && m.minutes + Sum(rest) < 0x8000_0000 <= m.minutes + Sum(rest) + last && last <= 0x4000_0000
    ensures FallsBack(m, rest + [last], |rest|)
  {
    var added := rest + [last];
    FlyCurrent(m, rest);
    TickCurrent(Fly(m, rest), last);
    assert added[..|rest|] == rest && added[..|rest| + 1] == added;
  }

  /** The first tick that sees a wrapped counter throws the phase back. */
  lemma {:induction false} WrapGoesBack(m: Mission, added: seq<nat>) returns (k: nat)
    requires Current(m) && m.minutes + Sum(added) >= 0x8000_0000
    requires forall i :: 0 <= i < |added| ==> added[i] <= 0x4000_0000
    ensures FallsBack(m, added, k)
    decreases |added|
  {
    var n := |added| - 1;
    var rest := added[..n];
    if m.minutes + Sum(rest) >= 0x8000_0000 {
      k := WrapGoesBack(m, rest);
      assert rest[..k] == added[..k] && rest[..k + 1] == added[..k + 1];
    } else {
      k := n;
      LastFallsBack(m, rest, added[n]);
      assert added == rest + [added[n]];
    }
  }

  /** The phase never goes back and nothing deploys twice if and only if the 32-bit counter does not wrap;
      at most 2^30 minute commands run between two ticks. */
  lemma {:induction false} MissionMovesOn(m: Mission, added: seq<nat>)
    requires Current(m) && forall i :: 0 <= i < |added| ==> added[i] <= 0x4000_0000
    ensures MovesOn(m, added) <==> m.minutes + Sum(added) < 0x8000_0000
  {
    if m.minutes + Sum(added) < 0x8000_0000 {
      UnwrappedMovesOn(m, added);
    } else {
      var k := WrapGoesBack(m, added);
      assert !MovedOn(Fly(m, added[..k]), Fly(m, added[..k + 1]));
    }
  }

  /** dat_repo_init in RAM leaves the counter and the phase at the largest integer. The first tick then stores
      the landing phase; but once a minute command has run, the counter is negative, the phase is the
      first one, and the tick at five minutes deploys. */
  lemma {:induction false} BootValueWraps(boot: Mission, added: seq<nat>)
    requires boot.minutes == 0x7FFF_FFFF && boot.elapsed == 0
    requires |added| == 300 && 0 < Sum(added) < 0x8000_0000
    ensures Fly(boot, [0]).phase == PHASE_C1 && !Fly(boot, [0]).deploys
    ensures Fly(boot, added).phase == PHASE_A0 && Fly(boot, added).deploys
  {
    FlyCounts(boot, added);
    StoredPhase(boot, added);
    DeploysByPhase(boot, added);
    FlyOnce(boot, 0);
    hide Fly, Sum;
  }

  lemma {:induction false} FlyOnce(m: Mission, added: nat)
    ensures Fly(m, [added]) == TickAfter(m, added)
  {
    assert [added][..0] == [];
  }

  lemma {:induction false} StoredPhase(m: Mission, added: seq<nat>)
    requires added != []
    ensures Fly(m, added).minutes != -1 ==> Fly(m, added).phase == PhaseOf(Fly(m, added).minutes)
  {}

  /** No tick skips a phase if and only if at most six minute commands run between two ticks:
      the shortest phases last six minutes. */
  lemma {:induction false} SkipsNoPhase(added: nat)
    ensures (forall minutes: int :: minutes >= 0 ==> PhaseOf(minutes + added) <= PhaseOf(minutes) + 1) <==> added <= 6
  {
    if added > 6 {
      assert PhaseOf(20 + added) > PhaseOf(20) + 1;
    }
  }

  /** So on every mission whose counter does not wrap and whose executer keeps up that far,
      phases follow one another in order. */
  lemma {:induction false} PhasesInOrder(m: Mission, added: seq<nat>)
    requires Current(m) && added != [] && added[|added| - 1] <= 6 && m.minutes + Sum(added) < 0x8000_0000
    ensures var before, after := Fly(m, added[..|added| - 1]).phase, Fly(m, added).phase;
      before <= after <= before + 1
  {
    var rest := added[..|added| - 1];
    FlyCurrent(m, rest);
    TickCurrent(Fly(m, rest), added[|added| - 1]);
  }
}
