/** osDelay.c on Linux: a periodic delay on a 32-bit microsecond clock that wraps around every 71 minutes. */
module Delay {
  import opened Bytes

  /** osTaskGetTickCount when the monotonic clock shows `now` microseconds. */
  function Ticks(now: nat): u32 { now % 0x1_0000_0000 }

  /** a - b in 32-bit unsigned arithmetic */
  function Minus(a: u32, b: u32): u32 { (a - b) % 0x1_0000_0000 }

  /** osDefineTime */
  function Period(mseconds: u32): u32 { mseconds * 1000 % 0x1_0000_0000 }

  /** That is 1000 microseconds for each millisecond, up to 4294967 of them; one more and 32 bits keep 704. */
  lemma {:induction false} PeriodExactly(mseconds: u32)
    ensures Period(mseconds) == 1000 * mseconds <==> mseconds <= 4294967
    ensures Period(4294968) == 704
  {}

  /** The milliseconds that osTaskDelayUntil sleeps when it reads the clock at `now`. */
  function SleepTime(lastTime: u32, mseconds: u32, now: nat): nat {
    var d, s := Minus(Ticks(now), lastTime), Period(mseconds);
    if d > s then 0 else (s - d) / 1000
  }

  /** osTaskDelayUntil. The clock shows `now` at its first reading and `later` at its second,
      and a sleep lasts at least as long as asked for. */
  method TaskDelayUntil(lastTime: u32, mseconds: u32, now: nat, later: nat) returns (newLast: u32)
    requires later >= now + SleepTime(lastTime, mseconds, now) * 1000
    ensures newLast == LastTimeAfter(lastTime, mseconds, now, later)
    ensures forall last: nat :: lastTime == Ticks(last) && last <= now < last + 0x1_0000_0000 ==>
      var next := IdealAfter(last, Period(mseconds), now, later);
      && 0 <= next <= later && newLast == Ticks(next) && next >= last + Period(mseconds) - 999
  {
    forall last: nat | lastTime == Ticks(last) && last <= now < last + 0x1_0000_0000
      ensures var next := IdealAfter(last, Period(mseconds), now, later);
        && 0 <= next <= later && LastTimeAfter(lastTime, mseconds, now, later) == Ticks(next)
        && next >= last + Period(mseconds) - 999
    {
      DelayStep(last, mseconds, now, later);
    }
    var c := Ticks(now);
    var d := Minus(c, lastTime);
    var s := Period(mseconds);
    if d > s {
      newLast := Minus(Ticks(later), d - s);
      return;
    }
    newLast := Ticks(later);
  }

  function LastTimeAfter(lastTime: u32, mseconds: u32, now: nat, later: nat): u32 {
    var d, s := Minus(Ticks(now), lastTime), Period(mseconds);
    if d > s then Minus(Ticks(later), d - s) else Ticks(later)
  }

  /** The same on an ideal clock that never wraps. */
  function IdealAfter(last: nat, period: nat, now: nat, later: nat): int {
    if now - last > period then later - (now - last - period) else later
  }

  lemma {:induction false} MinusTicks(a: nat, b: nat)
    requires b <= a < b + 0x1_0000_0000
    ensures Minus(Ticks(a), Ticks(b)) == a - b
  {}

  /** One call: the wrapping computation follows the ideal one, the tag never lies in the future; an overloaded
      call moves it by the period and the time between its two clock readings, any other to its second reading,
      and every call by at least the period less the 999 microseconds that rounding to milliseconds may lose. It asks for no
      longer sleep than the period leaves. */
  lemma {:induction false} DelayStep(last: nat, mseconds: u32, now: nat, later: nat)
    requires last <= now < last + 0x1_0000_0000
    requires later >= now + SleepTime(Ticks(last), mseconds, now) * 1000
    ensures var next := IdealAfter(last, Period(mseconds), now, later);
      && 0 <= next && LastTimeAfter(Ticks(last), mseconds, now, later) == Ticks(next)
      && next <= later && next >= last + Period(mseconds) - 999
      && next == (if now - last > Period(mseconds) then last + Period(mseconds) + (later - now) else later)
      && (mseconds <= 4294967 ==> next >= last + 1000 * mseconds - 999)
    ensures now - last <= Period(mseconds) ==>
      last + Period(mseconds) - 999 <= now + SleepTime(Ticks(last), mseconds, now) * 1000 <= last + Period(mseconds)
  {
    PeriodExactly(mseconds);
    MinusTicks(now, last);
    var d, s := now - last, Period(mseconds);
    if d > s {
      MinusTicksShift(later, d - s);
    }
  }

  lemma {:induction false} MinusTicksShift(a: nat, b: u32)
    requires b <= a
    ensures Minus(Ticks(a), b) == Ticks(a - b)
  {}

  /** The clock readings of one call. */
  datatype Call = Call(now: nat, later: nat)

  /** The tag after a series of calls. */
  function LastTime(lastTime: u32, mseconds: u32, calls: seq<Call>): u32 {
    if calls == [] then lastTime
    else
      var rest, c := calls[..|calls| - 1], calls[|calls| - 1];
      LastTimeAfter(LastTime(lastTime, mseconds, rest), mseconds, c.now, c.later)
  }

  function IdealLast(last: nat, period: nat, calls: seq<Call>): int {
    if calls == [] then last
    else
      var rest, c := calls[..|calls| - 1], calls[|calls| - 1];
      var l := IdealLast(last, period, rest);
      if l < 0 then l else IdealAfter(l, period, c.now, c.later)
  }

  /** Calls follow one another on a clock that only moves forward, sleeps last long enough, and
      less than one wrap of the counter passes between a tag and the next call. */
  ghost predicate Timely(last: nat, mseconds: u32, calls: seq<Call>) {
    calls == [] ||
    (var rest, c := calls[..|calls| - 1], calls[|calls| - 1];
     var l := IdealLast(last, Period(mseconds), rest);
     && Timely(last, mseconds, rest)
     && (rest != [] ==> rest[|rest| - 1].later <= c.now)
     && l <= c.now < l + 0x1_0000_0000
     && (0 <= l ==> c.later >= c.now + SleepTime(Ticks(l), mseconds, c.now) * 1000))
  }

  /** How far `n` calls are sure to move the tag. */
  function Advance(period: int, n: int): int { n * (period - 999) }

  lemma {:induction false} AdvanceStep(period: int, n: int)
    ensures Advance(period, n + 1) == Advance(period, n) + period - 999
  {}

  /** After n calls the tag has moved on by at least n periods less 999 microseconds each, although
      the machine only ever sees it modulo 2^32. */
  lemma {:induction false} PeriodicDelay(last: nat, mseconds: u32, calls: seq<Call>)
    requires Timely(last, mseconds, calls)
    ensures var l := IdealLast(last, Period(mseconds), calls);
      && 0 <= l && LastTime(Ticks(last), mseconds, calls) == Ticks(l)
      && (calls != [] ==> l <= calls[|calls| - 1].later)
      && l >= last + Advance(Period(mseconds), |calls|)
      && (mseconds <= 4294967 ==> l >= last + |calls| * (1000 * mseconds - 999))
  {
    PeriodExactly(mseconds);
    if calls != [] {
      var rest, c := calls[..|calls| - 1], calls[|calls| - 1];
      PeriodicDelay(last, mseconds, rest);
      DelayStep(IdealLast(last, Period(mseconds), rest), mseconds, c.now, c.later);
      AdvanceStep(Period(mseconds), |rest|);
    }
  }
}
