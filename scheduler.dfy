/**
  The regeneration scheduler of the firmware's `loop()` function.

  Every pass of the host loop reads the real-time clock, fires a TOTP
  regeneration (`generate_totps` followed by `refresh_totp_labels`) when the
  millisecond-of-hour reading has reached `nextTrigger`, and fires a countdown
  refresh (`refresh_counter_bars`) whenever the second-of-minute differs from
  the one seen on the previous pass. The three callees are opaque here: a pass
  only reports which of them it called.

  The clock reading is built from the minute and the second only, so it lies
  in [0, 3599000]. After a regeneration in the last 30-second slot of an hour
  `nextTrigger` becomes 3600000, which no later reading reaches: the lemmas
  `LastSlotStalls`, `StalledForever` and `LifetimeRegenerations` below state
  this behaviour of the code as written.
 */
module Scheduler {

  /** `TOTP_PERIOD`: the regeneration period in milliseconds. */
  const TOTP_PERIOD: nat := 30000

  /** One hour in milliseconds; every clock reading lies below it. */
  const HOUR_MS: nat := 3600000

  /** A value that the RTC's `getMinute()` or `getSecond()` returns. */
  predicate IsClockField(x: int) {
    0 <= x < 60
  }

  /**
    The three clock reads of one pass of `loop()`: the minute and second that
    form `now`, and the second read again for the countdown edge.
   */
  datatype Reading = Reading(minute: int, second: int, counterSecond: int)

  predicate ValidReading(r: Reading) {
    IsClockField(r.minute) && IsClockField(r.second) && IsClockField(r.counterSecond)
  }

  /** The persistent statics of `loop()`. */
  datatype State = State(nextTrigger: nat, previousSecond: nat)

  /** Which opaque callees one pass invoked. */
  datatype Events = Events(regenerate: bool, refreshCounter: bool)

  datatype TickResult = TickResult(state: State, events: Events)

  datatype RunResult = RunResult(final: State, events: seq<Events>)

  /** Both statics are zero-initialised. */
  function Initial(): State {
    State(0, 0)
  }

  /**
    The invariant every reachable state keeps: `nextTrigger` is on a period
    boundary no later than the end of the hour, and `previousSecond` is a
    second-of-minute.
   */
  predicate Valid(s: State) {
    s.nextTrigger % TOTP_PERIOD == 0 && s.nextTrigger <= HOUR_MS && s.previousSecond < 60
  }

  /** `now`: milliseconds since the start of the current hour. */
  function ClockReading(minute: int, second: int): (now: nat)
    requires IsClockField(minute) && IsClockField(second)
    ensures now % 1000 == 0 && now < HOUR_MS
    ensures now / 60000 == minute && (now / 1000) % 60 == second
  {
    (minute * 60 + second) * 1000
  }

  /** The `now` of the pass that took reading `r`. */
  function Now(r: Reading): nat
    requires ValidReading(r)
  {
    ClockReading(r.minute, r.second)
  }

  /** The 30-second slot of the hour a reading falls in. */
  function Slot(r: Reading): nat
    requires ValidReading(r)
  {
    Now(r) / TOTP_PERIOD
  }

  /** The trigger set after a regeneration at `now`: the next period boundary. */
  function NextTrigger(now: nat): (t: nat)
    ensures t % TOTP_PERIOD == 0
    ensures now < t <= now + TOTP_PERIOD
  {
    ((now / TOTP_PERIOD) + 1) * TOTP_PERIOD
  }

  /**
    One pass of `loop()` on the statics `s`. Afterwards the reading just taken
    lies below `nextTrigger`, which never moves backwards, and `previousSecond`
    holds the second just read.
   */
  function Step(s: State, r: Reading): (t: TickResult)
    requires ValidReading(r)
    ensures Now(r) < t.state.nextTrigger
    ensures s.nextTrigger <= t.state.nextTrigger
    ensures t.state.previousSecond == r.counterSecond
  {
    var now := Now(r);
    var fire := now >= s.nextTrigger;
    var refresh := r.counterSecond != s.previousSecond;
    TickResult(
      State(if fire then NextTrigger(now) else s.nextTrigger,
            if refresh then r.counterSecond else s.previousSecond),
      Events(fire, refresh))
  }

  predicate AllValid(rs: seq<Reading>) {
    forall i :: 0 <= i < |rs| ==> ValidReading(rs[i])
  }

  /** Successive passes of `loop()`, one per reading, from `s`. */
  function Run(s: State, rs: seq<Reading>): (r: RunResult)
    requires AllValid(rs)
    ensures |r.events| == |rs|
    decreases |rs|
  {
    if rs == [] then RunResult(s, [])
    else
      var t := Step(s, rs[0]);
      var rest := Run(t.state, rs[1..]);
      RunResult(rest.final, [t.events] + rest.events)
  }

  /** How many passes regenerated. */
  function Regenerations(es: seq<Events>): nat
    decreases |es|
  {
    if es == [] then 0 else (if es[0].regenerate then 1 else 0) + Regenerations(es[1..])
  }

  /** The statics as a class, updated in place by each pass. */
  class RegenerationScheduler {
    var nextTrigger: nat
    var previousSecond: nat

    function Current(): State
      reads this
    {
      State(nextTrigger, previousSecond)
    }

    constructor ()
      ensures Current() == Initial() && Valid(Current())
    {
      nextTrigger := 0;
      previousSecond := 0;
    }

    /** One pass of `loop()`; returns which opaque callees it invoked. */
    method Tick(minute: int, second: int, counterSecond: int) returns (ev: Events)
      requires IsClockField(minute) && IsClockField(second) && IsClockField(counterSecond)
      modifies this
      ensures ev.regenerate <==> ClockReading(minute, second) >= old(nextTrigger)
      ensures nextTrigger == if ev.regenerate then NextTrigger(ClockReading(minute, second)) else old(nextTrigger)
      ensures ev.refreshCounter <==> counterSecond != old(previousSecond)
      ensures previousSecond == counterSecond
      ensures TickResult(Current(), ev) == Step(old(Current()), Reading(minute, second, counterSecond))
      ensures old(Valid(Current())) ==> Valid(Current())
    {
      var now := ClockReading(minute, second);
      var regenerate := false;
      if now >= nextTrigger {
        regenerate := true;
        nextTrigger := NextTrigger(now);
      }
      var refreshCounter := false;
      var currentSecond := counterSecond;
      if currentSecond != previousSecond {
        refreshCounter := true;
        previousSecond := currentSecond;
      }
      ev := Events(regenerate, refreshCounter);
      if old(Valid(Current())) {
        StepPreservesValid(old(Current()), Reading(minute, second, counterSecond));
      }
    }
  }

  /** With `nextTrigger` zero, the first pass regenerates at any clock reading. */
  lemma FirstTickRegenerates(r: Reading)
    requires ValidReading(r)
    ensures Step(Initial(), r).events.regenerate
    ensures Step(Initial(), r).state.nextTrigger == NextTrigger(Now(r))
  {
  }

  /** A pass keeps the state invariant. */
  lemma StepPreservesValid(s: State, r: Reading)
    requires Valid(s) && ValidReading(r)
    ensures Valid(Step(s, r).state)
  {
  }

  /**
    A regeneration moves `nextTrigger` forward by at least one period; without
    one it stays where it was.
   */
  lemma StepAdvancesTrigger(s: State, r: Reading)
    requires Valid(s) && ValidReading(r)
    ensures Step(s, r).events.regenerate ==> s.nextTrigger + TOTP_PERIOD <= Step(s, r).state.nextTrigger
    ensures !Step(s, r).events.regenerate ==> Step(s, r).state.nextTrigger == s.nextTrigger
  {
    if Now(r) >= s.nextTrigger {
      assert s.nextTrigger / TOTP_PERIOD <= Now(r) / TOTP_PERIOD;
    }
  }

  /**
    After a regeneration at `r1`, the next pass at `r2` regenerates exactly
    when `r2` lies in a later 30-second slot of the hour: never twice in one
    slot, and at once on entering a later one.
   */
  lemma RegeneratesOncePerSlot(s: State, r1: Reading, r2: Reading)
    requires ValidReading(r1) && ValidReading(r2)
    requires Step(s, r1).events.regenerate
    ensures Step(Step(s, r1).state, r2).events.regenerate <==> Slot(r2) > Slot(r1)
  {
  }

  /** Pass `k` of a run is pass `k - 1` of the run from the state after the first pass. */
  lemma RunEventsTail(s: State, rs: seq<Reading>, k: nat)
    requires AllValid(rs) && k < |rs|
    ensures AllValid(rs[1..])
    ensures k == 0 ==> Run(s, rs).events[k] == Step(s, rs[0]).events
    ensures k > 0 ==> Run(s, rs).events[k] == Run(Step(s, rs[0]).state, rs[1..]).events[k - 1]
    ensures k > 0 ==> rs[1..][k - 1] == rs[k]
  {
  }

  /**
    A regenerating pass of a run reads a clock at or past the `nextTrigger` the
    run started from: no pass moves `nextTrigger` backwards.
   */
  lemma {:induction false} RegenerationReachesTrigger(s: State, rs: seq<Reading>, k: nat)
    requires AllValid(rs) && k < |rs|
    requires Run(s, rs).events[k].regenerate
    ensures Now(rs[k]) >= s.nextTrigger
    decreases k
  {
    if k > 0 {
      var t := Step(s, rs[0]);
      RunEventsTail(s, rs, k);
      RegenerationReachesTrigger(t.state, rs[1..], k - 1);
    }
  }

  /**
    While no pass of a run has regenerated, `nextTrigger` is still the one the
    run started from, so pass `k` regenerates exactly when its reading has
    reached that value.
   */
  lemma {:induction false} QuietRunWaitsForTrigger(s: State, rs: seq<Reading>, k: nat)
    requires AllValid(rs) && k < |rs|
    requires forall m :: 0 <= m < k ==> !Run(s, rs).events[m].regenerate
    ensures Run(s, rs).events[k].regenerate <==> Now(rs[k]) >= s.nextTrigger
    decreases k
  {
    RunEventsTail(s, rs, 0);
    if k > 0 {
      var t := Step(s, rs[0]);
      RunEventsTail(s, rs, k);
      forall m | 0 <= m < k - 1 ensures !Run(t.state, rs[1..]).events[m].regenerate {
        RunEventsTail(s, rs, m + 1);
      }
      QuietRunWaitsForTrigger(t.state, rs[1..], k - 1);
    }
  }

  /** Two regenerating passes of a run lie in strictly increasing 30-second slots. */
  lemma {:induction false} NoTwoRegenerationsInOneSlot(s: State, rs: seq<Reading>, i: nat, j: nat)
    requires AllValid(rs) && i < j < |rs|
    requires Run(s, rs).events[i].regenerate && Run(s, rs).events[j].regenerate
    ensures Slot(rs[i]) < Slot(rs[j])
    decreases i
  {
    var t := Step(s, rs[0]);
    RunEventsTail(s, rs, i);
    RunEventsTail(s, rs, j);
    if i == 0 {
      RegenerationReachesTrigger(t.state, rs[1..], j - 1);
    } else {
      NoTwoRegenerationsInOneSlot(t.state, rs[1..], i - 1, j - 1);
    }
  }

  /**
    After a regenerating pass `i` of a run, the first later pass `j` to
    regenerate is the first whose reading lies in a later 30-second slot than
    pass `i`'s: while the passes in between did not regenerate, pass `j`
    regenerates exactly when its slot is later.
   */
  lemma {:induction false} NextRegenerationOnLaterSlot(s: State, rs: seq<Reading>, i: nat, j: nat)
    requires AllValid(rs) && i < j < |rs|
    requires Run(s, rs).events[i].regenerate
    requires forall m :: i < m < j ==> !Run(s, rs).events[m].regenerate
    ensures Run(s, rs).events[j].regenerate <==> Slot(rs[i]) < Slot(rs[j])
    decreases i
  {
    var t := Step(s, rs[0]);
    RunEventsTail(s, rs, i);
    RunEventsTail(s, rs, j);
    forall m | i - 1 < m < j - 1 ensures !Run(t.state, rs[1..]).events[m].regenerate {
      RunEventsTail(s, rs, m + 1);
    }
    if i == 0 {
      QuietRunWaitsForTrigger(t.state, rs[1..], j - 1);
    } else {
      NextRegenerationOnLaterSlot(t.state, rs[1..], i - 1, j - 1);
    }
  }

  /**
    A pass in the last slot of the hour (minute 59, second 30 or later) leaves
    `nextTrigger` at 3600000, whether or not it regenerated.
   */
  lemma LastSlotStalls(s: State, r: Reading)
    requires Valid(s) && ValidReading(r)
    requires Now(r) >= HOUR_MS - TOTP_PERIOD
    ensures Step(s, r).state.nextTrigger == HOUR_MS
  {
  }

  /** Once `nextTrigger` has reached the end of the hour, no later pass regenerates. */
  lemma {:induction false} StalledForever(s: State, rs: seq<Reading>)
    requires AllValid(rs)
    requires s.nextTrigger >= HOUR_MS
    ensures Run(s, rs).final.nextTrigger == s.nextTrigger
    ensures forall i :: 0 <= i < |rs| ==> !Run(s, rs).events[i].regenerate
    decreases |rs|
  {
    if rs != [] {
      var t := Step(s, rs[0]);
      assert !t.events.regenerate;
      AllValidTail(rs);
      StalledForever(t.state, rs[1..]);
      forall i | 0 <= i < |rs| ensures !Run(s, rs).events[i].regenerate {
        if i > 0 {
          assert Run(s, rs).events[i] == Run(t.state, rs[1..]).events[i - 1];
        }
      }
    }
  }

  lemma AllValidTail(rs: seq<Reading>)
    requires AllValid(rs) && rs != []
    ensures AllValid(rs[1..])
  {
  }

  /**
    From a valid state, each regeneration costs one period of the distance
    between `nextTrigger` and the end of the hour.
   */
  lemma {:induction false} RegenerationsBounded(s: State, rs: seq<Reading>)
    requires Valid(s) && AllValid(rs)
    ensures Regenerations(Run(s, rs).events) * TOTP_PERIOD <= HOUR_MS - s.nextTrigger
    ensures Valid(Run(s, rs).final)
    decreases |rs|
  {
    if rs != [] {
      var t := Step(s, rs[0]);
      StepPreservesValid(s, rs[0]);
      StepAdvancesTrigger(s, rs[0]);
      AllValidTail(rs);
      RegenerationsBounded(t.state, rs[1..]);
      var es := Run(s, rs).events;
      assert es[1..] == Run(t.state, rs[1..]).events;
    }
  }

  /**
    From power-on, `loop()` regenerates at most 120 times in total, however
    long the device runs: at most once per 30-second slot of the first hour.
   */
  lemma LifetimeRegenerations(rs: seq<Reading>)
    requires AllValid(rs)
    ensures Regenerations(Run(Initial(), rs).events) <= HOUR_MS / TOTP_PERIOD
  {
    RegenerationsBounded(Initial(), rs);
  }

  /**
    The countdown refresh of pass `k` fires exactly when its second differs
    from the second read on the pass before (from the initial
    `previousSecond` on the first pass).
   */
  lemma {:induction false} CounterRefreshOnSecondEdge(s: State, rs: seq<Reading>, k: nat)
    requires AllValid(rs) && k < |rs|
    ensures Run(s, rs).events[k].refreshCounter
        <==> rs[k].counterSecond != (if k == 0 then s.previousSecond else rs[k - 1].counterSecond)
    decreases k
  {
    var t := Step(s, rs[0]);
    if k > 0 {
      AllValidTail(rs);
      CounterRefreshOnSecondEdge(t.state, rs[1..], k - 1);
      assert Run(s, rs).events[k] == Run(t.state, rs[1..]).events[k - 1];
      assert rs[1..][k - 1] == rs[k];
      if k > 1 {
        assert rs[1..][k - 2] == rs[k - 1];
      }
    }
  }
}
