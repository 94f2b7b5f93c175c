/**
 The bookkeeping of process_work_item in src/collector.rs: failure counters, the
 choice of interval, and the next due time.
 */
module Polling {
  import opened ChangeDetection
  import opened Json
  import opened Models
  import opened Basics

  datatype Settings = Settings(
    online: nat,
    offline: nat,
    plugin: nat,
    failuresBeforeSlowdown: nat,
    slowdownMultiplier: real,
    maxSlow: nat,
    heartbeat: nat)

  function MaxReal(a: real, b: real): (r: real)
    ensures r >= a && r >= b && (r == a || r == b)
  {
    if a < b then b else a
  }

  function MinReal(a: real, b: real): (r: real)
    ensures r <= a && r <= b && (r == a || r == b)
  {
    if b < a then b else a
  }

  /** u32 addition of one, as in a release build. */
  function Increment(n: nat): nat {
    (n + 1) % U32_RANGE
  }

  function Count(c: FailureCounts, ok: bool): FailureCounts {
    if ok then c.(hasSucceeded := true, consecutiveFailures := 0)
    else c.(consecutiveFailures := Increment(c.consecutiveFailures),
            initialFailures := if c.hasSucceeded then c.initialFailures else Increment(c.initialFailures))
  }

  function Slowed(s: Settings): real {
    MinReal(MaxReal(s.offline as real * s.slowdownMultiplier, s.offline as real), s.maxSlow as real)
  }

  /** The slowed interval applies; comparing says that the poll only checks on a plugin. */
  predicate IsSlowed(s: Settings, comparing: bool, ok: bool, c: FailureCounts) {
    !comparing && !ok && !c.hasSucceeded && c.initialFailures >= s.failuresBeforeSlowdown
  }

  /** The interval chosen after the counters were updated. */
  function Interval(s: Settings, comparing: bool, ok: bool, c: FailureCounts): real {
    if comparing then s.plugin as real
    else if IsSlowed(s, comparing, ok, c) then Slowed(s)
    else if ok then s.online as real
    else s.offline as real
  }

  /** The due time, with a jitter drawn from -0.1 up to 0.1. */
  function DueAfter(now: real, interval: real, draw: real, floor: real): real {
    now + MaxReal(interval + draw * interval, floor)
  }

  predicate IsDraw(draw: real) {
    -0.1 <= draw < 0.1
  }

  // ---- Which interval a poll gets -------------------------------------------------------------

  /** Within a tenth of these seconds from now, but a second or more ahead. */
  predicate Near(due: real, now: real, seconds: real) {
    now + MaxReal(0.9 * seconds, 1.0) <= due <= now + MaxReal(1.1 * seconds, 1.0)
  }

  /** So many seconds, as configured, for the last of these outcomes: a poll that only
      checks on a plugin, one that was answered, one that failed, and one that failed
      like all before it, often enough. */
  predicate Chosen(s: Settings, comparing: bool, outcomes: seq<bool>, seconds: real)
    requires outcomes != []
  {
    var ok := outcomes[|outcomes| - 1];
    var givenUp := true !in outcomes && |outcomes| % 0x1_0000_0000 >= s.failuresBeforeSlowdown;
    && (comparing ==> seconds == s.plugin as real)
    && (!comparing && ok ==> seconds == s.online as real)
    && (!comparing && !ok && !givenUp ==> seconds == s.offline as real)
    && (!comparing && givenUp ==>
          seconds == MinReal(MaxReal(s.offline as real * s.slowdownMultiplier, s.offline as real), s.maxSlow as real))
  }

  lemma IntervalIsChosen(s: Settings, comparing: bool, before: seq<bool>, ok: bool, c: FailureCounts)
    requires Counts(c, before)
    ensures Chosen(s, comparing, before + [ok], Interval(s, comparing, ok, Count(c, ok)))
  {
    CountsSnoc(c, before, ok);
    LeadingSnoc(before + [ok], ok);
    assert (before + [ok])[|before|] == ok;
  }

  /** A poll that was answered or failed, as the last of all outcomes so far, is due again
      within a tenth of the seconds chosen for it. */
  ghost predicate DueAsChosen(s: Settings, comparing: bool, outcomes: seq<bool>, now: real, due: real)
    requires outcomes != []
  {
    exists seconds :: Chosen(s, comparing, outcomes, seconds) && Near(due, now, seconds)
  }

  lemma DueByOutcomes(s: Settings, comparing: bool, before: seq<bool>, ok: bool, c: FailureCounts, now: real,
                      draw: real)
    requires Counts(c, before) && IsDraw(draw)
    ensures var interval := Interval(s, comparing, ok, Count(c, ok));
            DueAsChosen(s, comparing, before + [ok], now, DueAfter(now, interval, draw, 1.0))
  {
    hide Counts, Count, Chosen;
    IntervalIsChosen(s, comparing, before, ok, c);
    RescheduleIsNear(s, comparing, ok, Count(c, ok), now, draw);
  }

  // ---- The update after a poll ------------------------------------------------------------

  /**
   The update under the lock after a poll: counters, interval, due time, event.
   The plugin flags are those read before the poll; before are the outcomes of all
   earlier polls of the server, which its counters count.
   */
  method FinishPoll(state: ServerState, s: Settings, pluginManaged: bool, fallback: bool, payload: Value, ok: bool,
                    now: real, draw: real, later: real, ghost before: seq<bool>)
    returns (due: real, out: Option<Value>)
    modifies state`hasSucceeded, state`initialFailures, state`consecutiveFailures, state`nextDue,
             state`hasEmittedState, state`lastEmittedUp, state`lastEmittedOnline, state`lastEmittedMaxPlayers,
             state`lastEmittedVersion, state`lastEmittedMotd, state`lastEmittedCountry,
             state`lastEmittedCountryCode, state`lastEmittedPlayersHash, state`lastEmittedAt
    ensures state.Counters() == Count(old(state.Counters()), ok)
    ensures state.nextDue == due
    ensures Counts(old(state.Counters()), before) ==> Counts(state.Counters(), before + [ok])
    ensures Counts(old(state.Counters()), before) && IsDraw(draw) ==>
              DueAsChosen(s, pluginManaged && !fallback, before + [ok], now, due)
    ensures due == DueAfter(now, Interval(s, pluginManaged && !fallback, ok, state.Counters()), draw, 1.0)
    ensures pluginManaged && !fallback && !ok ==> state.Emitted() == old(state.Emitted()) && out == None
    ensures !(pluginManaged && !fallback && !ok) ==>
              var poll := Poll(payload, ok, later, state.pluginManaged, state.pluginFallbackMode);
              var (last, event) := Step(old(state.Emitted()), poll, s.heartbeat as real);
              state.Emitted() == last && out == Rendered(state.serverId, poll, event)
  {
    hide Step, Interval, Count, Counts, Rendered, DueAfter, DueAsChosen;
    if Counts(state.Counters(), before) {
      CountsSnoc(state.Counters(), before, ok);
      if IsDraw(draw) {
        DueByOutcomes(s, pluginManaged && !fallback, before, ok, state.Counters(), now, draw);
      }
    }
    UpdateCounters(state, ok);
    var interval := ChooseInterval(state, s, pluginManaged && !fallback, ok);
    var jitter := draw * interval;
    due := now + MaxReal(interval + jitter, 1.0);
    assert due == DueAfter(now, interval, draw, 1.0) by {
      DueAfterMeans(now, interval, draw);
    }
    state.nextDue := due;
    if pluginManaged && !fallback && !ok {
      return due, None;
    }
    out := BuildChangePayload(state, payload, ok, later, s.heartbeat as real);
  }

  /** A plugin-managed server on an internal host is not polled, and looked at again
      about a plugin interval later, but a minute or more. */
  method SkipInternalHost(state: ServerState, s: Settings, now: real, draw: real) returns (due: real)
    modifies state`nextDue
    ensures state.nextDue == due
    ensures due == DueAfter(now, s.plugin as real, draw, 60.0)
    ensures IsDraw(draw) ==>
              now + MaxReal(0.9 * s.plugin as real, 60.0) <= due <= now + MaxReal(1.1 * s.plugin as real, 60.0)
  {
    var jitter := draw * s.plugin as real;
    due := now + MaxReal(s.plugin as real + jitter, 60.0);
    state.nextDue := due;
    if IsDraw(draw) {
      DueIsNearTheInterval(now, s.plugin as real, draw, 60.0);
    }
  }

  method UpdateCounters(state: ServerState, ok: bool)
    modifies state`hasSucceeded, state`initialFailures, state`consecutiveFailures
    ensures state.Counters() == Count(old(state.Counters()), ok)
  {
    if ok {
      state.hasSucceeded := true;
      state.consecutiveFailures := 0;
    } else {
      state.consecutiveFailures := Increment(state.consecutiveFailures);
      if !state.hasSucceeded {
        state.initialFailures := Increment(state.initialFailures);
      }
    }
  }

  method ChooseInterval(state: ServerState, s: Settings, comparing: bool, ok: bool) returns (interval: real)
    ensures interval == Interval(s, comparing, ok, state.Counters())
  {
    if comparing {
      return s.plugin as real;
    }
    interval := if ok then s.online as real else s.offline as real;
    if !ok && !state.hasSucceeded && state.initialFailures >= s.failuresBeforeSlowdown {
      var slowed := MaxReal(s.offline as real * s.slowdownMultiplier, s.offline as real);
      interval := MinReal(slowed, s.maxSlow as real);
    }
  }

  // ---- Whole runs --------------------------------------------------------------------------

  function CountAll(c: FailureCounts, outcomes: seq<bool>): FailureCounts
    decreases |outcomes|
  {
    if outcomes == [] then c else CountAll(Count(c, outcomes[0]), outcomes[1..])
  }

  /** Failures before the first success, and failures since the last. */
  function LeadingFailures(outcomes: seq<bool>): nat {
    if outcomes == [] || outcomes[0] then 0 else 1 + LeadingFailures(outcomes[1..])
  }

  function TrailingFailures(outcomes: seq<bool>): nat {
    if outcomes == [] || outcomes[|outcomes| - 1] then 0 else 1 + TrailingFailures(outcomes[..|outcomes| - 1])
  }

  lemma {:induction false} CountAllSnoc(c: FailureCounts, outcomes: seq<bool>, ok: bool)
    ensures CountAll(c, outcomes + [ok]) == Count(CountAll(c, outcomes), ok)
    decreases |outcomes|
  {
    if outcomes == [] {
      assert [ok][1..] == [];
    } else {
      assert (outcomes + [ok])[1..] == outcomes[1..] + [ok];
      CountAllSnoc(Count(c, outcomes[0]), outcomes[1..], ok);
    }
  }

  lemma {:induction false} LeadingSnoc(outcomes: seq<bool>, ok: bool)
    ensures LeadingFailures(outcomes + [ok]) ==
            if ok || true in outcomes then LeadingFailures(outcomes) else LeadingFailures(outcomes) + 1
    ensures true !in outcomes ==> LeadingFailures(outcomes) == |outcomes|
  {
    if outcomes == [] {
      assert [ok][1..] == [];
    } else if !outcomes[0] {
      assert (outcomes + [ok])[1..] == outcomes[1..] + [ok];
      assert outcomes == [outcomes[0]] + outcomes[1..];
      LeadingSnoc(outcomes[1..], ok);
    }
  }

  /** The counters hold these numbers, as u32. */
  predicate Counts(c: FailureCounts, outcomes: seq<bool>) {
    && (c.hasSucceeded <==> true in outcomes)
    && c.initialFailures == LeadingFailures(outcomes) % U32_RANGE
    && c.consecutiveFailures == TrailingFailures(outcomes) % U32_RANGE
  }

  lemma CountsNothing()
    ensures Counts(NEVER_POLLED, [])
  {
  }

  lemma CountsSnoc(c: FailureCounts, before: seq<bool>, ok: bool)
    requires Counts(c, before)
    ensures Counts(Count(c, ok), before + [ok])
  {
    hide LeadingFailures, TrailingFailures;
    LeadingSnoc(before, ok);
    TrailingSnoc(before, ok);
    WrapsOnce(LeadingFailures(before));
    WrapsOnce(TrailingFailures(before));
  }

  lemma TrailingSnoc(outcomes: seq<bool>, ok: bool)
    ensures TrailingFailures(outcomes + [ok]) == if ok then 0 else TrailingFailures(outcomes) + 1
  {
    assert (outcomes + [ok])[..|outcomes|] == outcomes;
  }

  lemma WrapsOnce(n: nat)
    ensures (n % U32_RANGE + 1) % U32_RANGE == (n + 1) % U32_RANGE
  {
  }

  /**
   What the counters count, over any run: whether any poll succeeded, the
   failures before the first success, and those since the last, as u32.
   */
  lemma {:induction false} CountersCount(outcomes: seq<bool>)
    ensures Counts(CountAll(NEVER_POLLED, outcomes), outcomes)
    decreases |outcomes|
  {
    hide Counts, Count;
    if outcomes != [] {
      var n := |outcomes| - 1;
      var before, ok := outcomes[..n], outcomes[n];
      assert outcomes == before + [ok];
      CountersCount(before);
      CountAllSnoc(NEVER_POLLED, before, ok);
      CountsSnoc(CountAll(NEVER_POLLED, before), before, ok);
    } else {
      CountsNothing();
    }
  }

  /** While a server has never answered, both counters are the number of polls, as u32. */
  lemma NeverAnswered(outcomes: seq<bool>)
    requires true !in outcomes
    ensures var c := CountAll(NEVER_POLLED, outcomes);
            c.initialFailures == c.consecutiveFailures == |outcomes| % 0x1_0000_0000 && !c.hasSucceeded
  {
    CountersCount(outcomes);
    LeadingSnoc(outcomes, false);
    AllTrailing(outcomes);
  }

  lemma {:induction false} AllTrailing(outcomes: seq<bool>)
    requires true !in outcomes
    ensures TrailingFailures(outcomes) == |outcomes|
  {
    if outcomes != [] {
      AllTrailing(outcomes[..|outcomes| - 1]);
    }
  }

  /** After a first success, the initial count is frozen and no poll is slowed. */
  lemma {:induction false} FrozenAfterSuccess(c: FailureCounts, outcomes: seq<bool>, s: Settings, comparing: bool,
                                              ok: bool)
    requires c.hasSucceeded
    ensures var c' := CountAll(c, outcomes);
            c'.hasSucceeded && c'.initialFailures == c.initialFailures && !IsSlowed(s, comparing, ok, c')
    decreases |outcomes|
  {
    if outcomes != [] {
      FrozenAfterSuccess(Count(c, outcomes[0]), outcomes[1..], s, comparing, ok);
    }
  }

  /** Exactly when a poll is slowed, over any run: it does not only compare, it and all
      polls before it failed, and there were enough of them, counted as u32. */
  lemma SlowedExactlyWhen(outcomes: seq<bool>, s: Settings, comparing: bool)
    requires outcomes != []
    ensures IsSlowed(s, comparing, outcomes[|outcomes| - 1], CountAll(NEVER_POLLED, outcomes)) <==>
            !comparing && true !in outcomes && |outcomes| % 0x1_0000_0000 >= s.failuresBeforeSlowdown
  {
    CountersCount(outcomes);
    if true !in outcomes {
      NeverAnswered(outcomes);
    }
  }

  /** Slowing down does slow down, exactly when its cap is not below the offline interval. */
  lemma SlowdownSlows(s: Settings)
    ensures Slowed(s) >= s.offline as real <==> s.maxSlow >= s.offline
  {
    var stretched := MaxReal(s.offline as real * s.slowdownMultiplier, s.offline as real);
    assert stretched >= s.offline as real;
    assert MinReal(stretched, s.maxSlow as real) >= s.offline as real <==> s.maxSlow as real >= s.offline as real;
    assert s.maxSlow as real >= s.offline as real <==> s.maxSlow >= s.offline;
  }

  /** Every reschedule lies within a tenth of the interval, but a second or more ahead. */
  lemma DueIsNearTheInterval(now: real, interval: real, draw: real, floor: real)
    requires IsDraw(draw) && interval >= 0.0
    ensures now + MaxReal(0.9 * interval, floor) <= DueAfter(now, interval, draw, floor)
                                                 <= now + MaxReal(1.1 * interval, floor)
  {
    assert -0.1 * interval <= draw * interval <= 0.1 * interval;
  }

  lemma DueAfterMeans(now: real, interval: real, draw: real)
    ensures DueAfter(now, interval, draw, 1.0) == now + MaxReal(interval + draw * interval, 1.0)
  {
  }

  /** Where the floor does not bind, draws spread the due times over the interval. */
  lemma DrawsSpread(now: real, interval: real, draw: real, other: real, floor: real)
    requires floor <= interval + draw * interval && floor <= interval + other * interval
    ensures DueAfter(now, interval, other, floor) - DueAfter(now, interval, draw, floor) == (other - draw) * interval
    ensures floor <= interval ==> DueAfter(now, interval, 0.0, floor) == now + interval
  {
  }

  lemma IntervalIsNotNegative(s: Settings, comparing: bool, ok: bool, c: FailureCounts)
    ensures Interval(s, comparing, ok, c) >= 0.0
  {
  }

  /** So every completed poll reschedules near whatever interval was chosen. */
  lemma RescheduleIsNear(s: Settings, comparing: bool, ok: bool, c: FailureCounts, now: real, draw: real)
    requires IsDraw(draw)
    ensures var interval := Interval(s, comparing, ok, c);
            now + MaxReal(0.9 * interval, 1.0) <= DueAfter(now, interval, draw, 1.0)
                                               <= now + MaxReal(1.1 * interval, 1.0)
  {
    IntervalIsNotNegative(s, comparing, ok, c);
    DueIsNearTheInterval(now, Interval(s, comparing, ok, c), draw, 1.0);
  }
}
