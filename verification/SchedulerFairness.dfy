/**
 Endless interleavings: as long as the scheduler task and the notifications get
 their turn, a due entry is popped, however the other tasks interleave with them.
 */
module SchedulerFairness {
  import opened Basics
  import opened SchedulerGuarantees
  import opened SchedulerModel

  /** An endless interleaving: acts(n) takes states(n) to states(n + 1). */
  ghost predicate Execution(states: nat -> State, acts: nat -> Action) {
    forall n: nat :: Enabled(states(n), acts(n)) && states(n + 1) == Next(states(n), acts(n))
  }

  /** The steps of the task that runs scheduler_loop, next_due included. */
  predicate OfScheduler(a: Action) {
    (IsOwn(a) && !a.Notify?) || a.Verify? || a.Enqueue?
  }

  ghost predicate CanMove(s: State) {
    exists a :: OfScheduler(a) && Enabled(s, a)
  }

  /** At m, the scheduler takes a step or has none to take. */
  ghost predicate SchedulerTurn(states: nat -> State, acts: nat -> Action, m: nat) {
    OfScheduler(acts(m)) || !CanMove(states(m))
  }

  /** At m, a notification is delivered or none is on its way. */
  predicate NotifyTurn(states: nat -> State, acts: nat -> Action, m: nat) {
    acts(m).Notify? || states(m).notifying == 0
  }

  ghost predicate TurnsCome(states: nat -> State, acts: nat -> Action, n: nat) {
    && (exists m :: m >= n && SchedulerTurn(states, acts, m))
    && (exists m :: m >= n && NotifyTurn(states, acts, m))
  }

  /** Both turns come again and again. */
  ghost predicate Fair(states: nat -> State, acts: nat -> Action) {
    forall n: nat :: TurnsCome(states, acts, n)
  }

  lemma {:induction false} InvariantsHold(states: nat -> State, acts: nat -> Action, n: nat)
    requires Execution(states, acts) && Init(states(0))
    ensures HeapInv(states(n)) && WakeInv(states(n))
  {
    hide HeapInv, WakeInv, Next, Enabled;
    if n == 0 {
      InitInv(states(0));
    } else {
      InvariantsHold(states, acts, n - 1);
      assert Enabled(states(n - 1), acts(n - 1));
      HeapInvKept(states(n - 1), acts(n - 1));
      WakeInvKept(states(n - 1), acts(n - 1));
    }
  }

  // ---- On the way to a pop -------------------------------------------------------------

  /** e waits in the heap and is due. */
  ghost predicate Ready(s: State, e: Entry) {
    HeapInv(s) && WakeInv(s) && e in s.heap && e.due <= s.clock
  }

  /** How many steps of the scheduler it is at most to the next pop, if e is due. */
  function Rank(s: State): nat {
    match s.phase
    case Popping => 1
    case Peeked(Some(top)) => if top.due <= s.clock then 2 else 5
    case Peeked(None) => 5
    case Peeking => 3
    case Popped(_, _) => 5
    case _ => 4
  }

  /** Not blocked, or with something to unblock it. */
  predicate Awake(s: State) {
    s.phase.Blocked() ==> s.permit || (s.phase.Sleeping? && s.phase.until <= s.clock)
  }

  lemma AwakeCanMove(s: State, e: Entry)
    requires Ready(s, e) && Awake(s)
    ensures CanMove(s)
  {
    TopExists(s.heap);
    var top :| IsTop(s.heap, top);
    assert top == e || Above(top, e);
    var a := match s.phase
      case Peeking => Peek(Some(top))
      case Peeked(_) => Decide
      case Popping => Pop(top)
      case Popped(_, _) => Verify
      case Sending(_) => Enqueue
      case _ => if s.permit then Wake else TimerFires;
    assert OfScheduler(a) && Enabled(s, a);
  }

  /** The step pops an entry that is due, no later than e. */
  predicate PopsBy(s: State, a: Action, e: Entry) {
    a.Pop? && a.entry.due <= s.clock && a.entry.due <= e.due
  }

  lemma OwnStepAdvances(s: State, a: Action, e: Entry)
    requires Ready(s, e) && OfScheduler(a) && Enabled(s, a)
    ensures PopsBy(s, a, e) || (Ready(Next(s, a), e) && Rank(Next(s, a)) < Rank(s))
  {
    hide HeapInv, WakeInv, Reconciled;
    HeapInvKept(s, a);
    WakeInvKept(s, a);
    if a.Peek? && a.top.Some? {
      assert a.top.value == e || Above(a.top.value, e);
    }
    if a.Pop? {
      assert a.entry == e || Above(a.entry, e);
    }
  }

  lemma OthersKeepReady(s: State, a: Action, e: Entry)
    requires Ready(s, e) && !OfScheduler(a) && Enabled(s, a)
    ensures var s' := Next(s, a);
            && Ready(s', e) && Rank(s') <= Rank(s) && (Awake(s) ==> Awake(s'))
            && (if a.Notify? then s'.permit && Awake(s') else s'.notifying >= s.notifying)
  {
    hide HeapInv, WakeInv, IsTop, Reconciled;
    HeapInvKept(s, a);
    WakeInvKept(s, a);
  }

  /** Between n and k an entry is popped, or at k the pop has come closer. */
  ghost predicate Advanced(states: nat -> State, acts: nat -> Action, n: nat, k: nat, e: Entry) {
    || (exists m: nat :: n <= m < k && PopsBy(states(m), acts(m), e))
    || (Ready(states(k), e) && Rank(states(k)) < Rank(states(n)))
  }

  lemma AdvancedLater(states: nat -> State, acts: nat -> Action, n: nat, k: nat, e: Entry)
    requires Advanced(states, acts, n + 1, k, e) && Rank(states(n + 1)) <= Rank(states(n))
    ensures Advanced(states, acts, n, k, e)
  {
    hide PopsBy, Ready, Rank;
  }

  lemma AdvancedNow(states: nat -> State, acts: nat -> Action, n: nat, e: Entry)
    requires PopsBy(states(n), acts(n), e) || (Ready(states(n + 1), e) && Rank(states(n + 1)) < Rank(states(n)))
    ensures Advanced(states, acts, n, n + 1, e)
  {
    hide PopsBy, Ready, Rank;
  }

  /** An awake scheduler takes a step of its own, by the m that fairness gives. */
  lemma {:induction false} MovesOn(states: nat -> State, acts: nat -> Action, n: nat, m: nat, e: Entry) returns (k: nat)
    requires Execution(states, acts) && Ready(states(n), e) && Awake(states(n))
    requires n <= m && SchedulerTurn(states, acts, m)
    ensures k > n && Advanced(states, acts, n, k, e)
    decreases m - n
  {
    hide Ready, Next, Enabled, CanMove, Awake, Rank, Advanced, PopsBy;
    assert Enabled(states(n), acts(n)) && states(n + 1) == Next(states(n), acts(n));
    AwakeCanMove(states(n), e);
    if OfScheduler(acts(n)) {
      OwnStepAdvances(states(n), acts(n), e);
      AdvancedNow(states, acts, n, e);
      k := n + 1;
    } else {
      OthersKeepReady(states(n), acts(n), e);
      k := MovesOn(states, acts, n + 1, m, e);
      AdvancedLater(states, acts, n, k, e);
    }
  }

  /** A notification on its way arrives, by the m that fairness gives. */
  lemma {:induction false} WakesUp(states: nat -> State, acts: nat -> Action, n: nat, m: nat, e: Entry)
    returns (done: bool, k: nat)
    requires Execution(states, acts) && Ready(states(n), e) && states(n).notifying > 0
    requires n <= m && NotifyTurn(states, acts, m)
    ensures k > n
    ensures if done then Advanced(states, acts, n, k, e)
            else Ready(states(k), e) && Awake(states(k)) && Rank(states(k)) <= Rank(states(n))
    decreases m - n
  {
    hide Ready, Next, Enabled, Awake, Rank, Advanced, PopsBy;
    assert Enabled(states(n), acts(n)) && states(n + 1) == Next(states(n), acts(n));
    if OfScheduler(acts(n)) {
      OwnStepAdvances(states(n), acts(n), e);
      AdvancedNow(states, acts, n, e);
      done, k := true, n + 1;
    } else {
      OthersKeepReady(states(n), acts(n), e);
      if acts(n).Notify? {
        done, k := false, n + 1;
      } else {
        done, k := WakesUp(states, acts, n + 1, m, e);
        if done {
          AdvancedLater(states, acts, n, k, e);
        }
      }
    }
  }

  /** A blocked scheduler with e due has a notification coming. */
  lemma AsleepIsNotified(s: State, e: Entry)
    requires Ready(s, e) && !Awake(s)
    ensures s.notifying > 0
  {
    DueIsNotSleptThrough(s, e);
  }

  lemma AdvancedSince(states: nat -> State, acts: nat -> Action, n: nat, awake: nat, k: nat, e: Entry)
    requires n <= awake && Advanced(states, acts, awake, k, e) && Rank(states(awake)) <= Rank(states(n))
    ensures Advanced(states, acts, n, k, e)
  {
    hide PopsBy, Ready, Rank;
  }

  lemma AdvancesOnce(states: nat -> State, acts: nat -> Action, n: nat, e: Entry) returns (k: nat)
    requires Execution(states, acts) && Fair(states, acts) && Ready(states(n), e)
    ensures k > n && Advanced(states, acts, n, k, e)
  {
    hide Ready, Rank, Awake, Advanced, Execution, PopsBy;
    var done, awake := false, n;
    if !Awake(states(n)) {
      AsleepIsNotified(states(n), e);
      assert TurnsCome(states, acts, n);
      var m: nat :| m >= n && NotifyTurn(states, acts, m);
      done, awake := WakesUp(states, acts, n, m, e);
    }
    if done {
      k := awake;
    } else {
      assert TurnsCome(states, acts, awake);
      var m: nat :| m >= awake && SchedulerTurn(states, acts, m);
      k := MovesOn(states, acts, awake, m, e);
      AdvancedSince(states, acts, n, awake, k, e);
    }
  }

  lemma {:induction false} ReadyIsPopped(states: nat -> State, acts: nat -> Action, n: nat, e: Entry) returns (m: nat)
    requires Execution(states, acts) && Fair(states, acts) && Ready(states(n), e)
    ensures m >= n && PopsBy(states(m), acts(m), e)
    decreases Rank(states(n))
  {
    hide Ready, Rank, Fair, Execution, PopsBy;
    var k := AdvancesOnce(states, acts, n, e);
    if i: nat :| n <= i < k && PopsBy(states(i), acts(i), e) {
      m := i;
    } else {
      m := ReadyIsPopped(states, acts, k, e);
    }
  }

  /**
   In every fair endless interleaving: whenever some entry in the heap is due,
   wherever the scheduler is then, it comes to pop a due entry, no later than that
   one, whatever pushes, polls, refreshes, triggers and force-pings go on meanwhile.
   */
  lemma DueIsEventuallyPopped(states: nat -> State, acts: nat -> Action, n: nat, e: Entry) returns (m: nat)
    requires Execution(states, acts) && Init(states(0)) && Fair(states, acts)
    requires e in states(n).heap && e.due <= states(n).clock
    ensures m >= n && acts(m).Pop? && acts(m).entry.due <= states(m).clock && acts(m).entry.due <= e.due
  {
    InvariantsHold(states, acts, n);
    m := ReadyIsPopped(states, acts, n, e);
  }
}
