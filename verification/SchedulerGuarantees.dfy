/**
 What the scheduler's invariants mean to its users: the earliest server goes
 first, equal due times go in push order, nobody is slept through, and a server
 that a fetch has lost stays lost until something reschedules it.
 */
module SchedulerGuarantees {
  import opened Basics
  import opened SchedulerModel

  // ---- Earliest due first ---------------------------------------------------------------

  /** Nothing but the heap stands for the server: no push on its way, no poll. */
  ghost predicate RestsInHeap(s: State, k: string)
    requires k in s.states
  {
    (k, s.states[k].nextDue) !in s.spawned && !InWork(s, k)
  }

  /**
   The lazy-deletion heap chooses as a plain scan of the server map would: what
   next_due returns is due, and no server resting in the heap is due before it.
   */
  lemma PopIsEarliest(s: State, e: Entry)
    requires Inv(s) && Enabled(s, Pop(e))
    ensures e.due <= s.clock
    ensures forall k :: k in s.states && RestsInHeap(s, k) ==> e.due <= s.states[k].nextDue
  {
    forall k | k in s.states && RestsInHeap(s, k) ensures e.due <= s.states[k].nextDue {
      assert Covered(s, k);
      var x :| x in s.heap && x.key == k && x.due == s.states[k].nextDue;
      assert x == e || Above(e, x);
    }
  }

  /**
   The same at the staleness check, over every run, however many pushes, reschedules
   and refreshes came between the pop and the check: the popped entry is due, and
   every other tracked server resting in the heap has an entry there for its due
   time that was pushed after the pop, or is due no earlier than the popped entry.
   */
  lemma VerifiedIsEarliest(s0: State, actions: seq<Action>)
    requires Init(s0) && IsRun(s0, actions) && RunKeeps(s0, actions)
    requires After(s0, actions).phase.Popped?
    ensures var s := After(s0, actions); var e := s.phase.entry;
            && e.due <= s.clock
            && forall k :: k in s.states && k != e.key && RestsInHeap(s, k) ==>
                 exists x :: x in s.heap && x.key == k && x.due == s.states[k].nextDue
                             && (x.seqNo > s.phase.seen || e.due <= x.due)
  {
    InitInv(s0);
    AlwaysInv(s0, actions);
    RestingIsLater(After(s0, actions));
  }

  lemma RestingIsLater(s: State)
    requires HeapInv(s) && NoneLost(s) && s.phase.Popped?
    ensures var e := s.phase.entry;
            forall k :: k in s.states && k != e.key && RestsInHeap(s, k) ==>
              exists x :: x in s.heap && x.key == k && x.due == s.states[k].nextDue
                          && (x.seqNo > s.phase.seen || e.due <= x.due)
  {
    var e := s.phase.entry;
    forall k | k in s.states && k != e.key && RestsInHeap(s, k)
      ensures exists x :: x in s.heap && x.key == k && x.due == s.states[k].nextDue
                          && (x.seqNo > s.phase.seen || e.due <= x.due)
    {
      assert Covered(s, k);
      var x :| x in s.heap && x.key == k && x.due == s.states[k].nextDue;
      AboveMeans(e, x);
    }
  }

  /** Over every run, entries with equal due times leave the heap in push order. */
  lemma TiesLeaveInPushOrder(s: State, actions: seq<Action>, i: nat, j: nat)
    requires Init(s) && IsRun(s, actions)
    requires i < j < |After(s, actions).left|
    requires After(s, actions).left[i].due == After(s, actions).left[j].due
    ensures After(s, actions).left[i].seqNo < After(s, actions).left[j].seqNo
  {
    InitInv(s);
    AlwaysOrderedAndAwake(s, actions);
  }

  // ---- No lost wake-up, no oversleep --------------------------------------------------------

  /** A due entry never waits behind a blocked task that nothing will unblock. */
  lemma DueIsNotSleptThrough(s: State, e: Entry)
    requires HeapInv(s) && WakeInv(s) && s.phase.Blocked() && e in s.heap && e.due <= s.clock
    ensures s.permit || s.notifying > 0 || Enabled(s, TimerFires)
  {
    if s.phase.Sleeping? && !WakeComing(s) {
      var top :| IsTop(s.heap, top) && top.due == s.phase.until;
      assert top == e || Above(top, e);
    }
  }

  /** A step of next_due, or a notification on its way to it. */
  predicate IsOwn(a: Action) {
    a.Notify? || a.Wake? || a.TimerFires? || a.Peek? || a.Decide? || a.Pop? || a.PopNothing?
  }

  /** These steps are next_due's own, and pop a due entry while neither the clock nor
      the server map changes. */
  ghost predicate PopsDue(s: State, actions: seq<Action>) {
    && IsRun(s, actions) && (forall a :: a in actions ==> IsOwn(a))
    && var t := After(s, actions);
       t.phase.Popped? && t.phase.entry.due <= s.clock && t.clock == s.clock && t.states == s.states
  }

  lemma PopNow(s: State, e: Entry) returns (actions: seq<Action>)
    requires HeapInv(s) && s.phase == Popping && e in s.heap && e.due <= s.clock
    ensures PopsDue(s, actions) && |actions| == 1
  {
    TopExists(s.heap);
    var top :| IsTop(s.heap, top);
    assert top == e || Above(top, e);
    assert IsRun(Next(s, Pop(top)), []);
    Prepend(s, Pop(top), []);
    actions := [Pop(top)] + [];
  }

  lemma PeekAndPop(s: State, e: Entry) returns (actions: seq<Action>)
    requires HeapInv(s) && s.phase == Peeking && e in s.heap && e.due <= s.clock
    ensures PopsDue(s, actions) && |actions| == 3
  {
    TopExists(s.heap);
    var top :| IsTop(s.heap, top);
    assert top == e || Above(top, e);
    var s1 := Next(s, Peek(Some(top)));
    var pop := PopNow(Next(s1, Decide), e);
    Prepend(s1, Decide, pop);
    Prepend(s, Peek(Some(top)), [Decide] + pop);
    actions := [Peek(Some(top))] + ([Decide] + pop);
  }

  lemma Prepend(s: State, a: Action, actions: seq<Action>)
    requires Enabled(s, a) && IsRun(Next(s, a), actions)
    ensures IsRun(s, [a] + actions) && After(s, [a] + actions) == After(Next(s, a), actions)
  {
    assert ([a] + actions)[1..] == actions;
  }

  lemma WakeAndPop(s: State, e: Entry) returns (actions: seq<Action>)
    requires HeapInv(s) && s.phase.Blocked() && s.permit && e in s.heap && e.due <= s.clock
    ensures PopsDue(s, actions) && |actions| == 4
  {
    HeapInvKept(s, Wake);
    actions := PeekAndPop(Next(s, Wake), e);
    Prepend(s, Wake, actions);
    actions := [Wake] + actions;
  }

  /**
   Progress: from any state in which next_due is blocked and some entry is due,
   at most five steps of pending notifications, timers and next_due itself pop a
   due entry.  Nothing else has to happen first, not even the clock moving.
   */
  lemma DueIsPoppedWithinFive(s: State, e: Entry) returns (actions: seq<Action>)
    requires HeapInv(s) && WakeInv(s) && s.phase.Blocked() && e in s.heap && e.due <= s.clock
    ensures PopsDue(s, actions) && |actions| <= 5
  {
    DueIsNotSleptThrough(s, e);
    if s.permit {
      actions := WakeAndPop(s, e);
    } else if s.notifying > 0 {
      HeapInvKept(s, Notify);
      actions := WakeAndPop(Next(s, Notify), e);
      Prepend(s, Notify, actions);
      actions := [Notify] + actions;
    } else {
      actions := PopNow(Next(s, TimerFires), e);
      Prepend(s, TimerFires, actions);
      actions := [TimerFires] + actions;
    }
  }

  // ---- A server lost by a fetch ------------------------------------------------------------

  /** The steps that can schedule k again. */
  ghost predicate MayReschedule(s: State, a: Action, k: string) {
    || a.Refresh?
    || (a.Reschedule? && a.name in s.states && (a.name == k || s.states[a.name].key == k))
    || (a.FetchInsert? && (a.target == k || a.stateKey == k))
  }

  lemma NoQueuedWorkAppears(s: State, a: Action, k: string)
    requires Enabled(s, a) && k !in s.queue && s.phase != Sending(k)
    ensures k !in Next(s, a).queue
  {
    if a.Enqueue? {
      assert s.phase.key != k;
    } else if !a.TakeWork? {
      assert Next(s, a).queue == s.queue;
    }
  }

  lemma NoWorkerAppears(s: State, a: Action, k: string, w: nat)
    requires Enabled(s, a) && !InWork(s, k) && w in Next(s, a).workers
    ensures Next(s, a).workers[w] !in {Holding(k), Polling(k)}
  {
    assert w in s.workers && s.workers[w] !in {Holding(k), Polling(k)};
    if a.TakeWork? {
      assert s.queue[0] in s.queue;
    }
  }

  lemma NoWorkAppears(s: State, a: Action, k: string)
    requires Enabled(s, a) && !InWork(s, k) && s.phase != Sending(k)
    ensures !InWork(Next(s, a), k)
  {
    NoQueuedWorkAppears(s, a, k);
    forall w | w in Next(s, a).workers ensures Next(s, a).workers[w] !in {Holding(k), Polling(k)} {
      NoWorkerAppears(s, a, k, w);
    }
  }

  lemma NoPushAppears(s: State, a: Action, k: string, due: real)
    requires Enabled(s, a) && !CoveredAt(s, k, due) && !MayReschedule(s, a, k)
    ensures (k, due) !in Next(s, a).spawned && !InHeap(Next(s, a), k, due)
  {
    if a.Finish? {
      assert s.workers[a.worker] != Polling(k);
    }
  }

  lemma UnrescheduledStays(s: State, a: Action, k: string)
    requires Enabled(s, a) && k in s.states && !InWork(s, k) && !MayReschedule(s, a, k)
    ensures k in Next(s, a).states && Next(s, a).states[k] == s.states[k]
  {
    if a.Finish? {
      assert s.workers[a.worker] != Polling(k);
    }
  }

  /** Once nothing stands for a tracked server, no other step brings it back. */
  lemma LostStaysLost(s: State, a: Action, k: string)
    requires Enabled(s, a) && k in s.states && !Covered(s, k) && !MayReschedule(s, a, k)
    ensures k in Next(s, a).states && Next(s, a).states[k] == s.states[k]
    ensures !Covered(Next(s, a), k)
  {
    UnrescheduledStays(s, a, k);
    NoWorkAppears(s, a, k);
    NoPushAppears(s, a, k, s.states[k].nextDue);
  }

  ghost predicate NeverReschedules(s: State, actions: seq<Action>, k: string)
    requires IsRun(s, actions)
    decreases |actions|
  {
    actions != [] ==>
      !MayReschedule(s, actions[0], k) && NeverReschedules(Next(s, actions[0]), actions[1..], k)
  }

  /** So a server without cover is not polled again, however long the
      system runs, until a refresh, a trigger or another fetch schedules it. */
  lemma {:induction false} LostIsNeverPolled(s: State, actions: seq<Action>, k: string)
    requires k in s.states && !Covered(s, k)
    requires IsRun(s, actions) && NeverReschedules(s, actions, k)
    ensures k in After(s, actions).states && !InWork(After(s, actions), k)
    decreases |actions|
  {
    if actions != [] {
      LostStaysLost(s, actions[0], k);
      LostIsNeverPolled(Next(s, actions[0]), actions[1..], k);
    }
  }

  /** Such fetches happen: from the start, one that draws a spread of a second. */
  lemma SomeFetchLoses(s: State)
    requires Init(s) && s.clock >= 0.0
    ensures var a := FetchInsert("5", "5", 0.0, 1.0);
            Enabled(s, a) && !Keeps(s, a) && "5" in Next(s, a).states && !Covered(Next(s, a), "5")
  {
    FetchCoversExactly(s, FetchInsert("5", "5", 0.0, 1.0));
  }

  /** From the fetch on: a force-ping that leaves its server without cover, which it
      does exactly when FetchCoversExactly says, has it never polled until it is
      scheduled again. */
  lemma BadFetchIsNeverPolled(s: State, a: Action, actions: seq<Action>)
    requires a.FetchInsert? && Enabled(s, a) && !Keeps(s, a)
    requires IsRun(Next(s, a), actions) && NeverReschedules(Next(s, a), actions, a.target)
    ensures var t := After(Next(s, a), actions); a.target in t.states && !InWork(t, a.target)
  {
    FetchCoversExactly(s, a);
    LostIsNeverPolled(Next(s, a), actions, a.target);
  }
}
