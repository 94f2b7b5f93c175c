/**
 When servers are polled: only once they are due, and in the order in which they
 were queued, over every interleaving.
 */
module SchedulerTiming {
  import opened Basics
  import opened SchedulerModel
  import opened SchedulerGuarantees

  // ---- Only when due ----------------------------------------------------------------------

  /** A server is passed on to the workers only by a check that found it tracked and due
      at the time its entry says, however stale the heap is. */
  lemma SentOnlyWhenDue(s: State, a: Action, k: string)
    requires HeapInv(s) && Enabled(s, a) && s.phase != Sending(k) && Next(s, a).phase == Sending(k)
    ensures a == Verify && s.phase.Popped? && s.phase.entry.key == k
    ensures k in s.states && s.states[k].nextDue == s.phase.entry.due <= s.clock
  {
  }

  /** A stale entry is dropped: of a server no longer tracked, or rescheduled since. */
  lemma StaleIsDropped(s: State)
    requires s.phase.Popped?
    requires var e := s.phase.entry; e.key in s.states ==> s.states[e.key].nextDue != e.due
    ensures Next(s, Verify) == s.(phase := Peeking)
  {
  }

  /** The step gives server k no due time but this one, other than by polling it. */
  predicate LeavesAlone(a: Action, k: string, due: real) {
    match a
    case Refresh(renewed, _) => k in renewed ==> renewed[k].nextDue == due
    case Reschedule(name, _) => name != k
    case FetchInsert(target, _, _, _) => target != k
    case _ => true
  }

  /** Server k waits until it is due then. */
  ghost predicate Waits(s: State, k: string, due: real) {
    (k in s.states ==> s.states[k].nextDue == due) && !InWork(s, k) && s.phase != Sending(k)
  }

  lemma WaitsOn(s: State, a: Action, k: string, due: real)
    requires HeapInv(s) && Enabled(s, a) && Waits(s, k, due) && LeavesAlone(a, k, due) && s.clock < due
    ensures Waits(Next(s, a), k, due)
  {
    NoWorkAppears(s, a, k);
    hide HeapFacts;
    if a.Finish? {
      assert s.workers[a.worker] != Polling(k);
    }
  }

  lemma {:induction false} ClockGoesOn(s: State, actions: seq<Action>)
    requires IsRun(s, actions)
    ensures s.clock <= After(s, actions).clock
    decreases |actions|
  {
    if actions != [] {
      ClockGoesOn(Next(s, actions[0]), actions[1..]);
    }
  }

  /** Over every run: a server that waits is neither queued nor polled before it is due,
      unless something gives it another due time. */
  lemma {:induction false} NotPolledBeforeDue(s: State, actions: seq<Action>, k: string, due: real)
    requires HeapInv(s) && Waits(s, k, due) && IsRun(s, actions)
    requires forall a :: a in actions ==> LeavesAlone(a, k, due)
    requires After(s, actions).clock < due
    ensures Waits(After(s, actions), k, due)
    decreases |actions|
  {
    hide Next, Enabled, HeapInv, Waits, LeavesAlone;
    if actions != [] {
      ClockGoesOn(s, actions);
      assert actions[0] in actions;
      WaitsOn(s, actions[0], k, due);
      HeapInvKept(s, actions[0]);
      NotPolledBeforeDue(Next(s, actions[0]), actions[1..], k, due);
    }
  }

  /** Server k is in one worker's hands only. */
  ghost predicate OnlyWith(s: State, k: string, w: nat) {
    k !in s.queue && s.phase != Sending(k)
    && forall v :: v in s.workers && v != w ==> s.workers[v] !in {Holding(k), Polling(k)}
  }

  /**
   So a server whose poll has just been finished is not polled again until the delay
   chosen for it has passed, unless something reschedules it.
   */
  lemma FinishedWaits(s: State, w: nat, delay: real, actions: seq<Action>)
    requires HeapInv(s) && Enabled(s, Finish(w, delay)) && OnlyWith(s, s.workers[w].key, w)
    requires IsRun(Next(s, Finish(w, delay)), actions)
    requires forall a :: a in actions ==> LeavesAlone(a, s.workers[w].key, s.clock + delay)
    requires After(Next(s, Finish(w, delay)), actions).clock < s.clock + delay
    ensures !InWork(After(Next(s, Finish(w, delay)), actions), s.workers[w].key)
  {
    HeapInvKept(s, Finish(w, delay));
    FinishRests(s, w, delay);
    hide Next, Enabled, HeapInv;
    NotPolledBeforeDue(Next(s, Finish(w, delay)), actions, s.workers[w].key, s.clock + delay);
  }

  lemma FinishRests(s: State, w: nat, delay: real)
    requires Enabled(s, Finish(w, delay)) && OnlyWith(s, s.workers[w].key, w)
    ensures Waits(Next(s, Finish(w, delay)), s.workers[w].key, s.clock + delay)
  {
  }

  /** A trigger or a force-ping of a tracked server has it due at once, and no other. */
  lemma RescheduledIsDue(s: State, name: string, now: real)
    requires Enabled(s, Reschedule(name, now))
    ensures var s' := Next(s, Reschedule(name, now));
            && s'.states.Keys == s.states.Keys && s'.states[name].nextDue <= s'.clock
            && s'.states[name].key == s.states[name].key
            && forall k :: k in s.states && k != name ==> s'.states[k] == s.states[k]
  {
  }

  // ---- Only while tracked ---------------------------------------------------------------------

  /** The step does not bring server k back. */
  predicate DoesNotAdd(a: Action, k: string) {
    match a
    case Refresh(renewed, _) => k !in renewed
    case FetchInsert(target, _, _, _) => target != k
    case _ => true
  }

  ghost predicate Gone(s: State, k: string) {
    k !in s.states && forall w :: w in s.workers ==> s.workers[w] != Polling(k)
  }

  lemma GoneStays(s: State, a: Action, k: string)
    requires Enabled(s, a) && Gone(s, k) && DoesNotAdd(a, k)
    ensures Gone(Next(s, a), k)
  {
  }

  /** Over every run: a server that has been dropped is not polled again, though its
      entries and its queued work remain, unless it is added again. */
  lemma {:induction false} DroppedIsNotPolled(s: State, actions: seq<Action>, k: string)
    requires Gone(s, k) && IsRun(s, actions) && forall a :: a in actions ==> DoesNotAdd(a, k)
    ensures Gone(After(s, actions), k)
    decreases |actions|
  {
    hide Next, Enabled, Gone, DoesNotAdd;
    if actions != [] {
      assert actions[0] in actions;
      GoneStays(s, actions[0], k);
      DroppedIsNotPolled(Next(s, actions[0]), actions[1..], k);
    }
  }

  /** A fetched server is tracked from then on, under the key it was built with, and due
      once its spread has passed; no other server changes. */
  lemma FetchedIsTracked(s: State, a: Action)
    requires a.FetchInsert? && Enabled(s, a)
    ensures var s' := Next(s, a);
            && s'.states.Keys == s.states.Keys + {a.target} && s'.states[a.target].key == a.stateKey
            && s'.states[a.target].nextDue - a.draw == a.fetchNow
            && forall k :: k in s.states && k != a.target ==> s'.states[k] == s.states[k]
  {
  }

  // ---- Wake-ups ---------------------------------------------------------------------------------

  /** How many of the steps are of a kind. */
  ghost function Count(actions: seq<Action>, kind: Action -> bool): nat {
    if actions == [] then 0 else (if kind(actions[0]) then 1 else 0) + Count(actions[1..], kind)
  }

  const WAKES: Action -> bool := (a: Action) => a.Wake?
  const NOTIFIES: Action -> bool := (a: Action) => a.Notify?
  const PUSHES: Action -> bool := (a: Action) => a.Push?

  function Permits(s: State): nat {
    if s.permit then 1 else 0
  }

  lemma WakeStep(s: State, a: Action)
    requires Enabled(s, a)
    ensures (if a.Wake? then 1 else 0) + Permits(Next(s, a)) <= Permits(s) + (if a.Notify? then 1 else 0)
    ensures Next(s, a).notifying + (if a.Notify? then 1 else 0) == s.notifying + (if a.Push? then 1 else 0)
  {
  }

  /** Over every run: the blocked task is not woken more often than it was notified, and
      each push notifies it once. */
  lemma {:induction false} WokenOncePerPush(s: State, actions: seq<Action>)
    requires IsRun(s, actions)
    ensures var s' := After(s, actions);
            && Count(actions, WAKES) + Permits(s') <= Permits(s) + Count(actions, NOTIFIES)
            && s'.notifying + Count(actions, NOTIFIES) == s.notifying + Count(actions, PUSHES)
    decreases |actions|
  {
    hide Next, Enabled, Permits;
    if actions != [] {
      WakeStep(s, actions[0]);
      WokenOncePerPush(Next(s, actions[0]), actions[1..]);
    }
  }

  // ---- First queued, first polled -------------------------------------------------------------

  /** The key that a step puts into the work queue, if it does. */
  function Joins(s: State, a: Action): seq<string> {
    if a.Enqueue? && s.phase.Sending? then [s.phase.key] else []
  }

  /** The key that a worker took in the step that led here, if one did: what it holds. */
  function Leaves(a: Action, after: State): seq<string> {
    if a.TakeWork? && a.taker in after.workers && after.workers[a.taker].Holding? then [after.workers[a.taker].key]
    else []
  }

  /** The keys that a run puts into the work queue, in order. */
  ghost function Queued(s: State, actions: seq<Action>): seq<string>
    requires IsRun(s, actions)
    decreases |actions|
  {
    if actions == [] then [] else Joins(s, actions[0]) + Queued(Next(s, actions[0]), actions[1..])
  }

  /** The keys that the workers take, in order. */
  ghost function Taken(s: State, actions: seq<Action>): seq<string>
    requires IsRun(s, actions)
    decreases |actions|
  {
    if actions == [] then []
    else Leaves(actions[0], Next(s, actions[0])) + Taken(Next(s, actions[0]), actions[1..])
  }

  lemma QueueRests(s: State, a: Action)
    requires Enabled(s, a) && !a.Enqueue? && !a.TakeWork?
    ensures Next(s, a).queue == s.queue
  {
  }

  lemma OneEnters(s: State)
    requires Enabled(s, Enqueue)
    ensures Next(s, Enqueue).queue == s.queue + Joins(s, Enqueue)
  {
  }

  lemma OneLeaves(s: State, w: nat)
    requires Enabled(s, TakeWork(w))
    ensures s.queue == Leaves(TakeWork(w), Next(s, TakeWork(w))) + Next(s, TakeWork(w)).queue
  {
  }

  lemma QueueStep(s: State, a: Action)
    requires Enabled(s, a)
    ensures s.queue + Joins(s, a) == Leaves(a, Next(s, a)) + Next(s, a).queue
  {
    hide Next, Enabled;
    if a.Enqueue? {
      OneEnters(s);
    } else if a.TakeWork? {
      OneLeaves(s, a.taker);
    } else {
      QueueRests(s, a);
    }
  }

  /** Over every run, servers are taken in the order in which they were queued, each as
      often as it was queued, and what has not been taken yet is in the queue. */
  lemma {:induction false} TakenInOrder(s: State, actions: seq<Action>)
    requires IsRun(s, actions)
    ensures s.queue + Queued(s, actions) == Taken(s, actions) + After(s, actions).queue
    decreases |actions|
  {
    hide Next, Enabled, Joins, Leaves;
    if actions != [] {
      var a, s' := actions[0], Next(s, actions[0]);
      QueueStep(s, a);
      TakenInOrder(s', actions[1..]);
      AssociativeConcat(s.queue, Joins(s, a), Queued(s', actions[1..]));
      AssociativeConcat(Leaves(a, s'), s'.queue, Queued(s', actions[1..]));
      AssociativeConcat(Leaves(a, s'), Taken(s', actions[1..]), After(s, actions).queue);
    }
  }
}
