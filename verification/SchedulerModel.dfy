/**
 The scheduler, its callers and the work queue as one state machine.  A step is
 what a task does between two lock acquisitions or awaits, so every run of steps
 is an interleaving of src/scheduler.rs, scheduler_loop and process_work_item of
 src/collector.rs, and the rescheduling loops of src/sync.rs.
 */
module SchedulerModel {
  import opened Basics

  datatype Entry = Entry(due: real, seqNo: nat, key: string)

  function CompareReals(a: real, b: real): Ordering {
    if a < b then Less else if a > b then Greater else Equal
  }

  /** cmp on ScheduleEntry: reversed, so that the max-heap pops the earliest. */
  function Compare(a: Entry, b: Entry): Ordering {
    CompareReals(b.due, a.due).Then(CompareInts(b.seqNo, a.seqNo))
  }

  /** The heap puts a above b. */
  predicate Above(a: Entry, b: Entry) {
    Compare(a, b) == Greater
  }

  predicate IsTop(heap: set<Entry>, e: Entry) {
    e in heap && forall x :: x in heap ==> x == e || Above(e, x)
  }

  // ---- State ----------------------------------------------------------------------

  /** Where the one task that calls next_due is. */
  datatype Phase =
    | Peeking
    | Peeked(top: Option<Entry>)
    | WaitingForPush
    | Sleeping(until: real)
    | Popping
    | Popped(entry: Entry, seen: nat)
    | Sending(key: string)
  {
    predicate Blocked() { WaitingForPush? || Sleeping? }
  }

  datatype Worker = Idle | Holding(key: string) | Polling(key: string)

  /** The part of ServerState the scheduler depends on. */
  datatype Tracked = Tracked(key: string, nextDue: real)

  datatype State = State(
    clock: real,
    heap: set<Entry>,
    counter: nat,
    permit: bool,
    spawned: multiset<(string, real)>,
    notifying: nat,
    phase: Phase,
    states: map<string, Tracked>,
    queue: seq<string>,
    workers: map<nat, Worker>,
    left: seq<Entry>)

  predicate Init(s: State) {
    && s.heap == {} && s.counter == 0 && !s.permit && s.spawned == multiset{} && s.notifying == 0
    && s.phase == Peeking && s.states == map[] && s.queue == [] && s.left == []
    && forall w :: w in s.workers ==> s.workers[w] == Idle
  }

  // ---- Steps ----------------------------------------------------------------------

  datatype Action =
    | Pass(seconds: real)
    // schedule: the spawned task, in two steps
    | Push(pushKey: string, pushDue: real)
    | Notify
    // next_due
    | Peek(top: Option<Entry>)
    | Decide
    | Wake
    | TimerFires
    | Pop(entry: Entry)
    | PopNothing
    // scheduler_loop
    | Verify
    | Enqueue
    // workers
    | TakeWork(taker: nat)
    | Snapshot(reader: nat)
    | Finish(worker: nat, delay: real)
    // sync loops
    | Refresh(renewed: map<string, Tracked>, pushes: seq<(string, real)>)
    // a trigger for many servers is as many of these in a row
    | Reschedule(name: string, now: real)
    | FetchInsert(target: string, stateKey: string, fetchNow: real, draw: real)

  /**
   What a catalog refresh may do to the map: a server keeps its due time, or gets
   one that is scheduled in the same step under the map's key; a tracked server
   keeps the key it stores, and a new one stores its own.
   */
  predicate Reconciled(before: map<string, Tracked>, after: map<string, Tracked>, pushes: seq<(string, real)>) {
    forall k :: k in after ==>
      || (k in before && after[k] == before[k])
      || (after[k].key == (if k in before then before[k].key else k) && (k, after[k].nextDue) in pushes)
  }

  predicate Enabled(s: State, a: Action) {
    match a
    case Pass(seconds) => seconds >= 0.0
    case Push(key, due) => (key, due) in s.spawned
    case Notify => s.notifying > 0
    case Peek(top) =>
      s.phase == Peeking && (if top.None? then s.heap == {} else IsTop(s.heap, top.value))
    case Decide => s.phase.Peeked?
    case Wake => s.phase.Blocked() && s.permit
    case TimerFires => s.phase.Sleeping? && s.phase.until <= s.clock
    case Pop(e) => s.phase == Popping && IsTop(s.heap, e) && e.due <= s.clock
    case PopNothing => s.phase == Popping && forall x :: x in s.heap ==> x.due > s.clock
    case Verify => s.phase.Popped?
    case Enqueue => s.phase.Sending?
    case TakeWork(w) => w in s.workers && s.workers[w] == Idle && s.queue != []
    case Snapshot(w) => w in s.workers && s.workers[w].Holding?
    case Finish(w, delay) => w in s.workers && s.workers[w].Polling?
    case Refresh(renewed, pushes) => Reconciled(s.states, renewed, pushes)
    case Reschedule(name, now) => name in s.states && now <= s.clock
    case FetchInsert(target, stateKey, now, draw) => now <= s.clock && draw >= 0.0
  }

  function Next(s: State, a: Action): State
    requires Enabled(s, a)
  {
    match a
    case Pass(seconds) => s.(clock := s.clock + seconds)
    case Push(key, due) =>
      s.(counter := s.counter + 1,
         heap := s.heap + {Entry(due, s.counter + 1, key)},
         spawned := s.spawned - multiset{(key, due)},
         notifying := s.notifying + 1)
    case Notify => s.(notifying := s.notifying - 1, permit := true)
    case Peek(top) => s.(phase := Peeked(top))
    case Decide =>
      (match s.phase.top
       case None => s.(phase := WaitingForPush)
       case Some(e) => s.(phase := if e.due > s.clock then Sleeping(e.due) else Popping))
    case Wake => s.(permit := false, phase := Peeking)
    case TimerFires => s.(phase := Popping)
    case Pop(e) => s.(heap := s.heap - {e}, left := s.left + [e], phase := Popped(e, s.counter))
    case PopNothing => s.(phase := Peeking)
    case Verify =>
      var e := s.phase.entry;
      s.(phase := if e.key in s.states && s.states[e.key].nextDue == e.due then Sending(e.key) else Peeking)
    case Enqueue => s.(queue := s.queue + [s.phase.key], phase := Peeking)
    case TakeWork(w) => s.(queue := s.queue[1..], workers := s.workers[w := Holding(s.queue[0])])
    case Snapshot(w) =>
      var k := s.workers[w].key;
      s.(workers := s.workers[w := if k in s.states then Polling(k) else Idle])
    case Finish(w, delay) =>
      var k := s.workers[w].key;
      if k !in s.states then s.(workers := s.workers[w := Idle])
      else
        var due := s.clock + delay;
        s.(workers := s.workers[w := Idle],
           states := s.states[k := s.states[k].(nextDue := due)],
           spawned := s.spawned + multiset{(k, due)})
    case Refresh(renewed, pushes) => s.(states := renewed, spawned := s.spawned + multiset(pushes))
    case Reschedule(name, now) =>
      s.(states := s.states[name := s.states[name].(nextDue := now)],
         spawned := s.spawned + multiset{(s.states[name].key, now)})
    case FetchInsert(target, stateKey, now, draw) =>
      s.(states := s.states[target := Tracked(stateKey, now + draw)],
         spawned := s.spawned + multiset{(stateKey, now)})
  }

  ghost predicate IsRun(s: State, actions: seq<Action>)
    decreases |actions|
  {
    actions != [] ==> Enabled(s, actions[0]) && IsRun(Next(s, actions[0]), actions[1..])
  }

  ghost function After(s: State, actions: seq<Action>): State
    requires IsRun(s, actions)
    decreases |actions|
  {
    if actions == [] then s else After(Next(s, actions[0]), actions[1..])
  }

  // ---- The heap order -----------------------------------------------------------------

  /** Above is "earlier, or as early and pushed before". */
  lemma AboveMeans(a: Entry, b: Entry)
    ensures Above(a, b) <==> a.due < b.due || (a.due == b.due && a.seqNo < b.seqNo)
  {
  }

  lemma AboveIsTransitive(a: Entry, b: Entry, c: Entry)
    requires Above(a, b) && Above(b, c)
    ensures Above(a, c)
  {
  }

  predicate DistinctNumbers(heap: set<Entry>) {
    forall x, y :: x in heap && y in heap && x.seqNo == y.seqNo ==> x == y
  }

  lemma {:induction false} TopExists(heap: set<Entry>)
    requires heap != {} && DistinctNumbers(heap)
    ensures exists e :: IsTop(heap, e)
    decreases |heap|
  {
    var x :| x in heap;
    if heap == {x} {
      assert IsTop(heap, x);
    } else {
      TopExists(heap - {x});
      var e :| IsTop(heap - {x}, e);
      if Above(e, x) {
        assert IsTop(heap, e);
      } else {
        forall y | y in heap ensures y == x || Above(x, y) {
          if y != x && y != e {
            AboveIsTransitive(x, e, y);
          }
        }
        assert IsTop(heap, x);
      }
    }
  }

  // ---- Invariants ---------------------------------------------------------------------

  /** Push numbers are unique; an entry that left was above all those it passed. */
  ghost predicate HeapFacts(heap: set<Entry>, counter: nat, left: seq<Entry>) {
    && DistinctNumbers(heap)
    && (forall x :: x in heap ==> x.seqNo <= counter)
    && (forall x :: x in left ==> x.seqNo <= counter)
    && (forall x, y :: x in left && y in heap ==>
          x.seqNo != y.seqNo && (y.seqNo < x.seqNo ==> Above(x, y)))
    && TiesInOrder(left)
  }

  /** The popped entry is due and was above everything in the heap at the time. */
  ghost predicate PopFacts(s: State) {
    s.phase.Popped? ==>
      && s.phase.entry.due <= s.clock && s.phase.seen <= s.counter
      && forall y :: y in s.heap && y.seqNo <= s.phase.seen ==> Above(s.phase.entry, y)
  }

  ghost predicate HeapInv(s: State) {
    HeapFacts(s.heap, s.counter, s.left) && PopFacts(s)
  }

  /** Entries due at the same time leave in the order they were pushed. */
  ghost predicate TiesInOrder(left: seq<Entry>) {
    forall i, j :: 0 <= i < j < |left| && left[i].due == left[j].due ==> left[i].seqNo < left[j].seqNo
  }

  /** Someone will still wake the blocked task. */
  predicate WakeComing(s: State) {
    s.permit || s.notifying > 0
  }

  /** No lost wake-up, no oversleep. */
  ghost predicate WakeInv(s: State) {
    match s.phase
    case Peeked(None) => WakeComing(s) || s.heap == {}
    case Peeked(Some(e)) => WakeComing(s) || IsTop(s.heap, e)
    case WaitingForPush => WakeComing(s) || s.heap == {}
    case Sleeping(until) => WakeComing(s) || exists e :: IsTop(s.heap, e) && e.due == until
    case _ => true
  }

  /** A queued or running poll of the server. */
  ghost predicate InWork(s: State, k: string) {
    || k in s.queue
    || exists w :: w in s.workers && s.workers[w] in {Holding(k), Polling(k)}
  }

  ghost predicate InHeap(s: State, k: string, due: real) {
    exists e :: e in s.heap && e.key == k && e.due == due
  }

  /** Something is still going to have server k, if due then, polled. */
  ghost predicate CoveredAt(s: State, k: string, due: real) {
    || InHeap(s, k, due)
    || (k, due) in s.spawned
    || (s.phase.Popped? && s.phase.entry.key == k && s.phase.entry.due == due)
    || s.phase == Sending(k)
    || InWork(s, k)
  }

  ghost predicate Covered(s: State, k: string)
    requires k in s.states
  {
    CoveredAt(s, k, s.states[k].nextDue)
  }

  ghost predicate NoneLost(s: State) {
    forall k :: k in s.states ==> Covered(s, k)
  }

  /** Every server is stored under the key it would be rescheduled with. */
  predicate WellKeyed(s: State) {
    forall k :: k in s.states ==> s.states[k].key == k
  }

  ghost predicate Inv(s: State) {
    HeapInv(s) && WakeInv(s) && NoneLost(s)
  }

  // ---- Every step keeps the invariants ---------------------------------------------------

  lemma InitInv(s: State)
    requires Init(s)
    ensures Inv(s)
  {
  }

  lemma PopKeepsTies(left: seq<Entry>, e: Entry)
    requires TiesInOrder(left)
    requires forall x :: x in left ==> x.seqNo != e.seqNo && (e.seqNo < x.seqNo ==> Above(x, e))
    ensures TiesInOrder(left + [e])
  {
    var left' := left + [e];
    forall i, j | 0 <= i < j < |left'| && left'[i].due == left'[j].due
      ensures left'[i].seqNo < left'[j].seqNo
    {
      if j == |left| {
        assert left'[i] == left[i] && left[i] in left;
      }
    }
  }

  lemma PopKeepsHeapFacts(heap: set<Entry>, counter: nat, left: seq<Entry>, e: Entry)
    requires HeapFacts(heap, counter, left) && IsTop(heap, e)
    ensures HeapFacts(heap - {e}, counter, left + [e])
  {
    hide TiesInOrder;
    PopKeepsTies(left, e);
    forall x | x in left + [e] ensures x in left || x == e {
    }
  }

  lemma PushKeepsHeapFacts(heap: set<Entry>, counter: nat, left: seq<Entry>, e: Entry)
    requires HeapFacts(heap, counter, left) && e.seqNo == counter + 1
    ensures HeapFacts(heap + {e}, counter + 1, left)
  {
  }

  lemma OnlyPushesEnter(s: State, a: Action)
    requires Enabled(s, a)
    ensures s.counter <= Next(s, a).counter
    ensures forall y :: y in Next(s, a).heap ==> y in s.heap || y.seqNo > s.counter
  {
    hide Above, Compare, IsTop, Reconciled;
    if !a.Push? && !a.Pop? {
      assert Next(s, a).heap == s.heap;
    }
  }

  lemma StaysPopped(s: State, a: Action)
    requires Enabled(s, a) && !a.Pop? && Next(s, a).phase.Popped?
    ensures Next(s, a).phase == s.phase && s.clock <= Next(s, a).clock
  {
    hide Above, Compare, IsTop, Reconciled;
  }

  lemma PopIsSeen(s: State, e: Entry)
    requires Enabled(s, Pop(e))
    ensures PopFacts(Next(s, Pop(e)))
  {
  }

  lemma PopFactsKept(s: State, a: Action)
    requires HeapInv(s) && Enabled(s, a)
    ensures PopFacts(Next(s, a))
  {
    if a.Pop? {
      PopIsSeen(s, a.entry);
    } else if Next(s, a).phase.Popped? {
      hide Next, Enabled, HeapFacts, Above;
      OnlyPushesEnter(s, a);
      StaysPopped(s, a);
    }
  }

  lemma OthersLeaveTheHeap(s: State, a: Action)
    requires Enabled(s, a) && !a.Push? && !a.Pop?
    ensures var s' := Next(s, a); s'.heap == s.heap && s'.left == s.left && s'.counter == s.counter
  {
    hide IsTop, Reconciled;
  }

  lemma PopTakesTheTop(s: State, a: Action)
    requires Enabled(s, a) && a.Pop?
    ensures IsTop(s.heap, a.entry)
    ensures var s' := Next(s, a);
            s'.heap == s.heap - {a.entry} && s'.left == s.left + [a.entry] && s'.counter == s.counter
  {
    hide IsTop;
  }

  lemma PushEnters(s: State, a: Action)
    requires Enabled(s, a) && a.Push?
    ensures var s' := Next(s, a);
            && s'.heap == s.heap + {Entry(a.pushDue, s.counter + 1, a.pushKey)}
            && s'.left == s.left && s'.counter == s.counter + 1
  {
  }

  lemma HeapFactsKept(s: State, a: Action)
    requires HeapInv(s) && Enabled(s, a)
    ensures HeapFacts(Next(s, a).heap, Next(s, a).counter, Next(s, a).left)
  {
    hide HeapFacts, IsTop, Next, Enabled;
    if a.Pop? {
      PopTakesTheTop(s, a);
      PopKeepsHeapFacts(s.heap, s.counter, s.left, a.entry);
    } else if a.Push? {
      PushEnters(s, a);
      PushKeepsHeapFacts(s.heap, s.counter, s.left, Entry(a.pushDue, s.counter + 1, a.pushKey));
    } else {
      OthersLeaveTheHeap(s, a);
    }
  }

  lemma HeapInvKept(s: State, a: Action)
    requires HeapInv(s) && Enabled(s, a)
    ensures HeapInv(Next(s, a))
  {
    PopFactsKept(s, a);
    HeapFactsKept(s, a);
  }

  lemma WakeInvKept(s: State, a: Action)
    requires HeapInv(s) && WakeInv(s) && Enabled(s, a)
    ensures WakeInv(Next(s, a))
  {
  }

  /**
   The condition on the two steps that can lose a server, as they set its due time
   and schedule it under the key it stores: the stored key must be the map's, and
   a fetched server's due time must be the one it is scheduled for; or something
   is going to have it polled at the due time anyway.
   */
  ghost predicate Keeps(s: State, a: Action)
    requires Enabled(s, a)
  {
    match a
    case FetchInsert(target, stateKey, now, draw) =>
      (stateKey == target && draw == 0.0) || CoveredAt(s, target, now + draw)
    case Reschedule(name, now) => s.states[name].key == name || CoveredAt(s, name, now)
    case _ => true
  }

  lemma PushCovers(s: State, key: string, due: real, k: string, at: real)
    requires Enabled(s, Push(key, due)) && CoveredAt(s, k, at)
    ensures CoveredAt(Next(s, Push(key, due)), k, at)
  {
    var s' := Next(s, Push(key, due));
    assert Entry(due, s.counter + 1, key) in s'.heap;
    if InHeap(s, k, at) {
      var e :| e in s.heap && e.key == k && e.due == at;
      assert e in s'.heap;
    }
  }

  lemma WorkerCovers(s: State, a: Action, k: string, at: real)
    requires a.TakeWork? || a.Snapshot? || a.Finish?
    requires Enabled(s, a) && CoveredAt(s, k, at)
    requires a.Snapshot? ==> k in s.states
    requires a.Finish? ==> s.workers[a.worker] != Polling(k)
    ensures CoveredAt(Next(s, a), k, at)
  {
    var s' := Next(s, a);
    if InWork(s, k) {
      if a.TakeWork? && k in s.queue {
        assert k == s.queue[0] || k in s.queue[1..];
        assert k == s.queue[0] ==> s'.workers[a.taker] == Holding(k);
      } else if exists w :: w in s.workers && s.workers[w] in {Holding(k), Polling(k)} {
        var w :| w in s.workers && s.workers[w] in {Holding(k), Polling(k)};
        assert w in s'.workers && s'.workers[w] in {Holding(k), Polling(k)};
      }
    }
  }

  lemma SchedulerCovers(s: State, a: Action, k: string)
    requires a.Pop? || a.Verify? || a.Enqueue?
    requires Enabled(s, a) && k in s.states && Covered(s, k)
    ensures Covered(Next(s, a), k)
  {
    var s' := Next(s, a);
    var due := s.states[k].nextDue;
    if a.Pop? && InHeap(s, k, due) {
      var e :| e in s.heap && e.key == k && e.due == due;
      assert e == a.entry || e in s'.heap;
    }
    if a.Enqueue? {
      assert s.phase.key in s'.queue;
    }
  }

  /** Any other step leaves what covers a server in place. */
  lemma OthersCover(s: State, a: Action, k: string, at: real)
    requires !a.Push? && !a.TakeWork? && !a.Snapshot? && !a.Finish? && !a.Pop? && !a.Verify? && !a.Enqueue?
    requires Enabled(s, a) && CoveredAt(s, k, at)
    ensures CoveredAt(Next(s, a), k, at)
  {
  }

  /** A server whose due time just changed has a push on the way. */
  lemma ChangedIsCovered(s: State, a: Action, k: string)
    requires NoneLost(s) && Enabled(s, a) && Keeps(s, a)
    requires k in Next(s, a).states && (k !in s.states || Next(s, a).states[k] != s.states[k])
    ensures Covered(Next(s, a), k)
  {
    var s' := Next(s, a);
    assert (k, s'.states[k].nextDue) in s'.spawned || CoveredAt(s, k, s'.states[k].nextDue);
    if (k, s'.states[k].nextDue) !in s'.spawned {
      OthersCover(s, a, k, s'.states[k].nextDue);
    }
  }

  lemma UnchangedIsCovered(s: State, a: Action, k: string)
    requires Enabled(s, a) && k in s.states && Covered(s, k)
    requires k in Next(s, a).states && Next(s, a).states[k] == s.states[k]
    ensures Covered(Next(s, a), k)
  {
    var due := s.states[k].nextDue;
    match a
    case Push(key, d) => PushCovers(s, key, d, k, due);
    case TakeWork(_) => WorkerCovers(s, a, k, due);
    case Snapshot(_) => WorkerCovers(s, a, k, due);
    case Finish(w, delay) =>
      if s.workers[w] == Polling(k) {
        assert (k, due) in Next(s, a).spawned;
      } else {
        WorkerCovers(s, a, k, due);
      }
    case Pop(_) => SchedulerCovers(s, a, k);
    case Verify => SchedulerCovers(s, a, k);
    case Enqueue => SchedulerCovers(s, a, k);
    case _ => OthersCover(s, a, k, due);
  }

  /** Scheduling a server under some key leaves any other cover as it was. */
  lemma CoverAfterPush(s: State, s': State, k: string, at: real, pushed: (string, real))
    requires s' == s.(states := s'.states, spawned := s.spawned + multiset{pushed})
    ensures CoveredAt(s', k, at) <==> CoveredAt(s, k, at) || pushed == (k, at)
  {
    assert InHeap(s', k, at) <==> InHeap(s, k, at);
    assert InWork(s', k) <==> InWork(s, k);
  }

  /** Exactly when the server that a force-ping fetched is still going to be polled. */
  lemma FetchCoversExactly(s: State, a: Action)
    requires a.FetchInsert? && Enabled(s, a)
    ensures Covered(Next(s, a), a.target) <==>
              (a.stateKey == a.target && a.draw == 0.0) || CoveredAt(s, a.target, a.fetchNow + a.draw)
  {
    var s' := Next(s, a);
    var due := a.fetchNow + a.draw;
    CoverAfterPush(s, s', a.target, due, (a.stateKey, a.fetchNow));
    hide CoveredAt;
    assert (a.stateKey, a.fetchNow) == (a.target, due) <==> a.stateKey == a.target && a.draw == 0.0;
  }

  /** Exactly when a triggered or force-pinged server is still going to be polled. */
  lemma RescheduleCoversExactly(s: State, a: Action)
    requires a.Reschedule? && Enabled(s, a)
    ensures Covered(Next(s, a), a.name) <==> s.states[a.name].key == a.name || CoveredAt(s, a.name, a.now)
  {
    CoverAfterPush(s, Next(s, a), a.name, a.now, (s.states[a.name].key, a.now));
    hide CoveredAt;
  }

  /**
   No tracked server is lost by any step, with two exceptions, and this says
   exactly when they lose one.
   */
  lemma NoneLostKeptExactlyWhen(s: State, a: Action)
    requires NoneLost(s) && Enabled(s, a)
    ensures NoneLost(Next(s, a)) <==> Keeps(s, a)
  {
    hide CoveredAt;
    var s' := Next(s, a);
    if Keeps(s, a) {
      forall k | k in s'.states ensures Covered(s', k) {
        if k in s.states && s'.states[k] == s.states[k] {
          UnchangedIsCovered(s, a, k);
        } else {
          ChangedIsCovered(s, a, k);
        }
      }
    } else if a.FetchInsert? {
      FetchCoversExactly(s, a);
    } else {
      RescheduleCoversExactly(s, a);
    }
  }

  // ---- Keys --------------------------------------------------------------------------------

  /** Fetches that store a server under the key asked for, due when scheduled. */
  predicate CleanFetches(actions: seq<Action>) {
    forall a :: a in actions && a.FetchInsert? ==> a.stateKey == a.target && a.draw == 0.0
  }

  lemma WellKeyedKept(s: State, a: Action)
    requires WellKeyed(s) && Enabled(s, a) && (a.FetchInsert? ==> a.stateKey == a.target)
    ensures WellKeyed(Next(s, a))
  {
  }

  /** A condition on the fetches alone under which no step of a run loses a server. */
  lemma {:induction false} CleanFetchesKeep(s: State, actions: seq<Action>)
    requires WellKeyed(s) && IsRun(s, actions) && CleanFetches(actions)
    ensures RunKeeps(s, actions) && WellKeyed(After(s, actions))
    decreases |actions|
  {
    hide Next, Enabled, CoveredAt, WellKeyed;
    if actions != [] {
      assert actions[0] in actions;
      WellKeyedKept(s, actions[0]);
      CleanStepKeeps(s, actions[0]);
      CleanFetchesKeep(Next(s, actions[0]), actions[1..]);
    }
  }

  lemma CleanStepKeeps(s: State, a: Action)
    requires WellKeyed(s) && Enabled(s, a) && (a.FetchInsert? ==> a.stateKey == a.target && a.draw == 0.0)
    ensures Keeps(s, a)
  {
    hide CoveredAt;
  }

  // ---- Whole runs ----------------------------------------------------------------------------

  ghost predicate RunKeeps(s: State, actions: seq<Action>)
    requires IsRun(s, actions)
    decreases |actions|
  {
    actions != [] ==> Keeps(s, actions[0]) && RunKeeps(Next(s, actions[0]), actions[1..])
  }

  /** Over every interleaving: no tracked server is lost, no wake-up is lost, and
      the heap order is respected. */
  lemma {:induction false} AlwaysInv(s: State, actions: seq<Action>)
    requires Inv(s) && IsRun(s, actions) && RunKeeps(s, actions)
    ensures Inv(After(s, actions))
    decreases |actions|
  {
    if actions != [] {
      HeapInvKept(s, actions[0]);
      WakeInvKept(s, actions[0]);
      NoneLostKeptExactlyWhen(s, actions[0]);
      AlwaysInv(Next(s, actions[0]), actions[1..]);
    }
  }

  /** The heap order and the wake-ups need no condition on fetches at all. */
  lemma {:induction false} AlwaysOrderedAndAwake(s: State, actions: seq<Action>)
    requires HeapInv(s) && WakeInv(s) && IsRun(s, actions)
    ensures HeapInv(After(s, actions)) && WakeInv(After(s, actions))
    decreases |actions|
  {
    if actions != [] {
      HeapInvKept(s, actions[0]);
      WakeInvKept(s, actions[0]);
      AlwaysOrderedAndAwake(Next(s, actions[0]), actions[1..]);
    }
  }
}
