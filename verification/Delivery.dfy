/**
 What flushes do to the buffer, seen from the files: a completed drain removes its
 segment and nothing else does anything to one, eviction takes no more than it must,
 and a run in which nothing goes wrong delivers or keeps every record exactly once.
 */
module Delivery {
  import opened Json
  import opened Basics
  import opened RecordCodec
  import opened SegmentNames
  import opened WalModel
  import opened WalGuarantees
  import opened IngestModel

  // ---- One successful flush --------------------------------------------------------------

  /** The records a drain would send. */
  ghost function NextOut(setup: Setup, b: Books): seq<Value>
    requires OldestOther(b.wal).Some?
  {
    Take(ReadAll(setup.codec, b.wal.disk[OldestOther(b.wal).value]), setup.drainMax)
  }

  /** The drain sends its records and the monitoring service acknowledges them. */
  ghost predicate Acknowledged(setup: Setup, b: Books, world: World) {
    OldestOther(b.wal).Some? && world.readOk && world.drainSendOk
  }

  /** The buffer without one of its segments. */
  ghost predicate Without(before: Wal, after: Wal, k: nat) {
    && k in before.disk && after.disk == before.disk - {k} && after.current == before.current
    && after.total + |before.disk[k]| == before.total
  }

  /** The same buffer, having lost nothing. */
  ghost predicate Untouched(b: Books, b': Books) {
    && b'.wal == b.wal && b'.evicted == b.evicted && b'.cutOff == b.cutOff && b'.torn == b.torn
    && b'.refused == b.refused && b'.unreadable == b.unreadable && b'.gone == b.gone && b'.history == b.history
  }

  /**
   A flush whose batch is acknowledged takes the oldest closed segment out of the
   buffer, with its length, exactly when the drain completes, and then repeats nothing;
   otherwise it leaves the buffer as it was.
   */
  lemma FlushRemovesWhatItDrained(setup: Setup, b: Books, batch: seq<Value>, world: World)
    requires Valid(b.wal) && world.sendOk
    ensures var b' := After(setup, b, Flush(batch, world));
            if Completes(setup, b, world) then
              Without(b.wal, b'.wal, OldestOther(b.wal).value) && b'.repeated == b.repeated
            else Untouched(b, b')
  {
    if Completes(setup, b, world) {
      RemoveKeepsValid(b.wal, OldestOther(b.wal).value);
    }
  }

  /** What such a flush has acknowledged: its batch, and what the drain sent, which
      counts as repeated exactly when the segment could not be deleted. */
  lemma FlushDelivers(setup: Setup, b: Books, batch: seq<Value>, world: World)
    requires Valid(b.wal) && world.sendOk
    ensures var b' := After(setup, b, Flush(batch, world));
            var sent := if Acknowledged(setup, b, world) then multiset(NextOut(setup, b)) else multiset{};
            && b'.delivered == b.delivered + multiset(batch) + sent
            && b'.repeated == b.repeated + (if world.deleteOk then multiset{} else sent)
            && b'.handed == b.handed + multiset(batch)
  {
  }

  // ---- A crash ----------------------------------------------------------------------------

  /** A crash leaves every closed segment as it is, and of the one being written a
      prefix; cutting nothing off, it tears nothing. */
  lemma CrashTouchesOnlyTheCurrent(setup: Setup, b: Books, keep: nat)
    requires Valid(b.wal)
    ensures var b' := After(setup, b, Crash(keep));
            && b'.wal.current == None && b'.wal.disk.Keys == b.wal.disk.Keys
            && (forall k :: k in OtherKeys(b.wal) ==> b'.wal.disk[k] == b.wal.disk[k])
            && (b.wal.current.Some? ==>
                  var ts := b.wal.current.value.ts;
                  b'.wal.disk[ts] <= b.wal.disk[ts]
                  && (keep >= |b.wal.disk[ts]| ==> b'.wal.disk == b.wal.disk && b'.torn == b.torn))
            && (b.wal.current.None? ==> b'.torn == b.torn)
            && b'.delivered == b.delivered && b'.evicted == b.evicted && b'.cutOff == b.cutOff
  {
  }

  // ---- Nothing is repeated, and the buffer empties ------------------------------------------

  ghost predicate DeletesSucceed(steps: seq<Step>) {
    forall s :: s in steps && s.Flush? ==> s.world.deleteOk
  }

  /** While every delete succeeds, nothing acknowledged is sent again. */
  lemma {:induction false} NothingRepeated(setup: Setup, b: Books, steps: seq<Step>)
    requires Valid(b.wal) && DeletesSucceed(steps)
    ensures Run(setup, b, steps).repeated == b.repeated
    decreases |steps|
  {
    hide Valid, After, DeletesSucceed;
    if steps != [] {
      DeletesFirst(steps);
      StepRepeatsNothing(setup, b, steps[0]);
      NothingRepeated(setup, After(setup, b, steps[0]), steps[1..]);
    }
  }

  lemma DeletesFirst(steps: seq<Step>)
    requires steps != [] && DeletesSucceed(steps)
    ensures DeletesSucceed(steps[1..]) && (steps[0].Flush? ==> steps[0].world.deleteOk)
  {
    assert steps[0] in steps;
  }

  lemma StepRepeatsNothing(setup: Setup, b: Books, step: Step)
    requires Valid(b.wal) && (step.Flush? ==> step.world.deleteOk)
    ensures After(setup, b, step).repeated == b.repeated
  {
  }

  /** Every send, read and delete of the flush succeeds. */
  predicate AllGoesWell(step: Step) {
    step.Flush? && step.world.sendOk && step.world.readOk && step.world.drainSendOk && step.world.deleteOk
  }

  lemma GoodFlushRemovesOne(setup: Setup, b: Books, step: Step)
    requires Valid(b.wal) && AllGoesWell(step)
    ensures var w' := After(setup, b, step).wal;
            && w'.current == b.wal.current
            && OtherKeys(w') == (if OldestOther(b.wal).Some? then OtherKeys(b.wal) - {OldestOther(b.wal).value} else {})
            && (w'.current.Some? ==>
                  w'.current.value.ts in w'.disk
                  && w'.disk[w'.current.value.ts] == b.wal.disk[b.wal.current.value.ts])
  {
    FlushRemovesWhatItDrained(setup, b, step.batch, step.world);
  }

  /**
   As many successful flushes as there are closed segments empty the buffer of them:
   whatever was buffered, all that is left then is the segment being written.
   */
  lemma {:induction false} FlushesEmptyTheBuffer(setup: Setup, b: Books, steps: seq<Step>)
    requires Valid(b.wal) && (forall s :: s in steps ==> AllGoesWell(s))
    requires |steps| >= |OtherKeys(b.wal)|
    ensures var w' := Run(setup, b, steps).wal;
            && OtherKeys(w') == {} && w'.current == b.wal.current
            && (w'.current.Some? ==>
                  var ts := w'.current.value.ts;
                  w'.disk == map[ts := b.wal.disk[ts]] && w'.total == |b.wal.disk[ts]|)
            && (w'.current.None? ==> w'.disk == map[] && w'.total == 0)
    decreases |steps|
  {
    hide After, AllGoesWell, OldestOther, Valid;
    if steps == [] {
      OnlyTheCurrent(b.wal);
    } else {
      assert steps[0] in steps;
      GoodFlushRemovesOne(setup, b, steps[0]);
      OldestIsOther(b.wal);
      FlushesEmptyTheBuffer(setup, After(setup, b, steps[0]), steps[1..]);
    }
  }

  lemma OldestIsOther(w: Wal)
    ensures OldestOther(w).Some? ==> OldestOther(w).value in OtherKeys(w)
    ensures OldestOther(w).None? ==> OtherKeys(w) == {}
  {
  }

  lemma OnlyTheCurrent(w: Wal)
    requires Valid(w) && OtherKeys(w) == {}
    ensures w.current.Some? ==>
              var ts := w.current.value.ts;
              ts in w.disk && w.disk == map[ts := w.disk[ts]] && w.total == |w.disk[ts]|
    ensures w.current.None? ==> w.disk == map[] && w.total == 0
  {
    if w.current.Some? {
      var ts := w.current.value.ts;
      assert w.disk.Keys == {ts};
      assert w.disk - {ts} == map[];
      JoinedRemove(w.disk, ts);
    } else {
      assert w.disk == map[];
    }
  }

  // ---- Eviction takes no more than it must ------------------------------------------------

  function Lengths(files: seq<seq<byte>>): nat {
    if files == [] then 0 else |files[0]| + Lengths(files[1..])
  }

  lemma NoLengths()
    ensures Lengths([]) == 0
  {
  }

  lemma LengthsCons(file: seq<byte>, files: seq<seq<byte>>)
    ensures Lengths([file] + files) == |file| + Lengths(files)
  {
    assert ([file] + files)[1..] == files;
  }

  /**
   Eviction takes nothing while the record fits in the budget; what it takes accounts
   for the whole drop of the byte count; and without its last victim, the record would
   still not have fitted.
   */
  lemma {:induction false} EvictsNoMoreThanNeeded(limits: Limits, w: Wal, need: nat, failsAfter: Option<nat>)
    requires Valid(w)
    ensures var r := EvictLoop(limits, w, need, failsAfter);
            && r.wal.total + Lengths(r.victims) == w.total
            && (r.victims == [] ==> r.wal == w)
            && (r.victims != [] ==> r.wal.total + |r.victims[|r.victims| - 1]| + need > limits.maxBytes)
            && (w.total + need <= limits.maxBytes ==> r.victims == [] && r.ok)
            && (failsAfter == None ==> r.ok)
    decreases w.disk.Keys
  {
    hide Valid, Lengths, Bytes, OldestOther;
    NoLengths();
    if w.total + need > limits.maxBytes && OldestOther(w).Some? && failsAfter != Some(0) {
      var k := OldestOther(w).value;
      RemoveKeepsValid(w, k);
      EvictsNoMoreThanNeeded(limits, Remove(w, k), need, OneLess(failsAfter));
      LengthsCons(w.disk[k], EvictLoop(limits, Remove(w, k), need, OneLess(failsAfter)).victims);
    }
  }

  function Sizes(payloads: seq<seq<byte>>): nat {
    if payloads == [] then 0 else RecordSize(payloads[0]) + Sizes(payloads[1..])
  }

  lemma ItemFits(limits: Limits, w: Wal, payload: seq<byte>, tick: Tick)
    requires Valid(w) && w.total + RecordSize(payload) <= limits.maxBytes
    ensures var r := WriteItem(limits, w, payload, tick);
            r.victims == [] && r.wal.total <= w.total + RecordSize(payload) && r.count <= 1
  {
    EvictsNoMoreThanNeeded(limits, w, RecordSize(payload), tick.evictFailsAfter);
  }

  /** A batch that fits in the budget evicts nothing. */
  lemma {:induction false} BatchFits(limits: Limits, w: Wal, payloads: seq<seq<byte>>, ticks: seq<Tick>)
    requires Valid(w) && |payloads| == |ticks| && w.total + Sizes(payloads) <= limits.maxBytes
    ensures var r := WriteBatch(limits, w, payloads, ticks);
            r.victims == [] && r.wal.total <= w.total + Sizes(payloads)
    decreases |payloads|
  {
    hide Valid, WriteItem;
    if payloads != [] {
      ItemFits(limits, w, payloads[0], ticks[0]);
      WriteItemKeepsValid(limits, w, payloads[0], ticks[0]);
      var one := WriteItem(limits, w, payloads[0], ticks[0]);
      if one.count != 0 {
        BatchFits(limits, one.wal, payloads[1..], ticks[1..]);
      }
    }
  }

  /** The bytes a run appends at most. */
  ghost function Appended(setup: Setup, steps: seq<Step>): nat
    decreases |steps|
  {
    if steps == [] then 0
    else (if Spills(steps[0]) then Sizes(Payloads(setup.codec, steps[0].batch)) else 0) + Appended(setup, steps[1..])
  }

  lemma StepFits(setup: Setup, b: Books, step: Step, more: nat)
    requires Valid(b.wal)
    requires more == if Spills(step) then Sizes(Payloads(setup.codec, step.batch)) else 0
    requires b.wal.total + more <= setup.limits.maxBytes
    ensures var b' := After(setup, b, step); b'.evicted == b.evicted && b'.wal.total <= b.wal.total + more
  {
    match step
    case Crash(keep) =>
      CrashShrinks(setup, b, keep);
    case Flush(batch, world) =>
      if world.sendOk {
        FlushRemovesWhatItDrained(setup, b, batch, world);
        FlushEvictsNothing(setup, b, batch, world);
      } else {
        SpillFits(setup, b, batch, world);
      }
  }

  lemma FlushEvictsNothing(setup: Setup, b: Books, batch: seq<Value>, world: World)
    requires Valid(b.wal) && world.sendOk
    ensures After(setup, b, Flush(batch, world)).evicted == b.evicted
  {
  }

  lemma SpillFits(setup: Setup, b: Books, batch: seq<Value>, world: World)
    requires Valid(b.wal) && !world.sendOk
    requires b.wal.total + Sizes(Payloads(setup.codec, batch)) <= setup.limits.maxBytes
    ensures var b' := After(setup, b, Flush(batch, world));
            b'.evicted == b.evicted && b'.wal.total <= b.wal.total + Sizes(Payloads(setup.codec, batch))
  {
    hide Valid, WriteBatch, Sort, Sizes;
    BatchFits(setup.limits, b.wal, Payloads(setup.codec, batch), world.Ticks(|batch|));
    assert Recovered(setup.codec, []) == [];
  }

  lemma CrashShrinks(setup: Setup, b: Books, keep: nat)
    requires Valid(b.wal)
    ensures var b' := After(setup, b, Crash(keep)); b'.evicted == b.evicted && b'.wal.total <= b.wal.total
  {
    if b.wal.current.Some? {
      CutShrinks(b.wal.disk, b.wal.current.value.ts, keep);
    }
  }

  /** While everything ever written fits in the budget, nothing is evicted. */
  lemma {:induction false} NothingEvicted(setup: Setup, b: Books, steps: seq<Step>)
    requires Valid(b.wal) && b.wal.total + Appended(setup, steps) <= setup.limits.maxBytes
    ensures Run(setup, b, steps).evicted == b.evicted
    decreases |steps|
  {
    hide Valid, After, Sizes;
    if steps != [] {
      StepFits(setup, b, steps[0], Appended(setup, steps) - Appended(setup, steps[1..]));
      NothingEvicted(setup, After(setup, b, steps[0]), steps[1..]);
    }
  }

  // ---- Writing without failures --------------------------------------------------------------

  predicate Works(tick: Tick) {
    tick.evictFailsAfter == None && !tick.rotateFails && !tick.appendFails
  }

  lemma WorkingItemIsStored(limits: Limits, w: Wal, payload: seq<byte>, tick: Tick)
    requires Valid(w)
    ensures Works(tick) ==> WriteItem(limits, w, payload, tick).count == 1
    ensures tick.appendFails ==> WriteItem(limits, w, payload, tick).count == 0
  {
    EvictsNoMoreThanNeeded(limits, w, RecordSize(payload), tick.evictFailsAfter);
  }

  /** Write_batch stores all of a batch when no operation fails, and nothing from a
      failing append on. */
  lemma {:induction false} StoresUntilFailure(limits: Limits, w: Wal, payloads: seq<seq<byte>>, ticks: seq<Tick>,
                                              n: nat)
    requires Valid(w) && n <= |payloads| == |ticks| && (forall i :: 0 <= i < n ==> Works(ticks[i]))
    ensures WriteBatch(limits, w, payloads, ticks).count >= n
    ensures n < |ticks| && ticks[n].appendFails ==> WriteBatch(limits, w, payloads, ticks).count == n
    decreases |payloads|
  {
    hide Valid, WriteItem, Works;
    if payloads != [] {
      WorkingItemIsStored(limits, w, payloads[0], ticks[0]);
      WriteItemKeepsValid(limits, w, payloads[0], ticks[0]);
      var one := WriteItem(limits, w, payloads[0], ticks[0]);
      if n > 0 {
        StoresUntilFailure(limits, one.wal, payloads[1..], ticks[1..], n - 1);
      }
    }
  }

  /**
   A write never evicts the segment it found being written, even if it goes on to close
   it; and a rotation that fails leaves no segment being written, so that every file
   can be drained or evicted.
   */
  lemma WriteKeepsTheCurrent(limits: Limits, w: Wal, payload: seq<byte>, tick: Tick)
    requires Valid(w)
    ensures var r := WriteItem(limits, w, payload, tick);
            && (w.current.Some? ==>
                  w.current.value.ts in r.wal.disk
                  && w.disk[w.current.value.ts] <= r.wal.disk[w.current.value.ts])
            && (r.wal.current.None? && w.current.Some? ==> r.count == 0 && tick.rotateFails)
            && (NeedsRotate(limits, w, RecordSize(payload)) && tick.rotateFails && r.wal.current.Some? ==>
                  r.wal.current == w.current && tick.evictFailsAfter.Some?)
  {
    EvictLoopKeepsValid(limits, w, RecordSize(payload), tick.evictFailsAfter);
    EvictsNoMoreThanNeeded(limits, w, RecordSize(payload), tick.evictFailsAfter);
  }

  /** No file operation of a spill fails. */
  ghost predicate WritesSucceed(steps: seq<Step>) {
    forall s :: s in steps && Spills(s) ==> forall i: nat :: Works(s.world.tick(i))
  }

  lemma StepRefusesNothing(setup: Setup, b: Books, step: Step)
    requires Valid(b.wal) && (Spills(step) ==> forall i: nat :: Works(step.world.tick(i)))
    ensures After(setup, b, step).refused == b.refused
  {
    hide Valid, WriteBatch, Works, Sort;
    if Spills(step) {
      StoresUntilFailure(setup.limits, b.wal, Payloads(setup.codec, step.batch), step.world.Ticks(|step.batch|),
                         |step.batch|);
      assert step.batch[|step.batch|..] == [];
    }
  }

  lemma {:induction false} NothingRefused(setup: Setup, b: Books, steps: seq<Step>)
    requires Valid(b.wal) && WritesSucceed(steps)
    ensures Run(setup, b, steps).refused == b.refused
    decreases |steps|
  {
    hide Valid, After, Works;
    if steps != [] {
      assert steps[0] in steps;
      StepRefusesNothing(setup, b, steps[0]);
      NothingRefused(setup, After(setup, b, steps[0]), steps[1..]);
    }
  }

  ghost predicate NoCrash(steps: seq<Step>) {
    forall s :: s in steps ==> s.Flush?
  }

  lemma {:induction false} NothingTorn(setup: Setup, b: Books, steps: seq<Step>)
    requires Valid(b.wal) && NoCrash(steps)
    ensures Run(setup, b, steps).torn == b.torn
    decreases |steps|
  {
    if steps != [] {
      assert steps[0] in steps;
      NothingTorn(setup, After(setup, b, steps[0]), steps[1..]);
    }
  }

  // ---- Exactly once ---------------------------------------------------------------------------

  /** A run that stays within all limits and in which no file operation fails: only
      sends do, as often as they like. */
  ghost predicate OnlySendsFail(setup: Setup, disk: Disk, steps: seq<Step>) {
    var b := Opened(setup, disk);
    && AllStorable(setup, steps) && RunOk(Unused, setup, b, steps) && AlwaysDrainable(setup, b, steps)
    && b.wal.total + Appended(setup, steps) <= setup.limits.maxBytes
    && NoCrash(steps) && WritesSucceed(steps) && DeletesSucceed(steps)
  }

  lemma NothingAside(setup: Setup, disk: Disk, steps: seq<Step>)
    requires OnlySendsFail(setup, disk, steps)
    ensures var b := Run(setup, Opened(setup, disk), steps);
            b.repeated == b.evicted == b.cutOff == b.refused == b.unreadable == b.torn == multiset{}
  {
    var b := Opened(setup, disk);
    FreshlyOpened(setup, 0, disk);
    NothingYet(setup, disk);
    hide *;
    Unfolded(setup, disk, steps);
    NothingRepeated(setup, b, steps);
    NothingCutOff(setup, b, steps);
    NothingUnreadable(setup, b, steps);
    NothingRefused(setup, b, steps);
    NothingTorn(setup, b, steps);
    NothingEvicted(setup, b, steps);
  }

  lemma NothingYet(setup: Setup, disk: Disk)
    ensures var b := Opened(setup, disk);
            b.repeated == b.evicted == b.cutOff == b.refused == b.unreadable == b.torn == multiset{}
  {
  }

  lemma Unfolded(setup: Setup, disk: Disk, steps: seq<Step>)
    requires OnlySendsFail(setup, disk, steps) && Valid(Opened(setup, disk).wal)
    ensures var b := Opened(setup, disk);
            && AllStorable(setup, steps) && RunOk(Unused, setup, b, steps) && AlwaysDrainable(setup, b, steps)
            && b.wal.total + Appended(setup, steps) <= setup.limits.maxBytes
            && NoCrash(steps) && WritesSucceed(steps) && DeletesSucceed(steps)
  {
    hide Opened, Valid, AllStorable, RunOk, AlwaysDrainable, Appended, NoCrash, WritesSucceed, DeletesSucceed;
  }

  lemma StorableIsWritable(setup: Setup, steps: seq<Step>)
    requires AllStorable(setup, steps)
    ensures AllWritable(setup, steps)
  {
  }

  lemma AllAccounted(setup: Setup, disk: Disk, steps: seq<Step>)
    requires OnlySendsFail(setup, disk, steps)
    ensures AllWritable(setup, steps) && RunOk(Reusing, setup, Opened(setup, disk), steps)
  {
    FreshlyOpened(setup, 0, disk);
    hide *;
    Unfolded(setup, disk, steps);
    StorableIsWritable(setup, steps);
    StricterRun(Unused, Reusing, setup, Opened(setup, disk), steps);
  }

  /**
   Exactly once: over every such run, what was found at open and what was handed in is
   what has been delivered and what is on disk, each record as often as it was handed
   in, whatever sends failed.
   */
  lemma ExactlyOnce(setup: Setup, disk: Disk, steps: seq<Step>)
    requires OnlySendsFail(setup, disk, steps)
    ensures var b := Run(setup, Opened(setup, disk), steps);
            OnDisk(setup.codec, disk) + b.handed == b.delivered + OnDisk(setup.codec, b.wal.disk)
  {
    FreshlyOpened(setup, 0, disk);
    hide *;
    AllAccounted(setup, disk, steps);
    NothingUnaccounted(setup, disk, steps);
    NothingAside(setup, disk, steps);
    var b := Run(setup, Opened(setup, disk), steps);
    TwoColumns(OnDisk(setup.codec, disk), b.handed, b.delivered, OnDisk(setup.codec, b.wal.disk));
  }

  lemma TwoColumns(found: multiset<Value>, handed: multiset<Value>, delivered: multiset<Value>, kept: multiset<Value>)
    ensures found + handed + multiset{} == found + handed
    ensures delivered + kept + multiset{} + multiset{} + (multiset{} + multiset{}) + multiset{} == delivered + kept
  {
  }
}
