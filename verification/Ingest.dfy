/**
 The ingest task of src/collector.rs: flush_batch over the buffer object, and
 the loop that collects payloads into batches.  Both are proved against the
 runs of IngestModel.
 */
module Ingest {
  import opened Json
  import opened Basics
  import opened RecordCodec
  import opened WalModel
  import opened WalBuffer
  import opened IngestModel

  ghost predicate Tracks(setup: Setup, wal: Buffer, b: Books)
    reads wal
  {
    wal.Valid() && wal.View() == b.wal && wal.codec == setup.codec && wal.limits == setup.limits
  }

  /** flush_batch; acked is what the monitoring service acknowledged meanwhile. */
  method FlushBatch(wal: Buffer, batch: seq<Value>, drainMax: nat, world: World, ghost setup: Setup, ghost b: Books)
    returns (acked: seq<Value>, ghost b': Books)
    requires Tracks(setup, wal, b) && setup.drainMax == drainMax
    modifies wal
    ensures Tracks(setup, wal, b')
    ensures b' == After(setup, b, Flush(batch, world))
    ensures b'.delivered == b.delivered + multiset(acked)
  {
    acked := [];
    b' := b.(handed := b.handed + multiset(batch));
    if world.sendOk {
      acked := batch;
      b' := b'.(delivered := b'.delivered + multiset(batch));
      var pending := wal.HasPending();
      if pending {
        ghost var drained := Drain(setup, b', world);
        var read := wal.ReadOldestBatch(drainMax, !world.readOk);
        match read {
          case Ok(Some((path, items))) =>
            if items != [] {
              if world.drainSendOk {
                acked := acked + items;
                var _ := wal.DeleteSegment(path, !world.deleteOk);
                assert multiset(acked) == multiset(batch) + multiset(items);
              }
            } else {
              var _ := wal.DeleteSegment(path, !world.deleteOk);
            }
          case Ok(None) =>
          case Failed =>
        }
        DrainKeepsValid(setup, b', world);
        DrainDelivers(setup, b', world);
        b' := drained;
      }
    } else {
      ghost var spilled := Spill(setup, b', batch, world);
      var _, _ := wal.WriteBatch(batch, SomeTicks(world, |batch|), true);
      b' := spilled;
    }
  }

  function SomeTicks(world: World, n: nat): (ticks: seq<Tick>)
    ensures ticks == world.Ticks(n) && |ticks| == n
  {
    world.Ticks(n)
  }

  /** A drain acknowledges the records it read, or none. */
  lemma DrainDelivers(setup: Setup, b: Books, world: World)
    ensures Drain(setup, b, world).delivered ==
            if OldestOther(b.wal).None? || !world.readOk then b.delivered
            else
              var items := Take(ReadAll(setup.codec, b.wal.disk[OldestOther(b.wal).value]), setup.drainMax);
              if items != [] && !world.drainSendOk then b.delivered else b.delivered + multiset(items)
  {
  }

  // ---- Batching ---------------------------------------------------------------------

  /** What the select in ingest_loop wakes up for. */
  datatype Event = Received(payload: Value) | DeadlinePassed

  datatype Batching = Batching(batches: seq<seq<Value>>, leftover: seq<Value>)

  function Collect(events: seq<Event>, batch: seq<Value>, batchSize: nat): Batching {
    if events == [] then Batching([], batch)
    else
      match events[0]
      case Received(payload) =>
        var grown := batch + [payload];
        if |grown| >= batchSize then Flushed(grown, Collect(events[1..], [], batchSize))
        else Collect(events[1..], grown, batchSize)
      case DeadlinePassed =>
        if batch != [] then Flushed(batch, Collect(events[1..], [], batchSize))
        else Collect(events[1..], [], batchSize)
  }

  function Flushed(batch: seq<Value>, rest: Batching): Batching {
    rest.(batches := [batch] + rest.batches)
  }

  function ReceivedPayloads(events: seq<Event>): seq<Value> {
    if events == [] then []
    else (if events[0].Received? then [events[0].payload] else []) + ReceivedPayloads(events[1..])
  }

  function Flatten(batches: seq<seq<Value>>): seq<Value> {
    if batches == [] then [] else batches[0] + Flatten(batches[1..])
  }

  lemma FlattenCons(batch: seq<Value>, batches: seq<seq<Value>>)
    ensures Flatten([batch] + batches) == batch + Flatten(batches)
  {
    assert ([batch] + batches)[1..] == batches;
  }

  /**
   Batching neither drops, repeats nor reorders payloads: the batches flushed, and
   the partial batch left when the channel closes, are what was received.  Every
   batch is nonempty and at most the batch size (or one, if that is larger).
   */
  lemma {:induction false} CollectKeepsEverything(events: seq<Event>, batch: seq<Value>, batchSize: nat)
    requires |batch| < Max(batchSize, 1)
    ensures var c := Collect(events, batch, batchSize);
            Flatten(c.batches) + c.leftover == batch + ReceivedPayloads(events)
            && (forall q :: q in c.batches ==> 0 < |q| <= Max(batchSize, 1))
            && |c.leftover| < Max(batchSize, 1)
  {
    if events == [] {
    } else {
      var rest := events[1..];
      match events[0]
      case Received(payload) =>
        var grown := batch + [payload];
        AssociativeConcat(batch, [payload], ReceivedPayloads(rest));
        if |grown| >= batchSize {
          CollectKeepsEverything(rest, [], batchSize);
          var c := Collect(rest, [], batchSize);
          FlattenCons(grown, c.batches);
          AssociativeConcat(grown, Flatten(c.batches), c.leftover);
          assert [] + ReceivedPayloads(rest) == ReceivedPayloads(rest);
        } else {
          CollectKeepsEverything(rest, grown, batchSize);
        }
      case DeadlinePassed =>
        CollectKeepsEverything(rest, [], batchSize);
        assert [] + ReceivedPayloads(rest) == ReceivedPayloads(rest);
        if batch != [] {
          var c := Collect(rest, [], batchSize);
          FlattenCons(batch, c.batches);
          AssociativeConcat(batch, Flatten(c.batches), c.leftover);
        }
    }
  }

  /** Between deadlines, a batch is flushed when it is full and not before. */
  lemma {:induction false} BatchesAreFull(events: seq<Event>, batch: seq<Value>, batchSize: nat)
    requires |batch| < Max(batchSize, 1) && forall e :: e in events ==> e.Received?
    ensures forall q :: q in Collect(events, batch, batchSize).batches ==> |q| == Max(batchSize, 1)
  {
    if events != [] {
      assert events[0] in events;
      var grown := batch + [events[0].payload];
      BatchesAreFull(events[1..], if |grown| >= batchSize then [] else grown, batchSize);
    }
  }

  function AtDeadline(before: Batching, after: Batching): Batching {
    Batching(before.batches + ((if before.leftover == [] then [] else [before.leftover]) + after.batches),
             after.leftover)
  }

  lemma FlushedAtDeadline(batch: seq<Value>, before: Batching, after: Batching)
    ensures AtDeadline(Flushed(batch, before), after) == Flushed(batch, AtDeadline(before, after))
  {
    AssociativeConcat([batch], before.batches,
                      (if before.leftover == [] then [] else [before.leftover]) + after.batches);
  }

  lemma DeadlineFirst(batch: seq<Value>, batchSize: nat, rest: seq<Event>)
    ensures Collect([DeadlinePassed] + rest, batch, batchSize)
            == AtDeadline(Batching([], batch), Collect(rest, [], batchSize))
  {
    assert ([DeadlinePassed] + rest)[1..] == rest;
    var after := Collect(rest, [], batchSize);
    assert [] + ([] + after.batches) == after.batches;
    assert [] + ([batch] + after.batches) == [batch] + after.batches;
  }

  lemma EventsUnfold(e: Event, events: seq<Event>, rest: seq<Event>)
    ensures ([e] + events + rest)[0] == e && ([e] + events + rest)[1..] == events + rest
    ensures ([e] + events)[1..] == events
  {
  }

  /** A deadline flushes what has been collected by then, if anything, and collecting
      starts again from nothing. */
  lemma {:induction false} DeadlineFlushes(events: seq<Event>, batch: seq<Value>, batchSize: nat, rest: seq<Event>)
    ensures Collect(events + ([DeadlinePassed] + rest), batch, batchSize)
            == AtDeadline(Collect(events, batch, batchSize), Collect(rest, [], batchSize))
  {
    hide AtDeadline;
    if events == [] {
      assert events + ([DeadlinePassed] + rest) == [DeadlinePassed] + rest;
      DeadlineFirst(batch, batchSize, rest);
    } else {
      var tail, after := events[1..], Collect(rest, [], batchSize);
      assert events == [events[0]] + tail;
      EventsUnfold(events[0], tail, [DeadlinePassed] + rest);
      match events[0]
      case Received(payload) =>
        var grown := batch + [payload];
        DeadlineFlushes(tail, if |grown| >= batchSize then [] else grown, batchSize, rest);
        FlushedAtDeadline(grown, Collect(tail, [], batchSize), after);
      case DeadlinePassed =>
        DeadlineFlushes(tail, [], batchSize, rest);
        FlushedAtDeadline(batch, Collect(tail, [], batchSize), after);
    }
  }

  /** The flush steps of a list of batches, the n-th answered by the n-th world. */
  ghost function Flushes(batches: seq<seq<Value>>, worlds: nat -> World, n: nat): seq<Step> {
    if batches == [] then []
    else [Flush(batches[0], worlds(n))] + Flushes(batches[1..], worlds, n + 1)
  }

  lemma FlushesCons(batch: seq<Value>, batches: seq<seq<Value>>, worlds: nat -> World, n: nat)
    ensures Flushes([batch] + batches, worlds, n)
            == [Flush(batch, worlds(n))] + Flushes(batches, worlds, n + 1)
    ensures ([Flush(batch, worlds(n))] + Flushes(batches, worlds, n + 1))[1..]
            == Flushes(batches, worlds, n + 1)
  {
    assert ([batch] + batches)[1..] == batches;
  }

  lemma RunCons(setup: Setup, b: Books, batch: seq<Value>, batches: seq<seq<Value>>, worlds: nat -> World, n: nat)
    requires WalModel.Valid(b.wal)
    ensures Run(setup, b, Flushes([batch] + batches, worlds, n))
            == Run(setup, After(setup, b, Flush(batch, worlds(n))), Flushes(batches, worlds, n + 1))
  {
    FlushesCons(batch, batches, worlds, n);
  }

  /**
   ingest_loop, from open to the closing of its channel: its effect on the buffer
   is the run of the batches that Collect makes of the events.
   */
  method IngestLoop(wal: Buffer, batchSize: nat, events: seq<Event>, worlds: nat -> World, ghost setup: Setup,
                    ghost b: Books)
    returns (leftover: seq<Value>, ghost b': Books)
    requires Tracks(setup, wal, b) && setup.drainMax == batchSize
    modifies wal
    ensures Tracks(setup, wal, b')
    ensures b' == Run(setup, b, Flushes(Collect(events, [], batchSize).batches, worlds, 0))
    ensures leftover == Collect(events, [], batchSize).leftover
  {
    var batch: seq<Value> := [];
    var flushes := 0;
    b' := b;
    assert events[0..] == events;
    for i := 0 to |events|
      invariant Tracks(setup, wal, b')
      invariant Collect(events[i..], batch, batchSize).leftover == Collect(events, [], batchSize).leftover
      invariant Run(setup, b', Flushes(Collect(events[i..], batch, batchSize).batches, worlds, flushes))
                == Run(setup, b, Flushes(Collect(events, [], batchSize).batches, worlds, 0))
    {
      assert events[i..][1..] == events[i + 1..];
      ghost var later := Collect(events[i + 1..], [], batchSize).batches;
      var due := false;
      match events[i] {
        case Received(payload) =>
          batch := batch + [payload];
          due := |batch| >= batchSize;
        case DeadlinePassed =>
          due := batch != [];
      }
      if due {
        RunCons(setup, b', batch, later, worlds, flushes);
        var acked;
        acked, b' := FlushBatch(wal, batch, batchSize, worlds(flushes), setup, b');
        batch := [];
        flushes := flushes + 1;
      }
    }
    leftover := batch;
  }

  lemma FlushHandsTheBatch(setup: Setup, b: Books, batch: seq<Value>, world: World)
    requires WalModel.Valid(b.wal)
    ensures After(setup, b, Flush(batch, world)).handed == b.handed + multiset(batch)
  {
  }

  lemma NoBatches(setup: Setup, b: Books, worlds: nat -> World, n: nat)
    requires WalModel.Valid(b.wal)
    ensures Run(setup, b, Flushes([], worlds, n)) == b
  {
  }

  lemma FirstAndRest<T>(s: seq<T>)
    requires s != []
    ensures s == [s[0]] + s[1..]
  {
  }

  lemma {:induction false} HandedIsFlattened(setup: Setup, b: Books, batches: seq<seq<Value>>, worlds: nat -> World,
                                             n: nat)
    requires WalModel.Valid(b.wal)
    ensures Run(setup, b, Flushes(batches, worlds, n)).handed == b.handed + multiset(Flatten(batches))
    decreases |batches|
  {
    hide Run, After, WalModel.Valid;
    if batches == [] {
      NoBatches(setup, b, worlds, n);
    } else {
      FirstAndRest(batches);
      RunCons(setup, b, batches[0], batches[1..], worlds, n);
      FlushHandsTheBatch(setup, b, batches[0], worlds(n));
      var b1 := After(setup, b, Flush(batches[0], worlds(n)));
      HandedIsFlattened(setup, b1, batches[1..], worlds, n + 1);
      MultisetAppend(batches[0], Flatten(batches[1..]));
      MultisetSum(b.handed, multiset(batches[0]), multiset(Flatten(batches[1..])));
    }
  }

  /** Every payload received is handed to flush_batch or left in the last partial
      batch, which is smaller than the batch size. */
  lemma ReceivedIsHandedOrLeft(setup: Setup, disk: Disk, events: seq<Event>, batchSize: nat, worlds: nat -> World)
    ensures var c := Collect(events, [], batchSize);
            var b := Run(setup, Opened(setup, disk), Flushes(c.batches, worlds, 0));
            multiset(ReceivedPayloads(events)) == b.handed + multiset(c.leftover) && |c.leftover| < Max(batchSize, 1)
  {
    var c := Collect(events, [], batchSize);
    CollectKeepsEverything(events, [], batchSize);
    HandedIsFlattened(setup, Opened(setup, disk), c.batches, worlds, 0);
    assert [] + ReceivedPayloads(events) == ReceivedPayloads(events);
    MultisetAppend(Flatten(c.batches), c.leftover);
  }
}
