/**
 When a configuration rules out that a drain cuts records off: a bound on how
 many records a segment can hold, carried through every run.
 */
module DrainLimit {
  import opened Basics
  import opened IngestModel
  import opened Json
  import opened RecordCodec
  import opened WalGuarantees
  import opened WalModel

  // ---- How many records a file can hold ------------------------------------------------

  /** Every whole frame the reader passes is at least r bytes long. */
  predicate FramesAtLeast(bytes: seq<byte>, r: nat)
    decreases |bytes|
  {
    var scan := NextFrame(bytes);
    scan.Frame? ==> scan.Size() >= r && FramesAtLeast(bytes[scan.Size()..], r)
  }

  lemma {:induction false} RecordsFit(codec: Codec, bytes: seq<byte>, r: nat)
    requires FramesAtLeast(bytes, r)
    ensures |ReadAll(codec, bytes)| * r <= |bytes|
    decreases |bytes|
  {
    var scan := NextFrame(bytes);
    if scan.Frame? {
      var rest := bytes[scan.Size()..];
      RecordsFit(codec, rest, r);
      OneMore(|Accepted(codec, scan)|, |ReadAll(codec, rest)|, r, scan.Size());
    }
  }

  lemma OneMore(one: nat, n: nat, r: nat, size: nat)
    requires one <= 1 && r <= size
    ensures (one + n) * r <= size + n * r
  {
    assert (one + n) * r == one * r + n * r;
  }

  lemma {:induction false} CutKeepsFrames(bytes: seq<byte>, n: nat, r: nat)
    requires FramesAtLeast(bytes, r) && n <= |bytes|
    ensures FramesAtLeast(bytes[..n], r)
    decreases n
  {
    var cut := bytes[..n];
    var scan := NextFrame(cut);
    if scan.Frame? {
      NextFrameIsLocal(cut, bytes[n..]);
      assert cut + bytes[n..] == bytes;
      assert cut[scan.Size()..] == bytes[scan.Size()..][..n - scan.Size()];
      CutKeepsFrames(bytes[scan.Size()..], n - scan.Size(), r);
    }
  }

  lemma OneRecord(codec: Codec, payload: seq<byte>, r: nat)
    requires |payload| < U32_RANGE && r <= RecordSize(payload)
    ensures FramesAtLeast(EncodeRecord(payload), r) && |ReadAll(codec, EncodeRecord(payload))| <= 1
  {
    var record := EncodeRecord(payload);
    if |payload| <= MAX_PAYLOAD {
      EncodedRecordScans(payload, []);
      assert record + [] == record;
    } else {
      OversizeBlocks(payload);
    }
  }

  lemma {:induction false} AppendKeepsFrames(codec: Codec, a: seq<byte>, payload: seq<byte>, r: nat)
    requires Untorn(a) && FramesAtLeast(a, r) && |payload| < U32_RANGE && r <= RecordSize(payload)
    ensures FramesAtLeast(a + EncodeRecord(payload), r)
    decreases |a|
  {
    var record := EncodeRecord(payload);
    if a == [] {
      assert a + record == record;
      OneRecord(codec, payload, r);
    } else if NextFrame(a).Frame? {
      NextFrameIsLocal(a, record);
      AppendKeepsFrames(codec, a[NextFrame(a).Size()..], payload, r);
    }
  }

  lemma AppendStaysUntorn(codec: Codec, a: seq<byte>, payload: seq<byte>)
    requires Untorn(a) && |payload| < U32_RANGE
    ensures Untorn(a + EncodeRecord(payload))
  {
    var record := EncodeRecord(payload);
    if Blocked(a) {
      BlockedStays(codec, a, record);
    } else if |payload| <= MAX_PAYLOAD {
      EncodedRecordScans(payload, []);
      assert record + [] == record;
      FramedAppend(a, record);
    } else {
      OversizeBlocks(payload);
      BlockedBehind(a, record);
    }
  }

  // ---- Sparse directories -----------------------------------------------------------------

  /** A file within the segment limit, or with one record, of records of r bytes or more. */
  predicate Few(codec: Codec, limits: Limits, r: nat, bytes: seq<byte>) {
    FramesAtLeast(bytes, r) && (|bytes| <= limits.segmentMaxBytes || |ReadAll(codec, bytes)| <= 1)
  }

  ghost predicate Sparse(codec: Codec, limits: Limits, r: nat, before: Disk, w: Wal) {
    && SizeExact(w) && CurrentUntorn(w)
    && (forall k :: k in w.disk ==> (k in before && before[k] == w.disk[k]) || Few(codec, limits, r, w.disk[k]))
    && (w.current.Some? ==> Few(codec, limits, r, w.disk[w.current.value.ts]))
  }

  lemma GrownIsFew(codec: Codec, limits: Limits, r: nat, file: seq<byte>, payload: seq<byte>)
    requires Untorn(file) && Few(codec, limits, r, file) && |payload| < U32_RANGE && r <= RecordSize(payload)
    requires file == [] || |file| + RecordSize(payload) <= limits.segmentMaxBytes
    ensures Few(codec, limits, r, file + EncodeRecord(payload)) && Untorn(file + EncodeRecord(payload))
  {
    AppendKeepsFrames(codec, file, payload, r);
    AppendStaysUntorn(codec, file, payload);
    if file == [] {
      assert file + EncodeRecord(payload) == EncodeRecord(payload);
      OneRecord(codec, payload, r);
    }
  }

  lemma AppendStaysSparse(codec: Codec, limits: Limits, r: nat, before: Disk, w: Wal, payload: seq<byte>, now: nat)
    requires Sparse(codec, limits, r, before, w) && |payload| < U32_RANGE && r <= RecordSize(payload)
    requires NeedsRotate(limits, w, RecordSize(payload)) ==> Meets(Unused, w.disk, now)
    ensures var w1 := if NeedsRotate(limits, w, RecordSize(payload)) then Rotate(w, now) else w;
            Sparse(codec, limits, r, before, w1) && Sparse(codec, limits, r, before, Append(w1, payload))
  {
    assert Few(codec, limits, r, []) && Untorn([]);
    hide Few, Untorn;
    var w1 := if NeedsRotate(limits, w, RecordSize(payload)) then Rotate(w, now) else w;
    GrownIsFew(codec, limits, r, w1.disk[w1.current.value.ts], payload);
  }

  lemma EvictLoopStaysSparse(codec: Codec, limits: Limits, r: nat, before: Disk, w: Wal, need: nat,
                             failsAfter: Option<nat>)
    requires Valid(w) && Sparse(codec, limits, r, before, w)
    ensures Sparse(codec, limits, r, before, EvictLoop(limits, w, need, failsAfter).wal)
  {
    hide Few, Untorn, EvictLoop;
    EvictLoopKeepsValid(limits, w, need, failsAfter);
  }

  lemma WriteItemStaysSparse(codec: Codec, limits: Limits, r: nat, before: Disk, w: Wal, payload: seq<byte>, tick: Tick)
    requires Valid(w) && Sparse(codec, limits, r, before, w) && |payload| < U32_RANGE && r <= RecordSize(payload)
    requires RotationOk(Unused, limits, w, payload, tick)
    ensures Sparse(codec, limits, r, before, WriteItem(limits, w, payload, tick).wal)
  {
    hide EvictLoop, Few, Untorn;
    var need := RecordSize(payload);
    EvictLoopKeepsValid(limits, w, need, tick.evictFailsAfter);
    EvictLoopStaysSparse(codec, limits, r, before, w, need, tick.evictFailsAfter);
    var e := EvictLoop(limits, w, need, tick.evictFailsAfter);
    if e.ok {
      AppendStaysSparse(codec, limits, r, before, e.wal, payload, tick.now);
    }
  }

  lemma {:induction false} WriteBatchStaysSparse(codec: Codec, limits: Limits, r: nat, before: Disk, w: Wal,
                                                 payloads: seq<seq<byte>>, ticks: seq<Tick>)
    requires |payloads| == |ticks| && forall p :: p in payloads ==> |p| < U32_RANGE && r <= RecordSize(p)
    requires Valid(w) && Sparse(codec, limits, r, before, w) && RotationsOk(Unused, limits, w, payloads, ticks)
    ensures Sparse(codec, limits, r, before, WriteBatch(limits, w, payloads, ticks).wal)
    decreases |payloads|
  {
    hide Valid, Sparse, RotationOk, WriteItem;
    if payloads != [] {
      WriteItemKeepsValid(limits, w, payloads[0], ticks[0]);
      WriteItemStaysSparse(codec, limits, r, before, w, payloads[0], ticks[0]);
      var one := WriteItem(limits, w, payloads[0], ticks[0]);
      if one.count == 1 {
        WriteBatchStaysSparse(codec, limits, r, before, one.wal, payloads[1..], ticks[1..]);
      } else {
        CountIsOneOrZero(limits, w, payloads[0], ticks[0]);
      }
    }
  }

  lemma CountIsOneOrZero(limits: Limits, w: Wal, payload: seq<byte>, tick: Tick)
    requires Valid(w)
    ensures WriteItem(limits, w, payload, tick).count <= 1
  {
  }

  lemma CutIsFew(codec: Codec, limits: Limits, r: nat, bytes: seq<byte>, keep: nat)
    requires Few(codec, limits, r, bytes)
    ensures Few(codec, limits, r, Take(bytes, keep))
  {
    if keep < |bytes| {
      CutKeepsFrames(bytes, keep, r);
      TruncationKeepsAPrefix(codec, bytes, keep);
    }
  }

  // ---- Runs -------------------------------------------------------------------------------

  /** No record of a batch that goes to disk takes less than r bytes. */
  ghost predicate RecordsAtLeast(setup: Setup, r: nat, steps: seq<Step>) {
    forall s :: s in steps && Spills(s) ==> forall v :: v in s.batch ==> r <= RecordSize(setup.codec.encode(v))
  }

  lemma SpillStaysSparse(setup: Setup, r: nat, before: Disk, b: Books, batch: seq<Value>, world: World)
    requires Writable(setup.codec, batch) && forall v :: v in batch ==> r <= RecordSize(setup.codec.encode(v))
    requires Valid(b.wal) && Sparse(setup.codec, setup.limits, r, before, b.wal)
    requires RotationsOk(Unused, setup.limits, b.wal, Payloads(setup.codec, batch), world.Ticks(|batch|))
    ensures Sparse(setup.codec, setup.limits, r, before, Spill(setup, b, batch, world).wal)
  {
    hide Sparse, Valid, RotationsOk, WriteBatch;
    var ps := Payloads(setup.codec, batch);
    forall p | p in ps ensures |p| < U32_RANGE && r <= RecordSize(p) {
      var i :| 0 <= i < |ps| && ps[i] == p;
      assert batch[i] in batch;
    }
    WriteBatchStaysSparse(setup.codec, setup.limits, r, before, b.wal, ps, world.Ticks(|batch|));
  }

  lemma StepStaysSparse(setup: Setup, r: nat, before: Disk, b: Books, step: Step)
    requires Valid(b.wal) && Sparse(setup.codec, setup.limits, r, before, b.wal)
    requires AllWritable(setup, [step]) && RecordsAtLeast(setup, r, [step]) && StepOk(Unused, setup, b, step)
    ensures Sparse(setup.codec, setup.limits, r, before, After(setup, b, step).wal)
  {
    hide Few, Untorn, WriteBatch, RotationsOk;
    assert step in [step];
    match step
    case Crash(keep) =>
      if b.wal.current.Some? {
        CutIsFew(setup.codec, setup.limits, r, b.wal.disk[b.wal.current.value.ts], keep);
      }
    case Flush(batch, world) =>
      if !world.sendOk {
        SpillStaysSparse(setup, r, before, b.(handed := b.handed + multiset(batch)), batch, world);
      }
  }

  /** The files found at open, none of them with more records than a drain reads. */
  ghost predicate FoundDrainable(setup: Setup, disk: Disk) {
    forall k :: k in disk ==> |ReadAll(setup.codec, disk[k])| <= setup.drainMax
  }

  /** A drain reads at least one record, and no segment limit's worth of the
      shortest records is more than a drain reads. */
  predicate DrainsWhole(setup: Setup, r: nat) {
    setup.drainMax >= 1 && setup.limits.segmentMaxBytes < r * (setup.drainMax + 1)
  }

  lemma FewIsDrainable(setup: Setup, r: nat, bytes: seq<byte>)
    requires DrainsWhole(setup, r) && Few(setup.codec, setup.limits, r, bytes)
    ensures |ReadAll(setup.codec, bytes)| <= setup.drainMax
  {
    RecordsFit(setup.codec, bytes, r);
    hide ReadAll;
    var n := |ReadAll(setup.codec, bytes)|;
    if n > setup.drainMax {
      Product(setup.drainMax + 1, n, r);
    }
  }

  lemma Product(m: nat, n: nat, r: nat)
    requires m <= n
    ensures r * m <= n * r
  {
  }

  lemma SparseIsDrainable(setup: Setup, r: nat, disk: Disk, b: Books)
    requires DrainsWhole(setup, r) && FoundDrainable(setup, disk)
    requires Sparse(setup.codec, setup.limits, r, disk, b.wal)
    ensures Drainable(setup, b)
  {
    hide Few, ReadAll, Untorn;
    forall k | k in OtherKeys(b.wal) ensures |ReadAll(setup.codec, b.wal.disk[k])| <= setup.drainMax {
      if !(k in disk && disk[k] == b.wal.disk[k]) {
        FewIsDrainable(setup, r, b.wal.disk[k]);
      }
    }
  }

  lemma {:induction false} SparseRunCutsNothing(setup: Setup, r: nat, disk: Disk, b: Books, steps: seq<Step>)
    requires DrainsWhole(setup, r) && FoundDrainable(setup, disk)
    requires Valid(b.wal) && Sparse(setup.codec, setup.limits, r, disk, b.wal)
    requires AllWritable(setup, steps) && RecordsAtLeast(setup, r, steps) && RunOk(Unused, setup, b, steps)
    ensures Run(setup, b, steps).cutOff == b.cutOff
    decreases |steps|
  {
    hide Sparse, After, Drainable, FoundDrainable, StepOk, DrainsWhole;
    if steps != [] {
      assert steps[0] in steps;
      SparseIsDrainable(setup, r, disk, b);
      StepCutsNothing(setup, b, steps[0]);
      StepStaysSparse(setup, r, disk, b, steps[0]);
      SparseRunCutsNothing(setup, r, disk, After(setup, b, steps[0]), steps[1..]);
    }
  }

  /**
   Configured so that a segment limit's worth of the shortest records is no more
   than a drain reads, the buffer never cuts anything off, over every run that finds
   only drainable segments at open and reopens no file with content: through spills,
   crashes and drains, whatever the world answers.
   */
  lemma NeverCutsOff(setup: Setup, r: nat, disk: Disk, steps: seq<Step>)
    requires DrainsWhole(setup, r) && FoundDrainable(setup, disk)
    requires AllWritable(setup, steps) && RecordsAtLeast(setup, r, steps)
    requires RunOk(Unused, setup, Opened(setup, disk), steps)
    ensures Run(setup, Opened(setup, disk), steps).cutOff == multiset{}
  {
    hide Run, RunOk;
    SparseRunCutsNothing(setup, r, disk, Opened(setup, disk), steps);
  }

  // ---- The bound is needed -----------------------------------------------------------------

  function Copies(v: Value, n: nat): (vs: seq<Value>)
    ensures |vs| == n && forall i :: 0 <= i < n ==> vs[i] == v
  {
    if n == 0 then [] else [v] + Copies(v, n - 1)
  }

  const CALM := Tick(0, None, false, false)

  function CalmTicks(n: nat): (ticks: seq<Tick>)
    ensures |ticks| == n && forall i :: 0 <= i < n ==> ticks[i] == CALM
  {
    seq(n, i requires 0 <= i < n => CALM)
  }

  /** A buffer of one file, the one being written. */
  ghost function OneFile(bytes: seq<byte>): Wal {
    Wal(map[0 := bytes], Some(Writer(0, |bytes|)), |bytes|)
  }

  lemma OneFileIsValid(bytes: seq<byte>)
    ensures Valid(OneFile(bytes)) && Bytes(map[0 := bytes]) == |bytes|
  {
    JoinedRemove(map[0 := bytes], 0);
    assert map[0 := bytes] - {0} == map[];
  }

  lemma OneMoreRecord(limits: Limits, bytes: seq<byte>, payload: seq<byte>)
    requires |bytes| + RecordSize(payload) <= limits.segmentMaxBytes
    ensures Valid(OneFile(bytes))
    ensures WriteItem(limits, OneFile(bytes), payload, CALM) == Written(OneFile(bytes + EncodeRecord(payload)), 1, [])
    ensures RotationOk(Unused, limits, OneFile(bytes), payload, CALM)
  {
    OneFileIsValid(bytes);
    var w := OneFile(bytes);
    assert OtherKeys(w) == {};
    assert w.disk[0 := bytes + EncodeRecord(payload)] == map[0 := bytes + EncodeRecord(payload)];
  }

  lemma FirstRecord(limits: Limits, payload: seq<byte>)
    ensures Valid(Open(map[]))
    ensures WriteItem(limits, Open(map[]), payload, CALM) == Written(OneFile(EncodeRecord(payload)), 1, [])
    ensures RotationOk(Unused, limits, Open(map[]), payload, CALM)
  {
    assert [] + EncodeRecord(payload) == EncodeRecord(payload);
    assert map[0 := []][0 := EncodeRecord(payload)] == map[0 := EncodeRecord(payload)];
  }

  lemma {:induction false} MoreRecords(codec: Codec, limits: Limits, bytes: seq<byte>, v: Value, n: nat)
    requires n > 0 ==> |bytes| + RecordSize(codec.encode(v)) * n <= limits.segmentMaxBytes
    ensures Valid(OneFile(bytes))
    ensures var ps := Payloads(codec, Copies(v, n));
            && WriteBatch(limits, OneFile(bytes), ps, CalmTicks(n))
               == Written(OneFile(bytes + Encoded(codec, Copies(v, n))), n, [])
            && RotationsOk(Unused, limits, OneFile(bytes), ps, CalmTicks(n))
    decreases n
  {
    hide WriteItem, RotationOk, Valid, OneFile;
    OneFileIsValid(bytes);
    if n == 0 {
      assert bytes + [] == bytes;
    } else {
      var r, record := RecordSize(codec.encode(v)), EncodeRecord(codec.encode(v));
      OneLessFits(r, n);
      OneMoreRecord(limits, bytes, codec.encode(v));
      MoreRecords(codec, limits, bytes + record, v, n - 1);
      CopiesRest(codec, v, n);
      EncodedUnfolds(codec, Copies(v, n));
      AssociativeConcat(bytes, record, Encoded(codec, Copies(v, n - 1)));
    }
  }

  lemma OneLessFits(r: nat, n: nat)
    requires n > 0
    ensures r + r * (n - 1) == r * n && r <= r * n
  {
  }

  lemma CopiesRest(codec: Codec, v: Value, n: nat)
    requires n > 0
    ensures Copies(v, n)[1..] == Copies(v, n - 1) && CalmTicks(n)[1..] == CalmTicks(n - 1)
    ensures Payloads(codec, Copies(v, n))[0] == codec.encode(v)
    ensures Payloads(codec, Copies(v, n))[1..] == Payloads(codec, Copies(v, n - 1))
  {
    PayloadsRest(codec, Copies(v, n));
  }

  /** A batch of copies fills one segment of an empty buffer. */
  lemma FillsOneSegment(codec: Codec, limits: Limits, v: Value, n: nat)
    requires n > 0 && (n > 1 ==> RecordSize(codec.encode(v)) * n <= limits.segmentMaxBytes)
    ensures Valid(Open(map[]))
    ensures var ps := Payloads(codec, Copies(v, n));
            && WriteBatch(limits, Open(map[]), ps, CalmTicks(n)).wal == OneFile(Encoded(codec, Copies(v, n)))
            && RotationsOk(Unused, limits, Open(map[]), ps, CalmTicks(n))
  {
    hide WriteItem, RotationOk, Valid, OneFile;
    var record := EncodeRecord(codec.encode(v));
    OneLessFits(RecordSize(codec.encode(v)), n);
    FirstRecord(limits, codec.encode(v));
    MoreRecords(codec, limits, record, v, n - 1);
    CopiesRest(codec, v, n);
    EncodedUnfolds(codec, Copies(v, n));
  }

  const FAILING := World(false, true, true, true, (i: nat) => CALM)
  const WORKING := World(true, true, true, true, (i: nat) => CALM)

  lemma FailingTicks(n: nat)
    ensures FAILING.Ticks(n) == CalmTicks(n)
  {
  }

  lemma SpilledCopies(setup: Setup, v: Value, n: nat)
    requires n > 0 && (n > 1 ==> RecordSize(setup.codec.encode(v)) * n <= setup.limits.segmentMaxBytes)
    ensures var b := Opened(setup, map[]); var step := Flush(Copies(v, n), FAILING);
            && StepOk(Unused, setup, b, step)
            && After(setup, b, step).wal == OneFile(Encoded(setup.codec, Copies(v, n)))
            && After(setup, b, step).cutOff == multiset{}
  {
    hide WriteBatch, RotationsOk, Valid, Sort, OneFile;
    FailingTicks(n);
    FillsOneSegment(setup.codec, setup.limits, v, n);
  }

  lemma ClosedByCrash(setup: Setup, b: Books, bytes: seq<byte>)
    requires b.wal == OneFile(bytes)
    ensures Valid(b.wal)
    ensures var b' := After(setup, b, Crash(|bytes|));
            b'.wal == Open(map[0 := bytes]) && b'.cutOff == b.cutOff
  {
    OneFileIsValid(bytes);
    assert b.wal.disk[0 := bytes] == map[0 := bytes];
  }

  lemma DrainedOnce(setup: Setup, b: Books, bytes: seq<byte>)
    requires b.wal == Open(map[0 := bytes]) && b.cutOff == multiset{}
    ensures Valid(b.wal)
    ensures |After(setup, b, Flush([], WORKING)).cutOff| ==
            |ReadAll(setup.codec, bytes)| - |Take(ReadAll(setup.codec, bytes), setup.drainMax)|
  {
    hide ReadAll;
    assert OtherKeys(b.wal) == {0};
  }

  lemma OneStep(setup: Setup, b: Books, step: Step, rest: seq<Step>)
    requires Valid(b.wal) && StepOk(Unused, setup, b, step) && RunOk(Unused, setup, After(setup, b, step), rest)
    ensures RunOk(Unused, setup, b, [step] + rest)
    ensures Run(setup, b, [step] + rest) == Run(setup, After(setup, b, step), rest)
  {
    hide After, StepOk;
    assert ([step] + rest)[1..] == rest;
  }

  lemma QuietIsOk(setup: Setup, b: Books, step: Step)
    requires Valid(b.wal) && !Spills(step)
    ensures StepOk(Unused, setup, b, step)
  {
  }

  /** The run: a failed send of copies, a crash, and a send that succeeds. */
  function Misfortune(values: seq<Value>, keep: nat): seq<Step> {
    [Flush(values, FAILING)] + ([Crash(keep)] + ([Flush([], WORKING)] + []))
  }

  lemma MisfortuneRuns(setup: Setup, values: seq<Value>, keep: nat)
    requires StepOk(Unused, setup, Opened(setup, map[]), Flush(values, FAILING))
    ensures RunOk(Unused, setup, Opened(setup, map[]), Misfortune(values, keep))
    ensures var b1 := After(setup, Opened(setup, map[]), Flush(values, FAILING));
            var b2 := After(setup, b1, Crash(keep));
            Run(setup, Opened(setup, map[]), Misfortune(values, keep)) == After(setup, b2, Flush([], WORKING))
  {
    var b0 := Opened(setup, map[]);
    assert Valid(b0.wal);
    hide After, StepOk, Opened, Valid;
    var b1 := After(setup, b0, Flush(values, FAILING));
    var b2 := After(setup, b1, Crash(keep));
    QuietIsOk(setup, b2, Flush([], WORKING));
    QuietIsOk(setup, b1, Crash(keep));
    OneStep(setup, b2, Flush([], WORKING), []);
    OneStep(setup, b1, Crash(keep), [Flush([], WORKING)] + []);
    OneStep(setup, b0, Flush(values, FAILING), [Crash(keep)] + ([Flush([], WORKING)] + []));
  }

  lemma MisfortuneIsWritable(setup: Setup, v: Value, n: nat, keep: nat)
    requires setup.codec.Restores(v) && |setup.codec.encode(v)| <= MAX_PAYLOAD
    ensures var steps := Misfortune(Copies(v, n), keep);
            AllWritable(setup, steps) && RecordsAtLeast(setup, RecordSize(setup.codec.encode(v)), steps)
  {
    var steps := Misfortune(Copies(v, n), keep);
    forall s | s in steps && Spills(s) ensures s == Flush(Copies(v, n), FAILING) {
    }
  }

  lemma AllCopiesRead(codec: Codec, v: Value, n: nat)
    requires codec.Restores(v) && |codec.encode(v)| <= MAX_PAYLOAD
    ensures ReadAll(codec, Encoded(codec, Copies(v, n))) == Copies(v, n)
  {
    EncodingRoundTrips(codec, Copies(v, n));
  }

  /**
   The condition is needed: otherwise a failed send of drainMax + 1 such records, a
   crash that loses nothing, and one successful send cut a record off.
   */
  lemma OtherwiseCutsOff(setup: Setup, v: Value) returns (steps: seq<Step>)
    requires setup.codec.Restores(v) && |setup.codec.encode(v)| <= MAX_PAYLOAD
    requires !DrainsWhole(setup, RecordSize(setup.codec.encode(v)))
    ensures Plausible(setup, RecordSize(setup.codec.encode(v)), map[], steps)
    ensures Run(setup, Opened(setup, map[]), steps).cutOff != multiset{}
  {
    var n := setup.drainMax + 1;
    var bytes := Encoded(setup.codec, Copies(v, n));
    AllCopiesRead(setup.codec, v, n);
    SpilledCopies(setup, v, n);
    hide After, StepOk, Opened, Run, RunOk, AllWritable, RecordsAtLeast, Encoded, OneFile;
    var b1 := After(setup, Opened(setup, map[]), Flush(Copies(v, n), FAILING));
    ClosedByCrash(setup, b1, bytes);
    DrainedOnce(setup, After(setup, b1, Crash(|bytes|)), bytes);
    MisfortuneRuns(setup, Copies(v, n), |bytes|);
    MisfortuneIsWritable(setup, v, n, |bytes|);
    steps := Misfortune(Copies(v, n), |bytes|);
  }

  // ---- Exactly which configurations never cut off ------------------------------------------

  /** A run that may happen: segments found at open are within the drain limit, what
      goes to disk takes at least r bytes a record, and no file with content is reopened. */
  ghost predicate Plausible(setup: Setup, r: nat, disk: Disk, steps: seq<Step>) {
    && FoundDrainable(setup, disk) && AllWritable(setup, steps) && RecordsAtLeast(setup, r, steps)
    && RunOk(Unused, setup, Opened(setup, disk), steps)
  }

  ghost predicate CutsOff(setup: Setup, disk: Disk, steps: seq<Step>) {
    Run(setup, Opened(setup, disk), steps).cutOff != multiset{}
  }

  /**
   A configuration never cuts a record off, over all runs with records of at least the
   size of some v, if and only if a drain reads at least one record and a segment
   limit's worth of records of that size.
   */
  lemma NeverCutsOffExactlyWhen(setup: Setup, v: Value)
    requires setup.codec.Restores(v) && |setup.codec.encode(v)| <= MAX_PAYLOAD
    ensures var r := RecordSize(setup.codec.encode(v));
            DrainsWhole(setup, r) <==>
              forall disk, steps :: Plausible(setup, r, disk, steps) ==> !CutsOff(setup, disk, steps)
  {
    var r := RecordSize(setup.codec.encode(v));
    if DrainsWhole(setup, r) {
      forall disk, steps | Plausible(setup, r, disk, steps) ensures !CutsOff(setup, disk, steps) {
        NeverCutsOff(setup, r, disk, steps);
      }
    } else {
      var steps := OtherwiseCutsOff(setup, v);
      assert Plausible(setup, r, map[], steps) && CutsOff(setup, map[], steps);
    }
  }
}
