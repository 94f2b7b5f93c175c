/**
 Whole runs of the ingest side: flush_batch of src/collector.rs over the disk
 buffer, process crashes, and the books that say where every record went.
 */
module IngestModel {
  import opened Json
  import opened Basics
  import opened RecordCodec
  import opened SegmentNames
  import opened WalModel
  import opened WalGuarantees

  datatype Setup = Setup(codec: Codec, limits: Limits, drainMax: nat)

  /** The answers the outside world gives during one flush. */
  datatype World = World(sendOk: bool, readOk: bool, drainSendOk: bool, deleteOk: bool, tick: nat -> Tick) {
    /** What the world does to each of n records written in a row. */
    function Ticks(n: nat): (ticks: seq<Tick>)
      ensures |ticks| == n
    {
      seq(n, i requires 0 <= i < n => tick(i))
    }
  }

  /**
   The buffer and what has become of every record so far.
   delivered: acknowledged by the monitoring service;
   repeated:  acknowledged from a segment that then could not be deleted;
   evicted:   in segments removed for space;
   cutOff:    in drained segments, behind the drain limit;
   refused:   in a failed batch, from the first record that could not be stored;
   unreadable: stored, but behind a length over the reader's limit, their own or
              that of an earlier record of the same segment;
   torn:      readable before a crash and not after it;
   history:   every record stored readably and not torn, in order, after those found at open;
   gone:      the records of removed segments, in order of removal.
   */
  datatype Books = Books(
    wal: Wal,
    handed: multiset<Value>,
    delivered: multiset<Value>,
    repeated: multiset<Value>,
    evicted: multiset<Value>,
    cutOff: multiset<Value>,
    refused: multiset<Value>,
    unreadable: multiset<Value>,
    torn: multiset<Value>,
    history: seq<Value>,
    gone: seq<Value>,
    stored: nat)

  ghost function Opened(setup: Setup, disk: Disk): Books {
    Books(Open(disk), multiset{}, multiset{}, multiset{}, multiset{}, multiset{}, multiset{}, multiset{},
          multiset{}, Log(setup.codec, disk), [], 0)
  }

  function DropLast<T>(s: seq<T>, n: nat): seq<T> {
    if n <= |s| then s[..|s| - n] else []
  }

  // ---- The steps ------------------------------------------------------------------

  /** The drain half of flush_batch: at most drainMax records of the oldest
      closed segment are sent, and then the whole segment is deleted. */
  ghost function Drain(setup: Setup, b: Books, world: World): Books {
    match OldestOther(b.wal)
    case None => b
    case Some(k) =>
      var all := ReadAll(setup.codec, b.wal.disk[k]);
      var items := Take(all, setup.drainMax);
      if !world.readOk || (items != [] && !world.drainSendOk) then b
      else if !world.deleteOk then
        b.(delivered := b.delivered + multiset(items), repeated := b.repeated + multiset(items))
      else
        b.(wal := Remove(b.wal, k),
           delivered := b.delivered + multiset(items),
           cutOff := b.cutOff + multiset(all[|items|..]),
           gone := b.gone + all)
  }

  /** The spill half of flush_batch. */
  ghost function Spill(setup: Setup, b: Books, batch: seq<Value>, world: World): Books
    requires Valid(b.wal)
  {
    var r := WriteBatch(setup.limits, b.wal, Payloads(setup.codec, batch), world.Ticks(|batch|));
    var stored := Sort(setup.codec, setup.limits, b.wal, batch, world.Ticks(|batch|));
    b.(wal := r.wal,
       evicted := b.evicted + multiset(Recovered(setup.codec, r.victims)),
       refused := b.refused + multiset(batch[r.count..]),
       unreadable := b.unreadable + multiset(stored.hidden),
       history := b.history + stored.readable,
       gone := b.gone + Recovered(setup.codec, r.victims),
       stored := b.stored + r.count)
  }

  ghost function FlushStep(setup: Setup, b: Books, batch: seq<Value>, world: World): Books
    requires Valid(b.wal)
  {
    var b1 := b.(handed := b.handed + multiset(batch));
    if world.sendOk then Drain(setup, b1.(delivered := b1.delivered + multiset(batch)), world)
    else Spill(setup, b1, batch, world)
  }

  /** The process dies with the file being written cut at any byte, and reopens. */
  ghost function CrashStep(setup: Setup, b: Books, keep: nat): Books
    requires Valid(b.wal)
  {
    match b.wal.current
    case None => b.(wal := Open(b.wal.disk))
    case Some(writer) =>
      var bytes := b.wal.disk[writer.ts];
      var lost := Lost(setup.codec, bytes, keep);
      b.(wal := Open(b.wal.disk[writer.ts := Take(bytes, keep)]),
         torn := b.torn + multiset(lost),
         history := DropLast(b.history, |lost|))
  }

  ghost function Lost(codec: Codec, bytes: seq<byte>, keep: nat): (lost: seq<Value>)
    ensures ReadAll(codec, bytes) == ReadAll(codec, Take(bytes, keep)) + lost
  {
    if keep < |bytes| then
      TruncationKeepsAPrefix(codec, bytes, keep);
      ReadAll(codec, bytes)[|ReadAll(codec, bytes[..keep])|..]
    else []
  }

  datatype Step = Flush(batch: seq<Value>, world: World) | Crash(keep: nat)

  ghost function After(setup: Setup, b: Books, step: Step): (b': Books)
    requires Valid(b.wal)
    ensures Valid(b'.wal)
  {
    match step
    case Flush(batch, world) =>
      DrainKeepsValid(setup, b, world);
      FlushStep(setup, b, batch, world)
    case Crash(keep) => CrashStep(setup, b, keep)
  }

  ghost function Run(setup: Setup, b: Books, steps: seq<Step>): (b': Books)
    requires Valid(b.wal)
    ensures Valid(b'.wal)
    decreases |steps|
  {
    if steps == [] then b else Run(setup, After(setup, b, steps[0]), steps[1..])
  }

  lemma DrainKeepsValid(setup: Setup, b: Books, world: World)
    requires Valid(b.wal)
    ensures Valid(Drain(setup, b, world).wal)
  {
    if OldestOther(b.wal).Some? {
      RemoveKeepsValid(b.wal, OldestOther(b.wal).value);
    }
  }

  // ---- What a run must respect -------------------------------------------------------

  /** Rotations meet the clock condition. */
  ghost predicate StepOk(clock: Clock, setup: Setup, b: Books, step: Step)
    requires Valid(b.wal)
  {
    step.Flush? && !step.world.sendOk ==>
      RotationsOk(clock, setup.limits, b.wal, Payloads(setup.codec, step.batch), step.world.Ticks(|step.batch|))
  }

  ghost predicate RunOk(clock: Clock, setup: Setup, b: Books, steps: seq<Step>)
    requires Valid(b.wal)
    decreases |steps|
  {
    steps != [] ==>
      StepOk(clock, setup, b, steps[0]) && RunOk(clock, setup, After(setup, b, steps[0]), steps[1..])
  }

  /** A batch that goes to disk. */
  predicate Spills(step: Step) {
    step.Flush? && !step.world.sendOk
  }

  /** What goes to disk reads back, and has lengths of four bytes, as the format does. */
  ghost predicate AllWritable(setup: Setup, steps: seq<Step>) {
    forall s :: s in steps && Spills(s) ==> Writable(setup.codec, s.batch)
  }

  /** A run that meets one clock condition meets the weaker ones. */
  lemma {:induction false} StricterRun(clock: Clock, weaker: Clock, setup: Setup, b: Books, steps: seq<Step>)
    requires Valid(b.wal) && RunOk(clock, setup, b, steps)
    requires weaker == Reusing || (weaker == Unused && clock != Reusing)
    ensures RunOk(weaker, setup, b, steps)
    decreases |steps|
  {
    hide After, RotationsOk, Valid;
    if steps != [] {
      var step := steps[0];
      if Spills(step) {
        StricterRotations(clock, weaker, setup.limits, b.wal, Payloads(setup.codec, step.batch),
                          step.world.Ticks(|step.batch|));
      }
      StricterRun(clock, weaker, setup, After(setup, b, step), steps[1..]);
    }
  }

  // ---- Conservation ------------------------------------------------------------------

  ghost predicate Adds(total: multiset<Value>, d: multiset<Value>, disk: multiset<Value>, e: multiset<Value>,
                       c: multiset<Value>, f: multiset<Value>, t: multiset<Value>) {
    total == d + disk + e + c + f + t
  }

  ghost function Total(initial: multiset<Value>, b: Books): multiset<Value> {
    initial + b.handed + b.repeated
  }

  ghost predicate Balanced(setup: Setup, initial: multiset<Value>, b: Books) {
    Adds(Total(initial, b), b.delivered, OnDisk(setup.codec, b.wal.disk), b.evicted, b.cutOff, NotKept(b), b.torn)
  }

  /** The records of failed sends that no reader will find. */
  ghost function NotKept(b: Books): multiset<Value> {
    b.refused + b.unreadable
  }

  lemma SplitAt<T>(s: seq<T>, n: nat)
    requires n <= |s|
    ensures multiset(s) == multiset(s[..n]) + multiset(s[n..])
  {
    assert s == s[..n] + s[n..];
  }

  /** Records acknowledged go to both sides. */
  lemma AddBoth(total: multiset<Value>, d: multiset<Value>, disk: multiset<Value>, e: multiset<Value>,
                c: multiset<Value>, f: multiset<Value>, t: multiset<Value>, x: multiset<Value>)
    requires Adds(total, d, disk, e, c, f, t)
    ensures Adds(total + x, d + x, disk, e, c, f, t)
  {
  }

  /** A segment sent and deleted moves its records between the columns. */
  lemma MoveOut(total: multiset<Value>, d: multiset<Value>, disk: multiset<Value>, e: multiset<Value>,
                c: multiset<Value>, f: multiset<Value>, t: multiset<Value>,
                disk': multiset<Value>, items: multiset<Value>, rest: multiset<Value>)
    requires Adds(total, d, disk, e, c, f, t)
    requires disk == items + rest + disk'
    ensures Adds(total, d + items, disk', e, c + rest, f, t)
  {
  }

  /** A batch spilled goes to the disk column, less what is evicted or refused. */
  lemma MoveIn(total: multiset<Value>, d: multiset<Value>, disk: multiset<Value>, e: multiset<Value>,
               c: multiset<Value>, f: multiset<Value>, t: multiset<Value>, disk': multiset<Value>,
               kept: multiset<Value>, rest: multiset<Value>, victims: multiset<Value>)
    requires Adds(total, d, disk, e, c, f, t)
    requires disk + kept == victims + disk'
    ensures Adds(total + (kept + rest), d, disk', e + victims, c, f + rest, t)
  {
    var left := total + (kept + rest);
    var right := d + disk' + (e + victims) + c + (f + rest) + t;
    forall x ensures left[x] == right[x] {
      assert (disk + kept)[x] == (victims + disk')[x];
    }
  }

  /** What a crash tears off the file being written changes column. */
  lemma MoveTorn(total: multiset<Value>, d: multiset<Value>, disk: multiset<Value>, e: multiset<Value>,
                 c: multiset<Value>, f: multiset<Value>, t: multiset<Value>,
                 disk': multiset<Value>, lost: multiset<Value>)
    requires Adds(total, d, disk, e, c, f, t)
    requires disk == disk' + lost
    ensures Adds(total, d, disk', e, c, f, t + lost)
  {
  }

  lemma Regroup(a: multiset<Value>, b: multiset<Value>, c: multiset<Value>, x: multiset<Value>)
    ensures a + (b + x) + c == a + b + c + x
    ensures a + b + (c + x) == a + b + c + x
  {
  }

  lemma DrainBalances(setup: Setup, initial: multiset<Value>, b: Books, world: World)
    requires Balanced(setup, initial, b)
    ensures Balanced(setup, initial, Drain(setup, b, world))
  {
    if OldestOther(b.wal).Some? {
      var k := OldestOther(b.wal).value;
      var all := ReadAll(setup.codec, b.wal.disk[k]);
      var items := Take(all, setup.drainMax);
      if !world.deleteOk {
        AddBoth(Total(initial, b), b.delivered, OnDisk(setup.codec, b.wal.disk), b.evicted, b.cutOff, NotKept(b),
                b.torn, multiset(items));
        Regroup(initial, b.handed, b.repeated, multiset(items));
      } else {
        SegmentSplits(setup, b.wal.disk, k);
        MoveOut(Total(initial, b), b.delivered, OnDisk(setup.codec, b.wal.disk), b.evicted, b.cutOff, NotKept(b),
                b.torn, OnDisk(setup.codec, b.wal.disk - {k}), multiset(items), multiset(all[|items|..]));
      }
    }
  }

  /** A segment's records are those a drain reads and those it cuts off. */
  lemma SegmentSplits(setup: Setup, disk: Disk, k: nat)
    requires k in disk
    ensures var all := ReadAll(setup.codec, disk[k]);
            var items := Take(all, setup.drainMax);
            OnDisk(setup.codec, disk)
            == multiset(items) + multiset(all[|items|..]) + OnDisk(setup.codec, disk - {k})
  {
    var all := ReadAll(setup.codec, disk[k]);
    var items := Take(all, setup.drainMax);
    RemoveFile(setup.codec, disk, k);
    SplitAt(all, |items|);
    assert items == all[..|items|];
  }

  lemma SpillBalances(setup: Setup, initial: multiset<Value>, b: Books, batch: seq<Value>, world: World)
    requires Writable(setup.codec, batch)
    requires Valid(b.wal) && CurrentUntorn(b.wal) && Balanced(setup, initial, b)
    requires RotationsOk(Reusing, setup.limits, b.wal, Payloads(setup.codec, batch), world.Ticks(|batch|))
    ensures var b' := Spill(setup, b.(handed := b.handed + multiset(batch)), batch, world);
            Balanced(setup, initial, b') && CurrentUntorn(b'.wal)
  {
    hide OnDisk, CurrentUntorn, Valid, RotationsOk, Writable, Recovered, WriteBatch, Sort;
    var ticks := world.Ticks(|batch|);
    WriteBatchConserves(setup.codec, setup.limits, b.wal, batch, ticks);
    SortIsAll(setup.codec, setup.limits, b.wal, batch, ticks);
    var r := WriteBatch(setup.limits, b.wal, Payloads(setup.codec, batch), ticks);
    var stored := Sort(setup.codec, setup.limits, b.wal, batch, ticks);
    SplitAt(batch, r.count);
    ThreeWays(multiset(batch), multiset(batch[..r.count]), multiset(batch[r.count..]), multiset(stored.readable),
              multiset(stored.hidden), b.refused, b.unreadable);
    MoveIn(Total(initial, b), b.delivered, OnDisk(setup.codec, b.wal.disk), b.evicted, b.cutOff, NotKept(b), b.torn,
           OnDisk(setup.codec, r.wal.disk), multiset(stored.readable),
           multiset(stored.hidden) + multiset(batch[r.count..]), multiset(Recovered(setup.codec, r.victims)));
    Regroup(initial, b.handed, b.repeated, multiset(batch));
  }

  /** A batch is its readable, its hidden and its refused records. */
  lemma ThreeWays(batch: multiset<Value>, kept: multiset<Value>, rest: multiset<Value>, readable: multiset<Value>,
                  hidden: multiset<Value>, refused: multiset<Value>, unreadable: multiset<Value>)
    requires batch == kept + rest && kept == readable + hidden
    ensures batch == readable + (hidden + rest)
    ensures refused + unreadable + (hidden + rest) == (refused + rest) + (unreadable + hidden)
  {
  }

  lemma CrashBalances(setup: Setup, initial: multiset<Value>, b: Books, keep: nat)
    requires Valid(b.wal) && Balanced(setup, initial, b)
    ensures Balanced(setup, initial, CrashStep(setup, b, keep))
  {
    if b.wal.current.Some? {
      var ts := b.wal.current.value.ts;
      var bytes := b.wal.disk[ts];
      var disk' := b.wal.disk[ts := Take(bytes, keep)];
      var lost := Lost(setup.codec, bytes, keep);
      RemoveFile(setup.codec, b.wal.disk, ts);
      ReplaceFile(setup.codec, b.wal.disk, ts, Take(bytes, keep));
      SplitAt(ReadAll(setup.codec, bytes), |ReadAll(setup.codec, Take(bytes, keep))|);
      MoveTorn(Total(initial, b), b.delivered, OnDisk(setup.codec, b.wal.disk), b.evicted, b.cutOff, NotKept(b), b.torn,
               OnDisk(setup.codec, disk'), multiset(lost));
    }
  }

  lemma StepBalances(setup: Setup, initial: multiset<Value>, b: Books, step: Step)
    requires (Spills(step) ==> Writable(setup.codec, step.batch))
    requires Valid(b.wal) && CurrentUntorn(b.wal) && Balanced(setup, initial, b)
    requires StepOk(Reusing, setup, b, step)
    ensures Balanced(setup, initial, After(setup, b, step)) && CurrentUntorn(After(setup, b, step).wal)
  {
    match step
    case Crash(keep) =>
      CrashBalances(setup, initial, b, keep);
    case Flush(batch, world) =>
      if world.sendOk {
        var b1 := b.(handed := b.handed + multiset(batch), delivered := b.delivered + multiset(batch));
        AddBoth(Total(initial, b), b.delivered, OnDisk(setup.codec, b.wal.disk), b.evicted, b.cutOff, NotKept(b),
                b.torn, multiset(batch));
        Regroup(initial, b.handed, b.repeated, multiset(batch));
        DrainBalances(setup, initial, b1, world);
      } else {
        SpillBalances(setup, initial, b, batch, world);
      }
  }

  lemma {:induction false} RunBalances(setup: Setup, initial: multiset<Value>, b: Books, steps: seq<Step>)
    requires AllWritable(setup, steps)
    requires Valid(b.wal) && CurrentUntorn(b.wal) && Balanced(setup, initial, b)
    requires RunOk(Reusing, setup, b, steps)
    ensures Balanced(setup, initial, Run(setup, b, steps))
    decreases |steps|
  {
    if steps != [] {
      assert steps[0] in steps;
      StepBalances(setup, initial, b, steps[0]);
      RunBalances(setup, initial, After(setup, b, steps[0]), steps[1..]);
    }
  }

  /**
   Conservation over every run, from any directory contents: through sends,
   spills, failed operations, rotations, evictions, drains and crashes, the
   records found at open and those handed to flush_batch are the records
   delivered, readable on disk, evicted, cut off, refused, unreadable or torn.
   */
  lemma NothingUnaccounted(setup: Setup, disk: Disk, steps: seq<Step>)
    requires AllWritable(setup, steps)
    requires RunOk(Reusing, setup, Opened(setup, disk), steps)
    ensures var b := Run(setup, Opened(setup, disk), steps);
            OnDisk(setup.codec, disk) + b.handed + b.repeated
            == b.delivered + OnDisk(setup.codec, b.wal.disk) + b.evicted + b.cutOff
               + (b.refused + b.unreadable) + b.torn
  {
    RunBalances(setup, OnDisk(setup.codec, disk), Opened(setup, disk), steps);
  }

  ghost predicate AllStorable(setup: Setup, steps: seq<Step>) {
    forall s :: s in steps && Spills(s) ==> Storable(setup.codec, s.batch)
  }

  /** Nothing is unreadable when what goes to disk is within the reader's limit and
      no rotation reopens a file that holds anything. */
  lemma {:induction false} NothingUnreadable(setup: Setup, b: Books, steps: seq<Step>)
    requires AllStorable(setup, steps)
    requires Valid(b.wal) && CurrentFramed(b.wal) && RunOk(Unused, setup, b, steps)
    ensures Run(setup, b, steps).unreadable == b.unreadable
    decreases |steps|
  {
    if steps != [] {
      assert steps[0] in steps;
      StepHidesNothing(setup, b, steps[0]);
      NothingUnreadable(setup, After(setup, b, steps[0]), steps[1..]);
    }
  }

  lemma StepHidesNothing(setup: Setup, b: Books, step: Step)
    requires (Spills(step) ==> Storable(setup.codec, step.batch))
    requires Valid(b.wal) && CurrentFramed(b.wal) && StepOk(Unused, setup, b, step)
    ensures After(setup, b, step).unreadable == b.unreadable && CurrentFramed(After(setup, b, step).wal)
  {
    hide Storable, RotationsOk, WriteBatch, Sort;
    if Spills(step) {
      NothingHidden(setup.codec, setup.limits, b.wal, step.batch, step.world.Ticks(|step.batch|));
    }
  }

  // ---- The drain limit ------------------------------------------------------------------

  /** A drain reads a segment, sends what it read, if anything, and deletes the segment. */
  ghost predicate Completes(setup: Setup, b: Books, world: World) {
    && OldestOther(b.wal).Some? && world.readOk && world.deleteOk
    && (Take(ReadAll(setup.codec, b.wal.disk[OldestOther(b.wal).value]), setup.drainMax) != [] ==> world.drainSendOk)
  }

  /** A drain that completes loses records exactly when the segment holds more
      than one drain reads. */
  lemma DrainLosesExactlyBeyondTheLimit(setup: Setup, b: Books, world: World)
    requires Completes(setup, b, world)
    ensures Drain(setup, b, world).cutOff == b.cutOff <==>
            |ReadAll(setup.codec, b.wal.disk[OldestOther(b.wal).value])| <= setup.drainMax
  {
    var all := ReadAll(setup.codec, b.wal.disk[OldestOther(b.wal).value]);
    var rest := all[|Take(all, setup.drainMax)|..];
    if |all| > setup.drainMax {
      assert |multiset(rest)| == |rest| > 0;
      assert |b.cutOff + multiset(rest)| == |b.cutOff| + |rest|;
    }
  }

  ghost predicate Drainable(setup: Setup, b: Books) {
    forall k :: k in OtherKeys(b.wal) ==> |ReadAll(setup.codec, b.wal.disk[k])| <= setup.drainMax
  }

  ghost predicate AlwaysDrainable(setup: Setup, b: Books, steps: seq<Step>)
    requires Valid(b.wal)
    decreases |steps|
  {
    Drainable(setup, b) && (steps != [] ==> AlwaysDrainable(setup, After(setup, b, steps[0]), steps[1..]))
  }

  lemma StepCutsNothing(setup: Setup, b: Books, step: Step)
    requires Valid(b.wal) && Drainable(setup, b)
    ensures After(setup, b, step).cutOff == b.cutOff
  {
  }

  /** While no closed segment holds more than a drain reads, draining cuts nothing off. */
  lemma {:induction false} NothingCutOff(setup: Setup, b: Books, steps: seq<Step>)
    requires Valid(b.wal)
    requires AlwaysDrainable(setup, b, steps)
    ensures Run(setup, b, steps).cutOff == b.cutOff
    decreases |steps|
  {
    hide After, Drainable;
    if steps != [] {
      StepCutsNothing(setup, b, steps[0]);
      NothingCutOff(setup, After(setup, b, steps[0]), steps[1..]);
    }
  }

  // ---- First in, first out ----------------------------------------------------------------

  ghost predicate Queue(setup: Setup, b: Books) {
    b.history == b.gone + Log(setup.codec, b.wal.disk)
  }

  lemma DrainIsFifo(setup: Setup, b: Books, world: World)
    requires Tidy(b.wal) && Queue(setup, b)
    ensures Tidy(Drain(setup, b, world).wal) && Queue(setup, Drain(setup, b, world))
  {
    if OldestOther(b.wal).Some? {
      var k := OldestOther(b.wal).value;
      OldestOtherIsFirst(b.wal);
      RemoveFile(setup.codec, b.wal.disk, k);
      AssociativeConcat(b.gone, ReadAll(setup.codec, b.wal.disk[k]), Log(setup.codec, b.wal.disk - {k}));
    }
  }

  lemma SpillIsFifo(setup: Setup, b: Books, batch: seq<Value>, world: World)
    requires Writable(setup.codec, batch)
    requires Valid(b.wal) && CurrentUntorn(b.wal) && Tidy(b.wal) && Queue(setup, b)
    requires RotationsOk(Ascending, setup.limits, b.wal, Payloads(setup.codec, batch), world.Ticks(|batch|))
    ensures var b' := Spill(setup, b, batch, world);
            CurrentUntorn(b'.wal) && Tidy(b'.wal) && Queue(setup, b')
  {
    WriteBatchIsFifo(setup.codec, setup.limits, b.wal, batch, world.Ticks(|batch|));
    var r := WriteBatch(setup.limits, b.wal, Payloads(setup.codec, batch), world.Ticks(|batch|));
    var stored := Sort(setup.codec, setup.limits, b.wal, batch, world.Ticks(|batch|));
    AssociativeConcat(b.gone, Log(setup.codec, b.wal.disk), stored.readable);
    AssociativeConcat(b.gone, Recovered(setup.codec, r.victims), Log(setup.codec, r.wal.disk));
  }

  lemma DropLastOfConcat<T>(a: seq<T>, b: seq<T>)
    ensures DropLast(a + b, |b|) == a
  {
  }

  lemma CrashIsFifo(setup: Setup, b: Books, keep: nat)
    requires Valid(b.wal) && Tidy(b.wal) && Queue(setup, b)
    ensures Queue(setup, CrashStep(setup, b, keep))
  {
    if b.wal.current.Some? {
      var ts := b.wal.current.value.ts;
      var bytes := b.wal.disk[ts];
      var lost := Lost(setup.codec, bytes, keep);
      var others := Log(setup.codec, b.wal.disk - {ts});
      var kept := ReadAll(setup.codec, Take(bytes, keep));
      assert b.wal.disk == b.wal.disk[ts := bytes];
      ReplaceLast(setup.codec, b.wal.disk, ts, bytes);
      ReplaceLast(setup.codec, b.wal.disk, ts, Take(bytes, keep));
      AssociativeConcat(others, kept, lost);
      AssociativeConcat(b.gone, others + kept, lost);
      DropLastOfConcat(b.gone + (others + kept), lost);
    }
  }

  lemma StepIsFifo(setup: Setup, b: Books, step: Step)
    requires (Spills(step) ==> Writable(setup.codec, step.batch))
    requires Valid(b.wal) && CurrentUntorn(b.wal) && Tidy(b.wal) && Queue(setup, b)
    requires StepOk(Ascending, setup, b, step)
    ensures var b' := After(setup, b, step);
            CurrentUntorn(b'.wal) && Tidy(b'.wal) && Queue(setup, b')
  {
    match step
    case Crash(keep) =>
      CrashIsFifo(setup, b, keep);
    case Flush(batch, world) =>
      var b1 := b.(handed := b.handed + multiset(batch));
      if world.sendOk {
        DrainIsFifo(setup, b1.(delivered := b1.delivered + multiset(batch)), world);
      } else {
        SpillIsFifo(setup, b1, batch, world);
      }
  }

  /**
   The buffer is a first-in first-out queue over every run: everything stored
   (and not torn by a crash) is the records of the removed segments, in order of
   removal, followed by what the files hold in listing order.  So the files
   always hold a suffix of the history, cut where a segment begins.
   */
  lemma {:induction false} AlwaysASuffix(setup: Setup, b: Books, steps: seq<Step>)
    requires AllWritable(setup, steps)
    requires Valid(b.wal) && CurrentUntorn(b.wal) && Tidy(b.wal) && Queue(setup, b)
    requires RunOk(Ascending, setup, b, steps)
    ensures var b' := Run(setup, b, steps);
            b'.history == b'.gone + Log(setup.codec, b'.wal.disk) && Tidy(b'.wal)
    decreases |steps|
  {
    if steps != [] {
      assert steps[0] in steps;
      StepIsFifo(setup, b, steps[0]);
      AlwaysASuffix(setup, After(setup, b, steps[0]), steps[1..]);
    }
  }

  /** What a drain sends is the front of the queue: the oldest readable records. */
  lemma DrainSendsTheOldest(setup: Setup, b: Books)
    requires Tidy(b.wal) && OldestOther(b.wal).Some?
    ensures var items := Take(ReadAll(setup.codec, b.wal.disk[OldestOther(b.wal).value]), setup.drainMax);
            items <= Log(setup.codec, b.wal.disk) && |items| <= setup.drainMax
  {
    hide ReadAll, Log;
    var k := OldestOther(b.wal).value;
    OldestOtherIsFirst(b.wal);
    RemoveFile(setup.codec, b.wal.disk, k);
  }

  /** Over every run: what a drain sends are the records of the history that come next,
      behind those of the segments removed so far. */
  lemma DrainSendsWhatIsNext(setup: Setup, disk: Disk, steps: seq<Step>)
    requires AllWritable(setup, steps) && RunOk(Ascending, setup, Opened(setup, disk), steps)
    requires OldestOther(Run(setup, Opened(setup, disk), steps).wal).Some?
    ensures var b := Run(setup, Opened(setup, disk), steps);
            var items := Take(ReadAll(setup.codec, b.wal.disk[OldestOther(b.wal).value]), setup.drainMax);
            |b.gone| + |items| <= |b.history| && items == b.history[|b.gone|..|b.gone| + |items|]
  {
    hide *;
    ValidWhenOpened(setup, disk);
    RunIsAQueue(setup, disk, steps);
    NextInHistory(setup, Run(setup, Opened(setup, disk), steps));
  }

  lemma ValidWhenOpened(setup: Setup, disk: Disk)
    ensures Valid(Opened(setup, disk).wal)
  {
  }

  lemma RunIsAQueue(setup: Setup, disk: Disk, steps: seq<Step>)
    requires AllWritable(setup, steps) && RunOk(Ascending, setup, Opened(setup, disk), steps)
    ensures var b := Run(setup, Opened(setup, disk), steps); Tidy(b.wal) && Queue(setup, b)
  {
    FreshlyOpened(setup, 0, disk);
    hide Opened, RunOk, AllWritable, Run, Tidy;
    AlwaysASuffix(setup, Opened(setup, disk), steps);
  }

  lemma NextInHistory(setup: Setup, b: Books)
    requires Tidy(b.wal) && Queue(setup, b) && OldestOther(b.wal).Some?
    ensures var items := Take(ReadAll(setup.codec, b.wal.disk[OldestOther(b.wal).value]), setup.drainMax);
            |b.gone| + |items| <= |b.history| && items == b.history[|b.gone|..|b.gone| + |items|]
  {
    hide ReadAll, Log, Take, Tidy, OldestOther;
    DrainSendsTheOldest(setup, b);
    PrefixBehind(b.gone, Log(setup.codec, b.wal.disk),
                 Take(ReadAll(setup.codec, b.wal.disk[OldestOther(b.wal).value]), setup.drainMax));
  }

  lemma PrefixBehind<T>(a: seq<T>, b: seq<T>, p: seq<T>)
    requires p <= b
    ensures |a| + |p| <= |a + b| && p == (a + b)[|a|..|a| + |p|]
  {
  }

  // ---- The byte budget over a run ---------------------------------------------------------

  ghost predicate RecordsAtMost(setup: Setup, largest: nat, steps: seq<Step>) {
    forall s :: s in steps && Spills(s) ==>
      forall v :: v in s.batch ==> RecordSize(setup.codec.encode(v)) <= largest
  }

  ghost predicate WithinBudget(setup: Setup, largest: nat, before: Disk, b: Books) {
    && SegmentsBounded(setup.limits, largest, before, b.wal)
    && (b.stored > 0 ==> b.wal.total <= Budget(setup.limits, largest))
  }

  lemma CrashWithinBudget(setup: Setup, largest: nat, before: Disk, b: Books, keep: nat)
    requires Valid(b.wal) && WithinBudget(setup, largest, before, b)
    ensures WithinBudget(setup, largest, before, CrashStep(setup, b, keep))
  {
    if b.wal.current.Some? {
      var ts := b.wal.current.value.ts;
      var bytes := b.wal.disk[ts];
      CutShrinks(b.wal.disk, ts, keep);
      BoundedWhenCut(setup.limits, largest, bytes, keep);
    }
  }

  lemma CutShrinks(disk: Disk, ts: nat, keep: nat)
    requires ts in disk
    ensures Bytes(disk[ts := Take(disk[ts], keep)]) <= Bytes(disk)
  {
    assert disk[ts := Take(disk[ts], keep)] - {ts} == disk - {ts};
    JoinedRemove(disk, ts);
    JoinedRemove(disk[ts := Take(disk[ts], keep)], ts);
  }

  lemma BoundedWhenCut(limits: Limits, largest: nat, bytes: seq<byte>, keep: nat)
    requires Bounded(limits, largest, bytes)
    ensures Bounded(limits, largest, Take(bytes, keep))
  {
    if Single(bytes, largest) {
      var payload :| bytes <= EncodeRecord(payload);
      assert Take(bytes, keep) <= EncodeRecord(payload);
    }
  }

  lemma StepWithinBudget(setup: Setup, largest: nat, before: Disk, b: Books, step: Step)
    requires Valid(b.wal) && SizeExact(b.wal)
    requires StepOk(Unused, setup, b, step) && RecordsAtMost(setup, largest, [step])
    requires WithinBudget(setup, largest, before, b)
    ensures WithinBudget(setup, largest, before, After(setup, b, step)) && SizeExact(After(setup, b, step).wal)
  {
    match step
    case Crash(keep) =>
      CrashWithinBudget(setup, largest, before, b, keep);
    case Flush(batch, world) =>
      if world.sendOk {
        if OldestOther(b.wal).Some? {
          RemoveKeepsValid(b.wal, OldestOther(b.wal).value);
        }
      } else {
        assert step in [step];
        var ps := Payloads(setup.codec, batch);
        forall p | p in ps ensures RecordSize(p) <= largest {
          var i :| 0 <= i < |ps| && ps[i] == p;
          assert batch[i] in batch;
        }
        WriteBatchWithinBudget(setup.limits, largest, before, b.wal, ps, world.Ticks(|batch|));
      }
  }

  /**
   While no rotation reopens a file that holds anything, and whatever else the clock
   does: from the first record stored on, the buffer's byte count stays within the
   budget, and every segment made or changed since open is within the segment limit or
   holds at most one record.
   */
  lemma {:induction false} AlwaysWithinBudget(setup: Setup, largest: nat, before: Disk, b: Books, steps: seq<Step>)
    requires Valid(b.wal) && SizeExact(b.wal)
    requires RunOk(Unused, setup, b, steps) && RecordsAtMost(setup, largest, steps)
    requires WithinBudget(setup, largest, before, b)
    ensures WithinBudget(setup, largest, before, Run(setup, b, steps))
    decreases |steps|
  {
    if steps != [] {
      assert steps[0] in steps;
      StepWithinBudget(setup, largest, before, b, steps[0]);
      AlwaysWithinBudget(setup, largest, before, After(setup, b, steps[0]), steps[1..]);
    }
  }

  /** The three run theorems meet at open: a freshly opened buffer satisfies
      everything they ask of their starting point. */
  lemma FreshlyOpened(setup: Setup, largest: nat, disk: Disk)
    ensures var b := Opened(setup, disk);
            Valid(b.wal) && CurrentFramed(b.wal) && CurrentUntorn(b.wal) && Tidy(b.wal) && SizeExact(b.wal)
            && Queue(setup, b)
            && WithinBudget(setup, largest, disk, b)
  {
    assert [] + Log(setup.codec, disk) == Log(setup.codec, disk);
  }
}
