/**
 What write_batch guarantees, record by record and batch by batch: nothing
 readable disappears unaccounted for, the files stay a first-in first-out
 queue, and the byte budget holds.
 */
module WalGuarantees {
  import opened Json
  import opened Basics
  import opened RecordCodec
  import opened SegmentNames
  import opened WalModel

  // ---- What the clock must do -------------------------------------------------------

  /** What is asked of the timestamps that rotations read. */
  datatype Clock =
    | Reusing    // a file that is reopened has no torn tail
    | Unused     // no file that holds anything is reopened
    | Ascending  // the new file is listed after all others

  ghost predicate Meets(clock: Clock, disk: Disk, now: nat) {
    match clock
    case Reusing => now in disk ==> Untorn(disk[now])
    case Unused => now in disk ==> disk[now] == []
    case Ascending => forall k :: k in disk ==> Earlier(k, now)
  }

  lemma AscendingIsUnused(disk: Disk, now: nat)
    requires Meets(Ascending, disk, now)
    ensures now !in disk
  {
    EarlierIsTotal(now, now);
  }

  /** Later timestamps of the same printed width are listed last. */
  lemma LaterIsAscending(disk: Disk, now: nat)
    requires forall k :: k in disk ==> k < now && SameWidth(k, now)
    ensures Meets(Ascending, disk, now)
  {
    forall k | k in disk ensures Earlier(k, now) {
      EarlierIsNumericOrder(k, now);
    }
  }

  /** The clock condition on one record; it binds only when the record rotates. */
  ghost predicate RotationOk(clock: Clock, limits: Limits, w: Wal, payload: seq<byte>, tick: Tick) {
    var e := EvictLoop(limits, w, RecordSize(payload), tick.evictFailsAfter);
    e.ok && NeedsRotate(limits, e.wal, RecordSize(payload)) ==> Meets(clock, e.wal.disk, tick.now)
  }

  ghost predicate RotationsOk(clock: Clock, limits: Limits, w: Wal, payloads: seq<seq<byte>>, ticks: seq<Tick>)
    requires Valid(w) && |payloads| == |ticks|
    decreases |payloads|
  {
    payloads != [] ==>
      RotationOk(clock, limits, w, payloads[0], ticks[0]) &&
      var one := WriteItem(limits, w, payloads[0], ticks[0]);
      WriteItemKeepsValid(limits, w, payloads[0], ticks[0]);
      one.count == 1 ==> RotationsOk(clock, limits, one.wal, payloads[1..], ticks[1..])
  }

  /** The rules get stricter in the order in which they are declared. */
  lemma StricterClock(clock: Clock, disk: Disk, now: nat)
    requires Meets(clock, disk, now)
    ensures Meets(Reusing, disk, now)
    ensures clock != Reusing ==> Meets(Unused, disk, now)
  {
    if clock == Ascending {
      AscendingIsUnused(disk, now);
    }
  }

  lemma {:induction false} StricterRotations(clock: Clock, weaker: Clock, limits: Limits, w: Wal,
                                             payloads: seq<seq<byte>>, ticks: seq<Tick>)
    requires Valid(w) && |payloads| == |ticks| && RotationsOk(clock, limits, w, payloads, ticks)
    requires weaker == Reusing || (weaker == Unused && clock != Reusing)
    ensures RotationsOk(weaker, limits, w, payloads, ticks)
    decreases |payloads|
  {
    hide Meets, EvictLoop, NeedsRotate, WriteItem, Valid;
    if payloads != [] {
      StricterRotation(clock, weaker, limits, w, payloads[0], ticks[0]);
      WriteItemKeepsValid(limits, w, payloads[0], ticks[0]);
      var one := WriteItem(limits, w, payloads[0], ticks[0]);
      if one.count == 1 {
        StricterRotations(clock, weaker, limits, one.wal, payloads[1..], ticks[1..]);
      }
    }
  }

  lemma StricterRotation(clock: Clock, weaker: Clock, limits: Limits, w: Wal, payload: seq<byte>, tick: Tick)
    requires RotationOk(clock, limits, w, payload, tick)
    requires weaker == Reusing || (weaker == Unused && clock != Reusing)
    ensures RotationOk(weaker, limits, w, payload, tick)
  {
    hide Meets, EvictLoop, NeedsRotate;
    var e := EvictLoop(limits, w, RecordSize(payload), tick.evictFailsAfter);
    if e.ok && NeedsRotate(limits, e.wal, RecordSize(payload)) {
      StricterClock(clock, e.wal.disk, tick.now);
    }
  }

  /** Nothing is torn in the file being written. */
  ghost predicate CurrentUntorn(w: Wal) {
    w.current.Some? ==> w.current.value.ts in w.disk && Untorn(w.disk[w.current.value.ts])
  }

  /** What is appended to the file being written can be read back. */
  ghost predicate CurrentFramed(w: Wal) {
    w.current.Some? ==> w.current.value.ts in w.disk && Framed(w.disk[w.current.value.ts])
  }

  /** The current segment is listed last. */
  ghost predicate Tidy(w: Wal) {
    w.current.Some? ==> IsLast(w.disk, w.current.value.ts)
  }

  /** The size field of the current segment is its real length. */
  ghost predicate SizeExact(w: Wal) {
    w.current.Some? ==>
      w.current.value.ts in w.disk && w.current.value.size == |w.disk[w.current.value.ts]|
  }

  /** The readable records of a list of files, in order. */
  function Recovered(codec: Codec, files: seq<seq<byte>>): seq<Value> {
    if files == [] then [] else ReadAll(codec, files[0]) + Recovered(codec, files[1..])
  }

  lemma {:induction false} RecoveredConcat(codec: Codec, a: seq<seq<byte>>, b: seq<seq<byte>>)
    ensures Recovered(codec, a + b) == Recovered(codec, a) + Recovered(codec, b)
  {
    if a == [] {
      assert a + b == b;
    } else {
      assert (a + b)[1..] == a[1..] + b;
      RecoveredConcat(codec, a[1..], b);
      AssociativeConcat(ReadAll(codec, a[0]), Recovered(codec, a[1..]), Recovered(codec, b));
    }
  }

  lemma RecoveredCons(codec: Codec, file: seq<byte>, files: seq<seq<byte>>)
    ensures Recovered(codec, [file] + files) == ReadAll(codec, file) + Recovered(codec, files)
  {
    assert ([file] + files)[1..] == files;
  }

  // ---- Conservation -----------------------------------------------------------------

  lemma {:induction false} EvictLoopConserves(codec: Codec, limits: Limits, w: Wal, need: nat, failsAfter: Option<nat>)
    requires Valid(w)
    ensures var r := EvictLoop(limits, w, need, failsAfter);
            OnDisk(codec, w.disk) == multiset(Recovered(codec, r.victims)) + OnDisk(codec, r.wal.disk)
    decreases w.disk.Keys
  {
    hide OldestOther, Valid, ReadAll, OnDisk;
    if w.total + need > limits.maxBytes && OldestOther(w).Some? && failsAfter != Some(0) {
      var k := OldestOther(w).value;
      var fewer := OneLess(failsAfter);
      RemoveKeepsValid(w, k);
      RemoveFile(codec, w.disk, k);
      EvictLoopConserves(codec, limits, Remove(w, k), need, fewer);
      var rest := EvictLoop(limits, Remove(w, k), need, fewer);
      RecoveredCons(codec, w.disk[k], rest.victims);
      MultisetOfConcat(ReadAll(codec, w.disk[k]), Recovered(codec, rest.victims), OnDisk(codec, rest.wal.disk));
    }
  }

  lemma RotateConserves(codec: Codec, w: Wal, now: nat)
    requires Meets(Reusing, w.disk, now)
    ensures OnDisk(codec, Rotate(w, now).disk) == OnDisk(codec, w.disk)
    ensures CurrentUntorn(Rotate(w, now))
  {
    if now !in w.disk {
      ReplaceFile(codec, w.disk, now, []);
      assert w.disk - {now} == w.disk;
      assert ReadAll(codec, []) == [];
    }
  }

  /** A record appended where nothing is torn can be read exactly when it is within
      the reader's limit and no record before it was over it. */
  lemma AppendedRecordReads(codec: Codec, file: seq<byte>, v: Value)
    requires codec.Restores(v) && |codec.encode(v)| < U32_RANGE && Untorn(file)
    ensures var file' := file + EncodeRecord(codec.encode(v));
            && Untorn(file') && (Framed(file') <==> Framed(file) && |codec.encode(v)| <= MAX_PAYLOAD)
            && ReadAll(codec, file') == ReadAll(codec, file) + if Framed(file') then [v] else []
  {
    var record := EncodeRecord(codec.encode(v));
    if Blocked(file) {
      BlockedStays(codec, file, record);
      BlockedStays(codec, file + record, []);
      assert ReadAll(codec, file) + [] == ReadAll(codec, file);
    } else if |codec.encode(v)| <= MAX_PAYLOAD {
      GoodRecordReads(codec, file, v);
    } else {
      BadRecordBlocks(codec, file, codec.encode(v));
    }
  }

  lemma GoodRecordReads(codec: Codec, file: seq<byte>, v: Value)
    requires codec.Restores(v) && |codec.encode(v)| <= MAX_PAYLOAD && Framed(file)
    ensures var file' := file + EncodeRecord(codec.encode(v));
            Framed(file') && ReadAll(codec, file') == ReadAll(codec, file) + [v]
  {
    var record := EncodeRecord(codec.encode(v));
    assert record + [] == record;
    EncodedRecordScans(codec.encode(v), []);
    AppendToFramed(codec, file, record);
    FramedAppend(file, record);
    assert ReadAll(codec, record) == [v];
  }

  lemma BadRecordBlocks(codec: Codec, file: seq<byte>, payload: seq<byte>)
    requires MAX_PAYLOAD < |payload| < U32_RANGE && Framed(file)
    ensures var file' := file + EncodeRecord(payload);
            Blocked(file') && !Framed(file') && ReadAll(codec, file') == ReadAll(codec, file) + []
  {
    var record := EncodeRecord(payload);
    OversizeBlocks(payload);
    AppendToFramed(codec, file, record);
    BlockedBehind(file, record);
    BlockedStays(codec, file + record, []);
  }

  /** A record's fate once stored: readable, or hidden from every reader. */
  ghost predicate ReadsBack(r: Written) {
    r.count == 1 && r.wal.current.Some? && CurrentFramed(r.wal)
  }

  ghost function Seen(v: Value, r: Written): seq<Value> {
    if ReadsBack(r) then [v] else []
  }

  lemma AppendConserves(codec: Codec, w: Wal, v: Value)
    requires codec.Restores(v) && |codec.encode(v)| < U32_RANGE
    requires w.current.Some? && CurrentUntorn(w)
    ensures var w' := Append(w, codec.encode(v));
            && CurrentUntorn(w')
            && OnDisk(codec, w'.disk) == OnDisk(codec, w.disk) + multiset(if CurrentFramed(w') then [v] else [])
  {
    hide Untorn, Framed;
    var ts := w.current.value.ts;
    var file, file' := w.disk[ts], w.disk[ts] + EncodeRecord(codec.encode(v));
    AppendedRecordReads(codec, file, v);
    RemoveFile(codec, w.disk, ts);
    ReplaceFile(codec, w.disk, ts, file');
    GrownFile(ReadAll(codec, file), if Framed(file') then [v] else [], OnDisk(codec, w.disk - {ts}));
  }

  lemma GrownFile(a: seq<Value>, b: seq<Value>, others: multiset<Value>)
    ensures multiset(a + b) + others == multiset(a) + others + multiset(b)
  {
    MultisetAppend(a, b);
  }

  lemma PlaceConserves(codec: Codec, limits: Limits, w: Wal, v: Value, tick: Tick)
    requires codec.Restores(v) && |codec.encode(v)| < U32_RANGE
    requires Valid(w) && CurrentUntorn(w)
    requires NeedsRotate(limits, w, RecordSize(codec.encode(v))) ==> Meets(Reusing, w.disk, tick.now)
    ensures var (w', stored) := Place(limits, w, codec.encode(v), tick);
            CurrentUntorn(w') && (stored ==> w'.current.Some?) &&
            OnDisk(codec, w'.disk) == OnDisk(codec, w.disk) + multiset(if stored && CurrentFramed(w') then [v] else [])
  {
    hide Untorn, Framed, OnDisk;
    var rotates := NeedsRotate(limits, w, RecordSize(codec.encode(v)));
    if rotates {
      RotateConserves(codec, w, tick.now);
    }
    AppendConserves(codec, if rotates then Rotate(w, tick.now) else w, v);
  }

  lemma WriteItemConserves(codec: Codec, limits: Limits, w: Wal, v: Value, tick: Tick)
    requires codec.Restores(v) && |codec.encode(v)| < U32_RANGE
    requires Valid(w) && CurrentUntorn(w) && RotationOk(Reusing, limits, w, codec.encode(v), tick)
    ensures var r := WriteItem(limits, w, codec.encode(v), tick);
            CurrentUntorn(r.wal) &&
            OnDisk(codec, w.disk) + multiset(Seen(v, r))
              == multiset(Recovered(codec, r.victims)) + OnDisk(codec, r.wal.disk)
  {
    hide Untorn, Framed, OnDisk, Recovered;
    var need := RecordSize(codec.encode(v));
    EvictLoopKeepsValid(limits, w, need, tick.evictFailsAfter);
    EvictLoopConserves(codec, limits, w, need, tick.evictFailsAfter);
    var e := EvictLoop(limits, w, need, tick.evictFailsAfter);
    if e.ok {
      PlaceConserves(codec, limits, e.wal, v, tick);
      var r := WriteItem(limits, w, codec.encode(v), tick);
      MultisetSum(multiset(Recovered(codec, e.victims)), OnDisk(codec, e.wal.disk), multiset(Seen(v, r)));
    }
  }

  /** Two balances in a row are one balance. */
  lemma BatchBalance(d0: multiset<Value>, d1: multiset<Value>, d2: multiset<Value>,
                     gone1: seq<Value>, gone2: seq<Value>, in1: seq<Value>, in2: seq<Value>)
    requires d0 + multiset(in1) == multiset(gone1) + d1
    requires d1 + multiset(in2) == multiset(gone2) + d2
    ensures d0 + multiset(in1 + in2) == multiset(gone1 + gone2) + d2
  {
    assert multiset(in1 + in2) == multiset(in1) + multiset(in2);
    assert multiset(gone1 + gone2) == multiset(gone1) + multiset(gone2);
    calc {
      d0 + multiset(in1 + in2);
      (d0 + multiset(in1)) + multiset(in2);
      multiset(gone1) + (d1 + multiset(in2));
      multiset(gone1 + gone2) + d2;
    }
  }

  /** The records of a batch that were stored: those a reader will find, and those
      hidden by a length over the reader's limit, their own or an earlier one's. */
  datatype Spilled = Spilled(readable: seq<Value>, hidden: seq<Value>)

  ghost function Sort(codec: Codec, limits: Limits, w: Wal, values: seq<Value>, ticks: seq<Tick>): Spilled
    requires Valid(w) && |values| == |ticks|
    decreases |values|
  {
    if values == [] then Spilled([], [])
    else
      WriteItemKeepsValid(limits, w, codec.encode(values[0]), ticks[0]);
      var one := WriteItem(limits, w, codec.encode(values[0]), ticks[0]);
      if one.count == 0 then Spilled([], [])
      else
        PutFirst(values[0], ReadsBack(one), Sort(codec, limits, one.wal, values[1..], ticks[1..]))
  }

  function PutFirst(v: Value, readable: bool, rest: Spilled): Spilled {
    if readable then rest.(readable := [v] + rest.readable) else rest.(hidden := [v] + rest.hidden)
  }

  lemma PayloadsRest(codec: Codec, values: seq<Value>)
    requires values != []
    ensures Payloads(codec, values)[0] == codec.encode(values[0])
    ensures Payloads(codec, values)[1..] == Payloads(codec, values[1..])
  {
  }

  lemma PutFirstAdds(values: seq<Value>, n: nat, readable: bool, rest: Spilled)
    requires n < |values| && multiset(values[1..][..n]) == multiset(rest.readable) + multiset(rest.hidden)
    ensures var s := PutFirst(values[0], readable, rest);
            multiset(values[..1 + n]) == multiset(s.readable) + multiset(s.hidden)
  {
    TakeCons(values, n);
    MultisetAppend([values[0]], values[1..][..n]);
    MultisetAppend([values[0]], rest.readable);
    MultisetAppend([values[0]], rest.hidden);
  }

  /** Stored is readable or hidden. */
  lemma {:induction false} SortIsAll(codec: Codec, limits: Limits, w: Wal, values: seq<Value>, ticks: seq<Tick>)
    requires Valid(w) && |values| == |ticks|
    ensures var r := WriteBatch(limits, w, Payloads(codec, values), ticks);
            var s := Sort(codec, limits, w, values, ticks);
            multiset(values[..r.count]) == multiset(s.readable) + multiset(s.hidden)
    decreases |values|
  {
    hide Valid, WriteItem, ReadsBack, PutFirst;
    if values != [] {
      PayloadsRest(codec, values);
      WriteItemKeepsValid(limits, w, codec.encode(values[0]), ticks[0]);
      var one := WriteItem(limits, w, codec.encode(values[0]), ticks[0]);
      if one.count != 0 {
        SortIsAll(codec, limits, one.wal, values[1..], ticks[1..]);
        var rest := WriteBatch(limits, one.wal, Payloads(codec, values[1..]), ticks[1..]);
        PutFirstAdds(values, rest.count, ReadsBack(one), Sort(codec, limits, one.wal, values[1..], ticks[1..]));
      }
    }
  }

  /** Nothing is hidden when every record is within the limit and no file that holds
      anything is reopened. */
  lemma {:induction false} NothingHidden(codec: Codec, limits: Limits, w: Wal, values: seq<Value>, ticks: seq<Tick>)
    requires Storable(codec, values) && |values| == |ticks|
    requires Valid(w) && CurrentFramed(w) && RotationsOk(Unused, limits, w, Payloads(codec, values), ticks)
    ensures Sort(codec, limits, w, values, ticks).hidden == []
    ensures CurrentFramed(WriteBatch(limits, w, Payloads(codec, values), ticks).wal)
    decreases |values|
  {
    hide Valid, WriteItem, CurrentFramed, RotationOk;
    if values != [] {
      PayloadsRest(codec, values);
      WriteItemKeepsValid(limits, w, codec.encode(values[0]), ticks[0]);
      WriteItemReadsBack(codec, limits, w, values[0], ticks[0]);
      var one := WriteItem(limits, w, codec.encode(values[0]), ticks[0]);
      if one.count != 0 {
        NothingHidden(codec, limits, one.wal, values[1..], ticks[1..]);
      }
    }
  }

  lemma WriteItemReadsBack(codec: Codec, limits: Limits, w: Wal, v: Value, tick: Tick)
    requires codec.Restores(v) && |codec.encode(v)| <= MAX_PAYLOAD
    requires Valid(w) && CurrentFramed(w) && RotationOk(Unused, limits, w, codec.encode(v), tick)
    ensures var r := WriteItem(limits, w, codec.encode(v), tick);
            CurrentFramed(r.wal) && (r.count == 0 || (r.count == 1 && r.wal.current.Some?))
  {
    hide EvictLoop;
    var need := RecordSize(codec.encode(v));
    EvictLoopKeepsValid(limits, w, need, tick.evictFailsAfter);
    var e := EvictLoop(limits, w, need, tick.evictFailsAfter);
    if e.ok {
      var w1 := if NeedsRotate(limits, e.wal, need) then Rotate(e.wal, tick.now) else e.wal;
      GoodRecordReads(codec, w1.disk[w1.current.value.ts], v);
    }
  }

  lemma BatchStepBalances(codec: Codec, before: Disk, one: Written, rest: Written, v: Value, tail: seq<Value>)
    requires OnDisk(codec, before) + multiset(Seen(v, one))
             == multiset(Recovered(codec, one.victims)) + OnDisk(codec, one.wal.disk)
    requires OnDisk(codec, one.wal.disk) + multiset(tail)
             == multiset(Recovered(codec, rest.victims)) + OnDisk(codec, rest.wal.disk)
    ensures OnDisk(codec, before) + multiset(Seen(v, one) + tail)
            == multiset(Recovered(codec, one.victims + rest.victims)) + OnDisk(codec, rest.wal.disk)
  {
    hide *;
    BatchBalance(OnDisk(codec, before), OnDisk(codec, one.wal.disk), OnDisk(codec, rest.wal.disk),
                 Recovered(codec, one.victims), Recovered(codec, rest.victims), Seen(v, one), tail);
    RecoveredConcat(codec, one.victims, rest.victims);
  }

  /** The values read back, and their payloads' lengths fit the four bytes of the prefix. */
  predicate Writable(codec: Codec, values: seq<Value>) {
    forall v :: v in values ==> codec.Restores(v) && |codec.encode(v)| < U32_RANGE
  }

  /**
   Conservation for a batch: what was readable before plus what was stored readably
   is what is readable after plus what eviction took.
   */
  lemma {:induction false} WriteBatchConserves(codec: Codec, limits: Limits, w: Wal, values: seq<Value>,
                                               ticks: seq<Tick>)
    requires Writable(codec, values) && |values| == |ticks|
    requires Valid(w) && CurrentUntorn(w) && RotationsOk(Reusing, limits, w, Payloads(codec, values), ticks)
    ensures var r := WriteBatch(limits, w, Payloads(codec, values), ticks);
            CurrentUntorn(r.wal) &&
            OnDisk(codec, w.disk) + multiset(Sort(codec, limits, w, values, ticks).readable)
              == multiset(Recovered(codec, r.victims)) + OnDisk(codec, r.wal.disk)
    decreases |values|
  {
    hide OnDisk, CurrentUntorn, RotationOk, EvictLoop, Place, ReadAll, ReadsBack, Valid;
    if values != [] {
      var v := values[0];
      PayloadsRest(codec, values);
      WriteItemKeepsValid(limits, w, codec.encode(v), ticks[0]);
      WriteItemConserves(codec, limits, w, v, ticks[0]);
      var one := WriteItem(limits, w, codec.encode(v), ticks[0]);
      if one.count == 0 {
        NotStoredNotSeen(v, one);
      } else {
        WriteBatchConserves(codec, limits, one.wal, values[1..], ticks[1..]);
        var rest := WriteBatch(limits, one.wal, Payloads(codec, values[1..]), ticks[1..]);
        var tail := Sort(codec, limits, one.wal, values[1..], ticks[1..]).readable;
        BatchStepBalances(codec, w.disk, one, rest, v, tail);
        assert [] + tail == tail;
      }
    }
  }

  lemma NotStoredNotSeen(v: Value, r: Written)
    requires r.count == 0
    ensures Seen(v, r) == []
  {
  }

  // ---- First in, first out -------------------------------------------------------------

  lemma {:induction false} EvictLoopIsFifo(codec: Codec, limits: Limits, w: Wal, need: nat, failsAfter: Option<nat>)
    requires Valid(w) && Tidy(w)
    ensures var r := EvictLoop(limits, w, need, failsAfter);
            Tidy(r.wal) && Log(codec, w.disk) == Recovered(codec, r.victims) + Log(codec, r.wal.disk)
    decreases w.disk.Keys
  {
    if w.total + need > limits.maxBytes && OldestOther(w).Some? && failsAfter != Some(0) {
      var k := OldestOther(w).value;
      var fewer := OneLess(failsAfter);
      OldestOtherIsFirst(w);
      RemoveKeepsValid(w, k);
      RemoveFile(codec, w.disk, k);
      EvictLoopIsFifo(codec, limits, Remove(w, k), need, fewer);
      var rest := EvictLoop(limits, Remove(w, k), need, fewer);
      RecoveredCons(codec, w.disk[k], rest.victims);
      AssociativeConcat(ReadAll(codec, w.disk[k]), Recovered(codec, rest.victims), Log(codec, rest.wal.disk));
    }
  }

  /** In a tidy buffer the oldest closed segment heads the whole listing. */
  lemma OldestOtherIsFirst(w: Wal)
    requires Tidy(w) && OldestOther(w).Some?
    ensures IsFirst(w.disk.Keys, OldestOther(w).value)
  {
  }

  lemma RotateIsFifo(codec: Codec, w: Wal, now: nat)
    requires Meets(Ascending, w.disk, now)
    ensures Log(codec, Rotate(w, now).disk) == Log(codec, w.disk)
    ensures Tidy(Rotate(w, now)) && CurrentUntorn(Rotate(w, now))
  {
    hide Log;
    AscendingIsUnused(w.disk, now);
    ReplaceLast(codec, w.disk, now, []);
    assert w.disk - {now} == w.disk;
    assert ReadAll(codec, []) == [];
  }

  lemma AppendIsFifo(codec: Codec, w: Wal, v: Value)
    requires codec.Restores(v) && |codec.encode(v)| < U32_RANGE
    requires w.current.Some? && CurrentUntorn(w) && Tidy(w)
    ensures var w' := Append(w, codec.encode(v));
            && Tidy(w') && CurrentUntorn(w')
            && Log(codec, w'.disk) == Log(codec, w.disk) + if CurrentFramed(w') then [v] else []
  {
    hide Untorn, Framed, Log, ReadAll;
    var ts := w.current.value.ts;
    var file, file' := w.disk[ts], w.disk[ts] + EncodeRecord(codec.encode(v));
    AppendedRecordReads(codec, file, v);
    assert w.disk == w.disk[ts := file];
    ReplaceLast(codec, w.disk, ts, file);
    ReplaceLast(codec, w.disk, ts, file');
    AssociativeConcat(Log(codec, w.disk - {ts}), ReadAll(codec, file), if Framed(file') then [v] else []);
  }

  lemma PlaceIsFifo(codec: Codec, limits: Limits, w: Wal, v: Value, tick: Tick)
    requires codec.Restores(v) && |codec.encode(v)| < U32_RANGE
    requires Valid(w) && CurrentUntorn(w) && Tidy(w)
    requires NeedsRotate(limits, w, RecordSize(codec.encode(v))) ==> Meets(Ascending, w.disk, tick.now)
    ensures var (w', stored) := Place(limits, w, codec.encode(v), tick);
            CurrentUntorn(w') && Tidy(w') && (stored ==> w'.current.Some?) &&
            Log(codec, w'.disk) == Log(codec, w.disk) + if stored && CurrentFramed(w') then [v] else []
  {
    hide Untorn, Framed, Log;
    var rotates := NeedsRotate(limits, w, RecordSize(codec.encode(v)));
    if rotates {
      RotateIsFifo(codec, w, tick.now);
    }
    AppendIsFifo(codec, if rotates then Rotate(w, tick.now) else w, v);
  }

  lemma WriteItemIsFifo(codec: Codec, limits: Limits, w: Wal, v: Value, tick: Tick)
    requires codec.Restores(v) && |codec.encode(v)| < U32_RANGE
    requires Valid(w) && CurrentUntorn(w) && Tidy(w) && RotationOk(Ascending, limits, w, codec.encode(v), tick)
    ensures var r := WriteItem(limits, w, codec.encode(v), tick);
            CurrentUntorn(r.wal) && Tidy(r.wal) &&
            Log(codec, w.disk) + Seen(v, r) == Recovered(codec, r.victims) + Log(codec, r.wal.disk)
  {
    hide Untorn, Framed, Log, Recovered;
    var need := RecordSize(codec.encode(v));
    EvictLoopKeepsValid(limits, w, need, tick.evictFailsAfter);
    EvictLoopIsFifo(codec, limits, w, need, tick.evictFailsAfter);
    var e := EvictLoop(limits, w, need, tick.evictFailsAfter);
    if e.ok {
      PlaceIsFifo(codec, limits, e.wal, v, tick);
      var r := WriteItem(limits, w, codec.encode(v), tick);
      AssociativeConcat(Recovered(codec, e.victims), Log(codec, e.wal.disk), Seen(v, r));
    }
  }

  /** Two queue steps in a row are one queue step. */
  lemma BatchQueue(l0: seq<Value>, l1: seq<Value>, l2: seq<Value>,
                   gone1: seq<Value>, gone2: seq<Value>, in1: seq<Value>, in2: seq<Value>)
    requires l0 + in1 == gone1 + l1
    requires l1 + in2 == gone2 + l2
    ensures l0 + (in1 + in2) == gone1 + gone2 + l2
  {
    AssociativeConcat(l0, in1, in2);
    AssociativeConcat(gone1, l1, in2);
    AssociativeConcat(gone1, gone2, l2);
  }

  lemma BatchStepQueues(codec: Codec, before: Disk, one: Written, rest: Written, v: Value, tail: seq<Value>)
    requires Log(codec, before) + Seen(v, one) == Recovered(codec, one.victims) + Log(codec, one.wal.disk)
    requires Log(codec, one.wal.disk) + tail == Recovered(codec, rest.victims) + Log(codec, rest.wal.disk)
    ensures Log(codec, before) + (Seen(v, one) + tail)
            == Recovered(codec, one.victims + rest.victims) + Log(codec, rest.wal.disk)
  {
    hide *;
    BatchQueue(Log(codec, before), Log(codec, one.wal.disk), Log(codec, rest.wal.disk),
               Recovered(codec, one.victims), Recovered(codec, rest.victims), Seen(v, one), tail);
    RecoveredConcat(codec, one.victims, rest.victims);
  }

  /**
   First in, first out: the log before, followed by what was stored readably, is
   what eviction took followed by the log after.  Eviction only ever takes whole
   segments, from the old end.
   */
  lemma {:induction false} WriteBatchIsFifo(codec: Codec, limits: Limits, w: Wal, values: seq<Value>, ticks: seq<Tick>)
    requires Writable(codec, values) && |values| == |ticks|
    requires Valid(w) && CurrentUntorn(w) && Tidy(w)
    requires RotationsOk(Ascending, limits, w, Payloads(codec, values), ticks)
    ensures var r := WriteBatch(limits, w, Payloads(codec, values), ticks);
            CurrentUntorn(r.wal) && Tidy(r.wal) &&
            Log(codec, w.disk) + Sort(codec, limits, w, values, ticks).readable
              == Recovered(codec, r.victims) + Log(codec, r.wal.disk)
    decreases |values|
  {
    hide Log, CurrentUntorn, Tidy, RotationOk, EvictLoop, Place, ReadAll, ReadsBack, Valid;
    if values != [] {
      var v := values[0];
      PayloadsRest(codec, values);
      WriteItemKeepsValid(limits, w, codec.encode(v), ticks[0]);
      WriteItemIsFifo(codec, limits, w, v, ticks[0]);
      var one := WriteItem(limits, w, codec.encode(v), ticks[0]);
      if one.count == 0 {
        NotStoredNotSeen(v, one);
      } else {
        WriteBatchIsFifo(codec, limits, one.wal, values[1..], ticks[1..]);
        var rest := WriteBatch(limits, one.wal, Payloads(codec, values[1..]), ticks[1..]);
        var tail := Sort(codec, limits, one.wal, values[1..], ticks[1..]).readable;
        BatchStepQueues(codec, w.disk, one, rest, v, tail);
        assert [] + tail == tail;
      }
    }
  }

  // ---- The byte budget --------------------------------------------------------------------

  /** At most one record, possibly cut short by a crash. */
  ghost predicate Single(bytes: seq<byte>, largest: nat) {
    |bytes| <= largest && exists payload :: bytes <= EncodeRecord(payload)
  }

  /** Within the segment limit, or holding no more than one record. */
  ghost predicate Bounded(limits: Limits, largest: nat, bytes: seq<byte>) {
    |bytes| <= limits.segmentMaxBytes || Single(bytes, largest)
  }

  /** Every file is bounded, except those still exactly as they were at open. */
  ghost predicate SegmentsBounded(limits: Limits, largest: nat, before: Disk, w: Wal) {
    && (forall k :: k in w.disk ==>
          (k in before && before[k] == w.disk[k]) || Bounded(limits, largest, w.disk[k]))
    && (w.current.Some? ==>
          w.current.value.ts in w.disk && Bounded(limits, largest, w.disk[w.current.value.ts]))
  }

  function Budget(limits: Limits, largest: nat): nat {
    Max(limits.maxBytes, Max(limits.segmentMaxBytes, largest) + largest)
  }

  lemma OnlyCurrentLeft(w: Wal)
    requires Valid(w) && OtherKeys(w) == {}
    ensures w.total == if w.current.Some? then |w.disk[w.current.value.ts]| else 0
  {
    if w.current.Some? {
      var ts := w.current.value.ts;
      assert w.disk - {ts} == map[];
      JoinedRemove(w.disk, ts);
    } else {
      assert w.disk == map[];
    }
  }

  lemma AppendWithinLimits(limits: Limits, largest: nat, before: Disk, w: Wal, payload: seq<byte>, now: nat)
    requires Valid(w) && SizeExact(w) && RecordSize(payload) <= largest
    requires SegmentsBounded(limits, largest, before, w)
    requires NeedsRotate(limits, w, RecordSize(payload)) ==> Meets(Unused, w.disk, now)
    ensures var w1 := if NeedsRotate(limits, w, RecordSize(payload)) then Rotate(w, now) else w;
            var w2 := Append(w1, payload);
            SizeExact(w1) && SegmentsBounded(limits, largest, before, w1) &&
            SizeExact(w2) && SegmentsBounded(limits, largest, before, w2)
  {
    var rotates := NeedsRotate(limits, w, RecordSize(payload));
    var w1 := if rotates then Rotate(w, now) else w;
    var bytes := w1.disk[w1.current.value.ts] + EncodeRecord(payload);
    if rotates {
      assert bytes == EncodeRecord(payload);
    }
    assert Bounded(limits, largest, bytes);
  }

  lemma WriteItemWithinBudget(limits: Limits, largest: nat, before: Disk, w: Wal, payload: seq<byte>, tick: Tick)
    requires Valid(w) && SizeExact(w) && RotationOk(Unused, limits, w, payload, tick)
    requires RecordSize(payload) <= largest
    requires SegmentsBounded(limits, largest, before, w)
    ensures var r := WriteItem(limits, w, payload, tick);
            SizeExact(r.wal) && SegmentsBounded(limits, largest, before, r.wal)
            && r.wal.total <= Max(w.total, Budget(limits, largest))
            && (r.count == 1 ==> r.wal.total <= Budget(limits, largest))
  {
    var need := RecordSize(payload);
    EvictLoopKeepsValid(limits, w, need, tick.evictFailsAfter);
    EvictLoopShrinks(limits, w, need, tick.evictFailsAfter);
    var e := EvictLoop(limits, w, need, tick.evictFailsAfter);
    if e.ok {
      if OtherKeys(e.wal) == {} {
        OnlyCurrentLeft(e.wal);
      }
      AppendWithinLimits(limits, largest, before, e.wal, payload, tick.now);
    }
  }

  lemma {:induction false} EvictLoopShrinks(limits: Limits, w: Wal, need: nat, failsAfter: Option<nat>)
    requires Valid(w) && SizeExact(w)
    ensures var r := EvictLoop(limits, w, need, failsAfter);
            SizeExact(r.wal) && r.wal.total <= w.total
    decreases w.disk.Keys
  {
    if w.total + need > limits.maxBytes && OldestOther(w).Some? && failsAfter != Some(0) {
      var k := OldestOther(w).value;
      RemoveKeepsValid(w, k);
      EvictLoopShrinks(limits, Remove(w, k), need, OneLess(failsAfter));
    }
  }

  /** The budget and segment limits, carried through a batch. */
  lemma {:induction false} WriteBatchWithinBudget(limits: Limits, largest: nat, before: Disk, w: Wal,
                                                  payloads: seq<seq<byte>>, ticks: seq<Tick>)
    requires |payloads| == |ticks|
    requires Valid(w) && SizeExact(w) && RotationsOk(Unused, limits, w, payloads, ticks)
    requires forall p :: p in payloads ==> RecordSize(p) <= largest
    requires SegmentsBounded(limits, largest, before, w)
    ensures var r := WriteBatch(limits, w, payloads, ticks);
            SizeExact(r.wal) && SegmentsBounded(limits, largest, before, r.wal)
            && r.wal.total <= Max(w.total, Budget(limits, largest))
            && (r.count > 0 ==> r.wal.total <= Budget(limits, largest))
    decreases |payloads|
  {
    if payloads != [] {
      WriteItemKeepsValid(limits, w, payloads[0], ticks[0]);
      WriteItemWithinBudget(limits, largest, before, w, payloads[0], ticks[0]);
      var one := WriteItem(limits, w, payloads[0], ticks[0]);
      if one.count == 1 {
        WriteBatchWithinBudget(limits, largest, before, one.wal, payloads[1..], ticks[1..]);
      }
    }
  }

  // ---- Where the clock conditions come from ----------------------------------------------

  /** A rotation leaves the size field right exactly when it does not reopen a file
      that already holds something. */
  lemma SizeExactExactlyWhen(w: Wal, now: nat)
    ensures SizeExact(Rotate(w, now)) <==> (now in w.disk ==> w.disk[now] == [])
  {
  }

  /** Appending keeps a right size field right, and a wrong one wrong. */
  lemma WrongSizeStays(w: Wal, payload: seq<byte>)
    requires Valid(w) && w.current.Some?
    ensures SizeExact(Append(w, payload)) <==> SizeExact(w)
  {
  }

  /**
   Two rotations in the same millisecond reopen one file with its size counted
   from zero again, so a segment outgrows its limit while the byte count stays right.
   */
  lemma SameMillisecondOutgrowsTheLimit(limits: Limits, now: nat, p: seq<byte>, q: seq<byte>)
    requires RecordSize(p) <= limits.segmentMaxBytes && RecordSize(q) <= limits.segmentMaxBytes
    requires limits.segmentMaxBytes < RecordSize(p) + RecordSize(q) <= limits.maxBytes
    ensures var tick := Tick(now, None, false, false);
            var r := WriteBatch(limits, Open(map[]), [p, q], [tick, tick]);
            r.count == 2 && r.wal.disk.Keys == {now} && |r.wal.disk[now]| == RecordSize(p) + RecordSize(q)
            && |r.wal.disk[now]| > limits.segmentMaxBytes
            && r.wal.current == Some(Writer(now, RecordSize(q)))
            && r.wal.total == |r.wal.disk[now]|
  {
    var tick := Tick(now, None, false, false);
    var w0 := Open(map[]);
    var one := WriteItem(limits, w0, p, tick);
    assert one.wal == Wal(map[now := EncodeRecord(p)], Some(Writer(now, RecordSize(p))), RecordSize(p)) by {
      assert [] + EncodeRecord(p) == EncodeRecord(p);
      assert map[now := []][now := EncodeRecord(p)] == map[now := EncodeRecord(p)];
    }
    WriteItemKeepsValid(limits, w0, p, tick);
    var two := WriteItem(limits, one.wal, q, tick);
    assert two.wal == Wal(map[now := EncodeRecord(p) + EncodeRecord(q)], Some(Writer(now, RecordSize(q))),
                          RecordSize(p) + RecordSize(q));
    assert [p, q][1..] == [q] && [tick, tick][1..] == [tick];
    WriteItemKeepsValid(limits, one.wal, q, tick);
    assert [q][1..] == [] && [tick][1..] == [];
    assert WriteBatch(limits, one.wal, [q], [tick]).wal == two.wal;
  }
}
