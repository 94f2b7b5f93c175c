/**
 The disk buffer of src/wal.rs as a value: segment files keyed by timestamp,
 the segment being written, and the running byte count.  Each operation of
 WalBuffer is a function here; the class in WalBuffer.dfy is proved to compute
 these functions, and the properties are proved about them.
 */
module WalModel {
  import opened Json
  import opened Basics
  import opened RecordCodec
  import opened SegmentNames

  type Disk = map<nat, seq<byte>>

  datatype Writer = Writer(ts: nat, size: nat)

  datatype Limits = Limits(maxBytes: nat, segmentMaxBytes: nat)

  datatype Wal = Wal(disk: Disk, current: Option<Writer>, total: nat)

  function SaturatingSub(a: nat, b: nat): nat {
    if a < b then 0 else a - b
  }

  // ---- Folding a directory in listing order --------------------------------------

  ghost function Joined<T>(m: map<nat, seq<T>>): seq<T>
    decreases m.Keys
  {
    if m == map[] then []
    else
      var k := First(m.Keys);
      m[k] + Joined(m - {k})
  }

  lemma JoinedFirst<T>(m: map<nat, seq<T>>, k: nat)
    requires IsFirst(m.Keys, k)
    ensures Joined(m) == m[k] + Joined(m - {k})
  {
    FirstIs(m.Keys, k);
  }

  /** Taking any one file out takes exactly its elements out. */
  lemma {:induction false} JoinedRemove<T>(m: map<nat, seq<T>>, k: nat)
    requires k in m
    ensures multiset(Joined(m)) == multiset(m[k]) + multiset(Joined(m - {k}))
    ensures |Joined(m)| == |m[k]| + |Joined(m - {k})|
    decreases m.Keys
  {
    hide Earlier;
    var j := First(m.Keys);
    if j != k {
      JoinedRemove(m - {j}, k);
      JoinedFirst(m - {k}, j);
      assert m - {k} - {j} == m - {j} - {k};
    }
  }

  /** The file listed last contributes the end. */
  lemma {:induction false} JoinedLast<T>(m: map<nat, seq<T>>, k: nat)
    requires k in m && forall j :: j in m && j != k ==> Earlier(j, k)
    ensures Joined(m) == Joined(m - {k}) + m[k]
    decreases m.Keys
  {
    hide Earlier;
    var j := First(m.Keys);
    if j == k {
      EarlierFromAll(m.Keys, k);
      assert m - {k} == map[];
    } else {
      JoinedLast(m - {j}, k);
      JoinedFirst(m - {k}, j);
      assert m - {k} - {j} == m - {j} - {k};
      AssociativeConcat(m[j], Joined(m - {k} - {j}), m[k]);
    }
  }

  lemma EarlierFromAll(keys: set<nat>, k: nat)
    requires IsFirst(keys, k) && forall j :: j in keys && j != k ==> Earlier(j, k)
    ensures keys == {k}
  {
    forall j | j in keys ensures j == k {
      EarlierIsTotal(j, k);
    }
  }

  // ---- What is on disk --------------------------------------------------------------

  ghost function Bytes(disk: Disk): nat {
    |Joined(disk)|
  }

  /** The records a reader finds in each file. */
  ghost function Contents(codec: Codec, disk: Disk): map<nat, seq<Value>> {
    map k | k in disk :: ReadAll(codec, disk[k])
  }

  /** All readable records, file by file in listing order. */
  ghost function Log(codec: Codec, disk: Disk): seq<Value> {
    Joined(Contents(codec, disk))
  }

  ghost function OnDisk(codec: Codec, disk: Disk): multiset<Value> {
    multiset(Log(codec, disk))
  }

  lemma RemoveFile(codec: Codec, disk: Disk, k: nat)
    requires k in disk
    ensures OnDisk(codec, disk) == multiset(ReadAll(codec, disk[k])) + OnDisk(codec, disk - {k})
    ensures Bytes(disk) == |disk[k]| + Bytes(disk - {k})
    ensures IsFirst(disk.Keys, k) ==> Log(codec, disk) == ReadAll(codec, disk[k]) + Log(codec, disk - {k})
  {
    assert Contents(codec, disk) - {k} == Contents(codec, disk - {k});
    assert Contents(codec, disk).Keys == disk.Keys;
    JoinedRemove(Contents(codec, disk), k);
    JoinedRemove(disk, k);
    if IsFirst(disk.Keys, k) {
      JoinedFirst(Contents(codec, disk), k);
    }
  }

  ghost predicate IsLast(disk: Disk, k: nat) {
    k in disk && forall j :: j in disk && j != k ==> Earlier(j, k)
  }

  /** Replacing one file's bytes replaces exactly that file's share. */
  lemma ReplaceFile(codec: Codec, disk: Disk, k: nat, bytes: seq<byte>)
    ensures OnDisk(codec, disk[k := bytes]) == multiset(ReadAll(codec, bytes)) + OnDisk(codec, disk - {k})
    ensures Bytes(disk[k := bytes]) == |bytes| + Bytes(disk - {k})
  {
    assert disk[k := bytes] - {k} == disk - {k};
    RemoveFile(codec, disk[k := bytes], k);
  }

  lemma ReplaceLast(codec: Codec, disk: Disk, k: nat, bytes: seq<byte>)
    requires forall j :: j in disk && j != k ==> Earlier(j, k)
    ensures Log(codec, disk[k := bytes]) == Log(codec, disk - {k}) + ReadAll(codec, bytes)
  {
    assert Contents(codec, disk[k := bytes]) - {k} == Contents(codec, disk - {k});
    JoinedLast(Contents(codec, disk[k := bytes]), k);
  }

  // ---- The operations ------------------------------------------------------------------

  /** open: no segment is being written, and the count is taken from the files. */
  ghost function Open(disk: Disk): Wal {
    Wal(disk, None, Bytes(disk))
  }

  function OtherKeys(w: Wal): set<nat> {
    match w.current
    case Some(writer) => w.disk.Keys - {writer.ts}
    case None => w.disk.Keys
  }

  /** The oldest segment that is not the one being written. */
  ghost function OldestOther(w: Wal): (k: Option<nat>)
    ensures k.Some? ==> k.value in w.disk && IsFirst(OtherKeys(w), k.value)
  {
    if OtherKeys(w) == {} then None else Some(First(OtherKeys(w)))
  }

  function Remove(w: Wal, k: nat): Wal
    requires k in w.disk
  {
    w.(disk := w.disk - {k}, total := SaturatingSub(w.total, |w.disk[k]|))
  }

  /** What the world does while one record is written: the clock read by a
      rotation, and which file operation fails, if any. */
  datatype Tick = Tick(now: nat, evictFailsAfter: Option<nat>, rotateFails: bool, appendFails: bool)

  /** The countdown to a failing removal, after one that succeeded. */
  function OneLess(failsAfter: Option<nat>): Option<nat>
    requires failsAfter != Some(0)
  {
    match failsAfter
    case Some(n) =>
      var m: nat := n - 1;
      Some(m)
    case None => None
  }

  datatype Eviction = Eviction(wal: Wal, ok: bool, victims: seq<seq<byte>>)

  ghost function EvictLoop(limits: Limits, w: Wal, need: nat, failsAfter: Option<nat>): (r: Eviction)
    decreases w.disk.Keys
  {
    if w.total + need <= limits.maxBytes then Eviction(w, true, [])
    else
      match OldestOther(w)
      case None => Eviction(w, true, [])
      case Some(k) =>
        if failsAfter == Some(0) then Eviction(w, false, [])
        else
          var rest := EvictLoop(limits, Remove(w, k), need, OneLess(failsAfter));
          rest.(victims := [w.disk[k]] + rest.victims)
  }

  predicate NeedsRotate(limits: Limits, w: Wal, need: nat) {
    match w.current
    case Some(writer) => writer.size + need > limits.segmentMaxBytes
    case None => true
  }

  /** Opening for append keeps an existing file's bytes, yet size restarts at 0. */
  function Rotate(w: Wal, now: nat): Wal {
    w.(disk := if now in w.disk then w.disk else w.disk[now := []], current := Some(Writer(now, 0)))
  }

  function Append(w: Wal, payload: seq<byte>): Wal
    requires w.current.Some? && w.current.value.ts in w.disk
  {
    var Writer(ts, size) := w.current.value;
    Wal(w.disk[ts := w.disk[ts] + EncodeRecord(payload)],
        Some(Writer(ts, size + RecordSize(payload))),
        w.total + RecordSize(payload))
  }

  datatype Written = Written(wal: Wal, count: nat, victims: seq<seq<byte>>)

  /** The rest of one loop turn of write_batch, once eviction has succeeded. */
  function Place(limits: Limits, w: Wal, payload: seq<byte>, tick: Tick): (Wal, bool)
    requires w.current.Some? ==> w.current.value.ts in w.disk
  {
    var rotates := NeedsRotate(limits, w, RecordSize(payload));
    if rotates && tick.rotateFails then (w.(current := None), false)
    else
      var w1 := if rotates then Rotate(w, tick.now) else w;
      if tick.appendFails then (w1, false) else (Append(w1, payload), true)
  }

  ghost predicate Valid(w: Wal) {
    && w.total == Bytes(w.disk)
    && (w.current.Some? ==> w.current.value.ts in w.disk && w.current.value.size <= |w.disk[w.current.value.ts]|)
  }

  lemma RemoveKeepsValid(w: Wal, k: nat)
    requires Valid(w) && k in OtherKeys(w)
    ensures Valid(Remove(w, k)) && |w.disk[k]| <= w.total
  {
    JoinedRemove(w.disk, k);
  }

  /** Eviction keeps the count exact, touches only closed segments, and stops
      within budget unless only the current segment is left. */
  lemma {:induction false} EvictLoopKeepsValid(limits: Limits, w: Wal, need: nat, failsAfter: Option<nat>)
    requires Valid(w)
    ensures var r := EvictLoop(limits, w, need, failsAfter);
            Valid(r.wal) && r.wal.current == w.current
            && r.wal.disk.Keys <= w.disk.Keys
            && (forall k :: k in r.wal.disk ==> r.wal.disk[k] == w.disk[k])
            && (w.current.Some? ==> w.current.value.ts in r.wal.disk)
            && (r.ok ==> r.wal.total + need <= limits.maxBytes || OtherKeys(r.wal) == {})
    decreases w.disk.Keys
  {
    if w.total + need > limits.maxBytes && OldestOther(w).Some? && failsAfter != Some(0) {
      var k := OldestOther(w).value;
      RemoveKeepsValid(w, k);
      EvictLoopKeepsValid(limits, Remove(w, k), need, OneLess(failsAfter));
    }
  }

  /** One loop turn of write_batch. */
  ghost function WriteItem(limits: Limits, w: Wal, payload: seq<byte>, tick: Tick): Written
    requires Valid(w)
  {
    EvictLoopKeepsValid(limits, w, RecordSize(payload), tick.evictFailsAfter);
    var e := EvictLoop(limits, w, RecordSize(payload), tick.evictFailsAfter);
    if !e.ok then Written(e.wal, 0, e.victims)
    else
      var (w', stored) := Place(limits, e.wal, payload, tick);
      Written(w', if stored then 1 else 0, e.victims)
  }

  lemma RotateKeepsValid(w: Wal, now: nat)
    requires Valid(w)
    ensures Valid(Rotate(w, now))
  {
    if now !in w.disk {
      JoinedRemove(w.disk[now := []], now);
      assert w.disk[now := []] - {now} == w.disk;
    }
  }

  lemma AppendKeepsValid(w: Wal, payload: seq<byte>)
    requires Valid(w) && w.current.Some?
    ensures Valid(Append(w, payload))
  {
    var ts := w.current.value.ts;
    var w' := Append(w, payload);
    assert w'.disk - {ts} == w.disk - {ts};
    JoinedRemove(w.disk, ts);
    JoinedRemove(w'.disk, ts);
  }

  lemma PlaceKeepsValid(limits: Limits, w: Wal, payload: seq<byte>, tick: Tick)
    requires Valid(w)
    ensures Valid(Place(limits, w, payload, tick).0)
  {
    RotateKeepsValid(w, tick.now);
    var w1 := if NeedsRotate(limits, w, RecordSize(payload)) then Rotate(w, tick.now) else w;
    AppendKeepsValid(w1, payload);
  }

  /** The byte count is exact after every write, whatever fails. */
  lemma WriteItemKeepsValid(limits: Limits, w: Wal, payload: seq<byte>, tick: Tick)
    requires Valid(w)
    ensures Valid(WriteItem(limits, w, payload, tick).wal)
  {
    EvictLoopKeepsValid(limits, w, RecordSize(payload), tick.evictFailsAfter);
    var e := EvictLoop(limits, w, RecordSize(payload), tick.evictFailsAfter);
    PlaceKeepsValid(limits, e.wal, payload, tick);
  }

  /** write_batch: records in order, stopping at the first failure. */
  ghost function WriteBatch(limits: Limits, w: Wal, payloads: seq<seq<byte>>, ticks: seq<Tick>): (r: Written)
    requires Valid(w) && |payloads| == |ticks|
    ensures Valid(r.wal) && r.count <= |payloads|
    decreases |payloads|
  {
    if payloads == [] then Written(w, 0, [])
    else
      WriteItemKeepsValid(limits, w, payloads[0], ticks[0]);
      var one := WriteItem(limits, w, payloads[0], ticks[0]);
      if one.count == 0 then one
      else
        var rest := WriteBatch(limits, one.wal, payloads[1..], ticks[1..]);
        Written(rest.wal, 1 + rest.count, one.victims + rest.victims)
  }
}
