/**
 WalBuffer of src/wal.rs: the buffer object with its fields updated in place.
 Every method is proved to take the abstract state, View(), to the state that
 the functions of WalModel give.  The directory is a field; the clock and the
 file operations that fail are parameters.
 */
module WalBuffer {
  import opened Json
  import opened Basics
  import opened RecordCodec
  import opened SegmentNames
  import opened WalModel

  /** An io::Result around a value. */
  datatype Io<T> = Ok(value: T) | Failed

  class Buffer {
    const codec: Codec
    const limits: Limits
    var disk: Disk
    var currentSegment: Option<Writer>
    var totalBytes: nat

    ghost function View(): Wal
      reads this
    {
      Wal(disk, currentSegment, totalBytes)
    }

    ghost predicate Valid()
      reads this
    {
      WalModel.Valid(View())
    }

    /** open: add up the lengths of the segments found. */
    constructor (codec: Codec, limits: Limits, found: Disk)
      ensures Valid() && View() == Open(found)
      ensures this.codec == codec && this.limits == limits
    {
      this.codec, this.limits := codec, limits;
      disk, currentSegment, totalBytes := found, None, 0;
      new;
      var segments := SortedSegments();
      ListedAll(found, segments);
      for i := 0 to |segments|
        invariant disk == found && currentSegment == None
        invariant totalBytes + Bytes(Listed(found, segments[i..])) == Bytes(found)
      {
        ListedStep(found, segments, i);
        totalBytes := totalBytes + |disk[segments[i]]|;
      }
    }

    /** sorted_segments: the directory entries, sorted by file name. */
    method SortedSegments() returns (list: seq<nat>)
      ensures IsListing(disk.Keys, list)
    {
      list := [];
      var unread := disk.Keys;
      while unread != {}
        invariant unread <= disk.Keys
        invariant IsListing(disk.Keys - unread, list)
        decreases unread
      {
        var k :| k in unread;
        list := InsertSorted(disk.Keys - unread, list, k);
        unread := unread - {k};
        assert disk.Keys - unread == disk.Keys - (unread + {k}) + {k};
      }
      assert disk.Keys - {} == disk.Keys;
    }

    static method InsertSorted(ghost keys: set<nat>, list: seq<nat>, k: nat) returns (r: seq<nat>)
      requires IsListing(keys, list) && k !in keys
      ensures IsListing(keys + {k}, r)
    {
      var i := 0;
      while i < |list| && Earlier(list[i], k)
        invariant i <= |list|
        invariant forall j :: 0 <= j < i ==> Earlier(list[j], k)
      {
        i := i + 1;
      }
      forall j | i <= j < |list| ensures Earlier(k, list[j]) {
        assert list[i] in list;
        EarlierIsTotal(list[i], k);
        if i < j {
          EarlierIsTransitive(k, list[i], list[j]);
        }
      }
      r := list[..i] + [k] + list[i..];
      assert forall x :: x in r <==> x in list[..i] || x == k || x in list[i..];
      assert list == list[..i] + list[i..];
    }

    /** The find over the listing that drains and evictions share. */
    method FindOldestOther() returns (r: Option<nat>)
      ensures r == OldestOther(View())
    {
      var segments := SortedSegments();
      for i := 0 to |segments|
        invariant forall j :: 0 <= j < i ==> currentSegment.Some? && segments[j] == currentSegment.value.ts
      {
        if !(currentSegment.Some? && segments[i] == currentSegment.value.ts) {
          assert IsFirst(OtherKeys(View()), segments[i]);
          FirstIs(OtherKeys(View()), segments[i]);
          return Some(segments[i]);
        }
      }
      assert OtherKeys(View()) == {};
      return None;
    }

    /** evict_oldest: Ok(false) when only the current segment is left. */
    method EvictOldest(fails: bool) returns (r: Io<bool>)
      requires Valid()
      modifies this
      ensures Valid()
      ensures match old(OldestOther(View()))
              case None => r == Ok(false) && View() == old(View())
              case Some(k) =>
                if fails then r == Failed && View() == old(View())
                else r == Ok(true) && View() == Remove(old(View()), k)
    {
      var target := FindOldestOther();
      match target {
        case None =>
          return Ok(false);
        case Some(k) =>
          if fails {
            return Failed;
          }
          RemoveKeepsValid(View(), k);
          var size := |disk[k]|;
          disk := disk - {k};
          totalBytes := SaturatingSub(totalBytes, size);
          return Ok(true);
      }
    }

    /** rotate_segment: the old writer is dropped before the new file is opened. */
    method RotateSegment(now: nat, fails: bool) returns (ok: bool)
      requires Valid()
      modifies this
      ensures Valid()
      ensures ok == !fails
      ensures View() == if fails then old(View()).(current := None) else Rotate(old(View()), now)
    {
      RotateKeepsValid(View(), now);
      currentSegment := None;
      if fails {
        return false;
      }
      if now !in disk {
        disk := disk[now := []];
      }
      currentSegment := Some(Writer(now, 0));
      return true;
    }

    /** The inner eviction loop of write_batch. */
    method MakeRoom(need: nat, failsAfter: Option<nat>) returns (ok: bool, ghost victims: seq<seq<byte>>)
      requires Valid()
      modifies this
      ensures Valid()
      ensures var e := EvictLoop(limits, old(View()), need, failsAfter);
              View() == e.wal && ok == e.ok && victims == e.victims
    {
      hide EvictLoop, OldestOther, AfterVictims, WalModel.Valid;
      victims := [];
      var countdown := failsAfter;
      NoVictims(EvictLoop(limits, View(), need, countdown));
      while totalBytes + need > limits.maxBytes
        invariant Valid()
        invariant EvictLoop(limits, old(View()), need, failsAfter)
                  == AfterVictims(victims, EvictLoop(limits, View(), need, countdown))
        decreases disk.Keys
      {
        ghost var before := View();
        EvictTurn(limits, before, need, countdown, victims);
        var evicted := EvictOldest(countdown == Some(0));
        match evicted {
          case Failed =>
            return false, victims;
          case Ok(more) =>
            if !more {
              break;
            }
            victims := victims + [before.disk[OldestOther(before).value]];
            countdown := OneLess(countdown);
        }
      }
      EvictTurn(limits, View(), need, countdown, victims);
      return true, victims;
    }

    /** write_batch: evict, rotate and append record by record. */
    method WriteBatch(items: seq<Value>, ticks: seq<Tick>, syncOk: bool) returns (ok: bool, ghost r: Written)
      requires Valid() && |ticks| == |items|
      modifies this
      ensures Valid()
      ensures r == WalModel.WriteBatch(limits, old(View()), Payloads(codec, items), ticks)
      ensures View() == r.wal
      ensures ok <==> r.count == |items| && (items == [] || syncOk)
    {
      hide WalModel.Valid, WriteItem;
      r := Written(View(), 0, []);
      if items == [] {
        return true, r;
      }
      ghost var payloads := Payloads(codec, items);
      assert payloads[0..] == payloads && ticks[0..] == ticks;
      for i := 0 to |items|
        invariant Valid() && r.wal == View() && r.count == i
        invariant WalModel.WriteBatch(limits, old(View()), payloads, ticks)
                  == Chain(r, WalModel.WriteBatch(limits, View(), payloads[i..], ticks[i..]))
      {
        ghost var before := View();
        ghost var one := WriteItem(limits, before, payloads[i], ticks[i]);
        assert payloads[i..][1..] == payloads[i + 1..] && ticks[i..][1..] == ticks[i + 1..];
        WriteItemKeepsValid(limits, before, payloads[i], ticks[i]);

        var stored := WriteOne(codec.encode(items[i]), ticks[i]);
        ChainStep(r, one, WalModel.WriteBatch(limits, before, payloads[i..], ticks[i..]),
                  if one.count != 1 then one
                  else WalModel.WriteBatch(limits, one.wal, payloads[i + 1..], ticks[i + 1..]));
        r := Chain(r, one);
        if !stored {
          return false, r;
        }
      }
      return syncOk, r;
    }

    /** One turn of write_batch's loop. */
    method WriteOne(payload: seq<byte>, tick: Tick) returns (stored: bool)
      requires Valid()
      modifies this
      ensures Valid()
      ensures var one := WriteItem(limits, old(View()), payload, tick);
              View() == one.wal && one.count == if stored then 1 else 0
    {
      var recordSize := 4 + |payload| + 1;
      var ok, _ := MakeRoom(recordSize, tick.evictFailsAfter);
      if !ok {
        return false;
      }
      var needsRotate := true;
      if currentSegment.Some? {
        needsRotate := currentSegment.value.size + recordSize > limits.segmentMaxBytes;
      }
      if needsRotate {
        var rotated := RotateSegment(tick.now, tick.rotateFails);
        if !rotated {
          return false;
        }
      }
      if tick.appendFails {
        return false;
      }
      AppendRecord(payload);
      return true;
    }

    /** The three writes of one record, and the two counters. */
    method AppendRecord(payload: seq<byte>)
      requires Valid() && currentSegment.Some?
      modifies this
      ensures Valid() && View() == Append(old(View()), payload)
    {
      AppendKeepsValid(View(), payload);
      var seg := currentSegment.value;
      disk := disk[seg.ts := disk[seg.ts] + EncodeRecord(payload)];
      currentSegment := Some(Writer(seg.ts, seg.size + RecordSize(payload)));
      totalBytes := totalBytes + RecordSize(payload);
    }

    /** has_pending: is any segment but the current one on disk? */
    method HasPending() returns (r: bool)
      ensures r <==> OldestOther(View()).Some?
    {
      var oldest := FindOldestOther();
      return oldest.Some?;
    }

    /** read_oldest_batch. */
    method ReadOldestBatch(maxItems: nat, fails: bool) returns (r: Io<Option<(nat, seq<Value>)>>)
      ensures r.Failed? <==> fails
      ensures r.Ok? ==>
                match OldestOther(View())
                case None => r.value == None
                case Some(k) => r.value == Some((k, Take(ReadAll(codec, disk[k]), maxItems)))
    {
      if fails {
        return Failed;
      }
      var oldest := FindOldestOther();
      match oldest {
        case None =>
          return Ok(None);
        case Some(k) =>
          var items := ReadSegment(codec, disk[k], maxItems);
          return Ok(Some((k, items)));
      }
    }

    /** delete_segment. */
    method DeleteSegment(k: nat, fails: bool) returns (ok: bool)
      requires Valid() && k in OtherKeys(View())
      modifies this
      ensures Valid()
      ensures ok == !fails
      ensures View() == if fails then old(View()) else Remove(old(View()), k)
    {
      if fails {
        return false;
      }
      RemoveKeepsValid(View(), k);
      var size := |disk[k]|;
      disk := disk - {k};
      totalBytes := SaturatingSub(totalBytes, size);
      return true;
    }
  }

  /** The part of a directory that a list of segments names. */
  ghost function Listed(disk: Disk, list: seq<nat>): Disk {
    map k | k in disk && k in list :: disk[k]
  }

  lemma ListedAll(disk: Disk, list: seq<nat>)
    requires IsListing(disk.Keys, list)
    ensures Listed(disk, list[0..]) == disk
    ensures Bytes(Listed(disk, list[|list|..])) == 0
  {
    assert list[0..] == list;
    assert Listed(disk, list[|list|..]) == map[];
  }

  lemma ListedStep(disk: Disk, list: seq<nat>, i: nat)
    requires IsListing(disk.Keys, list) && i < |list|
    ensures list[i] in disk
    ensures Bytes(Listed(disk, list[i..])) == |disk[list[i]]| + Bytes(Listed(disk, list[i + 1..]))
  {
    hide Earlier;
    var k := list[i];
    assert k in list && list[i..] == [k] + list[i + 1..];
    forall j | i < j < |list| ensures list[j] != k {
      EarlierIsTotal(k, k);
    }
    assert k in Listed(disk, list[i..]);
    assert Listed(disk, list[i..]) - {k} == Listed(disk, list[i + 1..]);
    JoinedRemove(Listed(disk, list[i..]), k);
  }

  /** An eviction loop's result, after turns that removed these files. */
  ghost function AfterVictims(victims: seq<seq<byte>>, e: Eviction): Eviction {
    e.(victims := victims + e.victims)
  }

  lemma NoVictims(e: Eviction)
    ensures AfterVictims([], e) == e
  {
    assert [] + e.victims == e.victims;
  }

  /** One turn of the eviction loop leads to the same result; or it is over. */
  lemma EvictTurn(limits: Limits, w: Wal, need: nat, countdown: Option<nat>, victims: seq<seq<byte>>)
    ensures var e := AfterVictims(victims, EvictLoop(limits, w, need, countdown));
            if w.total + need <= limits.maxBytes || OldestOther(w).None? then e == Eviction(w, true, victims)
            else if countdown == Some(0) then e == Eviction(w, false, victims)
            else
              var k := OldestOther(w).value;
              e == AfterVictims(victims + [w.disk[k]], EvictLoop(limits, Remove(w, k), need, OneLess(countdown)))
  {
    hide OldestOther, Remove;
    assert victims + [] == victims;
    if w.total + need > limits.maxBytes && OldestOther(w).Some? && countdown != Some(0) {
      var k := OldestOther(w).value;
      AssociativeConcat(victims, [w.disk[k]], EvictLoop(limits, Remove(w, k), need, OneLess(countdown)).victims);
    }
  }

  /** The result of writing on from where an earlier part of the batch left off. */
  ghost function Chain(done: Written, rest: Written): Written {
    Written(rest.wal, done.count + rest.count, done.victims + rest.victims)
  }

  lemma ChainStep(done: Written, one: Written, whole: Written, rest: Written)
    requires if one.count == 0 then whole == one
             else one.count == 1 && whole == Written(rest.wal, 1 + rest.count, one.victims + rest.victims)
    ensures Chain(done, whole) == if one.count == 0 then Chain(done, one) else Chain(Chain(done, one), rest)
  {
    AssociativeConcat(done.victims, one.victims, rest.victims);
  }
}
