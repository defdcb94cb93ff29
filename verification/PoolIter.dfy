/** The record cursor: iterate, overwrite, swap-remove and append over one locked handle. */
module PoolIters {
  import opened Results
  import opened Bytes
  import opened KvpErrors
  import opened Handles
  import opened PoolLayout
  import opened PoolSpec

  /** The last record copied over record `i`, or behind the end when `i` is one past it. */
  function Moved(rs: seq<Record>, i: nat): (r: seq<Record>)
    requires rs != [] && i <= |rs|
    ensures i < |rs| ==> r == MoveLast(rs, i)
  {
    if i < |rs| then rs[i := rs[|rs| - 1]] else rs + [rs[|rs| - 1]]
  }

  lemma CutMoved(rs: seq<Record>, i: nat)
    requires rs != [] && i <= |rs|
    ensures i < |rs| ==> Moved(rs, i)[..|rs| - 1] == SwapRemove(rs, i)
    ensures i == |rs| ==> Moved(rs, i)[..|rs| - 1] == rs[..|rs| - 1]
  {
  }

  class KvpPoolIter {
    const handle: Handle
    var recordCount: nat
    var currentIndex: nat

    /**
     The file is `recordCount` records long and the handle stands at record `currentIndex`.
     After the last record is removed, `currentIndex` is one past the new end.
     */
    ghost predicate Valid()
      reads this, handle, handle.file
    {
      && |handle.file.contents| == recordCount * RECORD_SIZE
      && Whole(handle.file.contents) && |Recs()| == recordCount
      && handle.pos == currentIndex * RECORD_SIZE
      && currentIndex <= recordCount + 1
      && handle.Holds(Shared)
    }

    ghost function Recs(): seq<Record>
      reads this, handle, handle.file
    {
      Records(handle.file.contents)
    }

    constructor (handle: Handle, recordCount: nat)
      requires |handle.file.contents| == recordCount * RECORD_SIZE && handle.pos == 0 && handle.Holds(Shared)
      ensures this.handle == handle && this.recordCount == recordCount && currentIndex == 0
      ensures Valid()
    {
      this.handle := handle;
      this.recordCount := recordCount;
      currentIndex := 0;
    }

    /** `KvpPoolIter::new`: lock, check the framing, rewind. */
    static method Open(handle: Handle, readOnly: bool) returns (r: Result<KvpPoolIter, IoError>)
      requires handle.flock == Unlocked && handle.fcntl == Unlocked
      modifies handle, handle.file`faults, handle.file`sections
      ensures r.Ok? ==>
        && fresh(r.value) && r.value.handle == handle && r.value.Valid() && r.value.currentIndex == 0
        && Whole(handle.file.contents)
        && handle.flock == handle.fcntl == (if readOnly then Shared else Exclusive)
        && handle.file.sections == old(handle.file.sections) + [if readOnly then Shared else Exclusive]
      ensures r.Err? ==>
        || handle.file.sections == old(handle.file.sections)
        || handle.file.sections == old(handle.file.sections) + [if readOnly then Shared else Exclusive]
      ensures Calm(old(handle.file.faults)) ==>
        Calm(handle.file.faults) && (r.Ok? <==> Whole(handle.file.contents))
    {
      var _ :- handle.Lock(if readOnly then Shared else Exclusive);
      var len :- handle.Length();
      if len % RECORD_SIZE != 0 {
        return Err(Other);
      }
      var _ :- handle.Seek(0);
      var iter := new KvpPoolIter(handle, len / RECORD_SIZE);
      return Ok(iter);
    }

    /** Yields the next record, or `None` once `currentIndex` reaches `recordCount`. */
    method Next() returns (r: Option<Result<Record, IoError>>)
      requires Valid()
      modifies this`currentIndex, handle`pos, handle.file`faults
      ensures r.None? <==> old(currentIndex) >= recordCount
      ensures r.None? ==> Valid() && currentIndex == old(currentIndex) && handle.file.faults == old(handle.file.faults)
      ensures r.Some? && r.value.Ok? ==>
        && Valid() && currentIndex == old(currentIndex) + 1
        && Decodes(Recs()[old(currentIndex)]) && r.value.value == Recs()[old(currentIndex)]
      ensures Calm(old(handle.file.faults)) ==>
        && Calm(handle.file.faults)
        && (r.Some? && r.value.Err? ==> !Decodes(Recs()[old(currentIndex)]))
    {
      if currentIndex >= recordCount {
        return None;
      }
      var buf := handle.ReadExact(RECORD_SIZE);
      if buf.Err? {
        return Some(Err(buf.error));
      }
      assert buf.value == Blocks(handle.file.contents)[currentIndex];
      currentIndex := currentIndex + 1;
      return Some(DecodeRecord(buf.value));
    }

    /** Appends a record at the end of the file and resumes where iteration stood. */
    method Append(key: Text, value: Text) returns (r: Result<(), IoError>)
      requires Valid() && handle.Holds(Exclusive)
      modifies this`recordCount, handle`pos, handle.file`faults, handle.file`contents, handle.file`flushed
      ensures r.Ok? ==> Valid() && Recs() == old(Recs()) + [StoredRecord(key, value)]
      ensures Whole(handle.file.contents)
      ensures r.Err? ==> Recs() == old(Recs()) || Recs() == old(Recs()) + [StoredRecord(key, value)]
      ensures FitsRecord(key, value) ==> StoredRecord(key, value) == Record(key, value)
      ensures Calm(old(handle.file.faults)) ==> r.Ok? && Calm(handle.file.faults)
    {
      AppendBlock(handle.file.contents, EncodeRecord(key, value));
      EncodedFields(key, value);
      hide Records, StoredRecord, EncodeRecord, WriteAt, FitsRecord;
      var resume :- handle.StreamPosition();
      var _ :- handle.SeekEnd();
      var _ :- handle.WriteAll(EncodeRecord(key, value));
      recordCount := recordCount + 1;
      var _ :- handle.Seek(resume);
      return Ok(());
    }

    /**
     Replaces the value field of the record last yielded and leaves the cursor after it. One past
     the end, where the record last yielded is gone, it makes a record with an empty key instead.
     */
    method OverwriteCurrentValue(value: Text) returns (r: Result<(), IoError>)
      requires Valid() && handle.Holds(Exclusive)
      modifies handle`pos, handle.file`faults, handle.file`contents, handle.file`flushed
      ensures currentIndex == 0 ==> r == Err(InvalidInput)
      ensures r.Ok? ==> currentIndex > 0 && handle.pos == currentIndex * RECORD_SIZE
      ensures r.Ok? && currentIndex <= recordCount ==>
        && Valid()
        && Recs() == old(Recs())[currentIndex - 1 :=
             old(Recs())[currentIndex - 1].(value := Kept(value, WIRE_MAX_VALUE_BYTES))]
      ensures r.Ok? && currentIndex > recordCount ==>
        Recs() == old(Recs()) + [Record([], Kept(value, WIRE_MAX_VALUE_BYTES))]
      ensures FitsRecord([], value) ==> Kept(value, WIRE_MAX_VALUE_BYTES) == value
      ensures Whole(handle.file.contents)
      ensures r.Err? ==> handle.file.contents == old(handle.file.contents)
      ensures Calm(old(handle.file.faults)) ==> Calm(handle.file.faults) && (r.Ok? <==> currentIndex > 0)
    {
      if FitsRecord([], value) {
        PadRoundTrip(value, WIRE_MAX_VALUE_BYTES);
      }
      if currentIndex == 0 {
        return Err(InvalidInput);
      }
      var recordStart := (currentIndex - 1) * RECORD_SIZE;
      OverwrittenField(handle.file.contents, currentIndex - 1, value);
      hide Records, Kept, FitsRecord, WriteAt, Pad, Whole;
      var _ :- handle.Seek(recordStart + WIRE_MAX_KEY_BYTES);
      var _ :- handle.WriteAll(Pad(value, WIRE_MAX_VALUE_BYTES));
      return Ok(());
    }

    /**
     Removes the record last yielded by moving the final record over it and truncating. A fault
     between the move and the truncation leaves the final record twice and loses only the
     removed one. Called once more after the final record is gone, it removes the new final record.
     With no record left the source's subtraction underflows: the call panics, or wraps to an offset
     that no seek takes. Both are an error here, and nothing has changed.
     */
    method RemoveCurrent() returns (r: Result<(), IoError>)
      requires Valid() && handle.Holds(Exclusive)
      modifies this, handle`pos, handle.file`faults, handle.file`contents, handle.file`flushed
      ensures old(currentIndex) == 0 ==> r == Err(InvalidInput) && handle.file.contents == old(handle.file.contents)
      ensures old(recordCount) == 0 ==> r.Err? && unchanged(this) && unchanged(handle.file)
      ensures r.Ok? ==>
        && Valid() && old(currentIndex) > 0
        && recordCount == old(recordCount) - 1
        && Recs() == (if old(currentIndex) <= old(recordCount) then SwapRemove(old(Recs()), old(currentIndex) - 1)
                      else old(Recs())[..old(recordCount) - 1])
        && currentIndex == (if old(currentIndex) == old(recordCount) then old(currentIndex) else old(currentIndex) - 1)
      ensures Whole(handle.file.contents)
      ensures r.Err? && 0 < old(currentIndex) <= old(recordCount) ==>
        PartlyRemoved(old(Recs()), old(currentIndex) - 1, Recs())
      ensures r.Err? && old(currentIndex) > old(recordCount) > 0 ==>
        Recs() == old(Recs()) || Recs() == old(Recs()) + [old(Recs())[old(recordCount) - 1]]
      ensures Calm(old(handle.file.faults)) ==>
        Calm(handle.file.faults) && (r.Ok? <==> old(currentIndex) > 0 && old(recordCount) > 0)
    {
      hide Records;
      if currentIndex == 0 {
        return Err(InvalidInput);
      }
      if recordCount == 0 {
        return Err(Other);
      }
      var deleteIndex := currentIndex - 1;
      var lastIndex := recordCount - 1;
      ghost var before := Recs();
      if deleteIndex != lastIndex {
        var _ :- MoveLastOver(deleteIndex);
        currentIndex := deleteIndex;
      } else {
        assert before == Moved(before, deleteIndex);
      }
      assert Recs() == Moved(before, deleteIndex);
      CutMoved(before, deleteIndex);
      var _ :- Truncate(lastIndex);
      recordCount := recordCount - 1;
      return Ok(());
    }

    method Truncate(n: nat) returns (r: Result<(), IoError>)
      requires Whole(handle.file.contents) && n <= |Recs()| && handle.Holds(Exclusive)
      modifies handle.file`faults, handle.file`contents
      ensures r.Ok? ==> |handle.file.contents| == n * RECORD_SIZE && Recs() == old(Recs())[..n]
      ensures r.Err? ==> handle.file.contents == old(handle.file.contents)
      ensures Calm(old(handle.file.faults)) ==> r.Ok? && Calm(handle.file.faults)
    {
      TruncateBlocks(handle.file.contents, n);
      r := handle.SetLen(n * RECORD_SIZE);
    }

    /** Copies the final record over record `deleteIndex`, or behind the end, and rewinds to it. */
    method MoveLastOver(deleteIndex: nat) returns (r: Result<(), IoError>)
      requires Valid() && recordCount > 0 && deleteIndex <= recordCount && deleteIndex != recordCount - 1
      requires handle.Holds(Exclusive)
      modifies handle`pos, handle.file`faults, handle.file`contents, handle.file`flushed
      ensures r.Ok? ==> handle.pos == deleteIndex * RECORD_SIZE
      ensures r.Ok? ==> Recs() == Moved(old(Recs()), deleteIndex)
      ensures Whole(handle.file.contents)
      ensures r.Err? ==> Recs() == old(Recs()) || Recs() == Moved(old(Recs()), deleteIndex)
      ensures Calm(old(handle.file.faults)) ==> r.Ok? && Calm(handle.file.faults)
    {
      hide Records, WriteAt;
      var lastIndex := recordCount - 1;
      if deleteIndex < recordCount {
        CopyBlock(handle.file.contents, lastIndex, deleteIndex);
      } else {
        CopyPastEnd(handle.file.contents, lastIndex);
      }
      var _ :- handle.Seek(lastIndex * RECORD_SIZE);
      var buf :- handle.ReadExact(RECORD_SIZE);
      assert buf == Blocks(handle.file.contents)[lastIndex];
      var _ :- handle.Seek(deleteIndex * RECORD_SIZE);
      var _ :- handle.WriteAll(buf);
      var _ :- handle.Seek(deleteIndex * RECORD_SIZE);
      return Ok(());
    }

    method Flush() returns (r: Result<(), IoError>)
      modifies handle.file`faults, handle.file`flushed
      ensures handle.file.flushed == (r.Ok? || old(handle.file.flushed))
      ensures Calm(old(handle.file.faults)) ==> r.Ok? && Calm(handle.file.faults)
    {
      r := handle.Flush();
    }
  }
}
