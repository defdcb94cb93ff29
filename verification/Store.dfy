/** The pool store: each operation opens and locks the file, walks it with a cursor, and closes it. */
module Store {
  import opened Results
  import opened Bytes
  import opened Handles
  import opened KvpErrors
  import opened PoolIters
  import opened PoolLayout
  import opened PoolSpec
  import PoolOps

  const SAFE_MAX_KEY_BYTES: nat := 254
  const SAFE_MAX_VALUE_BYTES: nat := 1022

  datatype PoolMode = Safe | Unsafe {
    function MaxKeySize(): nat {
      match this
      case Safe => SAFE_MAX_KEY_BYTES
      case Unsafe => WIRE_MAX_KEY_BYTES
    }

    function MaxValueSize(): nat {
      match this
      case Safe => SAFE_MAX_VALUE_BYTES
      case Unsafe => WIRE_MAX_VALUE_BYTES
    }
  }

  /** `max` is `None` where the source passes `usize::MAX`. */
  function ValidateKey(key: Text, max: Option<nat>): (r: Result<(), KvpError>)
    ensures r.Ok? <==> key != [] && NulFree(key) && (max.Some? ==> |key| <= max.value)
    ensures key == [] ==> r == Err(EmptyKey)
    ensures key != [] && NUL in key ==> r == Err(KeyContainsNull)
    ensures r.Err? && key != [] && NUL !in key ==> max.Some? && r.error == KeyTooLarge(max.value, |key|)
  {
    if key == [] then Err(EmptyKey)
    else if NUL in key then Err(KeyContainsNull)
    else if max.Some? && |key| > max.value then Err(KeyTooLarge(max.value, |key|))
    else Ok(())
  }

  function ValidateValue(value: Text, max: nat): (r: Result<(), KvpError>)
    ensures r.Ok? <==> NulFree(value) && |value| <= max
    ensures r.Err? ==> r.error == if NUL in value then ValueContainsNull else ValueTooLarge(max, |value|)
  {
    if NUL in value then Err(ValueContainsNull)
    else if |value| > max then Err(ValueTooLarge(max, |value|))
    else Ok(())
  }

  function ValidateRecord(key: Text, value: Text, mode: PoolMode): (r: Result<(), KvpError>)
    ensures r.Ok? ==> FitsRecord(key, value)
    ensures r.Err? ==> !r.error.MaxUniqueKeysExceeded? && !r.error.Io?
  {
    var _ :- ValidateKey(key, Some(mode.MaxKeySize()));
    ValidateValue(value, mode.MaxValueSize())
  }

  /** What a pool accepts: safe pools hold 254 and 1022 bytes, others 512 and 2048; the key's error wins. */
  lemma ValidExactly(key: Text, value: Text, mode: PoolMode)
    ensures var (keyBytes, valueBytes) := if mode.Safe? then (254, 1022) else (512, 2048);
            ValidateRecord(key, value, mode) ==
            if key == [] then Err(EmptyKey)
            else if 0 in key then Err(KeyContainsNull)
            else if |key| > keyBytes then Err(KeyTooLarge(keyBytes, |key|))
            else if 0 in value then Err(ValueContainsNull)
            else if |value| > valueBytes then Err(ValueTooLarge(valueBytes, |value|))
            else Ok(())
  {
  }

  /** The first failing record's error, in order. */
  function ValidateAll(records: seq<Record>, mode: PoolMode): (r: Result<(), KvpError>)
    ensures r.Ok? <==> forall i :: 0 <= i < |records| ==> ValidateRecord(records[i].key, records[i].value, mode).Ok?
    ensures r.Err? ==> exists i :: 0 <= i < |records| && r == ValidateRecord(records[i].key, records[i].value, mode)
                                   && forall j :: 0 <= j < i ==>
                                        ValidateRecord(records[j].key, records[j].value, mode).Ok?
  {
    if records == [] then Ok(())
    else
      var _ :- ValidateRecord(records[0].key, records[0].value, mode);
      ValidateAll(records[1..], mode)
  }

  /** The locks have been taken at most once, both of them in this mode. */
  predicate InOneSection(was: seq<LockState>, now: seq<LockState>, mode: LockState) {
    now == was || now == was + [mode]
  }

  lemma NothingToDelete(rs: seq<Record>, key: Text)
    requires rs == []
    ensures AllDecode(rs) && DeleteFrom(rs, 0, {key}) == rs && !HasKey(rs, key)
  {
  }

  function LiftIo<T>(r: Result<T, IoError>): Result<T, KvpError> {
    match r
    case Ok(v) => Ok(v)
    case Err(e) => Err(Io(e))
  }

  /** One value per key, the last one winning. */
  function EntriesOf(rs: seq<Record>): map<Text, Text> {
    if rs == [] then map[]
    else EntriesOf(rs[..|rs| - 1])[rs[|rs| - 1].key := rs[|rs| - 1].value]
  }

  /** `entries` and `read` agree on every key. */
  lemma {:induction false} EntriesAreReads(rs: seq<Record>, key: Text)
    ensures key in EntriesOf(rs) <==> LastValue(rs, key).Some?
    ensures key in EntriesOf(rs) ==> LastValue(rs, key) == Some(EntriesOf(rs)[key])
  {
    if rs != [] {
      EntriesAreReads(rs[..|rs| - 1], key);
    }
  }

  /** How the reading loops grow by one record. */
  lemma PrefixSnoc(rs: seq<Record>, i: nat, key: Text)
    requires i < |rs|
    ensures EntriesOf(rs[..i + 1]) == EntriesOf(rs[..i])[rs[i].key := rs[i].value]
    ensures LastValue(rs[..i + 1], key) == if rs[i].key == key then Some(rs[i].value) else LastValue(rs[..i], key)
    ensures AllDecode(rs[..i]) && Decodes(rs[i]) ==> AllDecode(rs[..i + 1])
  {
    assert rs[..i + 1][..i] == rs[..i];
  }

  // Where the store's loops stand among the steps of their operations.

  lemma AppendInterrupted(records: seq<Record>, was: seq<Record>, n: nat)
    requires n <= |records|
    ensures PoolOps.Interrupted(PoolOps.AppendBatch(records), was, was + records[..n])
    ensures n == 0 ==> was + records[..n] == was
    ensures n == |records| ==> records[..n] == records
  {
    PoolOps.BatchReached(records, was, n);
  }

  lemma WriteInterrupted(records: seq<Record>, truncate: bool, was: seq<Record>)
    ensures var op := if truncate then PoolOps.LoadAll(records) else PoolOps.AppendBatch(records);
            && PoolOps.Interrupted(op, was, was)
            && forall n: nat :: n <= |records| ==>
                 PoolOps.Interrupted(op, was, (if truncate then [] else was) + records[..n])
  {
    var op := if truncate then PoolOps.LoadAll(records) else PoolOps.AppendBatch(records);
    PoolOps.ReachedStart(op, was);
    forall n: nat | n <= |records|
      ensures PoolOps.Interrupted(op, was, (if truncate then [] else was) + records[..n])
    {
      PoolOps.BatchReached(records, was, n);
      PoolOps.LoadReached(records, was, n);
      assert [] + records[..n] == records[..n];
    }
  }

  /** The insert loop, begun at `start`, stands at record `index` of `now`. */
  ghost predicate WalksAt(key: Text, value: Text, found: bool, index: nat, start: seq<Record>, l: PoolOps.Local,
                          now: seq<Record>)
  {
    && PoolOps.Reached(PoolOps.InsertOne(key, value), start, l, now)
    && l.found == found && !l.moved && l.i == if index <= |now| then index else |now|
  }

  /** Where the loop stands once it has dealt with a record for its key. */
  ghost function MetAgain(l: PoolOps.Local): PoolOps.Local {
    if l.found then l.(removed := l.removed + 1) else l.(i := l.i + 1, found := true)
  }

  lemma WalkedInsertEnds(key: Text, value: Text, found: bool, start: seq<Record>, l: PoolOps.Local, now: seq<Record>)
    requires WalksAt(key, value, found, |now|, start, l, now)
    ensures !found && |DistinctKeys(now)| < MAX_UNIQUE_KEYS ==>
              PoolOps.Interrupted(PoolOps.InsertOne(key, value), start, now + [Record(key, value)])
  {
    if !found && |DistinctKeys(now)| < MAX_UNIQUE_KEYS {
      PoolOps.InsertAppendReached(key, value, start, l, now);
    }
  }

  class KvpPoolStore {
    const file: PoolFile
    const mode: PoolMode

    constructor (file: PoolFile, mode: PoolMode)
      ensures this.file == file && this.mode == mode
    {
      this.file := file;
      this.mode := mode;
    }

    ghost function Recs(): seq<Record>
      reads this, file
    {
      Records(file.contents)
    }

    /** A file every operation accepts: whole records, all of them UTF-8. */
    ghost predicate WellFormed()
      reads this, file
    {
      Whole(file.contents) && AllDecode(Recs())
    }

    method OpenExisting() returns (r: Result<Handle, IoError>)
      modifies file`faults
      ensures r.Ok? ==>
        && fresh(r.value) && r.value.file == file && file.present
        && r.value.pos == 0 && r.value.flock == r.value.fcntl == Unlocked
      ensures r == Err(NotFound) ==> !file.present
      ensures Calm(old(file.faults)) ==>
        && Calm(file.faults)
        && (file.present ==> r.Ok?) && (!file.present ==> r == Err(NotFound))
    {
      var fails := file.NextFault();
      if fails {
        return Err(Other);
      }
      if !file.present {
        return Err(NotFound);
      }
      var handle := new Handle(file);
      return Ok(handle);
    }

    method OpenOrCreate() returns (r: Result<Handle, IoError>)
      modifies file`faults, file`present
      ensures r.Ok? ==>
        && fresh(r.value) && r.value.file == file && file.present
        && r.value.pos == 0 && r.value.flock == r.value.fcntl == Unlocked
      ensures old(file.present) ==> file.present
      ensures Calm(old(file.faults)) ==> Calm(file.faults) && r.Ok?
    {
      var fails := file.NextFault();
      if fails {
        return Err(Other);
      }
      file.present := true;
      var handle := new Handle(file);
      return Ok(handle);
    }

    method Append(key: Text, value: Text) returns (r: Result<(), KvpError>)
      requires file.Valid()
      modifies file
      ensures file.Valid()
      ensures InOneSection(old(file.sections), file.sections, Exclusive)
      ensures r.Ok? && old(file.flushed) ==> file.flushed
      ensures ValidateRecord(key, value, mode).Err? ==> r == ValidateRecord(key, value, mode) && unchanged(file)
      ensures r.Ok? ==> Whole(old(file.contents)) && Recs() == old(Recs()) + [Record(key, value)]
      ensures Whole(old(file.contents)) ==> Whole(file.contents)
      ensures !Whole(old(file.contents)) ==> file.contents == old(file.contents)
      ensures r.Err? ==> Recs() == old(Recs()) || Recs() == old(Recs()) + [Record(key, value)]
      ensures PoolOps.Interrupted(PoolOps.AppendBatch([Record(key, value)]), old(Recs()), Recs())
      ensures Calm(old(file.faults)) && ValidateRecord(key, value, mode).Ok? ==>
        Calm(file.faults) && (r.Ok? <==> Whole(old(file.contents)))
    {
      hide Records, StoredRecord, PoolOps.Interrupted;
      AppendInterrupted([Record(key, value)], Recs(), 0);
      AppendInterrupted([Record(key, value)], Recs(), 1);
      var _ :- ValidateRecord(key, value, mode);
      var file_ := OpenOrCreate();
      var handle :- LiftIo(file_);
      var made := KvpPoolIter.Open(handle, false);
      var iter :- LiftIo(made);
      var appended := iter.Append(key, value);
      var _ :- LiftIo(appended);
      var flushed := iter.Flush();
      return LiftIo(flushed);
    }

    /**
     The loop of `delete` and `delete_multiple`: visits every record and swap-removes those
     whose key is in `keys`.
     */
    method RemoveMatching(iter: KvpPoolIter, keys: set<Text>) returns (r: Result<nat, IoError>)
      requires iter.Valid() && iter.currentIndex == 0 && iter.handle.file == file
      requires iter.handle.Holds(Exclusive)
      modifies iter, iter.handle`pos, file`faults, file`contents, file`flushed
      ensures r.Ok? ==>
        && AllDecode(old(Recs())) && Recs() == DeleteFrom(old(Recs()), 0, keys)
        && r.value == |old(Recs())| - |Recs()|
      ensures r.Ok? && r.value == 0 ==> file.flushed == old(file.flushed)
      ensures Whole(file.contents)
      ensures Others(Recs(), keys) >= Others(old(Recs()), keys)
      ensures PoolOps.Interrupted(PoolOps.DeleteKeys(keys), old(Recs()), Recs())
      ensures Calm(old(file.faults)) ==> Calm(file.faults) && (r.Ok? <==> AllDecode(old(Recs())))
    {
      hide Records, Decodes, Others, DeleteFrom, SwapRemove, MoveLast, PoolOps.Reached;
      var removed: nat := 0;
      ghost var before := Recs();
      ghost var l := PoolOps.START;
      DeleteWalkResult(before, keys);
      PoolOps.ReachedStart(PoolOps.DeleteKeys(keys), before);
      while true
        invariant iter.Valid()
        invariant PoolOps.Reached(PoolOps.DeleteKeys(keys), before, l, Recs()) && !l.moved
        invariant iter.currentIndex < |Recs()| ==> l.i == iter.currentIndex
        invariant DeleteWalk(Recs(), iter.currentIndex, keys) == DeleteWalk(before, 0, keys)
        invariant Others(Recs(), keys) == Others(before, keys)
        invariant removed == |before| - |Recs()|
        invariant removed == 0 ==> file.flushed == old(file.flushed)
        invariant Calm(old(file.faults)) ==> Calm(file.faults)
        decreases iter.recordCount - iter.currentIndex
      {
        ghost var now, i := Recs(), iter.currentIndex;
        var next := iter.Next();
        if next.None? {
          break;
        }
        var record :- next.value;
        if record.key in keys {
          SwapRemoveOthers(now, i, keys);
          PoolOps.RemoveReached(PoolOps.DeleteKeys(keys), before, l, now);
          var _ :- iter.RemoveCurrent();
          removed := removed + 1;
          l := l.(removed := l.removed + 1);
        } else {
          PoolOps.PassReached(PoolOps.DeleteKeys(keys), before, l, now);
          l := l.(i := i + 1);
        }
      }
      return Ok(removed);
    }

    method Delete(key: Text) returns (r: Result<bool, KvpError>)
      requires file.Valid()
      modifies file
      ensures file.Valid() && file.present == old(file.present)
      ensures InOneSection(old(file.sections), file.sections, Exclusive)
      ensures r.Ok? && old(file.flushed) ==> file.flushed
      ensures ValidateKey(key, None).Err? ==> r.Err? && r.error == ValidateKey(key, None).error && unchanged(file)
      ensures r.Ok? ==>
        && old(WellFormed())
        && Recs() == DeleteFrom(old(Recs()), 0, {key})
        && (r.value <==> HasKey(old(Recs()), key))
      ensures Whole(old(file.contents)) ==> Whole(file.contents)
      ensures !Whole(old(file.contents)) ==> file.contents == old(file.contents)
      ensures Others(Recs(), {key}) >= Others(old(Recs()), {key})
      ensures PoolOps.Interrupted(PoolOps.DeleteKeys({key}), old(Recs()), Recs())
      ensures Calm(old(file.faults)) && ValidateKey(key, None).Ok? ==>
        Calm(file.faults) && (r.Ok? <==> old(WellFormed()))
    {
      hide Records, AllDecode, Others, DeleteFrom, MatchCount, PoolOps.Interrupted;
      PoolOps.ReachedStart(PoolOps.DeleteKeys({key}), Recs());
      var _ :- ValidateKey(key, None);
      var file_ := OpenExisting();
      if file_ == Err(NotFound) {
        NothingToDelete(Recs(), key);
        return Ok(false);
      }
      var handle :- LiftIo(file_);
      var made := KvpPoolIter.Open(handle, false);
      var iter :- LiftIo(made);
      var walked := RemoveMatching(iter, {key});
      var removed :- LiftIo(walked);
      RemovedCount(old(Recs()), {key});
      if removed > 0 {
        var flushed := iter.Flush();
        var _ :- LiftIo(flushed);
      }
      return Ok(removed > 0);
    }

    predicate FirstInvalid(keys: seq<Text>, i: int) {
      && 0 <= i < |keys| && ValidateKey(keys[i], None).Err?
      && forall j :: 0 <= j < i ==> ValidateKey(keys[j], None).Ok?
    }

    method DeleteMultiple(keys: seq<Text>) returns (r: Result<nat, KvpError>)
      requires file.Valid()
      modifies file
      ensures file.Valid() && file.present == old(file.present)
      ensures InOneSection(old(file.sections), file.sections, Exclusive)
      ensures r.Ok? && old(file.flushed) ==> file.flushed
      ensures keys == [] ==> r == Ok(0) && unchanged(file)
      ensures (exists k :: k in keys && ValidateKey(k, None).Err?) ==>
        && unchanged(file) && r.Err?
        && exists i :: FirstInvalid(keys, i) && ValidateKey(keys[i], None) == Err(r.error)
      ensures r.Ok? && keys != [] ==>
        && old(WellFormed())
        && Recs() == DeleteFrom(old(Recs()), 0, set k | k in keys)
        && r.value == MatchCount(old(Recs()), set k | k in keys)
      ensures Whole(old(file.contents)) ==> Whole(file.contents)
      ensures !Whole(old(file.contents)) ==> file.contents == old(file.contents)
      ensures Others(Recs(), set k | k in keys) >= Others(old(Recs()), set k | k in keys)
      ensures PoolOps.Interrupted(PoolOps.DeleteKeys(set k | k in keys), old(Recs()), Recs())
      ensures Calm(old(file.faults)) && keys != [] && (forall k :: k in keys ==> ValidateKey(k, None).Ok?) ==>
        Calm(file.faults) && (r.Ok? <==> old(WellFormed()))
    {
      hide PoolOps.Interrupted, Records, DeleteFrom, Others, MatchCount, Decodes;
      PoolOps.ReachedStart(PoolOps.DeleteKeys(set k | k in keys), Recs());
      var keysToDelete: set<Text> := {};
      var i := 0;
      while i < |keys|
        invariant 0 <= i <= |keys|
        invariant keysToDelete == set k | k in keys[..i]
        invariant forall k :: k in keys[..i] ==> ValidateKey(k, None).Ok?
      {
        assert keys[i] in keys;
        var valid := ValidateKey(keys[i], None);
        if valid.Err? {
          assert forall j :: 0 <= j < i ==> keys[j] in keys[..i];
          assert FirstInvalid(keys, i);
          return Err(valid.error);
        }
        keysToDelete := keysToDelete + {keys[i]};
        i := i + 1;
      }
      assert keys[..i] == keys;
      r := DeleteSet(keysToDelete, keys);
    }

    /** `delete_multiple` once its keys are collected and validated. */
    method DeleteSet(keysToDelete: set<Text>, ghost keys: seq<Text>) returns (r: Result<nat, KvpError>)
      requires file.Valid() && keysToDelete == set k | k in keys
      modifies file
      ensures file.Valid() && file.present == old(file.present)
      ensures InOneSection(old(file.sections), file.sections, Exclusive)
      ensures r.Ok? && old(file.flushed) ==> file.flushed
      ensures keys == [] ==> r == Ok(0) && unchanged(file)
      ensures r.Ok? && keys != [] ==>
        && old(WellFormed())
        && Recs() == DeleteFrom(old(Recs()), 0, keysToDelete)
        && r.value == MatchCount(old(Recs()), keysToDelete)
      ensures Whole(old(file.contents)) ==> Whole(file.contents)
      ensures !Whole(old(file.contents)) ==> file.contents == old(file.contents)
      ensures Others(Recs(), keysToDelete) >= Others(old(Recs()), keysToDelete)
      ensures PoolOps.Interrupted(PoolOps.DeleteKeys(keysToDelete), old(Recs()), Recs())
      ensures Calm(old(file.faults)) && keys != [] ==>
        Calm(file.faults) && (r.Ok? <==> old(WellFormed()))
    {
      hide Records, Decodes, PoolOps.Interrupted;
      PoolOps.ReachedStart(PoolOps.DeleteKeys(keysToDelete), Recs());
      assert keys != [] ==> keys[0] in keysToDelete;
      if keysToDelete == {} {
        return Ok(0);
      }
      var file_ := OpenExisting();
      if file_ == Err(NotFound) {
        return Ok(0);
      }
      var handle :- LiftIo(file_);
      var made := KvpPoolIter.Open(handle, false);
      var iter :- LiftIo(made);
      var walked := RemoveMatching(iter, keysToDelete);
      var removed :- LiftIo(walked);
      RemovedCount(old(Recs()), keysToDelete);
      if removed > 0 {
        var flushed := iter.Flush();
        var _ :- LiftIo(flushed);
      }
      return Ok(removed);
    }

    /**
     The insert loop at a record for its key, which `iter` has just yielded: the first one gets the
     new value, any other is removed.
     */
    method KeepOrRemove(iter: KvpPoolIter, key: Text, value: Text, found: bool, ghost first: nat,
                        ghost start: seq<Record>, ghost l: PoolOps.Local)
      returns (r: Result<(), IoError>)
      requires iter.Valid() && 0 < iter.currentIndex <= iter.recordCount && iter.handle.file == file
      requires FitsRecord(key, value) && Recs()[iter.currentIndex - 1].key == key
      requires found ==> first < iter.currentIndex - 1 && Recs()[first].key == key
      requires Decodes(Recs()[iter.currentIndex - 1])
      requires PoolOps.Reached(PoolOps.InsertOne(key, value), start, l, Recs())
      requires l.i == iter.currentIndex - 1 && l.found == found && !l.moved
      requires iter.handle.Holds(Exclusive)
      modifies iter, iter.handle`pos, file`faults, file`contents, file`flushed
      ensures r.Ok? ==>
        && iter.Valid()
        && var was, i := old(Recs()), old(iter.currentIndex) - 1;
           && Recs() == (if found then SwapRemove(was, i) else was[i := Record(key, value)])
           && iter.currentIndex == (if found && i + 1 < |was| then i else i + 1)
           && Others(Recs(), {key}) == Others(was, {key})
           && var f := if found then first else i; f < |Recs()| && Recs()[f].key == key
      ensures Whole(file.contents) && HasKey(Recs(), key)
      ensures Others(Recs(), {key}) >= Others(old(Recs()), {key})
      ensures PoolOps.Interrupted(PoolOps.InsertOne(key, value), start, Recs())
      ensures r.Ok? ==> PoolOps.Reached(PoolOps.InsertOne(key, value), start, MetAgain(l), Recs())
      ensures Calm(old(file.faults)) ==> Calm(file.faults) && r.Ok?
    {
      hide Records, Decodes, Others, MoveLast, PoolOps.Reached;
      ghost var was, i := Recs(), iter.currentIndex - 1;
      assert PoolOps.Interrupted(PoolOps.InsertOne(key, value), start, was);
      if !found {
        PoolOps.UpdateReached(key, value, start, l, was);
        OverwriteOthers(was, i, Record(key, value), {key});
        assert was[i].key == key;
        r := iter.OverwriteCurrentValue(value);
        assert Recs()[i].key == key;
      } else {
        PoolOps.RemoveReached(PoolOps.InsertOne(key, value), start, l, was);
        SwapRemoveOthers(was, i, {key});
        SwapRemoveKeeps(was, i, first);
        assert SwapRemove(was, i)[first].key == key;
        r := iter.RemoveCurrent();
      }
    }

    /**
     One round of the insert loop: `None` behind the last record, otherwise whether the key has
     been found by now, and every key read.
     */
    method InsertVisit(iter: KvpPoolIter, key: Text, value: Text, found: bool, uniqueKeys: set<Text>, ghost first: nat,
                       ghost start: seq<Record>, ghost l: PoolOps.Local)
      returns (r: Option<Result<(bool, set<Text>), IoError>>, ghost l': PoolOps.Local)
      requires iter.Valid() && iter.handle.file == file && FitsRecord(key, value)
      requires found ==> first < iter.currentIndex && first < |Recs()| && Recs()[first].key == key
      requires WalksAt(key, value, found, iter.currentIndex, start, l, Recs())
      requires iter.handle.Holds(Exclusive)
      modifies iter, iter.handle`pos, file`faults, file`contents, file`flushed
      ensures PoolOps.Interrupted(PoolOps.InsertOne(key, value), start, Recs())
      ensures r.None? ==> l' == l
      ensures r.Some? && r.value.Ok? ==>
        WalksAt(key, value, r.value.value.0, iter.currentIndex, start, l', Recs())
      ensures r.None? <==> old(iter.currentIndex) >= |old(Recs())|
      ensures r.None? ==> iter.Valid() && file.contents == old(file.contents) && file.flushed == old(file.flushed)
      ensures r.Some? && r.value.Ok? ==>
        && iter.Valid() && Decodes(old(Recs())[old(iter.currentIndex)])
        && InsertWalk(old(Recs()), old(iter.currentIndex), key, value, found, uniqueKeys) ==
           InsertWalk(Recs(), iter.currentIndex, key, value, r.value.value.0, r.value.value.1)
        && Others(Recs(), {key}) == Others(old(Recs()), {key})
        && |Recs()| - iter.currentIndex < |old(Recs())| - old(iter.currentIndex)
        && var f := if found then first else old(iter.currentIndex);
           if r.value.value.0 then f < iter.currentIndex && f < |Recs()| && Recs()[f].key == key
           else !found && file.contents == old(file.contents) && file.flushed == old(file.flushed)
      ensures Whole(file.contents)
      ensures Others(Recs(), {key}) >= Others(old(Recs()), {key})
      ensures HasKey(Recs(), key) || file.contents == old(file.contents)
      ensures Calm(old(file.faults)) ==>
        Calm(file.faults) && (r.Some? && r.value.Err? ==> !Decodes(old(Recs())[old(iter.currentIndex)]))
    {
      hide Records, Decodes, Others, InsertWalk, SwapRemove, PoolOps.Reached;
      ghost var now, i := Recs(), iter.currentIndex;
      l' := l;
      var next := iter.Next();
      if next.None? {
        return None, l;
      }
      if next.value.Err? {
        return Some(Err(next.value.error)), l;
      }
      var record := next.value.value;
      InsertWalkStep(now, i, key, value, found, uniqueKeys);
      if record.key != key {
        PoolOps.PassReached(PoolOps.InsertOne(key, value), start, l, now);
        return Some(Ok((found, uniqueKeys + {record.key}))), l.(i := l.i + 1);
      }
      var kept := KeepOrRemove(iter, key, value, found, first, start, l);
      if kept.Err? {
        return Some(Err(kept.error)), l;
      }
      return Some(Ok((true, uniqueKeys + {record.key}))), MetAgain(l);
    }

    /** The insert loop: whether the key was found, and every key read. */
    method InsertLoop(iter: KvpPoolIter, key: Text, value: Text)
      returns (r: Result<(bool, set<Text>), IoError>, ghost l: PoolOps.Local)
      requires iter.Valid() && iter.currentIndex == 0 && iter.handle.file == file
      requires FitsRecord(key, value)
      requires iter.handle.Holds(Exclusive)
      modifies iter, iter.handle`pos, file`faults, file`contents, file`flushed
      ensures r.Ok? ==>
        && iter.Valid()
        && InsertWalk(old(Recs()), 0, key, value, false, {}) == Ok((Recs(), r.value.0, r.value.1))
        && (!r.value.0 ==> file.contents == old(file.contents) && file.flushed == old(file.flushed))
      ensures Whole(file.contents)
      ensures Others(Recs(), {key}) >= Others(old(Recs()), {key})
      ensures HasKey(Recs(), key) || file.contents == old(file.contents)
      ensures PoolOps.Interrupted(PoolOps.InsertOne(key, value), old(Recs()), Recs())
      ensures r.Ok? ==> WalksAt(key, value, r.value.0, |Recs()|, old(Recs()), l, Recs())
      ensures Calm(old(file.faults)) ==>
        Calm(file.faults) && (r.Ok? <==> InsertWalk(old(Recs()), 0, key, value, false, {}).Ok?)
    {
      hide Records, Decodes, Others, PoolOps.Reached;
      var found := false;
      var uniqueKeys: set<Text> := {};
      ghost var first: nat := 0;
      l := PoolOps.START;
      PoolOps.ReachedStart(PoolOps.InsertOne(key, value), Recs());
      while true
        invariant iter.Valid()
        invariant WalksAt(key, value, found, iter.currentIndex, old(Recs()), l, Recs())
        invariant InsertWalk(Recs(), iter.currentIndex, key, value, found, uniqueKeys) ==
                  InsertWalk(old(Recs()), 0, key, value, false, {})
        invariant Others(Recs(), {key}) == Others(old(Recs()), {key})
        invariant !found ==> file.contents == old(file.contents) && file.flushed == old(file.flushed)
        invariant found ==> first < iter.currentIndex && first < |Recs()| && Recs()[first].key == key
        invariant Calm(old(file.faults)) ==> Calm(file.faults)
        decreases |Recs()| - iter.currentIndex
      {
        ghost var i := iter.currentIndex;
        var visited, l' := InsertVisit(iter, key, value, found, uniqueKeys, first, old(Recs()), l);
        if visited.None? {
          break;
        }
        if visited.value.Err? {
          return Err(visited.value.error), l';
        }
        first := if found then first else i;
        found, uniqueKeys, l := visited.value.value.0, visited.value.value.1, l';
      }
      return Ok((found, uniqueKeys)), l;
    }

    /** The same, with what the loop leaves behind said outright. */
    method UpdateAll(iter: KvpPoolIter, key: Text, value: Text)
      returns (r: Result<(bool, set<Text>), IoError>, ghost l: PoolOps.Local)
      requires iter.Valid() && iter.currentIndex == 0 && iter.handle.file == file
      requires FitsRecord(key, value)
      requires iter.handle.Holds(Exclusive)
      modifies iter, iter.handle`pos, file`faults, file`contents, file`flushed
      ensures r.Ok? ==>
        && iter.Valid() && AllDecode(old(Recs()))
        && r.value == (HasKey(old(Recs()), key), DistinctKeys(old(Recs())))
        && Recs() == (if r.value.0 then InsertRecords(old(Recs()), key, value) else old(Recs()))
        && (!r.value.0 ==> file.contents == old(file.contents) && file.flushed == old(file.flushed))
      ensures Whole(file.contents)
      ensures Others(Recs(), {key}) >= Others(old(Recs()), {key})
      ensures HasKey(old(Recs()), key) ==> HasKey(Recs(), key)
      ensures PoolOps.Interrupted(PoolOps.InsertOne(key, value), old(Recs()), Recs())
      ensures r.Ok? ==> WalksAt(key, value, r.value.0, |Recs()|, old(Recs()), l, Recs())
      ensures Calm(old(file.faults)) ==> Calm(file.faults) && (r.Ok? <==> AllDecode(old(Recs())))
    {
      hide Records, Decodes, Others, InsertRecords, WalksAt, PoolOps.Interrupted;
      InsertWalkResult(Recs(), key, value);
      r, l := InsertLoop(iter, key, value);
    }

    method Insert(key: Text, value: Text) returns (r: Result<(), KvpError>)
      requires file.Valid()
      modifies file
      ensures file.Valid()
      ensures InOneSection(old(file.sections), file.sections, Exclusive)
      ensures r.Ok? && old(file.flushed) ==> file.flushed
      ensures ValidateRecord(key, value, mode).Err? ==> r == ValidateRecord(key, value, mode) && unchanged(file)
      ensures r.Ok? ==>
        && old(WellFormed())
        && Recs() == InsertRecords(old(Recs()), key, value)
        && (HasKey(old(Recs()), key) || |DistinctKeys(old(Recs()))| < 1024)
      ensures r.Err? && r.error.MaxUniqueKeysExceeded? ==>
        && old(WellFormed()) && file.contents == old(file.contents) && file.flushed == old(file.flushed)
        && !HasKey(old(Recs()), key) && |DistinctKeys(old(Recs()))| >= 1024
      ensures Whole(old(file.contents)) ==> Whole(file.contents)
      ensures !Whole(old(file.contents)) ==> file.contents == old(file.contents)
      ensures Others(Recs(), {key}) >= Others(old(Recs()), {key})
      ensures HasKey(old(Recs()), key) ==> HasKey(Recs(), key)
      ensures PoolOps.Interrupted(PoolOps.InsertOne(key, value), old(Recs()), Recs())
      ensures Calm(old(file.faults)) && ValidateRecord(key, value, mode).Ok? ==>
        && Calm(file.faults)
        && (old(WellFormed()) ==>
              r == if HasKey(old(Recs()), key) || |DistinctKeys(old(Recs()))| < 1024 then Ok(())
                   else Err(MaxUniqueKeysExceeded(1024)))
    {
      hide Records, Decodes, Others, InsertRecords, ValidateRecord, PoolOps.Interrupted, WalksAt;
      PoolOps.ReachedStart(PoolOps.InsertOne(key, value), Recs());
      var _ :- ValidateRecord(key, value, mode);
      var file_ := OpenOrCreate();
      var handle :- LiftIo(file_);
      var made := KvpPoolIter.Open(handle, false);
      var iter :- LiftIo(made);
      ghost var before := Recs();
      var walked, l := UpdateAll(iter, key, value);
      var outcome :- LiftIo(walked);
      AbsentInsertKeeps(Recs(), key, value);
      WalkedInsertEnds(key, value, outcome.0, before, l, Recs());
      r := FinishInsert(iter, key, value, outcome.0, outcome.1);
    }

    /** The end of an insert: a key not found is appended, if the cap allows it. */
    method FinishInsert(iter: KvpPoolIter, key: Text, value: Text, found: bool, uniqueKeys: set<Text>)
      returns (r: Result<(), KvpError>)
      requires iter.Valid() && iter.handle.file == file && FitsRecord(key, value)
      requires iter.handle.Holds(Exclusive)
      modifies iter, iter.handle`pos, file`faults, file`contents, file`flushed
      ensures r.Ok? ==>
        && Recs() == (if found then old(Recs()) else old(Recs()) + [Record(key, value)])
        && (found || |uniqueKeys| < MAX_UNIQUE_KEYS)
        && file.flushed
      ensures r.Err? && r.error.MaxUniqueKeysExceeded? ==>
        && file.contents == old(file.contents) && file.flushed == old(file.flushed)
        && !found && |uniqueKeys| >= MAX_UNIQUE_KEYS
      ensures Whole(file.contents)
      ensures
        || Recs() == old(Recs())
        || (!found && |uniqueKeys| < MAX_UNIQUE_KEYS && Recs() == old(Recs()) + [Record(key, value)])
      ensures Calm(old(file.faults)) ==>
        && Calm(file.faults)
        && r == if found || |uniqueKeys| < MAX_UNIQUE_KEYS then Ok(())
                else Err(MaxUniqueKeysExceeded(MAX_UNIQUE_KEYS))
    {
      if !found {
        if |uniqueKeys| >= MAX_UNIQUE_KEYS {
          return Err(MaxUniqueKeysExceeded(MAX_UNIQUE_KEYS));
        }
        var appended := iter.Append(key, value);
        var _ :- LiftIo(appended);
      }
      var flushed := iter.Flush();
      var _ :- LiftIo(flushed);
      return Ok(());
    }

    /** Appends the records in order; a fault leaves a prefix of them. */
    method AppendAll(iter: KvpPoolIter, records: seq<Record>) returns (r: Result<(), IoError>)
      requires iter.Valid() && iter.handle.file == file
      requires forall i :: 0 <= i < |records| ==> FitsRecord(records[i].key, records[i].value)
      requires iter.handle.Holds(Exclusive)
      modifies iter, iter.handle`pos, file`faults, file`contents, file`flushed
      ensures r.Ok? ==> iter.Valid() && Recs() == old(Recs()) + records
      ensures Whole(file.contents)
      ensures exists n: nat :: n <= |records| && Recs() == old(Recs()) + records[..n]
      ensures Calm(old(file.faults)) ==> r.Ok? && Calm(file.faults)
    {
      hide Records, FitsRecord;
      var i := 0;
      assert old(Recs()) + records[..0] == old(Recs());
      while i < |records|
        invariant 0 <= i <= |records|
        invariant iter.Valid() && Recs() == old(Recs()) + records[..i]
        invariant Calm(old(file.faults)) ==> Calm(file.faults)
      {
        assert records[..i + 1] == records[..i] + [records[i]];
        var appended := iter.Append(records[i].key, records[i].value);
        assert Recs() == old(Recs()) + records[..i] || Recs() == old(Recs()) + records[..i + 1];
        var _ :- appended;
        i := i + 1;
      }
      assert records[..i] == records;
      return Ok(());
    }

    /** The shared write of `load` and `append_multiple`, under one lock. */
    method WriteRecordsLocked(records: seq<Record>, truncate: bool) returns (r: Result<(), KvpError>)
      requires file.Valid() && forall i :: 0 <= i < |records| ==> FitsRecord(records[i].key, records[i].value)
      modifies file
      ensures file.Valid()
      ensures InOneSection(old(file.sections), file.sections, Exclusive)
      ensures r.Ok? && old(file.flushed) ==> file.flushed
      ensures r.Ok? ==>
        Whole(old(file.contents)) && Recs() == (if truncate then [] else old(Recs())) + records
      ensures Whole(old(file.contents)) ==> Whole(file.contents)
      ensures !Whole(old(file.contents)) ==> file.contents == old(file.contents)
      ensures r.Err? ==>
        || Recs() == old(Recs())
        || exists n: nat :: n <= |records| && Recs() == (if truncate then [] else old(Recs())) + records[..n]
      ensures PoolOps.Interrupted(if truncate then PoolOps.LoadAll(records) else PoolOps.AppendBatch(records),
                                  old(Recs()), Recs())
      ensures Calm(old(file.faults)) ==> Calm(file.faults) && (r.Ok? <==> Whole(old(file.contents)))
    {
      hide Records, FitsRecord, WriteAt, Resize, PoolOps.Interrupted;
      WriteInterrupted(records, truncate, Recs());
      var file_ := OpenOrCreate();
      var handle :- LiftIo(file_);
      var made := KvpPoolIter.Open(handle, false);
      var iter :- LiftIo(made);
      if truncate {
        TruncateBlocks(file.contents, 0);
        var cut := handle.SetLen(0);
        var _ :- LiftIo(cut);
        iter.recordCount := 0;
      }
      ghost var base := Recs();
      assert base == if truncate then [] else old(Recs());
      var appended := AppendAll(iter, records);
      var _ :- LiftIo(appended);
      var flushed := iter.Flush();
      assert records[..|records|] == records;
      var _ :- LiftIo(flushed);
      return Ok(());
    }

    method AppendMultiple(records: seq<Record>) returns (r: Result<(), KvpError>)
      requires file.Valid()
      modifies file
      ensures file.Valid()
      ensures InOneSection(old(file.sections), file.sections, Exclusive)
      ensures r.Ok? && old(file.flushed) ==> file.flushed
      ensures records == [] ==> r == Ok(()) && unchanged(file)
      ensures ValidateAll(records, mode).Err? ==> r == ValidateAll(records, mode) && unchanged(file)
      ensures r.Ok? && records != [] ==> Whole(old(file.contents)) && Recs() == old(Recs()) + records
      ensures Whole(old(file.contents)) ==> Whole(file.contents)
      ensures !Whole(old(file.contents)) ==> file.contents == old(file.contents)
      ensures r.Err? ==> exists n: nat :: n <= |records| && Recs() == old(Recs()) + records[..n]
      ensures PoolOps.Interrupted(PoolOps.AppendBatch(records), old(Recs()), Recs())
      ensures Calm(old(file.faults)) && records != [] && ValidateAll(records, mode).Ok? ==>
        Calm(file.faults) && (r.Ok? <==> Whole(old(file.contents)))
    {
      hide PoolOps.Interrupted;
      PoolOps.ReachedStart(PoolOps.AppendBatch(records), Recs());
      assert Recs() == Recs() + records[..0];
      if records == [] {
        return Ok(());
      }
      var _ :- ValidateAll(records, mode);
      r := WriteRecordsLocked(records, false);
    }

    method Load(records: seq<Record>) returns (r: Result<(), KvpError>)
      requires file.Valid()
      modifies file
      ensures file.Valid()
      ensures InOneSection(old(file.sections), file.sections, Exclusive)
      ensures r.Ok? && old(file.flushed) ==> file.flushed
      ensures ValidateAll(records, mode).Err? ==> r == ValidateAll(records, mode) && unchanged(file)
      ensures ValidateAll(records, mode).Ok? && |DistinctKeys(records)| > 1024 ==>
        r == Err(MaxUniqueKeysExceeded(1024)) && unchanged(file)
      ensures r.Ok? ==>
        Whole(old(file.contents)) && Recs() == records && |DistinctKeys(records)| <= 1024
      ensures Whole(old(file.contents)) ==> Whole(file.contents)
      ensures !Whole(old(file.contents)) ==> file.contents == old(file.contents)
      ensures r.Err? ==> Recs() == old(Recs()) || exists n: nat :: n <= |records| && Recs() == records[..n]
      ensures PoolOps.Interrupted(PoolOps.LoadAll(records), old(Recs()), Recs())
      ensures Calm(old(file.faults)) && ValidateAll(records, mode).Ok? && |DistinctKeys(records)| <= 1024 ==>
        Calm(file.faults) && (r.Ok? <==> Whole(old(file.contents)))
    {
      hide PoolOps.Interrupted;
      PoolOps.ReachedStart(PoolOps.LoadAll(records), Recs());
      var _ :- ValidateAll(records, mode);
      if |DistinctKeys(records)| > MAX_UNIQUE_KEYS {
        return Err(MaxUniqueKeysExceeded(MAX_UNIQUE_KEYS));
      }
      assert [] + records == records && forall n: nat :: n <= |records| ==> [] + records[..n] == records[..n];
      r := WriteRecordsLocked(records, true);
    }

    /** Removes every record; the file's framing is not looked at. */
    method Clear() returns (r: Result<(), KvpError>)
      requires file.Valid()
      modifies file`faults, file`contents, file`sections
      ensures file.Valid()
      ensures InOneSection(old(file.sections), file.sections, Exclusive)
      ensures r.Ok? ==> file.contents == []
      ensures r.Err? ==> file.contents == old(file.contents)
      ensures PoolOps.Interrupted(PoolOps.ClearAll, old(Recs()), Recs())
      ensures Calm(old(file.faults)) ==> r.Ok? && Calm(file.faults)
    {
      hide PoolOps.Interrupted;
      PoolOps.ReachedStart(PoolOps.ClearAll, Recs());
      PoolOps.ClearReached(Recs());
      var file_ := OpenExisting();
      if file_ == Err(NotFound) {
        return Ok(());
      }
      var handle :- LiftIo(file_);
      var locked := handle.Lock(Exclusive);
      var _ :- LiftIo(locked);
      var cut := handle.SetLen(0);
      var _ :- LiftIo(cut);
      return Ok(());
    }

    method Dump() returns (r: Result<seq<Record>, KvpError>)
      requires file.Valid()
      modifies file`faults, file`sections
      ensures InOneSection(old(file.sections), file.sections, Shared)
      ensures r.Ok? ==> WellFormed() && r.value == Recs()
      ensures Calm(old(file.faults)) ==> Calm(file.faults) && (r.Ok? <==> WellFormed())
    {
      hide Records, Decodes;
      var file_ := OpenExisting();
      if file_ == Err(NotFound) {
        return Ok([]);
      }
      var handle :- LiftIo(file_);
      var made := KvpPoolIter.Open(handle, true);
      var iter :- LiftIo(made);
      var records := [];
      while true
        invariant iter.Valid() && iter.currentIndex <= iter.recordCount
        invariant file.sections == old(file.sections) + [Shared]
        invariant records == Recs()[..iter.currentIndex] && AllDecode(records)
        invariant Calm(old(file.faults)) ==> Calm(file.faults)
        decreases iter.recordCount - iter.currentIndex
      {
        ghost var i := iter.currentIndex;
        var next := iter.Next();
        if next.None? {
          break;
        }
        var record :- LiftIo(next.value);
        assert Recs()[..i + 1] == Recs()[..i] + [Recs()[i]];
        records := records + [record];
      }
      assert records == Recs();
      return Ok(records);
    }

    method Read(key: Text) returns (r: Result<Option<Text>, KvpError>)
      requires file.Valid()
      modifies file`faults, file`sections
      ensures InOneSection(old(file.sections), file.sections, Shared)
      ensures ValidateKey(key, None).Err? ==> r.Err? && r.error == ValidateKey(key, None).error
      ensures r.Ok? ==> WellFormed() && r.value == LastValue(Recs(), key)
      ensures Calm(old(file.faults)) && ValidateKey(key, None).Ok? ==>
        Calm(file.faults) && (r.Ok? <==> WellFormed())
    {
      hide Records, Decodes;
      var _ :- ValidateKey(key, None);
      var file_ := OpenExisting();
      if file_ == Err(NotFound) {
        return Ok(None);
      }
      var handle :- LiftIo(file_);
      var made := KvpPoolIter.Open(handle, true);
      var iter :- LiftIo(made);
      var result: Option<Text> := None;
      while true
        invariant iter.Valid() && iter.currentIndex <= iter.recordCount
        invariant file.sections == old(file.sections) + [Shared]
        invariant result == LastValue(Recs()[..iter.currentIndex], key) && AllDecode(Recs()[..iter.currentIndex])
        invariant Calm(old(file.faults)) ==> Calm(file.faults)
        decreases iter.recordCount - iter.currentIndex
      {
        ghost var i := iter.currentIndex;
        var next := iter.Next();
        if next.None? {
          break;
        }
        var record :- LiftIo(next.value);
        PrefixSnoc(Recs(), i, key);
        if record.key == key {
          result := Some(record.value);
        }
      }
      assert Recs()[..iter.currentIndex] == Recs();
      return Ok(result);
    }

    method Entries() returns (r: Result<map<Text, Text>, KvpError>)
      requires file.Valid()
      modifies file`faults, file`sections
      ensures InOneSection(old(file.sections), file.sections, Shared)
      ensures r.Ok? ==> WellFormed() && r.value == EntriesOf(Recs())
      ensures Calm(old(file.faults)) ==> Calm(file.faults) && (r.Ok? <==> WellFormed())
    {
      hide Records, Decodes;
      var file_ := OpenExisting();
      if file_ == Err(NotFound) {
        return Ok(map[]);
      }
      var handle :- LiftIo(file_);
      var made := KvpPoolIter.Open(handle, true);
      var iter :- LiftIo(made);
      var entries: map<Text, Text> := map[];
      while true
        invariant iter.Valid() && iter.currentIndex <= iter.recordCount
        invariant file.sections == old(file.sections) + [Shared]
        invariant entries == EntriesOf(Recs()[..iter.currentIndex]) && AllDecode(Recs()[..iter.currentIndex])
        invariant Calm(old(file.faults)) ==> Calm(file.faults)
        decreases iter.recordCount - iter.currentIndex
      {
        ghost var i := iter.currentIndex;
        var next := iter.Next();
        if next.None? {
          break;
        }
        var record :- LiftIo(next.value);
        PrefixSnoc(Recs(), i, record.key);
        entries := entries[record.key := record.value];
      }
      assert Recs()[..iter.currentIndex] == Recs();
      return Ok(entries);
    }
  }
}
