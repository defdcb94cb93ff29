/** The store's methods perform the atomic actions that the lock protocol speaks of. */
module StoreOps {
  import opened Results
  import opened Bytes
  import opened Handles
  import opened KvpErrors
  import opened PoolLayout
  import opened PoolSpec
  import opened Store
  import opened PoolOps

  /** A call of one of the store's public operations. */
  datatype Call =
    | AppendOf(key: Text, value: Text)
    | AppendMultipleOf(records: seq<Record>)
    | LoadOf(records: seq<Record>)
    | ClearOf
    | DeleteOf(key: Text)
    | DeleteMultipleOf(keys: seq<Text>)
    | InsertOf(key: Text, value: Text)
    | DumpOf
    | ReadOf(key: Text)
    | EntriesOfAll

  datatype Answer =
    | Nothing
    | Full
    | Flag(found: bool)
    | Count(count: int)
    | All(records: seq<Record>)
    | Value(value: Option<Text>)
    | Latest(entries: map<Text, Text>)

  /** The atomic action behind a call. */
  function OpOf(call: Call): Op {
    match call
    case AppendOf(key, value) => AppendBatch([Record(key, value)])
    case AppendMultipleOf(records) => AppendBatch(records)
    case LoadOf(records) => LoadAll(records)
    case ClearOf => ClearAll
    case DeleteOf(key) => DeleteKeys({key})
    case DeleteMultipleOf(keys) => DeleteKeys(set k | k in keys)
    case InsertOf(key, value) => InsertOne(key, value)
    case DumpOf => DumpAll
    case ReadOf(_) => DumpAll
    case EntriesOfAll => DumpAll
  }

  /** What the caller is told of the action's result. */
  function AnswerOf(call: Call, result: OpResult): Answer {
    match result
    case Done => Nothing
    case TooManyKeys => Full
    case Removed(count) => if call.DeleteOf? then Flag(count > 0) else Count(count)
    case Dumped(records) =>
      if call.ReadOf? then Value(LastValue(records, call.key))
      else if call.EntriesOfAll? then Latest(EntriesOf(records))
      else All(records)
  }

  /** Deleting no key at all leaves every record where it is. */
  lemma {:induction false} DeleteNothing(rs: seq<Record>, i: nat)
    ensures DeleteFrom(rs, i, {}) == rs
    decreases |rs| - i
  {
    if i < |rs| {
      DeleteNothing(rs, i + 1);
    }
  }

  /** A delete's counts are those of its action, also when there is nothing to look for. */
  lemma DeleteAnswers(rs: seq<Record>, key: Text, keys: seq<Text>)
    ensures |rs| - |DeleteFrom(rs, 0, {key})| > 0 <==> HasKey(rs, key)
    ensures |rs| - |DeleteFrom(rs, 0, set k | k in keys)| == MatchCount(rs, set k | k in keys)
    ensures keys == [] ==> DeleteFrom(rs, 0, set k | k in keys) == rs
  {
    hide DeleteFrom, MatchCount;
    RemovedCount(rs, {key});
    RemovedCount(rs, set k | k in keys);
    if keys == [] {
      assert (set k | k in keys) == {};
      DeleteNothing(rs, 0);
    }
  }

  /** The locks that a process of the protocol holds while it is inside the operation. */
  function LockOf(op: Op): LockState {
    match ModeOf(op)
    case Shared => LockState.Shared
    case Exclusive => LockState.Exclusive
  }

  /**
   A call that succeeds has done exactly its atomic action and returned its result; one that fails
   leaves the pool where that action's steps pass through. It takes the locks at most once, in the
   action's mode, and a handle reads and writes only while it holds them.
   */
  method Perform(store: KvpPoolStore, call: Call) returns (r: Result<Answer, KvpError>)
    requires store.file.Valid()
    modifies store.file
    ensures store.file.Valid()
    ensures r.Ok? ==>
      && store.Recs() == Apply(OpOf(call), old(store.Recs())).0
      && r.value == AnswerOf(call, Apply(OpOf(call), old(store.Recs())).1)
    ensures Interrupted(OpOf(call), old(store.Recs()), store.Recs())
    ensures InOneSection(old(store.file.sections), store.file.sections, LockOf(OpOf(call)))
    ensures r.Ok? && old(store.file.flushed) ==> store.file.flushed
  {
    if call.DumpOf? || call.ReadOf? || call.EntriesOfAll? {
      r := Ask(store, call);
    } else {
      r := Change(store, call);
    }
  }

  method Ask(store: KvpPoolStore, call: Call) returns (r: Result<Answer, KvpError>)
    requires store.file.Valid() && OpOf(call).DumpAll?
    modifies store.file`faults, store.file`sections
    ensures InOneSection(old(store.file.sections), store.file.sections, LockState.Shared)
    ensures r.Ok? ==> r.value == AnswerOf(call, Dumped(store.Recs()))
    ensures Interrupted(DumpAll, store.Recs(), store.Recs())
  {
    hide Records, Decodes, LastValue, EntriesOf, Interrupted;
    ReachedStart(DumpAll, store.Recs());
    match call {
    case DumpOf =>
      var records :- store.Dump();
      return Ok(All(records));
    case ReadOf(key) =>
      var value :- store.Read(key);
      return Ok(Value(value));
    case EntriesOfAll =>
      var entries :- store.Entries();
      return Ok(Latest(entries));
    }
  }

  method Change(store: KvpPoolStore, call: Call) returns (r: Result<Answer, KvpError>)
    requires store.file.Valid() && !OpOf(call).DumpAll?
    modifies store.file
    ensures store.file.Valid()
    ensures r.Ok? ==>
      && store.Recs() == Apply(OpOf(call), old(store.Recs())).0
      && r.value == AnswerOf(call, Apply(OpOf(call), old(store.Recs())).1)
    ensures Interrupted(OpOf(call), old(store.Recs()), store.Recs())
    ensures InOneSection(old(store.file.sections), store.file.sections, LockOf(OpOf(call)))
    ensures r.Ok? && old(store.file.flushed) ==> store.file.flushed
  {
    hide Records, DeleteFrom, InsertRecords, AllDecode, ValidateAll, ValidateRecord, ValidateKey, Interrupted;
    hide Others, MatchCount, HasKey, DistinctKeys, Whole, Calm;
    ghost var pool := store.Recs();
    match call {
    case AppendOf(key, value) =>
      var _ :- store.Append(key, value);
      return Ok(Nothing);
    case AppendMultipleOf(records) =>
      assert pool + [] == pool;
      var _ :- store.AppendMultiple(records);
      return Ok(Nothing);
    case LoadOf(records) =>
      var _ :- store.Load(records);
      return Ok(Nothing);
    case ClearOf =>
      var _ :- store.Clear();
      return Ok(Nothing);
    case DeleteOf(key) =>
      DeleteAnswers(pool, key, []);
      var found :- store.Delete(key);
      return Ok(Flag(found));
    case DeleteMultipleOf(keys) =>
      DeleteAnswers(pool, [], keys);
      var count :- store.DeleteMultiple(keys);
      return Ok(Count(count));
    case InsertOf(key, value) =>
      var inserted := store.Insert(key, value);
      if inserted.Err? && inserted.error.MaxUniqueKeysExceeded? {
        return Ok(Full);
      }
      var _ :- inserted;
      return Ok(Nothing);
    }
  }
}
