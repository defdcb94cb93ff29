/**
 Every store operation as an atomic action on records, and as the small steps other processes
 could observe if nothing kept them out. Running the steps undisturbed gives the action.
 */
module PoolOps {
  import opened Bytes
  import opened PoolLayout
  import opened PoolSpec

  datatype Mode = Shared | Exclusive

  /** A store operation on its records. `read` and `entries` are functions of a dump. */
  datatype Op =
    | AppendBatch(records: seq<Record>)
    | LoadAll(records: seq<Record>)
    | ClearAll
    | DeleteKeys(keys: set<Text>)
    | InsertOne(key: Text, value: Text)
    | DumpAll

  datatype OpResult = Done | Removed(count: int) | TooManyKeys | Dumped(records: seq<Record>)

  function ModeOf(op: Op): Mode {
    if op.DumpAll? then Shared else Exclusive
  }

  /** The operation as one atomic action. */
  function Apply(op: Op, pool: seq<Record>): (seq<Record>, OpResult) {
    match op
    case AppendBatch(records) => (pool + records, Done)
    case LoadAll(records) => (records, Done)
    case ClearAll => ([], Done)
    case DeleteKeys(keys) => (DeleteFrom(pool, 0, keys), Removed(|pool| - |DeleteFrom(pool, 0, keys)|))
    case InsertOne(key, value) =>
      if HasKey(pool, key) || |DistinctKeys(pool)| < MAX_UNIQUE_KEYS then (InsertRecords(pool, key, value), Done)
      else (pool, TooManyKeys)
    case DumpAll => (pool, Dumped(pool))
  }

  // The operation in the steps that other processes could observe.

  /** Where an operation stands: cursor, a move not yet truncated, flags, and what it collected. */
  datatype Local = Local(i: nat, moved: bool, found: bool, truncated: bool, removed: int, out: seq<Record>)

  const START := Local(0, false, false, false, 0, [])

  /** A removal between its two writes: the last record also stands at `i`. */
  predicate Doubled(i: nat, pool: seq<Record>) {
    i + 1 < |pool| && pool[i] == pool[|pool| - 1]
  }

  predicate LocalOk(op: Op, l: Local, pool: seq<Record>) {
    match op
    case AppendBatch(records) => l.i <= |records|
    case LoadAll(records) => l.i <= |records| && (!l.truncated ==> l.i == 0)
    case ClearAll => true
    case DeleteKeys(keys) => l.moved ==> Doubled(l.i, pool)
    case InsertOne(key, value) => (l.moved ==> l.found && Doubled(l.i, pool)) && (!l.found ==> l.i <= |pool|)
    case DumpAll => l.i <= |pool| && AllDecode(l.out)
  }

  predicate Finished(op: Op, l: Local, pool: seq<Record>) {
    match op
    case AppendBatch(records) => l.i >= |records|
    case LoadAll(records) => l.truncated && l.i >= |records|
    case ClearAll => l.truncated
    case DeleteKeys(keys) => !l.moved && l.i >= |pool|
    case InsertOne(key, value) =>
      !l.moved && l.i >= |pool| && (l.found || |DistinctKeys(pool)| >= MAX_UNIQUE_KEYS)
    case DumpAll => l.i >= |pool|
  }

  /** Is the record that the operation reads next one that does not decode? It fails there. */
  predicate MeetsBad(op: Op, l: Local, pool: seq<Record>)
    requires LocalOk(op, l, pool) && !Finished(op, l, pool)
  {
    match op
    case DeleteKeys(_) => !l.moved && !Decodes(pool[l.i])
    case InsertOne(_, _) => !l.moved && l.i < |pool| && !Decodes(pool[l.i])
    case DumpAll => !Decodes(pool[l.i])
    case _ => false
  }

  function ResultOf(op: Op, l: Local): OpResult {
    match op
    case DeleteKeys(_) => Removed(l.removed)
    case InsertOne(_, _) => if l.found then Done else TooManyKeys
    case DumpAll => Dumped(l.out)
    case _ => Done
  }

  /** A deleting walk's next write: truncate after a move, or remove or pass the current record. */
  function WalkWork(l: Local, pool: seq<Record>, keys: set<Text>): (Local, seq<Record>)
    requires if l.moved then l.i + 1 < |pool| else l.i < |pool|
  {
    if l.moved then (l.(moved := false, removed := l.removed + 1), pool[..|pool| - 1])
    else if pool[l.i].key !in keys then (l.(i := l.i + 1), pool)
    else if l.i == |pool| - 1 then (l.(removed := l.removed + 1), pool[..|pool| - 1])
    else (l.(moved := true), MoveLast(pool, l.i))
  }

  function Work(op: Op, l: Local, pool: seq<Record>): (Local, seq<Record>)
    requires LocalOk(op, l, pool) && !Finished(op, l, pool)
  {
    match op
    case AppendBatch(records) => (l.(i := l.i + 1), pool + [records[l.i]])
    case LoadAll(records) =>
      if !l.truncated then (l.(truncated := true), []) else (l.(i := l.i + 1), pool + [records[l.i]])
    case ClearAll => (l.(truncated := true), [])
    case DeleteKeys(keys) => WalkWork(l, pool, keys)
    case InsertOne(key, value) =>
      if l.found then WalkWork(l, pool, {key})
      else if l.i == |pool| then (l.(found := true, i := l.i + 1), pool + [Record(key, value)])
      else if pool[l.i].key == key then (l.(found := true, i := l.i + 1), pool[l.i := Record(key, value)])
      else (l.(i := l.i + 1), pool)
    case DumpAll => (l.(i := l.i + 1, out := l.out + [pool[l.i]]), pool)
  }

  /** The pool without the copy a move has left at its end. */
  function Settled(l: Local, pool: seq<Record>): seq<Record> {
    if l.moved && pool != [] then pool[..|pool| - 1] else pool
  }

  /** What the operation will have done once it has run to its end undisturbed. */
  function Outcome(op: Op, l: Local, pool: seq<Record>): (seq<Record>, OpResult)
    requires LocalOk(op, l, pool)
  {
    match op
    case AppendBatch(records) => (pool + records[l.i..], Done)
    case LoadAll(records) => (if l.truncated then pool + records[l.i..] else records, Done)
    case ClearAll => (if l.truncated then pool else [], Done)
    case DeleteKeys(keys) =>
      var left := DeleteFrom(Settled(l, pool), l.i, keys);
      (left, Removed(l.removed + |pool| - |left|))
    case InsertOne(key, value) =>
      if l.found then (DeleteFrom(Settled(l, pool), l.i, {key}), Done)
      else
        var f := FirstIndex(pool, key, l.i);
        if f < |pool| then (DeleteFrom(pool[f := Record(key, value)], f + 1, {key}), Done)
        else if |DistinctKeys(pool)| < MAX_UNIQUE_KEYS then (pool + [Record(key, value)], Done)
        else (pool, TooManyKeys)
    case DumpAll => (pool, Dumped(l.out + pool[l.i..]))
  }

  /** How many steps are left: every operation ends once it is inside. */
  function Remaining(op: Op, l: Local, pool: seq<Record>): int {
    match op
    case AppendBatch(records) => |records| - l.i
    case LoadAll(records) => |records| - l.i + (if l.truncated then 0 else 1)
    case ClearAll => if l.truncated then 0 else 1
    case DeleteKeys(_) => 2 * (|pool| - l.i) - (if l.moved then 1 else 0)
    case InsertOne(_, _) =>
      2 * (|pool| - l.i) - (if l.moved then 1 else 0) + (if l.found then 0 else 3)
    case DumpAll => |pool| - l.i
  }

  lemma OutcomeAtStart(op: Op, pool: seq<Record>)
    ensures LocalOk(op, START, pool) && Outcome(op, START, pool) == Apply(op, pool)
  {
    if op.AppendBatch? {
      assert op.records[0..] == op.records;
    } else if op.DumpAll? {
      assert [] + pool[0..] == pool;
    }
  }

  /** A step keeps the operation going, leads to the same outcome and comes closer to it. */
  predicate Leads(op: Op, l: Local, pool: seq<Record>)
    requires LocalOk(op, l, pool) && !Finished(op, l, pool) && !MeetsBad(op, l, pool)
  {
    var (l', pool') := Work(op, l, pool);
    && LocalOk(op, l', pool')
    && Outcome(op, l', pool') == Outcome(op, l, pool)
    && Remaining(op, l', pool') < Remaining(op, l, pool)
    && 0 < Remaining(op, l, pool)
    && (op.DumpAll? ==> pool' == pool)
  }

  lemma WalkWorkKeepsOutcome(l: Local, pool: seq<Record>, keys: set<Text>)
    requires if l.moved then l.i + 1 < |pool| else l.i < |pool|
    ensures var (l', pool') := WalkWork(l, pool, keys);
            && (l'.moved ==> Doubled(l'.i, pool'))
            && DeleteFrom(Settled(l', pool'), l'.i, keys) == DeleteFrom(Settled(l, pool), l.i, keys)
            && l'.removed + |pool'| == l.removed + |pool|
            && 2 * (|pool'| - l'.i) - (if l'.moved then 1 else 0) < 2 * (|pool| - l.i) - (if l.moved then 1 else 0)
  {
    if !l.moved && pool[l.i].key in keys && l.i == |pool| - 1 {
      assert SwapRemove(pool, l.i) == pool[..|pool| - 1];
    }
  }

  lemma SearchLeads(key: Text, value: Text, l: Local, pool: seq<Record>)
    requires var op := InsertOne(key, value);
             LocalOk(op, l, pool) && !Finished(op, l, pool) && !MeetsBad(op, l, pool) && !l.found
    ensures Leads(InsertOne(key, value), l, pool)
  {
    hide DeleteFrom, DistinctKeys, Decodes;
    FirstIndexFrom(pool, key, l.i);
    NothingBehind(pool + [Record(key, value)], {key});
  }

  lemma FirstIndexFrom(pool: seq<Record>, key: Text, i: nat)
    requires i <= |pool|
    ensures FirstIndex(pool, key, i) ==
            if i < |pool| && pool[i].key != key then FirstIndex(pool, key, i + 1) else i
  {
  }

  lemma NothingBehind(pool: seq<Record>, keys: set<Text>)
    ensures DeleteFrom(pool, |pool|, keys) == pool
  {
  }

  lemma OneMoved(done: seq<Record>, from: seq<Record>, i: nat)
    requires i < |from|
    ensures done + [from[i]] + from[i + 1..] == done + from[i..]
  {
  }

  lemma BatchLeads(records: seq<Record>, l: Local, pool: seq<Record>)
    ensures var op := AppendBatch(records); LocalOk(op, l, pool) && !Finished(op, l, pool) ==> Leads(op, l, pool)
    ensures var op := LoadAll(records); LocalOk(op, l, pool) && !Finished(op, l, pool) ==> Leads(op, l, pool)
  {
    if l.i < |records| {
      OneMoved(pool, records, l.i);
    }
    assert [] + records[0..] == records;
  }

  lemma DumpLeads(l: Local, pool: seq<Record>)
    requires l.i < |pool| && Decodes(pool[l.i]) && AllDecode(l.out)
    ensures Leads(DumpAll, l, pool)
  {
    OneMoved(l.out, pool, l.i);
  }

  lemma WalkLeads(op: Op, l: Local, pool: seq<Record>)
    requires LocalOk(op, l, pool) && !Finished(op, l, pool) && !MeetsBad(op, l, pool)
    requires op.DeleteKeys? || (op.InsertOne? && l.found)
    ensures Leads(op, l, pool)
  {
    hide DeleteFrom, Settled, DistinctKeys;
    WalkWorkKeepsOutcome(l, pool, if op.DeleteKeys? then op.keys else {op.key});
  }

  /** Every step of an operation leads to the same outcome and comes closer to it. */
  lemma WorkKeepsOutcome(op: Op, l: Local, pool: seq<Record>)
    requires LocalOk(op, l, pool) && !Finished(op, l, pool) && !MeetsBad(op, l, pool)
    ensures Leads(op, l, pool)
  {
    match op
    case AppendBatch(records) => BatchLeads(records, l, pool);
    case LoadAll(records) => BatchLeads(records, l, pool);
    case ClearAll =>
    case DeleteKeys(keys) => WalkLeads(op, l, pool);
    case InsertOne(key, value) =>
      if l.found {
        WalkLeads(op, l, pool);
      } else {
        hide DeleteFrom, DistinctKeys;
        SearchLeads(key, value, l, pool);
      }
    case DumpAll => DumpLeads(l, pool);
  }

  lemma OutcomeAtEnd(op: Op, l: Local, pool: seq<Record>)
    requires LocalOk(op, l, pool) && Finished(op, l, pool)
    ensures Outcome(op, l, pool) == (pool, ResultOf(op, l))
    ensures op.DumpAll? ==> AllDecode(ResultOf(op, l).records)
  {
    match op
    case AppendBatch(records) =>
      assert pool + records[l.i..] == pool;
    case LoadAll(records) =>
      assert pool + records[l.i..] == pool;
    case DumpAll =>
      assert l.out + pool[l.i..] == l.out;
    case _ =>
  }

  // Readability.

  /** What the operation writes is UTF-8, as the source's string types guarantee. */
  ghost predicate WritesReadable(op: Op) {
    match op
    case AppendBatch(records) => AllDecode(records)
    case LoadAll(records) => AllDecode(records)
    case InsertOne(key, value) => Decodes(Record(key, value))
    case _ => true
  }

  /** A pool that every operation can read stays one. */
  lemma WorkKeepsReadable(op: Op, l: Local, pool: seq<Record>)
    requires LocalOk(op, l, pool) && !Finished(op, l, pool) && AllDecode(pool) && WritesReadable(op)
    ensures !MeetsBad(op, l, pool) && AllDecode(Work(op, l, pool).1)
  {
    hide Decodes, DistinctKeys;
  }

  // The states an operation passes through.

  datatype Point = Point(local: Local, pool: seq<Record>)

  predicate StepsTo(op: Op, a: Point, b: Point) {
    && LocalOk(op, a.local, a.pool) && !Finished(op, a.local, a.pool) && !MeetsBad(op, a.local, a.pool)
    && Work(op, a.local, a.pool) == (b.local, b.pool)
  }

  /** The operation, from `was`, step by step. */
  ghost predicate IsTrace(op: Op, was: seq<Record>, trace: seq<Point>) {
    && trace != [] && trace[0] == Point(START, was)
    && forall i :: 0 <= i < |trace| - 1 ==> StepsTo(op, trace[i], trace[i + 1])
  }

  /** Undisturbed from `was`, the operation gets to `l` and leaves the pool `now` there. */
  ghost predicate Reached(op: Op, was: seq<Record>, l: Local, now: seq<Record>) {
    exists trace :: IsTrace(op, was, trace) && trace[|trace| - 1] == Point(l, now)
  }

  /** `now` is what the operation leaves when it is cut short somewhere. */
  ghost predicate Interrupted(op: Op, was: seq<Record>, now: seq<Record>) {
    exists l :: Reached(op, was, l, now)
  }

  lemma ReachedStart(op: Op, was: seq<Record>)
    ensures Reached(op, was, START, was) && Interrupted(op, was, was)
  {
    assert IsTrace(op, was, [Point(START, was)]);
  }

  lemma ReachedStep(op: Op, was: seq<Record>, l: Local, now: seq<Record>, l': Local, now': seq<Record>)
    requires Reached(op, was, l, now) && StepsTo(op, Point(l, now), Point(l', now'))
    ensures Reached(op, was, l', now')
  {
    hide StepsTo;
    var trace :| IsTrace(op, was, trace) && trace[|trace| - 1] == Point(l, now);
    assert IsTrace(op, was, trace + [Point(l', now')]);
  }

  lemma {:induction false} TraceOutcome(op: Op, was: seq<Record>, trace: seq<Point>)
    requires IsTrace(op, was, trace)
    ensures var p := trace[|trace| - 1];
            LocalOk(op, p.local, p.pool) && Outcome(op, p.local, p.pool) == Apply(op, was)
    decreases |trace|
  {
    hide Outcome, Apply, Work;
    if |trace| == 1 {
      OutcomeAtStart(op, was);
    } else {
      var before := trace[..|trace| - 1];
      assert IsTrace(op, was, before);
      TraceOutcome(op, was, before);
      var p := before[|before| - 1];
      assert StepsTo(op, p, trace[|trace| - 1]);
      WorkKeepsOutcome(op, p.local, p.pool);
    }
  }

  /** Wherever it gets to, its outcome is still that of the atomic action. */
  lemma ReachedOutcome(op: Op, was: seq<Record>, l: Local, now: seq<Record>)
    requires Reached(op, was, l, now)
    ensures LocalOk(op, l, now) && Outcome(op, l, now) == Apply(op, was)
  {
    var trace :| IsTrace(op, was, trace) && trace[|trace| - 1] == Point(l, now);
    TraceOutcome(op, was, trace);
  }

  /** The records an operation removes or replaces. */
  function Targets(op: Op): set<Text>
    requires op.DeleteKeys? || op.InsertOne?
  {
    if op.DeleteKeys? then op.keys else {op.key}
  }

  lemma SettledOthers(l: Local, now: seq<Record>, keys: set<Text>)
    requires l.moved ==> Doubled(l.i, now)
    ensures Others(now, keys) ==
            Others(Settled(l, now), keys) +
            if l.moved && now[|now| - 1].key !in keys then multiset{now[|now| - 1]} else multiset{}
  {
    if l.moved {
      OthersDropLast(now, keys);
      OthersOne(now[|now| - 1], keys);
    }
  }

  /** A walk keeps the untargeted records all along. */
  lemma ReachedSettled(op: Op, was: seq<Record>, l: Local, now: seq<Record>)
    requires (op.DeleteKeys? || op.InsertOne?) && Reached(op, was, l, now)
    ensures l.moved ==> Doubled(l.i, now)
    ensures Others(Settled(l, now), Targets(op)) == Others(was, Targets(op))
  {
    hide Others, Reached, DeleteFrom, DistinctKeys;
    ReachedOutcome(op, was, l, now);
    var keys, settled := Targets(op), Settled(l, now);
    ApplyOthers(op, was);
    if op.DeleteKeys? || l.found {
      WalkOthers(settled, l.i, keys);
    } else {
      SearchOthers(op.key, op.value, l, now);
    }
  }

  lemma WalkOthers(rs: seq<Record>, i: nat, keys: set<Text>)
    ensures Others(DeleteFrom(rs, i, keys), keys) == Others(rs, keys)
  {
    if i <= |rs| {
      DeleteFromFilters(rs, i, keys);
    }
  }

  lemma SearchOthers(key: Text, value: Text, l: Local, now: seq<Record>)
    requires !l.found && LocalOk(InsertOne(key, value), l, now)
    ensures Others(Outcome(InsertOne(key, value), l, now).0, {key}) == Others(now, {key})
  {
    hide Others, DeleteFrom, DistinctKeys, FirstIndex;
    var f := FirstIndex(now, key, l.i);
    if f < |now| {
      OverwriteOthers(now, f, Record(key, value), {key});
      WalkOthers(now[f := Record(key, value)], f + 1, {key});
    }
    AbsentInsertKeeps(now, key, value);
  }

  lemma ApplyOthers(op: Op, was: seq<Record>)
    requires op.DeleteKeys? || op.InsertOne?
    ensures Others(Apply(op, was).0, Targets(op)) == Others(was, Targets(op))
  {
    if op.DeleteKeys? {
      WalkOthers(was, 0, op.keys);
    } else {
      InsertRefines(was, op.key, op.value);
    }
  }

  /** Cut short anywhere, a walk has lost no untargeted record, and has at most its last one twice. */
  lemma InterruptedOthers(op: Op, was: seq<Record>, now: seq<Record>)
    requires (op.DeleteKeys? || op.InsertOne?) && Interrupted(op, was, now)
    ensures
      || Others(now, Targets(op)) == Others(was, Targets(op))
      || (&& |now| > 1 && now[|now| - 1] in now[..|now| - 1]
          && Others(now, Targets(op)) == Others(was, Targets(op)) + multiset{now[|now| - 1]})
  {
    var l :| Reached(op, was, l, now);
    ReachedSettled(op, was, l, now);
    SettledOthers(l, now, Targets(op));
    assert l.moved ==> now[..|now| - 1][l.i] == now[|now| - 1];
  }

  lemma PassSteps(op: Op, l: Local, pool: seq<Record>)
    requires LocalOk(op, l, pool) && !l.moved && l.i < |pool| && Decodes(pool[l.i])
    requires (op.DeleteKeys? || op.InsertOne?) && pool[l.i].key !in Targets(op)
    ensures StepsTo(op, Point(l, pool), Point(l.(i := l.i + 1), pool))
  {
    hide Decodes, DistinctKeys;
  }

  /** How a walk passes a record. */
  lemma PassReached(op: Op, was: seq<Record>, l: Local, pool: seq<Record>)
    requires Reached(op, was, l, pool) && !l.moved && l.i < |pool| && Decodes(pool[l.i])
    requires (op.DeleteKeys? || op.InsertOne?) && pool[l.i].key !in Targets(op)
    ensures Reached(op, was, l.(i := l.i + 1), pool)
  {
    hide *;
    ReachedOutcome(op, was, l, pool);
    PassSteps(op, l, pool);
    ReachedStep(op, was, l, pool, l.(i := l.i + 1), pool);
  }

  lemma RemoveSteps(op: Op, l: Local, pool: seq<Record>)
    requires LocalOk(op, l, pool) && !l.moved && l.i < |pool| && Decodes(pool[l.i])
    requires (op.DeleteKeys? || (op.InsertOne? && l.found)) && pool[l.i].key in Targets(op)
    ensures var half, done := Point(l.(moved := true), MoveLast(pool, l.i)),
                              Point(l.(removed := l.removed + 1), SwapRemove(pool, l.i));
            if l.i == |pool| - 1 then StepsTo(op, Point(l, pool), done) && MoveLast(pool, l.i) == pool
            else StepsTo(op, Point(l, pool), half) && StepsTo(op, half, done)
  {
    hide Decodes, DistinctKeys;
  }

  /** How a walk removes a record: a move, unless it is the last one, and a truncation. */
  lemma RemoveReached(op: Op, was: seq<Record>, l: Local, pool: seq<Record>)
    requires Reached(op, was, l, pool) && !l.moved && l.i < |pool| && Decodes(pool[l.i])
    requires (op.DeleteKeys? || (op.InsertOne? && l.found)) && pool[l.i].key in Targets(op)
    ensures Reached(op, was, l.(removed := l.removed + 1), SwapRemove(pool, l.i))
    ensures Interrupted(op, was, pool) && Interrupted(op, was, MoveLast(pool, l.i))
  {
    hide Reached, StepsTo, LocalOk, Outcome, Apply, MoveLast, SwapRemove, Targets;
    ReachedOutcome(op, was, l, pool);
    RemoveSteps(op, l, pool);
    var half, done := l.(moved := true), l.(removed := l.removed + 1);
    if l.i == |pool| - 1 {
      ReachedStep(op, was, l, pool, done, SwapRemove(pool, l.i));
    } else {
      ReachedStep(op, was, l, pool, half, MoveLast(pool, l.i));
      ReachedStep(op, was, half, MoveLast(pool, l.i), done, SwapRemove(pool, l.i));
    }
  }

  lemma UpdateSteps(key: Text, value: Text, l: Local, pool: seq<Record>)
    requires LocalOk(InsertOne(key, value), l, pool) && !l.found && l.i < |pool| && Decodes(pool[l.i])
    requires pool[l.i].key == key
    ensures StepsTo(InsertOne(key, value), Point(l, pool),
                    Point(l.(i := l.i + 1, found := true), pool[l.i := Record(key, value)]))
  {
    hide Decodes, DistinctKeys;
  }

  /** How an insert meets its key. */
  lemma UpdateReached(key: Text, value: Text, was: seq<Record>, l: Local, pool: seq<Record>)
    requires Reached(InsertOne(key, value), was, l, pool) && !l.found && l.i < |pool| && Decodes(pool[l.i])
    requires pool[l.i].key == key
    ensures Reached(InsertOne(key, value), was, l.(i := l.i + 1, found := true), pool[l.i := Record(key, value)])
  {
    hide *;
    ReachedOutcome(InsertOne(key, value), was, l, pool);
    UpdateSteps(key, value, l, pool);
    ReachedStep(InsertOne(key, value), was, l, pool, l.(i := l.i + 1, found := true), pool[l.i := Record(key, value)]);
  }

  lemma AppendSteps(key: Text, value: Text, l: Local, pool: seq<Record>)
    requires LocalOk(InsertOne(key, value), l, pool) && !l.found && l.i == |pool|
    requires |DistinctKeys(pool)| < MAX_UNIQUE_KEYS
    ensures StepsTo(InsertOne(key, value), Point(l, pool),
                    Point(l.(i := l.i + 1, found := true), pool + [Record(key, value)]))
  {
    hide DistinctKeys;
  }

  /** How an insert appends a key it has not met. */
  lemma InsertAppendReached(key: Text, value: Text, was: seq<Record>, l: Local, pool: seq<Record>)
    requires Reached(InsertOne(key, value), was, l, pool) && !l.found && l.i == |pool|
    requires |DistinctKeys(pool)| < MAX_UNIQUE_KEYS
    ensures Interrupted(InsertOne(key, value), was, pool + [Record(key, value)])
  {
    hide Reached, StepsTo, LocalOk, Outcome, Apply, DistinctKeys;
    ReachedOutcome(InsertOne(key, value), was, l, pool);
    AppendSteps(key, value, l, pool);
    ReachedStep(InsertOne(key, value), was, l, pool, l.(i := l.i + 1, found := true), pool + [Record(key, value)]);
  }

  lemma ClearReached(was: seq<Record>)
    ensures Interrupted(ClearAll, was, [])
  {
    ReachedStart(ClearAll, was);
    assert StepsTo(ClearAll, Point(START, was), Point(START.(truncated := true), []));
    ReachedStep(ClearAll, was, START, was, START.(truncated := true), []);
  }

  /** A batch cut short is a prefix of it behind what was there. */
  lemma {:induction false} BatchReached(records: seq<Record>, was: seq<Record>, n: nat)
    requires n <= |records|
    ensures Reached(AppendBatch(records), was, START.(i := n), was + records[..n])
    ensures Interrupted(AppendBatch(records), was, was + records[..n])
  {
    if n == 0 {
      ReachedStart(AppendBatch(records), was);
      assert was + records[..0] == was;
    } else {
      BatchReached(records, was, n - 1);
      var l, pool := START.(i := n - 1), was + records[..n - 1];
      assert was + records[..n] == pool + [records[n - 1]];
      assert StepsTo(AppendBatch(records), Point(l, pool), Point(START.(i := n), was + records[..n]));
      ReachedStep(AppendBatch(records), was, l, pool, START.(i := n), was + records[..n]);
    }
  }

  /** A replacement cut short is a prefix of it, or what was there. */
  lemma {:induction false} LoadReached(records: seq<Record>, was: seq<Record>, n: nat)
    requires n <= |records|
    ensures Reached(LoadAll(records), was, START.(i := n, truncated := true), records[..n])
    ensures Interrupted(LoadAll(records), was, records[..n])
  {
    var op := LoadAll(records);
    if n == 0 {
      ReachedStart(op, was);
      assert records[..0] == [];
      assert StepsTo(op, Point(START, was), Point(START.(truncated := true), []));
      ReachedStep(op, was, START, was, START.(truncated := true), []);
    } else {
      LoadReached(records, was, n - 1);
      var l, pool := START.(i := n - 1, truncated := true), records[..n - 1];
      assert records[..n] == pool + [records[n - 1]];
      assert StepsTo(op, Point(l, pool), Point(START.(i := n, truncated := true), records[..n]));
      ReachedStep(op, was, l, pool, START.(i := n, truncated := true), records[..n]);
    }
  }
}
