/**
 Delivery through a shared pool: whatever other operations do to other keys, and wherever the
 swaps of deletes leave its chunks, every emitted diagnostic is read back exactly once.
 */
module Delivery {
  import opened Results
  import opened Bytes
  import opened Utf8
  import opened Delimited
  import opened KvpErrors
  import opened PoolLayout
  import opened PoolSpec
  import opened PoolOps
  import opened LockProtocol
  import opened Diagnostics
  import opened Framing
  import Grouping
  import opened Reader
  import opened Writer
  import opened RoundTrip

  /** Is `key` the key of a chunk of group `base`? */
  predicate InBase(key: Text, base: Text) {
    ClassOf(key).Chunk? && ClassOf(key).base == base
  }

  ghost predicate NoneIn(rs: seq<Record>, base: Text) {
    forall r :: r in rs ==> !InBase(r.key, base)
  }

  /** An operation on keys outside group `base`. */
  ghost predicate LeavesAlone(op: Op, base: Text) {
    match op
    case AppendBatch(records) => NoneIn(records, base)
    case LoadAll(_) => false
    case ClearAll => false
    case DeleteKeys(keys) => forall key :: key in keys ==> !InBase(key, base)
    case InsertOne(key, _) => !InBase(key, base)
    case DumpAll => true
  }

  /** The same chunks of group `base`, with multiplicity. */
  ghost predicate SameGroup(a: seq<Record>, b: seq<Record>, base: Text) {
    forall x: Record :: InBase(x.key, base) ==> multiset(a)[x] == multiset(b)[x]
  }

  lemma LeftAlone(op: Op, pool: seq<Record>, base: Text)
    requires LeavesAlone(op, base)
    ensures SameGroup(pool, Apply(op, pool).0, base)
  {
    var after := Apply(op, pool).0;
    match op
    case AppendBatch(records) => AppendedAlone(pool, records, base);
    case DeleteKeys(keys) =>
      DeleteIsFilter(pool, keys);
      forall x: Record | InBase(x.key, base)
        ensures multiset(pool)[x] == multiset(after)[x]
      {
        OthersCount(pool, keys, x);
      }
    case InsertOne(key, value) =>
      InsertRefines(pool, key, value);
      forall x: Record | InBase(x.key, base)
        ensures multiset(pool)[x] == multiset(after)[x]
      {
        OthersCount(pool, {key}, x);
        OthersCount(after, {key}, x);
      }
    case _ =>
  }

  lemma AppendedAlone(pool: seq<Record>, records: seq<Record>, base: Text)
    requires NoneIn(records, base)
    ensures SameGroup(pool, pool + records, base)
  {
    forall x: Record | InBase(x.key, base)
      ensures multiset(records)[x] == 0
    {
      assert x !in records;
    }
  }

  // The group as the reader collects it.

  /** The records whose key satisfies `keep`, in pool order. */
  function Filter(rs: seq<Record>, keep: Text -> bool): seq<Record> {
    if rs == [] then []
    else
      var n := |rs| - 1;
      Filter(rs[..n], keep) + if keep(rs[n].key) then [rs[n]] else []
  }

  lemma {:induction false} FilterCount(rs: seq<Record>, keep: Text -> bool, x: Record)
    ensures multiset(Filter(rs, keep))[x] == if keep(x.key) then multiset(rs)[x] else 0
  {
    if rs != [] {
      var n := |rs| - 1;
      FilterCount(rs[..n], keep, x);
      assert rs == rs[..n] + [rs[n]];
      assert multiset(rs)[x] == multiset(rs[..n])[x] + if rs[n] == x then 1 else 0;
    }
  }

  lemma FilterPermuted(a: seq<Record>, b: seq<Record>, keep: Text -> bool)
    requires forall x: Record :: keep(x.key) ==> multiset(a)[x] == multiset(b)[x]
    ensures multiset(Filter(a, keep)) == multiset(Filter(b, keep))
  {
    forall x: Record
      ensures multiset(Filter(a, keep))[x] == multiset(Filter(b, keep))[x]
    {
      FilterCount(a, keep, x);
      FilterCount(b, keep, x);
    }
  }

  lemma {:induction false} FilterAll(rs: seq<Record>, keep: Text -> bool)
    requires forall i :: 0 <= i < |rs| ==> keep(rs[i].key)
    ensures Filter(rs, keep) == rs
  {
    if rs != [] {
      FilterAll(rs[..|rs| - 1], keep);
    }
  }

  function Keys(base: Text): Text -> bool {
    key => InBase(key, base)
  }

  /** The chunks of group `base`, in pool order. */
  function GroupOf(rs: seq<Record>, base: Text): seq<Record> {
    Filter(rs, Keys(base))
  }

  function PartOf(r: Record): Grouping.Part {
    match ClassOf(r.key)
    case Chunk(_, index) => (index, r.value)
    case _ => (0, r.value)
  }

  function Map<T, U>(f: T -> U, xs: seq<T>): (ys: seq<U>)
    ensures |ys| == |xs|
    ensures forall i :: 0 <= i < |xs| ==> ys[i] == f(xs[i])
  {
    seq(|xs|, i requires 0 <= i < |xs| => f(xs[i]))
  }

  function PartsIn(rs: seq<Record>): seq<Grouping.Part> {
    Map(PartOf, rs)
  }

  lemma Extract<T>(b: seq<T>, x: T) returns (k: nat)
    requires x in b
    ensures k < |b| && b[k] == x && multiset(b[..k] + b[k + 1..]) == multiset(b) - multiset{x}
  {
    k :| 0 <= k < |b| && b[k] == x;
    assert b == b[..k] + [b[k]] + b[k + 1..];
  }

  lemma MapWithout<T, U>(f: T -> U, b: seq<T>, k: nat)
    requires k < |b|
    ensures multiset(Map(f, b)) == multiset{f(b[k])} + multiset(Map(f, b[..k] + b[k + 1..]))
  {
    assert Map(f, b) == Map(f, b[..k]) + [f(b[k])] + Map(f, b[k + 1..]);
    assert Map(f, b[..k] + b[k + 1..]) == Map(f, b[..k]) + Map(f, b[k + 1..]);
  }

  /** A permutation stays one under a map. */
  lemma {:induction false} MapPermuted<T, U>(f: T -> U, a: seq<T>, b: seq<T>)
    requires multiset(a) == multiset(b)
    ensures multiset(Map(f, a)) == multiset(Map(f, b))
    decreases |a|
  {
    assert |a| == |multiset(a)| == |multiset(b)| == |b|;
    if a != [] {
      assert a[0] in multiset(b);
      var j := Extract(a, a[0]);
      var k := Extract(b, a[0]);
      MapWithout(f, a, j);
      MapWithout(f, b, k);
      MapPermuted(f, a[..j] + a[j + 1..], b[..k] + b[k + 1..]);
    }
  }

  lemma {:induction false} PartsOfSnoc(ms: seq<Grouping.Placed>, m: Grouping.Placed)
    ensures Grouping.PartsOf(ms + [m]) == Grouping.PartsOf(ms) + [m.part]
  {
    if ms == [] {
      assert ([] + [m])[1..] == [];
    } else {
      PartsOfSnoc(ms[1..], m);
      assert (ms + [m])[1..] == ms[1..] + [m];
    }
  }

  lemma {:induction false} MembersAreGroup(rs: seq<Record>, n: nat, base: Text, libs: Libraries)
    requires n <= |rs|
    ensures Grouping.PartsOf(Grouping.Members(Items(rs, libs), n, base)) == PartsIn(GroupOf(rs[..n], base))
  {
    hide ClassOf, OwnEntry;
    if n > 0 {
      var items := Items(rs, libs);
      MembersAreGroup(rs, n - 1, base, libs);
      assert rs[..n][..n - 1] == rs[..n - 1];
      if Grouping.InGroup(items[n - 1], base) {
        PartsOfSnoc(Grouping.Members(items, n - 1, base),
                    Grouping.Placed(n - 1, items[n - 1].record, items[n - 1].part));
      }
    }
  }

  // One group.

  /** The records of an emitted diagnostic are all of one group, numbered from 0. */
  lemma EmittedGroup(d: Diagnostic, settings: Settings, libs: Libraries)
    requires Typed(d) && PreparedRecords(d, settings, libs).Ok?
    ensures var rs := PreparedRecords(d, settings, libs).value;
            var base := BaseKey(d, d.key.vmId.value, settings, libs);
            && PartsIn(rs) == FrameParts(Greedy(CheckedValue(d, settings, libs).value), 0)
            && forall i :: 0 <= i < |rs| ==> InBase(rs[i].key, base)
  {
    hide Typed, CheckedValue, BaseKey, Greedy, ClassOf, FirstLongKey;
    PreparedChecked(d, settings, libs);
    var rs := PreparedRecords(d, settings, libs).value;
    var base := BaseKey(d, d.key.vmId.value, settings, libs);
    var chunks := Greedy(CheckedValue(d, settings, libs).value);
    forall i | 0 <= i < |rs|
      ensures ClassOf(rs[i].key) == Chunk(base, i) && rs[i].value == chunks[i]
    {
      FrameAt(base, chunks, 0, i);
      ChunkClass(d, settings, libs, i);
    }
  }

  /** A group that agrees with the emitted records holds their parts, in some order. */
  lemma GroupPermutes(rs: seq<Record>, emitted: seq<Record>, base: Text, libs: Libraries)
    requires SameGroup(emitted, rs, base)
    requires forall i :: 0 <= i < |emitted| ==> InBase(emitted[i].key, base)
    ensures multiset(Grouping.PartsOf(Grouping.Members(Items(rs, libs), |rs|, base))) == multiset(PartsIn(emitted))
  {
    var keep := Keys(base);
    assert forall key :: keep(key) == InBase(key, base);
    FilterAll(emitted, keep);
    FilterPermuted(emitted, rs, keep);
    MapPermuted(PartOf, emitted, Filter(rs, keep));
    assert rs[..|rs|] == rs;
    MembersAreGroup(rs, |rs|, base, libs);
  }

  /** Wherever its chunks stand, a complete group decodes to the diagnostic that was emitted. */
  lemma GroupReads(rs: seq<Record>, d: Diagnostic, settings: Settings, libs: Libraries)
    requires Typed(d) && Renders(libs) && Faithful(d, settings, libs) && PreparedRecords(d, settings, libs).Ok?
    requires SameGroup(PreparedRecords(d, settings, libs).value, rs, BaseKey(d, d.key.vmId.value, settings, libs))
    ensures var base := BaseKey(d, d.key.vmId.value, settings, libs);
            && Grouping.GroupResult(Items(rs, libs), base, Decoder(libs)) == Ok(ReadBack(d, settings, libs))
            && Grouping.Members(Items(rs, libs), |rs|, base) != []
  {
    hide Filter, FrameParts, DecodeGroup, ReadBack, Faithful, Renders, Typed, SameGroup, InBase;
    var emitted := PreparedRecords(d, settings, libs).value;
    var base := BaseKey(d, d.key.vmId.value, settings, libs);
    EmittedGroup(d, settings, libs);
    GroupPermutes(rs, emitted, base, libs);
    var members := Grouping.Members(Items(rs, libs), |rs|, base);
    GroupDecodes(d, settings, libs, Grouping.PartsOf(members));
    assert |members| == |multiset(Grouping.PartsOf(members))| == |multiset(PartsIn(emitted))| == |emitted|;
  }

  lemma PartsInPrefix(rs: seq<Record>, chunks: seq<Text>, n: nat)
    requires n <= |rs| && PartsIn(rs) == FrameParts(chunks, 0)
    ensures n <= |chunks| && PartsIn(rs[..n]) == FrameParts(chunks[..n], 0) && |PartsIn(rs[..n])| == n
    ensures multiset(PartsIn(rs[..n])) <= multiset(FrameParts(chunks, 0))
  {
    hide PartOf;
    assert PartsIn(rs) == PartsIn(rs[..n]) + PartsIn(rs)[n..];
  }

  /** A group of which only the first `n` chunks were written decodes to what those do. */
  lemma CutGroupReads(rs: seq<Record>, d: Diagnostic, settings: Settings, libs: Libraries, n: nat)
    requires Typed(d) && Renders(libs) && Faithful(d, settings, libs) && PreparedRecords(d, settings, libs).Ok?
    requires 0 < n <= |PreparedRecords(d, settings, libs).value|
    requires SameGroup(PreparedRecords(d, settings, libs).value[..n], rs, BaseKey(d, d.key.vmId.value, settings, libs))
    ensures var base := BaseKey(d, d.key.vmId.value, settings, libs);
            var value := CheckedValue(d, settings, libs).value;
            && n <= |Greedy(value)|
            && Grouping.GroupResult(Items(rs, libs), base, Decoder(libs)) ==
               CutDown(ReadBack(d, settings, libs), value, n, libs)
            && Grouping.Members(Items(rs, libs), |rs|, base) != []
  {
    hide *;
    PreparedChecked(d, settings, libs);
    var emitted, beginning := PreparedRecords(d, settings, libs).value, PreparedRecords(d, settings, libs).value[..n];
    var base := BaseKey(d, d.key.vmId.value, settings, libs);
    var chunks := Greedy(CheckedValue(d, settings, libs).value);
    EmittedGroup(d, settings, libs);
    assert forall i :: 0 <= i < n ==> beginning[i] == emitted[i];
    GroupPermutes(rs, beginning, base, libs);
    PartsInPrefix(emitted, chunks, n);
    var parts := Grouping.PartsOf(Grouping.Members(Items(rs, libs), |rs|, base));
    assert |parts| == |multiset(parts)| == |multiset(PartsIn(beginning))| == n;
    LostChunksExactly(d, settings, libs, parts);
    GroupResultIs(rs, base, libs);
  }

  lemma GroupResultIs(rs: seq<Record>, base: Text, libs: Libraries)
    ensures Grouping.GroupResult(Items(rs, libs), base, Decoder(libs)) ==
            DecodeGroup(base, Grouping.PartsOf(Grouping.Members(Items(rs, libs), |rs|, base)), libs)
  {
  }

  /** Exactly one position of group `base` has an entry; the entry is `entry`, and it is output. */
  ghost predicate DeliveredOnce(rs: seq<Record>, base: Text, entry: Entry, libs: Libraries) {
    && entry in DecodedEntries(rs, libs)
    && exists q :: 0 <= q < |rs| && DeliveredAt(rs, base, entry, libs, q)
  }

  ghost predicate DeliveredAt(rs: seq<Record>, base: Text, entry: Entry, libs: Libraries, q: nat)
    requires q < |rs|
  {
    && InBase(rs[q].key, base)
    && forall p :: 0 <= p < |rs| && InBase(rs[p].key, base) ==>
         Grouping.EntryAt(Items(rs, libs), p, Decoder(libs)) == if p == q then Some(entry) else None
  }

  lemma {:induction false} Stripped(placed: seq<(nat, Entry)>, p: nat, entry: Entry)
    requires (p, entry) in placed
    ensures entry in Grouping.Strip(placed)
  {
    if placed[0] == (p, entry) {
      assert Grouping.Strip(placed)[0] == entry;
    } else {
      Stripped(placed[1..], p, entry);
    }
  }

  lemma DecodedGroupDelivers(rs: seq<Record>, base: Text, d: Diagnostic, libs: Libraries)
    requires Grouping.GroupResult(Items(rs, libs), base, Decoder(libs)) == Ok(d)
    requires Grouping.Members(Items(rs, libs), |rs|, base) != []
    ensures DeliveredOnce(rs, base, DiagnosticEntry(d), libs)
  {
    var items, decode := Items(rs, libs), Decoder(libs);
    var q := Grouping.Members(items, |rs|, base)[0].position;
    Grouping.FirstMember(items, |rs|, base);
    forall p | 0 <= p < |rs| && InBase(rs[p].key, base)
      ensures Grouping.EntryAt(items, p, decode) == if p == q then Some(DiagnosticEntry(d)) else None
    {
      assert Grouping.InGroup(items[p], base);
      if p != q {
        Grouping.MemberShows(items, p, q);
      }
    }
    assert DeliveredAt(rs, base, DiagnosticEntry(d), libs, q);
    Grouping.OutputIsEntries(items, |items|, decode, q, DiagnosticEntry(d));
    Stripped(Grouping.PlacedEntries(items, |items|, decode), q, DiagnosticEntry(d));
  }

  // Histories.

  /** A diagnostic and the settings of the writer that emits it. */
  datatype Sending = Sending(d: Diagnostic, settings: Settings) {
    function Base(libs: Libraries): Text {
      if d.key.vmId.Some? then BaseKey(d, d.key.vmId.value, settings, libs) else []
    }

    ghost predicate Faithful(libs: Libraries) {
      Writer.Faithful(d, settings, libs)
    }

    /** The diagnostic as a reader should see it. */
    function Read(libs: Libraries): Diagnostic {
      ReadBack(d, settings, libs)
    }
  }

  /** The event is an emission, completed or cut short. */
  ghost predicate Emission(e: Event, m: Sending, libs: Libraries) {
    && Typed(m.d) && PreparedRecords(m.d, m.settings, libs).Ok?
    && !e.Wrote? && e.op == AppendBatch(PreparedRecords(m.d, m.settings, libs).value)
  }

  /** How many records of its batch the event has left in the pool. */
  function SentCount(e: Event): nat
    requires !e.Wrote? && e.op.AppendBatch?
  {
    if e.Completed? then |e.op.records| else e.at.i
  }

  /** The event is a removal of other keys cut short just where it has copied a chunk of group `base`. */
  predicate Doubles(e: Event, base: Text) {
    && e.Aborted? && (e.op.DeleteKeys? || e.op.InsertOne?) && e.at.moved
    && e.left != [] && InBase(e.left[|e.left| - 1].key, base)
  }

  /** An operation outside group `base`, completed or cut short, but not so as to double a chunk. */
  ghost predicate EventLeavesAlone(e: Event, base: Text) {
    !e.Wrote? && LeavesAlone(e.op, base) && !Doubles(e, base)
  }

  /** What a removal cut short does to the multiplicity of a record it does not target. */
  lemma AbortedCount(op: Op, was: seq<Record>, at: Local, left: seq<Record>, x: Record)
    requires (op.DeleteKeys? || op.InsertOne?) && Reached(op, was, at, left) && x.key !in Targets(op)
    ensures at.moved ==> left != []
    ensures multiset(left)[x] == multiset(was)[x] + if at.moved && left[|left| - 1] == x then 1 else 0
  {
    hide Reached, Others, Settled;
    ReachedSettled(op, was, at, left);
    SettledOthers(at, left, Targets(op));
    OthersCount(was, Targets(op), x);
    OthersCount(left, Targets(op), x);
  }

  /** An operation outside the group, cut short, keeps the group exactly when it doubles no chunk of it. */
  lemma AbortedExactly(e: Event, pool: seq<Record>, base: Text)
    requires e.Aborted? && Explained(pool, e) && LeavesAlone(e.op, base)
    ensures SameGroup(pool, e.left, base) <==> !Doubles(e, base)
  {
    hide Reached, InBase;
    match e.op
    case AppendBatch(records) =>
      AbortedBatch(records, pool, e.at, e.left);
      AppendedAlone(pool, records[..e.at.i], base);
    case LoadAll(_) =>
    case ClearAll =>
    case DumpAll => ReachedOutcome(e.op, pool, e.at, e.left);
    case DeleteKeys(_) => AbortedRemoval(e, pool, base);
    case InsertOne(_, _) => AbortedRemoval(e, pool, base);
  }

  lemma AbortedRemoval(e: Event, pool: seq<Record>, base: Text)
    requires e.Aborted? && (e.op.DeleteKeys? || e.op.InsertOne?) && Reached(e.op, pool, e.at, e.left)
    requires LeavesAlone(e.op, base)
    ensures SameGroup(pool, e.left, base) <==> !Doubles(e, base)
  {
    hide Reached, InBase;
    forall x: Record | InBase(x.key, base)
      ensures e.at.moved ==> e.left != []
      ensures multiset(e.left)[x] == multiset(pool)[x] + if e.at.moved && e.left[|e.left| - 1] == x then 1 else 0
    {
      AbortedCount(e.op, pool, e.at, e.left, x);
    }
    if Doubles(e, base) {
      var last := e.left[|e.left| - 1];
      assert multiset(e.left)[last] == multiset(pool)[last] + 1;
    }
  }

  /** A group that holds one of its chunks twice fails, and its records come back raw. */
  lemma DoubledGroupFails(rs: seq<Record>, m: Sending, libs: Libraries, x: Record)
    requires Typed(m.d) && Renders(libs) && m.Faithful(libs) && PreparedRecords(m.d, m.settings, libs).Ok?
    requires x in PreparedRecords(m.d, m.settings, libs).value
    requires SameGroup(PreparedRecords(m.d, m.settings, libs).value + [x], rs, m.Base(libs))
    ensures Grouping.GroupResult(Items(rs, libs), m.Base(libs), Decoder(libs)) == Err(DuplicateChunk)
  {
    hide Typed, Renders, Faithful, CheckedValue, PreparedRecords, SameGroup, InBase, BaseKey, PartOf, DecodeGroup;
    PreparedChecked(m.d, m.settings, libs);
    var records, base := PreparedRecords(m.d, m.settings, libs).value, m.Base(libs);
    EmittedGroup(m.d, m.settings, libs);
    assert forall i :: 0 <= i < |records| ==> (records + [x])[i] == records[i];
    GroupPermutes(rs, records + [x], base, libs);
    var parts := Grouping.PartsOf(Grouping.Members(Items(rs, libs), |rs|, base));
    var k :| 0 <= k < |records| && records[k] == x;
    assert PartsIn(records + [x])[k] == PartsIn(records + [x])[|records|];
    IndexTwicePermuted(PartsIn(records + [x]), parts);
    TwiceFails(m.d, m.settings, libs, parts);
    GroupResultIs(rs, base, libs);
  }

  lemma FailedGroupDeliversNothing(rs: seq<Record>, base: Text, d: Diagnostic, libs: Libraries)
    requires Grouping.GroupResult(Items(rs, libs), base, Decoder(libs)).Err?
    ensures !DeliveredOnce(rs, base, DiagnosticEntry(d), libs)
  {
    hide Grouping.GroupResult, DecodedEntries;
    forall q | 0 <= q < |rs| && InBase(rs[q].key, base)
      ensures Grouping.EntryAt(Items(rs, libs), q, Decoder(libs)) != Some(DiagnosticEntry(d))
    {
    }
  }

  /**
   A delete or insert of other keys, cut short in a pool that holds the whole diagnostic: it still
   comes back exactly once if and only if no chunk of it was left twice; otherwise it fails.
   */
  lemma CutShortRemoval(e: Event, pool: seq<Record>, m: Sending, libs: Libraries)
    requires Typed(m.d) && Renders(libs) && m.Faithful(libs) && PreparedRecords(m.d, m.settings, libs).Ok?
    requires SameGroup(PreparedRecords(m.d, m.settings, libs).value, pool, m.Base(libs))
    requires e.Aborted? && (e.op.DeleteKeys? || e.op.InsertOne?) && Explained(pool, e)
    requires LeavesAlone(e.op, m.Base(libs))
    ensures DeliveredOnce(e.left, m.Base(libs), DiagnosticEntry(m.Read(libs)), libs) <==> !Doubles(e, m.Base(libs))
    ensures Doubles(e, m.Base(libs)) ==>
              Grouping.GroupResult(Items(e.left, libs), m.Base(libs), Decoder(libs)) == Err(DuplicateChunk)
  {
    hide Typed, Renders, Faithful, CheckedValue, PreparedRecords, InBase, BaseKey, ReadBack, Reached, LeavesAlone;
    hide DeliveredOnce;
    PreparedChecked(m.d, m.settings, libs);
    var base, records := m.Base(libs), PreparedRecords(m.d, m.settings, libs).value;
    if Doubles(e, base) {
      var last := e.left[|e.left| - 1];
      DoubledCounts(e, pool, records, base);
      DoubledGroupFails(e.left, m, libs, last);
      FailedGroupDeliversNothing(e.left, base, m.Read(libs), libs);
    } else {
      AbortedRemoval(e, pool, base);
      GroupReads(e.left, m.d, m.settings, libs);
      DecodedGroupDelivers(e.left, base, m.Read(libs), libs);
    }
  }

  lemma DoubledCounts(e: Event, pool: seq<Record>, records: seq<Record>, base: Text)
    requires e.Aborted? && (e.op.DeleteKeys? || e.op.InsertOne?) && Reached(e.op, pool, e.at, e.left)
    requires LeavesAlone(e.op, base) && Doubles(e, base) && SameGroup(records, pool, base)
    ensures var last := e.left[|e.left| - 1]; last in records && SameGroup(records + [last], e.left, base)
  {
    hide InBase;
    var last := e.left[|e.left| - 1];
    forall x: Record | InBase(x.key, base)
      ensures multiset(e.left)[x] == multiset(records + [last])[x]
    {
      AbortedCount(e.op, pool, e.at, e.left, x);
    }
    LastTwice(e, pool);
    assert multiset(e.left)[last] >= 2 && multiset(records)[last] >= 1;
  }

  lemma LastTwice(e: Event, pool: seq<Record>)
    requires e.Aborted? && (e.op.DeleteKeys? || e.op.InsertOne?) && Reached(e.op, pool, e.at, e.left) && e.at.moved
    ensures e.left != [] && multiset(e.left)[e.left[|e.left| - 1]] >= 2
  {
    hide Reached;
    ReachedSettled(e.op, pool, e.at, e.left);
    var i, n := e.at.i, |e.left| - 1;
    assert e.left == e.left[..i] + [e.left[i]] + e.left[i + 1..n] + [e.left[n]];
  }

  lemma OneByteKey(base: Text)
    ensures !InBase([1], base) && Decodes(Record([1], [1]))
  {
    assert Split([1], BAR) == [[1]];
    assert |DIAGNOSTIC_VERSION_ID| == 4;
    AsciiValid([1]);
  }

  lemma RemoveReachedHalf(pool: seq<Record>, key: Text)
    requires |pool| > 1 && pool[0].key == key && Decodes(pool[0])
    ensures Reached(DeleteKeys({key}), pool, START.(moved := true), MoveLast(pool, 0))
  {
    ReachedStart(DeleteKeys({key}), pool);
    RemoveSteps(DeleteKeys({key}), START, pool);
    hide Reached, StepsTo;
    ReachedStep(DeleteKeys({key}), pool, START, pool, START.(moved := true), MoveLast(pool, 0));
  }

  /**
   An input on which it fails: any emitted diagnostic behind one unrelated record, and a delete of
   that record cut short after its first write.
   */
  lemma RemovalBreaksGroup(m: Sending, libs: Libraries)
    requires Typed(m.d) && Renders(libs) && m.Faithful(libs) && PreparedRecords(m.d, m.settings, libs).Ok?
    ensures var x, records := Record([1], [1]), PreparedRecords(m.d, m.settings, libs).value;
            var pool, op := [x] + records, DeleteKeys({[1]});
            var e := Aborted(0, op, START.(moved := true), MoveLast(pool, 0));
            && Explained(pool, e) && LeavesAlone(op, m.Base(libs)) && SameGroup(records, pool, m.Base(libs))
            && Doubles(e, m.Base(libs))
            && !DeliveredOnce(e.left, m.Base(libs), DiagnosticEntry(m.Read(libs)), libs)
  {
    hide Typed, Renders, Faithful, CheckedValue, PreparedRecords, InBase, BaseKey, ReadBack, Reached, LeavesAlone;
    hide DeliveredOnce, Explained, SameGroup, Doubles, MoveLast;
    PreparedChecked(m.d, m.settings, libs);
    SomeRecords(m.d, m.settings, libs);
    EmittedGroup(m.d, m.settings, libs);
    DoublingDelete(PreparedRecords(m.d, m.settings, libs).value, m.Base(libs));
    var pool := [Record([1], [1])] + PreparedRecords(m.d, m.settings, libs).value;
    CutShortRemoval(Aborted(0, DeleteKeys({[1]}), START.(moved := true), MoveLast(pool, 0)), pool, m, libs);
  }

  lemma DoublingDelete(records: seq<Record>, base: Text)
    requires records != [] && forall i :: 0 <= i < |records| ==> InBase(records[i].key, base)
    ensures var pool, op := [Record([1], [1])] + records, DeleteKeys({[1]});
            var e := Aborted(0, op, START.(moved := true), MoveLast(pool, 0));
            && Explained(pool, e) && LeavesAlone(op, base) && SameGroup(records, pool, base) && Doubles(e, base)
  {
    OneByteKey(base);
    hide InBase, Reached;
    var x, pool := Record([1], [1]), [Record([1], [1])] + records;
    AppendedAlone(records, [x], base);
    assert multiset(pool) == multiset(records + [x]);
    RemoveReachedHalf(pool, [1]);
    assert MoveLast(pool, 0)[|pool| - 1] == records[|records| - 1];
  }

  lemma EventKeepsGroup(e: Event, pool: seq<Record>, base: Text)
    requires EventLeavesAlone(e, base) && Explained(pool, e)
    ensures SameGroup(pool, Effect(e, pool), base)
  {
    hide Reached, InBase;
    if e.Completed? {
      LeftAlone(e.op, pool, base);
    } else {
      AbortedExactly(e, pool, base);
    }
  }

  lemma EmissionAdds(e: Event, pool: seq<Record>, m: Sending, libs: Libraries, base: Text)
    requires Emission(e, m, libs) && Explained(pool, e) && SameGroup([], pool, base)
    ensures SentCount(e) <= |e.op.records| && SameGroup(e.op.records[..SentCount(e)], Effect(e, pool), base)
  {
    hide Reached, InBase;
    if e.Aborted? {
      AbortedBatch(e.op.records, pool, e.at, e.left);
    }
    assert Effect(e, pool) == pool + e.op.records[..SentCount(e)];
  }

  /** An event, in the pool `before`, that does not touch the group: another program may write anything else. */
  ghost predicate KeepsGroup(before: seq<Record>, e: Event, base: Text) {
    if e.Wrote? then SameGroup(before, e.pool, base) else EventLeavesAlone(e, base)
  }

  /** What a group holds stays while nothing touches it, whatever happened before. */
  lemma {:induction false} GroupStays(pool: seq<Record>, log: seq<Event>, k: nat, base: Text)
    requires Explains(pool, log) && k <= |log|
    requires forall j :: k <= j < |log| ==> KeepsGroup(Replay(pool, log[..j]), log[j], base)
    ensures SameGroup(Replay(pool, log[..k]), Replay(pool, log), base)
    decreases |log|
  {
    hide KeepsGroup, InBase, Explained;
    if k == |log| {
      assert log[..k] == log;
    } else {
      var n := |log| - 1;
      var before := log[..n];
      ExplainsPrefix(pool, log, n);
      forall j | k <= j < n
        ensures KeepsGroup(Replay(pool, before[..j]), before[j], base)
      {
        assert before[..j] == log[..j];
      }
      assert before[..k] == log[..k];
      GroupStays(pool, before, k, base);
      assert Explained(Replay(pool, before), log[n]);
      EventKept(log[n], Replay(pool, before), base);
    }
  }

  lemma EventKept(e: Event, pool: seq<Record>, base: Text)
    requires KeepsGroup(pool, e, base) && Explained(pool, e)
    ensures SameGroup(pool, Effect(e, pool), base)
  {
    hide InBase, EventLeavesAlone;
    if !e.Wrote? {
      EventKeepsGroup(e, pool, base);
    }
  }

  /** A group that is not in the pool stays out of it: so does any group after a clear. */
  lemma AbsentStays(pool: seq<Record>, log: seq<Event>, k: nat, base: Text)
    requires Explains(pool, log) && k <= |log| && NoneIn(Replay(pool, log[..k]), base)
    requires forall j :: k <= j < |log| ==> KeepsGroup(Replay(pool, log[..j]), log[j], base)
    ensures NoneIn(Replay(pool, log), base)
  {
    hide KeepsGroup, InBase, Explains, SameGroup, NoneIn, Replay;
    GroupStays(pool, log, k, base);
    NoneIsEmpty(Replay(pool, log[..k]), base);
    SameAsNone(Replay(pool, log[..k]), Replay(pool, log), base);
    NoMembers(Replay(pool, log), base);
  }

  lemma NoneIsEmpty(rs: seq<Record>, base: Text)
    requires NoneIn(rs, base)
    ensures SameGroup([], rs, base)
  {
    AppendedAlone([], rs, base);
    assert [] + rs == rs;
  }

  lemma SameAsNone(was: seq<Record>, now: seq<Record>, base: Text)
    requires SameGroup([], was, base) && SameGroup(was, now, base)
    ensures SameGroup([], now, base)
  {
  }

  /** What group `base` holds when it was new at event `k`, an emission, and has not been touched since. */
  lemma HistoryKeepsGroup(
    pool: seq<Record>, log: seq<Event>, k: nat, m: Sending, libs: Libraries, base: Text)
    requires Explains(pool, log) && k < |log| && Emission(log[k], m, libs) && NoneIn(Replay(pool, log[..k]), base)
    requires forall j :: k < j < |log| ==> KeepsGroup(Replay(pool, log[..j]), log[j], base)
    ensures SentCount(log[k]) <= |log[k].op.records|
    ensures SameGroup(log[k].op.records[..SentCount(log[k])], Replay(pool, log), base)
  {
    hide Emission, KeepsGroup, InBase, Explained, NoneIn;
    var before := Replay(pool, log[..k]);
    assert Explained(before, log[k]);
    NoneIsEmpty(before, base);
    EmissionAdds(log[k], before, m, libs, base);
    ReplaySnoc(pool, log[..k], log[k]);
    assert log[..k] + [log[k]] == log[..k + 1];
    GroupStays(pool, log, k + 1, base);
  }

  /** An emission with another base key leaves the group alone. */
  lemma EmissionLeavesAlone(e: Event, m: Sending, libs: Libraries, base: Text)
    requires Emission(e, m, libs) && m.Base(libs) != base
    ensures EventLeavesAlone(e, base)
  {
    EmittedGroup(m.d, m.settings, libs);
  }

  /**
   A history in which the events listed in `emitted` are emissions with pairwise distinct base keys,
   each new to the pool when it begins, and no other event after an emission touches its group.
   Nothing is asked of what happens before it: the pool may be cleared, loaded or rewritten.
   */
  ghost predicate EmissionHistory(pool: seq<Record>, log: seq<Event>, emitted: map<nat, Sending>, libs: Libraries) {
    && (forall k :: k in emitted ==> k < |log| && Emission(log[k], emitted[k], libs))
    && (forall k, l :: k in emitted && l in emitted && k != l ==> emitted[k].Base(libs) != emitted[l].Base(libs))
    && (forall k :: k in emitted ==> NoneIn(Replay(pool, log[..k]), emitted[k].Base(libs)))
    && (forall k, j :: k in emitted && k < j < |log| && j !in emitted ==>
          KeepsGroup(Replay(pool, log[..j]), log[j], emitted[k].Base(libs)))
  }

  /**
   What a reader of the pool sees of a diagnostic of which `n` records were written: the whole
   diagnostic, nothing at all, or what the first `n` chunks decode to, which for plain text is the
   beginning of the text.
   */
  ghost predicate ComesBack(rs: seq<Record>, m: Sending, libs: Libraries, n: nat)
    requires PreparedRecords(m.d, m.settings, libs).Ok? && n <= |PreparedRecords(m.d, m.settings, libs).value|
  {
    var records, value := PreparedRecords(m.d, m.settings, libs).value, CheckedValue(m.d, m.settings, libs).value;
    if n == |records| then DeliveredOnce(rs, m.Base(libs), DiagnosticEntry(m.Read(libs)), libs)
    else if n == 0 then NoneIn(rs, m.Base(libs))
    else
      && n <= |Greedy(value)|
      && (m.d.key.encoding.None? ==> CutDown(m.Read(libs), value, n, libs).Ok?)
      && match CutDown(m.Read(libs), value, n, libs)
         case Ok(cut) => DeliveredOnce(rs, m.Base(libs), DiagnosticEntry(cut), libs)
         case Err(error) => Grouping.GroupResult(Items(rs, libs), m.Base(libs), Decoder(libs)) == Err(error)
  }

  /** It depends only on what the group holds. */
  lemma GroupComesBack(rs: seq<Record>, m: Sending, libs: Libraries, n: nat)
    requires Typed(m.d) && Renders(libs) && m.Faithful(libs) && PreparedRecords(m.d, m.settings, libs).Ok?
    requires n <= |PreparedRecords(m.d, m.settings, libs).value|
    requires SameGroup(PreparedRecords(m.d, m.settings, libs).value[..n], rs, m.Base(libs))
    ensures ComesBack(rs, m, libs, n)
  {
    hide Typed, Renders, Faithful, CheckedValue, SameGroup, DeliveredOnce, InBase, BaseKey, ReadBack;
    FieldsChecked(m.d, m.settings, libs);
    var records := PreparedRecords(m.d, m.settings, libs).value;
    if n == |records| {
      assert records[..n] == records;
      GroupReads(rs, m.d, m.settings, libs);
      DecodedGroupDelivers(rs, m.Base(libs), m.Read(libs), libs);
    } else if n == 0 {
      assert records[..n] == [];
      NoMembers(rs, m.Base(libs));
    } else {
      CutGroupReads(rs, m.d, m.settings, libs, n);
      CheckedValueValid(m.d, m.settings, libs);
      CutReads(rs, m, libs, n, CheckedValue(m.d, m.settings, libs).value);
    }
  }

  lemma ReadEncoding(m: Sending, libs: Libraries)
    ensures m.Read(libs).key.encoding == m.d.key.encoding
  {
  }

  lemma CutReads(rs: seq<Record>, m: Sending, libs: Libraries, n: nat, value: Text)
    requires ValidUtf8(value) && n <= |Greedy(value)|
    requires Grouping.GroupResult(Items(rs, libs), m.Base(libs), Decoder(libs)) == CutDown(m.Read(libs), value, n, libs)
    requires Grouping.Members(Items(rs, libs), |rs|, m.Base(libs)) != []
    ensures m.d.key.encoding.None? ==> CutDown(m.Read(libs), value, n, libs).Ok?
    ensures CutDown(m.Read(libs), value, n, libs).Ok? ==>
              DeliveredOnce(rs, m.Base(libs), DiagnosticEntry(CutDown(m.Read(libs), value, n, libs).value), libs)
  {
    hide *;
    ReadEncoding(m, libs);
    if m.d.key.encoding.None? {
      PlainCutDown(m.Read(libs), value, n, libs);
    }
    if CutDown(m.Read(libs), value, n, libs).Ok? {
      DecodedGroupDelivers(rs, m.Base(libs), CutDown(m.Read(libs), value, n, libs).value, libs);
    }
  }

  lemma NoMembers(rs: seq<Record>, base: Text)
    requires SameGroup([], rs, base)
    ensures NoneIn(rs, base)
  {
    forall r | r in rs
      ensures !InBase(r.key, base)
    {
      assert multiset(rs)[r] > 0;
      assert multiset([])[r] == 0 by {
        assert r !in [];
      }
    }
  }

  /** One emission, with no later event in its group. */
  lemma EmissionComesBack(pool: seq<Record>, log: seq<Event>, k: nat, m: Sending, libs: Libraries)
    requires Renders(libs) && m.Faithful(libs) && Explains(pool, log)
    requires k < |log| && Emission(log[k], m, libs) && NoneIn(Replay(pool, log[..k]), m.Base(libs))
    requires forall j :: k < j < |log| ==> KeepsGroup(Replay(pool, log[..j]), log[j], m.Base(libs))
    ensures SentCount(log[k]) <= |log[k].op.records| && ComesBack(Replay(pool, log), m, libs, SentCount(log[k]))
  {
    hide Explains, NoneIn, KeepsGroup, Faithful, Renders, Typed, ComesBack, SameGroup, Replay;
    HistoryKeepsGroup(pool, log, k, m, libs, m.Base(libs));
    GroupComesBack(Replay(pool, log), m, libs, SentCount(log[k]));
  }

  lemma OthersLeaveAlone(
    pool: seq<Record>, log: seq<Event>, emitted: map<nat, Sending>, libs: Libraries, k: nat, j: nat)
    requires EmissionHistory(pool, log, emitted, libs) && k in emitted && k < j < |log|
    ensures KeepsGroup(Replay(pool, log[..j]), log[j], emitted[k].Base(libs))
  {
    hide Emission, EventLeavesAlone, NoneIn, SameGroup, Replay;
    if j in emitted {
      EmissionLeavesAlone(log[j], emitted[j], libs, emitted[k].Base(libs));
      assert !log[j].Wrote? by {
        assert EventLeavesAlone(log[j], emitted[k].Base(libs));
        NotWritten(log[j], emitted[k].Base(libs));
      }
    }
  }

  lemma NotWritten(e: Event, base: Text)
    requires EventLeavesAlone(e, base)
    ensures !e.Wrote?
  {
  }

  lemma EmissionAt(pool: seq<Record>, log: seq<Event>, emitted: map<nat, Sending>, libs: Libraries, k: nat)
    requires EmissionHistory(pool, log, emitted, libs) && k in emitted
    ensures k < |log| && Emission(log[k], emitted[k], libs) && NoneIn(Replay(pool, log[..k]), emitted[k].Base(libs))
  {
  }

  /** Every emitted diagnostic comes back as far as it was written, whatever order the swaps left on disk. */
  lemma EmittedComesBack(pool: seq<Record>, log: seq<Event>, emitted: map<nat, Sending>, libs: Libraries, k: nat)
    requires Renders(libs) && Explains(pool, log) && EmissionHistory(pool, log, emitted, libs)
    requires k in emitted && emitted[k].Faithful(libs)
    ensures k < |log| && Emission(log[k], emitted[k], libs) && SentCount(log[k]) <= |log[k].op.records|
    ensures ComesBack(Replay(pool, log), emitted[k], libs, SentCount(log[k]))
  {
    hide EmissionHistory, ComesBack, Emission, NoneIn, KeepsGroup, Explains, Faithful, Renders, Replay;
    EmissionAt(pool, log, emitted, libs, k);
    forall j | k < j < |log|
      ensures KeepsGroup(Replay(pool, log[..j]), log[j], emitted[k].Base(libs))
    {
      OthersLeaveAlone(pool, log, emitted, libs, k, j);
    }
    EmissionComesBack(pool, log, k, emitted[k], libs);
  }

  lemma ExplainsPrefix(pool: seq<Record>, log: seq<Event>, at: nat)
    requires Explains(pool, log) && at <= |log|
    ensures Explains(pool, log[..at])
  {
    forall k | 0 <= k < at
      ensures Explained(Replay(pool, log[..at][..k]), log[..at][k])
    {
      assert log[..at][..k] == log[..k];
    }
  }

  /**
   In every run of the lock protocol: a dump that completes after the emissions has found every
   record readable, and gives a reader every emitted diagnostic exactly once.
   */
  lemma DumpsDeliver(
    states: seq<State>, steps: seq<Step>, pool: seq<Record>, i: nat, at: nat,
    emitted: map<nat, Sending>, libs: Libraries, k: nat)
    requires Renders(libs) && IsRun(states, steps, pool) && i < |states| && at < |states[i].log|
    requires states[i].log[at].Completed? && states[i].log[at].op == DumpAll
    requires EmissionHistory(pool, states[i].log[..at], emitted, libs) && k in emitted && emitted[k].Faithful(libs)
    ensures states[i].log[at].result.Dumped? && AllDecode(states[i].log[at].result.records)
    ensures k < at && Emission(states[i].log[k], emitted[k], libs)
    ensures SentCount(states[i].log[k]) <= |states[i].log[k].op.records|
    ensures ComesBack(states[i].log[at].result.records, emitted[k], libs, SentCount(states[i].log[k]))
  {
    hide EmissionHistory, ComesBack, IsRun, Explains, Faithful, Renders, Emission;
    DumpsAreAtomic(states, steps, pool, i, at);
    RunExplains(states, steps, pool, i, at);
    EmittedComesBack(pool, states[i].log[..at], emitted, libs, k);
  }

  lemma RunExplains(states: seq<State>, steps: seq<Step>, pool: seq<Record>, i: nat, at: nat)
    requires IsRun(states, steps, pool) && i < |states| && at <= |states[i].log|
    ensures Explains(pool, states[i].log[..at])
  {
    RunInv(states, steps, pool, i);
    ExplainsPrefix(pool, states[i].log, at);
  }
}
