/** `write_provisioning_report`: the pool's one report record, cut to one value. */
module Logging {
  import opened Results
  import opened Bytes
  import opened Utf8
  import opened Handles
  import opened KvpErrors
  import opened PoolLayout
  import opened PoolSpec
  import opened Store
  import opened Framing
  import opened Delimited
  import opened Diagnostics
  import Grouping
  import LockProtocol
  import PoolOps
  import Reader
  import Report

  /** What is stored of a report: the longest prefix that fits and ends between characters. */
  function Stored(report: Text, max: nat): (text: Text)
    ensures text <= report && |text| <= max && IsBoundary(report, |text|)
    ensures forall n :: |text| < n <= |report| && n <= max ==> !IsBoundary(report, n)
  {
    report[..CutPoint(report, Min(|report|, max))]
  }

  lemma StoredWhole(report: Text, max: nat)
    requires |report| <= max
    ensures Stored(report, max) == report
  {
    assert IsBoundary(report, |report|);
  }

  /** Exactly one record has the key; it has this value, and nothing else has changed. */
  ghost predicate OnlyRecord(was: seq<Record>, now: seq<Record>, key: Text, value: Text) {
    && LastValue(now, key) == Some(value)
    && (exists p :: 0 <= p < |now| && now[p] == Record(key, value)
                    && forall j :: 0 <= j < |now| && now[j].key == key ==> j == p)
    && Others(now, {key}) == Others(was, {key})
  }

  lemma InsertedOnly(rs: seq<Record>, key: Text, value: Text)
    ensures OnlyRecord(rs, InsertRecords(rs, key, value), key, value)
  {
    InsertRefines(rs, key, value);
  }

  /** A pool whose other records are those of a readable one, and whose own records decode, is readable. */
  lemma OnlyRecordDecodes(was: seq<Record>, now: seq<Record>, key: Text, value: Text)
    requires OnlyRecord(was, now, key, value) && AllDecode(was) && ValidUtf8(key) && ValidUtf8(value)
    ensures AllDecode(now)
  {
    forall i | 0 <= i < |now|
      ensures Decodes(now[i])
    {
      if now[i].key != key {
        OthersMember(now, {key}, now[i]);
        OthersMember(was, {key}, now[i]);
        assert now[i] in was;
      }
    }
  }

  lemma KeyFits()
    ensures ValidUtf8(Reader.PROVISIONING_REPORT_KEY) && NulFree(Reader.PROVISIONING_REPORT_KEY)
    ensures 0 < |Reader.PROVISIONING_REPORT_KEY| <= SAFE_MAX_KEY_BYTES
  {
    hide ValidUtf8, Ascii;
    Report.AsciiNulFree("PROVISIONING_REPORT");
    AsciiValid(Reader.PROVISIONING_REPORT_KEY);
  }

  /**
   From any readable pool, full or not, storing NUL-free text succeeds, and the pool can be read
   afterwards. The append happens only when the key is absent, so, with nobody else at work, it
   makes no duplicate.
   */
  method WriteProvisioningReport(store: KvpPoolStore, report: Text) returns (r: Result<(), KvpError>)
    requires store.file.Valid() && ValidUtf8(report)
    modifies store.file
    ensures store.file.Valid()
    ensures r.Ok? ==>
      && store.WellFormed()
      && OnlyRecord(old(store.Recs()), store.Recs(), Reader.PROVISIONING_REPORT_KEY,
                    Stored(report, store.mode.MaxValueSize()))
    ensures Calm(old(store.file.faults)) && old(store.WellFormed()) && NulFree(report) ==>
      r.Ok? && Calm(store.file.faults)
    ensures
      var key, text := Reader.PROVISIONING_REPORT_KEY, Stored(report, store.mode.MaxValueSize());
      || PoolOps.Interrupted(PoolOps.InsertOne(key, text), old(store.Recs()), store.Recs())
      || store.Recs() == old(store.Recs()) + [Record(key, text)]
  {
    hide OnlyRecord, InsertRecords, Others, Records, PoolOps.Interrupted;
    var max := store.mode.MaxValueSize();
    var end := StepBack(report, if |report| <= max then |report| else max);
    var text := report[..end];
    ValidSplit(report, end);
    KeyFits();
    var key := Reader.PROVISIONING_REPORT_KEY;
    ghost var before := store.Recs();
    InsertedOnly(before, key, text);
    r := store.Insert(key, text);
    if r.Err? && r.error.MaxUniqueKeysExceeded? {
      AbsentInsertKeeps(before, key, text);
      r := store.Append(key, text);
    }
    if r.Ok? {
      OnlyRecordDecodes(before, store.Recs(), key, text);
    }
  }

  // The insert and the append are two operations, and another process can come between them.

  /** The append leaves the only record of its key exactly when nobody has stored the key before it. */
  lemma AppendOnlyExactly(rs: seq<Record>, key: Text, value: Text)
    ensures OnlyRecord(rs, rs + [Record(key, value)], key, value) <==> !HasKey(rs, key)
  {
    hide Others;
    var now := rs + [Record(key, value)];
    AbsentInsertKeeps(rs, key, value);
    assert now[..|rs|] == rs && now[|rs|] == Record(key, value);
    if HasKey(rs, key) {
      var i :| 0 <= i < |rs| && rs[i].key == key;
      assert now[i].key == key && now[|rs|].key == key && i != |rs|;
    }
  }

  /** Two writers, each turned away by a full pool before either has appended. */
  function RaceOps(a: Text, b: Text): seq<PoolOps.Op> {
    var key := Reader.PROVISIONING_REPORT_KEY;
    [PoolOps.InsertOne(key, a), PoolOps.InsertOne(key, b),
     PoolOps.AppendBatch([Record(key, a)]), PoolOps.AppendBatch([Record(key, b)])]
  }

  lemma RaceReplays(pool: seq<Record>, a: Text, b: Text, log: seq<LockProtocol.Event>)
    requires !HasKey(pool, Reader.PROVISIONING_REPORT_KEY) && |DistinctKeys(pool)| >= MAX_UNIQUE_KEYS
    requires |log| == 4 && LockProtocol.Explains(pool, log)
    requires forall i :: 0 <= i < 4 ==> log[i].Completed? && log[i].op == RaceOps(a, b)[i]
    ensures log[0].result == log[1].result == PoolOps.TooManyKeys
    ensures LockProtocol.Replay(pool, log) ==
            pool + [Record(Reader.PROVISIONING_REPORT_KEY, a)] + [Record(Reader.PROVISIONING_REPORT_KEY, b)]
  {
    hide DistinctKeys, InsertRecords;
    assert log[..0] == [] && log[..1] == [log[0]] && log[..2] == log[..1] + [log[1]];
    assert log[..3] == log[..2] + [log[2]] && log == log[..3] + [log[3]];
    LockProtocol.ReplaySnoc(pool, [], log[0]);
    LockProtocol.ReplaySnoc(pool, log[..1], log[1]);
    LockProtocol.ReplaySnoc(pool, log[..2], log[2]);
    LockProtocol.ReplaySnoc(pool, log[..3], log[3]);
    assert LockProtocol.Explained(LockProtocol.Replay(pool, log[..0]), log[0]);
    assert LockProtocol.Explained(LockProtocol.Replay(pool, log[..1]), log[1]);
  }

  /** There is a run in which both are turned away, both append, and the pool ends up with two reports. */
  lemma RacingReports(pool: seq<Record>, a: Text, b: Text)
    returns (states: seq<LockProtocol.State>, steps: seq<LockProtocol.Step>)
    requires !HasKey(pool, Reader.PROVISIONING_REPORT_KEY) && |DistinctKeys(pool)| >= MAX_UNIQUE_KEYS
    requires AllDecode(pool) && ValidUtf8(a) && ValidUtf8(b)
    ensures LockProtocol.IsRun(states, steps, pool)
    ensures forall value :: !OnlyRecord(pool, states[|steps|].pool, Reader.PROVISIONING_REPORT_KEY, value)
  {
    hide OnlyRecord, DistinctKeys, LockProtocol.Init, LockProtocol.Explains, LockProtocol.Replay, AllDecode;
    RaceReadable(a, b);
    states, steps := LockProtocol.RunsInTurn(RaceOps(a, b), pool);
    RaceReplays(pool, a, b, states[|steps|].log);
    TwoAreNotOne(pool, a, b, Reader.PROVISIONING_REPORT_KEY);
  }

  lemma RaceReadable(a: Text, b: Text)
    requires ValidUtf8(a) && ValidUtf8(b)
    ensures forall i :: 0 <= i < |RaceOps(a, b)| ==> PoolOps.WritesReadable(RaceOps(a, b)[i])
  {
    KeyFits();
  }

  lemma TwoAreNotOne(pool: seq<Record>, a: Text, b: Text, key: Text)
    ensures forall value :: !OnlyRecord(pool, pool + [Record(key, a)] + [Record(key, b)], key, value)
  {
    var now := pool + [Record(key, a)] + [Record(key, b)];
    assert now[|pool|].key == key && now[|pool| + 1].key == key;
  }

  /**
   `write_report`: on success the whole report is stored. A report too large and a full pool change
   nothing; any other error leaves the file where the steps of the insert pass through.
   */
  method WriteReport(store: KvpPoolStore, report: Report.ProvisioningReport) returns (r: Result<(), KvpError>)
    requires store.file.Valid()
    modifies store.file
    ensures store.file.Valid()
    ensures InOneSection(old(store.file.sections), store.file.sections, LockState.Exclusive)
    ensures r.Ok? ==>
      && |Report.Encode(report)| <= store.mode.MaxValueSize()
      && OnlyRecord(old(store.Recs()), store.Recs(), Reader.PROVISIONING_REPORT_KEY, Report.Encode(report))
    ensures |Report.Encode(report)| > store.mode.MaxValueSize() ==> r.Err? && unchanged(store.file)
    ensures r.Err? && r.error.MaxUniqueKeysExceeded? ==> store.file.contents == old(store.file.contents)
    ensures PoolOps.Interrupted(PoolOps.InsertOne(Reader.PROVISIONING_REPORT_KEY, Report.Encode(report)),
                                old(store.Recs()), store.Recs())
    ensures Calm(old(store.file.faults)) && old(store.WellFormed()) && NulFree(Report.Encode(report))
            && |Report.Encode(report)| <= store.mode.MaxValueSize() ==>
      && Calm(store.file.faults)
      && (r.Err? ==> r.error.MaxUniqueKeysExceeded?)
      && (r.Ok? <==> || HasKey(old(store.Recs()), Reader.PROVISIONING_REPORT_KEY)
                     || |DistinctKeys(old(store.Recs()))| < MAX_UNIQUE_KEYS)
  {
    hide Report.Encode, OnlyRecord, InsertRecords, PoolOps.Interrupted, Records, Others, AllDecode, DistinctKeys;
    hide HasKey;
    KeyFits();
    var value := Report.EncodeReport(report);
    InsertedOnly(store.Recs(), Reader.PROVISIONING_REPORT_KEY, value);
    r := store.Insert(Reader.PROVISIONING_REPORT_KEY, value);
  }

  lemma ReportKeyClass()
    ensures Reader.ClassOf(Reader.PROVISIONING_REPORT_KEY) == Reader.ReportRecord
  {
    var key := Reader.PROVISIONING_REPORT_KEY;
    FindNone(key, BAR);
    assert Split(key, BAR)[0] == key;
  }

  lemma ReportItem(report: Report.ProvisioningReport, libs: Libraries)
    requires Report.Readable(report, Reader.ValidTimestamp(libs))
    ensures Reader.ItemOf(Record(Reader.PROVISIONING_REPORT_KEY, Report.Encode(report)), libs) ==
            Grouping.Own(ReportEntry(report))
  {
    hide Report.Readable, Report.Encode, Report.Parse, Reader.ClassOf, Reader.ValidTimestamp;
    ReportKeyClass();
    Report.RoundTripExactly(report, Reader.ValidTimestamp(libs));
  }

  /** A readable report that fits one value comes back to the reader as that report. */
  lemma WrittenReportReads(
    was: seq<Record>, now: seq<Record>, report: Report.ProvisioningReport, max: nat, libs: Libraries)
    requires Report.Readable(report, Reader.ValidTimestamp(libs)) && |Report.Encode(report)| <= max
    requires OnlyRecord(was, now, Reader.PROVISIONING_REPORT_KEY, Stored(Report.Encode(report), max))
    ensures exists p :: 0 <= p < |now|
              && (forall j :: 0 <= j < |now| && now[j].key == Reader.PROVISIONING_REPORT_KEY ==> j == p)
              && Grouping.EntryAt(Reader.Items(now, libs), p, Reader.Decoder(libs)) == Some(ReportEntry(report))
  {
    hide Report.Readable, Report.Encode, LastValue, Others, Reader.ItemOf, Reader.ValidTimestamp;
    var key := Reader.PROVISIONING_REPORT_KEY;
    var p :| 0 <= p < |now| && now[p] == Record(key, Stored(Report.Encode(report), max))
             && forall j :: 0 <= j < |now| && now[j].key == key ==> j == p;
    StoredWhole(Report.Encode(report), max);
    ReportItem(report, libs);
    assert Reader.Items(now, libs)[p] == Grouping.Own(ReportEntry(report));
    assert Grouping.EntryAt(Reader.Items(now, libs), p, Reader.Decoder(libs)) == Some(ReportEntry(report));
  }
}
