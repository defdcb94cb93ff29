/** `DiagnosticWriter` and `DiagnosticReader` over a pool store. */
module Telemetry {
  import opened Results
  import opened Handles
  import opened KvpErrors
  import opened PoolLayout
  import opened PoolSpec
  import PoolOps
  import opened Store
  import opened Diagnostics
  import opened Reader
  import opened Writer
  import opened RoundTrip
  import opened Delivery

  /** The first `n` records of an emission, behind a pool without its group, are there to be read. */
  lemma FreshEmission(pool: seq<Record>, m: Sending, libs: Libraries, n: nat)
    requires Typed(m.d) && Renders(libs) && m.Faithful(libs) && PreparedRecords(m.d, m.settings, libs).Ok?
    requires n <= |PreparedRecords(m.d, m.settings, libs).value| && NoneIn(pool, m.Base(libs))
    ensures ComesBack(pool + PreparedRecords(m.d, m.settings, libs).value[..n], m, libs, n)
  {
    hide ComesBack, Typed, Renders, Faithful, InBase;
    var records := PreparedRecords(m.d, m.settings, libs).value;
    assert SameGroup(records[..n], pool + records[..n], m.Base(libs)) by {
      forall x: Record | InBase(x.key, m.Base(libs))
        ensures multiset(pool)[x] == 0
      {
        assert x !in pool;
      }
    }
    GroupComesBack(pool + records[..n], m, libs, n);
  }

  lemma EmissionReadable(pool: seq<Record>, m: Sending, libs: Libraries, n: nat)
    requires Typed(m.d) && Renders(libs) && PreparedRecords(m.d, m.settings, libs).Ok? && AllDecode(pool)
    requires n <= |PreparedRecords(m.d, m.settings, libs).value|
    ensures AllDecode(pool + PreparedRecords(m.d, m.settings, libs).value[..n])
  {
    hide Typed, Renders, Faithful, Decodes;
    PreparedRecordsDecode(m.d, m.settings, libs);
  }

  class DiagnosticWriter {
    const store: KvpPoolStore
    const settings: Settings

    constructor (store: KvpPoolStore, settings: Settings)
      ensures this.store == store && this.settings == settings
    {
      this.store := store;
      this.settings := settings;
    }

    /**
     All records of the diagnostic behind everything else, or an error. An error before anything is
     written changes nothing; an I/O error may leave a beginning of the records. A readable pool
     stays readable in any case, and what was written comes back to the reader.
     */
    method Emit(d: Diagnostic, libs: Libraries) returns (r: Result<(), KvpError>)
      requires store.file.Valid() && Typed(d) && Renders(libs)
      modifies store.file
      ensures store.file.Valid()
      ensures PreparedRecords(d, settings, libs).Err? ==>
        unchanged(store.file) && r == Err(PreparedRecords(d, settings, libs).error)
      ensures InOneSection(old(store.file.sections), store.file.sections, LockState.Exclusive)
      ensures old(store.WellFormed()) ==> store.WellFormed()
      ensures PreparedRecords(d, settings, libs).Ok? ==>
        exists n: nat :: Emitted(old(store.Recs()), store.Recs(), d, libs, n)
                         && (r.Ok? ==> n == |PreparedRecords(d, settings, libs).value|)
      ensures Calm(old(store.file.faults)) && Whole(old(store.file.contents)) ==>
        Calm(store.file.faults) && r.Ok? == PreparedRecords(d, settings, libs).Ok?
    {
      hide Typed, Renders, Faithful, Records, Decodes, ValidateAll, ComesBack, WellPrepared, PoolOps.Interrupted;
      var records :- PrepareRecords(d, settings, libs);
      PreparedRecordsValidate(d, settings, libs, store.mode);
      SomeRecords(d, settings, libs);
      ghost var before := store.Recs();
      r := store.AppendMultiple(records);
      ghost var n: nat := |records|;
      if r.Err? {
        n :| n <= |records| && store.Recs() == before + records[..n];
      } else {
        assert records[..n] == records;
      }
      WasEmitted(before, d, libs, n);
      if AllDecode(before) {
        EmissionReadable(before, Sending(d, settings), libs, n);
      }
      assert Emitted(before, store.Recs(), d, libs, n);
    }

    /** `n` records of the diagnostic have been added; if its group was new, they come back. */
    ghost predicate Emitted(was: seq<Record>, now: seq<Record>, d: Diagnostic, libs: Libraries, n: nat)
      requires PreparedRecords(d, settings, libs).Ok?
    {
      && n <= |PreparedRecords(d, settings, libs).value|
      && now == was + PreparedRecords(d, settings, libs).value[..n]
      && (NoneIn(was, Sending(d, settings).Base(libs)) && Faithful(d, settings, libs) ==>
            ComesBack(now, Sending(d, settings), libs, n))
    }

    lemma WasEmitted(was: seq<Record>, d: Diagnostic, libs: Libraries, n: nat)
      requires Typed(d) && Renders(libs) && PreparedRecords(d, settings, libs).Ok?
      requires n <= |PreparedRecords(d, settings, libs).value|
      ensures Emitted(was, was + PreparedRecords(d, settings, libs).value[..n], d, libs, n)
    {
      hide Typed, Renders, Faithful, ComesBack, NoneIn;
      if NoneIn(was, Sending(d, settings).Base(libs)) && Faithful(d, settings, libs) {
        FreshEmission(was, Sending(d, settings), libs, n);
      }
    }
  }

  class DiagnosticReader {
    const store: KvpPoolStore

    constructor (store: KvpPoolStore)
      ensures this.store == store
    {
      this.store := store;
    }

    method Entries(libs: Libraries) returns (r: Result<seq<Entry>, KvpError>)
      requires store.file.Valid()
      modifies store.file`faults, store.file`sections
      ensures InOneSection(old(store.file.sections), store.file.sections, LockState.Shared)
      ensures r.Ok? ==> store.WellFormed() && r.value == DecodedEntries(store.Recs(), libs)
      ensures Calm(old(store.file.faults)) ==> Calm(store.file.faults) && (r.Ok? <==> store.WellFormed())
    {
      var records :- store.Dump();
      var entries := DecodeEntries(records, libs);
      return Ok(entries);
    }
  }

  /** Emit, then read: from any readable pool without the group, the reader returns the diagnostic. */
  method EmitAndRead(writer: DiagnosticWriter, reader: DiagnosticReader, d: Diagnostic, libs: Libraries)
    returns (r: Result<seq<Entry>, KvpError>)
    requires writer.store.file == reader.store.file && writer.store.file.Valid()
    requires Calm(writer.store.file.faults) && writer.store.WellFormed()
    requires Typed(d) && Renders(libs) && Faithful(d, writer.settings, libs)
    requires PreparedRecords(d, writer.settings, libs).Ok?
    requires NoneIn(writer.store.Recs(), Sending(d, writer.settings).Base(libs))
    modifies writer.store.file
    ensures r.Ok? && r.value == DecodedEntries(reader.store.Recs(), libs)
    ensures DiagnosticEntry(ReadBack(d, writer.settings, libs)) in r.value
    ensures DeliveredOnce(reader.store.Recs(), Sending(d, writer.settings).Base(libs),
                          DiagnosticEntry(ReadBack(d, writer.settings, libs)), libs)
  {
    hide Typed, Renders, Faithful, Records, Decodes, NoneIn;
    var sent := writer.Emit(d, libs);
    assert sent.Ok?;
    r := reader.Entries(libs);
  }
}
