/** `DiagnosticWriter`: validate, render the base key, encode the payload and frame it. */
module Writer {
  import opened Results
  import opened Bytes
  import opened Utf8
  import opened Delimited
  import opened Decimals
  import opened Durations
  import opened KvpErrors
  import opened PoolLayout
  import opened Uuids
  import opened Diagnostics
  import opened Framing
  import opened Store
  import opened PoolSpec

  const MAX_AGENT_BYTES: nat := 32
  const MAX_UUID_BYTES: nat := 36
  const MAX_TIMESTAMP_BYTES: nat := 30

  /** The precisions and the name limit a writer is configured with. */
  datatype Settings = Settings(timestamps: TimestampPrecision, durations: DurationPrecision, maxNameBytes: nat)

  /** What is wrong with a field, the first of four reasons that applies. */
  function FieldError(field: Field, value: Text, max: nat): KvpError {
    if value == [] then EmptyEventField(field)
    else if 124 in value then EventFieldContainsDelimiter(field)
    else if 0 in value then KeyContainsNull
    else EventFieldTooLong(field, max, |value|)
  }

  function ValidateField(field: Field, value: Text, max: nat): (r: Result<(), KvpError>)
    ensures r.Ok? <==> value != [] && BAR !in value && NUL !in value && |value| <= max
    ensures r.Err? ==> r.error == FieldError(field, value, max)
  {
    if value == [] then Err(EmptyEventField(field))
    else if BAR in value then Err(EventFieldContainsDelimiter(field))
    else if NUL in value then Err(KeyContainsNull)
    else if |value| > max then Err(EventFieldTooLong(field, max, |value|))
    else Ok(())
  }

  function ValidateUuid(field: Field, value: Text): Result<(), KvpError> {
    var _ :- ValidateField(field, value, MAX_UUID_BYTES);
    if IsUuid(value) then Ok(()) else Err(InvalidUuid(field))
  }

  function PayloadBytes(payload: Payload): seq<byte> {
    match payload
    case Plain(text) => text
    case Binary(bytes) => bytes
  }

  function EncodePayload(payload: Payload, encoding: Option<Encoding>, libs: Libraries): Result<Text, KvpError> {
    match encoding
    case None =>
      if payload.Binary? && !ValidUtf8(payload.bytes) then Err(PayloadNotUtf8)
      else if NUL in PayloadBytes(payload) then Err(ValueContainsNull)
      else Ok(PayloadBytes(payload))
    case Some(OtherEncoding(token)) => Err(UnsupportedEncoding(token))
    case Some(e) => Ok(libs.compress(e, PayloadBytes(payload)))
  }

  function KindToken(d: Diagnostic): Text {
    match d
    case Start(_, _) => START_KIND
    case Finish(_, _, _, _) => FINISH_KIND
    case Event(_, _, _, _) => EVENT_KIND
  }

  function OutcomeOf(d: Diagnostic): Option<Outcome> {
    match d
    case Start(_, _) => None
    case Finish(_, _, result, _) => Some(result)
    case Event(_, _, outcome, _) => outcome
  }

  function DurationOf(d: Diagnostic): Option<Duration> {
    match d
    case Start(_, _) => None
    case Finish(_, _, _, duration) => Some(duration)
    case Event(_, _, _, elapsed) => elapsed
  }

  function OutcomeToken(outcome: Option<Outcome>): Text {
    match outcome
    case None => []
    case Some(Succeeded) => OK_TOKEN
    case Some(Failed) => ERROR_TOKEN
  }

  function DurationToken(duration: Option<Duration>, precision: DurationPrecision): Text {
    match duration
    case None => []
    case Some(d) => Format(d, precision)
  }

  function EncodingToken(encoding: Option<Encoding>): Text {
    match encoding
    case None => NONE_TOKEN
    case Some(ZlibB64) => ZLIB_TOKEN
    case Some(GzB64) => GZ_TOKEN
    case Some(OtherEncoding(token)) => token
  }

  /** The ten fields of a base key. */
  function BaseFields(d: Diagnostic, vmId: Text, settings: Settings, libs: Libraries): seq<Text> {
    [DIAGNOSTIC_VERSION_ID, d.key.agent, vmId, KindToken(d), d.key.name, d.key.eventId,
     libs.formatTimestamp(d.key.timestamp, settings.timestamps), EncodingToken(d.key.encoding),
     OutcomeToken(OutcomeOf(d)), DurationToken(DurationOf(d), settings.durations)]
  }

  function BaseKey(d: Diagnostic, vmId: Text, settings: Settings, libs: Libraries): Text {
    Join(BaseFields(d, vmId, settings, libs), BAR)
  }

  /** Everything `prepare_records` checks before it frames; what is left is the value to frame. */
  function CheckedValue(d: Diagnostic, settings: Settings, libs: Libraries): Result<Text, KvpError> {
    var _ :- ValidateField(Agent, d.key.agent, MAX_AGENT_BYTES);
    if d.key.vmId.None? then Err(EmptyEventField(VmId))
    else
      var _ :- ValidateUuid(VmId, d.key.vmId.value);
      var _ :- ValidateField(Name, d.key.name, settings.maxNameBytes);
      var _ :- ValidateUuid(EventId, d.key.eventId);
      var timestamp := libs.formatTimestamp(d.key.timestamp, settings.timestamps);
      var _ :- ValidateField(Timestamp, timestamp, MAX_TIMESTAMP_BYTES);
      EncodePayload(d.payload, d.key.encoding, libs)
  }

  /** What `prepare_records` returns. */
  function PreparedRecords(d: Diagnostic, settings: Settings, libs: Libraries): Result<seq<Record>, KvpError> {
    var value :- CheckedValue(d, settings, libs);
    FrameResult(BaseKey(d, d.key.vmId.value, settings, libs), value)
  }

  /** What Rust's types say of a diagnostic: its strings are UTF-8, its durations in range. */
  ghost predicate Typed(d: Diagnostic) {
    && ValidUtf8(d.key.agent) && ValidUtf8(d.key.name) && ValidUtf8(d.key.eventId)
    && (d.key.vmId.Some? ==> ValidUtf8(d.key.vmId.value))
    && (d.payload.Plain? ==> ValidUtf8(d.payload.text))
    && (DurationOf(d).Some? ==> DurationOf(d).value.Valid())
  }

  /** What its round trip needs: parsing undoes formatting its timestamp, decompressing compressing its payload. */
  ghost predicate Faithful(d: Diagnostic, settings: Settings, libs: Libraries) {
    var t, p, bytes := d.key.timestamp, settings.timestamps, PayloadBytes(d.payload);
    && libs.parseTimestamp(libs.formatTimestamp(t, p)) == Some(libs.truncateTimestamp(t, p))
    && (d.key.encoding.Some? && !d.key.encoding.value.OtherEncoding? ==>
          libs.decompress(d.key.encoding.value, libs.compress(d.key.encoding.value, bytes)) == Some(bytes))
  }

  lemma FieldsChecked(d: Diagnostic, settings: Settings, libs: Libraries)
    requires CheckedValue(d, settings, libs).Ok?
    ensures d.key.vmId.Some? && IsUuid(d.key.vmId.value) && d.key.vmId.value != []
    ensures d.key.agent != [] && d.key.name != [] && d.key.eventId != []
    ensures libs.formatTimestamp(d.key.timestamp, settings.timestamps) != []
    ensures d.key.encoding.Some? ==> !d.key.encoding.value.OtherEncoding?
  {
  }

  predicate FieldFits(value: Text, max: nat) {
    value != [] && 124 !in value && 0 !in value && |value| <= max
  }

  /** The checks in their order, with their limits, and the value that is left to frame. */
  lemma CheckedExactly(d: Diagnostic, settings: Settings, libs: Libraries)
    ensures var timestamp := libs.formatTimestamp(d.key.timestamp, settings.timestamps);
            CheckedValue(d, settings, libs) ==
            if !FieldFits(d.key.agent, 32) then Err(FieldError(Agent, d.key.agent, 32))
            else if d.key.vmId.None? then Err(EmptyEventField(VmId))
            else if !FieldFits(d.key.vmId.value, 36) then Err(FieldError(VmId, d.key.vmId.value, 36))
            else if !IsUuid(d.key.vmId.value) then Err(InvalidUuid(VmId))
            else if !FieldFits(d.key.name, settings.maxNameBytes)
            then Err(FieldError(Name, d.key.name, settings.maxNameBytes))
            else if !FieldFits(d.key.eventId, 36) then Err(FieldError(EventId, d.key.eventId, 36))
            else if !IsUuid(d.key.eventId) then Err(InvalidUuid(EventId))
            else if !FieldFits(timestamp, 30) then Err(FieldError(Timestamp, timestamp, 30))
            else PayloadValue(d, libs)
  {
    hide IsUuid, FieldError;
  }

  /** A plain payload as it is, if it is UTF-8 without NUL; otherwise what the compressor makes of it. */
  function PayloadValue(d: Diagnostic, libs: Libraries): Result<Text, KvpError> {
    var bytes := match d.payload { case Plain(text) => text case Binary(bytes) => bytes };
    match d.key.encoding
    case None =>
      if d.payload.Binary? && !ValidUtf8(bytes) then Err(PayloadNotUtf8)
      else if 0 in bytes then Err(ValueContainsNull)
      else Ok(bytes)
    case Some(OtherEncoding(token)) => Err(UnsupportedEncoding(token))
    case Some(e) => Ok(libs.compress(e, bytes))
  }

  lemma PreparedChecked(d: Diagnostic, settings: Settings, libs: Libraries)
    requires PreparedRecords(d, settings, libs).Ok?
    ensures CheckedValue(d, settings, libs).Ok? && d.key.vmId.Some?
  {
    FieldsChecked(d, settings, libs);
  }

  lemma CheckedValueValid(d: Diagnostic, settings: Settings, libs: Libraries)
    requires Typed(d) && Renders(libs) && CheckedValue(d, settings, libs).Ok?
    ensures ValidUtf8(CheckedValue(d, settings, libs).value) && NulFree(CheckedValue(d, settings, libs).value)
  {
  }

  /** Even an empty payload is one record. */
  lemma SomeRecords(d: Diagnostic, settings: Settings, libs: Libraries)
    ensures PreparedRecords(d, settings, libs).Ok? ==> PreparedRecords(d, settings, libs).value != []
  {
  }

  method PrepareRecords(d: Diagnostic, settings: Settings, libs: Libraries)
    returns (r: Result<seq<Record>, KvpError>)
    requires Typed(d) && Renders(libs)
    ensures r == PreparedRecords(d, settings, libs)
    ensures r.Ok? ==> WellPrepared(d, settings, libs, r.value)
  {
    hide WellPrepared, Typed, Renders, FrameResult, CheckedValue;
    if PreparedRecords(d, settings, libs).Ok? {
      RecordsWellPrepared(d, settings, libs);
    }
    var value :- CheckedValue(d, settings, libs);
    CheckedValueValid(d, settings, libs);
    FieldsChecked(d, settings, libs);
    r := FrameRecords(BaseKey(d, d.key.vmId.value, settings, libs), value);
  }

  // The key.

  predicate CleanToken(t: Text) {
    BAR !in t && NUL !in t
  }

  lemma TokensClean()
    ensures CleanToken(DIAGNOSTIC_VERSION_ID)
    ensures CleanToken(START_KIND) && CleanToken(FINISH_KIND) && CleanToken(EVENT_KIND)
    ensures CleanToken(OK_TOKEN) && CleanToken(ERROR_TOKEN)
    ensures CleanToken(NONE_TOKEN) && CleanToken(ZLIB_TOKEN) && CleanToken(GZ_TOKEN)
  {
  }

  /** No field of a checked diagnostic contains a delimiter or NUL. */
  lemma FieldsClean(d: Diagnostic, settings: Settings, libs: Libraries)
    requires Typed(d) && CheckedValue(d, settings, libs).Ok?
    ensures var f := BaseFields(d, d.key.vmId.value, settings, libs);
            forall i :: 0 <= i < 10 ==> BAR !in f[i] && NUL !in f[i]
  {
    TokensClean();
    if DurationOf(d).Some? {
      DurationRoundTrip(DurationOf(d).value, settings.durations);
    }
  }

  /** The base key splits back into its fields, and the chunk keys into base key and index. */
  lemma ChunkKeySplits(d: Diagnostic, settings: Settings, libs: Libraries, index: nat)
    requires Typed(d) && CheckedValue(d, settings, libs).Ok?
    ensures var f := BaseFields(d, d.key.vmId.value, settings, libs);
            var base := BaseKey(d, d.key.vmId.value, settings, libs);
            && Split(base, BAR) == f && NUL !in base
            && Split(ChunkKey(base, index), BAR)[0] == DIAGNOSTIC_VERSION_ID
            && RSplitOnce(ChunkKey(base, index), BAR) == Some((base, Decimal(index)))
  {
    var f := BaseFields(d, d.key.vmId.value, settings, libs);
    var digits := Decimal(index);
    FieldsClean(d, settings, libs);
    SplitJoin(f, BAR);
    JoinHas(f, BAR, NUL);
    DigitsHaveNoDot(digits);
    JoinAppend(f, digits, BAR);
    SplitJoin(f + [digits], BAR);
    RSplitOnceAt(Join(f, BAR), BAR, digits);
  }

  /** Every prepared record passes the store's validation in both pool modes. */
  lemma PreparedRecordsValidate(d: Diagnostic, settings: Settings, libs: Libraries, mode: PoolMode)
    requires Typed(d) && Renders(libs) && PreparedRecords(d, settings, libs).Ok?
    ensures ValidateAll(PreparedRecords(d, settings, libs).value, mode).Ok?
  {
    hide Greedy, ValidateField, IsUuid, BaseKey, Split, RSplitOnce;
    var rs := PreparedRecords(d, settings, libs).value;
    var base := BaseKey(d, d.key.vmId.value, settings, libs);
    var value := CheckedValue(d, settings, libs).value;
    CheckedValueValid(d, settings, libs);
    GreedyFitting(value);
    GreedyLossless(value);
    forall i | 0 <= i < |rs|
      ensures ValidateRecord(rs[i].key, rs[i].value, mode).Ok?
    {
      FrameAt(base, Greedy(value), 0, i);
      ChunkKeySplits(d, settings, libs, i);
      DigitsHaveNoDot(Decimal(i));
      assert |ChunkKey(base, i)| <= MAX_KEY_BYTES;
      PieceOf(Greedy(value), i);
    }
  }

  lemma {:induction false} PieceOf(pieces: seq<Text>, i: nat)
    requires i < |pieces| && NulFree(Concat(pieces))
    ensures NulFree(pieces[i])
  {
    assert forall b :: b in pieces[0] || b in Concat(pieces[1..]) ==> b in Concat(pieces);
    if i > 0 {
      PieceOf(pieces[1..], i - 1);
    }
  }

  // Prepared records are text.

  lemma {:induction false} JoinValid(fields: seq<Text>)
    requires forall i :: 0 <= i < |fields| ==> ValidUtf8(fields[i])
    ensures ValidUtf8(Join(fields, BAR))
  {
    if |fields| > 1 {
      JoinValid(fields[1..]);
      AsciiValid([BAR]);
      ValidConcat(fields[0], [BAR]);
      ValidConcat(fields[0] + [BAR], Join(fields[1..], BAR));
    }
  }

  lemma TokensValid()
    ensures ValidUtf8(DIAGNOSTIC_VERSION_ID)
    ensures ValidUtf8(START_KIND) && ValidUtf8(FINISH_KIND) && ValidUtf8(EVENT_KIND)
    ensures ValidUtf8(OK_TOKEN) && ValidUtf8(ERROR_TOKEN)
    ensures ValidUtf8(NONE_TOKEN) && ValidUtf8(ZLIB_TOKEN) && ValidUtf8(GZ_TOKEN)
  {
    hide ValidUtf8, Ascii;
    AsciiValid(DIAGNOSTIC_VERSION_ID);
    AsciiValid(START_KIND);
    AsciiValid(FINISH_KIND);
    AsciiValid(EVENT_KIND);
    AsciiValid(OK_TOKEN);
    AsciiValid(ERROR_TOKEN);
    AsciiValid(NONE_TOKEN);
    AsciiValid(ZLIB_TOKEN);
    AsciiValid(GZ_TOKEN);
  }

  lemma DigitsValid(digits: Text)
    requires AllDigits(digits)
    ensures ValidUtf8(digits)
  {
    AsciiValid(digits);
  }

  lemma DurationValid(d: Duration, precision: DurationPrecision)
    ensures ValidUtf8(Format(d, precision))
  {
    hide ValidUtf8, Decimal, Padded;
    AsciiValid(Format(d, precision));
  }

  lemma FieldsValid(d: Diagnostic, settings: Settings, libs: Libraries)
    requires Typed(d) && Renders(libs) && CheckedValue(d, settings, libs).Ok?
    ensures var f := BaseFields(d, d.key.vmId.value, settings, libs);
            forall i :: 0 <= i < |f| ==> ValidUtf8(f[i])
  {
    hide ValidUtf8, CheckedValue, Ascii, KindToken, OutcomeToken, DurationToken, EncodingToken, IsUuid;
    FieldsChecked(d, settings, libs);
    TokensValid();
    OptionalTokensValid(d, settings.durations);
  }

  lemma OptionalTokensValid(d: Diagnostic, precision: DurationPrecision)
    requires d.key.encoding.Some? ==> !d.key.encoding.value.OtherEncoding?
    ensures ValidUtf8(KindToken(d)) && ValidUtf8(OutcomeToken(OutcomeOf(d)))
    ensures ValidUtf8(DurationToken(DurationOf(d), precision)) && ValidUtf8(EncodingToken(d.key.encoding))
  {
    hide ValidUtf8, Format, OK_TOKEN, ERROR_TOKEN, NONE_TOKEN, ZLIB_TOKEN, GZ_TOKEN;
    hide START_KIND, FINISH_KIND, EVENT_KIND;
    AsciiValid([]);
    TokensValid();
    if DurationOf(d).Some? {
      DurationValid(DurationOf(d).value, precision);
    }
  }

  lemma ChunkKeyValid(base: Text, index: nat)
    requires ValidUtf8(base)
    ensures ValidUtf8(ChunkKey(base, index))
  {
    hide ValidUtf8, Decimal;
    AsciiValid([BAR]);
    DigitsValid(Decimal(index));
    ValidConcat(base, [BAR]);
    ValidConcat(base + [BAR], Decimal(index));
  }

  /** Cut at character boundaries, every chunk is text: the store can read back each prepared record. */
  lemma PreparedRecordsDecode(d: Diagnostic, settings: Settings, libs: Libraries)
    requires Typed(d) && Renders(libs) && PreparedRecords(d, settings, libs).Ok?
    ensures AllDecode(PreparedRecords(d, settings, libs).value)
  {
    hide ValidUtf8, CheckedValue, Typed, Renders, BaseFields, ChunkKey, Greedy;
    var rs := PreparedRecords(d, settings, libs).value;
    var value := CheckedValue(d, settings, libs).value;
    FieldsChecked(d, settings, libs);
    var base := BaseKey(d, d.key.vmId.value, settings, libs);
    CheckedValueValid(d, settings, libs);
    FieldsValid(d, settings, libs);
    JoinValid(BaseFields(d, d.key.vmId.value, settings, libs));
    GreedyFitting(value);
    forall i | 0 <= i < |rs|
      ensures Decodes(rs[i])
    {
      FrameAt(base, Greedy(value), 0, i);
      ChunkKeyValid(base, i);
    }
  }

  function KindText(d: Diagnostic): Text {
    match d
    case Start(_, _) => Ascii("start")
    case Finish(_, _, _, _) => Ascii("finish")
    case Event(_, _, _, _) => Ascii("event")
  }

  function OutcomeText(d: Diagnostic): Text {
    match d
    case Start(_, _) => []
    case Finish(_, _, result, _) => if result.Succeeded? then Ascii("ok") else Ascii("error")
    case Event(_, _, None, _) => []
    case Event(_, _, Some(outcome), _) => if outcome.Succeeded? then Ascii("ok") else Ascii("error")
  }

  function EncodingText(encoding: Option<Encoding>): Text {
    match encoding
    case None => Ascii("none")
    case Some(ZlibB64) => Ascii("zlib+b64")
    case Some(GzB64) => Ascii("gz+b64")
    case Some(OtherEncoding(token)) => token
  }

  /** The text of an optional duration. */
  ghost predicate ElapsedText(d: Diagnostic, precision: DurationPrecision, text: Text) {
    match d
    case Start(_, _) => text == []
    case Finish(_, _, _, duration) => IsDurationText(duration, precision, text)
    case Event(_, _, _, None) => text == []
    case Event(_, _, _, Some(elapsed)) => IsDurationText(elapsed, precision, text)
  }

  /** A base key, field by field as it is written. */
  ghost predicate BaseText(d: Diagnostic, vmId: Text, settings: Settings, libs: Libraries, base: Text) {
    exists elapsed: Text :: ElapsedText(d, settings.durations, elapsed) &&
      base == Join([Ascii("DIAG"), d.key.agent, vmId, KindText(d), d.key.name, d.key.eventId,
                    libs.formatTimestamp(d.key.timestamp, settings.timestamps), EncodingText(d.key.encoding),
                    OutcomeText(d), elapsed], 124)
  }

  lemma BaseIsText(d: Diagnostic, vmId: Text, settings: Settings, libs: Libraries)
    requires Typed(d)
    ensures BaseText(d, vmId, settings, libs, BaseKey(d, vmId, settings, libs))
  {
    hide Join, Format, IsDurationText, Ascii;
    if DurationOf(d).Some? {
      FormattedText(DurationOf(d).value, settings.durations);
    }
    var elapsed := DurationToken(DurationOf(d), settings.durations);
    assert ElapsedText(d, settings.durations, elapsed);
  }

  /**
   What the caller of `prepare_records` can rely on: the records split the encoded payload, with as
   few pieces as any split has, under keys that are the base key's text and the index, and from which
   these can be read back; the store accepts them in both modes and can read them back.
   */
  ghost predicate WellPrepared(d: Diagnostic, settings: Settings, libs: Libraries, records: seq<Record>) {
    && CheckedValue(d, settings, libs).Ok?
    && var value := CheckedValue(d, settings, libs).value;
       var base := BaseKey(d, d.key.vmId.value, settings, libs);
       && BaseText(d, d.key.vmId.value, settings, libs, base)
       && Splits(PiecesOf(records), value) && |records| <= 1023
       && (forall i :: 0 <= i < |records| ==> records[i].key == base + Ascii("|") + Decimal(i))
       && (forall pieces :: pieces != [] && Splits(pieces, value) ==> |records| <= |pieces|)
       && (forall i :: 0 <= i < |records| ==> RSplitOnce(records[i].key, BAR) == Some((base, Decimal(i))))
       && ValidateAll(records, Safe).Ok? && ValidateAll(records, Unsafe).Ok? && AllDecode(records)
  }

  lemma ChunkKeyText(base: Text, index: nat)
    ensures ChunkKey(base, index) == base + Ascii("|") + Decimal(index)
  {
    assert Ascii("|") == [BAR];
  }

  lemma RecordsWellPrepared(d: Diagnostic, settings: Settings, libs: Libraries)
    requires Typed(d) && Renders(libs) && PreparedRecords(d, settings, libs).Ok?
    ensures WellPrepared(d, settings, libs, PreparedRecords(d, settings, libs).value)
  {
    hide Typed, Renders, FrameResult, CheckedValue, BaseFields, BaseKey, ValidateAll, Decodes, Splits;
    hide RSplitOnce, ChunkKey, BaseText, Ascii;
    PreparedChecked(d, settings, libs);
    var records, value := PreparedRecords(d, settings, libs).value, CheckedValue(d, settings, libs).value;
    var base := BaseKey(d, d.key.vmId.value, settings, libs);
    CheckedValueValid(d, settings, libs);
    FramedWell(base, value);
    PreparedRecordsValidate(d, settings, libs, Safe);
    PreparedRecordsValidate(d, settings, libs, Unsafe);
    PreparedRecordsDecode(d, settings, libs);
    BaseIsText(d, d.key.vmId.value, settings, libs);
    forall i | 0 <= i < |records|
      ensures RSplitOnce(records[i].key, BAR) == Some((base, Decimal(i)))
      ensures records[i].key == base + Ascii("|") + Decimal(i)
    {
      ChunkKeySplits(d, settings, libs, i);
      ChunkKeyText(base, i);
    }
  }
}
