/**
 From writer to reader through a pool that other operations keep reordering: every emitted
 diagnostic comes back exactly once.
 */
module RoundTrip {
  import opened Results
  import opened Bytes
  import opened Utf8
  import opened Delimited
  import opened Decimals
  import opened Durations
  import opened KvpErrors
  import opened Uuids
  import opened Diagnostics
  import opened Framing
  import opened Grouping
  import opened Reader
  import opened Writer
  import CloudInitKeys

  function ReadPayload(payload: Payload, encoding: Option<Encoding>): Payload {
    if encoding.None? then Plain(PayloadBytes(payload)) else Binary(PayloadBytes(payload))
  }

  function ReadDuration(duration: Option<Duration>, settings: Settings): Option<Duration> {
    if duration.None? then None else Some(Truncated(duration.value, settings.durations))
  }

  /** The diagnostic as it comes back: timestamp and duration truncated, encoded payloads as bytes. */
  function ReadBack(d: Diagnostic, settings: Settings, libs: Libraries): Diagnostic {
    var key := d.key.(timestamp := libs.truncateTimestamp(d.key.timestamp, settings.timestamps));
    var payload := ReadPayload(d.payload, key.encoding);
    match d
    case Start(_, _) => Start(key, payload)
    case Finish(_, _, result, duration) => Finish(key, payload, result, Truncated(duration, settings.durations))
    case Event(_, _, outcome, elapsed) => Event(key, payload, outcome, ReadDuration(elapsed, settings))
  }

  // One group.

  /** The parts the reader sees of framed chunks, in index order. */
  function FrameParts(chunks: seq<Text>, from: nat): (ps: seq<Part>)
    ensures |ps| == |chunks|
    ensures forall i :: 0 <= i < |ps| ==> ps[i] == (from + i, chunks[i])
  {
    seq(|chunks|, i requires 0 <= i < |chunks| => (from + i, chunks[i]))
  }

  lemma {:induction false} ValuesOfParts(chunks: seq<Text>, from: nat)
    ensures Values(FrameParts(chunks, from)) == chunks
  {
    if chunks != [] {
      ValuesOfParts(chunks[1..], from + 1);
      assert FrameParts(chunks, from)[1..] == FrameParts(chunks[1..], from + 1);
    }
  }

  lemma TokensDiffer()
    ensures OK_TOKEN != ERROR_TOKEN && OK_TOKEN != [] && ERROR_TOKEN != []
    ensures START_KIND != FINISH_KIND && START_KIND != EVENT_KIND && FINISH_KIND != EVENT_KIND
    ensures NONE_TOKEN != ZLIB_TOKEN && NONE_TOKEN != GZ_TOKEN && ZLIB_TOKEN != GZ_TOKEN && NONE_TOKEN != []
    ensures ZLIB_TOKEN != [] && GZ_TOKEN != []
    ensures DIAGNOSTIC_VERSION_ID != CloudInitKeys.PREFIX
  {
    assert |OK_TOKEN| == 2 && |START_KIND| == 5 && |EVENT_KIND| == 5 && START_KIND[0] != EVENT_KIND[0];
    assert |FINISH_KIND| == 6 && |NONE_TOKEN| == 4 && |ZLIB_TOKEN| == 8 && |GZ_TOKEN| == 6;
    assert |DIAGNOSTIC_VERSION_ID| == 4 && |CloudInitKeys.PREFIX| == 10;
  }

  lemma OutcomeParses(outcome: Option<Outcome>)
    ensures ParseOutcome(OutcomeToken(outcome)) == Ok(outcome)
  {
    hide Ascii;
    TokensDiffer();
  }

  lemma DurationParses(duration: Option<Duration>, settings: Settings, libs: Libraries)
    requires duration.Some? ==> duration.value.Valid()
    ensures ParseDuration(DurationToken(duration, settings.durations), libs) == Ok(ReadDuration(duration, settings))
  {
    hide Format, ParseDecimalDuration, Truncated;
    if duration.Some? {
      DurationRoundTrip(duration.value, settings.durations);
    }
  }

  lemma EncodingParses(encoding: Option<Encoding>)
    requires encoding.Some? ==> !encoding.value.OtherEncoding?
    ensures ParseEncoding(EncodingToken(encoding)) == encoding && EncodingToken(encoding) != []
  {
    hide Ascii;
    TokensDiffer();
  }

  /** Every optional token parses back. */
  lemma TokensParse(d: Diagnostic, settings: Settings, libs: Libraries)
    requires Typed(d) && CheckedValue(d, settings, libs).Ok?
    ensures ParseOutcome(OutcomeToken(OutcomeOf(d))) == Ok(OutcomeOf(d))
    ensures ParseDuration(DurationToken(DurationOf(d), settings.durations), libs) ==
            Ok(ReadDuration(DurationOf(d), settings))
    ensures ParseEncoding(EncodingToken(d.key.encoding)) == d.key.encoding && EncodingToken(d.key.encoding) != []
  {
    hide CheckedValue, ParseOutcome, OutcomeToken, ParseDuration, DurationToken, ParseEncoding, EncodingToken;
    OutcomeParses(OutcomeOf(d));
    DurationParses(DurationOf(d), settings, libs);
    FieldsChecked(d, settings, libs);
    EncodingParses(d.key.encoding);
  }

  /** Chunks in any order are put back together. */
  lemma PartsJoin(chunks: seq<Text>, parts: seq<Part>)
    requires multiset(parts) == multiset(FrameParts(chunks, 0))
    ensures OrderedParts(parts) == Ok(FrameParts(chunks, 0)) && Values(FrameParts(chunks, 0)) == chunks
  {
    OrderedExactly(parts);
    assert IsOrdering(FrameParts(chunks, 0), parts);
    ValuesOfParts(chunks, 0);
  }

  lemma EncodedDecodes(d: Diagnostic, settings: Settings, libs: Libraries)
    requires Typed(d) && Faithful(d, settings, libs) && EncodePayload(d.payload, d.key.encoding, libs).Ok?
    ensures DecodePayload(EncodePayload(d.payload, d.key.encoding, libs).value, d.key.encoding, libs) ==
            Ok(ReadPayload(d.payload, d.key.encoding))
  {
  }

  lemma PayloadDecodes(d: Diagnostic, settings: Settings, libs: Libraries, parts: seq<Part>)
    requires Typed(d) && Renders(libs) && Faithful(d, settings, libs) && CheckedValue(d, settings, libs).Ok?
    requires multiset(parts) == multiset(FrameParts(Greedy(CheckedValue(d, settings, libs).value), 0))
    ensures DecodeChunks(parts, d.key.encoding, libs) == Ok(ReadPayload(d.payload, d.key.encoding))
  {
    hide Greedy, OrderedParts;
    var value := CheckedValue(d, settings, libs).value;
    PartsJoin(Greedy(value), parts);
    GreedyLossless(value);
    EncodedDecodes(d, settings, libs);
  }

  function ReadHeader(d: Diagnostic, settings: Settings, libs: Libraries): Header {
    Header(ReadBack(d, settings, libs).key, KindToken(d), OutcomeOf(d), ReadDuration(DurationOf(d), settings))
  }

  lemma HeaderDecodes(d: Diagnostic, settings: Settings, libs: Libraries)
    requires Typed(d) && Renders(libs) && Faithful(d, settings, libs) && CheckedValue(d, settings, libs).Ok?
    ensures var base := BaseKey(d, d.key.vmId.value, settings, libs);
            DecodeHeader(base, Split(base, BAR), libs) == Ok(ReadHeader(d, settings, libs))
  {
    hide ParseOutcome, ParseDuration, ParseEncoding, Format, Split, CheckedValue, BaseKey, Typed, OutcomeOf, DurationOf,
         OutcomeToken, DurationToken, EncodingToken, KindToken, IsUuid;
    ChunkKeySplits(d, settings, libs, 0);
    TokensParse(d, settings, libs);
    FieldsChecked(d, settings, libs);
  }

  lemma BodyDecodes(d: Diagnostic, settings: Settings, libs: Libraries, parts: seq<Part>)
    requires DecodeChunks(parts, d.key.encoding, libs) == Ok(ReadPayload(d.payload, d.key.encoding))
    ensures DecodeBody(ReadHeader(d, settings, libs), parts, libs) == Ok(ReadBack(d, settings, libs))
  {
    TokensDiffer();
  }

  lemma BodyFails(d: Diagnostic, settings: Settings, libs: Libraries, parts: seq<Part>)
    requires DecodeChunks(parts, d.key.encoding, libs).Err?
    ensures DecodeBody(ReadHeader(d, settings, libs), parts, libs) ==
            Err(DecodeChunks(parts, d.key.encoding, libs).error)
  {
    hide DecodeChunks;
    TokensDiffer();
  }

  /** With a chunk twice, the group fails with `DuplicateChunk`, whatever else it holds. */
  lemma TwiceFails(d: Diagnostic, settings: Settings, libs: Libraries, parts: seq<Part>)
    requires Typed(d) && Renders(libs) && Faithful(d, settings, libs) && CheckedValue(d, settings, libs).Ok?
    requires SomeIndexTwice(parts)
    ensures DecodeGroup(BaseKey(d, d.key.vmId.value, settings, libs), parts, libs) == Err(DuplicateChunk)
  {
    hide CheckedValue, OrderedParts, BaseKey, Typed, Renders, Faithful, DecodeHeader, DecodeBody, Split;
    FieldsChecked(d, settings, libs);
    RepeatsExactly(parts);
    BodyFails(d, settings, libs, parts);
    HeaderDecodes(d, settings, libs);
    NotCloudInit(d, settings, libs);
  }

  /** Whatever the physical order of its chunks, a group decodes to the diagnostic that was emitted. */
  lemma GroupDecodes(d: Diagnostic, settings: Settings, libs: Libraries, parts: seq<Part>)
    requires Typed(d) && Renders(libs) && Faithful(d, settings, libs) && CheckedValue(d, settings, libs).Ok?
    requires multiset(parts) == multiset(FrameParts(Greedy(CheckedValue(d, settings, libs).value), 0))
    ensures DecodeGroup(BaseKey(d, d.key.vmId.value, settings, libs), parts, libs) == Ok(ReadBack(d, settings, libs))
  {
    PayloadDecodes(d, settings, libs, parts);
    HeaderDecodes(d, settings, libs);
    BodyDecodes(d, settings, libs, parts);
    NotCloudInit(d, settings, libs);
  }

  lemma NotCloudInit(d: Diagnostic, settings: Settings, libs: Libraries)
    requires Typed(d) && CheckedValue(d, settings, libs).Ok?
    ensures Split(BaseKey(d, d.key.vmId.value, settings, libs), BAR)[0] != CloudInitKeys.PREFIX
  {
    ChunkKeySplits(d, settings, libs, 0);
    TokensDiffer();
  }

  lemma ChunkClass(d: Diagnostic, settings: Settings, libs: Libraries, index: nat)
    requires Typed(d) && CheckedValue(d, settings, libs).Ok? && index < U64_LIMIT
    ensures var base := BaseKey(d, d.key.vmId.value, settings, libs);
            ClassOf(ChunkKey(base, index)) == Chunk(base, index)
  {
    ChunkKeySplits(d, settings, libs, index);
    ParseDecimal(index);
  }

  // Lost chunks.

  lemma FramePartAt(chunks: seq<Text>, s: seq<Part>, i: nat)
    requires i < |s| && s[i].0 == i && multiset(s) <= multiset(FrameParts(chunks, 0))
    ensures i < |chunks| && s[i] == (i, chunks[i])
  {
    assert s[i] in multiset(s);
    assert s[i] in multiset(FrameParts(chunks, 0));
    assert s[i] in FrameParts(chunks, 0);
  }

  lemma ContiguousBeginning(chunks: seq<Text>, s: seq<Part>)
    requires Contiguous(s) && multiset(s) <= multiset(FrameParts(chunks, 0))
    ensures |s| <= |chunks| && s == FrameParts(chunks[..|s|], 0)
  {
    forall i | 0 <= i < |s|
      ensures i < |chunks| && s[i] == (i, chunks[i])
    {
      FramePartAt(chunks, s, i);
    }
    if s != [] {
      FramePartAt(chunks, s, |s| - 1);
    }
  }

  /** Of the chunks of a payload, the sets that pass for complete are exactly its beginnings. */
  lemma OrderedBeginnings(chunks: seq<Text>, parts: seq<Part>)
    requires multiset(parts) <= multiset(FrameParts(chunks, 0))
    ensures OrderedParts(parts).Ok? <==>
            |parts| <= |chunks| && multiset(parts) == multiset(FrameParts(chunks[..|parts|], 0))
  {
    OrderedExactly(parts);
    if OrderedParts(parts).Ok? {
      var s :| IsOrdering(s, parts);
      assert |s| == |multiset(s)| == |multiset(parts)| == |parts|;
      ContiguousBeginning(chunks, s);
    }
    if |parts| <= |chunks| && multiset(parts) == multiset(FrameParts(chunks[..|parts|], 0)) {
      assert IsOrdering(FrameParts(chunks[..|parts|], 0), parts);
    }
  }

  lemma BeginningValid(value: Text, n: nat)
    requires ValidUtf8(value) && n <= |Greedy(value)|
    ensures ValidUtf8(Concat(Greedy(value)[..n]))
  {
    GreedyFitting(value);
    ValidConcatAll(Greedy(value)[..n]);
  }

  function WithPayload(d: Diagnostic, payload: Payload): Diagnostic {
    match d
    case Start(key, _) => Start(key, payload)
    case Finish(key, _, result, duration) => Finish(key, payload, result, duration)
    case Event(key, _, outcome, elapsed) => Event(key, payload, outcome, elapsed)
  }

  /** The diagnostic with the payload that its first `n` chunks decode to, if they do. */
  function CutDown(d: Diagnostic, value: Text, n: nat, libs: Libraries): Result<Diagnostic, DecodeError>
    requires n <= |Greedy(value)|
  {
    var payload :- DecodePayload(Concat(Greedy(value)[..n]), d.key.encoding, libs);
    Ok(WithPayload(d, payload))
  }

  /** Plain text always does: it is cut between characters. */
  lemma PlainCutDown(d: Diagnostic, value: Text, n: nat, libs: Libraries)
    requires ValidUtf8(value) && n <= |Greedy(value)| && d.key.encoding.None?
    ensures CutDown(d, value, n, libs) == Ok(WithPayload(d, Plain(Concat(Greedy(value)[..n]))))
  {
    BeginningValid(value, n);
  }

  /**
   When chunks of a diagnostic are lost, the rest fails to decode unless what is lost is a tail:
   then, and only then, the loss goes unnoticed, unless by the decompressor. Plain text comes back
   cut short.
   */
  lemma LostChunksExactly(d: Diagnostic, settings: Settings, libs: Libraries, parts: seq<Part>)
    requires Typed(d) && Renders(libs) && Faithful(d, settings, libs) && CheckedValue(d, settings, libs).Ok?
    requires multiset(parts) <= multiset(FrameParts(Greedy(CheckedValue(d, settings, libs).value), 0))
    ensures var value := CheckedValue(d, settings, libs).value;
            var base := BaseKey(d, d.key.vmId.value, settings, libs);
            var tailLost :=
              |parts| <= |Greedy(value)| && multiset(parts) == multiset(FrameParts(Greedy(value)[..|parts|], 0));
            && (tailLost ==>
                  DecodeGroup(base, parts, libs) == CutDown(ReadBack(d, settings, libs), value, |parts|, libs))
            && (!tailLost ==> DecodeGroup(base, parts, libs).Err?)
            && (d.key.encoding.None? ==> (DecodeGroup(base, parts, libs).Ok? <==> tailLost))
  {
    hide CheckedValue, Greedy, BaseKey, Typed, Renders, Faithful, DecodeHeader, OrderedParts, Split, DecodePayload;
    var value := CheckedValue(d, settings, libs).value;
    OrderedBeginnings(Greedy(value), parts);
    HeaderDecodes(d, settings, libs);
    NotCloudInit(d, settings, libs);
    TokensDiffer();
    if OrderedParts(parts).Ok? {
      CheckedValueValid(d, settings, libs);
      PartsJoin(Greedy(value)[..|parts|], parts);
      if d.key.encoding.None? {
        PlainCutDown(ReadBack(d, settings, libs), value, |parts|, libs);
      }
    }
  }
}
