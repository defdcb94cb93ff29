/** `DiagnosticReader`: classify, group, order, decode, and emit in pool order. */
module Reader {
  import opened Results
  import opened Bytes
  import opened Utf8
  import opened Delimited
  import opened Decimals
  import opened Durations
  import opened KvpErrors
  import opened PoolLayout
  import opened Sorting
  import opened Uuids
  import opened Diagnostics
  import opened Grouping
  import CloudInitKeys
  import Report

  const UNSUPPORTED_PREFIX := Ascii("DIAG_V")
  const PROVISIONING_REPORT_KEY := Ascii("PROVISIONING_REPORT")

  // Ordering.

  predicate Repeats(sorted: seq<Part>) {
    exists i :: 0 <= i < |sorted| - 1 && sorted[i].0 == sorted[i + 1].0
  }

  predicate Contiguous(sorted: seq<Part>) {
    forall i :: 0 <= i < |sorted| ==> sorted[i].0 == i
  }

  function OrderedParts(parts: seq<Part>): Result<seq<Part>, DecodeError> {
    var sorted := Sort(parts);
    if Repeats(sorted) then Err(DuplicateChunk)
    else if !Contiguous(sorted) then Err(IncompleteGroup)
    else Ok(sorted)
  }

  /** `order_chunks`, which sorts its slice whatever it returns. */
  method OrderChunks(parts: array<Part>) returns (r: Result<(), DecodeError>)
    modifies parts
    ensures multiset(parts[..]) == multiset(old(parts[..])) && Sorted(parts[..])
    ensures match OrderedParts(old(parts[..]))
            case Ok(ordered) => r == Ok(()) && parts[..] == ordered
            case Err(e) => r == Err(e)
  {
    ghost var before := parts[..];
    var sorted := Sort(parts[..]);
    SortSorts(parts[..]);
    forall i | 0 <= i < parts.Length {
      parts[i] := sorted[i];
    }
    assert parts[..] == sorted;
    if exists i :: 0 <= i < |sorted| - 1 && sorted[i].0 == sorted[i + 1].0 {
      return Err(DuplicateChunk);
    }
    if exists i :: 0 <= i < |sorted| && sorted[i].0 != i {
      return Err(IncompleteGroup);
    }
    return Ok(());
  }

  /** Is `s` the parts in index order, indices 0, 1, 2, ... without gap or repetition? */
  ghost predicate IsOrdering(s: seq<Part>, parts: seq<Part>) {
    multiset(s) == multiset(parts) && Contiguous(s)
  }

  ghost predicate SomeIndexTwice(parts: seq<Part>) {
    exists i, j :: 0 <= i < j < |parts| && parts[i].0 == parts[j].0
  }

  lemma ContiguousStrict(s: seq<Part>)
    requires Contiguous(s)
    ensures StrictlySorted(s) && !Repeats(s)
  {
  }

  /** Ordering succeeds exactly when the indices are a permutation of 0..n-1. */
  lemma OrderedExactly(parts: seq<Part>)
    ensures OrderedParts(parts).Ok? <==> exists s :: IsOrdering(s, parts)
    ensures forall s :: IsOrdering(s, parts) ==> OrderedParts(parts) == Ok(s)
  {
    SortSorts(parts);
    if OrderedParts(parts).Ok? {
      assert IsOrdering(Sort(parts), parts);
    }
    forall s | IsOrdering(s, parts)
      ensures OrderedParts(parts) == Ok(s)
    {
      ContiguousStrict(s);
      SortOfPermutation(parts, s);
    }
  }

  /** The order of the chunks on disk does not matter. */
  lemma OrderedPermuted(a: seq<Part>, b: seq<Part>)
    requires multiset(a) == multiset(b)
    ensures OrderedParts(a) == OrderedParts(b)
  {
    OrderedExactly(a);
    OrderedExactly(b);
    if OrderedParts(a).Ok? {
      assert IsOrdering(OrderedParts(a).value, b) by {
        SortSorts(a);
      }
    } else {
      RepeatsExactly(a);
      RepeatsExactly(b);
      if SomeIndexTwice(a) {
        IndexTwicePermuted(a, b);
      }
      if SomeIndexTwice(b) {
        IndexTwicePermuted(b, a);
      }
      if OrderedParts(b).Ok? {
        SortSorts(b);
        assert IsOrdering(OrderedParts(b).value, a);
      }
    }
  }

  /** `DuplicateChunk` is reported exactly when some index repeats. */
  lemma RepeatsExactly(parts: seq<Part>)
    ensures OrderedParts(parts) == Err(DuplicateChunk) <==> SomeIndexTwice(parts)
  {
    var sorted := Sort(parts);
    SortSorts(parts);
    if Repeats(sorted) {
      var i :| 0 <= i < |sorted| - 1 && sorted[i].0 == sorted[i + 1].0;
      TwoOf(sorted, parts, i, i + 1);
    }
    if SomeIndexTwice(parts) {
      var i, j :| 0 <= i < j < |parts| && parts[i].0 == parts[j].0;
      TwoOf(parts, sorted, i, j);
      var k, l :| 0 <= k < l < |sorted| && sorted[k].0 == sorted[l].0;
      SortedBetween(sorted, k, k + 1);
      SortedBetween(sorted, k + 1, l);
    }
  }

  lemma {:induction false} SortedBetween(sorted: seq<Part>, i: nat, j: nat)
    requires Sorted(sorted) && i <= j < |sorted|
    ensures sorted[i].0 <= sorted[j].0
  {
    if i < j {
      SortedBetween(sorted, i, j - 1);
    }
  }

  lemma IndexTwicePermuted(a: seq<Part>, b: seq<Part>)
    requires multiset(a) == multiset(b) && SomeIndexTwice(a)
    ensures SomeIndexTwice(b)
  {
    var i, j :| 0 <= i < j < |a| && a[i].0 == a[j].0;
    TwoOf(a, b, i, j);
  }

  /** Two places of one sequence have two places in any permutation of it. */
  lemma TwoOf(a: seq<Part>, b: seq<Part>, i: nat, j: nat)
    requires multiset(a) == multiset(b) && i < j < |a| && a[i].0 == a[j].0
    ensures exists k, l :: 0 <= k < l < |b| && b[k].0 == b[l].0
  {
    var k := Place(a, b, i);
    if a[i] != a[j] {
      var l := Place(a, b, j);
      assert k != l;
    } else {
      RemoveAt(a, i);
      RemoveAt(b, k);
      var left, rest := a[..i] + a[i + 1..], b[..k] + b[k + 1..];
      assert left[j - 1] == a[j];
      var m := Place(left, rest, j - 1);
      assert b[if m < k then m else m + 1] == a[j];
    }
  }

  lemma RemoveAt(s: seq<Part>, k: nat)
    requires k < |s|
    ensures multiset(s[..k] + s[k + 1..]) == multiset(s) - multiset{s[k]}
  {
    assert s == s[..k] + [s[k]] + s[k + 1..];
  }

  lemma Place(a: seq<Part>, b: seq<Part>, i: nat) returns (k: nat)
    requires multiset(a) == multiset(b) && i < |a|
    ensures k < |b| && b[k] == a[i]
  {
    assert a[i] in multiset(b);
    k :| 0 <= k < |b| && b[k] == a[i];
  }

  // Decoding one group.

  function Values(parts: seq<Part>): seq<Text> {
    if parts == [] then [] else [parts[0].1] + Values(parts[1..])
  }

  function DecodePayload(value: Text, encoding: Option<Encoding>, libs: Libraries): Result<Payload, DecodeError> {
    match encoding
    case None => if ValidUtf8(value) then Ok(Plain(value)) else Err(Undecodable)
    case Some(OtherEncoding(_)) => Err(Undecodable)
    case Some(e) =>
      match libs.decompress(e, value)
      case None => Err(Undecodable)
      case Some(bytes) => Ok(Binary(bytes))
  }

  function DecodeChunks(parts: seq<Part>, encoding: Option<Encoding>, libs: Libraries): Result<Payload, DecodeError> {
    var ordered :- OrderedParts(parts);
    DecodePayload(Concat(Values(ordered)), encoding, libs)
  }

  /** `decode_chunks`, which orders its chunks in place. */
  method JoinChunks(parts: array<Part>, encoding: Option<Encoding>, libs: Libraries)
    returns (r: Result<Payload, DecodeError>)
    modifies parts
    ensures multiset(parts[..]) == multiset(old(parts[..]))
    ensures r == DecodeChunks(old(parts[..]), encoding, libs)
  {
    var ordered := OrderChunks(parts);
    if ordered.Err? {
      return Err(ordered.error);
    }
    return DecodePayload(Concat(Values(parts[..])), encoding, libs);
  }

  function ParseOutcome(token: Text): Result<Option<Outcome>, DecodeError> {
    if token == [] then Ok(None)
    else if token == OK_TOKEN then Ok(Some(Succeeded))
    else if token == ERROR_TOKEN then Ok(Some(Failed))
    else Err(Malformed)
  }

  function ParseDuration(token: Text, libs: Libraries): Result<Option<Duration>, DecodeError> {
    if token == [] then Ok(None)
    else
      match ParseDecimalDuration(token)
      case Ok(d) => Ok(Some(d))
      case Err(_) =>
        match libs.floatDuration(token)
        case None => Err(Malformed)
        case Some(d) => Ok(Some(d))
  }

  function ParseEncoding(token: Text): Option<Encoding> {
    if token == NONE_TOKEN then None
    else if token == ZLIB_TOKEN then Some(ZlibB64)
    else if token == GZ_TOKEN then Some(GzB64)
    else Some(OtherEncoding(token))
  }

  /** What a base key says: the shared metadata, the kind, and the optional outcome and duration. */
  datatype Header = Header(key: DiagnosticKey, kind: Text, result: Option<Outcome>, duration: Option<Duration>)

  function DecodeHeader(base: Text, f: seq<Text>, libs: Libraries): Result<Header, DecodeError> {
    if |f| != 10 then Err(Malformed)
    else if f[0] != DIAGNOSTIC_VERSION_ID || NUL in base
            || f[1] == [] || f[2] == [] || f[4] == [] || f[5] == [] || f[6] == [] || f[7] == [] then Err(Malformed)
    else if !IsUuid(f[2]) then Err(Malformed)
    else
      match libs.parseTimestamp(f[6])
      case None => Err(Malformed)
      case Some(timestamp) =>
        var result :- ParseOutcome(f[8]);
        var duration :- ParseDuration(f[9], libs);
        Ok(Header(DiagnosticKey(f[1], Some(f[2]), f[4], f[5], timestamp, ParseEncoding(f[7])), f[3], result, duration))
  }

  function DecodeBody(h: Header, parts: seq<Part>, libs: Libraries): Result<Diagnostic, DecodeError> {
    if h.kind == START_KIND && h.result.None? && h.duration.None? then
      var payload :- DecodeChunks(parts, h.key.encoding, libs);
      Ok(Start(h.key, payload))
    else if h.kind == FINISH_KIND && h.result.Some? && h.duration.Some? then
      var payload :- DecodeChunks(parts, h.key.encoding, libs);
      Ok(Finish(h.key, payload, h.result.value, h.duration.value))
    else if h.kind == EVENT_KIND then
      var payload :- DecodeChunks(parts, h.key.encoding, libs);
      Ok(Event(h.key, payload, h.result, h.duration))
    else Err(Malformed)
  }

  /** `decode_diag_group` on the fields of its base key. */
  function DecodeDiagFields(base: Text, f: seq<Text>, parts: seq<Part>, libs: Libraries):
    Result<Diagnostic, DecodeError>
  {
    var header :- DecodeHeader(base, f, libs);
    DecodeBody(header, parts, libs)
  }

  function DecodeGroup(base: Text, parts: seq<Part>, libs: Libraries): Result<Diagnostic, DecodeError> {
    if Split(base, BAR)[0] == CloudInitKeys.PREFIX then
      var ordered :- OrderedParts(parts);
      libs.cloudChunks(base, ordered)
    else DecodeDiagFields(base, Split(base, BAR), parts, libs)
  }

  /** The group as the reader decodes it, ordering its chunks in place. */
  method DecodeGroupInPlace(base: Text, parts: array<Part>, libs: Libraries)
    returns (r: Result<Diagnostic, DecodeError>)
    modifies parts
    ensures multiset(parts[..]) == multiset(old(parts[..]))
    ensures r == DecodeGroup(base, old(parts[..]), libs)
  {
    hide OrderedParts, DecodePayload, ParseOutcome, ParseDuration, ParseEncoding, DecodeHeader, Split;
    ghost var before := parts[..];
    if Split(base, BAR)[0] == CloudInitKeys.PREFIX {
      var ordered := OrderChunks(parts);
      if ordered.Err? {
        return Err(ordered.error);
      }
      return libs.cloudChunks(base, parts[..]);
    }
    var header :- DecodeHeader(base, Split(base, BAR), libs);
    if header.kind == START_KIND && header.result.None? && header.duration.None? {
      var payload :- JoinChunks(parts, header.key.encoding, libs);
      return Ok(Start(header.key, payload));
    } else if header.kind == FINISH_KIND && header.result.Some? && header.duration.Some? {
      var payload :- JoinChunks(parts, header.key.encoding, libs);
      return Ok(Finish(header.key, payload, header.result.value, header.duration.value));
    } else if header.kind == EVENT_KIND {
      var payload :- JoinChunks(parts, header.key.encoding, libs);
      return Ok(Event(header.key, payload, header.result, header.duration));
    }
    return Err(Malformed);
  }

  /** Decoding a group gives the same, diagnostic or error, for every physical order of its chunks. */
  lemma DecodeGroupPermuted(base: Text, a: seq<Part>, b: seq<Part>, libs: Libraries)
    requires multiset(a) == multiset(b)
    ensures DecodeGroup(base, a, libs) == DecodeGroup(base, b, libs)
  {
    OrderedPermuted(a, b);
  }

  // Classifying records.

  function SplitChunkKey(key: Text): Result<(Text, nat), DecodeError> {
    match RSplitOnce(key, BAR)
    case None => Err(Malformed)
    case Some((base, index)) =>
      var n :- ParseUnsigned(index);
      Ok((base, n))
  }

  /** What a key says about its record. */
  datatype KeyClass =
    | Chunk(base: Text, index: nat)
    | CloudRecord(base: Text)
    | ReportRecord
    | Bad(error: DecodeError)
    | Unrelated

  predicate StartsWith(s: Text, prefix: Text) {
    prefix <= s
  }

  function ClassOf(key: Text): KeyClass {
    var prefix := Split(key, BAR)[0];
    if prefix == DIAGNOSTIC_VERSION_ID then
      match SplitChunkKey(key)
      case Ok((base, index)) => Chunk(base, index)
      case Err(e) => Bad(e)
    else if prefix == CloudInitKeys.PREFIX then
      match CloudInitKeys.SplitKey(key)
      case Ok((base, Some(index))) => Chunk(base, index)
      case Ok((base, None)) => CloudRecord(base)
      case Err(e) => Bad(e)
    else if prefix == PROVISIONING_REPORT_KEY && key == PROVISIONING_REPORT_KEY then ReportRecord
    else if StartsWith(prefix, UNSUPPORTED_PREFIX) then Bad(UnsupportedVersion)
    else Unrelated
  }

  function ValidTimestamp(libs: Libraries): Text -> bool {
    t => libs.parseTimestamp(t).Some?
  }

  /** The entry of a record that is not a chunk. */
  function OwnEntry(r: Record, libs: Libraries): Entry
    requires !ClassOf(r.key).Chunk?
  {
    match ClassOf(r.key)
    case CloudRecord(base) =>
      (match libs.cloudSingle(base, r.value)
       case Ok(d) => DiagnosticEntry(d)
       case Err(e) => Raw(r, Some(e)))
    case ReportRecord =>
      (match Report.Parse(r.value, ValidTimestamp(libs))
       case Ok(report) => ReportEntry(report)
       case Err(e) => Raw(r, Some(e)))
    case Bad(e) => Raw(r, Some(e))
    case Unrelated => Raw(r, None)
  }

  /** A record as the grouping sees it. */
  function ItemOf(r: Record, libs: Libraries): Item {
    match ClassOf(r.key)
    case Chunk(base, index) => Member(base, r, (index, r.value))
    case _ => Own(OwnEntry(r, libs))
  }

  function Items(rs: seq<Record>, libs: Libraries): (items: seq<Item>)
    ensures |items| == |rs|
    ensures forall i :: 0 <= i < |rs| ==> items[i] == ItemOf(rs[i], libs)
  {
    seq(|rs|, i requires 0 <= i < |rs| => ItemOf(rs[i], libs))
  }

  function Decoder(libs: Libraries): GroupDecoder {
    (base, parts) => DecodeGroup(base, parts, libs)
  }

  /** What the reader returns for a pool. */
  function DecodedEntries(rs: seq<Record>, libs: Libraries): seq<Entry> {
    EntriesOf(Items(rs, libs), Decoder(libs))
  }

  // What stands for a record, from its text alone.

  /** A key's text up to its first `|`. */
  function Prefix(key: Text): Text {
    key[..Find(key, 124)]
  }

  /** The key of chunk `index` of a native diagnostic: a base key, `|`, and the index in digits. */
  ghost predicate IsChunkKey(key: Text, base: Text, index: nat) {
    exists digits: Text ::
      && key == base + Ascii("|") + digits && digits != [] && (forall i :: 0 <= i < |digits| ==> 48 <= digits[i] <= 57)
      && DigitsValue(digits) == index < 18_446_744_073_709_551_616
  }

  /** The record is chunk `index` of group `base`. */
  ghost predicate IsChunk(key: Text, base: Text, index: nat) {
    || (Prefix(key) == Ascii("DIAG") && IsChunkKey(key, base, index))
    || (Prefix(key) == Ascii("CLOUD_INIT") && CloudInitKeys.SplitKey(key) == Ok((base, Some(index))))
  }

  /** What is output for a record that is no chunk. */
  function OwnText(r: Record, libs: Libraries): Entry {
    var prefix := Prefix(r.key);
    if prefix == Ascii("DIAG") then RawEntry(r.key, r.value, Some(Malformed))
    else if prefix == Ascii("CLOUD_INIT") then
      match CloudInitKeys.SplitKey(r.key)
      case Err(_) => RawEntry(r.key, r.value, Some(Malformed))
      case Ok((base, _)) =>
        match libs.cloudSingle(base, r.value)
        case Ok(d) => DiagnosticEntry(d)
        case Err(error) => RawEntry(r.key, r.value, Some(error))
    else if r.key == Ascii("PROVISIONING_REPORT") then
      match Report.Parse(r.value, t => libs.parseTimestamp(t) != None)
      case Ok(report) => ReportEntry(report)
      case Err(error) => RawEntry(r.key, r.value, Some(error))
    else if Ascii("DIAG_V") <= prefix then RawEntry(r.key, r.value, Some(UnsupportedVersion))
    else RawEntry(r.key, r.value, None)
  }

  lemma PrefixIsFirst(key: Text)
    ensures Split(key, BAR)[0] == Prefix(key)
  {
  }

  lemma ChunkKeyExactly(key: Text, base: Text, index: nat)
    ensures SplitChunkKey(key) == Ok((base, index)) <==> IsChunkKey(key, base, index)
    ensures SplitChunkKey(key).Err? ==> SplitChunkKey(key) == Err(Malformed)
  {
    assert Ascii("|") == [BAR];
    hide Ascii;
    if SplitChunkKey(key).Ok? {
      RSplitOnceParts(key, BAR);
    }
    forall digits: Text | key == base + [BAR] + digits && digits != []
                          && (forall i :: 0 <= i < |digits| ==> 48 <= digits[i] <= 57)
      ensures RSplitOnce(key, BAR) == Some((base, digits))
    {
      RSplitOnceAt(base, BAR, digits);
    }
  }

  lemma CloudMalformed(key: Text)
    ensures CloudInitKeys.SplitKey(key).Err? ==> CloudInitKeys.SplitKey(key) == Err(Malformed)
  {
  }

  /** A record is grouped as its text says, or stands for itself as its text says. */
  lemma ItemExactly(r: Record, libs: Libraries)
    ensures forall base, index: nat ::
              IsChunk(r.key, base, index) ==> ItemOf(r, libs) == Member(base, r, (index, r.value))
    ensures (forall base, index: nat :: !IsChunk(r.key, base, index)) ==> ItemOf(r, libs) == Own(OwnText(r, libs))
  {
    hide Report.Parse, CloudInitKeys.SplitKey, SplitChunkKey, IsChunkKey, Split, Prefix;
    PrefixIsFirst(r.key);
    CloudMalformed(r.key);
    SplitMalformed(r.key);
    forall base, index: nat
      ensures SplitChunkKey(r.key) == Ok((base, index)) <==> IsChunkKey(r.key, base, index)
    {
      ChunkKeyExactly(r.key, base, index);
    }
    PrefixesDiffer(r.key);
    if ClassOf(r.key).Chunk? {
      assert IsChunk(r.key, ClassOf(r.key).base, ClassOf(r.key).index);
    } else if ClassOf(r.key).ReportRecord? {
      SameParse(r.value, libs);
    }
  }

  lemma SameParse(value: Text, libs: Libraries)
    ensures Report.Parse(value, ValidTimestamp(libs)) == Report.Parse(value, t => libs.parseTimestamp(t) != None)
  {
    var valid, known := ValidTimestamp(libs), t => libs.parseTimestamp(t) != None;
    assert forall t :: valid(t) == known(t);
  }

  lemma SplitMalformed(key: Text)
    ensures SplitChunkKey(key).Err? ==> SplitChunkKey(key) == Err(Malformed)
  {
  }

  lemma PrefixesDiffer(key: Text)
    ensures Ascii("DIAG") == DIAGNOSTIC_VERSION_ID && Ascii("CLOUD_INIT") == CloudInitKeys.PREFIX
    ensures Ascii("PROVISIONING_REPORT") == PROVISIONING_REPORT_KEY && Ascii("DIAG_V") == UNSUPPORTED_PREFIX
    ensures DIAGNOSTIC_VERSION_ID != CloudInitKeys.PREFIX
    ensures key == PROVISIONING_REPORT_KEY ==> Prefix(key) == PROVISIONING_REPORT_KEY
    ensures PROVISIONING_REPORT_KEY != DIAGNOSTIC_VERSION_ID && PROVISIONING_REPORT_KEY != CloudInitKeys.PREFIX
  {
    assert |DIAGNOSTIC_VERSION_ID| == 4 && |CloudInitKeys.PREFIX| == 10 && |PROVISIONING_REPORT_KEY| == 19;
    if key == PROVISIONING_REPORT_KEY {
      assert 124 !in key;
    }
  }

  /** In the output, at the place of every record that is no chunk, stands what its text says. */
  ghost predicate OwnRecordsStand(rs: seq<Record>, libs: Libraries, r: seq<Entry>) {
    exists placed: seq<(nat, Entry)> ::
      && r == Strip(placed) && StrictlySorted(placed)
      && (forall p: nat, e: Entry :: (p, e) in placed ==> p < |rs|)
      && forall p: nat :: p < |rs| && (forall base, index: nat :: !IsChunk(rs[p].key, base, index)) ==>
           (p, OwnText(rs[p], libs)) in placed
  }

  lemma OwnStands(rs: seq<Record>, libs: Libraries)
    ensures OwnRecordsStand(rs, libs, DecodedEntries(rs, libs))
  {
    hide ItemOf, OwnText, IsChunk, PlacedEntries, Strip;
    var items, decode := Items(rs, libs), Decoder(libs);
    var placed := PlacedEntries(items, |items|, decode);
    PlacedStrictly(items, |items|, decode);
    forall p: nat, e: Entry
      ensures (p, e) in placed <==> p < |items| && EntryAt(items, p, decode) == Some(e)
    {
      OutputIsEntries(items, |items|, decode, p, e);
    }
    forall p: nat | p < |rs| && (forall base, index: nat :: !IsChunk(rs[p].key, base, index))
      ensures (p, OwnText(rs[p], libs)) in placed
    {
      ItemExactly(rs[p], libs);
    }
  }

  // What a base key and a group say, from the text alone.

  predicate OutcomeReads(text: Text, outcome: Option<Outcome>) {
    match outcome
    case None => text == []
    case Some(Succeeded) => text == Ascii("ok")
    case Some(Failed) => text == Ascii("error")
  }

  /** A duration in plain decimal, or whatever else the float parser accepts. */
  predicate ElapsedReads(text: Text, elapsed: Option<Duration>, libs: Libraries) {
    match elapsed
    case None => text == []
    case Some(d) =>
      && text != []
      && if ParseDecimalDuration(text).Ok? then ParseDecimalDuration(text) == Ok(d)
         else libs.floatDuration(text) == Some(d)
  }

  predicate EncodingReads(text: Text, encoding: Option<Encoding>) {
    match encoding
    case None => text == Ascii("none")
    case Some(ZlibB64) => text == Ascii("zlib+b64")
    case Some(GzB64) => text == Ascii("gz+b64")
    case Some(OtherEncoding(token)) =>
      token == text && text != Ascii("none") && text != Ascii("zlib+b64") && text != Ascii("gz+b64")
  }

  /** The ten fields of a base key, and the header they spell. */
  ghost predicate HeaderReads(base: Text, f: seq<Text>, libs: Libraries, h: Header) {
    && |f| == 10 && base == Join(f, 124) && 0 !in base && (forall i :: 0 <= i < 10 ==> 124 !in f[i])
    && f[0] == Ascii("DIAG") && f[1] != [] && f[4] != [] && f[5] != []
    && IsUuid(f[2]) && libs.parseTimestamp(f[6]) == Some(h.key.timestamp) && f[6] != [] && f[7] != []
    && h.key.agent == f[1] && h.key.vmId == Some(f[2]) && h.kind == f[3] && h.key.name == f[4] && h.key.eventId == f[5]
    && EncodingReads(f[7], h.key.encoding) && OutcomeReads(f[8], h.result) && ElapsedReads(f[9], h.duration, libs)
  }

  lemma OutcomeExactly(text: Text, outcome: Option<Outcome>)
    ensures ParseOutcome(text) == Ok(outcome) <==> OutcomeReads(text, outcome)
    ensures ParseOutcome(text).Err? ==> ParseOutcome(text) == Err(Malformed)
  {
    assert |Ascii("ok")| == 2 && |Ascii("error")| == 5;
  }

  lemma ElapsedExactly(text: Text, elapsed: Option<Duration>, libs: Libraries)
    ensures ParseDuration(text, libs) == Ok(elapsed) <==> ElapsedReads(text, elapsed, libs)
    ensures ParseDuration(text, libs).Err? ==> ParseDuration(text, libs) == Err(Malformed)
  {
    hide ParseDecimalDuration;
  }

  lemma EncodingExactly(text: Text, encoding: Option<Encoding>)
    ensures ParseEncoding(text) == encoding <==> EncodingReads(text, encoding)
  {
    assert |Ascii("none")| == 4 && |Ascii("zlib+b64")| == 8 && |Ascii("gz+b64")| == 6;
  }

  lemma UuidSome(s: Text)
    ensures IsUuid(s) ==> s != []
  {
  }

  /** A base key is accepted exactly when it consists of ten such fields, and read as they say. */
  lemma HeaderExactly(base: Text, libs: Libraries, h: Header)
    ensures DecodeHeader(base, Split(base, BAR), libs) == Ok(h) <==> exists f :: HeaderReads(base, f, libs, h)
    ensures DecodeHeader(base, Split(base, BAR), libs).Err? ==>
              DecodeHeader(base, Split(base, BAR), libs) == Err(Malformed)
  {
    hide Split, Join, IsUuid, ParseOutcome, ParseDuration, ParseEncoding, OutcomeReads, ElapsedReads, EncodingReads;
    var f := Split(base, BAR);
    JoinSplit(base, BAR);
    if |f| == 10 {
      FieldsRead(base, f, libs, h);
    }
    forall g | HeaderReads(base, g, libs, h)
      ensures g == f
    {
      SplitJoin(g, BAR);
    }
  }

  lemma FieldsRead(base: Text, f: seq<Text>, libs: Libraries, h: Header)
    requires |f| == 10 && base == Join(f, BAR) && forall i :: 0 <= i < 10 ==> BAR !in f[i]
    ensures DecodeHeader(base, f, libs) == Ok(h) <==> HeaderReads(base, f, libs, h)
    ensures DecodeHeader(base, f, libs).Err? ==> DecodeHeader(base, f, libs) == Err(Malformed)
  {
    hide Join, IsUuid, ParseOutcome, ParseDuration, ParseEncoding, OutcomeReads, ElapsedReads, EncodingReads, Ascii;
    UuidSome(f[2]);
    EncodingExactly(f[7], h.key.encoding);
    OutcomeExactly(f[8], h.result);
    ElapsedExactly(f[9], h.duration, libs);
    OutcomeExactly(f[8], if ParseOutcome(f[8]).Ok? then ParseOutcome(f[8]).value else None);
    ElapsedExactly(f[9], if ParseDuration(f[9], libs).Ok? then ParseDuration(f[9], libs).value else None, libs);
  }

  function Made<T>(r: Result<Payload, DecodeError>, of: Payload -> T): Result<T, DecodeError> {
    match r
    case Ok(payload) => Ok(of(payload))
    case Err(e) => Err(e)
  }

  /** The three kinds and the fields they must and must not have. */
  lemma BodyExactly(h: Header, parts: seq<Part>, libs: Libraries)
    ensures var payload := DecodeChunks(parts, h.key.encoding, libs);
            DecodeBody(h, parts, libs) ==
            if h.kind == Ascii("start") && h.result.None? && h.duration.None? then
              Made(payload, p => Start(h.key, p))
            else if h.kind == Ascii("finish") && h.result.Some? && h.duration.Some? then
              Made(payload, p => Finish(h.key, p, h.result.value, h.duration.value))
            else if h.kind == Ascii("event") then Made(payload, p => Event(h.key, p, h.result, h.duration))
            else Err(Malformed)
  {
    hide DecodeChunks, Ascii;
  }

  /** A payload's bytes are text without an encoding, and otherwise what the decompressor makes of them. */
  predicate PayloadReads(value: Text, encoding: Option<Encoding>, libs: Libraries, payload: Payload) {
    match encoding
    case None => payload == Plain(value) && ValidUtf8(value)
    case Some(OtherEncoding(_)) => false
    case Some(e) => payload.Binary? && libs.decompress(e, value) == Some(payload.bytes)
  }

  lemma PayloadExactly(value: Text, encoding: Option<Encoding>, libs: Libraries, payload: Payload)
    ensures DecodePayload(value, encoding, libs) == Ok(payload) <==> PayloadReads(value, encoding, libs, payload)
    ensures DecodePayload(value, encoding, libs).Err? ==> DecodePayload(value, encoding, libs) == Err(Undecodable)
  {
  }

  /** `decode_entries`: classify every record, then group. */
  method DecodeEntries(rs: seq<Record>, libs: Libraries) returns (r: seq<Entry>)
    ensures r == DecodedEntries(rs, libs)
    ensures Conserves(Items(rs, libs), Decoder(libs), r) && OwnRecordsStand(rs, libs, r)
  {
    hide Conserves, OwnRecordsStand, ItemOf;
    OwnStands(rs, libs);
    r := GroupAndDecode(Items(rs, libs), Decoder(libs));
  }
}
