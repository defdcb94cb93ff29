/**
 cloud-init's chunked messages: `msg` comes last in each chunk's JSON and holds a slice of one
 escaped string, cut anywhere, even inside an escape.
 */
module CloudInitChunks {
  import opened Results
  import opened Bytes
  import opened KvpErrors
  import opened CloudInitKeys
  import opened JsonStrings

  const SEPARATOR := Ascii(",\"msg\":")
  const CLOSING := Ascii("\"}")
  const CLOSE_BRACE: byte := 125

  predicate OccursAt(s: Text, sep: Text, i: nat) {
    i + |sep| <= |s| && s[i..i + |sep|] == sep
  }

  /** The last place before `end` where `sep` starts. */
  function LastOccurrence(s: Text, sep: Text, end: nat): (r: Option<nat>)
    ensures r.Some? ==> r.value < end && OccursAt(s, sep, r.value)
    ensures forall i :: (if r.Some? then r.value + 1 else 0) <= i < end ==> !OccursAt(s, sep, i)
  {
    if end == 0 then None
    else if OccursAt(s, sep, end - 1) then Some(end - 1)
    else LastOccurrence(s, sep, end - 1)
  }

  /** `rsplit_once` on a string separator. */
  function RSplitOnceOn(s: Text, sep: Text): Option<(Text, Text)> {
    match LastOccurrence(s, sep, |s|)
    case None => None
    case Some(i) => Some((s[..i], s[i + |sep|..]))
  }

  /** The JSON text in front of `msg`, and the slice of the message. */
  function ChunkParts(value: Text): Result<(Text, Text), DecodeError> {
    match RSplitOnceOn(value, SEPARATOR)
    case None => Err(Malformed)
    case Some((prefix, message)) =>
      if message == [] || message[0] != DQUOTE then Err(Malformed)
      else
        var rest := message[1..];
        if |rest| < 2 || rest[|rest| - 2..] != CLOSING then Err(Malformed)
        else Ok((prefix, rest[..|rest| - 2]))
  }

  /** A chunk as cloud-init writes it. */
  function ChunkValue(prefix: Text, fragment: Text): Text {
    prefix + SEPARATOR + [DQUOTE] + fragment + CLOSING
  }

  lemma OccurrenceBytes(s: Text, i: nat)
    ensures OccursAt(s, SEPARATOR, i) ==> i + 7 <= |s| && s[i] == COMMA && s[i + 1] == DQUOTE && s[i + 2] == 109
  {
    assert SEPARATOR == [COMMA, DQUOTE, 109, 115, 103, DQUOTE, 58];
    assert OccursAt(s, SEPARATOR, i) ==>
        s[i] == s[i..i + 7][0] && s[i + 1] == s[i..i + 7][1] && s[i + 2] == s[i..i + 7][2];
  }

  lemma ChunkBytes(prefix: Text, fragment: Text)
    ensures var value, n, end := ChunkValue(prefix, fragment), |prefix|, |prefix| + 8 + |fragment|;
            && |value| == end + 2 && value[end] == DQUOTE && value[end + 1] == CLOSE_BRACE
            && (forall j :: n < j < n + 8 ==> value[j] != COMMA)
            && (forall j :: 0 <= j < |fragment| ==> value[n + 8 + j] == fragment[j])
  {
    assert SEPARATOR == [COMMA, DQUOTE, 109, 115, 103, DQUOTE, 58] && CLOSING == [DQUOTE, CLOSE_BRACE];
    assert ChunkValue(prefix, fragment) == prefix + (SEPARATOR + [DQUOTE]) + fragment + CLOSING;
  }

  /** Behind the real separator there is no second one: a quote there would follow a comma unescaped. */
  lemma NoLaterSeparator(prefix: Text, fragment: Text, i: nat)
    requires QuotesEscaped(fragment) && i > |prefix|
    ensures !OccursAt(ChunkValue(prefix, fragment), SEPARATOR, i)
  {
    var j := i - |prefix| - 8;
    OccurrenceBytes(ChunkValue(prefix, fragment), i);
    ChunkBytes(prefix, fragment);
    assert 0 <= j < |fragment| - 1 ==> !(fragment[j] == COMMA && fragment[j + 1] == DQUOTE);
  }

  /** Every slice of an escaped string is recovered exactly. */
  lemma ChunkPartsRecover(prefix: Text, fragment: Text)
    requires QuotesEscaped(fragment)
    ensures ChunkParts(ChunkValue(prefix, fragment)) == Ok((prefix, fragment))
  {
    var value, n := ChunkValue(prefix, fragment), |prefix|;
    assert |SEPARATOR| == 7 && |CLOSING| == 2;
    assert value[n..n + 7] == SEPARATOR;
    assert OccursAt(value, SEPARATOR, n);
    var last := LastOccurrence(value, SEPARATOR, |value|);
    if last.Some? && last.value > n {
      NoLaterSeparator(prefix, fragment, last.value);
    }
    assert last == Some(n);
    assert value[..n] == prefix && value[n + 7..] == [DQUOTE] + fragment + CLOSING;
    var rest := value[n + 7..][1..];
    assert rest == fragment + CLOSING;
    assert rest[|rest| - 2..] == CLOSING && rest[..|rest| - 2] == fragment;
  }

  /** A chunk's text: some JSON, the last `msg` in it, and a slice of the message up to the end. */
  predicate PartsRead(value: Text, prefix: Text, fragment: Text) {
    && value == prefix + Ascii(",\"msg\":\"") + fragment + Ascii("\"}")
    && forall j :: |prefix| < j < |value| ==> !OccursAt(value, Ascii(",\"msg\":"), j)
  }

  /** Exactly those texts can be taken apart, and in that way. */
  lemma PartsExactly(value: Text, prefix: Text, fragment: Text)
    ensures ChunkParts(value) == Ok((prefix, fragment)) <==> PartsRead(value, prefix, fragment)
    ensures ChunkParts(value).Err? ==> ChunkParts(value) == Err(Malformed)
  {
    hide OccursAt;
    SeparatorText();
    hide Ascii, ChunkParts;
    if ChunkParts(value) == Ok((prefix, fragment)) {
      PartsJoin(value);
    }
    if PartsRead(value, prefix, fragment) {
      LastSeparator(value, prefix, fragment);
    }
    PartsMalformed(value);
  }

  lemma PartsMalformed(value: Text)
    ensures ChunkParts(value).Err? ==> ChunkParts(value) == Err(Malformed)
  {
  }

  lemma SeparatorText()
    ensures Ascii(",\"msg\":\"") == SEPARATOR + [DQUOTE] && Ascii(",\"msg\":") == SEPARATOR
    ensures Ascii("\"}") == CLOSING == [DQUOTE, 125]
  {
    assert Ascii(",\"msg\":\"") == SEPARATOR + [DQUOTE];
  }

  lemma PartsJoin(value: Text)
    requires ChunkParts(value).Ok?
    ensures var (prefix, fragment) := ChunkParts(value).value;
            && value == prefix + (SEPARATOR + [DQUOTE]) + fragment + CLOSING
            && forall j :: |prefix| < j < |value| ==> !OccursAt(value, SEPARATOR, j)
  {
    hide Ascii, SEPARATOR, CLOSING, LastOccurrence;
    var i := LastOccurrence(value, SEPARATOR, |value|).value;
    Occurrence(value, SEPARATOR, i);
    var message := value[i + |SEPARATOR|..];
    Quoted(message);
    Regroup(value[..i], SEPARATOR, [DQUOTE], message[1..][..|message| - 3], CLOSING);
    hide *;
    assert forall j :: i < j < |value| ==> !OccursAt(value, SEPARATOR, j);
  }

  lemma Regroup(a: Text, b: Text, c: Text, d: Text, e: Text)
    ensures a + b + (c + d + e) == a + (b + c) + d + e
  {
  }

  lemma Occurrence(s: Text, sep: Text, i: nat)
    requires OccursAt(s, sep, i)
    ensures s == s[..i] + sep + s[i + |sep|..]
  {
  }

  lemma Quoted(message: Text)
    requires message != [] && message[0] == DQUOTE
    requires |message| >= 3 && message[1..][|message| - 3..] == CLOSING
    ensures message == [DQUOTE] + message[1..][..|message| - 3] + CLOSING
  {
    hide Ascii, CLOSING;
    var rest := message[1..];
    assert rest == rest[..|message| - 3] + rest[|message| - 3..];
  }

  lemma LastSeparator(value: Text, prefix: Text, fragment: Text)
    requires value == prefix + (SEPARATOR + [DQUOTE]) + fragment + CLOSING
    requires forall j :: |prefix| < j < |value| ==> !OccursAt(value, SEPARATOR, j)
    ensures ChunkParts(value) == Ok((prefix, fragment))
  {
    assert |CLOSING| == 2;
    hide Ascii, SEPARATOR, CLOSING;
    var i, message := |prefix|, [DQUOTE] + fragment + CLOSING;
    assert value == prefix + SEPARATOR + message;
    assert value[i..i + |SEPARATOR|] == SEPARATOR;
    assert OccursAt(value, SEPARATOR, i);
    assert LastOccurrence(value, SEPARATOR, |value|) == Some(i);
    assert value[i + |SEPARATOR|..] == message && message[1..] == fragment + CLOSING;
    assert value[..i] == prefix;
  }

  /** What the JSON library says of a chunk's metadata: opaque but for its index. */
  datatype Json<!M> = Json(parse: Text -> Option<M>, msgIndex: M -> Option<nat>, withoutIndex: M -> M)

  /** A chunk of a message with metadata `meta`. */
  predicate Belongs<M(==,!new)>(json: Json<M>, chunk: (nat, Text), meta: M) {
    && ChunkParts(chunk.1).Ok?
    && var current := json.parse(ChunkParts(chunk.1).value.0 + [125]);
       current.Some? && json.msgIndex(current.value) == Some(chunk.0) && json.withoutIndex(current.value) == meta
  }

  /** One round of the loop of `decode_chunks`: the chunk's metadata without its index, and its fragment. */
  function ChunkOf<M(==,!new)>(json: Json<M>, chunk: (nat, Text)): (r: Result<(M, Text), DecodeError>)
    ensures forall meta :: Belongs(json, chunk, meta) <==> r.Ok? && r.value.0 == meta
    ensures r.Ok? ==> ChunkParts(chunk.1).Ok? && r.value.1 == ChunkParts(chunk.1).value.1
    ensures r.Err? ==> r.error == Malformed
  {
    var (prefix, fragment) :- ChunkParts(chunk.1);
    match json.parse(prefix + [CLOSE_BRACE])
    case None => Err(Malformed)
    case Some(current) =>
      if json.msgIndex(current) != Some(chunk.0) then Err(Malformed)
      else Ok((json.withoutIndex(current), fragment))
  }

  ghost predicate AllBelong<M(!new)>(json: Json<M>, chunks: seq<(nat, Text)>, meta: M) {
    forall i :: 0 <= i < |chunks| ==> Belongs(json, chunks[i], meta)
  }

  function FragmentsOf(chunks: seq<(nat, Text)>): (fs: seq<Text>)
    ensures |fs| == |chunks|
  {
    seq(|chunks|, i requires 0 <= i < |chunks| =>
      match ChunkParts(chunks[i].1)
      case Ok((_, fragment)) => fragment
      case Err(_) => [])
  }

  /** The key, the common metadata and the message of ordered chunks. */
  function Joined<M(==,!new)>(json: Json<M>, base: Text, chunks: seq<(nat, Text)>):
    Result<(CloudInitKey, M, Text), DecodeError>
  {
    var key :- ParseKey(base);
    if chunks == [] then Err(Malformed)
    else
      var (meta, _) :- ChunkOf(json, chunks[0]);
      if exists i :: 0 <= i < |chunks| && !Belongs(json, chunks[i], meta) then Err(Malformed)
      else
        match Unescape(Concat(FragmentsOf(chunks)))
        case None => Err(Malformed)
        case Some(message) => Ok((key, meta, message))
  }

  lemma KeyMalformed(base: Text)
    ensures ParseKey(base).Err? ==> ParseKey(base) == Err(Malformed)
  {
  }

  /**
   The chunks are joined exactly when they all carry the same metadata and their own index, and
   their fragments together are one escaped string.
   */
  lemma JoinedExactly<M(!new)>(json: Json<M>, base: Text, chunks: seq<(nat, Text)>)
    ensures Joined(json, base, chunks).Ok? <==>
              && ParseKey(base).Ok? && chunks != [] && (exists meta :: AllBelong(json, chunks, meta))
              && Unescape(Concat(FragmentsOf(chunks))).Some?
    ensures Joined(json, base, chunks).Err? ==> Joined(json, base, chunks) == Err(Malformed)
    ensures Joined(json, base, chunks).Ok? ==>
              forall meta :: AllBelong(json, chunks, meta) ==>
                Joined(json, base, chunks) ==
                Ok((ParseKey(base).value, meta, Unescape(Concat(FragmentsOf(chunks))).value))
  {
    hide Unescape, ChunkParts, Concat, FragmentsOf, ParseKey;
    KeyMalformed(base);
    if chunks != [] {
      EachBelongs(json, chunks, 0);
      if Joined(json, base, chunks).Ok? {
        assert AllBelong(json, chunks, Joined(json, base, chunks).value.1);
      }
    }
  }

  lemma EachBelongs<M(!new)>(json: Json<M>, chunks: seq<(nat, Text)>, i: nat)
    requires i < |chunks|
    ensures forall meta :: AllBelong(json, chunks, meta) ==> Belongs(json, chunks[i], meta)
  {
  }

  lemma FragmentsSnoc(chunks: seq<(nat, Text)>, i: nat)
    requires i < |chunks| && ChunkParts(chunks[i].1).Ok?
    ensures FragmentsOf(chunks[..i + 1]) == FragmentsOf(chunks[..i]) + [ChunkParts(chunks[i].1).value.1]
  {
  }

  lemma OneMore<M(!new)>(json: Json<M>, chunks: seq<(nat, Text)>, i: nat, meta: M)
    requires i < |chunks| && Belongs(json, chunks[i], meta) && AllBelong(json, chunks[..i], meta)
    ensures AllBelong(json, chunks[..i + 1], meta)
    ensures Concat(FragmentsOf(chunks[..i + 1])) ==
            Concat(FragmentsOf(chunks[..i])) + ChunkParts(chunks[i].1).value.1
  {
    FragmentsSnoc(chunks, i);
    ConcatSnoc(FragmentsOf(chunks[..i]), ChunkParts(chunks[i].1).value.1);
    assert chunks[..i + 1] == chunks[..i] + [chunks[i]];
  }

  /**
   The loop of `decode_chunks`: one pass that takes each chunk apart and compares its metadata with
   the first one's.
   */
  method DecodeChunks<M(==,!new)>(json: Json<M>, base: Text, chunks: seq<(nat, Text)>)
    returns (r: Result<(CloudInitKey, M, Text), DecodeError>)
    ensures r == Joined(json, base, chunks)
  {
    hide ParseKey, Unescape, ChunkParts, Joined;
    JoinedExactly(json, base, chunks);
    if ParseKey(base).Err? {
      return Err(Malformed);
    }
    var metadata: Option<M> := None;
    var escapedMessage: Text := [];
    var i := 0;
    while i < |chunks|
      invariant 0 <= i <= |chunks|
      invariant metadata.None? <==> i == 0
      invariant metadata.Some? ==> AllBelong(json, chunks[..i], metadata.value)
      invariant escapedMessage == Concat(FragmentsOf(chunks[..i]))
    {
      var chunk := ChunkOf(json, chunks[i]);
      EachBelongs(json, chunks, i);
      if chunk.Err? {
        return Err(Malformed);
      }
      var (current, fragment) := chunk.value;
      if metadata.Some? && metadata.value != current {
        assert Belongs(json, chunks[..i][0], metadata.value);
        EachBelongs(json, chunks, 0);
        return Err(Malformed);
      }
      OneMore(json, chunks, i, current);
      metadata := Some(current);
      escapedMessage := escapedMessage + fragment;
      i := i + 1;
    }
    assert chunks[..i] == chunks;
    var message := Unescape(escapedMessage);
    if message.None? || metadata.None? {
      return Err(Malformed);
    }
    return Ok((ParseKey(base).value, metadata.value, message.value));
  }

  // A message cut into chunks.

  /** Chunk `i` carries fragment `i`, and metadata that is `meta` but for the index. */
  ghost predicate Written<M(!new)>(json: Json<M>, chunks: seq<(nat, Text)>, fragments: seq<Text>, meta: M) {
    && |chunks| == |fragments|
    && forall i :: 0 <= i < |chunks| ==> WrittenAt(json, chunks[i], i, fragments[i], meta)
  }

  ghost predicate WrittenAt<M(!new)>(json: Json<M>, chunk: (nat, Text), i: nat, fragment: Text, meta: M) {
    exists prefix, current ::
      && chunk == (i, ChunkValue(prefix, fragment))
      && json.parse(prefix + [CLOSE_BRACE]) == Some(current)
      && json.msgIndex(current) == Some(i) && json.withoutIndex(current) == meta
  }

  lemma WrittenBelongs<M(!new)>(json: Json<M>, chunk: (nat, Text), i: nat, fragment: Text, meta: M)
    requires WrittenAt(json, chunk, i, fragment, meta) && QuotesEscaped(fragment)
    ensures Belongs(json, chunk, meta) && ChunkParts(chunk.1).value.1 == fragment
  {
    var prefix, current :|
      && chunk == (i, ChunkValue(prefix, fragment))
      && json.parse(prefix + [CLOSE_BRACE]) == Some(current)
      && json.msgIndex(current) == Some(i) && json.withoutIndex(current) == meta;
    ChunkPartsRecover(prefix, fragment);
  }

  lemma {:induction false} FragmentQuotes(fragments: seq<Text>, i: nat)
    requires i < |fragments| && QuotesEscaped(Concat(fragments))
    ensures QuotesEscaped(fragments[i])
  {
    var rest := Concat(fragments[1..]);
    var whole := fragments[0] + rest;
    assert forall j :: 0 <= j < |fragments[0]| ==> fragments[0][j] == whole[j];
    assert forall j :: 0 <= j < |rest| ==> rest[j] == whole[|fragments[0]| + j];
    if i > 0 {
      FragmentQuotes(fragments[1..], i - 1);
    }
  }

  lemma FragmentsBelong<M(!new)>(json: Json<M>, chunks: seq<(nat, Text)>, fragments: seq<Text>, meta: M, n: nat)
    requires QuotesEscaped(Concat(fragments)) && Written(json, chunks, fragments, meta) && n <= |chunks|
    ensures |chunks| == |fragments| && AllBelong(json, chunks[..n], meta) && FragmentsOf(chunks[..n]) == fragments[..n]
  {
    hide QuotesEscaped, ChunkParts, Concat, WrittenAt, Belongs;
    forall i | 0 <= i < n
      ensures Belongs(json, chunks[..n][i], meta) && FragmentsOf(chunks[..n])[i] == fragments[..n][i]
    {
      FragmentQuotes(fragments, i);
      WrittenBelongs(json, chunks[i], i, fragments[i], meta);
    }
  }

  /**
   However a spelled message is cut into fragments, its first `n` chunks join to what their
   fragments spell, and all of them to the message.
   */
  lemma CutMessageDecodes<M(!new)>(json: Json<M>, base: Text, chunks: seq<(nat, Text)>, fragments: seq<Text>,
                                   tokens: seq<Token>, meta: M, n: nat)
    requires AllValid(tokens) && Concat(fragments) == Spelling(tokens) && Written(json, chunks, fragments, meta)
    requires 0 < n <= |chunks| && ParseKey(base).Ok?
    ensures Joined(json, base, chunks[..n]) ==
            match Unescape(Concat(fragments[..n]))
            case None => Err(Malformed)
            case Some(message) => Ok((ParseKey(base).value, meta, message))
    ensures n == |chunks| ==> Unescape(Concat(fragments[..n])) == Some(Meaning(tokens))
  {
    hide QuotesEscaped, Unescape, Concat, ParseKey, Written, FragmentsOf, Joined, AllValid, Spelling, Meaning;
    SpellingQuotes(tokens);
    FragmentsBelong(json, chunks, fragments, meta, n);
    JoinedExactly(json, base, chunks[..n]);
    if n == |chunks| {
      assert fragments[..n] == fragments;
      UnescapeSpelled(tokens);
    }
  }
}
