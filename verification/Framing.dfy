/** `frame_records`: cutting a payload into numbered records at char boundaries. */
module Framing {
  import opened Results
  import opened Bytes
  import opened Utf8
  import opened KvpErrors
  import opened Decimals
  import opened PoolLayout

  const MAX_CHUNK_BYTES: nat := 1022
  const MAX_KEY_BYTES: nat := 254
  const MAX_CHUNKS: nat := 1023

  /** The greedy cut: the last char boundary within one chunk's room. */
  function CutPoint(value: Text, end: nat): (e: nat)
    requires end <= |value|
    ensures e <= end && IsBoundary(value, e)
    ensures forall j :: e < j <= end ==> !IsBoundary(value, j)
  {
    if IsBoundary(value, end) then end else CutPoint(value, end - 1)
  }

  function FirstCut(value: Text): (e: nat)
    ensures e <= |value| && e <= MAX_CHUNK_BYTES && IsBoundary(value, e)
  {
    CutPoint(value, if |value| <= MAX_CHUNK_BYTES then |value| else MAX_CHUNK_BYTES)
  }

  /** A cut of well-formed text loses at most the three bytes of an incomplete character. */
  lemma FirstCutWide(value: Text)
    requires ValidUtf8(value)
    ensures |value| <= MAX_CHUNK_BYTES ==> FirstCut(value) == |value|
    ensures |value| > MAX_CHUNK_BYTES ==> FirstCut(value) >= MAX_CHUNK_BYTES - 3
  {
    if |value| > MAX_CHUNK_BYTES {
      BoundaryNearby(value, MAX_CHUNK_BYTES);
    }
  }

  /** The chunks of a payload; the empty payload is one empty chunk. */
  function Greedy(value: Text): (chunks: seq<Text>)
    ensures |chunks| > 0
    decreases |value|
  {
    var c := FirstCut(value);
    if c == |value| || c == 0 then [value] else [value[..c]] + Greedy(value[c..])
  }

  /** In well-formed text the cut always gets on, and only the last chunk takes all. */
  lemma CutGetsOn(value: Text)
    requires ValidUtf8(value)
    ensures var c := FirstCut(value);
            && (c == |value| <==> |value| <= MAX_CHUNK_BYTES)
            && (c < |value| ==> c >= MAX_CHUNK_BYTES - 3)
            && ValidUtf8(value[..c]) && ValidUtf8(value[c..])
  {
    FirstCutWide(value);
    ValidSplit(value, FirstCut(value));
  }

  function ChunkKey(baseKey: Text, index: nat): Text {
    baseKey + [BAR] + Decimal(index)
  }

  function Frames(baseKey: Text, chunks: seq<Text>, from: nat): (rs: seq<Record>)
    ensures |rs| == |chunks|
  {
    if chunks == [] then []
    else [Record(ChunkKey(baseKey, from), chunks[0])] + Frames(baseKey, chunks[1..], from + 1)
  }

  lemma {:induction false} FrameAt(baseKey: Text, chunks: seq<Text>, from: nat, i: nat)
    requires i < |chunks|
    ensures Frames(baseKey, chunks, from)[i] == Record(ChunkKey(baseKey, from + i), chunks[i])
  {
    if i > 0 {
      FrameAt(baseKey, chunks[1..], from + 1, i - 1);
    }
  }

  /** Index of the first of `n` keys that is too long, or `n`. */
  function FirstLongKey(baseKey: Text, from: nat, n: nat): (k: nat)
    requires from <= n
    ensures from <= k <= n
    ensures k < n ==> |ChunkKey(baseKey, k)| > MAX_KEY_BYTES
    ensures forall j :: from <= j < k ==> |ChunkKey(baseKey, j)| <= MAX_KEY_BYTES
    decreases n - from
  {
    if from == n || |ChunkKey(baseKey, from)| > MAX_KEY_BYTES then from else FirstLongKey(baseKey, from + 1, n)
  }

  function Min(a: nat, b: nat): nat {
    if a < b then a else b
  }

  /**
   What framing returns: a key that is too long is reported when its chunk is reached, the chunk
   limit when the 1024th chunk is.
   */
  function FrameResult(baseKey: Text, value: Text, from: nat := 0): Result<seq<Record>, KvpError>
    requires from <= MAX_CHUNKS
  {
    var chunks := Greedy(value);
    var end := from + Min(|chunks|, MAX_CHUNKS - from);
    var long := FirstLongKey(baseKey, from, end);
    if long < end then Err(KeyTooLarge(MAX_KEY_BYTES, |ChunkKey(baseKey, long)|))
    else if |chunks| > MAX_CHUNKS - from then Err(TooManyChunks(MAX_CHUNKS))
    else Ok(Frames(baseKey, chunks, from))
  }

  function Behind(records: seq<Record>, r: Result<seq<Record>, KvpError>): Result<seq<Record>, KvpError> {
    match r
    case Ok(rest) => Ok(records + rest)
    case Err(e) => Err(e)
  }

  /** The last round of framing. */
  lemma FrameLast(baseKey: Text, value: Text, n: nat)
    requires n < MAX_CHUNKS && |ChunkKey(baseKey, n)| <= MAX_KEY_BYTES && FirstCut(value) == |value|
    ensures FrameResult(baseKey, value, n) == Ok([Record(ChunkKey(baseKey, n), value)])
  {
    assert FirstLongKey(baseKey, n, n + 1) == n + 1;
    assert Greedy(value) == [value] && [value][1..] == [];
    assert n + Min(1, MAX_CHUNKS - n) == n + 1;
    assert Frames(baseKey, [value], n) == [Record(ChunkKey(baseKey, n), value)];
  }

  /** Any earlier round. */
  lemma FrameMore(baseKey: Text, value: Text, n: nat)
    requires n < MAX_CHUNKS && |ChunkKey(baseKey, n)| <= MAX_KEY_BYTES && 0 < FirstCut(value) < |value|
    ensures var c := FirstCut(value);
            FrameResult(baseKey, value, n) ==
            Behind([Record(ChunkKey(baseKey, n), value[..c])], FrameResult(baseKey, value[c..], n + 1))
  {
    hide IsBoundary, CutPoint, ChunkKey, FirstCut;
    var c := FirstCut(value);
    var rest := Greedy(value[c..]);
    var end := n + 1 + Min(|rest|, MAX_CHUNKS - n - 1);
    assert n + Min(|rest| + 1, MAX_CHUNKS - n) == end;
    assert FirstLongKey(baseKey, n, end) == FirstLongKey(baseKey, n + 1, end);
    assert ([value[..c]] + rest)[1..] == rest;
  }

  /** The inner loop: from `room`, back to a char boundary. */
  method StepBack(value: Text, room: nat) returns (end: nat)
    requires room <= |value|
    ensures end == CutPoint(value, room)
  {
    end := room;
    while !IsBoundary(value, end)
      invariant end <= room && CutPoint(value, end) == CutPoint(value, room)
      decreases end
    {
      end := end - 1;
    }
  }

  lemma BehindNothing(r: Result<seq<Record>, KvpError>)
    ensures Behind([], r) == r
  {
    if r.Ok? {
      assert [] + r.value == r.value;
    }
  }

  lemma BehindTwice(a: seq<Record>, b: seq<Record>, r: Result<seq<Record>, KvpError>)
    ensures Behind(a, Behind(b, r)) == Behind(a + b, r)
  {
    if r.Ok? {
      assert a + (b + r.value) == a + b + r.value;
    }
  }

  // Properties of the cut.

  /** Nothing is lost. */
  lemma {:induction false} GreedyLossless(value: Text)
    ensures Concat(Greedy(value)) == value
    decreases |value|
  {
    var c := FirstCut(value);
    if c == |value| || c == 0 {
      assert [value][1..] == [];
    } else {
      GreedyLossless(value[c..]);
      assert Greedy(value)[1..] == Greedy(value[c..]);
    }
  }

  /** Well-formed pieces that fit a chunk. */
  predicate Fitting(pieces: seq<Text>) {
    forall i :: 0 <= i < |pieces| ==> ValidUtf8(pieces[i]) && |pieces[i]| <= 1022
  }

  /** Every chunk is well-formed text that fits, and all but the last are nearly full. */
  lemma {:induction false} GreedyFitting(value: Text)
    requires ValidUtf8(value)
    ensures Fitting(Greedy(value))
    ensures forall i :: 0 <= i < |Greedy(value)| - 1 ==> |Greedy(value)[i]| >= 1019
    decreases |value|
  {
    var c := FirstCut(value);
    CutGetsOn(value);
    if c < |value| {
      GreedyFitting(value[c..]);
      assert Greedy(value)[1..] == Greedy(value[c..]);
      assert forall i :: 1 <= i < |Greedy(value)| ==> Greedy(value)[i] == Greedy(value[c..])[i - 1];
    }
  }

  /** A split of `value` into well-formed pieces that fit a chunk. */
  ghost predicate Splits(pieces: seq<Text>, value: Text) {
    Concat(pieces) == value && Fitting(pieces)
  }

  lemma FittingTail(pieces: seq<Text>)
    requires pieces != [] && Fitting(pieces)
    ensures Fitting(pieces[1..]) && ValidUtf8(Concat(pieces[1..])) && ValidUtf8(Concat(pieces))
  {
    ValidConcatAll(pieces[1..]);
    ValidConcatAll(pieces);
  }

  lemma GreedyCount(t: Text)
    requires ValidUtf8(t)
    ensures |t| <= MAX_CHUNK_BYTES ==> |Greedy(t)| == 1
    ensures |t| > MAX_CHUNK_BYTES ==> |Greedy(t)| == 1 + |Greedy(t[FirstCut(t)..])|
  {
    CutGetsOn(t);
  }

  /** The text from a boundary of a split on is well-formed. */
  lemma TailValid(pieces: seq<Text>, k: nat)
    requires Fitting(pieces) && k <= |Concat(pieces)| && IsBoundary(Concat(pieces), k)
    ensures ValidUtf8(Concat(pieces)[k..])
  {
    hide ValidUtf8, IsBoundary;
    ValidConcatAll(pieces);
    ValidSplit(Concat(pieces), k);
  }

  /** Greedy stays ahead: from any boundary on it needs no more chunks than the split does. */
  lemma {:induction false} GreedyAhead(pieces: seq<Text>, k: nat)
    requires Fitting(pieces) && k <= |Concat(pieces)| && IsBoundary(Concat(pieces), k)
    ensures |Greedy(Concat(pieces)[k..])| <= if pieces == [] then 1 else |pieces|
    decreases |pieces|
  {
    hide IsBoundary, FirstCut, ValidUtf8, Greedy;
    var t := Concat(pieces)[k..];
    TailValid(pieces, k);
    GreedyCount(t);
    if |t| > MAX_CHUNK_BYTES {
      FittingTail(pieces);
      CutPassesPiece(pieces[0], Concat(pieces[1..]), k);
      GreedyAhead(pieces[1..], k + FirstCut(t) - |pieces[0]|);
    }
  }

  /** The greedy cut from `k` does not end before `piece` does, so it leaves a suffix of the rest. */
  lemma CutPassesPiece(piece: Text, rest: Text, k: nat)
    requires ValidUtf8(rest) && k <= |piece + rest| && |piece| <= MAX_CHUNK_BYTES
    requires ValidUtf8((piece + rest)[k..]) && |(piece + rest)[k..]| > MAX_CHUNK_BYTES
    ensures var t := (piece + rest)[k..];
            var c := FirstCut(t);
            && |piece| <= k + c <= |piece + rest|
            && t[c..] == rest[k + c - |piece|..]
            && IsBoundary(rest, k + c - |piece|)
  {
    var value := piece + rest;
    var t := value[k..];
    var c, n := FirstCut(t), |piece|;
    if k < n && rest != [] {
      assert t[n - k] == rest[0];
      assert IsBoundary(t, n - k);
    }
    FirstCutWide(t);
    assert k + c - n < |rest| ==> t[c] == rest[k + c - n];
  }

  /** Greedy chunking is optimal: no split at char boundaries needs fewer pieces. */
  lemma GreedyOptimal(value: Text, pieces: seq<Text>)
    requires ValidUtf8(value) && Splits(pieces, value) && pieces != []
    ensures |Greedy(value)| <= |pieces|
  {
    assert value[0..] == value;
    GreedyAhead(pieces, 0);
  }

  /** The index needs at most four digits. */
  lemma IndexFits(baseKey: Text, index: nat)
    requires index < MAX_CHUNKS
    ensures |ChunkKey(baseKey, index)| <= |baseKey| + 5
  {
    assert Pow10(4) == 10 * Pow10(3) && Pow10(3) == 10 * Pow10(2) && Pow10(2) == 10 * Pow10(1);
    DecimalLength(index, 4);
  }

  /** With room for a four-digit index, framing fails exactly when no split into 1023 chunks exists. */
  lemma TooManyChunksExactly(baseKey: Text, value: Text)
    requires ValidUtf8(value) && |baseKey| + 5 <= 254
    ensures FrameResult(baseKey, value).Ok? || FrameResult(baseKey, value) == Err(TooManyChunks(1023))
    ensures FrameResult(baseKey, value).Ok? <==>
              exists pieces :: 0 < |pieces| <= 1023 && Splits(pieces, value)
  {
    var chunks := Greedy(value);
    var long := FirstLongKey(baseKey, 0, Min(|chunks|, MAX_CHUNKS));
    if long < Min(|chunks|, MAX_CHUNKS) {
      IndexFits(baseKey, long);
    }
    GreedyLossless(value);
    GreedyFitting(value);
    assert Splits(chunks, value);
    forall pieces | 0 < |pieces| <= MAX_CHUNKS && Splits(pieces, value)
      ensures |chunks| <= MAX_CHUNKS
    {
      GreedyOptimal(value, pieces);
    }
  }

  lemma LongKeyStays(baseKey: Text, a: nat, b: nat)
    requires a <= b
    ensures |ChunkKey(baseKey, a)| <= |ChunkKey(baseKey, b)|
  {
    DecimalGrows(a, b);
  }

  /**
   Framing succeeds exactly when some split into at most 1023 pieces exists whose last key fits;
   otherwise it reports the chunk limit or the first key that does not fit.
   */
  lemma FramesExactly(baseKey: Text, value: Text)
    requires ValidUtf8(value)
    ensures FrameResult(baseKey, value).Ok? <==>
              exists pieces ::
                && 0 < |pieces| <= 1023 && Splits(pieces, value)
                && |ChunkKey(baseKey, |pieces| - 1)| <= 254
    ensures FrameResult(baseKey, value).Err? ==>
              || FrameResult(baseKey, value) == Err(TooManyChunks(1023))
              || exists k: nat ::
                   && |ChunkKey(baseKey, k)| > 254
                   && (forall j: nat :: j < k ==> |ChunkKey(baseKey, j)| <= 254)
                   && FrameResult(baseKey, value) == Err(KeyTooLarge(254, |ChunkKey(baseKey, k)|))
  {
    hide ChunkKey, Greedy, Fitting, Frames;
    var chunks := Greedy(value);
    GreedyLossless(value);
    GreedyFitting(value);
    assert Splits(chunks, value);
    forall pieces | 0 < |pieces| <= MAX_CHUNKS && Splits(pieces, value)
                    && |ChunkKey(baseKey, |pieces| - 1)| <= MAX_KEY_BYTES
      ensures FrameResult(baseKey, value).Ok?
    {
      GreedyOptimal(value, pieces);
      var long := FirstLongKey(baseKey, 0, Min(|chunks|, MAX_CHUNKS));
      if long < Min(|chunks|, MAX_CHUNKS) {
        LongKeyStays(baseKey, long, |pieces| - 1);
      }
    }
  }

  lemma {:induction false} GreedyFills(value: Text)
    requires ValidUtf8(value)
    ensures |Greedy(value)| > 1 ==> |value| > (MAX_CHUNK_BYTES - 3) * (|Greedy(value)| - 1)
    decreases |value|
  {
    if |value| > MAX_CHUNK_BYTES {
      CutGetsOn(value);
      GreedyFills(value[FirstCut(value)..]);
    }
  }

  /** Whatever its characters, text of up to 1023 * 1019 bytes always fits. */
  lemma AlwaysFits(baseKey: Text, value: Text)
    requires ValidUtf8(value) && |baseKey| + 5 <= 254
    requires |value| <= 1023 * 1019
    ensures FrameResult(baseKey, value).Ok?
  {
    GreedyFills(value);
    GreedyLossless(value);
    GreedyFitting(value);
    TooManyChunksExactly(baseKey, value);
    assert Splits(Greedy(value), value);
  }

  // The loop.

  /** The payload pieces of framed records. */
  function PiecesOf(records: seq<Record>): (pieces: seq<Text>)
    ensures |pieces| == |records|
    ensures forall i :: 0 <= i < |records| ==> pieces[i] == records[i].value
  {
    seq(|records|, i requires 0 <= i < |records| => records[i].value)
  }

  /** What comes out of framing is an optimal split of the payload, numbered from 0. */
  lemma FramedWell(baseKey: Text, payload: Text)
    requires ValidUtf8(payload) && FrameResult(baseKey, payload).Ok?
    ensures var records := FrameResult(baseKey, payload).value;
            && |records| <= 1023 && Splits(PiecesOf(records), payload)
            && (forall i :: 0 <= i < |records| ==> records[i].key == ChunkKey(baseKey, i))
            && forall pieces :: pieces != [] && Splits(pieces, payload) ==> |records| <= |pieces|
  {
    hide Greedy;
    var records, chunks := FrameResult(baseKey, payload).value, Greedy(payload);
    forall i | 0 <= i < |records|
      ensures records[i] == Record(ChunkKey(baseKey, i), chunks[i])
    {
      FrameAt(baseKey, chunks, 0, i);
    }
    assert PiecesOf(records) == chunks;
    GreedyLossless(payload);
    GreedyFitting(payload);
    forall pieces | pieces != [] && Splits(pieces, payload)
      ensures |records| <= |pieces|
    {
      GreedyOptimal(payload, pieces);
    }
  }

  /** What framing returns once it is at the chunk limit, or at a key that is too long. */
  lemma FrameLimits(baseKey: Text, value: Text, records: seq<Record>)
    requires |records| <= MAX_CHUNKS
    ensures |records| == MAX_CHUNKS ==>
              Behind(records, FrameResult(baseKey, value, |records|)) == Err(TooManyChunks(MAX_CHUNKS))
    ensures |records| < MAX_CHUNKS && |ChunkKey(baseKey, |records|)| > MAX_KEY_BYTES ==>
              Behind(records, FrameResult(baseKey, value, |records|)) ==
              Err(KeyTooLarge(MAX_KEY_BYTES, |ChunkKey(baseKey, |records|)|))
  {
    hide ChunkKey, Greedy, Frames;
  }

  /** And one chunk earlier: what it returns is this chunk and what the rest gives. */
  lemma FrameOne(baseKey: Text, value: Text, records: seq<Record>, end: nat)
    requires ValidUtf8(value) && |records| < MAX_CHUNKS && |ChunkKey(baseKey, |records|)| <= MAX_KEY_BYTES
    requires end <= |value| && end == CutPoint(value, if |value| <= MAX_CHUNK_BYTES then |value| else MAX_CHUNK_BYTES)
    ensures var more := records + [Record(ChunkKey(baseKey, |records|), value[..end])];
            Behind(records, FrameResult(baseKey, value, |records|)) ==
            if end == |value| then Ok(more) else Behind(more, FrameResult(baseKey, value[end..], |records| + 1))
    ensures ValidUtf8(value[end..]) && (value != [] ==> end > 0)
  {
    hide IsBoundary, CutPoint, ChunkKey, FrameResult, ValidUtf8;
    assert end == FirstCut(value);
    CutGetsOn(value);
    if end == |value| {
      assert value[..end] == value;
      FrameLast(baseKey, value, |records|);
    } else {
      FrameMore(baseKey, value, |records|);
      BehindTwice(records, [Record(ChunkKey(baseKey, |records|), value[..end])],
                  FrameResult(baseKey, value[end..], |records| + 1));
    }
  }

  method FrameRecords(baseKey: Text, payload: Text) returns (r: Result<seq<Record>, KvpError>)
    requires ValidUtf8(payload)
    ensures r == FrameResult(baseKey, payload)
    ensures r.Ok? ==>
      && |r.value| <= 1023 && Splits(PiecesOf(r.value), payload)
      && (forall i :: 0 <= i < |r.value| ==> r.value[i].key == ChunkKey(baseKey, i))
      && forall pieces :: pieces != [] && Splits(pieces, payload) ==> |r.value| <= |pieces|
  {
    hide *;
    if FrameResult(baseKey, payload).Ok? {
      FramedWell(baseKey, payload);
    }
    var value := payload;
    var records: seq<Record> := [];
    BehindNothing(FrameResult(baseKey, payload));
    while true
      invariant ValidUtf8(value) && |records| <= MAX_CHUNKS
      invariant FrameResult(baseKey, payload) == Behind(records, FrameResult(baseKey, value, |records|))
      decreases |value|
    {
      FrameLimits(baseKey, value, records);
      if |records| == MAX_CHUNKS {
        return Err(TooManyChunks(MAX_CHUNKS));
      }
      var key := ChunkKey(baseKey, |records|);
      if |key| > MAX_KEY_BYTES {
        return Err(KeyTooLarge(MAX_KEY_BYTES, |key|));
      }
      var end := StepBack(value, if |value| <= MAX_CHUNK_BYTES then |value| else MAX_CHUNK_BYTES);
      FrameOne(baseKey, value, records, end);
      var chunk, remaining := value[..end], value[end..];
      records := records + [Record(key, chunk)];
      if remaining == [] {
        return Ok(records);
      }
      value := remaining;
    }
  }
}
