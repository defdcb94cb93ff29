/** `--supporting-data`: splitting on top-level commas, pairs, and one layer of quotes. */
module SupportingData {
  import opened Results
  import opened Bytes
  import opened Delimited
  import opened Seqs

  datatype UsageError = UnterminatedQuote | TextAfterQuote | NotKeyValue | EmptyKey

  type Pair = (Text, Text)

  predicate IsQuote(b: byte) {
    b == SQUOTE || b == DQUOTE
  }

  /** Position of the first `=` or comma at or after `from`, or the end. */
  function KeyEnd(raw: Text, from: nat): (k: nat)
    requires from <= |raw|
    ensures from <= k <= |raw|
    ensures forall j :: from <= j < k ==> raw[j] != EQUALS && raw[j] != COMMA
    ensures k < |raw| ==> raw[k] == EQUALS || raw[k] == COMMA
    decreases |raw| - from
  {
    if from == |raw| || raw[from] == EQUALS || raw[from] == COMMA then from else KeyEnd(raw, from + 1)
  }

  /** Where the value that starts at `v` ends. */
  function ValueEnd(raw: Text, v: nat): (r: Result<nat, UsageError>)
    requires v <= |raw|
    ensures r.Ok? ==> v <= r.value <= |raw| && (r.value < |raw| ==> raw[r.value] == COMMA)
  {
    if v < |raw| && IsQuote(raw[v]) then
      var close := Find(raw, raw[v], v + 1);
      if close == |raw| then Err(UnterminatedQuote)
      else if close + 1 < |raw| && raw[close + 1] != COMMA then Err(TextAfterQuote)
      else Ok(close + 1)
    else Ok(Find(raw, COMMA, v))
  }

  /** Where the field that starts at `start` ends. */
  function FieldEnd(raw: Text, start: nat): (r: Result<nat, UsageError>)
    requires start <= |raw|
    ensures r.Ok? ==> start <= r.value <= |raw| && (r.value < |raw| ==> raw[r.value] == COMMA)
  {
    var k := KeyEnd(raw, start);
    if k < |raw| && raw[k] == EQUALS then ValueEnd(raw, k + 1) else Ok(k)
  }

  function FieldsFrom(raw: Text, start: nat): Result<seq<Text>, UsageError>
    requires start <= |raw|
    decreases |raw| - start
  {
    var e :- FieldEnd(raw, start);
    if e == |raw| then Ok([raw[start..e]]) else Behind([raw[start..e]], FieldsFrom(raw, e + 1))
  }

  function SplitFields(raw: Text): Result<seq<Text>, UsageError> {
    FieldsFrom(raw, 0)
  }

  function Behind<T>(before: seq<T>, r: Result<seq<T>, UsageError>): Result<seq<T>, UsageError> {
    match r
    case Ok(rest) => Ok(before + rest)
    case Err(e) => Err(e)
  }

  lemma BehindStep<T>(before: seq<T>, x: T, r: Result<seq<T>, UsageError>)
    ensures Behind(before, Behind([x], r)) == Behind(before + [x], r)
    ensures Behind([], r) == r
  {
    if r.Ok? {
      assert before + ([x] + r.value) == before + [x] + r.value;
      assert [] + r.value == r.value;
    }
  }

  /** The scanner's loop over a quoted value, from behind the opening quote. */
  method ScanQuoted(raw: Text, quote: byte, from: nat) returns (idx: nat, closed: bool)
    requires from <= |raw|
    ensures closed <==> Find(raw, quote, from) < |raw|
    ensures closed ==> idx == Find(raw, quote, from) + 1
  {
    idx, closed := from, false;
    while idx < |raw|
      invariant from <= idx <= |raw|
      invariant Find(raw, quote, from) == Find(raw, quote, idx)
    {
      var ch := raw[idx];
      idx := idx + 1;
      if ch == quote {
        closed := true;
        break;
      }
    }
  }

  /** And over a bare one. */
  method ScanBare(raw: Text, from: nat) returns (idx: nat)
    requires from <= |raw|
    ensures idx == Find(raw, COMMA, from)
  {
    idx := from;
    while idx < |raw| && raw[idx] != COMMA
      invariant from <= idx <= |raw| && Find(raw, COMMA, from) == Find(raw, COMMA, idx)
    {
      idx := idx + 1;
    }
  }

  /** One round of the scanner: a key and, behind `=`, a value. */
  method ScanField(raw: Text, start: nat) returns (r: Result<nat, UsageError>)
    requires start <= |raw|
    ensures r == FieldEnd(raw, start)
  {
    var idx := start;
    while idx < |raw| && raw[idx] != EQUALS && raw[idx] != COMMA
      invariant start <= idx <= |raw| && KeyEnd(raw, start) == KeyEnd(raw, idx)
    {
      idx := idx + 1;
    }
    if idx < |raw| && raw[idx] == EQUALS {
      idx := idx + 1;
      if idx < |raw| && IsQuote(raw[idx]) {
        var end, closed := ScanQuoted(raw, raw[idx], idx + 1);
        if !closed {
          return Err(UnterminatedQuote);
        }
        if end < |raw| && raw[end] != COMMA {
          return Err(TextAfterQuote);
        }
        idx := end;
      } else {
        idx := ScanBare(raw, idx);
      }
    }
    return Ok(idx);
  }

  /** One round of splitting, with the fields before it. */
  lemma FieldsStep(raw: Text, idx: nat, fields: seq<Text>)
    requires idx <= |raw| && FieldEnd(raw, idx).Ok?
    ensures var e := FieldEnd(raw, idx).value;
            Behind(fields, FieldsFrom(raw, idx)) ==
            if e == |raw| then Ok(fields + [raw[idx..e]]) else Behind(fields + [raw[idx..e]], FieldsFrom(raw, e + 1))
  {
    var e := FieldEnd(raw, idx).value;
    if e < |raw| {
      BehindStep(fields, raw[idx..e], FieldsFrom(raw, e + 1));
    }
  }

  method SplitSupportingDataFields(raw: Text) returns (r: Result<seq<Text>, UsageError>)
    ensures r == SplitFields(raw)
    ensures forall fields :: r == Ok(fields) <==> fields != [] && AllShaped(fields) && Join(fields, COMMA) == raw
  {
    hide AllShaped, Join;
    forall fields
      ensures SplitFields(raw) == Ok(fields) <==>
              fields != [] && AllShaped(fields) && Join(fields, COMMA) == raw
    {
      SplitExactly(raw, fields);
    }
    var fields: seq<Text> := [];
    var idx := 0;
    BehindStep(fields, [], FieldsFrom(raw, 0));
    while true
      invariant 0 <= idx <= |raw|
      invariant SplitFields(raw) == Behind(fields, FieldsFrom(raw, idx))
      decreases |raw| - idx
    {
      var end :- ScanField(raw, idx);
      FieldsStep(raw, idx, fields);
      fields := fields + [raw[idx..end]];
      if end >= |raw| {
        break;
      }
      idx := end + 1;
    }
    return Ok(fields);
  }

  // Pairs.

  function Unquote(value: Text): Text {
    if |value| >= 2 && IsQuote(value[0]) && value[|value| - 1] == value[0] then value[1..|value| - 1] else value
  }

  function ParseKeyValuePair(field: Text): Result<Pair, UsageError> {
    match SplitOnce(field, EQUALS)
    case None => Err(NotKeyValue)
    case Some((key, value)) => if key == [] then Err(EmptyKey) else Ok((key, Unquote(value)))
  }

  /** Empty fields are skipped; the first bad field's error wins. */
  function PairsOf(fields: seq<Text>): Result<seq<Pair>, UsageError> {
    if fields == [] then Ok([])
    else if fields[0] == [] then PairsOf(fields[1..])
    else
      var pair :- ParseKeyValuePair(fields[0]);
      var rest :- PairsOf(fields[1..]);
      Ok([pair] + rest)
  }

  function Parsed(raw: Text): Result<seq<Pair>, UsageError> {
    var fields :- SplitFields(raw);
    PairsOf(fields)
  }

  // The language of accepted inputs.

  predicate Free(s: Text, a: byte, b: byte) {
    a !in s && b !in s
  }

  /** A value without quotes around it: no comma, and no quote at its start. */
  predicate BareValue(value: Text) {
    44 !in value && (value != [] ==> value[0] != 39 && value[0] != 34)
  }

  /** A value in one pair of matching quotes that do not occur inside. */
  predicate QuotedValue(value: Text) {
    |value| >= 2 && value[0] in {39, 34} && value[|value| - 1] == value[0] && value[0] !in value[1..|value| - 1]
  }

  /** A field is a key alone, or a key, `=` and a bare or quoted value. */
  ghost predicate Shaped(field: Text) {
    || Free(field, EQUALS, COMMA)
    || exists k :: 0 <= k < |field| && ShapedAt(field, k)
  }

  predicate ShapedAt(field: Text, k: nat)
    requires k < |field|
  {
    && Free(field[..k], EQUALS, COMMA) && field[k] == EQUALS
    && (BareValue(field[k + 1..]) || QuotedValue(field[k + 1..]))
  }

  lemma KeyEndAt(raw: Text, start: nat, k: nat)
    requires start <= k <= |raw| && Free(raw[start..k], EQUALS, COMMA)
    requires k < |raw| ==> raw[k] == EQUALS || raw[k] == COMMA
    ensures KeyEnd(raw, start) == k
  {
    assert forall j :: start <= j < k ==> raw[j] == raw[start..k][j - start] && raw[j] in raw[start..k];
  }

  lemma FindAt(raw: Text, b: byte, from: nat, k: nat)
    requires from <= k <= |raw| && b !in raw[from..k] && (k < |raw| ==> raw[k] == b)
    ensures Find(raw, b, from) == k
  {
    assert forall j :: from <= j < k ==> raw[j] == raw[from..k][j - from] && raw[j] in raw[from..k];
  }

  /** A value ends where the scanner says exactly when it is bare or quoted and a comma or the end follows. */
  lemma ValueEndExactly(raw: Text, v: nat, e: nat)
    requires v <= e <= |raw|
    ensures ValueEnd(raw, v) == Ok(e) <==>
            (BareValue(raw[v..e]) || QuotedValue(raw[v..e])) && (e < |raw| ==> raw[e] == COMMA)
  {
    var value := raw[v..e];
    if v < e && IsQuote(raw[v]) {
      if e >= v + 2 {
        SliceOfSlice(raw, v, e, 1, e - v - 1);
        assert value[e - v - 1] == raw[e - 1];
        if QuotedValue(value) {
          FindAt(raw, raw[v], v + 1, e - 1);
        }
      }
    } else if BareValue(value) && (e < |raw| ==> raw[e] == COMMA) {
      FindAt(raw, COMMA, v, e);
    }
  }

  lemma KeyThenValue(raw: Text, start: nat, k: nat, e: nat)
    requires start <= k < e <= |raw| && KeyEnd(raw, start) == k && raw[k] == EQUALS
    requires BareValue(raw[k + 1..e]) || QuotedValue(raw[k + 1..e])
    ensures Shaped(raw[start..e])
  {
    SliceOfSlice(raw, start, e, 0, k - start);
    SliceOfSlice(raw, start, e, k - start + 1, e - start);
    assert raw[start..e][k - start] == raw[k];
    assert ShapedAt(raw[start..e], k - start);
  }

  lemma BareOrQuoted(raw: Text, v: nat)
    requires v <= |raw| && ValueEnd(raw, v).Ok?
    ensures BareValue(raw[v..ValueEnd(raw, v).value]) || QuotedValue(raw[v..ValueEnd(raw, v).value])
  {
    ValueEndExactly(raw, v, ValueEnd(raw, v).value);
  }

  lemma FieldEndShaped(raw: Text, start: nat)
    requires start <= |raw| && FieldEnd(raw, start).Ok?
    ensures Shaped(raw[start..FieldEnd(raw, start).value])
  {
    hide KeyEnd, ValueEnd;
    var e, k := FieldEnd(raw, start).value, KeyEnd(raw, start);
    if k < |raw| && raw[k] == EQUALS {
      BareOrQuoted(raw, k + 1);
      KeyThenValue(raw, start, k, e);
    }
  }

  lemma ShapedAtEnds(raw: Text, start: nat, e: nat, i: nat)
    requires start <= e <= |raw| && (e < |raw| ==> raw[e] == COMMA)
    requires i < e - start && ShapedAt(raw[start..e], i)
    ensures FieldEnd(raw, start) == Ok(e)
  {
    assert raw[start + i] == raw[start..e][i];
    SliceOfSlice(raw, start, e, 0, i);
    KeyEndAt(raw, start, start + i);
    SliceOfSlice(raw, start, e, i + 1, e - start);
    ValueEndExactly(raw, start + i + 1, e);
  }

  /** A well-shaped field that a comma or the end follows ends where the scanner says. */
  lemma ShapedEnds(raw: Text, start: nat, e: nat)
    requires start <= e <= |raw| && (e < |raw| ==> raw[e] == COMMA) && Shaped(raw[start..e])
    ensures FieldEnd(raw, start) == Ok(e)
  {
    if Free(raw[start..e], EQUALS, COMMA) {
      KeyEndAt(raw, start, e);
    } else {
      var i :| 0 <= i < e - start && ShapedAt(raw[start..e], i);
      ShapedAtEnds(raw, start, e, i);
    }
  }

  ghost predicate AllShaped(fields: seq<Text>) {
    forall i :: 0 <= i < |fields| ==> Shaped(fields[i])
  }

  lemma ShapedCons(field: Text, rest: seq<Text>)
    requires Shaped(field) && AllShaped(rest)
    ensures AllShaped([field] + rest)
  {
    assert forall i :: 0 <= i < |rest| ==> ([field] + rest)[i + 1] == rest[i];
  }

  lemma JoinCons(field: Text, rest: seq<Text>)
    requires rest != []
    ensures Join([field] + rest, COMMA) == field + [COMMA] + Join(rest, COMMA)
  {
    assert ([field] + rest)[1..] == rest;
  }

  lemma CutAt(raw: Text, start: nat, e: nat)
    requires start <= e < |raw| && raw[e] == COMMA
    ensures raw[start..] == raw[start..e] + [COMMA] + raw[e + 1..]
  {
  }

  /** The fields, rejoined by commas, are the input. */
  lemma {:induction false} FieldsRejoin(raw: Text, start: nat)
    requires start <= |raw| && FieldsFrom(raw, start).Ok?
    ensures FieldsFrom(raw, start).value != [] && Join(FieldsFrom(raw, start).value, COMMA) == raw[start..]
    decreases |raw| - start
  {
    var e := FieldEnd(raw, start).value;
    if e < |raw| {
      FieldsRejoin(raw, e + 1);
      var rest := FieldsFrom(raw, e + 1).value;
      assert FieldsFrom(raw, start) == Ok([raw[start..e]] + rest);
      assert Join([raw[start..e]] + rest, COMMA) == raw[start..] by {
        JoinCons(raw[start..e], rest);
        CutAt(raw, start, e);
      }
    }
  }

  /** What the scanner accepts it cuts into well-shaped fields. */
  lemma {:induction false} FieldsAreShaped(raw: Text, start: nat)
    requires start <= |raw| && FieldsFrom(raw, start).Ok?
    ensures AllShaped(FieldsFrom(raw, start).value)
    decreases |raw| - start
  {
    var e := FieldEnd(raw, start).value;
    FieldEndShaped(raw, start);
    if e < |raw| {
      FieldsAreShaped(raw, e + 1);
      ShapedCons(raw[start..e], FieldsFrom(raw, e + 1).value);
    }
  }

  /** The first of several joined fields, as a piece of the input. */
  lemma FirstPiece(raw: Text, start: nat, field: Text, rest: Text)
    requires start <= |raw| && raw[start..] == field + [COMMA] + rest
    ensures var e := start + |field|;
            e < |raw| && raw[start..e] == field && raw[e] == COMMA && raw[e + 1..] == rest
  {
    var e := start + |field|;
    assert |raw[start..]| == |field| + 1 + |rest|;
    assert raw[e] == raw[start..][|field|];
    assert raw[start..e] == raw[start..][..|field|];
    assert raw[e + 1..] == raw[start..][|field| + 1..];
  }

  lemma OnlyField(raw: Text, start: nat, field: Text)
    requires start <= |raw| && Shaped(field) && field == raw[start..]
    ensures FieldsFrom(raw, start) == Ok([field])
  {
    assert raw[start..|raw|] == field;
    ShapedEnds(raw, start, |raw|);
  }

  lemma FirstField(raw: Text, start: nat, field: Text, rest: Text)
    requires start <= |raw| && Shaped(field) && raw[start..] == field + [COMMA] + rest
    ensures var e := start + |field|;
            e < |raw| && raw[start..e] == field && raw[e + 1..] == rest && FieldEnd(raw, start) == Ok(e)
  {
    FirstPiece(raw, start, field, rest);
    ShapedEnds(raw, start, start + |field|);
  }

  lemma ShapedTail(fields: seq<Text>)
    requires fields != [] && AllShaped(fields)
    ensures Shaped(fields[0]) && AllShaped(fields[1..])
  {
  }

  lemma FieldsCons(raw: Text, start: nat, fields: seq<Text>, e: nat)
    requires start <= e < |raw| && fields != [] && FieldEnd(raw, start) == Ok(e) && raw[start..e] == fields[0]
    requires FieldsFrom(raw, e + 1) == Ok(fields[1..])
    ensures FieldsFrom(raw, start) == Ok(fields)
  {
    Cons(fields);
  }

  lemma JoinTail(fields: seq<Text>)
    requires |fields| > 1
    ensures Join(fields, COMMA) == fields[0] + [COMMA] + Join(fields[1..], COMMA)
  {
  }

  /** And every comma-joined list of well-shaped fields is cut back into that list. */
  lemma {:induction false} ShapedAreFields(raw: Text, start: nat, fields: seq<Text>, joined: Text)
    requires start <= |raw| && fields != [] && AllShaped(fields) && Join(fields, COMMA) == joined == raw[start..]
    ensures FieldsFrom(raw, start) == Ok(fields)
    decreases |fields|
  {
    ShapedTail(fields);
    if |fields| == 1 {
      OnlyField(raw, start, fields[0]);
      assert fields == [fields[0]];
    } else {
      var e, rest := start + |fields[0]|, Join(fields[1..], COMMA);
      JoinTail(fields);
      FirstField(raw, start, fields[0], rest);
      ShapedAreFields(raw, e + 1, fields[1..], rest);
      FieldsCons(raw, start, fields, e);
    }
  }

  /** The scanner accepts exactly the comma-joined lists of well-shaped fields, each in one way only. */
  lemma SplitExactly(raw: Text, fields: seq<Text>)
    ensures SplitFields(raw) == Ok(fields) <==>
            fields != [] && AllShaped(fields) && Join(fields, COMMA) == raw
  {
    assert raw[0..] == raw;
    if SplitFields(raw).Ok? {
      FieldsRejoin(raw, 0);
      FieldsAreShaped(raw, 0);
    }
    if fields != [] && AllShaped(fields) && Join(fields, COMMA) == raw {
      ShapedAreFields(raw, 0, fields, raw);
    }
  }

  // What an argument says.

  /** The fields of the argument: well-shaped, and joined by commas. */
  ghost predicate AreFields(fields: seq<Text>, raw: Text) {
    fields != [] && AllShaped(fields) && Join(fields, 44) == raw
  }

  /** A value in matching single or double quotes stands for what they enclose, any other for itself. */
  predicate ValueReads(text: Text, value: Text) {
    if |text| >= 2 && (text[0] == 39 || text[0] == 34) && text[|text| - 1] == text[0]
    then text == [text[0]] + value + [text[0]] else text == value
  }

  /** `key=value`, the key ending at the first `=`. */
  ghost predicate PairReads(field: Text, pair: Pair) {
    exists text: Text ::
      field == pair.0 + Ascii("=") + text && pair.0 != [] && 61 !in pair.0 && ValueReads(text, pair.1)
  }

  /** The positions of the non-empty fields, in order. */
  ghost predicate NonEmptyAt(fields: seq<Text>, places: seq<nat>) {
    && (forall i, j :: 0 <= i < j < |places| ==> places[i] < places[j])
    && (forall p: nat :: p in places <==> p < |fields| && fields[p] != [])
  }

  ghost predicate ReadAt(fields: seq<Text>, places: seq<nat>, pairs: seq<Pair>) {
    && NonEmptyAt(fields, places) && |places| == |pairs|
    && forall j :: 0 <= j < |pairs| ==> places[j] < |fields| && PairReads(fields[places[j]], pairs[j])
  }

  /** The pairs are those of the non-empty fields, one by one. */
  ghost predicate PairsRead(fields: seq<Text>, pairs: seq<Pair>) {
    exists places: seq<nat> :: ReadAt(fields, places, pairs)
  }

  /** What is wrong with a field that is no pair. */
  predicate PairError(field: Text, error: UsageError) {
    match error
    case NotKeyValue => 61 !in field
    case EmptyKey => field != [] && field[0] == 61
    case _ => false
  }

  /** The first non-empty field that is no pair. */
  ghost predicate PairFails(fields: seq<Text>, error: UsageError) {
    exists i :: 0 <= i < |fields| && fields[i] != [] && PairError(fields[i], error) &&
      forall j :: 0 <= j < i ==> fields[j] == [] || exists pair :: PairReads(fields[j], pair)
  }

  /** A field whose quoted value is not closed, or goes on behind the closing quote. */
  ghost predicate BrokenField(rest: Text, error: UsageError) {
    exists key: Text, quote: byte, tail: Text ::
      && rest == key + Ascii("=") + [quote] + tail && 61 !in key && 44 !in key && (quote == 39 || quote == 34)
      && match error
         case UnterminatedQuote => quote !in tail
         case TextAfterQuote =>
           exists k :: 0 <= k < |tail| - 1 && tail[k] == quote && quote !in tail[..k] && tail[k + 1] != 44
         case _ => false
  }

  /** Well-shaped fields, and then a broken one. */
  ghost predicate SplitFails(raw: Text, error: UsageError) {
    BrokenField(raw, error) ||
    exists fields, done: Text, rest: Text ::
      AreFields(fields, done) && raw == done + Ascii(",") + rest && BrokenField(rest, error)
  }

  lemma UnquoteExactly(text: Text, value: Text)
    ensures Unquote(text) == value <==> ValueReads(text, value)
  {
    if |text| >= 2 && IsQuote(text[0]) && text[|text| - 1] == text[0] {
      assert text == [text[0]] + text[1..|text| - 1] + [text[0]];
    }
  }

  lemma PairExactly(field: Text, pair: Pair)
    ensures ParseKeyValuePair(field) == Ok(pair) <==> PairReads(field, pair)
  {
    assert Ascii("=") == [EQUALS];
    hide Ascii, Unquote, ValueReads;
    if ParseKeyValuePair(field) == Ok(pair) {
      var i := Find(field, EQUALS);
      UnquoteExactly(field[i + 1..], pair.1);
      assert field == field[..i] + [EQUALS] + field[i + 1..];
    }
    forall text: Text | field == pair.0 + [EQUALS] + text && pair.0 != [] && EQUALS !in pair.0
                        && ValueReads(text, pair.1)
      ensures ParseKeyValuePair(field) == Ok(pair)
    {
      SplitOnceAt(pair.0, EQUALS, text);
      UnquoteExactly(text, pair.1);
    }
  }

  lemma PairErrors(field: Text)
    ensures ParseKeyValuePair(field).Err? ==> PairError(field, ParseKeyValuePair(field).error)
  {
    var i := Find(field, EQUALS);
  }

  function Later(places: seq<nat>): (r: seq<nat>)
    ensures |r| == |places| && forall i :: 0 <= i < |r| ==> r[i] == places[i] + 1
  {
    seq(|places|, i requires 0 <= i < |places| => places[i] + 1)
  }

  function Earlier(places: seq<nat>): (r: seq<nat>)
    requires forall i :: 0 <= i < |places| ==> places[i] > 0
    ensures |r| == |places| && forall i :: 0 <= i < |r| ==> r[i] == places[i] - 1
  {
    seq(|places|, i requires 0 <= i < |places| => places[i] - 1)
  }

  /** The places of the non-empty fields, with one more field in front. */
  lemma PlacesCons(field: Text, rest: seq<Text>, places: seq<nat>)
    requires NonEmptyAt(rest, places)
    ensures NonEmptyAt([field] + rest, if field == [] then Later(places) else [0] + Later(places))
  {
    var fields, all := [field] + rest, if field == [] then Later(places) else [0] + Later(places);
    forall p: nat
      ensures p in all <==> p < |fields| && fields[p] != []
    {
      if p > 0 {
        assert p < |fields| ==> fields[p] == rest[p - 1];
        if p - 1 in places {
          var i :| 0 <= i < |places| && places[i] == p - 1;
          assert Later(places)[i] == p;
        }
      }
    }
  }

  /** The same without the first field. */
  lemma PlacesTail(fields: seq<Text>, places: seq<nat>)
    requires fields != [] && NonEmptyAt(fields, places)
    ensures fields[0] == [] ==>
              (forall i :: 0 <= i < |places| ==> places[i] > 0) && NonEmptyAt(fields[1..], Earlier(places))
    ensures fields[0] != [] ==>
              && places != [] && places[0] == 0 && (forall i :: 0 <= i < |places| - 1 ==> places[1..][i] > 0)
              && NonEmptyAt(fields[1..], Earlier(places[1..]))
  {
    if fields[0] == [] {
      assert 0 !in places;
      assert forall i :: 0 <= i < |places| ==> places[i] in places;
      EarlierPlaces(fields, places);
    } else {
      assert 0 in places && places[0] == 0;
      assert forall i :: 0 <= i < |places| - 1 ==> places[1..][i] == places[i + 1];
      EarlierPlaces(fields, places[1..]);
    }
  }

  lemma EarlierPlaces(fields: seq<Text>, places: seq<nat>)
    requires fields != [] && (forall i :: 0 <= i < |places| ==> places[i] > 0)
    requires forall i, j :: 0 <= i < j < |places| ==> places[i] < places[j]
    requires forall p: nat :: p in places <==> 0 < p < |fields| && fields[p] != []
    ensures NonEmptyAt(fields[1..], Earlier(places))
  {
    var rest, all := fields[1..], Earlier(places);
    forall p: nat
      ensures p in all <==> p < |rest| && rest[p] != []
    {
      if p in all {
        var i :| 0 <= i < |all| && all[i] == p;
        assert places[i] in places;
      }
      if p < |rest| && rest[p] != [] {
        assert p + 1 in places;
        var i :| 0 <= i < |places| && places[i] == p + 1;
        assert all[i] == p;
      }
    }
  }

  lemma ReadSkip(rest: seq<Text>, places: seq<nat>, pairs: seq<Pair>)
    requires ReadAt(rest, places, pairs)
    ensures ReadAt([[]] + rest, Later(places), pairs)
  {
    hide PairReads, NonEmptyAt;
    PlacesCons([], rest, places);
    var fields: seq<Text> := [[]] + rest;
    assert forall j :: 0 <= j < |places| ==> fields[Later(places)[j]] == rest[places[j]];
  }

  lemma ReadMore(field: Text, pair: Pair, rest: seq<Text>, places: seq<nat>, pairs: seq<Pair>)
    requires field != [] && PairReads(field, pair) && ReadAt(rest, places, pairs)
    ensures ReadAt([field] + rest, [0] + Later(places), [pair] + pairs)
  {
    hide PairReads, NonEmptyAt;
    PlacesCons(field, rest, places);
    var fields, all := [field] + rest, [0] + Later(places);
    forall j | 0 <= j < |all|
      ensures all[j] < |fields| && PairReads(fields[all[j]], ([pair] + pairs)[j])
    {
      if j > 0 {
        assert all[j] == places[j - 1] + 1 && fields[all[j]] == rest[places[j - 1]];
      }
    }
  }

  lemma {:induction false} PairsAreRead(fields: seq<Text>) returns (places: seq<nat>)
    requires PairsOf(fields).Ok?
    ensures ReadAt(fields, places, PairsOf(fields).value)
  {
    hide PairReads, ParseKeyValuePair, ReadAt;
    if fields == [] {
      places := [];
      NothingRead();
    } else {
      var rest := fields[1..];
      places := PairsAreRead(rest);
      assert fields == [fields[0]] + rest;
      if fields[0] == [] {
        ReadSkip(rest, places, PairsOf(rest).value);
        places := Later(places);
      } else {
        var pair := ParseKeyValuePair(fields[0]).value;
        PairExactly(fields[0], pair);
        ReadMore(fields[0], pair, rest, places, PairsOf(rest).value);
        places := [0] + Later(places);
      }
    }
  }

  lemma NothingRead()
    ensures ReadAt([], [], [])
  {
  }

  lemma ReadTail(fields: seq<Text>, places: seq<nat>, pairs: seq<Pair>)
    requires fields != [] && ReadAt(fields, places, pairs)
    ensures fields[0] == [] ==> exists more :: ReadAt(fields[1..], more, pairs)
    ensures fields[0] != [] ==>
              && pairs != [] && PairReads(fields[0], pairs[0])
              && exists more :: ReadAt(fields[1..], more, pairs[1..])
  {
    hide PairReads, NonEmptyAt;
    PlacesTail(fields, places);
    var rest := fields[1..];
    if fields[0] == [] {
      var more := Earlier(places);
      assert forall j :: 0 <= j < |places| ==> rest[more[j]] == fields[places[j]];
      assert ReadAt(rest, more, pairs);
    } else {
      var more := Earlier(places[1..]);
      forall j | 0 <= j < |pairs| - 1
        ensures more[j] < |rest| && PairReads(rest[more[j]], pairs[1..][j])
      {
        assert places[1..][j] == places[j + 1] && rest[more[j]] == fields[places[j + 1]];
      }
      assert ReadAt(rest, more, pairs[1..]);
    }
  }

  lemma FirstIn(places: seq<nat>)
    ensures places != [] ==> places[0] in places
  {
  }

  lemma NoneRead(places: seq<nat>, pairs: seq<Pair>)
    requires ReadAt([], places, pairs)
    ensures pairs == []
  {
    FirstIn(places);
  }

  lemma {:induction false} ReadArePairs(fields: seq<Text>, places: seq<nat>, pairs: seq<Pair>)
    requires ReadAt(fields, places, pairs)
    ensures PairsOf(fields) == Ok(pairs)
    decreases |fields|
  {
    hide PairReads, ParseKeyValuePair, ReadAt;
    if fields == [] {
      NoneRead(places, pairs);
    } else {
      ReadTail(fields, places, pairs);
      if fields[0] == [] {
        var more :| ReadAt(fields[1..], more, pairs);
        ReadArePairs(fields[1..], more, pairs);
      } else {
        PairExactly(fields[0], pairs[0]);
        var more :| ReadAt(fields[1..], more, pairs[1..]);
        ReadArePairs(fields[1..], more, pairs[1..]);
        assert pairs == [pairs[0]] + pairs[1..];
      }
    }
  }

  lemma PairsExactly(fields: seq<Text>, pairs: seq<Pair>)
    ensures PairsOf(fields) == Ok(pairs) <==> PairsRead(fields, pairs)
  {
    hide ReadAt, PairsOf;
    if PairsOf(fields) == Ok(pairs) {
      var places := PairsAreRead(fields);
    }
    forall places: seq<nat> | ReadAt(fields, places, pairs)
      ensures PairsOf(fields) == Ok(pairs)
    {
      ReadArePairs(fields, places, pairs);
    }
  }

  lemma {:induction false} PairsFail(fields: seq<Text>)
    requires PairsOf(fields).Err?
    ensures PairFails(fields, PairsOf(fields).error)
  {
    hide PairError, ParseKeyValuePair, PairReads;
    if fields[0] != [] {
      PairErrors(fields[0]);
    }
    if fields[0] == [] || ParseKeyValuePair(fields[0]).Ok? {
      var rest := fields[1..];
      PairsFail(rest);
      var i :| 0 <= i < |rest| && rest[i] != [] && PairError(rest[i], PairsOf(rest).error) &&
               forall j :: 0 <= j < i ==> rest[j] == [] || exists pair :: PairReads(rest[j], pair);
      if fields[0] != [] {
        PairExactly(fields[0], ParseKeyValuePair(fields[0]).value);
      }
      forall j | 0 <= j < i + 1
        ensures fields[j] == [] || exists pair :: PairReads(fields[j], pair)
      {
        if j > 0 {
          assert fields[j] == rest[j - 1];
        }
      }
      assert fields[i + 1] == rest[i];
    } else {
      assert fields[0] != [] && PairError(fields[0], PairsOf(fields).error);
    }
  }

  /** Where the scanner gives up, a broken field begins. */
  lemma FieldBroken(raw: Text, start: nat)
    requires start <= |raw| && FieldEnd(raw, start).Err?
    ensures BrokenField(raw[start..], FieldEnd(raw, start).error)
  {
    hide *;
    QuotedAt(raw, start);
    var k, error := KeyEnd(raw, start), FieldEnd(raw, start).error;
    KeyFree(raw, start);
    TailBroken(raw, k + 2, raw[k + 1], error);
    Pieces(raw, start, k);
    BrokenIs(raw[start..k], raw[k + 1], raw[k + 2..], error);
  }

  lemma KeyFree(raw: Text, start: nat)
    requires start <= |raw|
    ensures var key := raw[start..KeyEnd(raw, start)]; 61 !in key && 44 !in key
  {
    hide KeyEnd;
    var key := raw[start..KeyEnd(raw, start)];
    assert forall j :: 0 <= j < |key| ==> key[j] == raw[start + j];
  }

  lemma Pieces(raw: Text, start: nat, k: nat)
    requires start <= k && k + 1 < |raw|
    ensures raw[start..] == raw[start..k] + [raw[k]] + [raw[k + 1]] + raw[k + 2..]
  {
  }

  /** A field fails only behind `=` and a quote. */
  lemma QuotedAt(raw: Text, start: nat)
    requires start <= |raw| && FieldEnd(raw, start).Err?
    ensures var k, error := KeyEnd(raw, start), FieldEnd(raw, start).error;
            && start <= k && k + 1 < |raw| && raw[k] == EQUALS && (raw[k + 1] == 39 || raw[k + 1] == 34)
            && var close := Find(raw, raw[k + 1], k + 2);
               || (close == |raw| && error == UnterminatedQuote)
               || (close + 1 < |raw| && raw[close + 1] != COMMA && error == TextAfterQuote)
  {
  }

  lemma BrokenIs(key: Text, quote: byte, tail: Text, error: UsageError)
    requires 61 !in key && 44 !in key && (quote == 39 || quote == 34)
    requires match error
             case UnterminatedQuote => quote !in tail
             case TextAfterQuote =>
               exists k :: 0 <= k < |tail| - 1 && tail[k] == quote && quote !in tail[..k] && tail[k + 1] != 44
             case _ => false
    ensures BrokenField(key + [EQUALS] + [quote] + tail, error)
  {
    assert Ascii("=") == [EQUALS];
  }

  lemma TailBroken(raw: Text, from: nat, quote: byte, error: UsageError)
    requires from <= |raw|
    requires var close := Find(raw, quote, from);
             || (close == |raw| && error == UnterminatedQuote)
             || (close + 1 < |raw| && raw[close + 1] != COMMA && error == TextAfterQuote)
    ensures match error
            case UnterminatedQuote => quote !in raw[from..]
            case TextAfterQuote =>
              var tail := raw[from..];
              exists k :: 0 <= k < |tail| - 1 && tail[k] == quote && quote !in tail[..k] && tail[k + 1] != 44
            case _ => false
  {
    var tail, close := raw[from..], Find(raw, quote, from);
    assert forall j :: 0 <= j < |tail| ==> tail[j] == raw[from + j];
    if close < |raw| {
      var k := close - from;
      assert tail[k] == quote && quote !in tail[..k] && tail[k + 1] == raw[close + 1];
    }
  }

  lemma {:induction false} FieldsFail(raw: Text, start: nat) returns (cut: nat, fields: seq<Text>)
    requires start <= |raw| && FieldsFrom(raw, start).Err?
    ensures start <= cut <= |raw| && BrokenField(raw[cut..], FieldsFrom(raw, start).error)
    ensures cut > start ==> raw[cut - 1] == 44 && AreFields(fields, raw[start..cut - 1])
    decreases |raw| - start
  {
    hide BrokenField, AreFields, FieldEnd, Shaped;
    cut, fields := start, [];
    if FieldEnd(raw, start).Err? {
      FieldBroken(raw, start);
    } else {
      var e := FieldEnd(raw, start).value;
      var field := raw[start..e];
      FieldEndShaped(raw, start);
      cut, fields := FieldsFail(raw, e + 1);
      if cut == e + 1 {
        OneField(field);
        fields := [field];
        assert raw[start..cut - 1] == field;
      } else {
        MoreFields(field, fields, raw[e + 1..cut - 1]);
        fields := [field] + fields;
        assert raw[start..cut - 1] == field + [COMMA] + raw[e + 1..cut - 1];
      }
    }
  }

  lemma OneField(field: Text)
    requires Shaped(field)
    ensures AreFields([field], field)
  {
  }

  lemma MoreFields(field: Text, fields: seq<Text>, raw: Text)
    requires Shaped(field) && AreFields(fields, raw)
    ensures AreFields([field] + fields, field + [COMMA] + raw)
  {
    ShapedCons(field, fields);
    JoinCons(field, fields);
  }

  /** What an argument denotes, and how it fails. */
  lemma ParsedExactly(raw: Text)
    ensures forall pairs ::
              Parsed(raw) == Ok(pairs) <==> exists fields :: AreFields(fields, raw) && PairsRead(fields, pairs)
    ensures Parsed(raw).Err? ==>
              || SplitFails(raw, Parsed(raw).error)
              || exists fields :: AreFields(fields, raw) && PairFails(fields, Parsed(raw).error)
  {
    hide PairsRead, PairFails, PairsOf, SplitFields, AllShaped, Join, SplitFails;
    forall fields
      ensures SplitFields(raw) == Ok(fields) <==> AreFields(fields, raw)
    {
      SplitExactly(raw, fields);
    }
    if SplitFields(raw).Ok? {
      var fields := SplitFields(raw).value;
      forall pairs
        ensures PairsOf(fields) == Ok(pairs) <==> PairsRead(fields, pairs)
      {
        PairsExactly(fields, pairs);
      }
      if PairsOf(fields).Err? {
        PairsFail(fields);
      }
    } else {
      SplitFailsAt(raw);
    }
  }

  lemma SplitFailsAt(raw: Text)
    requires SplitFields(raw).Err?
    ensures SplitFails(raw, SplitFields(raw).error)
  {
    hide BrokenField, AreFields, FieldsFrom;
    var cut, fields := FieldsFail(raw, 0);
    assert raw[0..] == raw;
    if cut > 0 {
      assert Ascii(",") == [COMMA];
      assert raw == raw[0..cut - 1] + [COMMA] + raw[cut..];
    }
  }

  method ParseSupportingData(raw: Text) returns (r: Result<seq<Pair>, UsageError>)
    ensures r == Parsed(raw)
    ensures forall pairs :: r == Ok(pairs) <==> exists fields :: AreFields(fields, raw) && PairsRead(fields, pairs)
    ensures r.Err? ==> SplitFails(raw, r.error) || exists fields :: AreFields(fields, raw) && PairFails(fields, r.error)
  {
    ParsedExactly(raw);
    hide AreFields, PairsRead, SplitFails, PairFails, SplitFields, ParseKeyValuePair;
    var fields :- SplitSupportingDataFields(raw);
    var pairs: seq<Pair> := [];
    var i := 0;
    BehindStep(pairs, ([], []), PairsOf(fields));
    while i < |fields|
      invariant 0 <= i <= |fields|
      invariant PairsOf(fields) == Behind(pairs, PairsOf(fields[i..]))
    {
      assert fields[i..][1..] == fields[i + 1..];
      if fields[i] != [] {
        var pair :- ParseKeyValuePair(fields[i]);
        assert PairsOf(fields[i..]) == Behind([pair], PairsOf(fields[i + 1..]));
        BehindStep(pairs, pair, PairsOf(fields[i + 1..]));
        pairs := pairs + [pair];
      }
      i := i + 1;
    }
    assert PairsOf(fields[i..]) == Ok([]) && pairs + [] == pairs;
    return Ok(pairs);
  }

  // Rendering.

  datatype Style = Bare | Quoted(quote: byte)

  function RenderValue(value: Text, style: Style): Text {
    match style
    case Bare => value
    case Quoted(q) => [q] + value + [q]
  }

  function RenderPair(pair: Pair, style: Style): Text {
    pair.0 + [EQUALS] + RenderValue(pair.1, style)
  }

  /** A pair that can be written in this style. */
  predicate Representable(pair: Pair, style: Style) {
    && pair.0 != [] && Free(pair.0, EQUALS, COMMA)
    && match style
       case Bare => BareValue(pair.1)
       case Quoted(q) => IsQuote(q) && q !in pair.1
  }

  function RenderedFields(pairs: seq<Pair>, styles: seq<Style>): (fields: seq<Text>)
    requires |pairs| == |styles|
    ensures |fields| == |pairs|
    ensures forall i :: 0 <= i < |fields| ==> fields[i] == RenderPair(pairs[i], styles[i])
  {
    seq(|pairs|, i requires 0 <= i < |pairs| => RenderPair(pairs[i], styles[i]))
  }

  function Rendered(pairs: seq<Pair>, styles: seq<Style>): Text
    requires |pairs| == |styles|
  {
    Join(RenderedFields(pairs, styles), COMMA)
  }

  ghost predicate AllRepresentable(pairs: seq<Pair>, styles: seq<Style>) {
    |pairs| == |styles| && forall i :: 0 <= i < |pairs| ==> Representable(pairs[i], styles[i])
  }

  lemma RenderedPair(pair: Pair, style: Style)
    requires Representable(pair, style)
    ensures var field := RenderPair(pair, style);
            field != [] && Shaped(field) && ParseKeyValuePair(field) == Ok(pair)
  {
    var field, value := RenderPair(pair, style), RenderValue(pair.1, style);
    SplitOnceAt(pair.0, EQUALS, value);
    assert field[..|pair.0|] == pair.0 && field[|pair.0| + 1..] == value;
    if style.Quoted? {
      assert value[1..|value| - 1] == pair.1;
    }
    assert ShapedAt(field, |pair.0|);
  }

  lemma {:induction false} RenderedPairs(pairs: seq<Pair>, styles: seq<Style>)
    requires AllRepresentable(pairs, styles)
    ensures PairsOf(RenderedFields(pairs, styles)) == Ok(pairs)
  {
    if pairs != [] {
      RenderedPair(pairs[0], styles[0]);
      RenderedPairs(pairs[1..], styles[1..]);
      assert pairs == [pairs[0]] + pairs[1..];
      assert RenderedFields(pairs, styles)[1..] == RenderedFields(pairs[1..], styles[1..]);
    }
  }

  /** Parsing undoes rendering for every list of representable pairs. */
  lemma RenderParse(pairs: seq<Pair>, styles: seq<Style>)
    requires AllRepresentable(pairs, styles)
    ensures Parsed(Rendered(pairs, styles)) == Ok(pairs)
  {
    var fields := RenderedFields(pairs, styles);
    forall i | 0 <= i < |fields|
      ensures Shaped(fields[i])
    {
      RenderedPair(pairs[i], styles[i]);
    }
    RenderedPairs(pairs, styles);
    if pairs == [] {
      var blank: seq<Text> := [[]];
      SplitExactly([], blank);
      assert blank[1..] == [];
    } else {
      SplitExactly(Rendered(pairs, styles), fields);
    }
  }

  /** A pair read from a well-shaped field is representable. */
  lemma ShapedValue(value: Text) returns (style: Style)
    requires BareValue(value) || QuotedValue(value)
    ensures match style
            case Bare => BareValue(Unquote(value))
            case Quoted(q) => IsQuote(q) && q !in Unquote(value)
  {
    style := if BareValue(value) then Bare else Quoted(value[0]);
  }

  lemma KeyOnly(field: Text)
    requires Free(field, EQUALS, COMMA)
    ensures ParseKeyValuePair(field).Err?
  {
    FindNone(field, EQUALS);
  }

  lemma ShapedPair(field: Text) returns (style: Style)
    requires Shaped(field) && ParseKeyValuePair(field).Ok?
    ensures Representable(ParseKeyValuePair(field).value, style)
  {
    if Free(field, EQUALS, COMMA) {
      KeyOnly(field);
    }
    var k :| 0 <= k < |field| && ShapedAt(field, k);
    hide BareValue, QuotedValue, Unquote, SplitOnce;
    var value := field[k + 1..];
    assert field == field[..k] + [EQUALS] + value;
    SplitOnceAt(field[..k], EQUALS, value);
    style := ShapedValue(value);
  }

  lemma {:induction false} ShapedPairs(fields: seq<Text>) returns (styles: seq<Style>)
    requires AllShaped(fields) && PairsOf(fields).Ok?
    ensures AllRepresentable(PairsOf(fields).value, styles)
  {
    styles := [];
    if fields != [] {
      styles := ShapedPairs(fields[1..]);
      if fields[0] != [] {
        var style := ShapedPair(fields[0]);
        styles := [style] + styles;
      }
    }
  }

  /** The lists of pairs that some argument denotes are exactly the representable ones. */
  lemma DenotableExactly(pairs: seq<Pair>)
    ensures (exists raw :: Parsed(raw) == Ok(pairs)) <==> exists styles :: AllRepresentable(pairs, styles)
  {
    if raw :| Parsed(raw) == Ok(pairs) {
      FieldsAreShaped(raw, 0);
      var styles := ShapedPairs(SplitFields(raw).value);
      assert AllRepresentable(pairs, styles);
    }
    if styles :| AllRepresentable(pairs, styles) {
      RenderParse(pairs, styles);
      assert Parsed(Rendered(pairs, styles)) == Ok(pairs);
    }
  }
}
