/** cloud-init keys: `split_key` and `parse_key`. */
module CloudInitKeys {
  import opened Results
  import opened Bytes
  import opened Delimited
  import opened Decimals
  import opened KvpErrors
  import opened Uuids

  const PREFIX := Ascii("CLOUD_INIT")

  datatype CloudInitKey = CloudInitKey(incarnation: Text, kind: Text, name: Text, vmId: Option<Text>, eventId: Text)

  function ParseKey(base: Text): Result<CloudInitKey, DecodeError> {
    var fields := Split(base, BAR);
    if |fields| != 5 && |fields| != 6 then Err(Malformed)
    else if fields[0] != PREFIX || NUL in base || (exists i :: 0 <= i < |fields| && fields[i] == [])
            || !AllDigits(fields[1]) then Err(Malformed)
    else if |fields| == 6 && !IsUuid(fields[4]) then Err(Malformed)
    else if !IsUuid(fields[|fields| - 1]) then Err(Malformed)
    else Ok(CloudInitKey(fields[1], fields[2], fields[3], if |fields| == 6 then Some(fields[4]) else None,
                         fields[|fields| - 1]))
  }

  function SplitKey(key: Text): Result<(Text, Option<nat>), DecodeError> {
    var fields := Split(key, BAR);
    if |fields| !in {5, 6, 7} then Err(Malformed)
    else if |fields| == 7 || (|fields| == 6 && !IsUuid(fields[5])) then
      match RSplitOnce(key, BAR)
      case None => Err(Malformed)
      case Some((base, index)) =>
        var n :- ParseUnsigned(index);
        var _ :- ParseKey(base);
        Ok((base, Some(n)))
    else
      var _ :- ParseKey(key);
      Ok((key, None))
  }

  // Rendering, as cloud-init does it.

  function BaseFields(k: CloudInitKey): seq<Text> {
    [PREFIX, k.incarnation, k.kind, k.name] + (if k.vmId.Some? then [k.vmId.value] else []) + [k.eventId]
  }

  function RenderBase(k: CloudInitKey): Text {
    Join(BaseFields(k), BAR)
  }

  function RenderKey(k: CloudInitKey, index: Option<nat>): Text {
    match index
    case None => RenderBase(k)
    case Some(i) => RenderBase(k) + [BAR] + Decimal(i)
  }

  predicate GoodField(s: Text) {
    s != [] && BAR !in s && NUL !in s
  }

  /** The keys cloud-init writes. */
  predicate GoodCloudInitKey(k: CloudInitKey) {
    && GoodField(k.incarnation) && AllDigits(k.incarnation)
    && GoodField(k.kind) && GoodField(k.name) && GoodField(k.eventId) && IsUuid(k.eventId)
    && (k.vmId.Some? ==> GoodField(k.vmId.value) && IsUuid(k.vmId.value))
  }

  lemma RenderBaseParses(k: CloudInitKey)
    requires GoodCloudInitKey(k)
    ensures Split(RenderBase(k), BAR) == BaseFields(k) && ParseKey(RenderBase(k)) == Ok(k)
  {
    hide Split, Join, IsUuid, AllDigits;
    var fields := BaseFields(k);
    assert GoodField(PREFIX);
    assert forall i :: 0 <= i < |fields| ==> GoodField(fields[i]);
    SplitJoin(fields, BAR);
    JoinHas(fields, BAR, NUL);
  }

  /** A 64-bit index has at most 20 digits, so it never looks like a UUID. */
  lemma IndexIsNoUuid(i: nat)
    requires i < U64_LIMIT
    ensures !IsUuid(Decimal(i))
  {
    assert Pow10(20) >= U64_LIMIT by {
      Pow10Twenty();
    }
    DecimalLength(i, 20);
  }

  lemma Pow10Twenty()
    ensures Pow10(20) == 100_000_000_000_000_000_000
  {
    Pow10Add(10, 10);
    assert Pow10(10) == 10_000_000_000 by {
      Pow10Add(5, 5);
      assert Pow10(5) == 100_000 by {
        assert Pow10(3) == 10 * Pow10(2) && Pow10(2) == 10 * Pow10(1);
      }
    }
  }

  lemma IndexedSplits(k: CloudInitKey, i: nat)
    requires GoodCloudInitKey(k)
    ensures Split(RenderBase(k) + [BAR] + Decimal(i), BAR) == BaseFields(k) + [Decimal(i)]
    ensures RSplitOnce(RenderBase(k) + [BAR] + Decimal(i), BAR) == Some((RenderBase(k), Decimal(i)))
  {
    var digits, fields := Decimal(i), BaseFields(k);
    assert BAR !in digits;
    assert BAR !in PREFIX;
    assert forall j :: 0 <= j < |fields| ==> BAR !in fields[j];
    JoinAppend(fields, digits, BAR);
    SplitJoin(fields + [digits], BAR);
    RSplitOnceAt(RenderBase(k), BAR, digits);
  }

  /** `split_key` inverts rendering in all four layouts: with or without VM id, with or without index. */
  lemma SplitKeyInverts(k: CloudInitKey, index: Option<nat>)
    requires GoodCloudInitKey(k) && (index.Some? ==> index.value < U64_LIMIT)
    ensures SplitKey(RenderKey(k, index)) == Ok((RenderBase(k), index))
  {
    hide Split, Join, IsUuid, RSplitOnce, ParseKey, Decimal;
    RenderBaseParses(k);
    if index.Some? {
      IndexedSplits(k, index.value);
      IndexIsNoUuid(index.value);
    }
  }

  /** Everything `split_key` accepts is such a key, up to leading zeros of the index. */
  lemma SplitKeyAccepts(key: Text)
    requires SplitKey(key).Ok?
    ensures var (base, index) := SplitKey(key).value;
            && ParseKey(base).Ok? && GoodCloudInitKey(ParseKey(base).value) && RenderBase(ParseKey(base).value) == base
            && (index.None? ==> key == base)
            && (index.Some? ==> exists digits :: key == base + [BAR] + digits && digits != [] && AllDigits(digits)
                                                && DigitsValue(digits) == index.value < U64_LIMIT)
  {
    var (base, index) := SplitKey(key).value;
    ParsedIsGood(base);
    if index.Some? {
      RSplitOnceParts(key, BAR);
    }
  }

  lemma ParsedIsGood(base: Text)
    requires ParseKey(base).Ok?
    ensures GoodCloudInitKey(ParseKey(base).value) && RenderBase(ParseKey(base).value) == base
  {
    var fields, k := Split(base, BAR), ParseKey(base).value;
    FieldsGood(base);
    JoinSplit(base, BAR);
    assert BaseFields(k) == fields;
    assert GoodField(fields[1]) && GoodField(fields[2]) && GoodField(fields[3]) && GoodField(fields[4])
           && GoodField(fields[|fields| - 1]);
  }

  lemma FieldsGood(base: Text)
    requires NUL !in base && forall i :: 0 <= i < |Split(base, BAR)| ==> Split(base, BAR)[i] != []
    ensures forall i :: 0 <= i < |Split(base, BAR)| ==> GoodField(Split(base, BAR)[i])
  {
    JoinSplit(base, BAR);
    JoinHas(Split(base, BAR), BAR, NUL);
  }

  // The keys, from the text alone.

  predicate PlainField(s: Text) {
    s != [] && 124 !in s && 0 !in s
  }

  /** A base key in its two layouts, with and without a VM id. */
  predicate KeyReads(base: Text, k: CloudInitKey) {
    && base == Ascii("CLOUD_INIT|") + k.incarnation + Ascii("|") + k.kind + Ascii("|") + k.name + Ascii("|")
               + (if k.vmId.Some? then k.vmId.value + Ascii("|") else []) + k.eventId
    && k.incarnation != [] && AllDigits(k.incarnation) && PlainField(k.kind) && PlainField(k.name)
    && PlainField(k.eventId) && IsUuid(k.eventId)
    && (k.vmId.Some? ==> PlainField(k.vmId.value) && IsUuid(k.vmId.value))
  }

  /**
   A base key alone, or followed by an index. Digits that look like a UUID are an index only behind
   a VM id and an event id.
   */
  ghost predicate SplitReads(key: Text, base: Text, index: Option<nat>) {
    exists k :: KeyReads(base, k) &&
      match index
      case None => key == base
      case Some(n) =>
        exists digits: Text ::
          && key == base + Ascii("|") + digits && digits != [] && AllDigits(digits)
          && DigitsValue(digits) == n < 18_446_744_073_709_551_616 && (k.vmId.Some? || !IsUuid(digits))
  }

  lemma RenderText(k: CloudInitKey)
    ensures Ascii("CLOUD_INIT|") == PREFIX + [BAR] && Ascii("|") == [BAR]
    ensures RenderBase(k) ==
            Ascii("CLOUD_INIT|") + k.incarnation + Ascii("|") + k.kind + Ascii("|") + k.name + Ascii("|")
            + (if k.vmId.Some? then k.vmId.value + Ascii("|") else []) + k.eventId
  {
    assert Ascii("CLOUD_INIT|") == PREFIX + [BAR] && Ascii("|") == [BAR];
    hide Ascii, PREFIX;
    var fields := BaseFields(k);
    JoinAppend([PREFIX], k.incarnation, BAR);
    JoinAppend([PREFIX, k.incarnation], k.kind, BAR);
    JoinAppend([PREFIX, k.incarnation, k.kind], k.name, BAR);
    assert [PREFIX] + [k.incarnation] == [PREFIX, k.incarnation];
    assert [PREFIX, k.incarnation] + [k.kind] == [PREFIX, k.incarnation, k.kind];
    var shared := [PREFIX, k.incarnation, k.kind, k.name];
    assert [PREFIX, k.incarnation, k.kind] + [k.name] == shared;
    if k.vmId.Some? {
      JoinAppend(shared, k.vmId.value, BAR);
      JoinAppend(shared + [k.vmId.value], k.eventId, BAR);
      assert fields == shared + [k.vmId.value] + [k.eventId];
    } else {
      JoinAppend(shared, k.eventId, BAR);
      assert fields == shared + [k.eventId];
    }
  }

  lemma GoodExactly(k: CloudInitKey)
    ensures GoodCloudInitKey(k) <==> KeyReads(RenderBase(k), k)
  {
    RenderText(k);
    hide IsUuid, Ascii, RenderBase;
  }

  /** A base key is accepted exactly when its text is that of a key, and is read as that key. */
  lemma KeyExactly(base: Text, k: CloudInitKey)
    ensures ParseKey(base) == Ok(k) <==> KeyReads(base, k)
  {
    RenderText(k);
    GoodExactly(k);
    hide ParseKey, KeyReads, GoodCloudInitKey, RenderBase;
    if ParseKey(base) == Ok(k) {
      ParsedIsGood(base);
    }
    if KeyReads(base, k) {
      ReadsBase(base, k);
      RenderBaseParses(k);
    }
  }

  lemma ReadsBase(base: Text, k: CloudInitKey)
    requires KeyReads(base, k)
    ensures base == RenderBase(k)
  {
    hide IsUuid, RenderBase;
    RenderText(k);
  }

  /** `split_key` accepts exactly those texts, and splits them so. */
  lemma SplitExactly(key: Text, base: Text, index: Option<nat>)
    ensures SplitKey(key) == Ok((base, index)) <==> SplitReads(key, base, index)
    ensures SplitKey(key).Err? ==> SplitKey(key) == Err(Malformed)
  {
    if SplitKey(key) == Ok((base, index)) {
      SplitIsRead(key, base, index);
    }
    hide SplitKey, ParseKey, IsUuid, Ascii, KeyReads;
    assert Ascii("|") == [BAR] by {
      BarText();
    }
    forall k | KeyReads(base, k) && index == None && key == base
      ensures SplitKey(key) == Ok((base, None))
    {
      KeyExactly(base, k);
      WholeKey(base);
    }
    forall k, n: nat, digits: Text
      | KeyReads(base, k) && index == Some(n) && key == base + [BAR] + digits && digits != [] && AllDigits(digits)
        && DigitsValue(digits) == n < U64_LIMIT && (k.vmId.Some? || !IsUuid(digits))
      ensures SplitKey(key) == Ok((base, index))
    {
      KeyExactly(base, k);
      IndexedKey(base, k, digits);
    }
    SplitMalformed(key);
  }

  lemma BarText()
    ensures Ascii("|") == [BAR]
  {
  }

  lemma SplitMalformed(key: Text)
    ensures SplitKey(key).Err? ==> SplitKey(key) == Err(Malformed)
  {
  }

  /** The number of fields of a base key, and the last one. */
  lemma BaseShape(base: Text)
    requires ParseKey(base).Ok?
    ensures var fields := Split(base, BAR);
            |fields| == (if ParseKey(base).value.vmId.Some? then 6 else 5) && IsUuid(fields[|fields| - 1])
  {
  }

  lemma WholeKey(base: Text)
    requires ParseKey(base).Ok?
    ensures SplitKey(base) == Ok((base, None))
  {
    BaseShape(base);
  }

  lemma IndexedFields(base: Text, digits: Text)
    requires AllDigits(digits)
    ensures Split(base + [BAR] + digits, BAR) == Split(base, BAR) + [digits]
  {
    var fields := Split(base, BAR);
    JoinSplit(base, BAR);
    JoinAppend(fields, digits, BAR);
    SplitJoin(fields + [digits], BAR);
  }

  lemma IndexedKey(base: Text, k: CloudInitKey, digits: Text)
    requires ParseKey(base) == Ok(k) && digits != [] && AllDigits(digits) && DigitsValue(digits) < U64_LIMIT
    requires k.vmId.Some? || !IsUuid(digits)
    ensures SplitKey(base + [BAR] + digits) == Ok((base, Some(DigitsValue(digits))))
  {
    hide IsUuid, ParseKey, Split;
    BaseShape(base);
    IndexedFields(base, digits);
    RSplitOnceAt(base, BAR, digits);
  }

  lemma SplitIsRead(key: Text, base: Text, index: Option<nat>)
    requires SplitKey(key) == Ok((base, index))
    ensures SplitReads(key, base, index)
  {
    hide Split, ParseKey, IsUuid, KeyReads;
    BarText();
    hide Ascii;
    var k := ParseKey(base).value;
    KeyExactly(base, k);
    BaseShape(base);
    if index.Some? {
      RSplitOnceParts(key, BAR);
      var digits := RSplitOnce(key, BAR).value.1;
      IndexedFields(base, digits);
      assert key == base + [BAR] + digits;
    }
  }
}
