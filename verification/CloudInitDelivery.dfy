/** cloud-init's messages through the pool: from chunk records in any order to the diagnostic. */
module CloudInitDelivery {
  import opened Results
  import opened Bytes
  import opened Delimited
  import opened Decimals
  import opened KvpErrors
  import opened PoolLayout
  import opened Diagnostics
  import opened CloudInitKeys
  import opened CloudInitChunks
  import opened JsonStrings
  import opened Uuids
  import opened Reader
  import opened Delivery
  import Grouping

  /** The JSON library, and the typed diagnostic that metadata and message make. */
  datatype CloudInit<!M> = CloudInit(json: Json<M>, typed: (CloudInitKey, M, Text) -> Result<Diagnostic, DecodeError>)

  function DecodeMessage<M(==,!new)>(cloud: CloudInit<M>, base: Text, chunks: seq<(nat, Text)>):
    Result<Diagnostic, DecodeError>
  {
    var (key, meta, message) :- Joined(cloud.json, base, chunks);
    cloud.typed(key, meta, message)
  }

  /** `decode_chunks` of cloud-init. */
  method Decode<M(==,!new)>(cloud: CloudInit<M>, base: Text, chunks: seq<(nat, Text)>)
    returns (r: Result<Diagnostic, DecodeError>)
    ensures r == DecodeMessage(cloud, base, chunks)
  {
    hide Joined;
    var joined :- CloudInitChunks.DecodeChunks(cloud.json, base, chunks);
    var (key, meta, message) := joined;
    return cloud.typed(key, meta, message);
  }

  /** The reader's cloud-init decoder is this one. */
  ghost predicate Uses<M(!new)>(libs: Libraries, cloud: CloudInit<M>) {
    forall base, chunks :: libs.cloudChunks(base, chunks) == DecodeMessage(cloud, base, chunks)
  }

  function PairAt(records: seq<Record>, i: nat): (nat, Text)
    requires i < |records|
  {
    (i, records[i].value)
  }

  function Pairs(records: seq<Record>): (ps: seq<(nat, Text)>)
    ensures |ps| == |records|
    ensures forall i :: 0 <= i < |ps| ==> ps[i] == PairAt(records, i)
  {
    seq(|records|, i requires 0 <= i < |records| => PairAt(records, i))
  }

  /** The records of one message, as cloud-init writes them. */
  ghost predicate MessageRecords<M(!new)>(
    json: Json<M>, k: CloudInitKey, records: seq<Record>, fragments: seq<Text>, meta: M)
  {
    && GoodCloudInitKey(k) && |records| <= U64_LIMIT
    && (forall i :: 0 <= i < |records| ==> records[i].key == RenderKey(k, Some(i)))
    && Written(json, Pairs(records), fragments, meta)
  }

  lemma CloudClass(k: CloudInitKey, i: nat)
    requires GoodCloudInitKey(k) && i < U64_LIMIT
    ensures ClassOf(RenderKey(k, Some(i))) == Chunk(RenderBase(k), i)
    ensures Split(RenderBase(k), BAR)[0] == PREFIX
  {
    hide Split, SplitKey, Decimal, IsUuid, AllDigits;
    SplitKeyInverts(k, Some(i));
    IndexedSplits(k, i);
    RenderBaseParses(k);
    assert |DIAGNOSTIC_VERSION_ID| == 4 && |PREFIX| == 10;
  }

  lemma MessageGroup(k: CloudInitKey, records: seq<Record>)
    requires GoodCloudInitKey(k) && |records| <= U64_LIMIT
    requires forall i :: 0 <= i < |records| ==> records[i].key == RenderKey(k, Some(i))
    ensures PartsIn(records) == Pairs(records)
    ensures forall i :: 0 <= i < |records| ==> InBase(records[i].key, RenderBase(k))
  {
    hide ClassOf;
    forall i | 0 <= i < |records|
      ensures ClassOf(records[i].key) == Chunk(RenderBase(k), i)
    {
      CloudClass(k, i);
    }
  }

  lemma PairsPrefix(records: seq<Record>, n: nat)
    requires n <= |records|
    ensures Pairs(records)[..n] == Pairs(records[..n]) && Contiguous(Pairs(records[..n]))
  {
  }

  /** The first records of a message join to what their fragments unescape to. */
  lemma MessageJoins<M(!new)>(rs: seq<Record>, cloud: CloudInit<M>, libs: Libraries, k: CloudInitKey,
                              records: seq<Record>, fragments: seq<Text>, tokens: seq<Token>, meta: M, n: nat)
    requires Uses(libs, cloud) && MessageRecords(cloud.json, k, records, fragments, meta)
    requires AllValid(tokens) && Concat(fragments) == Spelling(tokens)
    requires 0 < n <= |records| && SameGroup(records[..n], rs, RenderBase(k))
    ensures Grouping.GroupResult(Items(rs, libs), RenderBase(k), Decoder(libs)) ==
            match Unescape(Concat(fragments[..n]))
            case None => Err(Malformed)
            case Some(message) => cloud.typed(k, meta, message)
    ensures n == |records| ==> Unescape(Concat(fragments[..n])) == Some(Meaning(tokens))
    ensures Grouping.Members(Items(rs, libs), |rs|, RenderBase(k)) != []
  {
    hide Split, ParseKey, Unescape, Concat, Joined, SameGroup, InBase, PartOf, Written, OrderedParts, RenderBase;
    var base, sent := RenderBase(k), records[..n];
    assert forall i :: 0 <= i < n ==> sent[i].key == RenderKey(k, Some(i));
    MessageGroup(k, sent);
    GroupPermutes(rs, sent, base, libs);
    PairsPrefix(records, n);
    var parts := Grouping.PartsOf(Grouping.Members(Items(rs, libs), |rs|, base));
    assert |parts| == |multiset(parts)| == |multiset(PartsIn(sent))| == n;
    OrderedExactly(parts);
    assert IsOrdering(Pairs(sent), parts);
    RenderBaseParses(k);
    CloudClass(k, 0);
    CutMessageDecodes(cloud.json, base, Pairs(records), fragments, tokens, meta, n);
    GroupResultIs(rs, base, libs);
  }

  /** `text` is the spelling of the first `k` elements of the message. */
  ghost predicate SpellsFirst(text: Text, tokens: seq<Token>, k: nat) {
    k <= |tokens| && text == Spelling(tokens[..k])
  }

  /** The diagnostic of the elements that `text` spells, or an error when it ends inside one. */
  ghost predicate ReadsAs<M(!new)>(result: Result<Diagnostic, DecodeError>, cloud: CloudInit<M>, k: CloudInitKey,
                                   meta: M, text: Text, tokens: seq<Token>)
    requires AllValid(tokens)
  {
    && (forall j: nat :: SpellsFirst(text, tokens, j) ==> result == cloud.typed(k, meta, Meaning(tokens[..j])))
    && ((forall j: nat :: !SpellsFirst(text, tokens, j)) ==> result == Err(Malformed))
  }

  lemma ConcatPrefix(fragments: seq<Text>, n: nat)
    requires n <= |fragments|
    ensures Concat(fragments[..n]) <= Concat(fragments)
  {
    assert fragments == fragments[..n] + fragments[n..];
    ConcatAppend(fragments[..n], fragments[n..]);
  }

  lemma UnescapedReads<M(!new)>(result: Result<Diagnostic, DecodeError>, cloud: CloudInit<M>, k: CloudInitKey,
                                meta: M, text: Text, tokens: seq<Token>)
    requires AllValid(tokens) && text <= Spelling(tokens)
    requires result == match Unescape(text)
                       case None => Err(Malformed)
                       case Some(message) => cloud.typed(k, meta, message)
    ensures ReadsAs(result, cloud, k, meta, text, tokens)
  {
    PrefixExactly(tokens, text);
    hide Unescape, Spelling, Meaning;
    if Unescape(text).Some? {
      var j :| 0 <= j <= |tokens| && text == Spelling(tokens[..j]);
      assert SpellsFirst(text, tokens, j);
    }
  }

  /**
   A pool that holds the first `n` records of a message, in any order and among any others, gives
   the diagnostic of the elements that their fragments spell, or `Malformed` when the cut is
   inside one.
   */
  lemma MessageReads<M(!new)>(rs: seq<Record>, cloud: CloudInit<M>, libs: Libraries, k: CloudInitKey,
                              records: seq<Record>, fragments: seq<Text>, tokens: seq<Token>, meta: M, n: nat)
    requires Uses(libs, cloud) && MessageRecords(cloud.json, k, records, fragments, meta)
    requires AllValid(tokens) && Concat(fragments) == Spelling(tokens)
    requires 0 < n <= |records| && SameGroup(records[..n], rs, RenderBase(k))
    ensures ReadsAs(Grouping.GroupResult(Items(rs, libs), RenderBase(k), Decoder(libs)), cloud, k, meta,
                    Concat(fragments[..n]), tokens)
    ensures Grouping.Members(Items(rs, libs), |rs|, RenderBase(k)) != []
  {
    hide *;
    FragmentCount(cloud.json, k, records, fragments, meta);
    MessageJoins(rs, cloud, libs, k, records, fragments, tokens, meta, n);
    ConcatPrefix(fragments, n);
    UnescapedReads(Grouping.GroupResult(Items(rs, libs), RenderBase(k), Decoder(libs)), cloud, k, meta,
                   Concat(fragments[..n]), tokens);
  }

  lemma FragmentCount<M(!new)>(json: Json<M>, k: CloudInitKey, records: seq<Record>, fragments: seq<Text>, meta: M)
    requires MessageRecords(json, k, records, fragments, meta)
    ensures |records| == |fragments|
  {
  }

  /** A whole message comes back exactly once, as the diagnostic of its metadata and its text. */
  lemma MessageComesBack<M(!new)>(rs: seq<Record>, cloud: CloudInit<M>, libs: Libraries, k: CloudInitKey,
                                  records: seq<Record>, fragments: seq<Text>, tokens: seq<Token>, meta: M)
    requires Uses(libs, cloud) && MessageRecords(cloud.json, k, records, fragments, meta)
    requires AllValid(tokens) && Concat(fragments) == Spelling(tokens)
    requires records != [] && SameGroup(records, rs, RenderBase(k))
    requires cloud.typed(k, meta, Meaning(tokens)).Ok?
    ensures DeliveredOnce(rs, RenderBase(k), DiagnosticEntry(cloud.typed(k, meta, Meaning(tokens)).value), libs)
  {
    hide Uses, MessageRecords, SameGroup, RenderBase, Unescape, Concat, DeliveredOnce;
    assert records[..|records|] == records;
    MessageJoins(rs, cloud, libs, k, records, fragments, tokens, meta, |records|);
    DecodedGroupDelivers(rs, RenderBase(k), cloud.typed(k, meta, Meaning(tokens)).value, libs);
  }
}
