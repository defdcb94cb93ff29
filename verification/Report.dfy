/** Provisioning reports: `ProvisioningReport::encode` and `from_str`. */
module Report {
  import opened Results
  import opened Bytes
  import opened Delimited
  import opened KvpErrors
  import opened Csv

  datatype ReportResult = Success | Error {
    function Wire(): Text {
      match this
      case Success => Ascii("success")
      case Error => Ascii("error")
    }
  }

  datatype ReportPpsType = NoPps | OsDisk | Running | Savable | Unknown {
    function Wire(): Text {
      match this
      case NoPps => Ascii("None")
      case OsDisk => Ascii("PreprovisionedOSDisk")
      case Running => Ascii("Running")
      case Savable => Ascii("Savable")
      case Unknown => Ascii("Unknown")
    }
  }

  function PpsFromWire(value: Text): Result<ReportPpsType, DecodeError> {
    if value == NoPps.Wire() then Ok(NoPps)
    else if value == OsDisk.Wire() then Ok(OsDisk)
    else if value == Running.Wire() then Ok(Running)
    else if value == Savable.Wire() then Ok(Savable)
    else if value == Unknown.Wire() then Ok(Unknown)
    else Err(Malformed)
  }

  type Pair = (Text, Text)

  datatype ProvisioningReport = ProvisioningReport(
    result: ReportResult,
    agent: Text,
    vmId: Text,
    timestamp: Text,
    ppsType: ReportPpsType,
    reason: Option<Text>,
    documentationUrl: Option<Text>,
    extra: seq<Pair>)

  const RESULT := Ascii("result")
  const AGENT := Ascii("agent")
  const VM_ID := Ascii("vm_id")
  const TIMESTAMP := Ascii("timestamp")
  const PPS_TYPE := Ascii("pps_type")
  const REASON := Ascii("reason")
  const DOCUMENTATION_URL := Ascii("documentation_url")

  /** The names a report of this result gives a meaning. */
  function StandardNames(result: ReportResult): seq<Text> {
    [RESULT, AGENT, VM_ID, TIMESTAMP, PPS_TYPE] + if result.Success? then [] else [REASON, DOCUMENTATION_URL]
  }

  // Encoding.

  function OptionalPair(name: Text, value: Option<Text>): seq<Pair> {
    match value
    case None => []
    case Some(v) => [(name, v)]
  }

  /** The fields of the stored report, in the order of its layout. */
  function Layout(r: ProvisioningReport): seq<Pair> {
    match r.result
    case Success =>
      [(RESULT, r.result.Wire()), (AGENT, r.agent), (PPS_TYPE, r.ppsType.Wire()), (VM_ID, r.vmId),
       (TIMESTAMP, r.timestamp)] + r.extra
    case Error =>
      [(RESULT, r.result.Wire())] + OptionalPair(REASON, r.reason) + [(AGENT, r.agent)] + r.extra +
      [(PPS_TYPE, r.ppsType.Wire()), (VM_ID, r.vmId), (TIMESTAMP, r.timestamp)] +
      OptionalPair(DOCUMENTATION_URL, r.documentationUrl)
  }

  function FieldTexts(pairs: seq<Pair>): (r: seq<Text>)
    ensures |r| == |pairs|
    ensures forall i :: 0 <= i < |r| ==> r[i] == pairs[i].0 + [EQUALS] + pairs[i].1
  {
    if pairs == [] then [] else [pairs[0].0 + [EQUALS] + pairs[0].1] + FieldTexts(pairs[1..])
  }

  function Encode(r: ProvisioningReport): Text {
    WriteLine(FieldTexts(Layout(r)))
  }

  /** A growing list of stored fields. */
  class FieldList {
    var items: seq<Pair>

    constructor (items: seq<Pair>)
      ensures this.items == items
    {
      this.items := items;
    }

    method Push(key: Text, value: Text)
      modifies this
      ensures items == old(items) + [(key, value)]
    {
      items := items + [(key, value)];
    }

    /** Removes the one field called `name`; two of them are an error. */
    method TakeField(name: Text) returns (r: Result<Option<Text>, DecodeError>)
      modifies this
      ensures match Taken(old(items), name)
              case Ok((value, rest)) => r == Ok(value) && items == rest
              case Err(e) => r == Err(e) && items == old(items)
    {
      var i := KeyIndex(items, name, 0);
      if i == |items| {
        return Ok(None);
      }
      if KeyIndex(items, name, i + 1) < |items| {
        return Err(Malformed);
      }
      r := Ok(Some(items[i].1));
      items := items[..i] + items[i + 1..];
    }
  }

  /** The layouts, one pushed field at a time. */
  lemma Pushed(r: ProvisioningReport)
    ensures r.result.Success? ==>
      Layout(r) == [] + [(RESULT, r.result.Wire())] + [(AGENT, r.agent)] + [(PPS_TYPE, r.ppsType.Wire())] +
                   [(VM_ID, r.vmId)] + [(TIMESTAMP, r.timestamp)] + r.extra
    ensures r.result.Error? ==>
      Layout(r) == [] + [(RESULT, r.result.Wire())] + OptionalPair(REASON, r.reason) + [(AGENT, r.agent)] + r.extra +
                   [(PPS_TYPE, r.ppsType.Wire())] + [(VM_ID, r.vmId)] + [(TIMESTAMP, r.timestamp)] +
                   OptionalPair(DOCUMENTATION_URL, r.documentationUrl)
  {
    hide Ascii, ReportPpsType.Wire, ReportResult.Wire;
  }

  method PushOptional(data: FieldList, name: Text, value: Option<Text>)
    modifies data
    ensures data.items == old(data.items) + OptionalPair(name, value)
  {
    if value.Some? {
      data.Push(name, value.value);
    } else {
      assert data.items + [] == data.items;
    }
  }

  // The stored text, field by field.

  function PpsText(ppsType: ReportPpsType): Text {
    match ppsType
    case NoPps => Ascii("None")
    case OsDisk => Ascii("PreprovisionedOSDisk")
    case Running => Ascii("Running")
    case Savable => Ascii("Savable")
    case Unknown => Ascii("Unknown")
  }

  function ExtraTexts(extra: seq<Pair>): (texts: seq<Text>)
    ensures |texts| == |extra|
  {
    seq(|extra|, i requires 0 <= i < |extra| => extra[i].0 + Ascii("=") + extra[i].1)
  }

  /** The fields of a stored report in their order. */
  function StoredFields(r: ProvisioningReport): seq<Text> {
    match r.result
    case Success =>
      [Ascii("result=success"), Ascii("agent=") + r.agent, Ascii("pps_type=") + PpsText(r.ppsType),
       Ascii("vm_id=") + r.vmId, Ascii("timestamp=") + r.timestamp] + ExtraTexts(r.extra)
    case Error =>
      [Ascii("result=error")] + (if r.reason.Some? then [Ascii("reason=") + r.reason.value] else [])
      + [Ascii("agent=") + r.agent] + ExtraTexts(r.extra)
      + [Ascii("pps_type=") + PpsText(r.ppsType), Ascii("vm_id=") + r.vmId, Ascii("timestamp=") + r.timestamp]
      + (if r.documentationUrl.Some? then [Ascii("documentation_url=") + r.documentationUrl.value] else [])
  }

  lemma AsciiConcat(a: string, b: string)
    requires (forall i :: 0 <= i < |a| ==> a[i] < 128 as char) && (forall i :: 0 <= i < |b| ==> b[i] < 128 as char)
    ensures (forall i :: 0 <= i < |a + b| ==> (a + b)[i] < 128 as char) && Ascii(a + b) == Ascii(a) + Ascii(b)
  {
  }

  lemma NameTexts()
    ensures Ascii("=") == [EQUALS]
    ensures Ascii("result=success") == RESULT + [EQUALS] + Success.Wire()
    ensures Ascii("result=error") == RESULT + [EQUALS] + Error.Wire()
    ensures Ascii("agent=") == AGENT + [EQUALS] && Ascii("pps_type=") == PPS_TYPE + [EQUALS]
    ensures Ascii("vm_id=") == VM_ID + [EQUALS] && Ascii("timestamp=") == TIMESTAMP + [EQUALS]
    ensures Ascii("reason=") == REASON + [EQUALS] && Ascii("documentation_url=") == DOCUMENTATION_URL + [EQUALS]
    ensures forall p: ReportPpsType :: PpsText(p) == p.Wire()
  {
    assert Ascii("=") == [EQUALS];
    AsciiConcat("result=", "success");
    AsciiConcat("result=", "error");
    AsciiConcat("result", "=");
    AsciiConcat("agent", "=");
    AsciiConcat("pps_type", "=");
    AsciiConcat("vm_id", "=");
    AsciiConcat("timestamp", "=");
    AsciiConcat("reason", "=");
    AsciiConcat("documentation_url", "=");
  }

  lemma FieldTextsConcat(a: seq<Pair>, b: seq<Pair>)
    ensures FieldTexts(a + b) == FieldTexts(a) + FieldTexts(b)
  {
  }

  lemma ExtraFieldTexts(extra: seq<Pair>)
    requires Ascii("=") == [EQUALS]
    ensures ExtraTexts(extra) == FieldTexts(extra)
  {
    hide Ascii;
  }

  lemma OneText(name: Text, value: Text)
    ensures FieldTexts([(name, value)]) == [name + [EQUALS] + value]
  {
  }

  lemma OptionalText(name: Text, value: Option<Text>)
    ensures FieldTexts(OptionalPair(name, value)) == if value.Some? then [name + [EQUALS] + value.value] else []
  {
  }

  lemma CommonTexts(a: Pair, b: Pair, c: Pair)
    ensures FieldTexts([a, b, c]) == [a.0 + [EQUALS] + a.1, b.0 + [EQUALS] + b.1, c.0 + [EQUALS] + c.1]
  {
    hide FieldTexts;
  }

  /** The layout spells those fields. */
  lemma SuccessTexts(r: ProvisioningReport)
    requires r.result.Success?
    ensures FieldTexts(Layout(r)) == StoredFields(r)
  {
    hide FieldTexts, Ascii, ReportPpsType.Wire, ReportResult.Wire, PpsText, ExtraTexts;
    NameTexts();
    ExtraFieldTexts(r.extra);
    var first: seq<Pair> := [(RESULT, Success.Wire()), (AGENT, r.agent)];
    var last: seq<Pair> := [(PPS_TYPE, r.ppsType.Wire()), (VM_ID, r.vmId), (TIMESTAMP, r.timestamp)];
    assert Layout(r) == first + last + r.extra;
    FieldTextsConcat(first, last);
    FieldTextsConcat(first + last, r.extra);
    CommonTexts(last[0], last[1], last[2]);
    assert FieldTexts(first) == [Ascii("result=success"), Ascii("agent=") + r.agent];
  }

  lemma ErrorTexts(r: ProvisioningReport)
    requires r.result.Error?
    ensures FieldTexts(Layout(r)) == StoredFields(r)
  {
    hide FieldTexts, Ascii, ReportPpsType.Wire, ReportResult.Wire, PpsText, ExtraTexts, OptionalPair;
    NameTexts();
    ExtraFieldTexts(r.extra);
    var first, reason := [(RESULT, Error.Wire())], OptionalPair(REASON, r.reason);
    var agent, url := [(AGENT, r.agent)], OptionalPair(DOCUMENTATION_URL, r.documentationUrl);
    var last: seq<Pair> := [(PPS_TYPE, r.ppsType.Wire()), (VM_ID, r.vmId), (TIMESTAMP, r.timestamp)];
    FieldTextsConcat(first, reason);
    FieldTextsConcat(first + reason, agent);
    FieldTextsConcat(first + reason + agent, r.extra);
    FieldTextsConcat(first + reason + agent + r.extra, last);
    FieldTextsConcat(first + reason + agent + r.extra + last, url);
    OneText(RESULT, Error.Wire());
    OneText(AGENT, r.agent);
    OptionalText(REASON, r.reason);
    OptionalText(DOCUMENTATION_URL, r.documentationUrl);
    CommonTexts(last[0], last[1], last[2]);
  }

  lemma LayoutTexts(r: ProvisioningReport)
    ensures FieldTexts(Layout(r)) == StoredFields(r)
  {
    hide FieldTexts, Layout, StoredFields;
    match r.result
    case Success => SuccessTexts(r);
    case Error => ErrorTexts(r);
  }

  method EncodeReport(report: ProvisioningReport) returns (value: Text)
    ensures value == Encode(report)
    ensures value == WriteLine(StoredFields(report))
    ensures NulFreeReport(report) ==> Accepting(Run(Start, value)) && ReadLine(value) == StoredFields(report)
  {
    LayoutTexts(report);
    EncodingAccepted(report);
    hide StoredFields, NulFreeReport, Run, ReadLine;
    hide WriteLine, FieldTexts, Layout, OptionalPair;
    Pushed(report);
    var data := new FieldList([]);
    data.Push(RESULT, report.result.Wire());
    match report.result {
    case Success =>
      data.Push(AGENT, report.agent);
      data.Push(PPS_TYPE, report.ppsType.Wire());
      data.Push(VM_ID, report.vmId);
      data.Push(TIMESTAMP, report.timestamp);
      PushAll(data, report.extra);
    case Error =>
      PushOptional(data, REASON, report.reason);
      data.Push(AGENT, report.agent);
      PushAll(data, report.extra);
      data.Push(PPS_TYPE, report.ppsType.Wire());
      data.Push(VM_ID, report.vmId);
      data.Push(TIMESTAMP, report.timestamp);
      PushOptional(data, DOCUMENTATION_URL, report.documentationUrl);
    }
    var bytes := WriteLine(FieldTexts(data.items)) + [LF];
    if bytes[|bytes| - 1] == LF {
      bytes := bytes[..|bytes| - 1];
    }
    return bytes;
  }

  method PushAll(data: FieldList, extra: seq<Pair>)
    modifies data
    ensures data.items == old(data.items) + extra
  {
    var i := 0;
    while i < |extra|
      invariant 0 <= i <= |extra| && data.items == old(data.items) + extra[..i]
    {
      data.Push(extra[i].0, extra[i].1);
      assert extra[..i + 1] == extra[..i] + [extra[i]];
      i := i + 1;
    }
    assert extra[..i] == extra;
  }

  // Parsing.

  function StripNewline(value: Text): Text {
    if |value| >= 2 && value[|value| - 2] == CR && value[|value| - 1] == LF then value[..|value| - 2]
    else if |value| >= 1 && value[|value| - 1] == LF then value[..|value| - 1]
    else value
  }

  function PairOf(field: Text): Result<Pair, DecodeError> {
    match SplitOnce(field, EQUALS)
    case None => Err(Malformed)
    case Some((key, value)) => if key == [] then Err(Malformed) else Ok((key, value))
  }

  function PairsOf(fields: seq<Text>): Result<seq<Pair>, DecodeError> {
    if fields == [] then Ok([])
    else
      var first :- PairOf(fields[0]);
      var rest :- PairsOf(fields[1..]);
      Ok([first] + rest)
  }

  /** Index of the first field called `name` from `from` on, or `|fields|`. */
  function KeyIndex(fields: seq<Pair>, name: Text, from: nat): (i: nat)
    requires from <= |fields|
    ensures from <= i <= |fields|
    ensures i < |fields| ==> fields[i].0 == name
    ensures forall j :: from <= j < i ==> fields[j].0 != name
    decreases |fields| - from
  {
    if from == |fields| || fields[from].0 == name then from else KeyIndex(fields, name, from + 1)
  }

  /** `take_field`: the value, if any, and the fields left. */
  function Taken(fields: seq<Pair>, name: Text): Result<(Option<Text>, seq<Pair>), DecodeError> {
    var i := KeyIndex(fields, name, 0);
    if i == |fields| then Ok((None, fields))
    else if KeyIndex(fields, name, i + 1) < |fields| then Err(Malformed)
    else Ok((Some(fields[i].1), fields[..i] + fields[i + 1..]))
  }

  /** A field that has to be there. */
  function Required(fields: seq<Pair>, name: Text): Result<TakenField, DecodeError> {
    var taken :- Taken(fields, name);
    if taken.0.None? then Err(Malformed) else Ok(TakenField(taken.0.value, taken.1))
  }

  datatype TakenField = TakenField(value: Text, rest: seq<Pair>)

  function FromPairs(pairs: seq<Pair>, validTimestamp: Text -> bool): Result<ProvisioningReport, DecodeError> {
    var result :- Required(pairs, RESULT);
    if result.value != Success.Wire() && result.value != Error.Wire() then Err(Malformed)
    else
      var agent :- Required(result.rest, AGENT);
      var vmId :- Required(agent.rest, VM_ID);
      var timestamp :- Required(vmId.rest, TIMESTAMP);
      if !validTimestamp(timestamp.value) then Err(Malformed)
      else
        var pps :- Required(timestamp.rest, PPS_TYPE);
        var ppsType :- PpsFromWire(pps.value);
        if result.value == Success.Wire() then
          Ok(ProvisioningReport(Success, agent.value, vmId.value, timestamp.value, ppsType, None, None, pps.rest))
        else
          var reason :- Required(pps.rest, REASON);
          var url :- Taken(reason.rest, DOCUMENTATION_URL);
          Ok(ProvisioningReport(Error, agent.value, vmId.value, timestamp.value, ppsType,
                                Some(reason.value), url.0, url.1))
  }

  function Parse(value: Text, validTimestamp: Text -> bool): Result<ProvisioningReport, DecodeError> {
    var line := StripNewline(value);
    if !Accepting(Run(Start, line)) then Err(Malformed)
    else
      var pairs :- PairsOf(ReadLine(line));
      FromPairs(pairs, validTimestamp)
  }

  // What a stored text says, field by field.

  /** The values of the fields called `name`, in order. */
  function ValuesOf(fields: seq<Pair>, name: Text): seq<Text> {
    if fields == [] then []
    else
      var n := |fields| - 1;
      var before := ValuesOf(fields[..n], name);
      if fields[n].0 == name then before + [fields[n].1] else before
  }

  /** The fields with other names, in order. */
  function Rest(fields: seq<Pair>, names: seq<Text>): seq<Pair> {
    if fields == [] then []
    else
      var n := |fields| - 1;
      var before := Rest(fields[..n], names);
      if fields[n].0 in names then before else before + [fields[n]]
  }

  const COMMON_NAMES: seq<Text> :=
    [Ascii("result"), Ascii("agent"), Ascii("vm_id"), Ascii("timestamp"), Ascii("pps_type")]

  /** The fields of `r`, in any order, each standard one once. */
  ghost predicate ReportReads(fields: seq<Pair>, r: ProvisioningReport, validTimestamp: Text -> bool) {
    && ValuesOf(fields, Ascii("result")) == [if r.result.Success? then Ascii("success") else Ascii("error")]
    && ValuesOf(fields, Ascii("agent")) == [r.agent] && ValuesOf(fields, Ascii("vm_id")) == [r.vmId]
    && ValuesOf(fields, Ascii("timestamp")) == [r.timestamp] && validTimestamp(r.timestamp)
    && ValuesOf(fields, Ascii("pps_type")) == [PpsText(r.ppsType)]
    && (r.result.Success? ==> r.reason.None? && r.documentationUrl.None? && r.extra == Rest(fields, COMMON_NAMES))
    && (r.result.Error? ==>
          && r.reason.Some? && ValuesOf(fields, Ascii("reason")) == [r.reason.value]
          && ValuesOf(fields, Ascii("documentation_url")) ==
             (if r.documentationUrl.Some? then [r.documentationUrl.value] else [])
          && r.extra == Rest(fields, COMMON_NAMES + [Ascii("reason"), Ascii("documentation_url")]))
  }

  /** `key=value`, the key ending at the first `=`. */
  predicate IsPair(field: Text, pair: Pair) {
    field == pair.0 + Ascii("=") + pair.1 && pair.0 != [] && 61 !in pair.0
  }

  predicate ArePairs(fields: seq<Text>, pairs: seq<Pair>) {
    |fields| == |pairs| && forall i :: 0 <= i < |fields| ==> IsPair(fields[i], pairs[i])
  }

  /** `value` without the one line break it may end in. */
  predicate Stripped(value: Text, line: Text) {
    || value == line + [13, 10]
    || (value == line + [10] && (line != [] ==> line[|line| - 1] != 13))
    || (value == line && (line != [] ==> line[|line| - 1] != 10))
  }

  /** `value` is a well-quoted record of the fields of `r`. */
  ghost predicate ReportText(value: Text, r: ProvisioningReport, validTimestamp: Text -> bool) {
    exists line: Text, fs: seq<WireField>, pairs: seq<Pair> ::
      && Stripped(value, line) && IsLine(fs, line) && ArePairs(Contents(fs), pairs)
      && ReportReads(pairs, r, validTimestamp)
  }

  lemma {:induction false} ValuesConcat(a: seq<Pair>, b: seq<Pair>, name: Text)
    ensures ValuesOf(a + b, name) == ValuesOf(a, name) + ValuesOf(b, name)
    decreases |b|
  {
    if b == [] {
      assert a + b == a;
    } else {
      var n := |b| - 1;
      ValuesConcat(a, b[..n], name);
      assert (a + b)[..|a + b| - 1] == a + b[..n];
    }
  }

  lemma {:induction false} RestConcat(a: seq<Pair>, b: seq<Pair>, names: seq<Text>)
    ensures Rest(a + b, names) == Rest(a, names) + Rest(b, names)
    decreases |b|
  {
    if b == [] {
      assert a + b == a;
    } else {
      var n := |b| - 1;
      RestConcat(a, b[..n], names);
      assert (a + b)[..|a + b| - 1] == a + b[..n];
    }
  }

  lemma WithoutSnoc(fields: seq<Pair>, name: Text)
    requires fields != []
    ensures var n := |fields| - 1;
            Without(fields, name) <==> Without(fields[..n], name) && fields[n].0 != name
  {
    var n := |fields| - 1;
    assert forall i :: 0 <= i < n ==> fields[i] == fields[..n][i];
  }

  lemma {:induction false} NoValues(fields: seq<Pair>, name: Text)
    ensures ValuesOf(fields, name) == [] <==> Without(fields, name)
    ensures Without(fields, name) ==> Rest(fields, [name]) == fields
  {
    hide Without;
    if fields == [] {
      assert Without(fields, name) by {
        NoPairs(name);
      }
    } else {
      NoValues(fields[..|fields| - 1], name);
      WithoutSnoc(fields, name);
    }
  }

  lemma NoPairs(name: Text)
    ensures Without([], name)
  {
  }

  lemma OneValue(x: Pair, name: Text)
    ensures ValuesOf([x], name) == if x.0 == name then [x.1] else []
    ensures Rest([x], [name]) == if x.0 == name then [] else [x]
  {
    assert [x][..0] == [];
  }

  /** Taking a field tells none, one and several apart. */
  lemma TakenExactly(fields: seq<Pair>, name: Text)
    ensures var values := ValuesOf(fields, name);
            Taken(fields, name) ==
            if |values| == 0 then Ok((None, Rest(fields, [name])))
            else if |values| == 1 then Ok((Some(values[0]), Rest(fields, [name])))
            else Err(Malformed)
  {
    hide Without, ValuesOf, Rest, KeyIndex;
    var i := KeyIndex(fields, name, 0);
    NoValues(fields, name);
    KeyPlaces(fields, name);
    if i < |fields| {
      assert fields == fields[..i] + ([fields[i]] + fields[i + 1..]);
      Around(fields[..i], fields[i], fields[i + 1..], name);
    }
  }

  lemma KeyPlaces(fields: seq<Pair>, name: Text)
    ensures var i := KeyIndex(fields, name, 0);
            && (i == |fields| ==> Without(fields, name))
            && (i < |fields| ==>
                  && Without(fields[..i], name) && fields[i].0 == name
                  && (KeyIndex(fields, name, i + 1) == |fields| <==> Without(fields[i + 1..], name)))
  {
    hide KeyIndex;
    var i := KeyIndex(fields, name, 0);
    if i < |fields| {
      var b, k := fields[i + 1..], KeyIndex(fields, name, i + 1);
      assert forall j :: 0 <= j < |b| ==> b[j] == fields[i + 1 + j];
      assert k < |fields| ==> b[k - i - 1].0 == name;
    }
  }

  /** A field called `name` that none before it is. */
  lemma Around(a: seq<Pair>, x: Pair, b: seq<Pair>, name: Text)
    requires x.0 == name && Without(a, name)
    ensures var fields := a + ([x] + b);
            && ValuesOf(fields, name) == [x.1] + ValuesOf(b, name)
            && (ValuesOf(b, name) == [] <==> Without(b, name))
            && (Without(b, name) ==> Rest(fields, [name]) == a + b)
  {
    hide Without;
    NoValues(a, name);
    NoValues(b, name);
    OneValue(x, name);
    ValuesConcat([x], b, name);
    ValuesConcat(a, [x] + b, name);
    RestConcat([x], b, [name]);
    RestConcat(a, [x] + b, [name]);
    assert [] + b == b;
  }

  /** Taking one name leaves the fields of any other. */
  lemma {:induction false} RestKeeps(fields: seq<Pair>, names: seq<Text>, name: Text)
    requires name !in names
    ensures ValuesOf(Rest(fields, names), name) == ValuesOf(fields, name)
  {
    if fields != [] {
      var n := |fields| - 1;
      RestKeeps(fields[..n], names, name);
      if fields[n].0 !in names {
        ValuesConcat(Rest(fields[..n], names), [fields[n]], name);
        OneValue(fields[n], name);
      }
    }
  }

  lemma {:induction false} RestTwice(fields: seq<Pair>, names: seq<Text>, name: Text)
    ensures Rest(Rest(fields, names), [name]) == Rest(fields, names + [name])
  {
    if fields != [] {
      var n := |fields| - 1;
      RestTwice(fields[..n], names, name);
      if fields[n].0 !in names {
        RestConcat(Rest(fields[..n], names), [fields[n]], [name]);
        OneValue(fields[n], name);
      }
    }
  }

  lemma {:induction false} RestNone(fields: seq<Pair>)
    ensures Rest(fields, []) == fields
  {
    if fields != [] {
      RestNone(fields[..|fields| - 1]);
    }
  }

  /** What is required of what is left, once `gone` has been taken. */
  lemma RequiredExactly(fields: seq<Pair>, gone: seq<Text>, name: Text)
    requires name !in gone
    ensures var values := ValuesOf(fields, name);
            && Required(Rest(fields, gone), name) ==
               (if |values| == 1 then Ok(TakenField(values[0], Rest(fields, gone + [name]))) else Err(Malformed))
            && Taken(Rest(fields, gone), name) ==
               (if |values| == 0 then Ok((None, Rest(fields, gone + [name])))
                else if |values| == 1 then Ok((Some(values[0]), Rest(fields, gone + [name])))
                else Err(Malformed))
  {
    TakenExactly(Rest(fields, gone), name);
    RestKeeps(fields, gone, name);
    RestTwice(fields, gone, name);
  }

  lemma PpsExactly(value: Text, ppsType: ReportPpsType)
    ensures PpsFromWire(value) == Ok(ppsType) <==> value == PpsText(ppsType)
    ensures PpsFromWire(value).Err? ==> PpsFromWire(value) == Err(Malformed)
  {
    WiresDiffer();
    NameTexts();
    hide Ascii, ReportPpsType.Wire, PpsText;
  }

  /** The parser's steps, from the values of each name. */
  lemma StepsExactly(fields: seq<Pair>)
    ensures var g2, g3 := [RESULT, AGENT], [RESULT, AGENT, VM_ID];
            var g4, g5 := [RESULT, AGENT, VM_ID, TIMESTAMP], [RESULT, AGENT, VM_ID, TIMESTAMP, PPS_TYPE];
            && Required(fields, RESULT) == Sole(ValuesOf(fields, RESULT), Rest(fields, [RESULT]))
            && Required(Rest(fields, [RESULT]), AGENT) == Sole(ValuesOf(fields, AGENT), Rest(fields, g2))
            && Required(Rest(fields, g2), VM_ID) == Sole(ValuesOf(fields, VM_ID), Rest(fields, g3))
            && Required(Rest(fields, g3), TIMESTAMP) == Sole(ValuesOf(fields, TIMESTAMP), Rest(fields, g4))
            && Required(Rest(fields, g4), PPS_TYPE) == Sole(ValuesOf(fields, PPS_TYPE), Rest(fields, g5))
            && Required(Rest(fields, g5), REASON) == Sole(ValuesOf(fields, REASON), Rest(fields, g5 + [REASON]))
            && Taken(Rest(fields, g5 + [REASON]), DOCUMENTATION_URL) ==
               var values := ValuesOf(fields, DOCUMENTATION_URL);
               (if |values| == 0 then Ok((None, Rest(fields, g5 + [REASON, DOCUMENTATION_URL])))
                else if |values| == 1 then Ok((Some(values[0]), Rest(fields, g5 + [REASON, DOCUMENTATION_URL])))
                else Err(Malformed))
  {
    NamesDiffer();
    hide Ascii, Required, Taken, ValuesOf, Rest;
    RestNone(fields);
    var g5 := [RESULT, AGENT, VM_ID, TIMESTAMP, PPS_TYPE];
    RequiredExactly(fields, [], RESULT);
    assert [] + [RESULT] == [RESULT];
    RequiredExactly(fields, [RESULT], AGENT);
    assert [RESULT] + [AGENT] == [RESULT, AGENT];
    RequiredExactly(fields, [RESULT, AGENT], VM_ID);
    assert [RESULT, AGENT] + [VM_ID] == [RESULT, AGENT, VM_ID];
    RequiredExactly(fields, [RESULT, AGENT, VM_ID], TIMESTAMP);
    assert [RESULT, AGENT, VM_ID] + [TIMESTAMP] == [RESULT, AGENT, VM_ID, TIMESTAMP];
    RequiredExactly(fields, [RESULT, AGENT, VM_ID, TIMESTAMP], PPS_TYPE);
    assert [RESULT, AGENT, VM_ID, TIMESTAMP] + [PPS_TYPE] == g5;
    RequiredExactly(fields, g5, REASON);
    RequiredExactly(fields, g5 + [REASON], DOCUMENTATION_URL);
    assert g5 + [REASON] + [DOCUMENTATION_URL] == g5 + [REASON, DOCUMENTATION_URL];
  }

  function Sole(values: seq<Text>, rest: seq<Pair>): Result<TakenField, DecodeError> {
    if |values| == 1 then Ok(TakenField(values[0], rest)) else Err(Malformed)
  }

  /** The parser accepts the fields exactly when they are those of a report, in any order. */
  lemma FieldsExactly(fields: seq<Pair>, r: ProvisioningReport, validTimestamp: Text -> bool)
    ensures FromPairs(fields, validTimestamp) == Ok(r) <==> ReportReads(fields, r, validTimestamp)
    ensures FromPairs(fields, validTimestamp).Err? ==> FromPairs(fields, validTimestamp) == Err(Malformed)
  {
    hide Ascii, Required, Taken, ValuesOf, Rest, PpsFromWire, PpsText, ReportResult.Wire, COMMON_NAMES;
    hide RESULT, AGENT, VM_ID, TIMESTAMP, PPS_TYPE, REASON, DOCUMENTATION_URL;
    StepsExactly(fields);
    WiresDiffer();
    WireTexts();
    PpsSteps(ValuesOf(fields, PPS_TYPE), r);
    assert COMMON_NAMES + [REASON, DOCUMENTATION_URL] ==
           [RESULT, AGENT, VM_ID, TIMESTAMP, PPS_TYPE] + [REASON, DOCUMENTATION_URL];
  }

  lemma PpsSteps(values: seq<Text>, r: ProvisioningReport)
    ensures |values| == 1 ==>
              && (PpsFromWire(values[0]) == Ok(r.ppsType) <==> values[0] == PpsText(r.ppsType))
              && (PpsFromWire(values[0]).Err? ==> PpsFromWire(values[0]) == Err(Malformed))
  {
    if |values| == 1 {
      PpsExactly(values[0], r.ppsType);
    }
  }

  lemma WireTexts()
    ensures Success.Wire() == Ascii("success") && Error.Wire() == Ascii("error")
    ensures RESULT == Ascii("result") && AGENT == Ascii("agent") && VM_ID == Ascii("vm_id")
    ensures TIMESTAMP == Ascii("timestamp") && PPS_TYPE == Ascii("pps_type") && REASON == Ascii("reason")
    ensures DOCUMENTATION_URL == Ascii("documentation_url")
    ensures COMMON_NAMES == [RESULT, AGENT, VM_ID, TIMESTAMP, PPS_TYPE]
  {
  }

  lemma PairExactly(field: Text, pair: Pair)
    ensures PairOf(field) == Ok(pair) <==> IsPair(field, pair)
    ensures PairOf(field).Err? ==> PairOf(field) == Err(Malformed)
  {
    assert Ascii("=") == [EQUALS];
    if IsPair(field, pair) {
      SplitOnceAt(pair.0, EQUALS, pair.1);
    }
    if PairOf(field).Ok? {
      var i := Find(field, EQUALS);
      assert field == field[..i] + [field[i]] + field[i + 1..];
    }
  }

  lemma {:induction false} PairsExactly(fields: seq<Text>, pairs: seq<Pair>)
    ensures PairsOf(fields) == Ok(pairs) <==> ArePairs(fields, pairs)
    ensures PairsOf(fields).Err? ==> PairsOf(fields) == Err(Malformed)
    decreases |fields|
  {
    hide IsPair, PairOf;
    if fields != [] {
      var first := if pairs == [] then ([], []) else pairs[0];
      PairExactly(fields[0], first);
      if pairs != [] {
        PairsExactly(fields[1..], pairs[1..]);
        assert pairs == [pairs[0]] + pairs[1..];
      } else {
        PairsExactly(fields[1..], []);
      }
      if PairOf(fields[0]).Ok? && PairsOf(fields[1..]).Ok? {
        assert PairsOf(fields).value[0] == PairOf(fields[0]).value;
        assert PairsOf(fields).value[1..] == PairsOf(fields[1..]).value;
      }
    }
  }

  lemma Ending(value: Text, line: Text, end: Text)
    ensures value == line + end <==>
            var n := |value| - |end|; n >= 0 && value[..n] == line && value[n..] == end
  {
    var n := |value| - |end|;
    if n >= 0 {
      assert value == value[..n] + value[n..];
    }
  }

  lemma LastBytes(value: Text)
    ensures |value| >= 1 ==> value[|value| - 1..] == [value[|value| - 1]]
    ensures |value| >= 2 ==> value[|value| - 2..] == [value[|value| - 2], value[|value| - 1]]
  {
  }

  lemma StrippedExactly(value: Text, line: Text)
    ensures StripNewline(value) == line <==> Stripped(value, line)
  {
    var n := |value|;
    Ending(value, line, [CR, LF]);
    Ending(value, line, [LF]);
    LastBytes(value);
    if n == 0 || value[n - 1] != LF {
      assert value != line + [CR, LF] && value != line + [LF];
    } else if n == 1 || value[n - 2] != CR {
      assert value != line + [CR, LF];
    } else {
      assert value[..n - 1][n - 2] == CR;
    }
  }

  /** A text parses to a report exactly when it spells that report. */
  lemma ParsesExactly(value: Text, r: ProvisioningReport, validTimestamp: Text -> bool)
    ensures Parse(value, validTimestamp) == Ok(r) <==> ReportText(value, r, validTimestamp)
    ensures Parse(value, validTimestamp).Err? ==> Parse(value, validTimestamp) == Err(Malformed)
  {
    hide Stripped, StripNewline, IsLine, FieldsOf, Run, ArePairs, PairsOf, Contents, ReportReads, FromPairs;
    var line := StripNewline(value);
    StrippedExactly(value, line);
    AcceptedExactly(line);
    if Accepting(Run(Start, line)) {
      var fs :| IsLine(fs, line);
      var contents := Contents(FieldsOf(line));
      PairsExactly(contents, []);
      if PairsOf(contents).Ok? {
        var pairs := PairsOf(contents).value;
        PairsExactly(contents, pairs);
        FieldsExactly(pairs, r, validTimestamp);
      }
    }
    forall line': Text, fs: seq<WireField>, pairs: seq<Pair>
      | Stripped(value, line') && IsLine(fs, line') && ArePairs(Contents(fs), pairs)
        && ReportReads(pairs, r, validTimestamp)
      ensures Parse(value, validTimestamp) == Ok(r)
    {
      StrippedExactly(value, line');
      PairsExactly(Contents(fs), pairs);
      FieldsExactly(pairs, r, validTimestamp);
    }
  }

  lemma AcceptsExactly(value: Text, validTimestamp: Text -> bool)
    ensures forall report :: Parse(value, validTimestamp) == Ok(report) <==> ReportText(value, report, validTimestamp)
    ensures Parse(value, validTimestamp).Err? ==> Parse(value, validTimestamp) == Err(Malformed)
  {
    hide Parse, ReportText;
    forall report
      ensures Parse(value, validTimestamp) == Ok(report) <==> ReportText(value, report, validTimestamp)
    {
      ParsesExactly(value, report, validTimestamp);
    }
    ParsesExactly(value, SuccessReport([], [], NoPps, []), validTimestamp);
  }

  method FromStr(value: Text, validTimestamp: Text -> bool) returns (r: Result<ProvisioningReport, DecodeError>)
    ensures r == Parse(value, validTimestamp)
    ensures forall report :: r == Ok(report) <==> ReportText(value, report, validTimestamp)
    ensures r.Err? ==> r == Err(Malformed)
  {
    hide ReportText, ReadLine, Required, Taken, PairsOf, PpsFromWire, StripNewline, Ascii, Run;
    AcceptsExactly(value, validTimestamp);
    var line := StripNewline(value);
    var _ :- ValidateReportQuoting(line);
    var pairs :- PairsOf(ReadLine(line));
    var fields := new FieldList(pairs);
    var result := TakeRequired(fields, RESULT);
    var resultValue :- result;
    if resultValue != Success.Wire() && resultValue != Error.Wire() {
      return Err(Malformed);
    }
    var agent := TakeRequired(fields, AGENT);
    var agentValue :- agent;
    var vmId := TakeRequired(fields, VM_ID);
    var vmIdValue :- vmId;
    var timestamp := TakeRequired(fields, TIMESTAMP);
    var timestampValue :- timestamp;
    if !validTimestamp(timestampValue) {
      return Err(Malformed);
    }
    var pps := TakeRequired(fields, PPS_TYPE);
    var ppsValue :- pps;
    var ppsType :- PpsFromWire(ppsValue);
    var reasonValue, urlValue: Option<Text> := None, None;
    if resultValue == Error.Wire() {
      var reason := TakeRequired(fields, REASON);
      var taken :- reason;
      reasonValue := Some(taken);
      urlValue :- fields.TakeField(DOCUMENTATION_URL);
    }
    return Ok(ProvisioningReport(if resultValue == Success.Wire() then Success else Error,
                                 agentValue, vmIdValue, timestampValue, ppsType, reasonValue, urlValue, fields.items));
  }

  method TakeRequired(fields: FieldList, name: Text) returns (r: Result<Text, DecodeError>)
    modifies fields
    ensures match Required(old(fields.items), name)
            case Ok(p) => r == Ok(p.value) && fields.items == p.rest
            case Err(e) => r == Err(e)
  {
    var taken := fields.TakeField(name);
    var value :- taken;
    return if value.Some? then Ok(value.value) else Err(Malformed);
  }

  lemma WiresDiffer()
    ensures Success.Wire() != Error.Wire()
    ensures forall p: ReportPpsType :: PpsFromWire(p.Wire()) == Ok(p)
  {
    assert |Success.Wire()| == 7 && |Error.Wire()| == 5;
    assert Running.Wire()[0] != Savable.Wire()[0] && Running.Wire()[0] != Unknown.Wire()[0]
           && Savable.Wire()[0] != Unknown.Wire()[0];
    assert |NoPps.Wire()| == 4 && |OsDisk.Wire()| == 20;
  }

  // Round trips.

  predicate GoodKey(key: Text) {
    key != [] && EQUALS !in key
  }

  predicate GoodKeys(pairs: seq<Pair>) {
    forall i :: 0 <= i < |pairs| ==> GoodKey(pairs[i].0)
  }

  predicate NulFreePairs(pairs: seq<Pair>) {
    forall i :: 0 <= i < |pairs| ==> NulFree(pairs[i].0) && NulFree(pairs[i].1)
  }

  predicate Without(pairs: seq<Pair>, name: Text) {
    forall i :: 0 <= i < |pairs| ==> pairs[i].0 != name
  }

  predicate WithoutAll(pairs: seq<Pair>, names: seq<Text>) {
    forall n :: 0 <= n < |names| ==> Without(pairs, names[n])
  }

  predicate NulFreeReport(r: ProvisioningReport) {
    && NulFree(r.agent) && NulFree(r.vmId) && NulFree(r.timestamp)
    && (r.reason.Some? ==> NulFree(r.reason.value))
    && (r.documentationUrl.Some? ==> NulFree(r.documentationUrl.value))
    && NulFreePairs(r.extra)
  }

  /** The reports that survive storage: exactly those, as `RoundTripExactly` shows. */
  predicate Readable(r: ProvisioningReport, validTimestamp: Text -> bool) {
    && NulFreeReport(r)
    && validTimestamp(r.timestamp)
    && (r.result.Success? ==> r.reason.None? && r.documentationUrl.None?)
    && (r.result.Error? ==> r.reason.Some?)
    && GoodKeys(r.extra)
    && WithoutAll(r.extra, StandardNames(r.result))
  }

  lemma NamesDiffer()
    ensures RESULT != AGENT && RESULT != VM_ID && RESULT != TIMESTAMP && RESULT != PPS_TYPE
            && RESULT != REASON && RESULT != DOCUMENTATION_URL
    ensures AGENT != VM_ID && AGENT != TIMESTAMP && AGENT != PPS_TYPE && AGENT != REASON && AGENT != DOCUMENTATION_URL
    ensures VM_ID != TIMESTAMP && VM_ID != PPS_TYPE && VM_ID != REASON && VM_ID != DOCUMENTATION_URL
    ensures TIMESTAMP != PPS_TYPE && TIMESTAMP != REASON && TIMESTAMP != DOCUMENTATION_URL
    ensures PPS_TYPE != REASON && PPS_TYPE != DOCUMENTATION_URL && REASON != DOCUMENTATION_URL
  {
    assert |RESULT| == |REASON| == 6 && RESULT[2] != REASON[2];
    assert |AGENT| == |VM_ID| == 5 && AGENT[0] != VM_ID[0];
    assert |TIMESTAMP| == 9 && |PPS_TYPE| == 8 && |DOCUMENTATION_URL| == 17;
  }

  lemma NamesGood()
    ensures GoodKey(RESULT) && GoodKey(AGENT) && GoodKey(VM_ID) && GoodKey(TIMESTAMP) && GoodKey(PPS_TYPE)
    ensures GoodKey(REASON) && GoodKey(DOCUMENTATION_URL)
  {
  }

  lemma {:induction false} PairsOfTexts(pairs: seq<Pair>)
    requires GoodKeys(pairs)
    ensures PairsOf(FieldTexts(pairs)) == Ok(pairs)
  {
    if pairs != [] {
      SplitOnceAt(pairs[0].0, EQUALS, pairs[0].1);
      PairsOfTexts(pairs[1..]);
      assert FieldTexts(pairs)[1..] == FieldTexts(pairs[1..]);
      assert [pairs[0]] + pairs[1..] == pairs;
    }
  }

  lemma TakenUnique(a: seq<Pair>, name: Text, value: Text, b: seq<Pair>)
    requires Without(a, name) && Without(b, name)
    ensures Required(a + [(name, value)] + b, name) == Ok(TakenField(value, a + b))
    ensures Taken(a + [(name, value)] + b, name) == Ok((Some(value), a + b))
  {
    var fields := a + [(name, value)] + b;
    assert fields[|a|] == (name, value);
    assert forall j :: 0 <= j < |a| ==> fields[j] == a[j];
    assert forall j :: |a| < j < |fields| ==> fields[j] == b[j - |a| - 1];
    assert KeyIndex(fields, name, 0) == |a|;
    assert KeyIndex(fields, name, |a| + 1) == |fields|;
    assert fields[..|a|] + fields[|a| + 1..] == a + b;
  }

  lemma TakeFirst(name: Text, value: Text, rest: seq<Pair>)
    requires Without(rest, name)
    ensures Required([(name, value)] + rest, name) == Ok(TakenField(value, rest))
  {
    TakenUnique([], name, value, rest);
    assert [] + [(name, value)] + rest == [(name, value)] + rest && [] + rest == rest;
  }

  lemma TakeSecond(x: Pair, name: Text, value: Text, rest: seq<Pair>)
    requires x.0 != name && Without(rest, name)
    ensures Required([x, (name, value)] + rest, name) == Ok(TakenField(value, [x] + rest))
  {
    TakenUnique([x], name, value, rest);
    assert [x] + [(name, value)] + rest == [x, (name, value)] + rest;
  }

  lemma ExtraWithout(r: ProvisioningReport)
    requires WithoutAll(r.extra, StandardNames(r.result))
    ensures Without(r.extra, RESULT) && Without(r.extra, AGENT) && Without(r.extra, VM_ID)
            && Without(r.extra, TIMESTAMP) && Without(r.extra, PPS_TYPE)
    ensures r.result.Error? ==> Without(r.extra, REASON) && Without(r.extra, DOCUMENTATION_URL)
  {
    var names := StandardNames(r.result);
    assert names[0] == RESULT && names[1] == AGENT && names[2] == VM_ID;
    assert names[3] == TIMESTAMP && names[4] == PPS_TYPE;
    assert r.result.Error? ==> names[5] == REASON && names[6] == DOCUMENTATION_URL;
  }

  /** The names that every report has. */
  lemma CommonWithout(extra: seq<Pair>)
    requires WithoutAll(extra, StandardNames(Success))
    ensures Without(extra, RESULT) && Without(extra, AGENT) && Without(extra, VM_ID)
            && Without(extra, TIMESTAMP) && Without(extra, PPS_TYPE)
  {
    var names := StandardNames(Success);
    assert names[0] == RESULT && names[1] == AGENT && names[2] == VM_ID;
    assert names[3] == TIMESTAMP && names[4] == PPS_TYPE;
  }

  lemma CommonStandard(r: ProvisioningReport)
    requires WithoutAll(r.extra, StandardNames(r.result))
    ensures WithoutAll(r.extra, StandardNames(Success))
  {
    var names, common := StandardNames(r.result), StandardNames(Success);
    assert forall n :: 0 <= n < |common| ==> common[n] == names[n];
  }

  // The fields left while the parser takes the standard ones, in its order.

  function PpsField(r: ProvisioningReport): Pair {
    (PPS_TYPE, r.ppsType.Wire())
  }

  /** Behind `result` and `agent`. */
  function SuccessTail(r: ProvisioningReport): seq<Pair> {
    [PpsField(r), (VM_ID, r.vmId)] + ([(TIMESTAMP, r.timestamp)] + r.extra)
  }

  lemma SuccessLayout(r: ProvisioningReport)
    requires r.result.Success?
    ensures Layout(r) == [(RESULT, r.result.Wire())] + ([(AGENT, r.agent)] + SuccessTail(r))
  {
  }

  lemma SuccessHeadTakes(r: ProvisioningReport)
    requires r.result.Success? && WithoutAll(r.extra, StandardNames(r.result))
    ensures Required(Layout(r), RESULT) == Ok(TakenField(r.result.Wire(), [(AGENT, r.agent)] + SuccessTail(r)))
    ensures Required([(AGENT, r.agent)] + SuccessTail(r), AGENT) == Ok(TakenField(r.agent, SuccessTail(r)))
  {
    NamesDiffer();
    ExtraWithout(r);
    SuccessLayout(r);
    TakeFirst(RESULT, r.result.Wire(), [(AGENT, r.agent)] + SuccessTail(r));
    TakeFirst(AGENT, r.agent, SuccessTail(r));
  }

  lemma SuccessTailTakes(r: ProvisioningReport)
    requires r.result.Success? && WithoutAll(r.extra, StandardNames(r.result))
    ensures Required(SuccessTail(r), VM_ID) ==
            Ok(TakenField(r.vmId, [PpsField(r)] + ([(TIMESTAMP, r.timestamp)] + r.extra)))
    ensures Required([PpsField(r)] + ([(TIMESTAMP, r.timestamp)] + r.extra), TIMESTAMP) ==
            Ok(TakenField(r.timestamp, [PpsField(r)] + r.extra))
    ensures Required([PpsField(r)] + r.extra, PPS_TYPE) == Ok(TakenField(r.ppsType.Wire(), r.extra))
  {
    NamesDiffer();
    ExtraWithout(r);
    TakeSecond(PpsField(r), VM_ID, r.vmId, [(TIMESTAMP, r.timestamp)] + r.extra);
    TakeSecond(PpsField(r), TIMESTAMP, r.timestamp, r.extra);
    assert [PpsField(r)] + ([(TIMESTAMP, r.timestamp)] + r.extra) == [PpsField(r), (TIMESTAMP, r.timestamp)] + r.extra;
    TakeFirst(PPS_TYPE, r.ppsType.Wire(), r.extra);
  }

  /** Taking the standard fields from the success layout leaves the extras. */
  lemma TakeSuccess(r: ProvisioningReport, validTimestamp: Text -> bool)
    requires r.result.Success? && Readable(r, validTimestamp)
    ensures FromPairs(Layout(r), validTimestamp) == Ok(r)
  {
    SuccessHeadTakes(r);
    SuccessTailTakes(r);
    WiresDiffer();
  }

  /** Behind `result` and `reason`. */
  function ErrorTail(r: ProvisioningReport): seq<Pair> {
    r.extra + [PpsField(r), (VM_ID, r.vmId), (TIMESTAMP, r.timestamp)] +
    OptionalPair(DOCUMENTATION_URL, r.documentationUrl)
  }

  function UrlField(r: ProvisioningReport): seq<Pair> {
    OptionalPair(DOCUMENTATION_URL, r.documentationUrl)
  }

  lemma ErrorLayout(r: ProvisioningReport)
    requires r.result.Error? && r.reason.Some?
    ensures Layout(r) ==
            [(RESULT, r.result.Wire())] + ([(REASON, r.reason.value), (AGENT, r.agent)] + ErrorTail(r))
  {
  }

  lemma ErrorTailWithout(r: ProvisioningReport)
    requires r.result.Error? && WithoutAll(r.extra, StandardNames(Success))
    ensures Without(ErrorTail(r), RESULT) && Without(ErrorTail(r), AGENT)
  {
    NamesDiffer();
    CommonWithout(r.extra);
  }

  lemma ErrorHeadTakes(r: ProvisioningReport)
    requires r.result.Error? && r.reason.Some? && WithoutAll(r.extra, StandardNames(Success))
    ensures var reason := (REASON, r.reason.value);
            && Required(Layout(r), RESULT) == Ok(TakenField(r.result.Wire(), [reason, (AGENT, r.agent)] + ErrorTail(r)))
            && Required([reason, (AGENT, r.agent)] + ErrorTail(r), AGENT) ==
               Ok(TakenField(r.agent, [reason] + ErrorTail(r)))
  {
    var reason := (REASON, r.reason.value);
    NamesDiffer();
    ErrorTailWithout(r);
    ErrorLayout(r);
    TakeFirst(RESULT, r.result.Wire(), [reason, (AGENT, r.agent)] + ErrorTail(r));
    TakeSecond(reason, AGENT, r.agent, ErrorTail(r));
  }

  lemma ErrorTailSplits(r: ProvisioningReport)
    requires r.result.Error? && r.reason.Some?
    ensures [(REASON, r.reason.value)] + ErrorTail(r) ==
            [(REASON, r.reason.value)] + r.extra + [PpsField(r)] + [(VM_ID, r.vmId)] +
            ([(TIMESTAMP, r.timestamp)] + UrlField(r))
  {
    hide OptionalPair, Ascii;
  }

  /** The fields left once the identifier, the timestamp and the type are gone too. */
  lemma ErrorTailTakes(r: ProvisioningReport)
    requires r.result.Error? && r.reason.Some? && WithoutAll(r.extra, StandardNames(Success))
    ensures var before := [(REASON, r.reason.value)] + r.extra;
            var ts, url := [(TIMESTAMP, r.timestamp)], UrlField(r);
            && Required([(REASON, r.reason.value)] + ErrorTail(r), VM_ID) ==
               Ok(TakenField(r.vmId, before + [PpsField(r)] + (ts + url)))
            && Required(before + [PpsField(r)] + (ts + url), TIMESTAMP) ==
               Ok(TakenField(r.timestamp, before + [PpsField(r)] + url))
            && Required(before + [PpsField(r)] + url, PPS_TYPE) == Ok(TakenField(r.ppsType.Wire(), before + url))
  {
    hide Required, WithoutAll, Taken, ErrorTail;
    var before := [(REASON, r.reason.value)] + r.extra;
    var pre := before + [PpsField(r)];
    var ts, url := [(TIMESTAMP, r.timestamp)], UrlField(r);
    NamesDiffer();
    CommonWithout(r.extra);
    ErrorTailSplits(r);
    TakenUnique(pre, VM_ID, r.vmId, ts + url);
    assert pre + (ts + url) == pre + ts + url;
    TakenUnique(pre, TIMESTAMP, r.timestamp, url);
    TakenUnique(before, PPS_TYPE, r.ppsType.Wire(), url);
  }

  lemma ErrorReasonTakes(r: ProvisioningReport)
    requires r.result.Error? && r.reason.Some? && WithoutAll(r.extra, StandardNames(r.result))
    ensures Required([(REASON, r.reason.value)] + r.extra + UrlField(r), REASON) ==
            Ok(TakenField(r.reason.value, r.extra + UrlField(r)))
    ensures Taken(r.extra + UrlField(r), DOCUMENTATION_URL) == Ok((r.documentationUrl, r.extra))
  {
    NamesDiffer();
    ExtraWithout(r);
    assert [(REASON, r.reason.value)] + r.extra + UrlField(r) == [(REASON, r.reason.value)] + (r.extra + UrlField(r));
    TakeFirst(REASON, r.reason.value, r.extra + UrlField(r));
    if r.documentationUrl.Some? {
      TakenUnique(r.extra, DOCUMENTATION_URL, r.documentationUrl.value, []);
      assert r.extra + [(DOCUMENTATION_URL, r.documentationUrl.value)] + [] == r.extra + UrlField(r);
      assert r.extra + [] == r.extra;
    } else {
      assert r.extra + UrlField(r) == r.extra;
      assert KeyIndex(r.extra, DOCUMENTATION_URL, 0) == |r.extra|;
    }
  }

  /** Taking the standard fields from the failure layout leaves the extras. */
  lemma TakeError(r: ProvisioningReport, validTimestamp: Text -> bool)
    requires r.result.Error? && Readable(r, validTimestamp)
    ensures FromPairs(Layout(r), validTimestamp) == Ok(r)
  {
    CommonStandard(r);
    ErrorHeadTakes(r);
    ErrorTailTakes(r);
    ErrorReasonTakes(r);
    WiresDiffer();
  }

  // What every accepted report is like.

  predicate Clean(fields: seq<Pair>) {
    GoodKeys(fields) && NulFreePairs(fields)
  }

  /** Taking a field keeps the rest clean and adds a name to those that are gone. */
  lemma TakenKeeps(fields: seq<Pair>, name: Text, gone: seq<Text>)
    requires Taken(fields, name).Ok? && Clean(fields) && WithoutAll(fields, gone)
    ensures var (value, rest) := Taken(fields, name).value;
            Clean(rest) && WithoutAll(rest, gone + [name]) && (value.Some? ==> NulFree(value.value))
  {
    var i := KeyIndex(fields, name, 0);
    var rest := Taken(fields, name).value.1;
    if i < |fields| {
      assert forall j :: 0 <= j < |rest| ==> rest[j] == fields[if j < i then j else j + 1];
    }
    assert Without(rest, name);
    forall n | 0 <= n < |gone + [name]|
      ensures Without(rest, (gone + [name])[n])
    {
      assert n < |gone| ==> Without(fields, gone[n]);
    }
  }

  lemma RequiredKeeps(fields: seq<Pair>, name: Text, gone: seq<Text>)
    requires Required(fields, name).Ok? && Clean(fields) && WithoutAll(fields, gone)
    ensures var p := Required(fields, name).value;
            Clean(p.rest) && WithoutAll(p.rest, gone + [name]) && NulFree(p.value)
  {
    TakenKeeps(fields, name, gone);
  }

  lemma {:induction false} PairsOfGood(fields: seq<Text>)
    requires PairsOf(fields).Ok? && forall i :: 0 <= i < |fields| ==> NulFree(fields[i])
    ensures Clean(PairsOf(fields).value)
  {
    if fields != [] {
      PairsOfGood(fields[1..]);
      var i := Find(fields[0], EQUALS);
      assert EQUALS !in fields[0][..i];
      assert forall b :: b in fields[0][..i] || b in fields[0][i + 1..] ==> b in fields[0];
    }
  }

  function RestAfter(fields: seq<Pair>, name: Text): seq<Pair>
    requires Required(fields, name).Ok?
  {
    Required(fields, name).value.rest
  }

  lemma TwoTakesKeep(fields: seq<Pair>, n1: Text, n2: Text, gone: seq<Text>)
    requires Clean(fields) && WithoutAll(fields, gone) && Required(fields, n1).Ok?
    requires Required(RestAfter(fields, n1), n2).Ok?
    ensures var rest := RestAfter(RestAfter(fields, n1), n2);
            Clean(rest) && WithoutAll(rest, gone + [n1, n2])
    ensures NulFree(Required(fields, n1).value.value) && NulFree(Required(RestAfter(fields, n1), n2).value.value)
  {
    RequiredKeeps(fields, n1, gone);
    RequiredKeeps(RestAfter(fields, n1), n2, gone + [n1]);
    assert gone + [n1] + [n2] == gone + [n1, n2];
  }

  /** The five fields every report has. */
  lemma CommonTakesKeep(pairs: seq<Pair>, n1: Text, n2: Text, n3: Text, n4: Text, n5: Text,
                        rest2: seq<Pair>, rest4: seq<Pair>)
    requires Clean(pairs) && Required(pairs, n1).Ok? && Required(RestAfter(pairs, n1), n2).Ok?
    requires rest2 == RestAfter(RestAfter(pairs, n1), n2)
    requires Required(rest2, n3).Ok? && Required(RestAfter(rest2, n3), n4).Ok?
    requires rest4 == RestAfter(RestAfter(rest2, n3), n4)
    requires Required(rest4, n5).Ok?
    ensures Clean(RestAfter(rest4, n5)) && WithoutAll(RestAfter(rest4, n5), [n1, n2, n3, n4, n5])
    ensures NulFree(Required(RestAfter(pairs, n1), n2).value.value)
    ensures NulFree(Required(rest2, n3).value.value) && NulFree(Required(RestAfter(rest2, n3), n4).value.value)
  {
    hide Required, Clean, WithoutAll, NulFree;
    TwoTakesKeep(pairs, n1, n2, []);
    TwoTakesKeep(rest2, n3, n4, [] + [n1, n2]);
    RequiredKeeps(rest4, n5, [] + [n1, n2] + [n3, n4]);
    assert [] + [n1, n2] + [n3, n4] + [n5] == [n1, n2, n3, n4, n5];
  }

  lemma FromPairsReadable(pairs: seq<Pair>, validTimestamp: Text -> bool)
    requires Clean(pairs) && FromPairs(pairs, validTimestamp).Ok?
    ensures Readable(FromPairs(pairs, validTimestamp).value, validTimestamp)
  {
    hide Taken, Ascii, NulFree, Without;
    var r := FromPairs(pairs, validTimestamp).value;
    var rest2 := RestAfter(RestAfter(pairs, RESULT), AGENT);
    var rest4 := RestAfter(RestAfter(rest2, VM_ID), TIMESTAMP);
    var rest5 := RestAfter(rest4, PPS_TYPE);
    CommonTakesKeep(pairs, RESULT, AGENT, VM_ID, TIMESTAMP, PPS_TYPE, rest2, rest4);
    if r.result.Error? {
      ErrorTakesKeep(rest5, [RESULT, AGENT, VM_ID, TIMESTAMP, PPS_TYPE]);
    }
  }

  lemma ErrorTakesKeep(fields: seq<Pair>, gone: seq<Text>)
    requires Clean(fields) && WithoutAll(fields, gone) && Required(fields, REASON).Ok?
    requires Taken(RestAfter(fields, REASON), DOCUMENTATION_URL).Ok?
    ensures var (url, rest) := Taken(RestAfter(fields, REASON), DOCUMENTATION_URL).value;
            Clean(rest) && WithoutAll(rest, gone + [REASON, DOCUMENTATION_URL]) && (url.Some? ==> NulFree(url.value))
    ensures NulFree(Required(fields, REASON).value.value)
  {
    hide Clean, WithoutAll, NulFree;
    RequiredKeeps(fields, REASON, gone);
    TakenKeeps(RestAfter(fields, REASON), DOCUMENTATION_URL, gone + [REASON]);
    assert gone + [REASON] + [DOCUMENTATION_URL] == gone + [REASON, DOCUMENTATION_URL];
  }

  lemma ParsedReadable(value: Text, validTimestamp: Text -> bool)
    requires Parse(value, validTimestamp).Ok?
    ensures Readable(Parse(value, validTimestamp).value, validTimestamp)
  {
    var line := StripNewline(value);
    ReadNulFree(line);
    PairsOfGood(ReadLine(line));
    FromPairsReadable(PairsOf(ReadLine(line)).value, validTimestamp);
  }

  lemma AsciiNulFree(s: string)
    requires forall i :: 0 <= i < |s| ==> 0 as char < s[i] < 128 as char
    ensures NulFree(Ascii(s))
  {
  }

  lemma WiresNulFree(result: ReportResult, ppsType: ReportPpsType)
    ensures NulFree(result.Wire()) && NulFree(ppsType.Wire())
  {
  }

  lemma NulFreeTexts(pairs: seq<Pair>)
    requires NulFreePairs(pairs)
    ensures forall i :: 0 <= i < |pairs| ==> NulFree(FieldTexts(pairs)[i])
  {
  }

  lemma LayoutNulFree(r: ProvisioningReport)
    requires NulFreeReport(r)
    ensures forall i :: 0 <= i < |FieldTexts(Layout(r))| ==> NulFree(FieldTexts(Layout(r))[i])
  {
    hide Ascii, FieldTexts, ReportResult.Wire, ReportPpsType.Wire;
    AsciiNulFree("result");
    AsciiNulFree("agent");
    AsciiNulFree("vm_id");
    AsciiNulFree("timestamp");
    AsciiNulFree("pps_type");
    AsciiNulFree("reason");
    AsciiNulFree("documentation_url");
    WiresNulFree(r.result, r.ppsType);
    assert NulFreePairs(Layout(r));
    NulFreeTexts(Layout(r));
  }

  /** Every encoding of a NUL-free report passes the quoting check; stripping a newline takes nothing off it. */
  lemma EncodingAccepted(r: ProvisioningReport)
    ensures StripNewline(Encode(r)) == Encode(r)
    ensures NulFreeReport(r) ==> Accepting(Run(Start, Encode(r))) && ReadLine(Encode(r)) == FieldTexts(Layout(r))
  {
    WriteLineEnd(FieldTexts(Layout(r)));
    if NulFreeReport(r) {
      LayoutNulFree(r);
      WriteRead(FieldTexts(Layout(r)));
    }
  }

  lemma LayoutGoodKeys(r: ProvisioningReport)
    requires GoodKeys(r.extra)
    ensures GoodKeys(Layout(r))
  {
    NamesGood();
  }

  /** A report can be read back from its encoding exactly when it is readable. */
  lemma RoundTripExactly(r: ProvisioningReport, validTimestamp: Text -> bool)
    ensures Parse(Encode(r), validTimestamp) == Ok(r) <==> Readable(r, validTimestamp)
  {
    if Readable(r, validTimestamp) {
      EncodingAccepted(r);
      LayoutGoodKeys(r);
      PairsOfTexts(Layout(r));
      if r.result.Success? {
        TakeSuccess(r, validTimestamp);
      } else {
        TakeError(r, validTimestamp);
      }
    }
    if Parse(Encode(r), validTimestamp) == Ok(r) {
      ParsedReadable(Encode(r), validTimestamp);
    }
  }

  /** Whatever the parser accepts, in whatever order and quoting, re-encodes to the same report. */
  lemma ReparseSame(value: Text, validTimestamp: Text -> bool)
    requires Parse(value, validTimestamp).Ok?
    ensures Parse(Encode(Parse(value, validTimestamp).value), validTimestamp) == Parse(value, validTimestamp)
  {
    ParsedReadable(value, validTimestamp);
    RoundTripExactly(Parse(value, validTimestamp).value, validTimestamp);
  }

  // Reports as the builders make them.

  function SuccessReport(agent: Text, vmId: Text, ppsType: ReportPpsType, timestamp: Text): ProvisioningReport {
    ProvisioningReport(Success, agent, vmId, timestamp, ppsType, None, None, [])
  }

  function FailureReport(agent: Text, vmId: Text, reason: Text, ppsType: ReportPpsType, timestamp: Text):
    ProvisioningReport
  {
    ProvisioningReport(Error, agent, vmId, timestamp, ppsType, Some(reason), None, [])
  }

  function WithDocumentationUrl(r: ProvisioningReport, url: Text): ProvisioningReport {
    r.(documentationUrl := Some(url))
  }

  function WithExtra(r: ProvisioningReport, key: Text, value: Text): ProvisioningReport {
    r.(extra := r.extra + [(key, value)])
  }

  function WithExtras(r: ProvisioningReport, extra: seq<Pair>): ProvisioningReport {
    if extra == [] then r
    else
      var last := |extra| - 1;
      WithExtra(WithExtras(r, extra[..last]), extra[last].0, extra[last].1)
  }

  /** Every built report, and every parsed one, has a reason exactly when it is a failure. */
  predicate Built(r: ProvisioningReport) {
    r.reason.Some? <==> r.result.Error?
  }

  lemma {:induction false} ExtrasAppend(r: ProvisioningReport, extra: seq<Pair>)
    ensures WithExtras(r, extra) == r.(extra := r.extra + extra)
  {
    if extra == [] {
      assert r.extra + extra == r.extra;
    } else {
      var last := |extra| - 1;
      ExtrasAppend(r, extra[..last]);
      assert r.extra + extra == r.extra + extra[..last] + [extra[last]];
    }
  }

  /** The constructor call a built report begins with. */
  function StartOf(r: ProvisioningReport): (start: ProvisioningReport)
    requires Built(r)
    ensures Built(start) && start.documentationUrl.None? && start.extra == []
  {
    if r.result.Success? then SuccessReport(r.agent, r.vmId, r.ppsType, r.timestamp)
    else FailureReport(r.agent, r.vmId, r.reason.value, r.ppsType, r.timestamp)
  }

  /** Every such report can be built, and building goes on to give such reports. */
  lemma EveryBuilt(r: ProvisioningReport)
    requires Built(r)
    ensures var start := StartOf(r);
            r == WithExtras(if r.documentationUrl.Some? then WithDocumentationUrl(start, r.documentationUrl.value)
                            else start, r.extra)
    ensures forall url :: Built(WithDocumentationUrl(r, url))
    ensures forall key, value :: Built(WithExtra(r, key, value))
  {
    var start := StartOf(r);
    ExtrasAppend(if r.documentationUrl.Some? then WithDocumentationUrl(start, r.documentationUrl.value) else start,
                 r.extra);
    assert [] + r.extra == r.extra;
  }

  /** So a built report comes back exactly under the conditions a caller of the builders can break. */
  lemma BuiltRoundTripExactly(r: ProvisioningReport, validTimestamp: Text -> bool)
    requires Built(r)
    ensures Parse(Encode(r), validTimestamp) == Ok(r) <==>
            && NulFreeReport(r) && validTimestamp(r.timestamp)
            && (r.result.Success? ==> r.documentationUrl.None?)
            && GoodKeys(r.extra) && WithoutAll(r.extra, StandardNames(r.result))
  {
    hide Parse, Encode, NulFreeReport, GoodKeys, WithoutAll, StandardNames;
    RoundTripExactly(r, validTimestamp);
  }

  /** It does not with a help URL on a success: the URL is not stored. */
  lemma SuccessLosesUrl(r: ProvisioningReport, url: Text, validTimestamp: Text -> bool)
    requires r.result.Success? && Readable(r, validTimestamp)
    ensures Parse(Encode(WithDocumentationUrl(r, url)), validTimestamp) == Ok(r) != Ok(WithDocumentationUrl(r, url))
  {
    assert r.documentationUrl.None?;
    RoundTripExactly(r, validTimestamp);
    hide Parse, Readable, WriteLine, FieldTexts;
    assert Layout(WithDocumentationUrl(r, url)) == Layout(r);
  }

  lemma SameTexts(r: ProvisioningReport, key: Text, more: Text, value: Text)
    ensures Encode(WithExtra(r, key + [EQUALS] + more, value)) == Encode(WithExtra(r, key, more + [EQUALS] + value))
  {
    hide Ascii, ReportResult.Wire, ReportPpsType.Wire, WriteLine;
    var a, b := Layout(WithExtra(r, key + [EQUALS] + more, value)), Layout(WithExtra(r, key, more + [EQUALS] + value));
    assert key + [EQUALS] + more + [EQUALS] + value == key + [EQUALS] + (more + [EQUALS] + value);
    assert |a| == |b|;
    assert forall i :: 0 <= i < |a| ==>
        a[i] == b[i] || (a[i] == (key + [EQUALS] + more, value) && b[i] == (key, more + [EQUALS] + value));
    assert FieldTexts(a) == FieldTexts(b);
  }

  /** With `=` in an extra key, the key ends at its first `=`. */
  lemma EqualsMovesIntoValue(r: ProvisioningReport, key: Text, more: Text, value: Text, validTimestamp: Text -> bool)
    requires Readable(WithExtra(r, key, more + [EQUALS] + value), validTimestamp)
    ensures Parse(Encode(WithExtra(r, key + [EQUALS] + more, value)), validTimestamp) ==
            Ok(WithExtra(r, key, more + [EQUALS] + value))
    ensures WithExtra(r, key, more + [EQUALS] + value) != WithExtra(r, key + [EQUALS] + more, value)
  {
    hide Parse, Encode, Readable;
    SameTexts(r, key, more, value);
    RoundTripExactly(WithExtra(r, key, more + [EQUALS] + value), validTimestamp);
    var a, b := WithExtra(r, key, more + [EQUALS] + value).extra, WithExtra(r, key + [EQUALS] + more, value).extra;
    assert a[|r.extra|].0 == key && b[|r.extra|].0 == key + [EQUALS] + more;
    assert |key| < |key + [EQUALS] + more|;
  }

  ghost predicate Twice(fields: seq<Pair>, name: Text) {
    exists i, j :: 0 <= i < j < |fields| && fields[i].0 == name && fields[j].0 == name
  }

  lemma TakenTwice(fields: seq<Pair>, name: Text)
    requires Twice(fields, name)
    ensures Taken(fields, name) == Err(Malformed) && Required(fields, name) == Err(Malformed)
  {
    var i, j :| 0 <= i < j < |fields| && fields[i].0 == name && fields[j].0 == name;
    var first := KeyIndex(fields, name, 0);
    assert first <= i && KeyIndex(fields, name, first + 1) <= j;
  }

  /** Taking another field leaves both. */
  lemma TwiceStays(fields: seq<Pair>, other: Text, name: Text)
    requires Twice(fields, name) && other != name && Taken(fields, other).Ok?
    ensures Twice(Taken(fields, other).value.1, name)
    ensures Required(fields, other).Ok? ==> RestAfter(fields, other) == Taken(fields, other).value.1
  {
    var i, j :| 0 <= i < j < |fields| && fields[i].0 == name && fields[j].0 == name;
    var k, rest := KeyIndex(fields, other, 0), Taken(fields, other).value.1;
    if k < |fields| {
      assert rest[if i < k then i else i - 1] == fields[i] && rest[if j < k then j else j - 1] == fields[j];
    }
  }

  lemma RequiredTwice(fields: seq<Pair>, other: Text, name: Text)
    requires Twice(fields, name)
    ensures Required(fields, other).Ok? ==> other != name && Twice(RestAfter(fields, other), name)
    ensures Required(fields, other).Err? ==> Required(fields, other) == Err(Malformed)
    ensures other == name ==> Taken(fields, other) == Err(Malformed)
  {
    hide Twice;
    if other == name {
      TakenTwice(fields, name);
    } else if Required(fields, other).Ok? {
      TwiceStays(fields, other, name);
    }
  }

  lemma PpsMalformed(value: Text)
    ensures PpsFromWire(value).Err? ==> PpsFromWire(value) == Err(Malformed)
  {
    hide Ascii, ReportPpsType.Wire;
  }

  /** The result that the parser finds is the first field's. */
  lemma FirstTaken(fields: seq<Pair>, name: Text)
    requires fields != [] && fields[0].0 == name && Required(fields, name).Ok?
    ensures Required(fields, name).value.value == fields[0].1
  {
  }

  /** Fields in which a name the parser takes occurs twice are rejected. */
  lemma FromPairsTwice(pairs: seq<Pair>, name: Text, result: ReportResult, validTimestamp: Text -> bool)
    requires pairs != [] && pairs[0] == (RESULT, result.Wire()) && Twice(pairs, name) && name in StandardNames(result)
    ensures FromPairs(pairs, validTimestamp) == Err(Malformed)
  {
    hide Required, Taken, Ascii, ReportPpsType.Wire, PpsFromWire, ReportResult.Wire, Twice;
    WiresDiffer();
    RequiredTwice(pairs, RESULT, name);
    if Required(pairs, RESULT).Ok? {
      FirstTaken(pairs, RESULT);
      var f1 := RestAfter(pairs, RESULT);
      RequiredTwice(f1, AGENT, name);
      if Required(f1, AGENT).Ok? {
        var f2 := RestAfter(f1, AGENT);
        RequiredTwice(f2, VM_ID, name);
        if Required(f2, VM_ID).Ok? {
          FromTailTwice(RestAfter(f2, VM_ID), name, result);
        }
      }
    }
  }

  lemma FromTailTwice(f3: seq<Pair>, name: Text, result: ReportResult)
    requires Twice(f3, name) && name in StandardNames(result) && name != RESULT && name != AGENT && name != VM_ID
    ensures Required(f3, TIMESTAMP).Err? ==> Required(f3, TIMESTAMP) == Err(Malformed)
    ensures Required(f3, TIMESTAMP).Ok? ==>
              var f4 := RestAfter(f3, TIMESTAMP);
              && (Required(f4, PPS_TYPE).Err? ==> Required(f4, PPS_TYPE) == Err(Malformed))
              && (Required(f4, PPS_TYPE).Ok? ==>
                    && (PpsFromWire(Required(f4, PPS_TYPE).value.value).Err? ==>
                          PpsFromWire(Required(f4, PPS_TYPE).value.value) == Err(Malformed))
                    && result.Error?
                    && var f5 := RestAfter(f4, PPS_TYPE);
                       && (Required(f5, REASON).Err? ==> Required(f5, REASON) == Err(Malformed))
                       && (Required(f5, REASON).Ok? ==>
                             Taken(RestAfter(f5, REASON), DOCUMENTATION_URL) == Err(Malformed)))
  {
    hide Required, Taken, Ascii, ReportPpsType.Wire, PpsFromWire, Twice;
    RequiredTwice(f3, TIMESTAMP, name);
    if Required(f3, TIMESTAMP).Ok? {
      var f4 := RestAfter(f3, TIMESTAMP);
      RequiredTwice(f4, PPS_TYPE, name);
      if Required(f4, PPS_TYPE).Ok? {
        PpsMalformed(Required(f4, PPS_TYPE).value.value);
        var f5 := RestAfter(f4, PPS_TYPE);
        RequiredTwice(f5, REASON, name);
        if Required(f5, REASON).Ok? {
          RequiredTwice(RestAfter(f5, REASON), DOCUMENTATION_URL, name);
        }
      }
    }
  }

  /** The standard field of that name, and the extra one. */
  lemma StandardTwice(r: ProvisioningReport, name: Text, value: Text)
    requires Built(r) && name in StandardNames(r.result)
    requires r.result.Error? && name == DOCUMENTATION_URL ==> r.documentationUrl.Some?
    ensures Twice(Layout(WithExtra(r, name, value)), name)
  {
    hide Ascii, ReportPpsType.Wire, ReportResult.Wire;
    var fields, n := Layout(WithExtra(r, name, value)), |r.extra|;
    if r.result.Success? {
      assert fields[0].0 == RESULT && fields[1].0 == AGENT && fields[2].0 == PPS_TYPE && fields[3].0 == VM_ID;
      assert fields[4].0 == TIMESTAMP && fields[5 + n].0 == name;
    } else {
      assert fields[0].0 == RESULT && fields[1].0 == REASON && fields[2].0 == AGENT && fields[3 + n].0 == name;
      assert fields[4 + n].0 == PPS_TYPE && fields[5 + n].0 == VM_ID && fields[6 + n].0 == TIMESTAMP;
      assert name == DOCUMENTATION_URL ==> fields[7 + n].0 == name;
    }
  }

  /** The parser gets to the fields of a report with one more clean extra. */
  lemma ExtraParsed(r: ProvisioningReport, name: Text, value: Text, validTimestamp: Text -> bool)
    requires Readable(r, validTimestamp) && NulFree(value) && name in StandardNames(r.result)
    ensures var bad := WithExtra(r, name, value);
            Parse(Encode(bad), validTimestamp) == FromPairs(Layout(bad), validTimestamp)
  {
    hide Encode, Layout, FromPairs, PairsOf, ReadLine, StripNewline, Run, FieldTexts, Ascii;
    var bad := WithExtra(r, name, value);
    StandardNamesClean(r.result, name);
    assert NulFreeReport(bad) && GoodKeys(bad.extra);
    EncodingAccepted(bad);
    LayoutGoodKeys(bad);
    PairsOfTexts(Layout(bad));
  }

  lemma StandardNamesClean(result: ReportResult, name: Text)
    requires name in StandardNames(result)
    ensures NulFree(name) && GoodKey(name)
  {
    hide Ascii;
    NamesGood();
    AsciiNulFree("result");
    AsciiNulFree("agent");
    AsciiNulFree("vm_id");
    AsciiNulFree("timestamp");
    AsciiNulFree("pps_type");
    AsciiNulFree("reason");
    AsciiNulFree("documentation_url");
  }

  /** An extra `documentation_url` on a failure that has none is read back as its help URL. */
  lemma ExtraBecomesUrl(r: ProvisioningReport, value: Text, validTimestamp: Text -> bool)
    requires Readable(r, validTimestamp) && r.result.Error? && r.documentationUrl.None?
    ensures FromPairs(Layout(WithExtra(r, DOCUMENTATION_URL, value)), validTimestamp) ==
            Ok(WithDocumentationUrl(r, value))
  {
    hide Required, Taken, Layout, ErrorTail, NulFreeReport, GoodKeys, Ascii, ReportResult.Wire, ReportPpsType.Wire;
    var more := WithExtra(r, DOCUMENTATION_URL, value);
    NamesDiffer();
    ExtraWithout(r);
    MoreWithout(r, value);
    ErrorHeadTakes(more);
    ErrorTailTakes(more);
    assert UrlField(more) == [];
    var extra := r.extra + [(DOCUMENTATION_URL, value)];
    assert more.extra == extra;
    var reason := (REASON, r.reason.value);
    assert [reason] + extra + [] == [reason] + extra;
    TakeFirst(REASON, r.reason.value, extra);
    TakenUnique(r.extra, DOCUMENTATION_URL, value, []);
    assert extra + [] == extra && r.extra + [] == r.extra;
    WiresDiffer();
  }

  lemma MoreWithout(r: ProvisioningReport, value: Text)
    requires WithoutAll(r.extra, StandardNames(r.result))
    ensures WithoutAll(WithExtra(r, DOCUMENTATION_URL, value).extra, StandardNames(Success))
  {
    NamesDiffer();
    hide Ascii;
    ExtraWithout(r);
    var names := StandardNames(Success);
    assert names == [RESULT, AGENT, VM_ID, TIMESTAMP, PPS_TYPE];
  }

  /**
   A standard name as an extra key makes a stored report unreadable, with one exception: on a
   failure without a help URL, an extra `documentation_url` comes back as the help URL.
   */
  lemma StandardNameExactly(r: ProvisioningReport, name: Text, value: Text, validTimestamp: Text -> bool)
    requires Readable(r, validTimestamp) && NulFree(value) && name in StandardNames(r.result)
    ensures Parse(Encode(WithExtra(r, name, value)), validTimestamp) ==
            if r.result.Error? && r.documentationUrl.None? && name == DOCUMENTATION_URL
            then Ok(WithDocumentationUrl(r, value)) else Err(Malformed)
  {
    hide Encode, FromPairs, Twice, Ascii, ReportResult.Wire, ReportPpsType.Wire, NulFreeReport, GoodKeys;
    hide WithoutAll, Parse;
    ExtraParsed(r, name, value, validTimestamp);
    if r.result.Error? && r.documentationUrl.None? && name == DOCUMENTATION_URL {
      ExtraBecomesUrl(r, value, validTimestamp);
    } else {
      StandardTwice(r, name, value);
      FromPairsTwice(Layout(WithExtra(r, name, value)), name, r.result, validTimestamp);
    }
  }
}
