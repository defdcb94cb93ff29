/**
 One `|`-delimited CSV record (section 2 of RFC 4180, with `|` in place of the comma), and the
 quoting check that provisioning reports must pass.
 */
module Csv {
  import opened Results
  import opened Bytes
  import opened Seqs
  import opened Delimited
  import opened KvpErrors

  /** A field as it stands in the record: bare, or quoted with inner quotes doubled. */
  datatype WireField = Bare(content: Text) | InQuotes(content: Text)

  function Escape(s: Text): Text {
    if s == [] then []
    else (if s[0] == DQUOTE then [DQUOTE, DQUOTE] else [s[0]]) + Escape(s[1..])
  }

  function Render(f: WireField): Text {
    match f
    case Bare(content) => content
    case InQuotes(content) => [DQUOTE] + Escape(content) + [DQUOTE]
  }

  /** Bytes that may stand outside quotes. */
  predicate IsBare(b: byte) {
    b != NUL && b != DQUOTE && b != CR && b != LF && b != BAR
  }

  predicate WellFormed(f: WireField) {
    match f
    case Bare(content) => forall i :: 0 <= i < |content| ==> IsBare(content[i])
    case InQuotes(content) => NulFree(content)
  }

  function RenderAll(fs: seq<WireField>): (r: seq<Text>)
    ensures |r| == |fs|
  {
    if fs == [] then [] else [Render(fs[0])] + RenderAll(fs[1..])
  }

  function Line(fs: seq<WireField>): Text {
    Join(RenderAll(fs), BAR)
  }

  /** `value` is a record of well-formed fields `fs`. */
  predicate IsLine(fs: seq<WireField>, value: Text) {
    fs != [] && (forall i :: 0 <= i < |fs| ==> WellFormed(fs[i])) && value == Line(fs)
  }

  // The quoting automaton.

  datatype State = Start | Unquoted | Quoted | Closed

  function Next(state: State, b: byte): Option<State> {
    if b == NUL then None
    else
      match state
      case Start => if b == DQUOTE then Some(Quoted) else if b == BAR then Some(Start)
                    else if b == CR || b == LF then None else Some(Unquoted)
      case Unquoted => if b == BAR then Some(Start)
                       else if b == DQUOTE || b == CR || b == LF then None else Some(Unquoted)
      case Quoted => if b == DQUOTE then Some(Closed) else Some(Quoted)
      case Closed => if b == DQUOTE then Some(Quoted) else if b == BAR then Some(Start) else None
  }

  function Run(state: State, s: Text): Option<State>
    decreases |s|
  {
    if s == [] then Some(state)
    else
      match Next(state, s[0])
      case None => None
      case Some(t) => Run(t, s[1..])
  }

  predicate Accepting(end: Option<State>) {
    end.Some? && end != Some(Quoted)
  }

  method ValidateReportQuoting(value: Text) returns (r: Result<(), DecodeError>)
    ensures r == if Accepting(Run(Start, value)) then Ok(()) else Err(Malformed)
    ensures r.Ok? <==> exists fs :: IsLine(fs, value)
  {
    hide IsLine;
    AcceptedExactly(value);
    var state := Start;
    var i := 0;
    while i < |value|
      invariant 0 <= i <= |value|
      invariant Run(Start, value) == Run(state, value[i..])
    {
      var byte := value[i];
      assert value[i..][1..] == value[i + 1..];
      if byte == NUL {
        return Err(Malformed);
      }
      match state {
      case Start | Closed =>
        if byte == DQUOTE {
          state := Quoted;
        } else if byte == BAR {
          state := Start;
        } else if state == Closed || byte == CR || byte == LF {
          return Err(Malformed);
        } else {
          state := Unquoted;
        }
      case Quoted =>
        if byte == DQUOTE {
          state := Closed;
        }
      case Unquoted =>
        if byte == BAR {
          state := Start;
        } else if byte == DQUOTE || byte == CR || byte == LF {
          return Err(Malformed);
        }
      }
      i := i + 1;
    }
    return if state == Quoted then Err(Malformed) else Ok(());
  }

  // Reading a record.

  /** The fields of a record, from `state` with `current` read of the field at hand. */
  function FieldsFrom(state: State, current: Text, s: Text): seq<WireField>
    decreases |s|
  {
    if s == [] then [if state in {Quoted, Closed} then InQuotes(current) else Bare(current)]
    else if state == Quoted then
      if s[0] == DQUOTE then FieldsFrom(Closed, current, s[1..])
      else FieldsFrom(Quoted, current + [s[0]], s[1..])
    else if s[0] == BAR then
      [if state == Closed then InQuotes(current) else Bare(current)] + FieldsFrom(Start, [], s[1..])
    else if s[0] == DQUOTE && state == Closed then FieldsFrom(Quoted, current + [DQUOTE], s[1..])
    else if s[0] == DQUOTE && state == Start then FieldsFrom(Quoted, [], s[1..])
    else FieldsFrom(Unquoted, current + [s[0]], s[1..])
  }

  function FieldsOf(value: Text): seq<WireField> {
    FieldsFrom(Start, [], value)
  }

  function Contents(fs: seq<WireField>): (r: seq<Text>)
    ensures |r| == |fs|
  {
    if fs == [] then [] else [fs[0].content] + Contents(fs[1..])
  }

  lemma {:induction false} EscapeSnoc(s: Text, b: byte)
    ensures Escape(s + [b]) == Escape(s) + if b == DQUOTE then [DQUOTE, DQUOTE] else [b]
  {
    if s == [] {
      assert ([] + [b])[1..] == [];
    } else {
      assert (s + [b])[1..] == s[1..] + [b];
      EscapeSnoc(s[1..], b);
    }
  }

  /** What of the field at hand has been read, as it stood in the record. */
  function Written(state: State, current: Text): Text {
    match state
    case Start => []
    case Unquoted => current
    case Quoted => [DQUOTE] + Escape(current)
    case Closed => [DQUOTE] + Escape(current) + [DQUOTE]
  }

  predicate Reading(state: State, current: Text) {
    match state
    case Start => current == []
    case Unquoted => WellFormed(Bare(current))
    case Quoted => NulFree(current)
    case Closed => NulFree(current)
  }

  lemma ReadingStep(state: State, current: Text, b: byte)
    requires Reading(state, current) && Next(state, b).Some? && Next(state, b) != Some(Start)
    ensures state == Quoted && b == DQUOTE ==>
              Reading(Closed, current) && Written(state, current) + [b] == Written(Closed, current)
    ensures state == Quoted && b != DQUOTE ==>
              Reading(Quoted, current + [b]) && Written(state, current) + [b] == Written(Quoted, current + [b])
    ensures state == Closed ==>
              Reading(Quoted, current + [b]) && Written(state, current) + [b] == Written(Quoted, current + [b])
    ensures state == Start && b == DQUOTE ==> Written(state, current) + [b] == Written(Quoted, [])
    ensures state in {Start, Unquoted} && b != DQUOTE ==>
              Reading(Unquoted, current + [b]) && Written(state, current) + [b] == Written(Unquoted, current + [b])
  {
    EscapeSnoc(current, b);
  }

  lemma LineCons(f: WireField, fs: seq<WireField>)
    requires fs != []
    ensures Line([f] + fs) == Render(f) + [BAR] + Line(fs)
  {
    assert ([f] + fs)[1..] == fs;
  }

  /** Where the record ends, what has been read of the last field is that field. */
  lemma LastField(state: State, current: Text)
    requires Reading(state, current) && state != Quoted
    ensures IsLine(FieldsFrom(state, current, []), Written(state, current))
  {
    var fs := FieldsFrom(state, current, []);
    assert fs[1..] == [] && RenderAll(fs)[1..] == [];
  }

  /** What the automaton accepts is a record of well-formed fields. */
  lemma {:induction false} AcceptedIsLine(state: State, current: Text, s: Text)
    requires Reading(state, current) && Accepting(Run(state, s))
    ensures IsLine(FieldsFrom(state, current, s), Written(state, current) + s)
    decreases |s|
  {
    hide Escape, RenderAll;
    if s == [] {
      LastField(state, current);
      assert Written(state, current) + s == Written(state, current);
    } else {
      var b, rest := s[0], s[1..];
      assert Written(state, current) + s == Written(state, current) + [b] + rest;
      if Next(state, b) == Some(Start) {
        AcceptedIsLine(Start, [], rest);
        var f := if state == Closed then InQuotes(current) else Bare(current);
        assert [] + rest == rest;
        LineCons(f, FieldsFrom(Start, [], rest));
      } else {
        ReadingStep(state, current, b);
        AcceptedIsLine(
          Next(state, b).value,
          if state == Quoted && b == DQUOTE then current
          else if state == Start && b == DQUOTE then []
          else current + [b],
          rest);
      }
    }
  }

  /** Reading through the bytes of a bare field. */
  lemma {:induction false} ReadBare(current: Text, content: Text, rest: Text)
    requires WellFormed(Bare(content))
    ensures Run(Unquoted, content + rest) == Run(Unquoted, rest)
    ensures FieldsFrom(Unquoted, current, content + rest) == FieldsFrom(Unquoted, current + content, rest)
    decreases |content|
  {
    if content == [] {
      assert content + rest == rest && current + content == current;
    } else {
      assert (content + rest)[1..] == content[1..] + rest;
      ReadBare(current + [content[0]], content[1..], rest);
      assert current + [content[0]] + content[1..] == current + content;
    }
  }

  lemma ReadPlain(current: Text, b: byte, more: Text)
    requires b != DQUOTE && b != NUL
    ensures Run(Quoted, [b] + more) == Run(Quoted, more)
    ensures FieldsFrom(Quoted, current, [b] + more) == FieldsFrom(Quoted, current + [b], more)
  {
    HeadTail(b, more);
  }

  lemma ReadDoubled(current: Text, more: Text)
    ensures Run(Quoted, [DQUOTE, DQUOTE] + more) == Run(Quoted, more)
    ensures FieldsFrom(Quoted, current, [DQUOTE, DQUOTE] + more) == FieldsFrom(Quoted, current + [DQUOTE], more)
  {
    assert [DQUOTE, DQUOTE] + more == [DQUOTE] + ([DQUOTE] + more);
    HeadTail(DQUOTE, [DQUOTE] + more);
    HeadTail(DQUOTE, more);
  }

  /** Reading through the bytes between the quotes of a quoted field. */
  lemma {:induction false} ReadQuoted(current: Text, content: Text, rest: Text)
    requires NulFree(content)
    ensures Run(Quoted, Escape(content) + rest) == Run(Quoted, rest)
    ensures FieldsFrom(Quoted, current, Escape(content) + rest) == FieldsFrom(Quoted, current + content, rest)
    decreases |content|
  {
    hide Run, FieldsFrom;
    if content == [] {
      assert Escape(content) + rest == rest && current + content == current;
    } else {
      var b, more := content[0], Escape(content[1..]) + rest;
      ReadQuoted(current + [b], content[1..], rest);
      assert current + [b] + content[1..] == current + content;
      assert b in content;
      if b == DQUOTE {
        ReadDoubled(current, more);
        assert Escape(content) + rest == [DQUOTE, DQUOTE] + more;
      } else {
        ReadPlain(current, b, more);
        assert Escape(content) + rest == [b] + more;
      }
    }
  }

  /** Reading one whole field, up to the delimiter or the end of the record. */
  lemma ReadField(f: WireField, rest: Text)
    requires WellFormed(f) && (rest == [] || rest[0] == BAR)
    ensures Accepting(Run(Start, Render(f) + rest)) <==> rest == [] || Accepting(Run(Start, rest[1..]))
    ensures FieldsOf(Render(f) + rest) == [f] + if rest == [] then [] else FieldsOf(rest[1..])
  {
    match f
    case Bare(content) => ReadBareField(content, rest);
    case InQuotes(content) => ReadQuotedField(content, rest);
  }

  lemma ReadBareField(content: Text, rest: Text)
    requires WellFormed(Bare(content)) && (rest == [] || rest[0] == BAR)
    ensures Accepting(Run(Start, content + rest)) <==> rest == [] || Accepting(Run(Start, rest[1..]))
    ensures FieldsOf(content + rest) == [Bare(content)] + if rest == [] then [] else FieldsOf(rest[1..])
  {
    if content == [] {
      assert content + rest == rest;
    } else {
      var s := content + rest;
      assert s[1..] == content[1..] + rest;
      ReadBare([content[0]], content[1..], rest);
      assert [] + [content[0]] == [content[0]] && [content[0]] + content[1..] == content;
      ReadBareEnd(content, rest);
    }
  }

  lemma ReadQuotedField(content: Text, rest: Text)
    requires NulFree(content) && (rest == [] || rest[0] == BAR)
    ensures var s := Render(InQuotes(content)) + rest;
            && (Accepting(Run(Start, s)) <==> rest == [] || Accepting(Run(Start, rest[1..])))
            && FieldsOf(s) == [InQuotes(content)] + if rest == [] then [] else FieldsOf(rest[1..])
  {
    var s, tail := Render(InQuotes(content)) + rest, [DQUOTE] + rest;
    assert s[1..] == Escape(content) + tail;
    ReadQuoted([], content, tail);
    assert [] + content == content && tail[1..] == rest;
    assert Run(Start, s) == Run(Closed, rest);
    assert FieldsOf(s) == FieldsFrom(Closed, content, rest);
  }

  lemma ReadBareEnd(content: Text, rest: Text)
    requires rest == [] || rest[0] == BAR
    ensures FieldsFrom(Unquoted, content, rest) == [Bare(content)] + if rest == [] then [] else FieldsOf(rest[1..])
    ensures Accepting(Run(Unquoted, rest)) <==> rest == [] || Accepting(Run(Start, rest[1..]))
  {
  }

  /** Every record of well-formed fields is accepted, and read back as those fields. */
  lemma {:induction false} LineIsAccepted(fs: seq<WireField>)
    requires fs != [] && forall i :: 0 <= i < |fs| ==> WellFormed(fs[i])
    ensures Accepting(Run(Start, Line(fs))) && FieldsOf(Line(fs)) == fs
  {
    if |fs| == 1 {
      assert fs == [fs[0]] && RenderAll(fs)[1..] == [];
      ReadField(fs[0], []);
      assert Render(fs[0]) + [] == Line(fs);
    } else {
      LineIsAccepted(fs[1..]);
      var rest := [BAR] + Line(fs[1..]);
      ReadField(fs[0], rest);
      LineCons(fs[0], fs[1..]);
      assert fs == [fs[0]] + fs[1..] && rest[1..] == Line(fs[1..]);
      assert Render(fs[0]) + rest == Line(fs);
    }
  }

  /**
   The automaton accepts exactly the records whose fields are each fully quoted with doubled
   quotes, or free of quotes, CR and LF; and each such record has one decomposition.
   */
  lemma AcceptedExactly(value: Text)
    ensures Accepting(Run(Start, value)) <==> exists fs :: IsLine(fs, value)
    ensures forall fs :: IsLine(fs, value) ==> fs == FieldsOf(value)
  {
    if Accepting(Run(Start, value)) {
      AcceptedIsLine(Start, [], value);
      assert [] + value == value;
      assert IsLine(FieldsOf(value), value);
    }
    forall fs | IsLine(fs, value)
      ensures fs == FieldsOf(value) && Accepting(Run(Start, value))
    {
      LineIsAccepted(fs);
    }
  }

  // Writing a record.

  /** `QuoteStyle::Necessary`: quote fields that contain the delimiter, a quote, CR or LF. */
  function ToWire(content: Text): WireField {
    if BAR in content || DQUOTE in content || CR in content || LF in content then InQuotes(content) else Bare(content)
  }

  /** Fields and records byte by byte: what may stand bare, doubled quotes, and the delimiter. */
  lemma FieldExactly(f: WireField, b: byte, rest: seq<WireField>)
    ensures WellFormed(f) <==>
            match f
            case Bare(c) => 0 !in c && 10 !in c && 13 !in c && 34 !in c && 124 !in c
            case InQuotes(c) => 0 !in c
    ensures Render(f) == match f
                         case Bare(c) => c
                         case InQuotes(c) => [34] + Escape(c) + [34]
    ensures Escape([]) == [] && Escape(f.content + [b]) == Escape(f.content) + if b == 34 then [34, 34] else [b]
    ensures Line([f]) == Render(f) && (rest != [] ==> Line([f] + rest) == Render(f) + [124] + Line(rest))
  {
    EscapeSnoc(f.content, b);
    if rest != [] {
      LineCons(f, rest);
    }
  }

  /** Which fields are quoted, and with what. */
  lemma QuotedExactly(content: Text)
    ensures var special := 124 in content || 34 in content || 13 in content || 10 in content;
            Render(ToWire(content)) == if special then [34] + Escape(content) + [34] else content
  {
  }

  function ToWireAll(contents: seq<Text>): (fs: seq<WireField>)
    ensures |fs| == |contents|
    ensures forall i :: 0 <= i < |fs| ==> fs[i] == ToWire(contents[i])
  {
    if contents == [] then [] else [ToWire(contents[0])] + ToWireAll(contents[1..])
  }

  function WriteLine(contents: seq<Text>): Text {
    Line(ToWireAll(contents))
  }

  function ReadLine(value: Text): seq<Text> {
    Contents(FieldsOf(value))
  }

  lemma {:induction false} ContentsOfWire(contents: seq<Text>)
    ensures Contents(ToWireAll(contents)) == contents
  {
    if contents != [] {
      ContentsOfWire(contents[1..]);
    }
  }

  lemma ToWireWellFormed(content: Text)
    requires NulFree(content)
    ensures WellFormed(ToWire(content))
  {
    assert forall i :: 0 <= i < |content| ==> content[i] in content;
  }

  /** A written record passes the quoting check and reads back as it was written. */
  lemma WriteRead(contents: seq<Text>)
    requires contents != [] && forall i :: 0 <= i < |contents| ==> NulFree(contents[i])
    ensures Accepting(Run(Start, WriteLine(contents)))
    ensures ReadLine(WriteLine(contents)) == contents
  {
    forall i | 0 <= i < |contents|
      ensures WellFormed(ToWireAll(contents)[i])
    {
      ToWireWellFormed(contents[i]);
    }
    LineIsAccepted(ToWireAll(contents));
    ContentsOfWire(contents);
  }

  /** Fields read from an accepted record are NUL-free. */
  lemma ReadNulFree(value: Text)
    requires Accepting(Run(Start, value))
    ensures ReadLine(value) != [] && forall i :: 0 <= i < |ReadLine(value)| ==> NulFree(ReadLine(value)[i])
  {
    AcceptedIsLine(Start, [], value);
    ContentsNulFree(FieldsOf(value));
  }

  lemma {:induction false} ContentsNulFree(fs: seq<WireField>)
    requires forall i :: 0 <= i < |fs| ==> WellFormed(fs[i])
    ensures forall i :: 0 <= i < |fs| ==> NulFree(Contents(fs)[i])
  {
    if fs != [] {
      ContentsNulFree(fs[1..]);
      assert fs[0].Bare? ==> forall b :: b in fs[0].content ==> IsBare(b);
    }
  }

  /** A written record never ends in a line break, so stripping one cannot eat payload. */
  lemma {:induction false} WriteLineEnd(contents: seq<Text>)
    requires contents != []
    ensures var s := WriteLine(contents); s == [] || (s[|s| - 1] != LF && s[|s| - 1] != CR)
  {
    var fs := ToWireAll(contents);
    var last := Render(ToWire(contents[|contents| - 1]));
    assert last == [] || (last[|last| - 1] != LF && last[|last| - 1] != CR) by {
      var c := contents[|contents| - 1];
      assert c != [] ==> c[|c| - 1] in c;
    }
    if |contents| == 1 {
      assert RenderAll(fs)[1..] == [];
    } else {
      WriteLineEnd(contents[1..]);
      LineCons(fs[0], ToWireAll(contents[1..]));
    }
  }
}
