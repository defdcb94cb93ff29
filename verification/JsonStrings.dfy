/** JSON string bodies (section 7 of RFC 8259): every spelling of a text, and the unescaping of it. */
module JsonStrings {
  import opened Results
  import opened Bytes
  import opened Utf8
  import opened Seqs

  const LOWER_U: byte := 117

  /** What the one-letter escape `\letter` stands for. */
  function ShortMeaning(letter: byte): Option<byte> {
    if letter == DQUOTE || letter == BACKSLASH || letter == 47 then Some(letter)
    else if letter == 98 then Some(8)
    else if letter == 102 then Some(12)
    else if letter == 110 then Some(LF)
    else if letter == 114 then Some(CR)
    else if letter == 116 then Some(9)
    else None
  }

  function HexDigit(b: byte): (r: Option<nat>)
    ensures r.Some? ==> r.value < 16
  {
    if 48 <= b <= 57 then Some((b - 48) as nat)
    else if 65 <= b <= 70 then Some((b - 55) as nat)
    else if 97 <= b <= 102 then Some((b - 87) as nat)
    else None
  }

  /** The code unit of four hex digits. */
  function Unit(digits: Text): (r: Option<nat>)
    ensures r.Some? ==> |digits| == 4 && r.value < 0x10000 && forall i :: 0 <= i < 4 ==> HexDigit(digits[i]).Some?
  {
    if |digits| != 4 then None
    else
      match (HexDigit(digits[0]), HexDigit(digits[1]), HexDigit(digits[2]), HexDigit(digits[3]))
      case (Some(a), Some(b), Some(c), Some(d)) => Some(0x1000 * a + 0x100 * b + 0x10 * c + d)
      case _ => None
  }

  predicate IsHigh(unit: nat) {
    0xD800 <= unit < 0xDC00
  }

  predicate IsLow(unit: nat) {
    0xDC00 <= unit < 0xE000
  }

  /** The character of a surrogate pair. */
  function Combined(high: nat, low: nat): (c: nat)
    requires IsHigh(high) && IsLow(low)
    ensures 0x10000 <= c < 0x110000
  {
    0x10000 + 0x400 * (high - 0xD800) + (low - 0xDC00)
  }

  function Prepend(piece: Text, rest: Option<Text>): Option<Text> {
    if rest.None? then None else Some(piece + rest.value)
  }

  /** The digits of a `\uXXXX` at the start of `e`. */
  function UnitAt(e: Text): (r: Option<nat>)
    ensures r.Some? ==> |e| >= 6 && e[0] == BACKSLASH && e[1] == LOWER_U && Unit(e[2..6]) == r
  {
    if |e| >= 6 && e[0] == BACKSLASH && e[1] == LOWER_U then Unit(e[2..6]) else None
  }

  /** The first character of a string body: what it stands for, and how many bytes spell it. */
  function First(e: Text): (r: Option<(Text, nat)>)
    requires e != []
    ensures r.Some? ==> 1 <= r.value.1 <= |e|
  {
    if e[0] == DQUOTE || e[0] < 0x20 then None
    else if e[0] != BACKSLASH then Some(([e[0]], 1))
    else if |e| < 2 then None
    else if e[1] != LOWER_U then
      var meaning := ShortMeaning(e[1]);
      if meaning.None? then None else Some(([meaning.value], 2))
    else
      var unit := UnitAt(e);
      if unit.None? || IsLow(unit.value) then None
      else if !IsHigh(unit.value) then Some((EncodeScalar(unit.value), 6))
      else
        var low := UnitAt(e[6..]);
        if low.None? || !IsLow(low.value) then None
        else Some((EncodeScalar(Combined(unit.value, low.value)), 12))
  }

  /** The text that an escaped string body stands for, if it is one. */
  function Unescape(e: Text): Option<Text> {
    if e == [] then Some([])
    else
      match First(e)
      case None => None
      case Some((meaning, n)) => Prepend(meaning, Unescape(e[n..]))
  }

  // The tables of section 7 of RFC 8259, digit by digit.

  /** The one-letter escapes and what they stand for. */
  lemma ShortExactly(letter: byte)
    ensures var letters: Text := Ascii("\"\\/bfnrt");
            var meanings: Text := [0x22, 0x5C, 0x2F, 0x08, 0x0C, 0x0A, 0x0D, 0x09];
            && (ShortMeaning(letter).Some? <==> letter in letters)
            && |letters| == 8
            && forall i :: 0 <= i < 8 && letters[i] == letter ==> ShortMeaning(letter) == Some(meanings[i])
  {
    assert Ascii("\"\\/bfnrt") == [34, 92, 47, 98, 102, 110, 114, 116];
  }

  lemma HexTables()
    ensures |Ascii("0123456789abcdef")| == |Ascii("0123456789ABCDEF")| == 16
    ensures forall v :: 0 <= v < 16 ==> Ascii("0123456789abcdef")[v] as int == if v < 10 then 48 + v else 87 + v
    ensures forall v :: 0 <= v < 16 ==> Ascii("0123456789ABCDEF")[v] as int == if v < 10 then 48 + v else 55 + v
  {
    assert Ascii("0123456789abcdef") == [48, 49, 50, 51, 52, 53, 54, 55, 56, 57, 97, 98, 99, 100, 101, 102];
    assert Ascii("0123456789ABCDEF") == [48, 49, 50, 51, 52, 53, 54, 55, 56, 57, 65, 66, 67, 68, 69, 70];
  }

  lemma HexExactly(b: byte)
    ensures var lower, upper := Ascii("0123456789abcdef"), Ascii("0123456789ABCDEF");
            && |lower| == |upper| == 16
            && (HexDigit(b).Some? ==> lower[HexDigit(b).value] == b || upper[HexDigit(b).value] == b)
            && forall v :: 0 <= v < 16 && (lower[v] == b || upper[v] == b) ==> HexDigit(b) == Some(v)
  {
    HexTables();
    hide Ascii;
  }

  lemma HexParts(a: nat, b: nat, c: nat, d: nat)
    requires a < 16 && b < 16 && c < 16 && d < 16
    ensures var u := 0x1000 * a + 0x100 * b + 0x10 * c + d;
            u / 0x1000 == a && u / 0x100 % 0x10 == b && u / 0x10 % 0x10 == c && u % 0x10 == d
  {
    var high, u := 0x10 * a + b, 0x1000 * a + 0x100 * b + 0x10 * c + d;
    assert u == 0x100 * high + (0x10 * c + d);
    assert u / 0x100 == high && high / 0x10 == a;
    assert u / 0x10 == 0x10 * high + c;
  }

  /** Four hex digits, the highest first. */
  lemma UnitExactly(digits: Text)
    ensures Unit(digits).Some? <==> |digits| == 4 && forall i :: 0 <= i < 4 ==> HexDigit(digits[i]).Some?
    ensures Unit(digits).Some? ==>
              var u := Unit(digits).value;
              && HexDigit(digits[0]) == Some(u / 0x1000) && HexDigit(digits[1]) == Some(u / 0x100 % 0x10)
              && HexDigit(digits[2]) == Some(u / 0x10 % 0x10) && HexDigit(digits[3]) == Some(u % 0x10)
  {
    hide HexDigit;
    if |digits| == 4 && forall i :: 0 <= i < 4 ==> HexDigit(digits[i]).Some? {
      HexParts(HexDigit(digits[0]).value, HexDigit(digits[1]).value, HexDigit(digits[2]).value,
               HexDigit(digits[3]).value);
    }
  }

  /** A surrogate pair holds the upper and the lower ten bits of a character beyond the first plane. */
  lemma CombinedExactly(high: nat, low: nat)
    requires 0xD800 <= high < 0xDC00 && 0xDC00 <= low < 0xE000
    ensures var bits := Combined(high, low) - 0x10000;
            high == 0xD800 + bits / 0x400 && low == 0xDC00 + bits % 0x400
  {
  }

  // All spellings of a text.

  /** One element of a string body: a byte as it is, `\letter`, `\uXXXX`, or a surrogate pair. */
  datatype Token = Raw(b: byte) | Short(letter: byte) | Escaped(digits: Text) | Pair(high: Text, low: Text) {
    predicate Valid() {
      match this
      case Raw(b) => b >= 0x20 && b != DQUOTE && b != BACKSLASH
      case Short(letter) => ShortMeaning(letter).Some?
      case Escaped(digits) => Unit(digits).Some? && !IsHigh(Unit(digits).value) && !IsLow(Unit(digits).value)
      case Pair(high, low) =>
        Unit(high).Some? && IsHigh(Unit(high).value) && Unit(low).Some? && IsLow(Unit(low).value)
    }

    function Spelling(): Text {
      match this
      case Raw(b) => [b]
      case Short(letter) => [BACKSLASH, letter]
      case Escaped(digits) => [BACKSLASH, LOWER_U] + digits
      case Pair(high, low) => [BACKSLASH, LOWER_U] + high + [BACKSLASH, LOWER_U] + low
    }

    function Meaning(): Text
      requires Valid()
    {
      match this
      case Raw(b) => [b]
      case Short(letter) => [ShortMeaning(letter).value]
      case Escaped(digits) => EncodeScalar(Unit(digits).value)
      case Pair(high, low) => EncodeScalar(Combined(Unit(high).value, Unit(low).value))
    }
  }

  ghost predicate AllValid(tokens: seq<Token>) {
    forall i :: 0 <= i < |tokens| ==> tokens[i].Valid()
  }

  function Spelling(tokens: seq<Token>): Text {
    if tokens == [] then [] else tokens[0].Spelling() + Spelling(tokens[1..])
  }

  function Meaning(tokens: seq<Token>): Text
    requires AllValid(tokens)
  {
    if tokens == [] then [] else tokens[0].Meaning() + Meaning(tokens[1..])
  }

  lemma UnitAtStart(digits: Text, rest: Text)
    requires Unit(digits).Some?
    ensures var e := [BACKSLASH, LOWER_U] + digits + rest; UnitAt(e) == Unit(digits) && e[6..] == rest
  {
    var e := [BACKSLASH, LOWER_U] + digits + rest;
    assert e[2..6] == digits;
  }

  lemma FirstPair(high: Text, low: Text, rest: Text)
    requires Pair(high, low).Valid()
    ensures First([BACKSLASH, LOWER_U] + high + ([BACKSLASH, LOWER_U] + low + rest)) ==
            Some((EncodeScalar(Combined(Unit(high).value, Unit(low).value)), 12))
  {
    UnitAtStart(high, [BACKSLASH, LOWER_U] + low + rest);
    UnitAtStart(low, rest);
  }

  /** The first character of a spelling is its first token. */
  lemma FirstToken(t: Token, rest: Text)
    requires t.Valid()
    ensures First(t.Spelling() + rest) == Some((t.Meaning(), |t.Spelling()|))
  {
    hide HexDigit, Combined;
    match t
    case Raw(b) =>
    case Short(letter) =>
    case Escaped(digits) => UnitAtStart(digits, rest);
    case Pair(high, low) =>
      FirstPair(high, low, rest);
      assert t.Spelling() + rest == [BACKSLASH, LOWER_U] + high + ([BACKSLASH, LOWER_U] + low + rest);
  }

  /** Unescaping reads one token and goes on behind it. */
  lemma UnescapeToken(t: Token, rest: Text)
    requires t.Valid()
    ensures Unescape(t.Spelling() + rest) == Prepend(t.Meaning(), Unescape(rest))
  {
    FirstToken(t, rest);
    Halves(t.Spelling(), rest);
  }

  /** The token that a body starts with. */
  lemma TokenAt(e: Text) returns (t: Token)
    requires e != [] && First(e).Some?
    ensures t.Valid() && t.Spelling() == e[..First(e).value.1] && t.Meaning() == First(e).value.0
  {
    if e[0] != BACKSLASH {
      t := Raw(e[0]);
    } else if e[1] != LOWER_U {
      t := Short(e[1]);
    } else if !IsHigh(UnitAt(e).value) {
      t := Escaped(e[2..6]);
    } else {
      t := PairAt(e);
    }
  }

  lemma PairAt(e: Text) returns (t: Token)
    requires UnitAt(e).Some? && IsHigh(UnitAt(e).value)
    requires UnitAt(e[6..]).Some? && IsLow(UnitAt(e[6..]).value)
    ensures t == Pair(e[2..6], e[6..][2..6]) && t.Valid() && t.Spelling() == e[..12]
  {
    t := Pair(e[2..6], e[6..][2..6]);
    assert e[6..12] == [BACKSLASH, LOWER_U] + e[6..][2..6];
    assert e[..6] == [BACKSLASH, LOWER_U] + e[2..6];
    assert e[..12] == e[..6] + e[6..12];
  }

  lemma {:induction false} UnescapeSpelled(tokens: seq<Token>)
    requires AllValid(tokens)
    ensures Unescape(Spelling(tokens)) == Some(Meaning(tokens))
  {
    if tokens != [] {
      UnescapeSpelled(tokens[1..]);
      UnescapeToken(tokens[0], Spelling(tokens[1..]));
    }
  }

  lemma {:induction false} TokensOf(e: Text) returns (tokens: seq<Token>)
    requires Unescape(e).Some?
    ensures AllValid(tokens) && Spelling(tokens) == e && Some(Meaning(tokens)) == Unescape(e)
    decreases |e|
  {
    hide First;
    tokens := [];
    if e != [] {
      var n := First(e).value.1;
      var t := TokenAt(e);
      var more := TokensOf(e[n..]);
      tokens := [t] + more;
      HeadTail(t, more);
      assert e == e[..n] + e[n..];
    }
  }

  /** Unescaping accepts exactly the spellings and gives each its meaning. */
  lemma UnescapeExactly(e: Text, text: Text)
    ensures Unescape(e) == Some(text) <==>
            exists tokens :: AllValid(tokens) && Spelling(tokens) == e && Meaning(tokens) == text
  {
    if Unescape(e) == Some(text) {
      var tokens := TokensOf(e);
      assert AllValid(tokens) && Spelling(tokens) == e && Meaning(tokens) == text;
    }
    forall tokens | AllValid(tokens) && Spelling(tokens) == e && Meaning(tokens) == text
      ensures Unescape(e) == Some(text)
    {
      UnescapeSpelled(tokens);
    }
  }

  lemma UnitPrefix(p: Text, whole: Text)
    requires p <= whole && UnitAt(p).Some?
    ensures UnitAt(whole) == UnitAt(p) && p[6..] <= whole[6..]
  {
    hide Unit;
    assert whole[2..6] == p[2..6];
  }

  /** What a body starts with does not depend on what comes behind it. */
  lemma FirstPrefix(p: Text, whole: Text)
    requires p != [] && p <= whole && First(p).Some?
    ensures First(whole) == First(p)
  {
    hide UnitAt, IsHigh, IsLow, ShortMeaning, EncodeScalar, Combined;
    if p[0] == BACKSLASH && p[1] == LOWER_U {
      UnitPrefix(p, whole);
      if IsHigh(UnitAt(p).value) {
        UnitPrefix(p[6..], whole[6..]);
      }
    }
  }

  lemma SpellingOne(tokens: seq<Token>, k: nat)
    requires 0 < |tokens| && k < |tokens|
    ensures Spelling(tokens[..k + 1]) == tokens[0].Spelling() + Spelling(tokens[1..][..k])
  {
    assert tokens[..k + 1][1..] == tokens[1..][..k];
  }

  /** A beginning that can be unescaped ends between two tokens. */
  lemma {:induction false} PrefixEnds(tokens: seq<Token>, p: Text) returns (k: nat)
    requires AllValid(tokens) && p <= Spelling(tokens) && Unescape(p).Some?
    ensures k <= |tokens| && p == Spelling(tokens[..k])
  {
    hide First;
    k := 0;
    if p != [] {
      var t, rest := tokens[0], Spelling(tokens[1..]);
      FirstToken(t, rest);
      FirstPrefix(p, t.Spelling() + rest);
      var n := |t.Spelling()|;
      assert t.Spelling() == Spelling(tokens)[..n] == p[..n];
      assert p[n..] <= rest;
      var more := PrefixEnds(tokens[1..], p[n..]);
      SpellingOne(tokens, more);
      k := more + 1;
      assert p == p[..n] + p[n..];
    }
  }

  /** Of the beginnings of a body, exactly those that end between two tokens can be unescaped. */
  lemma PrefixExactly(tokens: seq<Token>, p: Text)
    requires AllValid(tokens) && p <= Spelling(tokens)
    ensures Unescape(p).Some? <==> exists k :: 0 <= k <= |tokens| && p == Spelling(tokens[..k])
    ensures forall k :: 0 <= k <= |tokens| && p == Spelling(tokens[..k]) ==> Unescape(p) == Some(Meaning(tokens[..k]))
  {
    if Unescape(p).Some? {
      var k := PrefixEnds(tokens, p);
    }
    forall k | 0 <= k <= |tokens| && p == Spelling(tokens[..k])
      ensures Unescape(p) == Some(Meaning(tokens[..k]))
    {
      UnescapeSpelled(tokens[..k]);
    }
  }

  /** A spelling of one byte. */
  function TokenOf(b: byte): (t: Token)
    ensures t.Valid() && t.Meaning() == [b]
  {
    if b == DQUOTE || b == BACKSLASH then Short(b)
    else if b >= 0x20 then Raw(b)
    else
      var digits := [48, 48, if b < 16 then 48 else 49, Nibble(b % 16)];
      assert HexDigit(48) == Some(0) && HexDigit(49) == Some(1);
      assert Unit(digits) == Some(b as nat);
      Escaped(digits)
  }

  /** Every text has a spelling. */
  lemma {:induction false} EveryTextSpelled(text: Text) returns (tokens: seq<Token>)
    ensures AllValid(tokens) && Meaning(tokens) == text
  {
    tokens := [];
    if text != [] {
      var more := EveryTextSpelled(text[1..]);
      tokens := [TokenOf(text[0])] + more;
      HeadTail(TokenOf(text[0]), more);
    }
  }

  function Nibble(n: byte): (b: byte)
    requires n < 16
    ensures HexDigit(b) == Some(n as nat)
  {
    if n < 10 then 48 + n else 87 + n
  }

  /** Every quote in `s` stands behind a backslash, except possibly at its very start. */
  predicate QuotesEscaped(s: Text) {
    forall i :: 1 <= i < |s| && s[i] == DQUOTE ==> s[i - 1] == BACKSLASH
  }

  lemma TokenQuotes(t: Token)
    requires t.Valid()
    ensures t.Spelling() != [] && t.Spelling()[0] != DQUOTE && QuotesEscaped(t.Spelling())
  {
  }

  /** In a string body every quote is escaped. */
  lemma {:induction false} SpellingQuotes(tokens: seq<Token>)
    requires AllValid(tokens)
    ensures QuotesEscaped(Spelling(tokens))
    ensures Spelling(tokens) != [] ==> Spelling(tokens)[0] != DQUOTE
  {
    if tokens != [] {
      TokenQuotes(tokens[0]);
      SpellingQuotes(tokens[1..]);
    }
  }
}
