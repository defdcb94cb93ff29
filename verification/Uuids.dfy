/** The texts `Uuid::parse_str` accepts: simple, hyphenated, braced and URN forms. */
module Uuids {
  import opened Bytes

  const HYPHEN: byte := 45

  predicate IsHex(b: byte) {
    48 <= b <= 57 || 65 <= b <= 70 || 97 <= b <= 102
  }

  predicate Hyphenated(s: Text) {
    |s| == 36 && forall i :: 0 <= i < 36 ==> if i in {8, 13, 18, 23} then s[i] == HYPHEN else IsHex(s[i])
  }

  predicate Simple(s: Text) {
    |s| == 32 && forall i :: 0 <= i < 32 ==> IsHex(s[i])
  }

  predicate IsUuid(s: Text) {
    || Simple(s)
    || Hyphenated(s)
    || (|s| == 38 && s[0] == 123 && s[37] == 125 && Hyphenated(s[1..37]))
    || (|s| == 45 && s[..9] == Ascii("urn:uuid:") && Hyphenated(s[9..]))
  }

  /** The groups of digits that the forms are made of. */
  datatype Groups = Groups(a: Text, b: Text, c: Text, d: Text, e: Text) {
    predicate Valid() {
      && |a| == 8 && |b| == 4 && |c| == 4 && |d| == 4 && |e| == 12
      && HexOnly(a) && HexOnly(b) && HexOnly(c) && HexOnly(d) && HexOnly(e)
    }
  }

  predicate HexOnly(s: Text) {
    forall i :: 0 <= i < |s| ==> s[i] in Ascii("0123456789abcdefABCDEF")
  }

  function WithHyphens(g: Groups): Text {
    g.a + Ascii("-") + g.b + Ascii("-") + g.c + Ascii("-") + g.d + Ascii("-") + g.e
  }

  lemma HexDigits(b: byte)
    ensures IsHex(b) <==> b in Ascii("0123456789abcdefABCDEF")
  {
    assert Ascii("0123456789abcdefABCDEF") ==
           [48, 49, 50, 51, 52, 53, 54, 55, 56, 57, 97, 98, 99, 100, 101, 102, 65, 66, 67, 68, 69, 70];
  }

  lemma HyphenatedGroups(s: Text) returns (g: Groups)
    requires Hyphenated(s)
    ensures g.Valid() && s == WithHyphens(g)
  {
    hide IsHex, Ascii;
    g := Groups(s[..8], s[9..13], s[14..18], s[19..23], s[24..]);
    assert Ascii("-") == [HYPHEN];
    assert s == g.a + [s[8]] + g.b + [s[13]] + g.c + [s[18]] + g.d + [s[23]] + g.e;
    forall i | 0 <= i < 36 && i !in {8, 13, 18, 23}
      ensures s[i] in Ascii("0123456789abcdefABCDEF")
    {
      HexDigits(s[i]);
    }
  }

  lemma GroupsHyphenated(g: Groups)
    requires g.Valid()
    ensures Hyphenated(WithHyphens(g)) && |WithHyphens(g)| == 36
  {
    hide IsHex, Ascii, WithHyphens;
    assert Ascii("-") == [45];
    var s := WithHyphens(g);
    HyphenPlaces(g);
    forall i | 0 <= i < 36 && i !in {8, 13, 18, 23}
      ensures IsHex(s[i])
    {
      HexDigits(s[i]);
    }
  }

  lemma HyphenPlaces(g: Groups)
    requires g.Valid() && Ascii("-") == [45]
    ensures var s := WithHyphens(g);
            && |s| == 36 && s[8] == s[13] == s[18] == s[23] == 45
            && (forall i :: 0 <= i < 8 ==> s[i] == g.a[i]) && (forall i :: 9 <= i < 13 ==> s[i] == g.b[i - 9])
            && (forall i :: 14 <= i < 18 ==> s[i] == g.c[i - 14]) && (forall i :: 19 <= i < 23 ==> s[i] == g.d[i - 19])
            && (forall i :: 24 <= i < 36 ==> s[i] == g.e[i - 24])
  {
    hide Ascii;
  }

  /** The accepted texts: 32 digits, five groups with hyphens, those in braces, or as a URN. */
  lemma UuidExactly(s: Text)
    ensures IsUuid(s) <==>
            || (|s| == 32 && HexOnly(s))
            || exists g: Groups ::
                 && g.Valid()
                 && (s == WithHyphens(g) || s == Ascii("{") + WithHyphens(g) + Ascii("}")
                     || s == Ascii("urn:uuid:") + WithHyphens(g))
  {
    hide IsHex, Hyphenated, WithHyphens, Ascii, Groups.Valid;
    forall b: byte
      ensures IsHex(b) <==> b in Ascii("0123456789abcdefABCDEF")
    {
      HexDigits(b);
    }
    assert Ascii("{") == [123] && Ascii("}") == [125] && |Ascii("urn:uuid:")| == 9;
    if Hyphenated(s) {
      var g := HyphenatedGroups(s);
    }
    if |s| == 38 && Hyphenated(s[1..37]) {
      var g := HyphenatedGroups(s[1..37]);
      assert s == [s[0]] + s[1..37] + [s[37]];
    }
    if |s| == 45 && Hyphenated(s[9..]) {
      var g := HyphenatedGroups(s[9..]);
      assert s == s[..9] + s[9..];
    }
    forall g: Groups | g.Valid()
                       && (s == WithHyphens(g) || s == Ascii("{") + WithHyphens(g) + Ascii("}")
                           || s == Ascii("urn:uuid:") + WithHyphens(g))
      ensures IsUuid(s)
    {
      GroupsHyphenated(g);
      assert s != WithHyphens(g) && |s| == 38 ==> s[1..37] == WithHyphens(g);
      assert s != WithHyphens(g) && |s| == 45 ==> s[..9] == Ascii("urn:uuid:") && s[9..] == WithHyphens(g);
    }
  }
}
