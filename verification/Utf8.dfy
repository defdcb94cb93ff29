/** UTF-8 well-formedness (section 4 of RFC 3629) and the char boundaries of Rust's `str`. */
module Utf8 {
  import opened Bytes
  import opened Seqs

  predicate IsTail(b: byte) {
    0x80 <= b <= 0xBF
  }

  /** Length of the well-formed character that `s` starts with, or 0 if there is none. */
  function CharLength(s: Text): (n: nat)
    ensures n <= 4 && n <= |s|
    ensures n > 0 ==> !IsTail(s[0])
    ensures forall i :: 1 <= i < n ==> IsTail(s[i])
  {
    if s == [] then 0
    else if s[0] <= 0x7F then 1
    else if 0xC2 <= s[0] <= 0xDF then
      if |s| >= 2 && IsTail(s[1]) then 2 else 0
    else if 0xE0 <= s[0] <= 0xEF then
      if |s| >= 3 && IsTail(s[1]) && IsTail(s[2])
         && (s[0] == 0xE0 ==> s[1] >= 0xA0) && (s[0] == 0xED ==> s[1] <= 0x9F)
      then 3 else 0
    else if 0xF0 <= s[0] <= 0xF4 then
      if |s| >= 4 && IsTail(s[1]) && IsTail(s[2]) && IsTail(s[3])
         && (s[0] == 0xF0 ==> s[1] >= 0x90) && (s[0] == 0xF4 ==> s[1] <= 0x8F)
      then 4 else 0
    else 0
  }

  predicate ValidUtf8(s: Text) {
    s == [] || (CharLength(s) > 0 && ValidUtf8(s[CharLength(s)..]))
  }

  /** `str::is_char_boundary`. */
  predicate IsBoundary(s: Text, i: nat) {
    i == 0 || i == |s| || (i < |s| && !IsTail(s[i]))
  }

  /** Well-formedness of a character depends only on its own bytes. */
  lemma CharLengthLocal(a: Text, b: Text)
    requires CharLength(a) > 0
    ensures CharLength(a + b) == CharLength(a)
  {
    var n := CharLength(a);
    assert forall i :: 0 <= i < |a| ==> (a + b)[i] == a[i];
  }

  lemma {:induction false} ValidConcat(a: Text, b: Text)
    requires ValidUtf8(a) && ValidUtf8(b)
    ensures ValidUtf8(a + b)
  {
    if a == [] {
      assert a + b == b;
    } else {
      var n := CharLength(a);
      CharLengthLocal(a, b);
      ValidConcat(a[n..], b);
      DropInFirst(a, b, n);
    }
  }

  /** Cutting well-formed text at a char boundary leaves two well-formed halves. */
  lemma {:induction false} ValidSplit(s: Text, i: nat)
    requires ValidUtf8(s) && i <= |s| && IsBoundary(s, i)
    ensures ValidUtf8(s[..i]) && ValidUtf8(s[i..])
  {
    if i == 0 {
      assert s[..0] == [] && s[0..] == s;
    } else if i == |s| {
      assert s[..i] == s && s[i..] == [];
    } else {
      var n := CharLength(s);
      assert n <= i;
      var rest := s[n..];
      assert IsBoundary(rest, i - n);
      ValidSplit(rest, i - n);
      assert rest[i - n..] == s[i..];
      assert s[..i][n..] == rest[..i - n];
      CharLengthPrefix(s, i);
    }
  }

  lemma CharLengthPrefix(s: Text, i: nat)
    requires 0 < CharLength(s) <= i <= |s|
    ensures CharLength(s[..i]) == CharLength(s)
  {
    assert forall j :: 0 <= j < i ==> s[..i][j] == s[j];
  }

  /** At most three tail bytes stand in a row, so a boundary is never far to the left. */
  lemma {:induction false} BoundaryNearby(s: Text, i: nat)
    requires ValidUtf8(s) && 3 <= i <= |s|
    ensures IsBoundary(s, i) || IsBoundary(s, i - 1) || IsBoundary(s, i - 2) || IsBoundary(s, i - 3)
  {
    if i < |s| {
      var n := CharLength(s);
      if i < n {
        assert i - 3 == 0;
      } else {
        var rest := s[n..];
        assert forall j :: 0 <= j < |rest| ==> rest[j] == s[n + j];
        if i - n <= 2 {
          assert n <= i;
          assert rest == [] || !IsTail(rest[0]);
        } else {
          BoundaryNearby(rest, i - n);
        }
      }
    }
  }

  lemma {:induction false} ValidConcatAll(pieces: seq<Text>)
    requires forall p :: p in pieces ==> ValidUtf8(p)
    ensures ValidUtf8(Concat(pieces))
  {
    if pieces != [] {
      ValidConcatAll(pieces[1..]);
      ValidConcat(pieces[0], Concat(pieces[1..]));
    }
  }

  lemma {:induction false} AsciiValid(s: Text)
    requires forall i :: 0 <= i < |s| ==> s[i] < 0x80
    ensures ValidUtf8(s)
  {
    if s != [] {
      AsciiValid(s[1..]);
    }
  }

  predicate IsScalar(c: nat) {
    c < 0x110000 && !(0xD800 <= c < 0xE000)
  }

  /** The UTF-8 encoding of a Unicode scalar value. */
  function EncodeScalar(c: nat): (s: Text)
    requires IsScalar(c)
    ensures 1 <= |s| <= 4
  {
    if c < 0x80 then [c as byte]
    else if c < 0x800 then [(0xC0 + c / 0x40) as byte, (0x80 + c % 0x40) as byte]
    else if c < 0x10000 then
      [(0xE0 + c / 0x1000) as byte, (0x80 + c / 0x40 % 0x40) as byte, (0x80 + c % 0x40) as byte]
    else
      [(0xF0 + c / 0x40000) as byte, (0x80 + c / 0x1000 % 0x40) as byte, (0x80 + c / 0x40 % 0x40) as byte,
       (0x80 + c % 0x40) as byte]
  }

  lemma EncodedLength(c: nat)
    requires IsScalar(c)
    ensures CharLength(EncodeScalar(c)) == |EncodeScalar(c)|
  {
  }

  /** The number that the bits of a character of two, three or four bytes spell. */
  function BitsOf(s: Text): int
    requires 1 <= |s| <= 4
  {
    match |s|
    case 1 => s[0] as int
    case 2 => (s[0] as int - 0xC0) * 0x40 + (s[1] as int - 0x80)
    case 3 => (s[0] as int - 0xE0) * 0x1000 + (s[1] as int - 0x80) * 0x40 + (s[2] as int - 0x80)
    case _ => (s[0] as int - 0xF0) * 0x40000 + (s[1] as int - 0x80) * 0x1000
              + (s[2] as int - 0x80) * 0x40 + (s[3] as int - 0x80)
  }

  lemma SixBits(c: nat)
    ensures c == c / 0x40 * 0x40 + c % 0x40
    ensures c / 0x40 / 0x40 == c / 0x1000 && c / 0x1000 / 0x40 == c / 0x40000
  {
  }

  /** The bits of a scalar value stand in its encoding as section 3 of RFC 3629 says. */
  lemma EncodedBits(c: nat)
    requires IsScalar(c)
    ensures BitsOf(EncodeScalar(c)) == c
    ensures |EncodeScalar(c)| == if c < 0x80 then 1 else if c < 0x800 then 2 else if c < 0x10000 then 3 else 4
  {
    SixBits(c);
    SixBits(c / 0x40);
    SixBits(c / 0x1000);
    Places(c, c / 0x40, c / 0x1000, c / 0x40000);
  }

  lemma Places(c: nat, c6: nat, c12: nat, c18: nat)
    requires c == c6 * 0x40 + c % 0x40 && c6 == c12 * 0x40 + c6 % 0x40 && c12 == c18 * 0x40 + c12 % 0x40
    ensures c == c12 * 0x1000 + c6 % 0x40 * 0x40 + c % 0x40
    ensures c == c18 * 0x40000 + c12 % 0x40 * 0x1000 + c6 % 0x40 * 0x40 + c % 0x40
  {
  }

  lemma LastSix(high: nat, low: nat)
    requires low < 0x40
    ensures (high * 0x40 + low) / 0x40 == high && (high * 0x40 + low) % 0x40 == low
  {
  }

  /** Every well-formed character is the encoding of a scalar value. */
  lemma ScalarAt(s: Text) returns (c: nat)
    requires CharLength(s) > 0
    ensures IsScalar(c) && EncodeScalar(c) == s[..CharLength(s)]
  {
    var t := s[..CharLength(s)];
    c := BitsOf(t);
    FirstByte(s);
    hide CharLength;
    match |t|
    case 1 =>
    case 2 => LastSix(t[0] as nat - 0xC0, t[1] as nat - 0x80);
    case 3 => ThreeDigits(t[0] as nat - 0xE0, t[1] as nat - 0x80, t[2] as nat - 0x80);
    case _ => FourDigits(t[0] as nat - 0xF0, t[1] as nat - 0x80, t[2] as nat - 0x80, t[3] as nat - 0x80);
  }

  /** The ranges of the table in section 4 of RFC 3629. */
  lemma FirstByte(s: Text)
    requires CharLength(s) > 0
    ensures match CharLength(s)
            case 1 => s[0] <= 0x7F
            case 2 => 0xC2 <= s[0] <= 0xDF
            case 3 => 0xE0 <= s[0] <= 0xEF && (s[0] == 0xE0 ==> s[1] >= 0xA0) && (s[0] == 0xED ==> s[1] <= 0x9F)
            case _ => 0xF0 <= s[0] <= 0xF4 && (s[0] == 0xF0 ==> s[1] >= 0x90) && (s[0] == 0xF4 ==> s[1] <= 0x8F)
  {
  }

  lemma ThreeDigits(a: nat, b: nat, c: nat)
    requires b < 0x40 && c < 0x40
    ensures var n := a * 0x1000 + b * 0x40 + c; n / 0x1000 == a && n / 0x40 % 0x40 == b && n % 0x40 == c
  {
    var n := a * 0x1000 + b * 0x40 + c;
    LastSix(a * 0x40 + b, c);
    assert n == (a * 0x40 + b) * 0x40 + c;
    LastSix(a, b);
    SixBits(n);
  }

  lemma FourDigits(a: nat, b: nat, c: nat, d: nat)
    requires b < 0x40 && c < 0x40 && d < 0x40
    ensures var n := a * 0x40000 + b * 0x1000 + c * 0x40 + d;
            n / 0x40000 == a && n / 0x1000 % 0x40 == b && n / 0x40 % 0x40 == c && n % 0x40 == d
  {
    var n, m := a * 0x40000 + b * 0x1000 + c * 0x40 + d, a * 0x1000 + b * 0x40 + c;
    LastSix(m, d);
    assert n == m * 0x40 + d;
    ThreeDigits(a, b, c);
    SixBits(n);
    SixBits(m);
  }

  function EncodeAll(scalars: seq<nat>): Text
    requires forall c :: c in scalars ==> IsScalar(c)
  {
    if scalars == [] then [] else EncodeScalar(scalars[0]) + EncodeAll(scalars[1..])
  }

  lemma {:induction false} ScalarsOf(s: Text) returns (scalars: seq<nat>)
    requires ValidUtf8(s)
    ensures forall c :: c in scalars ==> IsScalar(c)
    ensures EncodeAll(scalars) == s
    decreases |s|
  {
    hide EncodeScalar, CharLength;
    scalars := [];
    if s != [] {
      var n := CharLength(s);
      var c := ScalarAt(s);
      var more := ScalarsOf(s[n..]);
      scalars := [c] + more;
      assert scalars[1..] == more && s == s[..n] + s[n..];
    }
  }

  lemma {:induction false} EncodedAllValid(scalars: seq<nat>)
    requires forall c :: c in scalars ==> IsScalar(c)
    ensures ValidUtf8(EncodeAll(scalars))
  {
    hide EncodeScalar;
    if scalars != [] {
      EncodedScalarValid(scalars[0]);
      EncodedAllValid(scalars[1..]);
      ValidConcat(EncodeScalar(scalars[0]), EncodeAll(scalars[1..]));
    }
  }

  /** Well-formed are exactly the encodings of sequences of scalar values. */
  lemma ValidExactly(s: Text)
    ensures ValidUtf8(s) <==>
            exists scalars: seq<nat> ::
              (forall c :: c in scalars ==> IsScalar(c)) && EncodeAll(scalars) == s
  {
    if ValidUtf8(s) {
      var scalars := ScalarsOf(s);
    }
    forall scalars: seq<nat> | (forall c :: c in scalars ==> IsScalar(c)) && EncodeAll(scalars) == s
      ensures ValidUtf8(s)
    {
      EncodedAllValid(scalars);
    }
  }

  /** A boundary is exactly a place that cuts well-formed text into two well-formed halves. */
  lemma BoundaryExactly(s: Text, i: nat)
    requires ValidUtf8(s) && i <= |s|
    ensures IsBoundary(s, i) <==> ValidUtf8(s[..i]) && ValidUtf8(s[i..])
  {
    if IsBoundary(s, i) {
      ValidSplit(s, i);
    } else {
      assert CharLength(s[i..]) == 0;
    }
  }

  /** The encoding of a scalar value is one well-formed character. */
  lemma EncodedScalarValid(c: nat)
    requires IsScalar(c)
    ensures CharLength(EncodeScalar(c)) == |EncodeScalar(c)| && ValidUtf8(EncodeScalar(c))
  {
    EncodedLength(c);
    var s := EncodeScalar(c);
    assert s[|s|..] == [];
  }
}
