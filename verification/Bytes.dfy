/**
 Byte strings. A Rust `&str` is modelled by its UTF-8 bytes, so lengths, slices and
 delimiter searches mean exactly what they mean in the source.
 */
module Bytes {
  import opened Seqs

  newtype byte = x: int | 0 <= x < 256

  type Text = seq<byte>

  const NUL: byte := 0
  const LF: byte := 10
  const CR: byte := 13
  const DQUOTE: byte := 34
  const SQUOTE: byte := 39
  const COMMA: byte := 44
  const DOT: byte := 46
  const ZERO: byte := 48
  const EQUALS: byte := 61
  const BACKSLASH: byte := 92
  const BAR: byte := 124

  /** The bytes of an ASCII literal. */
  function Ascii(s: string): (r: Text)
    requires forall i :: 0 <= i < |s| ==> s[i] < 128 as char
    ensures |r| == |s|
    ensures forall i :: 0 <= i < |s| ==> r[i] as int == s[i] as int
  {
    seq(|s|, i requires 0 <= i < |s| => s[i] as int as byte)
  }

  predicate NulFree(s: Text) {
    NUL !in s
  }

  /** Position of the first `b` at or after `from`, or `|s|`. */
  function Find(s: Text, b: byte, from: nat := 0): (i: nat)
    requires from <= |s|
    ensures from <= i <= |s|
    ensures forall j :: from <= j < i ==> s[j] != b
    ensures i < |s| ==> s[i] == b
    decreases |s| - from
  {
    if from == |s| || s[from] == b then from else Find(s, b, from + 1)
  }

  /** Concatenation of all pieces, in order. */
  function Concat(pieces: seq<Text>): Text {
    if pieces == [] then [] else pieces[0] + Concat(pieces[1..])
  }

  lemma {:induction false} ConcatAppend(a: seq<Text>, b: seq<Text>)
    ensures Concat(a + b) == Concat(a) + Concat(b)
  {
    if a == [] {
      assert a + b == b;
    } else {
      ConcatAppend(a[1..], b);
      DropInFirst(a, b, 1);
      assert Concat(a + b) == a[0] + Concat(a[1..] + b);
    }
  }

  lemma ConcatSnoc(a: seq<Text>, t: Text)
    ensures Concat(a + [t]) == Concat(a) + t
  {
    ConcatAppend(a, [t]);
    assert [t][1..] == [];
  }
}
