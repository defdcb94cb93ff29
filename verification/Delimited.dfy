/** `str::split`, `join`, `split_once` and `rsplit_once` on a one-byte delimiter. */
module Delimited {
  import opened Results
  import opened Bytes
  import opened Seqs

  function Split(s: Text, d: byte): (fs: seq<Text>)
    ensures |fs| > 0
    ensures forall i :: 0 <= i < |fs| ==> d !in fs[i]
    decreases |s|
  {
    var i := Find(s, d);
    if i == |s| then [s]
    else
      var rest := Split(s[i + 1..], d);
      [s[..i]] + rest
  }

  function Join(fs: seq<Text>, d: byte): Text {
    if fs == [] then []
    else if |fs| == 1 then fs[0]
    else fs[0] + [d] + Join(fs[1..], d)
  }

  lemma FindFirst(a: Text, d: byte, b: Text)
    requires d !in a
    ensures Find(a + [d] + b, d) == |a|
  {
    var s := a + [d] + b;
    assert s[|a|] == d;
    assert forall j :: 0 <= j < |a| ==> s[j] == a[j] && a[j] in a;
  }

  lemma FindNone(a: Text, d: byte)
    requires d !in a
    ensures Find(a, d) == |a|
  {
    assert forall j :: 0 <= j < |a| ==> a[j] in a;
  }

  lemma CutOut(a: Text, d: byte, b: Text)
    ensures (a + [d] + b)[..|a|] == a && (a + [d] + b)[|a| + 1..] == b
  {
  }

  /** Splitting undoes joining when no field contains the delimiter. */
  lemma {:induction false} SplitJoin(fs: seq<Text>, d: byte)
    requires fs != [] && forall i :: 0 <= i < |fs| ==> d !in fs[i]
    ensures Split(Join(fs, d), d) == fs
  {
    if |fs| == 1 {
      FindNone(fs[0], d);
    } else {
      var rest := Join(fs[1..], d);
      var s := Join(fs, d);
      FindFirst(fs[0], d, rest);
      CutOut(fs[0], d, rest);
      SplitJoin(fs[1..], d);
      Cons(fs);
    }
  }

  /** Joining undoes splitting, always. */
  lemma {:induction false} JoinSplit(s: Text, d: byte)
    ensures Join(Split(s, d), d) == s
    decreases |s|
  {
    var i := Find(s, d);
    if i < |s| {
      JoinSplit(s[i + 1..], d);
      var fs := Split(s, d);
      assert fs[1..] == Split(s[i + 1..], d);
      assert s == s[..i] + [d] + s[i + 1..];
    }
  }

  lemma {:induction false} JoinAppend(fs: seq<Text>, t: Text, d: byte)
    requires fs != []
    ensures Join(fs + [t], d) == Join(fs, d) + [d] + t
  {
    if |fs| == 1 {
      assert (fs + [t])[1..] == [t];
    } else {
      JoinAppend(fs[1..], t, d);
      assert (fs + [t])[1..] == fs[1..] + [t];
    }
  }

  lemma {:induction false} JoinHas(fs: seq<Text>, d: byte, b: byte)
    requires b != d
    ensures b in Join(fs, d) <==> exists i :: 0 <= i < |fs| && b in fs[i]
  {
    if |fs| > 1 {
      JoinHas(fs[1..], d, b);
      assert forall i :: 1 <= i < |fs| ==> fs[i] == fs[1..][i - 1];
      assert forall i :: 0 <= i < |fs| - 1 ==> fs[1..][i] == fs[i + 1];
    }
  }

  function SplitOnce(s: Text, d: byte): Option<(Text, Text)> {
    var i := Find(s, d);
    if i == |s| then None else Some((s[..i], s[i + 1..]))
  }

  lemma SplitOnceAt(a: Text, d: byte, b: Text)
    requires d !in a
    ensures SplitOnce(a + [d] + b, d) == Some((a, b))
  {
    FindFirst(a, d, b);
    CutOut(a, d, b);
  }

  function RSplitOnce(s: Text, d: byte): Option<(Text, Text)> {
    if s == [] then None
    else if s[|s| - 1] == d then Some((s[..|s| - 1], []))
    else
      match RSplitOnce(s[..|s| - 1], d)
      case None => None
      case Some((a, b)) => Some((a, b + [s[|s| - 1]]))
  }

  /** The last delimiter splits: what follows it is free of delimiters. */
  lemma {:induction false} RSplitOnceAt(a: Text, d: byte, b: Text)
    requires d !in b
    ensures RSplitOnce(a + [d] + b, d) == Some((a, b))
  {
    var s := a + [d] + b;
    if b == [] {
      assert s[..|s| - 1] == a;
    } else {
      var n := |b| - 1;
      RSplitOnceAt(a, d, b[..n]);
      assert s[..|s| - 1] == a + [d] + b[..n];
      assert b[n] in b && b == b[..n] + [b[n]];
    }
  }

  lemma {:induction false} RSplitOnceParts(s: Text, d: byte)
    ensures RSplitOnce(s, d).None? <==> d !in s
    ensures RSplitOnce(s, d).Some? ==>
              var (a, b) := RSplitOnce(s, d).value; s == a + [d] + b && d !in b
  {
    if s != [] {
      RSplitOnceParts(s[..|s| - 1], d);
      assert s == s[..|s| - 1] + [s[|s| - 1]];
    }
  }
}
