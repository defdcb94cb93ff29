/**
 Where a delete or insert leaves the other records, and exactly when it changes what `read` gives
 for a key it does not target.
 */
module ReadOrder {
  import opened Results
  import opened Bytes
  import opened Seqs
  import opened PoolLayout
  import opened PoolSpec

  // Counting.

  lemma {:induction false} CountWithin(rs: seq<Record>, keys: set<Text>)
    ensures MatchCount(rs, keys) <= |rs|
  {
    if rs != [] {
      CountWithin(rs[1..], keys);
    }
  }

  /** The records of `rs` that are not removed. */
  function Survivors(rs: seq<Record>, keys: set<Text>): nat {
    CountWithin(rs, keys);
    |rs| - MatchCount(rs, keys)
  }

  lemma SurvivorsConcat(a: seq<Record>, b: seq<Record>, keys: set<Text>)
    ensures Survivors(a + b, keys) == Survivors(a, keys) + Survivors(b, keys)
  {
    MatchCountConcat(a, b, keys);
  }

  lemma CountOne(x: Record, keys: set<Text>)
    ensures MatchCount([x], keys) == if x.key in keys then 1 else 0
    ensures Survivors([x], keys) == if x.key in keys then 0 else 1
  {
    assert [x][1..] == [];
  }

  /** How many records a walk from `i` removes before position `p`. */
  function HolesBefore(rs: seq<Record>, i: nat, p: nat, keys: set<Text>): nat
    requires p <= |rs|
  {
    if i <= p then MatchCount(rs[i..p], keys) else 0
  }

  /** How long the pool is once a walk from `i` is over. */
  function LengthAfter(rs: seq<Record>, i: nat, keys: set<Text>): (n: nat)
    requires i <= |rs|
    ensures i <= n <= |rs|
  {
    i + Survivors(rs[i..], keys)
  }

  // One round of the walk.

  lemma HolesHead(rs: seq<Record>, i: nat, p: nat, keys: set<Text>)
    requires i < p <= |rs|
    ensures HolesBefore(rs, i, p, keys) ==
            (if rs[i].key in keys then 1 else 0) + HolesBefore(rs, i + 1, p, keys)
  {
    assert rs[i..p] == [rs[i]] + rs[i + 1..p];
    MatchCountConcat([rs[i]], rs[i + 1..p], keys);
    CountOne(rs[i], keys);
  }

  /** The pieces of a pool around a swap-removal at `i`. */
  lemma RemovedPieces(rs: seq<Record>, i: nat)
    requires i < |rs| - 1
    ensures var s, last, mid := SwapRemove(rs, i), |rs| - 1, rs[i + 1..|rs| - 1];
            && rs[i..] == [rs[i]] + (mid + [rs[last]]) && s[i..] == [rs[last]] + mid
            && rs[..last] == rs[..i + 1] + mid && s == s[..i + 1] + mid
  {
  }

  /** The same around a later position. */
  lemma RemovedTail(rs: seq<Record>, i: nat, j: nat)
    requires i < j <= |rs| - 1
    ensures var s, last := SwapRemove(rs, i), |rs| - 1;
            && rs[j..] == rs[j..last] + [rs[last]] && s[j..] == rs[j..last]
            && rs[..last] == rs[..j] + rs[j..last] && s == s[..j] + rs[j..last]
  {
  }

  lemma RemovedAt(rs: seq<Record>, i: nat)
    requires i < |rs|
    ensures var s, last := SwapRemove(rs, i), |rs| - 1;
            |s| == last && forall j :: 0 <= j < last ==> s[j] == if j == i then rs[last] else rs[j]
  {
  }

  lemma NoHoles(rs: seq<Record>, i: nat, p: nat, keys: set<Text>)
    requires p <= i && p <= |rs|
    ensures HolesBefore(rs, i, p, keys) == 0 && Survivors([], keys) == 0
  {
    if p == i {
      assert rs[i..i] == [];
    }
  }

  lemma PassedCounts(rs: seq<Record>, i: nat, keys: set<Text>)
    requires i < |rs| && rs[i].key !in keys
    ensures LengthAfter(rs, i + 1, keys) == LengthAfter(rs, i, keys)
    ensures forall p :: 0 <= p <= |rs| ==> HolesBefore(rs, i + 1, p, keys) == HolesBefore(rs, i, p, keys)
  {
    assert rs[i..] == [rs[i]] + rs[i + 1..];
    SurvivorsConcat([rs[i]], rs[i + 1..], keys);
    CountOne(rs[i], keys);
    forall p | 0 <= p <= |rs|
      ensures HolesBefore(rs, i + 1, p, keys) == HolesBefore(rs, i, p, keys)
    {
      if i < p {
        HolesHead(rs, i, p, keys);
      } else if i == p {
        assert rs[i..i] == [];
      }
    }
  }

  /** After a swap-removal at `i` the last record stands at `i`, and all others where they did. */
  lemma RemovedCounts(rs: seq<Record>, i: nat, keys: set<Text>)
    requires i < |rs| && rs[i].key in keys
    ensures var s := SwapRemove(rs, i); LengthAfter(s, i, keys) == LengthAfter(rs, i, keys) < |rs|
    ensures i < |rs| - 1 && rs[|rs| - 1].key !in keys ==> i < LengthAfter(rs, i, keys)
  {
    var s, last := SwapRemove(rs, i), |rs| - 1;
    CountOne(rs[i], keys);
    CountOne(rs[last], keys);
    if i < last {
      var mid := rs[i + 1..last];
      RemovedPieces(rs, i);
      SurvivorsConcat([rs[i]], mid + [rs[last]], keys);
      SurvivorsConcat(mid, [rs[last]], keys);
      SurvivorsConcat([rs[last]], mid, keys);
    } else {
      assert rs[i..] == [rs[i]] && s[i..] == [];
    }
  }

  /** The holes it leaves before a later position: one less, unless the last record is another hole. */
  lemma RemovedHoles(rs: seq<Record>, i: nat, p: nat, keys: set<Text>)
    requires i < p < |rs| && rs[i].key in keys
    ensures HolesBefore(rs, i, p, keys) ==
            HolesBefore(SwapRemove(rs, i), i, p, keys) + if rs[|rs| - 1].key in keys then 0 else 1
  {
    var s, last := SwapRemove(rs, i), |rs| - 1;
    HolesHead(rs, i, p, keys);
    HolesHead(s, i, p, keys);
    assert s[i + 1..p] == rs[i + 1..p];
  }

  // The closed form.

  /** The survivor that stands `t` survivors before the last one. */
  function FromRight(rs: seq<Record>, keys: set<Text>, t: nat): Record
    requires t < Survivors(rs, keys)
  {
    var n := |rs| - 1;
    assert rs != [] ==> rs == rs[..n] + [rs[n]];
    assert rs != [] by {
      CountWithin(rs, keys);
    }
    SurvivorsConcat(rs[..n], [rs[n]], keys);
    CountOne(rs[n], keys);
    if rs[n].key in keys then FromRight(rs[..n], keys, t)
    else if t == 0 then rs[n]
    else FromRight(rs[..n], keys, t - 1)
  }

  lemma FromRightStep(rs: seq<Record>, keys: set<Text>, t: nat)
    requires rs != [] && t < Survivors(rs, keys)
    ensures var last := |rs| - 1;
            var t' := if rs[last].key in keys then t else t - 1;
            0 <= t' ==> t' < Survivors(rs[..last], keys) && FromRight(rs, keys, t) == FromRight(rs[..last], keys, t')
  {
    Snoc(rs);
    SurvivorsConcat(rs[..|rs| - 1], [rs[|rs| - 1]], keys);
    CountOne(rs[|rs| - 1], keys);
  }

  /** It depends only on the part that holds enough survivors. */
  lemma {:induction false} FromRightSuffix(a: seq<Record>, b: seq<Record>, keys: set<Text>, t: nat)
    requires t < Survivors(b, keys)
    ensures t < Survivors(a + b, keys) && FromRight(a + b, keys, t) == FromRight(b, keys, t)
    decreases |b|
  {
    SurvivorsConcat(a, b, keys);
    if b != [] {
      var n := |b| - 1;
      assert b == b[..n] + [b[n]];
      SurvivorsConcat(b[..n], [b[n]], keys);
      CountOne(b[n], keys);
      assert (a + b)[..|a + b| - 1] == a + b[..n];
      if b[n].key in keys {
        FromRightSuffix(a, b[..n], keys, t);
      } else if t > 0 {
        FromRightSuffix(a, b[..n], keys, t - 1);
      }
    }
  }

  lemma EnoughBehind(rs: seq<Record>, i: nat, j: nat, keys: set<Text>)
    requires i <= |rs| && i <= j < LengthAfter(rs, i, keys)
    ensures HolesBefore(rs, i, j, keys) < Survivors(rs[j..], keys)
    ensures Survivors(rs[j..], keys) <= Survivors(rs, keys)
  {
    assert rs[i..] == rs[i..j] + rs[j..];
    SurvivorsConcat(rs[i..j], rs[j..], keys);
    assert rs == rs[..j] + rs[j..];
    SurvivorsConcat(rs[..j], rs[j..], keys);
  }

  /**
   What a walk from `i` leaves at position `j`: the record that was there, if it survives;
   otherwise, with `t` holes before it, the survivor `t` places before the last one.
   */
  function PlaceOf(rs: seq<Record>, i: nat, keys: set<Text>, j: nat): Record
    requires i <= |rs| && j < LengthAfter(rs, i, keys)
  {
    if j < i || rs[j].key !in keys then rs[j]
    else
      EnoughBehind(rs, i, j, keys);
      FromRight(rs, keys, HolesBefore(rs, i, j, keys))
  }

  /** A hole behind `i` is filled the same before and after the swap-removal at `i`. */
  lemma LaterHole(rs: seq<Record>, i: nat, keys: set<Text>, j: nat)
    requires i < |rs| && i < j < LengthAfter(rs, i, keys) && rs[i].key in keys && rs[j].key in keys
    ensures j < LengthAfter(SwapRemove(rs, i), i, keys)
    ensures PlaceOf(SwapRemove(rs, i), i, keys, j) == PlaceOf(rs, i, keys, j)
  {
    hide SwapRemove, Survivors, LengthAfter, HolesBefore, FromRight;
    var s, last := SwapRemove(rs, i), |rs| - 1;
    RemovedAt(rs, i);
    RemovedCounts(rs, i, keys);
    RemovedHoles(rs, i, j, keys);
    EnoughBehind(rs, i, j, keys);
    EnoughBehind(s, i, j, keys);
    var t, t' := HolesBefore(rs, i, j, keys), HolesBefore(s, i, j, keys);
    var tail := rs[j..last];
    RemovedTail(rs, i, j);
    SurvivorsConcat(tail, [rs[last]], keys);
    CountOne(rs[last], keys);
    FromRightSuffix(rs[..j], tail, keys, t');
    FromRightSuffix(s[..j], tail, keys, t');
    FromRightStep(rs, keys, t);
  }

  /** The hole at `i` itself is filled by the last survivor. */
  lemma FirstHole(rs: seq<Record>, i: nat, keys: set<Text>)
    requires i < |rs| && i < LengthAfter(rs, i, keys) && rs[i].key in keys
    ensures i < LengthAfter(SwapRemove(rs, i), i, keys)
    ensures PlaceOf(SwapRemove(rs, i), i, keys, i) == PlaceOf(rs, i, keys, i)
  {
    var s, last := SwapRemove(rs, i), |rs| - 1;
    RemovedCounts(rs, i, keys);
    EnoughBehind(rs, i, i, keys);
    EnoughBehind(s, i, i, keys);
    assert rs[i..i] == [] && s[i..i] == [];
    assert i < last;
    var tail := rs[i + 1..last];
    RemovedPieces(rs, i);
    SurvivorsConcat([rs[i]], tail + [rs[last]], keys);
    SurvivorsConcat(tail, [rs[last]], keys);
    SurvivorsConcat([rs[last]], tail, keys);
    CountOne(rs[i], keys);
    CountOne(rs[last], keys);
    if rs[last].key in keys {
      FromRightSuffix(rs[..i + 1], tail, keys, 0);
      FromRightSuffix(s[..i + 1], tail, keys, 0);
    }
  }

  /** The closed form of the deleting walk. */
  lemma {:induction false} DeletePlaces(rs: seq<Record>, i: nat, keys: set<Text>)
    requires i <= |rs|
    ensures |DeleteFrom(rs, i, keys)| == LengthAfter(rs, i, keys)
    ensures forall j :: 0 <= j < LengthAfter(rs, i, keys) ==> DeleteFrom(rs, i, keys)[j] == PlaceOf(rs, i, keys, j)
    decreases |rs| - i
  {
    DeleteFromCount(rs, i, keys);
    if i == |rs| {
      assert rs[i..] == [];
    } else if rs[i].key !in keys {
      PassedCounts(rs, i, keys);
      DeletePlaces(rs, i + 1, keys);
    } else {
      RemovedCounts(rs, i, keys);
      DeletePlaces(SwapRemove(rs, i), i, keys);
      forall j | 0 <= j < LengthAfter(rs, i, keys)
        ensures PlaceOf(SwapRemove(rs, i), i, keys, j) == PlaceOf(rs, i, keys, j)
      {
        if j == i {
          FirstHole(rs, i, keys);
        } else if j > i && rs[j].key in keys {
          LaterHole(rs, i, keys, j);
        }
      }
    }
  }

  // Which record of another key ends up last.

  /** The last record for `key` before position `n`. */
  function LastBefore(rs: seq<Record>, key: Text, n: nat): (p: Option<nat>)
    requires n <= |rs|
    ensures p.Some? ==> p.value < n && rs[p.value].key == key
    ensures forall j :: (if p.Some? then p.value + 1 else 0) <= j < n ==> rs[j].key != key
  {
    if n == 0 then None
    else if rs[n - 1].key == key then Some(n - 1)
    else LastBefore(rs, key, n - 1)
  }

  /**
   The record for `key` that is last once a walk from `i` is over, found before the walk. The
   records behind the new end move forward in turn, the first of them farthest: it ends up behind
   the last one that stays, unless more holes stand before that one than survivors behind the mover.
   */
  function LastAfter(rs: seq<Record>, i: nat, keys: set<Text>, key: Text): (w: Option<nat>)
    requires i <= |rs|
    ensures w.Some? ==> w.value < |rs| && rs[w.value].key == key
  {
    var n := LengthAfter(rs, i, keys);
    var stays, moves := LastBefore(rs, key, n), FirstIndex(rs, key, n);
    if moves == |rs| then stays
    else if stays.Some? && HolesBefore(rs, i, stays.value, keys) > Survivors(rs[moves + 1..], keys) then stays
    else Some(moves)
  }

  function ValueAt(rs: seq<Record>, w: Option<nat>): Option<Text>
    requires w.Some? ==> w.value < |rs|
  {
    if w.None? then None else Some(rs[w.value].value)
  }

  lemma {:induction false} LastBeforeReads(rs: seq<Record>, key: Text)
    ensures LastValue(rs, key) == ValueAt(rs, LastBefore(rs, key, |rs|))
  {
    if rs != [] {
      var n := |rs| - 1;
      LastBeforeReads(rs[..n], key);
      LastBeforePrefix(rs, rs[..n], key, n);
    }
  }

  lemma {:induction false} LastBeforePrefix(a: seq<Record>, b: seq<Record>, key: Text, n: nat)
    requires n <= |a| && n <= |b| && forall j :: 0 <= j < n ==> a[j] == b[j]
    ensures LastBefore(a, key, n) == LastBefore(b, key, n)
  {
    if n > 0 {
      LastBeforePrefix(a, b, key, n - 1);
    }
  }

  lemma LastBeforeIs(rs: seq<Record>, key: Text, n: nat, p: nat)
    requires p < n <= |rs| && rs[p].key == key && forall j :: p < j < n ==> rs[j].key != key
    ensures LastBefore(rs, key, n) == Some(p)
  {
  }

  lemma LastBeforeNone(rs: seq<Record>, key: Text, n: nat)
    requires n <= |rs| && forall j :: 0 <= j < n ==> rs[j].key != key
    ensures LastBefore(rs, key, n) == None
  {
  }

  lemma FirstIndexIs(rs: seq<Record>, key: Text, from: nat, q: nat)
    requires from <= q <= |rs| && (q < |rs| ==> rs[q].key == key) && forall j :: from <= j < q ==> rs[j].key != key
    ensures FirstIndex(rs, key, from) == q
  {
  }

  /** The survivors behind a mover, before and after the last record has moved. */
  lemma SurvivorsBehind(rs: seq<Record>, i: nat, q: nat, keys: set<Text>)
    requires i < q < |rs| - 1
    ensures Survivors(rs[q + 1..], keys) ==
            Survivors(SwapRemove(rs, i)[q + 1..], keys) + if rs[|rs| - 1].key in keys then 0 else 1
  {
    var s, last := SwapRemove(rs, i), |rs| - 1;
    assert rs[q + 1..] == rs[q + 1..last] + [rs[last]] && s[q + 1..] == rs[q + 1..last];
    SurvivorsConcat(rs[q + 1..last], [rs[last]], keys);
    CountOne(rs[last], keys);
  }

  /** Removing the very last record changes nothing for other keys. */
  lemma RemoveLastKeeps(rs: seq<Record>, keys: set<Text>, key: Text)
    requires rs != [] && rs[|rs| - 1].key in keys && key !in keys
    ensures var i, s := |rs| - 1, SwapRemove(rs, |rs| - 1);
            ValueAt(s, LastAfter(s, i, keys, key)) == ValueAt(rs, LastAfter(rs, i, keys, key))
  {
    var i, s := |rs| - 1, SwapRemove(rs, |rs| - 1);
    RemovedCounts(rs, i, keys);
    assert rs[i..] == [rs[i]] && s[i..] == [];
    CountOne(rs[i], keys);
    FirstIndexIs(rs, key, i, |rs|);
    FirstIndexIs(s, key, i, |s|);
    LastBeforePrefix(rs, s, key, i);
  }

  /** When the last record has another key, the same record stays ahead. */
  lemma OtherLastKeeps(rs: seq<Record>, i: nat, keys: set<Text>, key: Text)
    requires i < |rs| - 1 && rs[i].key in keys && key !in keys && rs[|rs| - 1].key != key
    ensures var s := SwapRemove(rs, i); LastAfter(s, i, keys, key) == LastAfter(rs, i, keys, key)
    ensures forall j :: 0 <= j < |rs| - 1 && j != i ==> SwapRemove(rs, i)[j] == rs[j]
  {
    hide SwapRemove, Survivors, LengthAfter, HolesBefore, LastBefore, FirstIndex;
    var s, n := SwapRemove(rs, i), LengthAfter(rs, i, keys);
    RemovedAt(rs, i);
    RemovedCounts(rs, i, keys);
    var stays, moves := LastBefore(rs, key, n), FirstIndex(rs, key, n);
    if stays.Some? {
      LastBeforeIs(s, key, n, stays.value);
      if i < stays.value {
        RemovedHoles(rs, i, stays.value, keys);
      } else {
        NoHoles(rs, i, stays.value, keys);
        NoHoles(s, i, stays.value, keys);
      }
    } else {
      LastBeforeNone(s, key, n);
    }
    if moves < |rs| {
      FirstIndexIs(s, key, n, moves);
      SurvivorsBehind(rs, i, moves, keys);
    } else {
      FirstIndexIs(s, key, n, |s|);
    }
  }

  /** When the last record has this key, moving it to `i` leaves the same record ahead. */
  lemma SameLastKeeps(rs: seq<Record>, i: nat, keys: set<Text>, key: Text)
    requires i < |rs| - 1 && rs[i].key in keys && key !in keys && rs[|rs| - 1].key == key
    ensures var s := SwapRemove(rs, i);
            ValueAt(s, LastAfter(s, i, keys, key)) == ValueAt(rs, LastAfter(rs, i, keys, key))
  {
    hide SwapRemove, Survivors, LengthAfter, HolesBefore, LastBefore, FirstIndex;
    var s, n, last := SwapRemove(rs, i), LengthAfter(rs, i, keys), |rs| - 1;
    RemovedAt(rs, i);
    RemovedCounts(rs, i, keys);
    var stays, moves := LastBefore(rs, key, n), FirstIndex(rs, key, n);
    assert n <= moves <= last;
    if stays.Some? && i < stays.value {
      LastBeforeIs(s, key, n, stays.value);
      RemovedHoles(rs, i, stays.value, keys);
    } else {
      LastBeforeIs(s, key, n, i);
      NoHoles(rs, i, if stays.Some? then stays.value else i, keys);
    }
    NoHoles(s, i, i, keys);
    if moves < last {
      FirstIndexIs(s, key, n, moves);
      SurvivorsBehind(rs, i, moves, keys);
    } else {
      FirstIndexIs(s, key, n, |s|);
      assert rs[last + 1..] == [];
    }
  }

  lemma PassKeeps(rs: seq<Record>, i: nat, keys: set<Text>, key: Text)
    requires i < |rs| && rs[i].key !in keys
    ensures LastAfter(rs, i + 1, keys, key) == LastAfter(rs, i, keys, key)
  {
    PassedCounts(rs, i, keys);
  }

  /** What `read` gives after the walk, from where the records stand before it. */
  lemma {:induction false} ReadAfterDelete(rs: seq<Record>, i: nat, keys: set<Text>, key: Text)
    requires i <= |rs| && key !in keys
    ensures LastValue(DeleteFrom(rs, i, keys), key) == ValueAt(rs, LastAfter(rs, i, keys, key))
    decreases |rs| - i
  {
    if i == |rs| {
      assert rs[i..] == [];
      LastBeforeReads(rs, key);
      FirstIndexIs(rs, key, |rs|, |rs|);
    } else if rs[i].key !in keys {
      PassKeeps(rs, i, keys, key);
      ReadAfterDelete(rs, i + 1, keys, key);
    } else {
      var s := SwapRemove(rs, i);
      if i == |rs| - 1 {
        RemoveLastKeeps(rs, keys, key);
      } else if rs[|rs| - 1].key == key {
        SameLastKeeps(rs, i, keys, key);
      } else {
        OtherLastKeeps(rs, i, keys, key);
      }
      ReadAfterDelete(s, i, keys, key);
    }
  }

  /**
   A delete leaves `read` of another key as it was if and only if the record that ends up last
   carries the value of the one that is last now.
   */
  lemma DeleteKeepsReadExactly(rs: seq<Record>, keys: set<Text>, key: Text)
    requires key !in keys
    ensures LastValue(DeleteFrom(rs, 0, keys), key) == LastValue(rs, key) <==>
            ValueAt(rs, LastAfter(rs, 0, keys, key)) == ValueAt(rs, LastBefore(rs, key, |rs|))
  {
    ReadAfterDelete(rs, 0, keys, key);
    LastBeforeReads(rs, key);
  }

  /** The same for an insert: it walks from behind the first record of its key. */
  lemma InsertKeepsReadExactly(rs: seq<Record>, target: Text, value: Text, key: Text)
    requires key != target
    ensures var f := FirstIndex(rs, target);
            LastValue(InsertRecords(rs, target, value), key) == LastValue(rs, key) <==>
            (f < |rs| ==>
               ValueAt(rs, LastAfter(rs, f + 1, {target}, key)) == ValueAt(rs, LastBefore(rs, key, |rs|)))
  {
    var f := FirstIndex(rs, target);
    LastBeforeReads(rs, key);
    if f < |rs| {
      var over := rs[f := Record(target, value)];
      ReadAfterDelete(over, f + 1, {target}, key);
      OverwriteSame(rs, f, target, value, key);
    } else {
      assert (rs + [Record(target, value)])[..|rs|] == rs;
    }
  }

  lemma SameSuffix(a: seq<Record>, b: seq<Record>, from: nat, p: nat, keys: set<Text>)
    requires from <= |a| == |b| && a[from..] == b[from..] && p <= |a|
    ensures LengthAfter(a, from, keys) == LengthAfter(b, from, keys)
    ensures HolesBefore(a, from, p, keys) == HolesBefore(b, from, p, keys)
    ensures from <= p ==> a[p..] == b[p..]
  {
    if from <= p {
      assert a[from..p] == a[from..][..p - from] && b[from..p] == b[from..][..p - from];
      assert a[p..] == a[from..][p - from..] && b[p..] == b[from..][p - from..];
    }
  }

  lemma OverwriteSame(rs: seq<Record>, f: nat, target: Text, value: Text, key: Text)
    requires f < |rs| && rs[f].key == target && key != target
    ensures var over := rs[f := Record(target, value)];
            ValueAt(over, LastAfter(over, f + 1, {target}, key)) == ValueAt(rs, LastAfter(rs, f + 1, {target}, key))
  {
    hide Survivors, LastBefore, FirstIndex, LengthAfter, HolesBefore;
    var over := rs[f := Record(target, value)];
    assert over[f + 1..] == rs[f + 1..];
    SameSuffix(over, rs, f + 1, |rs|, {target});
    var n := LengthAfter(rs, f + 1, {target});
    var stays, moves := LastBefore(rs, key, n), FirstIndex(rs, key, n);
    if stays.Some? {
      LastBeforeIs(over, key, n, stays.value);
      SameSuffix(over, rs, f + 1, stays.value, {target});
    } else {
      LastBeforeNone(over, key, n);
    }
    FirstIndexIs(over, key, n, moves);
    if moves < |rs| {
      SameSuffix(over, rs, f + 1, moves + 1, {target});
    }
  }
}
