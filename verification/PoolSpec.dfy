/**
 What the store operations do to the sequence of records of a pool, stated without
 cursor, handle or bytes, and the laws of those functions.
 */
module PoolSpec {
  import opened Results
  import opened Bytes
  import opened KvpErrors
  import opened PoolLayout
  import opened Seqs

  const MAX_UNIQUE_KEYS: nat := 1024

  /** Overwrite record `i` with the last one. */
  function MoveLast(rs: seq<Record>, i: nat): (r: seq<Record>)
    requires i < |rs|
    ensures |r| == |rs|
  {
    rs[i := rs[|rs| - 1]]
  }

  /** Overwrite record `i` with the last one, then drop the last one. */
  function SwapRemove(rs: seq<Record>, i: nat): (r: seq<Record>)
    requires i < |rs|
    ensures |r| == |rs| - 1
  {
    MoveLast(rs, i)[..|rs| - 1]
  }

  /** Where a swap-removal of record `i` may have stopped: before or after the move. */
  predicate PartlyRemoved(rs: seq<Record>, i: nat, after: seq<Record>)
    requires i < |rs|
  {
    after == rs || after == MoveLast(rs, i)
  }

  /** One round of a deleting walk at record `i`: the records and the position it leaves. */
  function AfterVisit(rs: seq<Record>, i: nat, keys: set<Text>): (r: (seq<Record>, nat))
    requires i < |rs|
    ensures |r.0| - r.1 == |rs| - i - 1
  {
    if rs[i].key in keys then (SwapRemove(rs, i), i) else (rs, i + 1)
  }

  /** The records left once a walk from `i` has swap-removed every record whose key is in `keys`. */
  function DeleteFrom(rs: seq<Record>, i: nat, keys: set<Text>): seq<Record>
    decreases |rs| - i
  {
    if i >= |rs| then rs
    else
      var (next, from) := AfterVisit(rs, i, keys);
      DeleteFrom(next, from, keys)
  }

  /** The records that walk yields, in the order it yields them. */
  function Visits(rs: seq<Record>, i: nat, keys: set<Text>): seq<Record>
    decreases |rs| - i
  {
    if i >= |rs| then []
    else
      var (next, from) := AfterVisit(rs, i, keys);
      [rs[i]] + Visits(next, from, keys)
  }

  /** The walk as the store runs it: it stops at the first record that does not decode. */
  function DeleteWalk(rs: seq<Record>, i: nat, keys: set<Text>): Result<seq<Record>, IoError>
    decreases |rs| - i
  {
    if i >= |rs| then Ok(rs)
    else if !Decodes(rs[i]) then Err(InvalidData)
    else
      var (next, from) := AfterVisit(rs, i, keys);
      DeleteWalk(next, from, keys)
  }

  predicate AllDecode(rs: seq<Record>) {
    forall i :: 0 <= i < |rs| ==> Decodes(rs[i])
  }

  /** Value of the last record for `key`. */
  function LastValue(rs: seq<Record>, key: Text): Option<Text> {
    if rs == [] then None
    else if rs[|rs| - 1].key == key then Some(rs[|rs| - 1].value)
    else LastValue(rs[..|rs| - 1], key)
  }

  /** Index of the first record for `key`, or `|rs|`. */
  function FirstIndex(rs: seq<Record>, key: Text, from: nat := 0): (f: nat)
    requires from <= |rs|
    ensures from <= f <= |rs|
    ensures f < |rs| ==> rs[f].key == key
    ensures forall j :: from <= j < f ==> rs[j].key != key
    decreases |rs| - from
  {
    if from == |rs| || rs[from].key == key then from else FirstIndex(rs, key, from + 1)
  }

  predicate HasKey(rs: seq<Record>, key: Text) {
    exists i :: 0 <= i < |rs| && rs[i].key == key
  }

  function DistinctKeys(rs: seq<Record>): set<Text> {
    set i | 0 <= i < |rs| :: rs[i].key
  }

  /** The records after a successful insert. */
  function InsertRecords(rs: seq<Record>, key: Text, value: Text): seq<Record> {
    var f := FirstIndex(rs, key);
    if f < |rs| then DeleteFrom(rs[f := Record(key, value)], f + 1, {key})
    else rs + [Record(key, value)]
  }

  /** How many records have a key in `keys`. */
  function MatchCount(rs: seq<Record>, keys: set<Text>): nat {
    if rs == [] then 0 else (if rs[0].key in keys then 1 else 0) + MatchCount(rs[1..], keys)
  }

  /** The records an operation on `keys` does not target, with multiplicity. */
  function Others(rs: seq<Record>, keys: set<Text>): multiset<Record> {
    if rs == [] then multiset{}
    else (if rs[0].key in keys then multiset{} else multiset{rs[0]}) + Others(rs[1..], keys)
  }

  // Laws of the untargeted multiset.

  lemma {:induction false} OthersConcat(a: seq<Record>, b: seq<Record>, keys: set<Text>)
    ensures Others(a + b, keys) == Others(a, keys) + Others(b, keys)
  {
    if a == [] {
      assert a + b == b;
    } else {
      assert (a + b)[1..] == a[1..] + b;
      OthersConcat(a[1..], b, keys);
    }
  }

  lemma OthersOne(x: Record, keys: set<Text>)
    ensures Others([x], keys) == if x.key in keys then multiset{} else multiset{x}
  {
    assert [x][1..] == [];
  }

  /** It keeps each untargeted record's multiplicity and drops the targeted ones. */
  lemma {:induction false} OthersCount(rs: seq<Record>, keys: set<Text>, x: Record)
    ensures Others(rs, keys)[x] == if x.key in keys then 0 else multiset(rs)[x]
  {
    if rs != [] {
      OthersCount(rs[1..], keys, x);
      assert rs == [rs[0]] + rs[1..];
    }
  }

  lemma {:induction false} OthersUpdate(rs: seq<Record>, i: nat, x: Record, keys: set<Text>)
    requires i < |rs|
    ensures Others(rs[i := x], keys) + Others([rs[i]], keys) == Others(rs, keys) + Others([x], keys)
  {
    var a, b := rs[..i], rs[i + 1..];
    assert rs == a + ([rs[i]] + b) && rs[i := x] == a + ([x] + b);
    OthersConcat(a, [rs[i]] + b, keys);
    OthersConcat(a, [x] + b, keys);
    OthersConcat([rs[i]], b, keys);
    OthersConcat([x], b, keys);
  }

  lemma OthersDropLast(rs: seq<Record>, keys: set<Text>)
    requires rs != []
    ensures Others(rs, keys) == Others(rs[..|rs| - 1], keys) + Others([rs[|rs| - 1]], keys)
  {
    assert rs == rs[..|rs| - 1] + [rs[|rs| - 1]];
    OthersConcat(rs[..|rs| - 1], [rs[|rs| - 1]], keys);
  }

  /** Swap-removing a targeted record keeps the untargeted ones; so does stopping halfway, up to a copy. */
  lemma SwapRemoveOthers(rs: seq<Record>, i: nat, keys: set<Text>)
    requires i < |rs| && rs[i].key in keys
    ensures Others(SwapRemove(rs, i), keys) == Others(rs, keys)
    ensures Others(MoveLast(rs, i), keys) >= Others(rs, keys)
  {
    hide Others;
    var last := rs[|rs| - 1];
    var moved, copy := Others(MoveLast(rs, i), keys), Others([last], keys);
    OthersUpdate(rs, i, last, keys);
    OthersOne(rs[i], keys);
    assert moved == Others(rs, keys) + copy;
    OthersDropLast(MoveLast(rs, i), keys);
    CancelMultiset(Others(SwapRemove(rs, i), keys), Others(rs, keys), copy);
  }

  lemma CancelMultiset(a: multiset<Record>, b: multiset<Record>, c: multiset<Record>)
    requires a + c == b + c
    ensures a == b
  {
    forall x: Record
      ensures a[x] == b[x]
    {
      assert (a + c)[x] == (b + c)[x];
    }
  }

  lemma {:induction false} NoTargets(rs: seq<Record>, keys: set<Text>)
    requires forall j :: 0 <= j < |rs| ==> rs[j].key !in keys
    ensures Others(rs, keys) == multiset(rs)
  {
    if rs != [] {
      NoTargets(rs[1..], keys);
      assert rs == [rs[0]] + rs[1..];
    }
  }

  // The deleting walk.

  lemma UpdateMultiset(rs: seq<Record>, i: nat, x: Record)
    requires i < |rs|
    ensures multiset(rs[i := x]) == multiset(rs) - multiset{rs[i]} + multiset{x}
  {
    Around(rs, i);
    Around(rs[i := x], i);
    assert rs[i := x][..i] == rs[..i] && rs[i := x][i + 1..] == rs[i + 1..];
  }

  /** Swap-removal drops one copy of the removed record and nothing else. */
  lemma SwapRemoveMultiset(rs: seq<Record>, i: nat)
    requires i < |rs|
    ensures multiset(SwapRemove(rs, i)) == multiset(rs) - multiset{rs[i]}
  {
    var last := rs[|rs| - 1];
    var moved := rs[i := last];
    UpdateMultiset(rs, i, last);
    Snoc(moved);
    assert multiset(moved) == multiset(SwapRemove(rs, i)) + multiset{last};
    forall x: Record
      ensures multiset(SwapRemove(rs, i))[x] == (multiset(rs) - multiset{rs[i]})[x]
    {
      assert (multiset(SwapRemove(rs, i)) + multiset{last})[x] == (multiset(rs) - multiset{rs[i]} + multiset{last})[x];
    }
  }

  lemma SnocMultiset(rs: seq<Record>, i: nat)
    requires i < |rs|
    ensures multiset(rs[..i + 1]) == multiset(rs[..i]) + multiset{rs[i]}
  {
    assert rs[..i + 1] == rs[..i] + [rs[i]];
  }

  lemma ConsMultiset(x: Record, rest: seq<Record>)
    ensures multiset([x] + rest) == multiset{x} + multiset(rest)
  {
  }

  /** One round takes the record it visits out of what is ahead, or passes it. */
  lemma VisitStep(rs: seq<Record>, i: nat, keys: set<Text>)
    requires i < |rs|
    ensures var (next, from) := AfterVisit(rs, i, keys);
            if rs[i].key in keys then
              from == i && next[..from] == rs[..i] && multiset(next) == multiset(rs) - multiset{rs[i]}
            else next == rs && multiset(next[..from]) == multiset(rs[..i]) + multiset{rs[i]}
  {
    SwapRemoveMultiset(rs, i);
    SnocMultiset(rs, i);
  }

  lemma BothPlus(a: multiset<Record>, b: multiset<Record>, c: multiset<Record>, x: Record)
    requires a + b == c - multiset{x} && x in c
    ensures a + (multiset{x} + b) == c
  {
    assert a + (multiset{x} + b) == a + b + multiset{x};
  }

  /** Despite the swap-ins, the walk yields every record it started with exactly once. */
  lemma {:induction false} VisitsEachOnce(rs: seq<Record>, i: nat, keys: set<Text>)
    requires i <= |rs|
    ensures multiset(rs[..i]) + multiset(Visits(rs, i, keys)) == multiset(rs)
    decreases |rs| - i
  {
    if i == |rs| {
      assert rs[..i] == rs;
    } else {
      var (next, from) := AfterVisit(rs, i, keys);
      VisitsEachOnce(next, from, keys);
      VisitStep(rs, i, keys);
      var rest := multiset(Visits(next, from, keys));
      ConsMultiset(rs[i], Visits(next, from, keys));
      if rs[i].key in keys {
        BothPlus(multiset(rs[..i]), rest, multiset(rs), rs[i]);
      }
    }
  }

  lemma ShorterPrefix(r: seq<Record>, rs: seq<Record>, i: nat)
    requires i < |r| && i < |rs| && r[..i + 1] == rs[..i + 1]
    ensures r[..i] == rs[..i] && r[i] == rs[i]
  {
    assert r[..i + 1][..i] == r[..i] && rs[..i + 1][..i] == rs[..i];
    assert r[..i + 1][i] == r[i] && rs[..i + 1][i] == rs[i];
  }

  /** The walk keeps the prefix it has passed, keeps the untargeted records and leaves no target. */
  lemma {:induction false} DeleteFromFilters(rs: seq<Record>, i: nat, keys: set<Text>)
    requires i <= |rs|
    ensures var r := DeleteFrom(rs, i, keys);
            && i <= |r| <= |rs|
            && r[..i] == rs[..i]
            && Others(r, keys) == Others(rs, keys)
            && (forall j :: i <= j < |r| ==> r[j].key !in keys)
    decreases |rs| - i
  {
    hide Others;
    if i < |rs| {
      var (next, from) := AfterVisit(rs, i, keys);
      DeleteFromFilters(next, from, keys);
      var r := DeleteFrom(next, from, keys);
      if rs[i].key in keys {
        SwapRemoveOthers(rs, i, keys);
        assert next[..i] == rs[..i];
      } else {
        ShorterPrefix(r, rs, i);
      }
    }
  }

  /** Deleting keys is multiset filtering. */
  lemma DeleteIsFilter(rs: seq<Record>, keys: set<Text>)
    ensures multiset(DeleteFrom(rs, 0, keys)) == Others(rs, keys)
  {
    DeleteFromFilters(rs, 0, keys);
    NoTargets(DeleteFrom(rs, 0, keys), keys);
  }

  lemma {:induction false} MatchCountConcat(a: seq<Record>, b: seq<Record>, keys: set<Text>)
    ensures MatchCount(a + b, keys) == MatchCount(a, keys) + MatchCount(b, keys)
  {
    if a == [] {
      assert a + b == b;
    } else {
      MatchCountConcat(a[1..], b, keys);
      assert (a + b)[1..] == a[1..] + b;
    }
  }

  /** The walk removes exactly the matching records, duplicates counted separately. */
  lemma {:induction false} DeleteFromCount(rs: seq<Record>, i: nat, keys: set<Text>)
    requires i <= |rs|
    ensures |DeleteFrom(rs, i, keys)| == |rs| - MatchCount(rs[i..], keys)
    decreases |rs| - i
  {
    if i == |rs| {
      assert rs[i..] == [];
    } else if rs[i].key in keys {
      var r, n := SwapRemove(rs, i), |rs| - 1;
      DeleteFromCount(r, i, keys);
      if i < n {
        var mid := rs[i + 1..n];
        assert rs[i..][1..] == mid + [rs[n]];
        assert r[i..] == [rs[n]] + mid;
        MatchCountConcat(mid, [rs[n]], keys);
      } else {
        assert r[i..] == [] && rs[i..][1..] == [];
      }
    } else {
      DeleteFromCount(rs, i + 1, keys);
      assert rs[i..][1..] == rs[i + 1..];
    }
  }

  lemma {:induction false} MatchCountPositive(rs: seq<Record>, keys: set<Text>)
    ensures MatchCount(rs, keys) > 0 <==> exists i :: 0 <= i < |rs| && rs[i].key in keys
  {
    if rs != [] {
      MatchCountPositive(rs[1..], keys);
      assert forall i :: 1 <= i < |rs| ==> rs[i] == rs[1..][i - 1];
      assert forall i :: 0 <= i < |rs| - 1 ==> rs[1..][i] == rs[i + 1];
    }
  }

  /** The number of records a delete removes. */
  lemma RemovedCount(rs: seq<Record>, keys: set<Text>)
    ensures |rs| - |DeleteFrom(rs, 0, keys)| == MatchCount(rs, keys)
    ensures MatchCount(rs, keys) > 0 <==> exists i :: 0 <= i < |rs| && rs[i].key in keys
  {
    DeleteFromCount(rs, 0, keys);
    assert rs[0..] == rs;
    MatchCountPositive(rs, keys);
  }

  lemma {:induction false} DeleteWalkVisits(rs: seq<Record>, i: nat, keys: set<Text>)
    ensures DeleteWalk(rs, i, keys) ==
            if AllDecode(Visits(rs, i, keys)) then Ok(DeleteFrom(rs, i, keys)) else Err(InvalidData)
    decreases |rs| - i
  {
    if i < |rs| {
      var (next, from) := AfterVisit(rs, i, keys);
      DeleteWalkVisits(next, from, keys);
      AllDecodeCons(rs[i], Visits(next, from, keys));
    }
  }

  lemma AllDecodeCons(x: Record, rest: seq<Record>)
    ensures AllDecode([x] + rest) <==> Decodes(x) && AllDecode(rest)
  {
    assert ([x] + rest)[0] == x;
    assert forall i :: 0 <= i < |rest| ==> ([x] + rest)[i + 1] == rest[i];
  }

  lemma AllDecodePermuted(a: seq<Record>, b: seq<Record>)
    requires multiset(a) == multiset(b) && AllDecode(a)
    ensures AllDecode(b)
  {
    forall i | 0 <= i < |b|
      ensures Decodes(b[i])
    {
      assert b[i] in multiset(b);
      assert b[i] in a;
    }
  }

  /** A delete succeeds exactly when every record of the pool decodes. */
  lemma DeleteWalkResult(rs: seq<Record>, keys: set<Text>)
    ensures DeleteWalk(rs, 0, keys) == if AllDecode(rs) then Ok(DeleteFrom(rs, 0, keys)) else Err(InvalidData)
  {
    DeleteWalkVisits(rs, 0, keys);
    VisitsEachOnce(rs, 0, keys);
    assert multiset(rs[..0]) == multiset{};
    if AllDecode(rs) {
      AllDecodePermuted(rs, Visits(rs, 0, keys));
    }
    if AllDecode(Visits(rs, 0, keys)) {
      AllDecodePermuted(Visits(rs, 0, keys), rs);
    }
  }

  // Reads.

  /** All records for `key` carry the same value; in particular, when it occurs at most once. */
  ghost predicate OneValue(rs: seq<Record>, key: Text) {
    forall x, y :: x in rs && y in rs && x.key == key && y.key == key ==> x.value == y.value
  }

  lemma {:induction false} LastValueIs(rs: seq<Record>, key: Text)
    ensures LastValue(rs, key).None? <==> !HasKey(rs, key)
    ensures LastValue(rs, key).Some? ==> Record(key, LastValue(rs, key).value) in rs
  {
    if rs != [] {
      var n := |rs| - 1;
      LastValueIs(rs[..n], key);
      assert rs == rs[..n] + [rs[n]];
      if HasKey(rs[..n], key) {
        var i :| 0 <= i < n && rs[..n][i].key == key;
        assert rs[i].key == key;
      }
    }
  }

  /** Nothing behind record `i` has the key. */
  ghost predicate LastAt(rs: seq<Record>, i: nat, key: Text) {
    i < |rs| && rs[i].key == key && forall j :: i < j < |rs| ==> rs[j].key != key
  }

  /** `read` finds the value of the last record for the key, and nothing only where there is none. */
  lemma {:induction false} LastValueExactly(rs: seq<Record>, key: Text, value: Text)
    ensures LastValue(rs, key) == Some(value) <==> exists i: nat :: LastAt(rs, i, key) && rs[i].value == value
    ensures LastValue(rs, key).None? <==> forall i :: 0 <= i < |rs| ==> rs[i].key != key
  {
    if rs != [] {
      var n := |rs| - 1;
      var front := rs[..n];
      LastValueExactly(front, key, value);
      assert forall i :: 0 <= i < n ==> front[i] == rs[i];
      if rs[n].key == key {
        assert LastAt(rs, n, key);
        assert forall i: nat :: LastAt(rs, i, key) ==> i == n;
      } else {
        assert forall i: nat :: LastAt(rs, i, key) <==> LastAt(front, i, key);
      }
    }
  }

  lemma OthersMember(rs: seq<Record>, keys: set<Text>, x: Record)
    requires x.key !in keys
    ensures x in rs <==> x in Others(rs, keys)
  {
    OthersCount(rs, keys, x);
    assert x in rs <==> x in multiset(rs);
  }

  /**
   An operation that keeps the untargeted records may reorder them, so the last duplicate of
   another key can change; reads of a key whose records agree cannot.
   */
  lemma SameOthersKeepsReads(was: seq<Record>, now: seq<Record>, keys: set<Text>, key: Text)
    requires Others(was, keys) == Others(now, keys) && key !in keys && OneValue(was, key)
    ensures LastValue(now, key) == LastValue(was, key)
  {
    LastValueIs(was, key);
    LastValueIs(now, key);
    forall x: Record | x.key == key
      ensures x in was <==> x in now
    {
      OthersMember(was, keys, x);
      OthersMember(now, keys, x);
    }
    if HasKey(was, key) {
      var i :| 0 <= i < |was| && was[i].key == key;
      assert was[i] in was && was[i] in now;
    }
  }

  /** With differing duplicates it can: deleting one key turns round the two records of another. */
  lemma SwapsReorderDuplicates()
    ensures var pool := [Record([1], [1]), Record([2], [1]), Record([2], [2])];
            && LastValue(pool, [2]) == Some([2])
            && LastValue(DeleteFrom(pool, 0, {[1]}), [2]) == Some([1])
  {
    var pool := [Record([1], [1]), Record([2], [1]), Record([2], [2])];
    var left := [Record([2], [2]), Record([2], [1])];
    assert SwapRemove(pool, 0) == left;
    assert DeleteFrom(left, 0, {[1]}) == DeleteFrom(left, 1, {[1]}) == DeleteFrom(left, 2, {[1]}) == left;
  }

  /** And so can inserting one. */
  lemma InsertReordersDuplicates()
    ensures var pool := [Record([1], [1]), Record([1], [2]), Record([2], [1]), Record([2], [2])];
            && LastValue(pool, [2]) == Some([2])
            && LastValue(InsertRecords(pool, [1], [3]), [2]) == Some([1])
  {
    var pool := [Record([1], [1]), Record([1], [2]), Record([2], [1]), Record([2], [2])];
    var over := [Record([1], [3]), Record([1], [2]), Record([2], [1]), Record([2], [2])];
    var left := [Record([1], [3]), Record([2], [2]), Record([2], [1])];
    assert pool[0 := Record([1], [3])] == over;
    assert SwapRemove(over, 1) == left;
    assert DeleteFrom(left, 1, {[1]}) == DeleteFrom(left, 2, {[1]}) == DeleteFrom(left, 3, {[1]}) == left;
  }

  // Inserting.

  /** An insert leaves one record for its key, where the first one was, and keeps all others. */
  lemma InsertRefines(rs: seq<Record>, key: Text, value: Text)
    ensures var r, f := InsertRecords(rs, key, value), FirstIndex(rs, key);
            && f < |r| && r[..f] == rs[..f]
            && r[f] == Record(key, value)
            && (forall j :: 0 <= j < |r| && r[j].key == key ==> j == f)
            && Others(r, {key}) == Others(rs, {key})
            && LastValue(r, key) == Some(value)
  {
    var r, f := InsertRecords(rs, key, value), FirstIndex(rs, key);
    if f < |rs| {
      UpdateRefines(rs, f, key, value);
    } else {
      OthersConcat(rs, [Record(key, value)], {key});
      OthersOne(Record(key, value), {key});
    }
    LastValueIs(r, key);
    assert r[f].key == key;
  }

  /** The overwrite-then-collapse half of an insert. */
  lemma UpdateRefines(rs: seq<Record>, f: nat, key: Text, value: Text)
    requires f < |rs| && rs[f].key == key && forall j :: 0 <= j < f ==> rs[j].key != key
    ensures var r := DeleteFrom(rs[f := Record(key, value)], f + 1, {key});
            && f < |r| && r[..f] == rs[..f]
            && r[f] == Record(key, value)
            && (forall j :: 0 <= j < |r| && r[j].key == key ==> j == f)
            && Others(r, {key}) == Others(rs, {key})
  {
    var over := rs[f := Record(key, value)];
    var r := DeleteFrom(over, f + 1, {key});
    DeleteFromFilters(over, f + 1, {key});
    assert forall j :: 0 <= j <= f ==> r[j] == r[..f + 1][j] == over[j];
    OverwriteOthers(rs, f, Record(key, value), {key});
  }

  /** Overwriting a targeted record by another targeted one keeps the untargeted ones. */
  lemma OverwriteOthers(rs: seq<Record>, f: nat, x: Record, keys: set<Text>)
    requires f < |rs| && rs[f].key in keys && x.key in keys
    ensures Others(rs[f := x], keys) == Others(rs, keys)
  {
    OthersUpdate(rs, f, x, keys);
    OthersOne(rs[f], keys);
    OthersOne(x, keys);
    CancelMultiset(Others(rs[f := x], keys), Others(rs, keys), multiset{});
  }

  /**
   The insert loop as the store runs it, from record `i`, with the keys read so far: the records
   it leaves, whether it found the key, and all keys read.
   */
  function InsertWalk(rs: seq<Record>, i: nat, key: Text, value: Text, found: bool, uniqueKeys: set<Text>):
    Result<(seq<Record>, bool, set<Text>), IoError>
    decreases |rs| - i
  {
    if i >= |rs| then Ok((rs, found, uniqueKeys))
    else if !Decodes(rs[i]) then Err(InvalidData)
    else
      var keys := uniqueKeys + {rs[i].key};
      if rs[i].key == key && !found then
        InsertWalk(rs[i := Record(key, value)], i + 1, key, value, true, keys)
      else
        var (next, from) := AfterVisit(rs, i, if found then {key} else {});
        InsertWalk(next, from, key, value, found, keys)
  }

  /** Once the key is found, the insert loop is the deleting walk. */
  lemma {:induction false} InsertWalkFound(rs: seq<Record>, i: nat, key: Text, value: Text, uniqueKeys: set<Text>)
    ensures var w := InsertWalk(rs, i, key, value, true, uniqueKeys);
            if w.Ok? then
              && DeleteWalk(rs, i, {key}) == Ok(w.value.0) && w.value.1
              && w.value.2 == uniqueKeys + DistinctKeys(Visits(rs, i, {key}))
            else w == Err(InvalidData) && DeleteWalk(rs, i, {key}).Err?
    decreases |rs| - i
  {
    if i < |rs| {
      var (next, from) := AfterVisit(rs, i, {key});
      InsertWalkFound(next, from, key, value, uniqueKeys + {rs[i].key});
      DistinctCons(rs[i], Visits(next, from, {key}));
    }
  }

  lemma DistinctCons(x: Record, rest: seq<Record>)
    ensures DistinctKeys([x] + rest) == {x.key} + DistinctKeys(rest)
  {
    var all := [x] + rest;
    assert all[0] == x;
    assert forall i :: 0 <= i < |rest| ==> all[i + 1] == rest[i];
  }

  lemma DistinctPermuted(a: seq<Record>, b: seq<Record>)
    requires multiset(a) == multiset(b)
    ensures DistinctKeys(a) == DistinctKeys(b)
  {
    forall i | 0 <= i < |a|
      ensures a[i].key in DistinctKeys(b)
    {
      assert a[i] in multiset(a);
      assert a[i] in b;
    }
    forall i | 0 <= i < |b|
      ensures b[i].key in DistinctKeys(a)
    {
      assert b[i] in multiset(b);
      assert b[i] in a;
    }
  }

  /** After the overwrite at `i`, the walk reads exactly the records behind it. */
  lemma VisitsBehind(rs: seq<Record>, i: nat, x: Record, keys: set<Text>)
    requires i < |rs|
    ensures multiset(Visits(rs[i := x], i + 1, keys)) == multiset(rs[i + 1..])
  {
    var over := rs[i := x];
    VisitsEachOnce(over, i + 1, keys);
    assert over[i + 1..] == rs[i + 1..];
    SplitMultiset(over, i + 1);
    var passed := multiset(over[..i + 1]);
    assert passed + multiset(Visits(over, i + 1, keys)) == passed + multiset(rs[i + 1..]);
    assert multiset(Visits(over, i + 1, keys)) + passed == passed + multiset(Visits(over, i + 1, keys));
    CancelMultiset(multiset(Visits(over, i + 1, keys)), multiset(rs[i + 1..]), passed);
  }

  lemma SplitMultiset(rs: seq<Record>, i: nat)
    requires i <= |rs|
    ensures multiset(rs) == multiset(rs[..i]) + multiset(rs[i..])
  {
    assert rs == rs[..i] + rs[i..];
  }

  /** The insert loop from the moment it meets the key. */
  lemma InsertWalkMeets(rs: seq<Record>, i: nat, key: Text, value: Text, uniqueKeys: set<Text>)
    requires i < |rs|
    ensures InsertWalk(rs[i := Record(key, value)], i + 1, key, value, true, uniqueKeys) ==
            if !AllDecode(rs[i + 1..]) then Err(InvalidData)
            else Ok((DeleteFrom(rs[i := Record(key, value)], i + 1, {key}), true,
                     uniqueKeys + DistinctKeys(rs[i + 1..])))
  {
    var over := rs[i := Record(key, value)];
    var behind := Visits(over, i + 1, {key});
    InsertWalkFound(over, i + 1, key, value, uniqueKeys);
    DeleteWalkVisits(over, i + 1, {key});
    VisitsBehind(rs, i, Record(key, value), {key});
    DistinctPermuted(behind, rs[i + 1..]);
    if AllDecode(behind) {
      AllDecodePermuted(behind, rs[i + 1..]);
    } else if AllDecode(rs[i + 1..]) {
      AllDecodePermuted(rs[i + 1..], behind);
    }
  }

  /** The insert loop before it meets the key. */
  lemma {:induction false} InsertWalkSearch(rs: seq<Record>, i: nat, key: Text, value: Text)
    requires i <= FirstIndex(rs, key) && AllDecode(rs[..i])
    ensures InsertWalk(rs, i, key, value, false, DistinctKeys(rs[..i])) ==
            if !AllDecode(rs) then Err(InvalidData)
            else if HasKey(rs, key) then Ok((InsertRecords(rs, key, value), true, DistinctKeys(rs)))
            else Ok((rs, false, DistinctKeys(rs)))
    decreases |rs| - i
  {
    hide DeleteFrom, Decodes;
    if i == |rs| {
      assert rs[..i] == rs;
    } else if Decodes(rs[i]) {
      assert rs[..i + 1] == rs[..i] + [rs[i]];
      DistinctSnoc(rs[..i], rs[i]);
      if rs[i].key == key {
        assert FirstIndex(rs, key) == i;
        InsertWalkMeets(rs, i, key, value, DistinctKeys(rs[..i + 1]));
        SplitKeys(rs, i + 1);
      } else {
        InsertWalkSearch(rs, i + 1, key, value);
      }
    }
  }

  lemma DistinctSnoc(rs: seq<Record>, x: Record)
    ensures DistinctKeys(rs + [x]) == DistinctKeys(rs) + {x.key}
  {
    var all := rs + [x];
    assert all[|rs|] == x;
    assert forall i :: 0 <= i < |rs| ==> all[i] == rs[i];
  }

  /** Keys and decodability of a pool are those of its two halves. */
  lemma SplitKeys(rs: seq<Record>, i: nat)
    requires i <= |rs|
    ensures DistinctKeys(rs) == DistinctKeys(rs[..i]) + DistinctKeys(rs[i..])
    ensures AllDecode(rs) <==> AllDecode(rs[..i]) && AllDecode(rs[i..])
  {
    assert forall j :: 0 <= j < i ==> rs[..i][j] == rs[j];
    assert forall j :: 0 <= j < |rs| - i ==> rs[i..][j] == rs[j + i];
    assert forall j :: i <= j < |rs| ==> rs[j] == rs[i..][j - i];
  }

  /** The insert loop reads every record, and finds the key and all distinct keys. */
  lemma InsertWalkResult(rs: seq<Record>, key: Text, value: Text)
    ensures InsertWalk(rs, 0, key, value, false, {}) ==
            if !AllDecode(rs) then Err(InvalidData)
            else if HasKey(rs, key) then Ok((InsertRecords(rs, key, value), true, DistinctKeys(rs)))
            else Ok((rs, false, DistinctKeys(rs)))
  {
    assert rs[..0] == [] && DistinctKeys(rs[..0]) == {};
    InsertWalkSearch(rs, 0, key, value);
  }

  /** Appending a missing key is the insert and loses nothing. */
  lemma AbsentInsertKeeps(rs: seq<Record>, key: Text, value: Text)
    ensures !HasKey(rs, key) ==> InsertRecords(rs, key, value) == rs + [Record(key, value)]
    ensures Others(rs + [Record(key, value)], {key}) == Others(rs, {key})
    ensures HasKey(rs, key) ==> HasKey(rs + [Record(key, value)], key)
  {
    OthersConcat(rs, [Record(key, value)], {key});
    OthersOne(Record(key, value), {key});
    assert (rs + [Record(key, value)])[|rs|].key == key;
  }

  /** One round of the insert loop. */
  lemma InsertWalkStep(rs: seq<Record>, i: nat, key: Text, value: Text, found: bool, uniqueKeys: set<Text>)
    requires i < |rs| && Decodes(rs[i])
    ensures InsertWalk(rs, i, key, value, found, uniqueKeys) ==
            var keys := uniqueKeys + {rs[i].key};
            if rs[i].key != key then InsertWalk(rs, i + 1, key, value, found, keys)
            else if !found then InsertWalk(rs[i := Record(key, value)], i + 1, key, value, true, keys)
            else InsertWalk(SwapRemove(rs, i), i, key, value, true, keys)
    ensures i + 1 == |rs| && rs[i].key == key && found ==>
              InsertWalk(SwapRemove(rs, i), i, key, value, true, uniqueKeys + {key}) ==
              InsertWalk(SwapRemove(rs, i), i + 1, key, value, true, uniqueKeys + {key})
  {
  }

  /** Swap-removal does not touch the records before the removed one. */
  lemma SwapRemoveKeeps(rs: seq<Record>, i: nat, first: nat)
    requires first < i < |rs|
    ensures SwapRemove(rs, i)[first] == MoveLast(rs, i)[first] == rs[first]
    ensures HasKey(rs, rs[first].key) && HasKey(MoveLast(rs, i), rs[first].key)
  {
  }
}
