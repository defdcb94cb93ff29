/**
 The two loops of `decode_entries`: collect chunks into groups through a hash map, decode the
 groups in whatever order the map yields them, and put the entries back into pool order.
 */
module Grouping {
  import opened Results
  import opened Bytes
  import opened KvpErrors
  import opened PoolLayout
  import opened Sorting
  import opened Diagnostics

  /** A chunk's index and value. */
  type Part = (nat, Text)

  type GroupDecoder = (Text, seq<Part>) -> Result<Diagnostic, DecodeError>

  /** A record with an entry of its own, or a chunk of group `base`. */
  datatype Item = Own(entry: Entry) | Member(base: Text, record: Record, part: Part)

  datatype Placed = Placed(position: nat, record: Record, part: Part)

  predicate InGroup(item: Item, base: Text) {
    item.Member? && item.base == base
  }

  /** The chunks of group `base` among the first `n` records, in pool order. */
  function Members(items: seq<Item>, n: nat, base: Text): (ms: seq<Placed>)
    requires n <= |items|
  {
    if n == 0 then []
    else
      var before := Members(items, n - 1, base);
      if InGroup(items[n - 1], base) then before + [Placed(n - 1, items[n - 1].record, items[n - 1].part)] else before
  }

  function PartsOf(ms: seq<Placed>): (ps: seq<Part>)
    ensures |ps| == |ms|
  {
    if ms == [] then [] else [ms[0].part] + PartsOf(ms[1..])
  }

  /** How group `base` decodes. */
  function GroupResult(items: seq<Item>, base: Text, decode: GroupDecoder): Result<Diagnostic, DecodeError> {
    decode(base, PartsOf(Members(items, |items|, base)))
  }

  function Raw(r: Record, error: Option<DecodeError>): Entry {
    RawEntry(r.key, r.value, error)
  }

  /** What a chunk's group, decoded to `result`, puts at the chunk's position. */
  function MemberEntry(item: Item, first: bool, result: Result<Diagnostic, DecodeError>): Option<Entry>
    requires item.Member?
  {
    match result
    case Ok(d) => if first then Some(DiagnosticEntry(d)) else None
    case Err(e) => Some(Raw(item.record, Some(e)))
  }

  /**
   The entry at position `p`, if any: a record's own; the diagnostic of its group, at the group's
   first record; or, when the group fails, the record itself with the group's error.
   */
  function EntryAt(items: seq<Item>, p: nat, decode: GroupDecoder): Option<Entry>
    requires p < |items|
  {
    match items[p]
    case Own(entry) => Some(entry)
    case Member(base, _, _) => MemberEntry(items[p], Members(items, p, base) == [], GroupResult(items, base, decode))
  }

  function Put(placed: seq<(nat, Entry)>, p: nat, e: Option<Entry>): seq<(nat, Entry)> {
    match e
    case None => placed
    case Some(entry) => placed + [(p, entry)]
  }

  function PlacedEntries(items: seq<Item>, n: nat, decode: GroupDecoder): seq<(nat, Entry)>
    requires n <= |items|
  {
    if n == 0 then [] else Put(PlacedEntries(items, n - 1, decode), n - 1, EntryAt(items, n - 1, decode))
  }

  function Strip(placed: seq<(nat, Entry)>): (r: seq<Entry>)
    ensures |r| == |placed|
  {
    if placed == [] then [] else [placed[0].1] + Strip(placed[1..])
  }

  /** The entries of a pool, in pool order. */
  function EntriesOf(items: seq<Item>, decode: GroupDecoder): seq<Entry> {
    Strip(PlacedEntries(items, |items|, decode))
  }

  // The entries that a set of finished groups accounts for.

  predicate Covered(item: Item, done: set<Text>) {
    item.Member? ==> item.base in done
  }

  function CoveredEntries(items: seq<Item>, n: nat, done: set<Text>, decode: GroupDecoder): seq<(nat, Entry)>
    requires n <= |items|
  {
    if n == 0 then []
    else
      var before := CoveredEntries(items, n - 1, done, decode);
      if Covered(items[n - 1], done) then Put(before, n - 1, EntryAt(items, n - 1, decode)) else before
  }

  function GroupEntries(items: seq<Item>, n: nat, base: Text, decode: GroupDecoder): seq<(nat, Entry)>
    requires n <= |items|
  {
    if n == 0 then []
    else
      var before := GroupEntries(items, n - 1, base, decode);
      if InGroup(items[n - 1], base) then Put(before, n - 1, EntryAt(items, n - 1, decode)) else before
  }

  /** What the loop pushes for a failed group: every member, with the group's error. */
  function Expanded(ms: seq<Placed>, error: DecodeError): (r: seq<(nat, Entry)>)
    ensures |r| == |ms|
  {
    if ms == [] then [] else [(ms[0].position, Raw(ms[0].record, Some(error)))] + Expanded(ms[1..], error)
  }

  lemma {:induction false} ExpandedSnoc(a: seq<Placed>, m: Placed, error: DecodeError)
    ensures Expanded(a + [m], error) == Expanded(a, error) + [(m.position, Raw(m.record, Some(error)))]
  {
    if a == [] {
      assert ([] + [m])[1..] == [];
    } else {
      assert (a + [m])[1..] == a[1..] + [m];
      ExpandedSnoc(a[1..], m, error);
    }
  }

  lemma PutMultiset(placed: seq<(nat, Entry)>, p: nat, e: Option<Entry>)
    ensures multiset(Put(placed, p, e)) == multiset(placed) + if e.None? then multiset{} else multiset{(p, e.value)}
  {
  }

  lemma {:induction false} CoverOne(items: seq<Item>, n: nat, done: set<Text>, base: Text, decode: GroupDecoder)
    requires n <= |items| && base !in done
    ensures multiset(CoveredEntries(items, n, done + {base}, decode)) ==
            multiset(CoveredEntries(items, n, done, decode)) + multiset(GroupEntries(items, n, base, decode))
  {
    hide EntryAt;
    if n > 0 {
      CoverOne(items, n - 1, done, base, decode);
      var e := EntryAt(items, n - 1, decode);
      PutMultiset(CoveredEntries(items, n - 1, done + {base}, decode), n - 1, e);
      PutMultiset(CoveredEntries(items, n - 1, done, decode), n - 1, e);
      PutMultiset(GroupEntries(items, n - 1, base, decode), n - 1, e);
    }
  }

  lemma {:induction false} FailedGroup(items: seq<Item>, n: nat, base: Text, decode: GroupDecoder)
    requires n <= |items| && GroupResult(items, base, decode).Err?
    ensures GroupEntries(items, n, base, decode) ==
            Expanded(Members(items, n, base), GroupResult(items, base, decode).error)
  {
    if n > 0 {
      FailedGroup(items, n - 1, base, decode);
      if InGroup(items[n - 1], base) {
        ExpandedSnoc(Members(items, n - 1, base), Placed(n - 1, items[n - 1].record, items[n - 1].part),
                     GroupResult(items, base, decode).error);
      }
    }
  }

  lemma {:induction false} DecodedGroup(items: seq<Item>, n: nat, base: Text, decode: GroupDecoder)
    requires n <= |items| && GroupResult(items, base, decode).Ok?
    ensures var ms := Members(items, n, base);
            GroupEntries(items, n, base, decode) ==
            if ms == [] then [] else [(ms[0].position, DiagnosticEntry(GroupResult(items, base, decode).value))]
  {
    if n > 0 {
      DecodedGroup(items, n - 1, base, decode);
    }
  }

  lemma {:induction false} AllCovered(items: seq<Item>, n: nat, done: set<Text>, decode: GroupDecoder)
    requires n <= |items| && forall p :: 0 <= p < n ==> Covered(items[p], done)
    ensures CoveredEntries(items, n, done, decode) == PlacedEntries(items, n, decode)
  {
    if n > 0 {
      AllCovered(items, n - 1, done, decode);
    }
  }

  lemma PutStrictly(placed: seq<(nat, Entry)>, p: nat, e: Option<Entry>)
    requires StrictlySorted(placed) && (placed != [] ==> placed[|placed| - 1].0 < p)
    ensures StrictlySorted(Put(placed, p, e))
    ensures Put(placed, p, e) != [] ==> Put(placed, p, e)[|Put(placed, p, e)| - 1].0 < p + 1
  {
  }

  /** Output is strictly ordered by position. */
  lemma {:induction false} PlacedStrictly(items: seq<Item>, n: nat, decode: GroupDecoder)
    requires n <= |items|
    ensures StrictlySorted(PlacedEntries(items, n, decode))
    ensures var r := PlacedEntries(items, n, decode); r != [] ==> r[|r| - 1].0 < n
  {
    hide EntryAt;
    if n > 0 {
      PlacedStrictly(items, n - 1, decode);
      PutStrictly(PlacedEntries(items, n - 1, decode), n - 1, EntryAt(items, n - 1, decode));
    }
  }

  lemma {:induction false} MemberShows(items: seq<Item>, n: nat, p: nat)
    requires p < n <= |items| && items[p].Member?
    ensures Members(items, n, items[p].base) != []
  {
    if p < n - 1 {
      MemberShows(items, n - 1, p);
    }
  }

  // The loops.

  datatype ChunkGroup = ChunkGroup(firstPosition: nat, chunks: seq<Placed>)

  /** The first loop's map after `n` records: every group seen so far, complete so far. */
  ghost predicate Grouped(items: seq<Item>, n: nat, groups: map<Text, ChunkGroup>)
    requires n <= |items|
  {
    && (forall base :: base in groups <==> Members(items, n, base) != [])
    && (forall base :: base in groups ==>
          groups[base] == ChunkGroup(Members(items, n, base)[0].position, Members(items, n, base)))
  }

  function Pushed(groups: map<Text, ChunkGroup>, p: nat, item: Item): map<Text, ChunkGroup>
    requires item.Member?
  {
    var group := if item.base in groups then groups[item.base] else ChunkGroup(p, []);
    groups[item.base := group.(chunks := group.chunks + [Placed(p, item.record, item.part)])]
  }

  lemma GroupedStep(items: seq<Item>, n: nat, groups: map<Text, ChunkGroup>)
    requires n < |items| && Grouped(items, n, groups)
    ensures Grouped(items, n + 1, if items[n].Member? then Pushed(groups, n, items[n]) else groups)
  {
  }

  method CollectGroups(items: seq<Item>, decode: GroupDecoder)
    returns (entries: seq<(nat, Entry)>, groups: map<Text, ChunkGroup>)
    ensures entries == CoveredEntries(items, |items|, {}, decode) && Grouped(items, |items|, groups)
  {
    entries := [];
    groups := map[];
    var position := 0;
    while position < |items|
      invariant 0 <= position <= |items|
      invariant entries == CoveredEntries(items, position, {}, decode)
      invariant Grouped(items, position, groups)
    {
      GroupedStep(items, position, groups);
      match items[position] {
      case Member(_, _, _) =>
        groups := Pushed(groups, position, items[position]);
      case Own(entry) =>
        entries := entries + [(position, entry)];
      }
      position := position + 1;
    }
  }

  /** What the second loop pushes for one group. */
  method DecodeOne(items: seq<Item>, base: Text, group: ChunkGroup, decode: GroupDecoder)
    returns (entries: seq<(nat, Entry)>)
    requires Members(items, |items|, base) != []
    requires group == ChunkGroup(Members(items, |items|, base)[0].position, Members(items, |items|, base))
    ensures entries == GroupEntries(items, |items|, base, decode)
  {
    match decode(base, PartsOf(group.chunks)) {
    case Ok(diagnostic) =>
      DecodedGroup(items, |items|, base, decode);
      return [(group.firstPosition, DiagnosticEntry(diagnostic))];
    case Err(error) =>
      FailedGroup(items, |items|, base, decode);
      return Expanded(group.chunks, error);
    }
  }

  /**
   The hash map is emptied in an arbitrary order; the contract says that the result does not
   depend on it.
   */
  method GroupAndDecode(items: seq<Item>, decode: GroupDecoder) returns (r: seq<Entry>)
    ensures r == EntriesOf(items, decode) && Conserves(items, decode, r)
  {
    EntriesConserve(items, decode);
    hide EntryAt, GroupEntries, GroupResult, Members, Expanded, Conserves;
    var entries, groups := CollectGroups(items, decode);
    var todo := groups.Keys;
    ghost var done: set<Text> := {};
    while todo != {}
      invariant done + todo == groups.Keys && done !! todo
      invariant multiset(entries) == multiset(CoveredEntries(items, |items|, done, decode))
      decreases |todo|
    {
      var base :| base in todo;
      CoverOne(items, |items|, done, base, decode);
      var group := DecodeOne(items, base, groups[base], decode);
      entries := entries + group;
      todo := todo - {base};
      done := done + {base};
    }
    EveryGroup(items, groups);
    AllCovered(items, |items|, groups.Keys, decode);
    PlacedStrictly(items, |items|, decode);
    SortOfPermutation(entries, PlacedEntries(items, |items|, decode));
    return Strip(Sort(entries));
  }

  lemma EveryGroup(items: seq<Item>, groups: map<Text, ChunkGroup>)
    requires Grouped(items, |items|, groups)
    ensures forall p :: 0 <= p < |items| ==> Covered(items[p], groups.Keys)
  {
    forall p | 0 <= p < |items|
      ensures Covered(items[p], groups.Keys)
    {
      if items[p].Member? {
        MemberShows(items, |items|, p);
      }
    }
  }

  // Conservation.

  /** The first member of a group: earlier positions have none. */
  lemma {:induction false} FirstMember(items: seq<Item>, n: nat, base: Text)
    requires n <= |items| && Members(items, n, base) != []
    ensures var q := Members(items, n, base)[0].position;
            && q < n && InGroup(items[q], base) && Members(items, q, base) == []
            && forall p :: 0 <= p < n && InGroup(items[p], base) ==> q <= p
  {
    if Members(items, n - 1, base) != [] {
      FirstMember(items, n - 1, base);
    } else {
      forall p | 0 <= p < n - 1
        ensures !InGroup(items[p], base)
      {
        if InGroup(items[p], base) {
          MemberShows(items, n - 1, p);
        }
      }
    }
  }

  /** The position whose entry accounts for the record at `p`. */
  function AccountedAt(items: seq<Item>, p: nat, decode: GroupDecoder): nat
    requires p < |items|
  {
    match items[p]
    case Own(_) => p
    case Member(base, _, _) =>
      if GroupResult(items, base, decode).Err? then p
      else
        MemberShows(items, |items|, p);
        Members(items, |items|, base)[0].position
  }

  /** Every record is accounted for, by its own entry or by the diagnostic of its group. */
  lemma Accounted(items: seq<Item>, p: nat, decode: GroupDecoder)
    requires p < |items|
    ensures var q := AccountedAt(items, p, decode);
            && q <= p
            && (match items[p]
                case Own(entry) => EntryAt(items, q, decode) == Some(entry)
                case Member(base, record, _) =>
                  InGroup(items[q], base) &&
                  match GroupResult(items, base, decode)
                  case Ok(d) => EntryAt(items, q, decode) == Some(DiagnosticEntry(d))
                  case Err(e) =>
                    q == p && EntryAt(items, q, decode) == Some(RawEntry(record.key, record.value, Some(e))))
  {
    if items[p].Member? {
      MemberShows(items, |items|, p);
      FirstMember(items, |items|, items[p].base);
    }
  }

  /**
   And by one entry only: the entry at `q` accounts for the record at `q` and, when it is the
   diagnostic of a decoded group, for exactly the other members of that group.
   */
  lemma AccountedOnce(items: seq<Item>, p: nat, q: nat, decode: GroupDecoder)
    requires p < |items| && q < |items| && EntryAt(items, q, decode).Some?
    ensures AccountedAt(items, p, decode) == q <==>
            || p == q
            || (items[q].Member? && InGroup(items[p], items[q].base) && GroupResult(items, items[q].base, decode).Ok?)
  {
    Accounted(items, p, decode);
    Accounted(items, q, decode);
    if items[q].Member? {
      MemberShows(items, |items|, q);
      FirstMember(items, |items|, items[q].base);
      FirstIsLeast(items, q, items[q].base);
    }
  }

  lemma {:induction false} FirstIsLeast(items: seq<Item>, q: nat, base: Text)
    requires q < |items| && InGroup(items[q], base)
    ensures Members(items, q, base) == [] ==>
              Members(items, |items|, base) != [] && Members(items, |items|, base)[0].position == q
  {
    MemberShows(items, |items|, q);
    FirstMember(items, |items|, base);
    if Members(items, q, base) == [] {
      var f := Members(items, |items|, base)[0].position;
      if f < q {
        MemberShows(items, q, f);
      }
    }
  }

  /** The entry at each position is in the output, and nothing else is. */
  lemma {:induction false} OutputIsEntries(items: seq<Item>, n: nat, decode: GroupDecoder, p: nat, e: Entry)
    requires n <= |items|
    ensures (p, e) in PlacedEntries(items, n, decode) <==> p < n && EntryAt(items, p, decode) == Some(e)
  {
    if n > 0 {
      OutputIsEntries(items, n - 1, decode, p, e);
    }
  }

  /** The entry `e` accounts for the record at `p`: it is its own, its group's, or the record itself. */
  predicate AccountsFor(items: seq<Item>, p: nat, e: Entry, decode: GroupDecoder)
    requires p < |items|
  {
    match items[p]
    case Own(entry) => e == entry
    case Member(base, record, _) =>
      match GroupResult(items, base, decode)
      case Ok(d) => e == DiagnosticEntry(d)
      case Err(error) => e == RawEntry(record.key, record.value, Some(error))
  }

  ghost predicate Accounts(items: seq<Item>, p: nat, placed: seq<(nat, Entry)>, decode: GroupDecoder)
    requires p < |items|
  {
    exists e: Entry :: (AccountedAt(items, p, decode), e) in placed && AccountsFor(items, p, e, decode)
  }

  /**
   The output is strictly ordered by position, has an entry at exactly the positions that have one,
   and accounts for every record.
   */
  ghost predicate Conserves(items: seq<Item>, decode: GroupDecoder, r: seq<Entry>) {
    exists placed: seq<(nat, Entry)> ::
      && r == Strip(placed) && StrictlySorted(placed)
      && (forall p: nat, e: Entry :: (p, e) in placed <==> p < |items| && EntryAt(items, p, decode) == Some(e))
      && forall p: nat :: p < |items| ==> Accounts(items, p, placed, decode)
  }

  lemma AccountsAt(items: seq<Item>, p: nat, decode: GroupDecoder)
    requires p < |items|
    ensures Accounts(items, p, PlacedEntries(items, |items|, decode), decode)
  {
    Accounted(items, p, decode);
    var q := AccountedAt(items, p, decode);
    hide PlacedEntries, AccountedAt;
    var e := EntryAt(items, q, decode).value;
    OutputIsEntries(items, |items|, decode, q, e);
    assert AccountsFor(items, p, e, decode);
  }

  lemma EntriesConserve(items: seq<Item>, decode: GroupDecoder)
    ensures Conserves(items, decode, EntriesOf(items, decode))
  {
    hide PlacedEntries, EntryAt, Accounts, Strip;
    var placed := PlacedEntries(items, |items|, decode);
    PlacedStrictly(items, |items|, decode);
    forall p: nat, e: Entry
      ensures (p, e) in placed <==> p < |items| && EntryAt(items, p, decode) == Some(e)
    {
      OutputIsEntries(items, |items|, decode, p, e);
    }
    forall p: nat | p < |items|
      ensures Accounts(items, p, placed, decode)
    {
      AccountsAt(items, p, decode);
    }
  }
}
