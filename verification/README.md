# A verified model of libazureinit-kvp

`libazureinit-kvp` keeps telemetry in a small record database in one file, frames diagnostics over
it, and reads them back. This project models its core in Dafny and proves what it is for.

**The pool store** (`Handle`, `PoolIter`, `Store`, over `PoolLayout`). A file of 2560-byte records is
edited in place by a cursor that swap-removes, overwrites and appends while it iterates. `PoolFile`,
`Handle`, `KvpPoolIter` and `KvpPoolStore` are classes with the fields of the source; every handle
operation may fail, by a schedule of faults that each call draws from. A handle reads the contents
only while it holds both locks and changes them only while it holds both exclusively, and each
operation takes them once: the file records the mode of every section under the locks. Each store method is proved
against a function on the sequence of records (`PoolSpec`), and what the documentation promises is
proved of those functions: deletion is multiset filtering, insertion collapses duplicates in place.
`ReadOrder` gives the closed form of a delete, record by record.

**The lock protocol** (`PoolOps`, `StoreOps`, `LockProtocol`). Operations run in the small steps that
other processes could observe. The store's methods do what those steps add up to, and a fault leaves
the file in a state that the steps pass through. Any number of library processes, `fcntl`-only
daemons and `flock`-only cloud-init processes take turns in any order. In every run, writers exclude
everybody, operations take effect atomically in the order of the log, and from every state all can
still end.

**Diagnostics** (`Framing`, `Writer`, `Reader`, `Grouping`, `RoundTrip`, `Delivery`, `Telemetry`). The
writer cuts a payload greedily at character boundaries, provably with the fewest chunks, into records
that a dump accepts. The reader groups through a hash map that yields its groups in any order, and
conserves records. Through a pool that other operations keep reordering, in any run of the lock
protocol, each emitted diagnostic comes back exactly once, and one that was written in part comes
back as far as it was written.

**Texts** (`Csv`, `Report`, `Logging`, `SupportingData`, `CloudInitKeys`, `CloudInitChunks`,
`CloudInitDelivery`, `JsonStrings`, `Durations`). Exact languages and round trips of the report codec
and its quoting automaton, the quoted list of the command line, cloud-init keys and messages, and
durations. What the functions on both sides of a round trip share, every name, separator, digit and
bound, is also stated as literal text: `PoolLayout.DecodesExactly`, `Writer.BaseIsText`,
`Reader.ItemExactly` and `HeaderExactly`, `Report.LayoutTexts` and `ParsesExactly`,
`SupportingData.ParsedExactly`, `Durations.FormattedText`, `CloudInitKeys.SplitExactly` and
`CloudInitChunks.PartsExactly` say which texts are written and accepted without those functions.

Strings are their UTF-8 bytes (`Bytes.Text`), so lengths, slices and delimiters mean what they mean
in the source; `Typed` says that the texts of a diagnostic are UTF-8, as the source's string type
does. 64-bit and 32-bit bounds are written out. chrono, flate2 with base64, the floating-point
fallback for durations and the cloud-init value decoder are fields of `Diagnostics.Libraries`.
`Renders` says that what they write is text; `Writer.Faithful` says what a round trip needs, of the
diagnostic's own timestamp and payload only: parsing undoes formatting the one, decompressing undoes
compressing the other. The time and fresh ids arrive inside the diagnostic.

Some properties hold only under a condition, which is then proved to be exact:

- A report survives encoding and parsing if and only if it is `Readable` (`Report.RoundTripExactly`,
  and `BuiltRoundTripExactly` in terms of the builder methods). A success with a help URL loses the
  URL, an extra key with `=` is cut, and an extra key with a standard name makes the report
  unreadable, except that a `documentation_url` on a failure without one becomes its help URL
  (`SuccessLosesUrl`, `EqualsMovesIntoValue`, `StandardNameExactly`).
- Lost chunks of a plain-text diagnostic are noticed if and only if they are not a tail; of a
  compressed one, a lost tail is left to the decompressor (`RoundTrip.LostChunksExactly`). A batch cut
  short loses just a tail, so plain text comes back cut short (`Delivery.GroupComesBack`).
- Deleting or inserting one key leaves `read` of another unchanged if and only if the record that
  ends up last, told from where the records stand before, has the same value
  (`ReadOrder.DeleteKeepsReadExactly`, `InsertKeepsReadExactly`; `PoolSpec.SwapsReorderDuplicates`,
  `InsertReordersDuplicates`).
- A delete or insert of other keys that is cut short leaves a diagnostic readable if and only if it
  was not stopped just after copying one of its chunks (`Delivery.CutShortRemoval`,
  `RemovalBreaksGroup`).
- Two processes can write at once if and only if one is the daemon and the other cloud-init
  (`LockProtocol.WritersOverlapExactly`, `ForeignersOverlap`).
- A number behind a cloud-init base key is read as its index if and only if the key has a VM id or
  the digits do not look like a UUID, as 32 digits with leading zeros do
  (`CloudInitKeys.SplitExactly`).
- A payload can be framed under a base key if and only if some split of it has at most 1023 pieces and
  a last key that fits (`Framing.FramesExactly`).
- The fallback append of `write_provisioning_report` makes the only report of the pool if and only if
  nobody has stored one since its insert failed (`Logging.AppendOnlyExactly`, `RacingReports`).

## Model

| member | source | states |
|---|---|---|
| `PoolLayout.DecodeRecord` | libazureinit-kvp/src/store.rs:627-653 | a block decodes exactly when it has the record size and both fields, up to their first NUL, are UTF-8; those fields are the result |
| `PoolLayout.DecodesExactly` | libazureinit-kvp/src/store.rs:627-653 | 2560 bytes are a record exactly when the first 512 and the other 2048 are each some UTF-8 text, followed by nothing or by a NUL and anything; another length is no record |
| `PoolLayout.RecordBytes` | libazureinit-kvp/src/store.rs:659-671 | an encoded record is the key and NULs up to 512 bytes, then the value and NULs up to 2048 |
| `PoolLayout.EncodeDecode` | libazureinit-kvp/src/store.rs:627-671 | decoding undoes encoding for every key and value that validation lets through |
| `PoolLayout.WriteBlock` | libazureinit-kvp/src/store.rs:1020-1023 | writing one block at a record boundary replaces that record and no other |
| `PoolLayout.WriteValueField` | libazureinit-kvp/src/store.rs:974-985 | writing a padded value field changes the value of that record only, whatever stands behind the NUL of its key |
| `PoolLayout.OverwrittenField` | libazureinit-kvp/src/store.rs:974-985 | an overwritten value reads as the text up to its first NUL, cut to the field |
| `PoolLayout.AppendBlock` | libazureinit-kvp/src/store.rs:921-929 | writing a block at the end of the file appends one record |
| `PoolLayout.TruncateBlocks` | libazureinit-kvp/src/store.rs:1038-1040 | cutting the file at a record boundary keeps exactly the records before it |
| `Handles.Handle.ReadExact` | libazureinit-kvp/src/store.rs:725-728 | under both locks, reads exactly that many bytes at the position, or fails |
| `Handles.Handle.WriteAll` | libazureinit-kvp/src/store.rs:725-728 | with both locks held exclusively, writes all bytes at the position, or leaves the file as it was |
| `Handles.Handle.SetLen` | libazureinit-kvp/src/store.rs:730 | with both locks held exclusively, cuts or zero-extends the file, or leaves it as it was |
| `PoolLayout.WrittenBytes` | libazureinit-kvp/src/store.rs:725-728 | what a write leaves, byte by byte, with zeros between an old end and the position |
| `PoolLayout.ResizedBytes` | libazureinit-kvp/src/store.rs:730 | what a cut or an extension leaves, byte by byte |
| `Handles.Handle.Lock` | libazureinit-kvp/src/store.rs:682-702 | both locks are taken in the given mode, which is put on record, or none is kept; a failed `fcntl` leaves a `flock` only if its unlock failed as well |
| `PoolIters.KvpPoolIter.Open` | libazureinit-kvp/src/store.rs:936-957 | opening takes both locks, shared or exclusively as asked, rejects a file that is not whole records, and stands at record 0 |
| `PoolIters.KvpPoolIter.Next` | libazureinit-kvp/src/store.rs:1047-1060 | yields the record at `currentIndex` and keeps position and index in step, also past the end |
| `PoolIters.KvpPoolIter.Append` | libazureinit-kvp/src/store.rs:921-929 | needs both locks exclusively; appends one record mid-iteration and returns to where iteration stood; any key and value are accepted and stored as a reader will see them, up to their first NUL and cut to their fields; a fault leaves the old file or the appended one |
| `PoolIters.KvpPoolIter.OverwriteCurrentValue` | libazureinit-kvp/src/store.rs:965-985 | replaces the value of the record last yielded, or, with the cursor one past the end, adds a value field behind the last record; a fault leaves the file as it was |
| `PoolIters.KvpPoolIter.MoveLastOver` | libazureinit-kvp/src/store.rs:1013-1031 | copies the last record over the removed one and rewinds to it |
| `PoolIters.KvpPoolIter.RemoveCurrent` | libazureinit-kvp/src/store.rs:1002-1042 | swap-removes the record last yielded and leaves the cursor on the swapped-in record, or one past the end after the last; called again there it copies the last record behind the file and cuts both off; with no record left it fails and changes nothing; a fault loses at most the removed record |
| `Store.ValidateKey` | libazureinit-kvp/src/store.rs:877-889 | a key passes exactly when it is non-empty, NUL-free and within the limit; otherwise the matching error |
| `Store.ValidateValue` | libazureinit-kvp/src/store.rs:891-901 | a value passes exactly when it is NUL-free and within the limit |
| `Store.ValidExactly` | libazureinit-kvp/src/store.rs:877-901 | what a pool accepts, and the exact error of everything else: 254 and 1022 bytes in a safe pool, 512 and 2048 in an unsafe one, the key before the value |
| `Store.KvpPoolStore.Append` | libazureinit-kvp/src/store.rs:131-142 | one record is appended, or nothing, or (on a late fault) the record with an error; all in one section under both locks held exclusively, and flushed on success |
| `Store.KvpPoolStore.AppendMultiple` | libazureinit-kvp/src/store.rs:150-174 | validated first; on success the whole batch stands behind the old records, flushed; on any fault a prefix of it does; one section under both locks held exclusively |
| `Store.KvpPoolStore.WriteRecordsLocked` | libazureinit-kvp/src/store.rs:500-516 | replaces or appends in one section, with both locks held exclusively from the first byte to the last, and flushes; on a fault the old records (or none) and a prefix of the batch are left |
| `Store.KvpPoolStore.AppendAll` | libazureinit-kvp/src/store.rs:511-513 | the shared loop appends in order; a fault leaves a prefix |
| `Store.KvpPoolStore.Load` | libazureinit-kvp/src/store.rs:537-563 | replaces the pool by the given records when they have at most 1024 distinct keys, and changes nothing otherwise; one exclusive section, flushed on success |
| `Store.KvpPoolStore.Clear` | libazureinit-kvp/src/store.rs:177-188 | empties any file, whole records or not, under both locks held exclusively; a fault leaves it untouched |
| `Store.KvpPoolStore.RemoveMatching` | libazureinit-kvp/src/store.rs:229-240 | the shared loop of both deletes computes the deleting walk and counts what it removed; wherever a fault ends it, the file is a state that walk passes through |
| `Store.KvpPoolStore.Delete` | libazureinit-kvp/src/store.rs:216-244 | refines multiset filtering for one key, reports whether the key occurred, succeeds without faults exactly on readable pools; a fault leaves a state the walk passes through; one exclusive section, flushed on success |
| `Store.KvpPoolStore.DeleteMultiple` | libazureinit-kvp/src/store.rs:251-290 | the same for a set of keys, with the exact number of records removed; the first invalid key is reported before any I/O |
| `Store.KvpPoolStore.KeepOrRemove` | libazureinit-kvp/src/store.rs:360-367 | at a record for the key: the first gets the new value, any other is removed |
| `Store.KvpPoolStore.InsertLoop` | libazureinit-kvp/src/store.rs:351-368 | the loop of `insert` computes the inserting walk; the key it targets is never lost by a fault, and a fault leaves a state that walk passes through |
| `Store.KvpPoolStore.FinishInsert` | libazureinit-kvp/src/store.rs:370-379 | a key not found is appended unless the cap is reached, and then nothing is written |
| `Store.KvpPoolStore.Insert` | libazureinit-kvp/src/store.rs:343-382 | one record for the key at the place of its old first one, or appended; `MaxUniqueKeysExceeded` exactly when the key is absent and 1024 distinct keys exist, with the file unchanged; any other fault leaves a state the steps of the insert pass through; one exclusive section, flushed on success |
| `Store.KvpPoolStore.Dump` | libazureinit-kvp/src/store.rs:296-313 | every record in pool order, or an error, never part of them; one section under both locks held shared |
| `Store.KvpPoolStore.Read` | libazureinit-kvp/src/store.rs:570-592 | the value of the last record for the key, from one shared section |
| `Store.KvpPoolStore.Entries` | libazureinit-kvp/src/store.rs:319-337 | one value per key, the last one, from one shared section |
| `PoolSpec.LastValueExactly` | libazureinit-kvp/src/store.rs:570-592 | that value is the one of the record behind which none has the key, and there is none exactly when no record has it |
| `Store.EntriesAreReads` | libazureinit-kvp/src/store.rs:315-337 | `entries` and `read` agree on every key |
| `PoolSpec.VisitsEachOnce` | libazureinit-kvp/src/store.rs:229-235 | despite swap-ins a deleting walk yields every record it started with exactly once |
| `PoolSpec.DeleteWalkResult` | libazureinit-kvp/src/store.rs:229-240 | a deleting walk succeeds exactly when every record of the pool decodes |
| `PoolSpec.DeleteFromFilters` | libazureinit-kvp/src/store.rs:216-244 | the walk keeps the prefix it passed, keeps the multiset of untargeted records and leaves no target |
| `PoolSpec.DeleteIsFilter` | libazureinit-kvp/src/store.rs:216-244 | what a delete leaves is the multiset of the non-matching records |
| `PoolSpec.OthersCount` | libazureinit-kvp/src/store.rs:216-244 | the multiset those results speak of: every record with another key as often as it stands in the pool, and no record with one of the keys |
| `PoolSpec.RemovedCount` | libazureinit-kvp/src/store.rs:247-290 | the number of records removed is the number that matched, duplicates counted separately |
| `PoolSpec.SwapRemoveOthers` | libazureinit-kvp/src/store.rs:1002-1042 | removing a targeted record keeps the others; stopping between the move and the truncation only adds a copy |
| `PoolSpec.SameOthersKeepsReads` | libazureinit-kvp/src/store.rs:210-244 | after a delete or insert of other keys, `read` of a key whose records agree (in particular one that occurs once) is unchanged |
| `PoolSpec.SwapsReorderDuplicates` | libazureinit-kvp/src/store.rs:215 | a pool in which deleting one key changes what `read` gives for another key with differing duplicates |
| `PoolSpec.InsertReordersDuplicates` | libazureinit-kvp/src/store.rs:351-368 | a pool in which inserting one key does |
| `ReadOrder.DeletePlaces` | libazureinit-kvp/src/store.rs:1002-1042 | where every record stands after a delete: survivors below the new end stay, and the holes there are filled from left to right by the survivors behind it, taken from the right |
| `ReadOrder.ReadAfterDelete` | libazureinit-kvp/src/store.rs:216-244 | which record of an untargeted key is last after a delete, told from where its records stand before |
| `ReadOrder.DeleteKeepsReadExactly` | libazureinit-kvp/src/store.rs:210-244 | a delete leaves `read` of an untargeted key unchanged if and only if that record has the value of the one that is last before |
| `ReadOrder.InsertKeepsReadExactly` | libazureinit-kvp/src/store.rs:339-382 | the same for an insert, whose walk begins behind the first record of its key |
| `PoolSpec.InsertWalkResult` | libazureinit-kvp/src/store.rs:351-368 | the loop of `insert` reads every record once, finds the key exactly when it is there, and collects exactly the distinct keys |
| `PoolSpec.InsertRefines` | libazureinit-kvp/src/store.rs:339-382 | an insert leaves one record for its key, at its first place, the prefix before it untouched, and the multiset of other records unchanged |
| `PoolOps.OutcomeAtStart` | libazureinit-kvp/src/store.rs:131-382 | the small steps of an operation begin on the way to its atomic effect |
| `PoolOps.WorkKeepsOutcome` | libazureinit-kvp/src/store.rs:131-382 | every small step (append, move, truncate, overwrite, read) keeps the outcome of its operation and comes closer to it |
| `PoolOps.OutcomeAtEnd` | libazureinit-kvp/src/store.rs:131-382 | where the steps end, the pool and the result are those of the atomic operation |
| `PoolOps.ReachedOutcome` | libazureinit-kvp/src/store.rs:131-382 | in every state that the steps of an operation pass through, its outcome is that of the atomic operation |
| `PoolOps.InterruptedOthers` | libazureinit-kvp/src/store.rs:1002-1042 | a delete or insert cut short anywhere has kept every untargeted record, and has at most the last record of the file twice |
| `PoolOps.WorkKeepsReadable` | libazureinit-kvp/src/store.rs:631-653 | an operation that writes UTF-8 reads every record of a readable pool and leaves it readable at each step |
| `StoreOps.Perform` | libazureinit-kvp/src/store.rs:131-382 | each of the ten public operations takes both locks at most once, in the mode that the protocol gives its action; if it succeeds, it does exactly that atomic action and returns its result, flushed; if it fails, the file is a state that the small steps of that action pass through |
| `LockProtocol.StepKeepsInv` | libazureinit-kvp/src/store.rs:672-702 | the lock tables, the log and the pool stay consistent under every step of any library process, daemon or cloud-init |
| `LockProtocol.RunInv` | libazureinit-kvp/src/store.rs:672-702 | the same for every state of every run |
| `LockProtocol.WriterAlone` | libazureinit-kvp/src/store.rs:672-702 | a library writer inside holds both locks exclusively and nobody else holds either |
| `LockProtocol.WhatIsHeld` | libazureinit-kvp/src/store.rs:672-702 | what each process holds in every state: a library process `flock` first and `fcntl` only once inside, both in its mode; the daemon `fcntl`, cloud-init `flock` |
| `LockProtocol.MutualExclusion` | libazureinit-kvp/src/store.rs:672-702 | in every run, while a library writer is inside no other process of any kind is |
| `LockProtocol.InsideKeepsWritersOut` | libazureinit-kvp/src/store.rs:672-702 | while any library operation is inside nobody else can change the pool |
| `LockProtocol.EndedHoldsNothing` | libazureinit-kvp/src/store.rs:682-702 | a process that has failed or finished, at any point, holds neither lock |
| `LockProtocol.DumpsAreAtomic` | libazureinit-kvp/src/store.rs:292-313 | every completed operation returns what it returns alone after all events logged before it; a dump is exactly the pool they leave |
| `LockProtocol.BatchesDoNotInterleave` | libazureinit-kvp/src/store.rs:144-174 | a completed batch stands in one piece; an aborted one leaves a prefix of itself in one piece |
| `LockProtocol.PoolIsLogged` | libazureinit-kvp/src/store.rs:490-516 | while no library writer is inside, the pool is the replay of the log |
| `LockProtocol.NoDeadlock` | libazureinit-kvp/src/store.rs:672-702 | in no reachable state are unfinished processes all stuck |
| `LockProtocol.EverybodyCanEnd` | libazureinit-kvp/src/store.rs:672-702 | from every reachable state a continuation without new failures leads to a state in which every process has ended |
| `LockProtocol.RunStaysReadable` | libazureinit-kvp/src/store.rs:672-702 | a readable pool into which library processes and other programs write only UTF-8 stays readable in every run, and no operation is ever turned away by an undecodable record |
| `LockProtocol.RunsInTurn` | libazureinit-kvp/src/store.rs:672-702 | any operations that write UTF-8 can run one after the other on a readable pool: some run completes them in that order, each with its atomic result, and nothing else happens |
| `LockProtocol.WritersOverlapExactly` | libazureinit-kvp/src/store.rs:672-675 | two processes can both be writing only if one is cloud-init and the other the daemon |
| `LockProtocol.ForeignersOverlap` | libazureinit-kvp/src/store.rs:672-675 | and that pair does occur: only the double lock keeps either out |
| `Utf8.ValidSplit` | libazureinit-kvp/src/diagnostics/writer.rs:375-379 | cutting UTF-8 text at a character boundary leaves two well-formed halves |
| `Utf8.BoundaryNearby` | libazureinit-kvp/src/diagnostics/writer.rs:375-378 | a character boundary is at most three bytes to the left |
| `Utf8.EncodedScalarValid` | libazureinit-kvp/src/diagnostics/cloud_init.rs:115-116 | the encoding of a scalar value is one well-formed character |
| `Utf8.EncodedBits` | libazureinit-kvp/src/diagnostics/cloud_init.rs:115-116 | the bits of an encoded scalar value, read back as section 3 of RFC 3629 lays them out, are its value |
| `Utf8.ValidExactly` | libazureinit-kvp/src/store.rs:636-648 | well-formed are exactly the concatenated encodings of scalar values |
| `Utf8.BoundaryExactly` | libazureinit-kvp/src/diagnostics/writer.rs:375-379 | the boundaries of well-formed text are exactly the places that cut it into two well-formed halves |
| `Decimals.ParseUnsigned` | libazureinit-kvp/src/diagnostics/mod.rs:26-31 | accepts exactly non-empty digit runs below 2^64, with their value |
| `Decimals.DigitsExactly` | libazureinit-kvp/src/diagnostics/mod.rs:26-31 | the digits are `0` to `9`, and each further one adds to ten times the value |
| `Decimals.DecimalLength` | libazureinit-kvp/src/diagnostics/cloud_init.rs:27-31 | a number below a power of ten has at most that many digits |
| `Delimited.SplitJoin` | libazureinit-kvp/src/diagnostics/reader.rs:175-179 | splitting undoes joining when no field holds the delimiter |
| `Delimited.JoinSplit` | libazureinit-kvp/src/diagnostics/cloud_init.rs:46 | joining undoes splitting, always |
| `Delimited.RSplitOnceParts` | libazureinit-kvp/src/diagnostics/reader.rs:166-169 | `rsplit_once` fails exactly without a delimiter, and otherwise splits at the last one |
| `Durations.FractionExact` | libazureinit-kvp/src/diagnostics/reader.rs:262-275 | the fraction is accepted exactly with one to nine digits; its u32 product stays below 10^9 and is the exact number of nanoseconds |
| `Durations.ParseWhole` | libazureinit-kvp/src/diagnostics/reader.rs:253-258 | without a point: exactly the 64-bit numbers, as whole seconds |
| `Durations.ParsePoint` | libazureinit-kvp/src/diagnostics/reader.rs:253-276 | with a point: exactly a 64-bit number and one to nine digits, read as the exact decimal value |
| `Durations.DurationRoundTrip` | libazureinit-kvp/src/diagnostics/writer.rs:67-77 | parsing a formatted duration gives it truncated to the precision, for all durations and precisions |
| `Durations.FormattedText` | libazureinit-kvp/src/diagnostics/writer.rs:67-77 | the text of a duration: plain decimal seconds, and a point with 3, 6 or 9 digits of milli-, micro- or nanoseconds behind it, the rest discarded |
| `Durations.FormattedParses` | libazureinit-kvp/src/diagnostics/writer.rs:67-77 | it parses to whole multiples of 1 000 000 000, 1 000 000, 1 000 or 1 nanoseconds |
| `Framing.CutPoint` | libazureinit-kvp/src/diagnostics/writer.rs:375-378 | the cut is the last character boundary within the room |
| `Framing.StepBack` | libazureinit-kvp/src/diagnostics/writer.rs:375-378 | the stepping loop finds that boundary |
| `Framing.FrameRecords` | libazureinit-kvp/src/diagnostics/writer.rs:358-386 | the framing loop terminates and returns the numbered chunks, or the error of the first key too long or chunk too many |
| `Framing.GreedyLossless` | libazureinit-kvp/src/diagnostics/writer.rs:358-386 | the chunks concatenate to the payload |
| `Framing.GreedyFitting` | libazureinit-kvp/src/diagnostics/writer.rs:358-386 | every chunk is UTF-8 of at most 1022 bytes; all but the last hold at least 1019 |
| `Framing.GreedyAhead` | libazureinit-kvp/src/diagnostics/writer.rs:358-386 | from any boundary on, greedy cutting needs no more chunks than any split does |
| `Framing.GreedyOptimal` | libazureinit-kvp/src/diagnostics/writer.rs:358-386 | no split into well-formed pieces that fit has fewer pieces |
| `Framing.TooManyChunksExactly` | libazureinit-kvp/src/diagnostics/writer.rs:358-386 | with room for a four-digit index, framing fails exactly when no split into 1023 pieces exists, and then with `TooManyChunks` |
| `Framing.FramesExactly` | libazureinit-kvp/src/diagnostics/writer.rs:358-386 | for any base key: framing succeeds if and only if some split into at most 1023 well-formed pieces that fit has a last key that fits; otherwise it reports the chunk limit or the first key that does not fit |
| `Framing.AlwaysFits` | libazureinit-kvp/src/diagnostics/writer.rs:358-386 | with key room, every text of up to 1023 * 1019 bytes is accepted |
| `Writer.ValidateField` | libazureinit-kvp/src/diagnostics/writer.rs:327-349 | a field passes exactly when non-empty, without delimiter and NUL, and within its limit |
| `Writer.CheckedExactly` | libazureinit-kvp/src/diagnostics/writer.rs:277-325 | the checks in their order, with limits of 32, 36, 36 and 30 bytes and the exact error of each, and then the payload that is framed: plain UTF-8 without NUL as it is, or what the compressor makes of it |
| `Writer.BaseIsText` | libazureinit-kvp/src/diagnostics/writer.rs:319-324 | the base key is `DIAG`, agent, VM id, `start`, `finish` or `event`, name, event id, timestamp, `none`, `zlib+b64` or `gz+b64`, `ok`, `error` or nothing, and the duration, joined by bars |
| `Writer.PrepareRecords` | libazureinit-kvp/src/diagnostics/writer.rs:277-325 | the error of the first check that fails, or records that split the payload with the fewest pieces, at most 1023, under the text of the base key with a bar and the index, which splits back; they pass validation in both modes, and decode |
| `Writer.ChunkKeySplits` | libazureinit-kvp/src/diagnostics/writer.rs:319-369 | a base key splits back into its ten fields, a chunk key into base key and index |
| `Writer.PreparedRecordsValidate` | libazureinit-kvp/src/diagnostics/writer.rs:277-386 | all prepared records pass the store's validation in both pool modes |
| `Writer.PreparedRecordsDecode` | libazureinit-kvp/src/diagnostics/writer.rs:277-386 | every prepared record is UTF-8, key and value, so a dump of the pool accepts it |
| `Writer.RecordsWellPrepared` | libazureinit-kvp/src/diagnostics/writer.rs:277-386 | all of these hold of whatever the writer prepares |
| `Reader.OrderChunks` | libazureinit-kvp/src/diagnostics/reader.rs:290-303 | the slice is sorted in place whatever the result; on success it holds the indices 0..n-1, and the errors are told apart as below |
| `Reader.OrderedExactly` | libazureinit-kvp/src/diagnostics/reader.rs:290-303 | ordering succeeds exactly when the indices are a permutation of 0..n-1, and then with the only such order |
| `Reader.RepeatsExactly` | libazureinit-kvp/src/diagnostics/reader.rs:290-295 | `DuplicateChunk` is reported exactly when some index repeats |
| `Reader.OrderedPermuted` | libazureinit-kvp/src/diagnostics/reader.rs:290-303 | the result does not depend on the physical order |
| `Reader.JoinChunks` | libazureinit-kvp/src/diagnostics/reader.rs:278-288 | orders in place, joins, decodes, for any slice |
| `Reader.DecodeGroupPermuted` | libazureinit-kvp/src/diagnostics/reader.rs:171-288 | a group decodes to the same diagnostic or error in every physical order of its chunks |
| `Reader.DecodeGroupInPlace` | libazureinit-kvp/src/diagnostics/reader.rs:131-243 | decoding a group on its mutable slice, whose members are kept whatever the result, gives the order-independent result |
| `Reader.DecodeEntries` | libazureinit-kvp/src/diagnostics/reader.rs:63-164 | the entries are strictly ordered by pool position, stand at exactly the positions that have one, and account for every record; at the place of every record that is no chunk stands what the text of its key says |
| `Reader.ItemExactly` | libazureinit-kvp/src/diagnostics/reader.rs:63-105 | told from the key alone: `DIAG` and `CLOUD_INIT` keys with an index are chunks of their base; a bad one of either is `Malformed`, the report key is parsed as a report, another `DIAG_V` is `UnsupportedVersion`, and anything else stands for itself without an error |
| `Reader.OwnStands` | libazureinit-kvp/src/diagnostics/reader.rs:63-164 | every record that is no chunk has just that entry at its place in the output |
| `Reader.HeaderExactly` | libazureinit-kvp/src/diagnostics/reader.rs:175-216 | a base key is accepted exactly when it has ten such fields, and each field is read as its text says; everything else is `Malformed` |
| `Reader.BodyExactly` | libazureinit-kvp/src/diagnostics/reader.rs:218-243 | `start` without and `finish` with both optional fields, `event` in any case; nothing else |
| `Reader.PayloadExactly` | libazureinit-kvp/src/diagnostics/encoding.rs:56-72 | a payload without encoding is its UTF-8 text, one with a known encoding what the decompressor gives, and anything else `Undecodable` |
| `Grouping.CollectGroups` | libazureinit-kvp/src/diagnostics/reader.rs:64-129 | after the first loop the map holds every group, complete, with its first position |
| `Grouping.DecodeOne` | libazureinit-kvp/src/diagnostics/reader.rs:131-159 | what the second loop pushes for a group: its diagnostic at its first position, or all its members with the error |
| `Grouping.GroupAndDecode` | libazureinit-kvp/src/diagnostics/reader.rs:63-164 | the result is the same for every order in which the map yields its groups |
| `Grouping.PlacedStrictly` | libazureinit-kvp/src/diagnostics/reader.rs:161-163 | the output is strictly ordered by position |
| `Grouping.OutputIsEntries` | libazureinit-kvp/src/diagnostics/reader.rs:131-163 | an entry is output at a position exactly when the record there has one |
| `Grouping.Accounted` | libazureinit-kvp/src/diagnostics/reader.rs:63-164 | every record is accounted for: by its own entry, its group's diagnostic, or itself with its group's error |
| `Grouping.AccountedOnce` | libazureinit-kvp/src/diagnostics/reader.rs:63-164 | and by one entry only; a diagnostic accounts for exactly the members of its group |
| `Grouping.EntriesConserve` | libazureinit-kvp/src/diagnostics/reader.rs:63-164 | together: order, exactness and accounting of the whole output |
| `Sorting.SortOfPermutation` | libazureinit-kvp/src/diagnostics/reader.rs:161-163 | sorting any permutation of a strictly ordered sequence gives that sequence |
| `RoundTrip.PayloadDecodes` | libazureinit-kvp/src/diagnostics/reader.rs:278-288 | the chunks of a payload, in any order, decode to the payload |
| `RoundTrip.HeaderDecodes` | libazureinit-kvp/src/diagnostics/reader.rs:175-216 | a written base key reads back as its metadata, timestamp and duration truncated |
| `RoundTrip.GroupDecodes` | libazureinit-kvp/src/diagnostics/reader.rs:171-243 | a complete group in any physical order decodes to the emitted diagnostic |
| `RoundTrip.ChunkClass` | libazureinit-kvp/src/diagnostics/reader.rs:73-78 | a written key is recognised as chunk `index` of its base key |
| `RoundTrip.OrderedBeginnings` | libazureinit-kvp/src/diagnostics/reader.rs:290-303 | of the chunks of a payload, the sets that pass for complete are exactly its beginnings |
| `RoundTrip.TwiceFails` | libazureinit-kvp/src/diagnostics/reader.rs:290-295 | a group with a chunk twice fails with `DuplicateChunk`, whatever else it holds |
| `RoundTrip.LostChunksExactly` | libazureinit-kvp/src/diagnostics/reader.rs:171-303 | when chunks are lost, the rest decodes only if what is lost is a tail, and then to the payload of the beginning; of plain text, exactly then and always |
| `Delivery.LeftAlone` | libazureinit-kvp/src/store.rs:131-382 | an operation on other keys keeps the chunks of a group, with multiplicity |
| `Delivery.GroupReads` | libazureinit-kvp/src/diagnostics/reader.rs:63-303 | a pool that holds a diagnostic's chunks, in any places, decodes that group to the diagnostic |
| `Delivery.CutGroupReads` | libazureinit-kvp/src/diagnostics/reader.rs:63-303 | a pool that holds only the first chunks of a diagnostic decodes that group to what those chunks decode to |
| `Delivery.GroupComesBack` | libazureinit-kvp/src/diagnostics/reader.rs:63-303 | what a reader sees of the first `n` records of a diagnostic, for every `n`: nothing, what those chunks decode to (for plain text the text so far), or the whole diagnostic once |
| `Delivery.DecodedGroupDelivers` | libazureinit-kvp/src/diagnostics/reader.rs:63-164 | a decoded group gives exactly one entry, at its first record |
| `Delivery.HistoryKeepsGroup` | libazureinit-kvp/src/store.rs:131-382 | what a group holds when an emission, completed or cut short, found it new to the pool and nothing has touched it since, whatever happened before |
| `Delivery.GroupStays` | libazureinit-kvp/src/store.rs:131-382 | what a group holds stays the same under completed operations on other keys, operations cut short unless they double a chunk, and writes of other programs that leave its records alone |
| `Delivery.AbsentStays` | libazureinit-kvp/src/store.rs:177-188 | a group that is not in the pool, say after a clear, stays out of it under the same events |
| `Delivery.AbortedExactly` | libazureinit-kvp/src/store.rs:1002-1042 | an operation on other keys that is cut short keeps the chunks of a group if and only if it is not a removal stopped just after copying one of them |
| `Delivery.CutShortRemoval` | libazureinit-kvp/src/diagnostics/reader.rs:63-303 | after a delete or insert of other keys that was cut short, a diagnostic still comes back exactly once if and only if no chunk of it was left twice; otherwise its group fails with `DuplicateChunk` |
| `Delivery.RemovalBreaksGroup` | libazureinit-kvp/src/store.rs:1002-1042 | an input on which it fails, for every diagnostic: one unrelated record in front, deleted, and cut short after the first write |
| `Delivery.EmissionComesBack` | libazureinit-kvp/src/diagnostics/writer.rs:267-274 | the reader then sees exactly the records that were written: the diagnostic once, nothing, or its first chunks |
| `Delivery.EmittedComesBack` | libazureinit-kvp/src/diagnostics/writer.rs:267-325 | any number of diagnostics with pairwise distinct base keys, each from a writer with its own precisions, new to the pool when they are emitted and not touched afterwards, come back as far as they were written; the history before an emission is arbitrary |
| `Delivery.DumpsDeliver` | libazureinit-kvp/src/diagnostics/reader.rs:47-49 | in every run of the lock protocol, also one that begins with a clear or in which other programs write: a dump that completes has read every record, and gives a reader each emission not touched since as far as it was written: whole, exactly once |
| `Telemetry.DiagnosticWriter.Emit` | libazureinit-kvp/src/diagnostics/writer.rs:267-274 | all records of the diagnostic, or a beginning of them after an I/O error, or none, in one exclusive section; a readable pool stays readable, and into a pool without its group the diagnostic comes back as far as it was written |
| `Telemetry.DiagnosticReader.Entries` | libazureinit-kvp/src/diagnostics/reader.rs:47-49 | the decoded entries of one snapshot of the pool, taken in one shared section, or an error |
| `Telemetry.EmitAndRead` | libazureinit-kvp/src/diagnostics/writer.rs:267-274 | emit, then read: without faults, from any readable pool without the group, the reader returns `Ok` with the diagnostic exactly once |
| `CloudInitKeys.SplitKeyInverts` | libazureinit-kvp/src/diagnostics/cloud_init.rs:26-43 | `split_key` inverts rendering with and without VM id, with and without index |
| `CloudInitKeys.IndexIsNoUuid` | libazureinit-kvp/src/diagnostics/cloud_init.rs:27-31 | a 64-bit index is never a UUID, so six fields are unambiguous |
| `CloudInitKeys.KeyExactly` | libazureinit-kvp/src/diagnostics/cloud_init.rs:45-74 | a base key is accepted exactly when it is `CLOUD_INIT` and the other fields of a key, joined by bars, and is read as that key |
| `CloudInitKeys.SplitExactly` | libazureinit-kvp/src/diagnostics/cloud_init.rs:26-43 | a key splits into base and index exactly when it is a base key, or one with a bar and a 64-bit number behind it; digits in the shape of a UUID are an index only behind a VM id |
| `Uuids.UuidExactly` | libazureinit-kvp/src/diagnostics/cloud_init.rs:68-72 | the accepted spellings: 32 hex digits, or five groups of 8, 4, 4, 4 and 12 with hyphens, alone, in braces or as a URN |
| `CloudInitKeys.SplitKeyAccepts` | libazureinit-kvp/src/diagnostics/cloud_init.rs:26-74 | whatever `split_key` accepts is such a key, up to leading zeros of the index |
| `JsonStrings.UnescapeExactly` | libazureinit-kvp/src/diagnostics/cloud_init.rs:115-116 | unescaping accepts exactly the spellings of section 7 of RFC 8259 and gives each its meaning |
| `JsonStrings.ShortExactly` | libazureinit-kvp/src/diagnostics/cloud_init.rs:115-116 | the one-letter escapes and what each stands for |
| `JsonStrings.HexExactly` | libazureinit-kvp/src/diagnostics/cloud_init.rs:115-116 | the hex digits and their values |
| `JsonStrings.UnitExactly` | libazureinit-kvp/src/diagnostics/cloud_init.rs:115-116 | four of them are a code unit, the highest first |
| `JsonStrings.CombinedExactly` | libazureinit-kvp/src/diagnostics/cloud_init.rs:115-116 | the scalar value of a surrogate pair |
| `JsonStrings.EveryTextSpelled` | libazureinit-kvp/src/diagnostics/cloud_init.rs:115-116 | every text has a spelling |
| `JsonStrings.SpellingQuotes` | libazureinit-kvp/src/diagnostics/cloud_init.rs:122-125 | in a string body every quote stands behind a backslash |
| `JsonStrings.PrefixExactly` | libazureinit-kvp/src/diagnostics/cloud_init.rs:115-116 | of the beginnings of a string body, exactly those that end between two of its elements can be unescaped |
| `CloudInitChunks.ChunkPartsRecover` | libazureinit-kvp/src/diagnostics/cloud_init.rs:121-133 | every slice of an escaped string is recovered exactly: the separator cannot occur in one |
| `CloudInitChunks.PartsExactly` | libazureinit-kvp/src/diagnostics/cloud_init.rs:121-133 | a chunk is taken apart exactly when it is some text, `,"msg":"`, a slice and `"}`, with no later separator |
| `CloudInitChunks.DecodeChunks` | libazureinit-kvp/src/diagnostics/cloud_init.rs:94-119 | the one-pass loop, which compares each chunk with the first, joins exactly what `JoinedExactly` says |
| `CloudInitChunks.JoinedExactly` | libazureinit-kvp/src/diagnostics/cloud_init.rs:94-119 | joining succeeds exactly when the chunks carry the same metadata and their own index and the joined fragments are one escaped string; then with its text, and otherwise with `Malformed` |
| `CloudInitChunks.CutMessageDecodes` | libazureinit-kvp/src/diagnostics/cloud_init.rs:94-133 | however a spelled message is cut, even inside an escape, its first chunks join to what their fragments spell, and all of them to the message |
| `CloudInitDelivery.MessageReads` | libazureinit-kvp/src/diagnostics/reader.rs:63-303 | a pool that holds the first chunk records of a message, anywhere and in any order, decodes their group to the elements they spell, or to `Malformed` when they end inside an escape |
| `CloudInitDelivery.MessageComesBack` | libazureinit-kvp/src/diagnostics/reader.rs:63-303 | a pool that holds all of them gives the reader the diagnostic of the message exactly once |
| `Csv.ValidateReportQuoting` | libazureinit-kvp/src/report.rs:293-323 | succeeds exactly on the records of well-formed fields; the loop is the automaton |
| `Csv.AcceptedExactly` | libazureinit-kvp/src/report.rs:293-323 | accepted are exactly the NUL-free bar-joined records of fully quoted or bare fields, each in one way only |
| `Csv.WriteRead` | libazureinit-kvp/src/report.rs:360-372 | a written record is accepted and read back field by field |
| `Csv.FieldExactly` | libazureinit-kvp/src/report.rs:293-323 | byte by byte: a bare field holds no NUL, line break, quote or bar, a quoted one no NUL and each quote twice, and a bar stands between them |
| `Csv.QuotedExactly` | libazureinit-kvp/src/report.rs:360-372 | a written field is quoted exactly when it holds a bar, a quote or a line break |
| `Csv.WriteLineEnd` | libazureinit-kvp/src/report.rs:209-212 | a written record never ends in a line break, so stripping one eats no payload |
| `Report.FieldList.TakeField` | libazureinit-kvp/src/report.rs:278-291 | takes the one field of that name; two of them are an error that changes nothing |
| `Report.EncodeReport` | libazureinit-kvp/src/report.rs:327-372 | the value is one record of the fields `result=success`, `agent=`, `pps_type=`, `vm_id=`, `timestamp=` and the extras, or `result=error`, `reason=`, `agent=`, the extras, `pps_type=`, `vm_id=`, `timestamp=` and `documentation_url=`, and reads back as them |
| `Report.LayoutTexts` | libazureinit-kvp/src/report.rs:327-358 | those texts, with the five spellings of the PPS type, are what the layout of the report stores |
| `Report.FromStr` | libazureinit-kvp/src/report.rs:208-275 | a report is returned if and only if the value, less one line break, is a well-quoted record of `key=value` fields in which each standard name of a `result=success` or `result=error` stands once, with that report's value, and the others are its extras; everything else is `Malformed` |
| `Report.FieldsExactly` | libazureinit-kvp/src/report.rs:225-275 | which fields, in any order, are those of a report |
| `Report.ParsesExactly` | libazureinit-kvp/src/report.rs:208-275 | which values are the text of a report |
| `Report.EncodingAccepted` | libazureinit-kvp/src/report.rs:327-372 | every encoding of a NUL-free report passes the quoting check, and nothing is stripped off it |
| `Report.ParsedReadable` | libazureinit-kvp/src/report.rs:208-275 | what the parser returns satisfies the round-trip condition |
| `Report.RoundTripExactly` | libazureinit-kvp/src/report.rs:208-372 | parsing an encoded report gives it back if and only if it is NUL-free with a valid timestamp, the optional fields fit its result, and its extra keys are non-empty, `=`-free and not standard names |
| `Report.BuiltRoundTripExactly` | libazureinit-kvp/src/report.rs:140-202 | for reports made by the constructors and `with_` methods: exactly when NUL-free with a valid timestamp, no help URL on a success, and extra keys that are non-empty, `=`-free and not standard names |
| `Report.EveryBuilt` | libazureinit-kvp/src/report.rs:147-202 | those reports are exactly the ones with a reason just when they are failures |
| `Report.SuccessLosesUrl` | libazureinit-kvp/src/report.rs:184-188 | a success with a help URL comes back without it |
| `Report.EqualsMovesIntoValue` | libazureinit-kvp/src/report.rs:190-201 | an extra key with `=` comes back cut at its first `=`, the rest in front of its value |
| `Report.StandardNameExactly` | libazureinit-kvp/src/report.rs:190-201 | a standard name as an extra key: an extra `documentation_url` on a failure without one comes back as the help URL, and in every other case the stored report is rejected as malformed |
| `Report.ReparseSame` | libazureinit-kvp/src/report.rs:208-372 | whatever the parser accepts re-encodes to the same report |
| `Logging.WriteReport` | libazureinit-kvp/src/report.rs:381-386 | the whole report in one record, from one exclusive section; a report too large and a full pool change nothing, and any other error leaves a state that the steps of the insert pass through |
| `Logging.Stored` | src/logging.rs:73-77 | what is stored is the longest prefix within the limit that ends between characters |
| `Logging.WriteProvisioningReport` | src/logging.rs:69-84 | run alone, from any readable pool, full or not, NUL-free text is stored as the only record of its key, and the pool stays readable; an error leaves a state of the insert or the appended record |
| `Logging.AppendOnlyExactly` | src/logging.rs:78-84 | its append, a second operation after the insert, leaves the only record of the key if and only if nobody has stored the key before it |
| `Logging.RacingReports` | src/logging.rs:69-84 | for every readable full pool without a report, a run in which two writers are both turned away and both append, so that two reports are left |
| `Logging.WrittenReportReads` | libazureinit-kvp/src/diagnostics/reader.rs:63-164 | a report that fits one value comes back to the diagnostics reader as that report |
| `SupportingData.ScanField` | libazureinit-kvp/src/cli.rs:717-752 | one round of the scanner ends where the field does, or fails as the quoting rules say |
| `SupportingData.SplitSupportingDataFields` | libazureinit-kvp/src/cli.rs:711-765 | the scanner returns `fields` exactly when they are well-shaped and their join by commas is the input |
| `SupportingData.ParseSupportingData` | libazureinit-kvp/src/cli.rs:698-707 | the pairs are returned if and only if the argument is a list of well-shaped fields and its non-empty fields, at strictly increasing places, are those pairs one by one; otherwise the splitter's error, or that of the first non-empty field that is no pair |
| `SupportingData.PairsExactly` | libazureinit-kvp/src/cli.rs:700-704 | the same of the fields of an argument |
| `SupportingData.ParsedExactly` | libazureinit-kvp/src/cli.rs:698-765 | the same of the value that the loop computes |
| `SupportingData.FieldsRejoin` | libazureinit-kvp/src/cli.rs:711-765 | the fields of accepted input, rejoined by commas, are the input |
| `SupportingData.SplitExactly` | libazureinit-kvp/src/cli.rs:711-765 | accepted are exactly the comma-joined lists of well-shaped fields, each in one way only |
| `SupportingData.RenderParse` | libazureinit-kvp/src/cli.rs:698-790 | parsing undoes rendering for every list of pairs that can be written bare or in one quote style |
| `SupportingData.DenotableExactly` | libazureinit-kvp/src/cli.rs:698-790 | the lists of pairs that some argument denotes are exactly those |

## Left out

- PoolIters.KvpPoolIter.RemoveCurrent: with no record left, the source's `record_count - 1` underflows, which panics or wraps depending on the build; the model returns an error for both.
- Telemetry.DiagnosticWriter.Emit: takes the diagnostic as it is; the public `emit_*` wrappers, which add the current time and a fresh event id, are not modelled.
- CloudInitDelivery.DecodeMessage: the typed diagnostic is a parameter; names, types, times and results inside the JSON metadata are not checked, and metadata is an opaque value with an index.
- Grouping.DecodeOne: pushes the members of a failed group in pool order, where the source may already have sorted them by index; their positions are distinct, so the final sort gives the same entries.
- Real file I/O, libc calls, file permissions: represented by `Handle` with its faults. A failing write of a buffer is all-or-nothing; a torn write is not modelled.
- Whether the source opens a file for reading or for writing is not modelled, only under which locks it reads and writes it.
- `clear_if_stale`, `is_stale`, `len`, `is_empty`: modification and boot time are not modelled, and the last three read metadata without a lock.
- The lock protocol works on records; how `flock` upgrades or inherits across `fork` is not modelled, nor is a file whose size is not a multiple of the record size.
- gzip, zlib, base64, chrono, the floating-point parsing of durations, and the typed part of cloud-init values: parameters of the model. UUIDs are recognised by their accepted spellings.
- The csv crate is modelled by section 2 of RFC 4180 with `|` as delimiter. Its byte order mark handling and its quoting of a record with a single empty field are not modelled; reports never have such a record.
- Error texts, JSON output, the command line's dispatch, `tracing_layer`, `vm_id`, `status`, and the provisioning library: library plumbing.
