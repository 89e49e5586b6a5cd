# Storage layer: a verified model

This project models the transactional key-value storage of the repository (`storage/`) in Dafny and
proves what its interface, documentation and test suite promise. Everything is proved for all maps,
keys, prefixes, logs, command sequences and interleavings.

Check it with `dafny verify dfyconfig.toml`.

## What is modelled

- **Bytes and ordered maps** (`Bytes`, `SortedMaps`). Keys are byte strings in lexicographic order. A
  `BTreeMap` is a Dafny map together with its strictly ascending listing, which is proved unique.
- **Prefix scans** (`PrefixScans`). One specification, `Scan`, and the three ways to reach it: a range that
  stops at the first mismatch, SQLite's full scan with a filter, LMDB's cursor seek. The iterator has no
  "done" flag; it is proved fused all the same, because keys sharing a prefix are contiguous.
- **The locking adaptor** (`Model`, `Deltas`, `MergeJoin`, `InMemory`, `Locking`). Writes go to per-map deltas
  with tombstones, reads overlay them, prefix iteration lazily merge-joins two sorted cursors, commit replays the
  deltas entry by entry. Each method is proved against the reference model of the test suite.
- **Concurrency** (`LockProtocol`). Any number of threads under the reader/writer lock, a commit being one step
  per replayed entry. Every run is strictly serializable, in the order the lock is let go;
  what the database holds and what reads answer is read off the steps the threads take.
- **SQLite** (`Sqlite`). Eager writes with rollback on drop, under every pattern of engine failures.
- **Eager and deferred backends** (`Backends`). The SQLite machine and the locking adaptor give the same replies
  to every command sequence, and the replies and contents of the reference model to every sequence of transactions.
- **The typed layer** (`Scale`, `TypedMaps`). Encodings with exact inverses, hence prefix-free; typed maps in which
  every entry decodes; typed prefix iteration that selects exactly the keys with the given leading components.
- **Schema and dumps** (`Schema`, `DumpRestore`). Index computation, name lookup, the uniqueness check, per-map
  data, and the dump/restore pair.
- **LMDB map resizing** (`LmdbResize`, `RetryLoop`). The shared resize flag under every interleaving, and the loop
  that retries a body of writes until the map is large enough.
- **`shuffle_until_different`** (`Shuffle`), in place, for every sequence of random draws.

## Results worth knowing

- `AbortRestoresExactlyWhen`, `CommitIsAllOrNothingExactlyWhen`: an SQLite transaction is all or nothing for all its
  writes unless the engine itself rolled it back inside a failing write and a later write of the same transaction
  succeeded. That later write runs in autocommit mode and stays, whether the transaction is then dropped or asks to
  commit, which is refused. Over whole runs, `AtomicExactlyWhen`: the durable contents are always what successful
  commits wrote if and only if no such late write changes anything.
- `FailedRollbackHeals`: a rollback that fails in `Drop` leaves the connection inside a transaction, so
  starts are refused until the half-made transaction one of them drops rolls back, which repairs the connection.
- `KeyOrderIsNativeExactlyWhen`: typed iteration follows the encoded keys; that is the keys' own order, for all keys of a
  type, exactly when the type holds no integer wider than a byte and no byte string, at any depth of its tuples.
  `storage/src/test.rs` compares a scan over string-and-`u16` keys with values sorted by their own order; for
  that key type the two orders differ on some keys.
- `RestoreIsFaithfulExactlyWhen`: a dump restored over a database that already holds entries reproduces the dump
  exactly when it overwrites every key that is there.
- `DiffersExactlyWhenDistinct`: the comment on `shuffle_until_different` promises a different order; the code
  keeps that promise for all draws exactly on pairwise distinct elements. `EveryOtherOrderCanComeOut`: every other
  order is a possible result, and the original one exactly if two elements are equal.
- `ErrorsStayAnsweredExactlyWhen`: the store that clears LMDB's resize flag after a commit's own resize can erase
  a resize another thread has just scheduled (`TwoThreadsCanForget`); the retry meets the full map again and
  schedules it anew. It happens exactly when the report falls between the other thread's resize and its clearing
  store, nobody else is about to resize or report, and before the flag is cleared no write transaction looks at it
  and no thread meets the full map again.
- `MutexFreeMeansAutocommit`, `BeginNestsExactlyWhen`: in every run the connection behind a free mutex is in autocommit
  mode unless the last release's rollback failed; then, and only then, does the next BEGIN meet an open transaction.

## Model

| member | source | states |
|---|---|---|
| Bytes.CompareIsTotal | storage/core/src/adaptor/locking/prefix_iter_rw.rs:35-37 | the key order used everywhere is total and antisymmetric, and equal only on equal keys |
| Bytes.BelowIsTransitive | storage/core/src/adaptor/locking/prefix_iter_rw.rs:35-37 | the key order is transitive |
| Bytes.BelowMeansFirstDifference | storage/core/src/adaptor/locking/prefix_iter_rw.rs:35-37 | one key precedes another if and only if at the first difference it ends or has the smaller byte |
| Bytes.PrefixIsNotAbove | storage/core/src/util.rs:28-31 | starting a range at the prefix misses no key with that prefix |
| Bytes.SharedPrefixIsContiguous | storage/core/src/util.rs:37-41 | between the prefix and a key that has it, every key has it |
| SortedMaps.ListingIsUnique | storage/core/src/adaptor/locking/mod.rs:48 | an ordered map has exactly one ascending enumeration |
| SortedMaps.Entries | storage/core/src/adaptor/locking/mod.rs:90-91 | walking a map least key first yields that enumeration |
| SortedMaps.CollectUndoesListing | storage/backend-test-suite/src/model.rs:82-84 | collecting all entries of a map gives the map back |
| PrefixScans.MismatchIsTheEnd | storage/core/src/util.rs:37-41 | after the first key without the prefix no later key has it |
| PrefixScans.PrefixIter.Next | storage/core/src/util.rs:37-41 | yields the first entry that still has the prefix; once it has yielded nothing it never yields again, although no flag records that |
| PrefixScans.PrefixIter.Drain | storage/core/src/util.rs:34-42 | the items an iterator yields are exactly the pending ones, in order |
| PrefixScans.RangeScan | storage/core/src/util.rs:28-31 | the range-and-stop iterator yields exactly the matching entries, ascending |
| PrefixScans.CollectRows | storage/sqlite/src/lib.rs:131-139 | the row loop keeps exactly the rows with the prefix, in row order |
| PrefixScans.FullScan | storage/sqlite/src/lib.rs:117-143 | SQLite's scan yields exactly the matching entries, ascending |
| PrefixScans.CursorScan | storage/lmdb/src/lib.rs:81-96 | LMDB's scan, with its special start for the empty prefix, yields exactly the matching entries, ascending |
| PrefixScans.ThreeScansAgree | storage/lmdb/src/lib.rs:57-61 | range-and-stop, filter-then-stop and seek-and-stop hand out the same entries for every map and prefix |
| PrefixScans.ScanIsExact | storage/backend-test-suite/src/model.rs:82-84 | a scan is ascending and holds an entry if and only if it is in the map under the prefix; the empty prefix dumps the map |
| Model.ReferenceMap.Extend | storage/backend-test-suite/src/model.rs:133-137 | extending the reference map applies the actions in order |
| Model.LastWriteWins | storage/backend-test-suite/src/property.rs:163-189 | the last action on a key decides what it holds |
| Model.LogActsMapByMap | storage/backend-test-suite/src/property.rs:323-346 | writes to different maps do not interfere: each map ends as its own part of the log leaves it |
| Deltas.RecordingIsApplying | storage/core/src/adaptor/locking/mod.rs:57-60 | recording a write in the delta is seen through the overlay exactly as the model applying it |
| Deltas.OverlayRefinesLog | storage/core/src/adaptor/locking/mod.rs:56-86 | after any interleaved put/del log the transaction sees the model's state in every map |
| Deltas.OverlayGet | storage/core/src/adaptor/locking/mod.rs:66-71 | reading the delta first and the database second is a lookup in the overlaid map |
| Deltas.ReplayInAnyOrder | storage/core/src/adaptor/locking/mod.rs:89-99 | replaying the delta entries in any order, even repeatedly, gives the overlaid store |
| Deltas.CommitInstallsOverlay | storage/core/src/adaptor/locking/mod.rs:89-99 | the commit order in particular turns the database into what the transaction saw |
| Deltas.CommitRefinesModel | storage/backend-test-suite/src/model.rs:96-105 | buffering a log and committing equals the model run on each map's part of the log |
| MergeJoin.MergeListsOverlay | storage/core/src/adaptor/locking/prefix_iter_rw.rs:62-65 | merge-joining the listings of a map and a delta lists the overlay: ascending, exact, tombstones gone |
| MergeJoin.MergeScanIsOverlayScan | storage/core/src/adaptor/locking/prefix_iter_rw.rs:53-66 | the write transaction's iterator is the prefix scan of the overlaid map |
| MergeJoin.MergeConsumesBothSides | storage/core/src/adaptor/locking/prefix_iter_rw.rs:62-65 | whatever the two sides hold, the merge hands out every entry of each side exactly once and in order, and pairs equal keys only |
| MergeJoin.MergeIter.Next | storage/core/src/adaptor/locking/prefix_iter_rw.rs:32 | the lazy two-cursor iterator yields the head of the remaining merged entries, skipping tombstones, and stays at its end |
| MergeJoin.MergeIter.Drain | storage/core/src/adaptor/locking/prefix_iter_rw.rs:32 | the items it yields are exactly the remaining merged entries, in order |
| MergeJoin.Iter | storage/core/src/adaptor/locking/prefix_iter_rw.rs:52-66 | set up over a cursor of the database and a range of the delta, the iterator has the prefix scan of the overlaid map to yield |
| InMemory.StorageMaps.Put | storage/inmemory/src/lib.rs:51-54 | a bare put always succeeds and changes one key of one map |
| InMemory.StorageMaps.Del | storage/inmemory/src/lib.rs:56-59 | a bare delete always succeeds and changes one key of one map |
| Locking.TxRw.Put | storage/core/src/adaptor/locking/mod.rs:79-81 | the transaction's view changes as the model's put, the database not at all |
| Locking.TxRw.Del | storage/core/src/adaptor/locking/mod.rs:83-85 | the transaction's view changes as the model's delete, the database not at all |
| Locking.TxRw.Get | storage/core/src/adaptor/locking/mod.rs:66-71 | a read answers from the transaction's view |
| Locking.TxRw.PrefixScan | storage/core/src/adaptor/locking/mod.rs:73-75 | gives a fresh iterator with exactly the prefix scan of the transaction's view to yield |
| Locking.TxRw.Commit | storage/core/src/adaptor/locking/mod.rs:89-99 | the two replay loops leave the database equal to the view |
| Locking.TransactionLockImpl.TransactionRw | storage/core/src/adaptor/locking/mod.rs:134-139 | a new write transaction sees the database unchanged |
| Locking.PostCommitConsistency | storage/backend-test-suite/src/property.rs:439-457 | a transaction's own dump before committing equals the database's dump after |
| Locking.ClearPrefix | storage/backend-test-suite/src/property.rs:422-429 | scan, delete each, commit: exactly the keys with the prefix are gone |
| Locking.ClearedPrefixIsGone | storage/backend-test-suite/src/property.rs:431-434 | afterwards a scan finds nothing and every other key reads as before |
| LockProtocol.Serializable | storage/core/src/adaptor/locking/mod.rs:88-140 | in every interleaving the finished transactions, run one at a time in the order they finished, give the answers they gave; the unlocked database is what the committed ones leave; open ones are explained likewise |
| LockProtocol.DatabaseFollowsTheSteps | storage/core/src/adaptor/locking/mod.rs:56-100 | in every interleaving, read off the steps alone: with nobody writing the database is what the writes issued by the committing threads make of the initial one, transaction after transaction |
| LockProtocol.ReadsFollowTheSteps | storage/core/src/adaptor/locking/mod.rs:66-75 | in every interleaving, read off the steps alone: each get and each iteration is answered from what is committed plus the transaction's own writes so far |
| LockProtocol.StepNotes | storage/core/src/adaptor/locking/mod.rs:56-86 | a get, iteration or write is noted in its transaction as exactly that; no other step touches what a transaction has noted |
| LockProtocol.StepFiles | storage/core/src/adaptor/locking/mod.rs:88-100 | ending a transaction files it as committed, read-only or aborted; nothing else is filed |
| LockProtocol.HistoryOnlyGrows | storage/core/src/adaptor/locking/mod.rs:130-139 | finished transactions keep their places in the serial order; later ones are added behind them |
| LockProtocol.TransactionIsFiled | storage/core/src/adaptor/locking/mod.rs:130-139 | a transaction is filed behind everything that had finished when it began, with exactly the operations its thread issued from its begin to its end, in order, and with how it ended |
| LockProtocol.SerialOrderIsRealTime | storage/core/src/adaptor/locking/mod.rs:130-139 | the serial order is the order of letting go of the lock; a transaction that ends before another begins comes before it |
| LockProtocol.WriterIsAlone | storage/core/src/adaptor/locking/mod.rs:134-137 | while a write transaction is open no other transaction is |
| LockProtocol.AdmittedExactlyWhen | storage/core/src/adaptor/locking/mod.rs:130-139 | a read transaction can begin if and only if its thread has none and no writer is open, a write transaction if and only if nothing is open |
| LockProtocol.AnyProgramCanRun | storage/core/src/adaptor/locking/mod.rs:88-140 | with nothing open, any thread can run any reads and writes to the end; committed it leaves exactly its writes, dropped nothing, and it is filed with its program |
| LockProtocol.CommitIsNotObserved | storage/core/src/adaptor/locking/mod.rs:88-100 | while a commit is half replayed no thread can take any step but its next one, so nobody sees it and it runs to its end |
| LockProtocol.OpenTxSeesOneState | storage/core/src/adaptor/locking/mod.rs:30-54 | as long as a transaction is open, read-only or not yet committing, the database under it is the one committed state it began with |
| LockProtocol.AbortLeavesNoTrace | storage/backend-test-suite/src/property.rs:266-276 | a dropped transaction leaves the database and the committed state as it found them, whatever it wrote |
| LockProtocol.StepKeepsInv | storage/core/src/adaptor/locking/mod.rs:88-140 | every step of every thread keeps: the lock matches the open transactions, answers are explained, a half-replayed commit completes to what its transaction saw |
| Sqlite.DbTx.StartTransaction | storage/sqlite/src/lib.rs:64-76 | starts if and only if the connection was in autocommit mode and the engine agrees, with the current tables as what a rollback restores; nothing durable changes; a refusal leaves autocommit mode with the durable tables unless a rollback fails |
| Sqlite.DbTx.Drop | storage/sqlite/src/lib.rs:87-97 | nothing durable ever changes; the connection ends in autocommit mode on the durable tables if it was in that mode or the rollback works, and is untouched otherwise |
| Sqlite.DbTx.Commit | storage/sqlite/src/lib.rs:174-178 | succeeds if and only if a transaction is open and the engine commits; then the tables as written are durable, otherwise nothing durable changes and the implicit drop has rolled back unless its rollback failed |
| Sqlite.DbTx.PrefixScan | storage/sqlite/src/lib.rs:117-143 | yields the prefix scan of the table |
| Sqlite.TransactionsAreAtomic | storage/sqlite/src/lib.rs:63-97 | under any failures of BEGIN, COMMIT, ROLLBACK and write statements, up to a late write that changes something, the durable contents are exactly the successful writes of the successful commits, read off the events, in commit order; an open transaction sees those plus its own |
| Sqlite.AtomicExactlyWhen | storage/sqlite/src/lib.rs:63-97 | a run keeps that throughout if and only if no write of a transaction the engine has already rolled back changes anything |
| Sqlite.MutexFreeMeansAutocommit | storage/sqlite/src/lib.rs:87-97 | in every run, with the mutex free the connection is in autocommit mode if and only if the release just before, if any, had no failing rollback |
| Sqlite.BeginNestsExactlyWhen | storage/sqlite/src/lib.rs:64-76 | in every run BEGIN meets an open transaction if and only if the last release's rollback failed, and is refused exactly then or when the engine refuses it |
| Sqlite.FailedRollbackHeals | storage/sqlite/src/lib.rs:70-96 | after a failed rollback every start is refused up to and including the first whose drop rolls back, which leaves autocommit mode on the durable contents |
| Sqlite.CommitThenDrop | storage/sqlite/src/lib.rs:174-178 | commit then drop adds the whole transaction to the durable contents if it is still open and the engine commits it, and otherwise none of it, also after the engine has rolled it back |
| Sqlite.RunIsReadOff | storage/sqlite/src/lib.rs:63-97 | whether a transaction is open, who holds the mutex, what is pending and what is committed follow from the events of a run alone |
| Sqlite.StepFollowsEvent | storage/sqlite/src/lib.rs:145-178 | a write answered done adds itself to its transaction, a commit answered done with the transaction open adds all of it to what is committed, and nothing else does |
| Sqlite.NextExactlyWhen | storage/sqlite/src/lib.rs:63-97 | in every run writes, commit and drop are possible exactly while a transaction holds the mutex, and a start exactly otherwise |
| Sqlite.AnyTransactionCanRun | storage/sqlite/src/lib.rs:145-178 | on a free connection any writes can be run as one transaction; committed they are the new contents, dropped they leave nothing |
| Sqlite.AbortRestoresExactlyWhen | storage/sqlite/src/lib.rs:87-97 | dropping leaves the old tables for all writes if and only if no write succeeded after one that rolled the transaction back |
| Sqlite.CommitIsAllOrNothingExactlyWhen | storage/sqlite/src/lib.rs:174-178 | whatever COMMIT and the drop answer, commit leaves all successful writes or none, for all writes, if and only if no write succeeded after one that rolled the transaction back |
| Backends.StepSimulates | storage/sqlite/src/lib.rs:99-178 | each command keeps the eager and the deferred machine related and gets the same reply from both |
| Backends.EagerAndDeferredAgree | storage/core/src/adaptor/locking/mod.rs:56-100 | all command sequences get the same replies and leave the same durable contents |
| Backends.BackendsAreIndistinguishable | storage/sqlite/src/lib.rs:205-217 | opened over the same contents the two backends cannot be told apart |
| Backends.BackendsFollowModel | storage/backend-test-suite/src/model.rs:96-137 | after any transactions both backends durably hold exactly the committed writes in order; the next one is refused nothing and every read of it answers as the model with its own writes so far |
| Backends.EagerProgramFollowsModel | storage/sqlite/src/lib.rs:99-178 | a whole transaction over any contents: nothing refused, reads see its own writes, commit keeps them and drop does not |
| Backends.RefusedExactlyWhen | storage/sqlite/src/lib.rs:63-217 | outside a transaction exactly the begins are accepted, inside exactly operations on known maps, drop, and for a writer writes and commit; a refusal changes nothing |
| Scale.LittleEndianRoundTrip | storage/src/database/raw.rs:199 | a fixed-width integer is read back from its little-endian bytes |
| Scale.LengthRoundTrip | storage/src/database/raw.rs:201 | a compact length is read back, whatever follows it |
| Scale.LengthIsCanonical | storage/src/database/raw.rs:215 | every accepted compact length is the one encoding of its number |
| Scale.DecodeUndoesEncode | serialization/src/encoded.rs:29-36 | decoding an encoding returns the value and leaves what follows |
| Scale.EncodeUndoesDecode | serialization/src/encoded.rs:58-61 | whatever decodes is the encoding of its value |
| Scale.EncodingIsPrefixFree | storage/src/database/mod.rs:296-297 | no encoding is a proper prefix of another of its type, and encoding is injective |
| Scale.DecodeAllIsInverse | serialization/src/encoded.rs:41-61 | decoding all bytes succeeds with a value if and only if they are its encoding |
| Scale.PrefixMatchesLeading | storage/src/database/mod.rs:299-304 | an encoded key starts with an encoded prefix if and only if its leading components equal it, for unit and every leading tuple |
| Scale.PrefixesAreLeadingComponents | storage/src/database/mod.rs:295-304 | the prefix types of a type are exactly the tuples of its first components, for every number of them |
| Scale.DeclaredPrefixes | storage/src/database/mod.rs:298-304 | unit is a prefix of everything, one component of pairs and triples, two of triples |
| Scale.KeyOrderIsNumericExactlyWhen | storage/src/test.rs:95-108 | encoded bare integer keys sort numerically if and only if they are at most one byte wide |
| Scale.KeyOrderIsNativeExactlyWhen | storage/src/test.rs:95-108 | encoded keys of any type sort in their own order (numeric, bytewise, lexicographic in tuples) if and only if the type holds neither a wider integer nor a byte string |
| TypedMaps.ViewIsExact | storage/src/schema.rs:21-33 | a valid raw map stands for exactly one typed finite map |
| TypedMaps.GetReadsTheView | storage/src/database/internal.rs:43-49 | a typed read never fails to decode and answers from the typed map |
| TypedMaps.GetPanicsExactlyWhen | serialization/src/encoded.rs:58-61 | on any raw map, a typed read panics if and only if the stored value is no encoding of its type, and is absent if and only if the key is |
| TypedMaps.IterationPanicsExactlyWhen | serialization/src/encoded.rs:58-61 | a full decoded iteration gets through if and only if every stored key and value decodes |
| TypedMaps.PrefixIterIsExact | storage/src/database/mod.rs:224-233 | typed prefix iteration never fails to decode and yields exactly the entries with the given leading components, once each, in encoded order |
| TypedMaps.KeysIterProjects | storage/src/database/internal.rs:77-84 | the keys-only iterator yields the keys of the full one |
| TypedMaps.TypedWriteRefinesView | storage/src/database/mod.rs:282-293 | a typed put or delete keeps everything decodable and changes the typed map at its key only |
| TypedMaps.TypedRunsStayValid | storage/src/database/mod.rs:281-294 | from an empty store, any typed log keeps everything decodable and builds the typed maps it says |
| TypedMaps.ConcurrentReadsDecode | serialization/src/encoded.rs:39-46 | under any interleaving of typed writers every open transaction sees a store in which everything decodes |
| TypedMaps.MapMut.Put | storage/src/database/mod.rs:282-288 | writing through changes the typed map at one key and no other map |
| TypedMaps.MapMut.Del | storage/src/database/mod.rs:291-293 | deleting through removes one key and touches no other map |
| TypedMaps.MapMut.Get | storage/src/database/mod.rs:260-265 | reads the typed map as the transaction sees it |
| Schema.IndexIsPosition | storage/src/schema.rs:61-66 | at the recursive index of a map the description list has that map's name and size hint |
| Schema.EveryIndexIsDeclared | storage/src/schema.rs:48-66 | every position is the index of a declared map |
| Schema.FromUsizeIsExact | storage/src/database/raw.rs:65-68 | a number is accepted as an id if and only if it is the index of a declared map |
| Schema.UniquenessCheckIsExact | storage/core/src/types.rs:177-184 | the set-size check accepts exactly the schemas with pairwise distinct names |
| Schema.PositionIsFirst | storage/src/database/raw.rs:71-75 | name lookup finds the first description with the name, or none exists |
| Schema.NamesAndIdsAreInverse | storage/src/database/raw.rs:71-87 | on an accepted schema names and ids are inverse, and the lookup finds the computed index |
| Schema.LookupNeedsDistinctNames | storage/src/database/raw.rs:71-87 | name lookup inverts naming on all ids if and only if the schema passes the check |
| Schema.TransformKeepsIds | storage/core/src/types.rs:82-97 | derived per-map data stays aligned with the map ids |
| Schema.NewDataKeepsIds | storage/core/src/types.rs:70-84 | new data has one item per map, made from its id, and transforming it is making the transformed items |
| Schema.TryTransformKeepsIds | storage/core/src/types.rs:87-92 | success keeps every item under its id; failure is that of the first failing map |
| DumpRestore.Restore | storage/src/database/mod.rs:72-85 | the restore loops write exactly the dump's entries over what the database holds |
| DumpRestore.RestoreUndoesDump | storage/src/database/raw.rs:131-142 | restoring a dump into a fresh database gives the dumped store |
| DumpRestore.DumpUndoesRestore | storage/src/database/raw.rs:131-142 | dumping a restored database gives the dump, absent maps filled in as empty |
| DumpRestore.RestoreIsFaithfulExactlyWhen | storage/src/database/mod.rs:72-85 | over existing contents restoring reproduces the dump if and only if it overwrites every existing key |
| LmdbResize.StepStaysAccounted | storage/lmdb/src/lib.rs:151-188 | every atomic step keeps resizes, flag and pending reports within the map-full errors met |
| LmdbResize.RunIsReadOff | storage/lmdb/src/lib.rs:151-188 | the flag, whether the map was resized since it was last full, and the counts of errors and resizes are those of the steps taken |
| LmdbResize.ThreadsRunTheirProgram | storage/lmdb/src/lib.rs:151-212 | in every interleaving a step is possible if and only if the program has it after the thread's last one and, for a begin, nobody is in a write transaction |
| LmdbResize.WriterIsInTransaction | storage/lmdb/src/lib.rs:119-123 | in every interleaving the write lock is held by exactly the thread in a write transaction |
| LmdbResize.OneWriterAtATime | storage/lmdb/src/lib.rs:209-212 | two threads are never in a write transaction together |
| LmdbResize.BlockedExactlyWhen | storage/lmdb/src/lib.rs:209-212 | a thread has no step to take if and only if it is about to begin while another is in a write transaction, and that other always has one |
| LmdbResize.ResizesNeverExceedErrors | storage/lmdb/src/lib.rs:151-188 | in every interleaving flag-triggered resizes taken, plus one if the flag is set, never exceed the map-full errors of put and del; commit resizes never exceed those of commit |
| LmdbResize.SequentialStartIsFresh | storage/lmdb/src/lib.rs:209-212 | with one thread each write transaction starts with the flag clear and the map resized since the last map-full error |
| LmdbResize.ErrorsStayAnsweredExactlyWhen | storage/lmdb/src/lib.rs:151-188 | in every interleaving each map-full error stays answered (resized, scheduled, or a thread about to) if and only if no report, made between another thread's commit resize and its clearing store with nobody else about to act, meets that store before a write transaction looks at the flag or the map is full again |
| LmdbResize.QuietWindowsForgetNothing | storage/lmdb/src/lib.rs:173-188 | if no thread sets the flag while another stands between its commit's resize and its clearing store, every error stays answered |
| LmdbResize.SequentialRunsNeverForget | storage/lmdb/src/lib.rs:173-181 | with a single thread every error stays answered |
| LmdbResize.TwoThreadsCanForget | storage/lmdb/src/lib.rs:173-181 | two threads can forget one: a run that ends with an error neither resized for, scheduled nor about to be |
| RetryLoop.Lmdb.TransactionRw | storage/lmdb/src/lib.rs:209-212 | starting clears the flag and grows the map if it was set |
| RetryLoop.Lmdb.Put | storage/lmdb/src/lib.rs:100-106 | a put fails exactly when the engine reports a full map; then it sets the flag and writes nothing |
| RetryLoop.Lmdb.Commit | storage/lmdb/src/lib.rs:119-123 | a commit fails exactly when the engine reports a full map; then it grows the map at once and keeps the old contents |
| RetryLoop.PutFromStack | storage/lmdb/src/resize_tests.rs:173-187 | a round loses and duplicates nothing (stack and written entries together stay the data) and stops at exactly the first put that finds the map full |
| RetryLoop.EmptyStackMeansAllWritten | storage/lmdb/src/resize_tests.rs:190-191 | with the stack empty the written entries, in whatever order, are the data |
| RetryLoop.WriteAll | storage/lmdb/src/resize_tests.rs:170-198 | the retry loop terminates and leaves the data written over what the database held, exactly the data if it was empty; its result counts the puts that found the map full, each answered by one flag-triggered resize |
| Shuffle.PassFreezesAbove | test-utils/src/random.rs:72-78 | a pass never touches a place again once it has left it |
| Shuffle.PassPermutes | test-utils/src/random.rs:72-78 | a pass is a permutation |
| Shuffle.PassChangesExactlyWhen | test-utils/src/random.rs:72-82 | on distinct elements a pass changes the order if and only if it swaps |
| Shuffle.DiffersExactlyWhenDistinct | test-utils/src/random.rs:64-82 | a swapping pass changes the order for all draws if and only if the elements are pairwise distinct |
| Shuffle.ShufflePass | test-utils/src/random.rs:72-78 | the in-place loop computes the pass and reports whether it swapped |
| Shuffle.ShuffleUntilDifferent | test-utils/src/random.rs:66-86 | the result is a permutation, different for distinct elements; it gives up if and only if no draw of the thousand attempts swaps, and otherwise is the first swapping pass |
| Shuffle.EveryOtherOrderCanComeOut | test-utils/src/random.rs:64-86 | the whole function can hand back every order other than the one it was given, and that one if and only if two elements are equal |

## Left out

- The LMDB and SQLite engines, SQL text, files and pragmas: each engine is a small contract (ordered map, snapshot for rollback, map-full below an unknown size).
- Error mapping tables, lock poisoning, panics on out-of-range map ids (a precondition here), lock fairness, weak memory ordering.
- Commits over a bare store whose writes fail halfway: the in-memory maps never fail, and the adaptor is modelled over them.
- Iterators hold the entries their cursor stands before: the borrow of the transaction rules out changes while one is alive.
- Stateful closures in `DbMapsData::new`, `transform` and `try_transform`: the functions are pure here.
- The rest of the SCALE library (signed integers, options, enums, collections other than byte strings) and value size hints.
- Tuples longer than three and custom `HasPrefix` implementations: covered only as far as leading components of a tuple of any length go.
- Sqlite.TransactionsAreAtomic: says nothing after a late write that changes something, because atomicity then fails; `AtomicExactlyWhen` has both directions.
- RetryLoop.PutFromStack: the inner loop, and one cycle of the outer one, are methods of their own; the labelled `continue` becomes their results.
- Shuffle.ShufflePass: the inner loop is a method of its own.
- Random generators, test directories, the `loom` switch, derive macros and other plumbing.
