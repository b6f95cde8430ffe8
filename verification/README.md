# Verified models of SQLite algorithms

This project models eight self-contained algorithms of SQLite 3.28 in Dafny and
proves what they are for. Each is modelled twice: as values and functions, about
which the theorems are, and in the form of the source, as classes, arrays and
loops whose contracts tie them to those functions.

`dafny verify dfyconfig.toml` checks all of it.

| area | files | main results |
|---|---|---|
| STAT4 accumulator | `Stat4*.dfy`, `StatText.dfy` | samples end with exact counts, are the most frequent prefixes and the outstanding row of each; printing and decoding of counts |
| online backup | `Backup*.dfy` | copied pages stay current over every run; DONE means equal, for all page sizes; steps of any size reach it, and only faults make a backup fail |
| Bitvec | `Bitvec*.dfy` | refines a set through all three forms and the conversion between them |
| hash table | `Hash*.dfy` | refines a map over every sequence of calls; each bucket is a segment of the one list; resizing changes nothing |
| shared-cache mutexes | `BtMutex*.dfy` | every chain of waits ends at a connection that can go on, for any number of connections; recursive counts; no assertion fails |
| rename editing | `Rename*.dfy` | the in-place edit is the simultaneous substitution; renaming back restores the text |
| schema transformations | `DestroyTable.dfy`, `WithoutRowid.dfy`, `Affinity.dfy` | order of destruction under relocation; column lists; type affinity |
| statement completeness | `Complete*.dfy` | scanner and automaton accept exactly a declarative language of bytes |

`Arithmetic.dfy`, `Bytes.dfy` and `Seqs.dfy` hold what the others share.

How the pieces are modelled:

- **STAT4.** A row is a key of `nCol` integers and a rowid; the rows strictly
  increase. The scan is a sequence of first changed columns. The true counts are
  cardinalities over the rows, defined without the scan. `seed` is the initial
  value of the pseudo-random number.
- **Backup.** A pager is a map of pages and a page count. An event is a step with
  everything the environment decides (locks, faults, page sizes), a reported page
  write, a truncation, a change by another process with its restart, a start or a
  finish. A write transaction may write later new pages first; the pages it has
  skipped are holes until then, and a step is refused while the transaction lasts.
  Page sizes are the powers of two from 512 to 65536; the pending byte is any positive
  multiple of 65536.
- **Bitvec.** NINT, MXHASH, NBIT, NPTR and NELEM are symbolic, with the relations
  they have in the source.
- **Hash table.** Keys are C strings, compared and hashed without regard to ASCII
  case. Data is a number, 0 for NULL. The size that the allocator really gives to
  a new bucket array is arbitrary.
- **Mutexes.** One step for each mutex operation. The try may fail even when the
  mutex is free. Every connection is used by one thread, and a thread in a call
  works for one connection. `goal` is a history variable of the model.
- **Rename editing.** Tokens are given by offset and length. None is empty and no
  two overlap.
- **Schema.** The database is a map from root pages to b-trees; with auto-vacuum,
  destroying a root page moves the tree of the largest one into the hole.
- **Completeness.** The whole scanner, byte by byte, for text without NUL.
  `CompleteText.dfy` says what the pieces of SQL text are, without the scanner, and
  `CompleteSpec.dfy` which tokens make complete statements, without the automaton.

Results that limit what the code promises:

- `Stat4Theorems.VictimExactly`: when far more rows arrive than the C given to
  stat_init(), periodic samples fill the array and no sample to evict is left. The
  lemma gives the exact condition, under which the theorems about samples are
  stated; `HintSuffices` shows that C rows meet it and `NoVictim` is an input that
  does not.
- `DestroyTable.OnlyDescending`: any order but the descending one fails in some
  database.
- `DestroyTable.Parse.DestroyTable`: with a negative table root page, which only a
  corrupt schema can have, and no index with root page 0, pages that are not positive
  are destroyed as well; `DestroyTable.NegativeRoot` is such an input.
- `BackupCommit.EmptyDone`: after the backup of an empty source the file is one source
  page long, also when the pages of the destination are larger.
- The affinity of `AffinityType` and the statements of `SqlComplete` are those of
  the documentation, without exception.

## Model

| member | source | states |
|---|---|---|
| Stat4Theorems.SamplesExact | sqlite-src-3280000/src/analyze.c:556-797 | For every strictly increasing index scanned with a row-count hint that leaves a slot to non-periodic samples (the exact condition of VictimExactly), every sample left after the final flush has, for every column, exactly the whole-index counts of rows equal to, rows below and distinct prefixes below its prefix, defined by counting rows and not by the scan; and the rowid is that of the row it counts |
| Stat4Theorems.FrequentPrefixes | sqlite-src-3280000/src/analyze.c:576-644 | For any row and any column but the last, either a stored sample shares the row's prefix (and is periodic or credited to that column or an earlier one), or the array is full and every non-periodic sample is credited with a prefix at least as frequent: the samples are the most frequent prefixes, although candidates are evicted and upgraded on the way |
| Stat4Choice.SamplesStandOut | sqlite-src-3280000/src/analyze.c:505-664 | Every stored sample that is not periodic is, among all rows of the index with its prefix at the credited column or a later one, the one that stands out: it is ahead of every earlier row, and no later row is ahead of it. A row is ahead of another if its running count (rows pushed up to it with its prefix) is larger at the first later column where they differ or, if they never differ, its pseudo-random number is |
| Stat4Choice.CandidateStandsOut | sqlite-src-3280000/src/analyze.c:783-791 | After any part of a scan, the candidate of every column is the row that stands out in this way among the rows so far with the last row's prefix; it is defined over rows and not by the loop |
| Stat4Theorems.SamplesOrdered | sqlite-src-3280000/src/analyze.c:607-643 | At most mxSample samples, strictly increasing in `anLt[nCol-1]`; every periodic row is among them; the periodic samples are the rows divided by nPSample, always fewer than mxSample, and a third of the array at most when C is at least the row count |
| Stat4Theorems.PeriodicShare | sqlite-src-3280000/src/analyze.c:454 | The periodic rows of a scan of at most C rows number at most mxSample/3, which is less than mxSample |
| Stat4Theorems.SpacingLeast | sqlite-src-3280000/src/analyze.c:454 | nPSample is the least distance of periodic rows that keeps them, of C rows, to mxSample/3: a distance does exactly if it is at least nPSample |
| Stat4Theorems.HintSuffices | sqlite-src-3280000/src/analyze.c:454 | The condition of the theorems above holds whenever C is at least the number of rows |
| Stat4Theorems.VictimLost | sqlite-src-3280000/src/analyze.c:632-642 | The bound on the row count is needed: with all but one slot periodic, one more periodic row leaves no least sample, so `assert( iMin>=0 )` would fail |
| Stat4Theorems.VictimExactly | sqlite-src-3280000/src/analyze.c:632-642 | After any number of rows, one more periodic row leaves a sample to evict if and only if the rows so far, with this one, have fewer than mxSample periodic ones: the exact condition for `assert( iMin>=0 )`, known before the call |
| Stat4Theorems.NoVictim | sqlite-src-3280000/src/analyze.c:632-642 | A failing input for every mxSample: C is 0, every row differs in the first column, and the mxSample-th row is pushed |
| Stat4Theorems.LastCounts | sqlite-src-3280000/src/analyze.c:745-765 | After the rows pushed so far `anLt[i]+anEq[i]` is the row count and `anDLt[i]+1` the number of distinct (i+1)-prefixes, which does not shrink with i |
| Stat4Theorems.Stat1Estimates | sqlite-src-3280000/src/analyze.c:884-892 | The sqlite_stat1 estimates are rows per distinct prefix rounded up, at least 1, and do not grow from column to column |
| Stat4Theorems.FlushKeeps | sqlite-src-3280000/src/analyze.c:898-902 | The flush of stat_get() completes every withheld count: the array invariant then holds with no group open |
| Stat4Theorems.FinalSample | sqlite-src-3280000/src/analyze.c:680-690 | Once no group is open, a sample's counts are those of the groups its row lies in, so no zero that was withheld is left |
| Stat4Run.PushKeeps | sqlite-src-3280000/src/analyze.c:729-797 | One stat_push() keeps the invariant that relates withheld zeros, open groups, candidates, upgrades and evictions to the rows seen so far |
| Stat4Push.InsertKeeps | sqlite-src-3280000/src/analyze.c:556-644 | One sampleInsert(), whether it returns early, upgrades or evicts, keeps the samples tied to their rows, the order, the bound on zeros, the least sample and the representation of every finished group |
| Stat4Push.AwaitingWorse | sqlite-src-3280000/src/analyze.c:579-589 | Both assertions of the upgrade loop: every non-periodic sample that awaits the count of the new sample is credited to a later column, and the new sample is better |
| Stat4Push.OfferAllKeeps | sqlite-src-3280000/src/analyze.c:653-664 | Offering the candidates of all closing columns, the last column first, keeps the invariant and makes each closed group represented |
| Stat4Fill.FillKeeps | sqlite-src-3280000/src/analyze.c:673-690 | Back-filling from the changed column on gives the withheld counts their final values and withholds none at or after that column |
| Stat4Order.LeastIsLeast | sqlite-src-3280000/src/analyze.c:632-642 | The scan for iMin finds a non-periodic sample that no other non-periodic sample is worse than |
| Stat4Order.PostAsymmetric | sqlite-src-3280000/src/analyze.c:505-550 | The comparison of samples that decides upgrades and evictions is asymmetric |
| Stat4Index.TrueCounts | sqlite-src-3280000/src/analyze.c:729-797 | The counts of an index by rows equal the group boundaries of its sequence of first changed columns |
| Stat4Index.TrueDistinctCounts | sqlite-src-3280000/src/analyze.c:729-797 | The numbers of distinct prefixes of an index equal the group numbers of its sequence of first changed columns |
| Stat4Accumulator.IsBetterPost | sqlite-src-3280000/src/analyze.c:505-519 | True if and only if at the first column after iCol where the counts differ the new sample has the larger count, or none differs and its hash is larger |
| Stat4Accumulator.IsBetter | sqlite-src-3280000/src/analyze.c:529-550 | True if and only if the credited count is larger, or equal with a smaller iCol, or both equal and the columns after iCol decide for the new sample |
| Stat4Accumulator.Stat4Accum.constructor | sqlite-src-3280000/src/analyze.c:399-480 | An accumulator with zeroed counts, room for mxSample samples and one candidate for each column |
| Stat4Accumulator.Stat4Accum.SampleInsert | sqlite-src-3280000/src/analyze.c:556-644 | The array, nSample, iMin and nMaxEqZero afterwards are those of the specified insertion |
| Stat4Accumulator.Stat4Accum.SamplePushPrevious | sqlite-src-3280000/src/analyze.c:653-711 | The two loops over candidates and samples compute the specified flush of the closing groups |
| Stat4Accumulator.Stat4Accum.StatPush | sqlite-src-3280000/src/analyze.c:729-797 | The accumulator afterwards is the specified one: flush, counts, periodic sample, candidates |
| Stat4Accumulator.Stat4Accum.StatGetRowid | sqlite-src-3280000/src/analyze.c:897-907 | The first call flushes all groups, later ones change nothing; it gives the rowid of the current sample, if there is one |
| Stat4Analyze.AnalyzeIndex | sqlite-src-3280000/src/analyze.c:1116-1240 | Scanning the whole index and flushing leaves an object whose samples are those of the theorems above |
| StatText.StatGet | sqlite-src-3280000/src/analyze.c:929-941 | The text of a count vector is the counts in decimal with single spaces; nothing is cut off and nothing written beyond 25 bytes for each count |
| StatText.DecodeIntArray | sqlite-src-3280000/src/analyze.c:1464-1487 | The loops fill the array with exactly the numbers the text stands for, at most nOut, modulo the width of a count, and leave the rest of it alone |
| StatText.RoundTrip | sqlite-src-3280000/src/analyze.c:1464-1487 | For every vector of 32- or 64-bit counts and every nOut, decoding the printed text gives back the vector or its first nOut counts |
| BackupWorld.CopiedPagesCurrent | sqlite-src-3280000/src/backup.c:348-446 | In every run of starts, steps of any size, reported writes, growth in any page order, truncations, external changes with restarts and finishes, a backup that can go on and has `iNext>1` is attached, and every byte of a current source page below iNext stands at its offset of the destination, but for the pending-byte pages of source and destination, the header bytes that a commit rewrites, and new source pages that the running transaction has not written yet |
| BackupWorld.DoneMeansEqual | sqlite-src-3280000/src/backup.c:348-597 | Whenever a step of any run returns DONE, the destination file equals the current source in size and in every byte but those of the source's unused pending-byte page and the header fields that the step rewrites |
| BackupWorld.NextKeeps | sqlite-src-3280000/src/backup.c:336-736 | Every single event keeps that agreement for all backups of the source at once |
| BackupProof.OnePageBytes | sqlite-src-3280000/src/backup.c:227-313 | For all power-of-two page sizes, copying one source page puts each of its bytes at the same file offset of the destination, except into the destination's pending-byte page, and changes no other byte; bytes 28-31 of page 1 become the page count of the source, unless the call reports a change |
| BackupProof.CopyLoopAgrees | sqlite-src-3280000/src/backup.c:421-432 | The copy loop, limited or not and with or without an error, extends the agreement to the pages it has passed |
| BackupProof.UpdateKeeps | sqlite-src-3280000/src/backup.c:690-714 | A reported page write, of a page below iNext, of any page past the end, or with a copy that fails, keeps the agreement with the changed source or makes the backup fatal |
| BackupProof.StepKeeps | sqlite-src-3280000/src/backup.c:348-597 | One step keeps the invariant, whatever locks, transactions and copies fail |
| BackupCommit.CommitExact | sqlite-src-3280000/src/backup.c:448-574 | With all pages copied, the final phase makes the file the source, for smaller, equal and larger destination pages |
| BackupCommit.FixUpBytes | sqlite-src-3280000/src/backup.c:536-551 | The fix-up loop writes the source pages that lie in the destination's pending-byte page to their own offsets and nothing else |
| BackupCommit.TruncateCovers | sqlite-src-3280000/src/backup.c:480-513 | The assertions on nDestTruncate hold: it is positive and covers the source, or stops right below the pending-byte page that ends the source's data; and no smaller count would do |
| BackupCommit.CommitLargeTruncates | sqlite-src-3280000/src/backup.c:560-561 | With source pages at least as large, a complete copy has given the destination no fewer pages than nDestTruncate, so sqlite3PagerTruncateImage() only shortens it |
| BackupCommit.StepDone | sqlite-src-3280000/src/backup.c:348-597 | A step that reports DONE leaves the destination file equal to the source |
| BackupProgress.UnlimitedStep | sqlite-src-3280000/src/backup.c:348-597 | One step without a page limit completes the backup when nothing fails and the page sizes are possible |
| BackupProgress.StepCounts | sqlite-src-3280000/src/backup.c:421-439 | A step of n pages that meets no fault copies exactly n pages, or all that are left if those are fewer or n is negative; it is DONE exactly when no more than n were left, and attached otherwise; nPagecount and nRemaining tell the truth |
| BackupProgress.StepsReachDone | sqlite-src-3280000/src/backup.c:348-597 | On an unchanged source, k steps (at least one) of n pages reach DONE exactly when k*n is at least the number of pages left, for every n; then the file is the source, and before that iNext has moved on by k*n |
| BackupProgress.CalmRun | sqlite-src-3280000/src/backup.c:336-736 | In every run without faults, in whatever order its events come and however often a step has to wait, no backup ever fails, and at any moment one unhindered step without a page limit ends it with the source in the file |
| BackupProgress.CalmKeeps | sqlite-src-3280000/src/backup.c:336-736 | Without a fault no event makes any backup fail; a write, truncation, external change or start leaves the result code of every other backup as it is |
| BackupProgress.UpdateFails | sqlite-src-3280000/src/backup.c:690-714 | A reported write leaves p->rc alone unless copying it fails: then the reason is a fault of the destination, or READONLY for an in-memory one of another page size; a page not yet copied changes nothing |
| BackupProgress.StepFails | sqlite-src-3280000/src/backup.c:348-446 | Each result of a step has its cause: BUSY for a source in a write transaction, errors of the transactions or NOMEM with nothing else changed, READONLY for WAL mode with another page size, and any other error a fault of reading, writing or committing; no used page goes into a destination that cannot take it |
| BackupCommit.EmptyDone | sqlite-src-3280000/src/backup.c:448-452 | For an empty source, DONE leaves a new database of one page in a file as long as one source page |
| BackupObject.BackupHandle.CopyOnePage | sqlite-src-3280000/src/backup.c:227-313 | The loop over destination pages computes the specified copy and error code |
| BackupObject.BackupHandle.CopyPages | sqlite-src-3280000/src/backup.c:421-432 | The loop over source pages leaves iNext, the destination and the error code as specified, iNext moving on even when a copy fails; without an error exactly nPage pages are passed, or all that are left if those are fewer or nPage is negative |
| BackupObject.BackupHandle.CommitBackup | sqlite-src-3280000/src/backup.c:448-574 | The final phase computes the specified destination and file size |
| BackupObject.BackupHandle.CopyPhase | sqlite-src-3280000/src/backup.c:362-438 | Locks, page sizes, copy loop and progress leave the fields and the error code as specified |
| BackupObject.BackupHandle.ApplyUpdate | sqlite-src-3280000/src/backup.c:690-714 | The body of the update loop computes the specified update; rc changes only when the copy fails |
| BackupObject.SourcePager.Start | sqlite-src-3280000/src/backup.c:141-206 | A new backup joins the backups of the source, not yet in the pager's list |
| BackupObject.SourcePager.Attach | sqlite-src-3280000/src/backup.c:336-343 | The backup becomes the first of the pager's list and is marked attached; the list still holds exactly the attached backups |
| BackupObject.SourcePager.Step | sqlite-src-3280000/src/backup.c:348-597 | The backup afterwards is the specified step of it and every other backup is as before; it enters the list exactly if it was not attached and pages are left; the list still holds exactly the attached backups |
| BackupObject.SourcePager.Detach | sqlite-src-3280000/src/backup.c:618-626 | The walk by pointer to pointer takes exactly this backup out of the list |
| BackupObject.SourcePager.Finish | sqlite-src-3280000/src/backup.c:602-650 | The backup leaves the list if it is attached, and the backups of the source; all others are as before and the list holds exactly the attached ones |
| BackupObject.SourcePager.BackupUpdate | sqlite-src-3280000/src/backup.c:690-717 | Of all backups of the source, started or attached, each one afterwards is as the state machine has it: the attached ones updated, the others as before |
| BackupObject.SourcePager.BackupRestart | sqlite-src-3280000/src/backup.c:730-736 | Of all backups of the source the attached ones, and only those, start again at page 1, as the state machine has it |
| BitvecSpec.BitvecIsSet | sqlite-src-3280000/src/bitvec.c:130-272 | For every sequence of sets and clears, through bitmap, hash and divided forms and the conversion between them, testing any u32 number gives membership in the mathematical set; 0 and numbers above the size are never members |
| BitvecSpec.SetHas | sqlite-src-3280000/src/bitvec.c:169-232 | Setting a bit adds it and changes no other, also when the hash table is split into parts and all its values are set again |
| BitvecSpec.ClearHas | sqlite-src-3280000/src/bitvec.c:240-272 | Clearing a bit removes it and changes no other, also when the hash table is rebuilt |
| BitvecSpec.TestIsHas | sqlite-src-3280000/src/bitvec.c:130-152 | The test, with its descent and its probing, decides membership |
| BitvecSpec.Set | sqlite-src-3280000/src/bitvec.c:169-232 | The result has the same size and is well formed: nSet counts the used slots of a table that is not full and in which every value can be reached; re-hashing ends because a part is smaller than the whole |
| BitvecSpec.SplitsExactly | sqlite-src-3280000/src/bitvec.c:188-229 | A table is divided by a new bit if and only if one free slot is left, or the bit's own slot is taken and half of the table is in use |
| BitvecSpec.Clear | sqlite-src-3280000/src/bitvec.c:240-272 | The result has the same size and is well formed, with nSet recounted |
| BitvecSpec.DivisorBounds | sqlite-src-3280000/src/bitvec.c:219 | iDivisor is positive, less than the size of a vector too large for a bitmap, and gives every bit a part |
| BitvecHash.ProbeFinds | sqlite-src-3280000/src/bitvec.c:143-150 | Probing a table with a free slot ends, at the value if it is stored and at a free slot if it is not |
| BitvecHash.StoreOk | sqlite-src-3280000/src/bitvec.c:193-230 | Storing a value where its probe ends keeps every stored value reachable without a gap, and adds just this value |
| BitvecHash.RebuildOk | sqlite-src-3280000/src/bitvec.c:257-270 | Putting all values but one back into an empty table keeps them, and only them, reachable, and counts them |
| BitvecObject.Bitvec.constructor | sqlite-src-3280000/src/bitvec.c:115-123 | A new vector of the size stands for the empty set |
| BitvecObject.Bitvec.TestNotNull | sqlite-src-3280000/src/bitvec.c:130-152 | The loops return what the specified test does |
| BitvecObject.Bitvec.Set | sqlite-src-3280000/src/bitvec.c:169-232 | In place, with new parts only, the structure becomes the specified one |
| BitvecObject.Bitvec.Clear | sqlite-src-3280000/src/bitvec.c:240-272 | In place, the structure becomes the specified one |
| HashTable.Hash.Insert | sqlite-src-3280000/src/hash.c:237-269 | On the map from folded keys to key and data: a present key gives its old data and is replaced, or deleted for empty data; an absent key with empty data or without memory leaves the map as it is and gives back the data given; otherwise it is added. All list, bucket and count invariants hold again, whether or not a resize happens or fails; the number of buckets changes exactly when a table with at least 10 elements and more than two a bucket gets what it asks for, or is emptied; the elements are old or new ones, and so is the bucket array |
| HashTable.Hash.Find | sqlite-src-3280000/src/hash.c:217-221 | The data that the map has for the folded key, or nothing |
| HashTable.Hash.FindElement | sqlite-src-3280000/src/hash.c:147-177 | The element of the folded key in its bucket, or in the whole list when there are no buckets; none if and only if the map has no such key |
| HashTable.Hash.Rehash | sqlite-src-3280000/src/hash.c:106-140 | All elements move to a new bucket array of whatever size is given, keeping every element, or nothing changes, exactly when the allocation fails or the size asked for is the present one; each bucket is again a contiguous segment |
| HashTable.Hash.InsertElement | sqlite-src-3280000/src/hash.c:72-97 | The element enters the one list in front of its bucket, or of the list, and each bucket stays a contiguous segment of exactly the elements of its hash |
| HashTable.Hash.RemoveElement | sqlite-src-3280000/src/hash.c:182-211 | The key leaves the map, its element the list and its bucket; the others are old ones; an emptied table gives up its buckets |
| HashTable.Hash.CountsKeys | sqlite-src-3280000/src/hash.c:182-211 | There is one element for each key, so `count` is the number of keys |
| HashRuns.RunAll | sqlite-src-3280000/src/hash.c:35-269 | Every sequence of inserts, replacements, deletions, finds and clears, with any allocation failing and at any size of the bucket array, leaves the table with the map that the calls make of its old one, and returns that map's answers; with the buckets that it asks for it keeps at most two elements a bucket, unless it has few elements or reached the soft limit |
| HashRuns.RunNew | sqlite-src-3280000/src/hash.c:23-269 | The same from a new table; its count is the number of keys |
| HashRuns.KeyByKey | sqlite-src-3280000/src/hash.c:35-269 | What the calls make of the map, one key at a time: the last insertion of the folded key that took effect since its last deletion or clearing; calls for other keys do not matter |
| HashTable.Hash.Clear | sqlite-src-3280000/src/hash.c:35-50 | The map becomes empty; list and bucket array are gone |
| HashTable.StrHash | sqlite-src-3280000/src/hash.c:55-66 | The hash depends on the folded key only, modulo 2^32 |
| Bytes.StrICmp | sqlite-src-3280000/src/util.c:323-335 | Zero if and only if the strings differ in the case of ASCII letters at most |
| HashSegments.InsertKeepsSegments | sqlite-src-3280000/src/hash.c:72-97 | A new first element of a bucket keeps every bucket a contiguous segment |
| HashSegments.RemoveKeepsSegments | sqlite-src-3280000/src/hash.c:182-211 | Taking out any element keeps every bucket a contiguous segment |
| HashSegments.RemoveKeepsChains | sqlite-src-3280000/src/hash.c:195-201 | `chain = elem->next` is right: a bucket that still has elements points at its first one |
| BtMutex.HoldsOnlySmaller | sqlite-src-3280000/src/btmutex.c:71-137 | In every reachable state of any number of connections, a connection inside lockBtreeMutex() holds only mutexes of smaller addresses than the one it waits for |
| BtMutex.NoWaitCycle | sqlite-src-3280000/src/btmutex.c:71-137 | The wait-for graph has no cycle, although tries lock out of order and btreeEnterAll() follows aDb[] |
| BtMutex.SomebodyCanStep | sqlite-src-3280000/src/btmutex.c:71-202 | No deadlock: the chain of waits from any connection inside a call ends at a connection that can take its next step, or at one outside of calls that keeps the mutex awaited just before |
| BtMutex.NoAssertionFails | sqlite-src-3280000/src/btmutex.c:27-152 | In every reachable state no assertion of the file can fail: list order, locks taken unlocked and released by their holder in address order, BtShared.db, locked and want counts |
| BtMutex.BetweenCalls | sqlite-src-3280000/src/btmutex.c:71-152 | Between calls `locked` is `wantToLock>0`, exactly then the connection holds the mutex, and BtShared.db is this connection |
| BtMutex.OneLocked | sqlite-src-3280000/src/btmutex.c:27-50 | At any time at most one Btree of a BtShared is locked, over all connections |
| BtMutex.EnterAllHolds | sqlite-src-3280000/src/btmutex.c:186-237 | When EnterAll returns, whatever the other connections did meanwhile, HoldsAllMutexes is true and every count is one higher |
| BtMutex.CountsAdd | sqlite-src-3280000/src/btmutex.c:71-214 | Over any interleaving, from outside calls to outside calls and at any nesting, each count moves by the enters and leaves made, so a matching LeaveAll restores every count |
| BtMutexProof.NextKeeps | sqlite-src-3280000/src/btmutex.c:27-214 | Every step of every connection keeps the invariant, and no assertion fails on the way, those on the address order and the wants of later Btrees among them |
| BtMutexInv.AssertsHold | sqlite-src-3280000/src/btmutex.c:27-152 | The invariant implies every assertion on the way of every step, address order and want counts included |
| BtMutexObject.LockCarefully | sqlite-src-3280000/src/btmutex.c:105-137 | Whether the try succeeds or not, in the end exactly the wanted Btrees of the list are locked |
| BtMutexObject.Enter | sqlite-src-3280000/src/btmutex.c:71-97 | One want more for this Btree, and locked is wanted for all; no change for a Btree that is not sharable |
| BtMutexObject.Leave | sqlite-src-3280000/src/btmutex.c:143-152 | One want less for this Btree, and locked is wanted for all |
| BtMutexObject.Connection.EnterAll | sqlite-src-3280000/src/btmutex.c:186-202 | Every sharable Btree is wanted once more and locked; noSharedCache afterwards says exactly that there is none |
| BtMutexObject.Connection.LeaveAll | sqlite-src-3280000/src/btmutex.c:203-214 | Every sharable Btree is wanted once less |
| BtMutexObject.Connection.HoldsAllMutexes | sqlite-src-3280000/src/btmutex.c:223-237 | True if and only if every sharable Btree is wanted |
| Rename.EditSql | sqlite-src-3280000/src/alter.c:997-1071 | For any disjoint tokens in any list order, the in-place right-to-left edit of a buffer of `nSql + nList*nQuot + 1` bytes gives exactly the text with every token replaced where it stands, each quoted or bare by its first character; every access is inside the buffer; a single token gives way to the new name, quoted if bQuote is set or the token does not start like a bare identifier; tokens that read the new name already leave the text as it is |
| Rename.RenameList.TokenNext | sqlite-src-3280000/src/alter.c:852-864 | The last token of the text is returned and exactly it leaves the list |
| Rename.TokenFind | sqlite-src-3280000/src/alter.c:775-788 | The first token of the element, if there is one, moves from the parser's list to the front of the context's, and nList counts it; otherwise nothing changes |
| Rename.Splice | sqlite-src-3280000/src/alter.c:1051-1059 | The bytes of the token give way to the replacement, the bytes before and after it are kept, and the text stays terminated |
| RenameSpec.OneMore | sqlite-src-3280000/src/alter.c:1037-1061 | Replacing one more token, in front of all finished ones, is one edit of the text edited so far |
| RenameSpec.QuotedReadsBack | sqlite-src-3280000/src/alter.c:1017-1022 | The quoted name reads back as the name, whatever characters it has |
| RenameSpec.RenamedBack | sqlite-src-3280000/src/alter.c:997-1071 | Renaming, and then renaming the same tokens back where they stand in the new text, restores the text byte for byte, with any mix of bare and quoted tokens |
| RenameSpec.SameName | sqlite-src-3280000/src/alter.c:1043-1061 | Renaming to the name that all tokens already have changes nothing |
| RenameSpec.OneToken | sqlite-src-3280000/src/alter.c:1043-1061 | A single token gives way to the bare name if it starts with an identifier character, else to the quoted one, and the rest of the text stays |
| Affinity.AffinityType | sqlite-src-3280000/src/build.c:1206-1241 | For every NUL-free type name the affinity is that of the documented table: which of the words INT, CHAR, CLOB, TEXT, BLOB, REAL, FLOA and DOUB the name contains in any letter case, with their priorities |
| Affinity.RollIsLastFour | sqlite-src-3280000/src/build.c:1206-1214 | The rolling 32-bit value always holds the last four lower-case bytes |
| Affinity.OneMoreByte | sqlite-src-3280000/src/build.c:1215-1240 | The documented rule, one byte further on, changes as the chain of branches does |
| DestroyTable.Parse.DestroyTable | sqlite-src-3280000/src/build.c:2520-2563 | The loop ends; it destroys every distinct positive root page of the table and its indices, each once, in strictly descending order; nothing else is destroyed if and only if the table's root page is not negative or an index has root page 0 |
| DestroyTable.NegativeRoot | sqlite-src-3280000/src/build.c:2520-2563 | A failing input: table root page -1 and no index destroys page -1, and the schema is reported corrupt |
| DestroyTable.DropKeepsOthers | sqlite-src-3280000/src/build.c:2461-2563 | If every destroy may move the largest root page into the hole, each page is live with its own tree when its turn comes, exactly these trees are gone in the end, and every surviving catalogue entry still names its own tree |
| DestroyTable.OnlyDescending | sqlite-src-3280000/src/build.c:2520-2540 | No other order will do: in an auto-vacuum database of just these pages only the descending order finds every page live |
| DestroyTable.RootPageMoved | sqlite-src-3280000/src/build.c:2461-2482 | Every entry with the old root page, stale ones included, gets the new one, and no other changes |
| WithoutRowid.Table.Convert | sqlite-src-3280000/src/build.c:1785-1907 | The PRIMARY KEY gets its declared columns without repeats, then all other columns, and the table's root page; every other index gets its own key, then exactly the PRIMARY KEY columns that it lacks; nKeyCol of every index is the number of its own key columns, for the PRIMARY KEY without the repeats |
| WithoutRowid.FirstsOnce | sqlite-src-3280000/src/build.c:1837-1844 | The cleaned key has the declared columns, none twice, in the order of their first occurrence |
| WithoutRowid.MissingOnce | sqlite-src-3280000/src/build.c:1866-1887 | The appended columns are exactly those that are missing, each once, in the order of the PRIMARY KEY |
| WithoutRowid.CoversAll | sqlite-src-3280000/src/build.c:1891-1905 | The columns of the PRIMARY KEY become a permutation of all table columns |
| WithoutRowid.Index.DropRepeats | sqlite-src-3280000/src/build.c:1837-1844 | The loop in place leaves the specified key |
| WithoutRowid.Index.AppendKey | sqlite-src-3280000/src/build.c:1867-1886 | Counting, resizing and writing leave the specified columns, with nColumn their number |
| WithoutRowid.Index.Cover | sqlite-src-3280000/src/build.c:1891-1905 | The PRIMARY KEY index gets the missing table columns and nColumn is the number of table columns |
| WithoutRowid.Index.Resize | sqlite-src-3280000/src/build.c:1679-1698 | At least N columns afterwards, with the old ones unchanged |
| WithoutRowid.HasColumn | sqlite-src-3280000/src/build.c:1731-1734 | Whether the value is among the first entries |
| Complete.SqlComplete | sqlite-src-3280000/src/complete.c:104-261 | True if and only if the text can be cut into pieces (white space, comments, the four kinds of quotation, whole words, single other bytes, perhaps a last line comment), each described by its own bytes without the scanner, whose tokens are one or more complete statements |
| Complete.PieceIsLex | sqlite-src-3280000/src/complete.c:145-256 | A slice of the text is a piece with a token if and only if the scanner finds it there: the piece at a position is unique |
| Complete.OpenIsLex | sqlite-src-3280000/src/complete.c:157-195 | The scanner gives up exactly where a block comment, string or identifier is opened without its closer after it, and ends early exactly at a line comment without a newline |
| Complete.KeywordMeans | sqlite-src-3280000/src/complete.c:206-247 | The token of a word is that of create, trigger, temp or temporary, end or explain in any letter case, and OTHER for any other word |
| Complete.TokensDecide | sqlite-src-3280000/src/complete.c:137-261 | The text can be read as complete statements if and only if its scanned tokens are such |
| CompleteProof.AcceptsStatements | sqlite-src-3280000/src/complete.c:112-123 | The automaton ends in START exactly for one or more complete statements: an ordinary one ends at its first semicolon, a CREATE [TEMP] TRIGGER, perhaps after EXPLAIN and other tokens, at its first adjacent `; END ;` |
| CompleteProof.StateMeans | sqlite-src-3280000/src/complete.c:58-84 | What each of the eight states says about the tokens read so far |
| CompleteProof.PrefixFree | sqlite-src-3280000/src/complete.c:51-84 | No complete statement is the beginning of another one, so the split into statements is unique |
| CompleteProof.FromInvalid | sqlite-src-3280000/src/complete.c:115-116 | INVALID differs from START only in that no tokens at all are not complete |
| Complete.Scan | sqlite-src-3280000/src/complete.c:145-256 | The nested switches and loops find the piece of the text at a position with its token; or that a block comment or quotation is opened and never closed; or the last line comment |

## Left out

- STAT4: SQLITE_ENABLE_STAT4 is taken as defined; the STAT3 variants, collations and the comparison of values are not modelled, and a row's key stands for what they decide.
- STAT4: a sample is a value in the array, so the buffers that samples exchange on eviction are not modelled; counts are unbounded, since no count exceeds the number of rows.
- STAT4: the constants that seed the pseudo-random number from the column and row counts; the theorems hold for any seed.
- StatText.DecodeIntArray: does not set the LogEst array or the extra flags after the numbers.
- StatText.StatGet: covers the count vectors; the sqlite_stat1 text has the same format and its numbers are in Stat4Theorems.Stat1Estimates.
- Backup: any error in the copy loop is taken as fatal, because iNext has already moved on; busy and locked results come from opening the transactions only.
- Backup: the error codes of the final phase are one outcome, and the destination commit is one atomic step; journalling, WAL, codec, sync and crash recovery are not modelled.
- BackupCommit.CommitExact: leaves out the header fields that the backup or the commit rewrites itself (bytes 18-19, 24-31, 40-43 and 92-99 of the file).
- Backup: the source page size is fixed and the source never ends in its pending-byte page; the copy for VACUUM, which has no destination connection, is not modelled.
- BackupWorld.DoneMeansEqual: is about sources with at least one page; for an empty source the code writes a new database instead.
- BackupProgress.StepCounts: says what nRemaining is for sources of fewer than 2^32 pages; beyond that it is kept modulo 2^32 as in the code.
- Backup: the cases in which sqlite3_backup_init() returns no object, the result code of sqlite3_backup_finish(), reference counts and mutexes.
- Backup: that a write transaction of the source ends only when all its new pages are written or cut off again is assumed from pager.c.
- Bitvec: the union of the three forms is three arrays, of which the form in use counts; allocation succeeds and `iSize + NPTR - 1` is not cut off to 32 bits.
- Bitvec: the descent of sqlite3BitvecSet() and sqlite3BitvecClear() is a recursion on the parts instead of a loop; destroying a vector is not modelled.
- Hash table: freeing of memory; the list walk of sqlite3HashClear() that only frees elements.
- BtMutex: opening and closing a Btree is one step that keeps the list sorted, without the rest of btree.c; cursors and the connection mutex itself are not modelled.
- BtMutex.SomebodyCanStep: does not promise fairness of the mutexes, so a connection may wait while others make progress.
- BtMutexObject.LockCarefully: takes a mutex that is waited for as free when the wait ends; what the others do meanwhile is in the state machine.
- Rename editing: which tokens are found (name resolution, views, triggers), error messages and memory failure.
- DestroyTable: the VDBE program is the list of root pages to destroy; that the b-tree layer moves the largest root page, and that the root pages are the keys of the map, is assumed from btree.c.
- WithoutRowid.Table.Convert: does not model collations, because after the removal of repeated columns the code moves column numbers only, nor NOT NULL marks, sort orders and generated code; a new PRIMARY KEY index is put in front of the list.
- Affinity.AffinityType: does not compute the estimate of the column's width.
- Completeness: the UTF-16 variant, EBCDIC and builds without triggers or EXPLAIN.
- The gRPC file system, the multi-process test driver mptest.c, the dbpage virtual table, the authorizer callbacks of auth.c, the fault-injection hooks of fault.c, the option table of ctime.c and the language bindings: they pass calls and constants on to the components above or to other processes, and keep no state that these components rely on.
