# Camlistore: verified models of its core

Camlistore stores content-addressed blobs and keeps an index of what they say. This project
models, in Dafny, the parts of it whose correctness spans many steps or many functions, and
proves what they are for. `dafny verify dfyconfig.toml` checks everything.

- **Tree upload** (`NodeWorker`, `TreeUpload`, `TreeUploadSafety`, `TreeUploadResults`, `StatWalk`): the worker pool of
  `camput` and the three pools, the stat walk and the select loop built on it, as one step relation
  over channels, buffers, running calls and results. The pool refines a bag of pending nodes, and the
  safety theorems are about every interleaving. A send on a closed channel, a second close and a
  second `SetPutResult` are steps that set `panicked`; the theorem is that none is ever taken.
- **Garbage collection** (`GarbageCollection`): recursive marking over any finite graph, with a
  failure possible at every call.
- **Enumerations** (`BlobRef`, `ByteOrder`, `Enumeration`, `MergedEnumeration`, `MissingBlobs`,
  `PageRuns`, `Paging`, `SyncPass`): blob references, their two orders, the k-way merge, the set
  difference by merging, paging and the three-legged copy.
- **Corpus** (`Claims`, `ClaimMerge`, `Deletions`, `DeletionRecursion`, `PermanodeTimes`, `IndexKeys`,
  `ReverseTimes`): attribute values folded from claims, recursive deletion, the generation-checked
  caches and the ordered key encoding.
- **Stat batching** (`StatBatching`, `StatBatchingSafety`, `StatBatchingResults`): the pending map shared
  by callers and workers, as a step relation with a no-lost-wakeup invariant, a bound on the steps left,
  what a quiet state has done and what every request has been sent.
- **Selection formatter** (`SelectionEvents`, `SelectionFormat`, `LineSelections`): the event merger
  and the delayed-segment optimiser, against per-character coverage.
- **Split tree and zip paths** (`SplitTree`, `ZipPaths`), with `Sorting`, `Collections`, `Decimals`
  and `Options` underneath.

Code that changes state step by step is modelled by classes, loops and arrays whose contracts name a
specification function; the lemmas are about those functions. Concurrent protocols are step functions
(`After`, `Step`) and predicates on whole runs. Failures of files, stores, the network and the
components of the collector are arbitrary parameters.

Some properties do not hold of the code as it is. For each there is a lemma with a failing input and
one with the exact condition:

- `Ref.Less` cannot order two references that differ only in whether a final hex digit 0 was given
  (`BlobRef.TwinsExample`). It is a total order, and agrees with the strings, exactly on the others
  (`BlobRef.LessIsStringOrder`, `BlobRef.LessTotal`). `ListMissingDestinationBlobs` loops forever
  exactly when its two streams share such a pair (`MissingBlobs.ListMissing`).
- Paging stops at a full page of rows that do not decode: it is complete exactly when no such page
  precedes a good row (`PageRuns.PagingComplete`, `PageRuns.GapExample`).
- `FormatSelections` keeps one bit per selection in an int, so coverage by later selections is lost
  (`SelectionFormat.LostBit`), and offsets of 2e9 and more take no part in the merge
  (`SelectionEvents.BeyondInfinity`). `SelectionFormat.BitsAreCoverage` says exactly when the bits are
  the covering selections, and `SelectionFormat.TagsAreBoundaries` when the link tags are complete.
- A marker with marks left over from a failed run can hide a reachable item from the collector
  (`GarbageCollection.StaleMarksHide`); `Collect` is stated for any initial marks,
  `GarbageCollection.NothingHiddenIff` says exactly when they hide nothing, and
  `GarbageCollection.CollectStale` what that means for a collection.
- `IsDeletedLocked` need not return when deletions form a cycle
  (`DeletionRecursion.SelfDeletionNeverReturns`, `DeletionRecursion.MutualDeletionNeverReturns`), though
  with some dates it does (`DeletionRecursion.CycleThatReturns`). It returns for every dating exactly
  when no cycle can be reached (`DeletionRecursion.ReturnsIff`, `DeletionRecursion.AcyclicIffReturns`).
  A cycle may leave no consistent answer (`Deletions.SelfDeletionUnsettled`) or two
  (`Deletions.MutualDeletionAmbiguous`); acyclic histories have exactly one
  (`Deletions.IsDeletedSettles`).
- A sync pass with removeSrc loses blobs when source and first hop are one store and an enumeration
  fails (`SyncPass.PassOverItself`). `SyncPass.PassLoses` says exactly when, in terms of the listings
  and of what fails.
- `mergedEnumerate` sends twins that different sources hold in the order of the sources
  (`MergedEnumeration.TwinsBothSent`); its output is increasing exactly when there are none among the
  first limit references of the sources (`MergedEnumeration.IncreasingIff`).
- `PermanodeHasAttrValueLocked` says true for values that were added and deleted again
  (`Claims.ReadersDisagree`); `Claims.HasAttrValue` says exactly when it says true.
- `typeOfKey` of a key without parts is empty (`IndexKeys.TypeRecovered`).
- Reversed times with the offset that `schema.RFC3339FromTime` uses for an unknown zone are not newest
  first when one time continues the other's digits (`ReverseTimes.UnknownZoneOutOfOrder`); the exact
  condition is in `ReverseTimes.NewestFirst`.

Where the code and its own words disagree the model follows the code: the regular expression for blob
references at `pkg/blob/ref.go:36-38` wants a letter first, but the parser also takes a digit; the
comment at `pkg/index/corpus.go:1214-1216` promises the attribute's values, but the reader also says
true for deleted ones.

## Model

| member | source | states |
|---|---|---|
| `NodeWorker.Refines` | cmd/camput/chanworker.go:43-119 | every step of pump, workers and client keeps the pool's invariant and is a step of a bag of pending nodes with running calls; internal steps are invisible |
| `NodeWorker.Conservation` | cmd/camput/chanworker.go:84-119 | after every prefix of every run, the nodes sent are those pending plus those called, and the nodes called are those returned plus those running |
| `NodeWorker.CallsInOrder` | cmd/camput/chanworker.go:61-119 | a pool of nWorkers workers calls fn with the nodes in the order in which they were sent, and never has more than nWorkers calls under way |
| `NodeWorker.ExactlyOnce` | cmd/camput/chanworker.go:43-119 | no node has fn called more often than it was sent; fn(nil, false) comes after the close, when every node sent has been called and has returned, and nothing but internal steps follows it |
| `NodeWorker.NeverStuck` | cmd/camput/chanworker.go:43-119 | a closed pool with no call running and no final call made can always take a step |
| `NodeWorker.StepsDecrease` | cmd/camput/chanworker.go:43-119 | after the close every step lowers a bound on the steps left |
| `NodeWorker.ClosedRunEnds` | cmd/camput/chanworker.go:43-119 | a run has a bounded number of steps after the close, and one that cannot go on has made the final call |
| `TreeUpload.StepRefines` | cmd/camput/files.go:964-1115 | a step of the upload over real pools is a step over bags of nodes |
| `TreeUploadSafety.StepInv` | cmd/camput/files.go:964-1115 | every step keeps the account of where each node is: not yet sent, waiting in one stage, inside one call, skipped or uploaded |
| `TreeUploadSafety.NeverPanics` | cmd/camput/files.go:822-833 | no run sends on a closed channel, closes one twice or sets a node's result twice |
| `TreeUploadSafety.ResultsAreFinal` | cmd/camput/files.go:822-842 | a result once set is the same in every later state |
| `TreeUploadSafety.DirectoryLast` | cmd/camput/files.go:368-378 | a directory with a result was uploaded with exactly its children's results in order, and everything beneath it has a result |
| `TreeUploadSafety.ExitAccounts` | cmd/camput/files.go:964-1115 | when the loop exits, the total is the number of nodes and the sizes of those that are not directories together; skipped and uploaded are the same of the nodes received from the two channels, which divide the nodes, and no directory is skipped; every node has a result |
| `TreeUploadSafety.StatsAreReceived` | cmd/camput/files.go:333-342 | in every state the three statistics are the number of nodes the loop has received from the channel, and the sizes of those that are not directories |
| `TreeUploadResults.ResultsAreMade` | cmd/camput/files.go:1019-1084 | every result was found in the stat cache, for a file and when there is one, or is what uploading that very node gave |
| `StatWalk.Walker.StatPath` | cmd/camput/files.go:914-959 | sends exactly the nodes of the entry, each directory after the nodes of its own entries in order and with them as children; every node but the last hangs from a later one, and an error is reported exactly when an entry looked at fails |
| `StatWalk.WalkStands` | cmd/camput/files.go:914-959 | the nodes sent for an entry stand for its tree: sizes and kinds are those of the entries, and a directory's children are the nodes of its entries that are not ignored, in order |
| `StatWalk.WalkInOrder` | cmd/camput/files.go:914-959 | the children of every node were sent in their order |
| `GarbageCollection.Collector.MarkItem` | pkg/gc/gc.go:88-120 | terminates on every finite graph; only what is reached clear of stale marks gets marked, and on success every newly marked item's edges lead to marked items |
| `GarbageCollection.Collector.MarkAll` | pkg/gc/gc.go:152-170 | on success exactly the stale items and what the roots reach clear of them are marked |
| `GarbageCollection.Collector.SweepAll` | pkg/gc/gc.go:172-197 | a marked item is never deleted; on success the store loses exactly the swept items that are not marked |
| `GarbageCollection.Collector.FirstNil` | pkg/gc/gc.go:123-141 | reports the first component that is missing, and none only when all are there |
| `GarbageCollection.Collector.Collect` | pkg/gc/gc.go:123-198 | whatever fails, no item to keep is deleted and deletions happen between one successful Stop and exactly one Start; it succeeds exactly when all components are there and no call fails, and then leaves exactly the swept items to keep and all that was not swept |
| `GarbageCollection.CollectFresh` | pkg/gc/gc.go:123-198 | from an empty marker over a sweep of the whole store: every reachable item survives every run, exactly those survive a successful one, and without faults it is successful |
| `GarbageCollection.CollectStale` | pkg/gc/gc.go:123-198 | with harmless marks left over no run loses a reachable item; a successful run keeps them all if and only if the marks are harmless |
| `GarbageCollection.ReachedMarked` | pkg/gc/gc.go:88-120 | a set that holds the roots and that edges do not leave holds everything reachable |
| `GarbageCollection.NothingHidden` | pkg/gc/gc.go:88-97 | marks that lead nowhere else, and so an empty marker, are harmless |
| `GarbageCollection.NothingHiddenIff` | pkg/gc/gc.go:88-97 | no reachable item is hidden if and only if what the reachable stale items lead to is kept all the same |
| `GarbageCollection.StaleMarksHide` | pkg/gc/gc.go:88-97 | a graph in which a stale mark hides a reachable item, and is not harmless |
| `BlobRef.ParseOfString` | pkg/blob/ref.go:216-239 | parsing the string of a parsed reference gives it back |
| `BlobRef.StringOfParse` | pkg/blob/ref.go:79-118 | every accepted string is the string of its reference |
| `BlobRef.ParseIff` | pkg/blob/ref.go:216-245 | a string parses exactly when it is sha1, a hyphen and 40 lower-case hex digits, or another name of lower-case letters and digits, a hyphen and 1 to 256 of them; without allowAll only three test names besides sha1 |
| `BlobRef.LessIsStringOrder` | pkg/blob/ref.go:590-601 | Less holds exactly when the strings are in byte order and the two are not twins |
| `BlobRef.LessTotal` | pkg/blob/ref.go:590-601 | two different parsed references are incomparable exactly when they are twins |
| `BlobRef.LessTransitive` | pkg/blob/ref.go:590-601 | Less is transitive on all references |
| `BlobRef.LessIrreflexive` | pkg/blob/ref.go:590-601 | nothing is Less than itself |
| `BlobRef.TwinsExample` | pkg/blob/ref.go:319-347 | two strings that parse to references Less does not order |
| `BlobRef.AppendString` | pkg/blob/ref.go:106-118 | the buffer grows by the reference's string, the odd digit left out |
| `BlobRef.FillSum` | pkg/blob/ref.go:319-369 | the digest array holds the bytes of the digits, and bad is set exactly when some digit is not hex |
| `Enumeration.ChanPeeker.Peek` | pkg/blob/chanpeek.go:40-55 | the next blob without consuming it; closed exactly when none is left |
| `Enumeration.ChanPeeker.Closed` | pkg/blob/chanpeek.go:58-61 | true exactly when nothing is left, and nothing is consumed |
| `Enumeration.ChanPeeker.Take` | pkg/blob/chanpeek.go:73-80 | the next blob, and what is left is the rest |
| `MergedEnumeration.MergedEnumerate` | pkg/blobserver/mergedenum.go:41-91 | for every list of increasing sources, sends the first limit entries of the sorted, duplicate-free union of the uncut sources, a shared reference with the size of its earliest source, and twins in the order in which the sources have them |
| `MergedEnumeration.CutIsEnough` | pkg/blobserver/mergedenum.go:47-62 | what is first in sources cut at the limit is first in the uncut ones |
| `MergedEnumeration.FirstIsUnique` | pkg/blobserver/mergedenum.go:41-91 | only one list meets that description |
| `MergedEnumeration.SentIff` | pkg/blobserver/mergedenum.go:41-91 | a reference is sent exactly when some source has it and fewer than limit references of the sources go before it |
| `MergedEnumeration.IncreasingIff` | pkg/blobserver/mergedenum.go:41-91 | what is sent is increasing under Less if and only if there are no twins among the first limit references of the sources |
| `MergedEnumeration.TwinsBothSent` | pkg/blobserver/mergedenum.go:64-91 | two sources with one twin each, whose output is not increasing |
| `MissingBlobs.ListMissing` | pkg/blobserver/sync.go:30-72 | loops forever exactly when the streams share twins; otherwise sends exactly the missing entries in order and reports exactly the shared references whose sizes differ |
| `MissingBlobs.MergeRound` | pkg/blobserver/sync.go:34-70 | one round of the loop consumes and reports according to the two heads, and gets stuck exactly when they differ and neither is Less |
| `MissingBlobs.MissingRefs` | pkg/blobserver/sync.go:30-72 | a reference is sent exactly when the source has it and the destination does not |
| `MissingBlobs.MissingSound` | pkg/blobserver/sync.go:30-72 | what is sent is again strictly increasing and parsed, so a second merge may read it |
| `SyncPass.CopyOne` | cmd/camtool/sync.go:396-426 | what one blob does to the two stores, also when they are the same, for every combination of failures; a blob is removed only after it was received |
| `SyncPass.CopyLoop` | cmd/camtool/sync.go:396-426 | the loop goes through exactly the states that receiving and removing blob by blob gives, from the first to the last, and counts exactly what was copied and what failed |
| `SyncPass.TallyCounts` | cmd/camtool/sync.go:396-426 | the statistics are the number of blobs copied, their sizes together, and the number of blobs that something went wrong with |
| `SyncPass.LostIff` | cmd/camtool/sync.go:396-426 | none of these states has lost a blob if and only if the stores differ or nothing was removed |
| `SyncPass.GoneIs` | cmd/camtool/sync.go:396-426 | what leaves a source that has all the blobs is exactly what the faults let be removed |
| `SyncPass.CleanIff` | cmd/camtool/sync.go:396-426 | such a source causes no error if and only if no fault matters |
| `SyncPass.CopyComplete` | cmd/camtool/sync.go:360-394 | with complete enumerations a source blob is copied exactly when neither dest nor the third leg has it |
| `SyncPass.Plan` | cmd/camtool/sync.go:360-394 | the two merges never end exactly when one meets twins; otherwise they select the blobs missing at dest and on the third leg and count exactly the size mismatches |
| `SyncPass.NothingToCopy` | cmd/camtool/sync.go:360-394 | with complete enumerations a source that is itself dest or the third leg has nothing to copy |
| `SyncPass.NilEffect` | cmd/camtool/sync.go:428-434 | what a nil result means for the blobs first on src and their sizes, whichever of the stores are the same |
| `SyncPass.PassLoses` | cmd/camtool/sync.go:315-435 | unless a pass spins, no state of it has lost a blob if and only if source and first hop differ, nothing is to be removed, or the faults prevent every removal |
| `SyncPass.PassCounts` | cmd/camtool/sync.go:396-434 | unless a pass spins, it reports as copied the blobs to copy that neither Fetch nor Receive fails on, with their sizes, and as many errors as sizes differ and blobs meet a fault that matters |
| `SyncPass.DoPass` | cmd/camtool/sync.go:315-435 | for any stores, also equal ones, and any faults: the states it goes through are those of the copy loop on the blobs missing at dest and on the third leg; it never ends exactly when a merge meets twins, and returns nil exactly when the enumerations complete, no sizes differ and no fault matters; then each blob is on dest or the third leg with the size it had on src, and with removeSrc exactly those synced before stay on src; no state has lost a blob exactly as stated for PassLoses |
| `SyncPass.PassOverItself` | cmd/camtool/sync.go:315-435 | a pass from a store to itself with removeSrc, whose second enumeration fails at once, empties the store |
| `Paging.EnumerateBlobs` | pkg/index/enumstat.go:29-64 | sends the decodable ones among the first limit have rows after the given string, in the order of the rows |
| `Paging.HaveValIff` | pkg/index/enumstat.go:85-96 | a size is read exactly when the value begins with its numeral, perhaps after zeros, followed by nothing or a pipe, and it is below 2 to the 32nd |
| `Paging.RowBlobIff` | pkg/index/enumstat.go:35-60 | a row stands for a blob exactly when its key is have: and the blob's reference and its value says the blob's size |
| `Paging.PageIsFirstGood` | pkg/index/enumstat.go:29-64 | a page is the blobs of the have rows behind the string that decode and have fewer than limit have rows before them, in order |
| `Paging.ResumeAtKey` | pkg/blobserver/enumerate.go:34-67 | the resume string of a row is its key |
| `Paging.EnumerateAllFrom` | pkg/blobserver/enumerate.go:34-67 | ends; calls fn in order and stops at its first error; when every iterator closes it calls fn on all the paged blobs up to that error, and fails exactly if there is one |
| `Paging.VisitsAll` | pkg/blobserver/enumerate.go:34-67 | what is stored are the blobs of all have rows behind the start that decode; paging visits every one once and in order exactly when no full page of bad rows precedes a good one; so always when every have row decodes |
| `PageRuns.PagingComplete` | pkg/blobserver/enumerate.go:34-67 | the same on lists of rows |
| `PageRuns.GapExample` | pkg/blobserver/enumerate.go:34-67 | 1000 bad rows hide the row behind them |
| `Claims.AppendAttrValues` | pkg/index/corpus.go:1036-1079 | the slice changed in place holds the values that visible claims dated no later than at gave and none took away since, in order and each as often as it was given |
| `Claims.Remove` | pkg/index/corpus.go:1063-1070 | deleting a value in place leaves the others in order |
| `Claims.ValuesAreKept` | pkg/index/corpus.go:1036-1079 | the fold of set, add and del claims is the list, in the order of the claims, of the values of exactly those that gave one which no later visible claim took away |
| `Claims.ValueIff` | pkg/index/corpus.go:1036-1079 | a string is a value exactly when some visible claim gave it and no later visible one took it away |
| `Claims.LaterIgnored` | pkg/index/corpus.go:1051-1054 | claims dated after at change nothing |
| `Claims.InvisibleSkipped` | pkg/index/corpus.go:1051-1057 | a claim on another attribute, later or by another signer can be left out |
| `Claims.HasAttrValue` | pkg/index/corpus.go:1217-1247 | true exactly for the values and for what some visible claim once added |
| `Claims.AttrValue` | pkg/index/corpus.go:999-1034 | returns what the single slot holds after all claims |
| `Claims.SlotIff` | pkg/index/corpus.go:1012-1033 | the slot holds x exactly when some visible claim set x, or added it while the slot was empty, and none took it away since |
| `Claims.SlotIsValue` | pkg/index/corpus.go:1012-1033 | what the slot holds is one of the values |
| `Claims.SlotIsFirst` | pkg/index/corpus.go:1012-1033 | the slot holds the first value that is not empty, as long as no claim deletes a single value |
| `Claims.ReadersDisagree` | pkg/index/corpus.go:999-1079 | a history on which the values, the slot and the presence test all differ |
| `ClaimMerge.Corpus.MergeClaimRow` | pkg/index/corpus.go:475-505 | the claim joins those of its permanode, the others keep theirs, and outside of building the dates stay in order |
| `ClaimMerge.ClaimsOnCounts` | pkg/index/corpus.go:475-505 | a permanode gains each claim as often as there are rows with it |
| `ClaimMerge.Corpus.SortAll` | pkg/index/corpus.go:292-296 | every permanode's claims are in date order and the same claims as before |
| `ClaimMerge.SameHoweverBuilt` | pkg/index/corpus.go:292-305 | with distinct dates, corpora that hold the same claims in date order are equal |
| `ClaimMerge.ScanEqualsReceive` | pkg/index/corpus.go:292-305 | a bulk scan in one order and merging one by one in another give the same corpus |
| `ClaimMerge.LaterClaimHarmless` | pkg/index/corpus.go:475-502 | a claim merged in leaves the values at every time before its date as they were |
| `Deletions.IsDeletedSettles` | pkg/index/corpus.go:133-140 | on an acyclic history IsDeletedLocked is the only function for which x is deleted exactly when a deleter of x is not |
| `Deletions.AcyclicIff` | pkg/index/corpus.go:133-140 | a ranking of the deletions exists exactly when no chain of them is a cycle |
| `Deletions.SelfDeletionUnsettled` | pkg/index/corpus.go:133-140 | no function settles a claim that deletes itself |
| `Deletions.MutualDeletionAmbiguous` | pkg/index/corpus.go:133-140 | two claims that delete each other are settled in exactly two ways |
| `DeletionRecursion.ReturnsIff` | pkg/index/corpus.go:133-140 | IsDeletedLocked(x) returns however the deletions are dated if and only if no chain of deleters of x comes back to itself |
| `DeletionRecursion.AcyclicIffReturns` | pkg/index/corpus.go:133-140 | a history is acyclic if and only if IsDeletedLocked returns for every reference however the deletions are dated; and then it returns what IsDeleted says |
| `DeletionRecursion.AnswerSettled` | pkg/index/corpus.go:133-140 | whatever settles the history, cyclic or not, agrees with every answer that is returned |
| `DeletionRecursion.SelfDeletionNeverReturns` | pkg/index/corpus.go:133-140 | the recursion on a claim that only deletes itself exceeds every depth |
| `DeletionRecursion.MutualDeletionNeverReturns` | pkg/index/corpus.go:133-140 | so does that on two claims that delete each other |
| `DeletionRecursion.CycleThatReturns` | pkg/index/corpus.go:133-140 | a cyclic history with one answer, which is returned |
| `Deletions.OnlyDeletersMatter` | pkg/index/corpus.go:133-140 | histories with the same deleters give the same answers, and are acyclic together |
| `Deletions.Corpus.UpdateDeletes` | pkg/index/corpus.go:417-437 | nothing changes for a deletion already listed; otherwise it joins its target's list, newest first, and nothing else changes |
| `Deletions.Corpus.LoadDelete` | pkg/index/corpus.go:336-353 | the row's deletion joins its target's list, newest first, and nothing else changes |
| `Deletions.SameAnswersAllWays` | pkg/index/corpus.go:336-353 | the same deletions received in any order, repeated or loaded give the one answer in which x is deleted exactly when some claim that is not deleted deletes it |
| `PermanodeTimes.PermanodeModtime` | pkg/index/corpus.go:963-982 | the latest date of a claim that is not deleted, and false exactly when there is none after the zero time |
| `PermanodeTimes.Corpus.AddBlob` | pkg/index/corpus.go:391-413 | nothing changes for a blob already known; otherwise the generation moves by one and the rows are merged up to the first that stops the work, and the deletions added if none does; it succeeds exactly when the blob is known, or no row is bogus and the blobs of the rows are new and different |
| `PermanodeTimes.ReversedCopy` | pkg/index/corpus.go:734-741 | the list backwards |
| `PermanodeTimes.ByTimeIsOrder` | pkg/index/corpus.go:715-722 | the order by time and reference is one that sorting may use, in both directions |
| `PermanodeTimes.LazySortedPermanodes.SortedPermanodes` | pkg/index/corpus.go:744-792 | the answer lists exactly the undeleted permanodes with their times, oldest first, or newest first when reverse is asked for; at equal times no permanode comes on the wrong side of one that is Less; caches of the current generation are right and exact reverses of each other |
| `PermanodeTimes.ListingUniqueIff` | pkg/index/corpus.go:744-792 | there is one listing, so that the cache equals filtering and sorting from scratch, if and only if no two listed permanodes of one time are twins |
| `PermanodeTimes.Run` | pkg/index/corpus.go:391-413 | in any interleaving of additions and listings from an empty corpus on, every addition does to the corpus what its rows and deletions say, and every listing is that of the corpus as the additions before it have left it |
| `IndexKeys.Build` | pkg/index/keys.go:69-120 | appending part by part gives the name, the encoded parts and the pipes, and panics exactly on a wrong number or kind of arguments |
| `IndexKeys.BuiltIff` | pkg/index/keys.go:69-115 | build panics exactly on a wrong number of arguments or one that its part does not take: no integer, no text, or a time of fewer than 19 characters or with neither the dash nor the T in its place |
| `IndexKeys.StampAccepted` | pkg/index/keys.go:103-109 | every time with the seconds in the form of RFC 3339 is taken |
| `IndexKeys.PartInKey` | pkg/index/keys.go:69-120 | each part stands in the key behind the prefix for the arguments before it: plain text as given, other text escaped, times reversed, integers as numerals |
| `IndexKeys.ValLikeKey` | pkg/index/keys.go:65-67 | a value has its parts in the same way, without name and first pipe |
| `IndexKeys.EncodeInjective` | pkg/index/keys.go:84-116 | different arguments are written differently |
| `IndexKeys.PrefixFinds` | pkg/index/keys.go:57-63 | a Prefix matches exactly the keys of its type whose first arguments are its own and which have more; only text written without escaping must be free of pipes |
| `IndexKeys.TypeRecovered` | pkg/index/keys.go:32-49 | typeOfKey gives the type of every prefix and of every key with parts, and nothing for a key without |
| `IndexKeys.SameShapeNewestFirst` | pkg/index/keys.go:103-109 | keys that agree up to a reversed time, with times of one shape, sort by the times' digits, newest first |
| `IndexKeys.StampsNewestFirst` | pkg/index/keys.go:103-109 | keys that agree up to a time as schema.RFC3339FromTime writes it sort newest first: always in UTC, otherwise exactly when the times differ before the shorter one's end |
| `ReverseTimes.AppendReverse` | pkg/index/reversetime.go:41-51 | appends the string with every digit taken from nine |
| `ReverseTimes.RoundTrip` | pkg/index/reversetime.go:24-39 | reversing and unreversing undo each other, both ways |
| `ReverseTimes.SameShapeOrder` | pkg/index/reversetime.go:33-51 | on strings of one shape reversal turns the order around |
| `ReverseTimes.NumberOrder` | pkg/index/reversetime.go:33-51 | strings of one shape are ordered as the numbers their digits make |
| `ReverseTimes.FractionOrder` | pkg/schema/schema.go:889-897 | fractions without trailing zeros are ordered as their values |
| `ReverseTimes.NewestFirst` | pkg/index/reversetime.go:33-51 | when reversed times with fractions and a zone sort newest first, exactly |
| `ReverseTimes.UnknownZoneOutOfOrder` | pkg/schema/schema.go:889-897 | two times in an unknown zone that sort the wrong way around |
| `StatBatching.PendStat.Add` | pkg/client/upload.go:186-197 | the requests queue up behind those for the same reference |
| `StatBatching.EnqueuedInOrder` | pkg/client/upload.go:186-197 | the requests of a call for a reference are appended in the order in which it names them |
| `StatBatching.PendStat.TakeBatch` | pkg/client/upload.go:220-237 | takes everything, or exactly 1000 references, with all their requests, and starts another worker exactly then |
| `StatBatchingSafety.StepInv` | pkg/client/upload.go:155-270 | every step keeps: pending requests have a worker or caller that will see to them, each request is in one place, batches hold at most 1000 references, and what was delivered fits the reply |
| `StatBatchingSafety.RunInv` | pkg/client/upload.go:155-270 | the same in every state of every run; RequestsGetTheirOwn says what it is to fit |
| `StatBatchingResults.RequestsGetTheirOwn` | pkg/client/upload.go:257-270 | in every state a request has only been sent blobs of its own reference; an answered one has one reply, the outcome of a doStat call for a batch it was in, and was sent exactly what that call found for it, as often and in that order |
| `StatBatchingResults.EveryCallReturns` | pkg/client/upload.go:155-212 | when only a new call could happen, each call made has returned for its own references, with an error exactly when one of its replies was an error, and its requests have all that was found for them |
| `StatBatchingSafety.EqualRefsShareOneStat` | pkg/client/upload.go:186-197 | requests for one reference pending at the same time get the same reply and the same sizes from one call |
| `StatBatchingSafety.CostDecreases` | pkg/client/upload.go:155-270 | every step other than a new call lowers a bound on the steps left |
| `StatBatchingSafety.StepsBounded` | pkg/client/upload.go:155-270 | without new calls a run takes no more steps than that bound |
| `StatBatchingSafety.QuietMeansAnswered` | pkg/client/upload.go:155-270 | when only a new call could happen, every request has exactly one reply and every call has returned, nil exactly when none of its replies was an error |
| `SelectionEvents.Merger.Next` | website/format.go:167-204 | consumes the event with the least offset, of the first selection that has it; none exactly when none is pending |
| `SelectionEvents.OnIff` | website/format.go:147-204 | at every offset a selection is on exactly where it covers if p is below 2e9, and otherwise exactly if one of its segments straddles 2e9; so the two agree exactly when these do |
| `SelectionEvents.EventsUpTo` | website/format.go:147-204 | the events up to an offset are all starts and ends up to it if and only if none of these lies at 2e9 or beyond |
| `SelectionEvents.BeyondInfinity` | website/format.go:147-160 | a segment at 2e9 that is not seen |
| `SelectionFormat.FormatSelections` | website/format.go:56-137 | for every width of int: the chunks concatenate to the text, each character's chunk carries exactly the bits on at it, every link event up to the end is a tag at its own offset in order, and chunks with no tag in between differ |
| `SelectionFormat.BitsAreCoverage` | website/format.go:56-137 | at every character the bits are the covering selections if and only if no selection without a bit covers it and those with a bit are seen there |
| `SelectionFormat.TagsAreBoundaries` | website/format.go:113-120 | the link tags are all starts and ends of links up to the end of the text if and only if none of these lies at 2e9 or beyond |
| `SelectionFormat.ShortTextExact` | website/format.go:56-137 | on text shorter than 2,000,000,000 characters with a bit for every selection, each chunk has exactly the selections covering each of its characters and the link tags are all starts and ends of links |
| `SelectionFormat.LostBit` | website/format.go:121-133 | a selection beyond the bits of an int that leaves no trace |
| `LineSelections.LineSelection.Next` | website/format.go:210-227 | the next line, nil exactly at the end of the text |
| `LineSelections.AllLines` | website/format.go:210-227 | the segments are the lines, end to end over the whole text, and a well-formed selection |
| `SplitTree.ShowSplits` | cmd/camtool/splits.go:43-82 | the post-order of the spans is the pieces between splits and tiles the file, top-level bits never increase, and each span hangs from the first later one with strictly more bits |
| `SplitTree.PiecesTile` | cmd/camtool/splits.go:43-82 | the pieces lie end to end from 0 to the end of the file |
| `SplitTree.PiecesIff` | cmd/camtool/splits.go:43-82 | a piece ends behind a byte with these bits exactly when the checksum splits there with them, apart from an unfinished last one without bits |
| `SplitTree.AddSplit` | cmd/camtool/splits.go:61-81 | a new split that adopts the trailing spans with fewer bits keeps the forest right |
| `ZipPaths.FreeName` | app/publisher/zip.go:194-205 | ends with the first candidate that is not taken |
| `ZipPaths.CandidateIs` | app/publisher/zip.go:194-205 | a candidate has the number in parentheses before the extension, which begins at the last dot of the last path element, or at the end of a path without one |
| `Decimals.NumeralValue` | app/publisher/zip.go:194-200 | the numeral of a number denotes it by its place values and has no leading zero |
| `ZipPaths.Pigeonhole` | app/publisher/zip.go:194-205 | there are never more taken candidates than taken paths |
| `ZipPaths.RenamesOnce` | app/publisher/zip.go:188-210 | which file gets which path is determined |
| `ZipPaths.RenameDuplicates` | app/publisher/zip.go:188-218 | each file keeps its path if no earlier file has it and otherwise gets the first free candidate; paths are strictly increasing in byte order, every path asked for is in use, and the blobs are the same, each as often |

## Left out

- Liveness of the tree upload, and whether the root node has been received when its loop exits: the code leaves both to scheduling. Disk-usage mode, which uploads nothing, is not modelled.
- What the upload functions compute (file contents, schema blobs, permanodes): a result is an arbitrary reference; a directory's result also records the members it was built from.
- Aborts of the whole process: a failed upload ends `camput`, so the model has no run that continues after one.
- Directory listings come in the given order; sorting them by type and name is not modelled.
- `syncutil.Group` is modelled as running its functions to the end and returning an error if one did; the blocking of an enumerator whose reader has given up is not modelled.
- The final wait on `errs` in `mergedEnumerate`, and cancellation of its contexts: what reaches `dest` is modelled.
- SyncPass.DoPass: the enumerations list the stores as they were when the pass began, because they run beside the copying and only the order of each is known. The `stdout` destination, logging and repeated passes are not modelled.
- Blob contents and hashing: stores map references to sizes; SHA-1 is not modelled, and neither is ParseBytes, the copy of Parse for byte slices.
- BlobRef.FillSum: covers the loops of parseUnknown and sha1FromHexString together.
- Paging.EnumerateAllFrom: an iterator whose close fails may leave out some calls of its page; which ones is an arbitrary choice.
- The corpus fields for files, images, tags and GPS, and interning of strings and references; the permanode times derived from file contents; locking, which makes every corpus operation one step here.
- The current time: `at` is always given.
- PermanodeTimes.Corpus.AddBlob: a row about a blob that is already known makes mergeBlobMeta panic (pkg/index/corpus.go:447-450); the model counts that as a failure of the call.
- PermanodeTimes.PermanodeModtime: times are instants; which location the returned time carries is not modelled. The 64-bit generation counter does not wrap around.
- StatBatching covers requests that miss the have cache; the HTTP request, the gate that limits requests and the blocking of `dest` sends are not modelled.
- `url.QueryEscape` is any injective function whose results have no pipe; the calendar is not modelled, so times of one zone are compared by their digits.
- Comment, regular-expression and range selections, and the HTML that the writers produce.
- Reading the file and the rolling checksum of `camtool splits`: where it splits, and with how many bits, is arbitrary. Printing the tree.
- Fetching the members of a zip archive and writing it.
