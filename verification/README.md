# The wenchang memory store, modelled and proved

`MemoryStore` keeps small text files, "memories", in a versioned object store. Many clients share one
bucket. They coordinate only through conditional writes, and they share an index cache in which every
entity's listing is tagged with a generation token. The modules here model that behaviour and prove what it
guarantees.

- **Index cache** (`CacheProtocol`, `CacheSafety`, `CacheRuns`, `CacheClient`, `CachedIndex`, `PagedScan`,
  `ScanOutcome`, `ListingCodec`, `IndexCache`).
  The cache protocol is a step relation: any number of readers, writers and invalidators of any number of
  stores, one cache or storage call per step and one step per page, with keys that expire or get lost, cache
  calls that fail, calls that raise though they landed, processes that stop, and writers that bypass the cache.
  An inductive invariant gives agreement, freshness and the ttl bound. `CacheClient` holds the reader and
  writer bodies as methods that lead from the state they are called in by exactly those steps, with the exact
  outcome on storage and cache where nobody interferes and no call fails, and `CachedIndex` the memory index built
  from them.
- **Optimistic concurrency** (`SharedStorage`, `MemoryStore`, `History`). A client's storage calls are
  interleaved with arbitrary commits by others; the log of commits is history. Every operation's contract has
  two halves: what it commits and returns whatever the others do, with every error true of some state during the
  call, and the exact outcome when nobody interferes. `History` adds
  up the commits of all clients: appends, provenance, aliases, stale versions.
- **Paged scans** (`KeyOrder`, `Listing`, `Scans`, `FileCap`, `CapRuns`, `Purge`, `Export`, `MemoryIndex`, `IndexRead`).
  Drain, cap count, purge, export and the memory index are loops with moving cursors. Undisturbed, each equals
  a one-shot specification; under interference each keeps a guarantee of its own.
- **Backends** (`Storage`, `MemoryStorage`, `SegmentCodec`, `FileTree`, `TreeWalk`, `TreeSteps`,
  `FilesystemStorage`, `GcsStorage`). `Storage` is the flat versioned map. The dictionary, the directory tree
  and the bucket's listing and get are proved to answer as that map does. For the directory tree every state
  between two system calls is recorded and judged as a crash state.
- **Text** (`Utf8`, `Paths`, `FileFormat`, `Metadata`, `Occurrences`). UTF-8 (section 3 of RFC 3629), paths,
  fact lines, stored metadata, overlapping occurrences.

Strings are sequences of Unicode scalar values and version tokens are numbers from a supply that never
repeats. Clocks, network faults and the other clients are nondeterministic; what the clock showed is kept as history; a finite budget of interfering
commits, steps or faults (`others`, `faults`) makes loops that the others could prolong terminate, and nothing
bounds that budget.

Four properties that one might expect do not hold of the code, and the exact conditions are proved:

- `append_line`'s check for its own landed write (core.py:899-906) also accepts an identical write by another
  client, so two appends can both succeed and leave one line (`History.BothSucceed`, with a concrete case). And a
  landed write that was misreported and overwritten by the re-read is reported as an error. A call's answer is
  right exactly when neither happened (`History.ToldIff`).
- The file cap is exceeded by up to one file for each further concurrent client, and no more, although each
  client counts page by page while the others commit (`CapRuns.ConcurrentRunsBoundCap`); for every number of
  clients the bound is reached (`CapRuns.BoundIsReached`).
- A directory-tree overwrite interrupted between its two replaces leaves a state that the storage contract
  allows exactly when the key was new or its data is unchanged (`FilesystemStorage.TornBreaksContractIff`), and
  every successful overwrite passes through it (`FilesystemStorage.OverwriteTearsIff`).
  The module's documentation names this for crashes; the code has the same outcome when the second replace
  raises, because the cleanup (filesystem.py:247-250) only removes temporary files, and of those not one whose own
  write failed.
- Stores with different key prefixes can share a cache register. They can exactly when one prefix is the other
  plus a register kind's tag and text that can stand inside a scope (`IndexCache.StoresShareIff`). The
  documentation asks for prefixes of which none starts another (index_cache.py:47-50), which is more than is needed.

## Model

| member | source | states |
|---|---|---|
| CacheSafety.RunsKeepInv | src/wenchang/core.py:565-619 | every state of every run of the protocol keeps the invariant: each token enters its register at most once, and each listing, stored or in flight, began after its tag was put |
| CacheSafety.StepKeepsInv | src/wenchang/core.py:565-619 | the invariant is inductive over all nineteen kinds of step |
| CacheSafety.ServedAfterFinishedMutations | src/wenchang/core.py:596-619 | a listing served, from the cache or from a scan, was scanned wholly after the commit of every mutation whose token replacement preceded the reader's token read, so none is missed |
| CacheSafety.ServedIsCurrentListing | src/wenchang/core.py:577-619 | if every change to the entity was followed by a token replacement before the token read, what is served is exactly the current storage listing |
| CacheSafety.CachedIsCurrentListing | src/wenchang/core.py:596-619 | the same of the two cache registers, whether or not anyone is reading |
| CacheSafety.HitIsCurrentWhenWritersFinished | src/wenchang/core.py:577-619 | with every mutation of the entity finished and none in flight, a hit is exactly the entity's current listing |
| CacheSafety.FinishedWriterInvalidated | src/wenchang/core.py:565-594 | a finished writer's own replacement is such a replacement |
| CacheSafety.ReplacedTagNeverServed | src/wenchang/core.py:596-619 | a listing tagged with a token replaced before the reader's token read is never a hit, even if stored last |
| CacheSafety.TtlBoundsStaleness | src/wenchang/index_cache.py:30-51 | with a finite ttl, whatever bypasses or fails, every served listing began later than the token read minus the ttl |
| CacheRuns.ServedAfterPut | src/wenchang/core.py:596-619 | after a token replacement at or before the token read, every key served is as it was no earlier than that replacement |
| CacheRuns.ServedStoredSince | src/wenchang/core.py:596-619 | and every entry served was stored, exactly so, no earlier than that replacement |
| CacheRuns.ServedStaysCurrent | src/wenchang/core.py:577-619 | what a reader was served is still the current listing in any later state of the run, as long as every change to the entity was invalidated before the token read |
| CacheRuns.PurgedIsNeverServed | src/wenchang/core.py:509-530 | if an entity was emptied, stays empty, and its token was replaced afterwards, every read from then on serves nothing, whatever older listing is still cached |
| CacheClient.CachedEntityEntries | src/wenchang/core.py:596-619 | the reader body gets from the state it was called in to the one it returns in by protocol steps alone, reads the token during the call and returns exactly what the protocol serves; it misses nothing committed before a token replacement that preceded the call, and is the current listing if every change was invalidated before its token read; it fails only where its own scan, of the call, meets an object under the prefix that is stored and cannot be read; undisturbed and with no call failing, a live listing is served in three steps without a page being read, and anything else is exactly one listing of the storage, kept under the live or a new token until its ttl |
| CacheClient.SecondReadHits | src/wenchang/core.py:596-619 | after one such read the next finds the listing it kept |
| CacheClient.Drain | src/wenchang/core.py:621-630 | the reader's page loop takes the reader, by protocol steps, from the scan it is called at to that same scan complete, and returns its entries; it fails exactly on a page of the last state that cannot be read, with everything before it seen |
| CacheClient.InvalidatePath | src/wenchang/core.py:565-575 | the invalidation takes the token step and, for deletes, then the tombstone step, with failures swallowed; a replacement it reports happened during the call, after the commit; undisturbed, the token register holds a fresh token and, for deletes, the listing register the tombstone, and nothing else has changed |
| CacheClient.EntityOfPath | src/wenchang/core.py:565-575 | the entity invalidated is the one of the path: scope and entity, each with its slash |
| CacheClient.PutIfVersion | src/wenchang/core.py:577-588 | the conditional put is followed by the invalidation of the path's own entity, whether it returned or raised; commit and replacement happen during the call, in that order, a success names the one step at which exactly this object was written at the expected version, and a failed precondition means that a storage state of the call was not at that version; undisturbed, the exact storage, answer and registers |
| CacheClient.DeleteIfVersion | src/wenchang/core.py:590-594 | the same for the conditional delete, with the tombstone |
| CacheClient.CompletedMutationIsSeen | src/wenchang/core.py:565-619 | whatever meets the reader's contract after a mutation has committed and replaced the token shows every key of the entity as it was after that commit |
| CacheClient.PutThenRead | src/wenchang/core.py:577-619 | a put whose invalidation landed, then a cached read by another process, with anything in between: the read shows the file as written or as left later |
| CacheClient.InvalidateIndex | src/wenchang/core.py:509-530 | when it returns, the token was replaced during the call; a cache call that raises, landed or not, ends it; undisturbed it returns and leaves a fresh token and the tombstone |
| PagedScan.PageExtendsScan | src/wenchang/core.py:621-630 | reading one more page keeps every key passed so far as it was at some time since the scan began, and adds the page's keys as they are now |
| ScanOutcome.EndsAsListing | src/wenchang/core.py:621-630 | a paged scan, complete or failed, under whose prefix nothing changed since it began, ends as one listing of everything does: with the same entries or with the same error |
| ScanOutcome.FailureIsStored | src/wenchang/core.py:957-969 | a scan that fails blames an object that is stored under its prefix, at a well-formed path, with just that metadata key missing or malformed |
| ListingCodec.DecodeListing | src/wenchang/core.py:280-302 | the decoding loop accepts a value exactly when it is tagged with the token, every entry decodes and no path repeats, and returns the entries in order |
| ListingCodec.ListingComesBack | src/wenchang/core.py:215-302 | a stored listing is a hit under its own token with exactly its entries, and a miss under any other |
| ListingCodec.TombstoneMisses | src/wenchang/core.py:57-58 | the tombstone is a miss under every token |
| ListingCodec.HitIsListing | src/wenchang/core.py:245-302 | whatever decodes has distinct well-formed paths, all under the entity's prefix |
| ListingCodec.OtherEntityMisses | src/wenchang/core.py:245-302 | one cached value is a hit for two entities only if it is empty |
| ListingCodec.EntryComesBack | src/wenchang/core.py:245-277 | one entry survives encoding and decoding |
| ListingCodec.DecodeEntryIff | src/wenchang/core.py:245-277 | exactly the objects with the six fields, a well-formed path under the prefix, a one-line description and an instant in any layout decode, and to what they spell |
| ListingCodec.DrainedIsCacheable | src/wenchang/core.py:616-619 | what a complete scan returns satisfies the conditions of that round trip |
| IndexCache.InMemoryIndexCache.Get | src/wenchang/index_cache.py:93-103 | yields the unexpired value; dropping an expired entry changes no answer now or later |
| IndexCache.InMemoryIndexCache.Set | src/wenchang/index_cache.py:105-113 | the value is read until its expiry, forever if the expiry overflows the clock, and no other key changes |
| IndexCache.RegisterPerKey | src/wenchang/index_cache.py:93-113 | over any run on a monotone clock a key reads as the last value set for it, unless expired |
| IndexCache.ValueIsRecent | src/wenchang/index_cache.py:93-113 | under a bounded ttl every value read at a representable time was set less than the bound ago |
| IndexCache.RegisterKeys | src/wenchang/core.py:532-538 | the two register keys of an entity, spelled out |
| IndexCache.RegistersDistinct | src/wenchang/core.py:532-538 | within one store, different entities or kinds have different registers |
| IndexCache.StoresShareIff | src/wenchang/index_cache.py:47-50 | two stores with different key prefixes can share a register, of either kind, if and only if one prefix is the other followed by `v1:token:` or `v1:listing:` and text that can stand inside a scope |
| IndexCache.PrefixesMustBeFree | src/wenchang/index_cache.py:47-50 | an instance: two different entities that share a token register |
| SharedStorage.LogEvolves | src/wenchang/storage/__init__.py:57-93 | over any stretch of any log an object still at its version is the very object that had it, and every later version is new |
| SharedStorage.SharedStorage.PutIfVersion | src/wenchang/storage/__init__.py:66-85 | one commit of exactly this object at the expected version, or a failed precondition and no commit; a retrying backend may also misreport a put that landed |
| SharedStorage.SharedStorage.DeleteIfVersion | src/wenchang/storage/__init__.py:87-93 | one removal of exactly the expected version, or a failed precondition and no commit |
| SharedStorage.LastWriter | src/wenchang/storage/__init__.py:46-93 | what is stored under a key now was there before a stretch of the log, or a commit in that stretch put it there |
| MemoryStore.Store.ReplaceFact | src/wenchang/core.py:752-831 | under any interference a success commits exactly one write, at the path: the version replaced with its one overlap-counted occurrence swapped, which is what it returns; an error commits nothing and is true of a state during the call (absent, undecodable, over the limit with that size, at that version, with that count); a conflict means that the fact was not there once at another version than expected, or that all three attempts were made and others spent at least three commits; undisturbed, the exact outcome of every case; a success stores and returns the clock's last reading, taken during the call, the description given or else the one replaced, and the aliases and sources extended |
| MemoryStore.Store.WriteFile | src/wenchang/core.py:652-731 | one commit or none, at the path; a create is at an absent path, after a count that found room; an overwrite at exactly the expected version with stored, given and own sources united; every error is true of a state during the call; undisturbed, the exact outcome including the cap; a success stores and returns the one reading of the clock that the call took; no file of a system area is ever refused for quota |
| MemoryStore.Store.Create | src/wenchang/core.py:690-707 | the create: a quota error means as many files as the limit were seen; a success means the count, during the call and before the commit, found fewer there throughout; a success stores the clock's one reading |
| MemoryStore.Store.CheckCap | src/wenchang/core.py:694-706 | the cap before a create: refused only if as many files as the limit were seen, and never for a file of a system area; let through only after a count that found room; undisturbed, exactly the refusal due |
| MemoryStore.Store.Overwrite | src/wenchang/core.py:708-731 | the overwrite: checks in the order absent, metadata, version, content, then one conditional put; a conflict never reports the expected version; a success stores the clock's one reading, whatever time the caller gave |
| MemoryStore.CreateIgnoresSystem | src/wenchang/core.py:690-707 | two storages that differ in system files at most give a create of an ordinary file the same outcome |
| MemoryStore.Store.AppendLine | src/wenchang/core.py:833-909 | it sets out to write one file: the path's content and metadata as held at the expected version during the call, plus the line and the merge; it commits that, over that version, once or not at all; it succeeds exactly if storage holds that file at its last call, and returns it; every error is true of a state during the call; undisturbed, the exact outcome; what it sets out to write carries the one reading of the clock, and the description given or else the one read |
| MemoryStore.Store.PutOrFind | src/wenchang/core.py:895-909 | the write of an append commits at most once, at the path and over the file read; it succeeds exactly when storage, at its last call, holds exactly these bytes and metadata; a conflict never reports the expected version |
| MemoryStore.Store.DeleteFile | src/wenchang/core.py:911-942 | at most one commit, the removal of exactly the expected version; undisturbed, the exact outcome |
| MemoryStore.SwappedFact | src/wenchang/core.py:811-826 | a conditional put at the version read is a swap of the one occurrence in the very file replaced |
| MemoryStore.FoundTwin | src/wenchang/core.py:899-906 | bytes found on the re-read that this call did not commit were committed by another client since the call began |
| History.AppendsAddUp | src/wenchang/core.py:879-909 | no lost and no doubled append: after any interleaving the content is the initial one, newline-terminated, and every committed line in commit order, once each |
| History.ParsedAppendsAddUp | src/wenchang/core.py:879-909 | parsed, that file has its old lines and exactly the appended facts, in commit order |
| History.CommittedLinesInOrder | src/wenchang/core.py:833-909 | over any run of `append_line` calls with their outcomes, the lines in the file from one client are those of its committed calls, in order, once each |
| History.ToldIff | src/wenchang/core.py:895-909 | a call's answer and its commit agree exactly unless it committed nothing and storage, at its last call, held the very bytes and metadata it wanted, which another client had written during the call, or its own landed write was misreported and then overwritten |
| History.SuccessfulLinesInOrder | src/wenchang/core.py:833-909 | the same, where no call was told wrong: the lines in the file from one client are the lines of its successful calls, in order, once each |
| History.SecondAppendMergesIff | src/wenchang/core.py:899-906 | a second append from the same version takes the first one's write for its own exactly when line and metadata are identical |
| History.BothSucceed | src/wenchang/core.py:895-909 | in general: two clients that set out to write the same file over the same version both succeed, on one commit, and the second can do nothing else |
| History.IdenticalAppendsMerge | src/wenchang/core.py:899-906 | a concrete case with the full outcomes of both calls: two successes, one commit, one line |
| History.SourcesSinceCreation | src/wenchang/core.py:708-722 | from its creation until its deletion a file's sources are exactly the union of what its writes, appends and replaces contributed |
| History.SourcesAddUp | src/wenchang/core.py:153-171 | the same from any point of a file's life, added to the sources it had |
| History.DescriptionIsLastGiven | src/wenchang/core.py:153-171 | over any interleaving the stored description is the last one given, whoever gave it, and the old one if none was |
| History.WriteAddsItsSources | src/wenchang/core.py:708-722 | what a successful `write_file` commits adds its own sources, removes none and has the description given |
| History.ReplaceAddsItsSources | src/wenchang/core.py:153-171 | so does a `replace_fact`, which also keeps the aliases as a prefix, and the description if none is given |
| History.AppendAddsItsSources | src/wenchang/core.py:153-171 | so does an `append_line`, which also adds its one line |
| History.AliasesOnlyGrow | src/wenchang/core.py:153-171 | over any run of appends and replaces the stored aliases stay a prefix |
| History.StaleNeverHits | src/wenchang/storage/__init__.py:66-93 | a conditional write at a version read earlier finds the very object read, untouched in between: a stale token never edits or deletes a recreated file |
| Occurrences.CountOccurrences | src/wenchang/core.py:88-97 | the loop counts every start position, overlapping ones included |
| Occurrences.PositionsIff | src/wenchang/core.py:88-97 | the positions counted are the ways to read the content as something, the string, and something |
| Occurrences.SingleReplaced | src/wenchang/core.py:817 | with one occurrence, replacing the first swaps it and keeps every other character |
| Scans.Drain | src/wenchang/core.py:621-630 | undisturbed, following cursors equals one scan, for any page size; under interference the result ascends strictly and shows each key as it was at some time of the call, and a failure is that of a page as stored at the end, after everything before it was seen; it writes nothing |
| Scans.PresentThroughoutIsShown | src/wenchang/core.py:621-630 | a file there throughout a drain is in its result, one never there is not |
| Scans.ListPrefixCall | src/wenchang/core.py:944-969 | one page shows every key between its cursors as stored; bad prefixes and foreign cursors are refused before storage is called; the cursor returned is one the next call accepts; it writes nothing |
| Listing.PageSees | src/wenchang/core.py:957-969 | a page of size plus one objects, cut to size, covers exactly the keys up to its cursor, also when no entry is valid |
| Listing.PageEnds | src/wenchang/core.py:957-969 | there is a next cursor exactly if more keys than the page size lie ahead, and then exactly that many have been passed |
| Listing.ListingUnique | src/wenchang/core.py:944-969 | a listing is determined by the storage and the prefix |
| KeyOrder.PageSplit | src/wenchang/storage/__init__.py:95-106 | a page and the window after its last key make up the window before it |
| FileCap.AtFileCap | src/wenchang/core.py:733-750 | whatever page sizes, malformed or system keys and other clients do: true only if as many counted files as the limit were seen during the call, false only if fewer were there all through it; with no commit in between, exactly whether the counted files reach the limit |
| FileCap.OrdinaryFilesCount | src/wenchang/core.py:699 | the files that count are the well-formed paths outside an area named "system" |
| FileCap.SystemFilesTakeNoRoom | src/wenchang/core.py:733-750 | storages that differ in system files at most have the same count and the same answer of the cap, and no system file is ever at the limit |
| CapRuns.SequentialRunsKeepCap | src/wenchang/core.py:694-706 | over any run of whole operations no entity's count rises above the larger of its start and the limit |
| CapRuns.ConcurrentRunsBoundCap | src/wenchang/core.py:694-706 | N clients, each counting page by page while the others commit: after every commit of any log at most limit + N - 1 files, or as many as at the start |
| CapRuns.CreatesAreChecked | src/wenchang/core.py:694-731 | the runs so bounded are those of `write_file`: creates that keep its contract, by clients that make one call at a time |
| CapRuns.BoundIsReached | src/wenchang/core.py:426-429 | for every number of clients, and from any storage with one file missing to the limit, a log of creates that keep the contract of `write_file` reaches the bound |
| Purge.PurgePasses | src/wenchang/core.py:1107-1130 | every commit of the purge removes an object under the prefix at the very version that one of its own earlier listings, of a state during the call, shows; the count is the number of confirmed deletes; on success some state after the last of them was empty there; it gives up only with something left and others at work at least once for every pass; undisturbed, one pass suffices, everything under the prefix goes and nothing else changes |
| Purge.PurgePass | src/wenchang/core.py:1111-1126 | one pass deletes only what its pages listed, at the listed versions, and counts exactly the deletes that landed; undisturbed it deletes all; it found nothing only if the prefix was empty, and something in an empty entity only if others were at work, twice if something is left |
| Export.Export | src/wenchang/core.py:1132-1163 | under interference the export ascends, holds each object as stored at some time of the call and misses none that was there throughout; undisturbed it is everything under the prefix; it writes nothing |
| Export.RestoredAfterPurge | src/wenchang/core.py:1107-1163 | export, purge, put back, export: same keys, data and metadata in the same order, every version new, nothing outside the prefix changed |
| Export.NeighboursUntouched | src/wenchang/core.py:1107-1163 | purging and restoring one entity leaves every other entity's export as it was |
| Export.PutBackStores | src/wenchang/core.py:1136-1137 | putting exported objects back stores exactly them, at new versions |
| MemoryIndex.Assemble | src/wenchang/core.py:1023-1051 | sorting, sizing, cutting and counting yield the index of the collected entries, and fail exactly when some entry cannot be rendered, even past the cut |
| MemoryIndex.IndexUnique | src/wenchang/core.py:1023-1051 | the index depends only on the set of entries |
| MemoryIndex.IndexConserves | src/wenchang/core.py:371-381 | included plus omitted is the total, no path twice, no prefix twice, every prefix well-formed and every count positive, so the constructors never object |
| MemoryIndex.IndexReadsInOrder | src/wenchang/core.py:1026-1033 | of two entries in an index the earlier one may precede the later: system areas first, then tier, newest first, then path |
| MemoryIndex.OrderUnique | src/wenchang/core.py:1033 | that order admits one arrangement of a set of entries |
| MemoryIndex.Fit | src/wenchang/core.py:1037-1043 | the included entries are the longest start of the order within the budget |
| MemoryIndex.EntrySizeIsLength | src/wenchang/core.py:197-211 | the size the budget counts is the length of all that is shown of an entry: path, every key of the stored map with its value, version, in whatever order of the items |
| MemoryIndex.IndexFitsBudget | src/wenchang/core.py:1037-1043 | the bytes shown of the included entries fit the budget, and with the first omitted one they would not |
| MemoryIndex.CountAreas | src/wenchang/core.py:1045-1050 | omitted entries counted by area, ascending, each area once, none missing |
| MemoryIndex.AreaOfPath | src/wenchang/core.py:1045-1050 | the prefix a file is counted under is its scope, entity and area |
| MemoryIndex.AreaIsPrefix | src/wenchang/core.py:314-322 | the files a capped prefix counts are those whose path starts with it |
| IndexRead.GetMemoryIndex | src/wenchang/core.py:971-1051 | without a cache: a bad scope pair is refused before any storage call; under interference the index is of entries as they were during the call, and a metadata error is explained by an object or entry stored during it; undisturbed, index or error is that of one listing of every entity; it writes nothing |
| IndexRead.FailureIsExplained | src/wenchang/core.py:971-1051 | so with no unreadable object stored at the end, and no entry of unrenderable time stored during the call, the read succeeds |
| IndexRead.CheckPairs | src/wenchang/core.py:1003-1012 | pairs are checked in ascending scope order and the first bad one is reported |
| IndexRead.ReadsEntity | src/wenchang/core.py:1014-1021 | the files read for a scope are those of the entity the map gives it |
| IndexRead.ReadShowsStored | src/wenchang/core.py:971-1051 | every entry shown was stored, exactly so, at some time of the call |
| IndexRead.ReadMissesNothing | src/wenchang/core.py:971-1051 | a file there throughout the call is among the entries or its area is reported as capped |
| CachedIndex.GetCachedIndex | src/wenchang/core.py:971-1021 | with a cache: refusals touch neither cache nor storage; whatever happens, the index is one of entries that were stored, no earlier than any token replacement that the call found in place, and a metadata error is explained likewise; with every change to the entities invalidated before the call the outcome, index or error, is exactly that of the uncached read of the storage as it is |
| CachedIndex.IndexIsFresh | src/wenchang/core.py:596-619 | with mutations in flight: an entry of the index was stored, exactly so, no earlier than any such replacement of its entity, and a file there ever since one is shown or its area is reported as capped |
| MemoryStorage.InMemoryStorage.PutIfVersion | src/wenchang/storage/memory.py:43-55 | commits exactly at the expected version, with a token never used before, else changes nothing |
| MemoryStorage.InMemoryStorage.DeleteIfVersion | src/wenchang/storage/memory.py:57-62 | removes exactly the expected version, else changes nothing |
| MemoryStorage.InMemoryStorage.ListPage | src/wenchang/storage/memory.py:64-77 | sort, filter, slice is the window of the listing contract |
| SegmentCodec.CodecIsBijection | src/wenchang/storage/filesystem.py:50-104 | a name decodes to a segment exactly when it is that segment's encoding |
| SegmentCodec.EncodeSegment | src/wenchang/storage/filesystem.py:50-77 | the byte loop computes the encoding, or refuses one over 200 bytes |
| SegmentCodec.DecodeSegment | src/wenchang/storage/filesystem.py:80-104 | the character loop and the canonical check invert it |
| SegmentCodec.EncodedIsSafe | src/wenchang/storage/filesystem.py:50-58 | encoded names are ASCII, contain no slash, start with no dot, end with neither suffix, and have at most 200 characters |
| SegmentCodec.ByteSpelling | src/wenchang/storage/filesystem.py:37-38 | byte by byte: lower-case letters, digits, `_`, `-` and a non-leading `.` stand for themselves, everything else is `%` and two upper-case hexadecimal digits |
| SegmentCodec.StandsForItselfIff | src/wenchang/storage/filesystem.py:50-77 | exactly the segments of such characters, not led by a dot and of at most 200, are their own names |
| SegmentCodec.RefusedIff | src/wenchang/storage/filesystem.py:73-77 | a segment is refused exactly if its spelling exceeds 200 characters |
| SegmentCodec.EncodedFolds | src/wenchang/storage/filesystem.py:50-58 | names of different segments differ even where the case of letters is ignored |
| SegmentCodec.NamesNeverCollide | src/wenchang/storage/filesystem.py:50-58 | body files, sidecars, directories and hidden files never coincide, even where the case of letters is ignored |
| FileTree.StemOfKey | src/wenchang/storage/filesystem.py:178-183 | a storable key is recovered from its path |
| FileTree.KeyOfStem | src/wenchang/storage/filesystem.py:178-183 | a path of canonical names is the path of its key |
| FileTree.KeyIn | src/wenchang/storage/filesystem.py:1-7 | an object exists exactly when its sidecar does |
| FileTree.FilesDiffer | src/wenchang/storage/filesystem.py:178-183 | case ignored, the files of two objects are different files, and no file is a directory on the way to another |
| FileTree.LiteralPathLies | src/wenchang/storage/filesystem.py:178-183 | where the files of a plain path lie, spelled out |
| TreeWalk.Collect | src/wenchang/storage/filesystem.py:303-324 | the recursive walk adds exactly the keys below the directory whose next segment starts with the partial one, each once, in any directory order |
| Paths.PrefixIsSegments | src/wenchang/storage/filesystem.py:276-292 | a plain string prefix of a key is: its whole segments lead the key's segments and its last one starts the next |
| FilesystemStorage.PrefixIsBelow | src/wenchang/storage/filesystem.py:276-292 | every storable key with the prefix lies where the walk looks |
| FilesystemStorage.FilesystemStorage.ListPage | src/wenchang/storage/filesystem.py:276-301 | the listing contract's window, for every prefix and cursor |
| FilesystemStorage.FilesystemStorage.Get | src/wenchang/storage/filesystem.py:185-201 | the flat map's answer |
| FilesystemStorage.FilesystemStorage.Put | src/wenchang/storage/filesystem.py:203-209 | the flat map's put; every state between two system calls holds the objects before, after, or with the new body under the old sidecar, and a put that succeeds does pass the last |
| FilesystemStorage.FilesystemStorage.PutIfVersion | src/wenchang/storage/filesystem.py:211-226 | the flat map's conditional put, with the same crash states |
| FilesystemStorage.FilesystemStorage.Write | src/wenchang/storage/filesystem.py:228-251 | the sidecar's replace commits, after the state with the new body under the old sidecar; a failing step commits nothing; no temporary file stays behind, except at most one whose own write failed |
| FilesystemStorage.FilesystemStorage.DeleteIfVersion | src/wenchang/storage/filesystem.py:253-265 | the flat map's conditional delete; every state in between is before or after; no directory on the path is left empty |
| FilesystemStorage.FilesystemStorage.PruneEmpty | src/wenchang/storage/filesystem.py:267-274 | removes the empty directories upwards, stops at the first in use, and changes no object |
| FilesystemStorage.CrashIsRecoverable | src/wenchang/storage/filesystem.py:15-17 | after a crash at any step of a put every sidecar in the tree has its body, versions are issued and no other key has changed |
| FilesystemStorage.CrashedDeleteIsRecoverable | src/wenchang/storage/filesystem.py:253-265 | the same after a crash at any step of a delete; the key's own object is as it was or gone |
| FilesystemStorage.TornBreaksContractIff | src/wenchang/storage/filesystem.py:15-17 | the torn overwrite violates the storage contract exactly when the key existed with other data |
| FilesystemStorage.OverwriteTearsIff | src/wenchang/storage/filesystem.py:243-246 | a put that succeeds passes a state that breaks the storage contract if and only if it overwrites other data |
| TreeSteps.SidecarReplaced | src/wenchang/storage/filesystem.py:246 | the sidecar's replace puts exactly that object |
| TreeSteps.BodyReplaced | src/wenchang/storage/filesystem.py:245 | the body's replace changes that key's data if it exists, and nothing otherwise |
| TreeSteps.SidecarRemoved | src/wenchang/storage/filesystem.py:261 | unlinking the sidecar removes exactly that object |
| GcsStorage.GcsStorage.ListPage | src/wenchang/storage/gcs.py:167-195 | with an inclusive offset and one more than the limit, the listing contract's window |
| GcsStorage.OffsetIsWindow | src/wenchang/storage/gcs.py:167-195 | dropping the offset from a listing of limit plus one is the window after it |
| GcsStorage.GcsStorage.Get | src/wenchang/storage/gcs.py:77-109 | two calls, one answer: an object exactly as stored at the end; gives up only after the key changed under it three times; writes nothing |
| GcsStorage.BlobsInByteOrder | src/wenchang/storage/__init__.py:99-100 | the window's key order is the bucket's byte order |
| Utf8.OrderAgrees | src/wenchang/storage/__init__.py:99-100 | comparing strings by code point is comparing their UTF-8 bytes |
| Utf8.DecodeEncode | src/wenchang/core.py:648-690 | content decodes back from its stored bytes |
| Utf8.EncodeDecode | src/wenchang/core.py:648-690 | only the exact encoding of a string decodes to it |
| Utf8.EncodingTable | src/wenchang/core.py:648-690 | the bytes of each character are those of the table of RFC 3629 |
| Paths.BuildThenParse | src/wenchang/paths.py:77-118 | what `build_path` accepts parses back to its parts |
| Paths.ParseThenBuild | src/wenchang/paths.py:77-118 | every well-formed path is built from its own parts |
| Paths.BuildPrefixIsValid | src/wenchang/paths.py:90-107 | what `build_prefix` accepts is a well-formed prefix |
| Paths.ValidPrefixIff | src/wenchang/paths.py:51-61 | the well-formed prefixes are exactly those that `build_prefix` builds |
| Paths.BuildPrefixIff | src/wenchang/paths.py:90-107 | what it builds, and what it refuses |
| Paths.BuildPrefixMeans | src/wenchang/paths.py:90-107 | the keys that start with it, as plain strings, are those led by its segments |
| Paths.EntitiesDisjoint | src/wenchang/paths.py:90-107 | no key is under two entities' prefixes |
| Paths.SegmentRefusedIff | src/wenchang/paths.py:24-35 | a segment is refused for being empty, `.` or `..`, or for a slash, a backslash or a control character, and for nothing else |
| FileFormat.ParseFactIff | src/wenchang/file_format.py:47-64 | a line parses to a fact exactly when it is that fact's rendering |
| FileFormat.FactLines | src/wenchang/file_format.py:18-27 | the four markers and the labels they parse to |
| FileFormat.BlankIff | src/wenchang/file_format.py:39-40 | a text is refused as blank exactly if it has nothing but white space, character by character |
| FileFormat.SerializeParsed | src/wenchang/file_format.py:67-96 | serialize after parse is the identity on every body |
| FileFormat.SerializeBody | src/wenchang/file_format.py:77-96 | accepts exactly the line lists a body can hold, and its result parses back to them; otherwise reports the first bad line's error |
| FileFormat.AppendAddsOneFact | src/wenchang/core.py:888-889 | the appended content parses to the old lines, the one new fact and a trailing empty line |
| Metadata.FromToMap | src/wenchang/file_format.py:129-184 | metadata survives being stored, whatever other keys the map carries |
| Metadata.FromMapIff | src/wenchang/file_format.py:154-188 | a stored map reads as a file's metadata exactly when its four values spell it, in whatever layout |
| Metadata.FromMapFails | src/wenchang/file_format.py:154-188 | which key an unreadable map is refused for, a missing one before a malformed one |
| Metadata.LayoutMakesNoDifference | src/wenchang/file_format.py:137-176 | maps that spell the same read the same or fail the same |
| Metadata.DescriptionRefusedIff | src/wenchang/file_format.py:112-113 | a description is refused exactly for a newline or a carriage return |
| Metadata.MergeMetadata | src/wenchang/core.py:153-171 | the description given or else the stored one, the stored sources and the given one, the stored aliases as a prefix and behind them the missing given ones, once each, in the order given, and the given time |

## Left out

- MemoryStore.Store.ReplaceFact: assumes a backend that reports failed preconditions truthfully, as the storage contract demands; only `append_line` handles one that does not.
- MemoryStore.Store.WriteFile: the same assumption.
- FilesystemStorage.FilesystemStorage.Write: a crash state is a state between two system calls; power loss and `fsync` are not modelled, and the cleanup itself is taken to succeed.
- The operations of `MemoryStore` and the cache invalidation after each of their writes are modelled separately: the former over storage alone, the latter in `CacheClient`.
- A put that times out and commits after the token was replaced: outside the protocol except as a writer that bypasses the cache, so only the ttl bound covers it.
- JSON and ISO 8601 text, base64url cursors (section 5 of RFC 4648) and `uuid4`: abstract values with faithful spellings, cursors that are keys, and supplies that never repeat.
- Lone surrogates in strings, naive clocks and time zones; instants that cannot be rendered in UTC appear only as a predicate of the index.
- Sidecars and directories made by other programs: the tree holds what the backend writes, and hidden files.
- `flock`, threads and processes: each locked filesystem operation is one method.
- Bucket client errors and their mapping, and the bucket's put and delete, which only forward.
- Checks of Python's run-time types, messages, logging, `read_file`, and the modules above the store (`mcp.py`, `transport.py`, `identity.py`, `scope.py`, `tools.py`): they would add only easy members.
