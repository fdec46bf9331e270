# Verification of the TorBox media server's incremental machinery

TorBox-fuse-go mounts remote media files as a local directory tree. Much of it is a
fast or incremental mechanism that has to agree with something simple. This project
models those mechanisms in Dafny and proves that they do, or states exactly when.

- **Slots** (`Semaphore.dfy`). The priority queue that limits window fetches
  (`budgetSem`) and, with the same algorithm, requests to one CDN host (`hostSem`):
  slot ownership over every interleaving, cancellation, and an exact account of how
  a waiter moves in the queue. A class holds the code of the locked sections.
- **The range cache** (`RangeCache.dfy`, `CacheAccounting.dfy`). 32 shards, a
  separate byte counter, two priority classes. The class is proved to behave as one
  plain map. The second file takes the counter apart into single atomic accesses and
  proves a conservation law over every interleaving.
- **The window protocol** (`WindowProtocol.dfy`, `StreamReader.dfy`,
  `SlotBudget.dfy`). Fetchers, retries, early readers and cancellation as a step
  relation, one step per locked section; then the sequential code as a class whose
  history is a run of it. The third file joins the protocols of all files with the
  semaphore: how many fetchers hold a slot, and exactly when their buffers stay
  within the memory cap.
- **The catalog** (`NameOrder.dfy`, `CatalogTree.dfy`, `Hiding.dfy`,
  `RoundTrip.dfy`). Building the directory tree, hiding files in it, storing it and
  building it again from the database.
- **The inode tree** (`InodeTree.dfy`, `CatalogSync.dfy`, `FailedInserts.dfy`,
  `Mount.dfy`, `FuseTree.dfy`). Hiding in place and merging a new catalog, failed
  inserts included, as functions on the value of the tree; whole runs of hides and
  refreshes; and the in-place methods on a heap of inodes proved against those
  functions.
- **The database** (`StateDB.dfy`). Three maps and a counter.
- `Totals.dfy` holds sums over finite maps.

Run `dafny verify dfyconfig.toml`.

## What was found not to hold

Each of these follows the code; the lemma named gives the input or the exact
condition.

- A removal loads `used` and later stores 0 if it was smaller than the block. A put
  that counts its bytes between the two is forgotten: for every budget and every
  excess there is a run of three puts after which all calls have returned, the
  counter is 0 and that many bytes too many are held (`BudgetCanBeExceeded`). While
  nothing is counted between such a load and its store the budget holds
  (`QuiescentCache`), in particular if removals are atomic
  (`AtomicRemovalsKeepBudget`).
- With a negative budget the eviction loop never ends (`EvictionTerminatesIff`).
- A fetch asks for a cached length and copies later. The window is aligned with the
  file exactly when the copy delivers the length promised (`AlignedIffPromiseKept`,
  `WholeAlignedIffPromiseKept`); an eviction in between breaks it
  (`EvictionBreaksAlignment`), in a run that exists for every file and window of more
  than one byte (`AlignmentCanBreak`).
- If a wholly cached window is evicted before it is copied, the zero-filled buffer
  goes back into the cache as file bytes (internal/stream/reader.go:828-837). The
  cache stays true exactly if the file has zeros where nothing was copied
  (`WholeStoreIsTrueIff`); for every nonempty file there is a run to zeros for a whole
  window, which every later hit delivers (`ZerosCanBeCached`).
- The memory cap of internal/stream/reader.go:282-283, `limit` windows over all files,
  is not kept against a server that ignores ranges: a 200 reply at offset 0 is
  accepted and never cut off, and a cancelled fetch keeps its buffer and its slot
  until its next read. With honest servers the cap holds on every run exactly when
  every file fits into one window or there are no slots (`CapHoldsIff`): one longer
  file is enough to fill every slot with more than a window (`CapCanBeExceeded`). With
  servers that send no more than they were asked for it always holds
  (`MemoryIsBounded`).
- `ApplyHides` looks for the children of "/" under "//name", so the root loses its
  subdirectories; the root agrees with a rebuild exactly when every visible file lies
  in the root itself (`RootListing`).
- `IsDownloadFullyHidden` compares two counts. It is right exactly when every file is
  hidden, or there is none, or fewer stale hidden keys than visible files are left
  (`ClaimIsRightIff`); a run from the empty database to a wrong claim is in
  `StaleKeyMisleads`.
- Merging a catalog shows the catalog exactly when both sides agreed on the kind, and
  for exact contents on the file, of every shared path, and no name was listed first
  for a file and then for a directory (`SyncConverges`); a path that stays a file
  keeps its old file (`SharedFileIsNotUpdated`).
- Where two files compete for one path the mount shows the first listed. Hiding that
  one makes the name disappear, while a restart lists it for the other
  (`HiddenDuplicate`).
- After the last file of a category is hidden, the mount keeps the empty category
  directory, and a restart does not make it. An up-to-date mount is the very tree a
  restart builds exactly when no category directory is empty (`RestartIsEqual`).
- `Rmdir` takes files off the mount even if the database failed to hide them; the
  mount then differs from a restart exactly if such a file was visible
  (`HideKeepsUpToDate`). `Unlink` changes nothing in that case.
- A content key is read back exactly when no part contains a colon (`KeyRoundTrip`).
- `Rmdir` on a file fails in a type assertion (internal/fusefs/fs.go:465) instead of
  returning the intended error; the model returns `Crash`.
- The comment at internal/state/db.go:197-201 says hidden entries are never deleted;
  line 268 deletes those without a file, and the model does the same.

## Model

| member | source | states |
|---|---|---|
| Semaphore.InsertPos | internal/stream/reader.go:128-134 | the search finds the first waiter of strictly lower priority, past all that are at least as high |
| Semaphore.InsertIsOrdered | internal/stream/reader.go:125-140 | insertion keeps descending priority and arrival order within one priority, and adds exactly the new ticket |
| Semaphore.OrderedIsUnique | internal/stream/reader.go:125-140 | that order determines the queue: any ordered arrangement of the same tickets is the same sequence |
| Semaphore.StepKeepsInv | internal/stream/reader.go:115-198 | every locked section keeps slot ownership and the queue order, and the limit |
| Semaphore.RunKeepsInv | internal/stream/reader.go:115-198 | so does every run, from any state that satisfies them |
| Semaphore.SlotsAreSafe | internal/stream/reader.go:115-198 | over every interleaving: the counter is the holders plus the granted, never above the limit, at the limit while somebody queues |
| Semaphore.CancelNeitherLeaksNorDuplicates | internal/stream/reader.go:145-178 | a cancelled caller keeps the slot it was granted or leaves without one; nobody else's slot or place changes |
| Semaphore.SettledForever | internal/stream/reader.go:145-198 | a call that gave up or released never gets a slot again |
| Semaphore.NeverRequeued | internal/stream/reader.go:125-140 | a ticket that has left the queue is never in it again |
| Semaphore.WaiterProgress | internal/stream/reader.go:125-198 | exact equation: grants + departures ahead + final position = start position + later strictly higher arrivals |
| Semaphore.BoundedBypass | internal/stream/reader.go:125-198 | grants before a waiter number at most those ahead of it at enqueue plus later strictly higher arrivals |
| Semaphore.BudgetSem.Enter | internal/stream/reader.go:115-140 | the first locked section performs the Acquire step; null means the fast path took a slot, else the new waiter is pending under its ticket |
| Semaphore.BudgetSem.TakeSlot | internal/stream/reader.go:118-123 | the fast path is the Acquire step of a free semaphore |
| Semaphore.BudgetSem.InsertWaiter | internal/stream/reader.go:127-140 | the in-place slice insertion equals insertion at the position found |
| Semaphore.BudgetSem.Recheck | internal/stream/reader.go:142-180 | one turn of the wait loop performs the Recheck step: granted first, then cancelled, else keep waiting |
| Semaphore.BudgetSem.RemoveWaiter | internal/stream/reader.go:148-153 | the search-and-splice loop removes exactly this waiter |
| Semaphore.BudgetSem.Release | internal/stream/reader.go:184-198 | returning a slot performs the Release step |
| Semaphore.BudgetSem.GrantFirst | internal/stream/cdn.go:113-127 | the front waiter, and only it, is granted; the queue loses its head |
| CacheAccounting.Conservation | internal/cache/range.go:161-305 | over every interleaving, counter plus pending changes minus bytes held changes only by what clamped stores gain |
| CacheAccounting.QuietGains | internal/cache/range.go:286-303 | while no bytes are counted between a load below the block's size and the store of 0 that follows, no single clamped store loses bytes, nor does the run |
| CacheAccounting.AtomicIsQuiet | internal/cache/range.go:286-303 | if every removal stores directly after its load, that is so on every run |
| CacheAccounting.AlwaysOverseen | internal/cache/range.go:196-242 | above the budget somebody is always still in the evict loop |
| CacheAccounting.CounterCoversBytes | internal/cache/range.go:161-305 | in every state of such a run, counter plus pending adds is at least the bytes held, and above the budget somebody is still evicting |
| CacheAccounting.QuiescentCache | internal/cache/range.go:161-305 | when every call of such a run has returned, bytes held <= counter <= budget |
| CacheAccounting.AtomicRemovalsKeepBudget | internal/cache/range.go:161-305 | with insert, add and evict-delete each atomic: both results, over every interleaving |
| CacheAccounting.QuiescentBalance | internal/cache/range.go:161-305 | on any run at all the counter ends within the budget, and its distance from the bytes held is exactly what clamped stores gained or lost |
| CacheAccounting.BudgetCanBeExceeded | internal/cache/range.go:292-297 | for every budget and every excess a run of three puts that ends with exactly that excess held and the counter at 0 |
| RangeCaching.Split | internal/cache/range.go:79-83 | a key is in shard i if and only if it is in the plain map and hashes to i, with the same block |
| RangeCaching.StoreInShard | internal/cache/range.go:178-193 | storing into one shard is storing into the plain map |
| RangeCaching.DeleteFromShard | internal/cache/range.go:286-291 | deleting from one shard is deleting from the plain map |
| RangeCaching.RangeCache.constructor | internal/cache/range.go:69-75 | a new cache is empty and its accounts balance |
| RangeCaching.RangeCache.CopyTo | internal/cache/range.go:91-115 | a hit exactly when some block of the file covers the offset; copies that block's bytes, changes nothing else but its age |
| RangeCaching.RangeCache.Find | internal/cache/range.go:96-114 | the search over all shards finds a covering block if and only if the plain map has one |
| RangeCaching.RangeCache.CachedPrefixLen | internal/cache/range.go:124-136 | the one-shard lookup agrees with the plain map of all shards |
| RangeCaching.RangeCache.PutBlock | internal/cache/range.go:161-203 | the new contents are the old with the block stored, then one whole eviction run; the counter stays the sum of block lengths |
| RangeCaching.RangeCache.Store | internal/cache/range.go:178-201 | insert or replace keeps counter and gauges equal to what is held |
| RangeCaching.RangeCache.Evict | internal/cache/range.go:238-242 | with budget >= 0 the loop ends and is one eviction run |
| RangeCaching.RangeCache.EvictOne | internal/cache/range.go:248-305 | removes a least block in the order (class, age) and subtracts exactly its length: the clamp never fires |
| RangeCaching.RangeCache.FindCandidates | internal/cache/range.go:255-275 | the scan yields the oldest block of each class over all shards |
| RangeCaching.RangeCache.Remove | internal/cache/range.go:286-303 | deletion with the clamped subtraction, on any counter value |
| RangeCaching.RangeCache.EvictStale | internal/cache/range.go:209-234 | drops a block if and only if it is of this file and its session is positive and earlier; the stale gauge takes what the counter loses |
| RangeCaching.EvictionOrder | internal/cache/range.go:244-284 | no high-priority block goes while a low-priority one stays, within a class every victim is at least as old as every survivor, and the budget is met |
| RangeCaching.EvictsNoMoreThanNeeded | internal/cache/range.go:238-242 | before each removal the budget was still exceeded |
| RangeCaching.EvictionTerminatesIff | internal/cache/range.go:238-242 | the loop can end if and only if the budget is not negative |
| RangeCaching.HitIsTrue | internal/cache/range.go:102-110 | whichever overlapping block answers, the bytes are the file's |
| RangeCaching.HitsAreAlwaysTrue | internal/cache/range.go:91-234 | along every run that stores true bytes every hit is true |
| WindowProtocol.WindowStart | internal/stream/reader.go:521-523 | the window's start is the multiple of the window size at most the offset and less than a window below it |
| WindowProtocol.BodyIsTrue | internal/stream/cdn.go:448-508 | an accepted body (206, or 200 from offset 0) is a true slice of the file at the requested offset |
| WindowProtocol.StepKeepsInv | internal/stream/reader.go:753-971 | every section of any goroutine keeps: `readyTo` is the buffer length and the buffer is the file from the window's start |
| WindowProtocol.RunKeepsInv | internal/stream/reader.go:753-1040 | so does every run with honest bodies and kept promises |
| WindowProtocol.TakeIsTrue | internal/stream/reader.go:720-739 | what a waiter copies out of an aligned window is true |
| WindowProtocol.ReadersGetFileBytes | internal/stream/reader.go:695-740 | in every reachable state no reader copies past the buffer or a wrong byte |
| WindowProtocol.RunKeepsControl | internal/stream/reader.go:753-932 | with any server and any cache every reachable fetcher is on course: attempts, requests, slot, end |
| WindowProtocol.FetchersAreBounded | internal/stream/reader.go:753-932 | with any server and any cache: at most four requests, each from inside the window to the window's end or the file's; the slot is returned exactly once if obtained; at the end done with an error or bytes |
| WindowProtocol.FetchersEndForAReason | internal/stream/reader.go:788-932 | with any server and any cache: only after 429, 5xx, an unasked-for full response, an error other than a cancellation, a broken or an empty body does another attempt follow; a window without an error was filled or cancelled in mid-body, and one with an error was cancelled, failed so four times, or got a final reply; it is done no earlier than that or a cancellation |
| WindowProtocol.OneFetcherPerWindow | internal/stream/reader.go:645-688 | in every reachable state at most one fetcher is at work on a window; everybody else joins it |
| WindowProtocol.AlignedIffPromiseKept | internal/stream/reader.go:849-858 | after prefix and first chunk: aligned if and only if the copy delivered the promised length |
| WindowProtocol.WholeAlignedIffPromiseKept | internal/stream/reader.go:827-843 | the same for a window taken whole from the cache |
| WindowProtocol.UndisturbedBlockKeepsPromise | internal/stream/reader.go:814-858 | the promise is kept if the block is still there and no other block reaches across the start |
| WindowProtocol.EvictionBreaksAlignment | internal/stream/reader.go:849-858 | if the block is gone, `readyTo` ends beyond the buffer |
| WindowProtocol.AlignmentCanBreak | internal/stream/reader.go:814-858 | for every file and window of more than one byte a run from the start that gets there, with the second byte in the place of the first |
| WindowProtocol.WholeStoreIsTrueIff | internal/stream/reader.go:827-843 | a whole window stored after a copy leaves the cache true if and only if the file has zeros where nothing was copied |
| WindowProtocol.ZerosCanBeCached | internal/stream/reader.go:814-843 | for every nonempty file and window size a run from the start after which zeros are cached for the whole window, and every later hit in it delivers zeros |
| WindowProtocol.RunResumes | internal/stream/reader.go:788-924 | along every run the fetcher's next request continues where received bytes ended |
| WindowProtocol.RetriesResume | internal/stream/reader.go:788-924 | if the cache keeps the block, each request starts exactly where the last one's bytes ended; if it is only not shortened, never before |
| StreamReading.StreamReader.ReadAt | internal/stream/reader.go:302-374 | the first n bytes are the file's, the rest of the buffer is untouched; on the window path no error means full, end of file exactly when off+n reaches the size; any other error only if the next byte was in no cached block, and after giving up the wait or because the window of that byte, in flight and not failed when joined, has an error or is done without having come that far; unless some byte was in no cached block no window is joined and nothing waited for; exactly small reads of a random pattern try the bypass |
| StreamReading.StreamReader.ReadThroughWindows | internal/stream/reader.go:341-373 | the loop over window boundaries ends, with the window-path guarantees of ReadAt |
| StreamReading.StreamReader.ReadWindow | internal/stream/reader.go:466-518 | a hit gives a cached block's bytes, joins no window and waits for nothing; a window is joined only if no block had the offset; then true bytes, fewer than asked for only from a window that is done, or none and an error after giving up the wait or because the window joined, in flight and not failed then, refused |
| StreamReading.StreamReader.GetOrCreateWindow | internal/stream/reader.go:645-688 | a window in flight that is not done with an error is the one returned, and nothing changes; otherwise a fresh one takes its place; the one returned is never done with an error |
| StreamReading.StreamReader.WaitForBytes | internal/stream/reader.go:690-740 | all that was asked for, or what a window that is done has; it sleeps only while that is not so; an error only after giving up or from this window |
| StreamReading.StreamReader.SmallRead | internal/stream/reader.go:376-425 | serves cached bytes if there are any; else leaves if a window is in flight; else asks for exactly these bytes up to the file's end, succeeds exactly on a part or on the whole from offset 0 whose body does not break off, and caches what it got |
| StreamReading.StreamReader.CancelFile | internal/stream/reader.go:1008-1040 | every place with a window in flight was found free or cleared by a cancellation |
| StreamReading.CancelledForGood | internal/stream/reader.go:1008-1040 | a cancelled window leaves its place at once and stays cancelled and done on every continuation |
| StreamReading.StreamReader.FetchWindow | internal/stream/reader.go:753-932 | ends whatever the server, the cache and the others do: the window done with an error or bytes, for one of the reasons of FetchersEndForAReason, the slot returned |
| StreamReading.StreamReader.Retry | internal/stream/reader.go:787-924 | the retry loop ends before the deferred release |
| StreamReading.StreamReader.Attempt | internal/stream/reader.go:788-924 | one turn either goes on to the next attempt or out |
| StreamReading.StreamReader.FindPromised | internal/stream/reader.go:814-854 | between the promise and the copy others may act in any way; the copy finds any covering block, under the assumption one of the promised length |
| StreamReading.StreamReader.TakeWholeFromCache | internal/stream/reader.go:824-843 | a wholly cached window ends the fetch, whatever the copy delivers |
| StreamReading.StreamReader.CopyPrefix | internal/stream/reader.go:849-861 | the prefix copy leads to the request for the rest, whatever it delivers |
| StreamReading.StreamReader.RequestRest | internal/stream/reader.go:869-881 | an accepted reply leads to the body; after any other, the next attempt follows if it was unlucky and not the fourth, else the end with an error |
| StreamReading.StreamReader.StreamInto | internal/stream/reader.go:940-971 | the chunk loop ends; success exactly if the last read met the end of the body or came before a cancellation, failure exactly if it broke |
| SlotBudget.OthersStay | internal/stream/reader.go:115-198 | a section of the semaphore moves no ticket but its own between waiting and holding |
| SlotBudget.EventKeepsLinked | internal/stream/reader.go:753-773 | over every event a fetcher of any file runs exactly while its ticket holds a slot and waits exactly while its ticket does, and no ticket is without a fetcher |
| SlotBudget.AtMostLimitRun | internal/stream/reader.go:753-773 | in every reachable state of all files and the semaphore together, at most `limit` fetchers are between grant and release, and an ended one holds and awaits nothing |
| SlotBudget.SlotsComeBack | internal/stream/reader.go:753-782 | no slot is lost: every holder and waiter is a fetcher at that point, and once every fetcher has ended all slots are free and nobody waits |
| SlotBudget.PartialReplyFits | internal/stream/cdn.go:488-500 | an honest 206 reply is never longer than what was asked for |
| SlotBudget.RunKeepsFit | internal/stream/reader.go:940-971 | if replies are no longer than asked for, every buffer stays within its window, whatever the cache does |
| SlotBudget.BuffersFitIff | internal/stream/reader.go:940-971 | no single buffer ever outgrows a window if and only if the file fits into one |
| SlotBudget.MemoryIsBounded | internal/stream/reader.go:280-290 | if replies are no longer than asked for, the fetchers holding slots, over all files, never hold more than limit x windowSize bytes |
| SlotBudget.CapCanBeExceeded | internal/stream/reader.go:280-290 | for every positive limit and any file longer than a window an honest run from the start in which the holders have limit x (windowSize + 1) bytes |
| SlotBudget.CapHoldsIff | internal/stream/reader.go:280-290 | with honest servers the cap over all files holds on every run if and only if every file fits into a window or there are no slots |
| NameOrder.NameLeIff | internal/catalog/tree.go:49-54 | the comparison is alphabetical: a prefix comes first, else the smaller character at the first difference |
| NameOrder.SortedNamesUnique | internal/catalog/tree.go:49-54 | a sorted listing is determined by which names occur how often |
| CatalogTree.CollectMissing | internal/catalog/tree.go:140-167 | one round finds exactly the unseen directories that lack an entry in their parent, each once |
| CatalogTree.AppendAll | internal/catalog/tree.go:171-173 | appends exactly those entries |
| CatalogTree.AncestorPresent | internal/catalog/tree.go:130-175 | after the last round every ancestor of every directory exists |
| CatalogTree.Tree.BuildParentDirs | internal/catalog/tree.go:130-175 | ends; then exactly the ancestors exist, every directory but the root has exactly one entry in its parent, no file entry is added, lost or moved |
| CatalogTree.Round | internal/catalog/tree.go:135-174 | one round keeps that state and shortens the longest unseen path |
| CatalogTree.SortByNameSorts | internal/catalog/tree.go:49-54 | sorting yields names in alphabetical order |
| CatalogTree.SortDirs | internal/catalog/tree.go:49-54 | puts every directory in alphabetical order and keeps its entries |
| CatalogTree.Tree.Lookup | internal/catalog/tree.go:68-78 | the file of the first file entry of that name in the parent directory, if there is one |
| CatalogTree.LookupFinds | internal/catalog/tree.go:68-78 | a path looks up to a file if and only if one was placed there |
| CatalogTree.BuildTree | internal/catalog/tree.go:40-56 | exactly the directories and entries the placed files call for, /all included, in alphabetical order |
| CatalogTree.AddAllDir | internal/catalog/tree.go:181-205 | adds the first placement of every content key under /all |
| CatalogTree.AllHasEachKeyOnce | internal/catalog/tree.go:177-205 | /all has every content key exactly once |
| Hiding.KeepEntries | internal/catalog/tree_from_db.go:129-136 | drops exactly the hidden files, with multiplicities |
| Hiding.NoParentMissing | internal/catalog/tree_from_db.go:142-143 | after the filter no parent is missing, so adding parents changes nothing below the root |
| Hiding.ValidEntries | internal/catalog/tree_from_db.go:173-186 | keeps files and the subdirectories that still exist |
| Hiding.PruneOne | internal/catalog/tree_from_db.go:168-192 | with all deeper paths final, one directory becomes final and no other changes |
| Hiding.PruneBottomUp | internal/catalog/tree_from_db.go:145-192 | one bottom-up pass suffices |
| Hiding.ApplyHides | internal/catalog/tree_from_db.go:121-202 | below the root exactly the tree of the visible files, sorted; unchanged for an empty hidden set |
| Hiding.HidingCommutes | internal/catalog/tree_from_db.go:121-202 | for every non-root directory, hiding in a built tree lists the same as building from the visible files, /all included |
| Hiding.VisibleAll | internal/catalog/tree.go:181-205 | hiding commutes with the deduplication of /all |
| Hiding.RootListing | internal/catalog/tree_from_db.go:178 | the root agrees if and only if every visible file lies in the root itself |
| Hiding.NothingLeftOver | internal/catalog/tree_from_db.go:145-154 | no hidden file, no dangling subdirectory, no empty directory |
| Hiding.HidingInSteps | internal/catalog/tree_from_db.go:121-202 | hiding twice lists the same as hiding the union once |
| InodeTree.PruneHolds | internal/fusefs/fs.go:244-256 | pruning removes no file |
| InodeTree.PruneIsTidy | internal/fusefs/fs.go:240-256 | afterwards no directory below is empty |
| InodeTree.HideHolds | internal/fusefs/fs.go:186-256 | after a hide a path holds a file if and only if it did and its key is not hidden |
| InodeTree.TidyUnique | internal/fusefs/fs.go:240-256 | a tree without empty directories is determined by its files |
| InodeTree.HideMirrors | internal/fusefs/fs.go:178-212 | an inode tree showing the placed files shows, after the hide, the visible ones |
| InodeTree.HideInSteps | internal/fusefs/fs.go:186-256 | hiding in steps equals hiding the union once, on every tree |
| InodeTree.CollectsExactly | internal/fusefs/fs.go:724-734 | collecting finds exactly the keys of the files below |
| InodeTree.RmdirRemoves | internal/fusefs/fs.go:470-497 | hiding all files of a directory makes the directory itself disappear |
| InodeTree.TidyHasKeys | internal/fusefs/fs.go:470-482 | a tidy directory has no keys to collect if and only if it has no children |
| InodeTree.HideShows | internal/fusefs/fs.go:186-212 | the same for all categories at once, absent ones included |
| CatalogSync.PopulateMatches | internal/fusefs/fs.go:95-133 | a populated directory shows exactly the catalog, names, kinds and files; of several entries of one name the first |
| CatalogSync.TreeIsTame | internal/catalog/tree.go:130-175 | every built tree lists each subdirectory below the root once, and none is empty |
| CatalogSync.SyncedChild | internal/fusefs/fs.go:286-327 | what the merge makes of every name, however often it is listed |
| CatalogSync.SyncConverges | internal/fusefs/fs.go:286-327 | from any inode tree the merge shows exactly the catalog's names and kinds (and files), the first entry winning, if and only if both agreed on every shared path and no file's name clashed with a directory's |
| CatalogSync.SharedFileIsNotUpdated | internal/fusefs/fs.go:324-325 | a path listed for files only keeps the inode it had |
| CatalogSync.SyncIdle | internal/fusefs/fs.go:286-327 | merging a catalog already shown changes nothing if and only if no file's name clashes with a directory's where they overlap |
| CatalogSync.MirrorsIffMatches | internal/fusefs/fs.go:93-108 | holding exactly the placed files without empty directories is the same as listing exactly the catalog's entries everywhere, no two files competing for a path |
| CatalogSync.HideAgreesWithRebuild | internal/fusefs/fs.go:186-212 | hiding in place shows what `ApplyHides` builds, and a later merge of that changes nothing |
| CatalogSync.HiddenDuplicate | internal/fusefs/fs.go:226-238 | where two files compete for a path, hiding the one shown loses the name that a rebuild lists for the other |
| CatalogSync.SyncShows | internal/fusefs/fs.go:264-281 | after a whole merge the categories show the files if and only if all shared paths agreed and no two files compete for a path |
| FailedInserts.NothingFails | internal/fusefs/fs.go:286-327 | with no insert failing the merge is the one of CatalogSync |
| FailedInserts.TriedChild | internal/fusefs/fs.go:111-165 | with any inserts failing: names that were there stay and are merged, new ones appear if and only if they get a number, unlisted ones go |
| FailedInserts.PopulateIsTry | internal/fusefs/fs.go:95-165 | populating with failing inserts is merging into an empty directory |
| FailedInserts.TryConverges | internal/fusefs/fs.go:286-327 | the merge then shows exactly the catalog if and only if both agreed on what they shared and no insert fails that it needs |
| FailedInserts.RetryRepairs | internal/fusefs/fs.go:258-327 | whatever failed, a later merge without failures shows the catalog |
| FailedInserts.TryShows | internal/fusefs/fs.go:264-281 | the same for all categories at once, in terms of the placed files |
| Mount.HideKeepsUpToDate | internal/fusefs/fs.go:484-498 | a hide keeps the mount showing what a restart shows if and only if the database stored the key of every visible file it took away |
| Mount.EventKeepsUpToDate | internal/fusefs/fs.go:186-281 | so does a refresh if and only if all shared paths agree, no two files compete for a path and no needed insert fails |
| Mount.MountStaysUpToDate | internal/fusefs/fs.go:186-281 | on every run of such events the files shown are up to date in all states if and only if every event was of that kind |
| Mount.RestartIsEqual | internal/fusefs/fs.go:53-91 | an up-to-date mount is the very tree a restart builds, category directories included, if and only if no category directory is empty |
| Mount.CategoriesLinger | internal/fusefs/fs.go:186-212 | along such a run a category has a directory if and only if it had one at first or has had a visible file since |
| FuseTree.Inode.RmChild | internal/fusefs/fs.go:230 | removes one child and nothing else |
| FuseTree.Inode.AddChild | internal/fusefs/fs.go:164 | adds a child unless the name is taken |
| FuseTree.RemoveKeysFromDir | internal/fusefs/fs.go:226-238 | the recursive walk in place removes the matching files at every depth |
| FuseTree.PruneEmptyDirs | internal/fusefs/fs.go:244-256 | the recursive walk in place prunes bottom-up |
| FuseTree.RemoveContentKeys | internal/fusefs/fs.go:186-212 | movies, series and, if enabled, all lose exactly the files with these keys, at any depth; they are pruned, the category directories themselves and all else stay |
| FuseTree.PopulateDir | internal/fusefs/fs.go:95-108 | fills a new directory inode with what gets a number, ending by path length |
| FuseTree.AddSubDirNode | internal/fusefs/fs.go:111-133 | nothing if the insert fails; else links and fills a new directory, a taken name is not overwritten |
| FuseTree.AddFileNode | internal/fusefs/fs.go:136-165 | nothing if the insert fails; else links a new file, a taken name is not overwritten |
| FuseTree.RmAllChildren | internal/fusefs/fs.go:296-299 | drops everything below an inode |
| FuseTree.RmTree | internal/fusefs/fs.go:296-300 | drops a child after everything below it, and nothing else |
| FuseTree.RemoveGone | internal/fusefs/fs.go:293-304 | exactly the names missing in the catalog go, with everything below them |
| FuseTree.SyncDir | internal/fusefs/fs.go:286-327 | the merge in place with any inserts failing, ending by path length |
| FuseTree.SyncTree | internal/fusefs/fs.go:264-281 | merges or creates movies, series and, if enabled, all, with any inserts failing; each then shows the placed files if and only if it agreed with the catalog, no two files compete for a path and no needed insert failed |
| FuseTree.OnAdd | internal/fusefs/fs.go:53-60 | a fresh mount is the merge into an empty root, and shows the same categories under the same conditions |
| FuseTree.AddCategoryDir | internal/fusefs/fs.go:64-91 | creates a category only if it lists something and gets a number |
| FuseTree.CollectFileKeys | internal/fusefs/fs.go:725-734 | the keys of all files below |
| FuseTree.Unlink | internal/fusefs/fs.go:396-447 | the error, EIO if the database fails to hide the key, nothing changed then; on success the key is hidden in the database, and exactly the files with that key are gone from movies, series and all |
| FuseTree.RmChildAt | internal/fusefs/fs.go:476-482 | takes one entry out of the directory at a path; the rest of the tree stays as it is |
| FuseTree.Rmdir | internal/fusefs/fs.go:454-521 | the error, and on success: exactly the files with a key below are gone from movies, series and all, and hidden but for those the database failed to hide; an empty directory just removed from the whole tree |
| StateDB.SplitAt | internal/fusefs/fs.go:739-747 | a colon-free piece before a colon is the first piece of the key |
| StateDB.ParseContentKey | internal/fusefs/fs.go:737-755 | the first three pieces between colons, or three empty strings |
| StateDB.KeyRoundTrip | internal/fusefs/fs.go:736-755 | a key is read back if and only if no part contains a colon |
| StateDB.DB.Reopen | internal/state/db.go:94-104 | the counter becomes the greatest inode plus one, or 1 |
| StateDB.DB.AssignInode | internal/state/db.go:109-136 | an existing number is returned, a new one is taken from the counter even if the insert fails |
| StateDB.DB.ReplaceFiles | internal/state/db.go:202-289 | files become the last record per key, hidden keys without a file go, and the stale count |
| StateDB.DB.IsDownloadFullyHidden | internal/state/db.go:380-398 | on well-formed keys: true if and only if there are files and at least as many stale hidden keys as visible files; while every hidden key has a file, if and only if nonempty and every file hidden |
| StateDB.DB.UnhideDownload | internal/state/db.go:358-365 | removes the hidden keys with the download's prefix |
| StateDB.StepKeepsNumbers | internal/state/db.go:94-136 | every call keeps inodes unique, below the counter, and unchanged |
| StateDB.NumbersAreStable | internal/state/db.go:94-136 | over every run with restarts and failed inserts a key's inode never changes |
| StateDB.NumbersAreUnique | internal/state/db.go:94-136 | inodes given at any two moments of a run are equal if and only if the keys are |
| StateDB.PrefixIff | internal/state/db.go:381 | the prefix matches a key if and only if kind and download are the same |
| StateDB.ClaimExactly | internal/state/db.go:380-398 | the claim holds if and only if there are files and at least as many stale hidden keys as visible files |
| StateDB.ClaimIsRightIff | internal/state/db.go:376-398 | exactly when the claim is right |
| StateDB.FullyHidden | internal/state/db.go:376-398 | while every hidden key has a file: fully hidden if and only if nonempty and every file hidden |
| StateDB.FullyHiddenIsListed | internal/state/db.go:441-481 | it then agrees with the join count of the listing |
| StateDB.StaleKeyMisleads | internal/state/db.go:380-398 | for any two files of a download a run from the empty database after which it counts as fully hidden with a file visible |
| StateDB.HiddenKeysHaveFiles | internal/state/db.go:258-268 | if only files present are hidden, no hidden key is ever without a file |
| StateDB.ReplaceKeepsHidden | internal/state/db.go:258-271 | hidden afterwards are exactly the old hidden keys still in the new file set |
| StateDB.UnhideRestores | internal/state/db.go:357-365 | exactly the download's own files are restored, and it is no longer fully hidden |
| RoundTrip.BuildTreeFromDB | internal/catalog/tree_from_db.go:22-74 | the tree of the leaves of the two loops, in order of records, in alphabetical order |
| RoundTrip.OutsideAll | internal/catalog/tree_from_db.go:26-56 | whatever the records are: outside /all exactly the file of every record that is the first of its key and not stored under /all, at its path |
| RoundTrip.SecondLoopCopies | internal/catalog/tree_from_db.go:79-115 | whatever the records are: the second loop adds nothing but, one title deep under /all, files found in a record's own directory under its own name, and loses nothing |
| RoundTrip.BuildAllDirFromDB | internal/catalog/tree_from_db.go:79-115 | the second loop, with the shared marks and the lookup of the first entry of that name |
| RoundTrip.ExtractRecords | internal/catalog/catalog.go:119-150 | one record per file entry outside /all, with multiplicities |
| RoundTrip.AssignInodes | internal/catalog/catalog.go:135-148 | earlier numbers stay, the other keys get one unless their insert fails, and exactly the records of numbered keys are stored |
| RoundTrip.Refresh | internal/catalog/catalog.go:116-173 | what is stored, numbered, kept hidden and shown after a refresh, with any set of failing inserts |
| RoundTrip.LoadFromDB | internal/catalog/catalog.go:193-226 | load then hide; an empty table leaves the tree alone |
| RoundTrip.ExtractedIsPersisted | internal/catalog/catalog.go:119-150 | the stored records are the placements' own, each once |
| RoundTrip.AdditionIs | internal/catalog/tree_from_db.go:104-113 | the second loop finds every record's own file again |
| RoundTrip.SameLeaves | internal/catalog/tree_from_db.go:22-115 | rebuilding places the same files, /all included |
| RoundTrip.StoredLeaves | internal/catalog/catalog.go:135-148 | after failed inserts rebuilding places exactly the files with a number |
| RoundTrip.RebuildShowsTheSame | internal/catalog/tree_from_db.go:22-115 | extract, store, list in any order and rebuild: every directory lists the same names with the same files |
| RoundTrip.RestartShowsTheSame | internal/catalog/catalog.go:189-226 | with hidden files and failed inserts, a restart shows what the refresh showed less the files without a number |

## Left out

Of the repository:

- HTTP transport, redirects, URL resolution, back-off times, the URL cache: network I/O. A range reply is any value that satisfies `HonestReply` (206 responses: section 15.3.7 of RFC 9110), or a failure.
- Read-pattern heuristics, priorities, session times and read-ahead: arbitrary inputs; a read-ahead is one more `Open` step.
- Placement of files (title, season, category, MIME filter): an input of `BuildTree`.
- SQL text, transactions, time stamps; failed inserts of inodes and a failed HideFile are modelled, other database errors are not. LIKE is prefix matching: its wildcards and case folding are not modelled.
- Kernel notifications, attributes, permissions, the log lines about fully hidden downloads, the dashboard, metrics other than the cache gauges, configuration.
- The FNV hash: shards are chosen by any function into 0..31.
- go-fuse itself: `NewPersistentInode` makes a new inode every time, `AddChild` without overwrite refuses a taken name, `RmAllChildren` drops everything below; a request arrives with the path of its directory.
- `hostSem` is not written out a second time; it is the algorithm of `budgetSem` (internal/stream/cdn.go:44-127).

Stated weaker than one might expect:

- Semaphore.SlotsAreSafe: says nothing about promptness; cancelling a context wakes nobody, and a waiter rechecks only when it is woken.
- Semaphore.BudgetSem.InsertWaiter: the shift of the slice and the overwrite are one section under the mutex; sharing of the backing array between slices is not modelled.
- CacheAccounting.CounterCoversBytes: needs a quiet run, because of `BudgetCanBeExceeded`; quietness is sufficient, and not necessary, since other clamped stores may gain what one loses.
- CacheAccounting.Conservation: the replaced block's subtraction and the insertion are one step, since both happen under the shard's lock; ages and classes are not part of this machine.
- RangeCaching.RangeCache.PutBlock: requires a budget that is not negative, because of `EvictionTerminatesIff`; sequential, as every method of the class.
- RangeCaching.RangeCache.CopyTo: the gauges do not count hits; time is a parameter.
- WindowProtocol.RunKeepsInv: assumes honest bodies and kept promises; without the promise see `AlignedIffPromiseKept` and `AlignmentCanBreak`.
- WindowProtocol.RetriesResume: requires that others keep (or do not shorten) the block at the window's start.
- StreamReading.StreamReader.ReadAt: makes the assumptions of the protocol (`trusted`), which FetchWindow does not; the size passed in is the file's true size; a wait ends after `patience` wake-ups, standing for the caller's context; the small-read bypass may return fewer bytes than asked without an error.
- StreamReading.StreamReader.CancelFile: the session data and the list of recently closed files are not modelled.
- StreamReading.StreamReader.StreamInto: a body reader that returns neither bytes nor an error for ever is not modelled.
- CatalogTree.BuildTree: paths are sequences of segments; the order of entries with equal names is not determined by the source (its sort is not stable), so contents are compared as multisets and listings as names.
- Hiding.ApplyHides: nothing is claimed about subdirectories of the root, which are lost.
- CatalogSync.SyncConverges: requires that subdirectories below the root are listed once and are not empty, which every built tree satisfies (`TreeIsTame`).
- Mount.EventKeepsUpToDate: a refresh and a hide are single events; a reader between two sections of a merge is not described; "up to date" is about the files shown, for empty category directories see `RestartIsEqual`.
- FailedInserts.TryConverges: requires that entries of one name in one directory are equal, which holds where no two files compete for a path; an insert fails always or never for one key during one merge.
- SlotBudget.MemoryIsBounded: counts the buffers of fetchers that own a slot; a finished window keeps its buffer for a moment longer, until it is cleaned up.
- SlotBudget.CapHoldsIff: says nothing about how far a buffer can grow; a longer file can be streamed whole into one.
- RoundTrip.AssignInodes: an insert fails always or never for one key during one refresh.
- FuseTree.SyncDir: inode numbers are not part of the tree; their stability is proved for the database.
- StateDB.DB.AssignInode: 64-bit wrap-around of the counter is not modelled.
- StateDB.FullyHidden: requires kinds and download ids without colons, and content keys made of the record's own parts.
- RoundTrip.RebuildShowsTheSame: requires distinct content keys, distinct full paths, one-segment titles, the three download kinds of the source, and keys made of the file's own parts.
