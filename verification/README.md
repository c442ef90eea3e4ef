# A verified model of the NetFS client cache and of libfuse's inode table

NetFS is a file system whose client keeps blocks of remote files in a write-back cache. The client is a
FUSE file system, and the library it is built on, libfuse, is part of the same repository. This project
models, in Dafny, the parts of both whose correctness is hard to see, and proves what they are for.

**The write-back cache** (`Ranges`, `FlatFile`, `CachedFile`, `Recency`, `Flushing`, `Servers`, `CacheSteps`,
`Caches`, `NetFS`). A file is a size and a map of blocks; a block has bytes, a set of valid ranges and a dirty
mark; one recency list runs through all blocks. The abstract state is what a reader sees of each file: the valid
cached bytes over the server's bytes, cut or padded to the cached size. The main results are

* `NetFS.Run`, `NetFS.SingleClient`: in every run of one client with no failure, each answer, and what readers see in the
  end, is that of a plain array of bytes per file, whatever was cached, partly valid, flushed or evicted, unless an operation
  is one of four named cases;
* `NetFS.Run` with `NetFS.TrustAlong`, `NetFS.OwnHistory`, `NetFS.ReadsOwnWrite` and `NetFS.AccessCatches`: in every run
  of one client among others, and with failures, each state up to the first careless truncate is one in which a copy that the
  client has no reason to distrust agrees with the server; such a copy shows exactly what the client's own operations have
  made of the file it was taken from, so that a client reads its own writes; no copy is dropped but by an unlink or a check
  that it does not pass; and `access` and `stat` leave no other copy of the file they ask about;
* in the same runs an operation fails exactly when the server refuses one of its requests, but for two kinds of write-back
  whose outcome the code drops, and those leave a copy marked as not to be trusted;
* in every run, up to the first request that fails or is too large, the cache never holds more blocks between requests than it
  may, and what it drops is what was read less recently (`NetFS.ReadMoreRecently`); of as many successful writes as the flush
  interval says, one leaves nothing dirty (`NetFS.IntervalFlushes`);
* where the cache is *not* a plain array of bytes, the exact condition and an input: truncates (`CachedFile.ShrinkThenGrowIffSafe`,
  `CachedFile.UnalignedShrinkBringsBytesBack`), empty writes (`FlatFile.OverwriteIsPWrite`), creating a file while a copy of it
  is cached (`NetFS.NetFS.Create`, `CacheSteps.CreateShowsOldBytes`), and the size that `stat` tells (`NetFS.NetFS.Stat`,
  `NetFS.StatMissesCachedWrite`).

Interference by other clients is a relation on the server's files (`Servers.Evolved`): a file is untouched or has a later
time. Every request of the modelled client satisfies this same relation, which is what the other clients assume of it.

**The inode table and the locks of libfuse** (`Remainders`, `NodeTable`, `Forest`, `NodeTree`, `Inodes`, `TreeRuns`,
`TreeLocks`, `LockRuns`, `NodeSlab`, `RecordLocks`): the linear hash tables refine plain maps; in every run reference counts are
exact, and a node is live exactly as long as something at or below it is in use (`TreeRuns.RunTree`), where its lookups are
those that came to it less those forgotten (`TreeRuns.LookupsCounted`); a request for one path or two is granted exactly if
nothing stands in its way; lock words tell exactly who holds a node, so that a path given out stays the path of its node from
the request to the release in every run (`LockRuns.PathStays`), and a rename under the locks cannot close a cycle; a rename of a
node that its locks do not cover breaks this (`TreeLocks.RenameRace`), exactly when the node, or the one that has the new name,
is on a held path; the record lock list is the byte-wise function that POSIX record locking prescribes, though the process it
reports need not have asked for the bytes in question (`RecordLocks.PidOfNeighbour`).

**Three loops of libfuse** (`WorkerPool`, `OptionList`, `BufferVec`): the thread pool's accounting in every interleaving, the
round trip of option lists, however their characters are escaped, and the scatter/gather copy.

Conventions. Classes stand for objects the code updates in place, with the code's loops and branches; relations and functions on
values say what their methods do, and lemmas are about those. Where the code holds a node's address the model holds its id.
Errors are results, not preconditions; a `requires` that speaks of the caller is an assertion of the code, or is explained below.

## Model

| member | source | states |
|---|---|---|
| Ranges.InsertDenotesUnion | client_src/range.cpp:29-67 | inserting keeps the list sorted with strict gaps and denotes exactly the old set united with the new interval |
| Ranges.CanonicalIsUnique | client_src/range.cpp:29-67 | two lists in that form that denote the same set are the same list |
| Ranges.OneRangeIffAllCovered | client_src/cache.cpp:456-458 | a canonical list within [start, end) is that one range iff it covers every point of it |
| Ranges.RangeList.InsertRange | client_src/range.cpp:29-67 | the scan with erase and insert computes the recursive insertion and keeps the canonical form |
| FlatFile.OverwriteIsPWrite | client_src/cache.cpp:48-51 | growing the size first and then writing is a plain write iff the data is not empty or does not start past the end |
| FlatFile.OverlayRange | client_src/range.cpp:69-75 | exactly the bytes in the range are copied |
| FlatFile.OverlayRanges | client_src/range.cpp:76-83 | exactly the bytes covered by the ranges are copied |
| CachedFile.BlockOffset | client_src/cache.hpp:148 | the offset within a block is below the block size |
| CachedFile.BlockDecomposition | client_src/cache.hpp:146-148 | a position lies in a block, at an offset, iff block number and block offset say so; the two make up the position |
| CachedFile.WriteBlockWrites | client_src/cache.cpp:74-90 | writing into a block, new or old, makes those bytes valid and dirty with the written values and changes no other byte |
| CachedFile.WriteRefinesOverwrite | client_src/cache.cpp:38-65 | a write makes readers see the overwritten file and keeps agreement with the server |
| CachedFile.FullBlockIffAllValid | client_src/cache.cpp:448-466 | the one-range test holds iff every byte of the block is valid |
| CachedFile.FetchBlockFetches | client_src/cache.hpp:51-57 | a fetch keeps valid bytes, takes the others from the server, and makes the block full |
| CachedFile.FetchKeepsContents | client_src/cache.cpp:468-555 | fetched blocks do not change what readers see |
| CachedFile.DropCleanBlock | client_src/cache.cpp:159-166 | dropping a clean block changes nothing a reader sees |
| CachedFile.ShrinkShowsPrefix | client_src/cache.cpp:111-123 | right after a shrink readers see the prefix |
| CachedFile.ShrinkInSyncIffSafe | client_src/cache.cpp:111-129 | the file agrees with the server after a shrink iff the block at the new end had no valid non-zero byte from there on |
| CachedFile.ShrinkThenGrowIffSafe | client_src/cache.cpp:103-140 | shrinking and then growing again shows zeros past the shrunk end iff that same condition held |
| CachedFile.UnalignedShrinkBringsBytesBack | client_src/cache.cpp:113-123 | a concrete file whose old bytes come back after an unaligned shrink and a growth |
| CachedFile.GrowExtends | client_src/cache.cpp:130-138 | growing appends zeros to what readers see |
| CachedFile.WriteSettles | client_src/cache.cpp:48-63 | a write leaves a dirty byte, or the size as it was, unless it is empty and past the end |
| CachedFile.CleanShowsServer | client_src/cache.cpp:345-416 | a file without a dirty byte whose size the server knows shows exactly what the server holds |
| Recency.EntryHasRecord | client_src/cache.cpp:145-156 | every cached block has a record in the list, at the handle it points to |
| Recency.RecordIsUnique | client_src/cache.cpp:145-156 | no two records are of one block |
| Recency.LinkedAfterInsert | client_src/cache.cpp:145-156 | a new entry with its record at the tail keeps blocks and records in bijection |
| Recency.LinkedAfterDelete | client_src/cache.cpp:159-166 | deleting an entry with its record keeps the bijection |
| Recency.LinkedAfterToFront | client_src/cache.cpp:254-257 | moving a record to the head keeps the bijection |
| Recency.ReadFirstNext | client_src/cache.cpp:226-257 | moving the records of a range of blocks to the head one by one puts them first, the last block at the head, and leaves the order of the others |
| Recency.OutranksRead | client_src/cache.cpp:226-257 | a read puts the blocks it reads ahead of every other, and changes the order of no two others |
| Recency.OutranksMeans | client_src/cache.cpp:303-317 | a block that outranks another is listed ahead of it wherever that is listed, so that the tail drops the other first |
| Flushing.MaximalRunsAreUnique | client_src/cache.cpp:345-403 | only one list of maximal, ascending, non-adjacent runs denotes the dirty valid bytes |
| Flushing.RunsNextRange | client_src/cache.cpp:354-390 | taking in one more range keeps the runs those of the bytes taken in so far |
| Flushing.FlushSettles | client_src/cache.cpp:345-416 | writing all maximal runs and then the size leaves the server with what readers see, even where blocks reach past the end |
| Flushing.Sort | client_src/cache.cpp:290 | the block numbers come out ascending, the same ones |
| Servers.Server.WriteContent | client_src/netfs.cpp:361-392 | a write-back that does not leave the file marked stale met the time the client had cached and changed exactly the written bytes; a refused one is counted and leaves the file marked |
| Servers.Server.WriteAttr | client_src/netfs.cpp:428-456 | the same for a change of size; a failed one may have changed the file |
| Servers.Server.ReadContent | client_src/netfs.cpp:394-410 | the answer is the server's bytes, at most as many as asked for |
| Servers.Server.ReadAttr | client_src/netfs.cpp:411-427 | the answer is the server's size and time |
| CacheSteps.TrustedAfterOthers | client_src/netfs.cpp:361-392 | whatever other clients do, every file still current agrees with the server |
| CacheSteps.FlushKeepsViews | client_src/cache.cpp:345-416 | a flush, complete or failed, changes nothing readers see of a file that stays current |
| CacheSteps.TruncatedFile | client_src/cache.cpp:103-140 | after any truncate readers see the resized file, and it agrees with the server iff the truncate was safe |
| CacheSteps.CleanIsStored | client_src/cache.cpp:274-298 | in a run alone, with no dirty block left, every file is on the server as readers see it |
| CacheSteps.CleanedShows | client_src/cache.cpp:274-298 | among other clients, a file that had a dirty byte and is clean and current after write-backs is on the server as readers see it |
| CacheSteps.CreatedQuietlyIff | client_src/netfs.cpp:118-127 | after a create the cached files all agree with the server iff no copy of the created file is cached |
| CacheSteps.CreatedViewsIff | client_src/netfs.cpp:118-127 | the created file shows up empty iff no copy of it with a size is cached |
| CacheSteps.CreateShowsOldBytes | client_src/netfs.cpp:118-127 | a concrete file whose old bytes a reader still sees after a create |
| CacheSteps.GatherBytes | client_src/cache.cpp:223-234 | the block-by-block loop of a read collects exactly the stored bytes of the range |
| CacheSteps.CollectDirty | client_src/cache.cpp:276-287 | the walk over the recency list finds, per file, exactly the dirty blocks, each once, and no lookup fails |
| Caches.Cache.CacheFileAttr | client_src/cache.cpp:428-442 | a file not cached yet is added with the server's size and time; a failure changes nothing |
| Caches.Cache.LookUp | client_src/cache.cpp:428-442 | the same, and what it means for readers: no copy is dropped, and one that is new shows the server's file |
| Caches.Cache.WriteBlock | client_src/cache.cpp:74-90 | one block is written, its record added at the tail if it is new |
| Caches.Cache.WriteChunks | client_src/cache.cpp:52-63 | the block-by-block loop writes exactly the buffer at the offset, adding at most the blocks it spans |
| Caches.Cache.Write | client_src/cache.cpp:38-65 | readers see the file overwritten and no other file changed, also where others act and where the write takes the copy; the copy's size is moved by this write alone; only records of new blocks in the range are added, at the tail; dirty bytes stay dirty; an error means that the server refused the file's attributes, and changes nothing |
| Caches.Cache.MissingBlocks | client_src/cache.cpp:490-499 | the list covers exactly the blocks that are not full |
| Caches.Cache.FetchRun | client_src/cache.cpp:520-553 | on success the run of blocks is full; what readers see of a file that is still current is as before, even if others act before the server answers |
| Caches.Cache.CacheBlocks | client_src/cache.cpp:477-555 | all requested blocks of a non-empty file are full on success; on success or failure what readers see of a current file is as before; for an empty file nothing changes |
| Caches.Cache.MoveToHead | client_src/cache.cpp:254-257 | the record is first and the others keep their order |
| Caches.Cache.Read | client_src/cache.cpp:194-236 | count and bytes are those of a read of what readers see, also where the read takes the copy; the rest of the buffer is untouched; no copy is dropped or changes size; after a read of some bytes the records of the blocks read come first, the last block's at the head, and the others keep their order; a read of nothing leaves the list |
| Caches.Cache.SendRuns | client_src/cache.cpp:345-403 | the write-backs sent are exactly the maximal runs, each with the cached bytes |
| Caches.Cache.FlushBlocks | client_src/cache.cpp:345-416 | on success the blocks are clean and the requests logged are the maximal runs and then the size; a failure marks the file stale |
| Caches.Cache.FlushDirtyBlocks | client_src/cache.cpp:274-298 | if nothing fails no block is dirty and each file that had dirty blocks is stored on the server as readers see it; whatever was cleaned is stored; in a run alone without empty writes past the end, every file is, and the server knows every size |
| Caches.Cache.EvictBlocks | client_src/cache.cpp:303-317 | on success exactly the last min(n, size) records and their blocks are gone, nothing is dirty, what was is stored, and readers see what they saw |
| Caches.Cache.Flush | client_src/cache.cpp:320-343 | the file's dirty blocks are stored if nothing fails; a file without any sends nothing; the outcome of the write-back is dropped, but a refused one leaves the file marked stale |
| Caches.Cache.DeleteEntry | client_src/cache.cpp:159-166 | the block and its own record go, nothing else |
| Caches.Cache.DeleteEntryBeyond | client_src/cache.cpp:170-186 | exactly the blocks from the bound on go, with their records |
| Caches.Cache.Invalidate | client_src/cache.cpp:418-426 | the file and all its records go, nothing else |
| Caches.Cache.Truncate | client_src/cache.cpp:103-140 | readers see the file resized, also where others act and where the truncate takes the copy; the copy has the new size; records of other files keep their order; later agreement with the server iff the truncate was safe |
| NetFS.NetFS.Evict | client_src/netfs.cpp:212-223 | a cache over its limit by no more than an eviction is within it afterwards; above the limit exactly the tail of the list goes, below it nothing; only what is stored is clean |
| NetFS.NetFS.Read | client_src/netfs.cpp:224-246 | the bytes of the file as readers see it, which is cached afterwards, and the cache within its limit; the blocks read come first in the list before the tail is dropped; an error iff the server refused a request |
| NetFS.NetFS.Write | client_src/netfs.cpp:248-268 | readers see the file overwritten, also where others act and where the write takes the copy; the cache is within its limit; a successful write is counted, and when the count comes to the interval it starts again and, if nothing was refused, nothing is dirty and, from a trusted state, every current file that was dirty or has been written to is stored; a refusal that is not reported is one of the flush at the interval, and leaves a copy marked stale |
| NetFS.NetFS.CountWrite | client_src/netfs.cpp:261-266 | the count goes up by one, or back to zero at the flush interval; then every block is clean afterwards if nothing fails, and what was cleaned is stored |
| NetFS.NetFS.Truncate | client_src/netfs.cpp:270-274 | readers see the file resized, also where others act and where the truncate takes the copy; an error iff the server refused a request |
| NetFS.NetFS.Access | client_src/netfs.cpp:78-116 | a copy is kept iff the file can be had and the copy is not stale and has the server's time; then it agrees with the server |
| NetFS.NetFS.Stat | client_src/netfs.cpp:129-168 | the same with the answer to a stat request: a copy is kept iff it passes that check; in a run alone the size told is the one readers see iff the file is not cached or its cached size is the server's |
| NetFS.NetFS.Create | client_src/netfs.cpp:118-127 | the file is empty on the server and a cached copy is not current; in a run alone readers see it empty iff no copy of it with a size is cached |
| NetFS.NetFS.Unlink | client_src/netfs.cpp:276-290 | the file is neither on the server nor cached |
| NetFS.NetFS.Flush | client_src/netfs.cpp:319-323 | the file's blocks are clean if nothing fails |
| NetFS.Perform | client_src/netfs.cpp:78-323 | every single operation: among others, which copies it takes, keeps and drops, its own effect and no other on those that are current, the right answer, and failure iff a refusal; what a flush, an eviction or a write at the interval has written back; how the writes are counted and the recency list reordered; the capacity kept if it succeeds; alone, a step of the plain file system unless it is one of four named cases |
| NetFS.PlainIsFaithful | client_src/cache.cpp:103-140 | growing or block-aligned truncates, non-empty writes, creating a missing file and a stat of a file that has not grown since its last flush are not among those cases |
| NetFS.Run | client_src/netfs.cpp:78-456 | every run: the states it goes through, each operation's own effect, answer, copies, refusals, count of writes and order of the list, step by step; within capacity up to the first request that fails or is too large; alone and without failures, a plain file system |
| NetFS.SingleClient | client_src/netfs.cpp:78-323 | from an empty cache, alone: the answers of any plain run, sizes included, are those of the plain file system |
| NetFS.TrustAlong | client_src/netfs.cpp:78-456 | in every run among others each state up to the first careless truncate is trusted |
| NetFS.OwnHistory | client_src/netfs.cpp:78-456 | a copy kept from one state, or taken by one operation, to a later state, and current then, shows exactly what the client's own operations since have made of it, or of the file it was taken from |
| NetFS.CopyStays | client_src/netfs.cpp:78-323 | a copy stays through any operations but an unlink, access or stat of its file |
| NetFS.OwnWriteStays | client_src/netfs.cpp:248-268 | a write that succeeded and was left alone since shows in a copy that is current |
| NetFS.ReadsOwnWrite | client_src/netfs.cpp:224-268 | in any run among others a later read of bytes that the client wrote and left alone answers those bytes, if the copy is current then |
| NetFS.AccessCatches | client_src/netfs.cpp:78-157 | after any access or stat in such a run a copy still kept is current and agrees with the server |
| NetFS.IntervalFlushes | client_src/netfs.cpp:261-266 | in any run, of operations among which as many writes succeed as the flush interval says, one is a write after which, if nothing was refused, nothing is dirty and, from a trusted state, every current file that was is stored |
| NetFS.ReadMoreRecently | client_src/netfs.cpp:212-246 | in any run, while a block read by one operation stays cached and its file is not truncated, checked or unlinked, it is listed ahead of, and not evicted before, any block not asked for since |
| NetFS.ClientAmongOthers | client_src/netfs.cpp:78-456 | such a run from an empty cache: every step as above, trusted up to the first careless truncate, within capacity, and if it is alone after all, the answers of a plain file system |
| NetFS.StatMissesCachedWrite | client_src/netfs.cpp:129-160 | a client that has written four bytes to an empty file, and reads them back, is told that its size is zero |
| NodeTable.BucketSplit | fuse-3/lib/fuse.c:516-525 | splitting one bucket more moves only keys of that bucket, and only to its upper twin |
| NodeTable.BucketResize | fuse-3/lib/fuse.c:634-649 | a fully split table hashes as the unsplit table of twice the size |
| NodeTable.CellIsPlaced | fuse-3/lib/fuse.c:527-537 | a node is in the table iff it is in the bucket its hash names |
| NodeTable.MergePlaced | fuse-3/lib/fuse.c:593-617 | appending the upper twin to a bucket puts every node where the smaller split wants it |
| NodeTable.ReducePlaced | fuse-3/lib/fuse.c:577-591 | halving an unsplit table keeps every node in the bucket its hash names |
| NodeTable.Table.Lookup | fuse-3/lib/fuse.c:527-537 | finds a key iff it was inserted and not removed, with its value |
| NodeTable.Table.Insert | fuse-3/lib/fuse.c:680-689 | the map gains the key; exactly one bucket more is in use when the load calls for it; there are no more nodes than buckets in use |
| NodeTable.Table.Rehash | fuse-3/lib/fuse.c:651-678 | the map is unchanged and exactly one bucket more is in use |
| NodeTable.Table.Resize | fuse-3/lib/fuse.c:634-649 | the map is unchanged, the size doubled, the split back at zero |
| NodeTable.Table.Delete | fuse-3/lib/fuse.c:619-632 | the map loses exactly that key, if it had it with that node; one to eight buckets fewer are in use iff the table is less than a quarter full and above the smallest size |
| NodeTable.Table.Detach | fuse-3/lib/fuse.c:742-746 | the node leaves its chain, still counted |
| NodeTable.Table.Settle | fuse-3/lib/fuse.c:751-755 | the removal is counted; the map is unchanged; buckets are given up on the same condition |
| NodeTable.Table.Remerge | fuse-3/lib/fuse.c:593-617 | the map is unchanged; one to eight buckets fewer are in use, none only at the smallest size; the merging ends at the first bucket that has moved a node |
| NodeTable.Table.Reduce | fuse-3/lib/fuse.c:577-591 | the map and the buckets in use are unchanged |
| NodeTable.RunTable | fuse-3/lib/fuse.c:516-689 | through any run of operations a table answers as a plain map does, its count is the number of nodes, and there are never more nodes than buckets in use |
| Forest.AttachAcyclicIff | fuse-3/lib/fuse.c:1489-1490 | attaching a loose node below a directory keeps the forest acyclic iff the directory is not below it |
| NodeTree.UnlinkCounted | fuse-3/lib/fuse.c:742-751 | a node that loses its name leaves exact counts when its parent's reference is handed over |
| NodeTree.LinkCounted | fuse-3/lib/fuse.c:807-811 | a node that gains a name leaves exact counts |
| NodeTree.FreeCounted | fuse-3/lib/fuse.c:819-831 | a node whose count is zero has no child, lookup or pin, and freeing it leaves exact counts and live parents |
| NodeTree.LookupCounted | fuse-3/lib/fuse.c:866-871 | a lookup leaves exact counts |
| NodeTree.ForgetCountedIff | fuse-3/lib/fuse.c:1437-1440 | forgetting keeps the counts exact iff the node had a lookup left |
| NodeTree.ForgetWithoutLookupFails | fuse-3/lib/fuse.c:1437-1440 | a concrete node, kept by its child alone, whose count a forget of no lookups gets wrong |
| NodeTree.LiveIffAnchored | fuse-3/lib/fuse.c:819-839 | with exact counts a node is live iff it, or one below it, is looked up or pinned |
| NodeTree.KeptFreesUnused | fuse-3/lib/fuse.c:819-839 | what a step frees is exactly what neither the kernel nor a request uses any more |
| NodeTree.MoveForest | fuse-3/lib/fuse.c:1489-1490 | a rename below a directory that is not below the node keeps the tree acyclic |
| NodeTree.MoveClosesCycle | fuse-3/lib/fuse.c:1489-1490 | one below a directory that is below the node does not |
| NodeTree.RenameFreesItsDirectory | fuse-3/lib/fuse.c:1480-1490 | a concrete tree in which a rename frees the directory it is about to use |
| NodeTree.FreeIdExists | fuse-3/lib/fuse.c:841-850 | with fewer nodes than ids there is a free id |
| Inodes.InodeTree.constructor | fuse-3/lib/fuse.c:4861-4890 | the tree starts with the root, looked up once |
| Inodes.InodeTree.LiveIffUsed | fuse-3/lib/fuse.c:819-839 | between requests a node is live iff the kernel or a request uses it or a node below it |
| Inodes.InodeTree.NextId | fuse-3/lib/fuse.c:841-850 | the first id after the last one that is neither reserved nor in use; with the generation it never repeats |
| Inodes.InodeTree.UnrefNode | fuse-3/lib/fuse.c:833-839 | one reference goes; the nodes freed with it were neither looked up nor pinned, all others keep their place; the cascade ends |
| Inodes.InodeTree.DeleteNode | fuse-3/lib/fuse.c:819-831 | the node is gone from both tables, and the counts are exact |
| Inodes.InodeTree.UnhashName | fuse-3/lib/fuse.c:736-762 | the node loses its name; nothing is freed if its parent is looked up |
| Inodes.InodeTree.HashName | fuse-3/lib/fuse.c:793-817 | the node hangs below its parent under its name |
| Inodes.InodeTree.FindNode | fuse-3/lib/fuse.c:873-910 | the node of that name if there is one, else a new one with the next free id and its generation, looked up once more; every other node is as it was |
| Inodes.InodeTree.ForgetNode | fuse-3/lib/fuse.c:1409-1445 | with a lookup to give back the lookups go and exactly what nothing uses is freed; without one a count is wrong afterwards; the root stays |
| Inodes.InodeTree.Pin | fuse-3/lib/fuse.c:2660-2666 | a request's own reference is counted |
| Inodes.InodeTree.Unpin | fuse-3/lib/fuse.c:2692-2696 | and given back, freeing exactly what nothing uses any more |
| Inodes.InodeTree.UnlinkNode | fuse-3/lib/fuse.c:1447-1454 | the name goes, and under `remember` the cache's own lookup |
| Inodes.InodeTree.RemoveNode | fuse-3/lib/fuse.c:1456-1465 | the named node, if any, loses its name, and exactly what nothing uses any more is freed |
| Inodes.InodeTree.RenameNode | fuse-3/lib/fuse.c:1467-1501 | it comes back iff something still uses the new directory without the links it takes away; then the node hangs there, exactly what nothing uses is freed, and the tree stays one iff the move closes no cycle; between looked-up directories nothing is freed and exactly two links change |
| TreeRuns.IsAbove | fuse-3/lib/fuse.c:1285-1292 | the walk up finds the node iff the other is below it |
| TreeRuns.RunTree | fuse-3/lib/fuse.c:736-1501 | in every run of lookups, forgets, removals, acyclic renames and pins, in each state the counts are exact, parents live, the tree is one, and a node is live iff it or a node below it is in use; a new node gets the first free id after the last one given out |
| TreeRuns.NoPairTwice | fuse-3/lib/fuse.c:841-906 | in every run no two nodes that are added get the same id with the same generation |
| TreeRuns.LookupsCounted | fuse-3/lib/fuse.c:866-910 | in every run the lookups of a live node are the lookups that came to it since it was added, less the counts forgotten, and under `remember` one more until its unlink |
| TreeRuns.LiveWhileLookedUp | fuse-3/lib/fuse.c:1409-1445 | in every run a node looked up more often than forgotten stays live |
| TreeLocks.ReadLockStep | fuse-3/lib/fuse.c:1048-1053 | counting a reader in keeps every lock word exact |
| TreeLocks.ReadUnlockStep | fuse-3/lib/fuse.c:985-993 | so does counting one out, the three assertions hold, and a node's wait mark goes exactly with its last reader |
| TreeLocks.WriteLockStep | fuse-3/lib/fuse.c:1033 | so does marking a writer |
| TreeLocks.WaitStep | fuse-3/lib/fuse.c:1027-1031 | so does marking that a writer waits for the readers it has met |
| TreeLocks.WriterIsAlone | fuse-3/lib/fuse.c:1023-1033 | a node locked for writing is on no held path and no one else's to write |
| TreeLocks.MoveKeepsHoldsIff | fuse-3/lib/fuse.c:1447-1501 | a node may change its parent or its name with every path as its holder was told iff it is on none |
| TreeLocks.RenameKeepsHoldsIff | fuse-3/lib/fuse.c:1467-1501 | a rename, onto a name that is taken or not, leaves every path as its holder was told iff it changes nothing or neither node is on a held path |
| TreeLocks.DeletedIsUnlocked | fuse-3/lib/fuse.c:825 | with exact counts, and what requests hold looked up, a node whose count is zero is not locked |
| TreeLocks.RenameRace | fuse-3/lib/fuse.c:1023-1034 | a run in which a name is locked before a node has it, and a rename leaves another request with a path that is not its node's |
| TreeLocks.MoveAcyclic | fuse-3/lib/fuse.c:1489-1490 | a node moved below a directory that is not below it closes no cycle |
| TreeLocks.MayLockSecond | fuse-3/lib/fuse.c:1310-1329 | with the first of two paths locked, the second can be locked iff it could be before and the two do not clash |
| TreeLocks.HoldTells | fuse-3/lib/fuse.c:996-1076 | what a holder was told is the names on the only way from the root to its node, each after a slash, and the child it asked about |
| TreeLocks.LockedTree.UnlockPath | fuse-3/lib/fuse.c:975-994 | exactly the locks of the chain are undone, up to the given end, with the wait marks of nodes left without readers |
| TreeLocks.LockedTree.TryGetPath | fuse-3/lib/fuse.c:996-1076 | it succeeds iff there is a way to the root, the wanted child is not locked and no node on the way is locked for writing; then the chain and the child are locked and the path is the names on the way; a failure has its reason and leaves no lock; a writer refused by readers leaves a wait mark, and nothing else does |
| TreeLocks.LockedTree.TryGetPath2 | fuse-3/lib/fuse.c:1310-1329 | both paths are locked or neither is; both are iff each could be locked alone and neither wants to write what the other passes or writes; each failure has its reason in the state before |
| TreeLocks.LockedTree.FreePath | fuse-3/lib/fuse.c:1379-1394 | exactly one hold is given up, and the wait marks of nodes left without readers go |
| TreeLocks.LockedTree.Rename | fuse-3/lib/fuse.c:1467-1501 | whoever holds what, a rename keeps the tree, the node that had the new name loses it, and what holders were told stays right iff nothing changes or neither node is on anybody's path |
| TreeLocks.LockedTree.Relink | fuse-3/lib/fuse.c:1480-1490 | the node that has the new name is unlinked first, and exactly the links of the two nodes change |
| TreeLocks.LockedTree.Remove | fuse-3/lib/fuse.c:1447-1465 | the same for an unlink |
| TreeLocks.LockedTree.Move | fuse-3/lib/fuse.c:1467-1501 | a rename by the writer into a held directory, with the write lock on a node that has the new name, keeps every held path and the tree |
| TreeLocks.LockedTree.Unlink | fuse-3/lib/fuse.c:1447-1465 | an unlink by the writer keeps every held path |
| TreeLocks.LockedTree.AddNode | fuse-3/lib/fuse.c:883-902 | a new node keeps every held path and every lock word |
| TreeLocks.LockedTree.DeleteNode | fuse-3/lib/fuse.c:819-831 | so does deleting an unlocked leaf |
| LockRuns.RunPathLocks | fuse-3/lib/fuse.c:975-1076 | in every run of requests that lock one path or two and release them, and of renames, unlinks, additions and deletions by those who hold what they change, in each state the lock words tell exactly who holds what and who is waited for; a request is granted iff nothing stands in its way |
| LockRuns.HoldStays | fuse-3/lib/fuse.c:1379-1394 | a hold lasts until it is released |
| LockRuns.PathStays | fuse-3/lib/fuse.c:996-1076 | from the request, for one path or two, that was told a path to its release, whatever others do, the path is the names that lead to the node, and a child locked for writing is on no one's path and no one else's to write |
| LockRuns.MarkedIff | fuse-3/lib/fuse.c:985-1031 | in every run a lock word carries the wait mark exactly from when a request for writing met the readers of its node until the last of them leaves; otherwise it is the number of readers |
| NodeSlab.Allocator.AllocSlab | fuse-3/lib/fuse.c:422-452 | a fresh page joins the partial list with all its nodes free |
| NodeSlab.Allocator.AllocNode | fuse-3/lib/fuse.c:454-475 | the node given out was not live; used and free nodes make up each page; full slabs are on the full list |
| NodeSlab.Allocator.FreeNodeMem | fuse-3/lib/fuse.c:487-502 | the node is no longer live; a page with no live node is unmapped |
| NodeSlab.Allocator.Destroy | fuse-3/lib/fuse.c:4969-4980 | once all nodes are freed both lists are empty |
| NodeSlab.EmptyIff | fuse-3/lib/fuse.c:4979-4980 | both lists are empty iff no node is live |
| RecordLocks.LockList.Conflict | fuse-3/lib/fuse.c:3912-3923 | the first foreign lock in the way, and none iff there is none |
| RecordLocks.LockList.Insert | fuse-3/lib/fuse.c:3938-4010 | every owner's kind on every byte is the request's inside its range and the old one elsewhere; the list stays sorted, disjoint and merged; other owners' locks are untouched; the lock set has the request's process, unless one lock held all of it before, and then nothing changes; the spare locks are at hand when needed |
| RecordLocks.NullConflictIff | fuse-3/lib/fuse.c:3912-3923 | no conflict is found iff every byte of the range is compatible with every other owner's kind |
| RecordLocks.GrantKeepsNoConflict | fuse-3/lib/fuse.c:3938-4010 | if no two owners shared a byte one has locked for writing, it stays so after a lock is set iff it is an unlock or the conflict test found none |
| RecordLocks.Request | fuse-3/lib/fuse.c:4119-4161 | a query is answered with nothing iff every byte is compatible, else with a lock that is in the way, of the owner, kind and process of a granted request; a lock is set iff the file system granted it |
| RecordLocks.RunLocks | fuse-3/lib/fuse.c:3912-4161 | in every run the list is, byte for byte, the last lock granted, with processes of granted requests, every query is answered from that, and owners share no byte that one has locked for writing for exactly as long as the file system grants only what does not clash |
| RecordLocks.PidOfNeighbour | fuse-3/lib/fuse.c:3938-4010 | two locks of one owner that touch, after which a query about the first is answered with the process of the second |
| WorkerPool.Pool.StartThread | fuse-3/lib/fuse_loop_mt.c:256-291 | a thread created is counted, one that could not be is not |
| WorkerPool.Pool.BeginWork | fuse-3/lib/fuse_loop_mt.c:142-158 | the counters are exact, and a worker is left available iff it was a FORGET, another was, or a thread was created |
| WorkerPool.Pool.EndWork | fuse-3/lib/fuse_loop_mt.c:162-183 | the counters are exact, the worker leaves iff there are too many, and one is left available iff the idle limit is at least one or another was |
| WorkerPool.RunPool | fuse-3/lib/fuse_loop_mt.c:114-187 | in every interleaving the workers are those the schedule leads to, the counters count them, and with an idle limit of one or more and threads to be had some worker is available |
| WorkerPool.NoIdleLimitEmptiesPool | fuse-3/lib/fuse_loop_mt.c:168-176 | with an idle limit below one the first worker to return leaves the pool empty |
| OptionList.AddOptCommon | fuse-3/lib/fuse_opt.c:114-136 | the list with the option added, inside the buffer allocated for it |
| OptionList.ProcessOptionGroup | fuse-3/lib/fuse_opt.c:293-331 | the handler gets exactly the options of the list, in order, up to the first it refuses; the write cursor never passes the read cursor; which options a list has is stated by WrittenRoundTrip and EveryListIsWritten |
| OptionList.OctalRoundTrip | fuse-3/lib/fuse_opt.c:314-320 | every byte, written as a backslash and its three octal digits, is read back as itself |
| OptionList.WrittenRoundTrip | fuse-3/lib/fuse_opt.c:293-331 | options written with any mix of plain, quoted and octal characters are those that the list has |
| OptionList.EveryListIsWritten | fuse-3/lib/fuse_opt.c:293-331 | every text is a list written that way, so that this says what any list has |
| OptionList.ProcessWritten | fuse-3/lib/fuse_opt.c:293-331 | the handler gets the characters that were meant, up to the first option it refuses |
| OptionList.EscapeRoundTrip | fuse-3/lib/fuse_opt.c:128-132 | an escaped option is read back whole |
| OptionList.JoinRoundTripIff | fuse-3/lib/fuse_opt.c:114-136 | taking a joined list apart gives the options back iff there is one or the first is not empty |
| OptionList.JoinHandsBack | fuse-3/lib/fuse_opt.c:293-331 | and hands them over as the C strings they were |
| OptionList.JoinAndProcess | fuse-3/lib/fuse_opt.c:114-331 | options joined one by one and taken apart reach the handler as they were, in order, up to the first it refuses |
| BufferVec.BufVec.Size | fuse-3/lib/buffer.c:22-35 | the number of bytes in all buffers; after a buffer of unknown size, the later sizes added to the largest number, modulo 2^64 |
| BufferVec.BufVec.Advance | fuse-3/lib/buffer.c:265-279 | the cursor passes exactly that many addresses, and says whether a buffer is left |
| BufferVec.CopyOne | fuse-3/lib/buffer.c:234-245 | the bytes are moved as if at once, overlapping or not, and nothing else changes |
| BufferVec.PiecesCut | fuse-3/lib/buffer.c:291-318 | the pieces, cut where a buffer of either vector ends, run through both in order, until one of them ends |
| BufferVec.PiecesCopy | fuse-3/lib/buffer.c:281-321 | pieces of which none reads or writes what an earlier one has written amount to one copy of all bytes at once |
| BufferVec.DisjointNoneReread | fuse-3/lib/buffer.c:281-321 | so it is between vectors that do not overlap |
| BufferVec.RereadBytesDiffer | fuse-3/lib/buffer.c:281-321 | concrete overlapping vectors between which the pieces do not amount to that |
| BufferVec.Copy | fuse-3/lib/buffer.c:281-321 | the smaller of the two remaining totals is moved piece by piece, overlapping or not, and as one copy if nothing written is read again; the source's cursor passes it; the destination's does too, unless the source has run out: then it stands before the last piece copied; a vector copied to itself gives its total size |

## Left out

- Sockets, messages and their encoding, and the server's system calls: a request is one atomic step of the server. The server's own sequence of reading the time, changing the file and reading the time again is not atomic.
- File times are one version number, later after every change on the server; modification and change time are compared in the code, access time is not.
- Access modes, directories, `rename`, `readdir` and `statfs` of the client, and the FUSE callbacks: they pass requests through and at most invalidate a file.
- The C++ cache entries and valid ranges are held by value in maps and are values here; iterators into the recency list are handles that are never reused.
- Caches.Cache.Read: copies all bytes before it moves the records to the head, block by block, instead of doing both for each block.
- Flushing.Sort: an insertion sort in place of the library's sort.
- NodeTable.Table.Insert: requires a key that is not there; the code looks it up first. Failing reallocation of the array is not modelled.
- Inodes.InodeTree.UnhashName: clears the child's link before, not after, the parent's reference is dropped; all of it happens under one mutex.
- Inodes.InodeTree.FindNode: requires fewer nodes than there are ids, since `next_id` does not return otherwise; the generation is unbounded.
- Inodes.InodeTree.ForgetNode: what the code does after it has dropped a reference the kernel did not have is not followed; waiting for the path lock and the LRU list are left out.
- Inodes.InodeTree.RenameNode: requires that a node does not move into itself, nor, unless both directories are looked up, below itself; the kernel sees to that. The mark on hidden files is left out.
- `exchange_node` and the clean-up of remembered nodes. The tree with tables and counts and the tree with path locks are two models; `TreeLocks.DeletedIsUnlocked` is stated over both.
- TreeLocks.LockedTree.TryGetPath: requires fewer than 2^31 - 2 holds, so that a lock word is never ambiguous; the path buffer's growth and the unlocked use are left out.
- TreeLocks.LockedTree.Move: the nodes are those locked for writing; `TreeLocks.LockedTree.Rename` is the rename of any node.
- The wait queue and its liveness; the code itself notes that two-path locking lacks deadlock checking.
- NodeSlab.Allocator.AllocNode: a page has room for at least one node; a failing `mmap` is not modelled.
- RecordLocks.LockList.Insert: failing allocation is not modelled.
- WorkerPool.RunPool: stops before the session exits.
- BufferVec.Copy: memory buffers only; file descriptors, pipes and splicing are left out.
- Failing allocation everywhere, overflow of sizes, debug output.
