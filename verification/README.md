# Verified models of golang-toys

A Dafny model of five components of the repository and proofs about their whole runs. Each component is modelled
twice: as a value that each operation maps to the next value, and, where the Go code updates objects in place, as
classes whose methods are proved equal to those functions. The theorems are about the functions.

`dafny verify dfyconfig.toml` checks everything.

## Replicated text (`conflict-free-replicated-datatypes`)

- `Rga.dfy`: the replicated growable array as a list of cells, tombstones included. The invariant *Placed* says that
  every node follows the node it was inserted after and that only larger IDs stand in between. It survives
  `insertAfter`, and it determines the list uniquely: at a first difference each candidate would have to be larger
  than the other. Nothing here needs timestamps to respect causality.
- `AnchorTree.dfy`: the tree of anchors. If every node's ID is larger than its anchor's, the list is the pre-order
  traversal of that tree, siblings descending.
- `RgaHeap.dfy`: the doubly linked cells, the index and `lastIssued`.
- `Convergence.dfy`: what any sequence of operations leaves behind. A replica panics exactly when an anchor is missing.
  Two orders of the same operations that do not panic always agree on nodes and places, and on everything if and only if
  no node's delete comes in time in one and before the insert in the other. Orders in which each operation follows the
  one it refers to lose nothing, so they converge, duplicates included.
- `OpCodec.dfy`: the wire format.
- `Editor.dfy`: key presses, cursor and broadcasts. `CursorMoves.dfy`: the same by cells, whoever wrote them.
  `TextBuffer.dfy`: a peer that edits alone is a plain text buffer.
- `TwoPeers.dfy`: two editors joined by reliable FIFO channels of encoded operations. The delivery hypotheses, which are
  assumptions for `Convergence.dfy`, are theorems here.

## Key-value store (`micro-cassandra`)

- `TableFormat.dfy`, `TableNames.dfy`: bytes of a table file, what a truncated file yields, file names and their order.
- `Lsm.dfy`, `LsmHeap.dfy`: memtable, table list and directory as a value and as objects.
- `Sessions.dfy`: refinement to a plain map over a whole session, compaction with removals that fail, reopening.
- `Reopening.dfy`, `SessionChains.dfy`, `LosingRun.dfy`: what sessions hand to the next one, and when that one loses
  data.

Reopening is where the code falls short of what `Open` documents. The next file number is the number of files plus one,
so after a compaction it can be smaller than the number of a file that exists. The next flush then either collides with
an existing file or creates one that sorts in front of an older one, and the older value wins after the next reopen.
`Reopening.DurableIffContiguous` gives the exact condition for every threshold: data survives every session if and only
if no file's number exceeds the number of files. `SessionChains.ChainStaysContiguousIff` says which sessions keep it:
those in which no compaction removes a file; once one did, no later session repairs the directory.
`LosingRun.LosingRun` is a run from an empty directory that loses a value.

## Windowed percentiles (`p-percentile-window`)

- `Observations.dfy`: the implementation that sorts on every query, and the stable sort all others are measured by.
- `Treap.dfy`, `TreapHeap.dfy`: the treap with its stored sizes, rotations and merge, as a value and as linked nodes.
- `Histogram.dfy`: the fixed-bin histogram and its error. A bin only drops expired timestamps at the front of its queue,
  which is exact for every cutoff if and only if the queue is ordered (`Histogram.AlwaysExactIffOrdered`).
- `PercentileRuns.dfy`: all three side by side.

## Time-window ring buffer (`otel/store.go`)

- `WindowedStore.dfy`: the ring buffer against an unbounded log of writes. Late writes to retained epochs are right; an
  older write destroys the newer window in its slot if there is one. `WindowedStore.RingShows` says what a retained epoch
  shows on any run. A first write at an epoch below -1 panics, and so does every write after it. `GetWindows` looks at the last n epochs, where its
  comment promises the last n non-empty windows; `WindowedStore.QueryPromiseIff` says exactly when these are the same, and
  `WindowedStore.FewerThanPromised` is an input on which they are not.

## Rate limiters (`rate-limiter`)

- `TokenBuckets.dfy`: token and leaky bucket, bisimilar over the reals, and their rate bound.
- `SlidingLog.dfy`: the sliding log against a plain count of everything ever admitted.

`Bytes.dfy` holds Go strings as byte sequences, their order and big-endian numbers; `Outcomes.dfy` the result types.

## Model

| member | source | states |
|---|---|---|
| Rga.LessTrichotomy | conflict-free-replicated-datatypes/crdt/rga.go:7-14 | `less` is a strict total order: exactly one of a<b, b<a, a=b (client IDs compared as byte strings) |
| Rga.LessTransitive | conflict-free-replicated-datatypes/crdt/rga.go:7-14 | `less` is transitive |
| Rga.LessMeans | conflict-free-replicated-datatypes/crdt/rga.go:7-14 | the timestamp decides; on equal ones the first different byte of the client IDs, or a shorter prefix |
| Rga.Landing | conflict-free-replicated-datatypes/crdt/rga.go:103-107 | the walk passes only larger IDs and stops at the end or before the first ID that is not larger |
| Rga.InsertAfterKeepsPlaced | conflict-free-replicated-datatypes/crdt/rga.go:92-114 | splicing behind the anchor and walking past larger IDs keeps the placement invariant for the new node and for every other node |
| Rga.DeleteKeepsPlaced | conflict-free-replicated-datatypes/crdt/rga.go:119-125 | tombstoning, of known or unknown IDs, keeps the placement invariant |
| Rga.PlacedIsUnique | conflict-free-replicated-datatypes/crdt/rga.go:92-97 | two lists over the same IDs and anchors that satisfy the invariant have the same order |
| AnchorTree.SubtreesAreContiguous | conflict-free-replicated-datatypes/crdt/rga.go:98-114 | if IDs grow along anchors, each node's descendants form one block directly behind it |
| AnchorTree.ListIsPreOrder | conflict-free-replicated-datatypes/crdt/rga.go:92-114 | if IDs grow along anchors, the list is the pre-order traversal of the anchor tree, larger siblings first; the traversal is defined from the set of nodes and their anchors alone |
| RgaHeap.RGA.constructor | conflict-free-replicated-datatypes/crdt/rga.go:57-63 | a new replica is well formed and holds only the sentinel |
| RgaHeap.RGA.InsertAfter | conflict-free-replicated-datatypes/crdt/rga.go:98-114 | equals the list insertion and keeps prev/next inverse and acyclic; panics exactly on an unknown anchor, changing nothing; the index stays a bijection if and only if the ID was not in use |
| RgaHeap.RGA.Insert | conflict-free-replicated-datatypes/crdt/rga.go:71-80 | the new timestamp is the clock reading if that is above lastIssued and lastIssued + 1 otherwise (with int64 wrap-around); inserts under it and the client ID, which must be new for the replica to stay well formed |
| RgaHeap.RGA.RemoteInsert | conflict-free-replicated-datatypes/crdt/rga.go:85-90 | a known ID is ignored, otherwise the same list insertion |
| RgaHeap.RGA.Delete | conflict-free-replicated-datatypes/crdt/rga.go:119-125 | sets exactly one tombstone; the sentinel and unknown IDs are left alone |
| RgaHeap.RGA.VisibleNodes | conflict-free-replicated-datatypes/crdt/rga.go:143-152 | the nodes without tombstone in list order |
| RgaHeap.RGA.Values | conflict-free-replicated-datatypes/crdt/rga.go:129-138 | the runes without tombstone in list order |
| Rga.ValuesMean | conflict-free-replicated-datatypes/crdt/rga.go:129-138 | the text is the visible nodes' runes, one by one |
| Convergence.ReplayReflects | conflict-free-replicated-datatypes/crdt/rga.go:85-125 | any sequence that does not panic, with unique IDs, leaves exactly the inserted nodes, placed, each as inserted and tombstoned if some delete came after its insert |
| Convergence.ConvergesIff | conflict-free-replicated-datatypes/crdt/rga.go:85-125 | two orders of the same operations that do not panic give the same nodes in the same places, and identical cells if and only if for every node inserted alive a delete came in time in both orders or in neither |
| Convergence.CausalReplayIsPreOrder | conflict-free-replicated-datatypes/crdt/rga.go:92-114 | with timestamps that respect causality a replica is the pre-order traversal of the tree of inserts |
| Convergence.DeliverableLosesNothing | conflict-free-replicated-datatypes/crdt/rga.go:98-125 | if each operation follows the one it refers to, every anchor is there and every delete comes in time |
| Convergence.OrderDoesNotMatter | conflict-free-replicated-datatypes/crdt/rga.go:85-125 | two admissible orders of the same operations, duplicates allowed, give identical cells, order and tombstones |
| Convergence.ValuesConverge | conflict-free-replicated-datatypes/crdt/rga.go:127-138 | and the same visible text |
| Convergence.ReplaySucceedsIff | conflict-free-replicated-datatypes/crdt/rga.go:98-102 | for any operations at all: no panic if and only if every insert finds its anchor or itself already present |
| Convergence.EarlyDeleteDiverges | conflict-free-replicated-datatypes/crdt/rga.go:116-125 | the smallest case: one insert and its delete, exchanged, end in different documents |
| OpCodec.DecodeEncoded | conflict-free-replicated-datatypes/crdt/op.go:40-106 | decoding an encoded operation gives it back with what is not transmitted set to zero, for all int64 timestamps and int32 runes |
| OpCodec.Layout | conflict-free-replicated-datatypes/crdt/op.go:28-65 | the message byte by byte: tag 1 or 2, IDs as big-endian two's complement timestamp, length byte and client ID, rune as four bytes; exactly unknown actions and client IDs above 255 bytes have none |
| Bytes.FourBytes | conflict-free-replicated-datatypes/crdt/op.go:117-122 | four-byte numbers, most significant byte first |
| Bytes.EightBytes | conflict-free-replicated-datatypes/crdt/op.go:117-122 | eight-byte numbers are their upper and then their lower four bytes |
| OpCodec.EncodeDecoded | conflict-free-replicated-datatypes/crdt/op.go:67-108 | whenever decoding succeeds, encoding the result gives exactly the same bytes: no truncation or trailing garbage is accepted |
| OpCodec.EncodingIsInjective | conflict-free-replicated-datatypes/crdt/op.go:38-65 | operations with the same encoding agree on everything transmitted |
| OpCodec.MarshalBinary | conflict-free-replicated-datatypes/crdt/op.go:40-65 | the appended buffer is the encoding |
| OpCodec.OpVariable.UnmarshalBinary | conflict-free-replicated-datatypes/crdt/op.go:69-108 | assigns the decoded operation, or reports an error and leaves the variable unchanged |
| Editor.Press | conflict-free-replicated-datatypes/ui/ui.go:105-142 | on the linked cells a key press has exactly the effect, cursor and broadcasts of the value model; the replica stays well formed if and only if a typed character got a new ID |
| Editor.Receive | conflict-free-replicated-datatypes/ui/ui.go:93-100 | on the linked cells a remote operation has exactly the effect of the value model |
| Editor.FindPrevVisible | conflict-free-replicated-datatypes/ui/ui.go:147-162 | the search loop finds the visible node before the cursor, or zero |
| Editor.FindNextVisible | conflict-free-replicated-datatypes/ui/ui.go:166-180 | the search loop finds the visible node after the cursor, or the cursor |
| CursorMoves.LeftMeans | conflict-free-replicated-datatypes/ui/ui.go:147-162 | from a visible cell to the nearest visible one in front, or the start; from a deleted cell always to the start |
| CursorMoves.RightMeans | conflict-free-replicated-datatypes/ui/ui.go:166-180 | from a visible cell to the nearest visible one behind, or nowhere; from a deleted cell nowhere |
| CursorMoves.KeysByCells | conflict-free-replicated-datatypes/ui/ui.go:105-142 | every key: the cells, the cursor, lastIssued and the broadcast operation, also with the cursor on a cell that the other peer deleted |
| Editor.MovesStayIndexed | conflict-free-replicated-datatypes/ui/ui.go:144-180 | cursor movements lead to zero or a known node |
| Editor.VisibleAround | conflict-free-replicated-datatypes/ui/ui.go:147-180 | a visible cell splits the visible nodes, and searching for its ID finds exactly that place |
| TextBuffer.KeyShows | conflict-free-replicated-datatypes/ui/ui.go:105-142 | each key moves the replica's text and cursor as it would move a text buffer's |
| TextBuffer.OfflineEditingIsPlainText | conflict-free-replicated-datatypes/ui/ui.go:105-180 | on every offline run nothing panics and the visible text is what a plain text buffer would hold |
| TwoPeers.LocalOp | conflict-free-replicated-datatypes/ui/ui.go:115-142 | a local edit keeps both peers' pending operations admissible and the same on both sides |
| TwoPeers.DeliverKeepsInv | conflict-free-replicated-datatypes/server/server.go:68-82 | the head of a queue always decodes, its anchor or target is already known, and applying it keeps the invariant |
| TwoPeers.RunKeepsInv | conflict-free-replicated-datatypes/ui/ui.go:56-72 | every interleaving of keys, cursor jumps and deliveries on both sides keeps the invariant and never panics |
| TwoPeers.TwoPeersAreSafe | conflict-free-replicated-datatypes/ui/ui.go:93-142 | in every reachable state both cursors are known, the next deliveries neither panic nor are lost, and delivering what is in flight makes the documents identical |
| TwoPeers.TwoPeersConverge | conflict-free-replicated-datatypes/README.md:35-36 | whenever both queues are empty the replicas hold identical cells and tombstones |
| TwoPeers.GarbageIsIgnored | conflict-free-replicated-datatypes/server/server.go:66-82 | malformed messages between the others make no difference |
| TwoPeers.SendAppends | conflict-free-replicated-datatypes/server/server.go:53-64 | broadcasts go behind what is queued, and operations without an encoding are dropped |
| TableFormat.EntriesOfEncoded | micro-cassandra/sstable.go:32-63 | for fields below 2^32 bytes, reading a written table returns exactly the entries written |
| Lsm.ReadsBackIff | micro-cassandra/sstable.go:44-63 | a written table reads back if and only if all its fields are below 2^32 bytes |
| TableFormat.EncodedEntries | micro-cassandra/sstable.go:117-140 | a readable file is the encoding of its entries, followed by nothing or by one dangling length |
| TableFormat.EntriesOfCut | micro-cassandra/sstable.go:117-184 | a table file cut at any byte yields exactly its complete entries if the cut is between entries or right behind the length of a non-empty key, and an error otherwise |
| TableFormat.ReadCutField | micro-cassandra/sstable.go:171-184 | a truncated field reads as EOF when nothing or exactly its length is left, as another error otherwise |
| TableFormat.Layout | micro-cassandra/sstable.go:55-63 | per entry the key and then the value, each behind the low 32 bits of its length, most significant byte first |
| TableFormat.ScanIsLookup | micro-cassandra/sstable.go:82-110 | on a sorted file the scan with its early exit answers as the map of the entries |
| TableFormat.ScanOfCut | micro-cassandra/sstable.go:82-110 | on a table file cut at any byte the scan finds what is in the complete entries, stops early behind the key's place, and otherwise fails unless the cut goes unnoticed |
| TableFormat.SortedIsUnique | micro-cassandra/memtable.go:44-55 | a map has only one sorted table |
| TableNames.NameOrder | micro-cassandra/db.go:205-221 | for sequence numbers below 10^8 the zero-padded names sort as the numbers, and are distinct |
| TableNames.NamesSortIff | micro-cassandra/db.go:205-221 | all names up to number n sort as their numbers if and only if n is below 10^8 |
| TableNames.NameBytes | micro-cassandra/db.go:205-209 | the bytes of a name: `sstable-`, eight decimal digits, `.sst` |
| TableNames.LongNameBytes | micro-cassandra/db.go:205-209 | from 10^8 on the number is written in full between the same prefix and suffix |
| TableNames.DecimalMeans | micro-cassandra/db.go:205-209 | namely with decimal digits only, no leading zero, standing for that number |
| Lsm.GetTablesIsLookup | micro-cassandra/db.go:115-124 | scanning tables from the newest is a lookup in their union, newer tables first |
| Lsm.NewestDecides | micro-cassandra/db.go:115-124 | the newest table that is missing, unreadable or has the key decides the lookup, whatever is behind it |
| Lsm.MergeIsTablesMap | micro-cassandra/sstable.go:142-169 | merging readable tables gives exactly the union of their keys with the newest values |
| Lsm.MergeFailsIff | micro-cassandra/sstable.go:148-158 | merging fails exactly if some table is missing or unreadable |
| Lsm.FailuresKeepState | micro-cassandra/db.go:92-203 | puts, closing and compaction fail before the merged file exactly on a taken name or an unreadable table; a failed put keeps its row, and nothing else changes |
| Lsm.OpenOrder | micro-cassandra/db.go:214-229 | opening lists the files by ascending number |
| LsmHeap.Directory.Write | micro-cassandra/sstable.go:32-63 | refuses an existing path, otherwise creates the file with the encoded entries |
| LsmHeap.Directory.Read | micro-cassandra/sstable.go:117-140 | the reading loop returns the file's entries or an error |
| LsmHeap.Directory.Find | micro-cassandra/sstable.go:82-110 | the scanning loop with its early exit |
| LsmHeap.Directory.Remove | micro-cassandra/db.go:231-241 | every removal is attempted; a failure is reported exactly if some path cannot be removed, is missing, or is repeated; all other paths are gone |
| LsmHeap.MergeEntries | micro-cassandra/sstable.go:148-169 | the loops with the seen set return the sorted table of the merged map, or an error if a table is unreadable |
| LsmHeap.SortedEntries | micro-cassandra/memtable.go:46-55 | collecting a map in arbitrary order and sorting gives its one sorted table |
| LsmHeap.LoadExisting | micro-cassandra/db.go:214-229 | lists the directory's table names in sorted order |
| LsmHeap.DB.constructor | micro-cassandra/db.go:55-68 | opens to the state of the value model |
| LsmHeap.DB.Put | micro-cassandra/db.go:92-100 | stores the row, flushes at the threshold, and reports a failed flush while keeping the row |
| LsmHeap.DB.Get | micro-cassandra/db.go:108-126 | the read path on the objects equals the value model's |
| LsmHeap.DB.Compact | micro-cassandra/db.go:135-171 | replaces the tables by the merged one, removes what can be removed, and tells an error before the merged file from one after it |
| LsmHeap.DB.FlushMemtable | micro-cassandra/db.go:190-203 | writes a new table under the next number and empties the memtable, or fails without changing anything |
| LsmHeap.DB.Close | micro-cassandra/db.go:177-185 | flushes a non-empty memtable |
| Sessions.PutRefines | micro-cassandra/db.go:92-100 | a put never fails, updates exactly one key of the map, and keeps the memtable below its threshold (at least one row) |
| Sessions.FlushedRows | micro-cassandra/memtable.go:30-36 | a put flushes exactly when the memtable reaches the threshold, and writes exactly that many rows, never less than one |
| Sessions.GetRefines | micro-cassandra/db.go:108-126 | a get answers as the plain map and never fails |
| Sessions.CompactRefines | micro-cassandra/db.go:128-171 | compaction always merges, leaves the map unchanged whichever old files stay behind, and reports exactly whether any did |
| Sessions.CloseRefines | micro-cassandra/db.go:172-185 | closing never fails and keeps the map |
| Sessions.ReopenKeepsView | micro-cassandra/db.go:214-229 | opening a closed store's directory, leftovers of interrupted removals included, gives the same map |
| Sessions.SessionRefines | micro-cassandra/db.go:92-171 | over any sequence of commands, compactions included, every answer is the plain map's |
| Sessions.SessionKeepsData | micro-cassandra/db.go:41-68 | on a directory in which no number exceeds the count of files, a whole session answers like a map and the next open finds that map |
| Reopening.DurableIffContiguous | micro-cassandra/db.go:214-229 | for each threshold separately: every session on a directory without empty tables keeps its data if and only if no file's number exceeds the number of files |
| Reopening.LosingSession | micro-cassandra/db.go:227-228 | otherwise, whatever the threshold, a session with a single put on a key of the newest file fails or is undone by the next open |
| Reopening.CompactNumbering | micro-cassandra/db.go:135-171 | a compaction that removes a file leaves an unused number below the newest; later ones never fill it, and one that removes nothing leaves none |
| Reopening.StaysContiguousIff | micro-cassandra/db.go:177-229 | a session leaves a directory in which no number exceeds the count of files if and only if none of its compactions removed a file |
| Reopening.SessionKeepsFilled | micro-cassandra/db.go:177-203 | a session, its closing included, leaves no empty table file where there was none |
| Reopening.NextSessionIsSafeIff | micro-cassandra/db.go:135-229 | after a session the next one keeps its data, with any threshold, if and only if no compaction of the first removed a file |
| SessionChains.ManySessions | micro-cassandra/db.go:41-68 | any number of sessions answers like one plain map that is never forgotten, as long as no file is removed before the last of them |
| SessionChains.StaysHigh | micro-cassandra/db.go:135-229 | no session on a directory in which some number exceeds the count of files repairs it |
| SessionChains.ChainStaysContiguousIff | micro-cassandra/db.go:135-229 | after any sessions no number exceeds the count of files if and only if none of them removed a file |
| SessionChains.ChainIsSafeIff | micro-cassandra/db.go:135-229 | after any sessions the next one keeps its data, with any threshold, if and only if none of them removed a file |
| LosingRun.CleanCompaction | micro-cassandra/db.go:135-171 | if all files are live and none is stuck, compaction leaves the merged file only |
| LosingRun.LosingRun | micro-cassandra/db.go:214-229 | from an empty directory: two puts, a compaction, a reopening and a put that is reported as stored, and the next open shows the old value |
| Observations.StableSortSorts | p-percentile-window/naive.go:35-43 | the reference order is sorted and keeps the recording order of equal latencies, with nothing lost |
| Observations.LiveOfStableSort | p-percentile-window/naive.go:28-32 | expiring and sorting commute |
| Observations.SortedLatencies | p-percentile-window/naive.go:36-43 | sorting bare latencies gives the latencies of the stable sort |
| Observations.SortIntsSorts | p-percentile-window/naive.go:42-43 | the sort yields an ascending list with the same number of occurrences of every value |
| Observations.NaiveWindowPercentile.Percentile | p-percentile-window/naive.go:26-47 | of the n observations after now-window at most (n-1)p have a latency below the answer and more than (n-1)p one that is not above it; zero if there are none |
| Observations.PercentileIsUnique | p-percentile-window/naive.go:42-46 | only one value is that |
| Observations.LiveMeans | p-percentile-window/naive.go:28-32 | exactly the observations after the cutoff are kept, each as often as recorded |
| Treap.InsertPlaces | p-percentile-window/treap.go:52-71 | inserting, rotations included, puts the observation behind all that are not larger |
| Treap.ExpireKeepsLive | p-percentile-window/treap.go:74-88 | deletion with merge keeps exactly the unexpired observations in order |
| Treap.MergeConcatenates | p-percentile-window/treap.go:133-150 | merging concatenates the in-order sequences |
| Treap.SelectIsIndex | p-percentile-window/treap.go:153-167 | selecting by rank through stored sizes is indexing the in-order sequence |
| Treap.InsertKeepsSizes | p-percentile-window/treap.go:100-130 | every stored size stays exact across rotations |
| Treap.ExpireKeepsSizes | p-percentile-window/treap.go:74-88 | every stored size stays exact across deletions |
| Treap.InsertKeepsHeap | p-percentile-window/treap.go:52-71 | parents keep at least their children's priority; a root that rises keeps children bounded by the old root |
| Treap.TiesKeepRoot | p-percentile-window/treap.go:52-71 | the root changes exactly if the new priority is larger, and then to the new node |
| Treap.MergedRoot | p-percentile-window/treap.go:133-150 | merging prefers the right root on equal priorities |
| Treap.ExpireKeepsHeap | p-percentile-window/treap.go:74-150 | heap order survives deletion and merging |
| Treap.TreapEqualsNaive | p-percentile-window/treap.go:184-201 | for every interleaving of records and queries, any times and priorities, the treap answers as the sorting implementation |
| TreapHeap.InsertNode | p-percentile-window/treap.go:52-71 | the in-place insertion equals the tree function and touches only this tree's nodes |
| TreapHeap.RotateNodeRight | p-percentile-window/treap.go:113-120 | the pointer rotation equals the tree rotation |
| TreapHeap.RotateNodeLeft | p-percentile-window/treap.go:123-130 | the pointer rotation equals the tree rotation |
| TreapHeap.MergeNodes | p-percentile-window/treap.go:133-150 | the in-place merge equals the tree function on disjoint trees |
| TreapHeap.ExpireNodes | p-percentile-window/treap.go:74-88 | the in-place deletion equals the tree function |
| TreapHeap.SelectByRank | p-percentile-window/treap.go:153-167 | the in-place selection equals the tree function |
| TreapHeap.TreapWindowPercentile.Percentile | p-percentile-window/treap.go:190-201 | expires, then answers from the tree; for any recorded observations that the tree holds the answer is their percentile, by the same counts |
| Histogram.PassingBin | p-percentile-window/histogram.go:91-101 | the bin in which the counts pass the rank is the bin of the exact percentile |
| Histogram.EdgeError | p-percentile-window/histogram.go:42-45 | the lower edge is at most the exact latency and less than one bin width below it inside the binned range |
| Histogram.EdgeMeans | p-percentile-window/histogram.go:42-75 | the edge is the multiple of the width at or below the latency; the last bin's beyond the range, zero just below zero |
| Histogram.BinsCoverRange | p-percentile-window/histogram.go:46-58 | the bins cover the configured range and the last one is needed |
| Histogram.ExpireBin | p-percentile-window/histogram.go:16-25 | expiring one bin's queue is expiring the observations in that bin |
| Histogram.FrontIsExactIff | p-percentile-window/histogram.go:16-25 | dropping the expired front leaves exactly the live timestamps if and only if no expired one stands behind a live one |
| Histogram.AlwaysExactIffOrdered | p-percentile-window/histogram.go:16-25 | that is so for every cutoff if and only if the queue is ordered |
| Histogram.ExpiryHoldsIff | p-percentile-window/histogram.go:76-83 | queues that hold the live observations still do after expiry if and only if none of them hides an expired timestamp |
| Histogram.AnswerIsLowerEdge | p-percentile-window/histogram.go:85-105 | with such queues the bin at which the counts pass the rank has the exact answer's lower edge |
| Histogram.HistogramWindowPercentile.Record | p-percentile-window/histogram.go:68-74 | the timestamp goes to the end of its bin's queue, beyond the range to the last bin's, in any order of times; a latency of minus one bin width or less panics |
| Histogram.HistogramWindowPercentile.Percentile | p-percentile-window/histogram.go:76-105 | queues that hold the live observations still do if and only if no expired timestamp is hidden, and then the answer is the lower edge of the bin of their percentile, by counts; the fallback behind the loop is unreachable |
| Histogram.HiddenGivesWrongAnswer | p-percentile-window/histogram.go:16-25 | an input on which a hidden timestamp makes the answer wrong: median 1 instead of 0 |
| PercentileRuns.RunAll | p-percentile-window/latency_test.go:9-59 | side by side on any run the treap answers exactly; if each bin receives its timestamps in order the histogram gives the exact answer's lower edge, never above an answer that is not negative and less than a bin width below it inside the configured range |
| WindowedStore.SlotsDiffer | otel/store.go:84-90 | epochs less than a full turn apart have different slots |
| WindowedStore.EpochMeans | otel/store.go:74-77 | from zero on epoch e covers the times from e to before e+1 durations; the last duration below zero still belongs to epoch 0 |
| WindowedStore.SeriesMeans | otel/store.go:119-125 | a series has a value in an epoch exactly if it was written there, and it is the last one written |
| WindowedStore.AdvanceKeepsFaithful | otel/store.go:107-118 | for any advance the eviction loop keeps every retained epoch readable and leaves no older one |
| WindowedStore.WriteKeepsFaithful | otel/store.go:119-124 | after a current or late write to a retained epoch every retained epoch still reads as the log |
| WindowedStore.StaleWriteDestroysIff | otel/store.go:119-124 | a write older than the retained epochs hides the retained epoch in its slot; all retained epochs still read as the log if and only if that epoch had no values |
| WindowedStore.SetFaithfulIff | otel/store.go:100-126 | one write, with its eviction, keeps every retained epoch reading as the log if and only if it is not older than them or hits a slot none of them has values in |
| WindowedStore.RingShows | otel/store.go:92-126 | on any run a retained epoch shows exactly what was written to it since its slot was last taken over |
| WindowedStore.RunReadsAsLog | otel/store.go:92-126 | on any run every retained epoch reads as the log if and only if what was written to it before its slot was last taken over has been written again since |
| WindowedStore.AlwaysRightIff | otel/store.go:92-126 | every retained epoch reads as the log at every moment of a run if and only if no write is older than the retained epochs and hits a slot one of them has values in |
| WindowedStore.Store.Set | otel/store.go:100-126 | in place, the slots become exactly those of the value model, under the epoch that covers `now`, with the same equivalence for what a query of a retained epoch sees; panics exactly a full duration before zero or earlier and after a first write at an epoch below -1, which it never recovers from |
| WindowedStore.FoundIsLogged | otel/store.go:147-163 | what the slots show of a range of epochs is what the log says, unless the query goes back beyond the retained ones and something is left there |
| WindowedStore.PromiseIff | otel/store.go:128-130 | of the log: the windows among the last n epochs are the last n stored windows if and only if each of these epochs has one or nothing older is stored |
| WindowedStore.QueryPromiseIff | otel/store.go:128-163 | the same of what a query finds in the slots |
| WindowedStore.FewerThanPromised | otel/store.go:128-163 | three slots after writes at epochs 0 and 2: both windows are in the slots, but a query for two at epoch 2 finds one |
| WindowedStore.WindowsAreLogged | otel/store.go:147-163 | every window is that of a retained epoch in range that has values, starting where the epoch does |
| WindowedStore.LoggedHasWindow | otel/store.go:147-163 | and none of these epochs is left out |
| WindowedStore.WindowsAscend | otel/store.go:146-163 | the windows come by time |
| WindowedStore.TotalMeans | otel/store.go:155-160 | the totals are per series, each the sum over the windows that have it |
| WindowedStore.Store.GetWindows | otel/store.go:135-166 | returns the log's windows for each non-empty retained epoch in range, and their sums; each starts at a multiple of the duration, not after `now` and within the last min(n, slots) windows; panics exactly if the range starts before epoch 0 |
| TokenBuckets.LimitersAgree | rate-limiter/tokenbucket/tokenbucket.go:45-69 | with equal parameters token and leaky bucket answer every call alike, whatever the keys and times |
| TokenBuckets.StepsComplement | rate-limiter/leakybucket/leakybucket.go:45-69 | tokens left and events queued always add up to the capacity |
| TokenBuckets.TokenLaw | rate-limiter/tokenbucket/tokenbucket.go:45-69 | with amount a at time t, a call at a later time is admitted if and only if capacity >= 1 and a + rate*(now-t) >= 1, and takes one token; a new bucket is full; time that runs backwards adds nothing |
| TokenBuckets.LeakyLaw | rate-limiter/leakybucket/leakybucket.go:45-69 | with level a at time t, a call at a later time is admitted if and only if capacity >= 1 and a - rate*(now-t) + 1 <= capacity, and adds one event; a new bucket is empty |
| TokenBuckets.TokenBucketBound | rate-limiter/tokenbucket/tokenbucket.go:1-6 | in any interval at most capacity + rate times its length of the calls for a key are admitted |
| TokenBuckets.LeakyBucketBound | rate-limiter/leakybucket/leakybucket.go:1-6 | the same bound for the leaky bucket |
| TokenBuckets.TokenLimiter.Allow | rate-limiter/tokenbucket/tokenbucket.go:45-69 | updates exactly the key's bucket as the value model does |
| TokenBuckets.LeakyLimiter.Allow | rate-limiter/leakybucket/leakybucket.go:45-69 | updates exactly the key's bucket as the value model does |
| SlidingLog.EvictIsExact | rate-limiter/slidinglog/slidinglog.go:65-69 | after eviction the live timestamps are exactly the admitted ones inside the window |
| SlidingLog.AllowIsExact | rate-limiter/slidinglog/slidinglog.go:53-84 | admitted if and only if fewer than the limit were admitted in (now-window, now]; compaction changes nothing that is live |
| SlidingLog.CompactMeans | rate-limiter/slidinglog/slidinglog.go:71-75 | nothing is copied while the dead part is shorter than half of the slice; otherwise exactly the live part is kept |
| SlidingLog.FreshLimiterIsExact | rate-limiter/slidinglog/slidinglog.go:1-9 | on every run every answer is the plain count's, and no slice outgrows twice the limit |
| SlidingLog.AllowedIff | rate-limiter/slidinglog/slidinglog.go:53-84 | on every run a call is admitted if and only if fewer than `limit` earlier admitted calls of its key lie in (now-window, now] |
| SlidingLog.LimitHolds | rate-limiter/slidinglog/slidinglog.go:37-39 | no window of the configured length, wherever it ends, holds more than `limit` admitted calls of a key |
| SlidingLog.Limiter.Allow | rate-limiter/slidinglog/slidinglog.go:53-84 | evicts, compacts and appends in place as the value model does |

## Left out

- ZeroMQ sockets, the terminal screen, drawing and `PostRemoteOp`: the network is a pair of reliable FIFO queues, and a
  key press or delivery is one atomic step.
- `moveByLine`, `layout` and `currentPos` (Up and Down keys): replaced by jumps to the start or to any visible node,
  which is all they can lead to.
- TwoPeers.TwoPeersConverge: assumes that clock readings stay far enough below 2^63 - 1 for `lastIssued + 1` not to wrap
  around; the wrap itself is modelled in `Rga.Successor`.
- File-system failures other than an existing path, a missing file and a failed removal; files in the storage directory
  that are not tables; the directory prefix of the paths.
- Sessions.SessionKeepsData: sequence numbers from 10^8 on, where file names stop sorting by number.
- Reopening.DurableIffContiguous: directories with an empty table file, which no session writes.
- Library calls (`sort.Slice`, `sort.Strings`, `slices.Sort`, `slices.DeleteFunc`) are modelled by insertion sort and a
  filter, Go slices grown by append as sequences.
- Floating point: percentile ranks, bucket amounts and counter values are reals. `Percentile` is modelled for p between
  0 and 1, as its interface demands.
- SlidingLog.FreshLimiterIsExact: times per key that do not run backwards, as the comment on the eviction loop assumes.
- WindowedStore.Store.Set: int64 overflow of the difference of two epochs, which needs windows of one nanosecond.
- Treap priorities and wall-clock readings are arbitrary inputs; saturation of `time.Time` subtraction, locks, `Stats`,
  `Dir` and `Name` accessors.
- `db-as-a-service`, the OTLP handler and client, and the fixed-window and sliding-window counters.
