# Verified model of the key-value engine

This project models, in Dafny 4.11, the two halves of the key-value store and proves them correct:
the in-memory (3,5) B+ tree that indexes the log (`src/btree.cpp`, `include/btree.h`) and the
log-structured engine on top of it (`src/engine.cpp`, `include/engine.h`).

`dafny verify dfyconfig.toml` checks everything.

## How the model is built

**The tree.** `Shape.BNode` is the source's node: a mutable object with `parent`, `key`, `child`,
`data`, `prev` and `next`. `BTrees.BTree` is the source's class; its methods follow the source branch
by branch and change the nodes in place: the shift loops, the `_tmp_idx` table of the virtual
insert, the recorded path `_hot_idx`, the cascades that move up the path, root growth and root
replacement. `delete` takes a node out of the ghost set `live` and makes its key, child and parent
fields arbitrary (for leaves that are merged away also data, prev and next), so no proof can rest on
a deleted node. Two ghost values go along: `shape`, the abstract tree that the nodes lay out, and,
inside the operations, a context (`Context.Ctx`): the tree with a hole at the node under repair, whose
recorded slots are the path.

`BTree.Valid()` is the invariant: the live nodes are exactly the nodes of `shape`, each once; the nodes
are laid out as `shape` says, with right parent links; `shape` is a search tree of equal leaf depth
with 2 to 4 keys in every node but the root, one child more than keys, and separators that are exact
above leaves; the leaves are chained both ways in key order; `size` is the number of entries. The source
calls the exact separator update "not neccesary" in two comments (src/btree.cpp:126, 387), yet the slot
arithmetic of src/btree.cpp:152 is safe only because of it: `TreeSteps.SlotPositive`.

Keys are byte strings under `std::string`'s order (`Keys.Less`); the proofs use an order embedding into
the reals (`Keys.Num`, shown exact by `Keys.LessIsNum`). A copy through `c_str()` is modelled by
`Keys.CStr`, the identity exactly on keys without a NUL byte; `Insert` requires such keys.

**The engine.** A file is a byte sequence; `Codec.Reader` and `Codec.Writer` stand for opened
streams with `fseek`/`fread`/`fwrite`, and the 8092-byte chunk loops work on them. `Engines.Engine` has
the source's fields; `history` is the ghost list of logged operations, and the value that each method
stands for is the plain map `Store()` that they make. `Engine.Readable()` says that the log starts with the
encoding of `history`, that the index is what replaying it gives, and that `logOffset` is where that
encoding ends; `Engine.Valid()` adds that nothing follows it. The constructor leaves a readable engine
whatever the log holds, so reads, scans and compaction are specified after recovery from a torn log too, and
compaction repairs it. Puts and removals have an exact effect on any readable engine, and are steps of the
plain map's engine on a valid one.

**Whole runs.** `Runs` follows a log through any sequence of puts, removals, compactions, reopenings and
crashes that cut it off at any byte; the methods of `Engine` are tied to its steps. `Validators` is the
repository's own test driver, which runs an engine object beside a `std::map` (`include/util/executor.h`).

**The locks.** `Protocol` is a state machine for any number of threads running put, remove, sync, get,
visit and compaction in small steps under `_mutex_gc`, `_mutex` and `_mutex2`; a lock is held by the
threads whose program counter lies between its acquisition and its release. `Linearization` shows that
every execution is explained by an atomic map, that compaction is invisible, and that no state is stuck; `Solo` shows that
operations run without interruption do to index, log and append offset what the methods of `Engine` ensure.

**What the words mean.** Each notion that contracts are stated in has a lemma that says it in bytes, numbers,
sequences and the heap, so that no two definitions can drift together: `Keys.LessMeans`, `Codec.FromBytesMeans`,
`Codec.RecordLayout`, `Codec.DecodeMeans`, `History.StoreMeans`, `Compaction.CompactMeans`,
`Ranges.DeliversMeans`, `BTree.MapIsHeap`, `Validators.KvMeans`, `Linearization.MapAfterMeans` and others.

## Where the code and its descriptions part

* `visit` delivers keys up to and including `upper`, and has no case for an empty `upper`, while the
  interface comment promises [lower, upper) with an empty bound meaning "to the end"
  (include/engine.h:57-61, src/engine.cpp:241). `Ranges.PromiseExact` gives the exact condition under
  which the two agree, `Ranges.PromiseBroken` a store on which they do not, and `Ranges.CountExact` does
  the same for the range that the repository's tests count (include/util/executor.h:97-109).
* After recovery from a torn log, appends go to the end of the file but offsets count complete
  records only (src/engine.cpp:38, 42, 147): the engine answers reads, but is ready for writes exactly if
  the log is not torn (`Engines.Engine.constructor`, `Runs.AppendAfterRecovery`); a compaction makes it
  ready again (`Engines.Engine.Gc`).
* Compaction opens `log(1)` for appending and counts offsets from 0 (src/engine.cpp:283-284): it leaves
  an engine whose appends land exactly if no such file was left over (`Engines.Engine.Gc`,
  `Runs.AfterStaleCompaction`).
* The repository's validator expects the counted range, so it rejects the engine on scans without an upper
  bound where a non-empty key is to be found. It also rejects every sync that works, because it takes the
  return code as a truth value (include/util/executor.h:270) and success is 0, and every snapshot
  (`Validators.EngineValidator.ValidateExecute`).
* Keys with a NUL byte are cut short by the moves through `c_str()`, while separators are not: after a borrow
  the separator differs from the first key on its right exactly for such keys (`LeafMoves.GiveToNext`,
  `Keys.CStr`).

## What callers owe

Keys given to `put` have no NUL byte; the log stays below 2^31 bytes, since offsets are kept in
`int`s. Lengths are 64-bit little-endian, as on the machines the source casts on; a value as long as
the removal mark 2^64 - 1 is thereby excluded.

## Files

| file | content |
|---|---|
| Keys, Shape | keys and their order; nodes, abstract trees, heap layout, structural invariants |
| Rebalance, Context, Repair | shifts, merges and splits on values; a tree with a hole; repairs seen from the parent |
| Layout, LeafMoves, InnerMoves, TreeMoves, LeafTrees | heap layout around a hole; the in-place moves, on nodes and on laid out trees |
| Contents, Descent, Relabel, Walk | order, map and size of a tree's contents; the search path; replacing data; walking the chain |
| TreeSteps, Reach, BTree | what the methods need to know of values; the nodes that child links lead to; the tree class |
| Codec, History, Compaction, Ranges, Runs | records; logs as operation lists; compacted logs; scans; whole runs with crashes |
| Engine, Validator | the engine class; the test driver |
| Protocol, Linearization, Solo | the lock protocol; its operations run alone |

## Model

| member | source | states |
|---|---|---|
| BTrees.BTree.Insert | src/btree.cpp:58-94 | from any valid tree, the map becomes map[key := data] and every invariant holds again; 1 is returned for a new key, 0 for a known one, and the size grows by that; only fresh nodes are added |
| BTrees.BTree.Remove | src/btree.cpp:101-137 | from any valid tree, the map loses exactly the key and every invariant holds again; 1 if it was there, 0 if not, and the size falls by that; no node is added |
| BTrees.BTree.Search | src/btree.cpp:47-51 | the datum of the key if it is present, -1 exactly if it is absent |
| BTrees.BTree.SearchPath | src/btree.cpp:18-45 | the leaf and slot where the key lives or must be inserted, and the true slot of every node on the path; exactly one node per level is visited |
| BTrees.BTree.constructor | src/btree.cpp:5-10 | an empty, valid tree of one fresh node |
| BTrees.BTree.Destroy | src/btree.cpp:12-16 | every live node is deleted, each once while still live, and none is left |
| BTrees.BTree.DeleteChild | include/btree.h:50-56 | exactly the nodes below the given one are deleted |
| BTrees.BTree.SolveOverflowLeaf | src/btree.cpp:140-264 | a full leaf takes one more entry: borrow left, borrow right or split with its cascade leave a valid tree with exactly that entry added |
| BTrees.BTree.OverflowToPrev | src/btree.cpp:144-164 | the leaf on the left takes the first entry: all entries are kept in order, separator and sizes are right again |
| BTrees.BTree.OverflowToNext | src/btree.cpp:165-195 | the leaf on the right takes the last entry, which may be the new one |
| BTrees.BTree.OverflowSplit | src/btree.cpp:196-264 | the leaf is split in two, chained, and the split cascades to the root if need be |
| BTrees.BTree.SolveOverflowInnode | src/btree.cpp:267-343 | an inner node with one key and child too many is split; the cascade ends and leaves a valid tree with the same entries and leaves |
| BTrees.BTree.AfterSplit | src/btree.cpp:321-342 | the parent takes the separator and the right half, is split in turn, or a new root is made |
| BTrees.BTree.SolveUnderflowLeaf | src/btree.cpp:346-465 | a leaf of two loses an entry: all four cases and their cascade leave a valid tree without exactly that entry |
| BTrees.BTree.UnderflowFromPrev | src/btree.cpp:354-371 | borrowing from the left keeps all other entries, and the separator equals the leaf's new first key |
| BTrees.BTree.UnderflowFromNext | src/btree.cpp:372-393 | borrowing from the right likewise; both separators around the leaf are exact again |
| BTrees.BTree.UnderflowMergePrev | src/btree.cpp:394-425 | merging into the leaf on the left: the tree is whole again without exactly the entry, and of the two it is the right leaf that is no longer live |
| BTrees.BTree.UnderflowMergeNext | src/btree.cpp:426-461 | merging with the leaf on the right likewise; it is the one that is no longer live |
| BTrees.BTree.SolveUnderflowInnode | src/btree.cpp:468-608 | an inner node left with one key is repaired by rotation or merge; the cascade ends and leaves a valid tree with the same entries and leaves |
| BTrees.BTree.RotateInnodePrev | src/btree.cpp:474-497 | rotation from the left keeps entries, leaves and separators' bounds |
| BTrees.BTree.RotateInnodeNext | src/btree.cpp:498-521 | rotation from the right likewise |
| BTrees.BTree.MergeInnodePrev | src/btree.cpp:522-543 | everything moves to the left sibling, exactly the emptied node is no longer live, and the parent is left to give up its slot |
| BTrees.BTree.MergeInnodeNext | src/btree.cpp:563-587 | everything moves from the right sibling likewise; it is the one that is no longer live |
| BTrees.BTree.ParentAfterMerge | src/btree.cpp:545-560 | the parent erases the slot, underflows in turn, or as an emptied root is replaced by its only child and deleted |
| BTrees.BTree.EraseInLeaf | src/btree.cpp:122-132 | a leaf that stays large enough loses the entry, and the separator follows its first key |
| BTrees.BTree.Separators | src/btree.cpp:127-131 | in the abstract tree of every valid tree a separator is above all keys on its left, not above any on its right, and above leaves equal to the first key on its right |
| BTrees.BTree.SeparatorsInHeap | src/btree.cpp:127-131 | the same over child links: above every key in a leaf below child i, not above any below child i + 1, and above leaves the first key of the latter |
| TreeSteps.SlotPositive | src/btree.cpp:152-161 | a new key that reaches a leaf with a left sibling never has slot 0, so the code's subtractions from the slot stay in range |
| BTrees.BTree.EachNodeOnce | src/btree.cpp:407-424 | a node is live if and only if a list of child indices leads to it from the root, and it is the only such list; every child of a live node is live |
| BTrees.BTree.NodeShape | include/btree.h:10-48 | every node has at most four keys and, but for the root, at least two; a leaf one datum for each key; another node one child more than keys, of which it is the parent |
| BTrees.BTree.LeavesLevel | include/btree.h:10-48 | a path from the root ends at a leaf exactly if it has as many steps as the tree is high |
| BTrees.BTree.MapIsHeap | src/btree.cpp:18-45 | the map holds a datum under a key exactly if some live leaf has both at one slot |
| BTrees.BTree.SizeBounds | include/btree.h:10-16 | the size is the number of keys in the map; with L = h + 1 >= 2 levels, 4 * 3^(L-2) <= size <= 4 * 5^(L-1) |
| Contents.HeightBounds | include/btree.h:10-16 | the same for every structurally valid tree |
| BTrees.BTree.Walkable | src/btree.cpp:204-207 | the chain holds the tree's leaves, each once, and exactly its entries, in strictly ascending key order |
| BTrees.BTree.LeafLinks | src/btree.cpp:204-207 | `next` and `prev` lead from live leaf to live leaf, and each back to where the other came from |
| BTrees.BTree.Position | src/btree.cpp:18-45 | the slot found splits the entries along the chain into those below the key and the others |
| BTrees.BTree.FirstLeaf | src/engine.cpp:277-279 | following first children from the root ends at the first leaf of the chain |
| BTrees.BTree.AssignData | src/engine.cpp:303-312 | the walk along the chain gives entry i the datum offsets[i], changes no key, and keeps the tree valid |
| LeafMoves.Unlink | src/btree.cpp:403-404 | taking a leaf out of the chain keeps all other links in order |
| LeafMoves.LinkAfter | src/btree.cpp:204-207 | linking a new leaf behind another keeps the chain in order |
| LeafMoves.BorrowFromPrev | src/btree.cpp:354-371 | the shift loop removes one entry, the borrowed one comes first, and the parent's key is updated |
| LeafMoves.BorrowFromNext | src/btree.cpp:375-392 | likewise from the right, with the second separator updated exactly when the first entry was removed |
| LeafMoves.GiveToPrev | src/btree.cpp:146-161 | for all keys: the shift loop inserts the new entry and the first one of all goes left, as it was if and only if it has no NUL byte |
| LeafMoves.GiveToNext | src/btree.cpp:167-193 | for all keys: the last of all entries, the new one included, goes right; the separator equals the key that arrives there if and only if it has no NUL byte |
| LeafMoves.TableReads | src/btree.cpp:199-201 | the `_tmp_idx` table reads the entries with the new one at its slot |
| LeafMoves.CopyUpper | src/btree.cpp:209-220 | the new leaf gets the upper part of the entries with the new one among them |
| LeafMoves.KeepLower | src/btree.cpp:223-238 | the early-ending loop leaves the lower part of the entries with the new one among them |
| LeafMoves.MergeIntoPrev | src/btree.cpp:397-402 | the loop appends all entries but the removed one to the leaf on the left |
| LeafMoves.MergeNext | src/btree.cpp:429-439 | the loops drop the removed entry and append everything in the leaf on the right |
| InnerMoves.BorrowKidFromPrev | src/btree.cpp:477-496 | the last child of the left sibling comes first, with its parent link; the key beside it is the leaf's first key or the parent's separator |
| InnerMoves.BorrowKidFromNext | src/btree.cpp:501-520 | likewise with the first child of the right sibling |
| InnerMoves.MergeKidsIntoPrev | src/btree.cpp:526-540 | the left sibling gets all children but the lost one, their parent links, and the key between |
| InnerMoves.MergeKidsNext | src/btree.cpp:567-584 | likewise from the right sibling |
| InnerMoves.MoveUpperKids | src/btree.cpp:277-303 | the new node gets the upper keys and children with the new ones among them, and their parent links; the middle key is returned |
| InnerMoves.KeepLowerKids | src/btree.cpp:304-319 | the early-ending loop leaves the lower keys and children with the new ones among them |
| InnerMoves.AppendKids | src/btree.cpp:534-540 | the loop moves all keys but one, with the children on their right, and their parent links |
| Descents.UpperBound | src/btree.cpp:24-27 | the position of the first key above the one searched for |
| Keys.LessIsNum | src/btree.cpp:26 | the string order is the order of the embedding, both ways |
| Keys.LessMeans | src/btree.cpp:26 | the first byte that differs decides, as an unsigned number; where none does the shorter key comes first |
| Keys.NumInjective | src/btree.cpp:35 | the embedding tells keys apart |
| Keys.CStr | src/btree.cpp:147 | the copy ends just before the first NUL byte, and is the key itself exactly if there is none |
| Rebalance.ShiftLeftInner | src/btree.cpp:498-521 | moving a child across a separator keeps the search structure, with the separator exact above leaves |
| Rebalance.ShiftRightInner | src/btree.cpp:474-497 | likewise to the right |
| Rebalance.MergeInner | src/btree.cpp:522-541 | two neighbours and the glue key between them form one search node |
| Rebalance.DivideInner | src/btree.cpp:267-319 | the two halves of an overfull node are neighbours around the middle key |
| Rebalance.MergeContents | src/btree.cpp:522-541 | a merge keeps entries and leaves in order and loses exactly one node |
| Contents.NotFound | src/btree.cpp:41-44 | a key that is not in the leaf it belongs to is nowhere in the tree |
| Contents.Outside | src/btree.cpp:18-45 | all keys elsewhere lie outside the bounds that lead to a leaf |
| Codec.FromBytesMeans | src/engine.cpp:99-110 | eight bytes stand for the sum of each times its power of 256, the first byte counting least |
| Codec.ToBytesMeans | src/engine.cpp:141-142 | each of the eight bytes written for a length, the least significant first |
| Codec.RecordLayout | src/engine.cpp:139-145 | a record is the key's length, the value's or eight bytes 255, the key, and the value |
| Codec.DecodeEncode | src/engine.cpp:94-116 | decoding an encoded put or remove, whatever follows it, gives it back |
| Codec.PrefixFails | src/engine.cpp:94-131 | no strict prefix of a record decodes |
| Codec.DecodedIsEncoded | src/engine.cpp:94-116 | what decodes is byte for byte a record that could have been written |
| Codec.DecodeMeans | src/engine.cpp:94-116 | bytes decode to an operation exactly if they start with its record |
| Codec.ReadNum | src/engine.cpp:118-131 | the chunk loop reads exactly the bytes asked for, or fails after whole chunks when the file is too short |
| Codec.LogLine | src/engine.cpp:52-64 | the chunk loop appends exactly the line |
| Codec.ReadKeyValue | src/engine.cpp:94-116 | reports exactly what decodes at the position, and moves past it |
| Codec.ReadLine | src/engine.cpp:66-83 | copies a decodable record byte for byte; of a record that is cut short, the bytes that whole reads give; the sum of the two lengths wraps at 64 bits |
| Codec.LineMeans | src/engine.cpp:66-83 | what is copied of any bytes, in full |
| History.TornTail | src/engine.cpp:24-50 | replaying any byte prefix of a log gives exactly the operations whose records it holds completely |
| History.CompleteExact | src/engine.cpp:33-47 | which those are: the longest run of records that fits the prefix |
| History.TornAgain | src/engine.cpp:24-50 | cutting any log, torn or not, at any byte cuts what its replay gives at the last record still complete |
| History.ParsedPrefix | src/engine.cpp:33-47 | replaying any bytes reads a prefix that re-encodes to itself, up to bytes that do not decode |
| History.ReplayWhole | src/engine.cpp:24-50 | replaying a whole log gives back what was written |
| History.IndexSound | src/engine.cpp:36-43 | every offset that replay indexes starts a complete put record of that very key with its latest value |
| History.IndexedIn | src/engine.cpp:183-204 | the same in a log where bytes that do not decode follow the records |
| History.StoreMeans | src/engine.cpp:33-47 | the log means: a key has the value of the last put of it that no other operation on it follows |
| History.IndexMeans | src/engine.cpp:36-43 | replay indexes a key where the record of that put starts |
| History.PutsAtMeans | src/engine.cpp:191-199 | an offset serves a key exactly if the bytes there are the record of its put |
| Compaction.CompactStore | src/engine.cpp:285-297 | the compacted log means the same map |
| Compaction.CompactNoLonger | src/engine.cpp:285-297 | the compacted log is never longer than the log it replaces |
| Compaction.CompactUnique | src/engine.cpp:285-297 | a map has only one compacted log |
| Compaction.CompactMeans | src/engine.cpp:285-297 | a log is compact exactly if it consists of just the puts of the map's pairs, in ascending key order |
| Compaction.PutsIndex | src/engine.cpp:293-298 | replaying the compacted log indexes each key at the cumulative offset |
| Ranges.PromiseExact | include/engine.h:57-61 | the range delivered equals the one promised, both spelled out, if and only if the upper bound, when not empty, is no stored key of the range, and, when empty, no key but the empty one is in the range |
| Ranges.PromiseBroken | src/engine.cpp:241 | a store on which they differ, both ways |
| Ranges.CountExact | include/util/executor.h:97-109 | the same comparison with the range that the tests count |
| Ranges.ScanDelivers | src/engine.cpp:234-257 | the entries from the first not below `lower` to the last not above `upper` are exactly the keys in range |
| Ranges.DeliversMeans | src/engine.cpp:240-252 | delivering a set of keys is delivering just their pairs, in ascending key order |
| Runs.StepKeeps | src/engine.cpp:134-182 | each command, a crash at any byte included, keeps replay right and does to the versions of the store what it does to a plain map's; a crash keeps just the first n bytes and loses exactly the operations whose records are cut; reopening changes nothing |
| Runs.WholeRun | src/engine.cpp:134-204 | after every sequence of put, remove, compaction, reopening and crash, replay gives the operations back and every indexed offset starts the right record; each command did to the file, byte for byte, and to the plain map what it should, and a crash at byte n kept just n bytes and the operations whose records end within them |
| Runs.PutAfterCrash | src/engine.cpp:38-42 | after a crash a put is possible on the log exactly if the crash cut it at the end of a record |
| Runs.CalmRun | src/engine.cpp:134-204 | without a crash the store is the plain map after the same commands, and the log is never torn |
| Runs.AppendAfterRecovery | src/engine.cpp:147-154 | after recovery from any log every put lands where the index says if and only if the log was not torn |
| Runs.AppendsExact | src/engine.cpp:147-154 | every put lands where the index says if and only if the append offset is the end of the file |
| Runs.AfterStaleCompaction | src/engine.cpp:283-317 | after a compaction into a file that was not empty some put misses; all reads are still right if and only if the new log starts with the compacted records all the same |
| Engines.Engine.constructor | src/engine.cpp:5-16 | opening any files replays the complete records and leaves an engine that answers reads; it is ready for writes, and all appends land, if and only if the log is not torn; opening is a reopening step, and a crash step from every log that starts with these bytes |
| Engines.WrittenReplayable | src/engine.cpp:24-50 | what was written can be opened, wherever it is cut off |
| Engines.Engine.RebuildBtree | src/engine.cpp:24-50 | the index is that of the complete records, and the append offset is the end of the last one |
| Engines.Engine.Put | src/engine.cpp:134-156 | the store becomes store[key := value], by one record at the end of the file, indexed at the append offset; the engine is valid afterwards exactly if it was before; the lock protocol's put, run alone, does the same |
| Engines.Engine.Remove | src/engine.cpp:157-182 | the store loses the key; nothing is logged when it was not there; the engine is valid afterwards exactly if it was before; the lock protocol's removal, run alone, does the same |
| Engines.Engine.Get | src/engine.cpp:183-204 | also after recovery from a torn log: the key's value in the plain map, or not found and the caller's string untouched; the fatal branch is never taken; the lock protocol's get, run alone, answers the same |
| Engines.Engine.Visit | src/engine.cpp:221-259 | also after recovery from a torn log: delivers exactly the stored pairs whose keys are not below `lower` and not above `upper`, ascending; the lock protocol's visit, run alone, delivers the same |
| Relabels.AssignChain | src/engine.cpp:304-312 | the nested loops along the chain give entry i the datum offsets[i] |
| Engines.Engine.FindStart | src/engine.cpp:230-235 | the scan starts at the first entry not below `lower`, also when that is past the end of the leaf found |
| Engines.Engine.ScanLeaf | src/engine.cpp:240-252 | within one leaf, the entries up to the first one above `upper` are delivered with the values their records hold |
| Engines.Engine.CopyLeaf | src/engine.cpp:286-295 | the records of one leaf are copied byte for byte, each offset noted where its record starts |
| Engines.Engine.CopyLive | src/engine.cpp:285-300 | the new log is one record per entry in chain order, and the offsets are where they start |
| Engines.Engine.Gc | src/engine.cpp:269-318 | from a torn log too: the new log is the compacted form of the store, no longer than the old one, the store is unchanged, the index is that of the new log, a second compaction changes nothing; the engine is ready for writes, and all appends land, if and only if no log(1) was left over; all reads are right if and only if the log starts with the compacted records; the lock protocol's compaction, run alone, does the same |
| Validators.EngineValidator.ValidateVisit | include/util/executor.h:67-114 | a scan passes if and only if it has an upper bound or nothing but the empty key is in range; nothing is said where the validator takes the distance of two iterators the wrong way round |
| Validators.EngineValidator.ValidateExecute | include/util/executor.h:236-288 | driving an engine object through any list of cases, every get, put, delete and compaction is answered as the validator's map expects, and does its step on the log, compaction leaving the compacted one; the run stops only at a scan of the kind above, at a sync that works, or at a snapshot |
| Validators.KvMeans | include/util/executor.h:38-65 | the validator's map holds the last put of a key that no deletion follows, or what it held before |
| Validators.ExpectedMeans | include/util/executor.h:236-288 | when each kind of case passes, in full |
| Validators.CountsAgree | include/util/executor.h:90-113 | the number of keys delivered is the number counted in the validator's map exactly in those cases |
| Protocol.NextExclusive | src/engine.cpp:272-273 | no step lets a lock be held in two conflicting ways |
| Protocol.HeldBetween | src/engine.cpp:188-189 | each lock is taken at one step of an operation, given back at another, and held in between |
| Protocol.GrantedIf | src/engine.cpp:272-303 | a waiting thread gets its lock exactly if no other holds it in a conflicting way: readers share, writers do not |
| Solo.PutAlone | src/engine.cpp:134-156 | a put that nothing interrupts always returns; what it leaves is exactly one record more at the end of the log, indexed at the append offset |
| Solo.RemoveAlone | src/engine.cpp:157-182 | a removal likewise: one removal record and the key out of the index, or nothing at all |
| Solo.GetAlone | src/engine.cpp:183-204 | a get that nothing interrupts always returns, changes nothing, and answers the key's value or nothing |
| Solo.VisitAlone | src/engine.cpp:221-259 | a visit that nothing interrupts always returns, changes nothing, and delivers just the pairs from `l` to `u`, ascending |
| Solo.GcAlone | src/engine.cpp:269-318 | a compaction that nothing interrupts always returns, and can leave exactly the compacted log of the same store, its index, and the append offset at its end |
| Linearization.NextRefines | src/engine.cpp:188-189 | every step keeps the protocol's invariant and is a step of the atomic map or none |
| Linearization.Linearizable | src/engine.cpp:146-200 | in every execution of any number of threads the completed operations, in the order of their effects, are a legal history of a map |
| Linearization.AnswersRight | src/engine.cpp:157-259 | in every execution a get answers the key's value in the map that the events before it build, or nothing; a visit delivers just that map's pairs from `l` to `u`, ascending; a removal reports whether the key was there |
| Linearization.MapAfterMeans | src/engine.cpp:146-179 | that map holds what the last put of a key put there, unless a removal of the key follows |
| Linearization.ExecutionGrows | src/engine.cpp:134-318 | an execution goes on with every step that the protocol allows |
| Linearization.EffectBetween | src/engine.cpp:146-200 | in every execution each put, remove, get and visit takes effect at exactly one step between its call and its return, with its own arguments; sync and compaction at none |
| Linearization.EffectAtMostOnce | src/engine.cpp:146-200 | an operation that has not returned has taken effect at most once |
| Linearization.EffectSoFar | src/engine.cpp:146-200 | an operation still under way in some state of an execution has taken effect at one step or none, and at none exactly if its effect is still to come |
| Linearization.MutualExclusion | src/engine.cpp:303-312 | in every state of every execution: while leaf data is overwritten no other thread reads or writes it, one thread at a time changes the index, and one at a time compacts |
| Linearization.WalksAgree | src/engine.cpp:285-312 | in every execution, the second walk of a compaction lists the leaves afresh and goes along the keys of the first in the same order |
| Linearization.NoDeadlock | src/engine.cpp:272-303 | whenever an operation is under way, one under way can move |

## Left out

- Real files: `fopen` failures and a null `FILE*`; whether `fsync` works is a parameter of `Engine.Sync`.
- Power loss and crash points inside one call; a process crash is a log cut off at any byte. Between `std::remove` and `std::rename` no log exists, and nothing is claimed for a crash there.
- `snapshot`, which returns nothing, `_pair_vector`, `_pair_addr` and `pair_comp`, which nothing uses, and `show_tree` and `show_key`, which only log.
- The validator's loop stops at a failed check, where the source aborts.
- `std::async`: in the lock protocol compaction is a thread of its own; the validator goes on when it is finished, as the future that `garbage_collect` drops waits for it. Visitors that call back into the engine are outside the model; `visit` returns what it would pass to the visitor.
- The mock persister, the benchmarks, generators and scripts.
- Linearization.Linearizable: a reader's keys are looked up in one step and its offsets and records read one at a time; the node-level steps of search, insert and remove inside one critical section are the tree's methods and not interleaved.
- BTrees.BTree.Destroy: deletes nodes of the model's heap; that C++ frees the vectors inside a node with it is not modelled.
