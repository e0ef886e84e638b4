# A verified model of the transactional key-value store

The store runs transactions over versioned keys. This project models the parts in which its
correctness is decided and proves what they keep and what they promise:

* **Timestamp oracle** (`RedBlack*.dfy`, `IntervalTree.dfy`, `TimestampOracle.dfy`, `Executor.dfy`).
  A red-black tree in an index arena with parent links, changed in place by rotations and
  recolouring; an in-order search over it that stops early; the greatest read timestamp per
  interval; and the bump that lifts a write timestamp to at least all recorded reads. The tree is proved
  against a plain list of the recorded reads. Proofs look at the tree from the node that is worked
  on: a path up to the root and the subtree below (a zipper), tied to the arena by `Zip`.
* **Latch B+ tree and latch manager** (`Latch*.dfy`). `LatchTrees` is the tree as a value with its
  invariants and what insertion keeps; `LatchRows`, `LatchDelete` and `LatchTreeDelete` do the same for
  deletion, at a leaf, on the way down, and as a whole. The classes of `LatchNodes` and `LatchBTree`
  change shared nodes in place and are proved to do what the values do: insertion as a whole, deletion
  up to a leaf and its parent, and every repair of an inner node. `LatchManager` and `LatchGrant` are a
  state machine over the steps of concurrent requests, with a set of keys for the tree; `LatchLimits`
  is the same machine over the real tree, and `LatchFive` decides when the two agree.
* **Deadlock detection** (`TxnWaitQueue.dfy`, `LiveDeadlock.dfy`): pushes, queries and finalized transactions in any order.
* **Lock table** (`LockTable.dfy`, `LockPromises.dfy`): holder, reservation, queued writers and waiting
  readers of a key; who is told to wait, who is served, and at which write timestamp.
* **Multi-version storage** (`MvccKey.dfy`, `Storage.dfy`, `MvccIterator.dfy`, `MvccReads.dfy`,
  `MvccScanner.dfy`, `MvccAnswers.dfy`, `Mvcc.dfy`, `Requests.dfy`, `WriteRequest.dfy`): key encoding and
  comparator, iterator, scanner, what reads and scans should return and when they do, reads and writes,
  the life of an intent from put to abort or commit, and what commits do to earlier reads. RocksDB is replaced by a sequence sorted by the comparator.

`Keys.dfy`, `Timestamps.dfy` and `Txn.dfy` hold the shared values. Classes stand for the structures
that the program updates in place; each method is tied to a function on values, about which the
lemmas speak. A call that the program does not survive (`panic!`, `todo!`, `unwrap` of nothing) is
an outcome (`Panic`, `Panicked`, or a result that says so), or a precondition next to a lemma that
says exactly when it happens.

## What turned out false

Each of these comes with an input and with the exact condition under which the code does what is wanted.

* A read or scan whose start key is not stored looks at the last entry of the store instead
  (`MvccReads.ReadOfMissingKey`), and a scan stops at a key that has only newer versions
  (`MvccReads.ScanPastHiddenKey`). Exact: `MvccAnswers.ScanAnswersIff`, `MvccReads.GetIsExactIff`.
* The book (chapter 3, "Dealing with Anomalies") lets a read ignore another transaction's newer
  intent and return the newest older version. The code then returns nothing
  (`Requests.NewerIntentHidesVersions`). Exact, for stored and missing keys: `Requests.ExecuteGet`.
* The book (chapter 5, "Timestamp Oracle") wants a write timestamp greater than any read of the key.
  The bump reaches the greatest read but does not pass it (`Executors.BumpStopsAtTheRead`). Exact:
  `Executors.BumpAboveReadsIff`; `WriteRequests.CommitKeepsReads` says which reads a commit changes.
* After a transaction is finalized, a detected deadlock need not be one (`LiveDeadlocks.DetourIsFalse`).
  Exact: no detection is false in any later run without further finalizations, or with such of idle
  transactions only, if and only if what waiting pushes have recorded still leads to their pushees
  (`LiveDeadlocks.LaterDetectionsAreRealIff`). That holds as long as transactions are finalized only
  while they wait for nobody (`LiveDeadlocks.DetectionIsALiveCycle`). The answer to a detection is never
  of that kind: the aborted pushee waits itself (`LiveDeadlocks.AnsweredTransactionWaits`), and a second,
  false detection can follow (`LiveDeadlocks.AnswerCausesAFalseDetection`).
* `update_locks` panics on a lock that is only reserved, for instance when a transaction is
  finished twice, as by a commit after an abort (`LockTables.SecondUpdatePanics`). Exact:
  `LockTables.WhenLockIsFreePanics`.
* A request that gets a lock is meant to have its write timestamp bumped past the last commit. The
  timestamp is set, not raised: a writer at (9, 0) behind a commit at (5, 0) goes on at (5, 1)
  (`LockPromises.ClaimCanLower`). Exact: it does not drop if and only if it was not beyond the next
  timestamp after the commit (`LockPromises.ClaimRaisesIff`). It lies above the commit unless the logical
  time wraps around (`LockPromises.GrantedAboveLastCommit`).
* The comment on `get_max_timestamp` promises the transaction to which all reads at the maximum
  belong; two reads of one transaction are not named (`TimestampOracles.OneTransactionTwice`).
  Exact: `TimestampOracles.IdIsPromisedIff`. It also promises a low-water timestamp where nothing
  overlaps; the code returns nothing then.
* The latch manager is meant to give each key to one guard at a time. It does so, and its releases come
  to an end, as long as it holds at most four latches. With five, two guards can share a key
  (`LatchFives.FiveShare`: 0 to 4 are latched, 3 is released, and 2 is granted again), a release can wait
  for a lock that it holds itself (`LatchFives.FiveHang`) and `delete_key` can panic
  (`LatchFives.FivePanic`). On its way back up `delete_helper` takes the index of the edge that it went
  down from a child for the index of the child, so that the tree need not be searchable any more; with
  the right index the repair keeps its order (`LatchTreeDeletes.RightIndexKeepsLine`). Exact:
  `LatchFives.HowManyLatches`. In trees of any depth, a deletion that gives up its locks above the
  parent of the leaf is right (`LatchTreeDeletes.LocalDeletionKeeps`), as in every tree of two levels.
* `delete_key` panics when it is given a parent, the leaf has keys to spare, and there is no larger key
  in it or next door (`LatchDeletes.DirectCallPanics`; exact: `LatchRows.Deletes`). From a well-formed
  tree no call by `delete_helper` does so (`LatchDeletes.DeleteHelperNeverPanics`), but from three levels
  on the program's own deletions leave the well-formed trees and get there (`LatchFives.FivePanic`).
* A request for a latched key is meant to wait. It panics unless the key is the first of its leaf, as
  there are waiters for one key only (`LatchFives.TwoCrash`; exact: `LatchBTrees.BTree.Insert`).
* An abort deletes the intents on all keys that the transaction has ever locked. A second abort, which
  the server accepts, can delete another transaction's (`Requests.SecondAbortLosesAPut`). Exact:
  `Requests.AbortSparesOthersIff` and, over runs, `Requests.SecondAbortIsHarmlessIff`.

Two more can happen only in direct calls, which the program does not make:

* A query of the interval tree that ends before it starts can miss intervals. Exact, with the
  input in the proof: `IntervalTrees.WalkIsCompleteIff`. All spans of requests have equal ends.
* `acquire` never returns for a request that names a key twice, while every other request can be
  granted (`LatchGrants.CanBeGrantedIff`). Get and put name one key, commit and abort remove
  duplicates.

The comment on `steal_from_right_leaf_sibling` calls the stolen key the new split key for ancestors.
It is the largest key of the leaf, so it is the smallest one only in a leaf with a single key, as
for order 3. The comment on `delete_helper` wants a node to stay locked if one of its keys is
deleted; it does so exactly for its last key (`LatchDeletes.EdgeKeyIsLast`).

## Model

| member | source | states |
|---|---|---|
| RedBlackTree.RbTree.InsertNode | src/llrb/llrb.rs:177-238 | insertion keeps a black root, no red node with a red child, equal black counts, mutual links and all nodes in one tree; the in-order list is the old one with the new interval in front of those that do not start before it; the search looks at no more than 2*log2(n+1) nodes |
| RedBlackTree.RbTree.FindPlace | src/llrb/llrb.rs:181-199 | the descent ends at the only place where the key keeps the order, visiting no more nodes than the tree is high |
| RedBlackTree.RbTree.FixInsert | src/llrb/llrb.rs:287-344 | a tree whose only fault is one red-red conflict becomes a red-black tree with the same entries in the same order; the loop terminates because the conflict moves up or is resolved |
| RedBlackTree.RbTree.Recolor | src/llrb/llrb.rs:298-303 | recolouring parent, uncle and grandparent moves the conflict two levels up and keeps contents and black counts |
| RedBlackTree.RbTree.ResolveRight | src/llrb/llrb.rs:304-316 | inner and outer rotation of a right-hand conflict leave no conflict and the same contents |
| RedBlackTree.RbTree.ResolveLeft | src/llrb/llrb.rs:325-337 | the same for the left-hand cases |
| RedBlackTree.RbTree.RightRotate | src/llrb/llrb.rs:240-260 | the link updates amount to the rotation as defined on the arena |
| RedBlackTree.RbTree.LeftRotate | src/llrb/llrb.rs:262-285 | the same to the left |
| RedBlackTree.RbTree.SetLeft | src/llrb/llrb.rs:121-144 | makes parent and left child link each other and unhooks the child and the old left child from where they were |
| RedBlackTree.RbTree.SetRight | src/llrb/llrb.rs:146-169 | the same on the right |
| RedBlackArena.RotateRightZip | src/llrb/llrb.rs:240-260 | after a right rotation the arena holds the rotated tree in the same surroundings |
| RedBlackArena.RotateRightContent | src/llrb/llrb.rs:240-260 | a right rotation keeps the in-order list and the set of indices |
| RedBlackArena.RotateLeftZip | src/llrb/llrb.rs:262-285 | after a left rotation the arena holds the rotated tree in the same surroundings |
| RedBlackArena.RotateLeftContent | src/llrb/llrb.rs:262-285 | a left rotation keeps the in-order list and the set of indices |
| RedBlackArena.LinksInverse | src/llrb/llrb.rs:121-169 | every node of the tree is the parent of its children and a child of its parent |
| RedBlackArena.ArenaIsLinked | src/llrb/llrb.rs:121-285 | in an arena with one tree over all its nodes all links are mutual, and only the root has no parent |
| RedBlackShapes.PlugBalanced | src/llrb/llrb.rs:453-500 | a balanced subtree in a balanced surrounding gives a red-black tree |
| RedBlackShapes.UnplugBalanced | src/llrb/llrb.rs:453-500 | conversely, a red-black tree splits at any node into a balanced subtree and a balanced surrounding |
| RedBlackShapes.SameBlackCount | src/llrb/llrb.rs:482-500 | any two walks from the root to a NIL meet equally many black nodes |
| RedBlackShapes.HeightIsLogarithmic | src/llrb/llrb.rs:181-199 | a red-black tree with n entries is at most 2*log2(n+1) high |
| RedBlackShapes.InsertBeforeSorted | src/llrb/llrb.rs:181-199 | inserting an entry where the search puts it keeps the list sorted by start key |
| RedBlackShapes.InsertBeforeElements | src/llrb/llrb.rs:177-238 | the list after an insertion holds the old entries and the new one |
| IntervalTrees.OverlapIsIntersection | src/interval/interval_tree.rs:15-36 | on well-formed intervals the overlap test says whether two closed intervals share a key |
| IntervalTrees.WalkFindsAllHits | src/interval/interval_tree.rs:55-98 | on a list sorted by start key the early stop loses no overlapping interval |
| IntervalTrees.WalkIsCompleteIff | src/interval/interval_tree.rs:48-98 | queries are complete for every sorted content exactly if they do not end before they start |
| IntervalTrees.WalkConcat | src/interval/interval_tree.rs:55-98 | a walk over two lists is a walk over the first and, unless that gave up, over the second |
| IntervalTrees.IntervalTree.Insert | src/interval/interval_tree.rs:44-46 | adds one interval and keeps all others |
| IntervalTrees.IntervalTree.GetOverlap | src/interval/interval_tree.rs:48-53 | returns exactly the stored intervals that overlap the query, in order |
| IntervalTrees.IntervalTree.CollectOverlappingNodes | src/interval/interval_tree.rs:55-98 | the recursion over the arena collects what a walk over the in-order list does, and reports when it is over |
| TimestampOracles.MaxReadUnique | src/timestamp_oracle/oracle.rs:82-104 | the greatest read with its transaction is determined by the reads alone |
| TimestampOracles.NextMaxCorrect | src/timestamp_oracle/oracle.rs:88-102 | one round of the loop extends the maximum to one more read; the transaction is kept only while a single read attains it |
| TimestampOracles.IdIsPromisedIff | src/timestamp_oracle/oracle.rs:73-104 | the transaction is named as the comment says unless several reads share the maximum and all belong to one transaction |
| TimestampOracles.OneTransactionTwice | src/timestamp_oracle/oracle.rs:88-102 | two reads of one transaction at the same timestamp, and no transaction named |
| TimestampOracles.HitsPermute | src/timestamp_oracle/oracle.rs:82-104 | overlapping reads are the same in whatever order the reads are stored |
| TimestampOracles.TimestampOracle.Add | src/timestamp_oracle/oracle.rs:61-70 | the index agrees with the plain list of recorded reads after one more read |
| TimestampOracles.TimestampOracle.UpdateCache | src/timestamp_oracle/oracle.rs:38-59 | records one read per span of a request |
| TimestampOracles.TimestampOracle.GetMaxTimestamp | src/timestamp_oracle/oracle.rs:82-104 | the maximum over all recorded reads that overlap the interval, with the transaction only if exactly one read attains it |
| Executors.BumpPastReads | src/execute/executor.rs:119-145 | a timestamp lifted to the maximum lies at or above every recorded read of the spans |
| Executors.SummarizeNext | src/execute/executor.rs:125-138 | the maxima collected so far dominate all reads of the spans seen so far |
| Executors.Executor.CollectMaxTimestamps | src/execute/executor.rs:122-138 | every recorded read of the spans is at or below one of the collected timestamps, and each is that of a read |
| Executors.Executor.BumpWriteTimestamp | src/execute/executor.rs:119-145 | the write timestamp ends at or above every recorded read of the written spans, never below its old value, and is raised only to a recorded read |
| Executors.BumpAboveReadsIff | src/execute/executor.rs:137-145 | after the bump the write timestamp is strictly above all recorded reads of the spans if and only if it was before |
| Executors.BumpStopsAtTheRead | src/execute/executor.rs:137-145 | a write at the timestamp of a recorded read stays there |
| WriteRequests.ExecuteWriteRequest | src/execute/executor.rs:119-150 | a whole write request: its intent carries a timestamp at or above every recorded read of the key, all other entries stay, and the lock is taken; it conflicts exactly with another pending transaction's intent, which it names, and panics exactly at an intent of a finished one or at another's lock; a failed one leaves locks alone, and the store unless another holds the lock |
| WriteRequests.SpanIsKey | src/execute/request.rs:380-384 | the reads of the span that a put declares are the reads of its key |
| WriteRequests.NewestIsNewest | src/storage/mvcc_iterator.rs:119-150 | the answer to a seek is the newest version that is not newer than the read |
| WriteRequests.ReadIsKeptIff | src/storage/mvcc.rs:297-312 | a new version leaves a read as it was exactly if the read is older, another version lies between, or the same version was there |
| WriteRequests.CommitKeepsReadIff | src/execute/request.rs:249-279 | any puts and then the commit leave a read of a key as it was exactly if the key was not written, the read is older, another version lies between, or the same version was there |
| WriteRequests.CommitKeepsReads | src/execute/executor.rs:119-177 | a transaction that commits at or above all recorded reads of the keys it has written changes, of these reads, exactly those at its commit timestamp |
| WriteRequests.CommittedWriteKeepsReads | src/storage/mvcc.rs:297-312 | the same for the version of one key on its own |
| LatchTrees.InsertIsGood | src/latch_manager/latch_interval_btree.rs:882-978 | for odd order, insertion below a node keeps leaf depth, occupancy and separators, splits only a full node, and acquires exactly if the key was absent |
| LatchTrees.RootInsert | src/latch_manager/latch_interval_btree.rs:880-983 | the same for the whole tree, whose depth grows exactly if the root splits; its ranges are the old ones and the acquired one |
| LatchTrees.InnerSplit | src/latch_manager/latch_interval_btree.rs:438-466 | the halves of an inner node and the median respect separators and bounds |
| LatchTrees.LeafSplit | src/latch_manager/latch_interval_btree.rs:830-860 | the halves of a leaf and the new separator respect left < separator <= right |
| LatchTrees.SeparatorPosition | src/latch_manager/latch_interval_btree.rs:205-218 | a separator from inside a slot is inserted at that slot and keeps the separators sorted |
| LatchTrees.OnlyInItsSlot | src/latch_manager/latch_interval_btree.rs:888-908 | a key can be stored only below the child to which the search descends |
| LatchTrees.RangesWithin | src/latch_manager/latch_interval_btree.rs:882-978 | all keys below a node lie within the bounds given by the separators above it |
| LatchTrees.InsertAll | src/latch_manager/latch_interval_btree.rs:980-983 | every sequence of insertions into an empty tree gives a well-formed tree |
| LatchTrees.FirstComeFirstServed | src/latch_manager/latch_interval_btree.rs:500-533 | after any insertions the leaves hold, per start key, exactly the first range inserted with it |
| LatchTrees.StartsSeen | src/latch_manager/latch_interval_btree.rs:500-533 | a key is latched exactly if it was inserted at some time |
| LatchTrees.SafeChildNeverSplits | src/latch_manager/latch_interval_btree.rs:907-920 | a child that is not full does not split, so its parent may be dropped |
| LatchBTrees.BTree.Insert | src/latch_manager/latch_interval_btree.rs:980-983 | on shared nodes changed in place: acquires exactly if the start key was absent, adds just that range, and keeps the whole tree well-formed; a refusal panics exactly if the key is not the first of its leaf |
| LatchBTrees.BTree.InsertHelper | src/latch_manager/latch_interval_btree.rs:882-978 | the recursion over shared nodes does what insertion on values does; a new root is made only if the old one splits |
| LatchBTrees.BTree.InsertBelow | src/latch_manager/latch_interval_btree.rs:907-922 | with or without the parent passed on, the split of a child ends in its parent, and siblings are untouched |
| LatchBTrees.BTree.SplitUp | src/latch_manager/latch_interval_btree.rs:923-943 | an overfull inner node becomes two, and the upper half is handed to the parent or a new root |
| LatchNodes.InternalNode.InsertNode | src/latch_manager/latch_interval_btree.rs:205-218 | key and edge go to the position of the first greater key |
| LatchNodes.InternalNode.Split | src/latch_manager/latch_interval_btree.rs:438-466 | the median separates the keys and edges of both halves, none is lost |
| LatchNodes.InternalNode.StealFromLeftSibling | src/latch_manager/latch_interval_btree.rs:276-305 | edges and separators of both nodes and the parent keep their left-to-right order; one key changes sides exactly if the sibling has one to spare |
| LatchNodes.InternalNode.StealFromRightSibling | src/latch_manager/latch_interval_btree.rs:307-328 | the same with the right sibling |
| LatchNodes.InternalNode.MergeWithSibling | src/latch_manager/latch_interval_btree.rs:364-400 | the joined node holds both nodes with the parent's separator between them, which the parent loses |
| LatchNodes.InternalNode.DealWithUnderflow | src/latch_manager/latch_interval_btree.rs:406-436 | which repair is chosen, that each keeps the left-to-right order, and that for odd order a merger stays within the bounds |
| LatchLines.LineConcat | src/latch_manager/latch_interval_btree.rs:364-400 | two nodes joined by a separator list their edges and separators one after the other |
| LatchLines.LineShift | src/latch_manager/latch_interval_btree.rs:276-328 | moving an edge across the separator does not change that list |
| LatchNodes.LeafNode.InsertRange | src/latch_manager/latch_interval_btree.rs:500-533 | refuses exactly a start key that is there, with a panic unless it is the first one, and else inserts before the first greater key |
| LatchNodes.LeafNode.Split | src/latch_manager/latch_interval_btree.rs:830-860 | both halves together are the old leaf; the smallest key on the right is returned |
| LatchNodes.LeafNode.RemoveKey | src/latch_manager/latch_interval_btree.rs:554-564 | removes the range of the key from both vectors, and reports exactly whether there was one |
| LatchNodes.LeafNode.StealFromLeftLeafSibling | src/latch_manager/latch_interval_btree.rs:643-665 | exactly if the left leaf has a key to spare, its last range moves over and the separator follows |
| LatchNodes.LeafNode.StealFromRightLeafSibling | src/latch_manager/latch_interval_btree.rs:615-641 | exactly if the right leaf has a key to spare, its first range moves over and the separator named by the direction follows; on the left of its separator the leaf stays in order |
| LatchNodes.LeafNode.MergeNode | src/latch_manager/latch_interval_btree.rs:674-727 | two neighbouring leaves become one and the parent loses an edge and the separator; for an only child, and only then, the panic |
| LatchNodes.LeafNode.FindNextLargestKey | src/latch_manager/latch_interval_btree.rs:730-750 | the next larger key here or next door, or the panic if there is none |
| LatchNodes.LeafNode.Refill | src/latch_manager/latch_interval_btree.rs:786-815 | which of the repairs happens, or the panic for an only child, for all siblings of the leaf |
| LatchNodes.LeafNode.DeleteKey | src/latch_manager/latch_interval_btree.rs:764-824 | with a parent, over all its leaves: removes exactly the key, keeps separators valid and, for odd order, all leaves between order/2 and order-1 keys; which leaf ends up with what; names the replacement key and the exact panic. Without a parent: removes exactly the key |
| LatchNodes.LeafNode.DeleteBelow | src/latch_manager/latch_interval_btree.rs:774-818 | the same for a leaf with a parent, and which child the parent loses |
| LatchDeletes.EdgeKeyIsLast | src/latch_manager/latch_interval_btree.rs:1044-1055 | on the way down a node notices that one of its separators is deleted exactly if that is the last one |
| LatchDeletes.DescendIsGood | src/latch_manager/latch_interval_btree.rs:1009-1085 | the descent passes a parent on only to a leaf that has no key to spare or holds no key below the one to be deleted |
| LatchDeletes.DeleteHelperNeverPanics | src/latch_manager/latch_interval_btree.rs:1001-1090 | from a well-formed tree no call that `delete_helper` makes reaches the panics of `delete_key`; a leaf without a parent keeps enough keys unless it is the root |
| LatchDeletes.DirectCallPanics | src/latch_manager/latch_interval_btree.rs:729-749 | two leaves of order 3 and a direct call that panics |
| LatchTreeDeletes.DeleteFromLeafInOrder | src/latch_manager/latch_interval_btree.rs:764-824 | on values, for all leaves of a parent that respect its separators: what `delete_key` leaves, and exactly when it panics |
| LatchTreeDeletes.WhatIsHandedUp | src/latch_manager/latch_interval_btree.rs:764-824 | the key that `delete_key` returns: the smallest greater key in all leaves of the parent from a leaf with a key to spare, the stolen key if it came from the right, and else none |
| LatchTreeDeletes.DeleteEndsAs | src/latch_manager/latch_interval_btree.rs:1001-1090 | in trees of any shape a deletion makes the one call of `delete_key` that the way down leads to, panics if that does, and hands up its key, if it does not fail on the way back |
| LatchTreeDeletes.LocalDeletionKeeps | src/latch_manager/latch_interval_btree.rs:1001-1123 | in a well-formed tree of any depth and odd order, a whole deletion that keeps no lock above the parent of the leaf removes exactly the range of its key and leaves a well-formed tree |
| LatchTreeDeletes.TwoLevelsAreLocal | src/latch_manager/latch_interval_btree.rs:1049-1084 | in a tree of at most two levels every deletion is of that kind |
| LatchTreeDeletes.NothingToDelete | src/latch_manager/latch_interval_btree.rs:1001-1123 | in a well-formed tree of any depth, deleting a key that is not latched changes nothing |
| LatchTreeDeletes.RightIndexKeepsLine | src/latch_manager/latch_interval_btree.rs:406-436 | with the index of its own edge, the repair of an inner node keeps edges and separators in their left-to-right order |
| LatchTreeDeletes.RightIndexRestoresSizes | src/latch_manager/latch_interval_btree.rs:406-436 | then a child that is one key short, and every other one, ends within the bounds; a child disappears exactly if no neighbour has a key to spare |
| LatchRows.ShiftRightKeeps | src/latch_manager/latch_interval_btree.rs:643-665 | taking from the left keeps order, separators and contents |
| LatchRows.ShiftLeftKeeps | src/latch_manager/latch_interval_btree.rs:615-641 | taking from the right keeps order, separators and contents |
| LatchRows.JoinKeeps | src/latch_manager/latch_interval_btree.rs:674-727 | joining two leaves keeps order, separators and contents |
| LatchRows.RefillDeletes | src/latch_manager/latch_interval_btree.rs:764-824 | removal and repair together take away one range and restore the bounds |
| LatchRows.SuccessorAfterDrop | src/latch_manager/latch_interval_btree.rs:730-750 | the key that takes the place of a deleted one is the smallest greater key in all leaves of the parent |
| LatchManagers.StepInv | src/latch_manager/latch_manager.rs:23-82 | every step keeps the latch set equal to the disjoint union of what the requests hold |
| LatchManagers.RunInv | src/latch_manager/latch_manager.rs:23-82 | so it is in every reachable state, over all interleavings of inserts, timeouts, back-offs, retries and releases |
| LatchManagers.MutualExclusion | src/latch_manager/latch_manager.rs:23-76 | two guards never share a key |
| LatchManagers.GuardCoversSpans | src/latch_manager/latch_manager.rs:68-76 | while a guard is out, all its keys are latched and nobody else holds one of them |
| LatchManagers.RefusalHasAHolder | src/latch_manager/latch_manager.rs:33-40 | a latch is refused only while some request holds it |
| LatchManagers.NothingLeaks | src/latch_manager/latch_manager.rs:53-82 | when all requests are done no latch is left |
| LatchManagers.DuplicateKeysAreNeverGranted | src/latch_manager/latch_manager.rs:23-76 | a request that names a key twice never gets a guard |
| LatchGrants.WaitingCanBeGrantedIff | src/latch_manager/latch_manager.rs:23-82 | from every reachable state, whatever the others hold: a request that is still acquiring its keys, or gives them back after a timeout, can get its guard later if and only if it names no key twice |
| LatchGrants.CanBeGrantedIff | src/latch_manager/latch_manager.rs:23-76 | so can a new request, from every reachable state |
| LatchLimits.LowStep | src/latch_manager/latch_manager.rs:16-82 | with at most four latches a step over the real tree is the step over the set, and the tree stays well-formed with at most two levels |
| LatchLimits.SplitNeedsFour | src/latch_manager/latch_interval_btree.rs:923-943 | a root over leaves of order 3 splits only if they hold four latches |
| LatchFives.FewerActAsSet | src/latch_manager/latch_manager.rs:16-82 | every run with at most four latches is a run over the set, and no release hangs or panics |
| LatchFives.FiveShare | src/latch_manager/latch_interval_btree.rs:1067-1084 | a run with five latches in which two guards hold the same key |
| LatchFives.FiveHang | src/latch_manager/latch_interval_btree.rs:406-436 | a run with five latches in which a release asks for the lock on the node that it is repairing |
| LatchFives.FivePanic | src/latch_manager/latch_interval_btree.rs:729-749 | a run with five latches in which a release panics |
| LatchFives.TwoCrash | src/latch_manager/latch_interval_btree.rs:500-515 | a run with two latches in which a refused request panics |
| LatchFives.HowManyLatches | src/latch_manager/latch_manager.rs:16-82 | runs with at most m latches are runs over a set exactly for m <= 4; two guards can share a key, a release can hang, and a release can panic, each exactly for m >= 5; a refused request can panic exactly for m >= 2 |
| TxnWaitQueues.TxnWaitQueue.EnqueueAndPush | src/txn_wait/txn_wait_queue.rs:116-141 | the push is queued behind the earlier pushes of its pushee |
| TxnWaitQueues.TxnWaitQueue.QueryDependents | src/txn_wait/txn_wait_queue.rs:254-301 | the push learns all dependents of its pusher, and a cycle is reported exactly if its pushee is among them |
| TxnWaitQueues.TxnWaitQueue.FinalizeTxn | src/txn_wait/txn_wait_queue.rs:153-173 | wakes exactly the pushes queued for the transaction and forgets them |
| TxnWaitQueues.QueueInOrder | src/txn_wait/txn_wait_queue.rs:116-173 | in every run the queue of a transaction holds, in order of arrival, exactly the pushes that came since the transaction was last finalized |
| TxnWaitQueues.RunSound | src/txn_wait/txn_wait_queue.rs:116-301 | in every run, also with finalizations, each recorded dependent reaches the pusher along waits-for edges enqueued at some time |
| TxnWaitQueues.DependentsReach | src/txn_wait/txn_wait_queue.rs:254-276 | whatever a query returns waits, directly or not, for the transaction asked about |
| TxnWaitQueues.DetectionIsACycle | src/txn_wait/txn_wait_queue.rs:218-222 | without finalizations a detection is a cycle of pushes that all wait now |
| TxnWaitQueues.DetectionAfterFinalize | src/txn_wait/txn_wait_queue.rs:153-173 | a run with one finalized transaction in which a deadlock is reported that does not exist |
| LiveDeadlocks.RunLiveSound | src/txn_wait/txn_wait_queue.rs:116-301 | while only transactions that wait for nobody are finalized, all that waiting pushes have recorded leads to their pushees along pushes that wait now |
| LiveDeadlocks.DetectionIsALiveCycle | src/txn_wait/txn_wait_queue.rs:218-222 | in every such run a detection is a cycle of pushes that all wait at that moment |
| LiveDeadlocks.LaterDetectionsAreRealIff | src/txn_wait/txn_wait_queue.rs:116-301 | from any reachable state, whatever has been finalized: no later run comes to a false detection if and only if what waiting pushes have recorded leads to their pushees now |
| LiveDeadlocks.DetourIsFalse | src/txn_wait/txn_wait_queue.rs:153-173 | the spurious detection after one finalized transaction closes no cycle of waiting pushes |
| LiveDeadlocks.AnsweredTransactionWaits | src/txn_wait/txn_wait_queue.rs:218-240 | the pushee that is aborted after a true detection always waits itself |
| LiveDeadlocks.AnswerCausesAFalseDetection | src/txn_wait/txn_wait_queue.rs:218-240 | a run in which a true detection is answered by that abort and another push then detects a deadlock that is gone |
| TxnWaitQueues.DeadlockIsDetected | src/txn_wait/txn_wait_queue.rs:254-301 | on a waits-for cycle of n pushes, after n-1 rounds of queries in any order every push reports the deadlock at its next query |
| TxnWaitQueues.PusheeAmongDependents | src/txn_wait/txn_wait_queue.rs:281-301 | after n rounds every push on the cycle has its own pushee among its dependents |
| LockTables.StepInv | src/lock_table/lock_table.rs:152-185 | every operation keeps: never both held and reserved, no readers waiting at a lock that is not held, no writers queued at a free lock |
| LockTables.RunInv | src/lock_table/lock_table.rs:476-663 | so it is in every reachable lock state |
| LockTables.WhenLockIsFreePanics | src/lock_table/lock_table.rs:476-492 | a finishing request never reaches the panics of `lock_is_free`; a finishing transaction does exactly at a lock that is reserved, which its own lock is not |
| LockTables.SecondUpdatePanics | src/lock_table/lock_table.rs:385-437 | a reachable lock on which finishing a transaction for the second time panics |
| LockTables.WhenAcquirePanics | src/lock_table/lock_table.rs:333-369 | acquiring panics exactly if another transaction holds or has reserved the lock |
| LockTables.WhoWaits | src/lock_table/lock_table.rs:581-644 | a reader waits exactly for another transaction's intent that is not newer than the read, a writer exactly for another holder or reservation |
| LockTables.StepForgetsNobody | src/lock_table/lock_table.rs:152-663 | after any operation, whoever waited is still queued, has been woken by it, or is the one that finished |
| LockTables.NobodyIsForgotten | src/lock_table/lock_table.rs:152-663 | so it is over every run: whoever is queued is queued at the end, or has been woken since, or is done since |
| LockTables.FinishForgetsNobody | src/lock_table/lock_table.rs:650-663 | a finished guard is in no queue, and no other guard is dropped |
| LockTables.HistoryInOrder | src/lock_table/lock_table.rs:476-663 | every operation keeps queue and grants in the order in which writers joined |
| LockTables.RunInOrder | src/lock_table/lock_table.rs:476-663 | in every run each writer that joined is queued, granted or gone, in order of arrival |
| LockTables.NoOvertaking | src/lock_table/lock_table.rs:476-520 | once a writer is granted the lock, all that joined before it were granted it earlier or are gone |
| LockTables.HowToLeaveTheQueue | src/lock_table/lock_table.rs:554-663 | a queued writer leaves only by being first and getting the reservation, or by `request_done` |
| LockTables.DirectClaim | src/lock_table/lock_table.rs:595-606 | a request claims the lock at once only if it writes and nobody waits |
| LockPromises.WaitingIsQueued | src/lock_table/lock_table.rs:581-644 | a request is told to wait exactly if it is then queued by this call, a reader behind the other readers, a writer behind the other writers |
| LockPromises.WhoWaitsIsServed | src/lock_table/lock_table.rs:152-663 | in every run whoever was told to wait at some moment is queued at the end, has been woken since, or has finished since |
| LockPromises.WhoIsWoken | src/lock_table/lock_table.rs:476-543 | any operation wakes exactly all readers, in order, if the lock is given up, and then the one for whom it reserves the lock: the first writer, or a request that finds none; a reservation ends exactly when it is used, given up, or set aside by a discovered intent |
| LockPromises.WhoHolds | src/lock_table/lock_table.rs:152-437 | the holder changes only by acquiring, by the end of its own transaction, and by the discovery of an intent at a lock without a holder |
| LockPromises.DiscovererIsQueued | src/lock_table/lock_table.rs:152-185 | whoever discovers an intent is queued, a reader behind the readers, a writer behind the writers, and nobody else moves |
| LockPromises.CollectableIff | src/lock_table/lock_table.rs:385-437 | after the end of a transaction a lock is collectable exactly if nobody holds it, has reserved it or waits for it |
| LockPromises.ReservationIsGivenUpIff | src/lock_table/lock_table.rs:650-663 | a finished guard has the reservation afterwards exactly if it had it and was the first of the writers again |
| LockPromises.LastCommitIsKnown | src/lock_table/lock_table.rs:385-437 | in every run the recorded commit timestamp is that of the last commit by a holder, and there is none exactly if no holder has committed |
| LockPromises.GrantedAboveLastCommit | src/lock_table/lock_table.rs:526-543 | the write timestamp of whoever gets the lock becomes the least one above the last commit, and above it exactly without a wrap-around; no other write timestamp changes |
| LockPromises.ClaimRaisesIff | src/lock_table/lock_table.rs:530-543 | getting the lock does not lower a write timestamp if and only if it was at most the next after the last commit |
| LockPromises.ClaimCanLower | src/lock_table/lock_table.rs:530-543 | a run in which a waiting writer goes on at a lower write timestamp |
| LockTables.LockState.TryWait | src/lock_table/lock_table.rs:581-644 | whether the request waits; the new lock state, in which it is queued if it does; and the write timestamps, which change only for a request that gets the lock at once |
| LockTables.LockState.FreeLock | src/lock_table/lock_table.rs:476-520 | wakes all readers in order and reserves the lock for the first writer, whose write timestamp becomes the next after the last commit; collectable exactly if nobody is left |
| LockTables.LockState.FinishRequest | src/lock_table/lock_table.rs:650-663 | gives up the reservation if the guard has it, takes the guard off all queues, and does not panic; the write timestamp of the writer that is served next, and no other, changes |
| LockTables.LockState.ClaimTheReservation | src/lock_table/lock_table.rs:526-543 | reserves, wakes the guard and sets its write timestamp to the next after the last commit |
| LockTables.LockTable.Acquire | src/lock_table/lock_table.rs:333-369 | the lock of the key is held and its reservation used up, or the program panics exactly at another's lock or reservation; other locks are unchanged |
| LockTables.LockTable.Update | src/lock_table/lock_table.rs:385-437 | releases the lock of a finished transaction and only that, records the commit, says whether it can be collected, or panics exactly at a lock that is only reserved; write timestamps change for the writer that is served next alone |
| LockTables.LockTable.AddDiscovered | src/lock_table/lock_table.rs:152-185 | a discovered intent makes its transaction the holder, and the request queues |
| Timestamps.TimestampOrder | src/hlc/timestamp.rs:11-35 | the order of timestamps with (0, 0) as greatest is total, and only equal timestamps are equal for it |
| Timestamps.TimestampMeaning | src/hlc/timestamp.rs:17-35 | wall time decides, then logical time, and (0, 0) is greater than all others |
| Timestamps.NextLogicalIsNext | src/hlc/timestamp.rs:51-56 | the next logical timestamp is the least greater one, except that it wraps around after the last logical time |
| Keys.LtMeaning | src/storage/mod.rs:14 | byte strings are in dictionary order: a proper prefix comes first, otherwise the first difference decides |
| MvccKeys.DecodeEncode | src/storage/mvcc_key.rs:83-131 | decoding an encoded key gives the key back, for every byte key, u64 wall time and u32 logical time |
| MvccKeys.EncodeDecode | src/storage/mvcc_key.rs:99-131 | a byte string decodes exactly if it is an encoding, and encodes back to the same bytes |
| MvccKeys.IntegerRoundTrip | src/storage/mvcc_key.rs:92-97 | little-endian bytes give back every integer that fits |
| MvccKeys.BytesRoundTrip | src/storage/mvcc_key.rs:123-131 | and integers give back the bytes they were read from |
| MvccKeys.ByteWeight | src/storage/mvcc_key.rs:92-97 | the byte at position i counts 256 to the i-th |
| MvccKeys.EncodedParts | src/storage/mvcc_key.rs:77-97 | an encoding is the key, 8 bytes of wall time, 4 bytes of logical time and "mvcc" |
| MvccKeys.StorageOrder | src/storage/storage.rs:51-81 | on encoded keys the comparator sorts by key, then intent first, then newest first, and calls only equal bytes equal |
| MvccKeys.StorageOrderOfOthers | src/storage/storage.rs:51-81 | if one of two byte strings does not decode they are compared byte by byte; for any two, swapping reverses the answer |
| MvccKeys.BeforeOrder | src/storage/storage.rs:51-81 | this is a strict total order |
| Storages.PutKeeps | src/storage/storage.rs:95-100 | a put keeps the order and changes what is found under its key only |
| Storages.DeleteKeeps | src/storage/storage.rs:102-109 | a delete keeps the order and makes only its key disappear |
| Storages.SameStore | src/storage/storage.rs:51-81 | sorted stores in which every key leads to the same are equal |
| MvccIterators.MVCCIterator.Next | src/storage/mvcc_iterator.rs:52-73 | moves one entry on or, behind the last, becomes invalid |
| MvccIterators.MVCCIterator.SeekGe | src/storage/mvcc_iterator.rs:119-150 | stops at the first entry of the key that is not newer; without one it reports so but stands at the last entry |
| MvccReads.ReadingMeaning | src/storage/mvcc_scanner.rs:105-159 | the first visible entry of a key is its intent or, without one, its newest version not newer than the read |
| MvccReads.TakenIsReading | src/storage/mvcc_scanner.rs:105-181 | from the first entry of a key a scan takes the reading of the key if and only if there is one |
| MvccReads.ScanFromIsExactIff | src/storage/mvcc_scanner.rs:62-92 | from there on a scan takes a prefix of the readings, and all of them exactly if no hidden key comes before one of them |
| MvccReads.ScanIsExactIff | src/storage/mvcc_scanner.rs:62-92 | a scan takes exactly the readings of its range, in key order up to the limit, if and only if it is reliable; missing start keys included |
| MvccReads.ScanReturnsReadingsIff | src/storage/mvcc.rs:99-120 | the same for the results and intents that are returned |
| MvccAnswers.AnswerIsUnique | src/storage/mvcc.rs:99-120 | the committed readings and the intents of a range in key order, cut off by the limit, are one list each |
| MvccAnswers.GatheredIsAnswer | src/storage/mvcc_scanner.rs:62-92 | collecting the reading of each key in the range up to the limit gives these lists |
| MvccAnswers.ScanAscends | src/storage/mvcc_scanner.rs:62-92 | a scan takes entries of ascending keys, reliable or not |
| MvccAnswers.ScanAnswersIff | src/storage/mvcc.rs:99-120 | what a scan returns is in ascending key order, and is exactly the committed readings and intents of its range, up to the limit, if and only if the scan is reliable |
| MvccReads.GetIsExactIff | src/storage/mvcc.rs:67-93 | a read is exact exactly if the key is stored, the store is empty, or its last entry has a greater key or is a too new version |
| MvccReads.ReadOfMissingKey | src/storage/mvcc_iterator.rs:128-149 | a read of a missing key that returns the value of another key |
| MvccReads.ScanPastHiddenKey | src/storage/mvcc_scanner.rs:164-181 | a scan that misses a key after one with only newer versions |
| MvccReads.OutputTells | src/storage/mvcc_scanner.rs:105-159 | two scans that return the same have taken the same entries |
| MvccScanners.MVCCScanner.Scan | src/storage/mvcc_scanner.rs:62-92 | the loop over the stateful iterator collects results and intents of exactly the entries that the scan takes, and no more results than the limit |
| MvccScanners.MVCCScanner.GetCurrentKey | src/storage/mvcc_scanner.rs:105-159 | takes the intent or a version of the current key, or leaves the iterator at the last entry |
| MvccScanners.MVCCScanner.SeekOlderVersion | src/storage/mvcc_scanner.rs:164-181 | takes the first version of the key that is old enough |
| MvccScanners.MVCCScanner.AdvanceToNextKey | src/storage/mvcc_scanner.rs:183-201 | moves to the first entry of another key |
| MvccAnswers.ExactReadIsRight | src/storage/mvcc.rs:67-93 | an exact read returns the intent of the key or else its newest visible version, or nothing if there is neither |
| MvccAnswers.NewestUnique | src/storage/mvcc.rs:67-93 | a key has at most one newest visible version |
| Mvccs.KVStore.MvccGet | src/storage/mvcc.rs:67-93 | for every stored key: its intent if it has one, otherwise its newest version at or below the timestamp, or nothing |
| Mvccs.KVStore.MvccScan | src/storage/mvcc.rs:99-120 | results and intents in ascending key order, no more results than the limit; they are exactly the committed readings and intents of the range, up to the limit, if and only if the scan is reliable |
| Mvccs.KVStore.MvccDelete | src/storage/mvcc.rs:95-97 | removes one entry |
| Mvccs.KVStore.MvccGetUncommitedValue | src/storage/mvcc.rs:214-233 | finds the intent on a key exactly if there is one, with its transaction's state |
| Mvccs.WhatPutReturns | src/storage/mvcc.rs:158-176 | a put conflicts exactly with the intent of another pending transaction, and names it; it panics exactly on an intent without record, on another finished transaction's, or without any timestamp |
| Mvccs.KVStore.MvccPutRaw | src/storage/mvcc.rs:144-212 | conflicts exactly if another pending transaction's intent lies on the key, names that intent and changes nothing; else one entry is new, under the intent key or the timestamp, with the value; only a plain write at (0, 0) spoils the store |
| Mvccs.KVStore.MvccResolveIntent | src/storage/mvcc.rs:297-312 | the transaction's own intent becomes a version at the commit timestamp; another's stays; only a commit at (0, 0) spoils the store |
| Requests.PutsAreDone | src/storage/mvcc.rs:144-212 | after any puts of a transaction, each key without a foreign intent carries its last value as an intent, these keys are the locked ones, and the rest is unchanged |
| Requests.AbortRestores | src/execute/request.rs:161-199 | any puts followed by an abort restore the store exactly |
| Requests.AbortSparesOthersIff | src/execute/request.rs:177-180 | an abort spares all intents of other transactions if and only if no locked key carries one |
| Requests.SecondAbortIsHarmlessIff | src/execute/request.rs:161-199 | puts, abort, another transaction's puts and the abort again change nothing more if and only if the two have locked no key in common |
| Requests.SecondAbortLosesAPut | src/execute/request.rs:161-199 | a run in which the second abort takes away the other transaction's put |
| Requests.CommitPublishes | src/execute/executor.rs:168-177 | any puts followed by resolution leave one version per written key at the commit timestamp with the last value, no intent, and everything else unchanged |
| Requests.ConflictsLeaveNoTrace | src/storage/mvcc.rs:158-176 | any puts of a transaction have the effect of those alone that meet no foreign intent |
| Requests.WhoConflicts | src/storage/mvcc.rs:158-176 | at every moment of a run a put fails exactly if its key carried an intent in the beginning, and is a conflict exactly if that intent's transaction is pending |
| Requests.ExecutePut | src/execute/request.rs:387-424 | store, lock and lock spans after a put request; it conflicts exactly with another pending transaction's intent, which it names; failed puts change nothing, and the program panics with the intent written exactly at another's lock |
| Requests.UpdateTxnLocks | src/concurrency/concurrency_manager.rs:90-99 | every lock of the transaction is updated once, others not at all, unless one of them panics; write timestamps change for the writers that are served |
| Requests.ExecuteAbort | src/execute/request.rs:161-199 | unless the transaction has committed: its intents are gone, its locks released and those who wait for it woken, with the write timestamps of the writers that are served, and when the locks panic |
| Requests.ResolveIntentsForTxn | src/execute/executor.rs:168-177 | the intents on all locked keys are resolved at the write timestamp |
| Requests.ExecuteGet | src/execute/request.rs:335-366 | one's own write, an error for another's intent that is not newer, and else the newest visible version, exactly if no newer intent hides one and a missing key is not mixed up with the last entry; the key joins the read set unless there is an error |
| Requests.NewerIntentHidesVersions | src/storage/mvcc_scanner.rs:105-141 | a store in which a newer intent keeps a read from the version it should see |
| Txns.Txn.AppendLockSpan | src/storage/txn.rs:88-94 | the key is listed, and no key is listed twice |

## Left out

- `BTree::delete` in place as a whole: shared nodes are changed in place up to a leaf with its parent and by every repair of an inner node; the recursion over them is modelled on values, for any depth.
- Even orders of the B+ tree: an inner split or merger leaves the occupancy bounds. The latch manager uses order 3.
- Channels of waiters, and the `left_ptr` and `right_ptr` of leaves: a refused insertion is an unchanged tree, or a panic.
- Latch crabbing between threads: every operation on a tree is one step.
- LatchManagers.StepInv: models the latch tree as the set of its start keys, which the real tree is for up to four latches; LatchFives.HowManyLatches says what happens with more.
- LatchManagers.RunInv: likewise.
- LatchManagers.MutualExclusion: likewise.
- LatchManagers.GuardCoversSpans: likewise.
- LatchManagers.RefusalHasAHolder: likewise; over the real tree a refusal may panic.
- LatchManagers.NothingLeaks: likewise.
- LatchGrants.WaitingCanBeGrantedIff: likewise; how long it takes is left open, as timeouts are random.
- LatchGrants.CanBeGrantedIff: likewise.
- LatchLimits.LowStep: a run over the real tree is followed until the program panics or hangs, or until a node has lost its keys or children, which does not happen with up to four latches.
- LatchTreeDeletes.LocalDeletionKeeps: deletions that keep locks further up are modelled too, but no condition is given for each of them; LatchFives.HowManyLatches bounds the latches instead.
- LatchBTrees.BTree.InsertHelper: the recursion is split over several methods that the program has in one.
- LatchNodes.LeafNode.DeleteKey: takes the direction that `delete_helper` passes, which is that of the edge.
- LatchNodes.LeafNode.MergeNode: the emptied leaf is not followed any further.
- LatchNodes.LeafNode.StealFromLeftLeafSibling: for orders below 2, which leave no room for a key, it says nothing.
- LatchNodes.LeafNode.StealFromRightLeafSibling: likewise, nor of the first leaf hanging on the right of a separator, where the index underflows.
- LatchDeletes.DescendIsGood: the descent of a deletion as it starts from a well-formed tree.
- LatchDeletes.DeleteHelperNeverPanics: for well-formed trees only, which the program's deletions can leave from three levels on.
- Requests.ResolveIntentsForTxn: excludes a write timestamp of (0, 0).
- Storages.PutKeeps: takes all keys of the column family to be encoded versioned keys, with provisional values under intent keys and nothing else there.
- Mvccs.KVStore.MvccGet: for keys that are not stored it says what is taken; MvccReads.GetIsExactIff says when that is right.
- Requests.PutsAreDone: presupposes that the transaction has a record, which it gets when it begins, and no intents yet; without a record its second put on a key panics.
- RedBlackTree.RbTree.InsertNode: requires fewer than usize::MAX nodes, as the largest index means NIL.
- TimestampOracles.TimestampOracle.UpdateCache: takes the spans of the request and its transaction's read timestamp as parameters.
- Timestamps.NextLogical: the increment wraps around at 32 bits, as it does without overflow checks.
- Status of the pusher in `wait_for_push`, its limit of 25 rounds and the abort it requests: only the queue and the query loop are modelled. A push is addressed by its number.
- Trees and lock table are instantiated at byte keys, as the program does, not over an arbitrary `NodeKey`.
- `refresh_read_timestamp` and serializability: the version test does not implement the stated rule.
- `register_guard`, `remove_holder_if_txn_is_holder`, `scan_and_enqueue` and `wait_for`: no further state, or not called.
- `handle_write_intent_error`: deletes the intent of an aborted transaction, by the same delete as an abort.
- Transaction records beyond their status.
- RocksDB, serialization to JSON, the conversion of keys to UTF-8, channels, sleeps, timeouts, task queue, UUIDs, printing, and the `DB` wrappers.
- The hybrid logical clock: only easy monotonicity.
