# CephInC in Dafny

CephInC is a small object store in C. This project models its core and proves properties of the
model with Dafny 4.11; `dafny verify dfyconfig.toml` checks all of it.

**Red-black trees** (`src/common/rbtree.c`, `src/common/rbtree.h`). The nodes are heap objects with
child pointers, a parent pointer and a colour, changed in place by the same loops as in C. A snapshot
of the four fields of all nodes is compared with a ghost tree: a path from the root to the place where
the loop works, and the subtree below it. The insert loop keeps "one red-red fault here", the erase
loop "one black node is missing here". Pure steps on trees are in `RbShape` and `RbFixups`, pointer
facts in `RbLinks`, the loops in `RbTree`, `RbEraseColor`, `RbErase`, the maps built on them in `RbMap`,
the walks in `RbWalk`, and what a valid root means for the nodes alone in `RbValid`. `RbTreeMap` is a
tree as a finite map, for trees whose nodes are made for them. `OsMap` runs the map update of
`src/os/types.c` on two such trees; `KvPatch` has the laws of the update.

**Two protocols as transition systems.** `ClientWrite` is the majority write: any number of writers,
OSDs and messages, with the wait list of `WaitList`, whose methods are the loops of
`src/client/client.c`. `Messenger` is the life of connections: any number of threads that send, close,
look up events and add connections, with the read/write lock of the list and a mutex in each
connection, and with the read of a connection after it was published, which is where the code can touch
freed memory. `MessengerOps` says what one operation of a thread does in such runs: that it works on the
connection it was asked for, how many steps it takes, whom it waits for, and when and why it closes a
connection. `StopPipe` is how the worker threads are stopped. Each has one inductive invariant, and the
theorems are about all runs (`Run` says what a run is).

**Object store** (`src/os/mem_store.c`, `src/os/transaction.c`). `MemStore` is a red-black tree of
collections, each with a tree of objects and a tree of pairs, and each object with a tree of pairs. It
is proved to do what `StoreSpec` says about a plain nested map, with no tree sharing a node with another
or with a caller's; the laws of transactions, of reachable stores and of reads are proved about `StoreSpec`.
`StoreHistory` tells everything a store holds from the sequence of operations that were executed on it:
which collections and objects exist, each byte, each key, and the code of the next operation. `Transaction` is the operation buffer that grows by eight slots, whose
records point to the trees of the caller.

**Buffer and codec** (`src/common/buffer.c`, `encode.c`, `osdmap.c`). `Buffer` is the list of
4096-byte nodes, with arrays written in place, proved to be one byte sequence; `Encode` and `Osdmap` are
the codec, whose decoding is proved to undo its encoding at any place of a buffer, and whose bytes are
fixed place by place.

Where the code and its comments disagree the model follows the code: creating a collection that exists
is an error (the comment at `src/os/transaction.h:43` says it does nothing), and a map operation on a
missing collection returns the tree's code for a missing node. A write that returns OK means "handled
and acked by a majority", not "stored by a majority", because the client never reads the result in an
ack. `StrCmp` compares byte sequences, the integers of the codec are two's complement with the least
significant byte first, and an atomic add is one step.

## Model

| member | source | states |
|---|---|---|
| `RbTree.Root.RotateLeft` | src/common/rbtree.c:25-46 | a left rotation at any place of the tree gives the turned tree there, with every parent link right |
| `RbTree.Root.RotateRight` | src/common/rbtree.c:48-69 | the mirror image |
| `RbTree.Root.InsertColor` | src/common/rbtree.c:71-127 | from a tree whose only fault is a red node under a red one, the loop ends with a red-black tree of the same nodes in the same order |
| `RbTree.Root.InsertRecolor` | src/common/rbtree.c:79-86 | a red uncle: after three colour changes the fault is at the grandparent |
| `RbTree.Root.InsertStepLeft` | src/common/rbtree.c:77-99 | one turn of the loop on the left side: the fault moves up, or it is gone from the path |
| `RbTree.Root.InsertStepRight` | src/common/rbtree.c:100-123 | the same on the right side |
| `RbFixups.RecoloredFault` | src/common/rbtree.c:79-86 | recolouring leaves one possible fault, two levels up, with all black heights right |
| `RbFixups.SwingFault` | src/common/rbtree.c:89-95 | an inner grandchild: the first rotation gives the outer case with the fault unchanged |
| `RbFixups.LiftFault` | src/common/rbtree.c:97-99 | an outer grandchild: the second rotation removes the fault |
| `RbFixups.FaultGone` | src/common/rbtree.c:74-126 | when the loop ends, painting the root black gives a red-black tree |
| `RbEraseColor.EraseColor` | src/common/rbtree.c:129-196 | from a tree in which one black node is missing at one place, the loop ends with a red-black tree of the same nodes in the same order |
| `RbEraseColor.EraseStepLeft` | src/common/rbtree.c:137-163 | one turn on the left side: the missing black node moves up, or the tree is repaired |
| `RbEraseColor.EraseStepRight` | src/common/rbtree.c:164-191 | the same on the right side |
| `RbFixups.RedSiblingStep` | src/common/rbtree.c:139-144 | a red sibling: after repainting and rotating the sibling is black and the same black node is missing |
| `RbFixups.PaleSiblingMissing` | src/common/rbtree.c:145-149 | a black sibling with black children: painting it red moves the missing black node to the parent |
| `RbFixups.NearRedStep` | src/common/rbtree.c:151-156 | only the near nephew red: one rotation gives the case of a red far nephew |
| `RbFixups.FarRedDone` | src/common/rbtree.c:157-162 | a red far nephew: the last rotation repairs the tree |
| `RbFixups.MissingGone` | src/common/rbtree.c:136-195 | when the loop ends, painting the focus black gives a red-black tree |
| `RbErase.Erase` | src/common/rbtree.c:198-266 | erasing any node of a valid tree gives a valid tree with exactly the other nodes, in the old order without that node |
| `RbErase.EraseOne` | src/common/rbtree.c:201-206 | erasing a node with at most one child |
| `RbErase.EraseTwo` | src/common/rbtree.c:206-244 | erasing a node with two children: its successor takes its place, colour and links |
| `RbErase.PutSuccessor` | src/common/rbtree.c:207-244 | how the successor is taken out and put in, also when it is the right child itself |
| `RbErase.SuccessorInorder` | src/common/rbtree.c:207-244 | with the successor in its place the order is the old one without the erased node |
| `RbErase.SuccessorColours` | src/common/rbtree.c:222-244 | the swap leaves the black heights as they would be after removing the successor |
| `RbErase.SpliceColours` | src/common/rbtree.c:247-265 | taking out a node with at most one child leaves at most one black node missing, none if it was red |
| `RbValid.ValidNodes` | src/common/rbtree.h:104-134 | in a valid tree parent links match child links, no red node has a red child, the root is black and is the only node without a parent |
| `RbValid.EqualBlacks` | src/common/rbtree.c:71-196 | in a valid tree all ways from the root to a missing child, followed through the pointers, meet the same number of black nodes |
| `RbShape.HeightBound` | src/common/rbtree.c:71-127 | a red-black tree of n nodes has height at most 2 log2(n + 1) |
| `RbMap.LinkNode` | src/common/rbtree.h:156-165 | the new red node becomes a leaf at the hole |
| `RbMap.Insert` | src/common/rbtree.h:182-213 | a valid search tree stays one; a new key is added with code OK and nothing else changes; a key that is there gives the already-exists code and every pointer stays |
| `RbMap.FindSlot` | src/common/rbtree.h:191-206 | the way down ends at the hole for the key, or at the node that has it |
| `RbMap.Remove` | src/common/rbtree.h:215-226 | a valid search tree stays one and loses exactly the node |
| `RbMap.Search` | src/common/rbtree.h:228-254 | finds the node of the key exactly if there is one, in no more steps than the height |
| `RbMap.SearchCost` | src/common/rbtree.h:228-254 | so a search among n nodes takes at most 2 log2(n + 1) steps |
| `RbMap.OrderedKeys` | src/common/rbtree.h:182-213 | a valid search tree holds each key once |
| `RbMap.ModelInsert` | src/common/rbtree.h:182-213 | adding a node with a new key adds its pair to the map that the nodes stand for |
| `RbMap.ModelRemove` | src/common/rbtree.h:215-226 | taking out a node takes its key out of that map |
| `RbWalk.First` | src/common/rbtree.c:271-282 | the first node in order, or null |
| `RbWalk.Last` | src/common/rbtree.c:284-295 | the last node in order, or null |
| `RbWalk.Next` | src/common/rbtree.c:297-325 | the node after this one in order, null after the last one and for a cleared node |
| `RbWalk.Prev` | src/common/rbtree.c:327-351 | the node before this one in order, null before the first one and for a cleared node |
| `RbWalk.PrevUndoesNext` | src/common/rbtree.c:297-351 | prev of next is where one was |
| `RbWalk.NotCleared` | src/common/rbtree.h:136-139 | no node of a valid tree looks like a cleared one |
| `RbWalk.CountNodes` | src/os/mem_store.c:613-618 | the counting pass counts each node once and ends |
| `RbWalk.FillKeys` | src/os/mem_store.c:629-638 | the filling pass writes the keys in order and fits the counted length |
| `RbWalk.ListKeys` | src/os/mem_store.c:612-638 | the two passes give all keys, strictly ascending, and no others |
| `RbTreeMap.Lookup` | src/common/rbtree.h:228-254 | the node of the key with the value that the map has there, and the not-exist code exactly if it has none |
| `RbTreeMap.Put` | src/common/rbtree.h:182-213 | the map gains the pair, or is left alone with the already-exists code |
| `RbTreeMap.Drop` | src/common/rbtree.h:215-226 | the map loses the key of the node |
| `RbTreeMap.HomesApart` | src/os/mem_store.c:25-26 | trees whose nodes were made for them have no node in common |
| `RbOrder.IntCmpTotal` | src/os/types.c:10-18 | the comparison of collection ids is the order of the integers |
| `RbOrder.StrCmpTotal` | src/os/types.c:142-142 | string comparison by bytes is a total order whose zero is equality |
| `RbOrder.StrCmpBelow` | src/os/types.c:142-142 | a string is below another exactly if they agree up to a place where it ends or has the smaller byte |
| `KvPatch.Patch` | src/os/types.h:63-73 | the four rules of the update, key by key; other keys stay |
| `KvPatch.PatchTwice` | src/os/types.h:63-74 | patching is idempotent |
| `KvPatch.PatchCompose` | src/os/types.h:63-74 | a then b is the same as a overridden by b |
| `KvPatch.PatchEmpty` | src/os/types.c:223-234 | patching an empty map copies the patch exactly if the patch has no empty value |
| `KvPatch.PatchKeeps` | src/os/types.c:223-258 | without empty values in the patch no key is lost, and patching never brings in an empty value |
| `OsMap.UpdateOne` | src/os/types.c:210-258 | one turn of the update on the result tree: the key is removed, replaced or added by the rules |
| `OsMap.MapUpdate` | src/os/types.c:203-269 | over a whole input tree the result tree becomes a valid tree for the patched map with new nodes, and the input tree stays; two different trees are enough |
| `OsMap.FreeTree` | src/os/types.c:112-128 | the tree ends empty and each of its nodes is freed once, in order |
| `WaitList.FinishedMajority` | src/client/client.c:255-264 | a request with no commit is finished exactly if more than half of its OSDs, for odd and even numbers, have acked |
| `WaitList.WaitReqList.AddReq` | src/client/client.c:205-220 | the new entry is the first one, with no acks |
| `WaitList.WaitReqList.WriteAck` | src/client/client.c:25-87 | an ack of another client changes nothing; otherwise exactly the first entry of the request counts one ack, and it is said when the waiter is signalled |
| `WaitList.WaitReqList.TakeIfFinished` | src/client/client.c:242-271 | the entry leaves the list exactly if it is there and finished |
| `WaitList.WaitReqList.RemoveReq` | src/client/client.c:221-239 | the first entry of the request leaves the list |
| `WaitList.AddEntries` | src/client/client.c:205-220 | adding a new request leaves the entries of all others alone |
| `WaitList.AckedEntries` | src/client/client.c:45-73 | an ack changes one count of one request |
| `WaitList.WithoutEntries` | src/client/client.c:221-271 | with distinct ids a removed request has no entry left, and the others keep theirs |
| `WaitList.SignalMissed` | src/client/client.c:69-82 | the ack that makes a majority signals the waiter when the duplicate check is off; with the check, as by default, the signal is missed exactly when the last entry of the list is of another request without a majority |
| `ClientWrite.KeepsEntry` | src/client/client.c:205-271 | each step of a writer, an OSD or the network leaves each request its entry with the right count, or none |
| `ClientWrite.NextInv` | src/client/client.c:205-349 | every step of every thread, OSD and message keeps the invariant |
| `ClientWrite.Conservation` | src/client/client.c:311-345 | for a live request, acks counted, acks and requests under way and losses add up to the successful sends, of which at most the last is not yet in `success_count`; commit_count is 0 |
| `ClientWrite.ReturnCode` | src/client/client.c:331-348 | a write that has returned gave OK exactly if more than half of the osdmap's OSDs have handled it, otherwise the code for too few servers |
| `ClientWrite.TriesAll` | src/client/client.c:321-339 | when a write waits or has returned it has made exactly one send to each OSD, in their order; it gives up exactly if at most half of them went well |
| `ClientWrite.EveryOutcome` | src/client/client.c:321-345 | for every number of OSDs and every outcome of the sends there is a run with it, and its write then waits or gives up by the majority |
| `ClientWrite.EveryFate` | src/client/client.c:46-87 | every request under way can be lost, handled without its ack arriving, or handled and acked |
| `ClientWrite.CommonOsd` | src/client/client.c:261-332 | two writes that returned OK under one osdmap share an OSD that handled both, for odd and even numbers of OSDs |
| `ClientWrite.EntryWhileLive` | src/client/client.c:317-345 | a request has one wait entry from before its first send until it returns, and none after either kind of return |
| `ClientWrite.RemovedByWriter` | src/client/client.c:221-271 | an entry leaves the list exactly when its own writer returns |
| `ClientWrite.ReturnsOnce` | src/client/client.c:331-348 | a write returns once and its code stays |
| `ClientWrite.CountedUntilReturn` | src/client/client.c:45-77 | an ack that arrives is counted exactly if its write has not returned |
| `ClientWrite.MissedSignal` | src/client/client.c:45-82 | with one OSD and two writers a run reaches a state in which a writer waits, the ack that makes its majority arrives, and it is not signalled |
| `ClientWrite.SignalWakes` | src/client/client.c:69-82 | an ack signals, with the duplicate check off, exactly when the waiting writer can return; with it on, the last entry of the list decides |
| `ClientWrite.CanFinish` | src/client/client.c:272-295 | a waiting write can still return OK exactly if its messages that are not lost make a majority |
| `ClientWrite.WayToFinish` | src/osd/osd_msg_process.c:56-103 | the OSDs handle what is under way, the acks arrive, and the writer finishes |
| `Messenger.SendKeepsMutex` | src/message/messenger.c:510-538 | the steps of a sender on its connection keep "a mutex is held by the one thread whose place says so" |
| `Messenger.CloseKeepsConn` | src/message/messenger.c:87-94 | the steps of a closer keep open fds, freed connections and the list consistent |
| `Messenger.NextInv` | src/message/messenger.c:71-95 | every step of every thread that sends, closes, looks up or adds keeps the invariant |
| `Messenger.NoUseAfterFree` | src/message/messenger.c:502-538 | in every run, a thread that is about to touch the memory of a freed connection is at the last read of add_conn |
| `Messenger.LateRead` | src/message/messenger.c:441-456 | that read touches freed memory in a run exactly if in that run some connection is freed while a thread that added it has not returned |
| `Messenger.LateReadHappens` | src/message/messenger.c:441-456 | there is such a run, of two threads |
| `Messenger.FreedOnce` | src/message/messenger.c:87-94 | a freed connection stays freed and no thread frees it again |
| `Messenger.ListedApart` | src/message/messenger.c:430-441 | listed connections have distinct ids and distinct open fds |
| `Messenger.UnlistedUsers` | src/message/messenger.c:81-94 | a connection off the list has one closer; another thread that uses it is a sender that holds its mutex, or the thread that added it |
| `Messenger.NoDeadlock` | src/message/messenger.c:510-538 | in every reachable state with a thread under way, some thread can take a step |
| `MessengerOps.WorksOnAsked` | src/message/messenger.c:23-69 | a send or a close works on the connection whose id was asked for from its lookup to its end, and reports none only if none on the list has the id; a lookup gives the id of a listed connection with the fd or address, and none only if there is none |
| `MessengerOps.BlockedByHolder` | src/message/messenger.c:508-517 | a thread waits for a lock exactly while another one is where it holds it; readers of the list do not wait for each other |
| `MessengerOps.OperationBound` | src/message/messenger.c:423-538 | a send takes at most 14 steps of its thread, an add 12, a lookup 11 and a close 8 |
| `MessengerOps.ClosedForCause` | src/message/messenger.c:262-266 | a thread closes a connection only if it was asked to or has failed on it: a failed write, an error event, or an fd that cannot be watched |
| `MessengerOps.FailureUnlists` | src/message/messenger.c:527-534 | a thread that has failed on a connection returns only when the connection is off the list |
| `MessengerOps.MarkedByFailure` | src/message/messenger.c:519-528 | a connection is marked closed exactly from the first failed write to it |
| `MessengerOps.AnythingGoes` | src/message/messenger.c:502-538 | an idle thread can begin any operation, and one that does not wait can go on with either outcome |
| `StopPipe.StepCosts` | src/message/messenger.c:227-308 | every step of the stopping thread and of the workers, but the event of another connection, brings the stop one step nearer |
| `StopPipe.NextInv` | src/message/messenger.c:268-278 | every step keeps the invariant |
| `StopPipe.BytesConserved` | src/message/messenger.c:268-278 | bytes left and bytes read make up the bytes written, each worker past its read took one, and at most one worker is between a one-shot event and the re-arm |
| `StopPipe.Drained` | src/message/messenger.c:393-409 | when stop has returned all workers have exited and all bytes were read |
| `StopPipe.Progress` | src/message/messenger.c:220-278 | until then some step other than the event of another connection is enabled, whatever the capacity of the pipe |
| `StopPipe.RunBound` | src/message/messenger.c:393-409 | n workers stop within 7n + 2 steps, and two more for each event of another connection |
| `StopPipe.AnyTraffic` | src/message/messenger.c:227-308 | as many bytes as there is room for can be in the pipe at once, after any number of events of other connections |
| `Transaction.Tran.CheckOpBufferSize` | src/os/transaction.c:70-95 | a full buffer grows by eight slots, a buffer with room stays, and all operations are kept |
| `Transaction.Tran.NewOp` | src/os/transaction.c:97-114 | the next slot is taken behind those before, with what its memory holds |
| `Transaction.Tran.GetOp` | src/os/transaction.c:56-68 | the operation at the index, none out of range |
| `Transaction.Tran.GetOpCount` | src/os/transaction.c:49-54 | the number of operations added |
| `Transaction.Tran.CollCreate` | src/os/transaction.c:116-134 | the record is appended; operation and collection are set, the other fields keep what the slot held |
| `Transaction.Tran.CollRemove` | src/os/transaction.c:136-154 | the same for a removal |
| `Transaction.Tran.CollMap` | src/os/transaction.c:156-177 | the record points to the tree of the caller |
| `Transaction.Tran.ObjTouch` | src/os/transaction.c:179-200 | operation, collection and object are set; offset and length keep what the slot held |
| `Transaction.Tran.ObjWrite` | src/os/transaction.c:202-234 | all fields of a write are set |
| `Transaction.Tran.ObjMap` | src/os/transaction.c:236-260 | the record points to the tree of the caller |
| `Transaction.Tran.ObjRemove` | src/os/transaction.c:262-283 | operation, collection and object are set |
| `StoreSpec.WriteAt` | src/os/mem_store.c:335-361 | length and every byte of an object after a write; a write of no bytes changes nothing |
| `StoreSpec.ReadAt` | src/os/mem_store.c:567-589 | length and every byte of what a read should return: the slice cut at the end of the object |
| `StoreSpec.ReadIsExact` | src/os/mem_store.c:573-589 | with the lengths going through an int the read returns that slice exactly if the length fits an int where the read ends inside the object, and elsewhere what is asked after narrowing reaches the end |
| `StoreSpec.SmallReads` | src/os/mem_store.c:573-589 | so it does for objects and lengths below 2^31 |
| `StoreSpec.ReadIsPart` | src/os/mem_store.c:573-589 | in every case the read gives bytes of the object from the offset on, as many as one of the three lengths says up to a multiple of 2^32; it fails only for an object of 2^31 bytes or more |
| `StoreSpec.FailureKeepsStore` | src/os/mem_store.c:442-491 | an operation with an error code changes nothing |
| `StoreSpec.AllOkPrefix` | src/os/mem_store.c:510-518 | the operations that a submission executes are the longest prefix in which none fails |
| `StoreSpec.SubmittedOnce` | src/os/mem_store.c:493-523 | the new store and the code are determined by the old store and the operations |
| `StoreSpec.SubmittedPrefix` | src/os/mem_store.c:510-522 | a failed transaction leaves the store that the operations before the failure alone would have made |
| `StoreSpec.SubmittedReachable` | src/os/mem_store.c:493-523 | submitting leads from reachable stores to reachable ones |
| `StoreSpec.ReadIsCopy` | src/os/mem_store.c:666-789 | no map of a reachable store has an empty value, so a map read into an empty tree is an exact copy and one read into any tree loses no key |
| `StoreHistory.Existence` | src/os/mem_store.c:175-401 | in every reachable store a collection or an object exists exactly if some operation made it and none has removed it, or its collection, since |
| `StoreHistory.PairsGiven` | src/os/mem_store.c:251-440 | in the map of a collection or an object a key has the value that the last patch to name it gave since the owner was made; it is absent if that value is empty or no patch named it |
| `StoreHistory.LengthReached` | src/os/mem_store.c:341-358 | an object is as long as the writes to it reach since it was made |
| `StoreHistory.BytesWritten` | src/os/mem_store.c:335-361 | each byte of an object is the one that was written there last since the object was made, or zero where nothing was written |
| `StoreHistory.Codes` | src/os/mem_store.c:442-491 | the code of the next operation, for every operation code, told from which collections and objects the operations before have made |
| `StoreHistory.SubmittedLogged` | src/os/mem_store.c:493-523 | a submission adds exactly the operations that it executes to the history of the store, so these laws hold of every store after any submissions |
| `MemStore.ObjectNode.Write` | src/os/mem_store.c:335-363 | the bytes of the object become those of the specification |
| `MemStore.ObjectNode.Read` | src/os/mem_store.c:567-589 | code and bytes of the narrowed read, for all lengths |
| `MemStore.MemStore.constructor` | src/os/mem_store.c:147-162 | a new store is empty |
| `MemStore.MemStore.DoOpCollCreate` | src/os/mem_store.c:175-212 | on the trees of the store: a new collection comes to the store, empty, and everything else stays; an existing one is an error and nothing changes |
| `MemStore.MemStore.DoOpCollRemove` | src/os/mem_store.c:214-249 | new value and code: a missing collection is an error; all trees of the removed collection and of its objects end empty |
| `MemStore.MemStore.FreeColl` | src/os/mem_store.c:31-47 | freeing a collection empties its trees and those of its objects and leaves the rest of the store alone |
| `MemStore.MemStore.FreeObjects` | src/os/mem_store.c:107-123 | the tree of objects ends empty and the pairs of each object are freed |
| `MemStore.MemStore.DoOpCollMap` | src/os/mem_store.c:251-280 | the tree of pairs of the collection is patched by the tree of the caller; a missing collection gives the tree's code |
| `MemStore.MemStore.DoOpObjWrite` | src/os/mem_store.c:282-364 | a missing object is made, then written; a missing collection is an error |
| `MemStore.MemStore.DoOpObjRemove` | src/os/mem_store.c:366-401 | new value and code: a missing collection and a missing object have different codes; the pairs of the removed object are freed |
| `MemStore.MemStore.DoOpObjMap` | src/os/mem_store.c:402-440 | the tree of pairs of the object is patched by the tree of the caller; missing collection or object give the tree's code |
| `MemStore.MemStore.DoOp` | src/os/mem_store.c:442-491 | every operation code does its operation, a touch is a write of no bytes, an unknown code is an error |
| `MemStore.MemStore.SubmitTran` | src/os/mem_store.c:493-523 | the store becomes the result of exactly the longest successful prefix, and the code is that of the first failing operation or OK; the trees of the transaction are neither changed nor kept |
| `MemStore.MemStore.ReadObj` | src/os/mem_store.c:525-594 | code and bytes of the narrowed read |
| `MemStore.MemStore.ListColl` | src/os/mem_store.c:596-642 | the ids of all collections of the store, strictly ascending, and no others: those that the executed operations have created and not removed since |
| `MemStore.MemStore.ExistColl` | src/os/mem_store.c:644-664 | whether the collection exists, which is whether it was created and not removed since |
| `MemStore.MemStore.ReadCollMap` | src/os/mem_store.c:666-694 | the tree of the caller is patched by the collection's with new nodes; unchanged on an error; the store stays |
| `MemStore.MemStore.ReadCollMapKey` | src/os/mem_store.c:695-747 | code and value of one key: the value that the last patch to name it has given |
| `MemStore.MemStore.ReadObjMap` | src/os/mem_store.c:749-789 | the tree of the caller is patched by the object's with new nodes; missing collection and object give the tree's code; the store stays |
| `MemStore.MemStore.ReadObjMapKey` | src/os/mem_store.c:790-852 | code and value of one key, the one that the last patch to name it has given; a missing object gives the code of a missing node |
| `Buffer.Node.Put` | src/common/buffer.c:119-125 | bytes are copied behind those written before, which stay |
| `Buffer.Buffer.constructor` | src/common/buffer.c:40-65 | one empty node |
| `Buffer.Buffer.AddNode` | src/common/buffer.c:103-117 | a full last node gets an empty one behind it and the content stays |
| `Buffer.Buffer.AppendSome` | src/common/buffer.c:99-129 | one turn copies at least one byte and never beyond the end of a node |
| `Buffer.Buffer.Append` | src/common/buffer.c:89-132 | the content grows by exactly the bytes, over any number of nodes |
| `Buffer.Buffer.Layout` | src/common/buffer.c:89-132 | every node before the last one is full and linked to the next, and in a buffer with content no node is empty |
| `Buffer.Buffer.Flat` | src/common/buffer.c:133-168 | the whole content in order |
| `Buffer.Reader.constructor` | src/common/buffer.c:170-187 | a new reader stands before the first byte, also of a buffer with nothing in it |
| `Buffer.Reader.MakesProgress` | src/common/buffer.c:212-217 | the assertion that a turn reads something holds exactly if something was written to the buffer |
| `Buffer.Reader.Standing` | src/common/buffer.c:225-232 | a reader has a node exactly while bytes are left, and the node it goes on to is never empty |
| `Buffer.Reader.ReadSome` | src/common/buffer.c:208-233 | one turn reads at least one byte, and the bytes read are the next ones of the content |
| `Buffer.Reader.Read` | src/common/buffer.c:199-236 | the next bytes of the content across nodes; end-of-buffer exactly when fewer are left than asked, after all of them were read |
| `Encode.IntRoundTrip` | src/common/encode.c:9-29 | decoding the bytes of an integer of any width gives it back |
| `Encode.BytesRoundTrip` | src/common/encode.c:9-29 | every sequence of bytes is the encoding of the integer it decodes to |
| `Encode.ByteAt` | src/common/encode.c:9-29 | byte k of an encoded integer is the one of weight 256^k, also of a negative one |
| `Encode.TakeWhole` | src/common/encode.c:16-21 | with enough bytes left the old value of the variable does not matter |
| `Encode.EncodeInt` | src/common/encode.c:10-15 | appends the bytes of the integer |
| `Encode.DecodeInt` | src/common/encode.c:16-21 | reads the width and gives the integer; with fewer bytes left it gives end-of-buffer and replaces as many bytes of the old value |
| `Osdmap.EncodeOsdEntity` | src/common/osdmap.c:8-21 | appends version and id, at the places where the decoder looks for them |
| `Osdmap.EncodeOsdMap` | src/common/osdmap.c:40-61 | appends 13 + 5n bytes: version 1, epoch, pg_count and the number of OSDs, and for each OSD version 1 and its id, each at its place |
| `Osdmap.Layout` | src/common/osdmap.c:8-61 | bytes with these integers at these places, and no others, are the encoding of the map |
| `Osdmap.DecodeOsdEntity` | src/common/osdmap.c:23-38 | the id that the bytes left make of the old one, after a version that must be right |
| `Osdmap.DecodeOsdMap` | src/common/osdmap.c:63-90 | code and map that the bytes left make of what the memory held, wherever the buffer ends, if the versions are right where the code asserts it |
| `Osdmap.DecodedBytes` | src/common/osdmap.c:40-90 | a map followed by anything is decoded to the same epoch, pg_count and ids in order whatever the memory held, no assertion fails, and 13 + 5n bytes are consumed |
| `Osdmap.DecodedMapsBytes` | src/common/osdmap.c:40-90 | several maps one after another are decoded in their order |
| `Osdmap.EarlyEnd` | src/common/osdmap.c:71-89 | when decoding returns OK the buffer held a whole map exactly if it had enough bytes; if not, it ended in the first 13 bytes with 0 as the number of OSDs, or in the last id |
| `Osdmap.MapBytesUnique` | src/common/osdmap.c:40-61 | different maps have different encodings, and none is the beginning of another |

## Left out

- Sockets, epoll, connect and accept, partial sends: only "a one-shot event fires when it is armed and a byte is there" and "an fd that the OS opens is not open" are kept.
- Writing files in `io_write_object` (`src/osd/osd_msg_process.c:16-51`): a step "the OSD has handled the request" stands for it, whatever its result.
- malloc failure: it is assumed to succeed, but for a negative size. The code breaks its own bookkeeping when it fails (`src/os/transaction.c:86-90`, `src/os/mem_store.c:341-347`).
- Liveness of waiting writers: the signal can be missed (`ClientWrite.MissedSignal`), so a waiting writer is a step that is enabled whenever its request is finished; `ClientWrite.CanFinish` says when that is possible.
- `add_conn` does not set the state of a new connection (`src/message/messenger.c:430-436`): new connections are open.
- Messenger.LateRead: a freed connection keeps its fields in the model, so what a thread does after it has read freed memory is not modelled.
- One connection per host and port: `get_conn` looks and then connects without the lock, so this does not hold and is not claimed.
- Lookups in the list of connections find any listed connection that matches; the order of that list is not modelled.
- The pipe's own connection is taken to stay listed, and bytes in it are stop bytes only.
- WaitList.WaitReqList.RemoveReq: entries are found by request id where the code compares the request's address; ids are distinct, which `ClientWrite.EntryWhileLive` proves.
- ClientWrite.CommonOsd: OSDs are told apart by their place in the osdmap; two entries for one server count as two.
- MemStore.ObjectNode.Write: the buffer of an object is a sequence that the method replaces, so two objects that share a buffer are not captured; `offset + length` must stay below 2^63.
- MemStore.MemStore.DoOp: what the code asserts of an operation is asked of the caller, among it that the offset of a touch, which the builder leaves unset, is not negative, and that the tree of a map operation is not one of the store's. The length that a touch sets in its record is not modelled.
- Buffer.Reader.Read: a buffer that grows after a reader has come to its end is not modelled.
- Buffer.Buffer.Append: an empty piece fails the assertion at `src/common/buffer.c:97`; strings, which can be empty, are not modelled. Sizes are unbounded where the code has 32-bit lengths.
- Osdmap.DecodeOsdMap: a version that is wrong, or missing, where the code asserts it ends the program and is asked of the caller.
- Message fields on the wire, logging, options, startup, placement groups, the assembly of the atomics, `src/common/list.h`: nothing hard to state.
- Packing of the colour into the parent pointer and `container_of`: separate fields, and a node carries its key and value.
- `cceph_rb_replace_node`: nothing calls it.
- `src/os/object_store.c` and `src/osd/osd_create.c`: transactions of one operation over the modelled interface.
