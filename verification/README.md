# Ctgfs in Dafny

A model of the state machines at the core of Ctgfs, a distributed file system, and proofs about every
run of them.

| component | files |
|---|---|
| at-most-once RPC: client, server, lossy network | `AckWindow.dfy`, `ReplyWindow.dfy`, `Rpc.dfy`, `RpcSystem.dfy`, `RpcLimits.dfy` |
| write-back extent cache over the extent server | `ExtentStore.dfy`, `Coherence.dfy` |
| LSM storage: record codec, table files, write-ahead log, k-way merge, memtable | `StorageLog.dfy`, `Framing.dfy`, `Sst.dfy`, `Wal.dfy`, `MultiIter.dfy`, `Lsm.dfy`, `Memtable.dfy` |
| prefix tree and the push phase of load balancing | `Tree.dfy`, `PrefixTree.dfy`, `PushPass.dfy` |
| lock server, LRU cache, directory format | `LockServer.dfy`, `Lru.dfy`, `DirCodec.dfy` |
| bytes, little-endian integers, string order | `Bytes.dfy` |

`dafny verify dfyconfig.toml` checks everything.

## How it is modelled

Objects that the source mutates are classes, and each method is proved against a function on the
object's state; the theorems are about those functions. Protocols are state machines whose steps are
the sections the source runs under one mutex. A run is any sequence of enabled steps.

* **Network.** A message once sent can be delivered at any later time, any number of times or never.
  That covers loss, duplication, delay, reordering and retransmission.
* **Files.** A file is a byte sequence, and input and output do not fail.
* **RPCs from the extent cache.** Each RPC is one step, so operations on different extents interleave
  between the RPCs of one operation.
* **Clocks, sockets and connection setup** are left out or become parameters. How the lock server's
  own call to a client goes is a parameter of its operations.

## What is proved

* **RPC.** In every run delivering a request, first time or again, starts its handler, resends its
  result, refuses it or does nothing, exactly as the history of its call says (`DeliveryExactly`).
  No two handler starts are for the same client and call number (`AtMostOnce`),
  and a replayed reply is the one produced by the only execution (`ReplayFidelity`). In every run,
  timeouts and repeated binds included, a live request is refused as too old if and only if an earlier
  delivery overtook it: that delivery's collection found no entry from the number it acknowledges up to
  the live one, and an entry above (`LiveForgottenExactly`, `ForgottenExactly`). In every run an answered
  caller holds the result of its call's only execution if and only if a handler was started for it;
  otherwise it holds a refusal and no handler ever will be (`AnsweredExactly`, `RefusedNeverRuns`).
  No live request is refused in a run where calls time out only after the server has started them and no
  client binds a second time before the server has started its first call (`NoLiveForgotten`, `AnsweredExactlyOnce`). `RpcLimits`
  gives a reachable refusal for each of the two restrictions, when it is dropped.
* **Extent cache.** For any number of clients, any interleaving under the lock contract and contents of
  any length, every answer and everything visible is that of one central map all along if and only if
  no flush drops a dirty, undeleted entry of 2^32 bytes or more (`CoherentExactly`); the size attribute
  is 32 bits wide. A flush changes what is visible exactly when it begins with such an entry
  (`FlushKeepsExactly`), so runs without one are coherent (`CoherentRuns`). Every operation completes
  within three further sections as the operation that was asked (`OperationCompletes`), and over every
  interleaving the operations asked of an extent are those answered and at most one under way
  (`AnsweredAsAsked`).
* **Storage.** After any adds, reading all table files back from their bytes and merging them with the
  memtable lists each added key once, in order, newest version (`ScanGivesLatest`); no record is lost or
  duplicated (`AddsConserve`); a restart replays exactly the records logged since the last checkpoint
  (`ReplayIsExact`). The adds fall into batches, one for each table, each over the size bound by its
  last record only (`AddsBatched`).
* **Prefix tree.** `Create` and `Remove` change at most the named path (`InsertEffect`,
  `RemoveEffect`). Every directory's size is the total size of the files below it all along if and only
  if no operation creates a directory with a size of its own (`RunKeepsTree`).
  The push phase terminates, keeps both contexts right and the files in order, and emits exactly one move
  per file that changed server (`PushKeepsContexts`, `PushConserves`). Push phases along a whole chain of
  servers keep the files of every tree in order, with one move for each file and boundary between
  servers that it crossed (`PassConserves`, `TreePassConserves`).
* **Smaller machines.** The lock passes in the order of queueing, and `StrandedExactly` says which
  operations strand a waiter: the first to queue behind a holder that will not yield, if the revoke
  fails, and a handover with others waiting, if the notice fails. The answer to an acquire tells who
  holds the lock afterwards (`AnswerTells`). The LRU cache lists its keys by their last call
  (`ListedByUse`) and drops the one called longest ago (`EvictsOldest`); a smaller one is always inside a
  larger one. The directory format is a two-way inverse.

Where code and comments differ, the code is modelled:

* `checkduplicate_and_update` is documented to delete entries with numbers up to and including the
  acknowledged one (`src/rpc/rpc.cc:616`); the collection compares strictly and never removes the last
  entry (`src/rpc/rpc.cc:600`). `NoLiveForgotten` depends on that.
* `doInsert` ignores the answer of its recursive call (`src/master/prefix_tree.cc:182`), and finding
  the name taken is no error, so `Create` can answer success without creating anything;
  `CreateOkWithoutEffect` says exactly when.
* `SStable::Flush` opens its file without truncation (`src/storage/sstable/sstable.cc:86`), so a longer
  old file would leave a tail behind; `Overwrite` says exactly when it does not. File names do not
  repeat within one start (`FileNameInjective`), so the stored tables are clean.

## Model

| member | source | states |
|---|---|---|
| `AckWindow.PopRun` | src/rpc/rpc.cc:349-352 | The inner compression loop never drops the element under the iterator: everything from there on is unchanged, and the loop stops only when the front does not continue into it. |
| `AckWindow.UpdateRepresents` | src/rpc/rpc.cc:330-353 | Acknowledging any number, late, early or again, turns a window for a set of acknowledged numbers into one for the set with that number added; the front never decreases. |
| `AckWindow.FrontIsLargest` | src/rpc/rpc.cc:330-353 | All of 1..n are acknowledged if and only if n is at most the front. |
| `AckWindow.AcksRepresented` | src/rpc/rpc.cc:330-353 | After any sequence of acknowledgements, with repetitions, from the initial list, the window stands for exactly their set: front as above, and the members above the front are the acknowledged numbers above it. |
| `ReplyWindow.GcKeepsExactly` | src/rpc/rpc.cc:594-609 | Collection keeps exactly the entries not below the acknowledged number, and the newest one. |
| `ReplyWindow.GcAdmitsExactly` | src/rpc/rpc.cc:594-609 | Collection leaves every number above the acknowledged one admissible if and only if it drops nothing, or the acknowledged number or its successor is in the window, or nothing larger is. |
| `ReplyWindow.VerdictMeaning` | src/rpc/rpc.cc:625-671 | NEW means neither remembered nor below the front; FORGOTTEN means below the front; INPROGRESS and DONE mean an entry without or with that very reply. |
| `ReplyWindow.CheckCovers` | src/rpc/rpc.cc:625-671 | One check keeps the window sorted and non-empty and never lowers its front; the checked number and every number that was remembered or below the front are so afterwards, and no other entry appears. |
| `ReplyWindow.CheckFront` | src/rpc/rpc.cc:600-671 | If the acknowledged number is remembered or not above the front, a check moves the front at most up to it. |
| `ReplyWindow.CheckForgetsExactly` | src/rpc/rpc.cc:594-671 | A check makes the server refuse a number not below the acknowledged one if and only if the window, with the checked number added when it is new, has no entry from the acknowledged number up to it and has one above it. |
| `ReplyWindow.CheckKeepsOwnEntry` | src/rpc/rpc.cc:644-665 | The collection inside a check does not discard the entry being answered when the request acknowledges no larger number. |
| `ReplyWindow.CheckKeepsReplies` | src/rpc/rpc.cc:625-671 | A check adds at most one entry, without a reply. |
| `ReplyWindow.RecordCompletes` | src/rpc/rpc.cc:678-699 | Recording a reply completes the entry of that number if there is one and leaves all others as they are. |
| `Rpc.Rpcc.constructor` | src/rpc/rpc.cc:43-67 | A new client is unbound and not being cancelled, has no calls, starts numbering at 1 and has acknowledged nothing. |
| `Rpc.Rpcc.UpdateXidRep` | src/rpc/rpc.cc:330-353 | The insertion loop and the compression leave the window `AckWindow.Update` describes. |
| `Rpc.Rpcc.CompressFront` | src/rpc/rpc.cc:347-352 | The compression loop, with the iterator never on a dropped element. |
| `Rpc.Rpcc.BeginCall` | src/rpc/rpc.cc:137-157 | Refused, with no effect, exactly before binding for anything but a bind, after it for a bind, or during a cancel; otherwise the call takes the next number and the header carries the front of the window. |
| `Rpc.Rpcc.Cancel` | src/rpc/rpc.cc:105-128 | Every caller is failed with a negative code, so that no reply is handed to it any more, and while there are callers no further call may begin. |
| `Rpc.Rpcc.GotPdu` | src/rpc/rpc.cc:293-327 | A reply acknowledges its number whatever it says, and is handed to its caller only if that has none yet. |
| `Rpc.Rpcc.EndCall` | src/rpc/rpc.cc:231-243 | Ending a call forgets its caller, acknowledges its number and returns what the caller has. |
| `Rpc.Rpcs.GcReplyWindow` | src/rpc/rpc.cc:594-609 | The erase loop leaves the client's window as `Gc` describes and no other window changed. |
| `Rpc.Rpcs.CheckDuplicateAndUpdate` | src/rpc/rpc.cc:625-671 | The search loop returns the verdict and leaves the window of `Check`. |
| `Rpc.Rpcs.AddReply` | src/rpc/rpc.cc:678-699 | The loop records the reply at every entry with the number. |
| `RpcSystem.StepKeepsInv` | src/rpc/rpc.cc:130-699 | Every step of clients, server and network, timeouts included, keeps: windows sorted and covering all started calls, recorded and sent replies genuine, client windows exact, every request acknowledging only numbers below its own. |
| `RpcSystem.AtMostOnce` | src/rpc/rpc.cc:534-540 | In every run, no two handler starts are for the same client and call number. |
| `RpcSystem.NewMeansUnstarted` | src/rpc/rpc.cc:625-671 | In every run, NEW is answered only for a call no handler has been started for. |
| `RpcSystem.DeliveryExactly` | src/rpc/rpc.cc:523-590 | In every run, delivering a request sends the refusal if the server has moved past the call, starts the handler if it never was, sends the recorded result if there is one, and otherwise does nothing; and no more than that. |
| `RpcSystem.FinishSends` | src/rpc/rpc.cc:540-572 | In every run, a handler that returns is no longer running, its result is sent, and it is recorded unless the server has moved past the call. |
| `RpcSystem.ReceiveHands` | src/rpc/rpc.cc:293-327 | In every run, a reply that arrives acknowledges its call, is handed to the caller if that still waits, and changes no other caller. |
| `RpcSystem.BoundByServer` | src/rpc/rpc.cc:88-102 | In every run, a client that takes itself for bound has had a call run at the server and return 0. |
| `RpcSystem.ReplayFidelity` | src/rpc/rpc.cc:655-663 | In every run, a DONE answer carries the result recorded for that call's execution (the only one, by `AtMostOnce`), the request acknowledges only smaller numbers, and the entry is still there after the check. |
| `RpcSystem.ForgottenExactly` | src/rpc/rpc.cc:594-671 | In every run, timeouts and repeated binds included, a step leaves the server refusing an unacknowledged number if and only if it did before, or the step delivers a request of that client whose collection moves past the number. |
| `RpcSystem.LiveForgottenExactly` | src/rpc/rpc.cc:594-671 | In every run, a live request is answered FORGOTTEN if and only if an earlier delivery of the run moved past it. |
| `RpcSystem.AnsweredExactly` | src/rpc/rpc.cc:293-327 | In every run, timeouts and repeated binds included, an answered caller holds the result of its execution if and only if a handler was started for the call, and can tell by the sign of its return code; otherwise it holds the refusal and the server has moved past the call. |
| `RpcSystem.RefusedNeverRuns` | src/rpc/rpc.cc:625-671 | However a run goes on, a call that the server has moved past without starting it is never started. |
| `RpcSystem.UnackedNotForgotten` | src/rpc/rpc.cc:594-671 | In orderly states a request whose number is not acknowledged is not below the server's front. |
| `RpcSystem.StepKeepsOrderly` | src/rpc/rpc.cc:88-699 | Every orderly step, a timeout of a call the server has started included, keeps the server's front at or below what the client has acknowledged, and keeps refusals away from unacknowledged calls. |
| `RpcSystem.NoLiveForgotten` | src/rpc/rpc.cc:594-671 | In every run where a call times out only once the server has started it, and a second bind is issued only once the server has started the first call, the server does not answer FORGOTTEN to a request whose reply the client has not received. |
| `RpcSystem.AnsweredExactlyOnce` | src/rpc/rpc.cc:305-327 | In every orderly run, as `NoLiveForgotten` has it, an answered call has been started and holds the result of its one execution, never a refusal. |
| `RpcLimits.SecondBindForgetsLive` | src/rpc/rpc.cc:140-144 | With a second bind issued before the server has started the first, a reachable state refuses a live request. |
| `RpcLimits.TimeOutForgetsLive` | src/rpc/rpc.cc:231-238 | After a timeout that acknowledges an undelivered call, a reachable state refuses a live request. |
| `ExtentStore.Resize` | src/fs/extent_server.cc:100-112 | The common prefix is kept and growth is zero bytes. |
| `ExtentStore.Size32` | src/include/fs/extent_protocol.h:27-32 | The size attribute is the length modulo 2^32. |
| `ExtentStore.ExtentServer.constructor` | src/fs/extent_server.cc:24-27 | A new server has the empty root extent. |
| `ExtentStore.ExtentServer.Put` | src/fs/extent_server.cc:36-61 | The extent holds the given content; nothing else changes. |
| `ExtentStore.ExtentServer.Get` | src/fs/extent_server.cc:63-77 | Content or NOENT, as the central map answers. |
| `ExtentStore.ExtentServer.GetAttr` | src/fs/extent_server.cc:79-93 | The 32-bit size or NOENT. |
| `ExtentStore.ExtentServer.SetAttr` | src/fs/extent_server.cc:95-122 | Resizes a present extent, answers NOENT for an absent one, and leaves all others alone. |
| `ExtentStore.ExtentServer.Remove` | src/fs/extent_server.cc:124-140 | The extent is gone and the answer is OK, present or not. |
| `ExtentStore.OnEntryIsCentral` | src/client/extent_client_cache.cc:22-199 | An operation served from the cache gives the central map's answer and effect on what is visible, tombstones included, and keeps clean entries equal to the server's copy. |
| `ExtentStore.FlushExactlyBelow4G` | src/client/extent_client_cache.cc:227-239 | Putting a content and setting its 32-bit size stores it unchanged if and only if it is shorter than 2^32 bytes. |
| `ExtentStore.ExtentClientCache.Put` | src/client/extent_client_cache.cc:22-49 | The client sees the new content, which is cached to be written back; only this entry changes. |
| `ExtentStore.ExtentClientCache.Get` | src/client/extent_client_cache.cc:51-88 | Answers what the client sees, from cache or server; what is seen stays; a fetched extent is cached clean, a cached one is marked to be written back. |
| `ExtentStore.ExtentClientCache.GetAttr` | src/client/extent_client_cache.cc:90-127 | Answers the size of what the client sees; what is seen stays; a fetched extent is cached clean, a cached one is untouched. |
| `ExtentStore.ExtentClientCache.SetAttr` | src/client/extent_client_cache.cc:129-177 | Resizes what the client sees, to be written back, or answers NOENT and changes nothing; other extents are seen as before. |
| `ExtentStore.ExtentClientCache.Remove` | src/client/extent_client_cache.cc:179-199 | The extent is no longer seen, although the server may still have it; the tombstone is to be written back. |
| `ExtentStore.ExtentClientCache.Flush` | src/client/extent_client_cache.cc:201-250 | The entry is dropped and everything is seen as before, up to the 32-bit size of a dirty content. |
| `Coherence.BeginKeeps` | src/client/extent_client_cache.cc:22-199 | Starting an operation either completes it with the central answer or changes nothing visible. |
| `Coherence.AdvanceKeeps` | src/client/extent_client_cache.cc:51-250 | Every later RPC or cache section completes its operation with the central answer, or is invisible, except exactly where a flush drops a dirty, undeleted entry of 2^32 bytes or more. |
| `Coherence.StepKeeps` | src/include/client/yfs_client.h:16-28 | Every step of every client, taking and giving up locks included, keeps the whole system equal to the central map if and only if it is not that one. |
| `Coherence.CoherentExactly` | src/client/extent_client_cache.cc:22-250 | Over every run of any number of clients, with contents of any length, all answers and everything visible are those of one central map after every step if and only if no step drops a dirty, undeleted entry of 2^32 bytes or more. |
| `Coherence.CoherentRuns` | src/client/extent_client_cache.cc:22-250 | In every run in which no flush begins with such an entry, all statuses, contents and sizes answered, and everything visible, are those of one central map. |
| `Coherence.FlushKeepsExactly` | src/client/extent_client_cache.cc:201-250 | In any state any run reaches, a whole flush leaves the extent uncached, and what is visible of every extent unchanged if and only if the entry is not a dirty, undeleted one of 2^32 bytes or more. |
| `Coherence.OperationCompletes` | src/client/extent_client_cache.cc:22-199 | In any state any run reaches, an operation that may begin completes within three further sections: exactly one answer is given, for that operation, with the central answer and effect; the server and all other extents are untouched; and what is cached and has to be written back is exactly what the operation calls for. |
| `Coherence.AnsweredAsAsked` | src/client/extent_client_cache.cc:22-199 | Over every run and interleaving, the operations asked of an extent are, in order, those answered and at most one under way. |
| `Coherence.CachedOnlyUnderLock` | src/include/client/yfs_client.h:22-26 | In every run, flushing before release means that only a lock's holder has its extent cached. |
| `Bytes.FromToLE` | src/storage/log.cc:8-16 | Integers survive the round trip through their little-endian bytes. |
| `Bytes.ToFromLE` | src/storage/log.cc:8-16 | Bytes survive the round trip through the integer they encode. |
| `Bytes.LowFourBytes` | src/include/storage/log.h:55-55 | The low 32 bits of an eight-byte read are the four-byte value. |
| `Bytes.LessMeaning` | src/storage/log.cc:18-29 | Strings compare by their first difference, and a proper prefix is smaller. |
| `StorageLog.EncodeLength` | src/include/storage/log.h:29-47 | The encoded length of a record is its size field. |
| `StorageLog.EncodeLayout` | src/include/storage/log.h:37-47 | Where each field of an encoded record lies and in how many bytes. |
| `StorageLog.DecodeEncode` | src/include/storage/log.h:37-62 | Decoding undoes encoding, all fields including the operation and size, and ignores whatever bytes follow. |
| `StorageLog.DecodeCut` | src/include/storage/log.h:49-62 | Bytes that end within the value decode to the part of the value that is there. |
| `StorageLog.ReadLogBack` | src/include/storage/log.h:85-147 | Reading where framed records start yields the first record and stops where the others start; the end of the file is reached exactly when there are none. |
| `StorageLog.ReadAllBack` | src/include/storage/log.h:85-147 | Reading to the end returns exactly the records written. |
| `StorageLog.LogLessTransitive` | src/storage/log.cc:18-29 | The record order, key ascending and version descending, is transitive. |
| `Framing.ReadBodyBack` | src/include/storage/log.h:85-147 | A length-framed body reads back and reading stops at the next frame. |
| `Sst.DecodeEncodeMeta` | src/storage/sstable/sst_meta.cc:18-49 | Table metadata encodes to its announced size and decodes back. |
| `Sst.TableReadsBack` | src/storage/sstable/sstable.cc:31-169 | From a written table file the metadata is recovered, its offset is where the records start, and reading from there returns exactly the appended records. |
| `Sst.Overwrite` | src/storage/sstable/sstable.cc:86-93 | Writing without truncation leaves exactly the new bytes if and only if the old file was no longer. |
| `Sst.OverwriteBytes` | src/storage/sstable/sstable.cc:86-93 | Byte by byte, such a file is the new contents followed by what the old one had beyond them. |
| `Sst.TableLength` | src/storage/sstable/sstable.cc:18-101 | The length of a table file is its data offset, its recorded data size, and eight bytes for each record. |
| `Sst.SStable.Init` | src/storage/sstable/sstable.cc:18-29 | A new table has no records and its data offset is the framed metadata length. |
| `Sst.SStable.Append` | src/storage/sstable/sstable.cc:58-72 | The buffer is the framed form of all records appended, and the metadata accounts for them. |
| `Sst.SStable.Flush` | src/storage/sstable/sstable.cc:83-101 | On success the file holds the table's bytes over the old content, and success is certain when the metadata fits its 64-bit fields; after a failure to encode the metadata only its length has been written. |
| `Sst.SSTIterator.HasNext` | src/storage/sstable/sstable.cc:142-152 | True exactly while records remain. |
| `Sst.SSTIterator.Next` | src/storage/sstable/sstable.cc:154-169 | Returns the remaining records one by one, and nothing after the last. |
| `Sst.ScanTable` | src/storage/sstable/sstable.cc:31-169 | Recovering a table file and iterating over it returns exactly its records. |
| `Wal.LogFileHolds` | src/storage/memtable/wal.cc:54-192 | After any run, the log file frames every record ever logged, and the checkpoint is the length of the part before the records since the last checkpoint. |
| `Wal.ReplayIsExact` | src/storage/memtable/wal.cc:87-149 | After any run of logging, checkpoints and restarts, a restart replays exactly the records logged since the last checkpoint, in order. |
| `Wal.OffsetMeaning` | src/storage/memtable/wal.cc:91-98 | A checkpoint file of fewer than eight bytes is read as if zeros followed. |
| `Wal.Wal.Start` | src/storage/memtable/wal.cc:54-77 | Empty log, checkpoint at its start, open for appending. |
| `Wal.Wal.Recover` | src/storage/memtable/wal.cc:87-139 | The loop delivers the records from the checkpoint on, also if the checkpoint file has fewer than eight bytes, or fails if a record cannot be read; the files are unchanged and the log is open at its end. |
| `Wal.Wal.Init` | src/storage/memtable/wal.cc:40-52 | Recovers if both files exist, otherwise starts afresh. |
| `Wal.Wal.LogToDisk` | src/storage/memtable/wal.cc:141-149 | The framed record is added at the end of the log. |
| `Wal.Wal.LogCurrent` | src/storage/memtable/wal.cc:177-198 | The checkpoint becomes the length of the log. |
| `MultiIter.BestIsLeast` | src/storage/multi_iter.cc:48-61 | The record chosen is not after the head of any input: smaller key, or same key and not older. |
| `MultiIter.DropKeyFacts` | src/storage/multi_iter.cc:63-78 | Skipping a key in an input keeps its order, drops only records the chosen one supersedes, and leaves only larger keys. |
| `MultiIter.MergeIsMerge` | src/storage/multi_iter.cc:13-87 | For any number of sorted inputs the output has strictly increasing keys, only input records, and for every input record one of its key that is at least as new. |
| `MultiIter.MergedIsNewest` | src/storage/multi_iter.cc:13-87 | No input record is newer than the output record of its key. |
| `MultiIter.MultiIter.constructor` | src/storage/multi_iter.cc:13-29 | Every input is pending up to its first record with the invalid lsn. |
| `MultiIter.MultiIter.HasNext` | src/storage/multi_iter.cc:31-40 | True exactly while some record is pending. |
| `MultiIter.MultiIter.Next` | src/storage/multi_iter.cc:42-87 | Returns the best pending record and drops its key from every input; without one, changes nothing. |
| `MultiIter.DrainMerge` | src/storage/multi_iter.cc:13-87 | Reading to the end terminates and returns the whole merge. |
| `Lsm.FileNameInjective` | src/storage/sstable/sst_mgr.cc:85-94 | Different table numbers give different file names. |
| `Lsm.HexIsNumber` | src/storage/sstable/sst_mgr.cc:92-92 | The digits in a file name are the lower-case hexadecimal form of the table number, without leading zeros. |
| `Lsm.InsertMembers` | src/storage/memtable/memtable.cc:48-48 | Inserting keeps all records and adds the new one unless its key and lsn are present. |
| `Lsm.InsertSorted` | src/storage/memtable/memtable.cc:48-48 | The memtable stays ordered. |
| `Lsm.FreezeKeepsTables` | src/storage/memtable/memtable.cc:58-73 | A freeze writes the memtable to a file of its own and leaves every earlier table file intact. |
| `Lsm.AddKeeps` | src/storage/memtable/memtable.cc:41-56 | The branch that freezes without inserting is never taken, the size bound holds again afterwards, and no version is lost. |
| `Lsm.AddsKeep` | src/storage/memtable/memtable.cc:41-73 | After any adds: size bound, every table file a sorted run of records, every added version in the memtable or in a table, nothing made up. |
| `Lsm.AddsConserve` | src/storage/memtable/memtable.cc:41-73 | With distinct versions the tables and the memtable together hold each added record exactly once. |
| `Lsm.AddsBatched` | src/storage/memtable/memtable.cc:41-73 | After any adds, the adds fall in order into batches: one for each table, over the bound by its last record only, and one within the bound for the memtable; each holds exactly the versions of its batch. |
| `Lsm.ScanGivesLatest` | src/storage/memtable/memtable.cc:41-115 | End to end over the file bytes: each added key once, in key order, newest version. |
| `Lsm.LastIsGreatest` | src/storage/memtable/memtable.cc:63-67 | After any adds, the metadata read back from each table file names the greatest of the table's records. |
| `Memtable.FlushTable` | src/storage/sstable/flusher.cc:25-46 | Draining an iterator into a table writes exactly its records and the given last record. |
| `Memtable.Memtable.Add` | src/storage/memtable/memtable.cc:41-56 | The object follows the model, keeps its invariant against all records ever added, and succeeds. |
| `Memtable.Memtable.MinorFreeze` | src/storage/memtable/memtable.cc:58-73 | The frozen memtable becomes a new table and the memtable is empty. |
| `Memtable.Memtable.ScanAll` | src/storage/multi_iter.cc:13-87 | Reading all tables from disk and merging with the memtable lists the newest version of every added key. |
| `Tree.SizeIsFileTotal` | src/master/prefix_tree.cc:267-275 | If every directory records the sum of its children's sizes, every node's size is the total size of the files below it. |
| `PrefixTree.SplitPath` | src/master/prefix_tree.cc:131-143 | The first component has no slash, and it, the slash and the rest make up the path. |
| `PrefixTree.JoinComponents` | src/master/prefix_tree.cc:131-143 | Taking a path apart loses nothing. |
| `PrefixTree.InsertEffect` | src/master/prefix_tree.cc:152-186 | Create makes the named path hold the kind, number, size and owner asked for exactly when its parent is a directory and the name is free; every other path holds what it held. |
| `PrefixTree.InsertAnswer` | src/master/prefix_tree.cc:152-186 | Create answers success exactly when there is one component or the first is a directory. |
| `PrefixTree.CreateOkWithoutEffect` | src/master/prefix_tree.cc:171-185 | Success with nothing created happens exactly when the path is taken already, or its first component is a directory and its parent is not; exactly in the second case the path is absent afterwards; and it does not hold what was asked for exactly in the second case or when something else has it. |
| `PrefixTree.CreateOkWitness` | src/master/prefix_tree.cc:178-185 | Trees and paths where success leaves the path absent. |
| `PrefixTree.InsertKeepsSizes` | src/master/prefix_tree.cc:172-185 | Create keeps the recorded sizes right if and only if it does not create a directory with a size of its own. |
| `PrefixTree.InsertKeepsWf` | src/master/prefix_tree_node.cc:105-113 | Create keeps the children of every directory ordered by distinct names. |
| `PrefixTree.RemoveEffect` | src/master/prefix_tree.cc:190-215 | Remove deletes the named path exactly when it is a file or an empty directory, and answers success exactly then; every other path holds what it held. |
| `PrefixTree.RemoveKeepsWf` | src/master/prefix_tree_node.cc:115-124 | Remove keeps the children of every directory ordered by distinct names. |
| `PrefixTree.RemoveKeepsSizes` | src/master/prefix_tree.cc:206-212 | Remove keeps the recorded sizes right. |
| `PrefixTree.RunKeepsTree` | src/master/prefix_tree.cc:145-215 | Over every run the tree is ordered; all recorded sizes are right after every operation if and only if no operation creates a directory with a size of its own; and then the size of the tree is that of its files. |
| `PrefixTree.PrefixTree.Create` | src/master/prefix_tree.cc:145-150 | The effect on every path, on the sizes, and the answer. |
| `PrefixTree.PrefixTree.Remove` | src/master/prefix_tree.cc:188-188 | The effect on every path, on the sizes, and the answer. |
| `PushPass.CalculateSum` | src/master/prefix_tree.cc:432-439 | The loop computes the sum of the list's sizes. |
| `PushPass.ScoreAtMost` | src/master/prefix_tree.cc:427-430 | A score is the percentage of memory used, rounded down, so that it is at most a target exactly if 100 times the memory is below target + 1 times the capacity. |
| `PushPass.DoMoveIsPerFile` | src/master/prefix_tree.cc:462-473 | Moving a subtree emits one move per file below it, in order. |
| `PushPass.SplitKidsKeep` | src/master/prefix_tree.cc:441-453 | Splitting a directory keeps its files, its size and the owner tag, and has one node less. |
| `PushPass.SplitConservesExactly` | src/master/prefix_tree.cc:441-453 | Splitting a directory conserves the files of a list if and only if the directory has the files of the last subtree, which is the one dropped. |
| `PushPass.PushKeepsContexts` | src/master/prefix_tree.cc:376-414 | The push loop keeps memory equal to the sum of the list's sizes, the score that of the memory, and every listed subtree tagged with its owner. |
| `PushPass.PushConserves` | src/master/prefix_tree.cc:376-414 | The files of the two servers keep their order, only the boundary moves, and there is exactly one move for each file that crossed it. |
| `PushPass.PushStops` | src/master/prefix_tree.cc:376-414 | The receiver is never taken above the target score; the loop ends with the sender within the target, empty, or stuck at a file that does not fit, which is then counted once. |
| `PushPass.PushStopsInMemory` | src/master/prefix_tree.cc:376-414 | The same in bytes: the receiver took nothing or is within the target; the sender is within it, or empty, or has a file at its end that would take the receiver above it, which is counted once and only then. |
| `PushPass.PassConserves` | src/master/prefix_tree.cc:376-414 | Push phases of server after server along any chain keep its files in order; from each server on the chain holds what it held with what crossed the boundary in front; there is exactly one move for each file and boundary crossed; and contexts that were right stay right. |
| `PushPass.ShiftAt` | src/master/prefix_tree.cc:376-414 | Each crossing of a pass comes in front of what the servers from there on held, and nothing else changes. |
| `PushPass.ContextsOk` | src/master/prefix_tree.cc:279-291 | The contexts computed for a tree owned by the first server are right if and only if the recorded sizes of the tree are, and nothing is counted against any server. |
| `PushPass.TreePassConserves` | src/master/prefix_tree.cc:376-414 | For every tree owned by the first server, a whole pass of push phases keeps the tree's files in order and records for each boundary between servers one move for each file that ends to its right. |
| `PushPass.TreePassContexts` | src/master/prefix_tree.cc:376-414 | For the tree after any creates and removes of which none creates a directory with a size of its own, the computed contexts are right before and after the pass and use the tree's size in all. |
| `PushPass.PushLoop` | src/master/prefix_tree.cc:379-413 | The loop terminates, by the number of nodes left, with the result of `Push`. |
| `PushPass.Balancer.PushPhase` | src/master/prefix_tree.cc:376-414 | One push phase, on the list of contexts, keeping all contexts and all files. |
| `LockServer.HandoffIsFifo` | src/master/lock_server_cache.cc:35-142 | Over every run, the clients handed the lock followed by those waiting are the clients that joined the queue, in order; nobody waits for a free lock. |
| `LockServer.FreeLockIsGranted` | src/master/lock_server_cache.cc:65-74 | The branch for a free lock with a queue is never taken: acquiring a free lock gets it. |
| `LockServer.AnswerTells` | src/master/lock_server_cache.cc:35-74 | Over every run, on the state an acquire leaves: the answer is not RETRY if and only if the client holds the lock, RETIRE if and only if it does and somebody waits, RETRY if and only if another holds it and this client is last in the queue. |
| `LockServer.AcquireStatus` | src/master/lock_server_cache.cc:76-96 | The status is IOERR or RPCERR exactly if the acquire is the first to wait for another client and that client has no connection, or the call to it fails. |
| `LockServer.ReleaseStatus` | src/master/lock_server_cache.cc:111-145 | The status is IOERR or RPCERR exactly if the release passes the lock on and the next holder has no connection, or the call to it fails. |
| `LockServer.HolderIsOwner` | src/master/lock_server_cache.cc:111-142 | Over every run, the holder is the client the lock was last granted or handed to, and it is free, with nobody recorded, exactly if it was freed since or never given. |
| `LockServer.AcquireStrandsExactly` | src/master/lock_server_cache.cc:35-88 | From any state, an acquire leaves a waiter whose holder will not yield if and only if another client holds the lock and will not yield, and somebody waited already or the revoke fails. |
| `LockServer.ReleaseStrandsExactly` | src/master/lock_server_cache.cc:111-142 | From any state, a release by the holder does so if and only if at least two clients wait and the retry notice fails; any other release changes nothing. |
| `LockServer.StrandedExactly` | src/master/lock_server_cache.cc:35-142 | Over every run: an operation strands a waiter of an unstranded lock if and only if it is the first to queue behind a holder that will not yield and the revoke fails, or it hands the lock over with others waiting and the notice fails; and a stranded lock stays so until its holder asks again or hands over with success or to the last waiter. |
| `LockServer.NoStrandedWaiter` | src/master/lock_server_cache.cc:35-134 | Over every run in which the server's calls succeed, while somebody waits the holder has since it got the lock been sent a revoke or answered RETIRE, or has not acted on its retry notice. |
| `LockServer.UnreachableStrands` | src/master/lock_server_cache.cc:76-88 | With the revoke failing, the waiter is queued and the holder is not told to yield. |
| `LockServer.LockServerCache.AcquireLock` | src/master/lock_server_cache.cc:21-97 | New state, answer, whom to revoke, and the status, IOERR or RPCERR when the revoke fails; other locks unchanged. |
| `LockServer.LockServerCache.ReleaseLock` | src/master/lock_server_cache.cc:99-146 | New state, whom to notify, and the status, IOERR or RPCERR when the notice fails; a release by a non-holder changes nothing; other locks unchanged. |
| `Lru.SmallerWithinLarger` | src/include/util/lru.h:13-57 | For any run of the same calls and capacities C <= D, the smaller recency list is a subsequence of the larger, values included, and equal to it until full. |
| `Lru.HitsAreMonotone` | src/include/util/lru.h:13-25 | Every hit in the smaller cache is the same hit in the larger. |
| `Lru.ListedByUse` | src/include/util/lru.h:13-57 | Over every run, from the calls alone: keys are listed by their last call, the latest first, each with the value last put under it. |
| `Lru.EvictsOldest` | src/include/util/lru.h:38-56 | A put keeps another entry exactly if its key was present, there is room, or some listed key was last called before that entry. |
| `Lru.GetAnswers` | src/include/util/lru.h:13-25 | Over every run a get answers the value last put under its key, or nothing if the key is gone. |
| `Lru.PutIsFirst` | src/include/util/lru.h:27-57 | A put entry is the most recent one, unless the capacity is 0. |
| `Lru.LRUCache.Get` | src/include/util/lru.h:13-25 | A hit returns the value and makes the entry most recent; list and table stay linked. |
| `Lru.LRUCache.Put` | src/include/util/lru.h:27-57 | Update or insertion at the front, eviction of the last entry exactly when a new key exceeds the capacity, and which entry the callback gets. |
| `DirCodec.ParseUndoesEncode` | src/client/yfs_client.cc:48-90 | Parsing undoes encoding for every list of entries whose fields fit their integers. |
| `DirCodec.EncodeUndoesParse` | src/client/yfs_client.cc:48-90 | For contents below 2^31 bytes encoding undoes every successful parse: a content parses exactly when it is an encoding, and of one list only. |
| `DirCodec.ParseDir` | src/client/yfs_client.cc:48-79 | The loop reads only inside the content, appends the parsed entries, and fails exactly on a malformed entry. |
| `DirCodec.EncodeDir` | src/client/yfs_client.cc:81-90 | The loop produces the encoding of the list. |

## Left out

- Sockets, poll manager, thread pool, connection reference counts, FUSE handlers and `main` files: input and output plumbing without state of interest here.
- Wrap-around of 32-bit call numbers, and server restarts with a new nonce: call numbers are unbounded and there is one server instance.
- Two clients that draw the same random nonce: nonces are distinct.
- Clients with nonce 0: they opt out of duplicate suppression, and the server answers NEW unconditionally.
- RpcSystem.ReplayFidelity: replies are values, and sending is part of the section that decides on it. The source sends a stored buffer after unlocking, and freeing that buffer in the meantime is not modelled.
- `cancel` as a step of the whole protocol: a call it fails ends like one that times out, or like one that returns if a reply came first.
- RPC argument marshalling and handler dispatch by procedure number: a reply is its return code and body.
- Access, modification and change times of extents, and reconnection after failed RPCs in the extent cache.
- The client half of the lock cache: the coherence model uses the lock contract stated for the extent client, that the caller holds a lock on the extent.
- When a revoke or retry call reaches its client: the lock server model records the call and how it went when it is decided on, under the server's mutex. A call that fails counts as not received.
- What a lock client does with IOERR or RPCERR: it stays in the queue, as in the source.
- Torn writes, short reads and failing files; `LogCurrent` with a caller-given offset; restarting the table manager on a directory that already has tables, where file numbers start again.
- MultiIter.MultiIter.constructor: input iterators are given by the records they return, because the table and memtable iterators are proved to return exactly their records.
- Lsm.ScanGivesLatest: assumes records whose lengths and lsn fit their 64-bit fields, a valid lsn, and a size counter that does not overflow.
- The prefix tree's nodes are values rather than objects in a heap: sharing of nodes between the tree and the servers' lists, and links to parents, are not captured.
- Choosing a KV server for a new node, and registering servers.
- PushPass.PassConserves: covers the push phases only; the overweighed and pull phases of `Adjust` are not modelled. Pull splits the first subtree of a list, which `SplitConservesExactly` shows to conserve files only if the last one has the same files.
- PushPass.Balancer.PushPhase: memory and scores are unbounded integers, so overflow of the 64-bit product and truncation of the score to `int` are not modelled.
- Wal.ReplayIsExact: assumes records that fit their 64-bit fields and a log below 2^64 bytes.
- DirCodec.ParseUndoesEncode: holds of the parser on encodings of any length, and so of the source below 2^31 bytes only.
- DirCodec.ParseDir: contents of 2^31 bytes or more, where the 32-bit position could wrap, are not modelled.
- The older write-ahead log, the MVCC layer, the raft and key-value wrappers, the address cache and the info collector.
