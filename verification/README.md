# SQL-Engine in Dafny

A model of the relational engine in this repository, with proofs. It follows the program's
own parts: a paged B+ tree, two-phase locking with a write-ahead log and crash recovery, a
buffer pool over page files, a slotted heap with a record codec, a join-order optimizer,
pull-based operators with their planner and rewriter, and the expression parser.
`dafny verify dfyconfig.toml` checks everything.

Objects whose methods update fields are classes here, loops are loops, and each method is
proved against a function on values; the theorems are lemmas about those functions. An
exception of the source is a result (`ok == false`, `None`, an answer `Throws`).

| part | files |
|---|---|
| B+ tree | `BTreeSpec` (trees as values), `BTreeProofs`, `BTreeTheorems`, `BTreeFill`, `BPlusTree` (nodes with arrays, pages) |
| transactions | `LockManager`, `TransactionManager`, `TxMachine` (steps and histories), `Serializability`, `Visibility` (steps and scans row by row), `Engine` (the engine takes these steps) |
| log and recovery | `Recovery` (slots), `LogTrace` (logs of histories), `WalManager` (the loops), `WalText` (the file format), `WalFormat` (character by character), `WalTorn` (files cut short), `Rollback`, `Truncation` (what does not hold) |
| pages | `FileManager`, `BufferManager`, `Record`, `TableHeap`, `PooledHeap` (the heap on the pool), `StorageEngine` (heap and index together) |
| queries | `Expressions`, `Operators`, `Plans`, `Rewriter`, `RewriteEffect`, `Planner`, `PlanMeaning`, `Answers` (row by row), `Generator`, `Parser`, `ParserRoundTrip`, `Lexicon` (letter by letter), `Precedence`, `Bits`, `JoinOrder`, `JoinOrderLimits` |

How to read the main results:

- **Runs.** `TxMachine` has one event for each step: BEGIN, a locked scan, a locked and
  logged insert, delete or update, a write that throws with its lock taken, a refused lock,
  COMMIT, ROLLBACK. An event records what the step returned, so "the same reads" is part of
  every statement. The engine methods in `Engine` are proved to take exactly these steps,
  and the engine's invariant holds the history, so `EngineSerializable` and
  `EngineRecovers` are about every engine object at every moment.
- **Crashes.** A slot on disk has a liveness byte and row bytes. At a crash each slot holds
  the effect of some prefix of its durable log records, independently of the others.
- **Operators.** A stream may open or not, delivers rows, and ends or throws; the executor
  is proved equal to it, exceptions included.
- **Join order.** Row estimates depend on the split that was chosen, so optimality is stated
  with the row counts that the finished table holds; `JoinOrderLimits` shows that without
  them it does not hold.

Where the code and its intent differ, the model follows the code, except in two places: the
last child at the split of an inner node, and the positions of names in a join, are the
intended ones. For each deviation a theorem says for all inputs when the code is right:

| deviation | exact condition |
|---|---|
| the split of an inner node takes its last child from beyond the live ones; and an overfull node writes `keys[MAX_KEYS]` (bPlusTree/BPlusTree.h:180-186, 214-221), outside the array | never right (`BPlusTree.LastChildIndex`); the model's arrays have one spare key and child, and a split copies the child that belongs there |
| ROLLBACK undoes nothing, and recovery skips aborted transactions | `Rollback.RollbackExact`, `Rollback.PlaceExact`; a lost committed update is `Rollback.CommittedUpdateLost` |
| a page may reach the disk before its log record | `LogTrace.CrashRecoveryExact` for every disk, `LogTrace.PageOvertakesLog` for one page |
| recovery truncates the log before pages are written | `Truncation.TruncationExact` |
| recovery runs before tables are registered, and the log stream is opened twice | `WalManager.RecoveryCompletes`, `Engine.OpenAsWritten` |
| empty strings in the log; a torn last line | `WalText.LogRoundTrip`; `WalTorn.CutExact` |
| a fetch from a closed file breaks the buffer pool | `BufferManager.BufferManager.FetchPage` |
| a duplicate key hides a row from the index | `StorageEngine.RunAgrees` |
| the column map of a join follows hash order | `Generator.HashOrderExact`, where the generator uses the intended positions |
| the identity test of the rewriter looks for columns 0, 1, ... | `Plans.TestExact`, `Generator.AnswerExact` |
| a filter moves below a projection that drops its columns | `Plans.SwapExact` |
| the rewriter stops at a pass that keeps the node on top, even if something below it still changes | `Rewriter.RewritePlan` |
| row estimates depend on the split | `JoinOrderLimits.AgreeExact`; harmless up to three tables (`OutrightUpToThree`) |
| an UPDATE whose new row does not fit is logged and not done; an INSERT with a key that is no INT is done and not indexed | `Engine.StorageEngine.UpdateRecords`, `InsertRecord` |
| operator precedence is not used | `Precedence.RespectsPrecedence` |

What the results on transactions rest on: transaction ids are not 0 (the transaction
manager starts at 1), no lock is released before its transaction ends (the engine never
calls `unlock`), the log record of a write is durable before its page is (the disks of
`Recovery.PrefixDisk`), the log stream has not failed and no UPDATE was refused by the heap
after it was logged (`sound` in `Engine`; its steps say what happens otherwise), and the
tables are registered when recovery runs.

## Model

| member | source | states |
|---|---|---|
| `BTreeTheorems.RunCorrect` | bPlusTree/BPlusTree.h:140-278 | After any sequence of inserts and removes on an empty index: keys sorted, left keys < separator <= right keys, all leaves at one depth, no page reached twice, stored nodes within MAX_KEYS, leaf chain intact; the contents are those of a plain map under the same sequence, and find agrees with it for every key |
| `BTreeTheorems.InsertKeeps` | bPlusTree/BPlusTree.h:166-261 | One insert, through leaf splits, inner splits and root growth, keeps the whole tree invariant and changes the map at its key only |
| `BTreeTheorems.RemoveKeeps` | bPlusTree/BPlusTree.h:263-278 | One remove, though it may empty a leaf, keeps the invariant and takes out its key only |
| `BTreeTheorems.LookupCorrect` | bPlusTree/BPlusTree.h:140-164 | Walking down by upper bounds and searching the leaf finds what the map holds, hit or miss |
| `BTreeTheorems.ScanMeaning` | bPlusTree/BPlusTree.h:280-301 | A range scan returns the values of exactly the keys in [low, high], ascending, once each |
| `BTreeTheorems.InsertChain` | bPlusTree/BPlusTree.h:191-205 | The next pointers of the leaves are the in-order list of leaves, also after splits |
| `BTreeTheorems.InsertContents` | bPlusTree/BPlusTree.h:166-242 | Inserting below a node gives the map with the key set, whatever was split |
| `BTreeProofs.InsertOrdered` | bPlusTree/BPlusTree.h:206-242 | Separator bounds hold in both halves after a split at any level |
| `BTreeProofs.InsertReach` | bPlusTree/BPlusTree.h:166-242 | An insertion uses the old pages once each and a split takes exactly the next fresh page |
| `BTreeProofs.InsertLeaves` | bPlusTree/BPlusTree.h:173-205 | Only the leaf on the search path changes in the in-order list of leaves |
| `BTreeFill.InsertOnlyFilled` | bPlusTree/BPlusTree.h:187-205 | Inserts alone leave every node but the root at least half full |
| `BTreeFill.HeightBound` | bPlusTree/BPlusTree.h:221-261 | After inserts alone, a tree with h >= 1 inner levels holds at least 2 * (MAX_KEYS/2 + 1)^(h-1) * (MAX_KEYS/2) entries |
| `BTreeFill.FilledCount` | bPlusTree/BPlusTree.h:187-205 | A half-full subtree of height h holds at least (MAX_KEYS/2) * (MAX_KEYS/2 + 1)^h entries |
| `BPlusTree.Node.InsertEntry` | bPlusTree/BPlusTree.h:180-186 | Shifting in place and writing one place gives the sorted insertion into keys and values |
| `BPlusTree.Node.InsertChild` | bPlusTree/BPlusTree.h:214-220 | The same for a separator and the child to its right |
| `BPlusTree.Node.RemoveEntry` | bPlusTree/BPlusTree.h:271-275 | Shifting back closes exactly the gap |
| `BPlusTree.Node.SplitLeaf` | bPlusTree/BPlusTree.h:191-201 | The two leaves hold the lower and the upper half of the entries |
| `BPlusTree.Node.SplitInner` | bPlusTree/BPlusTree.h:225-236 | The middle key goes up; keys and children after it move to the new node |
| `BPlusTree.Node.Search` | bPlusTree/BPlusTree.h:146-152 | The first matching entry of the leaf, or none |
| `BPlusTree.Node.Collect` | bPlusTree/BPlusTree.h:289-295 | The values of one leaf within the range, and where the scan may stop |
| `BPlusTree.LastChildIndex` | bPlusTree/BPlusTree.h:235-235 | The live children of an overfull node are 0..numKeys: the index numKeys + 1 in the source is outside, numKeys is the child that belongs there |
| `BPlusTree.BPlusTree.FindLeafPage` | bPlusTree/BPlusTree.h:155-164 | Reaches the page of the leaf responsible for the key |
| `BPlusTree.BPlusTree.InsertRecursive` | bPlusTree/BPlusTree.h:166-242 | The pages afterwards store the tree that the insertion function gives; split, separator and new page are the ones to hand to the parent; no other page below is touched |
| `BPlusTree.BPlusTree.InsertIntoLeaf` | bPlusTree/BPlusTree.h:173-205 | Overwrite, insert or insert and split, as stored pages |
| `BPlusTree.BPlusTree.PutChild` | bPlusTree/BPlusTree.h:212-224 | The promoted key and its page go into the inner node, which is split if it overflows |
| `BPlusTree.BPlusTree.SplitInner` | bPlusTree/BPlusTree.h:225-240 | Both halves of an inner node are stored, the new one on the next page |
| `BPlusTree.BPlusTree.Insert` | bPlusTree/BPlusTree.h:244-261 | The index keeps its invariant on pages and its entries change at the key only |
| `BPlusTree.BPlusTree.GrowRoot` | bPlusTree/BPlusTree.h:248-260 | The new root page holds the separator and both halves |
| `BPlusTree.BPlusTree.Find` | bPlusTree/BPlusTree.h:140-153 | Returns what the entries map holds for the key |
| `BPlusTree.BPlusTree.Remove` | bPlusTree/BPlusTree.h:263-278 | Answers whether the key was there and takes exactly it out |
| `BPlusTree.BPlusTree.RangeScan` | bPlusTree/BPlusTree.h:280-301 | The page-by-page scan along the leaf chain terminates and equals the scan of ScanMeaning |
| `LockManager.NoConflict` | lockManager/LockManager.cpp:4-40 | While one transaction holds X, no other holds X or S on the resource |
| `LockManager.GrantExact` | lockManager/LockManager.cpp:4-40 | When either lock is granted, in terms of the locks that others hold |
| `LockManager.LocksAfter` | lockManager/LockManager.cpp:4-73 | Who holds what after each of lockShared, lockExclusive, unlock and release, for every transaction and resource |
| `LockManager.LockingKeeps` | lockManager/LockManager.cpp:4-40 | Granting a lock keeps "X held by t implies S holders are within {t}" and gives the lock |
| `LockManager.LockingFrame` | lockManager/LockManager.cpp:4-40 | Granting a lock changes no lock of other transactions and no other resource |
| `LockManager.ReleasedMeaning` | lockManager/LockManager.cpp:58-73 | A release takes all locks of the transaction and none of others |
| `LockManager.ReleasingKeeps` | lockManager/LockManager.cpp:42-73 | Releasing keeps the lock invariant and leaves no entry without a holder |
| `LockManager.ZeroIsNoHolder` | lockManager/LockManager.cpp:4-40 | Transaction id 0 would not be protected by its own X lock |
| `LockManager.LockManager.LockShared` | lockManager/LockManager.cpp:4-16 | Granted exactly if no other transaction holds X, so never refused by its own locks; the S lock is added and every other lock of anybody stays; refused means unchanged |
| `LockManager.LockManager.LockExclusive` | lockManager/LockManager.cpp:18-40 | Granted exactly if no other transaction holds X or S; the transaction then holds X, its own S lock is given up for it, and every other lock of anybody stays |
| `LockManager.LockManager.Unlock` | lockManager/LockManager.cpp:42-56 | Both kinds of lock of the transaction on this resource go, and an empty entry |
| `LockManager.LockManager.ReleaseTransactionLocks` | lockManager/LockManager.cpp:58-73 | Erasing while iterating, in any order, gives exactly the released table |
| `TransactionManager.TransactionManager.BeginTransaction` | transactionManager/TransactionManager.cpp:7-11 | A fresh id, never 0 and never reused, active |
| `TransactionManager.TransactionManager.CommitTransaction` | transactionManager/TransactionManager.cpp:13-20 | Only an active transaction becomes committed; anything else fails and changes nothing |
| `TransactionManager.TransactionManager.AbortTransaction` | transactionManager/TransactionManager.cpp:22-29 | Only an active transaction becomes aborted; no data is touched |
| `TransactionManager.TransactionManager.GetState` | transactionManager/TransactionManager.cpp:31-35 | Throws exactly for an id that BeginTransaction never returned; every id handed out keeps a state for good |
| `Serializability.Serializable` | queryEngine/lockOptimized/QueryEngine.cpp:72-101 | Every history, however it interleaves, whose ROLLBACKs are of transactions that changed nothing, is equivalent to running its committed transactions one by one in COMMIT order: same results of every operation, same final tables |
| `Serializability.ReadsOwnOrCommitted` | storageEngine/lockOptimized/StorageEngine.cpp:33-139 | A running transaction has seen committed data and its own writes only: its operations can be rerun after the committed ones with the same results |
| `Serializability.Reachable` | storageEngine/lockOptimized/StorageEngine.cpp:33-139 | The invariant behind both, for those histories: holders are active, every transaction holds locks for all it did, tables show the committed state plus the work of their X holder |
| `Serializability.RunOpsLocal` | storageEngine/lockOptimized/StorageEngine.cpp:33-121 | What operations return and leave depends on the tables they touch only |
| `Visibility.ScanShows` | storageEngine/lockOptimized/StorageEngine.cpp:131-139 | After any history a scan shows, of each place, the row that the last insert or update left there, nothing if that was a delete, and the row at the start if nobody wrote it; whoever else wrote the table is not running any more |
| `Visibility.PlaceShows` | storageEngine/lockOptimized/StorageEngine.cpp:33-121 | The same of the tables after any history, rollbacks included |
| `Visibility.WriterHolds` | storageEngine/lockOptimized/StorageEngine.cpp:33-121 | Whoever wrote a table and is still running holds its X lock |
| `Visibility.ReturnsExact` | storageEngine/lockOptimized/StorageEngine.cpp:33-139 | When an operation can return what it recorded: a scan exactly the live rows, an insert a dead place, a lookup the row its index entry leads to |
| `Visibility.EffectExact` | storageEngine/lockOptimized/StorageEngine.cpp:33-121 | What an operation leaves in every place and every index entry of every table |
| `Visibility.OpsOfExact` | queryEngine/lockOptimized/QueryEngine.cpp:72-101 | The operations of a transaction are its own, each as often as it happened, in order |
| `Visibility.SerialExact` | queryEngine/lockOptimized/QueryEngine.cpp:79-90 | In the serial execution each transaction has all its operations, after those committed before it |
| `Visibility.SerialOnly` | queryEngine/lockOptimized/QueryEngine.cpp:79-90 | Only operations of committed transactions are in the serial execution |
| `LogTrace.CrashRecovery` | _WALManager/WALManager.cpp:156-200 | For every history without ROLLBACK, every crash point with at least the flushed records durable, and every disk on which each slot holds the effect of some prefix of its durable records: redo then undo leaves exactly the rows of the committed transactions run serially |
| `LogTrace.CrashInRecovery` | _WALManager/WALManager.cpp:156-207 | A second crash in the middle of recovery changes nothing: recovering again gives the same rows |
| `LogTrace.Traced` | storageEngine/lockOptimized/StorageEngine.cpp:33-121 | In the log of every history, the records of a place are a run of committed writes that leads to the committed value, then writes of the X holder that lead to the current one |
| `LogTrace.LogPrefix` | queryEngine/lockOptimized/QueryEngine.cpp:80-90 | Every prefix of the log is the log of a prefix of the history; from the flushed length on, no commit is missing from it |
| `LogTrace.RecoverHistory` | _WALManager/WALManager.cpp:156-200 | Recovery of the full log of a history gives the committed rows if and only if each slot on disk is as alive as before where no record switches its liveness, and unchanged where no record is about it |
| `LogTrace.CrashRecoveryExact` | _WALManager/WALManager.cpp:156-200 | The same for every crash point: which disks recover, exactly, with at least the flushed records durable |
| `LogTrace.PageOvertakesLog` | storageEngine/lockOptimized/StorageEngine.cpp:57-60 | When a page may reach the disk before its log record: exactly if the durable log switches the liveness of the place, or the missing record is an update of a place with durable records, or of a row to itself |
| `Recovery.SlotRecovered` | _WALManager/WALManager.cpp:163-200 | Redo of the winners and undo of the loser give the committed value of a slot if and only if the slot is in a state that the log can repair |
| `Recovery.UndoVal` | _WALManager/WALManager.cpp:180-200 | Writing before-images in reverse order restores the value before the first write |
| `Recovery.RedoVal` | _WALManager/WALManager.cpp:163-178 | Redoing a run of writes gives its final value as soon as one of them sets the liveness byte, and the right bytes otherwise |
| `Recovery.RecoverPlace` | _WALManager/WALManager.cpp:156-200 | Every place of the disk gets its committed value if and only if its slot is in such a state |
| `Recovery.RecoveredSlot` | _WALManager/WALManager.cpp:156-200 | What recovery makes of one slot, whatever the log and the disk: the winners redone, then the losers undone in reverse, no other slot looked at |
| `Recovery.Restartable` | _WALManager/WALManager.cpp:163-207 | Recovery interrupted after any steps, slot by slot independently, and started again agrees with an uninterrupted one |
| `Recovery.PrefixIsCrashDisk` | _WALManager/WALManager.cpp:163-200 | Disks that hold, slot by slot, a prefix of the logged writes are among those that recovery handles |
| `Recovery.RecoverIsSteps` | _WALManager/WALManager.cpp:163-200 | Recovery is the sequence of its redo and undo steps |
| `Rollback.RollbackExact` | queryEngine/lockOptimized/QueryEngine.cpp:91-101 | ROLLBACK leaves committed data behind exactly if the operations of the transaction change nothing |
| `Rollback.RollbackKeepsTheRow` | queryEngine/lockOptimized/QueryEngine.cpp:91-101 | BEGIN, INSERT, ROLLBACK: nothing is committed, and the row is there |
| `Rollback.PlaceExact` | _WALManager/WALManager.cpp:156-200 | What recovery makes of any place under any log, whoever committed, aborted or was running: the liveness and the row before the first undone record, else those of the last redone one, else those on disk; aborted records are skipped |
| `Rollback.CommittedUpdateLost` | _WALManager/WALManager.cpp:182-183 | Transaction 2 updates a row that transaction 1 inserted and rolled back, and commits: after a crash before any page write the row is gone |
| `Rollback.AbortedInsertSurvives` | _WALManager/WALManager.cpp:182-183 | The row of a rolled-back insert survives recovery |
| `Truncation.TruncationExact` | _WALManager/WALManager.cpp:202-207 | After recovery has truncated the log with some places flushed, the committed rows survive every crash if and only if every durable record about a place not flushed updates a row to itself |
| `Truncation.QuietPlace` | _WALManager/WALManager.cpp:202-207 | A place where the log changes nothing has its committed value, however far recovery and the flushing of its pages got |
| `Truncation.LostPlaces` | _WALManager/WALManager.cpp:202-207 | At any other place there are a crash disk and a later one on which the committed value is gone |
| `Truncation.TruncationLosesCommit` | _WALManager/WALManager.cpp:202-207 | A committed insert that was redone but not flushed is gone |
| `WalManager.WALManager.Append` | _WALManager/WALManager.cpp:33-82 | A record is appended to the stream; a failed stream takes nothing |
| `WalManager.WALManager.Flush` | _WALManager/WALManager.cpp:21-24 | Everything logged is in the file afterwards |
| `WalManager.WALManager.Analyse` | _WALManager/WALManager.cpp:156-161 | The committed and the aborted transactions of the log |
| `WalManager.WALManager.RedoPass` | _WALManager/WALManager.cpp:163-178 | The forward loop does the redo steps in log order, up to the first unknown table |
| `WalManager.WALManager.UndoPass` | _WALManager/WALManager.cpp:180-200 | The reverse loop does the undo steps in reverse order, up to the first unknown table |
| `WalManager.WALManager.Recover` | _WALManager/WALManager.cpp:156-208 | Gets to its end exactly if every record to redo or undo names a registered table, and then the disk is recovered and the log empty; otherwise exactly the steps before the unknown table are done and the log is kept |
| `WalManager.RecoveryCompletes` | _WALManager/WALManager.cpp:163-200 | When recovery gets through, for any registry; with no table registered, only if no record needs redo or undo |
| `WalManager.StartEngine` | queryEngine/lockOptimized/QueryEngine.cpp:41-44 | The constructor recovers before tables are registered, and reopens a stream that is still open: what is logged next is lost |
| `WalManager.Storage.RedoInsert` | storageEngine/StorageEngine.cpp:121-131 | Writes the slot alive with the row, or fails on an unknown table |
| `WalManager.Storage.RedoDelete` | storageEngine/StorageEngine.cpp:133-140 | Clears the liveness byte only |
| `WalManager.Storage.RedoUpdate` | storageEngine/StorageEngine.cpp:142-149 | Writes the bytes only |
| `Engine.StorageEngine.ScanTable` | storageEngine/lockOptimized/StorageEngine.cpp:131-139 | Returns exactly the live rows of the table, with an S lock, and changes no data; a conflict exactly if another transaction holds X; one step of the machine |
| `Engine.StorageEngine.InsertRecord` | storageEngine/lockOptimized/StorageEngine.cpp:33-67 | The filled row is at its place and in the log, its INT key leads to it, and no other row, entry or table changes; an unknown column or a row that does not fit throws with the lock taken and nothing done; a key that is no INT throws with the row in heap and log but not in the index; a conflict exactly if another transaction holds a lock |
| `Engine.FillRow` | storageEngine/lockOptimized/StorageEngine.cpp:44-54 | Each column has the value given last under its name, or its default; fails exactly on a name that no column has |
| `Engine.StorageEngine.DeleteRecords` | storageEngine/lockOptimized/StorageEngine.cpp:69-92 | The row that the key leads to and its entry go, and the old row is in the log; no other row, entry or table changes; without an entry nothing changes; a conflict exactly if another transaction holds a lock |
| `Engine.StorageEngine.UpdateRecords` | storageEngine/lockOptimized/StorageEngine.cpp:94-121 | The row that the key leads to is replaced and both rows are in the log, nothing else changes; an assignment that cannot be evaluated throws with nothing done, and a row that does not fit throws with a log record of an update that was not done |
| `Engine.LookupFinds` | storageEngine/lockOptimized/StorageEngine.cpp:78-83 | After any history an index entry leads to a live row, so the fetch after the lookup never throws |
| `Engine.QueryEngine.ExecuteBegin` | queryEngine/lockOptimized/QueryEngine.cpp:73-78 | Refused while a transaction is open; otherwise a new active transaction |
| `Engine.QueryEngine.ExecuteCommit` | queryEngine/lockOptimized/QueryEngine.cpp:79-90 | The transaction is committed, its locks and no others are gone, no data changes, and the COMMIT record is in the file exactly if the log stream has not failed |
| `Engine.QueryEngine.ExecuteRollback` | queryEngine/lockOptimized/QueryEngine.cpp:91-102 | The transaction is aborted, its locks and no others are gone, and no data changes: nothing is undone |
| `Engine.OpenAsWritten` | queryEngine/lockOptimized/QueryEngine.cpp:41-44 | The constructor as written gets through exactly if the log found holds nothing to redo or undo, and then every later step works on a failed log stream |
| `Engine.FailureGoesUnnoticed` | storageEngine/lockOptimized/StorageEngine.cpp:33-121 | With a failed stream the same steps are possible with the same results, so nobody notices that nothing is logged |
| `Engine.EngineSerializable` | storageEngine/lockOptimized/StorageEngine.cpp:33-139 | Of every engine at every moment, whatever methods its sessions called: its tables are those of running the committed transactions one by one, wherever nobody holds X, and everywhere if nobody is running |
| `Engine.EngineRecovers` | _WALManager/WALManager.cpp:156-200 | Of every engine whose log is sound, at every moment: from any crash disk and any log prefix not shorter than the file, recovery gives the committed rows |
| `WalText.LineRoundTrip` | _WALManager/WALManager.cpp:26-153 | A printed INSERT, DELETE, UPDATE, COMMIT or ABORT line is read back as its record, the old and new rows around the semicolon included, unless a row has an empty string: then reading it throws |
| `WalText.LogRoundTrip` | _WALManager/WALManager.cpp:103-154 | A whole log file is read back, or throws: the latter exactly if some row in it has an empty string |
| `WalText.IntTextRead` | _WALManager/WALManager.cpp:26-31 | Printed integers are read back, whatever non-digit follows |
| `WalText.SplitValues` | _WALManager/WALManager.cpp:84-90 | Splitting at commas gives back the printed values |
| `WalText.SplitString` | _WALManager/WALManager.cpp:84-90 | The getline loop computes the split, without a token after a final delimiter |
| `WalFormat.LineFormat` | _WALManager/WALManager.cpp:26-82 | One line of each kind, character by character |
| `WalFormat.SplitExact` | _WALManager/WALManager.cpp:84-90 | The split cuts at every delimiter and nowhere else, with no token after a final one |
| `WalFormat.ParseIntExact` | _WALManager/WALManager.cpp:92-101 | Spaces, a sign or none, digits and anything after them read as the number if it is in range; without a digit, nothing |
| `WalFormat.FieldExact` | _WALManager/WALManager.cpp:92-101 | Which tokens read as which field |
| `WalText.ReadLog` | _WALManager/WALManager.cpp:103-154 | Reading stops with an exception exactly if some line cannot be read; otherwise it gives all records |
| `WalText.EmptyStringThrows` | _WALManager/WALManager.cpp:92-101 | Any record with an empty string, in any row, is written but makes recovery throw |
| `WalText.TornLog` | _WALManager/WALManager.cpp:103-154 | A log file with a torn line after its records reads as those records and whatever the torn line happens to say |
| `WalTorn.EveryPrefix` | _WALManager/WALManager.cpp:103-154 | Every prefix of a log file, byte by byte, is the text of its first records and a part of the next line, and reads so |
| `WalTorn.CutExact` | _WALManager/WALManager.cpp:103-154 | The first n bytes of a log file are read as its first m records if and only if none of these has an empty string and the cut is at the end of the m-th line, with or without its newline; every other cut throws or makes up a record |
| `WalTorn.PartOfLine` | _WALManager/WALManager.cpp:110-153 | A line of which some is missing throws or reads as another record: never as its own, and it is never skipped |
| `WalTorn.ShortestLine` | _WALManager/WALManager.cpp:110-153 | Whatever text reads as a record, an UPDATE apart, is at least as long as the printed line of that record |
| `WalTorn.EndLineCut` | _WALManager/WALManager.cpp:74-82 | A COMMIT or ABORT line without its last k characters is about the transaction whose number has k digits less, and throws if no digit is left |
| `WalText.RecoverFile` | _WALManager/WALManager.cpp:103-208 | Recovery from the file: gets through exactly if every line can be read and every table in them is known where it matters; a line that cannot be read leaves the disk alone |
| `WalText.RecoverWritten` | _WALManager/WALManager.cpp:103-208 | From a file that the log manager wrote, recovery gets through exactly if no row has an empty string and the tables are known; the disk is then the recovered one |
| `BufferManager.BufferManager.SelectVictimFrame` | bufferManager/BufferManager.cpp:100-111 | Fails exactly if all frames are valid and pinned, and then the hand is back where it was; otherwise takes the first frame after the hand that can be evicted |
| `BufferManager.BufferManager.FetchPage` | bufferManager/BufferManager.cpp:22-55 | No page looks different afterwards, frames in use stay put, the page has one pin more and no other page has; it fails exactly if the page is absent and there is no room or no such file, and the second failure breaks the pool exactly if the first evictable frame after the hand was valid |
| `BufferManager.OneVictim` | bufferManager/BufferManager.cpp:100-111 | Frames and hand before the call decide which frame that is |
| `BufferManager.HandExact` | bufferManager/BufferManager.cpp:100-111 | The clock hand goes round the frames one by one |
| `BufferManager.BufferManager.Evict` | bufferManager/BufferManager.cpp:36-44 | Write-back and unmapping leave the view and all other frames alone |
| `BufferManager.BufferManager.LoadInto` | bufferManager/BufferManager.cpp:46-54 | Loading keeps bijection, view and pins; a closed file leaves a valid victim behind |
| `BufferManager.OrphanForgets` | bufferManager/BufferManager.cpp:36-47 | Evicting a frame left behind can hide a pinned, written page of the same name |
| `BufferManager.BufferManager.PinPage` | bufferManager/BufferManager.cpp:57-62 | One pin more, on a page in the pool only |
| `BufferManager.BufferManager.UnpinPage` | bufferManager/BufferManager.cpp:64-71 | One pin less, on a pinned page only |
| `BufferManager.BufferManager.WriteData` | bufferManager/BufferManager.cpp:22-55 | Writing through the pointer changes the view of that page only |
| `BufferManager.BufferManager.MarkDirty` | bufferManager/BufferManager.cpp:73-78 | Makes the pool sound again exactly if the page can be written back |
| `BufferManager.BufferManager.FlushPage` | bufferManager/BufferManager.cpp:80-89 | The page is on disk as its users see it, and nothing looks different |
| `BufferManager.BufferManager.FlushAllPages` | bufferManager/BufferManager.cpp:91-98 | The disk equals the view of every page |
| `BufferManager.WriteBack` | bufferManager/BufferManager.cpp:37-41 | Writing one dirty frame back keeps bijection, view and all clean frames equal to disk |
| `FileManager.WriteOne` | fileManager/FileManager.cpp:53-62 | Writing a page, even past the end, changes what that page reads as and no other |
| `FileManager.NegativeWrite` | fileManager/FileManager.cpp:53-62 | Writing a negative page number loses the whole file |
| `FileManager.FileManager.ReadPage` | fileManager/FileManager.cpp:32-51 | Pages out of bounds read as zeros |
| `FileManager.FileManager.WritePage` | fileManager/FileManager.cpp:53-62 | The file afterwards |
| `FileManager.FileManager.AllocatePage` | fileManager/FileManager.cpp:77-92 | A page from the free list, last freed first, or a zero page at the end; nothing readable changes |
| `FileManager.FileManager.DeallocatePage` | fileManager/FileManager.cpp:94-98 | The page goes to the free list |
| `FileManager.FileManager.OpenFile` | fileManager/FileManager.cpp:5-22 | A new handle; failure if the file can be neither opened nor created, and the handle is used up all the same |
| `FileManager.FileManager.CloseFile` | fileManager/FileManager.cpp:24-29 | The handle is gone, or was unknown |
| `Bits.NextSub` | queryOptimizerAndPlanner/Optimizer.h:33-33 | (left - 1) & mask is the next smaller submask: none is skipped and none comes twice |
| `Bits.FirstSub` | queryOptimizerAndPlanner/Optimizer.h:33-33 | The enumeration starts at the largest proper submask |
| `Bits.Complement` | queryOptimizerAndPlanner/Optimizer.h:34-34 | mask ^ left is the rest of the mask, disjoint from left |
| `Bits.OneBit` | queryOptimizerAndPlanner/Optimizer.h:31-31 | The singleton test is true exactly of masks with one bit |
| `JoinOrder.Optimal` | queryOptimizerAndPlanner/Optimizer.h:13-54 | No bushy tree that scans every table once is cheaper than the last entry, under the row counts in the table |
| `JoinOrder.LowerBound` | queryOptimizerAndPlanner/Optimizer.h:28-51 | No join tree is cheaper than the entry for its set of tables |
| `JoinOrder.Attained` | queryOptimizerAndPlanner/Optimizer.h:46-48 | The plan of an entry joins exactly its tables, at the cost and with the rows that the entry says |
| `JoinOrder.JoinsAllMeaning` | queryOptimizerAndPlanner/Optimizer.h:28-34 | Scanning every table exactly once is having the full mask without overlap |
| `JoinOrder.BestSplit` | queryOptimizerAndPlanner/Optimizer.h:32-50 | The inner loop leaves the entry that is best among all splits |
| `JoinOrder.Singletons` | queryOptimizerAndPlanner/Optimizer.h:20-26 | The single-table entries, or failure on a table without statistics or scan |
| `JoinOrder.LargerSets` | queryOptimizerAndPlanner/Optimizer.h:28-52 | The outer loop fills the table so that Bellman's equation holds everywhere |
| `JoinOrder.OptimizeJoins` | queryOptimizerAndPlanner/Optimizer.h:13-54 | The returned plan scans every table once and costs no more than any other such tree; no tables, no plan; an unknown table fails |
| `JoinOrderLimits.NotCheapestOutright` | queryOptimizerAndPlanner/Optimizer.h:41-47 | With each tree's own row estimates the chosen plan is not the cheapest: four tables of 2, 1, 3 and 100 rows |
| `JoinOrderLimits.CostsWritten` | queryOptimizerAndPlanner/CostModel.h:11-43 | What one, two and three tables cost and how many rows are estimated, written out |
| `JoinOrderLimits.AgreeExact` | queryOptimizerAndPlanner/Optimizer.h:41-44 | Row estimates are independent of the split, for all pairs of join trees over the same tables, if and only if joining a table with any table after it gives the same estimate |
| `JoinOrderLimits.OutrightIfEstimatesAgree` | queryOptimizerAndPlanner/Optimizer.h:41-47 | Under that condition on the row counts, the choice is the cheapest outright, for any number of tables |
| `JoinOrderLimits.OutrightUpToThree` | queryOptimizerAndPlanner/Optimizer.h:41-47 | Up to three tables it is the cheapest outright whatever the row counts are; NotCheapestOutright shows that three is the limit |
| `JoinOrderLimits.OwnCostOfEntry` | queryOptimizerAndPlanner/Optimizer.h:41-48 | The cost of an entry is the cost of its plan with its own estimates |
| `Operators.Operator.Open` | queryOptimizerAndPlanner/nestedLoopJoin/NestedLoopJoin.h:6-11 | From any earlier state, opening starts the full stream of the plan, so close-then-open replays; it throws exactly where the denotation does |
| `Operators.Operator.Next` | physicalOperator/tableScan/TableScan.cpp:22-29 | The next row of the stream, its end, or the exception, in this order |
| `Operators.Operator.NextFilter` | physicalOperator/filter/Filter.cpp:13-19 | Skips exactly the rows that the predicate rejects |
| `Operators.Operator.NextProject` | physicalOperator/project/Project.cpp:13-22 | Maps the next row |
| `Operators.Operator.NextJoin` | queryOptimizerAndPlanner/nestedLoopJoin/NestedLoopJoin.h:12-31 | The next pair in left-major order |
| `Operators.Operator.NextLeft` | queryOptimizerAndPlanner/nestedLoopJoin/NestedLoopJoin.h:24-29 | Restarting the right side and taking the next left row |
| `Operators.Operator.OpenJoin` | queryOptimizerAndPlanner/nestedLoopJoin/NestedLoopJoin.h:6-11 | Fetches the first left row, which may throw |
| `Operators.Execute` | physicalOperator/executor/Executor.h:13-22 | Draining terminates with exactly the denoted rows, and throws exactly if the denotation does |
| `Operators.DenoteRows` | physicalOperator/executor/Executor.h:13-22 | Without exceptions the denotation is the list one: scans, filtered and mapped rows in order, left-major cross products |
| `Expressions.EvalNames` | physicalOperator/expressionEvaluator/ExpressionEvaluator.cpp:7-63 | Evaluation depends on the named columns only |
| `Expressions.EvalAllMeaning` | physicalOperator/project/Project.cpp:17-20 | The output row exists exactly if every expression evaluates, and holds their values in order |
| `Expressions.QuotientTruncates` | physicalOperator/expressionEvaluator/ExpressionEvaluator.cpp:31-31 | Division truncates towards zero |
| `Expressions.StrTotal` | physicalOperator/expressionEvaluator/ExpressionEvaluator.cpp:40-52 | String comparison is irreflexive, asymmetric and total |
| `Expressions.StrTransitive` | physicalOperator/expressionEvaluator/ExpressionEvaluator.cpp:40-52 | String comparison is transitive |
| `Expressions.EvalStrict` | physicalOperator/expressionEvaluator/ExpressionEvaluator.cpp:7-63 | Evaluation is strict: one column that does not resolve, anywhere, and there is no value |
| `Expressions.NoShortCircuit` | physicalOperator/expressionEvaluator/ExpressionEvaluator.cpp:22-63 | AND and OR, exactly: a deciding left operand does not shield a right one without a value, but does shield one that is not a truth value |
| `Expressions.IntComparisons` | physicalOperator/expressionEvaluator/ExpressionEvaluator.cpp:31-36 | The six comparisons of two integers, wherever the operands come from, are 1 or 0 by the order of the integers |
| `Expressions.IntArithmetic` | physicalOperator/expressionEvaluator/ExpressionEvaluator.cpp:27-30 | Sum, difference and product are exact or have no 32 bits; a quotient leaves a remainder smaller than the divisor, with the sign of the dividend, and exists except by 0 and for the lowest number by -1 |
| `Expressions.StrComparisons` | physicalOperator/expressionEvaluator/ExpressionEvaluator.cpp:40-52 | The six comparisons of two strings are by first differing character, or proper prefix |
| `Expressions.LessExact` | physicalOperator/expressionEvaluator/ExpressionEvaluator.cpp:40-52 | The order of strings is that order |
| `Expressions.NoOtherOperator` | physicalOperator/expressionEvaluator/ExpressionEvaluator.cpp:22-63 | Every other operator, arithmetic on strings and a comparison of an integer with a string throw |
| `Planner.BuildLogicalPlan` | queryOptimizerAndPlanner/planner/Planner.cpp:49-68 | Left-deep join of the tables, the filter above it, the projection on top; no table fails |
| `Planner.SelectMeaning` | queryOptimizerAndPlanner/planner/Planner.cpp:49-68 | The generated operators deliver, for every choice of rows in left-major order that WHERE accepts, the values of the select list; they throw exactly if a needed expression cannot be evaluated |
| `Planner.PositionsOwn` | queryOptimizerAndPlanner/PhysicalPlanGenerator.h:70-84 | In every joined row each qualified name is at the position that the generator gave it |
| `Planner.OwnField` | queryOptimizerAndPlanner/PhysicalPlanGenerator.h:41-46 | Over distinct tables a qualified name stands for its own field |
| `Planner.LeftDeepRows` | queryOptimizerAndPlanner/nestedLoopJoin/NestedLoopJoin.h:6-31 | The joins deliver the flattened choices of one row from each table, left-major |
| `Generator.Generate` | queryOptimizerAndPlanner/PhysicalPlanGenerator.h:32-85 | Operators, column map and width of every plan, or failure on an unknown table |
| `Generator.HashOrderExact` | queryOptimizerAndPlanner/PhysicalPlanGenerator.h:79-82 | For any join, self-joins included: the map as written is the intended one exactly if each hash map is visited in column order, as far as its names count, and the left side has as many names as fields |
| `Generator.HashOrderSwapsFields` | queryOptimizerAndPlanner/PhysicalPlanGenerator.h:79-82 | Visited the other way round, a name is given the wrong field |
| `Generator.ExecuteSelect` | queryEngine/lockOptimized/QueryEngine.cpp:125-138 | For every statement: one row for each choice of rows that WHERE accepts, in order, with the values of the select list; or, if the identity test drops the projection, the rows of the table; an exception exactly if a needed expression has no value or a table is unknown |
| `Generator.SelectBelow` | queryEngine/lockOptimized/QueryEngine.cpp:125-138 | SELECT of all columns WHERE column < literal delivers exactly the rows with a smaller value, in the order of the table |
| `Answers.SelectRowsExact` | queryOptimizerAndPlanner/planner/Planner.cpp:49-68 | A statement has an answer exactly if WHERE has a truth value for every choice of rows and the list has values for those that pass; then it has one row for each choice that passes, in order, with the values of the list |
| `Answers.ComboAt` | queryOptimizerAndPlanner/nestedLoopJoin/NestedLoopJoin.h:6-31 | The choices over several tables are those over the earlier ones with each row of the last, which varies fastest |
| `PlanMeaning.SelectPlanMeaning` | queryOptimizerAndPlanner/planner/Planner.cpp:49-68 | Over different tables the relation that the rewriter preserves is the answer of the statement |
| `Generator.AnswerExact` | queryOptimizerAndPlanner/rewriter/Rewriter.cpp:39-53 | The answer is what the statement says, for all contents of the tables, if and only if the projection is not dropped or lists the whole table with columns 0, 1, ... in order |
| `Generator.DroppedProjection` | queryOptimizerAndPlanner/rewriter/Rewriter.cpp:39-53 | Where dropping is right, the statement asked for the table as it is |
| `Plans.PushDownMeaning` | queryOptimizerAndPlanner/rewriter/Rewriter.cpp:6-26 | The bottom-up swap preserves the relation, exceptions included, of plans of any shape whose filters use columns that the projection keeps |
| `Plans.SwapExact` | queryOptimizerAndPlanner/rewriter/Rewriter.cpp:13-24 | Filter over Project and Project over Filter mean the same if and only if the filter uses kept columns only, or there are no rows, or the filter cannot be evaluated below either |
| `Plans.DropExact` | queryOptimizerAndPlanner/rewriter/Rewriter.cpp:39-53 | Dropping a projection of plain columns is right exactly if it is the table's full column list in order |
| `Plans.TestExact` | queryOptimizerAndPlanner/rewriter/Rewriter.cpp:40-51 | Where the test as written succeeds, dropping is right exactly for a table whose columns are called 0, 1, ... and are all listed |
| `Plans.PruneMeaning` | queryOptimizerAndPlanner/rewriter/Rewriter.cpp:28-56 | Under that condition pruning preserves the relation of plans of any shape |
| `Plans.EmptyListIsDropped` | queryOptimizerAndPlanner/rewriter/Rewriter.cpp:40-51 | The empty list passes the test, and dropping it widens the rows |
| `Plans.MeaningFits` | queryOptimizerAndPlanner/PhysicalPlanGenerator.h:38-84 | Every relation has the promised names and rows of their width |
| `Rewriter.PushDownPredicates` | queryOptimizerAndPlanner/rewriter/Rewriter.cpp:6-26 | Rewiring the child pointers in place gives the tree of the swap, from the same nodes; another node is on top exactly if the topmost filter was swapped |
| `Rewriter.PruneProjections` | queryOptimizerAndPlanner/rewriter/Rewriter.cpp:28-56 | In-place pruning gives the pruned tree; another node is on top exactly if the topmost projection was dropped |
| `Rewriter.RewritePlan` | queryOptimizerAndPlanner/rewriter/Rewriter.h:18-29 | Passes up to the first that leaves the same node on top, at most five: exactly so many |
| `RewriteEffect.PushDownExact` | queryOptimizerAndPlanner/rewriter/Rewriter.cpp:6-26 | A pass keeps scans, filters and projections, each as often, and changes the plan, with fewer projections below filters, exactly if a filter stands on a projection |
| `Rewriter.RewriteMeaning` | queryOptimizerAndPlanner/rewriter/Rewriter.h:18-29 | However many passes, the plan means what it meant |
| `TableHeap.SlotsApart` | tableHeap/TableHeap.cpp:197-199 | Slots stay inside the page and never overlap |
| `TableHeap.PutRowFrame` | tableHeap/TableHeap.cpp:40-58 | Filling a slot of a page changes its liveness and bytes and no other slot |
| `TableHeap.PageFormat` | tableHeap/TableHeap.cpp:187-207 | The number of slots in the first four bytes, then equal slots of a liveness byte and the row |
| `TableHeap.PageIsUsed` | tableHeap/TableHeap.cpp:9-13 | One more slot would not fit |
| `TableHeap.TableHeap.InsertRecord` | tableHeap/TableHeap.cpp:26-67 | A dead id becomes the row, nothing else changes, and every earlier slot was live; a bad row fails |
| `TableHeap.TableHeap.FirstFree` | tableHeap/TableHeap.cpp:31-52 | The first free slot in page and slot order |
| `TableHeap.TableHeap.DeleteRecord` | tableHeap/TableHeap.cpp:69-87 | Removes exactly a live id |
| `TableHeap.TableHeap.UpdateRecord` | tableHeap/TableHeap.cpp:89-110 | Replaces exactly the row of a live id; which failure comes first |
| `TableHeap.TableHeap.TableScan` | tableHeap/TableHeap.cpp:112-125 | Exactly the live ids, in page-then-slot order |
| `TableHeap.TableHeap.GetRecord` | tableHeap/TableHeap.cpp:127-142 | The row of a live id, failure otherwise |
| `TableHeap.TableHeap.InsertAt` | tableHeap/TableHeap.cpp:146-162 | Revives exactly its target, even beyond the slots in use: the redo of an insert on the slot |
| `TableHeap.TableHeap.DeleteAt` | tableHeap/TableHeap.cpp:164-171 | The redo of a delete on the slot |
| `TableHeap.TableHeap.UpdateAt` | tableHeap/TableHeap.cpp:173-185 | The redo of an update on the slot: neither revives nor kills |
| `PooledHeap.HeapFile.TableScan` | tableHeap/TableHeap.cpp:112-125 | On pages in the buffer pool: exactly the live ids in order; throws exactly if a page is not in the pool and every frame is pinned; either way all pins are as before and no page looks different |
| `PooledHeap.HeapFile.InsertRecord` | tableHeap/TableHeap.cpp:26-67 | On pages in the buffer pool: the first dead id becomes the row; failing for want of a frame means that none was free, and leaves the rows as they were; pins are as before and pages of other files look the same |
| `PooledHeap.HeapFile.DeleteRecord` | tableHeap/TableHeap.cpp:69-87 | On pages in the buffer pool: removes exactly a live id; throws exactly if its page is not in the pool and every frame is pinned; pins are balanced |
| `PooledHeap.GivenBack` | tableHeap/TableHeap.cpp:112-125 | A page fetched and given back: if there was a free frame there still is, and if there was none nothing has changed |
| `Record.RowRoundTrip` | record/Record.cpp:33-80 | Reading back a written row gives it with each string cut at its first NUL: the row itself exactly if no string has one |
| `Record.ColumnPlace` | record/Record.cpp:38-52 | Each column is at the sum of the widths before it |
| `Record.IntRoundTrip` | record/Record.cpp:40-43 | Every int32 survives its four bytes |
| `Record.ByteFormat` | record/Record.cpp:40-51 | Integers stand low byte first in twos complement, strings padded with zeros |
| `Record.RecordSizeIs` | schema/Schema.cpp:5-20 | Four bytes for each INT, the length for each STRING |
| `Record.Serialize` | record/Record.cpp:9-54 | Exactly the rows with 32-bit integers and strings of bytes within their columns are written, at the record size |
| `Record.Deserialize` | record/Record.cpp:56-80 | The loop reads every column from its place |
| `Record.NewSchema` | schema/Schema.cpp:5-20 | The record size is the sum of the column widths; a STRING without length fails |
| `StorageEngine.RunAgrees` | storageEngine/StorageEngine.cpp:38-91 | After any sequence of key operations index entries lead to live rows with their key; the index is a bijection exactly if inserts used absent keys only |
| `StorageEngine.ApplyExact` | storageEngine/StorageEngine.cpp:38-91 | Which single operations keep the bijection |
| `StorageEngine.StaysLost` | storageEngine/StorageEngine.cpp:38-91 | A row hidden by a duplicate key stays hidden |
| `StorageEngine.TableInfo.InsertRecord` | storageEngine/StorageEngine.cpp:38-56 | Exactly the row is added, and exactly its entry; a bad row changes nothing, a row without an INT key stays in the heap |
| `StorageEngine.TableInfo.DeleteByKey` | storageEngine/StorageEngine.cpp:58-71 | Exactly the row of the key and its entry go; without the key nothing changes |
| `StorageEngine.TableInfo.UpdateByKey` | storageEngine/StorageEngine.cpp:73-91 | Exactly the row of the key is replaced, the index stays; a changed key is refused |
| `StorageEngine.TableInfo.FindByKey` | storageEngine/StorageEngine.cpp:93-101 | The id it returns is a live row with that key |
| `ParserRoundTrip.RoundTrip` | parser/Parser.cpp:28-315 | Tokenizing and parsing the fully parenthesised text of an expression returns the expression |
| `ParserRoundTrip.TokensOfText` | parser/Parser.cpp:28-93 | The text is cut into exactly its tokens |
| `ParserRoundTrip.PrimaryOf` | parser/Parser.cpp:290-315 | The tokens of a printed expression are a primary, whatever follows |
| `Precedence.ParsesToTheRight` | parser/Parser.cpp:261-288 | Every chain of operands and operators is parsed as the right-nested tree, of any length |
| `Precedence.RightIsPrecedence` | parser/Parser.cpp:342-347 | The right-nested tree is the tree that the precedences ask for if and only if they never drop along the chain |
| `Precedence.RespectsPrecedence` | parser/Parser.cpp:261-288 | So the parser respects precedence exactly on chains without AND or OR after a comparison |
| `ParserRoundTrip.PrecedenceIsIgnored` | parser/Parser.cpp:261-288 | 1 = 2 AND 3 = 4 is read as 1 = (2 AND (3 = 4)) |
| `Parser.ParseExpression` | parser/Parser.cpp:261-288 | Consumes at least one token and stops before something that is not an operator |
| `Lexicon.KeywordToken` | parser/Parser.cpp:10-26 | Each of the fifteen keywords, in any mixture of cases, is its own token |
| `Lexicon.IdentifierToken` | parser/Parser.cpp:34-44 | Every other word is an identifier |
| `Lexicon.SignToken` | parser/Parser.cpp:66-88 | Each sign is its token, and a sign of two characters is one token |
| `Lexicon.LiteralTokens` | parser/Parser.cpp:53-91 | Unknown characters and open literals throw; a backslash keeps the quote after it |
| `Lexicon.CharClasses` | parser/Parser.cpp:31-47 | Letters, digits and spaces, one by one |
| `Lexicon.NeverDropsExact` | parser/Parser.cpp:342-347 | Precedences never drop exactly if no AND or OR comes after a comparison |
| `Parser.Parser.Tokenize` | parser/Parser.cpp:9-93 | The loops compute the token list, and throw exactly on an unknown character or an open string |
| `Parser.Parser.ReadExpression` | parser/Parser.cpp:261-288 | The method on a token position computes the parse, and terminates |
| `Parser.Parser.ReadPrimary` | parser/Parser.cpp:290-315 | The same for a primary |

## Left out

- BPlusTree.BPlusTree.Insert: nodes are read and written as whole pages of a store; their byte image inside a page and the pins around each access are not modelled here (the buffer pool is proved transparent on its own).
- BPlusTree.BPlusTree.Find: the test for a negative root page is dropped, since the root of a valid index is a page.
- The constructor of the B+ tree (wrong page count, a pin that is never given back): the model starts from an empty leaf root.
- Serializability.Serializable: no rollbacks of transactions that changed something, because ROLLBACK undoes nothing (see Rollback.RollbackExact).
- Engine.QueryEngine.ExecuteCommit: log, flush, mark and release form one step; a crash in between leaves a log prefix that CrashRecovery covers.
- Engine.StorageEngine.InsertRecord: columnIndex and defaultFor of the schema are not part of the repository; the index is the first column of that name, and the defaults are given. Fewer values than columns is undefined in the source and excluded.
- Engine.StorageEngine.UpdateRecords: the assignments are one partial function on rows; an unknown column in them is undefined in the source.
- LogTrace.CrashRecovery: about live rows; the index is not rebuilt by recovery (redoDelete leaves it alone), so nothing is claimed about it.
- WalManager.WALManager.Recover: takes the records; WalText.RecoverFile reads them from the lines first.
- WalManager.Storage.RedoInsert: the index insertion at the end, and its exception on a key that is not an INT, are left out with the index.
- BPlusTree.Node.SplitInner: copies the child at numKeys, where the source reads the one at numKeys + 1 (BPlusTree.LastChildIndex): what lies there in memory is not modelled.
- BPlusTree.BPlusTree.SplitInner: the same child.
- Expressions.EvalNames: no function calls, see below.
- Expressions.EvalStrict: the same.
- Generator.Generate: a join uses the positions that the layout of its rows asks for; the ones of the source depend on the order of a hash map (Generator.HashOrderExact says when they agree).
- Generator.ExecuteSelect: the same positions; and the join order is left as planned, the optimizer being a result of its own (JoinOrder.OptimizeJoins).
- LogTrace.CrashRecoveryExact: histories without ROLLBACK; what recovery makes of aborted records is Rollback.PlaceExact.
- Engine.StorageEngine.ScanTable: the operators of the query part scan without a transaction id and so without a lock; the locked scan is this one. Several sessions share one engine here, where the source has one session.
- StorageEngine.TableInfo.UpdateByKey: a row too short to have a key column fails here, where the source reads past its end.
- Resource names are the table names, without the prefix "table:".
- Latches, threads and timing: a method that holds its latch is one step.
- File streams: a file is its whole pages; a partial last page, two handles on one path and I/O errors other than the fail state are not modelled.
- BufferManager.BufferManager.MarkDirty: soundness is promised for pages with a number from 0 on in an open file; what a write to a negative page does is in FileManager.NegativeWrite.
- TableHeap.TableHeap.InsertAt: slots outside the page (undefined behaviour in the source) are excluded, and pages past the end of the file count as written at once.
- TableHeap.TableHeap.InsertRecord: pages are those that the buffer pool shows, which PooledHeap justifies for scan, insert and delete; a schema must leave room for one slot in a page.
- PooledHeap.HeapFile.InsertRecord: a file whose pages in the pool are all within its length, and that has no page on its free list (the heap gives none back).
- JoinOrder.OptimizeJoins: costs are real numbers, infinity is "no plan yet"; at most 30 tables, as 1 << n needs.
- Operators.Operator.Next: the four operator classes are one class with a kind, as they share an interface; the table does not change while it is scanned.
- Function calls in expressions: the parser cannot produce them, and the registry of functions is not modelled.
- Parser statements (SELECT, INSERT, ...): only tokens and expressions are modelled.
- Plans.PushDownMeaning: plans whose projections are plain columns; the generator calls projected columns col0, col1, ..., which a filter above a projection would have to use.
- The binder, the catalog and its persistence, statistics, metrics, sockets, HTTP and the older query engines: no part of the model.
