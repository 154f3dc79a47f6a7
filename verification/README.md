# Cloud-computing labs: a model and its proofs

The repository holds three programs: a multi-threaded Sudoku solver (Lab1), an HTTP server
(Lab2) and a replicated key-value store (Lab3). This project models what is hard in them and
proves it with Dafny. `dafny verify dfyconfig.toml` checks everything.

**Exact cover (Lab1/solver.cpp).** `DanceSearch.Dance` keeps the four-way linked matrix in one
array of nodes and relinks it in place, as `nodes_` does. The files `Cycles`, `DancingLinks`,
`MatrixBuild`, `ExactCover`, `Decoding` and `SearchSteps` say what a matrix is as a value: which
headers and nodes are linked, in which rings, and which rows and columns they stand for.
`Sudoku`, `SudokuMatrix` and `SudokuBuild` relate the matrix of a puzzle to its completions.

**The backtracking solvers (Lab1/src/Resource).** `Backtracking.Workspace` holds the shared
tables. The three solvers are proved against one question, whether the blanks can be filled so
that no filled cell agrees with a neighbour; the cache is proved equal to recomputation.

**The pipeline (Lab1/fileManager.cpp, Lab1/solverManager.cpp).** Every thread takes one
semaphore operation or one guarded section at a time, in any order. `Locks` is `cpLock`,
`LaneSteps` one lane, `Pipelines` the whole, `PuzzleText` the batches of 82-byte lines.

**The replicated store (Lab3).** `Participants` is one participant, `Clusters.Cluster` the
coordinator with the memories of all participants and the links to them. Between any two messages a
participant may crash and lose its memory, a link may break and a participant may reconnect
(`Interfere`). A request or its reply may be lost, and a request the coordinator has given up after
its timeout (Lab3/src/network.cc:377, 407) may still be read later, rounds later even: it stays in
`late` until the participant reads it or dies. A participant listens for a new link only once it has
read the old one to its end (Lab3/src/participant.cc:4-19, Lab3/src/network.cc:194-226), so it has
no late request when it reconnects, and no reconnection completes during a recovery
(Lab3/src/coordinator.cc:106-109, 357-415). The coordinator does not restart within a run (`Run`).

What the code provides, then, is this. Replies are always errors or those of one store (`Working`):
whoever works and can be reached has exactly the committed log (`Exact`), whatever the others hold.
All logs agree exactly while no participant has applied and kept a COMMIT that the coordinator has
not committed; `stray` is the set of those that have, and a participant enters it at the moment it
reads such a COMMIT, in its round or late (`Process`). The logs go on agreeing exactly if, besides,
no late request will do that (`AgreementMeans`). A recovery that finds all logs pairwise comparable
commits what such a participant holds and lets it rejoin, so an update answered by an error may take
effect later, once (`Run`). Logs that contradict each other, which takes two different events under
one txid, are beyond what recovery can see (`ContradictionIsNotSeen`); there `Run` ends.

**Codecs and locks.** `Decimal`, `Resp`, `LogText` and `Network` are the texts and frames on the
wire. `Rendezvous` is the pair of one-place locks between the coordinator and a participant's
thread, `Slots` the socket table of Lab2.

Three places where the code does something other than one might expect; the model follows the
code. An empty reply to `sendAndRecv` leaves the caller's string as it was (`Network.RecvReply`).
The three backtracking solvers never compare clues with each other, so they find fillings, not
completions; `Filling.FillingIsCompletion` says exactly when the two are the same, and
`Backtracking.EqualCluesFail` is an input on which main.cc's final assert fails. And
`recvCommand` stops before the line end of the last string (`Network.CommandReadsBack`).

## Model

| member | source | states |
|---|---|---|
| `DanceSearch.Dance.Solve` | Lab1/solver.cpp:220-265 | terminates; true exactly when the linked columns have an exact cover, and then the rows it pushed are one and the board shows them; on false every link, size, the stack and the board are as before |
| `DanceSearch.Solver` | Lab1/solver.cpp:295-300 | the text becomes a valid completion of its digits when one exists and is left alone otherwise |
| `DanceSearch.Dance.constructor` | Lab1/solver.cpp:99-168 | builds the matrix of the puzzle: one column per blank and per missing value of a unit, one row of four nodes per candidate; names and nodes stay within their tables |
| `DanceSearch.Dance.Cover` | Lab1/solver.cpp:190-203 | pointer by pointer, reaches the matrix without the column and without the rows that meet it |
| `DanceSearch.Dance.Uncover` | Lab1/solver.cpp:205-218 | from a covered column, reaches the exact pool from before it was covered |
| `DanceSearch.Dance.CoverOthers` | Lab1/solver.cpp:249-252 | covers the other columns of a row in ring order |
| `DanceSearch.Dance.UncoverOthers` | Lab1/solver.cpp:258-261 | uncovers them in reverse order and restores the pool |
| `DanceSearch.Dance.GetMinColumn` | Lab1/solver.cpp:170-188 | a linked column whose size is at most 1 or least among the linked ones |
| `DanceSearch.Dance.WriteStack` | Lab1/solver.cpp:222-242 | the decoding loop ends for every row and writes the cell and value each row names |
| `DanceSearch.Dance.AppendColumn` | Lab1/solver.cpp:47-54 | a new header to the left of the root keeps all rings and is found under its name |
| `DanceSearch.Dance.NewRow` | Lab1/solver.cpp:56-73 | a new node at the bottom of its column keeps all rings and the column's size |
| `DanceSearch.Dance.AppendColumns` | Lab1/solver.cpp:124-143 | the columns are exactly those of the blanks and of the values the units miss, at most 324 |
| `DanceSearch.Dance.AppendRows` | Lab1/solver.cpp:145-167 | the rows are exactly the candidates, and the pool suffices |
| `DanceSearch.Dance.GetAnswer` | Lab1/solver.cpp:285-292 | the first 81 characters become the digits of the board |
| `LinkedMatrix.CoverKeepsInv` | Lab1/solver.cpp:190-203 | covering keeps every ring linked, every size equal to its number of linked nodes, and links exactly the nodes of rows that meet no covered column |
| `LinkedMatrix.UncoverUndoesCover` | Lab1/solver.cpp:190-218 | relinking the removed nodes in reverse order, from their stale links, gives back the pool exactly |
| `LinkedMatrix.LifoRestores` | Lab1/solver.cpp:190-218 | any columns covered one after the other and uncovered last first leave every link and every size as before |
| `LinkedMatrix.RelinkUndoes` | Lab1/solver.cpp:198-213 | one unlinked node, put back, restores every field of every node |
| `LinkedMatrix.RelinkAllUndoes` | Lab1/solver.cpp:205-215 | the same for any sequence of removals undone last first |
| `LinkedMatrix.VictimsAreTheRowsOf` | Lab1/solver.cpp:194-202 | cover unlinks exactly the nodes of other columns whose rows meet the covered column |
| `MatrixBuild.AddHeaderLinked` | Lab1/solver.cpp:267-273 | put_left of a new header keeps the matrix well formed |
| `MatrixBuild.AddNodeLinked` | Lab1/solver.cpp:275-283 | put_up of a new node keeps the matrix well formed, sizes included |
| `MatrixBuild.JoinLinked` | Lab1/solver.cpp:157-163 | four lone nodes joined by put_left form one row |
| `ExactCover.ExtendCover` | Lab1/solver.cpp:246-256 | a cover of what a row leaves, with the row, covers everything |
| `ExactCover.CoverUsesLinkedRow` | Lab1/solver.cpp:244-246 | every exact cover uses a linked row of any chosen column, and its other rows cover what that row leaves |
| `SearchSteps.SomeRowCovers` | Lab1/solver.cpp:246-264 | trying only the rows of one column misses no cover |
| `Decoding.ScanFinds` | Lab1/solver.cpp:227-236 | the scan of a row that names a cell and a value ends with both, in range, from whichever node it starts |
| `SudokuMatrix.CoverCompletes` | Lab1/solver.cpp:99-168 | the board an exact cover writes is a completion of the clues |
| `SudokuMatrix.CompletionCovers` | Lab1/solver.cpp:99-168 | every completion is written by some exact cover |
| `SudokuMatrix.CoverIsItsBoard` | Lab1/solver.cpp:99-168 | the candidates an exact cover picks are exactly the blanks of its board with their values, so exact covers and completions correspond one to one |
| `SudokuMatrix.CoverableIffCompletable` | Lab1/solver.cpp:99-168 | the matrix has an exact cover if and only if the puzzle has a completion |
| `SudokuBuild.BuiltIsMatrix` | Lab1/solver.cpp:99-168 | what the constructor's loops leave is the matrix of the clues |
| `Sudoku.Pigeonhole` | Lab1/src/Resource/neighbor.cc:89-90 | n values out of 1 to n are pairwise different if and only if each occurs |
| `Backtracking.Workspace.InitNeighbors` | Lab1/src/Resource/neighbor.cc:61-76 | every row of the table lists exactly the 20 other cells sharing a row, column or box, in increasing order |
| `Backtracking.Workspace.CollectNeighbors` | Lab1/src/Resource/neighbor.cc:30-42 | neither assert fires: the count never passes 20 and ends at 20 |
| `Backtracking.Workspace.MarkAdjacent` | Lab1/src/Resource/neighbor.cc:11-28 | marks the row, the column and the box, and nothing else |
| `Neighbors.PeerListLists` | Lab1/src/Resource/neighbor.cc:11-42 | every cell has exactly twenty neighbours, given by an explicit list |
| `Neighbors.AtMostTwenty` | Lab1/src/Resource/neighbor.cc:36-41 | any repetition-free list of neighbours has at most 20 entries, and 20 when complete |
| `Backtracking.Workspace.Solved` | Lab1/src/Resource/neighbor.cc:78-123 | a full board passes if and only if no cell equals a neighbour |
| `Backtracking.TallyDecides` | Lab1/src/Resource/neighbor.cc:82-90 | nine counts are one if and only if the nine values differ |
| `Backtracking.Workspace.FindSpaces` | Lab1/src/Resource/sudoku_basic.cc:13-20 | the blank cells, each once, in increasing order |
| `Backtracking.Workspace.IsAvailable` | Lab1/src/Resource/sudoku_basic.cc:31-40 | true exactly when no neighbour holds the guess |
| `Backtracking.Workspace.SolveBasic` | Lab1/src/Resource/sudoku_basic.cc:42-68 | finds a filling exactly when there is one; otherwise restores the board |
| `Backtracking.Workspace.ArityOf` | Lab1/src/Resource/sudoku_min_arity.cc:7-15 | the number of values no neighbour holds |
| `Backtracking.Workspace.FindMinArity` | Lab1/src/Resource/sudoku_min_arity.cc:17-34 | reorders the spaces from the given one on and puts one of least arity, or of at most 1, first |
| `Backtracking.Workspace.SolveMinArity` | Lab1/src/Resource/sudoku_min_arity.cc:36-62 | the same verdict; on false the board is restored and the spaces are reordered only from the given one on |
| `Backtracking.Workspace.InitCache` | Lab1/src/Resource/sudoku_min_arity_cache.cc:30-48 | for every blank cell the cache says what recomputation would |
| `Backtracking.Workspace.FindMinArityCached` | Lab1/src/Resource/sudoku_min_arity_cache.cc:11-28 | the same choice read off the cache |
| `Backtracking.Workspace.SolveCached` | Lab1/src/Resource/sudoku_min_arity_cache.cc:50-98 | the cache is right at every call; the same verdict; on false board and cache are restored exactly |
| `Backtracking.Workspace.TryGuess` | Lab1/src/Resource/sudoku_min_arity_cache.cc:61-95 | hold, try and undo leave every entry as it was when the try fails |
| `Filling.HoldKeepsCache` | Lab1/src/Resource/sudoku_min_arity_cache.cc:61-76 | holding a guess keeps occupied and arity equal to recomputation for the cells still blank |
| `Filling.CacheMarks` | Lab1/src/Resource/sudoku_min_arity_cache.cc:34-47 | one turn of init_cache's loop |
| `Filling.FillableStep` | Lab1/src/Resource/sudoku_basic.cc:51-67 | a board can be filled if and only if some available value of a given blank leaves it fillable |
| `Filling.FillingIsCompletion` | Lab1/src/Resource/sudoku_basic.cc:42-68 | what the solvers find is a completion if and only if no two neighbouring clues agree |
| `Backtracking.Workspace.SolvePuzzle` | Lab1/src/Resource/main.cc:33-47 | every mode finds a filling if and only if there is one; the final assert holds exactly for consistent clues |
| `Backtracking.Workspace.SolveTwice` | Lab1/src/Resource/main.cc:33-47 | runs in any two modes give the same verdict, and the same board when there is only one filling |
| `Backtracking.EqualCluesFail` | Lab1/src/Resource/main.cc:41-42 | the final assert does fail for some input: 81 equal digits can be filled and are not consistent |
| `Locks.StuckMeans` | Lab1/lock.hpp:38-77 | a producer and a consumer of one cpLock never wait for each other |
| `Locks.ProducerKeeps` | Lab1/lock.hpp:65-75 | a producer's step keeps the semaphores' accounts and never overfills the buffer |
| `Locks.ConsumerKeeps` | Lab1/lock.hpp:53-63 | a consumer's step likewise, and there is always something to take in the guarded section |
| `LaneSteps.SolverStepOk` | Lab1/solverManager.cpp:13-39 | each step of a solver keeps its lane in order and is progress |
| `LaneSteps.ReaderStepOk` | Lab1/fileManager.cpp:14-23 | each step of problemWriter appends exactly its item to its lane |
| `LaneSteps.PrinterStepOk` | Lab1/solverManager.cpp:48-55 | the result the printer takes is the answer to the item of the same number |
| `LaneSteps.MarkerEndsStream` | Lab1/fileManager.cpp:25-31 | an end marker is the last item of its lane |
| `LaneSteps.EveryLaneMarked` | Lab1/fileManager.cpp:25-31 | the end markers reach every lane |
| `Pipelines.Pipeline.constructor` | Lab1/main.cpp:29-43 | the threads start in a state the invariants hold in |
| `Pipelines.Pipeline.StepNames` | Lab1/fileManager.cpp:119-130 | each step of the name reader keeps the invariants and is progress |
| `Pipelines.Pipeline.StepReader` | Lab1/fileManager.cpp:37-117 | each step of the file reader keeps the invariants, among them that end markers come only after every name was taken |
| `Pipelines.Pipeline.StepSolver` | Lab1/solverManager.cpp:13-39 | each step of a solver keeps the invariants and is progress |
| `Pipelines.Pipeline.StepPrinter` | Lab1/solverManager.cpp:41-79 | each step of the printer keeps the invariants and is progress |
| `Pipelines.Pipeline.SomebodyCan` | Lab1/lock.hpp:38-77 | no deadlock: until everybody is done, somebody has a step other than looking for a name in vain |
| `Pipelines.Pipeline.EverybodyWaits` | Lab1/solverManager.cpp:13-79 | if nobody has such a step, every thread has ended |
| `Pipelines.Pipeline.RunFor` | Lab1/doc/Puzzle.md:87 | after any interleaving the printed text is the beginning of the answers in input order |
| `Pipelines.Pipeline.RunToEnd` | Lab1/solverManager.cpp:41-79 | any run with finitely many vain looks ends, with every answer and its newline printed in input order, one marker read per lane and all lanes empty |
| `Pipelines.SolveFiles` | Lab1/main.cpp:29-53 | for any list of files of whole lines, any number of solvers, capacity and batch size, the program prints each puzzle's answer and a newline in input order |
| `Pipelines.SolvePuzzleFiles` | Lab1/main.cpp:29-53 | for files of digits and an answer that does what `DanceSearch.Solver` promises, each printed line completes the puzzle of its number if that can be done and repeats it otherwise |
| `Pipelines.FilesAreLines` | Lab1/fileManager.cpp:82-110 | the puzzles handed over, with their newlines, are the concatenated files |
| `PuzzleText.ReadFile` | Lab1/fileManager.cpp:67-111 | for every batch size, every line of a file of whole lines is handed over once and in order |
| `PuzzleText.LinesAreText` | Lab1/fileManager.cpp:82-88 | the lines handed over, with their newlines, are the file |
| `PuzzleText.Printer.Emit` | Lab1/solverManager.cpp:57-67 | what is printed or buffered grows by exactly the answer and a newline, also when the buffer is flushed |
| `PuzzleText.Printer.Finish` | Lab1/solverManager.cpp:70-76 | the rest of the buffer is printed uncut |
| `Participants.Participant.PWorker` | Lab3/src/participant.cc:43-84 | answers, logs and changes its store as the transition function says; ids and entries of the log stay exactly TXID_START to _TXID - 1 |
| `Participants.Participant.EventParser` | Lab3/src/participant.cc:86-134 | runs the printed command on the store, as the functions the next rows are about say |
| `LastWrites.GetReadsLastWrite` | Lab3/src/participant.cc:115-121 | after any log, GET's reply parses back to the value of the last SET of the key with no later DEL of it, to nil if there is none, and nothing changes |
| `LastWrites.SetAnswersOk` | Lab3/src/participant.cc:106-113 | SET answers +OK, and its value is then the key's last write |
| `LastWrites.DelCounts` | Lab3/src/participant.cc:101-104 | DEL's reply reads back as the number of different listed keys that had a value, and none has one afterwards |
| `LastWrites.OthersKeepTheirReply` | Lab3/src/kv.cc:9-57 | a command leaves the GET reply of every key alone that it does not write |
| `LastWrites.ErrorsAreExact` | Lab3/src/participant.cc:95-130 | exactly the malformed commands are answered by the error |
| `LastWrites.LastWriteMeans` | Lab3/src/kv.cc:9-57 | a key's last write is v if and only if some command sets it to v and no later one sets or deletes it |
| `LastWrites.ReplayHolds` | Lab3/src/kv.cc:9-57 | the store after a log holds exactly each key's last write |
| `Participants.HandleKeeps` | Lab3/src/participant.cc:50-80 | a message keeps the log growing, and keeps the store equal to the replay of the log if and only if it is not a SUPER_TXID record whose command changes the store |
| `Kv.AltersMeans` | Lab3/src/participant.cc:95-130 | a command changes the store exactly if it deletes a key that is there or sets one to a value it does not hold |
| `Participants.MemoryIsReplay` | Lab3/src/participant.cc:43-134 | throughout any run of messages the store is the replay of the log if and only if no SUPER_TXID record changes the store at the point where it is read |
| `Participants.EntriesStay` | Lab3/src/participant.cc:67-79 | no written entry of a log ever changes |
| `Participants.GetsBypassNothing` | Lab3/src/coordinator.cc:305-327 | what the coordinator sends as SUPER_TXID, GETs, never changes the store |
| `Participants.SuperSetBreaksReplay` | Lab3/src/participant.cc:52-54 | a record that breaks the replay exists: a SET sent as SUPER_TXID |
| `Kv.KV.KvDELArry` | Lab3/src/kv.cc:37-46 | removes every listed key and counts those that were there |
| `Kv.AcceptanceIgnoresStore` | Lab3/src/participant.cc:95-130 | whether an event is answered by an error depends on the event alone |
| `ClusterMessages.CommitAnswer` | Lab3/src/participant.cc:71-78 | in turn, an accepted event extends the log and is answered by the store; otherwise nothing changes and the answer is an error |
| `ClusterMessages.AskAnswer` | Lab3/src/participant.cc:59-66 | asked for a transaction, a participant sends that record or nothing; the lookup never aborts |
| `ClusterSteps.CommitTurnInRound` | Lab3/src/coordinator.cc:265-285 | one participant's turn in a commit round: any reply that is not an error is the single store's |
| `ClusterSteps.LostReplyIsAllowed` | Lab3/src/coordinator.cc:265-302 | a round may end with an accepted COMMIT applied and its reply lost; the logs then differ |
| `Clusters.Cluster.UpdateDB` | Lab3/src/coordinator.cc:231-303 | whatever was left behind before, a reply that is no error means the event is committed and is the single store's reply, and an error commits nothing; if anybody who works can still be reached at the end, an accepted update has succeeded, whatever became of the others, and without anybody at the start it fails; from agreement the logs stay comparable, and agree afterwards if and only if the event is committed or nobody holds it |
| `Clusters.Cluster.Vote` | Lab3/src/coordinator.cc:235-256 | the voting round changes no log except by crashes; one participant that works and can be reached to the end suffices for the vote, and without any at the start it fails |
| `Clusters.Cluster.Commit` | Lab3/src/coordinator.cc:265-285 | the commit round, with participants crashing in it and requests arriving late: every memory is as before, lost or one event longer, and one participant that works and can be reached to the end suffices for an accepted event to be acknowledged |
| `Clusters.Cluster.Conclude` | Lab3/src/coordinator.cc:292-298 | an acknowledged round commits the event, and who works and can be reached has exactly the committed log |
| `Clusters.Cluster.Abandoned` | Lab3/src/coordinator.cc:299-302 | after an unacknowledged round nobody who works and can be reached has the event; others may hold it |
| `Clusters.Cluster.AgreementAfter` | Lab3/src/coordinator.cc:231-327 | after a command that began in agreement all logs are comparable, and agree if and only if the event is committed or nobody holds it |
| `Clusters.Cluster.AgreementMeans` | Lab3/src/network.cc:370-417 | the logs agree, and will when late requests are read, exactly if workers are exact, nobody is astray and no late request leads anybody astray |
| `Clusters.Cluster.Process` | Lab3/src/participant.cc:67-79 | a message read changes one memory as the participant does, and the participant is astray from then on exactly if it was before or its log grew by an event the coordinator has not committed under that txid |
| `Clusters.Cluster.SendAndRecv` | Lab3/src/network.cc:370-417 | the reply, or an error and a link to be closed with the request lost, answered in vain, or still to be read |
| `Clusters.Cluster.Request` | Lab3/src/coordinator.cc:305-327 | a GET is answered by the single store's reply or an error; by the reply if anybody who works can still be reached at the end, whatever became of the others |
| `Clusters.Cluster.Working` | Lab3/src/coordinator.cc:183-229 | one client command: an error that changes nothing, or what one store answers and becomes; the latter if the coordinator works and somebody who works can be reached to the end, the former if it does not work or nobody can be reached |
| `Clusters.Cluster.PWorking` | Lab3/src/coordinator.cc:44-82 | what a posted task comes back as, and the change to P_WAITING on an error, after which the task may be lost, applied or still to be applied |
| `Clusters.Cluster.PRecovery` | Lab3/src/coordinator.cc:113-171 | the same for recovery tasks, with the table of last txids |
| `Clusters.Cluster.KeepAlive` | Lab3/src/coordinator.cc:84-111 | a participant that is waited for, and has nothing late to read, comes back as P_TEMP |
| `Clusters.Cluster.Interfere` | Lab3/src/coordinator.cc:84-111 | anything crashes, broken links, late requests and reconnections can do between two messages |
| `Clusters.Cluster.GetRecoveryLeader` | Lab3/src/coordinator.cc:507-521 | a participant with the greatest txid beyond the coordinator's, or none |
| `Clusters.Cluster.LeaderRound` | Lab3/src/coordinator.cc:456-503 | either the coordinator takes over everything the leader has, or the leader is lost; nothing committed is dropped |
| `Clusters.Cluster.RecoveryFromP` | Lab3/src/coordinator.cc:438-505 | terminates, and leaves everybody who reported at the coordinator's last transaction |
| `Clusters.Cluster.RecoveryFromC` | Lab3/src/coordinator.cc:421-436 | sends out the coordinator's log; no lookup fails |
| `Clusters.Cluster.AskAll` | Lab3/src/coordinator.cc:370-391 | collects the last txids and finds out whether they all match |
| `Clusters.Cluster.Recovery` | Lab3/src/coordinator.cc:344-419 | from any pairwise comparable logs: terminates, keeps every committed entry and leaves nobody half recovered; each participant that was connected and was not lost itself works and has exactly the coordinator's log, whatever became of the others; the longest connected log is reached if somebody who has it stays reachable, and all logs then agree if nobody else has more |
| `Clusters.Cluster.LongestUpToIsLongest` | Lab3/src/coordinator.cc:507-521 | among pairwise comparable logs one contains all others |
| `Clusters.Cluster.Run` | Lab3/src/coordinator.cc:523-537 | over any run of commands, failures, late requests and recoveries: each command is answered by an error that changes nothing then, or as by one store that has run what is committed; every such reply reads as the last write, the count or +OK; what is committed are SETs and DELs in their order, each at most once, each in its own turn or, if that was answered by an error, by a later recovery; recoveries add nothing while the logs agree; if every update was committed or left with nobody, the run goes to its end and all logs agree; it stops only before a recovery that would find contradicting logs |
| `Histories.RepliesInRun` | Lab3/src/coordinator.cc:183-229 | in a run, a reply that is no error is for GET the key's last write among what is committed, for DEL how many of its keys had one, for SET +OK |
| `Clusters.Cluster.NextCommand` | Lab3/src/coordinator.cc:183-229 | one command of a run: what was committed, who agreed and whether somebody was left with its event, before and after |
| `Clusters.Cluster.BetweenCommands` | Lab3/src/coordinator.cc:344-358 | what happens between two commands, among it a recovery announced that turns the next command away; from agreement nothing is committed and the logs still agree |
| `Histories.AgreedThroughout` | Lab3/src/coordinator.cc:231-303 | after every command of a run all logs agree if and only if each was committed or its event left with nobody |
| `Histories.GivenBeforeCommitted` | Lab3/src/coordinator.cc:344-419 | nothing is committed before its command is given, not by recoveries either |
| `Histories.RecoverySourced` | Lab3/src/coordinator.cc:344-419 | recoveries leave it true that every committed entry comes from its command's own turn or from a command answered by an error |
| `Histories.RecoveryInOrder` | Lab3/src/coordinator.cc:438-505 | a recovery takes over at most one event, that of a later SET or DEL which was answered by an error |
| `RecoverySteps.ContradictionIsNotSeen` | Lab3/src/coordinator.cc:370-391 | two participants with different events under their last txid report the same to a recovery |
| `Clusters.Cluster.SharedEntriesAgree` | Lab3/src/participant.cc:67-79 | any two participants that are not astray have the same event under every txid they share, the coordinator's |
| `Clusters.Cluster.AgreementRecovered` | Lab3/src/coordinator.cc:344-419 | from agreement, recovery leads back to agreement on the same entries |
| `RecoverySteps.PushAsked` | Lab3/src/coordinator.cc:126-165 | one participant's turn when a transaction is sent out: skipped, applied or cut off, its log stays within the longest one |
| `RecoverySteps.StillComparable` | Lab3/src/coordinator.cc:344-419 | after recovery all logs are still pairwise comparable |
| `Rendezvous.EveryRun` | Lab3/src/coordinator.cc:44-82 | in every interleaving of posting, working and reading, the result read is the one for the task just posted, and one side can always move |
| `Rendezvous.ResultsAreThoseOfTasks` | Lab3/src/coordinator.cc:237-256 | in every interleaving the results read are those of the tasks handed over, in order, none skipped and none twice; at most one is still owed |
| `Rendezvous.ResultArrives` | Lab3/src/coordinator.cc:44-82 | after a task is handed over, a bounded number of operations of either side, each when it is enabled, has its result read |
| `Rendezvous.NoDeadlock` | Lab3/src/include/lock.hpp:38-77 | the paired one-place locks never stop both sides |
| `Rendezvous.WorkerKeepsInv` | Lab3/src/coordinator.cc:113-171 | each semaphore operation of pWorking or pRecovery, in either order of release, keeps the task in one place |
| `Resp.ParserRESPArray` | Lab3/src/parser.cc:150-169 | the parsing loop computes the parse function, consumed length included |
| `Resp.GetRESPArray` | Lab3/src/parser.cc:54-68 | the printing loop computes the printed text |
| `Resp.StringRoundTrip` | Lab3/src/parser.cc:87-103 | parsing a printed bulk string gives it back with its exact length, whatever follows and whatever it holds |
| `Resp.ArrayRoundTrip` | Lab3/src/parser.cc:150-169 | the same for arrays, for sizes under 2^31 (RESP2 specification, sections "Bulk strings" and "Arrays") |
| `LogText.RecordRoundTrip` | Lab3/src/logger.cc:5-35 | a printed log record reads back as itself if and only if its id is under 2^63 |
| `LogText.ParseOfPrint` | Lab3/src/logger.cc:5-35 | what any printed record reads back as, larger ids included |
| `Decimal.AtoiOfDigits` | Lab3/src/parser.cc:94-95 | atoi reads back a printed number under 2^31 |
| `Network.Recv` | Lab3/src/network.cc:249-311 | over any chunking, the body of the next frame and the position right behind it, or close when the frame is cut off |
| `Network.RecvFramed` | Lab3/src/network.cc:229-311 | recv returns exactly what send framed, behind any garbage without a tilde |
| `Network.RecvReply` | Lab3/src/network.cc:370-417 | the receiving half of sendAndRecv likewise, for bodies under 2^31 bytes; an empty body leaves the caller's string alone |
| `Network.DecodeUndoesFrame` | Lab3/src/network.cc:229-242 | decoding undoes framing and reads no further |
| `Network.BytesRoundTrip` | Lab3/src/include/util.hpp:6-25 | the number in a frame header reads back |
| `Network.RecvCommand` | Lab3/src/network.cc:5-128 | over any chunking, exactly the strings the byte loop decodes, or its error |
| `Network.LineVerdict` | Lab3/src/network.cc:25-60 | a number line behind its mark is read exactly if its digits are followed by CR LF, cut off if the stream ends before, and refused otherwise |
| `Network.LineForm` | Lab3/src/network.cc:25-60 | every stream with the mark is of the form that verdict is about |
| `Network.BadLineBadCommand` | Lab3/src/network.cc:35-56 | a command whose number line is refused is refused |
| `Network.CommandReadsBack` | Lab3/src/network.cc:5-128 | what getRESPArry printed reads back as the same list, behind anything without a star |
| `Slots.SlotTable.Place` | Lab2/src/sockethandle.cpp:561-572 | the circular probe ends within thread_num steps at the first free slot and overwrites no slot in use |
| `Slots.SlotTable.FreeSlotExists` | Lab2/src/sockethandle.cpp:561-572 | whenever pGet has returned, some slot is free |
| `Slots.SlotTable.StepWorker` | Lab2/src/sockethandle.cpp:515-521 | a worker changes only its own slot, and clears it only after serving what was there; each step is progress and keeps every descriptor in one place |
| `Slots.SlotTable.StepScheduler` | Lab2/src/sockethandle.cpp:561-572 | the scheduler's semaphore steps keep the descriptor it holds, and are progress |
| `Slots.SlotTable.NoDeadlock` | Lab2/src/lock.hpp:38-77 | unless no slot is in use and no connection waits, some thread can move |
| `Slots.SlotTable.RunFor` | Lab2/src/main.cpp:21-43 | any interleaving keeps the semaphores consistent and every accepted descriptor served, in a slot or with the scheduler, once; twelve steps per descriptor, taken in whatever order, serve them all |
| `Slots.SlotTable.ServeAll` | Lab2/src/main.cpp:21-43 | without further connections the threads come to rest, and then every accepted descriptor has been served exactly once |
| `Slots.SlotTable.AtRest` | Lab2/src/lock.hpp:38-77 | when no thread can move, every accepted descriptor has been served and every slot is free |

## Left out

- Sockets, select, timeouts and connection setup: a byte source delivers chunks of any size or closes, and a link delivers a message and its reply or breaks. ossSocket is not part of this model.
- How the coordinator's messages travel as frames: the cluster exchanges whole texts, the frames are proved separately.
- Clusters.Cluster.Run: nothing is claimed across a restart of the coordinator, or after a recovery that starts from contradicting logs; the code provides nothing there. Transaction ids are bounded by 2^63, below the wrap of uint64_t.
- Clusters.Cluster.UpdateDB: the tasks of one round are sent in the order of the participants; in the code their threads run side by side, but no two of them share state.
- Clusters.Cluster.SendAndRecv: which messages and replies are lost or late is left to nondeterministic choice; replies that arrive after the timeout are never read, since the link is closed by then.
- Locks: every semaphore operation and every guarded section is one step; a lock is a value that the threads' steps replace, so data races within a guarded section, copies of semaphores and thread creation are not captured. The same holds for the two-sided state of Rendezvous.
- PuzzleText.ReadFile: empty files and files whose last line lacks its newline, and lines with a NUL character.
- Pipelines.Pipeline.RunToEnd: assumes that the reader looks for a name in vain only finitely often, that is, that the thread reading names is not starved for ever; the answer of a puzzle is any function from lines to lines; `Pipelines.SolvePuzzleFiles` is about the one `DanceSearch.Solver` computes.
- DanceSearch.Dance.constructor: the pool starts out filled with zeros; in the code its unused part is uninitialised and never read.
- Slots: what a worker does with its socket; HTTP parsing, proxying and the pages of Lab2.
- Lab1/src/Resource/sudoku_dancing_links.cc: a near copy of Lab1/solver.cpp.
- Configuration, command-line options, the interactive client, logging, the clock, test generators and scripts.
- split in Lab3/src/include/util.hpp and the single-message helpers of the client: straight-line text handling.
