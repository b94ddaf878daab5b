# ShellServe: a verified model

ShellServe is a small shell and file server in C. A client logs in, runs pipelines of commands whose
output comes back over its socket, and transfers files. Its difficulty is in hand-written parsing
with static state and in-place buffers, in pipelines of processes wired together by descriptors, and
in a transfer protocol whose only end marker is a short chunk. This project models those parts and
proves what they guarantee, for every input, every interleaving and every pattern of short counts.

Verify with `dafny verify dfyconfig.toml` (Dafny 4.11).

| file | content |
|---|---|
| `Bytes.dfy`, `Runs.dfy` | bytes and `mymemset`; runs as sequences of states |
| `Descriptors.dfy` | descriptor tables and the POSIX calls on them |
| `PipelineWiring.dfy` | the calls that `run_pipeline` and its children issue, and the tables they lead to |
| `PipelineMachine.dfy` | `run_pipeline` as a system of n + 1 processes with arbitrary interleaving; its invariant |
| `PipelineTheorems.dfy` | wiring, absence of deadlock, data flow, end of file, reaping |
| `PipelineTraces.dfy` | what each command asks for, call by call, and what it and the client get |
| `PipelineProgress.dfy` | every run ends, and when `run_pipeline` is certain to return |
| `Processes.dfy` | the same code as loops over one process's descriptor table |
| `Sessions.dfy` | login and the command loop: descriptors and transfers over whole sessions |
| `Files.dfy` | what a file holds when it is written from its start without being truncated |
| `Transfer.dfy`, `TransferTheorems.dfy` | sender and receiver as concurrent processes; exactness, termination, exact conditions |
| `TransferLoops.dfy` | the transfer loops, with data arriving between any two calls |
| `CStrings.dfy` | NUL-terminated strings, comparison and copy loops |
| `Tokenizer.dfy` | `mystrtok`, its static cursor and its refinement of a split |
| `CommandLine.dfy`, `CommandParser.dfy` | the printer of pipelines, and the parser that undoes it in its static arrays |
| `Credentials.dfy` | `mystrtok` nested in itself: the credentials table |
| `Separator.dfy` | `mystrsep` |
| `LineReader.dfy` | the buffered reader that all descriptors share |
| `Decimals.dfy`, `Chunks.dfy` | number printing, chunk names, chunk tiling |
| `SearchTree.dfy` | the binary search tree on the heap and its edge printer |

How the pipeline system is set up. Each child carries the descriptor calls it has still to make; the
invariant says that making them leads to the wired table. A running command always has one call in
progress and cannot leave a blocked one, so that "some step is enabled" is not met by the option to
exit. Commands may read, write, close any descriptor and exit in any order, making at most `calls`
further calls that write at most `burst` bytes each; both are arbitrary, so what holds at every moment
holds of commands that never stop as well. Whether the SIGCHLD handler is installed and not blocked is
the flag `handled`; the server installs it (src/signals.c:69-74, src/server_code/server.c:37). Pipes
have any capacity of at least PIPE_BUF, and a write of at most PIPE_BUF bytes waits for room for all of
it, as in IEEE Std 1003.1. What a command has asked for is read off the steps of the run alone, as an
account; the theorems of `PipelineTraces.dfy` compare the state with it. Writes to the socket and reads of the inherited standard input do not block. Descriptors
0 to 2 are open when `run_pipeline` is entered.

How the transfer is set up. `whole` is the largest write that the connection delivers in one piece; a
longer one may be split anywhere. Pieces are in flight until they arrive, both sides' counts may be
short, and a variable that C leaves unassigned has the value `Unassigned`. The receiver's "file" in
`Transfer.dfy` is the sequence of bytes written; what its contents are then depends on what it held
before, because it is opened without O_TRUNC (src/filetransfer.c:91, and :138 for the client's `get`).

Where the code and its promises part:

* The SIGCHLD handler and `mywait` compete for the children. `run_pipeline` is certain to return if and
  only if the handler is not in place (`AlwaysReturnsIff`): with it, every pipeline has a run in which
  the handler collects the children and `mywait` ends the session process (`CanLoseSession`).
* The end marker is sound if and only if no chunk is split in transit (`NeverStopsEarlyIff`), and a
  transfer can end at all only when the length is not a multiple of 4095 (`TransferWorksIff`).
* A received file keeps the old end of a longer file of the same name. After `put` the server's file is
  the client's if and only if it was no longer before (`PutStoresIff`; `LongerFileKeepsTail` is an
  input), and `StoresSourceIff` says for every transfer when the file can only end up as the source.
* `mystrcmp` and `mystrncmp` subtract plain chars, which are signed here, as they are in `myreadline`;
  strcmp and strncmp compare as unsigned char. The signs agree if and only if, where the strings first
  differ, both bytes are below 128 or both are not (`SignAgreesIff`, `HighByteDiffers`).
* `mystrncmp` with n = 0 wraps round and compares whole strings (`NCmpZeroDiffers`).
* Bytes after a 0xFF byte stay in the buffer that all descriptors share. Lines stay on their own
  descriptor if and only if no block with such a byte is followed by a request on another one
  (`LinesStayHomeIff`).
* `myreadline` puts its NUL before its line buffer if and only if the bytes it works on are none or
  begin with 0xFF; after a block with a 0xFF byte that happens to the next request exactly when that
  byte is the block's last or another follows it (`SecondInsideIff`).
* After end of file `mysckread` leaves the socket non-blocking. Once the peer has closed and all has
  arrived, that is exactly when fewer bytes than asked for are queued.

## Model

| member | source | states |
|---|---|---|
| `PipelineWiring.ParentClosesToBase` | src/pipeline.c:68-75 | closing the array's descriptors in the caller succeeds on every one and gives back exactly the table from before the pipes were made |
| `PipelineWiring.ClosesRemove` | src/pipeline.c:68-75 | on any table that holds them all, closing every pipe descriptor succeeds and removes just those |
| `PipelineWiring.DupCallsWire` | src/command_handler.c:67-94 | the dup2 calls of child i put its predecessor's read end on standard input and its own write end, or for the last child the socket, on standard output |
| `PipelineWiring.ChildCallsWire` | src/command_handler.c:96-102 | `dup2_and_close` never fails, and child i ends with the caller's other descriptors, its two neighbouring pipe ends and nothing else of any pipe |
| `PipelineWiring.WiredIsChain` | src/command_handler.c:67-102 | in the final tables pipe j has child j as only writer and child j+1 as only reader, the last pipe has neither, and only the last child holds the socket |
| `PipelineMachine.InitInv` | src/pipeline.c:77-82 | the global invariant holds when `run_pipeline` is entered |
| `PipelineMachine.StepInv` | src/pipeline.c:77-98 | every system call of the caller, of a child or of a running command keeps the global invariant |
| `PipelineMachine.OpenShrinks` | src/pipeline.c:84-92 | once the pipes exist, no step opens an end that every process has closed |
| `PipelineMachine.OnlyNeighbours` | src/command_handler.c:67-102 | a running command reads only the pipe before it, writes only the pipe after it, and only the last one writes the socket |
| `PipelineMachine.RunInv` | src/pipeline.c:77-98 | the invariant holds at every moment of every run |
| `PipelineTheorems.WiringInvariant` | src/pipeline.c:77-98 | in every interleaving, after set-up each pipe has at most its one writer and one reader, and the last pipe is held by nobody |
| `PipelineTheorems.OpenWriterIsPredecessor` | src/pipeline.c:92 | after set-up a pipe end is open somewhere only if the one command it belongs to is still running |
| `PipelineTheorems.EofOncePredecessorGone` | src/pipeline.c:77-98 | once a command's predecessor is gone and its pipe is drained, its read cannot block and reports end of file |
| `PipelineTheorems.EofIff` | src/pipeline.c:92 | a read on an empty pipe gets end of file if and only if the command before is gone or has closed its output |
| `PipelineTheorems.BrokenPipeIff` | src/command_handler.c:67-102 | a write to a pipe breaks if and only if the command behind is gone or has closed its input |
| `PipelineTheorems.ChainMoves` | src/pipeline.c:77-98 | when a running command's input is ready, that command or one further down the chain can complete a call |
| `PipelineTheorems.CommandsNeverDeadlock` | src/pipeline.c:77-98 | after set-up, in every reachable state with a running command some running command can complete its call |
| `PipelineTheorems.NoDeadlock` | src/pipeline.c:77-98 | for every number of commands and every interleaving, a reachable state that is not final has an enabled step |
| `PipelineTheorems.PipesCarryOutput` | src/command_handler.c:67-102 | what a command has read plus what its pipe holds is what its predecessor has written, and the client gets exactly the last command's output |
| `PipelineTheorems.EofIsFinal` | src/command_handler.c:96-102 | a command that sees end of file has read all that its predecessor ever writes in the run |
| `PipelineTheorems.OutputStopsUnread` | src/command_handler.c:96-102 | once nobody can read a command's pipe any more, the command puts nothing more into it for the rest of the run |
| `PipelineTraces.RunHasSteps` | src/pipeline.c:77-98 | every run is one of some sequence of steps |
| `PipelineTraces.AccountsAreRight` | src/command_handler.c:67-102 | at every moment of every run every command's call in progress, output, input, descriptors and end are those that follow from its own steps |
| `PipelineTraces.OutputIsAsked` | src/command_handler.c:67-102 | while a command's output is open and no broken pipe ended it, what has gone out followed by the rest of its write in progress is the data of all writes it has begun, in order; and nothing else ever goes out |
| `PipelineTraces.ClientReceives` | src/command_handler.c:81-86 | the client receives what the last command asked to write, all of it once that command has ended |
| `PipelineTraces.InputIsAsked` | src/command_handler.c:67-71 | a command's reads deliver the beginning of what the command before asked to write, byte for byte and as many as they returned, and it has seen end of file exactly when a read said so |
| `PipelineTraces.EofHasAll` | src/command_handler.c:96-102 | a command that has seen end of file has read all that the command before asked to write, unless that one closed its output or died on a broken pipe |
| `PipelineTraces.AtomicGoesWhole` | src/command_handler.c:67-102 | of a write that must be atomic nothing has gone out while it is in progress |
| `PipelineTraces.StepsSuitCalls` | src/command_handler.c:67-102 | each step of a command is one that its call in progress asked for, and transfers no more than that |
| `PipelineTraces.HoldsWhatItKept` | src/command_handler.c:96-102 | a running command holds exactly the wired descriptors less those it has closed |
| `PipelineTraces.LastCall` | src/pipeline.c:77-98 | after a command has exited, failed to start or died on a broken pipe it makes no call |
| `PipelineTheorems.ReturnCollectsAll` | src/pipeline.c:94-97 | if `run_pipeline` returns, its n waits collected all n children, the handler none, and the caller's table is as at the start |
| `PipelineTheorems.EachCollectedOnce` | src/pipeline.c:94-97 | when the call returns, each child was collected at exactly one step of the run, a wait of the caller's |
| `PipelineTheorems.ReturnsIffHandlerIdle` | src/syscalls.c:192-200 | at the end of a run the call returned if and only if the handler collected no child |
| `PipelineTheorems.LastWaitRaces` | src/signals.c:44-57 | in a reachable state with one child left to collect a normal return can follow, and with the handler in place the loss of the session process can too |
| `PipelineProgress.PipelineEnds` | src/pipeline.c:77-98 | commands that make finitely many calls cannot keep a pipeline going: every run is within a bound known beforehand, and one that cannot be continued has passed its waits with no command alive |
| `PipelineProgress.RunEnds` | src/pipeline.c:94-97 | every run can be continued to a final state, with the waits alone or the handler alone collecting from then on |
| `PipelineProgress.CanReturn` | src/pipeline.c:94-97 | for every pipeline some run ends with a return |
| `PipelineProgress.CanLoseSession` | src/signals.c:44-57 | for every pipeline, with the handler in place, some run from the start ends with the session process gone |
| `PipelineProgress.AlwaysReturnsIff` | src/signals.c:69-74 | `run_pipeline` returns at the end of every run if and only if the SIGCHLD handler is not in place |
| `Processes.Process.MyDup2` | src/syscalls.c:233-243 | the table changes as dup2 says, and EBADF ends the process |
| `Processes.Process.MyClose` | src/syscalls.c:253-259 | the descriptor is gone, and EBADF ends the process |
| `Processes.Process.MyPipe` | src/syscalls.c:245-251 | the two lowest free descriptors refer to the two ends of the new pipe |
| `Processes.InitPipesFd` | src/pipeline.c:57-66 | the array receives 2n distinct descriptors above 1 that were free before, and the table gains exactly them |
| `Processes.ClosePipes` | src/pipeline.c:68-75 | closes the array's descriptors in order or ends the process at the first that is not open |
| `Processes.DoDup2Command` | src/command_handler.c:88-94 | issues the dup2 calls that belong to the child's place in the pipeline |
| `Processes.Dup2AndClose` | src/command_handler.c:96-102 | run in a freshly forked child it succeeds and leaves the wired table |
| `Processes.WaitForAll` | src/pipeline.c:95-97 | n waits for n children leave none, and the process survives them if and only if the handler collects nothing before any of them |
| `Processes.RunPipeline` | src/pipeline.c:77-98 | every child reaches execve wired, the caller's descriptors are those of the start, no child is left, and the process survives if and only if the handler collects none |
| `Sessions.AttemptLogin` | src/server_core.c:125-143 | the result is the least entry equal to the two lines cut to 255 characters, or -1 |
| `Sessions.DoLogin` | src/server_core.c:145-157 | at most three attempts, none after a success, all earlier ones refused, and the recorded index is the last attempt's least match |
| `Sessions.Session.ServerHandleGet` | src/filetransfer.c:72-84 | exactly the file is sent to the client, and the descriptors and `readfd` are as before; a file that cannot be opened ends the process |
| `Sessions.Session.ServerHandlePut` | src/filetransfer.c:86-94 | the client's bytes replace the beginning of the server's file, which ends up as the client's if and only if it was no longer before; the descriptors and `writefd` are as before; a file that cannot be opened ends the process |
| `Sessions.PutStoresIff` | src/filetransfer.c:91 | after a `put` that is answered, the server's file is the client's if and only if it was no longer before |
| `Sessions.Session.ServerHandleHelp` | src/filetransfer.c:96-101 | the client is sent the list of commands |
| `Sessions.Session.CloseReadFdRestoreOldFd` | src/filetransfer.c:166-171 | closes the current `readfd` only and puts the old one back |
| `Sessions.Session.CloseWriteFdRestoreOldFd` | src/filetransfer.c:173-178 | closes the current `writefd` only and puts the old one back |
| `Sessions.Session.RunCommand` | src/command_handler.c:55-65 | the line is cut into its commands in the array, each row ended by a NULL, one child is forked for each and wired to its neighbours, the caller's descriptors are those of the start, and it survives if and only if the handler collects none |
| `Sessions.Session.RunLine` | src/pipeline.c:82-90 | each child hands execve exactly the words of its command, with exactly its wired descriptors |
| `Sessions.Session.Run` | src/filetransfer.c:244-260 | `get` sends exactly its file, `put` leaves the client's bytes over the beginning of its file, `help` sends the list, any other line but "exit" runs its commands; descriptors, `readfd` and `writefd` are unchanged, no child is left, and the process survives exactly when the file can be opened, or the handler collects none of the children, and never "exit" |
| `Sessions.Session.HandleClient` | src/server_core.c:159-182 | the requests are answered one by one, in order, each as `Run` says, until one ends the process; then or at the end the descriptors are those of the start, and a process that is left has answered all and is at a prompt without a child |
| `Sessions.Session.Serve` | src/server_core.c:185-200 | if one of at most three attempts matches the table, the requests are served as `HandleClient` says; if none does, none is |
| `Files.WritesOverlay` | src/networktcp.c:175-184 | however the data is cut into writes, they leave the file overlaid with all of it from its start |
| `Files.OverlaidIff` | src/filetransfer.c:91 | the file holds just what was written if and only if it was no longer before |
| `Files.LongerFileKeepsTail` | src/filetransfer.c:91 | one byte put over a file of three leaves the last two |
| `Transfer.StepBytes` | src/networktcp.c:170-210 | no system call of either side loses, repeats or reorders a byte |
| `Transfer.RunConserved` | src/networktcp.c:170-210 | at every moment of every run receiver file, buffer, queue, flight, sender buffer and unread file make up the source, the received file is a prefix of it, and the receiver never uses an unassigned count |
| `Transfer.PiecesAppend` | src/filetransfer.c:59-69 | a chunk written behind chunks in flight keeps them a chunking of the file |
| `Transfer.StepExact` | src/filetransfer.c:150-164 | when chunks arrive whole, every step keeps both sides aligned to chunk boundaries |
| `Transfer.RunExact` | src/filetransfer.c:59-69 | alignment holds at every moment of every run |
| `TransferTheorems.RunsAreBounded` | src/filetransfer.c:150-164 | no schedule and no pattern of short counts keeps a transfer going: every run is shorter than a bound linear in the length |
| `TransferTheorems.MovesOrComplete` | src/filetransfer.c:59-69 | a transfer that has not finished on both sides can move |
| `TransferTheorems.RunCompletes` | src/filetransfer.c:59-69 | every run can be continued to completion |
| `TransferTheorems.TransferIsExact` | src/filetransfer.c:150-164 | for lengths not a multiple of 4095 the receiver never stops before its file equals the source, runs are bounded, and where nothing can move both sides are done after ceil(len/4095) rounds |
| `TransferTheorems.SplitChunkStopsEarly` | src/networktcp.c:170-187 | if the first chunk can be split, there is a run in which the receiver stops with part of the file |
| `TransferTheorems.NeverStopsEarlyIff` | src/filetransfer.c:158-161 | the short-chunk end marker is sound if and only if no chunk is split |
| `TransferTheorems.TransferWorksIff` | src/filetransfer.c:63-67 | a transfer can end, and only with the whole file, if and only if no chunk is split and the length is not a multiple of 4095 |
| `TransferTheorems.StoresSourceIff` | src/filetransfer.c:86-94 | with whole chunks the receiver's file can end, and only as the source, if and only if the length is not a multiple of 4095 and the file was no longer before; with split chunks only if it already equalled the source but for the first byte |
| `TransferLoops.File.MyWrite` | src/networktcp.c:177-182 | a write, however short, goes over the contents at the offset where the last one ended |
| `TransferLoops.Sock.Read` | src/syscalls.c:91-101 | a non-blocking read takes bytes in order, says "would block" only on an empty queue with more to come or the peer not yet closed, and end of file only when the peer has closed and nothing is left |
| `TransferLoops.MySckRead` | src/syscalls.c:78-110 | returns the next bytes in order, fewer than asked only when the queue was found empty, and restores the flags except at end of file; when the peer has closed and nothing is in flight, it sees end of file if and only if fewer bytes than asked are queued |
| `TransferLoops.MySckWrite` | src/syscalls.c:112-129 | all bytes go out, in order, however short the writes |
| `TransferLoops.ReadFdWriteSocket` | src/networktcp.c:189-210 | sends one chunk, or the whole file, and returns the last chunk's length, unassigned when nothing could be read |
| `TransferLoops.SendFileToSocket` | src/filetransfer.c:59-69 | the whole file is sent in one round per chunk, without deciding on an unassigned value |
| `TransferLoops.ReadSocketWriteFd` | src/networktcp.c:170-187 | whatever arrives between calls, it stops on a chunk boundary or at the end, and returns the length of the last chunk |
| `TransferLoops.ReadBytesFromSocket` | src/filetransfer.c:150-164 | whatever arrives between calls, the loop ends exactly when the bytes written are what was sent, and they lie over the beginning of what the file held |
| `CStrings.MyStrCmp` | src/mystring.c:268-278 | zero exactly on equal strings, negative exactly when the first comes before the second in the order of plain chars |
| `CStrings.MyStrNCmp` | src/mystring.c:280-292 | the same on the first n characters, with n = 0 counted as 2^64 |
| `CStrings.SignAgreesIff` | src/mystring.c:277-291 | on bytes, that order is the one of sections 7.24.4.2 and 7.24.4.4 of ISO/IEC 9899:2011 if and only if at the first difference both bytes are below 128 or both are not |
| `CStrings.HighByteDiffers` | src/mystring.c:277 | the byte 0x80 comes after "a" for strcmp and before it here |
| `CStrings.NCmpZeroDiffers` | src/mystring.c:286-289 | with n = 0 it agrees with strncmp if and only if the strings are equal, and "a", "b" are an example |
| `CStrings.CopyToRow` | src/mystring.c:243-256 | the row holds the source string cut to the limit, and no other row changes |
| `Tokenizer.StepIsSafe` | src/mystring.c:447-477 | on a buffer that ends in two NULs a call stays inside it, moves the cursor forward or to NULL, changes at most one delimiter to NUL, and leaves a buffer that is safe for the next call |
| `Tokenizer.Lexer.MyStrTok` | src/mystring.c:447-477 | the pointer loops compute the token, the memory and the cursor that the other members reason about |
| `Tokenizer.RemoveWhitespace` | src/mystring.c:430-438 | passes over blanks and tabs only, and stops at the first cell that is neither |
| `Tokenizer.SkipsOnlyBlanks` | src/mystring.c:430-438 | before a token all leading blanks and tabs are dropped and nothing else |
| `Tokenizer.StepCuts` | src/mystring.c:463-469 | a call on text with a delimiter after its first token returns that token, cuts there, and leaves the cursor before the rest |
| `Tokenizer.StepEnds` | src/mystring.c:470-474 | a call on the last token of a segment cuts nothing, and the cursor becomes NULL or steps over the NUL |
| `Tokenizer.IterateSplits` | src/mystring.c:447-477 | repeated calls on a doubly terminated buffer return exactly the tokens of its text |
| `Tokenizer.IterateCutsDelimiters` | src/mystring.c:463-469 | over all those calls only delimiters change, and only to NUL |
| `Tokenizer.OnlyLastEmpty` | src/mystring.c:459-476 | split at blanks, only the last token can be empty |
| `CommandLine.WordsConcat` | src/command_handler.c:41-45 | a blank always separates: the words of two texts joined by one are those of both |
| `CommandLine.WordsKeepVisible` | src/command_handler.c:41-48 | for every line, the words put together are the line but for blanks and tabs |
| `CommandLine.BarsOfCommands` | src/pipeline.c:13-23 | the commands with bars between them are the words again, for every list of words |
| `CommandLine.CommandsOfBars` | src/pipeline.c:13-23 | commands written out with bars are parsed back to the same commands |
| `CommandLine.PrintThenParse` | src/pipeline.c:100-110 | a printed pipeline is read back as the same commands, word for word |
| `CommandLine.FitsIff` | src/pipeline.c:13-25 | the words of a line fit the arrays except when all 16 are one command or all 16 are bars |
| `CommandParser.NextToken` | src/mystring.c:447-477 | a call delivers the first token of the text and leaves the cursor before exactly the others |
| `CommandParser.ParseCommandLine` | src/command_handler.c:35-53 | stores the first 16 words of the line and a final NULL, whatever the cursor and `argv_alloc` held |
| `CommandParser.ParsePipeline` | src/pipeline.c:7-28 | each command's arguments point to its words in order, NULL follows the last, and the count is the number of commands |
| `CommandParser.BuildPipeline` | src/pipeline.c:100-110 | the pipeline array holds the line's first 16 words cut at the bars |
| `CommandParser.BuildPrinted` | src/pipeline.c:100-110 | a printed pipeline of at most 16 tokens, commands of at most 15 words, is rebuilt exactly |
| `Credentials.OuterStep` | src/clientlogin.c:56-59 | the outer call cuts the next line out of what is left of the file |
| `Credentials.InnerFirst` | src/clientlogin.c:34-36 | the first inner call returns the user and cuts the line at the blank |
| `Credentials.InnerSecond` | src/clientlogin.c:37-41 | the second returns the password and moves the cursor over the NUL to the next line, or to NULL after the last |
| `Credentials.OuterAfterInner` | src/clientlogin.c:58-59 | although the inner calls overwrote the cursor, the outer call finds the next line |
| `Credentials.Table.LoadUserAndPassword` | src/clientlogin.c:31-42 | the entry holds the line's two fields, no other entry changes, and the cursor is where the outer loop needs it |
| `Credentials.Table.LoadLines` | src/clientlogin.c:56-60 | the entries are the file's pairs in order and the count is the number of lines |
| `Credentials.Table.LoadCredentials` | src/clientlogin.c:44-65 | the table is exactly the list of pairs in the file, with or without a final newline |
| `Credentials.Table.VerifyUser` | src/clientlogin.c:20-29 | the least entry whose user and password both compare equal, or -1 when there is none |
| `Separator.FieldsRejoin` | src/mystring.c:396-423 | one more field than delimiters, no field holds one, and putting the delimiters back gives the text |
| `Separator.MyStrSep` | src/mystring.c:396-423 | returns the first field, overwrites the delimiter after it, and leaves the cursor before the rest or NULL |
| `Separator.AllFields` | src/mystring.c:396-423 | calls until NULL give the fields of the text, and the cursor strictly advances |
| `LineReader.Reader.MyGetChar` | src/mystring.c:52-69 | returns the next byte of the current block, then one artificial EOF, and reads a block only when nothing is buffered |
| `LineReader.Reader.MyReadLine` | src/mystring.c:71-83 | from any buffer state, returns what is buffered or else the next block, up to its first 0xFF byte with its last byte made NUL, and leaves behind exactly what follows that byte; the NUL goes before the line buffer if and only if there is nothing or a 0xFF byte first; at end of input the process ends |
| `LineReader.ReadLines` | src/mystring.c:71-83 | over any mix of descriptors the k-th call returns exactly the next block of its descriptor and leaves the static buffer empty |
| `LineReader.DescriptorsStayApart` | src/mystring.c:55-67 | the lines obtained on a descriptor are that descriptor's first blocks in order, so no byte crosses to another |
| `LineReader.ReadMixedLines` | src/mystring.c:71-83 | with 0xFF bytes in any block, a session stays inside its line buffer if and only if every request works on bytes that do not begin with 0xFF, and then returns the lines that the leftovers prescribe, whichever descriptor is asked |
| `LineReader.SecondInsideIff` | src/mystring.c:78-80 | the request after a block that holds 0xFF stays inside its line buffer if and only if that byte is neither the last nor followed by another |
| `LineReader.LinesStayHomeIff` | src/mystring.c:55-67 | every line comes from the descriptor it was asked of if and only if no block holding 0xFF is followed by a request on another descriptor |
| `Decimals.DigitCharacters` | src/mystring.c:127-166 | the digits are the characters 48 to 57, in order |
| `Decimals.ParseOfSigned` | src/mystring.c:127-166 | parsing the numeral of an int gives the int back; it is a minus sign, character 45, if negative, and digits 48 to 57 without a leading zero |
| `Decimals.MyItoa` | src/mystring.c:127-166 | writes the numeral of every int but the most negative one, and a NUL, in at most 12 bytes |
| `Decimals.XorSwaps` | assets/DFS/dfs.c:173-182 | the three exclusive ors exchange two bytes |
| `Decimals.ReverseStr` | assets/DFS/dfs.c:173-182 | the cells are reversed in place and those after them unchanged |
| `Decimals.IntToStr` | assets/DFS/dfs.c:184-195 | writes the numeral of any non-negative int, 0 included, and a NUL |
| `Chunks.GenerateChunkName` | assets/DFS/dfs.c:143-171 | stem, suffix, numeral and extension, in that order, for ids 0 to 9999 |
| `Chunks.NameParts` | assets/DFS/dfs.c:143-171 | a name is the base up to its first dot, "_chunk_", the id in decimal digits, and the rest of the base |
| `Chunks.NamesDiffer` | assets/DFS/dfs.c:143-171 | equal names for one base come from equal ids |
| `Chunks.TilesJoin` | assets/DFS/dfs.c:95-97 | chunks that tile a prefix of the buffer hold it without gap or overlap |
| `Chunks.PartitionData` | assets/DFS/dfs.c:74-112 | size / partition chunks, each of the partition size at its multiple of it, tile the first size - size % partition bytes, `out` collects exactly those bytes as they are printed, and chunk i carries id i and its name |
| `Chunks.NamedApart` | assets/DFS/dfs.c:95-108 | within one call all chunk names differ |
| `SearchTree.InsertKeeps` | assets/TREE_CODE/main.c:71-94 | adding a value keeps strict search order and adds exactly that value |
| `SearchTree.PreOrderRebuilds` | assets/TREE_CODE/main.c:57-94 | adding the values in traversal order rebuilds the same tree |
| `SearchTree.TraversalOrder` | assets/TREE_CODE/main.c:57-69 | a node is visited before what is below it, and what is on its left before what is on its right |
| `SearchTree.EdgesFromRoot` | assets/TREE_CODE/main.c:57-69 | started at the root the guard suppresses the root only: m nodes print m - 1 edges, whose children are the other nodes in preorder |
| `SearchTree.EdgesAreChildren` | assets/TREE_CODE/main.c:59-60 | an edge is printed if and only if it leads from a node's value to that of a direct child |
| `SearchTree.EdgesDetermineTree` | assets/TREE_CODE/main.c:57-69 | the printed edges and the root's value determine the tree |
| `SearchTree.AddNode` | assets/TREE_CODE/main.c:71-94 | on the heap the subtrees stay disjoint and acyclic, the shape is the one of insertion, every node stays, and at most one node, a fresh one, is added |
| `SearchTree.PreOrderTraverse` | assets/TREE_CODE/main.c:57-69 | prints exactly the edge list that the lemmas are about |
| `SearchTree.AddAll` | assets/TREE_CODE/main.c:39-40 | adding any values one after another gives the tree of inserting them in order, and keeps it ordered |

## Left out

- Socket set-up, address resolution, `accept`, and `poll` beyond "returns when something can be read".
- The targets of exec, the environment, `mygetenv`, `mygetcwd`, `fdgetline`, `mymalloc`, `myfree` and the signal mask calls: thin wrappers without logic of their own.
- The prompt and file-name handshake before a transfer, and the confirmation after it; the transfer starts at the data phase.
- `printf` tracing, logging, `myfprintf` and `fflush`, the client's interactive loop, and the debugging mains.
- Errors of read, write, fork, pipe and fcntl other than those modelled: each ends the process at once.
- Signals other than SIGCHLD, and children that are stopped: the handler reports a stopped child but does not collect it.
- Whether a pipeline whose commands never stop ends: that every run ends is proved for commands that make finitely many calls.
- Memory beyond the arrays: a single command of 16 words, a line of 16 bars, words of 1024 or more characters, and credential lines of another form are outside the preconditions.
- Decimals.MyItoa: does not cover the most negative int, whose negation overflows.
- LineReader.LinesStayHomeIff: speaks of sessions that stay inside their line buffer; `LineReader.ReadMixedLines` says which do.
- Credentials.Table.LoadCredentials: does not cover an empty file, for which the count is never assigned, or a file longer than one read.
- TransferLoops.SendFileToSocket: does not cover lengths that are a multiple of 4095; `TransferTheorems.TransferWorksIff` says what happens there.
- Chunks.PartitionData: `out` is the chunk bytes only, without the path line printed after each chunk; the working directory that is put before each name is not modelled, nor are the chunks of the remainder, which the code never fills in.
- Sessions.Session.ServerHandleGet: starts at the data phase; the prompt and file-name handshake before it and the confirmation line read after it are not modelled.
- Sessions.Session.ServerHandlePut: starts at the data phase; the prompt and file-name handshake before it are not modelled.
- Sessions.Session.HandleClient: what a file holds when a request opens it is given with the request; what the commands of pipelines and other sessions do to files is not modelled.
- Sessions.Session.Run: the children of a pipeline are followed only to the point of exec; their running together is the pipeline system. A transfer runs against a connection of its own, in lengths on which the sender decides and with chunks that arrive whole.
