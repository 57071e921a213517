# Verified model of the ebbrt-contrib applications

This project models the self-contained logic of the EbbRT contributed applications and proves
properties of it: the in-place command-line tokenizer, the two protocols by which the threads
of a node get or create the one object behind an Ebb, the remote input stream, the command
server's relay, the hosted processor bring-up, the benchmark rendezvous, the per-core counter
and the NUL-separated argument block.

`dafny verify dfyconfig.toml` checks everything.

## How the modules fit together

* `ArgvSpec` says what a command line means, without cursors: `Split` gives the words, and
  `InMemory` the C strings the caller really finds. They differ only in the last word, which
  gets no NUL when the input ends inside it. `ArgvGrammar` is an independent definition, a
  grammar with a printer; `Split` is proved to accept exactly its lines and to give each its
  meaning. `ArgvLaws` says what it makes of lines that are written out, and `ArgvQuoting`
  derives the round trip of quoted argument lists from the grammar. `Argv` is the code: two
  cursors over one `array<char>`, a growing array of pointers, proved to store exactly
  `InMemory`. `ArgvDelivery` puts the two ends together. `CStrings` says what a C string in
  memory is.
* `GetOrCreate` is the specification of a fault: one object is made, everyone is handed it.
  `LockedFault` and `OptimisticFault` are the two protocols, as transition systems over any
  number of threads; both are proved to be runs of `GetOrCreate`, to keep their own
  invariants, and to end with every thread served. `Totals` holds the sums over threads that
  the progress measures and the spin counters use, `Options` a value that may be missing.
* `StreamProtocol` holds the steps of the frontend, the backend and the wire,
  `StreamDelivery` the invariants and the theorems about whole runs, and `HostedInputStream`
  the frontend object, each callback of which is proved to be the step it stands for, with an
  account of what it has sent.
* `ReceiveBuffer`, `Connection` and `CmdServer` are the command server: the buffer, callbacks and
  saved contexts, the window loop with the windows in flight, and what reaches `Send`. An `Inbox`
  stands for the fields `buffer_` and `bufLen_`, which the server and its connections share.
  `RelayAccount` keeps account of each chunk, by its position, over calls of `Do` that overlap.
* `BringUp`, `Rendezvous` and `Counters` are the multicore start, `MPTest` and the counters.
* `ArgBlock` encodes an argument list on the frontend and splits it on a backend.

A character stands for one byte of the original. A pointer into a buffer is an offset.
Several threads of the original are a transition system here, because the subject is their
interleaving; sequential code is a method or a class proved against a specification.

## What the code does that its text does not say

* `a\b` gives the word `ab`, but the caller reads `abb` (argv.cc jumps to `done` without storing
  a NUL). `InMemoryExactness` says exactly when the last argument is affected.
* A backspace ends a word but is not white space, so a leading one gives an empty word.
* A comment in `HandleFault` says that no lock is held after a failed insert. With the accessor
  semantics the same comment block quotes, the thread would wait for the winner and hold the
  accessor until it retries. The model allows both, and both end (`LockedFault.NotStuck`).
* Restarting a stream while a read is under way starts a second one (`OneReadIffCareful`), and
  that is exactly what can spoil the delivery, for every file (`WrongIffEarlyRestart`). Below the
  end the second chunk is announced with too large an `avail`, as the first is not counted yet;
  at the end the second read is empty and its disposal passes on a second end of file. A chunk
  still queued can also be overwritten in the buffer (`EarlyRestartCorrupts`).
* What arrives while `Do` is blocked in its send is lost, and what is in the buffer when another
  connection closes meanwhile is relayed again: a chunk goes out as often as `Do` is called before
  one comes back (`RelayedOnceIff`, `TwoClosesRepeat`).
* `GetByIndex` counts processors and does not look at slots, which are filled in the order in
  which the threads get the lock (and it compares as unsigned numbers, so with no processor yet
  it gives out a slot for every index). What it gives out is constructed for certain only once
  all processors are counted (`GetByIndexSafeIffAll`).
* The script that quotes the kernel command line writes arguments with unprintable characters as
  `$'...'`, which the tokenizer does not undo (`DollarQuotedIsLost`).
* `MPTest` never returns when the caller's processor is not among the workers (`ReturnsIff`).
* `gatherVal` assigns where it should add (`GatherValIffOneCore`).
* The checks `n<0` in the file read and in `MPTest` are made on unsigned numbers and never hold.
* The command server never initialises `bufLen_`; the model starts it at 0.

## Assumptions

* The id map gives exclusive access to the thread that inserts, readers share, and entries are
  never removed. Root data arrives without error.
* Messages keep their order. A queued message refers to the buffer and to the shared header and
  is read out of them when it is transmitted; its buffer is released after that. A file has a
  fixed length; a read below its end returns between 1 and 4096 bytes. The length of a missing
  buffer counts as 0.
* Events run to completion: a callback of a connection runs only while the sender is saved, and
  an event on the caller's processor only once the caller has saved its context. A connection is
  established at most once and not after an abort, the network frees only buffers that it was
  given and has not freed, and every wait is ended by some callback.
* The arguments quoted by the boot script are printable and free of NULs. The shell escapes the
  special characters of the tokenizer wherever they stand, and others (`#` and `~` depending on
  their position) as it likes.
* The barrier of `MPTest` has one place for each worker. (In the code it is static, so it keeps
  the size of the first call.)

## Model

| member | source | states |
|---|---|---|
| ArgvSpec.InMemoryExactness | apps/src/baremetal/argv.cc:65-120 | the stored arguments are as many as the words, all but the last are exact, the last starts with its word, and the whole vector is exact iff the last word was terminated |
| ArgvSpec.PlainLength | apps/src/baremetal/argv.cc:76-111 | a word that runs into the end of the input leaves no gap behind it iff its source has no quote and no backslash |
| ArgvSpec.UnterminatedExample | apps/src/baremetal/argv.cc:79-80 | the concrete line whose last argument is not its word |
| ArgvLaws.SeparatorSplits | apps/src/baremetal/argv.cc:66-105 | between two plain words, exactly the six characters of white space and the backspace part them |
| ArgvLaws.SeparatorInFront | apps/src/baremetal/argv.cc:66-105 | in front of a word white space is skipped and a backspace makes an empty word |
| ArgvLaws.VerbatimRaw | apps/src/baremetal/argv.cc:143-168 | in single quotes a backslash in front of another character than a backslash or quote stays, and so does everything else |
| ArgvLaws.VerbatimKept | apps/src/baremetal/argv.cc:87-91 | such a quoted text joins the plain word in front of it, blanks and backslashes included |
| ArgvLaws.ControlEscapes | apps/src/baremetal/argv.cc:170-190 | the values of the seven control escapes in double quotes |
| ArgvLaws.OtherEscapes | apps/src/baremetal/argv.cc:170-190 | any other character behind a backslash in double quotes stands for itself |
| ArgvLaws.OpenQuoteFails | apps/src/baremetal/argv.cc:133-215 | a line whose quote, of either kind, is never closed has no result |
| ArgvLaws.TrailingBackslash | apps/src/baremetal/argv.cc:82-84 | a lone backslash at the end is dropped and the word before it found exact |
| ArgvLaws.EscapeAtEndStutters | apps/src/baremetal/argv.cc:79-86 | every plain word that ends the line with an escaped character is found with that character twice |
| ArgvGrammar.RawSound | apps/src/baremetal/argv.cc:132-168 | text shown in single quotes is read back as its meaning, up to the closing quote and no further |
| ArgvGrammar.RawComplete | apps/src/baremetal/argv.cc:132-168 | whatever is accepted behind an opening single quote is the showing of some sequence of items |
| ArgvGrammar.CookedSound | apps/src/baremetal/argv.cc:170-215 | the same for double quotes and their control-character escapes |
| ArgvGrammar.CookedComplete | apps/src/baremetal/argv.cc:170-215 | whatever is accepted behind an opening double quote is the showing of some sequence of items |
| ArgvGrammar.PiecesSound | apps/src/baremetal/argv.cc:76-111 | adjacent plain, escaped and quoted pieces join into one word, and the scan knows whether a quote was closed last |
| ArgvGrammar.SplitSound | apps/src/baremetal/argv.cc:65-115 | every line of the grammar splits into its meaning, white space and empty words included |
| ArgvGrammar.SplitComplete | apps/src/baremetal/argv.cc:65-115 | every line that splits is a line of the grammar |
| ArgvGrammar.SplitIsGrammar | apps/src/baremetal/argv.cc:52-130 | a line splits iff the grammar has a reading for it, and all readings mean the words given |
| ArgvQuoting.TerminatedSound | apps/src/baremetal/argv.cc:76-115 | the last word is terminated iff its pieces end with a quoted one, or are all plain, or the word has a close of its own |
| ArgvQuoting.RoundTrip | apps/src/baremetal/argv.cc:76-111 | any arguments, each put in single quotes, in double quotes or behind backslashes at any places that include the special characters, split back to themselves; the stored strings are the arguments iff a separator trails or the last one has no loose end |
| ArgvQuoting.JoinIsCString | scripts/qbm:57-63 | a line quoted from NUL-free arguments, with a free choice of escaped places in each, is a C string wherever it is stored |
| ArgvQuoting.JoinExamples | scripts/qbm:57-63 | quoted lines written out, one in each style |
| ArgvQuoting.JoinMore | scripts/qbm:57-63 | the next argument follows behind one space |
| ArgvQuoting.DollarQuotedIsLost | scripts/qbm:57-63 | an argument with a character that `%q` replaces inside `$'...'` does not come back |
| Argv.CopyRawString | apps/src/baremetal/argv.cc:132-168 | succeeds iff the quote is closed, stores exactly the quoted text and a NUL behind it, reads ahead of where it writes, touches nothing else |
| Argv.EscapeConvt | apps/src/baremetal/argv.cc:170-190 | the named control character or the character itself, and the cursor behind it |
| Argv.CopyCookedString | apps/src/baremetal/argv.cc:193-215 | as CopyRawString, for double quotes |
| Argv.CopyQuoted | apps/src/baremetal/argv.cc:87-97 | a quote in the middle of a word extends the text so far and leaves the invariant of the word, or reports the open quote |
| Argv.CopyWord | apps/src/baremetal/argv.cc:76-111 | stores exactly the text of the word in bytes already read; says how it stopped and what lies behind the text |
| Argv.UnendedPlaced | apps/src/baremetal/argv.cc:79-84 | a last word without a NUL of its own runs on through the original bytes left behind it to the end of the input |
| Argv.SkipSpaces | apps/src/baremetal/argv.cc:66 | stops at the first character that is not white space; the arguments to come are the same |
| Argv.CopyInput | apps/src/baremetal/argv.cc:63-64 | a fresh copy of the C string without its leading white space; the arguments are the same |
| Argv.Xrealloc | apps/src/baremetal/argv.cc:41-50 | the larger block keeps every entry |
| Argv.Reserve | apps/src/baremetal/argv.cc:69-73 | room for one more pointer and the NULL; capacity at most one and a half times the count, all moves together linear in the capacity |
| Argv.AddWord | apps/src/baremetal/argv.cc:74-115 | one more finished argument in order behind the others, or failure iff its quote is open |
| Argv.StringToArgv | apps/src/baremetal/argv.cc:52-130 | for every C string: fails iff a quote is open; else count, stored strings, their order and the closing NULL are those of the specification, with bounded growth |
| ArgvDelivery.PassArguments | scripts/qbm:57-63 | a quoted list of printable arguments arrives complete iff the line ends with a separator or the last argument has no loose end; all but the last always arrive |
| GetOrCreate.RunIsSafe | apps/ubench/src/CmdLineArgs.cc:95-127 | over every run of the specification the object made never changes, and everyone handed anything has it and keeps it |
| GetOrCreate.Agreement | apps/ubench/src/CmdLineArgs.cc:95-127 | any two threads are handed the same object |
| LockedFault.NextKeepsInv | apps/ubench/src/CmdLineArgs.cc:55-127 | every step of every thread keeps: one root, one representative, locks held by exactly the threads at the right places, and what each thread knows |
| LockedFault.RunRefines | apps/ubench/src/CmdLineArgs.cc:55-127 | every interleaving is a run of get-or-create |
| LockedFault.OneRootOneRep | apps/ubench/src/CmdLineArgs.cc:55-72 | at most one root and one representative are ever made, the latter in a root that has its data, and every returning thread has it |
| LockedFault.RepAfterArrival | apps/ubench/src/CmdLineArgs.cc:60-69 | no representative is made before a step in which the data of the root arrives from outside |
| LockedFault.MutualExclusion | apps/ubench/src/CmdLineArgs.cc:55-127 | one thread at a time between taking and giving up the mutex, and none that waits for the data; nobody else has an accessor while a thread fills the entry |
| LockedFault.EveryoneAgrees | apps/ubench/src/InputStreamCommon.cc:121-196 | any two returning threads return the same representative |
| LockedFault.RetryFinds | apps/ubench/src/CmdLineArgs.cc:97-126 | a lookup after an insert, won or lost, succeeds |
| LockedFault.NextDecreases | apps/ubench/src/CmdLineArgs.cc:97-126 | a measure over all threads falls with every step |
| LockedFault.NotStuck | apps/ubench/src/CmdLineArgs.cc:55-127 | as long as one thread has not returned some step is possible, even where a failing insert has to wait for the winner and for readers |
| LockedFault.RunsEnd | apps/ubench/src/FS.cc:194-276 | a run of n threads has at most 13n + 1 steps, and where it ends, with or without waiting inserts, every thread returned the one representative |
| LockedFault.SomeRunServesAll | apps/ubench/src/CmdLineArgs.cc:55-127 | every run can be continued to its end, so for any number of threads some run serves all |
| OptimisticFault.NextKeepsInv | apps/cmdserver/src/baremetal/CmdServer.cc:76-108 | every step keeps the account of the objects made and what each thread knows |
| OptimisticFault.RunRefines | apps/cmdserver/src/baremetal/CmdServer.cc:76-108 | every interleaving is a run of the same get-or-create |
| OptimisticFault.Conservation | apps/cmdserver/src/baremetal/CmdServer.cc:95-107 | each object made is exactly one of the winner, a deleted loser, the candidate of one thread; what is cached or returned is the winner and never deleted |
| OptimisticFault.MadeAfterArrival | apps/cmdserver/src/baremetal/CmdServer.cc:76-95 | no object is made before a step in which the data of the id arrives from outside |
| OptimisticFault.LateComerMakesNone | apps/cmdserver/src/baremetal/CmdServer.cc:76-84 | a thread that looks the id up when it is in the map makes and holds no object and is handed the one in the map |
| OptimisticFault.SomeRunServesAll | apps/cmdserver/src/baremetal/CmdServer.cc:76-108 | every run can be continued to its end, so for any number of threads some run serves all |
| OptimisticFault.EveryoneAgrees | apps/cmdserver/src/baremetal/Printer.cc:16-48 | any two returning threads return the same object |
| OptimisticFault.NotStuck | apps/cmdserver/src/baremetal/CmdServer.cc:76-108 | as long as one thread has not returned some step is possible |
| OptimisticFault.RunsEnd | apps/cmdserver/src/baremetal/CmdServer.cc:76-108 | a run of n threads has at most 6n + 1 steps, and where it ends all returned the winner and all other objects are deleted |
| StreamProtocol.OverlapIffEarlyRestart | apps/ubench/hosted/src/InputStream.cc:169-192 | two reads come to overlap exactly by a START handled while stopped, below the end of the file, with a read still under way |
| StreamDelivery.StepKeepsInv | apps/ubench/hosted/src/InputStream.cc:136-192 | every step but an early restart keeps one owner of buffer and header and a faithful log of calls |
| StreamDelivery.OneReadIffCareful | apps/ubench/hosted/src/InputStream.cc:136-192 | over a whole run at most one read is ever under way iff no START is handled while the read from before a stop still is |
| StreamDelivery.ReadsIffTold | apps/ubench/src/Unix.h:162-172 | the frontend reads iff the last message it handled was a START: every STOP stops it, early or not |
| StreamDelivery.RequestsArrive | apps/ubench/baremetal/src/InputStream.cc:53-60 | requests alternate on their way, every START meets a stopped frontend and every STOP a reading one, and with none on its way the nodes agree |
| StreamDelivery.ChunksFit | apps/ubench/hosted/src/InputStream.cc:174 | no message and no chunk given to the consumer is longer than 4096 bytes |
| StreamDelivery.Delivery | apps/ubench/src/InputStreamCommon.cc:58-92 | at all times of a run without early restarts the consumed bytes are a prefix of the file, each avail is what is left, and the end of file is last, single and after everything |
| StreamDelivery.WrongIffEarlyRestart | apps/ubench/hosted/src/InputStream.cc:169-192 | for every file and every such run up to a START: handling it makes an unfaithful call possible iff the frontend was stopped with a read still under way |
| StreamDelivery.Complete | apps/ubench/hosted/src/InputStream.cc:170-190 | a reading stream at rest has delivered the whole file and one end of file; an empty file gets neither |
| StreamDelivery.NotStuck | apps/ubench/hosted/src/InputStream.cc:136-192 | unless everything is at rest some step can be taken |
| StreamDelivery.RunsEnd | apps/ubench/hosted/src/InputStream.cc:136-192 | with k starts and stops a run has at most 6 * length + 6k steps; where it ends all is at rest, and the file and one end of file are delivered if the backend was left reading |
| StreamDelivery.BufferUntouched | apps/ubench/hosted/src/InputStream.cc:174-189 | buffer and header are not written while a queued or unreleased chunk refers to them |
| StreamDelivery.EarlyRestartCorrupts | apps/ubench/src/Unix.h:162-172 | a run of stop and early start in which even the bytes are wrong: the backend gets the second byte first |
| StreamDelivery.StoppedHandsAtMostOne | apps/ubench/src/Unix.h:162-172 | while the frontend stays stopped at most one more chunk is handed over |
| StreamDelivery.StopHandsAtMostOne | apps/ubench/src/InputStreamCommon.cc:93-97 | from the handling of a STOP to the next START the frontend is stopped and at most one more chunk is handed over |
| HostedInputStream.InputStream.constructor | apps/ubench/hosted/src/InputStream.cc:195-217 | a new stream on a regular file is the initial state of the protocol |
| HostedInputStream.InputStream.Consume | apps/ubench/src/InputStreamCommon.cc:65-76 | the relay writes the shared header and queues a message |
| HostedInputStream.InputStream.AsyncReadSome | apps/ubench/hosted/src/InputStream.cc:169-172 | for a regular file a read event is spawned iff reading and below the end |
| HostedInputStream.InputStream.AsyncReadStart | apps/ubench/hosted/src/InputStream.cc:220-226 | the stream reads afterwards, one more read event is spawned iff it did not before and is below the end; the object notes whether that was careful |
| HostedInputStream.InputStream.AsyncReadStop | apps/ubench/src/Unix.h:162-172 | the stream does not read afterwards, whatever is under way, and nothing else changes |
| HostedInputStream.InputStream.Dispose | apps/ubench/hosted/src/InputStream.cc:178-188 | the object takes the protocol's disposal step |
| HostedInputStream.InputStream.RunReadEvent | apps/ubench/hosted/src/InputStream.cc:173-190 | the object takes the protocol's read step, with the bytes in its array; after careful starts a read is never empty and never meets an unreleased chunk |
| HostedInputStream.InputStream.TransmitNext | apps/ubench/src/InputStreamCommon.cc:71-75 | the message sent is what buffer and header hold at that moment: after careful starts the slice of the file read last with the bytes left behind it, or the one end without bytes and with 0; all messages so far are faithful |
| HostedInputStream.InputStream.ReleaseNext | apps/ubench/hosted/src/InputStream.cc:58-60 | the oldest transmitted buffer is disposed of, and the count moves on |
| HostedInputStream.ReadToEnd | apps/ubench/hosted/src/InputStream.cc:169-190 | the object, started and left alone, sends the whole file and one end of file, whatever the sizes of the reads |
| Connection.FirstCallbackDecides | apps/cmdserver/src/baremetal/CmdServer.cc:165-187 | a saved context is activated once, with the outcome of the first callback; later ones change nothing, but a late Connected fails its assertion |
| Connection.WakesPairWithSaves | apps/cmdserver/src/baremetal/CmdServer.cc:249-287 | in every order of saves and callbacks activations never overtake saves and happen only from BLOCKED, with the callback's outcome |
| Connection.WindowsConcat | apps/cmdserver/src/baremetal/CmdServer.cc:265-292 | the windows put together are the bytes |
| Connection.WindowsSizes | apps/cmdserver/src/baremetal/CmdServer.cc:265-292 | all windows but the last are full and the last is not empty |
| Connection.WindowsCount | apps/cmdserver/src/baremetal/CmdServer.cc:265-292 | there are len / window of them, rounded up |
| Connection.WindowsPrefix | apps/cmdserver/src/baremetal/CmdServer.cc:265-292 | the first so many windows are a prefix of the bytes |
| Connection.WaitFrees | apps/cmdserver/src/baremetal/CmdServer.cc:273-287 | with one window in flight a wait that is not aborted is ended by the release of that window |
| Connection.OneWindowInFlight | apps/cmdserver/src/baremetal/CmdServer.cc:265-292 | for every network that frees only what it has: when a window is handed over all earlier ones are freed |
| Connection.AnyOutcome | apps/cmdserver/src/baremetal/CmdServer.cc:229-294 | the assumed network can establish or abort a connection, and abort a send at any of its windows or at none |
| Connection.SentCountIs | apps/cmdserver/src/baremetal/CmdServer.cc:265-292 | the send stops behind the first window whose wait is aborted |
| Connection.OutConnection.constructor | apps/cmdserver/src/baremetal/CmdServer.cc:157-163 | a new connection is in state NONE with nothing saved |
| Connection.OutConnection.Connected | apps/cmdserver/src/baremetal/CmdServer.cc:165-170 | the object takes the step of the callback, the failed assertion included |
| Connection.OutConnection.BufferFreed | apps/cmdserver/src/baremetal/CmdServer.cc:273-279 | the object takes the step of the callback |
| Connection.OutConnection.Abort | apps/cmdserver/src/baremetal/CmdServer.cc:181-187 | the object takes the step of the callback |
| Connection.OutConnection.SaveContext | apps/cmdserver/src/baremetal/CmdServer.cc:285-287 | one save and one wakeup, the status seen on resuming is that of the first callback, and only a second Connected fails an assertion |
| Connection.OutConnection.ConnectAndBlock | apps/cmdserver/src/baremetal/CmdServer.cc:229-253 | 1 iff the wait was not ended by an abort, and then the connection is established; nothing is in flight |
| Connection.SendCounts | apps/cmdserver/src/baremetal/CmdServer.cc:265-292 | each window of a send takes one save and one wakeup, and no assertion fails |
| Connection.OutConnection.SendWindow | apps/cmdserver/src/baremetal/CmdServer.cc:271-286 | one window is read out of the buffer, handed over and waited for while chunks arrive: one save, one wakeup, success unless the first callback is an abort; the chunks lie behind what was there or the assertion fails |
| Connection.OutConnection.SendAndBlock | apps/cmdserver/src/baremetal/CmdServer.cc:255-294 | out of a buffer that fills up meanwhile, of any size: hands over the windows of what was to be sent, in order up to the first abort, none before all earlier ones are freed; none is left in flight unless the last wait was aborted; without an abort the length itself below 2^31, and always a 32-bit number equal to it modulo 2^32, else 0; what arrived lies behind, or the assertion failed for want of room |
| CmdServer.PendingIsSinceSent | apps/cmdserver/src/baremetal/CmdServer.cc:110-136 | the buffer holds exactly what was received since the last Do came back, fewer than 4096 characters |
| CmdServer.RelayStep | apps/cmdserver/src/baremetal/CmdServer.cc:110-136 | each Do hands over exactly that; the assertion fails exactly when a chunk leaves no place free |
| CmdServer.RelayedIffNotOverheard | apps/cmdserver/src/baremetal/CmdServer.cc:110-149 | where no Do is called while another is under way: everything received is relayed once and in order iff nothing arrives during a Do; the rest is what is lost |
| RelayAccount.TagsSpell | apps/cmdserver/src/baremetal/CmdServer.cc:110-136 | what the server holds and hands over is what a run on the positions of the chunks says |
| RelayAccount.HandedTimes | apps/cmdserver/src/baremetal/CmdServer.cc:110-136 | however many calls of Do overlap, a chunk has been handed over exactly as often as a Do was called before one came back, and is in the buffer as long as none has |
| RelayAccount.RelayedOnceIff | apps/cmdserver/src/baremetal/CmdServer.cc:110-149 | once a Do has come back after it arrived, a chunk has been relayed once iff exactly one was called in between (none is the loss, more the repetition), and that is final |
| RelayAccount.RelayedInOrderIff | apps/cmdserver/src/baremetal/CmdServer.cc:110-149 | everything received has been handed over once and in order, or waits to be, iff that holds of every chunk |
| RelayAccount.TwoClosesRepeat | apps/cmdserver/src/baremetal/CmdServer.cc:212-218 | two connections that close one after the other relay the same characters twice though nothing arrives in between |
| ReceiveBuffer.Inbox.Append | apps/cmdserver/src/baremetal/CmdServer.cc:125-136 | the chunk lies behind what was there iff the assertion holds, which leaves one place free; else nothing is stored |
| ReceiveBuffer.Inbox.Window | apps/cmdserver/src/baremetal/CmdServer.cc:271-273 | a window is read out of the buffer at the moment it is handed over |
| CmdServer.CmdServer.Buffer | apps/cmdserver/src/baremetal/CmdServer.cc:125-136 | the chunk joins the buffer iff the assertion holds |
| CmdServer.CmdServer.Send | apps/cmdserver/src/baremetal/CmdServer.cc:315-345 | nothing is sent without a connection; else the windows up to the first abort, read out of the buffer while chunks arrive behind them |
| CmdServer.HandedStays | apps/cmdserver/src/baremetal/CmdServer.cc:110-149 | what any Do was called with stays at the front of the buffer, whatever arrives, until a Do comes back |
| CmdServer.WholeDo | apps/cmdserver/src/baremetal/CmdServer.cc:110-136 | with one Do at a time, what arrives during a Do is what is lost with it |
| CmdServer.DownIff | apps/cmdserver/src/baremetal/CmdServer.cc:125-136 | arriving chunks bring the server down iff they do not all find room; else they lie behind what was there |
| CmdServer.CmdServer.BeginDo | apps/cmdserver/src/baremetal/CmdServer.cc:110-120 | Send is called with exactly what was received since the last Do came back |
| CmdServer.CmdServer.ReadWindow | apps/cmdserver/src/baremetal/CmdServer.cc:271-273 | a window read while a Do is under way, and none has come back since its call, is a piece of what it was called with |
| CmdServer.CmdServer.EndDo | apps/cmdserver/src/baremetal/CmdServer.cc:122 | the buffer is emptied |
| CmdServer.CmdServer.Do | apps/cmdserver/src/baremetal/CmdServer.cc:110-123 | with any chunks arriving during each of its waits: a prefix of what was received before goes out, all of it without an abort, the arrivals are dropped, and the assertion fails iff they do not fit |
| BringUp.NextKeepsInv | apps/ubench/hosted/src/ubench.cc:48-110 | every step keeps: counters equal the threads past them, the lock and the slots belong to the right threads, nobody passes a spin early |
| BringUp.MainIsLast | apps/ubench/hosted/src/ubench.cc:48-110 | Main is called at most once, by processor 0, after all slots are constructed, all threads run and all init events arrived; then GetByIndex is non-null exactly below n |
| BringUp.OneMakesAtATime | apps/ubench/hosted/src/ubench.cc:66-105 | one thread at a time makes its processor; none spawns its event before all are made, none runs it before all have spawned theirs |
| BringUp.GetByIndexSafeIffAll | apps/ubench/hosted/src/ubench.cc:48-59 | on n processors, for every k up to n: GetByIndex gives constructed slots only in all reachable states that count k processors iff k is n; for every smaller k a run gives out slot 0 unconstructed |
| BringUp.NextDecreases | apps/ubench/hosted/src/ubench.cc:61-148 | a measure over all threads falls with every step |
| BringUp.NotStuck | apps/ubench/hosted/src/ubench.cc:61-148 | no spin and no lock leaves the start stuck |
| BringUp.RunsEnd | apps/ubench/hosted/src/ubench.cc:112-148 | a run on n processors has at most 12n + 1 steps and ends with Main called exactly once and all processors in their event loops |
| BringUp.SomeRunCallsMain | apps/ubench/hosted/src/ubench.cc:48-148 | every run can be continued to its end, so for any number of processors some run calls Main |
| Rendezvous.NextKeepsInv | apps/ubench/src/ubenchCommon.h:73-107 | every step keeps: barrier and counter equal the workers past them, results are stored where due, the caller is woken by its own worker only |
| Rendezvous.Workers | apps/ubench/src/ubenchCommon.h:73 | as many workers as asked for, but at most one for each processor |
| Rendezvous.BarriersHold | apps/ubench/src/ubenchCommon.h:84-102 | nobody works before all came to the first barrier, nobody stores before all finished their work, nobody wakes the caller before all results are stored |
| Rendezvous.ResumesLast | apps/ubench/src/ubenchCommon.h:102-107 | at most one activation, after the save, and on resuming all results are stored and n == count |
| Rendezvous.StuckMeansDone | apps/ubench/src/ubenchCommon.h:82-102 | a state without a step has all workers finished, and the caller resumed iff a worker ran on its processor |
| Rendezvous.RunsEnd | apps/ubench/src/ubenchCommon.h:73-110 | a run with n workers has at most 10n + 2 steps and ends with the caller resumed and all results, or saved for good |
| Rendezvous.SomeRunCollects | apps/ubench/src/ubenchCommon.h:73-110 | every run can be continued to its end, so for any results some run collects them |
| Rendezvous.ReturnsIff | apps/ubench/src/ubenchCommon.h:73-100 | asked for any number of workers, the call returns iff the caller's processor number is below that number |
| Counters.SumIsShared | apps/ubench/src/ubenchCommon.cc:192-313 | for every interleaving over any cores the sum over the representatives is the shared counter, with 32-bit wrap-around |
| Counters.SharedIsNet | apps/ubench/src/ubenchCommon.cc:192-198 | the shared counter holds the number of increments less that of decrements, wrapped to 32 bits |
| Counters.RepIsNet | apps/ubench/src/ubenchCommon.cc:242-257 | the representative of each core holds the increments less the decrements made on that core |
| Counters.LastIsNet | apps/ubench/src/ubenchCommon.cc:280-292 | what gatherVal returns is the count of the highest core alone |
| Counters.GatherValIffOneCore | apps/ubench/src/ubenchCommon.cc:280-292 | gatherVal agrees with the shared counter on all histories over a set of cores iff the set has at most one core |
| Counters.MultiCounterRoot.Count | apps/ubench/src/ubenchCommon.cc:249-257 | an operation on a core is one more in the history; the representatives are those of the history |
| Counters.MultiCounterRoot.OtherGatherVal | apps/ubench/src/ubenchCommon.cc:294-313 | returns what a shared counter would hold: the increments less the decrements of all cores, exact within 32 bits |
| Counters.MultiCounterRoot.GatherVal | apps/ubench/src/ubenchCommon.cc:280-292 | returns the value of the last representative only |
| ArgBlock.Init | apps/ubench/src/CmdLineArgs.cc:12-20 | the block is the arguments with a NUL behind each |
| ArgBlock.CmdLineArgs.constructor | apps/ubench/src/CmdLineArgs.cc:29-49 | for any block: the count is the number of NULs, entry j points behind the j-th, a null pointer follows; the scan stays in the block |
| ArgBlock.EncodeCount | apps/ubench/src/CmdLineArgs.cc:39-40 | the block of n NUL-free arguments has n NULs |
| ArgBlock.EncodeExample | apps/ubench/src/CmdLineArgs.cc:12-20 | the bytes of the block of three arguments, one of them empty |
| ArgBlock.EncodeAt | apps/ubench/src/CmdLineArgs.cc:44-46 | behind j NULs of the block lies argument j as a C string |
| ArgBlock.RoundTrip | apps/ubench/src/CmdLineArgs.cc:12-49 | count and strings come back in order; the entry at the count is null iff the list is not empty |

## Left out

- One id is modelled in the fault protocols: ids have their own map entries and their own roots and do not meet.
- `Environment`, `FS` and `InputStream` repeat the locked protocol of `CmdLineArgs`, and `Printer` the optimistic one of the command server; each protocol is modelled once.
- The bare-metal `Environment` splits its block like `CmdLineArgs`, but its array is one slot too small for the terminator; it is not modelled.
- The single outstanding open request of `FS` (a pointer that is set, checked and cleared): it would add easy members only.
- HostedInputStream.InputStream.constructor: the other types of descriptors, which get a stream descriptor of their own, are not modelled.
- HostedInputStream.InputStream.AsyncReadSome: its branch for such descriptors (lines 138-168) is not modelled.
- HostedInputStream.InputStream.AsyncReadStop: the cancel of such a descriptor is not modelled.
- Streams that are not regular files, altogether: there the number of bytes available is asked of the operating system and promises nothing about the data.
- CmdServer.CmdServer.Do: no other `Do` comes back while it waits; what the later windows of one show after another has emptied the buffer under it is not modelled, only what each is called with (HandedTimes).
- Failing root data, a file that changes while it is read, a failing read, and what happens after an abort: the code promises nothing there.
- Memory lifetime: pointers into a copied string, reads of `count` after `MPTest` has returned, `free` of the vector on failure, destructors.
- Printing, timing, ports and addresses, option parsing, the benchmarks of null objects and allocators, the image toolkit, scripts and makefiles: input and output, or nothing to prove.
- The event manager, the messenger, futures, the id map and the barrier of EbbRT are not part of this model; the assumptions above stand for them.
