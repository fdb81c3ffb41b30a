# Dart standalone runtime: event loop, directories, paths, ELF segments

A Dafny model of four parts of the standalone Dart runtime (`runtime/bin`) and of the
shutdown handshake around one of them, with proofs of what they promise.

* **Event handler.** `Ring` is the circular doubly linked list on the heap, refined to a
  sequence. `Descriptors` gives the two kinds of descriptor as values: one port with 16
  tokens, or many ports with 4 tokens each and a ring of the ports that are ready.
  `DescriptorInfo` has the corresponding objects, with the map and the ring as separate heap
  structures, proved against those values. `EventLoop` is one step of the Linux loop over all
  its tables, with a log of what is posted and what is given back. `EventLoopSafety` proves
  that handling a command keeps the tables consistent, `EventLoopLedger` that tokens agree
  with the log, `EventLoopMessages` that whoever was notified is still known, and
  `EventLoopRuns` covers epoll batches and whole runs. `DescriptorTable`
  holds descriptor objects that share nothing with each other, and
  `EventHandlerImplementation` is the loop over that table, proved to reach in every run
  exactly the state the steps reach.
* **Shutdown.** `Shutdown` is the protocol between senders, finalizers, the handler thread
  and the thread that stops it, as a state machine over all interleavings.
* **Directories.** `Paths` is the path buffer. `DirectoryWalk` specifies a listing as a
  recursive walk, `DirectoryOrder` shows that this walk is the preorder traversal, and
  `DirectoryListing` is the resumable listing with its explicit stack, shared path buffer and
  hand-managed link chains. `DirectoryTree` and `DirectoryDeletion` are recursive deletion.
* **Paths and URIs.** `CleanPath` states the five rules of "Lexical File Names in Plan 9 or
  Getting Dot-Dot Right" over a stack of components, `CleanUnixPath` is the one-pass algorithm
  over a character buffer, and `UriDecoder` is percent decoding (section 2.1 of RFC 3986).
* **ELF.** `ElfLoader` has the page arithmetic and what loading segments does to a
  reservation, `LoadedElf` the loader itself. The congruence it checks is the rule for
  `p_vaddr` and `p_offset` in chapter 5 (Program Header) of the System V gABI.

`dafny verify dfyconfig.toml` checks everything.

## Assumptions

System calls are parameters or nondeterministic choices. An epoll batch names each descriptor
at most once and only descriptors registered when it was taken. Directories and link targets
are snapshots while they are listed or deleted. Pipe writes are atomic. The hash map, the
timeout queue, the registry of listening sockets and virtual memory are a finite map, a finite
map with a least value, a test for other open sockets on the same fd, and a fresh region.

`EventLoop.Disciplined` says what senders owe the handler: a socket sends its own port, asks
for events its kind allows, and gives back some tokens, but no more than the log shows posted
to it. Every socket has a port of its own, which no other socket ever gets.

Many one-line lemmas state what one definition gives, for methods that hide that definition
to keep their own proofs small.

## What the code does at its edges

These follow the code where a reader might expect something else.

* A name is accepted by the path buffer when the lengths sum to exactly `PATH_MAX`, although
  one character less fits (`Paths.AddTruncatesAtLimit`), and the shortened path denotes
  another entry (`DirectoryDeletion.TruncatedPathDenotesAnother`). Deletion then removes that
  entry if it is no directory, but never reports success for the directory around it
  (`DirectoryDeletion.AllEntriesGone`). Listing reports the shortened path.
* A recursive listing that enters a directory at exactly `PATH_MAX` fails to append the
  separator, and at the next step reads a path length that was never stored. From there on
  the listing is undefined. Every name that reaches the limit can do that
  (`DirectoryOrder.LimitIsUndefined`). It happens exactly when such a directory is to be
  entered and opens (`DirectoryOrder.UndefinedIff`), two events behind its own
  (`DirectoryOrder.DefinedIff`); a whole listing is proved for all directories in which that
  comes too late to matter (`DirectoryListing.ListDirectory`).
* Bytes of a segment past its file size are copied from the source rather than cleared
  (`LoadedElf.UninitialisedDataMayNotBeZero`). They are zero exactly when the source is zero
  there (`LoadedElf.UninitialisedDataIsZeroIff`).
* The timer is not armed when a pending deadline is 0 (`EventLoopRuns.TimerArmedIff`,
  `ZeroTimeoutDisarms`).
* The assertion that a listening socket is notified only of reads fails exactly when epoll
  reports a hang-up (`EventLoopRuns.ListeningNotificationIsRead`), which a reachable state
  allows (`EventLoopRuns.HangUpIsNotARead`).
* Stopping waits without checking a condition. After a spurious wakeup the handler can be
  deleted before its thread is done exactly when that thread is not just notifying
  (`Shutdown.SpuriousWakeupIff`, `Shutdown.SpuriousWakeupDeletesTooEarly`). Without one it
  never does.
* A cleaned path may lead somewhere when the original leads nowhere
  (`CleanPath.CleanMayRepairAPath`). In one tree the two agree exactly when the original enters
  only directories that exist or the cleaned path one that does not
  (`CleanPath.CleanAgreesIff`), and in all trees exactly when cleaning drops no directory that
  is entered (`CleanPath.CleanAgreesEverywhereIff`).
* Segments are written one after the other, so one that has a page in common with an earlier
  one that is not writable faults (`LoadedElf.SharedPageFaults`). `LoadedElf.NoFaultIff` says
  exactly for which headers no write does.
* Cleaning writes the leading slash, and the NUL behind the path "/", before comparing any
  length (`CleanUnixPath.FitsStart`), and returns 1 for the empty path even if the buffer
  cannot hold it.

## Model

| member | source | states |
|---|---|---|
| `Ring.RotatedLinked` | runtime/bin/eventhandler.h:195-200 | a cycle with mutually inverse next and prev links is one from whichever node it is read |
| `Ring.Splice` | runtime/bin/eventhandler.h:138-148 | taking the first node out of a cycle of distinct nodes leaves the cycle of the others |
| `Ring.Append` | runtime/bin/eventhandler.h:129-134 | linking a node before the head makes it the last of the cycle |
| `Ring.WithoutRemovesFirst` | runtime/bin/eventhandler.h:155-183 | deleting the first occurrence keeps all before and after it in order |
| `Ring.CircularLinkedList.constructor` | runtime/bin/eventhandler.h:115-115 | a new list is a valid ring with no contents |
| `Ring.CircularLinkedList.Add` | runtime/bin/eventhandler.h:119-136 | appends at the end of the sequence; says whether it was empty |
| `Ring.CircularLinkedList.RemoveHead` | runtime/bin/eventhandler.h:138-153 | drops the first of the sequence |
| `Ring.CircularLinkedList.Unlink` | runtime/bin/eventhandler.h:167-178 | drops exactly the node at a position |
| `Ring.CircularLinkedList.Find` | runtime/bin/eventhandler.h:165-181 | one turn of the ring finds the first occurrence, or shows there is none |
| `Ring.CircularLinkedList.Remove` | runtime/bin/eventhandler.h:155-183 | deletes the first occurrence, if any |
| `Ring.CircularLinkedList.RemoveAll` | runtime/bin/eventhandler.h:185-189 | empties the ring, clearing every value once, in order |
| `Ring.CircularLinkedList.Head` | runtime/bin/eventhandler.h:191-191 | the first of the sequence |
| `Ring.CircularLinkedList.HasHead` | runtime/bin/eventhandler.h:193-193 | true exactly when the sequence is not empty |
| `Ring.CircularLinkedList.Rotate` | runtime/bin/eventhandler.h:195-200 | moves the first of the sequence to its end |
| `Descriptors.UpdateCoherent` | runtime/bin/eventhandler.h:415-426 | changing one port keeps the ring exactly the ready ports, each once |
| `Descriptors.RemovePortCoherent` | runtime/bin/eventhandler.h:455-477 | so does removing a port, known or not |
| `Descriptors.NextNotifyCoherent` | runtime/bin/eventhandler.h:491-513 | so does notifying the head of the ring |
| `Descriptors.NotifyAllCoherent` | runtime/bin/eventhandler.h:515-536 | so does a broadcast |
| `Descriptors.MaskIsUnion` | runtime/bin/eventhandler.h:248-250 | the mask read off the ring is the union of the masks of ports with tokens |
| `Descriptors.RingAgreesInEveryRun` | runtime/bin/eventhandler.h:401-560 | after any run of operations the ring holds exactly the ready ports, each once, and the mask is their union |
| `Descriptors.PositionNeverGrows` | runtime/bin/eventhandler.h:401-553 | no operation moves a ready port back in the ring, and each notification of another moves it forward |
| `Descriptors.RoundRobin` | runtime/bin/eventhandler.h:491-513 | a port at position k that stays ready is among the next k + 1 notified, whatever else happens |
| `DescriptorInfo.DescriptorInfoSingle.constructor` | runtime/bin/eventhandler.h:272-277 | starts with no port and a full quota |
| `DescriptorInfo.DescriptorInfoSingle.SetPortAndMask` | runtime/bin/eventhandler.h:283-287 | becomes the value with that port and mask |
| `DescriptorInfo.DescriptorInfoSingle.RemovePort` | runtime/bin/eventhandler.h:289-295 | becomes the value without port and mask, tokens kept |
| `DescriptorInfo.DescriptorInfoSingle.NextNotifyDartPort` | runtime/bin/eventhandler.h:302-309 | spends a token and names the port |
| `DescriptorInfo.DescriptorInfoSingle.NotifyAllDartPorts` | runtime/bin/eventhandler.h:311-323 | spends a token and posts to the port if there is one |
| `DescriptorInfo.DescriptorInfoSingle.ReturnTokens` | runtime/bin/eventhandler.h:325-331 | gives the tokens back |
| `DescriptorInfo.DescriptorInfoSingle.GetMask` | runtime/bin/eventhandler.h:333-338 | the mask, or nothing without tokens |
| `DescriptorInfo.ChargeAllIsNotifyAll` | runtime/bin/eventhandler.h:515-536 | charging the ports one by one, in any order of the map, is the broadcast |
| `DescriptorInfo.WithoutAllIsEmpty` | runtime/bin/eventhandler.h:479-489 | taking every port of the map out of the ring leaves nothing in it |
| `DescriptorInfo.ReadyCount` | runtime/bin/eventhandler.h:443-449 | the ports of the map that are ready are as many as the ring is long |
| `DescriptorInfo.DescriptorInfoMultiple.constructor` | runtime/bin/eventhandler.h:392-395 | starts with no ports and an empty ring |
| `DescriptorInfo.DescriptorInfoMultiple.SetPortAndMask` | runtime/bin/eventhandler.h:401-426 | map and ring together become the value with that port reading or not |
| `DescriptorInfo.DescriptorInfoMultiple.SetReading` | runtime/bin/eventhandler.h:415-426 | the same for a port already known |
| `DescriptorInfo.DescriptorInfoMultiple.SelfCheck` | runtime/bin/eventhandler.h:428-452 | the debug check always counts to zero and leaves the ring as it was |
| `DescriptorInfo.DescriptorInfoMultiple.CountRing` | runtime/bin/eventhandler.h:432-441 | one turn counts every ready port and ends where it began |
| `DescriptorInfo.DescriptorInfoMultiple.RemovePort` | runtime/bin/eventhandler.h:455-477 | map and ring become the value without the port |
| `DescriptorInfo.DescriptorInfoMultiple.RemoveAllPorts` | runtime/bin/eventhandler.h:479-489 | frees every entry of the map once, and the final clearing pass finds nothing |
| `DescriptorInfo.DescriptorInfoMultiple.NextNotifyDartPort` | runtime/bin/eventhandler.h:491-513 | becomes the value after notifying the head, and names it |
| `DescriptorInfo.DescriptorInfoMultiple.NotifyAllDartPorts` | runtime/bin/eventhandler.h:515-536 | posts to every port once and becomes the value after the broadcast |
| `DescriptorInfo.DescriptorInfoMultiple.ReturnTokens` | runtime/bin/eventhandler.h:538-553 | becomes the value with the tokens returned |
| `DescriptorInfo.DescriptorInfoMultiple.GetMask` | runtime/bin/eventhandler.h:555-560 | reading exactly when the ring is not empty |
| `DescriptorInfo.Perform` | runtime/bin/eventhandler.h:401-553 | one operation takes the object from one value to the next, names the ports posted to, and grows what it owns only by new objects |
| `DescriptorInfo.PerformAll` | runtime/bin/eventhandler.h:401-553 | so does any run of operations |
| `DescriptorInfo.PerformFromNew` | runtime/bin/eventhandler.h:392-553 | a new object after any run stands for the value that run reaches, map and ring in agreement |
| `EventLoop.LeastExists` | runtime/bin/eventhandler_linux.cc:290-294 | pending deadlines have a least one |
| `EventLoopSafety.ReplaceAgrees` | runtime/bin/eventhandler_linux.cc:138-150 | updating epoll after a change makes the registration agree with the new mask |
| `EventLoopSafety.ReplaceKeepsTables` | runtime/bin/eventhandler_linux.cc:138-150 | and keeps all tables consistent, changing nothing but at that descriptor |
| `EventLoopSafety.PreparedKeeps` | runtime/bin/eventhandler_linux.cc:152-172 | finding or creating a descriptor keeps the tables consistent and gives the one for the fd |
| `EventLoopSafety.SoleListener` | runtime/bin/eventhandler_linux.cc:242-265 | when the last socket on an fd closes, no other port is left on its descriptor |
| `EventLoopSafety.NothingAskedAtFree` | runtime/bin/eventhandler_linux.cc:251-263 | a descriptor about to be deleted asks for nothing |
| `EventLoopSafety.LastCloseKeeps` | runtime/bin/eventhandler_linux.cc:226-265 | closing the last socket deregisters before deleting and keeps the tables consistent |
| `EventLoopSafety.EarlierCloseKeeps` | runtime/bin/eventhandler_linux.cc:242-258 | closing one of several listeners keeps the descriptor and the tables consistent |
| `EventLoopSafety.ReturnKeeps` | runtime/bin/eventhandler_linux.cc:267-271 | returning tokens keeps the tables consistent |
| `EventLoopSafety.SetMaskKeeps` | runtime/bin/eventhandler_linux.cc:272-279 | setting an event mask keeps the tables consistent |
| `EventLoopSafety.CommandKeeps` | runtime/bin/eventhandler_linux.cc:218-282 | so does any command |
| `EventLoopLedger.BroadcastConserved` | runtime/bin/eventhandler.h:515-536 | a broadcast spends one token of every port, as one more post to each records |
| `EventLoopLedger.ReplaceConserves` | runtime/bin/eventhandler_linux.cc:60-70 | bringing epoll in step, also when an add is refused and all ports are told, keeps tokens and log in agreement |
| `EventLoopLedger.ReadyConserves` | runtime/bin/eventhandler_linux.cc:371-381 | so does a readiness event, for every port of every descriptor |
| `EventLoopLedger.ReturnFits` | runtime/bin/eventhandler.h:327-330 | whoever gives back no more than was posted never exceeds the quota |
| `EventLoopLedger.ReturnConserves` | runtime/bin/eventhandler_linux.cc:267-271 | giving tokens back keeps tokens and log in agreement |
| `EventLoopLedger.SetMaskConserves` | runtime/bin/eventhandler_linux.cc:272-279 | so does setting a mask, which counts a port that is new from a full quota |
| `EventLoopLedger.LastCloseConserves` | runtime/bin/eventhandler_linux.cc:226-265 | so does closing the last socket |
| `EventLoopLedger.EarlierCloseConserves` | runtime/bin/eventhandler_linux.cc:242-258 | so does closing one of several listeners |
| `EventLoopLedger.CommandConserves` | runtime/bin/eventhandler_linux.cc:218-282 | so does any command |
| `EventLoopMessages.ReadyServes` | runtime/bin/eventhandler_linux.cc:371-381 | a readiness event is posted only to ports of its descriptor, so every port ever notified is still there or its socket is closed |
| `EventLoopMessages.CloseServes` | runtime/bin/eventhandler_linux.cc:226-265 | closing takes exactly that port off, and retires it |
| `EventLoopMessages.CommandServes` | runtime/bin/eventhandler_linux.cc:218-282 | after any command every port ever notified is still on its descriptor or its socket is closed |
| `EventLoop.NotifiedIsKnown` | runtime/bin/eventhandler.h:325-331 | whoever was notified and has not closed its socket is known to the descriptor of its fd |
| `EventLoop.MessageIsKnown` | runtime/bin/eventhandler.h:538-543 | so a disciplined message that gives tokens back finds its port |
| `EventLoopMessages.MessageMeets` | runtime/bin/eventhandler_linux.cc:210-279 | a disciplined message meets all that its command asserts |
| `EventLoopMessages.MessageKeepsInv` | runtime/bin/eventhandler_linux.cc:198-285 | handling any disciplined message keeps the tables consistent, tokens in agreement with the log, and notified ports known |
| `EventLoopRuns.NextPortIsReal` | runtime/bin/eventhandler_linux.cc:376-380 | a registered descriptor names a real port that has a token |
| `EventLoopRuns.ReadyKeepsInv` | runtime/bin/eventhandler_linux.cc:369-381 | handling a readiness event keeps the invariant |
| `EventLoopRuns.BatchNamesLiveDescriptors` | runtime/bin/eventhandler_linux.cc:353-389 | each event of a batch finds its descriptor live and a real port, whatever the events before it did |
| `EventLoopRuns.EventsNeverNameFreedDescriptors` | runtime/bin/eventhandler_linux.cc:353-389 | so it is for the next batch after any run |
| `EventLoopRuns.RegistrationsMatchMasks` | runtime/bin/eventhandler_linux.cc:53-71 | in every reachable state registrations are those of live descriptors that ask for something, with exactly their bits; if every add succeeded, asking and being registered coincide |
| `EventLoopRuns.TokensAreConserved` | runtime/bin/eventhandler_linux.cc:267-271 | after every run, for every port of every live descriptor, tokens plus notifications posted less tokens given back, both counted in the log, are the quota |
| `EventLoopRuns.AddressesAreFresh` | runtime/bin/eventhandler_linux.cc:160-169 | a new descriptor shares its address with no live one |
| `EventLoopRuns.MessageAssertionsHold` | runtime/bin/eventhandler_linux.cc:210-279 | no assertion on the way of a disciplined message fails, that its port is known and that its tokens stay within the quota included |
| `EventLoopRuns.ListeningNeverReRegisters` | runtime/bin/eventhandler_linux.cc:145-149 | the branch for a changed mask is never taken for a listening socket |
| `EventLoopRuns.ListeningNotificationIsRead` | runtime/bin/eventhandler.h:494-495 | when that assertion holds: exactly when no hang-up is reported |
| `EventLoopRuns.HangUpIsNotARead` | runtime/bin/eventhandler.h:494-495 | a reachable listening socket and a report, with a hang-up, at which it fails |
| `EventLoopRuns.ReportsWereAskedFor` | runtime/bin/eventhandler_linux.cc:331-351 | after every run a report brings only events the descriptor asks for, or errors and closing; input and output reported are passed on unless an error is; and when nothing is |
| `EventLoopRuns.TimerArmedIff` | runtime/bin/eventhandler_linux.cc:287-297 | when the timer is armed, and that it is armed for the earliest deadline, which is one of those pending |
| `EventLoopRuns.ZeroTimeoutDisarms` | runtime/bin/eventhandler_linux.cc:287-297 | a pending deadline of 0 leaves it disarmed |
| `EventLoopRuns.OpenKeepsInv` | runtime/bin/eventhandler.cc:89-99 | a socket becoming known keeps the invariant |
| `DescriptorTable.ActAmongOnes` | runtime/bin/eventhandler.h:283-338 | acting on one object leaves the values of all others as they were |
| `DescriptorTable.ActAmongMany` | runtime/bin/eventhandler.h:401-560 | so it is for a shared one, whatever it allocates |
| `DescriptorTable.EmptyAmongMany` | runtime/bin/eventhandler.h:397-397 | so it is when a shared one is deleted, and no port is left on it |
| `DescriptorTable.Table.Perform` | runtime/bin/eventhandler.h:283-553 | what is done to one object is done to its value, no other value changes, and the ports posted to are those of the value |
| `DescriptorTable.Table.GetMask` | runtime/bin/eventhandler.h:333-338 | the mask of an object is that of its value |
| `DescriptorTable.Table.Create` | runtime/bin/eventhandler_linux.cc:160-169 | a new object of the right kind shares nothing with the others |
| `DescriptorTable.Table.Free` | runtime/bin/eventhandler_linux.cc:251-263 | deletes one object, with all its ports, and no other |
| `EventHandlerImplementation.Handler.constructor` | runtime/bin/eventhandler_linux.cc:73-74 | starts in the initial state of the loop, with no objects |
| `EventHandlerImplementation.Handler.AddToEpollInstance` | runtime/bin/eventhandler_linux.cc:53-71 | registers with the bits of the object's mask or, if refused, has the object tell all its ports, as the step does to the value |
| `EventHandlerImplementation.Handler.UpdateEpollInstance` | runtime/bin/eventhandler_linux.cc:138-150 | compares masks read off the object, and moves registrations as the step does |
| `EventHandlerImplementation.Handler.GetDescriptorInfo` | runtime/bin/eventhandler_linux.cc:152-172 | finds or allocates an object, as the step does a value |
| `EventHandlerImplementation.Handler.CloseCommand` | runtime/bin/eventhandler_linux.cc:226-266 | takes the port off the object, deregisters and deletes it, as the step does |
| `EventHandlerImplementation.Handler.Command` | runtime/bin/eventhandler_linux.cc:218-282 | carries out a command on the object, as the step does on the value |
| `EventHandlerImplementation.Handler.HandleOne` | runtime/bin/eventhandler_linux.cc:203-284 | handles one message on the objects as the step does on values, and keeps the invariant |
| `EventHandlerImplementation.Handler.HandleInterruptFd` | runtime/bin/eventhandler_linux.cc:198-285 | handles the messages read, in order |
| `EventHandlerImplementation.Handler.HandleReadyEvent` | runtime/bin/eventhandler_linux.cc:368-382 | notifies through the object the ports the step names |
| `EventHandlerImplementation.Handler.HandleEvents` | runtime/bin/eventhandler_linux.cc:353-389 | handles a batch, messages after all other events, and keeps the invariant |
| `EventHandlerImplementation.Handler.Poll` | runtime/bin/eventhandler_linux.cc:391-413 | over any run the objects end up standing for the state the run reaches |
| `EventHandlerImplementation.PollFromNew` | runtime/bin/eventhandler_linux.cc:73-413 | so does a new handler, whose state is therefore one of which all that is proved of reachable states holds |
| `Shutdown.StepKeepsInv` | runtime/bin/eventhandler.cc:35-62 | every step of every thread keeps reference counts, the order of messages and the handshake right |
| `Shutdown.MessagesHoldReferences` | runtime/bin/eventhandler.cc:89-101 | in every interleaving each message on its way holds a reference of its own |
| `Shutdown.HandlingReleasesOnce` | runtime/bin/eventhandler_linux.cc:211-215 | handling a message gives up exactly its one reference; for a closed socket nothing else happens |
| `Shutdown.ReleasesAreCovered` | runtime/bin/socket.cc:1421-1437 | nothing is released that is not held |
| `Shutdown.FreedIsUnreachable` | runtime/bin/eventhandler.cc:94-98 | nobody and no message knows a socket whose count is zero |
| `Shutdown.NotificationFindsWaiter` | runtime/bin/eventhandler.cc:35-52 | the notification always finds Stop waiting and wakes it |
| `Shutdown.DeletedOnlyAfterExit` | runtime/bin/eventhandler.cc:54-58 | the handler is deleted only after the loop has ended with nothing left to handle |
| `Shutdown.LooperNeverStuck` | runtime/bin/eventhandler_linux.cc:399-412 | while Stop waits the handler thread can always go on |
| `Shutdown.LooperProgress` | runtime/bin/eventhandler_linux.cc:399-412 | each of its steps either notifies and wakes Stop or comes nearer to that |
| `Shutdown.WaitingEnds` | runtime/bin/eventhandler_linux.cc:391-413 | a waiting Stop can always be woken by the handler thread alone |
| `Shutdown.OthersDoNotDelay` | runtime/bin/eventhandler_linux.cc:391-413 | while Stop waits no other thread brings the handler thread further from its notification, and nothing undoes a wakeup |
| `Shutdown.WaitingEndsInTime` | runtime/bin/eventhandler_linux.cc:391-413 | in every interleaving Stop has been woken once the handler thread has taken that many steps, whichever they are |
| `Shutdown.StaysShielded` | runtime/bin/eventhandler.cc:35-44 | in every run from a notifying handler thread, a woken Stop gets no further before that thread is done |
| `Shutdown.SpuriousWakeupIff` | runtime/bin/eventhandler.cc:46-58 | from every waiting state, a spurious wakeup makes a run possible that deletes the handler before its thread is done, exactly when that thread is not notifying |
| `Shutdown.SpuriousWakeupDeletesTooEarly` | runtime/bin/eventhandler.cc:46-58 | a run in which it does |
| `Paths.AddShows` | runtime/bin/directory_linux.cc:56-68 | what the buffer shows after an append, and that it is the whole path exactly when that is shorter than PATH_MAX |
| `Paths.AddTruncatesAtLimit` | runtime/bin/directory_linux.cc:58-63 | at exactly PATH_MAX an append succeeds and loses a character |
| `Paths.ResetRestores` | runtime/bin/directory_linux.cc:70-73 | cutting back restores the earlier path whatever was appended |
| `Paths.SeparatorShows` | runtime/bin/directory_linux.cc:108-111 | a path has room for the separator exactly when it is shown whole |
| `Paths.PathBuffer.constructor` | runtime/bin/directory_linux.cc:30-32 | an empty buffer |
| `Paths.PathBuffer.Print` | runtime/bin/directory_linux.cc:58-58 | writes as much of the name as fits, and a terminator, inside the array |
| `Paths.PathBuffer.Add` | runtime/bin/directory_linux.cc:56-68 | the array, length and result are those of the append |
| `Paths.PathBuffer.AsString` | runtime/bin/directory_linux.cc:43-45 | reads the text up to the terminator |
| `Paths.PathBuffer.Reset` | runtime/bin/directory_linux.cc:70-73 | the array and length are those of the cut |
| `DirectoryWalk.LinksRunOut` | runtime/bin/directory_linux.cc:161-186 | entering a directory through a link uses up one of finitely many links; otherwise it goes down the tree |
| `DirectoryOrder.PositionReports` | runtime/bin/directory.cc:516-544 | every entry that can be reached is in the walk, with its path |
| `DirectoryOrder.PositionsInOrder` | runtime/bin/directory.cc:516-544 | the walk keeps the order of routes: directories before their contents |
| `DirectoryOrder.RoutesAreOrdered` | runtime/bin/directory.cc:516-544 | of two different routes exactly one precedes the other |
| `DirectoryOrder.NothingTwice` | runtime/bin/directory.cc:516-544 | so different entries have different positions, in the order of their routes |
| `DirectoryOrder.FoundAtRoute` | runtime/bin/directory.cc:516-544 | whatever the walk finds is an entry that can be reached |
| `DirectoryOrder.CutIsUndefined` | runtime/bin/directory_linux.cc:108-116 | a directory that is to be entered and opens at exactly PATH_MAX makes the walk undefined two events behind its own |
| `DirectoryOrder.UndefinedAtRoute` | runtime/bin/directory_linux.cc:108-116 | and nothing else does |
| `DirectoryOrder.UndefinedIff` | runtime/bin/directory_linux.cc:108-116 | so a listing becomes undefined exactly when there is such a directory |
| `DirectoryOrder.DefinedIff` | runtime/bin/directory_linux.cc:108-116 | its first n events are defined exactly when all such directories come late enough |
| `DirectoryOrder.ListingDefinedIff` | runtime/bin/directory_linux.cc:108-116 | the same for a whole listing, read off the directory |
| `DirectoryOrder.LimitIsUndefined` | runtime/bin/directory_linux.cc:108-116 | every name that reaches the limit has a directory at which it happens |
| `DirectoryOrder.NoLinkTwice` | runtime/bin/directory_linux.cc:161-172 | no way from the root to an entry follows the same link twice |
| `DirectoryListing.OwnedLink` | runtime/bin/directory_linux.cc:232-241 | a frame owns a node exactly when its chain is longer than its parent's |
| `DirectoryListing.DropChain` | runtime/bin/directory_linux.cc:233-236 | deleting the last node of a chain leaves the chains that do not reach it intact |
| `DirectoryListing.ExtendChain` | runtime/bin/directory_linux.cc:184-186 | a new node extends one chain, with a link that was not on it |
| `DirectoryListing.ResponseReadsBack` | runtime/bin/directory.h:159-165 | reading the pairs of a response by their type codes gives back exactly the events |
| `DirectoryListing.Lister.constructor` | runtime/bin/directory.h:93-106 | has the whole walk to report, also when the name has exactly PATH_MAX characters, or refuses a name that does not fit |
| `DirectoryListing.Lister.Delete` | runtime/bin/directory_linux.cc:235-235 | deletes a node that is live and has never been deleted |
| `DirectoryListing.Lister.ResetLink` | runtime/bin/directory_linux.cc:232-241 | the frame gives up its own node, if any, and keeps its parent's chain |
| `DirectoryListing.Lister.OnChain` | runtime/bin/directory_linux.cc:162-172 | true exactly when the link is on the current chain |
| `DirectoryListing.Lister.Follow` | runtime/bin/directory_linux.cc:183-186 | puts the link on the chain as a node the frame owns |
| `DirectoryListing.Lister.Resolve` | runtime/bin/directory_linux.cc:161-193 | loops and broken links count as links, others as what they lead to |
| `DirectoryListing.Lister.Identify` | runtime/bin/directory_linux.cc:128-207 | classifies an entry as the walk does, by what its path, as shown, denotes |
| `DirectoryListing.Lister.Rewind` | runtime/bin/directory_linux.cc:115-117 | path and chain are the directory's own again |
| `DirectoryListing.Lister.ReadNext` | runtime/bin/directory_linux.cc:115-222 | takes the next thing off what an open directory has to report |
| `DirectoryListing.Lister.Start` | runtime/bin/directory_linux.cc:88-114 | opening a directory changes nothing about what is to be reported, unless there is no room for the separator, which is reported |
| `DirectoryListing.Lister.Next` | runtime/bin/directory_linux.cc:83-222 | takes the next thing off what the top directory has to report, with its path in the buffer |
| `DirectoryListing.Lister.Push` | runtime/bin/directory.h:116-116 | what the directory just entered has to report comes before the rest |
| `DirectoryListing.Lister.Pop` | runtime/bin/directory.h:118-123 | leaves one directory, keeping all other chains |
| `DirectoryListing.Lister.PopAll` | runtime/bin/directory.h:127-131 | leaves everything; every node ever allocated has been deleted once |
| `DirectoryListing.Lister.Advance` | runtime/bin/directory.cc:516-544 | one step brings up the next event of the walk, or leaves a directory |
| `DirectoryListing.Lister.Emit` | runtime/bin/directory.cc:379-425 | writes one type and value pair inside the array and says whether room is left |
| `DirectoryListing.Lister.ListNext` | runtime/bin/directory.cc:516-546 | the same with the event written to the array |
| `DirectoryListing.Lister.List` | runtime/bin/directory.cc:548-556 | reports a refused name; otherwise ends with the array full or nothing left, and the events written are the next of the walk |
| `DirectoryListing.Lister.ListNextRequest` | runtime/bin/directory.cc:320-339 | returns exactly as many of the next events as fit |
| `DirectoryListing.Lister.ListInBatches` | runtime/bin/directory.cc:320-339 | however requests cut the listing up, together they return the beginning of one unbroken listing |
| `DirectoryListing.ListStartRequest` | runtime/bin/directory.cc:288-318 | starts a listing with the whole walk to report, or refuses a name that does not fit |
| `DirectoryListing.ListDirectory` | runtime/bin/directory.cc:288-339 | whoever reads the responses to any requests has the beginning of the walk, whenever directories at the limit come late enough |
| `DirectoryTree.RemoveLeaf` | runtime/bin/directory_linux.cc:264-266 | removing what has nothing in it removes all that is at and under it |
| `DirectoryTree.ResolveBuilt` | runtime/bin/directory_linux.cc:268-275 | the path built for an entry denotes that entry |
| `DirectoryTree.PathShown` | runtime/bin/directory_linux.cc:56-63 | what the buffer shows of a name behind its directory |
| `DirectoryTree.ResolveEntry` | runtime/bin/directory_linux.cc:245-263 | what the path built for an entry denotes, cut short or not, and that it is the entry if not |
| `DirectoryDeletion.CutEntryStays` | runtime/bin/directory_linux.cc:245-255 | an entry whose path is cut short is never removed |
| `DirectoryDeletion.AllEntriesGone` | runtime/bin/directory_linux.cc:289-313 | when all entries read have been handled the directory is empty exactly when no path was cut short, and removing it then removes exactly its subtree |
| `DirectoryDeletion.TruncatedPathDenotesAnother` | runtime/bin/directory_linux.cc:58-63 | a path of exactly PATH_MAX characters acts on another entry |
| `DirectoryDeletion.Deleter.Lstat` | runtime/bin/directory_linux.cc:260-263 | the kind of what the buffer's text denotes, unless there is none or a fault |
| `DirectoryDeletion.Deleter.Unlink` | runtime/bin/directory_linux.cc:310-312 | removes what the buffer's text denotes, a directory only when empty, or changes nothing |
| `DirectoryDeletion.Deleter.Open` | runtime/bin/directory_linux.cc:274-299 | reads every entry of the directory the buffer's text denotes, as it is when opened |
| `DirectoryDeletion.Deleter.Skips` | runtime/bin/directory_linux.cc:296-299 | an entry is left out only if it is gone |
| `DirectoryDeletion.Deleter.DeleteFile` | runtime/bin/directory_linux.cc:245-248 | success removes exactly what the entry's path, as shown, denotes; otherwise nothing changes outside the directory |
| `DirectoryDeletion.Deleter.DeleteDir` | runtime/bin/directory_linux.cc:250-255 | skips "." and ".."; otherwise the same, with all that is under it |
| `DirectoryDeletion.Deleter.Identify` | runtime/bin/directory_linux.cc:330-342 | finds the entry's true kind, unless its path is cut short, and restores the buffer |
| `DirectoryDeletion.Deleter.DeleteEntry` | runtime/bin/directory_linux.cc:314-357 | the same for one entry, whether or not its type was given |
| `DirectoryDeletion.Deleter.DeleteNext` | runtime/bin/directory_linux.cc:289-360 | handles the next entry and restores the buffer, or leaves the directory with a reason |
| `DirectoryDeletion.Deleter.DeleteContents` | runtime/bin/directory_linux.cc:268-369 | success removes exactly the directory's subtree, all of whose paths were shown whole |
| `DirectoryDeletion.Deleter.DeleteRecursively` | runtime/bin/directory_linux.cc:257-369 | success removes exactly the subtree, links unfollowed; in every outcome nothing outside changes; failure has a fault, a missing entry or a path too long behind it; and what happens when the path is cut short |
| `DirectoryDeletion.Deleter.Delete` | runtime/bin/directory_linux.cc:483-500 | the same for a named entry, in every tree and for every name |
| `CleanPath.CleanReadsBack` | runtime/bin/file.cc:655-726 | the cleaned text has the components the rules leave |
| `CleanPath.CleanIdempotent` | runtime/bin/file.h:299-303 | cleaning twice is cleaning once |
| `CleanPath.CleanKeepsMeaning` | runtime/bin/file.h:299-303 | in every tree without links, from every directory, where a path leads its cleaned form leads too |
| `CleanPath.CleanMayRepairAPath` | runtime/bin/file.cc:685-691 | the converse fails |
| `CleanPath.LeadsSomewhereIff` | runtime/bin/file.h:299-303 | a path leads somewhere exactly when all directories it enters by name exist |
| `CleanPath.CleanAgreesIff` | runtime/bin/file.h:299-303 | exactly when a path and its cleaned form mean the same in a tree |
| `CleanPath.CleanAgreesEverywhereIff` | runtime/bin/file.h:299-303 | exactly when they do in every tree, read off the path alone |
| `CleanPath.CleanIsCanonical` | runtime/bin/file.h:299-303 | paths of the same kind that mean the same everywhere clean to the same text |
| `CleanPath.SameCleanSameMeaning` | runtime/bin/file.h:299-303 | paths that clean to the same text mean the same |
| `CleanUnixPath.Backtrack` | runtime/bin/file.cc:688-691 | stops at the separator before the last component, or where ".." can go no further |
| `CleanUnixPath.DotDot` | runtime/bin/file.cc:685-704 | one ".." does to the buffer what the rules do to the components |
| `CleanUnixPath.CopyComponent` | runtime/bin/file.cc:711-714 | copies one component, or finds the input too long |
| `CleanUnixPath.NameStep` | runtime/bin/file.cc:706-715 | one name is added to the components |
| `CleanUnixPath.OneStep` | runtime/bin/file.cc:672-716 | each turn of the loop keeps the buffer the text of the components read so far, never ahead of the input |
| `CleanUnixPath.CleanUnixPath` | runtime/bin/file.cc:655-726 | the buffer holds the normal form, terminated; -1 exactly when a path is as long as the buffer or longer; every buffer in which the first write fits |
| `UriDecoder.HexDigits` | runtime/bin/file.cc:1464-1482 | the digits in either case are those accepted |
| `UriDecoder.DecodeInvertsEncoders` | runtime/bin/file.cc:1442-1456 | a string decodes to a text exactly when it encodes that text |
| `UriDecoder.RoundTrip` | runtime/bin/file.cc:1423-1456 | whatever else is escaped, and in whichever case, decoding gives the text back |
| `UriDecoder.DecodeFailsIff` | runtime/bin/file.cc:1447-1451 | fails exactly when a scanned percent sign lacks two digits; otherwise each escape shortens by two |
| `UriDecoder.SeenWhole` | runtime/bin/file.cc:1455-1455 | a reader of the buffer sees the whole decoded text exactly when that holds no NUL |
| `UriDecoder.HexCharPairToByte` | runtime/bin/file.cc:1464-1482 | the byte of two digits, or false, never reading past the terminator |
| `UriDecoder.DecodeFrom` | runtime/bin/file.cc:1442-1456 | fills the buffer of length plus one with the decoded text and a terminator |
| `UriDecoder.Decoded` | runtime/bin/file.cc:1423-1456 | decodes, also when there is nothing to decode |
| `ElfLoader.RoundUpIsLeast` | runtime/bin/elf_loader.cc:405-405 | rounding up gives the least page boundary that is not below |
| `ElfLoader.MappingGeometry` | runtime/bin/elf_loader.cc:424-429 | a segment's mapping starts on a page, covers the segment and ends inside the reservation |
| `ElfLoader.LoadOneInPlace` | runtime/bin/elf_loader.cc:103-127 | one mapping puts its segment's bytes and access in place |
| `ElfLoader.LoadOneKeeps` | runtime/bin/elf_loader.cc:103-127 | and leaves segments on other pages in place |
| `ElfLoader.SegmentsInPlace` | runtime/bin/elf_loader.cc:412-479 | after all segments are loaded, the bytes of each with whose pages no later one interferes are its source bytes, zero past the end, with its access |
| `ElfLoader.UntouchedPages` | runtime/bin/elf_loader.cc:412-479 | pages of no segment keep their access |
| `ElfLoader.WritablePages` | runtime/bin/elf_loader.cc:412-479 | pages of writable segments only stay writable |
| `LoadedElf.HighestEnd` | runtime/bin/elf_loader.cc:399-401 | no segment ends later, in machine words |
| `LoadedElf.HighestEndReached` | runtime/bin/elf_loader.cc:399-401 | and some segment ends there |
| `LoadedElf.AllEndInside` | runtime/bin/elf_loader.cc:399-405 | when nothing wraps around, the memory computed holds every segment |
| `LoadedElf.HeaderError` | runtime/bin/elf_loader.cc:418-467 | no error exactly for headers that meet the checks, and otherwise that of the first check not met |
| `LoadedElf.FirstErrorIsFirst` | runtime/bin/elf_loader.cc:412-467 | the error reported is that of the first segment with one |
| `LoadedElf.TotalMemory` | runtime/bin/elf_loader.cc:391-405 | the reservation's size in machine words, unless an alignment is no power of two |
| `LoadedElf.NoFaultIff` | runtime/bin/elf_loader.cc:103-127 | the condition on headers under which every segment finds its pages writable is exact |
| `LoadedElf.SharedPageFaults` | runtime/bin/elf_loader.cc:103-127 | headers that pass every check and whose second segment finds its page unwritable |
| `LoadedElf.Reservation.constructor` | runtime/bin/elf_loader.cc:407-409 | a fresh writable region of whole pages |
| `LoadedElf.Reservation.Copy` | runtime/bin/elf_loader.cc:103-110 | copies source bytes and clears the rest of the range |
| `LoadedElf.Reservation.Map` | runtime/bin/elf_loader.cc:84-130 | copies into the range and sets the access of its pages |
| `LoadedElf.LoadSegment` | runtime/bin/elf_loader.cc:412-479 | loads one segment or reports the first failing check |
| `LoadedElf.LoadSegments` | runtime/bin/elf_loader.cc:390-482 | the result by the first failing check; on success the memory is that of loading one segment after the other, and every segment with whose pages no later one interferes is in place |
| `LoadedElf.UninitialisedDataIsZeroIff` | runtime/bin/elf_loader.cc:429-465 | when the bytes past a segment's file size are zero |
| `LoadedElf.UninitialisedDataMayNotBeZero` | runtime/bin/elf_loader.cc:429-465 | a segment and a source at which they are not |
| `LoadedElf.MapFilePiece` | runtime/bin/elf_loader.cc:541-558 | the piece is found at the returned offset, byte for byte, for any start |

## Left out

- Wire format of interrupt messages: the command and event bits of a message are a datatype, not bits.
- Epoll's data union: interrupt, timer and descriptor events are told apart by constructor, so a descriptor's address never looks like the timer's fd.
- Signal handlers: closing a signal socket does not clear its handler.
- Standard stream sockets: their finalizer closes the fd without the event handler.
- Condition variables: the monitor is modelled as an owner and one waiter.
- DirectoryListing.Lister.ListNextRequest: says nothing once the source has read a path length it never stored, and requires an even capacity, which the source asserts.
- DirectoryListing.Lister.ListInBatches: the same.
- CleanUnixPath.CleanUnixPath: does not cover a rooted path with no buffer at all, nor "/" with a buffer of one character, because the source writes outside the buffer there.
- LoadedElf.LoadSegments: does not cover headers whose addresses wrap around or whose segments fault, because the source then writes outside its reservation or is stopped.
- LoadedElf.LoadSegment: the same.
- Synchronous listing, and the argument checks of the request functions.
- Closing of directory streams and descriptors, and errno.
- Deleting without recursion, creating, renaming and testing directories.
- File-backed mappings, section tables and symbol lookup of the ELF loader.
- The descriptor, directory and file code for other operating systems.
- Hash maps, priority queues, reference counts, the socket registry and virtual memory as data structures.
