# Verification of the reckoning runtime

A Dafny model of the core of a small C++ runtime: its event loop, its promises, its argument parser,
its buffers and serializer, and two byte-level loops. Check the whole project with
`dafny verify dfyconfig.toml`.

| module | models |
|---|---|
| `Prelude` | options, results, a few facts about sequences and remainders |
| `Timers` | the sorted timer vector, the timer pass, and what a history of them guarantees |
| `FdTable` | the descriptor lists: `mFds`, `mPendingFds`, `mUpdateFds`, `mRemovedFds`, and the merge |
| `LoopState`, `EventLoop` | what the loop's mutex protects; the loop object and its critical sections |
| `LoopProtocol` | all threads and the loop thread as one transition system, and its runs |
| `WaitBound` | the wait of both backends, and the time budget of `execute` |
| `Promise` | promise nodes, flat chains of them under every schedule |
| `ArgsParser`, `ArgsPrinter` | the character machine, the word grammar, and the printer that it inverts |
| `Buffers`, `WaitSearch` | buffers, the pool, concatenation; the incremental needle search |
| `Serialization` | growth of the buffer, and the round trip through writer and reader |
| `Base64` | the encoder against section 4 of RFC 4648 |
| `UploadQueue` | the upload queue of the HTTP client and its read callback |

How the parts are modelled:

- **The loop.** `EventLoop.Loop` is the object, with a method for each critical section. Every call that
  other threads may make is proved to be one operation of `LoopState` on what the mutex protects
  (`Loop.View`). `LoopProtocol` is the transition system built from the same operations: any number of
  threads lock, change, write the pipe and unlock in separate steps; the loop thread goes through
  the phases of `execute`; its callbacks, and its own code before and between calls of `execute`, may
  make any call and skip the pipe. The pipe is a flag that a write sets and the drain clears, which covers
  edge-triggered and level-triggered readiness alike. A run is any interleaving.
- **Promises.** Functions give the effect of each critical section on a node, and `Promise.Then` is
  proved against them. A chain of any length is a transition system in which attaching, settling and
  running posted work interleave freely. What it should do is a fold over results (`Arrives`,
  `RunsBelow`, `Catches`). Observations are the continuations run, with argument and thread, and the
  failures caught.
- **Imperative code** is proved against a specification function on values: `ReadWord` against the
  word grammar, `Encode` against the grouped encoding, `Feed` against one step of the search, and so
  on; the properties are then proved of the functions.

Where the code does not do what its comments or callers expect, the model keeps the code and states the
exact condition:

- **The merge of pending descriptors** advances its iterator once for each pending entry without
  looking for the end (lib/event/Loop_epoll.cpp:146-156). It keeps the map from descriptors to callbacks, with
  no descriptor in a list twice, if and only if the number of pending entries divides the number of
  entries, and each duplicate meets its pending entry on the walk (`MergeKeepsInvExactly`);
  `TwoPendingOverrun` and `CrossedDuplicatesSurvive` are the smallest failures. A protocol run in which the
  merge overruns ends in the phase `Overrun`.
- **Adding a timer that is active** rewrites its deadline in place and then inserts the same object a second
  time (include/event/Loop.h:353-368). The vector is in order afterwards if and only if the timer was not
  active, which a caller can ask with `isActive` (`AddKeepsOrderExactly`). `ReAddKeepsOrder` decides whether it
  is still sorted. If so, a pass after the deadline takes the timer twice if and only if it is a one-shot
  timer or its timeout is not positive (`ReAddTakenTwice`, `OneShotAddedTwice`): arming an interval timer
  moves the deadline of its second entry too, the scan stops there, and the due timers behind it wait
  (`SecondEntryHidesTheRest`). If not, a due timer may be hidden (`ReAddHidesDueTimer`). Timers are modelled
  with this sharing throughout: the scan is proved for every vector of objects, protocol runs include such
  calls, and the results over runs say which parts need that none was made.
- **The epoll wait** converts a 64-bit number of milliseconds to `int` before it takes the minimum. It is the
  floor of the kqueue wait if and only if that number fits, or the budget cuts off what it wraps to, and
  not both the first timer and the budget are late (`EpollIsFloorOfKqueue`); a timer 2^31 ms away makes it wait
  forever (`DistantTimerWaitsForever`).
- **A timeout of `execute`** is kept, whenever it is checked, if and only if it is below 2^31 ms
  (`TimeoutKeptExactly`). A longer one is over at a check that comes when exactly 2^31 ms are left, at the
  first one for a timeout of 2^31 ms that is checked at once (`LongTimeoutEndsEarly`).
- **A late failure of a promise that a continuation returned** is lost, because `then` overwrites the
  handler that `fail` has just set; it arrives if and only if the promise settles before `then` is called on
  it (`LateFailureIsLost`).
- **A descriptor removed twice and then added** is closed while it is registered. The descriptor lists stand
  for the calls, with no descriptor in a list twice and none registered that waits to be closed, if and only
  if no descriptor is added while it is pending or waits to be closed twice, none fails while it is pending,
  and every merge fits (`TwoListsRefineOneMap`, `RemoveTwiceClosesLater`).
- **A descriptor that is added by another thread after the loop has taken the list of what is to be closed**,
  and before it closes it (lib/event/Loop_epoll.cpp:189-216), is closed while it is registered, whatever the
  lists say (`TakenThenAdded`, `ClosedWhileRegistered`). With that excluded too the refinement holds over runs
  of all threads, if and only if (`DescriptorsOverRuns`).
- **A consumer without a loop** that attaches to a promise node after it was settled has nowhere to post to;
  steps of a chain fail if and only if they do that (`EveryRunQuiesces`).
- **An empty buffer in the upload queue** makes the assertion of the read callback fail, if and only if it is
  the next one (`Upload.Read`).
- **The serializer's growth** is geometric only below 2 MiB (`DoublesExactlyWhen`, `ReallocatesEveryTime`).
- **A word that starts with a dash after `--`** leaves the freeform-only state and stores an empty value under
  the last key, or the empty key, although nothing was pending: words after a `--` are all freeform and do
  nothing else if and only if none starts with a dash (`FreeformOnlyExactly`, `DashAfterSeparator`).
  `ParsePrintedAll` says what they do otherwise.

## Model

| member | source | states |
|---|---|---|
| LoopProtocol.NoLostWakeup | lib/event/Loop_epoll.cpp:109-218 | in every interleaving: at the wait, with the pipe not readable and no thread between its change and its pipe write, the loop is not stopped and has no event and no pending, updated or removed descriptor; and no timer before the deadline of the wait, unless one has been added while active since the last timer pass |
| LoopProtocol.EventsAreFifo | include/event/Loop.h:309-314 | at every moment of every run, executed, then the rest of the batch, then the queue is exactly what was posted in order; what has run is a prefix of it, also after a stop |
| LoopProtocol.ExitsOverRuns | lib/event/Loop.cpp:75-81 | in every run the loop is stopped if and only if some call of `exit` has taken effect, with the status of the latest one |
| LoopProtocol.StopIsSeen | lib/event/Loop_epoll.cpp:113-117 | a test of the flag leaves `execute` if and only if the loop is stopped |
| LoopProtocol.NothingIsLost | include/event/Loop.h:370-477 | in every run, removals and failures of descriptors together are exactly those that wait to be closed, are about to be closed, have been closed, or were called off by an addition of the same descriptor; requested updates are exactly those queued, applied, or dropped by a removal |
| LoopProtocol.RemovedGetsClosed | include/event/Loop.h:444-477 | a descriptor removed and not added since waits to be closed, is about to be, or has been closed since |
| LoopProtocol.TimersOverRuns | lib/event/Loop_epoll.cpp:257-282 | at every moment of every run, timers added while active included: the timers run so far and still to run are those selected, in order and once each; every deadline is one timeout after the latest start, and each timer is in the vector as often as it was added, less stops and one-shot firings; the vector is sorted unless a timer has been added while active since the last pass, and holds none twice unless one ever has |
| LoopProtocol.OneShotsOverRuns | include/event/Loop.h:336-368 | in every run a timer fires as a one-shot at most as often as it is added, its entries still in the vector counted with the firings |
| LoopProtocol.NoTimerFiresEarly | lib/event/Loop_epoll.cpp:257-282 | in every run, the latest start of a timer before its firing, an addition or a firing as an interval timer, is at least its timeout ago; unless some timer has been added while active that is the latest entry about it, so none fires after a stop |
| LoopProtocol.RepeatedFirings | lib/event/Loop_epoll.cpp:264-272 | in every run, firings of an interval timer with no start in between are a timeout apart or more; unless some timer has been added while active, a one-shot timer that fires twice was added in between, and a timer that fires twice with nothing in between is an interval timer |
| LoopProtocol.DescriptorsOverRuns | lib/event/Loop_epoll.cpp:137-216 | throughout a run the descriptor lists stand for the calls of all threads and the failures so far, no descriptor is in a list twice, nothing registered waits to be closed or is being closed, and no merge leaves its list, if and only if every call, merge and failure so far was orderly |
| LoopProtocol.StepOnFds | lib/event/Loop_epoll.cpp:137-216 | a step of any thread keeps that refinement if and only if it is orderly |
| LoopProtocol.TakenThenAdded | lib/event/Loop_epoll.cpp:189-216 | from any state, a descriptor that waits to be closed, is taken by the loop, and then added by another thread, is registered and about to be closed, although the lists allow the call |
| LoopProtocol.ClosedWhileRegistered | lib/event/Loop_epoll.cpp:189-216 | a run from the start in which that happens |
| LoopProtocol.CallbackKeepsWake | lib/event/Loop.cpp:49-56 | a call on the loop thread, in a callback or outside `execute`, skips the pipe without breaking the wake-up invariant: everything it changes is looked at again before the next wait |
| LoopProtocol.CallerKeepsWake | include/event/Loop.h:309-314 | lock, push, pipe write and unlock of any other thread, each on its own, keep the wake-up invariant |
| LoopProtocol.LoopKeepsWake | lib/event/Loop_epoll.cpp:109-245 | every step of the loop thread keeps the wake-up invariant, at the wait too, and draining the pipe loses nothing |
| LoopProtocol.StopKeepsWake | include/event/Loop.h:183-200 | stopping a timer writes no pipe and needs none |
| LoopProtocol.RunKeepsInv | lib/event/Loop_epoll.cpp:109-292 | mutex, wake-up, order of events, and timer invariants hold at every state of every run |
| EventLoop.Loop.Post | include/event/Loop.h:309-314 | the event goes to the end of the queue and nothing else changes but the pipe, which is written exactly off the loop thread |
| EventLoop.Loop.AddTimer | include/event/Loop.h:336-368 | for any timer, active or not, is the operation AddTimer where its search ends: the deadline is now plus the timeout, written through to every entry, and the timer is inserted; a vector in order stays so exactly when the timer was not active |
| EventLoop.Loop.StopTimer | include/event/Loop.h:183-200 | is the operation StopTimer on the shared state: the first entry of the timer goes, or nothing changes; a vector in order stays so |
| EventLoop.Loop.AddFd | include/event/Loop.h:370-392 | the entry goes to the end of the pending list, a write flag queues an update, one occurrence of the descriptor and no other leaves the list of what is to be closed; the pipe is written exactly off the loop thread |
| EventLoop.Loop.UpdateFd | include/event/Loop.h:418-425 | the update goes to the end of its list; the pipe is written exactly off the loop thread |
| EventLoop.Loop.RemoveFd | include/event/Loop.h:444-477 | the first entry leaves each list, and the descriptor goes to the end of the list of what is to be closed; the pipe is written exactly off the loop thread |
| EventLoop.Loop.Exit | lib/event/Loop.cpp:75-81 | the loop is stopped, with this status, and the pipe is written from any thread |
| EventLoop.Loop.TakeEvents | lib/event/Loop_epoll.cpp:119-121 | the whole queue is taken in order, and the shared state changes in nothing else |
| EventLoop.Loop.MergePending | lib/event/Loop_epoll.cpp:137-159 | the nested loops compute Merge, and fail exactly where it leaves the list |
| EventLoop.Loop.ArmWait | lib/event/Loop_epoll.cpp:171-205 | the earliest deadline of all timers, none exactly without timers; removals and updates are taken |
| EventLoop.Loop.ScanTimers | lib/event/Loop_epoll.cpp:261-276 | in any vector, one that holds a timer twice too: deadlines rewritten during the scan show in every entry of the object, and what is taken and what is left is what is specified |
| EventLoop.Loop.FireTimers | lib/event/Loop_epoll.cpp:257-278 | in any vector a pass takes what is specified and leaves a sorted arrangement of the scanned vector; from a vector in order it takes the leading due timers and leaves it in order |
| EventLoop.LowerBound | include/event/Loop.h:342-346 | the binary search ends inside any vector, and in a sorted one at the first position whose deadline is not before the given one |
| EventLoop.Resort | lib/event/Loop_epoll.cpp:72-77 | the result is sorted, and a permutation of the same timer objects |
| EventLoop.EraseEntry | include/event/Loop.h:447-463 | the first entry of the descriptor goes, and nothing else |
| Timers.AddInactive | include/event/Loop.h:342-347 | adding a timer that is not active to a sorted vector is inserting it at the lower bound, and keeps the vector sorted |
| Timers.RemoveInOrder | include/event/Loop.h:190-199 | removal keeps the order, leaves no entry of the timer and invents none |
| Timers.PassTakesExactlyTheDue | lib/event/Loop_epoll.cpp:263-276 | in a sorted vector that holds no timer twice a pass takes exactly the due timers, each once and in order |
| Timers.PassInOrder | lib/event/Loop_epoll.cpp:257-278 | a pass leaves any vector sorted, and puts no timer in twice, whatever arrangement sorting picks |
| Timers.PassLeavesNothingDue | lib/event/Loop_epoll.cpp:257-278 | after a pass over a vector in order no timer is due, but for an interval timer whose timeout is not positive |
| Timers.ScanInPlace | lib/event/Loop_epoll.cpp:263-276 | erasing and arming in place, with the iterator moving over entries that may share their objects, takes and leaves what the recursive specification says |
| Timers.ScanRearms | lib/event/Loop_epoll.cpp:269-272 | arming a timer in place changes nothing in front of the iterator and every entry of the timer behind it |
| Timers.CountScan | lib/event/Loop_epoll.cpp:263-276 | a scan loses the one-shot timers that it takes and nothing else |
| Timers.AddKeepsOrderExactly | include/event/Loop.h:353-368 | rewriting the deadline and inserting leaves a vector in order if and only if the timer was not active, wherever the search ends in a vector out of order |
| Timers.ReAddKeepsOrder | include/event/Loop.h:353-368 | adding an active timer leaves the vector sorted if and only if its deadline still lies between its neighbours' |
| Timers.ReAddTakenTwice | lib/event/Loop_epoll.cpp:263-276 | and then one pass after the deadline takes it twice if and only if it is a one-shot timer or its timeout is not positive, and else once |
| Timers.SecondEntryHidesTheRest | lib/event/Loop_epoll.cpp:269-275 | an interval timer that is in front twice is taken once, and the pass takes nothing behind it, due or not |
| Timers.OneShotAddedTwice | include/event/Loop.h:353-368 | a one-shot timer added twice at the same moment is in the vector twice and taken twice by one pass |
| Timers.ReAddHidesDueTimer | lib/event/Loop_epoll.cpp:263-276 | adding the first of two timers again with a deadline after the other hides the other from a pass at its deadline, wherever the search ends |
| Timers.TimerStepKeepsInv | include/event/Loop.h:336-368 | adding any timer, stopping and passes keep: every deadline one timeout after the latest start of its timer, every firing on time, and each timer in the vector as often as the history says |
| Timers.FiringsAreApart | lib/event/Loop_epoll.cpp:270-270 | firings of an interval timer that is not started in between are at least its timeout apart |
| Timers.OneShotFiresOncePerAdd | lib/event/Loop_epoll.cpp:266-269 | while no timer has been in the vector twice, between two firings of a one-shot timer it was added again |
| Timers.FiringsPerAdd | lib/event/Loop_epoll.cpp:266-269 | in every history, one-shot firings and entries in the vector together are at most the additions |
| Timers.RemovedThenFired | include/event/Loop.h:190-199 | a timer that fires after a stop or a one-shot firing, with no addition in between, was in the vector twice before |
| Timers.NoneFiresEarly | lib/event/Loop_epoll.cpp:264-265 | in every history, the latest start of a timer before its firing is at least its timeout ago |
| Timers.LatestEntryIsStart | lib/event/Loop_epoll.cpp:264-265 | while no timer has been in the vector twice, that start is the latest entry about the timer, never a stop |
| FdTable.TwoListsRefineOneMap | include/event/Loop.h:370-416 | throughout a history, pending entries over merged ones give every descriptor the callback of the calls in order, no descriptor is in a list twice, and nothing registered waits to be closed, if and only if every step of it is orderly |
| FdTable.FdStepKeepsInv | lib/event/Loop_epoll.cpp:137-159 | a call, a merge, a failure or the taking of removals keeps that refinement, no descriptor in a list twice included, and the merge is defined, if and only if it is orderly |
| FdTable.MergeKeepsInvExactly | lib/event/Loop_epoll.cpp:137-159 | the merge as written stays in its list and keeps the map from descriptors to callbacks, and no descriptor is in a list twice, if and only if its walk fits the list and meets every duplicate |
| FdTable.MergeKeepsInv | lib/event/Loop_epoll.cpp:137-159 | a merge that fits changes no callback |
| FdTable.MisalignedDuplicates | lib/event/Loop_epoll.cpp:147-157 | when a duplicate does not meet its pending entry, some descriptor is in the merged list twice |
| FdTable.CrossedDuplicatesSurvive | lib/event/Loop_epoll.cpp:146-157 | two entries pending again in the other order: the walk fits, drops neither, and the old callbacks win |
| FdTable.MergeAsIntended | lib/event/Loop_epoll.cpp:144-156 | the merge as written drops exactly the duplicates of pending entries, as its comment says, if and only if its walk fits the list and meets every duplicate |
| FdTable.SurvivorsAreAtLeast | lib/event/Loop_epoll.cpp:146-155 | the walk never drops more than the duplicates, and drops them all exactly when aligned |
| FdTable.OnePendingFits | lib/event/Loop_epoll.cpp:146-155 | with at most one pending entry the merge does what it should |
| FdTable.TwoPendingOverrun | lib/event/Loop_epoll.cpp:146-155 | two pending entries and one registered: the walk leaves the list |
| FdTable.WalkStep | lib/event/Loop_epoll.cpp:147-155 | one step of the inner loop on the list is one step of the specified walk |
| FdTable.AddSetsCallback | include/event/Loop.h:370-392 | an added descriptor gets its callback exactly when it was not pending, and no other descriptor changes |
| FdTable.AddFdErases | include/event/Loop.h:370-392 | an addition takes one occurrence of its descriptor, and no other, off the list of what is to be closed, appends to the pending list, and queues an update exactly with a write flag |
| FdTable.RemoveFdErases | include/event/Loop.h:464-475 | a removal drops the first queued update of its descriptor and no other, and appends to the list of what is to be closed |
| FdTable.ErasesFirst | include/event/Loop.h:447-463 | what the erasing loops leave: the first occurrence is gone, and all else is where it was |
| FdTable.StepIsAccounted | include/event/Loop.h:370-477 | no step loses a removal or an update: each is in its list, taken by the loop, or called off |
| FdTable.AddKeepsInvExactly | include/event/Loop.h:370-392 | adding keeps the refinement, and no descriptor is in a list twice, if and only if the descriptor is not pending and waits to be closed at most once |
| FdTable.AddKeepsInv | include/event/Loop.h:370-392 | adding keeps the refinement, and takes the descriptor out of what is to be closed |
| FdTable.FailKeepsInvExactly | lib/event/Loop_epoll.cpp:85-89 | dropping the entry of a failed descriptor ends its registration if and only if it is not pending too |
| FdTable.RemoveKeepsInv | include/event/Loop.h:444-477 | removing a descriptor always keeps the refinement |
| FdTable.RemoveTwiceClosesLater | include/event/Loop.h:383-387 | after a removal and an addition a descriptor is still to be closed if and only if it was so before |
| WaitBound.EpollWait | lib/event/Loop_epoll.cpp:173-218 | the wait passed to epoll is EpollTimeout, of which the agreement of the backends is proved |
| WaitBound.KqueueWait | lib/event/Loop_kqueue.cpp:165-191 | for every budget, negative ones too: the wait is the timespec of the smaller of budget and time to the first timer, but zero when the timer is late and the budget overdrawn, and unbounded exactly without both |
| WaitBound.EpollIsFloorOfKqueue | lib/event/Loop_epoll.cpp:173-186 | for every budget, negative ones too: the epoll wait is the floor in milliseconds of the kqueue wait, or negative when that is unbounded, if and only if the time to the first timer fits an int or the budget cuts off what it wraps to, and not both timer and budget are late |
| WaitBound.UnboundedExactlyWhenIdle | lib/event/Loop_epoll.cpp:185-218 | the epoll wait is unbounded exactly without timer and budget, or with a negative budget, or when the time to the first timer wraps to a negative int; the kqueue wait only without timer and budget |
| WaitBound.DistantTimerWaitsForever | lib/event/Loop_epoll.cpp:178-179 | a timer 2^31 ms away: epoll waits forever, kqueue does not |
| WaitBound.RunBudget | lib/event/Loop_epoll.cpp:284-292 | for every timeout and clock the subtractions telescope, conversions to int included: execute ends at the first iteration after which timeout minus elapsed, as an int, is not positive |
| WaitBound.NothingLeftWhenElapsed | lib/event/Loop_epoll.cpp:284-292 | while the difference fits an int, that is when the elapsed time has reached the timeout |
| WaitBound.ToIntTwice | lib/event/Loop_epoll.cpp:286-286 | converting after each subtraction is converting once at the end |
| WaitBound.TimeoutKeptExactly | lib/event/Loop_epoll.cpp:64-64 | up to its end a timeout is kept, whenever it is checked, if and only if it fits an int |
| WaitBound.LongTimeoutEndsEarly | lib/event/Loop_epoll.cpp:286-290 | a longer one is over at a check that comes when 2^31 ms are left |
| WaitBound.TimespecRoundTrip | include/event/Timeval.h:33-71 | the casts between durations and timespecs are inverse to each other, negative durations included |
| WaitBound.LexicographicOrder | lib/event/Loop_kqueue.cpp:178-178 | comparing seconds and then nanoseconds compares durations, negative ones too |
| Promise.Confluence | include/then/Then.h:547-613 | two complete runs of a chain, whatever their schedules, run the same continuations on the same arguments and threads and catch the same failures |
| Promise.CompleteRunsMatchTheFold | include/then/Then.h:547-659 | a complete run is the fold: each continuation that should run has run once, in order, on the previous result; a failure reached the handler once; a value waits in the last node |
| Promise.EveryRunQuiesces | include/then/Then.h:470-684 | every run stops after at most 4n + 4 steps, and a step violates an assertion of a node or uses what is missing if and only if a consumer without a loop attaches to a node that is settled |
| Promise.ObservationsArePrefixes | include/then/Then.h:637-684 | at every moment the observations are a prefix of what the fold prescribes |
| Promise.FailureSkipsTheRest | include/then/Then.h:489-491 | once a failure arrives at a node, the same message arrives at every later one and no later continuation runs |
| Promise.RunsInOrder | include/then/Then.h:559-561 | continuation k runs at place k, on the value that arrived at k, exactly when every outcome up to it is a value |
| Promise.StepAttachThen | include/then/Then.h:547-580 | attaching a continuation before, while or after the outcome arrives keeps the invariant and lowers the rank, and fails exactly when it needs a loop |
| Promise.StepAttachFail | include/then/Then.h:615-635 | attaching the terminal handler before or after the failure keeps the invariant and lowers the rank, and fails exactly when it needs a loop |
| Promise.StepSettle | include/then/Then.h:637-684 | settling a node hands the outcome to its consumer or stores it, and never both or neither |
| Promise.StepContinue | include/then/Then.h:481-491 | a continuation or a forwarding handler passes the outcome on to the next node |
| Promise.LateFailureIsLost | include/then/Then.h:441-453 | a value of a returned promise always reaches the outer one; a failure does if and only if the promise settles before `then` is called on it |
| Promise.AdoptHands | include/then/Then.h:441-453 | exactly what is handed over, in order, for each moment at which the returned promise settles |
| Promise.Then.AttachThen | include/then/Then.h:557-579 | the critical section has the specified effect and posts the specified events |
| Promise.Then.AttachFail | include/then/Then.h:622-634 | the critical section, under nothing but its own assertion and the loop it needs for a stored failure, has the specified effect and posts the specified event |
| Promise.Then.Resolve | include/then/Then.h:637-659 | takes the continuation, once, to run on the loop of its consumer, or stores the value |
| Promise.Then.Reject | include/then/Then.h:661-684 | takes the handler, once, to run on the loop of its consumer, or stores the failure |
| ArgsParser.Parse | include/args/Parser.h:40-204 | the character machine computes the word grammar: same values and freeforms, same error at the same offset, nothing kept on an error; what truth values, negating keys and errors are is in the next four rows |
| ArgsParser.TruthTexts | include/args/Parser.h:22-29 | false is exactly "false", true exactly "" and "true", and every other text is left to its own classification |
| ArgsParser.NegatingKeys | include/args/Parser.h:61-73 | `no-k` and `disable-k` store the negation of a truth value under k, for every k that is not empty; any other key, and any other value, is stored as it is |
| ArgsParser.ErrorPlace | include/args/Parser.h:83-107 | an error is that of the first word that is not accepted, at the lengths of the words before it, one more for each, and its place in the word |
| ArgsParser.RejectedAt | include/args/Parser.h:101-190 | a word is rejected at its end for a missing value, and else exactly at a dash or an equals sign, for that character |
| ArgsParser.ReadWord | include/args/Parser.h:89-199 | one word of the machine, from any state in which a word can start, is one step of the word grammar and ends in such a state |
| ArgsParser.FinishWord | include/args/Parser.h:126-175 | the actions at the end of a word are those of the word grammar |
| ArgsParser.Add | include/args/Parser.h:49-81 | the add action sets flags, key, value or freeform as specified, with negated truth values |
| ArgsParser.EndOfWord | include/args/Parser.h:126-175 | what the word grammar makes of a word, from what the machine knows at its end |
| ArgsParser.UnexpectedCharacter | include/args/Parser.h:101-123 | the machine rejects a dash or an equals sign exactly where the grammar rejects the word |
| ArgsPrinter.PrintThenParse | include/args/Parser.h:93-199 | parsing the printed words of a command line yields exactly its values, the last write winning, and its freeforms in order |
| ArgsPrinter.TypedRoundTrip | include/args/Parser.h:49-81 | settings with a meaning, on, off, true, false or a text, written as `--k`, `--no-k`, `--disable-k`, `--k=false`, `--no-k=true`, `--k=text` or `--k text`, are read as exactly that meaning, the last one of a name winning |
| ArgsPrinter.ParsePrinted | include/args/Parser.h:93-199 | the same from any state between words, with whatever has been parsed before and with what follows, and the last key that is left |
| ArgsPrinter.ParsePrintedAll | include/args/Parser.h:93-199 | parsing several printed command lines, each after the freeforms of the one before: each adds what it denotes, and between them the last key gets an empty value |
| ArgsPrinter.FreeformOnlyExactly | include/args/Parser.h:110-120 | after a `--` the words are all freeform and nothing else changes if and only if none starts with a dash |
| ArgsPrinter.DashAfterSeparator | include/args/Parser.h:110-120 | the words `--` and `-a` set the empty key and `a` to true and give no freeform |
| ArgsPrinter.FreeformBound | include/args/Parser.h:93-199 | each word adds at most one freeform, and none when it starts with a dash |
| ArgsPrinter.AcceptsExactlyPrintedLines | include/args/Parser.h:87-203 | any words are accepted if and only if they are the printed form of printable command lines, one after the other |
| ArgsPrinter.AcceptsExactlyOneLine | include/args/Parser.h:87-203 | and of a single one, when no word after a `--` starts with a dash |
| ArgsPrinter.NeverEndsAwaiting | include/args/Parser.h:138-151 | a successful parse never ends awaiting a value |
| ArgsPrinter.LastWriteWins | include/args/Parser.h:73-73 | the last write to a key decides its value |
| ArgsPrinter.OtherKeysKept | include/args/Parser.h:73-73 | a key that is not written is unchanged, or stays absent |
| ArgsPrinter.EmptyValueRejected | include/args/Parser.h:161-166 | an empty word where a value is awaited is an error |
| ArgsPrinter.ItemStep | include/args/Parser.h:93-199 | the first word of an item, from any state in which it may come, leads where the item says |
| ArgsPrinter.LongWord | include/args/Parser.h:138-189 | the words of two dashes, by what follows them |
| Buffers.Pool.constructor | include/buffer/Pool.h:35-44 | the slices tile the block and nobody holds one |
| Buffers.Pool.Get | include/buffer/Pool.h:58-67 | a buffer of at least the requested size that nobody holds: a free slice exactly when the size fits and there is one, else a new one; slices stay apart |
| Buffers.Pool.FindFree | include/buffer/Pool.h:60-64 | the scan finds the first slice that nobody holds |
| Buffers.Pool.Share | include/buffer/Pool.h:58-67 | a copied pointer keeps the pool valid |
| Buffers.Pool.Release | include/buffer/Pool.h:58-67 | a pointer that goes away frees the buffer exactly when it is the last one outside the pool |
| Buffers.Pool.SlicesApart | include/buffer/Pool.h:35-44 | a slice covers no byte of any other live buffer |
| Buffers.Buffer.IsInUse | include/buffer/Buffer.h:105-110 | with the temporary pointer counted, true exactly when someone outside holds it |
| Buffers.Buffer.Assign | include/buffer/Buffer.h:134-139 | replaces the contents, and touches no byte outside the buffer |
| Buffers.Buffer.Append | include/buffer/Buffer.h:146-151 | extends the contents, and touches no byte outside the buffer |
| Buffers.AppendBeside | include/buffer/Buffer.h:146-151 | writing to one live buffer changes no other live buffer |
| Buffers.ConcatGrowing | include/buffer/Buffer.h:162-188 | the blob holds what it held and then all parts, null and empty ones skipped; used never exceeds size; it is null exactly when there was nothing to copy |
| Buffers.JoinedAppend | include/buffer/Buffer.h:162-188 | the concatenation of more parts is that of the first ones and then that of the others |
| Buffers.JoinedOne | include/buffer/Buffer.h:167-169 | of one part it is its contents, and of a null one nothing |
| Buffers.AppendGrowing | include/buffer/Buffer.h:170-184 | one part is appended; the size grows by twice the part exactly when it does not fit |
| Buffers.ConcatFixed | include/buffer/Buffer.h:162-188 | succeeds exactly when the total fits, with all parts in place and no byte outside the blob touched |
| Buffers.ConcatNew | include/buffer/Buffer.h:193-204 | a new buffer with the concatenation |
| Buffers.ConcatPooled | include/buffer/Pool.h:75-86 | the concatenation either way; a new buffer exactly when the total exceeds the slice size; no buffer that someone holds changes, and none leaks |
| WaitSearch.SearchStream | include/buffer/Wait.h:76-120 | a new object that is fed any stream emits what the naive search finds in it |
| WaitSearch.FeedIsNaiveSearch | include/buffer/Wait.h:76-120 | over every stream of chunks, feed emits what the naive search finds: at the first chunk after which the bytes contain the needle, those bytes and the first offset; or null when two chunks or more exceed the limit; then afresh |
| WaitSearch.Wait.Feed | include/buffer/Wait.h:76-120 | one call on the held buffer is one step of the specification, every assign and append fits, and null is emitted exactly when appending to a held buffer would exceed the maximum |
| WaitSearch.Wait.Extend | include/buffer/Wait.h:99-109 | the held bytes are kept and extended, in a new buffer of full size exactly when they did not fill one |
| WaitSearch.EmitsAtFirstDue | include/buffer/Wait.h:76-120 | nothing before the first due chunk, its emission at it, and nothing held after it |
| WaitSearch.HoldsUntilDue | include/buffer/Wait.h:89-109 | while nothing is due, all bytes are held and nothing is emitted |
| WaitSearch.FeedNext | include/buffer/Wait.h:76-120 | one more chunk is held when nothing is due, and else emitted |
| WaitSearch.MatchEndsInNewestChunk | include/buffer/Wait.h:111-118 | a match found after appending ends in the newest chunk |
| WaitSearch.Memmem | include/buffer/Wait.h:113-113 | finds the first occurrence, if any |
| Serialization.RoundTrip | include/serializer/Serializer.h:179-240 | for every list of values, across any number of reallocations, reading the same types back from the written buffer gives the same values, every read is in bounds and the last one ends at the end of the buffer |
| Serialization.DecodeAllEncoded | include/serializer/Serializer.h:197-240 | decoding the types of encoded values gives the values and leaves nothing over |
| Serialization.BytesRoundTrip | include/serializer/Serializer.h:214-236 | a size survives its bytes |
| Serialization.ByteIsDigit | include/serializer/Serializer.h:198-203 | byte i of a size is its digit i in base 256, the lowest first |
| Serialization.TextLayout | include/serializer/Serializer.h:212-217 | a string is the eight bytes of its size and then its characters |
| Serialization.WriteNew | include/serializer/Serializer.h:83-88 | writing any values with a new serializer: below a megabyte of data all bytes copied never exceed the capacity of its buffer, and so as long as its reallocations stay below the limit |
| Serialization.CopyingIsAmortized | lib/serializer/Serializer.cpp:15-26 | below the limit, all bytes ever copied by reallocation never exceed the current capacity, and every write fits |
| Serialization.DoublesExactlyWhen | lib/serializer/Serializer.cpp:15-23 | a reallocation at least doubles the capacity if and only if the double is below the limit or the write is large; it always makes room |
| Serialization.CapacityIs | lib/serializer/Serializer.cpp:15-23 | the new capacity in numbers: doubled while the double is below 2 MiB and has room, else the size and twice the write, and never below 16384 |
| Serialization.MegabyteIsBelowLimit | lib/serializer/Serializer.cpp:15-23 | while the data stays below a megabyte, every reallocation starts below the limit |
| Serialization.ReallocatesEveryTime | lib/serializer/Serializer.cpp:17-21 | from the limit on, equal writes reallocate and copy everything every time |
| Serialization.Serializer.Realloc | lib/serializer/Serializer.cpp:7-27 | the contents move to a buffer of exactly that capacity |
| Serialization.Serializer.WriteBytes | include/serializer/Serializer.h:188-195 | appends the bytes, and reallocates exactly when they would reach the capacity |
| Serialization.Serializer.WriteValue | include/serializer/Serializer.h:197-217 | appends the encoding of the value, growing as its writes do |
| Serialization.Serializer.ReadBytes | include/serializer/Serializer.h:179-186 | returns the next bytes and moves the position past them |
| Serialization.Serializer.ReadValue | include/serializer/Serializer.h:219-240 | reads what decoding the rest of the buffer gives |
| Serialization.Serializer.Writer | include/serializer/Serializer.h:83-88 | an empty buffer of 16384 bytes, ready for writing |
| Serialization.Serializer.Reader | include/serializer/Serializer.h:90-99 | ready exactly when the buffer is not empty, at its start |
| Serialization.NonEmptyListsAreReadable | include/serializer/Serializer.h:197-217 | a list that begins with a value of any width, or a string, is not written as nothing |
| Base64.Encode | include/util/Base64.h:10-67 | writes exactly 4 * ceil(n / 3) symbols, those of the standard, and nothing after them; nothing at all when a pointer is null or the output is too small |
| Base64.EncodeGroups | include/util/Base64.h:28-45 | the loop writes the full groups and leaves what completes the text in the scratch array |
| Base64.PutTail | include/util/Base64.h:47-64 | the last one or two bytes, padded, and nothing else |
| Base64.TakeByte | include/util/Base64.h:33-45 | one iteration: the byte joins the scratch bytes, or completes a group that is written |
| Base64.DecodeEncoded | include/util/Base64.h:10-67 | a decoder written from the standard, which rejects padding bits that are not zero, inverts the encoding of every input |
| Base64.EncodeDecoded | include/util/Base64.h:10-67 | and the encoding inverts the decoder: the text of given bytes is the only one that it accepts for them |
| Base64.WorkedExamples | include/util/Base64.h:47-64 | two of the examples in section 10 of RFC 4648, with one and two bytes of padding |
| Base64.ShiftsCutGroups | include/util/Base64.h:36-39 | the masks, shifts and sums cut a 24-bit group into its four 6-bit values |
| Base64.SymbolHasValue | include/util/Base64.h:19-22 | the table gives every 6-bit value a symbol of its own |
| UploadQueue.Upload.Read | lib/net/HttpClient.cpp:337-370 | delivers the next bytes written, as many as there is room for and the buffer under the cursor has; pauses only when nothing is undelivered and writing has not ended; with room for a byte, returns 0 only after the end, with everything delivered, or without a client; its assertion fails exactly when the next buffer is an empty one |
| UploadQueue.Upload.Write | lib/net/HttpClient.cpp:414-460 | with a connection the bytes join what was written, nothing is delivered, and a paused transfer resumes; without one nothing is written |
| UploadQueue.Upload.EndWrite | lib/net/HttpClient.cpp:462-471 | writing has ended, and a paused transfer resumes to see it; without a connection nothing changes |
| UploadQueue.Upload.Advance | lib/net/HttpClient.cpp:359-368 | moving the cursor keeps delivered and undelivered bytes together what was written |
| UploadQueue.CursorMoves | lib/net/HttpClient.cpp:354-368 | bytes of the buffer under the cursor are the front of what is left, and stepping over them leaves the rest, across the end of a buffer too |
| UploadQueue.Upload.Connect | lib/net/HttpClient.cpp:106-155 | there is a connection when there was one or curl takes the new one; the queue stays |
| UploadQueue.Upload.Disconnect | lib/net/HttpClient.cpp:389-390 | the transfer is over, and the queue stays |

## Left out

- The dispatch of descriptor events after the wait (lib/event/Loop_epoll.cpp:227-255): the count of the batch is reused as a return value inside its loop, so no claim is made that every ready descriptor is dispatched; in the protocol the phase drains the pipe, drops and closes failing descriptors, and lets callbacks make calls.
- EventLoop.Loop.ArmWait: gives the deadline; milliseconds, timespecs and the budget are in `WaitBound`.
- Kernel calls, their errors and interruption; the wake-up pipe never fills up.
- LoopProtocol.NoLostWakeup: `exit` stores the flag and the status in one step, and the two tests of the flag read it at one moment each; the race of `mStatus` with a return is not modelled. Progress, that a woken loop gets to its work, is not stated.
- LoopProtocol.TimersOverRuns: `addTimer` writes the deadline before it takes the mutex; the model reads the clock and writes it in the step that inserts, so the race of a second addition with a pass is not modelled. Clocks need not be monotonic. A timer that a callback of the same pass stops is still run, since it was selected before. `lower_bound` is a binary search that may end anywhere in a vector out of order.
- FdTable.TwoListsRefineOneMap: the use of queued updates by the kernel is not modelled; neither is `send`, or the descriptor handle `Loop::FD`. When a descriptor fails, the copy of its callback is taken after the erasure (lib/event/Loop_epoll.cpp:86-91); the model takes no such copy.
- Weak references to a loop: the loop outlives its timers and promise nodes.
- Promise.CompleteRunsMatchTheFold: one `then` for each node and one settlement of the head, flat chains; promise-returning continuations are only covered by `LateFailureIsLost`. Intermediate nodes may end with a moved-out argument or none, depending on the schedule, so the states of nodes before the last are not claimed equal. The reuse of settled nodes, `resolved`, `rejected` and the void specialization are left out.
- `strtoll` and `strtod` in `guessValue`: what is neither empty, "true" nor "false" is an opaque classification of its text. The log lines of parse errors are kinds and offsets.
- `timeval` casts, which are the same division as those to timespecs with another unit.
- Buffers.ConcatGrowing: parts are given by their contents; allocation does not fail and sizes do not overflow. Thread-local pools and their destruction with live buffers are left out.
- WaitSearch.Wait.Feed: the pool's buffer is modelled by a new one, and one receiver takes every emitted buffer.
- Base64.Encode: the input is a value, so it does not overlap the output.
- Serialization.RoundTrip: numbers are their bytes, sizes of strings are 8 bytes with the lowest first; the pool's buffers are modelled by new ones; files and the constructor on a shared mutable buffer are left out.
- UploadQueue.Upload.Read: the assertions are enabled; resuming a transfer does not call back at once.
- Signals, sockets, TLS, DNS, HTTP parsing, WebSockets, image decoding, paths and logging: foreign code, or thin wrappers around it.
