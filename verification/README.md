# libHH: a Dafny model of its hard core

libHH is a small port of Chromium's `base` and `ipc`. This project models the parts of it whose
correctness is not visible from any one function, and proves what they are for. `dafny verify
dfyconfig.toml` checks everything.

Code that changes state is modelled as classes, loops and arrays, each method proved against a
function of the old state; the properties are then proved about those functions.

| files | component |
|---|---|
| `PendingTasks`, `MessagePump`, `IncomingTasks`, `MessageLoops` | the message loop's three objects, method by method |
| `WakeUpProtocol`, `WakeUpSafety`, `WakeUpProgress`, `WorkTurns`, `TaskHistory`, `WorkProgress` | the same loop as a transition system with any number of posting threads, and what holds in every run |
| `OffsetAdjuster`, `AdjustmentMerge`, `MergeComposition`, `MergeExactness`, `MergeOrder`, `MergeDomain`, `UnicodeOffsets` | lists of string edits: apply, invert, merge, record |
| `StringReplace`, `ReplaceMeaning`, `GrowingReplace` | replacing substrings in place by three strategies |
| `ChannelReader`, `Chunking`, `WrittenMessages` | cutting a byte stream into messages, and sorting them |
| `ThreadLocalStorage`, `TlsRefinement`, `TlsWraparound` | versioned thread-local slots |
| `Pattern`, `PatternUnits`, `UtfReading` | glob matching, of characters and of code units |
| `ArgumentQuoting`, `CommandLines`, `SwitchNames`, `CommandLineReparse`, `ArgumentsString` | quoting, parsing, normalising and joining command lines |
| `CheckedMath`, `NumberStrings`, `NumeralTables` | overflow-checked integers, printing and parsing them, hexadecimal bytes |
| `StringTokenizer`, `QuotedTokens` | the quick and the full tokenizer, and what quotes do |

## How the loop is modelled

`WakeUpProtocol` splits posting and running into atomic steps. A poster takes the lock, pushes and
decides; it then exchanges `HAVE_WORK`, posts the packet, sets the flag and unlocks, one step each.
The loop thread reloads, pops one task, polls the port, resets `work_state_`, runs the timers,
decides, sleeps and wakes. Tasks and I/O callbacks may post and may call a filtered
`WaitForIOCompletion`. The steps of posting, reloading, waiting and running timers apply the functions
that the methods of `IncomingTasks` and `MessagePump` and `DoDelayedWork` are proved against. `DoWork`
is one method but several steps, a reload or a pop each; `WorkTurns` proves that these steps together do
exactly what the contract of `DoWork` says. The theorems quantify over every run.

## Where the code does less than its documentation says

* An edit that removes its whole range makes both ends of the range one offset, so `UnadjustOffset`
  cannot undo `AdjustOffset`; merging can go wrong at such an edit too. `RoundTrips` and
  `MergeIsComposition` give the exact conditions.
* An edit that starts strictly inside what an earlier edit left, which the code asserts never to happen,
  spoils the order of the merged list only if the earlier edit is copied (`MergedIsSorted`).
* The growing strategy of `DoReplaceSubstringsAfterOffset` counts matches with `find` and revisits them
  with `rfind`. It is a replace-all exactly for patterns whose first character does not recur in them
  (`GrowingIsExact`).
* Whether an unfinished message plus the next read passes the size check can depend on how the stream was
  cut. `CutsAgreeExactly` and `SizeLimitIsExact` give the sizes for which it never does, and never fails.
* The glob matcher gives up below sixteen levels of recursion. `DepthLimitIsExact` says for which patterns
  it is right about every string: a question mark costs a level, so does a star with the wildcards right
  behind it, and a star that only wildcards follow costs none.
* A star of the glob matcher may end inside a character. On well-formed text that makes no difference
  (`UnitsAcceptCharacters`); an ill-formed pattern can match there (`HalfMatchesInside`).
* A thread-local slot's version is 32 bits wide: after 2^32 frees an old value is visible again
  (`StaleValueReturns`); `GetIsExact` says when exactly.
* Documentation allows `MergeSequentialAdjustments` only first lists that collapse text; the code deals with
  more. `MergeableMeans` says with which, and the theorems about the merge hold for all of them.
* `QuoteForCommandLineToArgvW` leaves an empty argument and a tab unquoted; `SplitUndoesJoin` gives the
  arguments that survive.
* `GetArgumentsStringInternal` quotes the value of a switch but not its name, so that the item `--a b` comes
  out as two; `ArgumentsReadBack` gives the items that survive.
* A switch written with `=` and nothing behind it loses the `=`; `ReparsingIsExact` says which of these
  are then read differently. A switch name passed with a `=` of its own is filed under one key and
  written under another (`AppendKeepsIndex`).

## Model

| member | source | states |
|---|---|---|
| PendingTasks.Top | libHH/base/pending_task.cpp:28-43 | the top of the delayed queue has the smallest run time and, among equal ones, the smallest sequence number |
| PendingTasks.WithoutTop | libHH/base/message_loop/message_loop.cpp:291-292 | popping removes that task once and nothing else |
| MessagePump.MessagePumpForIO.ScheduleWork | libHH/base/message_loop/message_pump_win.cpp:80-94 | posts a packet only if `work_state_` was READY, and leaves HAVE_WORK behind |
| MessagePump.MessagePumpForIO.MatchCompletedIOItem | libHH/base/message_loop/message_pump_win.cpp:234-247 | removes the first stashed completion of the filter's handler, or of any without a filter, or leaves the stash alone |
| MessagePump.MessagePumpForIO.WaitForIOCompletion | libHH/base/message_loop/message_pump_win.cpp:176-231 | stash before port, wake-up packets reset the state, other handlers' items are stashed; the whole new state; under a filter at most one callback runs, and only of that handler |
| MessagePump.TakeKeepsOrder | libHH/base/message_loop/message_pump_win.cpp:234-247 | taking an item out of the middle of the stash overtakes no item of the same handler |
| MessagePump.WaitKeepsHandlerOrder | libHH/base/message_loop/message_pump_win.cpp:176-247 | under any filter a wait loses, duplicates and reorders no handler's completions |
| MessagePump.FilteredWaitServesItsHandler | libHH/base/message_loop/message_pump_win.cpp:176-247 | under a filter: the oldest stashed item of that handler and the port untouched; or else the oldest of the port, delivered if it is the handler's and stashed if it is another's |
| MessagePump.UnfilteredWaitServesAll | libHH/base/message_loop/message_pump_win.cpp:176-247 | without one nothing is stashed, and the stash goes first |
| MessagePump.OnlyThePumpsOwnPacketIsInternal | libHH/base/message_loop/message_pump_win.cpp:221-231 | an item is taken for a wake-up if and only if both its key and its context are the pump |
| MessagePump.CurrentDelay | libHH/base/message_loop/message_pump_win.cpp:49-59 | -1 exactly for "no timer"; otherwise 0 to 2^31 - 1, never past the due time, and not short of it unless clamped |
| MessagePump.MessagePumpForIO.WaitTimeout | libHH/base/message_loop/message_pump_win.cpp:167-174 | 2^32 - 1, which is INFINITE, exactly when no timer is waiting; otherwise never past the due time, and not short of it unless clamped |
| IncomingTasks.IncomingTaskQueue.AddToIncomingQueue | libHH/base/message_loop/incoming_task_queue.cpp:19-25 | a refused post changes nothing; an accepted one is queued with the time `now + delay`, or 0 without a delay, and wakes the loop exactly when needed |
| IncomingTasks.IncomingTaskQueue.PostPendingTask | libHH/base/message_loop/incoming_task_queue.cpp:69-86 | numbers and pushes the task; the wake-up goes out exactly under the scheduling condition |
| IncomingTasks.IncomingTaskQueue.ScheduleWork | libHH/base/message_loop/incoming_task_queue.cpp:88-95 | forwards one wake-up and sets the flag, or does nothing without a loop |
| IncomingTasks.IncomingTaskQueue.StartScheduling | libHH/base/message_loop/incoming_task_queue.cpp:47-53 | enables scheduling, and wakes the loop exactly if tasks are waiting |
| IncomingTasks.IncomingTaskQueue.ReloadWorkQueue | libHH/base/message_loop/incoming_task_queue.cpp:27-39 | swaps the queues, or clears the flag if nothing is there |
| MessageLoops.MessageLoop.ReloadWorkQueue | libHH/base/message_loop/message_loop.cpp:219-225 | leaves a work queue alone that is not empty, and otherwise swaps in the whole incoming queue or clears the flag |
| MessageLoops.MessageLoop.RunOldestTask | libHH/base/message_loop/message_loop.cpp:243-258 | splits the work queue into delayed tasks moved to the timers, at most one task run, and the rest |
| MessageLoops.MessageLoop.DoWork | libHH/base/message_loop/message_loop.cpp:232-263 | the old backlog is the moved tasks, the task run and the new backlog; false only after a reload that found nothing |
| MessageLoops.WorkSplitIsUnique | libHH/base/message_loop/message_loop.cpp:232-263 | the backlog can be split into moved tasks, the task run and the rest in only one way |
| MessageLoops.MessageLoop.DoDelayedWork | libHH/base/message_loop/message_loop.cpp:265-298 | runs at most the top task, through the cached clock, and records the next time to wake |
| MessageLoops.DelayedTurnIsPunctual | libHH/base/message_loop/message_loop.cpp:265-298 | the task run is due and is the earliest; if none ran, the sleep time is the minimum pending run time, or 0 for none; the clock is read only if nothing is due by the last reading |
| WakeUpSafety.RunsAreSafe | libHH/base/message_loop/message_pump_win.cpp:80-231 | every state of every run satisfies the lock, signal and wake-up invariants |
| WakeUpSafety.KeepsSignals | libHH/base/message_loop/message_pump_win.cpp:80-94 | every step keeps: packets in flight are counted exactly by `work_state_` |
| WakeUpSafety.KeepsWake | libHH/base/message_loop/incoming_task_queue.cpp:27-95 | every step keeps: a loop on its way to sleep has an empty queue or a wake-up on its way |
| WakeUpSafety.NoLostWakeUp | libHH/base/message_loop/incoming_task_queue.cpp:27-95 | a blocked loop with incoming tasks has a packet in the port or a lock holder about to post one |
| WakeUpSafety.AtMostOneWakeUp | libHH/base/message_loop/message_pump_win.cpp:80-94 | packets queued, being posted or not yet acknowledged total 1 under HAVE_WORK and 0 under READY |
| WakeUpSafety.PostersExcludeEachOther | libHH/base/message_loop/incoming_task_queue.cpp:69-95 | no two threads are inside a wake-up at once |
| WakeUpProgress.StepsAreScheduleWork | libHH/base/message_loop/message_pump_win.cpp:80-94 | the exchange and the post of a wake-up, one step each, have the effect of one call of `ScheduleWork` |
| WakeUpProgress.WakeUpsAreNotRepeated | libHH/base/message_loop/incoming_task_queue.cpp:81-95 | in every run, between a finished wake-up and a post that begins the next, the loop has found both queues empty |
| WakeUpProgress.OnlyTheFirstPostWakes | libHH/base/message_loop/incoming_task_queue.cpp:81-83 | a post begins a wake-up if and only if the queue was empty and the loop not told, or every post is to |
| WakeUpProgress.SurroundingsAreFree | libHH/base/message_loop/incoming_task_queue.cpp:69-86 | nothing keeps threads from posting, I/O from completing, time from passing, tasks from waiting and due sleeps from ending |
| WakeUpProgress.LoopStarts | libHH/base/message_loop/incoming_task_queue.cpp:47-53 | from the state the constructors leave, scheduling starts and the loop is entered |
| WakeUpProgress.HolderFinishes | libHH/base/message_loop/incoming_task_queue.cpp:81-95 | the lock holder gets out within three steps, touching neither queue nor loop |
| WakeUpProgress.BlockedLoopGetsItsTasks | libHH/base/message_loop/message_pump_win.cpp:126-231 | from any reachable blocked state with incoming tasks, at most six steps of holder and loop bring them all into the work queue |
| WorkTurns.StepsAreDoWork | libHH/base/message_loop/message_loop.cpp:232-263 | the reload and pop steps, with no post in between, end with the very split that the contract of `DoWork` allows |
| WorkProgress.NextStepAdvances | libHH/base/message_loop/message_pump_win.cpp:126-231 | in every reachable state with tasks waiting, a step of the lock holder or else of the loop is possible and brings the work closer |
| WorkProgress.UndelayedTasksRun | libHH/base/message_loop/message_loop.cpp:232-263 | from every reachable state once the loop runs, a bounded number of steps of holder and loop executes every undelayed task accepted so far |
| WorkProgress.AllTasksRun | libHH/base/message_loop/message_loop.cpp:219-298 | from there, steps of the loop, the holder and the clock run every accepted task exactly once, delayed ones included |
| TaskHistory.RunsKeepHistory | libHH/base/message_loop/message_loop.cpp:219-298 | every state of every run satisfies the conservation, order, timer and completion invariants |
| TaskHistory.TasksAreConserved | libHH/base/message_loop/message_loop.cpp:219-298 | an accepted task is in exactly one of incoming, work, delayed and executed, once |
| TaskHistory.UndelayedRunInPostingOrder | libHH/base/message_loop/message_loop.cpp:232-263 | undelayed tasks run in posting order and none is skipped |
| TaskHistory.EqualTimesRunInPostingOrder | libHH/base/pending_task.cpp:28-43 | delayed tasks with the same run time run in posting order |
| TaskHistory.TimersAreNeverEarly | libHH/base/message_loop/message_loop.cpp:273-289 | no task runs before its run time, although the clock is cached |
| TaskHistory.PostsAreDelayedAsAsked | libHH/base/message_loop/incoming_task_queue.cpp:60-67 | in every run the task that a post numbers keeps the run time `clock at the post + delay`, or 0 for no delay |
| TaskHistory.DelaysAreWaitedOut | libHH/base/message_loop/incoming_task_queue.cpp:60-67 | it never executes before its delay, counted from the post, is over; without a delay it is an undelayed task |
| TaskHistory.SleepEndsWithDelay | libHH/base/message_loop/message_pump_win.cpp:126-174 | while it waits and the loop sleeps, the sleep ends no later than that, or at once |
| TaskHistory.SleepIsPunctual | libHH/base/message_loop/message_pump_win.cpp:126-174 | a sleeping loop has no work, knows the minimum pending run time (0 for none), and its deadline is exactly that time, or at once if it was overdue, or 2^31 - 1 on if it was further off |
| TaskHistory.CompletionsAreInPortOrder | libHH/base/message_loop/message_pump_win.cpp:176-247 | what a handler saw, what is stashed and what is queued for it are its completions in port order |
| TaskHistory.FilteredWaitsServeOneHandler | libHH/base/message_loop/message_pump_win.cpp:176-247 | in every run, while the loop thread waits only for one handler, no other handler's callback runs |
| OffsetAdjuster.AdjustOffset | libHH/base/strings/utf_offset_string_conversions.cc:38-54 | the loop computes the recursive meaning of the edit list |
| OffsetAdjuster.UnadjustOffset | libHH/base/strings/utf_offset_string_conversions.cc:68-85 | the same for the reverse direction |
| OffsetAdjuster.AdjustOffsets | libHH/base/strings/utf_offset_string_conversions.cc:27-35 | every offset of the vector is adjusted |
| OffsetAdjuster.AdjustIsUndone | libHH/base/strings/utf_offset_string_conversions.cc:68-85 | unadjusting an adjusted offset gives it back, if no edit removes its whole range |
| OffsetAdjuster.UnadjustIsUndone | libHH/base/strings/utf_offset_string_conversions.cc:38-54 | adjusting an unadjusted offset gives it back, if no edit inserts into nothing |
| OffsetAdjuster.RoundTrips | libHH/base/strings/utf_offset_string_conversions.cc:38-85 | the two directions undo each other if and only if those conditions hold |
| AdjustmentMerge.Adjustments.MergeSequentialAdjustments | libHH/base/strings/utf_offset_string_conversions.cc:88-176 | the in-place loop leaves the merged list; nothing is left half collapsed at its end |
| MergeComposition.MergeComposes | libHH/base/strings/utf_offset_string_conversions.cc:88-176 | without a clash, adjusting by the merged list is adjusting twice, from every state of the loop between two edits of the second list |
| MergeExactness.MergeFails | libHH/base/strings/utf_offset_string_conversions.cc:137-164 | with a clash, some offset is adjusted differently |
| MergeExactness.MergeIsComposition | libHH/base/strings/utf_offset_string_conversions.cc:88-176 | merging is composition on every offset and npos if and only if no edit of the second list clashes with one of the first |
| MergeOrder.MergedIsSorted | libHH/base/strings/utf_offset_string_conversions.cc:104-165 | the merged list is sorted and disjoint if and only if no edit of the second list starts strictly inside what a copied edit of the first left |
| MergeDomain.MergeableMeans | libHH/base/strings/utf_offset_string_conversions.cc:127-163 | the loop can deal with two sorted lists if and only if each edit of the first that goes into one of the second collapses the text, and each other one that expands it has no edit starting strictly inside what it left |
| MergeDomain.CollapsingIsMergeable | libHH/base/strings/utf_offset_string_conversions.h:77-80 | it can deal with any second list if the first only collapses text |
| UnicodeOffsets.ConvertUnicode | libHH/base/strings/utf_offset_string_conversions.cc:184-217 | output, recorded edits and success flag for any encoding |
| UnicodeOffsets.ConversionAdjustsBoundaries | libHH/base/strings/utf_offset_string_conversions.cc:205-215 | the recorded edits take every character boundary to its place in the output |
| UnicodeOffsets.ConversionAdjustsInteriors | libHH/base/strings/utf_offset_string_conversions.cc:205-215 | an offset inside a character goes to npos exactly if the character changed its length |
| UnicodeOffsets.ConversionRoundTrips | libHH/base/strings/utf_offset_string_conversions.cc:205-215 | the recorded list is sorted and invertible in both directions |
| StringReplace.StringBuffer.ReplaceSubstringsAfterOffset | libHH/base/strings/string_util.cc:703-807 | first match, same length and shrinking equal the functional replacement; growing equals the backward pass |
| ReplaceMeaning.ReplacingRejoins | libHH/base/strings/string_util.cc:703-734 | replace-all takes the string apart at the matches found from the left and joins the pieces with the replacement |
| ReplaceMeaning.ReplacingFirst | libHH/base/strings/string_util.cc:716-720 | replacing the first match changes that match only |
| ReplaceMeaning.EveryStringIsCut | libHH/base/strings/string_util.cc:703-807 | every string can be taken apart so |
| StringReplace.StringBuffer.ReplaceSameLength | libHH/base/strings/string_util.cc:723-734 | replacing in place equals the functional replace-all, for every pattern |
| StringReplace.StringBuffer.ReplaceShrinking | libHH/base/strings/string_util.cc:741-765 | alternating replace and memmove equals it too; unread text is never overwritten |
| StringReplace.StringBuffer.ReplaceGrowing | libHH/base/strings/string_util.cc:767-806 | the forward count, the resize and the backward loop, as they are |
| StringReplace.StringBuffer.MeasureGrowth | libHH/base/strings/string_util.cc:774-786 | counts exactly the left-to-right matches and ends at the last one |
| StringReplace.ShrinkingTurnReplaces | libHH/base/strings/string_util.cc:746-762 | one turn brings the string one match closer to the replace-all |
| StringReplace.RFindIsLast | libHH/base/strings/string_util.cc:790-792 | `rfind` skips no later occurrence |
| GrowingReplace.BackwardPassReplaces | libHH/base/strings/string_util.cc:789-806 | from any match on, the backward loop finishes the replace-all, if the first character does not recur |
| GrowingReplace.GrowingReplacesAll | libHH/base/strings/string_util.cc:767-806 | growing equals replace-all for such patterns, on every string, offset and longer replacement |
| GrowingReplace.RecurringFirstFails | libHH/base/strings/string_util.cc:790-792 | for any other pattern, a string and a replacement on which the backward loop misses its matches |
| GrowingReplace.GrowingIsExact | libHH/base/strings/string_util.cc:767-806 | growing is replace-all if and only if the first character does not recur |
| ChannelReader.ChannelReader.TranslateMessages | libHH/ipc/ipc_channel_reader.cpp:84-105 | hands on every complete message in order and stops at the unparsed rest; each message has positive size |
| ChannelReader.ChannelReader.TranslateInputData | libHH/ipc/ipc_channel_reader.cpp:62-137 | succeeds exactly if the size checks pass; queues the messages of buffer plus input, except where the input does not fit the buffer; keeps the rest, or nothing after a failure |
| ChannelReader.ChannelReader.HandleTranslatedMessage | libHH/ipc/ipc_channel_reader.cpp:139-152 | internal messages go to their handler, the others to the queue; which are internal, `WrittenIsInternal` says |
| ChannelReader.ChannelReader.DispatchMessages | libHH/ipc/ipc_channel_reader.cpp:159-168 | dispatches the queue in order and empties it |
| ChannelReader.ChannelReader.CheckMessageSize | libHH/ipc/ipc_channel_reader.cpp:170-177 | a size above the limit clears the buffer |
| ChannelReader.ChannelReader.AsyncReadComplete | libHH/ipc/ipc_channel_reader.cpp:41-47 | one read: messages dispatched and rest buffered; or an error, after which the messages handled stay queued |
| ChannelReader.ChannelReader.ProcessIncomingMessages | libHH/ipc/ipc_channel_reader.cpp:21-39 | a whole sequence of reads, up to the one that does not succeed: what was dispatched before it, what an earlier error had left in the queue first of all, and what stays queued if it failed a size check |
| ChannelReader.ParseStep | libHH/ipc/ipc_message.cpp:55-74 | one step of the parse; a found message has at least a header's size |
| WrittenMessages.WrittenIsInternal | libHH/ipc/ipc_channel_reader.cpp:50-54 | a message written field by field is internal if and only if its routing word is -2 and its type word 0xFFFF |
| WrittenMessages.ParsingUndoesWriting | libHH/ipc/ipc_message.cpp:55-74 | a stream of written messages is cut into just those messages |
| WrittenMessages.WrittenMessagesArrive | libHH/ipc/ipc_channel_reader.cpp:21-168 | however it is cut into reads, if no size check fails, the listener gets the messages that are not hellos and the internal handler the hellos, in order |
| WrittenMessages.WholeMessageIsHandled | libHH/ipc/ipc_channel_reader.cpp:41-168 | a whole message in one read is handled whatever its size, and goes where its header says |
| WrittenMessages.HeaderIsChecked | libHH/ipc/ipc_channel_reader.cpp:98-102 | the front of a message is kept if and only if its header announces at most 128 MB |
| WrittenMessages.TooMuchIsTurnedAway | libHH/ipc/ipc_channel_reader.cpp:72-80 | a read that with what is left over comes to more than 128 MB is turned away, and nothing of it is handled |
| WrittenMessages.TheRestIsHandled | libHH/ipc/ipc_channel_reader.cpp:62-137 | of any other read, all the messages that it completes are handled |
| WrittenMessages.AnnouncedSize | libHH/base/pickle.cpp:303-324 | a header announces 16 bytes more than its payload word, or the largest `size_t`, here of 32 bits; less than a header announces nothing |
| WrittenMessages.HelloBytes | libHH/ipc/ipc_message.h:98-103 | the bytes of the hello message on the wire |
| Chunking.ParseConcat | libHH/ipc/ipc_channel_reader.cpp:62-137 | parsing may stop anywhere and go on with what was left |
| Chunking.ChunkingDoesNotMatter | libHH/ipc/ipc_channel_reader.cpp:62-168 | if no size check fails, messages and buffer are those of the whole stream |
| Chunking.SameStreamSameMessages | libHH/ipc/ipc_channel_reader.cpp:62-168 | two ways to cut one stream give the same result |
| Chunking.DispatchedIsTheStream | libHH/ipc/ipc_channel_reader.cpp:21-168 | if no size check fails, the messages dispatched and those handled internally are those of the whole stream, and none stays queued |
| Chunking.HandledAreFirstMessages | libHH/ipc/ipc_channel_reader.cpp:62-137 | whether or not a size check fails, the messages handled before and in the failing read are the first of the stream, in order |
| Chunking.FailuresKeepOrder | libHH/ipc/ipc_channel_reader.cpp:21-168 | so neither the listener nor the internal handler gets a message twice or out of order |
| Chunking.SmallMessagesPass | libHH/ipc/ipc_channel_reader.cpp:74-75 | small enough messages and reads never fail a size check |
| Chunking.SizeLimitIsExact | libHH/ipc/ipc_channel_reader.cpp:74-102 | no read of a stream of small enough messages ever fails a size check, however it is cut, if and only if an unfinished message and one more read always fit |
| Chunking.CutsAgreeExactly | libHH/ipc/ipc_channel_reader.cpp:74-102 | whether the checks pass is independent of the cut if and only if those sizes fit; if not, some stream passes byte by byte and fails in another cut |
| Chunking.ReadBufferIsSafe | libHH/ipc/ipc_channel.h:52-55 | the same for the reader's own buffer of 4096 bytes: messages of up to 128 MB less a read, plus one byte |
| ThreadLocalStorage.ScanFindsFreeSlot | libHH/base/threading/thread_local_storage.cpp:263-279 | the circular scan finds a free slot if and only if one of the 256 is free |
| ThreadLocalStorage.ScanGoesRound | libHH/base/threading/thread_local_storage.cpp:263-279 | it takes the first free slot behind the one assigned last, going round |
| ThreadLocalStorage.StaticSlot.Initialize | libHH/base/threading/thread_local_storage.cpp:250-284 | the slot the scan finds, at its current version, marked in use |
| ThreadLocalStorage.StaticSlot.Free | libHH/base/threading/thread_local_storage.cpp:286-295 | the slot is free and its version, modulo 2^32, one higher |
| ThreadLocalStorage.StaticSlot.Get | libHH/base/threading/thread_local_storage.cpp:297-308 | the thread's entry if the version matches, null otherwise |
| ThreadLocalStorage.StaticSlot.Set | libHH/base/threading/thread_local_storage.cpp:310-319 | writes value and version into this thread's entry only |
| TlsRefinement.RunsKeepInv | libHH/base/threading/thread_local_storage.cpp:250-319 | every run keeps slots distinct, versions in step and entries tied to the allocation they were written in |
| TlsRefinement.GetIsExact | libHH/base/threading/thread_local_storage.cpp:297-308 | in every run, `Get` returns what this thread last set in this allocation if and only if no leftover's version has come round |
| TlsRefinement.GetIsRight | libHH/base/threading/thread_local_storage.cpp:297-308 | so always, with fewer than 2^32 frees of the slot |
| TlsRefinement.CallersAreFree | libHH/base/threading/thread_local_storage.cpp:250-319 | any new allocation can be made in a run, and any live one used or freed by any thread |
| TlsRefinement.LiveSlotsAreDistinct | libHH/base/threading/thread_local_storage.cpp:263-279 | live allocations never share a slot |
| TlsWraparound.StaleValueReturns | libHH/base/threading/thread_local_storage.cpp:286-292 | a reachable state, after exactly 2^32 frees of the slot, in which a thread reads a value of an allocation that many frees ago |
| Pattern.StarAbsorbs | libHH/base/strings/pattern.cc:110-113 | collapsing the wildcards behind a star does not change the meaning |
| Pattern.MatchesEmpty | libHH/base/strings/pattern.cc:82-87 | the empty string is matched exactly by wildcards alone |
| Pattern.AcceptsIsSound | libHH/base/strings/pattern.cc:71-133 | whatever the recursion accepts, at any depth, is a match |
| Pattern.AcceptsIsComplete | libHH/base/strings/pattern.cc:71-133 | every match is accepted if the levels of the pattern fit |
| Pattern.AcceptingTakesLevels | libHH/base/strings/pattern.cc:75-120 | on a string that leaves work for every question mark, accepting takes all the levels of the pattern |
| Pattern.TooDeepFails | libHH/base/strings/pattern.cc:75-77 | for every pattern of more than sixteen levels that can match at all, a match that is not accepted |
| Pattern.DepthLimitIsExact | libHH/base/strings/pattern.cc:71-133 | the matcher is right about every string if and only if the pattern has at most sixteen levels, or matches nothing |
| Pattern.SixteenAreUnderstood | libHH/base/strings/pattern.cc:75-77 | n question marks, or n stars with a letter behind each, are understood on every string if and only if n is at most 16 |
| PatternUnits.EatSameChars | libHH/base/strings/pattern.cc:19-59 | on any two texts, eating the common prefix, escapes included, keeps what the matcher accepts; stopping at a literal means it accepts nothing |
| PatternUnits.EatWildcard | libHH/base/strings/pattern.cc:61-69 | eats the wildcards in front and no more |
| PatternUnits.MatchPatternT | libHH/base/strings/pattern.cc:71-133 | on any two texts and at every depth, the loops over code units accept what the specified recursion accepts |
| PatternUnits.SuffixIsAligned | libHH/base/strings/pattern.cc:115-120 | the star branch tries every unit, but in well-formed text only a suffix that starts at a character is accepted |
| PatternUnits.UnitsAcceptCharacters | libHH/base/strings/pattern.cc:71-133 | on well-formed text, the recursion over code units accepts what the recursion over characters does |
| PatternUnits.UnitsMatchIsExact | libHH/base/strings/pattern.cc:71-133 | so the matcher is right about every well-formed string if and only if the pattern has at most sixteen levels, or matches nothing |
| UtfReading.Utf16IsCoding | libHH/base/third_party/icu/icu_utf.h:363-373 | the UTF-16 macro undoes the encoding of every character, and read from the middle of one gives none |
| UtfReading.Next16IsExact | libHH/base/third_party/icu/icu_utf.h:363-373 | and it gives a character only for the encoding of one, and an unpaired surrogate as itself |
| UtfReading.HalfMatchesInside | libHH/base/strings/pattern.cc:115-120 | in an ill-formed pattern, half a surrogate pair is found inside a character |
| UtfReading.Utf8IsCoding | libHH/base/third_party/icu/icu_utf.cc:132-225 | the UTF-8 macro with its checks for trail bytes, shortest form, range and surrogates does the same |
| UtfReading.Next8IsExact | libHH/base/third_party/icu/icu_utf.cc:132-225 | and it gives a character only for the encoding of one |
| UtfReading.Next8SkipsTrails | libHH/base/third_party/icu/icu_utf.cc:192-223 | where it gives none, how many bytes it goes past |
| UtfReading.MatchPattern8 | libHH/base/strings/pattern.cc:157-161 | on UTF-8, true only for a match, and exact for patterns of at most sixteen levels |
| UtfReading.MatchPattern16 | libHH/base/strings/pattern.cc:163-167 | the same on UTF-16 |
| ArgumentQuoting.QuoteForCommandLineToArgvW | libHH/base/command_line.cpp:108-153 | the loop computes the quotation |
| ArgumentQuoting.QuotedWhereNeeded | libHH/base/command_line.cpp:112-120 | an argument is put in quotes if and only if it has a space, backslash, quote or, with placeholders, a per cent sign |
| ArgumentQuoting.SplitEscaped | libHH/base/command_line.cpp:124-150 | inside quotes the escaped text reads back as the argument, and the closing quote closes |
| ArgumentQuoting.GoodArgumentsReadBack | libHH/base/command_line.cpp:108-153 | splitting the space-joined quotations gives back the arguments, with and without placeholder quoting |
| ArgumentQuoting.TokensAreGood | libHH/base/command_line.cpp:112-120 | no splitting of a joined line yields an empty argument, or a tab in an argument that would not have been quoted |
| ArgumentQuoting.SplitUndoesJoin | libHH/base/command_line.cpp:108-153 | the round trip holds if and only if no argument is empty and every tab is in an argument that is quoted anyway |
| CommandLines.CommandLine.InitFromArgv | libHH/base/command_line.cpp:273-280 | the parsed command line, and a lookup map that mirrors the switches |
| CommandLines.CommandLine.AppendSwitchesAndArguments | libHH/base/command_line.cpp:79-104 | trims, stops at the terminator, keeps switches before arguments |
| CommandLines.CommandLine.AppendSwitchNative | libHH/base/command_line.cpp:330-352 | lower-cases the name, files the value under the key without prefix, inserts the text before the arguments |
| CommandLines.CommandLine.AppendArgNative | libHH/base/command_line.cpp:392-394 | appends behind everything |
| CommandLines.CommandLine.ResetStringPieces | libHH/base/command_line.cpp:479-485 | afterwards the lookup map has the switches' keys and points into the object's own map, whatever it held before |
| CommandLines.CommandLine.Copy | libHH/base/command_line.cpp:181-186 | a copy looks switches up in its own map |
| CommandLines.CommandLine.Assign | libHH/base/command_line.cpp:188-194 | so does an object assigned to, itself included |
| CommandLines.TakenOverIsNoMirror | libHH/base/command_line.cpp:479-485 | a lookup map taken over from another object is no mirror unless there are no switches |
| CommandLines.CommandLine.GetSwitchValueNative | libHH/base/command_line.cpp:318-324 | the value filed in `switches_`, reached through the pointer in the lookup map |
| CommandLines.LastOccurrenceWins | libHH/base/command_line.cpp:340-343 | the index gives the value of a key's last occurrence |
| CommandLines.IndexHasTheKeys | libHH/base/command_line.cpp:340-343 | and has exactly the keys that occur |
| SwitchNames.TrimMeans | libHH/base/strings/string_util_constants.cc:11-36 | trimming takes the 25 white space characters off both ends and nothing else |
| SwitchNames.SwitchMeans | libHH/base/command_line.cpp:48-76 | text is a switch if and only if it has a prefix and something behind; its name ends at the first equals sign |
| SwitchNames.FilingMeans | libHH/base/command_line.cpp:330-352 | a switch appended under any spelling is filed under its lower-case name, lower case by table, and written with its prefix or two dashes |
| SwitchNames.SwitchItemMeans | libHH/base/command_line.cpp:79-104 | the same for an item of a command line with white space around it |
| SwitchNames.ArgumentItemMeans | libHH/base/command_line.cpp:79-104 | any other item, and every item behind the terminator, is an argument |
| SwitchNames.AbsorbedKeysHaveNoCapitals | libHH/base/command_line.cpp:330-352 | no switch is ever filed under a name with a capital letter |
| SwitchNames.ParsedKeysHaveNoCapitals | libHH/base/command_line.cpp:273-280 | in particular not by parsing |
| CommandLines.AppendKeepsIndex | libHH/base/command_line.cpp:330-352 | appending a switch keeps `switches_` the index of `argv_[1..begin_args_)` if and only if its name has no '=' |
| CommandLines.ParsedIsIndexed | libHH/base/command_line.cpp:273-280 | after parsing, `switches_` is the index of `argv_[1..begin_args_)` |
| CommandLineReparse.ArgsAreStable | libHH/base/command_line.cpp:79-104 | the arguments of a parsed line hold no further switch and are not changed by parsing again |
| CommandLineReparse.TextReadsAsSwitch | libHH/base/command_line.cpp:345-351 | the text of a switch is read as a switch again if and only if the switch is kept |
| CommandLineReparse.ReparsingIsExact | libHH/base/command_line.cpp:273-280 | parsing `argv_` again reproduces `argv_`, `switches_` and `begin_args_` if and only if every switch is kept |
| CommandLines.CommandLine.GetArgumentsStringInternal | libHH/base/command_line.cpp:448-477 | the loop writes the items one space apart, quoting an argument whole and of a switch only the value |
| ArgumentsString.ItemReads | libHH/base/command_line.cpp:459-474 | an item that reads back alone is the next argument that splitting finds, whatever follows |
| ArgumentsString.ItemIsLost | libHH/base/command_line.cpp:459-474 | any other item is not |
| ArgumentsString.ArgumentsReadBack | libHH/base/command_line.cpp:448-477 | splitting the arguments string gives back `argv_` behind the program if and only if no argument is empty or has an unquoted tab, and no switch has a space, tab or quote in its name, an unquoted tab in its value, or an `=` without a value |
| CheckedMath.SignOfTest | libHH/base/numerics/safe_math_impl.h:117-128 | what the sign bit of the complemented exclusive-ors says about the operands' sign bits |
| CheckedMath.AddIsExact | libHH/base/numerics/safe_math_impl.h:134-155 | `CheckedAdd` gives the wrapped sum, and reports overflow and underflow exactly |
| CheckedMath.SubIsExact | libHH/base/numerics/safe_math_impl.h:157-178 | the same for the difference |
| CheckedMath.MulWideIsExact | libHH/base/numerics/safe_math_impl.h:184-194 | the product in the type of twice the width never wraps, and is checked exactly |
| CheckedMath.MulByDivisionIsExact | libHH/base/numerics/safe_math_impl.h:196-236 | the division test of each sign combination is exact on all inputs |
| CheckedMath.DivTruncates | libHH/base/numerics/safe_math_impl.h:196-236 | the quotient of the division used there goes towards zero |
| CheckedMath.NegIsExact | libHH/base/numerics/safe_math_impl.h:273-293 | negation, signed and unsigned |
| CheckedMath.AbsIsExact | libHH/base/numerics/safe_math_impl.h:295-313 | absolute value |
| CheckedMath.ChainsAreExact | libHH/base/numerics/safe_math.h:221-242 | any expression is valid if and only if every intermediate mathematical value is in range, and then its value is exact |
| CheckedMath.CheckedNumeric.AddAssign | libHH/base/numerics/safe_math.h:243-250 | compound assignment keeps the variable the value of its expression |
| CheckedMath.CheckedNumeric.ValueOrDefault | libHH/base/numerics/safe_math.h:88-93 | the mathematical value if every step was in range, the default otherwise |
| NumberStrings.ExceedsMaxIsExact | libHH/base/strings/string_number_conversions.cc:211-219 | the check before a digit fails if and only if the number with the digit exceeds the maximum |
| NumberStrings.ExceedsMinIsExact | libHH/base/strings/string_number_conversions.cc:227-235 | the same for the minimum, with truncating division and remainder |
| NumberStrings.ParseDigits | libHH/base/strings/string_number_conversions.cc:174-206 | for any text: the value of its leading digits, clamped to the type; valid if and only if all are digits and the value fits |
| NumberStrings.Appended | libHH/base/strings/string_number_conversions.cc:196-203 | after a passed check neither the multiplication nor the addition leaves the type |
| NumberStrings.ToNumber | libHH/base/strings/string_number_conversions.cc:136-163 | white space, sign and digits |
| NumeralTables.DigitsByTable | libHH/base/strings/string_number_conversions.cc:62-90 | a character is the digit d of a base if and only if it is at place d of the lower-case or upper-case table |
| NumeralTables.ParsingMeans | libHH/base/strings/string_number_conversions.cc:136-240 | what any text parses as: white space, sign, hexadecimal prefix, digits by table, rest; valid if and only if there are no white space and no rest, and the value fits |
| NumberStrings.ParsingIsExact | libHH/base/strings/string_number_conversions.cc:136-240 | a numeral with an optional sign parses if and only if its value fits, and saturates if not |
| NumberStrings.UnsignedAbsIsExact | libHH/base/numerics/safe_math_impl.h:315-333 | the absolute value is valid in the unsigned type for every value, the minimum included |
| NumberStrings.IntToString | libHH/base/strings/string_number_conversions.cc:25-55 | the decimal text; the buffer's first place is never reached |
| NumberStrings.BytesNeedFewDigits | libHH/base/strings/string_number_conversions.cc:26-29 | a number of n bytes has fewer than 3n digits, for every n from two on |
| NumberStrings.ParsingUndoesPrinting | libHH/base/strings/string_number_conversions.cc:25-240 | parsing a printed value gives the value, for every value of the type |
| NumberStrings.HexEncode | libHH/base/strings/string_number_conversions.cc:447-459 | two digits a byte, in order |
| NumberStrings.HexStringToBytes | libHH/base/strings/string_number_conversions.cc:286-300 | true exactly for a non-empty even number of hexadecimal digits; the output holds the pairs before the first bad one |
| NumberStrings.DecodingUndoesEncoding | libHH/base/strings/string_number_conversions.cc:286-300 | decoding encoded bytes gives the bytes |
| NumeralTables.SpelledBytesDecode | libHH/base/strings/string_number_conversions.cc:286-300 | bytes spelled with digits of either case decode to the bytes, up to the first pair that is none |
| NumeralTables.EncodedIsSpelled | libHH/base/strings/string_number_conversions.cc:447-459 | encoding writes the upper-case digits, the high one of a byte first |
| StringTokenizer.StringTokenizer.QuickGetNext | libHH/base/strings/string_tokenizer.h:171-185 | the next token of the quick form |
| StringTokenizer.StringTokenizer.FullGetNext | libHH/base/strings/string_tokenizer.h:188-207 | the next token of the full form |
| StringTokenizer.QuickIsFull | libHH/base/strings/string_tokenizer.h:171-240 | without quote characters and options the two forms agree on every call |
| StringTokenizer.TokensAreFullTokens | libHH/base/strings/string_tokenizer.h:128-133 | so `GetNext` yields the token sequence of the full form in every configuration |
| QuotedTokens.QuotedSectionsAreOneToken | libHH/base/strings/string_tokenizer.h:188-240 | in every configuration: plain characters and quoted sections, with escapes and any delimiters inside, are one token up to a delimiter or the end; delimiters in front are skipped unless returned |
| QuotedTokens.UnclosedQuoteRunsToTheEnd | libHH/base/strings/string_tokenizer.h:225-240 | a quote that is never closed takes the rest of the text into the token |
| StringTokenizer.DelimsReturnedLosesNothing | libHH/base/strings/string_tokenizer.h:198-201 | with RETURN_DELIMS and any quote characters the tokens concatenate to the input |
| StringTokenizer.MarkedTokensAreDelims | libHH/base/strings/string_tokenizer.h:198-201 | a token is marked exactly if it is one returned delimiter |
| StringTokenizer.OnlyDelimsAreLost | libHH/base/strings/string_tokenizer.h:171-185 | without options the tokens concatenate to the input without its delimiters |
| StringTokenizer.TokensAreMaximal | libHH/base/strings/string_tokenizer.h:171-185 | and each is a maximal run of other characters |

## Left out

- Operating system: the completion port is a queue whose posts succeed, so the recovery at `message_pump_win.cpp:92-93` is not modelled; the clock is a number that never goes back; handles, Qt sockets and native TLS keys do not appear.
- Nested `Run`, `Quit`, idle work and destruction of the loop: the transition system is one top-level loop that never quits, so `DoRunLoop` appears as its steps and not as a method.
- Memory ordering: interlocked operations are atomic steps. Sequence numbers are unbounded.
- OffsetAdjuster.AdjustOffset: offsets are unbounded integers, so the casts to `int` and the wrap-around of `size_t` are not modelled; the same holds for UnadjustOffset and the merge.
- UnicodeOffsets.ConvertUnicode: the encodings are a parameter that reads and writes at least one unit per character.
- StringReplace.StringBuffer.ReplaceGrowing: a length that would wrap around ends the model without a result, where the program goes on with a wrapped `size_t`.
- ChannelReader.ChannelReader.TranslateInputData: buffer capacities and the sender process id stamped on a message are not modelled.
- ThreadLocalStorage.StaticSlot.Initialize: destructors at thread exit, and the use of a slot after all 256 were taken, are not modelled.
- PatternUnits.UnitsMatchIsExact: what a pattern means is said for well-formed text; for other text there is only the recursion that `MatchPatternT` is proved to compute.
- CommandLines.CommandLine.AppendSwitchNative: the conversions between UTF-16 and ASCII are the identity, as they are for the ASCII names the code requires; a pointer into a map is the object that owns the map and a key.
- ArgumentQuoting.SplitUndoesJoin: the rules for arguments, not the different ones for the program name.
- ArgumentsString.ArgumentsReadBack: the Windows build, where arguments are quoted; the program in front of them, which `GetCommandLineStringInternal` adds, is left out for the same reason.
- CheckedMath.ChainsAreExact: +, -, *, negation and absolute value of one type of 32 or 64 bits; no division, mixed types, narrower types or floating point.
- NumberStrings.ToNumber: what counts as white space is a parameter; floating-point text is left out.
- Thread-safe singletons, reference counting, weak pointers, logging, process launching, parameter serialisers and the channel proxy, whose claims are easier or rest on code outside the repository.
