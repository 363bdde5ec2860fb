# Verification of the LTest runtime

LTest runs the methods of a concurrent object as tasks that yield at every access to shared
memory, records invokes and responses, and asks a checker whether the history is linearizable.
This project models the parts of it that carry that promise, and proves them.

- **The checkers** (`Histories`, `SequentialHistories`, `Search`, `Lincheck`, `LincheckRecursive`).
  Linearizability is defined in `Histories` without reference to any algorithm, and
  `SequentialHistories` says what it comes to in terms of the specification object alone. The
  memoising loop and the recursive backtracker are both proved to decide it, for all well-formed histories and all total deterministic
  specifications. The cache is safe because each of its entries is on the current path or a dead end.
- **Exhaustive exploration** (`Tasks`, `Schedules`, `Paths`, `TlaScheduler`). Tasks are deterministic step
  machines over a shared state. `Schedules` says which bounded schedules exist and what they do, and
  `Paths` what that means for a schedule read by itself; the mutually recursive explorer is proved to check each of them once, and to restore everything
  it touched by popping its records and replaying the target.
- **Rounds** (`Playback`, `Rounds`, `Greedy`, `Minimization`, `Parity`). `Playback` is the reference: what resuming
  tasks in a given order does. Generated, explored and replayed rounds are proved to be such plays,
  and the greedy minimizors to keep a rejected history of exactly the remaining tasks. Events refer
  to slots, so a history is judged together with the return values the slots hold at that time.
- **Concurrent targets** (`RingBuffer`, `RWSpinLock`, `FutexMutex` with `MutexVerifier`,
  `GuardedQueue`). Each atomic access is one step, any number of threads interleave, and the
  properties hold after every run. `Effects` says when a history of calls and returns is
  linearizable; the locks and the guarded queue are, and the ring buffer is not (`RingLimits`),
  although its methods are those of a bounded queue when they do not overlap.
- **Support** (`StableVector`, `RoundRobin`, `YieldPass`): the container that never moves an element,
  the fair choice of threads, and the insertion of yields.

Parameters stand for what is outside: a specification is an arbitrary function with a comparison of
return values and a cache equality, a target an arbitrary step function with a bound on the steps of
a task, the argument of a task a function of its constructor and thread. Random picks and shuffles
are arbitrary choices.

Where the code and what it says about itself differ:

- The comment above `Check` (runtime/include/lincheck.h:126) asks for a response to each invoke; the
  code handles pending invokes, and the theorem covers them.
- `ReplayRound` intends to complete a task at its last entry (runtime/include/scheduler.h:441-444).
  The count is still positive there, so it resumes the task once, like any other entry; a replay may
  leave tasks unfinished.
- Removing a pair of tasks asserts that the history found has an even number of events
  (runtime/minimization.cpp:65-67). That can fail: `Parity` has an interleaving whose minimization is
  aborted, as a replay may leave a task pending. `Given.Search` says exactly when it does,
  `GenerousSucceeds` gives a condition on the interleaving under which it does not, and for the
  exploring minimizor `OnTasksRemoved` shows that it never does.
- The ring buffer is specified as a bounded queue, which it is not: `RingLimits.FullWithRoom` and
  `RingLimits.EmptyWithValue` are runs that no order of their operations explains. `FullIsExact` and
  `EmptyIsExact` say exactly when its answers are right.
- `pop_back` of the segmented vector indexes one block past its table at the single size 2^30
  (`PopLeavesTable`), so `PopBack` and `Resize` ask callers to stay off it.

`dafny verify dfyconfig.toml` checks the whole project.

## Model

| member | source | states |
|---|---|---|
| `Lincheck.Check` | runtime/include/lincheck.h:129-247 | For every well-formed history, pending invokes included, and every total deterministic specification whose cache equality implies equal states (never equal is allowed): the loop returns true exactly when the history is linearizable in the textbook sense. It terminates even if no lookup in the cache ever succeeds. |
| `LincheckRecursive.RecursiveStep` | runtime/include/lincheck_recursive.h:63-124 | Decides whether the operations not yet linearized can be completed from the given state. When it answers no, the shared bitmap is as it found it; when it answers yes, every entry is set. |
| `LincheckRecursive.Check` | runtime/include/lincheck_recursive.h:46-128 | The backtracker decides linearizability, the empty history included, with nothing asked of the cache equality. |
| `LincheckRecursive.CheckersAreTheSame` | test/runtime/lin_check_test.cpp:246-268 | Both checkers give the same verdict on every well-formed history of every specification. |
| `SequentialHistories.SequentialVerdict` | runtime/include/lincheck.h:160-176 | A history without overlap is linearizable if and only if the specification object, run through its calls from the first state on, returns every recorded value. |
| `SequentialHistories.LinearizableMeans` | runtime/include/lincheck.h:160-176 | Any well-formed history is linearizable if and only if the specification object can be run, state by state, through an order of calls that has every answered one, none twice and none before one that was answered before it was made, so that it returns every answer. |
| `Search.ResponseMap` | runtime/lin_check.cpp:8-27 | The map is defined exactly on the completed invokes and sends each to the later response of the same task. |
| `Search.ResponseMapInjective` | runtime/lin_check.cpp:8-27 | Two different invokes are never paired with the same response. |
| `Search.Problem.ForcedIsLinearizable` | runtime/include/lincheck.h:172-183 | Insisting on every pending operation, with whatever result, accepts exactly the histories that are accepted when pending operations may be dropped. |
| `Search.Problem.AppendDropped` | runtime/include/lincheck.h:172-183 | A linearization that drops pending operations extends to one with all of them, in an order that still respects real time. |
| `Search.Problem.FirstIsMinimal` | runtime/include/lincheck.h:218-223 | A completion can only begin with an operation that no unlinearized response precedes, which is why both checkers stop at a response. |
| `Search.Problem.RestOfCompletion` | runtime/include/lincheck.h:201-211 | Taking the first operation of a completion leaves a completion of the longer bitmap from the next state. |
| `Search.Problem.ExtendCompletable` | runtime/include/lincheck.h:201-211 | Conversely a completion after a fitting minimal operation gives one that begins with it. |
| `Search.Problem.PendingAreCompletable` | runtime/include/lincheck.h:172-183 | When only pending operations are left a completion exists, as methods are total. |
| `Search.ExhaustedIsDead` | runtime/include/lincheck.h:218-223 | A node whose operations before the next response are all dead ends has no completion. |
| `Search.ScanStaysInside` | runtime/include/lincheck.h:150-156 | While entries are missing from the bitmap the index stays inside the history, even after the last pending invoke. |
| `Lincheck.HitIsDeadEnd` | runtime/include/lincheck.h:185-198 | A hit in the cache prunes nothing: the bitmap and state found there are a dead end, as a node on the current path has a smaller bitmap. |
| `Lincheck.Open` | runtime/include/lincheck.h:201-211 | Descending keeps the search path a path and every cache entry either on it or a dead end. |
| `Lincheck.Close` | runtime/include/lincheck.h:219-243 | Giving a section up makes its node a dead end and keeps the same of the cache. |
| `Lincheck.SuccessReachesRoot` | runtime/include/lincheck.h:150-151 | When the bottom of the path is complete, so is the root: the initial state has a completion. |
| `Lincheck.RankAdvance` | runtime/include/lincheck.h:212-217 | The rank of a search position, its open sections and index read as odd and even digits in base `2n + 2`, rises when the index moves on. |
| `Lincheck.RankOpen` | runtime/include/lincheck.h:205-211 | It rises when a section is opened, although the index returns to 0. |
| `Lincheck.RankClose` | runtime/include/lincheck.h:225-243 | It rises when a section is closed, although the stack gets shorter. |
| `Lincheck.BudgetPositive` | runtime/include/lincheck.h:150-243 | What is left to the bound of the rank stays positive; it falls in every iteration, so the loop ends. |
| `Search.CountAll` | runtime/include/lincheck.h:150 | The counter reaches the length of the history exactly when every entry is linearized. |
| `Lincheck.SetBits` | runtime/include/lincheck.h:178-183 | Marks an operation and its response, if any, and keeps the counter equal to the number of set bits. |
| `Lincheck.ClearBits` | runtime/include/lincheck.h:229-237 | Undoes exactly what the marking of the same operation did, to the bitmap and to the counter. |
| `TlaScheduler.Explorer.Run` | runtime/include/scheduler.h:508-511 | Sound and exhaustive: a returned history is that of a legal schedule, is well formed and is rejected with the tasks as they are; if nothing is returned below the round limit, every schedule that finishes exactly `maxTasks` tasks within the depth and switch limits was checked once and accepted, and the explorer is back in its initial state. No more rounds than the limit are checked, and at the limit what was checked was accepted. |
| `TlaScheduler.Explorer.RunStep` | runtime/include/scheduler.h:694-755 | Checks precisely the complete schedules below the current one, in order, and comes back with frames, threads, histories, counters and shared state as it found them. |
| `TlaScheduler.Explorer.ResumeTask` | runtime/include/scheduler.h:603-692 | Explores one choice; when it neither reports nor stops, everything but the target and the tasks is as before, and those only a replay restores. |
| `TlaScheduler.Explorer.StartTasks` | runtime/include/scheduler.h:726-749 | Tries every constructor in an idle thread and leaves the thread without the task it built. |
| `TlaScheduler.Explorer.Advance` | runtime/include/scheduler.h:620-637 | The step moves the explorer from where a schedule leads to where the longer schedule leads. |
| `TlaScheduler.Explorer.FinishRound` | runtime/include/scheduler.h:639-661 | A complete schedule is put before the checker, counted, and reported exactly if it is rejected. |
| `TlaScheduler.Explorer.Retreat` | runtime/include/scheduler.h:663-691 | Removes exactly the records of the last step. |
| `TlaScheduler.Explorer.Replay` | runtime/include/scheduler.h:557-576 | From any shared state, and any progress of the same tasks, replaying the recorded frames leaves shared state and every task exactly as the original run of those steps did. Every task it restarts has returned. |
| `TlaScheduler.Explorer.TerminateTasks` | runtime/include/scheduler.h:544-554 | Every task returns, and tasks keep their ids, names and arguments. |
| `TlaScheduler.ReplayedNext` | runtime/include/scheduler.h:562-574 | One replayed frame extends the agreement with the original run by one step. |
| `TlaScheduler.WaitingNext` | runtime/include/lib.h:151-158 | A task that a replayed step restarts had returned, as the assertion in `Restart` demands, and the tasks of later steps still have. |
| `TlaScheduler.FramesOf` | runtime/include/scheduler.h:626-627 | The frames of a schedule name, for each step, the task it resumed and whether it was new. |
| `TlaScheduler.ChecksAreExhaustive` | runtime/include/scheduler.h:516-538 | A verdict on the list of schedules is a statement about all complete schedules, none checked twice. |
| `Schedules.Config.Exhaustive` | runtime/include/scheduler.h:521-532 | The list that the recursion walks holds a schedule if and only if it is legal and finishes `maxTasks` tasks with its last step. |
| `Schedules.Config.EnumerateOnce` | runtime/include/scheduler.h:700-750 | The recursion meets no schedule twice. |
| `Schedules.Config.EnumerateExact` | runtime/include/scheduler.h:700-750 | Below every legal schedule it meets exactly the complete schedules that extend it. |
| `Schedules.Config.LegalConsistent` | runtime/include/scheduler.h:623-637 | After every legal schedule the history has an invoke for each task and a response exactly for each returned one. |
| `Schedules.Config.LegalWellFormed` | runtime/include/scheduler.h:653 | The history put before the checker meets its precondition. |
| `Schedules.Config.StepDrops` | runtime/include/scheduler.h:641-645 | Every step uses up a measure of tasks not started and steps not taken, so the recursion ends. |
| `Schedules.Config.NothingAfterComplete` | runtime/include/scheduler.h:639-645 | No choice is enabled after `maxTasks` tasks have finished. |
| `Paths.TasksAreStarts` | runtime/include/scheduler.h:726-749 | The tasks of a thread are, in order, one for each start of the schedule there, with the name of that constructor, its arguments for that thread and the id -1. Over the schedule alone: no more starts than `maxTasks`, none beyond `maxDepth` in a thread, no more than `maxSwitches` continuations of a thread other than that of the step before. |
| `Paths.WhatMayFollow` | runtime/include/scheduler.h:700-750 | A choice extends a legal schedule if and only if it is a start below the limits, where the last task has returned and by one of the constructors, or a continuation of an unfinished last task within the limit of switches. |
| `Paths.PathIsPlay` | runtime/include/scheduler.h:603-637 | Shared object, tasks and history after a schedule are what resuming the last tasks of its threads in that order gives, from the reset object on. |
| `Paths.SlotsShowResponses` | runtime/include/scheduler.h:632-637 | What the checker reads for an answered task is its name, its arguments and the value of its response. |
| `Rounds.RoundScheduler.Next` | runtime/include/pick_strategy.h:34-66 | Picks a task that has not returned; it is new exactly when the last task of its thread has returned, and then only that thread grows, by a task that one of the constructors makes for it, under the next id. |
| `Rounds.RoundScheduler.RunRound` | runtime/include/scheduler.h:331-366 | Every task is one that a constructor makes for its thread. The run is what playing the recorded ordering from a restart gives; the history has exactly `maxTasks` responses, operations of one thread never overlap, and the round is reported exactly when its history is rejected. |
| `Rounds.RoundScheduler.RoundStep` | runtime/include/scheduler.h:338-357 | One step of a round keeps the run equal to playing its ordering and gets nearer to the end. |
| `Rounds.RoundScheduler.ResumeRecorded` | runtime/include/scheduler.h:341-357 | A resumption and its events are one step of playing the ordering, and keep the operations of one thread apart. |
| `Rounds.RoundScheduler.TerminateTasks` | runtime/include/scheduler.h:192-237 | All tasks return, no shape changes, the target is reset and every thread is at its start. |
| `Rounds.RoundScheduler.TerminateStep` | runtime/include/scheduler.h:209-230 | Resumes the first unfinished task of a thread once, or finds that there is none. |
| `Rounds.RoundScheduler.ResetCurrentRound` | runtime/include/scheduler.h:146-157 | The round is as if nothing had run: every task that is not removed is restarted, after it has returned. |
| `Rounds.RoundScheduler.RestartTask` | runtime/include/lib.h:151-163 | Restarts a task that has returned and leaves all others alone. |
| `Rounds.RoundScheduler.SetTasksRemoved` | runtime/include/scheduler.h:77-82 | Takes tasks out of the round, or back in. |
| `Rounds.RoundScheduler.GetTask` | runtime/include/scheduler.h:123-140 | Finds a task with the id, or there is none. |
| `Rounds.RoundScheduler.GetValidTasksCount` | runtime/include/scheduler.h:159-170 | Counts the tasks that are not removed. |
| `Rounds.RoundScheduler.GetNextTaskInThread` | runtime/include/scheduler.h:239-250 | The first task from the scheduled one on that is neither returned nor removed, or the end of the thread. |
| `Rounds.RoundScheduler.NextSchedule` | runtime/include/pick_strategy.h:68-77 | Picks a task that can run; it counts as new exactly when it has not run yet, and then all earlier tasks of its thread have returned. |
| `Rounds.RoundScheduler.SomeThreadIsOpen` | runtime/include/round_robin_strategy.h:28-41 | While a task is left to run some thread can be picked, so the assertion of a deadlock is not reached. |
| `Rounds.RoundScheduler.ExploreOnce` | runtime/include/scheduler.h:372-393 | A run of exactly the tasks that are not removed, each invoked and answered once. |
| `Rounds.RoundScheduler.ExploreRound` | runtime/include/scheduler.h:369-403 | Reports a rejected run of exactly the kept tasks, all returned; without a report `runs` such runs were accepted. |
| `Rounds.RoundScheduler.ReplayRound` | runtime/include/scheduler.h:406-463 | Ends in an exception exactly when some id names no task. Else the outcome is that of playing the given ordering from a restart, whatever ran before: the same history, and reported exactly when it is rejected. Each entry resumes its task at most once, so the branch that would complete a task at its last entry (line 443) is never taken. |
| `Rounds.RoundScheduler.ReplayStep` | runtime/include/scheduler.h:421-454 | An entry either resumes its task once or skips a returned one, and never finds its count of resumptions at 0. |
| `Rounds.CountResumes` | runtime/include/scheduler.h:414-419 | Every id has as many resumptions on its account as it has entries. |
| `Rounds.RoundScheduler.StartNextRound` | runtime/include/pick_strategy.h:79-92 | Leaves no task behind and a reset target. |
| `Rounds.PlayingDetermined` | runtime/include/scheduler.h:405-463 | Replay fidelity: two runs of the same ordering over the same tasks have the same events and leave the same shared state, local states and return values. |
| `Rounds.PlayingVerdict` | runtime/include/scheduler.h:358-366 | The history of a run is well formed, and the verdict on it depends on the ordering alone. |
| `Rounds.SequentialStart` | runtime/include/pick_strategy.h:39-63 | Starting a task where all earlier ones have returned keeps the operations of a thread from overlapping. |
| `Playback.PlayFaithful` | runtime/include/scheduler.h:331-366 | Playing any ordering gives one invoke for each task in it and one response for each that returned. |
| `Playback.PlayIsTrajectory` | runtime/include/scheduler.h:338-357 | A play runs through moments, each of which is the one before with one step of the resumed task: the shared object and the task as the target says, an invoke if the task had not run, a response if it returned, nothing else. |
| `Playback.SlotsShowResponses` | runtime/include/scheduler.h:353-358 | What the checker reads for an answered task is its name, its arguments and the value of its response. |
| `Playback.PlayCounted` | runtime/include/scheduler.h:331-366 | A play has one event for each task it starts and one more for each that returned. |
| `Playback.EvenEvents` | runtime/minimization.cpp:65-67 | The number of events of a run is even exactly when it leaves an even number of tasks pending. |
| `Rounds.RoundScheduler.CompleteRun` | runtime/include/scheduler.h:376-393 | A run that completes all kept tasks has two events for each. |
| `Playback.PlayedWellFormed` | runtime/include/scheduler.h:358 | Such a history meets the precondition of the checker. |
| `Playback.SameShapeSamePlay` | runtime/include/scheduler.h:405-407 | What playing an ordering gives depends on ids, names and arguments of the tasks and not on their progress. |
| `Playback.LinearizableAgree` | runtime/include/lincheck.h:170-176 | A verdict depends only on the slots that the history refers to. |
| `Minimization.GetTasksOrdering` | runtime/minimization.cpp:6-17 | The ids of the entries of a full history that belong to other tasks, in order. |
| `Minimization.OnTasksRemoved` | runtime/minimization.cpp:87-117 | A found history is rejected and runs exactly the tasks of the round without the removed and the given ones. With the interleaving kept, one is found exactly if the shortened ordering is rejected; by exploring, one is not found only if all runs without those tasks were accepted. An explored history has an even number of events. The removed set grows only with a find. |
| `Minimization.InvokedTasks` | runtime/minimization.cpp:25-29 | The invoked tasks of a history are exactly those of its ordering. |
| `Minimization.TryRemove` | runtime/minimization.cpp:37-44 | Keeps a rejected history of exactly the remaining tasks, and removes tasks exactly on success. With the interleaving kept it succeeds exactly if the checker rejects without the tasks; for a pair it is aborted exactly if the history found then has an odd number of events. |
| `Minimization.RemoveSingles` | runtime/minimization.cpp:32-45 | With the interleaving kept, removes exactly the tasks that the pass over single tasks in `Greedy` removes. By exploring, the round was explored without each task that is left. |
| `Minimization.RemovePairs` | runtime/minimization.cpp:47-77 | The same for the pass over pairs, including whether the assertion on the number of events aborts it, which it does not when exploring. |
| `Minimization.RemovePairsOf` | runtime/minimization.cpp:53-76 | The same for one task and the later ones, up to the first success. |
| `Minimization.Minimize` | runtime/minimization.cpp:20-84 | Never adds a task; the history is rejected and runs exactly the tasks not removed. Unless it is aborted, the closing replay leaves the return values under which the checker rejects. With the interleaving kept, what is removed and whether the assertion at line 67 aborts is what `Given.Search` computes from the interleaving given, and the result is that interleaving without the removed tasks. By exploring, for each task and each pair that is left, all runs without it were accepted at some point. |
| `Minimization.CloseRound` | runtime/minimization.cpp:79-84 | The closing replay restores the return values under which the checker rejects. |
| `Minimization.LeftWereNeeded` | runtime/minimization.cpp:32-77 | With the interleaving kept, every task and every pair of tasks that is left was found needed at some point of the search. |
| `Minimization.MinimizeRound` | runtime/include/scheduler.h:297-320 | The search over the interleaving of the round decides what is removed first and whether it is aborted; exploring removes more and no task comes back. Every task and pair left was found needed by the search and explored without by the second pass. The result is rejected with the tasks as they are now. |
| `Minimization.Run` | runtime/include/scheduler.h:286-327 | A round found is rejected, all its tasks made by constructors for their threads. Without `minimize` it is reported as it is and nothing is removed; with it, `MinimizeRound` says what is removed, left and reported. A report is rejected with the tasks as they are now and runs exactly the tasks not removed. No report and no abort means `maxRounds` accepted rounds of `maxTasks` finished tasks. |
| `Greedy.WithoutTwice` | runtime/minimization.cpp:87-94 | Shortening an ordering twice is shortening it once by both sets. |
| `Greedy.Given.SinglesTried` | runtime/minimization.cpp:32-45 | The pass over single tasks leaves only tasks that were tried alone and found needed. |
| `Greedy.Given.PairsTried` | runtime/minimization.cpp:47-77 | The pass over pairs, if it is not aborted, leaves only tasks that were tried in all pairs. |
| `Greedy.Given.LeftWereTried` | runtime/minimization.cpp:32-77 | What both passes establish for the tasks that are left. |
| `Greedy.Given.LeftWereExplored` | runtime/minimization.cpp:32-77 | The same for the passes that explore: all runs without the task, or the pair, were accepted. |
| `Greedy.EntriesUseFuel` | runtime/include/scheduler.h:439-448 | Each entry of a replayed ordering uses up a step of its task until that has returned. |
| `Greedy.Given.GenerousSucceeds` | runtime/minimization.cpp:65-67 | The assertion on the number of events never aborts if each task has an entry for every step it could need. |
| `Parity.SearchIsAborted` | runtime/minimization.cpp:65-67 | It can abort: an interleaving of four tasks, rejected and with each task needed, in which leaving out the first pair leaves a third task pending under a rejected history of three events. |
| `Parity.FoundIsRejected` | runtime/minimization.cpp:20-24 | That interleaving is one that minimization is given. |
| `Parity.PairIsOdd` | runtime/minimization.cpp:61-67 | Without the pair the checker rejects an odd number of events. |
| `Parity.MinimizeIsAborted` | runtime/minimization.cpp:20-84 | Minimizing it is aborted. |
| `RingBuffer.RunInv` | verifying/targets/fast_queue.cpp:50-88 | After every interleaving of any number of threads each slot serves one ticket, told by its generation, and every thread knows what its access count says. |
| `RingBuffer.PopsReturnTheirPush` | verifying/targets/fast_queue.cpp:69-88 | `tail <= head <= tail + size`, and the pop with ticket `t` returns the value that the push with ticket `t` wrote and published. |
| `RingBuffer.OneOwnerPerSlot` | verifying/targets/fast_queue.cpp:58-60 | Two threads past their exchange never use the same slot. |
| `RingBuffer.PushReportsFull` | verifying/targets/fast_queue.cpp:52-65 | A push that read `h` from the head reports a full queue exactly if the pop with ticket `h - size` had not released its slot when the generation was read. |
| `RingBuffer.PopReportsEmpty` | verifying/targets/fast_queue.cpp:71-86 | A pop that read `t` reports an empty queue exactly if the push with ticket `t` had not published. |
| `RingBuffer.AccessIsFifo` | verifying/targets/fast_queue.cpp:50-88 | Against the sequence of drawn tickets, a successful exchange of a push appends its value, one of a pop removes the front, and no other access changes it. |
| `RingBuffer.PopReturnsItsFront` | verifying/targets/fast_queue.cpp:77-80 | The value read is the one that was the front when the ticket was drawn. |
| `RingBuffer.TicketsAreFixed` | verifying/targets/fast_queue.cpp:56-60 | What a ticket stands for never changes later, and no count goes back. |
| `RingBuffer.RunAccounted` | verifying/targets/fast_queue.cpp:50-88 | Every drawn ticket is finished or in the hands of a thread. |
| `RingBuffer.NothingIsLost` | verifying/targets/fast_queue.cpp:50-88 | Between methods every value pushed was popped under its ticket or is in its slot. |
| `RingBuffer.FullIsExact` | verifying/targets/fast_queue.cpp:52-65 | A push at the current head reports full exactly when `size` values are in the ring, if and only if no thread is between its exchange and its release with the ticket that must free the slot. |
| `RingBuffer.EmptyIsExact` | verifying/targets/fast_queue.cpp:71-86 | A pop at the current tail reports empty exactly when no value is in the ring, if and only if no thread is between its exchange and its publication with that ticket. |
| `RingBuffer.ReturnsAreExact` | verifying/targets/fast_queue.cpp:50-88 | The history consists of the calls and of their returns. A push returns 1 if it drew a ticket, else 0; a pop that drew ticket `t` returns the value pushed under `t`, else 0. |
| `RingBuffer.AloneFinishes` | verifying/targets/fast_queue.cpp:50-88 | A thread stopped anywhere that then runs alone, with exchanges that do not fail for no reason, finishes its method within seven accesses. |
| `RingLimits.PushAtRest` | verifying/targets/fast_queue.cpp:50-67 | Between methods a push that runs alone appends its value and returns 1 if fewer than `size` values are in the ring, and otherwise returns 0. |
| `RingLimits.PopAtRest` | verifying/targets/fast_queue.cpp:69-88 | Between methods a pop that runs alone removes and returns the front, or returns 0 if there is none. |
| `RingLimits.AloneIsBounded` | verifying/specs/bounded_queue.h:18-33 | So methods that do not overlap are those of the bounded queue. |
| `RingLimits.FullWithRoom` | verifying/specs/bounded_queue.h:18-33 | The ring is not a bounded queue: a run in which a push reports full while a pop stalls and another one overtakes it, and whose history no order of its operations explains, with the stalled pop taken or dropped. |
| `RingLimits.EmptyWithValue` | verifying/specs/bounded_queue.h:18-33 | Likewise a run in which a pop reports empty while a push stalls and a later one has published its value. |
| `RingBuffer.SlotIsRemainder` | verifying/targets/fast_queue.cpp:53 | The slot of a ticket is its remainder by the size, which a mask computes for a power of two. |
| `RWSpinLock.RunInv` | verifying/blocking/folly_rwspinlock.cpp:23-139 | In every reachable state with fewer threads than the counter has room for, the word agrees with what the threads hold. |
| `RWSpinLock.Exclusion` | verifying/blocking/folly_rwspinlock.cpp:23-139 | A writer excludes readers, upgraders and other writers; there is at most one upgrader. |
| `RWSpinLock.WordTellsHolders` | verifying/blocking/folly_rwspinlock.cpp:15-15 | The word never leaves the range of 32 bits and is 4 for each reader or passing increment plus the two bits; the writer bit says there is a writer, and an upgrade bit without it that there is an upgrader. |
| `RWSpinLock.TriesAreExact` | verifying/blocking/folly_rwspinlock.cpp:100-139 | Each try succeeds exactly when the other threads allow it: a write lock on a free word, a read or upgrade lock without writer and upgrader, a promotion without any reader increment. |
| `RWSpinLock.FreeIsZero` | verifying/blocking/folly_rwspinlock.cpp:100-104 | The word is 0 exactly when nobody holds the lock or has an increment to take back. |
| `RWSpinLock.LinearizesToSharedMutex` | verifying/specs/mutex.h:60-89 | Runs of `lock`, `unlock`, `lock_shared` and `unlock_shared` are linearizable to the sequential lock, in the order in which the methods take effect. |
| `RWSpinLock.AccessIsSequential` | verifying/blocking/folly_rwspinlock.cpp:100-122 | Each access changes what is held as the sequential lock does, or not at all. |
| `RWSpinLock.HistoryIsCallsAndReturns` | verifying/blocking/folly_rwspinlock.cpp:23-55 | The history of such a run consists of its calls and returns. |
| `RWSpinLock.MethodsTakeAndGive` | verifying/blocking/folly_rwspinlock.cpp:23-139 | Each of the ten methods begins exactly if the thread holds what it gives up. When it returns, the thread holds what the method is for (nothing, a read, an upgrade or a write lock), or, after a single try that was refused, what it held before. |
| `RWSpinLock.OnlySpinningDelays` | verifying/blocking/folly_rwspinlock.cpp:23-139 | A method ends within two accesses unless it spins and is refused. |
| `RWSpinLock.AccessAgrees` | verifying/blocking/folly_rwspinlock.cpp:23-139 | Each atomic access of each method keeps the word and the holders in agreement, without wrapping around. |
| `RWSpinLock.CallKeepsInv` | verifying/blocking/folly_rwspinlock.cpp:23-97 | Beginning a method keeps the word and the holders in agreement. |
| `FutexMutex.RunInv` | verifying/blocking/simple_mutex.cpp:32-57 | In every reachable state the word, the owner, the status of the verifier and the order of effects agree. |
| `FutexMutex.MutualExclusion` | verifying/blocking/simple_mutex.cpp:32-57 | At most one thread owns the mutex, and the word is 0 exactly when none does, the window inside an unlock included. |
| `FutexMutex.LocksAreExact` | verifying/blocking/simple_mutex.cpp:32-47 | The exchanges of a lock take the mutex exactly when no thread holds it, the first with 1 and the later ones with 2. |
| `FutexMutex.LockTakesFree` | verifying/blocking/simple_mutex.cpp:38-44 | A lock takes a mutex that stays free within four accesses, from wherever it is. |
| `FutexMutex.NothingDelaysReturns` | verifying/blocking/simple_mutex.cpp:49-57 | An unlock, and a lock that took the mutex, return within four accesses. |
| `FutexMutex.LogAlternates` | verifying/specs/mutex.h:18-28 | In the order of effects locks and unlocks alternate, each thread unlocks what it locked, and all return 0. |
| `FutexMutex.OneMethodAdmitted` | verifying/blocking/verifiers/mutex_verifier.h:6-35 | A thread between methods may start exactly one: unlock if it owns the mutex, else lock. |
| `FutexMutex.LinearizesToMutex` | verifying/specs/mutex.h:18-28 | The history of every run is linearizable to the sequential mutex by the order of effects, in which each thread unlocks what it locked. |
| `FutexMutex.HistoryIsCallsAndReturns` | verifying/blocking/simple_mutex.cpp:32-57 | The history consists of the calls and returns, and every method returns 0. |
| `FutexMutex.EffectsAreInside` | verifying/blocking/simple_mutex.cpp:32-57 | A method takes effect exactly at the access that takes or frees the mutex, and returns only after it. |
| `FutexMutex.BlockedIsFreed` | runtime/include/lib.h:104-111 | While a thread is blocked on the value 2 another one owns the mutex and can move, and four moves of its own leave no thread blocked. |
| `MutexVerifier.AdmitsExactlyOne` | verifying/blocking/verifiers/mutex_verifier.h:16-20 | For every status the verifier keeps, exactly one of the two methods is admitted. |
| `MutexVerifier.Verifier.Verify` | verifying/blocking/verifiers/mutex_verifier.h:6-23 | Admits a new lock for status 0 and a new unlock for status 1, and changes no status. |
| `MutexVerifier.Verifier.OnFinished` | verifying/blocking/verifiers/mutex_verifier.h:25-35 | After a lock only an unlock is admitted in that thread, and the other way round; other threads keep their status. |
| `GuardedQueue.RunInv` | verifying/lib/mutex.h:20-35 | In every reachable state the line of waiters and the data are as the mutex intends. |
| `GuardedQueue.GrantsInArrivalOrder` | verifying/lib/mutex.h:20-35 | The mutex is released in the order of arrival, exactly the waiters after the front are parked, and only the front is inside. |
| `GuardedQueue.AssertionsHold` | verifying/targets/mutex_queue.cpp:13-33 | The counter is 1 wherever it is asserted to be, and an unlock finds the line not empty. |
| `GuardedQueue.LinearizesToQueue` | verifying/targets/mutex_queue.cpp:13-33 | While at most `N` values were pushed the history of a run is linearizable to the sequential queue: every operation that returned took effect exactly once, with that result, in an order that respects real time. At rest the array holds what was pushed and not popped. |
| `GuardedQueue.FirstInFirstOut` | verifying/specs/queue.h:14-22 | In the order of effects, while at most `N` values were pushed: the `k`-th pop that finds a value returns the `k`-th value pushed, a pop before which as many pops found one as were pushed returns 0, and every push returns 0, which stands for no value. |
| `GuardedQueue.HistoryIsCallsAndReturns` | verifying/targets/mutex_queue.cpp:13-33 | The history consists of the calls and returns of the run. |
| `GuardedQueue.EffectIsInside` | verifying/targets/mutex_queue.cpp:13-33 | An operation takes effect exactly when its result is decided, inside the mutex, and returns only after that. |
| `GuardedQueue.ResultIsKept` | verifying/targets/mutex_queue.cpp:22-33 | It returns the result with which it took effect. |
| `GuardedQueue.FrontCanMove` | verifying/lib/mutex.h:29-35 | While threads wait the front can move. |
| `GuardedQueue.StepsAreBounded` | verifying/targets/mutex_queue.cpp:13-33 | Every access of a thread that is not parked brings it nearer to its return, which is at most fourteen accesses away. |
| `GuardedQueue.InsideKeeps` | verifying/targets/mutex_queue.cpp:15-32 | Each access inside the mutex keeps the array and the sequential queue in step. |
| `StableVector.StableVector.constructor` | runtime/include/stable_vector.h:10 | Empty, with no block allocated. |
| `StableVector.StableVector.EmplaceBack` | runtime/include/stable_vector.h:51-62 | Appends the element at the place its index determines; no other element moves, and blocks are only added. |
| `StableVector.StableVector.PopBack` | runtime/include/stable_vector.h:64-73 | Removes the last element; no other element moves, and at most one block beyond those in use stays allocated. |
| `StableVector.StableVector.Get` | runtime/include/stable_vector.h:75-87 | The element at the index. |
| `StableVector.StableVector.Set` | runtime/include/stable_vector.h:75-80 | Writing through the reference changes that element only. |
| `StableVector.StableVector.Resize` | runtime/include/stable_vector.h:89-96 | The elements that stay are the same and in place, new ones are default elements. |
| `StableVector.StableVector.Destroy` | runtime/include/stable_vector.h:32-45 | Visits the place of each live element exactly once, in order, and frees every allocated block. |
| `StableVector.SlotsAreIndexes` | runtime/include/stable_vector.h:75-80 | Indexes and places inside the blocks correspond one to one. |
| `StableVector.SpaceIsLinear` | runtime/include/stable_vector.h:53-56 | With the spare block there are at most `4 * size + 1` slots. |
| `StableVector.PopLeavesTable` | runtime/include/stable_vector.h:65-66 | Below the capacity of the table, `pop_back` looks past its end if and only if the size is 2^30. |
| `RoundRobin.RoundRobinStrategy.Pick` | runtime/include/round_robin_strategy.h:15-26 | Returns a thread that is not blocked whenever there is one, the first after the counter. |
| `RoundRobin.BoundedFairness` | runtime/include/round_robin_strategy.h:15-26 | A thread that is free at each of `n` consecutive choices over `n` threads is chosen at one of them. |
| `YieldPass.InsertYields` | codegen/yieldpass.cpp:70-81 | The walk that inserts while it iterates computes the same block as the recursive definition. |
| `YieldPass.ErasureIsKept` | codegen/yieldpass.cpp:72-79 | Without yields the block is what it was, in the same order. |
| `YieldPass.EveryAccessYields` | codegen/yieldpass.cpp:61-68 | In a block closed by a terminator a yield follows every load, store and read-modify-write at once. |
| `YieldPass.InsertsOncePerAccess` | codegen/yieldpass.cpp:70-81 | The pass inserts one call for each access that lacks it, and nothing else. |
| `YieldPass.ChangesOnlyIfNeeded` | codegen/yieldpass.cpp:74-78 | The pass changes a block exactly when some access lacks its yield. |
| `YieldPass.SecondRunChangesNothing` | codegen/yieldpass.cpp:70-93 | A second run changes nothing. |

## Left out

- Parked tasks (tokens) and tasks blocked in a system call, in both schedulers: no task is ever parked or blocked there, so the deadlock assertion over parked tasks and the branch of `TerminateTasks` that steps over a blocked last task do not occur. `GuardedQueue` and `FutexMutex` model parking and blocking for their targets.
- Verifiers that keep state, in the schedulers: `DefaultStrategyVerifier` is assumed. `TLAScheduler` does not roll a verifier back when it backtracks. `MutexVerifier` is modelled by itself and together with the futex mutex.
- `coroutine_status`, the full history with coroutines, and codegen/coyieldpass.cpp.
- Fibers, exceptions, raw pointers and `std::any` values: a task is a local state and a step function.
- The destructor of a coroutine, which asserts that it has returned, and the order of destruction.
- Rounds.RoundScheduler.TerminateTasks: the branch for a blocked last task is left out, as no task is blocked.
- Rounds.RoundScheduler.TerminateStep: the same branch and its assertion.
- Rounds.RoundScheduler.ReplayRound: the ids of removed tasks are not modelled, only those of kept tasks and of no task; no caller passes any.
- Minimization.Run: the third minimization, by `SmartMinimizor`, is left out.
- `SmartMinimizor` (fitness, mutation), `RandomStrategy` and `PctStrategy`: randomness, and no property beyond those of any pick.
- Argument generators: the argument is a function of constructor and thread.
- The hash table of the cache: it is a sequence searched with the hash and the equality of its keys. Buckets and rehashing are not modelled.
- A scheduler without threads, for which a pick asserts a deadlock.
- Concurrent targets are state machines on values instead of classes: each step is one access of one thread, and an object's methods have no meaning without their interleaving.
- Memory orders, wrap-around of 64-bit tickets (`RingBuffer`) and the backoff counters of spin loops (`RWSpinLock`).
- RWSpinLock.RunInv: threads are asked to follow the locking discipline, and to be fewer than 2^29.
- RWSpinLock.LinearizesToSharedMutex: the upgrade methods and single tries are not part of the sequential lock; runs with them are covered by the invariant and by `MethodsTakeAndGive`.
- RingBuffer.AccessIsFifo: a failed push or pop is not part of it; when its answer is right is stated apart.
- GuardedQueue.LinearizesToQueue: runs that push more than `N` values write outside of the array, and nothing is claimed of them.
- FutexMutex.BlockedIsFreed: a wake-up has no effect of its own in the runtime, which polls the word; which waiter gets the mutex is not claimed.
- StableVector.StableVector.Destroy: destruction and deallocation are the lists of places and blocks they visit. Moves between vectors are not modelled, and the bit tricks for the highest bit and for powers of two are stated as arithmetic.
- YieldPass.InsertYields: one block at a time; the choice of functions by annotation and the module around them are not modelled.
- `PickSchedule` of the round-robin strategy is covered as an arbitrary pick among threads with a task left; its counter is not modelled there.
- Pretty printing, logging, flags, system call interception and the build.
