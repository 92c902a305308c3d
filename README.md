# thread_forever: the readiness handle, modelled in Dafny

`ThreadHandle` (src/thread_handle.rs) lets one thread claim a one-time
initialisation and lets other threads wait until that initialisation is
announced. All clones of a handle share one status cell: a
`(Mutex<ThreadStatus>, Condvar)` pair behind an `Arc`. The status moves
through `Uninitialized → Pending → Up`. Each public method runs one critical
section under the mutex, so a history of calls is a sequence of atomic steps
on one field.

The model has two modules:

- `ThreadStatusMachine` (thread_status.dfy) is the state machine as values.
  It defines the status, one function per critical section (`InitStep`,
  `NotifyStep`, `Step`), and the status and replies of a whole history of
  calls (`After`, `Replies`). Its lemmas prove the following: the status never
  moves backward; `Up` is terminal; a claim wins exactly when it is the first
  call on a fresh cell; and at most one claim ever wins.
- `ThreadHandles` (thread_handle.dfy) is the imperative layer. `StatusCell` is
  the shared cell. It has a mutable `status` field and a ghost count of won
  claims, and its invariant `Valid()` says at most one claim has won.
  `ThreadHandle` holds a `const` reference to a cell, so a clone aliases its
  original's cell. Each method's contract ties the new cell state to the step
  function of the old state.

`wait_for_thread_up` is a loop that parks (`wait_timeout`) and then checks the
status, until it sees `Up`. In the model, `WaitForThreadUp` takes a
`schedule`. `schedule[k]` is the list of calls other threads make during the
k-th park, through a peer handle on the same cell. The schedule also bounds
the number of parks. The waiter itself never writes the cell.

Two consequences of the source that the model makes explicit:

- The loop parks before its first check (src/thread_handle.rs:27, then :33),
  so even a wait that starts on `Up` takes one park.
- The doc comment at src/thread_handle.rs:16 promises "one and only one
  thread is up". A `notify_thread_up` before any `thread_init` moves
  `Uninitialized` straight to `Up` (:43), and after that every claim returns
  false (:57). The model proves at most one winner, and exactly one if and
  only if the first call on a fresh cell is a claim (`AtMostOneClaim`).

## Model

| member | source | states |
|---|---|---|
| ThreadStatusMachine.Rank | src/thread_handle.rs:5-9 | the three statuses are ordered Uninitialized < Pending < Up; Uninitialized is the least and Up the greatest |
| ThreadStatusMachine.InitStep | src/thread_handle.rs:52-57 | the critical section of `thread_init` (used by `Step`, the one-call function for both operations): the claim reports true exactly when the status was Uninitialized; a winning claim leaves Pending; a losing claim leaves the status unchanged |
| ThreadStatusMachine.StepNeverBackward | src/thread_handle.rs:43-57 | no single call moves the status backward; only a claim produces Pending, and never from Up |
| ThreadStatusMachine.NotifyIdempotent | src/thread_handle.rs:43 | after any history, a notify (`NotifyStep`, the critical section of `notify_thread_up`) leaves Up, and a second notify leaves the same status as the first |
| ThreadStatusMachine.UpOnlyByNotify | src/thread_handle.rs:43-57 | a history ends in Up if and only if it started in Up or contains a notify: no claim ever produces Up |
| ThreadStatusMachine.AfterAppend | src/thread_handle.rs:40-58 | running one history and then another gives the same status and replies as running them joined |
| ThreadStatusMachine.NeverBackward | src/thread_handle.rs:40-58 | over any history of claims and notifies, the final status is no earlier than the initial one |
| ThreadStatusMachine.UpIsTerminal | src/thread_handle.rs:43-57 | from Up, every history stays Up and no claim in it returns true |
| ThreadStatusMachine.WinnerIsFirstCall | src/thread_handle.rs:49-58 | call i of a history is a winning claim if and only if i is 0, the cell was Uninitialized and that first call is a claim |
| ThreadStatusMachine.NotFreshNeverWins | src/thread_handle.rs:52-57 | once the status has left Uninitialized, no later claim returns true |
| ThreadStatusMachine.AtMostOneClaim | src/thread_handle.rs:16-58 | over any history at most one claim returns true; exactly one does if and only if the history starts on a fresh cell with a claim |
| ThreadStatusMachine.QuietScheduleHasNoCalls | src/thread_handle.rs:26-37 | parks during which no other thread calls the handle contribute no calls to the history |
| ThreadHandles.StatusCell.constructor | src/thread_handle.rs:19 | a new cell is Uninitialized, no claim has won, and the cell invariant holds |
| ThreadHandles.ThreadHandle.New | src/thread_handle.rs:18-20 | `new()` gives a handle on a freshly allocated cell whose status is Uninitialized |
| ThreadHandles.ThreadHandle.Clone | src/thread_handle.rs:11-13 | a clone is a new handle on the same cell, which it shares rather than copies |
| ThreadHandles.ThreadHandle.ThreadInit | src/thread_handle.rs:49-58 | returns true if and only if the old status was Uninitialized; it then leaves Pending and is the first and only winning claim on the cell; otherwise the cell is unchanged |
| ThreadHandles.ThreadHandle.NotifyThreadUp | src/thread_handle.rs:40-46 | sets the status to Up from any status and changes nothing else; the cell invariant is kept |
| ThreadHandles.ThreadHandle.Perform | src/thread_handle.rs:40-58 | one call through a handle leaves the status and gives the reply that `Step` gives for the old status; the ghost win count grows by one exactly when the reply is a won claim |
| ThreadHandles.ThreadHandle.PerformAll | src/thread_handle.rs:40-58 | calls made one after another through any handle on a cell leave the status `After` gives and return `Replies`; the ghost win count grows by exactly the replies' wins, and the invariant keeps it at most 1 |
| ThreadHandles.ThreadHandle.WaitForThreadUp | src/thread_handle.rs:22-37 | parks before each check; exits only after seeing Up, at the first park after which the status is Up; exits if and only if the other threads' calls bring the status to Up; an exit means the status started Up or a notify happened during the parks taken; the status and the ghost win count end exactly as those calls leave them, so the waiter writes nothing |
| ThreadHandles.SupervisorAndWorker | src/thread_handle.rs:11-58 | a worker clone claims and wins, the supervisor's later claim loses, the worker notifies, and the supervisor's wait on its own clone exits after one park |
| ThreadHandles.AnnounceDuringWait | src/thread_handle.rs:22-46 | a notify made through one clone while another clone waits is what the waiter's check sees: it exits after the park in which the notify happened, and the waiter's own claim made after the wait loses |
| ThreadHandles.WaitUndisturbed | src/thread_handle.rs:26-37 | with no other thread active, the wait leaves the status and the ghost win count unchanged, keeps the cell invariant, and exits if and only if the status was Up, after exactly one park |

## Left out

- Mutex and Condvar mechanics are not modelled: locking, the 10 ms `wait_timeout` and the `notify_one` wake-up (src/thread_handle.rs:24, 27, 42, 45). Each public method is one atomic step, as the mutex makes it.
- Lock-poisoning panics from `.unwrap()` are not modelled (src/thread_handle.rs:24, 28, 42, 51). They are failures of the sync library, not part of the status logic.
- ThreadHandles.ThreadHandle.WaitForThreadUp: the source loops until it sees Up, with no bound. The model's loop is bounded by the length of the schedule of other threads' calls, so it does not capture blocking forever when no notify ever comes (liveness).
- `Arc` reference counting and deallocation are not modelled. Dafny heap references give the same sharing.
- The `debug!` and `info!` logging (src/thread_handle.rs:25, 29-31, 34, 44) is I/O and is not modelled.
- True parallelism between threads is not modelled: concurrent calls appear as one interleaved sequence of atomic steps, which is the order the mutex imposes.
