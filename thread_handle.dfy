/**
 * The readiness handle: a shared status cell and the handles that reach it.
 *
 * The cell stands for the reference-counted `(Mutex<ThreadStatus>, Condvar)`
 * pair; a handle holds a reference to it, so clones of one handle alias a
 * single cell. Each public operation is one atomic step on the cell, as it is
 * under the mutex.
 */
module ThreadHandles {
  import opened ThreadStatusMachine

  /** The status value shared by all clones of a handle. */
  class StatusCell {
    var status: ThreadStatus
    /** How many `thread_init` calls on this cell have returned true. */
    ghost var claims: nat

    /** The cell's invariant: at most one claim has won, and Pending only after one did. */
    ghost predicate Valid()
      reads this
    {
      claims <= 1 &&
      (status == Uninitialized ==> claims == 0) &&
      (status == Pending ==> claims == 1)
    }

    constructor ()
      ensures Valid()
      ensures status == Uninitialized && claims == 0
    {
      status := Uninitialized;
      claims := 0;
    }
  }

  class ThreadHandle {
    /** The shared cell; clones of a handle hold the same one. */
    const cell: StatusCell

    /** `ThreadHandle::new`: a handle on a fresh cell whose status is Uninitialized. */
    constructor New()
      ensures fresh(cell)
      ensures cell.Valid() && cell.status == Uninitialized
    {
      cell := new StatusCell();
    }

    /** A clone: a new handle on the same cell. */
    constructor CloneOf(other: ThreadHandle)
      ensures cell == other.cell
    {
      cell := other.cell;
    }

    /** The derived `clone`: copies the reference, not the cell. */
    method Clone() returns (h: ThreadHandle)
      ensures fresh(h) && h.cell == cell
    {
      h := new ThreadHandle.CloneOf(this);
    }

    /**
     * `thread_init`: claims initialisation. Returns true exactly when the
     * status was Uninitialized, and then leaves it Pending; otherwise returns
     * false and changes nothing.
     */
    method ThreadInit() returns (won: bool)
      requires cell.Valid()
      modifies cell
      ensures cell.Valid()
      ensures (won, cell.status) == InitStep(old(cell.status))
      ensures won <==> old(cell.status) == Uninitialized
      ensures won ==> cell.status == Pending && old(cell.claims) == 0 && cell.claims == 1
      ensures !won ==> cell.status == old(cell.status) && cell.claims == old(cell.claims)
    {
      match cell.status
      case Uninitialized =>
        cell.status := Pending;
        cell.claims := cell.claims + 1;
        won := true;
      case _ =>
        won := false;
    }

    /** `notify_thread_up`: the status becomes Up from any status; nothing else changes. */
    method NotifyThreadUp()
      requires cell.Valid()
      modifies cell
      ensures cell.Valid()
      ensures cell.status == NotifyStep(old(cell.status)) == Up
      ensures cell.claims == old(cell.claims)
    {
      cell.status := Up;
    }

    /** One call on this handle, as `Step` describes it. */
    method Perform(op: Op) returns (reply: Reply)
      requires cell.Valid()
      modifies cell
      ensures cell.Valid()
      ensures (cell.status, reply) == Step(old(cell.status), op)
      ensures cell.claims == old(cell.claims) + (if reply == Claimed(true) then 1 else 0)
    {
      match op
      case Init =>
        var won := ThreadInit();
        reply := Claimed(won);
      case Notify =>
        NotifyThreadUp();
        reply := Notified;
    }

    /**
     * The calls `ops` on this handle, one after another. The cell ends as
     * `After` says, the replies are `Replies`, and the ghost count of won
     * claims grows by exactly the won claims among them.
     */
    method PerformAll(ops: seq<Op>) returns (replies: seq<Reply>)
      requires cell.Valid()
      modifies cell
      ensures cell.Valid()
      ensures cell.status == After(old(cell.status), ops)
      ensures replies == Replies(old(cell.status), ops)
      ensures cell.claims == old(cell.claims) + Wins(replies)
    {
      ghost var s0 := cell.status;
      ghost var c0 := cell.claims;
      replies := [];
      var i := 0;
      while i < |ops|
        invariant 0 <= i <= |ops|
        invariant cell.Valid()
        invariant After(s0, ops) == After(cell.status, ops[i..])
        invariant Replies(s0, ops) == replies + Replies(cell.status, ops[i..])
        invariant cell.claims == c0 + Wins(replies)
      {
        ghost var before := cell.status;
        var r := Perform(ops[i]);
        assert ops[i..] == [ops[i]] + ops[i + 1..];
        AfterAppend(before, [ops[i]], ops[i + 1..]);
        WinsAppend(replies, [r]);
        replies := replies + [r];
        i := i + 1;
      }
      assert ops[i..] == [];
    }

    /**
     * `wait_for_thread_up`: parks, then looks at the status, and leaves only
     * once it has seen Up. The loop parks first and checks after each park,
     * so it parks at least once even when the status is already Up.
     *
     * While the waiter is parked the lock is free and other threads may call
     * the handle. `schedule[k]` is what they do, through `peer` (a handle on
     * the same cell), during the `k`-th park. The schedule also bounds the
     * number of parks: the source loops until it sees Up, however long that is.
     *
     * The waiter writes nothing itself: the status and the count of won
     * claims end exactly as the other threads' calls during the parks taken
     * leave them. A wait that exits has seen a notify, or started on Up.
     */
    method WaitForThreadUp(peer: ThreadHandle, schedule: seq<seq<Op>>) returns (exited: bool, parks: nat)
      requires peer.cell == cell
      requires cell.Valid()
      modifies cell
      ensures cell.Valid()
      ensures parks <= |schedule|
      ensures cell.status == After(old(cell.status), Flatten(schedule[..parks]))
      ensures exited ==> parks >= 1 && cell.status == Up
      ensures !exited ==> parks == |schedule| && (parks == 0 || cell.status != Up)
      ensures forall k :: 1 <= k < parks ==> After(old(cell.status), Flatten(schedule[..k])) != Up
      ensures exited <==> |schedule| > 0 && After(old(cell.status), Flatten(schedule)) == Up
      ensures exited ==> old(cell.status) == Up || Notify in Flatten(schedule[..parks])
      ensures cell.claims == old(cell.claims) + Wins(Replies(old(cell.status), Flatten(schedule[..parks])))
    {
      ghost var s0 := cell.status;
      ghost var c0 := cell.claims;
      exited := false;
      parks := 0;
      while !exited && parks < |schedule|
        invariant 0 <= parks <= |schedule|
        invariant cell.Valid()
        invariant cell.status == After(s0, Flatten(schedule[..parks]))
        invariant exited ==> parks >= 1 && cell.status == Up
        invariant !exited && parks >= 1 ==> cell.status != Up
        invariant forall k :: 1 <= k < parks ==> After(s0, Flatten(schedule[..k])) != Up
        invariant cell.claims == c0 + Wins(Replies(s0, Flatten(schedule[..parks])))
      {
        // Park: the lock is released and the other threads run their calls.
        var _ := peer.PerformAll(schedule[parks]);
        FlattenPrefixStep(schedule, parks);
        AfterAppend(s0, Flatten(schedule[..parks]), schedule[parks]);
        WinsAppend(Replies(s0, Flatten(schedule[..parks])), Replies(After(s0, Flatten(schedule[..parks])), schedule[parks]));
        parks := parks + 1;
        // Woken with the lock held again: the only check, after the park.
        if cell.status == Up {
          exited := true;
        }
      }
      if exited {
        UpAfterPrefix(s0, schedule, parks);
        UpOnlyByNotify(s0, Flatten(schedule[..parks]));
      } else {
        assert schedule[..parks] == schedule;
      }
    }
  }

  /**
   * The usage the handle is written for: a supervisor creates a handle and
   * clones it for a worker; the worker claims initialisation and wins, a later
   * claim by the supervisor loses, the worker announces Up, and the
   * supervisor's wait on its own clone sees the worker's announcement after
   * one park.
   */
  method SupervisorAndWorker() returns (workerWon: bool, supervisorWon: bool, exited: bool, parks: nat)
    ensures workerWon && !supervisorWon
    ensures exited && parks == 1
  {
    var supervisor := new ThreadHandle.New();
    var worker := supervisor.Clone();
    workerWon := worker.ThreadInit();
    supervisorWon := supervisor.ThreadInit();
    worker.NotifyThreadUp();
    exited, parks := supervisor.WaitForThreadUp(worker, [[]]);
  }

  /**
   * Clones alias one cell: the supervisor waits while the worker, parked in
   * between, claims during the first park and announces Up during the
   * second. The wait sees Up only at the check after the second park, and
   * the supervisor's own claim, made after the wait, loses.
   */
  method AnnounceDuringWait() returns (exited: bool, parks: nat, claimedAfter: bool)
    ensures exited && parks == 2
    ensures !claimedAfter
  {
    var supervisor := new ThreadHandle.New();
    var worker := supervisor.Clone();
    var schedule := [[Init], [Notify]];
    exited, parks := supervisor.WaitForThreadUp(worker, schedule);
    assert Flatten(schedule[..1]) == [Init] by {
      assert schedule[..1] == [[Init]];
    }
    assert Flatten(schedule[..2]) == [Init, Notify] by {
      assert schedule[..2] == [[Init], [Notify]];
      assert Flatten([[Notify]]) == [Notify];
    }
    assert After(Uninitialized, [Init]) == Pending;
    assert After(Uninitialized, [Init, Notify]) == Up by {
      assert [Init, Notify][1..] == [Notify];
    }
    UpAfterPrefix(Uninitialized, schedule, 2);
    claimedAfter := supervisor.ThreadInit();
  }

  /**
   * A waiter that no other thread disturbs only reads: after any number of
   * quiet parks the status and the count of won claims are what they were,
   * the cell invariant still holds, and the wait has left exactly
   * when that status was Up and it parked at least once.
   */
  method WaitUndisturbed(h: ThreadHandle, n: nat) returns (exited: bool, parks: nat)
    requires h.cell.Valid()
    modifies h.cell
    ensures h.cell.Valid()
    ensures h.cell.status == old(h.cell.status)
    ensures h.cell.claims == old(h.cell.claims)
    ensures exited <==> n > 0 && old(h.cell.status) == Up
    ensures exited ==> parks == 1
  {
    var schedule := seq(n, _ => []);
    exited, parks := h.WaitForThreadUp(h, schedule);
    QuietScheduleHasNoCalls(schedule);
    QuietScheduleHasNoCalls(schedule[..parks]);
    if exited && parks > 1 {
      QuietScheduleHasNoCalls(schedule[..1]);
      assert false;
    }
  }
}
