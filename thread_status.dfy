/**
 * The readiness state machine behind a thread handle.
 *
 * Every public operation of a handle runs as one critical section on a single
 * shared status value, so a history of calls on one handle (or on clones that
 * share its cell) is a sequence of atomic steps. This module states those steps
 * as functions and proves what any such history does.
 */
module ThreadStatusMachine {

  /** The status of the shared cell, in its order of progression. */
  datatype ThreadStatus = Uninitialized | Pending | Up

  /** A state-changing call on a handle. */
  datatype Op = Init | Notify

  /** What a call hands back: `thread_init` a boolean, `notify_thread_up` nothing. */
  datatype Reply = Claimed(won: bool) | Notified

  /** Position of a status in the order Uninitialized < Pending < Up. */
  function Rank(s: ThreadStatus): (r: nat)
    ensures r < 3
    ensures r == 0 <==> s == Uninitialized
    ensures r == 2 <==> s == Up
  {
    match s
    case Uninitialized => 0
    case Pending => 1
    case Up => 2
  }

  /** `a` is `b` or comes before it. */
  predicate NoLaterThan(a: ThreadStatus, b: ThreadStatus) {
    Rank(a) <= Rank(b)
  }

  /** The critical section of `thread_init`: the compare-and-set Uninitialized -> Pending. */
  function InitStep(s: ThreadStatus): (r: (bool, ThreadStatus))
    ensures r.0 <==> s == Uninitialized
    ensures r.0 ==> r.1 == Pending
    ensures !r.0 ==> r.1 == s
  {
    match s
    case Uninitialized => (true, Pending)
    case _ => (false, s)
  }

  /** The critical section of `notify_thread_up`: the status becomes Up whatever it was. */
  function NotifyStep(s: ThreadStatus): ThreadStatus {
    Up
  }

  /** One call: the status it leaves and the reply it gives. */
  function Step(s: ThreadStatus, op: Op): (ThreadStatus, Reply) {
    match op
    case Init =>
      var (won, t) := InitStep(s);
      (t, Claimed(won))
    case Notify => (NotifyStep(s), Notified)
  }

  /** The status after the calls `ops`, made one after another from status `s`. */
  function After(s: ThreadStatus, ops: seq<Op>): ThreadStatus
    decreases |ops|
  {
    if ops == [] then s else After(Step(s, ops[0]).0, ops[1..])
  }

  /** The replies of the calls `ops`, made one after another from status `s`. */
  function Replies(s: ThreadStatus, ops: seq<Op>): (r: seq<Reply>)
    ensures |r| == |ops|
    decreases |ops|
  {
    if ops == [] then [] else [Step(s, ops[0]).1] + Replies(Step(s, ops[0]).0, ops[1..])
  }

  /** How many replies are a won claim. */
  function Wins(rs: seq<Reply>): nat
    decreases |rs|
  {
    if rs == [] then 0 else (if rs[0] == Claimed(true) then 1 else 0) + Wins(rs[1..])
  }

  /** The calls of several batches, batch after batch. */
  function Flatten(batches: seq<seq<Op>>): seq<Op>
    decreases |batches|
  {
    if batches == [] then [] else batches[0] + Flatten(batches[1..])
  }

  // ---------------------------------------------------------------------------
  // Single steps

  /** No call moves the status backward, and only `thread_init` can leave Uninitialized for Pending. */
  lemma StepNeverBackward(s: ThreadStatus, op: Op)
    ensures NoLaterThan(s, Step(s, op).0)
    ensures Step(s, op).0 == Pending ==> op == Init && s != Up
  {
  }

  // ---------------------------------------------------------------------------
  // Histories of calls

  /** Running `a` then `b` is running `a + b`: status and replies. */
  lemma {:induction false} AfterAppend(s: ThreadStatus, a: seq<Op>, b: seq<Op>)
    ensures After(s, a + b) == After(After(s, a), b)
    ensures Replies(s, a + b) == Replies(s, a) + Replies(After(s, a), b)
    decreases |a|
  {
    if a == [] {
      assert a + b == b;
    } else {
      assert (a + b)[0] == a[0];
      assert (a + b)[1..] == a[1..] + b;
      AfterAppend(Step(s, a[0]).0, a[1..], b);
    }
  }

  /**
   * `notify_thread_up` is idempotent over any history: whatever came before,
   * a second notify leaves the status where the first one did, at Up.
   */
  lemma NotifyIdempotent(s: ThreadStatus, ops: seq<Op>)
    ensures After(s, ops + [Notify]) == Up
    ensures After(s, ops + [Notify, Notify]) == After(s, ops + [Notify])
  {
    AfterAppend(s, ops, [Notify]);
    AfterAppend(s, ops, [Notify, Notify]);
  }

  /** Only a notify makes the status Up: a history ends in Up exactly when it started there or holds a notify. */
  lemma {:induction false} UpOnlyByNotify(s: ThreadStatus, ops: seq<Op>)
    ensures After(s, ops) == Up <==> (s == Up || Notify in ops)
    decreases |ops|
  {
    if ops != [] {
      UpOnlyByNotify(Step(s, ops[0]).0, ops[1..]);
      assert ops == [ops[0]] + ops[1..];
    }
  }

  /** Over any history the status never moves backward in Uninitialized < Pending < Up. */
  lemma {:induction false} NeverBackward(s: ThreadStatus, ops: seq<Op>)
    ensures NoLaterThan(s, After(s, ops))
    decreases |ops|
  {
    if ops != [] {
      StepNeverBackward(s, ops[0]);
      NeverBackward(Step(s, ops[0]).0, ops[1..]);
    }
  }

  /** Up is terminal: once Up, every later history stays Up and no claim wins. */
  lemma {:induction false} UpIsTerminal(ops: seq<Op>)
    ensures After(Up, ops) == Up
    ensures forall r :: r in Replies(Up, ops) ==> r != Claimed(true)
    decreases |ops|
  {
    if ops != [] {
      UpIsTerminal(ops[1..]);
    }
  }

  /**
   * The reply of call `i` is a won claim exactly when call `i` is the first call
   * ever made on the cell, that call is `thread_init`, and the cell was fresh:
   * any first call, claim or notify, moves the status off Uninitialized for good.
   */
  lemma {:induction false} WinnerIsFirstCall(s: ThreadStatus, ops: seq<Op>, i: nat)
    requires i < |ops|
    ensures Replies(s, ops)[i] == Claimed(true) <==> (i == 0 && s == Uninitialized && ops[0] == Init)
    decreases |ops|
  {
    if i > 0 {
      var t := Step(s, ops[0]).0;
      assert t != Uninitialized;
      NotFreshNeverWins(t, ops[1..], i - 1);
    }
  }

  /** From a status other than Uninitialized no call ever wins a claim. */
  lemma {:induction false} NotFreshNeverWins(s: ThreadStatus, ops: seq<Op>, i: nat)
    requires s != Uninitialized
    requires i < |ops|
    ensures Replies(s, ops)[i] != Claimed(true)
    decreases |ops|
  {
    if i > 0 {
      NotFreshNeverWins(Step(s, ops[0]).0, ops[1..], i - 1);
    }
  }

  /** Replies with no won claim count zero wins. */
  lemma {:induction false} NoWinsCountZero(rs: seq<Reply>)
    requires forall k :: 0 <= k < |rs| ==> rs[k] != Claimed(true)
    ensures Wins(rs) == 0
    decreases |rs|
  {
    if rs != [] {
      NoWinsCountZero(rs[1..]);
    }
  }

  /**
   * "One and only one thread is up": over any history of calls on one cell at
   * most one `thread_init` returns true, and one does exactly when the history
   * starts on a fresh cell with a `thread_init`.
   */
  lemma {:induction false} AtMostOneClaim(s: ThreadStatus, ops: seq<Op>)
    ensures Wins(Replies(s, ops)) <= 1
    ensures Wins(Replies(s, ops)) == 1 <==> (s == Uninitialized && |ops| > 0 && ops[0] == Init)
  {
    var rs := Replies(s, ops);
    if ops != [] {
      var rest := rs[1..];
      forall k | 0 <= k < |rest|
        ensures rest[k] != Claimed(true)
      {
        WinnerIsFirstCall(s, ops, k + 1);
      }
      NoWinsCountZero(rest);
      WinnerIsFirstCall(s, ops, 0);
    }
  }

  /** Counting wins distributes over concatenation. */
  lemma {:induction false} WinsAppend(a: seq<Reply>, b: seq<Reply>)
    ensures Wins(a + b) == Wins(a) + Wins(b)
    decreases |a|
  {
    if a == [] {
      assert a + b == b;
    } else {
      assert (a + b)[1..] == a[1..] + b;
      WinsAppend(a[1..], b);
    }
  }

  /** Flattening distributes over concatenation of batch lists. */
  lemma {:induction false} FlattenAppend(a: seq<seq<Op>>, b: seq<seq<Op>>)
    ensures Flatten(a + b) == Flatten(a) + Flatten(b)
    decreases |a|
  {
    if a == [] {
      assert a + b == b;
    } else {
      assert (a + b)[0] == a[0];
      assert (a + b)[1..] == a[1..] + b;
      FlattenAppend(a[1..], b);
    }
  }

  /** Parks during which no other thread calls the handle contribute no calls. */
  lemma {:induction false} QuietScheduleHasNoCalls(batches: seq<seq<Op>>)
    requires forall k :: 0 <= k < |batches| ==> batches[k] == []
    ensures Flatten(batches) == []
    decreases |batches|
  {
    if batches != [] {
      QuietScheduleHasNoCalls(batches[1..]);
    }
  }

  /** The calls of the first `k + 1` batches are those of the first `k` batches, then batch `k`. */
  lemma FlattenPrefixStep(batches: seq<seq<Op>>, k: nat)
    requires k < |batches|
    ensures Flatten(batches[..k + 1]) == Flatten(batches[..k]) + batches[k]
  {
    assert batches[..k + 1] == batches[..k] + [batches[k]];
    FlattenAppend(batches[..k], [batches[k]]);
    assert Flatten([batches[k]]) == batches[k] + Flatten([]);
  }

  /** Once the first `k` batches have brought the status to Up, all the batches leave it Up. */
  lemma UpAfterPrefix(s: ThreadStatus, batches: seq<seq<Op>>, k: nat)
    requires k <= |batches|
    requires After(s, Flatten(batches[..k])) == Up
    ensures After(s, Flatten(batches)) == Up
  {
    assert batches == batches[..k] + batches[k..];
    FlattenAppend(batches[..k], batches[k..]);
    AfterAppend(s, Flatten(batches[..k]), Flatten(batches[k..]));
    UpIsTerminal(Flatten(batches[k..]));
  }
}
