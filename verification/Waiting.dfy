/** Polling against a clock and a cluster that answer as they please. */
module Waiting {
  import opened Text
  import opened Wrappers
  import Upid

  /** When the clock is read for the k-th time, counted from the start. */
  function ReadAt(late: nat, spent: nat -> nat, k: nat): nat {
    if k == 0 then late else ReadAt(late, spent, k - 1) + spent(k - 1)
  }

  lemma {:induction false} TimePasses(late: nat, spent: nat -> nat, step: nat, k: nat)
    requires forall j :: spent(j) >= step
    ensures ReadAt(late, spent, k) >= k * step
  {
    if k > 0 {
      TimePasses(late, spent, step, k - 1);
      assert k * step == (k - 1) * step + step;
    }
  }

  lemma {:induction false} TimeGrows(late: nat, spent: nat -> nat, j: nat, k: nat)
    requires j <= k
    ensures ReadAt(late, spent, j) <= ReadAt(late, spent, k)
  {
    if j < k {
      TimeGrows(late, spent, j, k - 1);
    }
  }

  // ----- wait_for

  datatype Poll = Holds | DoesNotHold | Raises

  datatype Waited = Met | GaveUp(hadError: bool)

  /** The first poll at which the condition held came in time. */
  ghost predicate MetInTime(polls: nat -> Poll, late: nat, spent: nat -> nat, timeout: int, k: nat) {
    polls(k).Holds? && ReadAt(late, spent, k) < timeout && forall j: nat | j < k :: !polls(j).Holds?
  }

  /**
   `polls(k)` is what the condition does the k-th time it is asked, and `spent(k)` the time
   from that reading of the clock to the next, sleep included; `late` is the time from the
   start to the first.
   */
  method WaitFor(polls: nat -> Poll, late: nat, spent: nat -> nat, timeout: int, interval: nat)
      returns (r: Waited, asked: nat)
    requires interval >= 1 && forall k :: spent(k) >= interval
    ensures r.Met? <==> exists k :: MetInTime(polls, late, spent, timeout, k)
    ensures r.Met? ==> asked >= 1 && MetInTime(polls, late, spent, timeout, asked - 1)
    ensures r.GaveUp? ==> forall k | 0 <= k < asked :: !polls(k).Holds?
    ensures r.GaveUp? ==> (r.hadError <==> exists k | 0 <= k < asked :: polls(k).Raises?)
    ensures asked > 0 ==> (asked - 1) * interval < timeout  // at most ceil(timeout / interval)
  {
    var now, hadError := late, false;
    asked := 0;
    while now < timeout
      invariant now == ReadAt(late, spent, asked)
      invariant forall k | 0 <= k < asked :: !polls(k).Holds?
      invariant hadError <==> exists k | 0 <= k < asked :: polls(k).Raises?
      invariant asked > 0 ==> (asked - 1) * interval < timeout
      decreases timeout - now
    {
      TimePasses(late, spent, interval, asked);
      var answer := polls(asked);
      asked := asked + 1;
      if answer.Holds? {
        assert MetInTime(polls, late, spent, timeout, asked - 1);
        return Met, asked;
      }
      hadError := hadError || answer.Raises?;
      now := now + spent(asked - 1);
    }
    forall k: nat ensures !MetInTime(polls, late, spent, timeout, k) {
      if k >= asked {
        TimeGrows(late, spent, asked, k);
      }
    }
    return GaveUp(hadError), asked;
  }

  // ----- NodeSSH.wait

  /** A node that does not answer is asked again; `spent(k)` includes the sleep in between. */
  method WaitForNode(alive: nat -> bool, spent: nat -> nat, timeout: int, interval: nat) returns (up: bool, asked: nat)
    requires interval >= 1 && forall k :: spent(k) >= interval
    ensures up <==> exists k :: alive(k) && ReadAt(0, spent, k) < timeout
    ensures up ==> asked >= 1 && alive(asked - 1)
    ensures forall k | 0 <= k < asked - 1 :: !alive(k)
    ensures asked > 0 ==> (asked - 1) * interval < timeout
  {
    var now := 0;
    asked := 0;
    while now < timeout
      invariant now == ReadAt(0, spent, asked)
      invariant forall k | 0 <= k < asked :: !alive(k)
      invariant asked > 0 ==> (asked - 1) * interval < timeout
      decreases timeout - now
    {
      TimePasses(0, spent, interval, asked);
      asked := asked + 1;
      if alive(asked - 1) {
        return true, asked;
      }
      now := now + spent(asked - 1);
    }
    forall k: nat | k >= asked ensures ReadAt(0, spent, k) >= timeout {
      TimeGrows(0, spent, asked, k);
    }
    return false, asked;
  }

  // ----- wait_for_task

  /** What a call that may have started a task gave back. */
  datatype TaskRef = NoTask | Structure | OtherValue | Name(text: string)

  datatype TaskAnswer = RequestFails | Status(status: string, exitStatus: string)

  datatype TaskEnd = Succeeded | NotATask | TaskFailed(exitStatus: string) | RequestFailed | NotInTime

  predicate IsPending(a: TaskAnswer) {
    a.Status? && a.status != "stopped"
  }

  predicate IsSuccess(a: TaskAnswer) {
    a.Status? && a.status == "stopped" && (a.exitStatus == "OK" || StartsWith(a.exitStatus, "WARNINGS"))
  }

  /**
   How waiting ends when an answer is the first that is not a running task's. Of a task that
   failed the log is asked for, and that request may fail as well.
   */
  function EndFor(a: TaskAnswer, logComes: bool): TaskEnd
    requires !IsPending(a)
  {
    if a.RequestFails? then RequestFailed
    else if IsSuccess(a) then Succeeded
    else if logComes then TaskFailed(a.exitStatus)
    else RequestFailed
  }

  ghost predicate DecidedAt(ask: (string, nat) -> TaskAnswer, node: string, late: nat, spent: nat -> nat, timeout: int, k: nat) {
    && !IsPending(ask(node, k)) && ReadAt(late, spent, k) < timeout
    && forall j: nat | j < k :: IsPending(ask(node, j))
  }

  /** How waiting for a task ends, told without the loop. */
  ghost predicate TaskEndsAs(task: TaskRef, localNode: string, ask: (string, nat) -> TaskAnswer, logComes: string -> bool,
                             late: nat, spent: nat -> nat, timeout: int, r: TaskEnd)
  {
    && (task.NoTask? || task.Structure? ==> r == Succeeded)
    && (task.OtherValue? || (task.Name? && !StartsWith(task.text, "UPID")) ==> r == NotATask)
    && (task.Name? && StartsWith(task.text, "UPID") ==>
          var node := Upid.TaskNode(task.text, localNode);
          && r != NotATask
          && (forall k | DecidedAt(ask, node, late, spent, timeout, k) :: r == EndFor(ask(node, k), logComes(node)))
          && (r == NotInTime <==> forall k :: !DecidedAt(ask, node, late, spent, timeout, k)))
  }

  /**
   `ask(node, k)` is what `node` answers to the k-th question about the task, and `logComes(node)`
   whether it gives the task's log.
   */
  method WaitForTask(task: TaskRef, localNode: string, ask: (string, nat) -> TaskAnswer, logComes: string -> bool,
                     late: nat, spent: nat -> nat, timeout: int)
      returns (r: TaskEnd)
    requires forall k :: spent(k) >= 1
    ensures TaskEndsAs(task, localNode, ask, logComes, late, spent, timeout, r)
  {
    match task {
      case NoTask => return Succeeded;
      case Structure => return Succeeded;
      case OtherValue => return NotATask;
      case Name(text) =>
        if !StartsWith(text, "UPID") {
          return NotATask;
        }
        r := PollTask(Upid.TaskNode(text, localNode), ask, logComes, late, spent, timeout);
    }
  }

  method PollTask(node: string, ask: (string, nat) -> TaskAnswer, logComes: string -> bool,
                  late: nat, spent: nat -> nat, timeout: int)
      returns (r: TaskEnd)
    requires forall k :: spent(k) >= 1
    ensures r != NotATask
    ensures forall k | DecidedAt(ask, node, late, spent, timeout, k) :: r == EndFor(ask(node, k), logComes(node))
    ensures r == NotInTime <==> forall k :: !DecidedAt(ask, node, late, spent, timeout, k)
  {
    var now, asked := late, 0;
    while now < timeout
      invariant now == ReadAt(late, spent, asked)
      invariant forall k | 0 <= k < asked :: IsPending(ask(node, k))
      decreases timeout - now
    {
      var answer := ask(node, asked);
      if !IsPending(answer) {
        assert DecidedAt(ask, node, late, spent, timeout, asked);
        forall k | DecidedAt(ask, node, late, spent, timeout, k) ensures k == asked {
        }
        return EndFor(answer, logComes(node));
      }
      now := now + spent(asked);
      asked := asked + 1;
    }
    forall k: nat ensures !DecidedAt(ask, node, late, spent, timeout, k) {
      if k >= asked {
        TimeGrows(late, spent, asked, k);
      }
    }
    return NotInTime;
  }

  /**
   Two clusters that agree on what the node in the id answers end the waiting alike, whatever
   their other nodes say and whatever node the caller is on.
   */
  lemma OnlyItsOwnNodeCounts(node: string, rest: string, here: string, there: string,
                             ask: (string, nat) -> TaskAnswer, other: (string, nat) -> TaskAnswer,
                             logComes: string -> bool, otherLog: string -> bool,
                             late: nat, spent: nat -> nat, timeout: int, r: TaskEnd, r': TaskEnd)
    requires ':' !in node && node != "" && (forall k :: ask(node, k) == other(node, k)) && logComes(node) == otherLog(node)
    requires TaskEndsAs(Name(Upid.MARK + node + ":" + rest), here, ask, logComes, late, spent, timeout, r)
    requires TaskEndsAs(Name(Upid.MARK + node + ":" + rest), there, other, otherLog, late, spent, timeout, r')
    ensures r == r'
  {
    var text := Upid.MARK + node + ":" + rest;
    Upid.TaskNodeOfUpid(node, rest, here);
    Upid.TaskNodeOfUpid(node, rest, there);
    assert text[..4] == "UPID" && StartsWith(text, "UPID");
    SameDecision(ask, other, node, late, spent, timeout);
    if k :| DecidedAt(ask, node, late, spent, timeout, k) {
      assert r == EndFor(ask(node, k), logComes(node)) && r' == EndFor(other(node, k), otherLog(node));
    }
  }

  lemma SameDecision(ask: (string, nat) -> TaskAnswer, other: (string, nat) -> TaskAnswer, node: string,
                     late: nat, spent: nat -> nat, timeout: int)
    requires forall k :: ask(node, k) == other(node, k)
    ensures forall k :: DecidedAt(ask, node, late, spent, timeout, k) <==> DecidedAt(other, node, late, spent, timeout, k)
  {
    forall k ensures DecidedAt(ask, node, late, spent, timeout, k) <==> DecidedAt(other, node, late, spent, timeout, k) {
      assert forall j :: IsPending(ask(node, j)) <==> IsPending(other(node, j));
    }
  }
}
