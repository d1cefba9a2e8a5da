/** How long a task that can run waits for the CPU while tasks are created, paused and stopped. */
module Waiting {
  import opened Options
  import opened Schedule
  import opened RoundRobin

  /** The task with this pid is at position `i`, can run, and is not running. */
  ghost predicate Ready(s: State, pid: int, i: nat) {
    i < |s.ring| && s.ring[i].pid == pid && Runnable(s.ring, i) && i != s.cur
  }

  /** How many steps along the ring it is from the running task to the one at `i`. */
  function Away(s: State, i: nat): int {
    if i > s.cur then i - s.cur else i + |s.ring| - s.cur
  }

  /** Calls that are about that task itself, and calls that give the CPU away out of turn. */
  predicate Interferes(op: Op, pid: int) {
    op.Resume? || (pid != 0 && (op == Pause(pid) || op == Stop(pid)))
  }

  function Cost(op: Op): int {
    match op
    case Tick => -1
    case Create => 1
    case _ => 0
  }

  /** After a step the task is at `j`, can still run, and either runs or is not further away than it
      was, a tick bringing it closer and a new task taking it one further. */
  ghost predicate Approached(s: State, pid: int, i: nat, t: State, j: nat, cost: int) {
    && j < |t.ring| && t.ring[j].pid == pid && Runnable(t.ring, j)
    && (j != t.cur ==> Away(t, j) <= Away(s, i) + cost)
  }

  lemma TickApproaches(s: State, pid: int, i: nat)
    requires Inv(s) && Ready(s, pid, i)
    ensures Approached(s, pid, i, TickState(s), i, -1)
  {
    SelectSkipsOnlyPaused(s.ring, s.cur);
  }

  lemma PauseApproaches(s: State, pid: int, i: nat, k: nat)
    requires Inv(s) && Ready(s, pid, i) && 0 < k < |s.ring| && k != i
    ensures Approached(s, pid, i, PauseAt(s, k), i, 0)
  {
    TickApproaches(s, pid, i);
  }

  lemma StopApproaches(s: State, pid: int, i: nat)
    requires Inv(s) && Ready(s, pid, i) && |s.ring| > 1 && i != 1
    ensures Approached(s, pid, i, StopSecond(s), if i > 1 then i - 1 else i, 0)
  {
    var rest, j := Without(s.ring, 1), if i > 1 then i - 1 else i;
    assert rest[j] == s.ring[i];
    if s.cur == 1 {
      var start := if |rest| > 1 then 1 else 0;
      var r := FirstRunnable(rest, start);
      FirstRunnableIsFirst(rest, start);
      assert Runnable(rest, j);
      assert j >= start ==> start <= r <= j;
    }
  }

  lemma StepApproaches(s: State, op: Op, pid: int, i: nat) returns (j: nat)
    requires Inv(s) && Enabled(s, op) && Ready(s, pid, i) && !Interferes(op, pid)
    ensures Approached(s, pid, i, Step(s, op), j, Cost(op))
  {
    j := i;
    match op
    case Create =>
    case Tick => TickApproaches(s, pid, i);
    case Pause(p) =>
      var k := FindPid(s.ring, p);
      if p != 0 && k.Some? { PauseApproaches(s, pid, i, k.value); }
    case Stop(p) =>
      if p != 0 && FindPid(s.ring, p).Some? {
        StopApproaches(s, pid, i);
        j := if i > 1 then i - 1 else i;
      }
  }

  // ---- Runs ------------------------------------------------------------------------------------

  /** The task does not run in any state of the run. */
  ghost predicate NeverRuns(s: State, run: seq<Op>, pid: int)
    requires Inv(s) && Legal(s, run)
    decreases |run|
  {
    && s.ring[s.cur].pid != pid
    && (run == [] || (StepKeepsInv(s, run[0]); NeverRuns(Step(s, run[0]), run[1..], pid)))
  }

  ghost predicate Untouched(run: seq<Op>, pid: int) {
    forall k :: 0 <= k < |run| ==> !Interferes(run[k], pid)
  }

  function TickCount(run: seq<Op>): nat {
    if run == [] then 0 else (if run[0].Tick? then 1 else 0) + TickCount(run[1..])
  }

  function CreateCount(run: seq<Op>): nat {
    if run == [] then 0 else (if run[0].Create? then 1 else 0) + CreateCount(run[1..])
  }

  /** Bounded waiting: whatever is created, paused and stopped meanwhile, a task that can run gets the
      CPU before there have been as many ticks as it was away plus one for every task created. */
  lemma {:induction false} WaitIsBounded(s: State, run: seq<Op>, pid: int, i: nat)
    requires Inv(s) && Legal(s, run) && Ready(s, pid, i)
    requires Untouched(run, pid)
    ensures 0 < Away(s, i) < |s.ring| && (s.cur + Away(s, i) == i || s.cur + Away(s, i) == i + |s.ring|)
    ensures TickCount(run) >= Away(s, i) + CreateCount(run) ==> !NeverRuns(s, run, pid)
    decreases |run|
  {
    if run != [] && NeverRuns(s, run, pid) {
      StepKeepsInv(s, run[0]);
      var j := StepApproaches(s, run[0], pid, i);
      var t, rest := Step(s, run[0]), run[1..];
      assert NeverRuns(t, rest, pid) && t.ring[t.cur].pid != pid;
      assert forall k :: 0 <= k < |rest| ==> rest[k] == run[k + 1];
      WaitIsBounded(t, rest, pid, j);
    }
  }

  // ---- Why the tasks created count -------------------------------------------------------------

  /** Three tasks, the last of them running. */
  function Three(a: int, b: int, next: int): State {
    State([Tcb(0, Idle), Tcb(a, Idle), Tcb(b, Active)], 2, next)
  }

  /** A new task at the end of the ring takes the next turn, and the task after the head goes. */
  function Churn(a: int, b: int, next: int, n: nat): seq<Op>
    decreases n
  {
    if n == 0 then [] else [Create] + ([Tick] + ([Stop(a)] + Churn(b, next, next + 1, n - 1)))
  }

  lemma ChurnOnce(a: int, b: int, next: int)
    requires 0 < a < next && 0 < b < next && a != b
    ensures var s := Three(a, b, next);
            && Inv(s) && Enabled(s, Create) && Inv(Step(s, Create))
            && var t := Step(s, Create);
               && t.ring[t.cur].pid == b && Inv(Step(t, Tick))
               && var u := Step(t, Tick);
                  && u.ring[u.cur].pid == next && Enabled(u, Stop(a))
                  && Step(u, Stop(a)) == Three(b, next, next + 1)
  {
    var s := Three(a, b, next);
    var t := Step(s, Create);
    StepKeepsInv(s, Create);
    StepKeepsInv(t, Tick);
    var u := Step(t, Tick);
    assert Select(t.ring, 2) == 3;
    assert u.ring == [Tcb(0, Idle), Tcb(a, Idle), Tcb(b, Idle), Tcb(next, Active)];
    FindPidIsFirst(u.ring, a, 1);
    assert Without(u.ring, 1) == [Tcb(0, Idle), Tcb(b, Idle), Tcb(next, Active)];
  }

  /** One call before a run through which the task waits. */
  lemma WaitsThrough(s: State, op: Op, rest: seq<Op>, pid: int)
    requires Inv(s) && Enabled(s, op) && Inv(Step(s, op)) && Legal(Step(s, op), rest) && NeverRuns(Step(s, op), rest, pid)
    requires s.ring[s.cur].pid != pid && Untouched(rest, pid) && !Interferes(op, pid)
    ensures Legal(s, [op] + rest) && NeverRuns(s, [op] + rest, pid) && Untouched([op] + rest, pid)
    ensures TickCount([op] + rest) == TickCount(rest) + if op.Tick? then 1 else 0
  {
    assert ([op] + rest)[1..] == rest;
  }

  /** With a task created before every tick and one stopped after it, the ring never holds more than
      four tasks, and the kernel task, which can always run, waits through any number of ticks. */
  lemma {:induction false} ChurnStarves(a: int, b: int, next: int, n: nat)
    requires 0 < a < next && 0 < b < next && a != b
    ensures var s, run := Three(a, b, next), Churn(a, b, next, n);
            && Inv(s) && Ready(s, 0, 0) && Legal(s, run) && NeverRuns(s, run, 0)
            && TickCount(run) == n && Untouched(run, 0)
    decreases n
  {
    ChurnOnce(a, b, next);
    if n > 0 {
      ChurnStarves(b, next, next + 1, n - 1);
      ChurnRound(a, b, next, Churn(b, next, next + 1, n - 1));
    }
  }

  lemma ChurnRound(a: int, b: int, next: int, rest: seq<Op>)
    requires 0 < a < next && 0 < b < next && a != b
    requires var r := Three(b, next, next + 1); Inv(r) && Legal(r, rest) && NeverRuns(r, rest, 0) && Untouched(rest, 0)
    ensures var s, run := Three(a, b, next), [Create] + ([Tick] + ([Stop(a)] + rest));
            && Inv(s) && Legal(s, run) && NeverRuns(s, run, 0) && Untouched(run, 0)
            && TickCount(run) == TickCount(rest) + 1
  {
    ChurnOnce(a, b, next);
    var s := Three(a, b, next);
    var t := Step(s, Create);
    var u := Step(t, Tick);
    WaitsThrough(u, Stop(a), rest, 0);
    WaitsThrough(t, Tick, [Stop(a)] + rest, 0);
    WaitsThrough(s, Create, [Tick] + ([Stop(a)] + rest), 0);
  }
}
