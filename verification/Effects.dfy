/** What each scheduler call does to the ring, said of the records and of who runs, without the functions
    that compute it. */
module Effects {
  import opened Options
  import opened Schedule

  /** `r` is the first task strictly after `i`, in ring order, that can run: everything passed on the way
      is paused. Going all the way round comes back to `i` itself. */
  ghost predicate FirstAfter(ring: seq<Tcb>, i: nat, r: nat) {
    && i < |ring| && r < |ring| && Runnable(ring, r)
    && (r > i ==> forall k :: i < k < r ==> !Runnable(ring, k))
    && (r <= i ==> (forall k :: i < k < |ring| ==> !Runnable(ring, k)) && forall k :: 0 <= k < r ==> !Runnable(ring, k))
  }

  /** The same tasks in the same order. */
  ghost predicate SamePids(a: seq<Tcb>, b: seq<Tcb>) {
    |a| == |b| && forall k :: 0 <= k < |a| ==> a[k].pid == b[k].pid
  }

  /** No record but those at `i` and `j` has changed. */
  ghost predicate OnlyTouched(a: seq<Tcb>, b: seq<Tcb>, i: int, j: int) {
    |a| == |b| && forall k :: 0 <= k < |a| && k != i && k != j ==> a[k] == b[k]
  }

  /** A tick: the first task after the running one that can run takes over and is active; the outgoing
      one is idle, unless it is the one to run again; no other record changes. */
  ghost predicate Ticked(s: State, t: State) {
    && SamePids(s.ring, t.ring) && t.nextPid == s.nextPid && OnlyTouched(s.ring, t.ring, s.cur, t.cur)
    && FirstAfter(s.ring, s.cur, t.cur) && t.ring[t.cur].status == Active
    && (t.cur != s.cur ==> t.ring[s.cur].status == Idle)
  }

  /** Pausing: a waiting task is paused and nothing else changes; if it was the running one, the first
      task after it that can run takes over. */
  ghost predicate Paused'(s: State, i: nat, t: State) {
    && SamePids(s.ring, t.ring) && t.nextPid == s.nextPid && i < |t.ring| && t.ring[i].status == Paused
    && (i != s.cur ==> t.cur == s.cur && OnlyTouched(s.ring, t.ring, i, i))
    && (i == s.cur ==>
          && FirstAfter(s.ring, i, t.cur) && t.cur != i && t.ring[t.cur].status == Active
          && OnlyTouched(s.ring, t.ring, i, t.cur))
  }

  /** Resuming: the task runs and is active, the outgoing one is idle, and no third record changes. */
  ghost predicate Resumed(s: State, i: nat, t: State) {
    && SamePids(s.ring, t.ring) && t.nextPid == s.nextPid
    && t.cur == i && i < |t.ring| && s.cur < |t.ring| && t.ring[i].status == Active
    && (i != s.cur ==> t.ring[s.cur].status == Idle)
    && OnlyTouched(s.ring, t.ring, i, s.cur)
  }

  /** Where the task at position `k` was before the one at position 1 left. */
  function Before(k: nat): nat { if k == 0 then 0 else k + 1 }

  /** Releasing the task after the head: the others keep pid, status and order. If another task was
      running, it still is; otherwise the first one after the released task that can run takes over. */
  ghost predicate Released(s: State, t: State) {
    && |t.ring| == |s.ring| - 1 && t.nextPid == s.nextPid && t.cur < |t.ring|
    && (forall k :: 0 <= k < |t.ring| ==> t.ring[k].pid == s.ring[Before(k)].pid)
    && (forall k :: 0 <= k < |t.ring| && (s.cur == 1 ==> k != t.cur) ==> t.ring[k] == s.ring[Before(k)])
    && (s.cur != 1 ==> Before(t.cur) == s.cur)
    && (s.cur == 1 ==> FirstAfter(s.ring, 1, Before(t.cur)) && t.ring[t.cur].status == Active)
  }

  /** Releasing a task further on, which stays linked: only if it was running does the first task after
      it that can run take over. */
  ghost predicate LeftLinked(s: State, i: nat, t: State) {
    && SamePids(s.ring, t.ring) && t.nextPid == s.nextPid
    && (i != s.cur ==> t == s)
    && (i == s.cur ==>
          && FirstAfter(s.ring, i, t.cur) && t.cur != i && t.ring[t.cur].status == Active
          && OnlyTouched(s.ring, t.ring, t.cur, t.cur))
  }

  /** Creating: one more task at the end, idle and with a pid no task had before; the others and who
      runs are as they were. */
  ghost predicate Created(s: State, t: State) {
    && |t.ring| == |s.ring| + 1 && t.ring[..|s.ring|] == s.ring && t.cur == s.cur
    && t.ring[|s.ring|] == Tcb(s.nextPid, Idle) && t.nextPid == s.nextPid + 1
  }

  /** What a call means for the schedule. Calls for the kernel task and for pids that no task has do
      nothing. */
  ghost predicate Means(s: State, op: Op, t: State) {
    match op
    case Create => Created(s, t)
    case Tick => Ticked(s, t)
    case Pause(pid) => forall i :: Addressed(s, pid, i) ==> Paused'(s, i, t)
    case Resume(pid) => forall i :: Addressed(s, pid, i) ==> Resumed(s, i, t)
    case Stop(pid) => forall i :: Addressed(s, pid, i) ==> Released(s, t)
  }

  ghost predicate Addressed(s: State, pid: int, i: int) {
    0 < i < |s.ring| && s.ring[i].pid == pid
  }

  ghost predicate NoOne(s: State, op: Op) {
    match op
    case Create => false
    case Tick => false
    case Pause(pid) => pid == 0 || forall i :: !Addressed(s, pid, i)
    case Resume(pid) => pid == 0 || forall i :: !Addressed(s, pid, i)
    case Stop(pid) => pid == 0 || forall i :: !Addressed(s, pid, i)
  }

  // ---- The functions do this ---------------------------------------------------------------------

  lemma FirstIsAfter(ring: seq<Tcb>, i: nat)
    requires i < |ring| && Runnable(ring, 0)
    ensures FirstAfter(ring, i, FirstRunnable(ring, Wrap(i + 1, |ring|)))
  {
    FirstRunnableIsFirst(ring, Wrap(i + 1, |ring|));
  }

  lemma TickMeans(s: State)
    requires Inv(s)
    ensures Ticked(s, TickState(s))
  {
    var idled := SetStatus(s.ring, s.cur, Idle);
    FirstIsAfter(idled, s.cur);
    assert SamePaused(s.ring, idled);
  }

  lemma PauseMeans(s: State, i: nat)
    requires Inv(s) && 0 < i < |s.ring|
    ensures Paused'(s, i, PauseAt(s, i))
  {
    TickMeans(s);
  }

  lemma ResumeMeans(s: State, i: nat)
    requires Inv(s) && 0 < i < |s.ring|
    ensures Resumed(s, i, ResumeAt(s, i))
  {
  }

  lemma WithoutSecond(ring: seq<Tcb>, k: nat)
    requires |ring| > 1 && k < |ring| - 1
    ensures Without(ring, 1)[k] == ring[Before(k)]
  {
  }

  lemma StopMeans(s: State)
    requires Inv(s) && |s.ring| > 1
    ensures Released(s, StopSecond(s))
  {
    var rest := Without(s.ring, 1);
    forall k | 0 <= k < |rest| ensures rest[k] == s.ring[Before(k)] { WithoutSecond(s.ring, k); }
    if s.cur == 1 {
      var start := if |rest| > 1 then 1 else 0;
      var r := FirstRunnable(rest, start);
      FirstRunnableIsFirst(rest, start);
      SuccessorTakesOver(s.ring, rest, start, r);
    }
  }

  lemma SuccessorTakesOver(ring: seq<Tcb>, rest: seq<Tcb>, start: nat, r: nat)
    requires |ring| > 1 && rest == Without(ring, 1) && Runnable(ring, 0)
    requires start == (if |rest| > 1 then 1 else 0) && r < |rest| && Runnable(rest, r)
    requires if r >= start then forall k :: start <= k < r ==> !Runnable(rest, k)
             else r == 0 && forall k :: start <= k < |rest| ==> !Runnable(rest, k)
    ensures FirstAfter(ring, 1, Before(r))
  {
    forall k | 1 < k < |ring| ensures ring[k] == rest[k - 1] { WithoutSecond(ring, k - 1); }
    WithoutSecond(ring, r);
    if r >= 1 {
      forall k | 1 < k < Before(r) ensures !Runnable(ring, k) { assert !Runnable(rest, k - 1); }
    } else {
      forall k | 1 < k < |ring| ensures !Runnable(ring, k) { assert !Runnable(rest, k - 1); }
    }
  }

  lemma StopFurtherMeans(s: State, i: nat)
    requires Inv(s) && 1 < i < |s.ring|
    ensures LeftLinked(s, i, StopFurther(s, i))
  {
    FirstIsAfter(s.ring, i);
    assert Runnable(s.ring, 0);
    assert FirstRunnable(s.ring, Wrap(i + 1, |s.ring|)) != i;
  }

  lemma ForSomeone(s: State, pid: int)
    requires Inv(s) && pid != 0 && FindPid(s.ring, pid).Some?
    ensures Addressed(s, pid, FindPid(s.ring, pid).value)
  {
  }

  /** Every call of a run does what it means. */
  lemma StepMeans(s: State, op: Op)
    requires Inv(s) && Enabled(s, op)
    ensures Means(s, op, Step(s, op))
  {
    match op
    case Create =>
    case Tick => TickMeans(s);
    case Pause(pid) =>
      forall i | Addressed(s, pid, i) ensures Paused'(s, i, Step(s, op)) {
        FindPidIsFirst(s.ring, pid, i);
        PauseMeans(s, i);
      }
    case Resume(pid) =>
      forall i | Addressed(s, pid, i) ensures Resumed(s, i, Step(s, op)) {
        FindPidIsFirst(s.ring, pid, i);
        ResumeMeans(s, i);
      }
    case Stop(pid) =>
      forall i | Addressed(s, pid, i) ensures Released(s, Step(s, op)) {
        FindPidIsFirst(s.ring, pid, i);
        StopMeans(s);
      }
  }

  lemma NothingForNoOne(s: State, op: Op)
    requires Inv(s) && Enabled(s, op) && NoOne(s, op)
    ensures Step(s, op) == s
  {
    match op
    case Pause(pid) => if pid != 0 && FindPid(s.ring, pid).Some? { ForSomeone(s, pid); }
    case Resume(pid) => if pid != 0 && FindPid(s.ring, pid).Some? { ForSomeone(s, pid); }
    case Stop(pid) => if pid != 0 && FindPid(s.ring, pid).Some? { ForSomeone(s, pid); }
  }

  // ---- Over runs ---------------------------------------------------------------------------------

  /** The task that runs after a call, if no call was about it, is the one that ran before, unless the
      call was a tick or gave the CPU to another. */
  lemma RunningTaskKept(s: State, op: Op)
    requires Inv(s) && Enabled(s, op) && !op.Tick?
    requires op.Resume? || op.Pause? || op.Stop? ==> op.pid != s.ring[s.cur].pid
    requires op.Resume? ==> NoOne(s, op)
    ensures Inv(Step(s, op)) && Step(s, op).ring[Step(s, op).cur] == s.ring[s.cur]
  {
    StepKeepsInv(s, op);
    if NoOne(s, op) {
      NothingForNoOne(s, op);
    } else {
      StepMeans(s, op);
    }
  }

  /** Between ticks, nothing but a call about it takes the CPU from the running task. */
  lemma {:induction false} RunsUntilTick(s: State, run: seq<Op>)
    requires Inv(s) && Legal(s, run)
    requires forall k :: 0 <= k < |run| ==>
               && !run[k].Tick? && !run[k].Resume?
               && (run[k].Pause? || run[k].Stop? ==> run[k].pid != s.ring[s.cur].pid)
    ensures After(s, run).ring[After(s, run).cur] == s.ring[s.cur]
    decreases |run|
  {
    if run != [] {
      RunningTaskKept(s, run[0]);
      assert forall k :: 0 <= k < |run| - 1 ==> run[1..][k] == run[k + 1];
      RunsUntilTick(Step(s, run[0]), run[1..]);
    }
  }
}
