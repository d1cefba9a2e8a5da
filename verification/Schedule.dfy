/** The Osmium schedule as a value: what each scheduler call, taken together with the context
    switch it queues, does to the task ring, and what every run of such calls keeps. */
module Schedule {
  import opened Options

  datatype Status = Idle | Active | Paused

  datatype Tcb = Tcb(pid: int, status: Status)

  /** `ring` lists the tasks from the head on, `cur` is the position of the running one. */
  datatype State = State(ring: seq<Tcb>, cur: nat, nextPid: int)

  datatype Op = Create | Tick | Pause(pid: int) | Resume(pid: int) | Stop(pid: int)

  const MAX_TASKS := 255

  /** Positions on a ring of `n` tasks. */
  function Wrap(x: nat, n: nat): (w: nat)
    requires x < 2 * n
    ensures w < n
  {
    if x < n then x else x - n
  }

  predicate Runnable(ring: seq<Tcb>, i: int)
    requires 0 <= i < |ring|
  {
    ring[i].status != Paused
  }

  ghost predicate Inv(s: State) {
    && 0 < |s.ring| <= MAX_TASKS
    && s.cur < |s.ring|
    && s.ring[0].pid == 0 && Runnable(s.ring, 0)
    && Runnable(s.ring, s.cur)
    && (forall i, j :: 0 <= i < j < |s.ring| ==> s.ring[i].pid != s.ring[j].pid)
    && (forall i :: 0 <= i < |s.ring| ==> 0 <= s.ring[i].pid < s.nextPid)
    && (forall i :: 0 <= i < |s.ring| && s.ring[i].status == Active ==> i == s.cur)
  }

  const Boot := State([Tcb(0, Idle)], 0, 1)

  // ---- Selecting a task ---------------------------------------------------------------------

  /** The skip loop of os_task_next, from position `j`. It ends because the kernel task at the
      head is never paused. */
  function FirstRunnable(ring: seq<Tcb>, j: nat): (r: nat)
    requires j < |ring| && Runnable(ring, 0)
    ensures r < |ring| && Runnable(ring, r)
    decreases if j == 0 then 0 else |ring| - j
  {
    if Runnable(ring, j) then j else FirstRunnable(ring, Wrap(j + 1, |ring|))
  }

  function SetStatus(ring: seq<Tcb>, i: nat, status: Status): (r: seq<Tcb>)
    requires i < |ring|
  {
    ring[i := ring[i].(status := status)]
  }

  /** os_task_next up to the switch: the task after `cur`, or the first one that can run. */
  function Select(ring: seq<Tcb>, cur: nat): (r: nat)
    requires cur < |ring| && Runnable(ring, 0)
    ensures r < |ring|
  {
    FirstRunnable(SetStatus(ring, cur, Idle), Wrap(cur + 1, |ring|))
  }

  /** The statuses os_task_next leaves. */
  function Selected(ring: seq<Tcb>, cur: nat): (r: seq<Tcb>)
    requires cur < |ring| && Runnable(ring, 0)
    ensures |r| == |ring|
  {
    SetStatus(SetStatus(ring, cur, Idle), Select(ring, cur), Active)
  }

  function FindPid(ring: seq<Tcb>, pid: int): (r: Option<nat>)
    ensures r.Some? ==> r.value < |ring| && ring[r.value].pid == pid
    ensures r.None? ==> forall i :: 0 <= i < |ring| ==> ring[i].pid != pid
  {
    if |ring| == 0 then None
    else if ring[0].pid == pid then Some(0)
    else match FindPid(ring[1..], pid)
      case None => None
      case Some(i) => Some(i + 1)
  }

  lemma {:induction false} FindPidIsFirst(ring: seq<Tcb>, pid: int, i: nat)
    requires i < |ring| && ring[i].pid == pid
    requires forall k :: 0 <= k < i ==> ring[k].pid != pid
    ensures FindPid(ring, pid) == Some(i)
    decreases i
  {
    if i > 0 {
      FindPidIsFirst(ring[1..], pid, i - 1);
    }
  }

  // ---- The calls -----------------------------------------------------------------------------

  /** A ring that already holds MAX_TASKS tasks takes no more, and only the task after the head
      can be released without breaking the ring. */
  ghost predicate Enabled(s: State, op: Op) {
    match op
    case Create => |s.ring| < MAX_TASKS
    case Stop(pid) => pid == 0 || FindPid(s.ring, pid).None? || FindPid(s.ring, pid).value == 1
    case _ => true
  }

  function Without<T>(ring: seq<T>, i: nat): seq<T>
    requires i < |ring|
  {
    ring[..i] + ring[i + 1..]
  }

  function TickState(s: State): State
    requires s.cur < |s.ring| && Runnable(s.ring, 0)
  {
    State(Selected(s.ring, s.cur), Select(s.ring, s.cur), s.nextPid)
  }

  function PauseAt(s: State, i: nat): State
    requires s.cur < |s.ring| && Runnable(s.ring, 0) && i < |s.ring|
  {
    var t := if i == s.cur then TickState(s) else s;
    State(SetStatus(t.ring, i, Paused), t.cur, s.nextPid)
  }

  function ResumeAt(s: State, i: nat): State
    requires s.cur < |s.ring| && i < |s.ring|
  {
    State(SetStatus(SetStatus(s.ring, s.cur, Idle), i, Active), i, s.nextPid)
  }

  /** Release of the task after the head. */
  function StopSecond(s: State): State
    requires s.cur < |s.ring| && |s.ring| > 1 && Runnable(s.ring, 0)
  {
    var rest := Without(s.ring, 1);
    if s.cur == 1 then
      var r := FirstRunnable(rest, if |rest| > 1 then 1 else 0);
      State(SetStatus(rest, r, Active), r, s.nextPid)
    else
      State(rest, if s.cur > 1 then s.cur - 1 else s.cur, s.nextPid)
  }

  /** Release of a task further on, which stays linked: all that changes is who runs. */
  function StopFurther(s: State, i: nat): State
    requires s.cur < |s.ring| && 1 < i < |s.ring| && Runnable(s.ring, 0)
  {
    if s.cur == i then
      var r := FirstRunnable(s.ring, Wrap(i + 1, |s.ring|));
      State(SetStatus(s.ring, r, Active), r, s.nextPid)
    else s
  }

  ghost function Step(s: State, op: Op): State
    requires Inv(s) && Enabled(s, op)
  {
    match op
    case Create => State(s.ring + [Tcb(s.nextPid, Idle)], s.cur, s.nextPid + 1)
    case Tick => TickState(s)
    case Pause(pid) =>
      var i := FindPid(s.ring, pid);
      if pid == 0 || i.None? then s else PauseAt(s, i.value)
    case Resume(pid) =>
      var i := FindPid(s.ring, pid);
      if pid == 0 || i.None? then s else ResumeAt(s, i.value)
    case Stop(pid) =>
      if pid == 0 || FindPid(s.ring, pid).None? then s else StopSecond(s)
  }

  // ---- Every run -----------------------------------------------------------------------------

  /** The selected task is at or after `j`, with nothing runnable skipped, or is the head with
      nothing runnable between `j` and the end of the ring. */
  lemma {:induction false} FirstRunnableIsFirst(ring: seq<Tcb>, j: nat)
    requires j < |ring| && Runnable(ring, 0)
    ensures var r := FirstRunnable(ring, j);
            if r >= j then forall i :: j <= i < r ==> !Runnable(ring, i)
            else r == 0 && forall i :: j <= i < |ring| ==> !Runnable(ring, i)
    decreases |ring| - j
  {
    if !Runnable(ring, j) && j + 1 < |ring| {
      FirstRunnableIsFirst(ring, j + 1);
    }
  }

  lemma TickKeepsInv(s: State)
    requires Inv(s)
    ensures Inv(TickState(s))
  {
  }

  lemma PauseKeepsInv(s: State, i: nat)
    requires Inv(s) && 0 < i < |s.ring|
    ensures Inv(PauseAt(s, i))
  {
    TickKeepsInv(s);
    FirstRunnableIsFirst(SetStatus(s.ring, s.cur, Idle), Wrap(s.cur + 1, |s.ring|));
  }

  lemma ResumeKeepsInv(s: State, i: nat)
    requires Inv(s) && 0 < i < |s.ring|
    ensures Inv(ResumeAt(s, i))
  {
  }

  lemma StopKeepsInv(s: State)
    requires Inv(s) && |s.ring| > 1
    ensures Inv(StopSecond(s))
  {
  }

  lemma StepKeepsInv(s: State, op: Op)
    requires Inv(s) && Enabled(s, op)
    ensures Inv(Step(s, op))
  {
    match op
    case Create =>
    case Tick => TickKeepsInv(s);
    case Pause(pid) =>
      var i := FindPid(s.ring, pid);
      if pid != 0 && i.Some? { PauseKeepsInv(s, i.value); }
    case Resume(pid) =>
      var i := FindPid(s.ring, pid);
      if pid != 0 && i.Some? { ResumeKeepsInv(s, i.value); }
    case Stop(pid) =>
      if pid != 0 && FindPid(s.ring, pid).Some? { StopKeepsInv(s); }
  }

  /** `run` is a run of calls from `s`, each one enabled when it is made. */
  ghost predicate Legal(s: State, run: seq<Op>)
    requires Inv(s)
    decreases |run|
  {
    run == [] || (Enabled(s, run[0]) && (StepKeepsInv(s, run[0]); Legal(Step(s, run[0]), run[1..])))
  }

  ghost function After(s: State, run: seq<Op>): (t: State)
    requires Inv(s) && Legal(s, run)
    ensures Inv(t)
    decreases |run|
  {
    if run == [] then s
    else
      StepKeepsInv(s, run[0]);
      After(Step(s, run[0]), run[1..])
  }

  // ---- Paused tasks do not run ---------------------------------------------------------------

  /** No task with this pid can run, now or as a task yet to be created. */
  ghost predicate OffCpu(s: State, pid: int) {
    && pid < s.nextPid
    && forall i :: 0 <= i < |s.ring| && s.ring[i].pid == pid ==> s.ring[i].status == Paused
  }

  lemma TickKeepsOffCpu(s: State, pid: int)
    requires Inv(s) && OffCpu(s, pid)
    ensures OffCpu(TickState(s), pid)
  {
    var idled := SetStatus(s.ring, s.cur, Idle);
    assert Runnable(idled, Select(s.ring, s.cur));
  }

  lemma StopKeepsOffCpu(s: State, pid: int)
    requires Inv(s) && |s.ring| > 1 && OffCpu(s, pid)
    ensures OffCpu(StopSecond(s), pid)
  {
    var rest := Without(s.ring, 1);
    assert forall i :: 0 <= i < |rest| ==> rest[i] == s.ring[if i < 1 then i else i + 1];
  }

  lemma StepKeepsOffCpu(s: State, op: Op, pid: int)
    requires Inv(s) && Enabled(s, op) && OffCpu(s, pid) && op != Resume(pid)
    ensures OffCpu(Step(s, op), pid)
  {
    TickKeepsOffCpu(s, pid);
    match op
    case Create =>
    case Tick =>
    case Pause(_) =>
    case Resume(_) =>
    case Stop(p) =>
      if p != 0 && FindPid(s.ring, p).Some? { StopKeepsOffCpu(s, pid); }
  }

  /** A paused task is never the running one again until a call resumes it, however many other
      calls are made meanwhile. */
  lemma {:induction false} PausedUntilResumed(s: State, run: seq<Op>, pid: int)
    requires Inv(s) && Legal(s, run) && OffCpu(s, pid)
    requires Resume(pid) !in run
    ensures OffCpu(After(s, run), pid)
    ensures var t := After(s, run); t.ring[t.cur].pid != pid
    decreases |run|
  {
    if run != [] {
      StepKeepsInv(s, run[0]);
      StepKeepsOffCpu(s, run[0], pid);
      PausedUntilResumed(Step(s, run[0]), run[1..], pid);
    }
  }

  /** Pausing takes a task off the CPU; resuming makes it the running one. */
  lemma PauseAndResumeTakeEffect(s: State, pid: int)
    requires Inv(s) && pid != 0 && FindPid(s.ring, pid).Some?
    ensures OffCpu(Step(s, Pause(pid)), pid)
    ensures var t := Step(s, Resume(pid)); t.ring[t.cur] == Tcb(pid, Active)
  {
  }

  // ---- Selection --------------------------------------------------------------------------------

  /** The same tasks are paused. */
  ghost predicate SamePaused(a: seq<Tcb>, b: seq<Tcb>) {
    |a| == |b| && forall i :: 0 <= i < |a| ==> (Runnable(a, i) <==> Runnable(b, i))
  }

  lemma {:induction false} FirstRunnableSame(a: seq<Tcb>, b: seq<Tcb>, j: nat)
    requires SamePaused(a, b) && j < |a| && Runnable(a, 0)
    ensures FirstRunnable(a, j) == FirstRunnable(b, j)
    decreases if j == 0 then 0 else |a| - j
  {
    if !Runnable(a, j) {
      FirstRunnableSame(a, b, Wrap(j + 1, |a|));
    }
  }

  /** Calling os_task_next again before the switch selects the same task and changes nothing. */
  lemma SelectIdempotent(ring: seq<Tcb>, cur: nat)
    requires cur < |ring| && Runnable(ring, 0)
    ensures Select(Selected(ring, cur), cur) == Select(ring, cur)
    ensures Selected(Selected(ring, cur), cur) == Selected(ring, cur)
  {
    var idled, again := SetStatus(ring, cur, Idle), SetStatus(Selected(ring, cur), cur, Idle);
    assert SamePaused(idled, again);
    FirstRunnableSame(idled, again, Wrap(cur + 1, |ring|));
  }

  /** The statuses os_task_pause leaves for the task at `i`, before the switch it may queue. */
  function PausedUnswitched(ring: seq<Tcb>, cur: nat, i: nat): (r: seq<Tcb>)
    requires cur < |ring| && Runnable(ring, 0) && 0 < i < |ring|
    ensures |r| == |ring| && Runnable(r, 0)
  {
    SetStatus(if i == cur then Selected(ring, cur) else ring, i, Paused)
  }

  /** Were a tick to come before the switch, the pause would survive exactly when the task is not
      the running one: os_task_next marks the outgoing task idle whatever it was. */
  lemma PauseSurvivesTickIff(ring: seq<Tcb>, cur: nat, i: nat)
    requires cur < |ring| && Runnable(ring, 0) && 0 < i < |ring|
    ensures Selected(PausedUnswitched(ring, cur, i), cur)[i].status == Paused <==> i != cur
  {
    var p := PausedUnswitched(ring, cur, i);
    var idled := SetStatus(p, cur, Idle);
    assert Runnable(idled, Select(p, cur));
  }
}
