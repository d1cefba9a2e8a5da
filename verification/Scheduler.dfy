/** The scheduler of os/arch/armv7/scheduler.c on its heap-allocated task ring. Each method
    that queues a context switch performs the switch as its last step. */
module Scheduler {
  import opened Options
  import opened Schedule
  import opened Effects

  datatype Code = Success | Error

  lemma ResumeCollapses(tcbs: seq<Tcb>, cur: nat, i: nat, idled: seq<Tcb>)
    requires cur < |tcbs| && i < |tcbs| && Runnable(tcbs, 0)
    requires idled == SetStatus(SetStatus(tcbs, i, Idle), cur, Idle)
    ensures |idled| == |tcbs| && Runnable(idled, 0) && Runnable(idled, i)
    ensures SetStatus(idled, i, Active) == SetStatus(SetStatus(tcbs, cur, Idle), i, Active)
  {
  }

  class Task {
    var pid: int
    var status: Status
    var next: Task?
    /** Where the task is in its ring. */
    ghost var pos: nat

    constructor (pid: int, next: Task?)
      ensures this.pid == pid && this.status == Idle && this.next == next
    {
      this.pid := pid;
      this.status := Idle;
      this.next := next;
    }
  }

  class Scheduler {
    var head: Task?
    var count: nat
    var nextPid: int
    var current: Task?
    var next: Task?
    /** The tasks in link order from the head, what is in their records, and the position of
        the running one. */
    ghost var ring: seq<Task>
    ghost var tcbs: seq<Tcb>
    ghost var cur: nat

    /** The links lead from the head through `tasks`, in order, and back to the head. */
    ghost predicate Linked(tasks: seq<Task>)
      reads this`head, tasks`next
    {
      && |tasks| > 0 && head == tasks[0]
      && forall i {:trigger tasks[i].next} :: 0 <= i < |tasks| ==> tasks[i].next == tasks[Wrap(i + 1, |tasks|)]
    }

    /** The links form a closed ring of exactly these, distinct, tasks. */
    ghost predicate Closed(tasks: seq<Task>)
      reads this`head, tasks`next
    {
      Linked(tasks) && forall i, j :: 0 <= i < j < |tasks| ==> tasks[i] != tasks[j]
    }

    ghost predicate Records()
      reads this`ring, this`tcbs, ring`pos, ring`pid, ring`status
    {
      && |tcbs| == |ring|
      && forall i :: 0 <= i < |ring| ==> ring[i].pos == i && Tcb(ring[i].pid, ring[i].status) == tcbs[i]
    }

    ghost predicate Ring()
      reads this`head, this`ring, this`tcbs, ring
    {
      Linked(ring) && Records()
    }

    ghost function View(): State
      reads this
    {
      State(tcbs, cur, nextPid)
    }

    /** The heap represents a schedule whose head is the kernel task, which is not paused. */
    ghost predicate Valid()
      reads this, ring
    {
      && Ring() && count == |ring|
      && cur < |ring| && current == ring[cur]
      && tcbs[0].pid == 0 && Runnable(tcbs, 0)
    }

    /** os_scheduler_init, as far as the task list goes. */
    constructor ()
      ensures Valid() && View() == Boot
      ensures fresh(ring)
    {
      var task := new Task(0, null);
      nextPid := 1;
      count := 1;
      head := task;
      current := task;
      next := null;
      ring := [task];
      tcbs := [Tcb(0, Idle)];
      cur := 0;
      new;
      task.next := task;
      task.pos := 0;
    }

    /** A write to the status of the task at position `i`. */
    method Mark(task: Task, ghost i: nat, status: Status)
      requires Ring() && i < |ring| && ring[i] == task
      modifies this`tcbs, task`status
      ensures Ring() && tcbs == SetStatus(old(tcbs), i, status)
    {
      assert forall j :: 0 <= j < |ring| ==> ring[j].pos == j;
      task.status := status;
      tcbs := SetStatus(tcbs, i, status);
    }

    /** The skip loop of os_task_next. */
    method SkipPaused(ghost at: nat)
      requires Ring() && at < |ring| && Runnable(tcbs, 0)
      requires next == ring[at]
      modifies this`next
      ensures next == ring[FirstRunnable(tcbs, at)]
    {
      ghost var j := at;
      while next.status == Paused
        invariant j < |ring| && next == ring[j]
        invariant FirstRunnable(tcbs, j) == FirstRunnable(tcbs, at)
        decreases if j == 0 then 0 else |ring| - j
      {
        next := next.next;
        j := Wrap(j + 1, |ring|);
      }
    }

    /** The part of os_task_next from the label `check` on. */
    method Activate(ghost at: nat) returns (ghost r: nat)
      requires Ring() && at < |ring| && Runnable(tcbs, 0)
      requires next == ring[at]
      modifies this`next, this`tcbs, ring`status
      ensures Ring()
      ensures r == FirstRunnable(old(tcbs), at) && next == ring[r]
      ensures tcbs == SetStatus(old(tcbs), r, Active)
    {
      SkipPaused(at);
      r := FirstRunnable(tcbs, at);
      Mark(next, r, Active);
    }

    /** os_task_next with a current task, at position `at`. */
    method TaskNext(ghost at: nat) returns (ghost r: nat)
      requires Ring() && at < |ring| && Runnable(tcbs, 0)
      requires current == ring[at]
      modifies this`next, this`tcbs, ring`status
      ensures Ring()
      ensures r == Select(old(tcbs), at) && next == ring[r]
      ensures tcbs == Selected(old(tcbs), at)
    {
      Mark(current, at, Idle);
      next := current.next;
      r := Activate(Wrap(at + 1, |ring|));
    }

    /** os_update_task_pointers, at the end of the switch. */
    method Switch(ghost to: nat)
      modifies this`current, this`cur
      ensures current == next && cur == to
    {
      current := next;
      cur := to;
    }

    /** systick_exception and the switch it queues. */
    method Tick()
      requires Valid()
      modifies this`next, this`current, this`cur, this`tcbs, ring`status
      ensures Valid()
      ensures View() == TickState(old(View()))
    {
      ghost var r := TaskNext(cur);
      Switch(r);
    }

    /** os_task_create, the list part: a task with the next pid, linked to the head. */
    method CreateTask() returns (task: Task)
      modifies this`nextPid
      ensures fresh(task) && task.pid == old(nextPid) && task.status == Idle && task.next == head
      ensures nextPid == old(nextPid) + 1
    {
      task := new Task(nextPid, head);
      nextPid := nextPid + 1;
    }

    /** os_task_add: link the task in after the last one. The 8-bit count wraps around. */
    method Add(task: Task)
      requires Valid() && task !in ring && task.next == head
      modifies this`count, this`ring, this`tcbs, ring`next, task`pos
      ensures ring == old(ring) + [task] && Ring()
      ensures tcbs == old(tcbs) + [Tcb(task.pid, task.status)]
      ensures count == (old(count) + 1) % 256
      ensures old(|ring|) < MAX_TASKS ==> Valid()
    {
      var tail := head;
      var left := count - 1;
      while left != 0
        invariant 0 <= left < |ring| && tail == ring[|ring| - 1 - left]
      {
        tail := tail.next;
        left := left - 1;
      }
      tail.next := task;
      count := (count + 1) % 256;
      task.pos := |ring|;
      ring := ring + [task];
      tcbs := tcbs + [Tcb(task.pid, task.status)];
    }

    /** os_task_from_pid. */
    method FromPid(pid: int) returns (task: Task?)
      requires Valid()
      ensures match FindPid(tcbs, pid)
              case None => task == null
              case Some(i) => task == ring[i]
    {
      task := head;
      for i := 0 to count
        invariant task == ring[if i < count then i else 0]
        invariant forall k :: 0 <= k < i ==> tcbs[k].pid != pid
      {
        if pid == task.pid {
          FindPidIsFirst(tcbs, pid, i);
          return;
        }
        task := task.next;
      }
      task := null;
    }

    /** The part of os_task_pause that follows the lookup, up to the switch. */
    method MarkPaused(task: Task, ghost i: nat) returns (ghost r: nat)
      requires Valid() && 0 < i < |ring| && ring[i] == task
      modifies this`next, this`tcbs, ring`status
      ensures Ring() && tcbs == PausedUnswitched(old(tcbs), cur, i)
      ensures current == task <==> cur == i
      ensures cur == i ==> r == Select(old(tcbs), cur) && next == ring[r]
    {
      assert task.pos == i && ring[cur].pos == cur;
      r := cur;
      if current == task {
        r := TaskNext(i);
      }
      Mark(task, i, Paused);
    }

    /** The same with the switch, which is queued when the running task is paused. */
    method PauseTask(task: Task, ghost i: nat)
      requires Valid() && 0 < i < |ring| && ring[i] == task
      modifies this`next, this`current, this`cur, this`tcbs, ring`status
      ensures Valid() && View() == PauseAt(old(View()), i)
    {
      ghost var r := MarkPaused(task, i);
      if current == task {
        Switch(r);
      }
    }

    /** os_task_pause and the switch it queues when the running task is paused. */
    method Pause(pid: int) returns (code: Code)
      requires Valid()
      modifies this`next, this`current, this`cur, this`tcbs, ring`status
      ensures Valid()
      ensures var i := FindPid(old(View()).ring, pid);
              if pid == 0 || i.None? then code == Error && View() == old(View())
              else code == Success && View() == PauseAt(old(View()), i.value)
    {
      if pid == 0 { return Error; }
      var task := FromPid(pid);
      if task == null { return Error; }
      PauseTask(task, FindPid(tcbs, pid).value);
      code := Success;
    }

    /** os_task_resume proposes its task as the next one in place of the current task. */
    method Propose(task: Task, ghost i: nat)
      requires Valid() && i < |ring| && ring[i] == task
      modifies this`next, this`current, this`tcbs, ring`status
      ensures Ring()
      ensures current == null && next == task
      ensures Runnable(tcbs, 0) && Runnable(tcbs, i)
      ensures SetStatus(tcbs, i, Active) == SetStatus(SetStatus(old(tcbs), cur, Idle), i, Active)
    {
      Mark(task, i, Idle);
      Mark(current, cur, Idle);
      ResumeCollapses(old(tcbs), cur, i, tcbs);
      current := null;
      next := task;
    }

    /** The part of os_task_resume that follows the lookup. With no current task, os_task_next
        starts from the proposed next one. */
    method ResumeTask(task: Task, ghost i: nat)
      requires Valid() && 0 < i < |ring| && ring[i] == task
      modifies this`next, this`current, this`cur, this`tcbs, ring`status
      ensures Valid() && View() == ResumeAt(old(View()), i)
    {
      Propose(task, i);
      ghost var r := Activate(i);
      Switch(r);
    }

    /** os_task_resume and the switch it queues. */
    method Resume(pid: int) returns (code: Code)
      requires Valid()
      modifies this`next, this`current, this`cur, this`tcbs, ring`status
      ensures Valid()
      ensures var i := FindPid(old(View()).ring, pid);
              if pid == 0 || i.None? then code == Error && View() == old(View())
              else code == Success && View() == ResumeAt(old(View()), i.value)
    {
      if pid == 0 { return Error; }
      var task := FromPid(pid);
      if task == null { return Error; }
      ResumeTask(task, FindPid(tcbs, pid).value);
      code := Success;
    }

    /** Positions are counted afresh once the task after the head is gone. */
    ghost method Renumber()
      requires |tcbs| == |ring| > 0
      requires forall j :: 0 <= j < |ring| ==>
                 ring[j].pos == (if j == 0 then 0 else j + 1) && Tcb(ring[j].pid, ring[j].status) == tcbs[j]
      modifies ring`pos
      ensures Records()
    {
      forall j | 0 <= j < |ring| {
        ring[j].pos := j;
      }
    }

    /** The head's link is moved past the task that follows it. */
    method Bypass(task: Task)
      requires Ring() && |ring| > 1 && ring[1] == task
      modifies this`ring, this`tcbs, ring`pos, head`next
      ensures Ring() && task.next == old(task.next)
      ensures ring == Without(old(ring), 1) && tcbs == Without(old(tcbs), 1)
    {
      assert task.pos == 1 && ring[0].pos == 0;
      ghost var n := |ring| - 1;
      head.next := task.next;
      ring, tcbs := Without(ring, 1), Without(tcbs, 1);
      assert ring[0].next == ring[Wrap(1, n)];
      forall j | 0 < j < n ensures ring[j].next == ring[Wrap(j + 1, n)] {
        assert ring[j] == old(ring[j + 1]) && old(ring[j + 1]).next == old(ring[Wrap(j + 2, n + 1)]);
      }
      assert Linked(ring);
      Renumber();
    }

    /** The parent loop of os_task_release. It never advances from the head, so it unlinks a
        task only if that task directly follows the head. */
    method Unlink(task: Task, ghost i: nat)
      requires Valid() && 0 < i < |ring| && ring[i] == task
      modifies this`ring, this`tcbs, ring`pos, head`next
      ensures Ring() && task.next == old(task.next)
      ensures i == 1 ==> ring == Without(old(ring), 1) && tcbs == Without(old(tcbs), 1)
      ensures i > 1 ==> ring == old(ring) && tcbs == old(tcbs) && ring[i - 1].next == task
    {
      var parent := head;
      var k := 0;
      while k < count
        invariant k <= count && Ring() && ring == old(ring) && tcbs == old(tcbs)
        invariant forall t :: t in ring ==> t.next == old(t.next)
        invariant k > 0 ==> i > 1
      {
        assert parent.next == ring[1] && ring[1].pos == 1 && task.pos == i;
        if parent.next == task {
          Bypass(task);
          break;
        }
        k := k + 1;
      }
    }

    /** The rest of os_task_release. If the running task is the one released, the task after it,
        at position `at`, or the first one after that that can run, takes over; otherwise the
        running task is at position `same`. */
    method Depart(task: Task, ghost at: nat, ghost same: nat)
      requires Ring() && at < |ring| && Runnable(tcbs, 0) && task.next == ring[at] && count > 0
      requires task != current ==> same < |ring| && current == ring[same]
      modifies this`current, this`next, this`cur, this`count, this`tcbs, ring`status
      ensures Ring()
      ensures count == old(count) - 1
      ensures cur < |ring| && current == ring[cur]
      ensures task == old(current) ==>
                && cur == FirstRunnable(old(tcbs), at)
                && tcbs == SetStatus(old(tcbs), cur, Active)
      ensures task != old(current) ==> cur == same && tcbs == old(tcbs)
    {
      if task == current {
        current := null;
        next := task.next;
        ghost var r := Activate(at);
        Switch(r);
      } else {
        cur := same;
      }
      count := count - 1;
    }

    lemma RingIsClosed()
      requires Ring()
      ensures Closed(ring)
    {
      assert forall i :: 0 <= i < |ring| ==> ring[i].pos == i;
    }

    /** While its predecessor still links to the task at `i`, the others form no ring. */
    lemma OthersFormNoRing(i: nat)
      requires Ring() && 1 < i < |ring|
      ensures !Closed(Without(ring, i))
    {
      var others := Without(ring, i);
      assert others[i - 1].next == ring[i];
      assert forall j :: 0 <= j < |ring| ==> ring[j].pos == j;
    }

    /** The part of os_task_release that follows its checks. */
    method ReleaseAt(task: Task, ghost i: nat)
      requires Valid() && 0 < i < |ring| && ring[i] == task
      modifies this, ring
      ensures Ring() && count == old(count) - 1
      ensures i == 1 ==> Valid() && ring == Without(old(ring), 1) && View() == StopSecond(old(View()))
      ensures i > 1 ==> ring == old(ring) && ring[i - 1].next == task && View() == StopFurther(old(View()), i)
    {
      assert task == current <==> cur == i by { assert task.pos == i && ring[cur].pos == cur; }
      assert task.next == ring[Wrap(i + 1, |ring|)];
      Unlink(task, i);
      ghost var at := if i == 1 then (if |ring| > 1 then 1 else 0) else Wrap(i + 1, |ring|);
      ghost var same := if i == 1 && cur > 1 then cur - 1 else cur;
      Depart(task, at, same);
    }

    /** os_task_release of the task at position `i`, and the switch it queues. The remaining
        tasks form a closed ring in unchanged order exactly when the task directly followed
        the head; any other task stays linked into the ring although the count has dropped. */
    method Release(task: Task?, ghost i: nat) returns (code: Code)
      requires Valid() && (task != null ==> i < |ring| && ring[i] == task)
      modifies this, ring
      ensures task == null || i == 0 ==> code == Error && Valid() && View() == old(View()) && ring == old(ring)
      ensures task != null && i > 0 ==>
                && code == Success && count == old(count) - 1
                && (Closed(Without(old(ring), i)) <==> i == 1)
      ensures task != null && i == 1 ==> Valid() && View() == StopSecond(old(View()))
      ensures task != null && i > 1 ==>
                ring == old(ring) && Ring() && ring[i - 1].next == task && View() == StopFurther(old(View()), i)
    {
      if task == null { return Error; }
      assert task.pos == i && ring[0].pos == 0;
      if task == head { return Error; }
      ReleaseAt(task, i);
      if i == 1 { RingIsClosed(); } else { OthersFormNoRing(i); }
      code := Success;
    }

    /** os_task_stop. */
    method Stop(pid: int) returns (code: Code)
      requires Valid()
      modifies this, ring
      ensures var i := FindPid(old(View()).ring, pid);
              if pid == 0 || i.None? then code == Error && Valid() && View() == old(View()) && ring == old(ring)
              else if i.value == 1 then code == Success && Valid() && View() == StopSecond(old(View()))
              else
                && code == Success && count == old(count) - 1 && ring == old(ring) && Ring()
                && View() == StopFurther(old(View()), i.value)
    {
      if pid == 0 { return Error; }
      var task := FromPid(pid);
      ghost var i := FindPid(tcbs, pid);
      code := Release(task, if i.Some? then i.value else 0);
    }

    /** os_task_create followed by os_task_add. */
    method Spawn()
      requires Valid()
      modifies this`nextPid, this`count, this`ring, this`tcbs, ring`next
      ensures Ring() && |ring| == old(|ring|) + 1 && fresh(ring[old(|ring|)])
      ensures View() == State(old(View()).ring + [Tcb(old(nextPid), Idle)], cur, nextPid)
      ensures nextPid == old(nextPid) + 1 && count == (old(count) + 1) % 256
      ensures old(|ring|) < MAX_TASKS ==> Valid()
    {
      var task := CreateTask();
      Add(task);
    }

    /** One scheduler call of a run: the heap goes from representing a schedule to representing
        the schedule after that call, and the call does what it means. */
    method Perform(op: Op)
      requires Valid() && Inv(View()) && Enabled(View(), op)
      modifies this, ring
      ensures Valid() && Inv(View()) && View() == Step(old(View()), op) && Means(old(View()), op, View())
    {
      StepKeepsInv(View(), op);
      StepMeans(View(), op);
      match op
      case Create => Spawn();
      case Tick => Tick();
      case Pause(pid) => var _ := Pause(pid);
      case Resume(pid) => var _ := Resume(pid);
      case Stop(pid) => var _ := Stop(pid);
    }
  }
}
