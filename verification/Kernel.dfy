/** The task system on the heap: task structures linked into a ring, the global
    CurrentTask, KernelTask and next_pid.  Each method carries out the C code on the
    fields and pointers and is proved to do what the function of the same name in
    module Process says. */
module Kernel {
  import opened Sequences
  import opened TaskRing
  import opened Process

  /** `nodes` are the structures of the tasks `ring`, which are all different. */
  ghost predicate Maps(all: seq<Task>, nodes: seq<Task>, ring: seq<nat>) {
    && |nodes| == |ring| && Distinct(ring)
    && forall i :: 0 <= i < |ring| ==> ring[i] < |all| && nodes[i] == all[ring[i]]
  }

  lemma MapsInsert(all: seq<Task>, nodes: seq<Task>, ring: seq<nat>, p: nat)
    requires Maps(all, nodes, ring) && 0 < |ring| && p < |all| && p !in ring
    ensures Maps(all, [nodes[0], all[p]] + nodes[1..], [ring[0], p] + ring[1..])
  {
    assert ring == [ring[0]] + ring[1..];
    DistinctParts([ring[0]], ring[1..]);
    DistinctConcat([ring[0], p], ring[1..]);
  }

  lemma MapsGrow(all: seq<Task>, x: Task, nodes: seq<Task>, ring: seq<nat>)
    requires Maps(all, nodes, ring)
    ensures Maps(all + [x], nodes, ring)
  {
  }

  lemma MapsRotate(all: seq<Task>, nodes: seq<Task>, ring: seq<nat>, i: nat)
    requires Maps(all, nodes, ring) && i < |ring|
    ensures Maps(all, nodes[i..] + nodes[..i], ring[i..] + ring[..i])
  {
    assert ring == ring[..i] + ring[i..];
    DistinctParts(ring[..i], ring[i..]);
    DistinctConcat(ring[i..], ring[..i]);
  }

  lemma MapsDelete(all: seq<Task>, nodes: seq<Task>, ring: seq<nat>, i: nat)
    requires Maps(all, nodes, ring) && i < |ring|
    ensures Maps(all, nodes[..i] + nodes[i + 1..], ring[..i] + ring[i + 1..])
  {
    DistinctWithout(ring, i);
  }

  /** The ring when the scheduler has walked over `k` tasks and unlinked the dead ones. */
  ghost function Walked(tasks: seq<Tcb>, ring: seq<nat>, k: nat): seq<nat>
    requires k < |ring| && forall i :: 0 <= i < |ring| ==> ring[i] < |tasks|
  {
    [ring[0]] + NotQuit(tasks, ring[1..k + 1]) + ring[k + 1..]
  }

  /** Where the next task to be looked at stands in that ring. */
  ghost function WalkIndex(tasks: seq<Tcb>, ring: seq<nat>, k: nat): (m: nat)
    requires k < |ring| && forall i :: 0 <= i < |ring| ==> ring[i] < |tasks|
    ensures m < |Walked(tasks, ring, k)| && Walked(tasks, ring, k)[m] == Order(ring)[k]
  {
    if k + 1 == |ring| then 0 else 1 + |NotQuit(tasks, ring[1..k + 1])|
  }

  lemma WalkStep(tasks: seq<Tcb>, ring: seq<nat>, k: nat)
    requires k + 1 < |ring| && forall i :: 0 <= i < |ring| ==> ring[i] < |tasks|
    ensures var r, m := Walked(tasks, ring, k), WalkIndex(tasks, ring, k);
            var r', m' := Walked(tasks, ring, k + 1), WalkIndex(tasks, ring, k + 1);
            && m > 0
            && r' == (if tasks[ring[k + 1]].state == TaskQuit then r[..m] + r[m + 1..] else r)
            && r'[m'] == r[After(m, |r|)]
  {
    assert ring[1..k + 2][..k] == ring[1..k + 1];
    assert ring[k + 1..] == [ring[k + 1]] + ring[k + 2..];
  }

  lemma WalkFacts(s: Sys, k: nat)
    requires CanYield(s) && k <= Choice(s)
    ensures var r, m, p := Walked(s.tasks, s.ring, k), WalkIndex(s.tasks, s.ring, k), Order(s.ring)[k];
            && p < |s.tasks|
            && (k == Choice(s) ==> s.tasks[p].state != TaskQuit)
            && (k < Choice(s) ==>
                  && m > 0
                  && Walked(s.tasks, s.ring, k + 1) ==
                     (if s.tasks[p].state == TaskQuit then r[..m] + r[m + 1..] else r)
                  && Walked(s.tasks, s.ring, k + 1)[WalkIndex(s.tasks, s.ring, k + 1)] == r[After(m, |r|)])
  {
    if k < Choice(s) {
      WalkStep(s.tasks, s.ring, k);
    }
  }

  /** The state when the walk has stopped: the dead tasks it met are off the ring, and the
      task it stopped at has been made Ready. */
  ghost function Found(s: Sys): Sys
    requires CanYield(s)
  {
    var p := Order(s.ring)[Choice(s)];
    Sys(s.tasks[p := s.tasks[p].(state := TaskReady)], Walked(s.tasks, s.ring, Choice(s)))
  }

  /** Where the task it stopped at stands in that ring. */
  ghost function FoundIndex(s: Sys): nat
    requires CanYield(s)
  { WalkIndex(s.tasks, s.ring, Choice(s)) }

  /** task_enter as seen on values. */
  ghost function EnterTask(s: Sys, i: nat): Sys
    requires WellFormed(s) && i < |s.ring|
  {
    var cur, next := s.ring[0], s.ring[i];
    var stored := s.tasks[cur := s.tasks[cur].(forkContext := false)];
    Sys(stored[next := if stored[next].forkContext then stored[next] else SignalExec(stored[next])],
        s.ring[i..] + s.ring[..i])
  }

  lemma OrderParts(ring: seq<nat>, k: nat)
    requires k < |ring|
    ensures Order(ring)[..k] == ring[1..k + 1] && Order(ring)[k..] == ring[k + 1..] + [ring[0]]
  {
  }

  lemma Turned(c: nat, passed: seq<nat>, rest: seq<nat>)
    ensures var r, m := [c] + passed + rest, 1 + |passed|; r[m..] + r[..m] == rest + [c] + passed
  {
    var r, m := [c] + passed + rest, 1 + |passed|;
    assert r[m..] == rest && r[..m] == [c] + passed;
  }

  lemma WalkEndRing(s: Sys)
    requires CanYield(s)
    ensures var r, i := Found(s).ring, FoundIndex(s); Yield(s).ring == r[i..] + r[..i]
  {
    var k := Choice(s);
    OrderParts(s.ring, k);
    var passed, rest := NotQuit(s.tasks, s.ring[1..k + 1]), s.ring[k + 1..];
    Turned(s.ring[0], passed, rest);
    if k + 1 == |s.ring| {
      assert rest == [] && Found(s).ring == [s.ring[0]] + passed;
    }
  }

  /** Stopping the walk and entering the task is what Yield describes. */
  lemma WalkEnd(s: Sys)
    requires CanYield(s) && WellFormed(Found(s))
    ensures EnterTask(Found(s), FoundIndex(s)) == Yield(s)
  {
    WalkEndRing(s);
    assert Found(s).ring[0] == s.ring[0];
    assert Found(s).ring[FoundIndex(s)] == Order(s.ring)[Choice(s)];
    assert EnterTask(Found(s), FoundIndex(s)).tasks == Yield(s).tasks;
  }

  /** The first runnable task met is the choice. */
  lemma FoundAt(s: Sys, k: nat)
    requires CanYield(s) && k <= Choice(s) && Runnable(s.tasks[Order(s.ring)[k]])
    ensures k == Choice(s)
    ensures s.tasks[Order(s.ring)[k]].state == TaskReady ==> Found(s).tasks == s.tasks
  {
  }

  class TaskSystem {
    var kernelTask: Task
    var currentTask: Task
    var nextPid: int

    /** Every task ever made, by pid, and the values they hold. */
    ghost var all: seq<Task>
    ghost var tasks: seq<Tcb>
    /** The nodes of the ring from the current task on, and their pids. */
    ghost var nodes: seq<Task>
    ghost var ring: seq<nat>

    ghost function Abs(): Sys
      reads this`tasks, this`ring
    { Sys(tasks, ring) }

    /** Pids are distinct and below next_pid, and the links form one ring that holds the
        current task. */
    ghost predicate Linked()
      reads this`kernelTask, this`currentTask, this`nextPid, this`all, this`nodes, this`ring
      reads all`pid, nodes`next, nodes`prev
    {
      && 0 < |all| == nextPid && kernelTask == all[KERNEL_PID]
      && (forall p :: 0 <= p < |all| ==> all[p].pid == p)
      && Ring(nodes) && currentTask == nodes[0]
      && Maps(all, nodes, ring)
    }

    /** The structures hold the values of `tasks`. */
    ghost predicate Holds()
      reads this`all, this`tasks, all`tcb
    {
      && |all| == |tasks|
      && forall p :: 0 <= p < |all| ==> all[p].tcb == tasks[p]
    }

    ghost predicate Valid()
      reads this, all, nodes
    {
      Linked() && Holds()
    }

    /** The static initialisers of kernel/proc/task.c and sched_init. */
    constructor ()
      ensures Valid() && fresh(all)
      ensures Abs() == Boot()
    {
      var kernel := new Task();
      kernel.pid := KERNEL_PID;
      kernel.tcb := kernel.tcb.(ppid := KERNEL_PID, state := TaskReady);
      kernelTask := kernel;
      currentTask := kernel;
      nextPid := KERNEL_PID + 1;
      all, nodes := [kernel], [kernel];
      tasks, ring := Boot().tasks, Boot().ring;
      new;
      kernelTask.next := kernelTask;
      kernelTask.prev := kernelTask;
    }

    /** Task `p` has changed, and nothing else. */
    ghost method Record(task: Task, p: nat)
      requires p < |all| == |tasks| && task == all[p]
      requires forall q :: 0 <= q < |all| && q != p ==> all[q].tcb == tasks[q]
      modifies this`tasks
      ensures tasks == old(tasks)[p := task.tcb] && Holds()
    {
      tasks := tasks[p := task.tcb];
    }

    /** task_get: walks the ring once, from behind the current task back to it. */
    method TaskGet(pid: int) returns (t: Task?)
      requires Linked()
      ensures if 0 <= pid && pid in ring then t == all[pid] else t == null
    {
      var next := currentTask;
      ghost var k := 0;
      while true
        invariant 0 <= k < |ring| && next == nodes[k]
        invariant forall i :: 0 < i <= k ==> ring[i] != pid
        invariant k > 0 ==> next.pid != currentTask.pid
        decreases |ring| - k
      {
        next := next.next;
        k := After(k, |nodes|);
        assert next == nodes[k];
        if next.pid == pid {
          return next;
        }
        if next.pid == currentTask.pid {
          break;
        }
      }
      return null;
    }

    /** task_signal_raise. */
    static method TaskSignalRaise(task: Task, signum: int)
      modifies task`tcb
      ensures task.tcb == old(task.tcb).(sigpend := signum)
    {
      task.tcb := task.tcb.(sigpend := signum);
    }

    /** What task_exit does to the parent. */
    static method ReportExit(parent: Task, pid: int, exitcode: int)
      modifies parent`tcb
      ensures parent.tcb == old(parent.tcb).(sigchldpid := pid, sigchldexit := exitcode,
                                             sigpend := SIGCHLD, childcount := old(parent.tcb.childcount) - 1)
    {
      parent.tcb := parent.tcb.(sigchldpid := pid, sigchldexit := exitcode);
      TaskSignalRaise(parent, SIGCHLD);
      parent.tcb := parent.tcb.(childcount := parent.tcb.childcount - 1);
    }

    /** The second half of task_exit, for task `c`. */
    method TellParent(task: Task, ghost c: nat)
      requires Valid() && c < |all| && task == all[c]
      modifies this`tasks, all`tcb
      ensures Valid()
      ensures WellFormed(old(Abs())) && Abs() == ParentTold(old(Abs()), c)
    {
      var parent := TaskGet(task.tcb.ppid);
      if parent != null {
        ghost var p: nat := task.tcb.ppid;
        ReportExit(parent, task.pid, task.tcb.exitcode);
        Record(parent, p);
      }
    }

    /** task_exit(CurrentTask, status). */
    method TaskExit(status: int)
      requires Valid()
      modifies this`tasks, all`tcb
      ensures Valid()
      ensures WellFormed(old(Abs())) && Abs() == Exit(old(Abs()), status)
    {
      var task := currentTask;
      task.tcb := task.tcb.(state := TaskQuit, exitcode := status);
      TaskSignalRaise(task, SIGTERM);
      Record(task, ring[0]);
      TellParent(task, ring[0]);
    }

    /** The structure that task_clone allocates and fills. */
    static method NewClone(cur: Task, pid: int) returns (clone: Task)
      requires cur.pid >= 0
      ensures fresh(clone) && clone.pid == pid && clone.tcb == CloneOf(cur.tcb, cur.pid)
    {
      clone := new Task();
      clone.pid := pid;
      clone.tcb := clone.tcb.(sigpend := cur.tcb.sigpend, sigwait := cur.tcb.sigwait, state := TaskReady,
                              childcount := 0, ppid := cur.pid, forkContext := true);
    }

    /** Counts a filled clone as a child of the current task and gives it the next pid. */
    method Adopt(clone: Task)
      requires Valid() && clone !in all && clone.pid == nextPid
      requires clone.tcb == CloneOf(currentTask.tcb, ring[0])
      modifies this`nextPid, this`all, this`tasks, currentTask`tcb
      ensures Valid() && all == old(all) + [clone]
      ensures WellFormed(old(Abs())) && tasks == Fork(old(Abs())).tasks
    {
      nextPid := nextPid + 1;
      currentTask.tcb := currentTask.tcb.(childcount := currentTask.tcb.childcount + 1);
      tasks := Fork(Abs()).tasks;
      MapsGrow(all, clone, nodes, ring);
      all := all + [clone];
    }

    /** task_clone, with the context that task_fork_context then saves in the clone. */
    method TaskClone() returns (clone: Task)
      requires Valid()
      modifies this`nextPid, this`all, this`tasks, currentTask`tcb
      ensures Valid() && fresh(clone) && all == old(all) + [clone]
      ensures WellFormed(old(Abs())) && tasks == Fork(old(Abs())).tasks
    {
      clone := NewClone(currentTask, nextPid);
      Adopt(clone);
    }

    /** task_insert: behind the current task. */
    method TaskInsert(task: Task, ghost p: nat)
      requires Valid() && p < |all| && task == all[p] && p !in ring
      modifies this`nodes, this`ring, all`next, all`prev
      ensures Valid()
      ensures ring == [old(ring)[0], p] + old(ring)[1..]
    {
      assert task !in nodes;
      ListInsertSecond(currentTask, task, nodes);
      MapsInsert(all, nodes, ring, p);
      nodes := [nodes[0], task] + nodes[1..];
      ring := [ring[0], p] + ring[1..];
    }

    /** task_fork. */
    method TaskFork() returns (clone: Task)
      requires Valid()
      modifies this`nextPid, this`all, this`tasks, this`nodes, this`ring, all`tcb, all`next, all`prev
      ensures Valid() && fresh(clone) && all == old(all) + [clone]
      ensures WellFormed(old(Abs())) && Abs() == Fork(old(Abs())) && clone.pid == |old(tasks)|
    {
      clone := TaskClone();
      TaskInsert(clone, |all| - 1);
      assert clone == all[|all| - 1];
    }

    /** task_signal_exec, up to the call of the handler; `signum` is the signal executed. */
    static method TaskSignalExec(task: Task) returns (signum: int)
      modifies task`tcb
      ensures signum == old(task.tcb.sigpend)
      ensures task.tcb == SignalExec(old(task.tcb))
    {
      signum := task.tcb.sigpend;
      if task.tcb.sigpend != 0 {
        if task.tcb.sigwait == task.tcb.sigpend {
          task.tcb := task.tcb.(sigwait := 0);
        }
        task.tcb := task.tcb.(sigpend := 0);
      }
    }

    /** task_enter: the current context is stored, the task at position `i` becomes
        current, and, if its own context was stored here, its pending signal is executed. */
    method TaskEnter(task: Task, ghost i: nat)
      requires Valid() && i < |ring| && task == all[ring[i]]
      modifies this`tasks, this`nodes, this`ring, this`currentTask, all`tcb
      ensures Valid()
      ensures WellFormed(old(Abs())) && Abs() == EnterTask(old(Abs()), i)
    {
      currentTask.tcb := currentTask.tcb.(forkContext := false);
      Record(currentTask, ring[0]);
      SetCurrent(task, i);
      if !currentTask.tcb.forkContext {
        var _ := TaskSignalExec(currentTask);
        Record(currentTask, ring[0]);
      }
    }

    /** The assignment to CurrentTask: the same ring is read from another task on. */
    method SetCurrent(task: Task, ghost i: nat)
      requires Linked() && i < |ring| && task == all[ring[i]]
      modifies this`nodes, this`ring, this`currentTask
      ensures Linked()
      ensures ring == old(ring)[i..] + old(ring)[..i] && currentTask == task
    {
      currentTask := task;
      assert nodes == nodes[..i] + nodes[i..];
      RingRotate(nodes[..i], nodes[i..]);
      MapsRotate(all, nodes, ring, i);
      nodes, ring := nodes[i..] + nodes[..i], ring[i..] + ring[..i];
    }

    /** Takes the task at position `m` off the ring if it is dead, which leaves `rest`.
        Either way its `next` still leads to the task `q` that stood behind it. */
    method UnlinkDead(task: Task, ghost m: nat, ghost rest: seq<nat>, ghost q: nat)
      requires Valid() && m < |ring| && task == all[ring[m]] && q == ring[After(m, |ring|)]
      requires if task.tcb.state == TaskQuit then 0 < m && rest == ring[..m] + ring[m + 1..] else rest == ring
      modifies this`nodes, this`ring, all`next, all`prev
      ensures Valid() && ring == rest && task.next == all[q]
    {
      assert task.next == nodes[After(m, |nodes|)];
      if task.tcb.state == TaskQuit {
        ListUnlinkAt(task, nodes, m);
        MapsDelete(all, nodes, ring, m);
        nodes, ring := nodes[..m] + nodes[m + 1..], rest;
      }
    }

    /** The walk that began in `s0` has passed `k` tasks, `task` the last of them. */
    ghost predicate Walking(s0: Sys, k: nat, task: Task)
      reads this, all, nodes, task
    {
      && CanYield(s0) && k <= Choice(s0)
      && Valid() && tasks == s0.tasks && ring == Walked(s0.tasks, s0.ring, k)
      && task.next == all[ring[WalkIndex(s0.tasks, s0.ring, k)]]
    }

    /** The walk that began in `s0` has found the task to enter. */
    ghost predicate Arrived(s0: Sys, task: Task)
      reads this, all, nodes
    {
      CanYield(s0) && Valid() && Abs() == Found(s0) && task == all[ring[FoundIndex(s0)]]
    }

    lemma WalkStarts()
      requires Valid() && CanYield(Abs())
      ensures Walking(Abs(), 0, currentTask)
    {
      assert Walked(tasks, ring, 0) == ring;
      assert currentTask.next == nodes[After(0, |ring|)];
    }

    /** The tests of the loop of kern_sched_yield: a runnable task is accepted, and made
        Ready if it was waiting. */
    method Accept(task: Task, ghost p: nat) returns (found: bool)
      requires Valid() && p < |all| && task == all[p]
      modifies task`tcb, this`tasks
      ensures Valid() && found == Runnable(old(tasks)[p])
      ensures tasks == if found then old(tasks)[p := old(tasks)[p].(state := TaskReady)] else old(tasks)
    {
      if task.tcb.state == TaskSigWait && task.tcb.sigpend != 0 {
        if task.tcb.sigpend == task.tcb.sigwait || task.tcb.sigwait == 0 {
          task.tcb := task.tcb.(state := TaskReady);
          Record(task, p);
          return true;
        }
      }
      found := task.tcb.state == TaskReady;
    }

    /** What a round starts from: the next task `p` at position `m`, the ring `rest` that
        remains if it is unlinked when dead, and the task `q` behind it. */
    lemma RoundFacts(s0: Sys, k: nat, task: Task) returns (m: nat, p: nat, rest: seq<nat>, q: nat)
      requires Walking(s0, k, task)
      ensures m < |ring| && p == ring[m] < |all| == |tasks| && task.next == all[p] && q == ring[After(m, |ring|)]
      ensures if tasks[p].state == TaskQuit then 0 < m && rest == ring[..m] + ring[m + 1..] else rest == ring
      ensures tasks == s0.tasks && CanYield(s0) && k <= Choice(s0) && p == Order(s0.ring)[k]
      ensures k == Choice(s0) ==> rest == Walked(s0.tasks, s0.ring, k)
      ensures k < Choice(s0) ==>
                rest == Walked(s0.tasks, s0.ring, k + 1) && q == rest[WalkIndex(s0.tasks, s0.ring, k + 1)]
    {
      WalkFacts(s0, k);
      m, p := WalkIndex(s0.tasks, s0.ring, k), Order(s0.ring)[k];
      rest := if k < Choice(s0) then Walked(s0.tasks, s0.ring, k + 1) else ring;
      q := ring[After(m, |ring|)];
    }

    /** The body of that loop, for the task `p` at position `m`. */
    method Visit(task: Task, ghost m: nat, ghost p: nat, ghost rest: seq<nat>, ghost q: nat) returns (found: bool)
      requires Valid() && m < |ring| && p == ring[m] < |all| == |tasks| && task == all[p]
      requires q == ring[After(m, |ring|)]
      requires if tasks[p].state == TaskQuit then 0 < m && rest == ring[..m] + ring[m + 1..] else rest == ring
      modifies this`tasks, this`nodes, this`ring, all`tcb, all`next, all`prev
      ensures Valid() && ring == rest && q < |all| && task.next == all[q]
      ensures found == Runnable(old(tasks)[p])
      ensures tasks == if found then old(tasks)[p := old(tasks)[p].(state := TaskReady)] else old(tasks)
    {
      UnlinkDead(task, m, rest, q);
      found := Accept(task, p);
    }

    /** One round of the loop. */
    method LookAtNext(task: Task, ghost s0: Sys, ghost k: nat) returns (next: Task, found: bool)
      requires Walking(s0, k, task)
      modifies this`tasks, this`nodes, this`ring, all`tcb, all`next, all`prev
      ensures if found then Arrived(s0, next) else k < Choice(s0) && Walking(s0, k + 1, next)
    {
      ghost var m, p, rest, q := RoundFacts(s0, k, task);
      next := task.next;
      found := Visit(next, m, p, rest, q);
      if found {
        ArrivedAt(s0, k, next);
      } else {
        WalkingOn(s0, k, next);
      }
    }

    lemma ArrivedAt(s0: Sys, k: nat, task: Task)
      requires Valid() && CanYield(s0) && k <= Choice(s0) && Runnable(s0.tasks[Order(s0.ring)[k]])
      requires var p := Order(s0.ring)[k]; tasks == s0.tasks[p := s0.tasks[p].(state := TaskReady)]
      requires k == Choice(s0) ==> ring == Walked(s0.tasks, s0.ring, k)
      requires |all| == |tasks| && task == all[Order(s0.ring)[k]]
      ensures Arrived(s0, task)
    {
      FoundAt(s0, k);
    }

    lemma WalkingOn(s0: Sys, k: nat, task: Task)
      requires Valid() && CanYield(s0) && k <= Choice(s0) && !Runnable(s0.tasks[Order(s0.ring)[k]])
      requires tasks == s0.tasks && k + 1 < |s0.ring| && ring == Walked(s0.tasks, s0.ring, k + 1)
      requires task.next == all[ring[WalkIndex(s0.tasks, s0.ring, k + 1)]]
      ensures k < Choice(s0) && Walking(s0, k + 1, task)
    {
    }

    /** The loop of kern_sched_yield. */
    method FindRunnable() returns (next: Task)
      requires Valid() && CanYield(Abs())
      modifies this`tasks, this`nodes, this`ring, all`tcb, all`next, all`prev
      ensures Arrived(old(Abs()), next)
    {
      ghost var s0, k := Abs(), 0;
      WalkStarts();
      next := currentTask;
      var found := false;
      while !found
        invariant if found then Arrived(s0, next) else Walking(s0, k, next)
        decreases !found, Choice(s0) - k
      {
        next, found := LookAtNext(next, s0, k);
        k := k + 1;
      }
    }

    /** kern_sched_yield. */
    method SchedYield()
      requires Valid() && CanYield(Abs())
      modifies this`tasks, this`nodes, this`ring, this`currentTask, all`tcb, all`next, all`prev
      ensures Valid() && Abs() == Yield(old(Abs()))
    {
      var next := FindRunnable();
      WalkEnd(old(Abs()));
      TaskEnter(next, FoundIndex(old(Abs())));
    }

    /** task_sigwait(CurrentTask), with the value that sigwait has by then. */
    method TaskSigwait(accepted: int)
      requires Valid() && CanYield(Asleep(Abs(), accepted))
      modifies this`tasks, this`nodes, this`ring, this`currentTask, all`tcb, all`next, all`prev
      ensures Valid() && Abs() == Yield(Asleep(old(Abs()), accepted))
    {
      currentTask.tcb := currentTask.tcb.(sigwait := accepted);
      currentTask.tcb := currentTask.tcb.(state := TaskSigWait);
      Record(currentTask, ring[0]);
      SchedYield();
    }

    /** sys_wait4 up to the point where the caller is switched away, or, if `returned`,
        the whole call, which then yields 0. */
    method Wait4(options: bv32) returns (returned: bool)
      requires Valid()
      requires Wait4Immediate(currentTask.tcb, options) || CanYield(Asleep(Abs(), SIGCHLD))
      modifies this`tasks, this`nodes, this`ring, this`currentTask, all`tcb, all`next, all`prev
      ensures Valid()
      ensures returned == Wait4Immediate(old(currentTask.tcb), options)
      ensures Abs() == if returned then old(Abs()) else Yield(Asleep(old(Abs()), SIGCHLD))
    {
      if options & WNOHANG != 0 || options & WUNTRACED != 0 {
        if currentTask.tcb.childcount == 0 {
          return true;
        }
      }
      TaskSigwait(SIGCHLD);
      return false;
    }

    /** The tail of sys_wait4, when the caller runs again. */
    method Wait4Tail() returns (pid: int, status: int)
      requires Valid()
      ensures pid == tasks[ring[0]].sigchldpid && status == tasks[ring[0]].sigchldexit
    {
      status := currentTask.tcb.sigchldexit;
      pid := currentTask.tcb.sigchldpid;
    }

    /** sys_rt_sigsuspend: sleeps with whatever sigwait holds. */
    method RtSigsuspend()
      requires Valid() && CanYield(Asleep(Abs(), currentTask.tcb.sigwait))
      modifies this`tasks, this`nodes, this`ring, this`currentTask, all`tcb, all`next, all`prev
      ensures Valid() && Abs() == Yield(Asleep(old(Abs()), old(currentTask.tcb.sigwait)))
    {
      TaskSigwait(currentTask.tcb.sigwait);
    }
  }
}
