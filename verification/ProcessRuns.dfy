/** Whole runs of the task system: fork, exit, preemption, sleeping and waking, wait4.

    A world is the kernel state together with two pieces of history that no kernel code
    reads: the exits so far, in order, and, for each task inside a blocked wait4, how many
    exits there had been when it made the call. */
module ProcessRuns {
  import opened Sequences
  import opened TaskRing
  import opened Process

  datatype Exited = Exited(pid: nat, ppid: int, status: int)

  datatype World = World(sys: Sys, exits: seq<Exited>, waiting: map<nat, nat>)

  /** Preempt is the timer interrupt or sched_yield; Suspend is rt_sigsuspend; Wait4Return
      is the tail of wait4, which runs when the task has been woken. */
  datatype Op = Fork | Exit(status: int) | Preempt | Suspend | Wait4(options: bv32) | Wait4Return

  function Initial(): World { World(Boot(), [], map[]) }

  function Current(w: World): Tcb
    requires WellFormed(w.sys)
  { w.sys.tasks[w.sys.ring[0]] }

  /** What the current task can do next.  A task that has called exit only spins until it
      is preempted (kernel/syscall/proc.c:39), a task inside wait4 only returns from it,
      and the kernel task neither exits nor sleeps (kernel/kmain.c:60). */
  ghost predicate Enabled(w: World, op: Op) {
    && WellFormed(w.sys)
    && var cur := w.sys.ring[0];
       match op
       case Preempt => CanYield(w.sys)
       case Wait4Return => Current(w).state != TaskQuit && cur in w.waiting
       case Fork => Current(w).state != TaskQuit && cur !in w.waiting
       case Exit(_) => Current(w).state != TaskQuit && cur !in w.waiting && cur != KERNEL_PID
       case Suspend =>
         && Current(w).state != TaskQuit && cur !in w.waiting && cur != KERNEL_PID
         && CanYield(Asleep(w.sys, Current(w).sigwait))
       case Wait4(options) =>
         && Current(w).state != TaskQuit && cur !in w.waiting && cur != KERNEL_PID
         && (Wait4Immediate(Current(w), options) || CanYield(Asleep(w.sys, SIGCHLD)))
  }

  function Step(w: World, op: Op): World
    requires Enabled(w, op)
  {
    var cur := w.sys.ring[0];
    match op
    case Preempt => w.(sys := Yield(w.sys))
    case Fork => w.(sys := Process.Fork(w.sys))
    case Exit(status) =>
      w.(sys := Process.Exit(w.sys, status),
         exits := w.exits + [Exited(cur, Current(w).ppid, status)])
    case Suspend => w.(sys := Yield(Asleep(w.sys, Current(w).sigwait)))
    case Wait4(options) =>
      if Wait4Immediate(Current(w), options) then w
      else w.(sys := Yield(Asleep(w.sys, SIGCHLD)), waiting := w.waiting[cur := |w.exits|])
    case Wait4Return => w.(waiting := w.waiting - {cur})
  }

  /** What wait4 gives its caller: the returned pid and the stored status. */
  function Wait4Result(w: World): (int, int)
    requires WellFormed(w.sys)
  { (Current(w).sigchldpid, Current(w).sigchldexit) }

  ghost predicate IsRun(ws: seq<World>, ops: seq<Op>) {
    && |ws| == |ops| + 1
    && ws[0] == Initial()
    && forall i :: 0 <= i < |ops| ==> Enabled(ws[i], ops[i]) && ws[i + 1] == Step(ws[i], ops[i])
  }

  // ---- the invariant of every reachable world

  /** One ring; every task that has not quit is on it, and so is the kernel task. */
  ghost predicate RingInv(s: Sys) {
    && WellFormed(s)
    && (forall p :: 0 <= p < |s.tasks| && s.tasks[p].state != TaskQuit ==> p in s.ring)
    && KERNEL_PID in s.ring && s.tasks[KERNEL_PID].state == TaskReady
  }

  /** Parents are older than their children. */
  ghost predicate ForestInv(tasks: seq<Tcb>) {
    forall p :: 0 < p < |tasks| ==> 0 <= tasks[p].ppid < p
  }

  /** What may be pending for, or awaited by, a task. */
  predicate SignalsOk(t: Tcb) {
    match t.state
    case TaskInit => false
    case TaskReady => t.sigwait == 0 && (t.sigpend == 0 || t.sigpend == SIGCHLD)
    case TaskSigWait => (t.sigwait == 0 || t.sigwait == SIGCHLD) && (t.sigpend == 0 || t.sigpend == SIGCHLD)
    case TaskQuit => true
  }

  ghost predicate SignalInv(tasks: seq<Tcb>) {
    forall p :: 0 <= p < |tasks| ==> SignalsOk(tasks[p])
  }

  /** A task that has never run has nothing pending and no children. */
  ghost predicate UnstartedInv(s: Sys)
    requires 0 < |s.ring|
  {
    forall p :: 0 <= p < |s.tasks| && s.tasks[p].forkContext && p != s.ring[0] ==>
      && s.tasks[p].state == TaskReady && s.tasks[p].sigpend == 0
      && forall c :: 0 < c < |s.tasks| ==> s.tasks[c].ppid != p
  }

  /** The number of children of `p`, among the tasks below `n`, that have not quit. */
  function LivingChildren(tasks: seq<Tcb>, p: nat, n: nat): nat
    requires n <= |tasks|
  {
    if n <= 1 then 0
    else LivingChildren(tasks, p, n - 1) +
         if tasks[n - 1].ppid == p && tasks[n - 1].state != TaskQuit then 1 else 0
  }

  ghost predicate CountInv(s: Sys) {
    forall p :: p in s.ring && p < |s.tasks| ==>
      s.tasks[p].childcount == LivingChildren(s.tasks, p, |s.tasks|)
  }

  /** The position in the log of the latest exit of a child of `p`, or -1. */
  function LatestExit(exits: seq<Exited>, p: nat): (k: int)
    ensures -1 <= k < |exits|
    ensures k >= 0 ==> exits[k].ppid == p
    ensures forall j :: k < j < |exits| ==> exits[j].ppid != p
  {
    if |exits| == 0 then -1
    else if exits[|exits| - 1].ppid == p then |exits| - 1
    else LatestExit(exits[..|exits| - 1], p)
  }

  /** The log holds tasks that have quit, each once, with their parents and exit codes. */
  ghost predicate LogInv(w: World) {
    && (forall e :: 0 <= e < |w.exits| ==>
          && 0 < w.exits[e].pid < |w.sys.tasks|
          && w.sys.tasks[w.exits[e].pid].state == TaskQuit
          && w.sys.tasks[w.exits[e].pid].exitcode == w.exits[e].status
          && w.sys.tasks[w.exits[e].pid].ppid == w.exits[e].ppid)
    && (forall e, f :: 0 <= e < f < |w.exits| ==> w.exits[e].pid != w.exits[f].pid)
  }

  predicate Records(t: Tcb, exits: seq<Exited>, p: nat) {
    var k := LatestExit(exits, p);
    if k < 0 then t.sigchldpid == 0 && t.sigchldexit == 0
    else t.sigchldpid == exits[k].pid && t.sigchldexit == exits[k].status
  }

  /** Every task on the ring has recorded the latest exit among its children. */
  ghost predicate RecordInv(w: World) {
    forall p :: p in w.sys.ring && p < |w.sys.tasks| ==> Records(w.sys.tasks[p], w.exits, p)
  }

  /** A task inside wait4 accepts only SIGCHLD while it sleeps; once it is woken, or can
      be, a child of it has exited since the call. */
  ghost predicate WaitInv(w: World) {
    forall p :: p in w.waiting ==>
      && p < |w.sys.tasks| && w.waiting[p] <= |w.exits|
      && (w.sys.tasks[p].state == TaskReady
          || (w.sys.tasks[p].state == TaskSigWait && w.sys.tasks[p].sigwait == SIGCHLD))
      && (w.sys.tasks[p].state == TaskReady || w.sys.tasks[p].sigpend != 0 ==>
            w.waiting[p] <= LatestExit(w.exits, p))
  }

  /** What holds even between going to sleep and the yield that follows. */
  ghost predicate BaseInv(w: World) {
    && RingInv(w.sys) && ForestInv(w.sys.tasks) && SignalInv(w.sys.tasks) && UnstartedInv(w.sys)
    && CountInv(w.sys) && LogInv(w) && RecordInv(w) && WaitInv(w)
  }

  /** The current task is Ready with no signal pending, or it has quit and is spinning. */
  ghost predicate CurrentInv(w: World)
    requires WellFormed(w.sys)
  {
    || (Current(w).state == TaskReady && Current(w).sigpend == 0)
    || Current(w).state == TaskQuit
  }

  ghost predicate Inv(w: World) { BaseInv(w) && CurrentInv(w) }

  // ---- every step keeps it

  lemma CountSame(tasks: seq<Tcb>, tasks': seq<Tcb>, p: nat, n: nat)
    requires n <= |tasks| && n <= |tasks'|
    requires forall c :: 0 <= c < n ==>
               tasks'[c].ppid == tasks[c].ppid && (tasks'[c].state == TaskQuit <==> tasks[c].state == TaskQuit)
    ensures LivingChildren(tasks', p, n) == LivingChildren(tasks, p, n)
  {
  }

  /** When task `c` quits, its parent, and nobody else, has one living child less. */
  lemma CountQuit(tasks: seq<Tcb>, tasks': seq<Tcb>, p: nat, c: nat, n: nat)
    requires 0 < c < |tasks| == |tasks'| && n <= |tasks|
    requires tasks[c].state != TaskQuit && tasks'[c].state == TaskQuit
    requires forall d :: 0 <= d < |tasks| ==> tasks'[d].ppid == tasks[d].ppid
    requires forall d :: 0 <= d < |tasks| && d != c ==>
               (tasks'[d].state == TaskQuit <==> tasks[d].state == TaskQuit)
    ensures LivingChildren(tasks', p, n) ==
            LivingChildren(tasks, p, n) - if c < n && tasks[c].ppid == p then 1 else 0
  {
  }

  lemma CountNone(tasks: seq<Tcb>, p: nat, n: nat)
    requires n <= |tasks|
    requires forall c :: 0 < c < n ==> tasks[c].ppid != p
    ensures LivingChildren(tasks, p, n) == 0
  {
  }

  /** Tasks change, but neither who quit nor who is whose child, and records stay. */
  ghost predicate SameFamily(tasks: seq<Tcb>, tasks': seq<Tcb>) {
    && |tasks'| == |tasks|
    && forall p :: 0 <= p < |tasks| ==>
      && tasks'[p].ppid == tasks[p].ppid
      && (tasks'[p].state == TaskQuit <==> tasks[p].state == TaskQuit)
      && tasks'[p].exitcode == tasks[p].exitcode
      && tasks'[p].childcount == tasks[p].childcount
      && tasks'[p].sigchldpid == tasks[p].sigchldpid
      && tasks'[p].sigchldexit == tasks[p].sigchldexit
  }

  lemma FamilyKept(w: World, w': World)
    requires BaseInv(w) && SameFamily(w.sys.tasks, w'.sys.tasks) && w'.exits == w.exits
    requires forall p :: p in w'.sys.ring ==> p in w.sys.ring
    ensures ForestInv(w'.sys.tasks) && CountInv(w'.sys) && LogInv(w') && RecordInv(w')
  {
    forall p | p in w'.sys.ring && p < |w'.sys.tasks|
      ensures w'.sys.tasks[p].childcount == LivingChildren(w'.sys.tasks, p, |w'.sys.tasks|)
    {
      CountSame(w.sys.tasks, w'.sys.tasks, p, |w.sys.tasks|);
    }
  }

  /** A yield is always possible, since the kernel task is on the ring and Ready; so the
      walk of the scheduler terminates whatever the current task does. */
  lemma NeverStuck(w: World)
    requires Inv(w)
    ensures Enabled(w, Preempt)
    ensures Current(w).state == TaskReady && w.sys.ring[0] != KERNEL_PID && w.sys.ring[0] !in w.waiting ==>
              Enabled(w, Suspend) && forall options: bv32 :: Enabled(w, Wait4(options))
  {
    var k :| 0 <= k < |w.sys.ring| && w.sys.ring[k] == KERNEL_PID;
    assert Runnable(w.sys.tasks[w.sys.ring[k]]);
    if w.sys.ring[0] != KERNEL_PID {
      assert Runnable(Asleep(w.sys, SIGCHLD).tasks[w.sys.ring[k]]);
      assert Runnable(Asleep(w.sys, Current(w).sigwait).tasks[w.sys.ring[k]]);
    }
  }

  /** What the invariants need to know about a yield from `s` to `s'`. */
  ghost predicate Switched(s: Sys, s': Sys) {
    && WellFormed(s) && WellFormed(s') && |s'.tasks| == |s.tasks|
    && (forall p :: p in s'.ring ==> p in s.ring)
    && (forall p :: p in s.ring && s.tasks[p].state != TaskQuit ==> p in s'.ring)
    && Runnable(s.tasks[s'.ring[0]])
    && (forall p :: 0 <= p < |s.tasks| ==>
          var t := if p == s.ring[0] then s.tasks[p].(forkContext := false) else s.tasks[p];
          s'.tasks[p] == if p == s'.ring[0] then Resumed(t) else t)
  }

  lemma YieldSwitches(s: Sys)
    requires CanYield(s)
    ensures Switched(s, Yield(s))
  {
    YieldMembers(s);
    YieldRing(s);
    forall p | 0 <= p < |s.tasks| { YieldTasks(s, p); }
  }

  /** The task that a yield enters is Ready, awaits nothing and has nothing pending. */
  lemma EnteredClean(s: Sys, s': Sys)
    requires Switched(s, s') && SignalInv(s.tasks) && UnstartedInv(s)
    ensures var t := s'.tasks[s'.ring[0]];
            t.state == TaskReady && t.sigpend == 0 && t.sigwait == 0
  {
    assert SignalsOk(s.tasks[s'.ring[0]]);
  }

  lemma SwitchKeepsTasks(s: Sys, s': Sys)
    requires Switched(s, s') && SignalInv(s.tasks) && UnstartedInv(s) && RingInv(s)
    ensures SignalInv(s'.tasks) && UnstartedInv(s') && RingInv(s')
    ensures SameFamily(s.tasks, s'.tasks)
  {
    EnteredClean(s, s');
  }

  lemma SwitchKeepsWaits(w: World, w': World)
    requires Switched(w.sys, w'.sys) && w' == w.(sys := w'.sys)
    requires SignalInv(w.sys.tasks) && WaitInv(w)
    ensures WaitInv(w')
  {
  }

  lemma YieldKeeps(w: World, w': World)
    requires BaseInv(w)
    requires CanYield(w.sys) && w' == w.(sys := Yield(w.sys))
    ensures Inv(w')
  {
    YieldSwitches(w.sys);
    EnteredClean(w.sys, w'.sys);
    SwitchKeepsTasks(w.sys, w'.sys);
    FamilyKept(w, w');
    SwitchKeepsWaits(w, w');
  }

  lemma AsleepKeepsTasks(s: Sys, accepted: int, s': Sys)
    requires RingInv(s) && SignalInv(s.tasks) && UnstartedInv(s)
    requires s.tasks[s.ring[0]].state == TaskReady && s.ring[0] != KERNEL_PID
    requires accepted == 0 || accepted == SIGCHLD
    requires s' == Asleep(s, accepted)
    ensures RingInv(s') && SignalInv(s'.tasks) && UnstartedInv(s') && SameFamily(s.tasks, s'.tasks)
  {
    assert SignalsOk(s.tasks[s.ring[0]]);
  }

  /** Going to sleep, before the yield. */
  lemma AsleepKeeps(w: World, accepted: int, w': World)
    requires Inv(w) && Current(w).state == TaskReady
    requires accepted == 0 || accepted == SIGCHLD
    requires w.sys.ring[0] != KERNEL_PID && w.sys.ring[0] !in w.waiting
    requires w'.sys == Asleep(w.sys, accepted) && w'.exits == w.exits
    requires w'.waiting == w.waiting
             || (w'.waiting == w.waiting[w.sys.ring[0] := |w.exits|] && accepted == SIGCHLD)
    ensures BaseInv(w')
  {
    AsleepKeepsTasks(w.sys, accepted, w'.sys);
    FamilyKept(w, w');
  }

  lemma ForkKeepsRing(s: Sys, s': Sys)
    requires RingInv(s) && s' == Process.Fork(s)
    ensures RingInv(s')
    ensures forall p :: p in s'.ring <==> p in s.ring || p == |s.tasks|
  {
    var cur, n := s.ring[0], |s.tasks|;
    assert s.ring == [cur] + s.ring[1..];
    DistinctParts([cur], s.ring[1..]);
    DistinctConcat([cur, n], s.ring[1..]);
  }

  lemma ForkKeepsTasks(s: Sys, s': Sys)
    requires WellFormed(s) && ForestInv(s.tasks) && SignalInv(s.tasks) && UnstartedInv(s)
    requires s.tasks[s.ring[0]].state == TaskReady && s.tasks[s.ring[0]].sigpend == 0
    requires s' == Process.Fork(s)
    ensures ForestInv(s'.tasks) && SignalInv(s'.tasks) && UnstartedInv(s')
  {
    assert SignalsOk(s.tasks[s.ring[0]]);
  }

  lemma ForkKeepsCount(s: Sys, s': Sys)
    requires WellFormed(s) && s' == Process.Fork(s)
    requires ForestInv(s.tasks) && CountInv(s)
    ensures CountInv(s')
  {
    var cur, n := s.ring[0], |s.tasks|;
    forall p | p in s'.ring && p < n + 1
      ensures s'.tasks[p].childcount == LivingChildren(s'.tasks, p, n + 1)
    {
      CountSame(s.tasks, s'.tasks, p, n);
      if p == n {
        CountNone(s'.tasks, n, n + 1);
      } else {
        assert p in s.ring;
      }
    }
  }

  lemma ForkKeepsRecords(w: World, w': World)
    requires WellFormed(w.sys) && LogInv(w) && RecordInv(w) && ForestInv(w.sys.tasks)
    requires w' == w.(sys := Process.Fork(w.sys))
    ensures RecordInv(w')
  {
    var n := |w.sys.tasks|;
    forall p | p in w'.sys.ring && p < n + 1
      ensures Records(w'.sys.tasks[p], w.exits, p)
    {
      if p == n {
        assert LatestExit(w.exits, n) == -1;
      } else {
        assert p in w.sys.ring;
      }
    }
  }

  lemma ForkKeepsHistory(w: World, w': World)
    requires WellFormed(w.sys) && LogInv(w) && WaitInv(w)
    requires w' == w.(sys := Process.Fork(w.sys))
    ensures LogInv(w') && WaitInv(w')
  {
    assert forall p :: 0 <= p < |w.sys.tasks| ==>
      w'.sys.tasks[p] == w.sys.tasks[p].(childcount := w'.sys.tasks[p].childcount);
  }

  lemma ForkKeeps(w: World, w': World)
    requires Inv(w) && Current(w).state == TaskReady
    requires w' == w.(sys := Process.Fork(w.sys))
    ensures Inv(w')
  {
    ForkKeepsRing(w.sys, w'.sys);
    ForkKeepsTasks(w.sys, w'.sys);
    ForkKeepsCount(w.sys, w'.sys);
    ForkKeepsRecords(w, w');
    ForkKeepsHistory(w, w');
  }

  lemma ExitKeepsCount(s: Sys, status: int, s': Sys)
    requires WellFormed(s) && ForestInv(s.tasks) && CountInv(s)
    requires s.ring[0] != KERNEL_PID && s.tasks[s.ring[0]].state != TaskQuit
    requires s' == Process.Exit(s, status)
    ensures CountInv(s')
  {
    forall p | p in s'.ring && p < |s'.tasks|
      ensures s'.tasks[p].childcount == LivingChildren(s'.tasks, p, |s'.tasks|)
    {
      CountQuit(s.tasks, s'.tasks, p, s.ring[0], |s.tasks|);
    }
  }

  lemma ExitKeepsTasks(s: Sys, status: int, s': Sys)
    requires RingInv(s) && ForestInv(s.tasks) && SignalInv(s.tasks) && UnstartedInv(s)
    requires s.ring[0] != KERNEL_PID && s.tasks[s.ring[0]].state != TaskQuit
    requires s' == Process.Exit(s, status)
    ensures RingInv(s') && ForestInv(s'.tasks) && SignalInv(s'.tasks) && UnstartedInv(s')
  {
  }

  lemma LatestExitAppend(exits: seq<Exited>, x: Exited, p: nat)
    ensures LatestExit(exits + [x], p) == if x.ppid == p then |exits| else LatestExit(exits, p)
  {
    assert (exits + [x])[..|exits|] == exits;
  }

  lemma ExitKeepsLog(w: World, status: int, w': World)
    requires WellFormed(w.sys) && ForestInv(w.sys.tasks) && LogInv(w)
    requires Enabled(w, Op.Exit(status)) && w' == Step(w, Op.Exit(status))
    ensures LogInv(w')
  {
    var n := |w.exits|;
    assert forall e :: 0 <= e < n ==> w'.exits[e] == w.exits[e];
  }

  lemma RecordsAppend(t: Tcb, t': Tcb, exits: seq<Exited>, x: Exited, p: nat)
    requires Records(t, exits, p)
    requires x.ppid == p ==> t'.sigchldpid == x.pid && t'.sigchldexit == x.status
    requires x.ppid != p ==> t'.sigchldpid == t.sigchldpid && t'.sigchldexit == t.sigchldexit
    ensures Records(t', exits + [x], p)
  {
    LatestExitAppend(exits, x, p);
  }

  lemma ExitKeepsRecords(w: World, status: int, w': World)
    requires WellFormed(w.sys) && ForestInv(w.sys.tasks) && RecordInv(w)
    requires Enabled(w, Op.Exit(status)) && w' == Step(w, Op.Exit(status))
    ensures RecordInv(w')
  {
    var x := Exited(w.sys.ring[0], Current(w).ppid, status);
    forall p | p in w'.sys.ring && p < |w'.sys.tasks|
      ensures Records(w'.sys.tasks[p], w'.exits, p)
    {
      RecordsAppend(w.sys.tasks[p], w'.sys.tasks[p], w.exits, x, p);
    }
  }

  lemma ExitKeepsWaits(w: World, status: int, w': World)
    requires WellFormed(w.sys) && ForestInv(w.sys.tasks) && WaitInv(w)
    requires Enabled(w, Op.Exit(status)) && w' == Step(w, Op.Exit(status))
    ensures WaitInv(w')
  {
    forall p | p in w.waiting
      ensures LatestExit(w'.exits, p) == if Current(w).ppid == p then |w.exits| else LatestExit(w.exits, p)
    {
      LatestExitAppend(w.exits, w'.exits[|w.exits|], p);
    }
  }

  lemma ExitKeeps(w: World, status: int, w': World)
    requires Inv(w) && Enabled(w, Op.Exit(status)) && w' == Step(w, Op.Exit(status))
    ensures Inv(w')
  {
    ExitKeepsTasks(w.sys, status, w'.sys);
    ExitKeepsCount(w.sys, status, w'.sys);
    ExitKeepsLog(w, status, w');
    ExitKeepsRecords(w, status, w');
    ExitKeepsWaits(w, status, w');
  }

  lemma StepKeeps(w: World, op: Op)
    requires Inv(w) && Enabled(w, op)
    ensures Inv(Step(w, op))
  {
    var cur := w.sys.ring[0];
    match op
    case Preempt => YieldKeeps(w, Step(w, op));
    case Fork => ForkKeeps(w, Step(w, op));
    case Exit(status) => ExitKeeps(w, status, Step(w, op));
    case Suspend =>
      var w1 := w.(sys := Asleep(w.sys, Current(w).sigwait));
      AsleepKeeps(w, Current(w).sigwait, w1);
      YieldKeeps(w1, Step(w, op));
    case Wait4(options) =>
      if !Wait4Immediate(Current(w), options) {
        var w1 := w.(sys := Asleep(w.sys, SIGCHLD), waiting := w.waiting[cur := |w.exits|]);
        AsleepKeeps(w, SIGCHLD, w1);
        YieldKeeps(w1, Step(w, op));
      }
    case Wait4Return =>
  }

  /** Safety: the invariant holds in every world of every run. */
  lemma {:induction false} RunsSafe(ws: seq<World>, ops: seq<Op>, i: nat)
    requires IsRun(ws, ops) && i < |ws|
    ensures Inv(ws[i])
  {
    if i > 0 {
      RunsSafe(ws, ops, i - 1);
      StepKeeps(ws[i - 1], ops[i - 1]);
    }
  }
}
