/** What the operations of kernel/proc/sched.c, kernel/proc/task.c, arch/x86/proc/task.c
    and kernel/syscall/signal.c do to the task structures, on values.

    Tasks are indexed by pid.  The ring is the sequence of pids read from CurrentTask
    onwards, so `ring[0]` is the current task. */
module Process {
  import opened Sequences
  import opened TaskRing

  const KERNEL_PID: nat := 0
  const SIGTERM := 15
  const SIGCHLD := 17
  const WNOHANG: bv32 := 1
  const WUNTRACED: bv32 := 2

  datatype Sys = Sys(tasks: seq<Tcb>, ring: seq<nat>)

  ghost predicate WellFormed(s: Sys) {
    && 0 < |s.ring|
    && Distinct(s.ring)
    && (forall i :: 0 <= i < |s.ring| ==> s.ring[i] < |s.tasks|)
  }

  /** The state that sched_init leaves: the kernel task alone, linked to itself. */
  function Boot(): Sys {
    Sys([Tcb(KERNEL_PID, 0, TaskReady, 0, 0, 0, 0, 0, false)], [KERNEL_PID])
  }

  // ---- scheduling

  /** Ready, or waiting with a pending signal that the wait accepts. */
  predicate Runnable(t: Tcb) {
    || t.state == TaskReady
    || (t.state == TaskSigWait && t.sigpend != 0 && (t.sigpend == t.sigwait || t.sigwait == 0))
  }

  /** The order in which the scheduler looks at the ring: the current task last. */
  function Order(ring: seq<nat>): (order: seq<nat>)
    requires 0 < |ring|
    ensures |order| == |ring|
  { ring[1..] + [ring[0]] }

  ghost predicate CanYield(s: Sys) {
    WellFormed(s) && exists i :: 0 <= i < |s.ring| && Runnable(s.tasks[s.ring[i]])
  }

  function FirstRunnable(tasks: seq<Tcb>, order: seq<nat>): (k: nat)
    requires forall i :: 0 <= i < |order| ==> order[i] < |tasks|
    ensures k <= |order|
    ensures forall i :: 0 <= i < k ==> !Runnable(tasks[order[i]])
    ensures k < |order| ==> Runnable(tasks[order[k]])
  {
    if |order| == 0 || Runnable(tasks[order[0]]) then 0 else 1 + FirstRunnable(tasks, order[1..])
  }

  /** The pids of `s` whose tasks have not quit, in the same order. */
  function NotQuit(tasks: seq<Tcb>, s: seq<nat>): (r: seq<nat>)
    requires forall i :: 0 <= i < |s| ==> s[i] < |tasks|
    ensures forall p :: p in r <==> p in s && tasks[p].state != TaskQuit
    ensures |r| <= |s|
  {
    if |s| == 0 then []
    else
      var r := NotQuit(tasks, s[..|s| - 1]);
      if tasks[s[|s| - 1]].state == TaskQuit then r else r + [s[|s| - 1]]
  }

  /** task_signal_exec, up to the call of the handler. */
  function SignalExec(t: Tcb): Tcb {
    if t.sigpend == 0 then t
    else t.(sigpend := 0, sigwait := if t.sigwait == t.sigpend then 0 else t.sigwait)
  }

  /** The chosen task as it is when it runs again: a waiter has been made Ready, and a
      task that was suspended inside task_enter has executed its pending signal. */
  function Resumed(t: Tcb): Tcb {
    var ready := t.(state := TaskReady);
    if ready.forkContext then ready else SignalExec(ready)
  }

  /** The index, in `Order`, of the task that a yield enters. */
  function Choice(s: Sys): (k: nat)
    requires CanYield(s)
    ensures k < |s.ring|
    ensures Runnable(s.tasks[Order(s.ring)[k]])
    ensures forall i :: 0 <= i < k ==> !Runnable(s.tasks[Order(s.ring)[i]])
  {
    var order := Order(s.ring);
    assert forall i :: 0 <= i < |order| ==> order[i] == s.ring[if i + 1 < |order| then i + 1 else 0];
    var k := FirstRunnable(s.tasks, order);
    assert k < |order| by {
      var i :| 0 <= i < |s.ring| && Runnable(s.tasks[s.ring[i]]);
      assert order[if i == 0 then |order| - 1 else i - 1] == s.ring[i];
    }
    k
  }

  /** kern_sched_yield together with task_enter. */
  function Yield(s: Sys): Sys
    requires CanYield(s)
  {
    var order, k := Order(s.ring), Choice(s);
    assert forall i :: 0 <= i < |order| ==> order[i] == s.ring[if i + 1 < |order| then i + 1 else 0];
    var stored := s.tasks[s.ring[0] := s.tasks[s.ring[0]].(forkContext := false)];
    Sys(stored[order[k] := Resumed(stored[order[k]])], order[k..] + NotQuit(s.tasks, order[..k]))
  }

  // ---- fork, exit and wait

  /** task_clone. */
  function CloneOf(t: Tcb, pid: nat): Tcb {
    Tcb(pid, 0, TaskReady, 0, t.sigpend, t.sigwait, 0, 0, true)
  }

  /** task_fork: task_clone, then task_insert behind the current task. */
  function Fork(s: Sys): Sys
    requires WellFormed(s)
  {
    var cur := s.ring[0];
    var t := s.tasks[cur];
    Sys(s.tasks[cur := t.(childcount := t.childcount + 1)] + [CloneOf(t, cur)],
        [cur, |s.tasks|] + s.ring[1..])
  }

  /** The second half of task_exit: if the parent of `c` is on the ring, it is told of the
      exit, by overwriting what it was told before. */
  function ParentTold(s: Sys, c: nat): Sys
    requires WellFormed(s) && c < |s.tasks|
  {
    var parent := s.tasks[c].ppid;
    if parent in s.ring then
      var t := s.tasks[parent];
      s.(tasks := s.tasks[parent := t.(sigchldpid := c, sigchldexit := s.tasks[c].exitcode,
                                       sigpend := SIGCHLD, childcount := t.childcount - 1)])
    else s
  }

  /** task_exit(CurrentTask, status). */
  function Exit(s: Sys, status: int): Sys
    requires WellFormed(s)
  {
    var cur := s.ring[0];
    var quit := s.tasks[cur].(state := TaskQuit, exitcode := status, sigpend := SIGTERM);
    ParentTold(s.(tasks := s.tasks[cur := quit]), cur)
  }

  /** The current task put to sleep; `accepted` is the new value of its sigwait. */
  function Asleep(s: Sys, accepted: int): Sys
    requires WellFormed(s)
  {
    var cur := s.ring[0];
    s.(tasks := s.tasks[cur := s.tasks[cur].(state := TaskSigWait, sigwait := accepted)])
  }

  /** wait4 returns 0 at once when a non-blocking option is set and it counts no child. */
  predicate Wait4Immediate(t: Tcb, options: bv32) {
    (options & WNOHANG != 0 || options & WUNTRACED != 0) && t.childcount == 0
  }

  /** An exit changes two tasks at most: the caller has quit with its status, and a parent
      on the ring has SIGCHLD (17) pending, the pid and the status, and one child less. */
  lemma ExitTasks(s: Sys, status: int, p: nat)
    requires WellFormed(s) && p < |s.tasks| && s.tasks[s.ring[0]].ppid != s.ring[0]
    ensures Exit(s, status).ring == s.ring && |Exit(s, status).tasks| == |s.tasks|
    ensures var cur, t, t' := s.ring[0], s.tasks[p], Exit(s, status).tasks[p];
            if p == cur then t'.state == TaskQuit && t'.exitcode == status && t'.ppid == t.ppid
            else if p == s.tasks[cur].ppid && p in s.ring then
              && (t'.sigpend, t'.sigchldpid, t'.sigchldexit) == (17, cur, status)
              && t'.childcount == t.childcount - 1
              && t'.(sigpend := t.sigpend, sigchldpid := t.sigchldpid, sigchldexit := t.sigchldexit,
                     childcount := t.childcount) == t
            else t' == t
  {
  }

  /** WNOHANG is bit 0 and WUNTRACED bit 1 of the options. */
  lemma ImmediateBits(t: Tcb, options: bv32)
    ensures Wait4Immediate(t, options) <==> options & 3 != 0 && t.childcount == 0
  {
  }

  // ---- the shape of a yield

  lemma NotQuitDistinct(tasks: seq<Tcb>, s: seq<nat>)
    requires forall i :: 0 <= i < |s| ==> s[i] < |tasks|
    requires Distinct(s)
    ensures Distinct(NotQuit(tasks, s))
  {
    if |s| > 0 {
      NotQuitDistinct(tasks, s[..|s| - 1]);
    }
  }

  lemma OrderFacts(ring: seq<nat>)
    requires 0 < |ring|
    ensures forall i {:trigger Order(ring)[i]} :: 0 <= i < |ring| ==> Order(ring)[i] == ring[After(i, |ring|)]
    ensures forall p :: p in Order(ring) <==> p in ring
    ensures Distinct(ring) ==> Distinct(Order(ring))
  {
    var order := Order(ring);
    forall p | p in ring ensures p in order {
      var i :| 0 <= i < |ring| && ring[i] == p;
      assert order[Before(i, |ring|)] == p;
    }
  }

  /** Passing over `passed` drops those that have quit, and nothing else. */
  lemma PassedOver(tasks: seq<Tcb>, passed: seq<nat>, rest: seq<nat>)
    requires forall i :: 0 <= i < |passed| ==> passed[i] < |tasks|
    requires Distinct(passed + rest)
    ensures Distinct(rest + NotQuit(tasks, passed))
    ensures forall p :: p in rest + NotQuit(tasks, passed) <==>
              p in passed + rest && !(p in passed && tasks[p].state == TaskQuit)
  {
    DistinctParts(passed, rest);
    NotQuitDistinct(tasks, passed);
    DistinctConcat(rest, NotQuit(tasks, passed));
  }

  /** A yield keeps the ring well formed and takes out of it exactly the dead tasks it
      walked over. */
  lemma YieldMembers(s: Sys)
    requires CanYield(s)
    ensures WellFormed(Yield(s)) && |Yield(s).tasks| == |s.tasks|
    ensures forall p :: p in Yield(s).ring <==>
              p in s.ring && !(p in s.ring[1..Choice(s) + 1] && s.tasks[p].state == TaskQuit)
  {
    OrderFacts(s.ring);
    var order, k := Order(s.ring), Choice(s);
    assert order[..k] == s.ring[1..k + 1];
    assert order[..k] + order[k..] == order;
    PassedOver(s.tasks, order[..k], order[k..]);
    forall i | 0 <= i < |Yield(s).ring| ensures Yield(s).ring[i] < |s.tasks| {
      assert Yield(s).ring[i] in Yield(s).ring;
    }
  }

  /** It enters the first runnable task in ring order behind the current one, which comes
      last. */
  lemma YieldRing(s: Sys)
    requires CanYield(s)
    ensures Yield(s).ring[0] == s.ring[After(Choice(s), |s.ring|)]
    ensures Runnable(s.tasks[Yield(s).ring[0]])
    ensures forall i :: 0 < i <= Choice(s) ==> !Runnable(s.tasks[s.ring[i]])
  {
    OrderFacts(s.ring);
    forall i | 0 < i <= Choice(s) ensures !Runnable(s.tasks[s.ring[i]]) {
      assert Order(s.ring)[i - 1] == s.ring[i];
    }
  }

  /** A yield changes no task but the one it enters and, in the saved context alone, the
      one it leaves. */
  lemma YieldTasks(s: Sys, p: nat)
    requires CanYield(s) && p < |s.tasks|
    ensures p == Yield(s).ring[0] && p != s.ring[0] ==> Yield(s).tasks[p] == Resumed(s.tasks[p])
    ensures p == Yield(s).ring[0] && p == s.ring[0] ==>
              Yield(s).tasks[p] == Resumed(s.tasks[p].(forkContext := false))
    ensures p != Yield(s).ring[0] && p != s.ring[0] ==> Yield(s).tasks[p] == s.tasks[p]
    ensures p != Yield(s).ring[0] && p == s.ring[0] ==>
              Yield(s).tasks[p] == s.tasks[p].(forkContext := false)
  {
    OrderFacts(s.ring);
    assert Yield(s).ring[0] == Order(s.ring)[Choice(s)];
  }
}
