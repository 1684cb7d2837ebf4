/** The theorems about runs of the task system: what wait4 reports, and how long a
    runnable task waits for the processor. */
module ProcessTheorems {
  import opened Sequences
  import opened TaskRing
  import opened Process
  import opened ProcessRuns

  // ---- what wait4 reports

  ghost function Running(w: World): nat
    requires 0 < |w.sys.ring|
  { w.sys.ring[0] }

  ghost predicate Entered(w: World, p: nat) {
    0 < |w.sys.ring| && w.sys.ring[0] == p
  }

  /** Step `e` of the run is the exit of a child of `p`. */
  ghost predicate ChildExit(ws: seq<World>, ops: seq<Op>, e: nat, p: nat)
    requires IsRun(ws, ops) && e < |ops|
  {
    ops[e].Exit? && Current(ws[e]).ppid == p
  }

  lemma LogGrows(ws: seq<World>, ops: seq<Op>, i: nat, j: nat)
    requires IsRun(ws, ops) && i <= j < |ws|
    ensures ws[i].exits <= ws[j].exits
    decreases j
  {
    if i < j {
      LogGrows(ws, ops, i, j - 1);
      assert ws[j] == Step(ws[j - 1], ops[j - 1]);
    }
  }

  /** An exit adds the entry that is found at its place in every later log. */
  lemma ExitLogged(ws: seq<World>, ops: seq<Op>, e: nat, i: nat)
    requires IsRun(ws, ops) && e < i < |ws| && ops[e].Exit?
    ensures |ws[e].exits| < |ws[i].exits|
    ensures ws[i].exits[|ws[e].exits|].ppid == Current(ws[e]).ppid
  {
    assert ws[e + 1] == Step(ws[e], ops[e]);
    LogGrows(ws, ops, e + 1, i);
  }

  /** Each log entry was written by one step of the run. */
  lemma LoggedBy(ws: seq<World>, ops: seq<Op>, i: nat, k: nat) returns (e: nat)
    requires IsRun(ws, ops) && i < |ws| && k < |ws[i].exits|
    ensures e < i && |ws[e].exits| == k
    ensures ops[e] == Op.Exit(ws[i].exits[k].status)
    ensures Running(ws[e]) == ws[i].exits[k].pid && Current(ws[e]).ppid == ws[i].exits[k].ppid
    decreases i
  {
    assert i > 0;
    assert ws[i] == Step(ws[i - 1], ops[i - 1]);
    if k < |ws[i - 1].exits| {
      e := LoggedBy(ws, ops, i - 1, k);
    } else {
      e := i - 1;
    }
  }

  /** If `p` is inside wait4 in `b`, it was so in `a`, or `op` was its call. */
  ghost predicate WaitLink(a: World, op: Op, b: World, p: nat) {
    p in b.waiting ==>
      if p in a.waiting then b.waiting[p] == a.waiting[p]
      else op.Wait4? && Entered(a, p) && b.waiting[p] == |a.exits|
  }

  lemma StepLinks(w: World, op: Op, p: nat)
    requires Enabled(w, op)
    ensures WaitLink(w, op, Step(w, op), p)
  {
  }

  lemma {:induction false} FollowLinks(ws: seq<World>, ops: seq<Op>, i: nat, p: nat) returns (j: nat)
    requires |ws| == |ops| + 1 && i < |ws| && p in ws[i].waiting && p !in ws[0].waiting
    requires forall k :: 0 <= k < |ops| ==> WaitLink(ws[k], ops[k], ws[k + 1], p)
    ensures j < i && ops[j].Wait4? && Entered(ws[j], p)
    ensures ws[i].waiting[p] == |ws[j].exits|
    ensures forall m :: j < m <= i ==> p in ws[m].waiting
    decreases i
  {
    assert WaitLink(ws[i - 1], ops[i - 1], ws[i], p);
    if p in ws[i - 1].waiting {
      j := FollowLinks(ws, ops, i - 1, p);
    } else {
      j := i - 1;
    }
  }

  /** A task inside wait4 entered it at some step and has been inside ever since. */
  lemma CalledBy(ws: seq<World>, ops: seq<Op>, i: nat, p: nat) returns (j: nat)
    requires IsRun(ws, ops) && i < |ws| && p in ws[i].waiting
    ensures j < i && ops[j].Wait4? && Entered(ws[j], p)
    ensures ws[i].waiting[p] == |ws[j].exits|
    ensures forall m :: j < m <= i ==> p in ws[m].waiting
  {
    forall k | 0 <= k < |ops| ensures WaitLink(ws[k], ops[k], ws[k + 1], p) {
      StepLinks(ws[k], ops[k], p);
    }
    j := FollowLinks(ws, ops, i, p);
  }

  /** Step `i` returns from the wait4 call of step `j`, and reports the exit of step `e`:
      a child of the caller that quit during the wait with the reported status, after
      which no other child of the caller exited. */
  ghost predicate Reports(ws: seq<World>, ops: seq<Op>, i: nat, j: nat, e: nat)
    requires IsRun(ws, ops) && i < |ops|
  {
    var p, (pid, status) := Running(ws[i]), Wait4Result(ws[i]);
    && j < e < i
    && ops[j].Wait4? && Running(ws[j]) == p
    && (forall m :: j < m <= i ==> p in ws[m].waiting)
    && ops[e] == Op.Exit(status) && Running(ws[e]) == pid && ChildExit(ws, ops, e, p)
    && (forall f :: e < f < i ==> !ChildExit(ws, ops, f, p))
    && 0 < pid < |ws[i].sys.tasks| && ws[i].sys.tasks[pid].ppid == p
    && ws[i].sys.tasks[pid].state == TaskQuit && ws[i].sys.tasks[pid].exitcode == status
  }

  lemma Wait4ReportsLatestChild(ws: seq<World>, ops: seq<Op>, i: nat)
    requires IsRun(ws, ops) && i < |ops| && ops[i] == Wait4Return
    ensures exists j, e :: Reports(ws, ops, i, j, e)
  {
    RunsSafe(ws, ops, i);
    var w, p := ws[i], Running(ws[i]);
    var k := LatestExit(w.exits, p);
    var j := CalledBy(ws, ops, i, p);
    assert Records(w.sys.tasks[p], w.exits, p);
    var e := LoggedBy(ws, ops, i, k);
    if e < j {
      ExitLogged(ws, ops, e, j);
    }
    forall f | e < f < i ensures !ChildExit(ws, ops, f, p) {
      if ChildExit(ws, ops, f, p) {
        ExitLogged(ws, ops, e, f);
        ExitLogged(ws, ops, f, i);
      }
    }
    assert Reports(ws, ops, i, j, e);
  }

  /** A non-blocking option makes wait4 return at once exactly when the caller has no
      living child. */
  lemma Wait4NoChildren(ws: seq<World>, ops: seq<Op>, i: nat, options: bv32)
    requires IsRun(ws, ops) && i < |ws|
    ensures Inv(ws[i])
    ensures Wait4Immediate(Current(ws[i]), options) <==>
              && (options & WNOHANG != 0 || options & WUNTRACED != 0)
              && forall c :: 0 < c < |ws[i].sys.tasks| && ws[i].sys.tasks[c].state != TaskQuit ==>
                   ws[i].sys.tasks[c].ppid != Running(ws[i])
  {
    RunsSafe(ws, ops, i);
    CountZero(ws[i].sys.tasks, Running(ws[i]), |ws[i].sys.tasks|);
  }

  lemma CountZero(tasks: seq<Tcb>, p: nat, n: nat)
    requires n <= |tasks|
    ensures LivingChildren(tasks, p, n) == 0 <==>
              forall c :: 0 < c < n && tasks[c].state != TaskQuit ==> tasks[c].ppid != p
  {
  }

  // ---- bounded waiting

  /** How many tasks the scheduler looks at before it reaches `p`, which is not current. */
  function Distance(ring: seq<nat>, p: nat): (d: nat)
    requires p in ring
    ensures d < |ring| && ring[d] == p
    ensures forall i :: 0 <= i < d ==> ring[i] != p
  {
    if ring[0] == p then 0 else 1 + Distance(ring[1..], p)
  }

  lemma DistanceUnique(ring: seq<nat>, p: nat, d: nat)
    requires Distinct(ring) && d < |ring| && ring[d] == p
    ensures Distance(ring, p) == d
  {
  }

  /** Every yield brings a runnable task strictly closer, or enters it. */
  lemma YieldLowersDistance(s: Sys, p: nat)
    requires CanYield(s) && p in s.ring && p != s.ring[0] && Runnable(s.tasks[p])
    ensures p in Yield(s).ring
    ensures Distance(Yield(s).ring, p) < Distance(s.ring, p)
  {
    var d, order, k := Distance(s.ring, p), Order(s.ring), Choice(s);
    YieldMembers(s);
    OrderFacts(s.ring);
    assert order[d - 1] == p;
    assert Yield(s).ring[d - 1 - k] == p;
    DistanceUnique(Yield(s).ring, p, d - 1 - k);
  }

  /** A fork puts exactly one task in front of every other. */
  lemma ForkRaisesDistance(s: Sys, p: nat)
    requires RingInv(s) && p in s.ring && p != s.ring[0]
    ensures p in Process.Fork(s).ring
    ensures Distance(Process.Fork(s).ring, p) == Distance(s.ring, p) + 1
  {
    var s', d := Process.Fork(s), Distance(s.ring, p);
    ForkKeepsRing(s, s');
    assert s'.ring[d + 1] == p;
    DistanceUnique(s'.ring, p, d + 1);
  }

  ghost predicate Yields(w: World, op: Op)
    requires Enabled(w, op)
  {
    op.Preempt? || op.Suspend? || (op.Wait4? && !Wait4Immediate(Current(w), op.options))
  }

  ghost function YieldCount(ws: seq<World>, ops: seq<Op>, i: nat, j: nat): nat
    requires IsRun(ws, ops) && i <= j < |ws|
    decreases j
  {
    if i == j then 0 else YieldCount(ws, ops, i, j - 1) + if Yields(ws[j - 1], ops[j - 1]) then 1 else 0
  }

  ghost function ForkCount(ops: seq<Op>, i: nat, j: nat): nat
    requires i <= j <= |ops|
    decreases j
  {
    if i == j then 0 else ForkCount(ops, i, j - 1) + if ops[j - 1].Fork? then 1 else 0
  }

  /** Runnable, but not current. */
  ghost predicate Waits(w: World, p: nat) {
    && 0 < |w.sys.ring| && p in w.sys.ring && p != w.sys.ring[0]
    && p < |w.sys.tasks| && Runnable(w.sys.tasks[p])
  }

  /** One step: a runnable task that is not entered stays runnable, and its distance
      changes as the step says. */
  lemma StepDistance(w: World, op: Op, p: nat)
    requires RingInv(w.sys) && SignalInv(w.sys.tasks) && Enabled(w, op) && Waits(w, p)
    requires !Entered(Step(w, op), p)
    ensures Waits(Step(w, op), p)
    ensures Distance(Step(w, op).sys.ring, p) + (if Yields(w, op) then 1 else 0)
            <= Distance(w.sys.ring, p) + (if op.Fork? then 1 else 0)
  {
    match op
    case Preempt => YieldDistance(w.sys, p);
    case Suspend => YieldDistance(Asleep(w.sys, Current(w).sigwait), p);
    case Wait4(options) =>
      if !Wait4Immediate(Current(w), options) {
        YieldDistance(Asleep(w.sys, SIGCHLD), p);
      }
    case Fork => ForkRaisesDistance(w.sys, p);
    case Exit(status) => ExitLeavesRunnable(w.sys, status, p);
    case Wait4Return =>
  }

  /** The exit of another task leaves a runnable task runnable: it can only be told of a
      child, and every wait in use accepts that. */
  lemma ExitLeavesRunnable(s: Sys, status: int, p: nat)
    requires WellFormed(s) && SignalInv(s.tasks) && p < |s.tasks| && p != s.ring[0] && Runnable(s.tasks[p])
    ensures Runnable(Process.Exit(s, status).tasks[p]) && Process.Exit(s, status).ring == s.ring
  {
    assert SignalsOk(s.tasks[p]);
  }

  lemma YieldDistance(s: Sys, p: nat)
    requires CanYield(s) && p in s.ring && p != s.ring[0] && Runnable(s.tasks[p])
    requires p != Yield(s).ring[0]
    ensures p in Yield(s).ring && p < |Yield(s).tasks| && Runnable(Yield(s).tasks[p])
    ensures Distance(Yield(s).ring, p) + 1 <= Distance(s.ring, p)
  {
    YieldLowersDistance(s, p);
    YieldTasks(s, p);
  }

  lemma RunDistance(ws: seq<World>, ops: seq<Op>, m: nat, p: nat)
    requires IsRun(ws, ops) && m < |ops| && Waits(ws[m], p) && !Entered(ws[m + 1], p)
    ensures Waits(ws[m + 1], p)
    ensures Distance(ws[m + 1].sys.ring, p) + (if Yields(ws[m], ops[m]) then 1 else 0)
            <= Distance(ws[m].sys.ring, p) + (if ops[m].Fork? then 1 else 0)
  {
    RunsSafe(ws, ops, m);
    StepDistance(ws[m], ops[m], p);
  }

  /** No wakeup is lost: the exit of a child makes a parent that waits inside wait4
      runnable, so that from then on its wait for the processor is bounded. */
  lemma ExitWakesWaiter(w: World, status: int, p: nat)
    requires Inv(w) && Enabled(w, Op.Exit(status)) && p in w.waiting && Current(w).ppid == p
    ensures Waits(Step(w, Op.Exit(status)), p)
  {
    assert ForestInv(w.sys.tasks);
    assert p in w.sys.ring;
  }

  /** Over any stretch of a run in which a runnable task is not entered, it stays
      runnable, and yields have cost it at least their number of places, forks at most
      theirs.  So it is entered within `Distance + forks` yields. */
  lemma {:induction false} BoundedWaiting(ws: seq<World>, ops: seq<Op>, i: nat, j: nat, p: nat)
    requires IsRun(ws, ops) && i <= j < |ws|
    requires Waits(ws[i], p)
    requires forall m :: i < m <= j ==> !Entered(ws[m], p)
    ensures Waits(ws[j], p)
    ensures YieldCount(ws, ops, i, j) + Distance(ws[j].sys.ring, p)
            <= Distance(ws[i].sys.ring, p) + ForkCount(ops, i, j)
    ensures YieldCount(ws, ops, i, j) < Distance(ws[i].sys.ring, p) + ForkCount(ops, i, j)
    decreases j
  {
    if i < j {
      BoundedWaiting(ws, ops, i, j - 1, p);
      RunDistance(ws, ops, j - 1, p);
    }
  }

  /** A forked task is the child of the one that forked it, which goes on; it is runnable,
      and the first that the scheduler looks at. */
  lemma ForkStarts(w: World)
    requires Inv(w) && Enabled(w, Op.Fork)
    ensures var w', n := Step(w, Op.Fork), |w.sys.tasks|;
            && Running(w') == Running(w) && Waits(w', n) && Distance(w'.sys.ring, n) == 1
            && w'.sys.tasks[n].ppid == Running(w) && w'.sys.tasks[n].childcount == 0
            && w'.sys.tasks[n].sigchldpid == 0 && w'.sys.tasks[n].sigchldexit == 0
            && forall r :: 0 <= r < n && r != Running(w) ==> w'.sys.tasks[r] == w.sys.tasks[r]
  {
    ForkKeepsRing(w.sys, Step(w, Op.Fork).sys);
    DistanceUnique(Step(w, Op.Fork).sys.ring, |w.sys.tasks|, 1);
  }

  // ---- sleep

  /** Put to sleep and not yet told of anything. */
  ghost predicate Sleeps(w: World, p: nat) {
    && 0 < |w.sys.ring| && p != w.sys.ring[0] && p < |w.sys.tasks|
    && w.sys.tasks[p].state == TaskSigWait && w.sys.tasks[p].sigpend == 0
  }

  lemma YieldLeavesAsleep(s: Sys, p: nat)
    requires CanYield(s) && p < |s.tasks| && s.tasks[p].state == TaskSigWait && s.tasks[p].sigpend == 0
    ensures 0 < |Yield(s).ring| && p != Yield(s).ring[0] && p < |Yield(s).tasks|
    ensures Yield(s).tasks[p].state == TaskSigWait && Yield(s).tasks[p].sigpend == 0
  {
    YieldMembers(s);
    YieldRing(s);
    YieldTasks(s, p);
  }

  /** rt_sigsuspend puts its caller to sleep and leaves it. */
  lemma SuspendSleeps(w: World)
    requires Inv(w) && Enabled(w, Suspend)
    ensures Sleeps(Step(w, Suspend), Running(w))
  {
    YieldLeavesAsleep(Asleep(w.sys, Current(w).sigwait), Running(w));
  }

  /** Only the exit of a child reaches a sleeper. */
  lemma StaysAsleep(w: World, op: Op, p: nat)
    requires Enabled(w, op) && Sleeps(w, p) && !(op.Exit? && Current(w).ppid == p)
    ensures Sleeps(Step(w, op), p)
  {
    match op
    case Preempt => YieldLeavesAsleep(w.sys, p);
    case Suspend => YieldLeavesAsleep(Asleep(w.sys, Current(w).sigwait), p);
    case Wait4(options) =>
      if !Wait4Immediate(Current(w), options) {
        YieldLeavesAsleep(Asleep(w.sys, SIGCHLD), p);
      }
    case Fork =>
    case Exit(status) =>
    case Wait4Return =>
  }

  lemma {:induction false} WokenBy(ws: seq<World>, ops: seq<Op>, i: nat, j: nat, p: nat) returns (e: nat)
    requires IsRun(ws, ops) && i <= j < |ws| && Sleeps(ws[i], p) && Entered(ws[j], p)
    ensures i <= e < j && ChildExit(ws, ops, e, p)
    ensures forall m :: i <= m <= e ==> Sleeps(ws[m], p)
    decreases j - i
  {
    if ChildExit(ws, ops, i, p) {
      e := i;
    } else {
      assert Enabled(ws[i], ops[i]) && ws[i + 1] == Step(ws[i], ops[i]);
      StaysAsleep(ws[i], ops[i], p);
      e := WokenBy(ws, ops, i + 1, j, p);
    }
  }

  /** rt_sigsuspend returns only after the exit of a child of its caller, and until then
      the caller sleeps. */
  lemma SuspendReturns(ws: seq<World>, ops: seq<Op>, i: nat, j: nat) returns (e: nat)
    requires IsRun(ws, ops) && i < j < |ws| && ops[i] == Suspend && Entered(ws[j], Running(ws[i]))
    ensures i < e < j && ChildExit(ws, ops, e, Running(ws[i]))
    ensures forall m :: i < m <= e ==> Sleeps(ws[m], Running(ws[i]))
  {
    RunsSafe(ws, ops, i);
    SuspendSleeps(ws[i]);
    assert ws[i + 1] == Step(ws[i], ops[i]);
    e := WokenBy(ws, ops, i + 1, j, Running(ws[i]));
  }

  /** And the exit of a child does make it runnable, whether it sleeps in rt_sigsuspend or
      in wait4. */
  lemma ExitWakesSleeper(w: World, status: int, p: nat)
    requires Inv(w) && Enabled(w, Op.Exit(status)) && Sleeps(w, p) && Current(w).ppid == p
    ensures Waits(Step(w, Op.Exit(status)), p)
  {
    assert SignalsOk(w.sys.tasks[p]);
    assert p in w.sys.ring;
  }
}
