/** The heap code carries out the runs: each operation, applied to a task system that
    holds the kernel state of a world, leaves it holding that of the next. */
module KernelRuns {
  import opened Process
  import opened ProcessRuns
  import opened ProcessTheorems
  import opened Kernel

  /** The pid and status that a call returned to its caller, if it returned. */
  datatype Outcome = NotReturned | Returned(pid: int, status: int)

  /** `r` is what the operation gives its caller; fork gives the parent the pid of the new
      task, which no task had before. */
  ghost predicate Answers(w: World, op: Op, r: Outcome)
    requires WellFormed(w.sys)
  {
    match op
    case Wait4Return => r == Returned(Wait4Result(w).0, Wait4Result(w).1)
    case Fork => r == Returned(|w.sys.tasks|, 0)
    case Wait4(options) => (r.Returned? <==> Wait4Immediate(Current(w), options)) && (r.Returned? ==> r.pid == 0)
    case _ => r == NotReturned
  }

  method Perform(k: TaskSystem, op: Op, ghost w: World) returns (r: Outcome)
    requires k.Valid() && w.sys == k.Abs() && Enabled(w, op)
    modifies k, k.all
    ensures k.Valid() && k.Abs() == Step(w, op).sys && Answers(w, op, r)
    ensures old(k.all) <= k.all && forall i :: |old(k.all)| <= i < |k.all| ==> fresh(k.all[i])
  {
    r := NotReturned;
    match op
    case Fork =>
      var clone := k.TaskFork();
      r := Returned(clone.pid, 0);
    case Exit(status) => k.TaskExit(status);
    case Preempt => k.SchedYield();
    case Suspend => k.RtSigsuspend();
    case Wait4(options) =>
      var returned := k.Wait4(options);
      if returned { r := Returned(0, 0); }
    case Wait4Return =>
      var pid, status := k.Wait4Tail();
      r := Returned(pid, status);
  }

  ghost predicate AllAnswered(ws: seq<World>, ops: seq<Op>, rs: seq<Outcome>) {
    |rs| <= |ops| <= |ws| && forall i :: 0 <= i < |rs| ==> WellFormed(ws[i].sys) && Answers(ws[i], ops[i], rs[i])
  }

  lemma AnsweredMore(ws: seq<World>, ops: seq<Op>, rs: seq<Outcome>, r: Outcome)
    requires AllAnswered(ws, ops, rs) && |rs| < |ops|
    requires WellFormed(ws[|rs|].sys) && Answers(ws[|rs|], ops[|rs|], r)
    ensures AllAnswered(ws, ops, rs + [r])
  {
  }

  /** One step of a run. */
  method PerformNext(k: TaskSystem, ops: seq<Op>, ghost ws: seq<World>, n: nat) returns (r: Outcome)
    requires IsRun(ws, ops) && n < |ops| && k.Valid() && k.Abs() == ws[n].sys
    modifies k, k.all
    ensures k.Valid() && k.Abs() == ws[n + 1].sys && Answers(ws[n], ops[n], r)
    ensures forall i :: 0 <= i < |k.all| ==> k.all[i] in old(k.all) || fresh(k.all[i])
  {
    r := Perform(k, ops[n], ws[n]);
  }

  /** A whole run on the heap, from boot. */
  method Execute(ops: seq<Op>, ghost ws: seq<World>) returns (k: TaskSystem, rs: seq<Outcome>)
    requires IsRun(ws, ops)
    ensures fresh(k) && fresh(k.all) && k.Valid() && k.Abs() == ws[|ops|].sys && Inv(ws[|ops|])
    ensures |rs| == |ops| && AllAnswered(ws, ops, rs)
  {
    k := new TaskSystem();
    rs := [];
    for n := 0 to |ops|
      invariant fresh(k) && fresh(k.all) && k.Valid() && k.Abs() == ws[n].sys
      invariant |rs| == n && AllAnswered(ws, ops, rs)
    {
      var r := PerformNext(k, ops, ws, n);
      AnsweredMore(ws, ops, rs, r);
      rs := rs + [r];
    }
    RunsSafe(ws, ops, |ops|);
  }

  /** What it gives the callers of wait4 are exits of their children in the run: step `i`
      returns from the call of step `j` with the pid of the task that ran at step `e` and
      the status with which it exited there. */
  lemma WaitsAnswered(ws: seq<World>, ops: seq<Op>, rs: seq<Outcome>, i: nat) returns (j: nat, e: nat)
    requires IsRun(ws, ops) && AllAnswered(ws, ops, rs) && i < |rs| && ops[i] == Wait4Return
    ensures Reports(ws, ops, i, j, e) && rs[i] == Returned(Running(ws[e]), ops[e].status)
  {
    Wait4ReportsLatestChild(ws, ops, i);
    j, e :| Reports(ws, ops, i, j, e);
  }
}
