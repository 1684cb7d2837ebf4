/** When a wait4 or rt_sigsuspend that has put its caller to sleep can ever return: exactly
    when a chain of living children leads from the caller to a task that can run. */
module ProcessLiveness {
  import opened TaskRing
  import opened Process
  import opened ProcessRuns
  import opened ProcessTheorems

  // ---- continuations

  ghost predicate Takes(w: World, op: Op, w': World) { Enabled(w, op) && w' == Step(w, op) }

  ghost predicate Trace(ws: seq<World>, ops: seq<Op>) {
    |ws| == |ops| + 1 && forall i :: 0 <= i < |ops| ==> Takes(ws[i], ops[i], ws[i + 1])
  }

  /** The operations `ops` can be carried out from `w` and lead to `w'`. */
  ghost predicate Leads(w: World, ops: seq<Op>, w': World) {
    exists ws :: Trace(ws, ops) && ws[0] == w && ws[|ops|] == w'
  }

  lemma LeadsNone(w: World)
    ensures Leads(w, [], w)
  {
    assert Trace([w], []);
  }

  lemma LeadsOne(w: World, op: Op)
    requires Enabled(w, op)
    ensures Leads(w, [op], Step(w, op))
  {
    var ws := [w, Step(w, op)];
    assert Takes(w, op, Step(w, op));
    assert Trace(ws, [op]);
  }

  lemma SpliceAt<T>(us: seq<T>, n: nat, vs: seq<T>, i: nat)
    requires n < |us| && |vs| > 0 && us[n] == vs[0] && i < n + |vs|
    ensures (us[..n] + vs)[i] == if i <= n then us[i] else vs[i - n]
  {
  }

  lemma TraceConcat(us: seq<World>, a: seq<Op>, vs: seq<World>, b: seq<Op>)
    requires Trace(us, a) && Trace(vs, b) && us[|a|] == vs[0]
    ensures Trace(us[..|a|] + vs, a + b)
  {
    var ws, ops := us[..|a|] + vs, a + b;
    forall i | 0 <= i < |ops| ensures Takes(ws[i], ops[i], ws[i + 1]) {
      SpliceAt(us, |a|, vs, i);
      SpliceAt(us, |a|, vs, i + 1);
      if i < |a| {
        assert Takes(us[i], a[i], us[i + 1]);
      } else {
        assert Takes(vs[i - |a|], b[i - |a|], vs[i - |a| + 1]);
      }
    }
  }

  lemma LeadsConcat(w: World, a: seq<Op>, w1: World, b: seq<Op>, w2: World)
    requires Leads(w, a, w1) && Leads(w1, b, w2)
    ensures Leads(w, a + b, w2)
  {
    var us :| Trace(us, a) && us[0] == w && us[|a|] == w1;
    var vs :| Trace(vs, b) && vs[0] == w1 && vs[|b|] == w2;
    TraceConcat(us, a, vs, b);
    var ws := us[..|a|] + vs;
    assert ws[0] == w && ws[|a + b|] == w2;
  }

  // ---- tasks that nothing can wake

  predicate Living(t: Tcb) { t.state != TaskQuit }

  ghost predicate LivingChild(tasks: seq<Tcb>, p: nat, c: nat) {
    0 < c < |tasks| && Living(tasks[c]) && tasks[c].ppid == p
  }

  /** The tasks of `d` sleep with nothing pending, and their living children are in `d`. */
  ghost predicate Hopeless(tasks: seq<Tcb>, d: set<nat>) {
    && (forall q :: q in d ==> q < |tasks| && tasks[q].state == TaskSigWait && tasks[q].sigpend == 0)
    && (forall q, c :: q in d && LivingChild(tasks, q, c) ==> c in d)
  }

  ghost predicate Stuck(w: World, d: set<nat>) {
    Hopeless(w.sys.tasks, d) && 0 < |w.sys.ring| && w.sys.ring[0] !in d
  }

  lemma YieldSticks(s: Sys, s': Sys, d: set<nat>)
    requires CanYield(s) && s' == Yield(s) && Hopeless(s.tasks, d)
    ensures Hopeless(s'.tasks, d) && 0 < |s'.ring| && s'.ring[0] !in d
  {
    YieldSwitches(s);
    forall q, c | q in d && LivingChild(s'.tasks, q, c) ensures c in d {
      assert LivingChild(s.tasks, q, c);
    }
  }

  lemma ForkSticks(w: World, d: set<nat>)
    requires Enabled(w, Op.Fork) && Stuck(w, d)
    ensures Stuck(Step(w, Op.Fork), d)
  {
    var s, s' := w.sys, Step(w, Op.Fork).sys;
    forall q, c | q in d && LivingChild(s'.tasks, q, c) ensures c in d {
      assert LivingChild(s.tasks, q, c);
    }
  }

  lemma ExitSticks(w: World, status: int, d: set<nat>)
    requires Enabled(w, Op.Exit(status)) && Stuck(w, d)
    ensures Stuck(Step(w, Op.Exit(status)), d)
  {
    var s, s' := w.sys, Step(w, Op.Exit(status)).sys;
    assert forall q :: q in d ==> !LivingChild(s.tasks, q, s.ring[0]);
    forall q, c | q in d && LivingChild(s'.tasks, q, c) ensures c in d {
      assert LivingChild(s.tasks, q, c);
    }
  }

  lemma AsleepSticks(s: Sys, accepted: int, d: set<nat>)
    requires WellFormed(s) && Hopeless(s.tasks, d) && s.ring[0] !in d && Living(s.tasks[s.ring[0]])
    ensures Hopeless(Asleep(s, accepted).tasks, d)
  {
    forall q, c | q in d && LivingChild(Asleep(s, accepted).tasks, q, c) ensures c in d {
      assert LivingChild(s.tasks, q, c);
    }
  }

  /** No operation of any task reaches into such a set. */
  lemma StepSticks(w: World, op: Op, d: set<nat>)
    requires Enabled(w, op) && Stuck(w, d)
    ensures Stuck(Step(w, op), d)
  {
    match op
    case Preempt => YieldSticks(w.sys, Step(w, op).sys, d);
    case Suspend =>
      AsleepSticks(w.sys, Current(w).sigwait, d);
      YieldSticks(Asleep(w.sys, Current(w).sigwait), Step(w, op).sys, d);
    case Wait4(options) =>
      if !Wait4Immediate(Current(w), options) {
        AsleepSticks(w.sys, SIGCHLD, d);
        YieldSticks(Asleep(w.sys, SIGCHLD), Step(w, op).sys, d);
      }
    case Fork => ForkSticks(w, d);
    case Exit(status) => ExitSticks(w, status, d);
    case Wait4Return =>
  }

  lemma {:induction false} StuckForever(ws: seq<World>, ops: seq<Op>, d: set<nat>, i: nat, j: nat)
    requires Trace(ws, ops) && i <= j < |ws| && Stuck(ws[i], d)
    ensures Stuck(ws[j], d)
    decreases j
  {
    if i < j {
      StuckForever(ws, ops, d, i, j - 1);
      assert Takes(ws[j - 1], ops[j - 1], ws[j]);
      StepSticks(ws[j - 1], ops[j - 1], d);
    }
  }

  // ---- lifelines

  /** A chain of living tasks, each the child of the one before, to one that can run. */
  ghost predicate Lifeline(tasks: seq<Tcb>, c: seq<nat>) {
    && |c| > 0
    && (forall i :: 0 <= i < |c| ==> c[i] < |tasks| && Living(tasks[c[i]]))
    && (forall i :: 0 < i < |c| ==> 0 < c[i] && tasks[c[i]].ppid == c[i - 1])
    && Runnable(tasks[c[|c| - 1]])
  }

  ghost predicate Hopeful(tasks: seq<Tcb>, p: nat) {
    exists c :: Lifeline(tasks, c) && c[0] == p
  }

  lemma LifelineLonger(tasks: seq<Tcb>, p: nat, c: seq<nat>)
    requires Lifeline(tasks, c) && p < |tasks| && Living(tasks[p]) && LivingChild(tasks, p, c[0])
    ensures Lifeline(tasks, [p] + c) && Hopeful(tasks, p)
  {
    var d := [p] + c;
    assert forall i :: 0 < i < |d| ==> d[i] == c[i - 1];
    assert Lifeline(tasks, d);
  }

  lemma LifelineShorter(tasks: seq<Tcb>, c: seq<nat>)
    requires Lifeline(tasks, c) && |c| > 1
    ensures Lifeline(tasks, c[1..]) && LivingChild(tasks, c[0], c[1]) && Hopeful(tasks, c[1])
  {
    var d := c[1..];
    assert forall i :: 0 <= i < |d| ==> d[i] == c[i + 1];
    assert Lifeline(tasks, d);
  }

  /** Pids rise along a lifeline. */
  lemma {:induction false} LifelineRises(tasks: seq<Tcb>, c: seq<nat>, i: nat, j: nat)
    requires Lifeline(tasks, c) && ForestInv(tasks) && i <= j < |c|
    ensures c[i] <= c[j] && (i < j ==> c[i] < c[j])
    decreases j
  {
    if i < j {
      LifelineRises(tasks, c, i, j - 1);
    }
  }

  /** The living tasks without a lifeline are stuck. */
  lemma HopelessAreStuck(w: World) returns (d: set<nat>)
    requires Inv(w)
    ensures Stuck(w, d)
    ensures forall q :: 0 <= q < |w.sys.tasks| && Living(w.sys.tasks[q]) && !Hopeful(w.sys.tasks, q) ==> q in d
  {
    var tasks := w.sys.tasks;
    d := set q: nat | q < |tasks| && Living(tasks[q]) && !Hopeful(tasks, q);
    forall q | q in d ensures tasks[q].state == TaskSigWait && tasks[q].sigpend == 0 {
      assert SignalsOk(tasks[q]);
      if Runnable(tasks[q]) {
        assert Lifeline(tasks, [q]);
      }
    }
    forall q, c | q in d && LivingChild(tasks, q, c) ensures c in d {
      if Hopeful(tasks, c) {
        var l :| Lifeline(tasks, l) && l[0] == c;
        LifelineLonger(tasks, q, l);
      }
    }
  }

  // ---- rescue

  lemma FamilyTrans(a: seq<Tcb>, b: seq<Tcb>, c: seq<Tcb>)
    requires SameFamily(a, b) && SameFamily(b, c)
    ensures SameFamily(a, c)
  {
  }

  lemma PreemptFacts(w: World)
    requires Inv(w)
    ensures Enabled(w, Preempt) && Inv(Step(w, Preempt))
    ensures SameFamily(w.sys.tasks, Step(w, Preempt).sys.tasks)
  {
    NeverStuck(w);
    StepKeeps(w, Preempt);
    YieldSwitches(w.sys);
    SwitchKeepsTasks(w.sys, Yield(w.sys));
  }

  /** Preemptions alone bring a runnable task to the processor. */
  lemma {:induction false} PreemptUntil(w: World, q: nat) returns (ops: seq<Op>, w': World)
    requires Inv(w) && q in w.sys.ring && q < |w.sys.tasks| && Runnable(w.sys.tasks[q])
    ensures Leads(w, ops, w') && Inv(w') && Entered(w', q) && Current(w').state == TaskReady
    ensures SameFamily(w.sys.tasks, w'.sys.tasks) && w'.waiting == w.waiting && w'.exits == w.exits
    decreases Distance(w.sys.ring, q)
  {
    if w.sys.ring[0] == q {
      ops, w' := [], w;
      LeadsNone(w);
    } else {
      PreemptFacts(w);
      var w1 := Step(w, Preempt);
      YieldLowersDistance(w.sys, q);
      YieldTasks(w.sys, q);
      var rest;
      rest, w' := PreemptUntil(w1, q);
      ops := [Preempt] + rest;
      LeadsOne(w, Preempt);
      LeadsConcat(w, [Preempt], w1, rest, w');
      FamilyTrans(w.sys.tasks, w1.sys.tasks, w'.sys.tasks);
    }
  }

  /** Operations that end with the exit of `q` change nobody else's life or parent, wake its
      parent and leave every other wait as it was. */
  ghost predicate Bereaved(w: World, q: nat, w': World)
    requires q < |w.sys.tasks|
  {
    && |w'.sys.tasks| == |w.sys.tasks|
    && (forall r :: 0 <= r < |w.sys.tasks| ==> w'.sys.tasks[r].ppid == w.sys.tasks[r].ppid)
    && (forall r :: 0 <= r < |w.sys.tasks| && r != q ==> (Living(w'.sys.tasks[r]) <==> Living(w.sys.tasks[r])))
    && (forall r :: 0 <= r < |w.sys.tasks| && r != q && w.sys.tasks[q].ppid == r && Living(w.sys.tasks[r]) ==>
          Runnable(w'.sys.tasks[r]))
    && (forall r :: r in w.waiting && r != q ==> r in w'.waiting && w'.waiting[r] == w.waiting[r])
  }

  lemma ExitBereaves(w: World, q: nat)
    requires Inv(w) && Entered(w, q) && Current(w).state == TaskReady && q != KERNEL_PID && q !in w.waiting
    ensures Enabled(w, Op.Exit(0)) && Bereaved(w, q, Step(w, Op.Exit(0)))
  {
    var p := Current(w).ppid;
    if 0 <= p < |w.sys.tasks| && Living(w.sys.tasks[p]) {
      assert SignalsOk(w.sys.tasks[p]);
    }
  }

  lemma BereavedFrom(w: World, w1: World, q: nat, w': World)
    requires q < |w.sys.tasks| && SameFamily(w.sys.tasks, w1.sys.tasks) && Bereaved(w1, q, w')
    requires forall r :: r in w.waiting && r != q ==> r in w1.waiting && w1.waiting[r] == w.waiting[r]
    ensures Bereaved(w, q, w')
  {
  }

  lemma ReturnNow(w: World, q: nat) returns (w': World)
    requires Inv(w) && Entered(w, q) && Current(w).state == TaskReady && q in w.waiting
    ensures Leads(w, [Wait4Return], w') && Inv(w') && w' == w.(waiting := w.waiting - {q})
  {
    w' := Step(w, Wait4Return);
    LeadsOne(w, Wait4Return);
    StepKeeps(w, Wait4Return);
  }

  lemma ExitNow(w: World, q: nat) returns (w': World)
    requires Inv(w) && Entered(w, q) && Current(w).state == TaskReady && q != KERNEL_PID && q !in w.waiting
    ensures Leads(w, [Op.Exit(0)], w') && Inv(w') && Bereaved(w, q, w')
  {
    ExitBereaves(w, q);
    w' := Step(w, Op.Exit(0));
    StepKeeps(w, Op.Exit(0));
    LeadsOne(w, Op.Exit(0));
  }

  /** A task that is current leaves its wait4, if it is inside one. */
  lemma LeaveWait(w: World, q: nat) returns (ops: seq<Op>, w': World)
    requires Inv(w) && Entered(w, q) && Current(w).state == TaskReady
    ensures Leads(w, ops, w') && Inv(w') && q !in w'.waiting && w'.sys == w.sys
    ensures forall r :: r in w.waiting && r != q ==> r in w'.waiting && w'.waiting[r] == w.waiting[r]
  {
    if q in w.waiting {
      ops := [Wait4Return];
      w' := ReturnNow(w, q);
    } else {
      ops, w' := [], w;
      LeadsNone(w);
    }
  }

  /** Then it exits. */
  lemma LeaveAndExit(w: World, q: nat) returns (ops: seq<Op>, w': World)
    requires Inv(w) && Entered(w, q) && Current(w).state == TaskReady && q != KERNEL_PID
    ensures Leads(w, ops, w') && Inv(w') && Bereaved(w, q, w')
  {
    var leave, w1 := LeaveWait(w, q);
    w' := ExitNow(w1, q);
    ops := leave + [Op.Exit(0)];
    LeadsConcat(w, leave, w1, [Op.Exit(0)], w');
    BereavedFrom(w, w1, q, w');
  }

  /** Any runnable task but the kernel's can be brought to exit. */
  lemma LetExit(w: World, q: nat) returns (ops: seq<Op>, w': World)
    requires Inv(w) && 0 < q < |w.sys.tasks| && Runnable(w.sys.tasks[q])
    ensures Leads(w, ops, w') && Inv(w') && Bereaved(w, q, w')
  {
    var before, w1 := PreemptUntil(w, q);
    var after;
    after, w' := LeaveAndExit(w1, q);
    LeadsConcat(w, before, w1, after, w');
    ops := before + after;
    BereavedFrom(w, w1, q, w');
  }

  lemma LifelineAfter(w: World, c: seq<nat>, w': World)
    requires ForestInv(w.sys.tasks) && Lifeline(w.sys.tasks, c) && |c| > 1 && Bereaved(w, c[|c| - 1], w')
    ensures Lifeline(w'.sys.tasks, c[..|c| - 1])
  {
    var d, q := c[..|c| - 1], c[|c| - 1];
    forall i | 0 <= i < |d| ensures d[i] < |w'.sys.tasks| && Living(w'.sys.tasks[d[i]]) {
      LifelineRises(w.sys.tasks, c, i, |c| - 1);
      assert d[i] == c[i];
    }
    LifelineRises(w.sys.tasks, c, |c| - 2, |c| - 1);
    assert d[|d| - 1] == c[|c| - 2];
    forall i | 0 < i < |d| ensures 0 < d[i] && w'.sys.tasks[d[i]].ppid == d[i - 1] {
      assert d[i] == c[i];
    }
  }

  /** The last task of a lifeline can be brought to exit, which makes the one before it
      the last. */
  lemma LastExits(w: World, c: seq<nat>) returns (ops: seq<Op>, w': World)
    requires Inv(w) && Lifeline(w.sys.tasks, c) && |c| > 1
    ensures Leads(w, ops, w') && Inv(w') && Lifeline(w'.sys.tasks, c[..|c| - 1])
    ensures c[0] in w.waiting ==> c[0] in w'.waiting && w'.waiting[c[0]] == w.waiting[c[0]]
  {
    LifelineRises(w.sys.tasks, c, 0, |c| - 1);
    ops, w' := LetExit(w, c[|c| - 1]);
    LifelineAfter(w, c, w');
  }

  /** `p` runs again in `w'`, and if it was inside wait4 in `w` it is at the end of the
      same call. */
  ghost predicate Back(w: World, w': World, p: nat) {
    && Entered(w', p) && WellFormed(w'.sys) && Current(w').state == TaskReady
    && (p in w.waiting ==> Enabled(w', Wait4Return) && w'.waiting[p] == w.waiting[p])
  }

  lemma Return(w: World, p: nat) returns (ops: seq<Op>, w': World)
    requires Inv(w) && p < |w.sys.tasks| && Runnable(w.sys.tasks[p])
    ensures Leads(w, ops, w') && Back(w, w', p)
  {
    ops, w' := PreemptUntil(w, p);
  }

  /** From the end of a lifeline upwards task after task exits, until the first one, which
      sleeps, runs again. */
  lemma {:induction false} Rescue(w: World, c: seq<nat>) returns (ops: seq<Op>, w': World)
    requires Inv(w) && Lifeline(w.sys.tasks, c)
    ensures Leads(w, ops, w') && Back(w, w', c[0])
    decreases |c|
  {
    if |c| == 1 {
      ops, w' := Return(w, c[0]);
    } else {
      var first, w1 := LastExits(w, c);
      var rest;
      rest, w' := Rescue(w1, c[..|c| - 1]);
      LeadsConcat(w, first, w1, rest, w');
      ops := first + rest;
    }
  }

  // ---- the theorem

  /** Some continuation brings `p` back from the call in which it sleeps. */
  ghost predicate CanReturn(w: World, p: nat) {
    exists ops, w' :: Leads(w, ops, w') && Back(w, w', p)
  }

  /** It can return if and only if it has a lifeline. */
  lemma CanReturnIff(w: World, p: nat)
    requires Inv(w) && p < |w.sys.tasks| && Living(w.sys.tasks[p])
    ensures CanReturn(w, p) <==> Hopeful(w.sys.tasks, p)
  {
    if Hopeful(w.sys.tasks, p) {
      var c :| Lifeline(w.sys.tasks, c) && c[0] == p;
      var ops, w' := Rescue(w, c);
    } else {
      var d := HopelessAreStuck(w);
      forall ops, w' | Leads(w, ops, w') ensures !Entered(w', p) {
        var ws :| Trace(ws, ops) && ws[0] == w && ws[|ops|] == w';
        StuckForever(ws, ops, d, 0, |ops|);
      }
    }
  }

  // ---- at the call

  /** The two states agree on every task but `p`, as far as lifelines go. */
  ghost predicate SameBut(tasks: seq<Tcb>, tasks': seq<Tcb>, p: nat) {
    && |tasks'| == |tasks|
    && (forall r :: 0 <= r < |tasks| ==> tasks'[r].ppid == tasks[r].ppid)
    && (forall r :: 0 <= r < |tasks| && r != p ==>
          && (Living(tasks'[r]) <==> Living(tasks[r]))
          && (Runnable(tasks'[r]) <==> Runnable(tasks[r])))
  }

  ghost predicate Blocks(w: World, op: Op) {
    Enabled(w, op) && (op.Suspend? || (op.Wait4? && !Wait4Immediate(Current(w), op.options)))
  }

  lemma YieldBut(s: Sys, s': Sys, p: nat)
    requires CanYield(s) && s' == Yield(s) && p == s.ring[0] && !Runnable(s.tasks[p])
    ensures SameBut(s.tasks, s'.tasks, p) && !Runnable(s'.tasks[p])
    ensures Living(s'.tasks[p]) <==> Living(s.tasks[p])
  {
    YieldSwitches(s);
  }

  lemma AsleepBut(s: Sys, accepted: int, s': Sys)
    requires WellFormed(s) && CanYield(Asleep(s, accepted)) && s' == Yield(Asleep(s, accepted))
    requires s.tasks[s.ring[0]].sigpend == 0
    ensures var p := s.ring[0];
            SameBut(s.tasks, s'.tasks, p) && Living(s'.tasks[p]) && !Runnable(s'.tasks[p])
  {
    YieldBut(Asleep(s, accepted), s', s.ring[0]);
  }

  lemma BlockBut(w: World, op: Op)
    requires Inv(w) && Blocks(w, op)
    ensures var w', p := Step(w, op), Running(w);
            && p < |w.sys.tasks| && (op.Wait4? ==> p in w'.waiting) && SameBut(w.sys.tasks, w'.sys.tasks, p)
            && Living(w'.sys.tasks[p]) && !Runnable(w'.sys.tasks[p])
  {
    if op.Suspend? {
      AsleepBut(w.sys, Current(w).sigwait, Step(w, op).sys);
    } else {
      AsleepBut(w.sys, SIGCHLD, Step(w, op).sys);
    }
  }

  /** Some living child of `p` has a lifeline. */
  ghost predicate ChildHopeful(tasks: seq<Tcb>, p: nat) {
    exists c :: LivingChild(tasks, p, c) && Hopeful(tasks, c)
  }

  /** The lifelines of its children do not lead back to `p`. */
  lemma ChildKeepsHope(tasks: seq<Tcb>, tasks': seq<Tcb>, p: nat)
    requires ForestInv(tasks) && SameBut(tasks, tasks', p) && ChildHopeful(tasks, p)
    ensures ChildHopeful(tasks', p)
  {
    var c :| LivingChild(tasks, p, c) && Hopeful(tasks, c);
    var l :| Lifeline(tasks, l) && l[0] == c;
    forall i | 0 <= i < |l| ensures l[i] != p {
      LifelineRises(tasks, l, 0, i);
    }
    assert Lifeline(tasks', l);
    assert LivingChild(tasks', p, c);
  }

  lemma SleeperHopeful(tasks: seq<Tcb>, p: nat)
    requires p < |tasks| && Living(tasks[p]) && !Runnable(tasks[p])
    ensures Hopeful(tasks, p) <==> ChildHopeful(tasks, p)
  {
    if Hopeful(tasks, p) {
      var l :| Lifeline(tasks, l) && l[0] == p;
      LifelineShorter(tasks, l);
    }
    if ChildHopeful(tasks, p) {
      var c :| LivingChild(tasks, p, c) && Hopeful(tasks, c);
      var l :| Lifeline(tasks, l) && l[0] == c;
      LifelineLonger(tasks, p, l);
    }
  }

  lemma AsleepHopeful(tasks: seq<Tcb>, tasks': seq<Tcb>, p: nat)
    requires ForestInv(tasks) && SameBut(tasks, tasks', p)
    requires p < |tasks| && Living(tasks'[p]) && !Runnable(tasks'[p])
    ensures Hopeful(tasks', p) <==> ChildHopeful(tasks, p)
  {
    SleeperHopeful(tasks', p);
    if ChildHopeful(tasks, p) {
      ChildKeepsHope(tasks, tasks', p);
    }
    if ChildHopeful(tasks', p) {
      ChildKeepsHope(tasks', tasks, p);
    }
  }

  lemma BlockHopeful(w: World, op: Op)
    requires Inv(w) && Blocks(w, op)
    ensures Hopeful(Step(w, op).sys.tasks, Running(w)) <==> ChildHopeful(w.sys.tasks, Running(w))
  {
    BlockBut(w, op);
    AsleepHopeful(w.sys.tasks, Step(w, op).sys.tasks, Running(w));
  }

  lemma BlockReturnsIff(w: World, op: Op)
    requires Inv(w) && Blocks(w, op)
    ensures CanReturn(Step(w, op), Running(w)) <==> ChildHopeful(w.sys.tasks, Running(w))
  {
    StepKeeps(w, op);
    BlockBut(w, op);
    BlockHopeful(w, op);
    CanReturnIff(Step(w, op), Running(w));
  }

  /** A call that blocks can return if and only if, at the call, some living child of the
      caller has a lifeline. */
  lemma CallReturnsIff(ws: seq<World>, ops: seq<Op>, j: nat)
    requires IsRun(ws, ops) && j < |ops| && Blocks(ws[j], ops[j])
    ensures CanReturn(ws[j + 1], Running(ws[j])) <==> ChildHopeful(ws[j].sys.tasks, Running(ws[j]))
  {
    RunsSafe(ws, ops, j);
    BlockReturnsIff(ws[j], ops[j]);
  }

  /** Otherwise the caller is not current in any later world of the run. */
  lemma CallNeverReturns(ws: seq<World>, ops: seq<Op>, j: nat, i: nat)
    requires IsRun(ws, ops) && j < i < |ws| && Blocks(ws[j], ops[j])
    requires !ChildHopeful(ws[j].sys.tasks, Running(ws[j]))
    ensures !Entered(ws[i], Running(ws[j]))
  {
    RunsSafe(ws, ops, j);
    RunsSafe(ws, ops, j + 1);
    BlockBut(ws[j], ops[j]);
    BlockHopeful(ws[j], ops[j]);
    var d := HopelessAreStuck(ws[j + 1]);
    forall k | 0 <= k < |ops| ensures Takes(ws[k], ops[k], ws[k + 1]) {
    }
    StuckForever(ws, ops, d, j + 1, i);
  }

  // ---- three runs

  function ReadyTask(ppid: nat, children: nat, forked: bool): Tcb {
    Tcb(ppid, children, TaskReady, 0, 0, 0, 0, 0, forked)
  }

  function WaitingTask(ppid: nat, children: nat): Tcb {
    Tcb(ppid, children, TaskSigWait, 0, 0, SIGCHLD, 0, 0, false)
  }

  /** A yield that passes over no task, or over one that sleeps. */
  lemma YieldNext(s: Sys)
    requires WellFormed(s) && |s.ring| > 1 && Runnable(s.tasks[s.ring[1]])
    ensures CanYield(s)
    ensures Yield(s).ring == s.ring[1..] + [s.ring[0]]
    ensures Yield(s).tasks == s.tasks[s.ring[0] := s.tasks[s.ring[0]].(forkContext := false)]
                                     [s.ring[1] := Resumed(s.tasks[s.ring[1]])]
  {
    assert Order(s.ring)[0] == s.ring[1];
    assert Choice(s) == 0;
  }

  lemma YieldSecond(s: Sys)
    requires WellFormed(s) && |s.ring| > 2 && Runnable(s.tasks[s.ring[2]])
    requires !Runnable(s.tasks[s.ring[1]]) && s.tasks[s.ring[1]].state != TaskQuit
    ensures CanYield(s)
    ensures Yield(s).ring == s.ring[2..] + [s.ring[0], s.ring[1]]
    ensures Yield(s).tasks == s.tasks[s.ring[0] := s.tasks[s.ring[0]].(forkContext := false)]
                                     [s.ring[2] := Resumed(s.tasks[s.ring[2]])]
  {
    var order := Order(s.ring);
    assert order[0] == s.ring[1] && order[1] == s.ring[2];
    assert Choice(s) == 1;
    assert order[..1] == [s.ring[1]];
    assert NotQuit(s.tasks, [s.ring[1]]) == [s.ring[1]];
  }

  function Forked(): World {
    World(Sys([ReadyTask(0, 1, false), ReadyTask(0, 0, true)], [0, 1]), [], map[])
  }

  /** Task 1 runs and has no child. */
  function Childless(): World {
    World(Sys([ReadyTask(0, 1, false), ReadyTask(0, 0, true)], [1, 0]), [], map[])
  }

  /** Task 1 runs and has a child that can run. */
  function Parent(): World {
    World(Sys([ReadyTask(0, 1, false), ReadyTask(0, 1, true), ReadyTask(1, 0, true)], [1, 2, 0]), [], map[])
  }

  function Child(): World {
    World(Sys([ReadyTask(0, 1, false), ReadyTask(0, 1, false), ReadyTask(1, 0, true)], [2, 0, 1]), [], map[])
  }

  function ChildWaits(): World {
    World(Sys([ReadyTask(0, 1, false), ReadyTask(0, 1, false), WaitingTask(1, 0)], [0, 1, 2]), [], map[2 := 0])
  }

  /** Task 1 runs and has one child, which waits for nobody. */
  function ParentAgain(): World {
    World(Sys([ReadyTask(0, 1, false), ReadyTask(0, 1, false), WaitingTask(1, 0)], [1, 2, 0]), [], map[2 := 0])
  }

  /** The operations `ops` are a run from boot that ends in `w`. */
  ghost predicate Reached(ops: seq<Op>, w: World) {
    exists ws :: IsRun(ws, ops) && ws[|ops|] == w
  }

  lemma ReachedStep(ops: seq<Op>, w: World, op: Op, w': World)
    requires Reached(ops, w) && Takes(w, op, w')
    ensures Reached(ops + [op], w')
  {
    var ws :| IsRun(ws, ops) && ws[|ops|] == w;
    var ws', ops' := ws + [w'], ops + [op];
    forall i | 0 <= i < |ops'| ensures Enabled(ws'[i], ops'[i]) && ws'[i + 1] == Step(ws'[i], ops'[i]) {
      assert ws'[i] == ws[i];
      if i < |ops| {
        assert ws'[i + 1] == ws[i + 1] && ops'[i] == ops[i];
      }
    }
    assert IsRun(ws', ops');
  }

  lemma ReachedReturnsIff(ops: seq<Op>, w: World, op: Op)
    requires Reached(ops, w) && Blocks(w, op)
    ensures CanReturn(Step(w, op), Running(w)) <==> ChildHopeful(w.sys.tasks, Running(w))
  {
    var ws :| IsRun(ws, ops) && ws[|ops|] == w;
    RunsSafe(ws, ops, |ops|);
    BlockReturnsIff(w, op);
  }

  lemma ForkedReached()
    ensures Reached([Op.Fork], Forked())
  {
    assert IsRun([Initial(), Forked()], [Op.Fork]);
  }

  lemma ChildlessReached()
    ensures Reached([Op.Fork, Preempt], Childless())
  {
    ForkedReached();
    YieldNext(Forked().sys);
    ReachedStep([Op.Fork], Forked(), Preempt, Childless());
    assert [Op.Fork] + [Preempt] == [Op.Fork, Preempt];
  }

  lemma ParentReached()
    ensures Reached([Op.Fork, Preempt, Op.Fork], Parent())
  {
    ChildlessReached();
    ReachedStep([Op.Fork, Preempt], Childless(), Op.Fork, Parent());
    assert [Op.Fork, Preempt] + [Op.Fork] == [Op.Fork, Preempt, Op.Fork];
  }

  lemma ChildReached()
    ensures Reached([Op.Fork, Preempt, Op.Fork, Preempt], Child())
  {
    ParentReached();
    YieldNext(Parent().sys);
    var ops := [Op.Fork, Preempt, Op.Fork];
    ReachedStep(ops, Parent(), Preempt, Child());
    assert ops + [Preempt] == [Op.Fork, Preempt, Op.Fork, Preempt];
  }

  lemma ChildWaitsReached()
    ensures Reached([Op.Fork, Preempt, Op.Fork, Preempt, Wait4(0)], ChildWaits())
  {
    ChildReached();
    YieldNext(Asleep(Child().sys, SIGCHLD));
    var ops := [Op.Fork, Preempt, Op.Fork, Preempt];
    ReachedStep(ops, Child(), Wait4(0), ChildWaits());
    assert ops + [Wait4(0)] == [Op.Fork, Preempt, Op.Fork, Preempt, Wait4(0)];
  }

  lemma ParentAgainReached()
    ensures Reached([Op.Fork, Preempt, Op.Fork, Preempt, Wait4(0), Preempt], ParentAgain())
  {
    ChildWaitsReached();
    YieldNext(ChildWaits().sys);
    var ops := [Op.Fork, Preempt, Op.Fork, Preempt, Wait4(0)];
    ReachedStep(ops, ChildWaits(), Preempt, ParentAgain());
    assert ops + [Preempt] == [Op.Fork, Preempt, Op.Fork, Preempt, Wait4(0), Preempt];
  }

  lemma ParentBlocks()
    ensures Entered(Parent(), 1) && Blocks(Parent(), Wait4(WNOHANG))
    ensures Entered(Step(Parent(), Wait4(WNOHANG)), 2) && ChildHopeful(Parent().sys.tasks, 1)
  {
    YieldNext(Asleep(Parent().sys, SIGCHLD));
    var tasks := Parent().sys.tasks;
    assert Lifeline(tasks, [2]) && LivingChild(tasks, 1, 2);
  }

  lemma ChildlessBlocks()
    ensures Entered(Childless(), 1) && Current(Childless()).childcount == 0
    ensures Blocks(Childless(), Wait4(0)) && !ChildHopeful(Childless().sys.tasks, 1)
  {
    YieldNext(Asleep(Childless().sys, SIGCHLD));
  }

  lemma NoHope(tasks: seq<Tcb>)
    requires |tasks| == 3 && tasks[1].ppid == 0 && tasks[2].ppid == 1
    requires Living(tasks[2]) && !Runnable(tasks[2])
    ensures !ChildHopeful(tasks, 1)
  {
    assert !ChildHopeful(tasks, 2);
    SleeperHopeful(tasks, 2);
  }

  lemma ParentAgainBlocks()
    ensures Entered(ParentAgain(), 1) && Current(ParentAgain()).childcount == 1
    ensures Blocks(ParentAgain(), Wait4(0)) && !ChildHopeful(ParentAgain().sys.tasks, 1)
  {
    YieldSecond(Asleep(ParentAgain().sys, SIGCHLD));
    NoHope(ParentAgain().sys.tasks);
  }

  /** WNOHANG does not keep wait4 from blocking: task 1 sleeps although it asked not to,
      while its child runs. */
  lemma WnohangBlocks()
    ensures Reached([Op.Fork, Preempt, Op.Fork], Parent())
    ensures Entered(Parent(), 1) && Blocks(Parent(), Wait4(WNOHANG))
    ensures Entered(Step(Parent(), Wait4(WNOHANG)), 2) && CanReturn(Step(Parent(), Wait4(WNOHANG)), 1)
  {
    ParentReached();
    ParentBlocks();
    ReachedReturnsIff([Op.Fork, Preempt, Op.Fork], Parent(), Wait4(WNOHANG));
  }

  /** A task without children that calls rt_sigsuspend sleeps forever. */
  lemma ChildlessSuspends()
    ensures Reached([Op.Fork, Preempt], Childless()) && Entered(Childless(), 1) && Blocks(Childless(), Suspend)
    ensures !CanReturn(Step(Childless(), Suspend), 1)
  {
    ChildlessReached();
    SuspendBlocks();
    ReachedReturnsIff([Op.Fork, Preempt], Childless(), Suspend);
  }

  lemma SuspendBlocks()
    ensures Entered(Childless(), 1) && Blocks(Childless(), Suspend) && !ChildHopeful(Childless().sys.tasks, 1)
  {
    YieldNext(Asleep(Childless().sys, 0));
  }

  /** A task without children that calls wait4 sleeps forever. */
  lemma ChildlessSleeps()
    ensures Reached([Op.Fork, Preempt], Childless())
    ensures Entered(Childless(), 1) && Current(Childless()).childcount == 0 && Blocks(Childless(), Wait4(0))
    ensures !CanReturn(Step(Childless(), Wait4(0)), 1)
  {
    ChildlessReached();
    ChildlessBlocks();
    ReachedReturnsIff([Op.Fork, Preempt], Childless(), Wait4(0));
  }

  /** So does its parent, which has a living child. */
  lemma ParentSleepsToo()
    ensures Reached([Op.Fork, Preempt, Op.Fork, Preempt, Wait4(0), Preempt], ParentAgain())
    ensures Entered(ParentAgain(), 1) && Current(ParentAgain()).childcount == 1
    ensures Blocks(ParentAgain(), Wait4(0)) && !CanReturn(Step(ParentAgain(), Wait4(0)), 1)
  {
    ParentAgainReached();
    ParentAgainBlocks();
    ReachedReturnsIff([Op.Fork, Preempt, Op.Fork, Preempt, Wait4(0), Preempt], ParentAgain(), Wait4(0));
  }
}
