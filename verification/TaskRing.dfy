/** The intrusive circular list of kernel/list.c, threaded through the task
    structures of kernel/proc/task.h.  A ring is described by the sequence of its
    nodes, read from any node onwards; the list operations are insertion into and
    deletion from that cyclic sequence. */
module TaskRing {
  import opened Sequences

  datatype TaskState = TaskInit | TaskReady | TaskSigWait | TaskQuit

  /** The fields of a task that the scheduler and the wait/exit protocol use.
      `forkContext` says that the saved register context is the one stored by
      task_fork_context, so that the task resumes inside task_fork and not inside
      task_enter. */
  datatype Tcb = Tcb(ppid: int, childcount: int, state: TaskState, exitcode: int,
                     sigpend: int, sigwait: int, sigchldpid: int, sigchldexit: int,
                     forkContext: bool)

  class Task {
    var next: Task?
    var prev: Task?
    var pid: int
    var tcb: Tcb

    /** Memory from calloc: every field zero, links NULL. */
    constructor ()
      ensures next == null && prev == null && pid == 0
      ensures tcb == Tcb(0, 0, TaskInit, 0, 0, 0, 0, 0, false)
    {
      next, prev, pid := null, null, 0;
      tcb := Tcb(0, 0, TaskInit, 0, 0, 0, 0, 0, false);
    }
  }

  ghost function After(i: nat, n: nat): nat
    requires i < n
  { if i + 1 == n then 0 else i + 1 }

  ghost function Before(i: nat, n: nat): nat
    requires i < n
  { if i == 0 then n - 1 else i - 1 }

  /** `s` lists the nodes of one well-formed circular doubly linked list. */
  ghost predicate Ring(s: seq<Task>)
    reads s`next, s`prev
  {
    && 0 < |s|
    && Distinct(s)
    && (forall i {:trigger s[i].next} :: 0 <= i < |s| ==> s[i].next == s[After(i, |s|)])
    && (forall i {:trigger s[i].prev} :: 0 <= i < |s| ==> s[i].prev == s[Before(i, |s|)])
  }

  /** The cyclic sequence has no distinguished start. */
  lemma RingRotate(a: seq<Task>, b: seq<Task>)
    requires Ring(a + b)
    ensures Ring(b + a)
  {
    var s, t := a + b, b + a;
    var n := |s|;
    forall i, j | 0 <= i < j < n
      ensures t[i] != t[j]
    {
      var i', j' := Turn(i, |b|, n), Turn(j, |b|, n);
      assert t[i] == s[i'] && t[j] == s[j'];
    }
    forall i | 0 <= i < n
      ensures t[i].next == t[After(i, n)] && t[i].prev == t[Before(i, n)]
    {
      var j := Turn(i, |b|, n);
      assert t[i] == s[j];
      assert t[After(i, n)] == s[After(j, n)];
      assert t[Before(i, n)] == s[Before(j, n)];
    }
  }

  /** Where position `i` of `b + a` lies in `a + b`, when `|b| == k` and `|a + b| == n`. */
  ghost function Turn(i: nat, k: nat, n: nat): nat
    requires i < n && k <= n
  { if i < k then i + (n - k) else i - k }

  /** Rewriting the four links around the seam of a ring puts one more node there:
      `u` is the ring followed by the new node. */
  twostate lemma RingGrown(u: seq<Task>)
    requires 1 < |u| && old(Ring(u[..|u| - 1])) && u[|u| - 1] !in u[..|u| - 1]
    requires u[|u| - 2].next == u[|u| - 1] && u[0].prev == u[|u| - 1]
    requires u[|u| - 1].next == u[0] && u[|u| - 1].prev == u[|u| - 2]
    requires forall k {:trigger u[k].next} :: 0 <= k < |u| - 2 ==> u[k].next == old(u[k].next)
    requires forall k {:trigger u[k].prev} :: 0 < k < |u| - 1 ==> u[k].prev == old(u[k].prev)
    ensures Ring(u)
  {
    var t := u[..|u| - 1];
    forall k | 0 <= k < |u|
      ensures u[k].next == u[After(k, |u|)] && u[k].prev == u[Before(k, |u|)]
    {
      if k < |t| {
        assert old(t[k].next == t[After(k, |t|)] && t[k].prev == t[Before(k, |t|)]);
      }
    }
  }

  /** Joining the neighbours of the first node of `t` leaves the rest a ring. */
  twostate lemma RingShrunk(t: seq<Task>)
    requires old(Ring(t)) && 1 < |t|
    requires t[|t| - 1].next == t[1] && t[1].prev == t[|t| - 1]
    requires forall k {:trigger t[k].next} :: 0 < k < |t| - 1 ==> t[k].next == old(t[k].next)
    requires forall k {:trigger t[k].prev} :: 1 < k < |t| ==> t[k].prev == old(t[k].prev)
    ensures Ring(t[1..])
  {
    var u := t[1..];
    forall k | 0 <= k < |u|
      ensures u[k].next == u[After(k, |u|)] && u[k].prev == u[Before(k, |u|)]
    {
      assert old(t[k + 1].next == t[After(k + 1, |t|)] && t[k + 1].prev == t[Before(k + 1, |t|)]);
    }
  }

  /** list_insert_after, for the ring `s` read so that `after` comes last.  The first
      branch is the bootstrap: a node with both links NULL becomes, together with the
      new node, a ring of two. */
  method ListInsertAfter(after: Task, elem: Task, ghost s: seq<Task>)
    requires 0 < |s| && s[|s| - 1] == after && elem !in s
    requires if after.next == null && after.prev == null then |s| == 1 else Ring(s)
    modifies s`next, s`prev, elem`next, elem`prev
    ensures Ring(s + [elem])
  {
    var oldnext := after.next;
    if after.next == null && after.prev == null {
      after.next, after.prev := elem, elem;
      elem.next, elem.prev := after, after;
    } else {
      assert oldnext == s[0];
      after.next := elem;
      oldnext.prev := elem;
      elem.next := oldnext;
      elem.prev := after;
      assert (s + [elem])[..|s|] == s;
      RingGrown(s + [elem]);
    }
  }

  /** The same insertion, for the ring read from `after` on. */
  method ListInsertSecond(after: Task, elem: Task, ghost s: seq<Task>)
    requires Ring(s) && s[0] == after && elem !in s
    modifies s`next, s`prev, elem`next, elem`prev
    ensures Ring([after, elem] + s[1..])
  {
    assert s == [after] + s[1..];
    RingRotate([after], s[1..]);
    ListInsertAfter(after, elem, s[1..] + [after]);
    assert s[1..] + [after] + [elem] == s[1..] + [after, elem];
    RingRotate(s[1..], [after, elem]);
  }

  /** list_insert_before, for the ring `s` read so that `before` comes first.  A node
      whose `prev` is NULL is never passed to it. */
  method ListInsertBefore(before: Task, elem: Task, ghost s: seq<Task>)
    requires Ring(s) && s[0] == before && elem !in s
    modifies s`next, s`prev, elem`next, elem`prev
    ensures Ring([elem] + s)
  {
    ListInsertAfter(before.prev, elem, s);
    RingRotate(s, [elem]);
  }

  /** list_remove, for the ring `s` read so that `elem` comes first.  A node removed
      from a ring of two or more ends with NULL links; the only node of a singleton
      ring stays linked to itself. */
  method ListRemove(elem: Task, ghost s: seq<Task>)
    requires Ring(s) && s[0] == elem
    modifies s`next, s`prev
    ensures if |s| == 1 then Ring(s)
            else Ring(s[1..]) && elem.next == null && elem.prev == null
  {
    var next := elem.next;
    var prev := elem.prev;
    assert next == s[After(0, |s|)] && prev == s[|s| - 1];
    elem.next := null;
    elem.prev := null;
    prev.next := next;
    next.prev := prev;
    if |s| > 1 {
      RingShrunk(s);
    }
  }

  /** The removal inside kern_sched_yield: the node leaves the ring but keeps its own
      `next`, from which the walk goes on. */
  method ListUnlink(elem: Task, ghost s: seq<Task>)
    requires Ring(s) && s[0] == elem && 1 < |s|
    modifies s`next, s`prev
    ensures Ring(s[1..]) && elem.next == old(elem.next) == s[1]
  {
    assert elem.next == s[After(0, |s|)];
    var realNext := elem.next;
    ListRemove(elem, s);
    assert elem !in s[1..];
    elem.next := realNext;
  }

  /** The same removal for a node anywhere in the ring. */
  method ListUnlinkAt(elem: Task, ghost s: seq<Task>, ghost i: nat)
    requires Ring(s) && 0 < i < |s| && s[i] == elem
    modifies s`next, s`prev
    ensures Ring(s[..i] + s[i + 1..]) && elem.next == s[After(i, |s|)]
  {
    assert s == s[..i] + s[i..];
    RingRotate(s[..i], s[i..]);
    ghost var t := s[i..] + s[..i];
    assert t[1] == s[After(i, |s|)];
    ListUnlink(elem, t);
    assert t[1..] == s[i + 1..] + s[..i];
    RingRotate(s[i + 1..], s[..i]);
  }
}
