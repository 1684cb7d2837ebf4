/** The descriptor tables of kernel/io/fdio.c and their copying by task_clone, on values.

    A descriptor pointer is an address, NULL is 0, and the memory maps the addresses that
    are allocated to descriptors.  Addresses come from malloc, which may hand out again
    an address that has been freed. */
module Fdio {

  datatype Descr = Descr(dev: int, refs: int)

  /** `cells` has fdcap entries; `next` is the hint fdnext. */
  datatype Table = Table(cells: seq<nat>, next: nat)

  const FIRST_CAP: nat := 16

  function Pow2(k: nat): nat { if k == 0 then 1 else 2 * Pow2(k - 1) }

  /** A capacity that repeated doubling of a 16-bit counter reaches exactly. */
  ghost predicate IsCap(n: nat) {
    n <= 0x8000 && exists k: nat :: n == FIRST_CAP * Pow2(k)
  }

  lemma CapDoubles(n: nat)
    requires IsCap(n)
    ensures 2 * n <= 0x8000 ==> IsCap(2 * n) && (n * 2) % 0x1_0000 == 2 * n
    ensures n == 0x8000 || 2 * n <= 0x8000
    ensures FIRST_CAP <= n
  {
    var k: nat :| n == FIRST_CAP * Pow2(k);
    assert 2 * n == FIRST_CAP * Pow2(k + 1);
    CapValue(k);
  }

  lemma Pow2Rises(i: nat, k: nat)
    requires i <= k
    ensures 1 <= Pow2(i) <= Pow2(k)
  {
    if i < k {
      Pow2Rises(i, k - 1);
    } else if k > 0 {
      Pow2Rises(i - 1, k - 1);
    }
  }

  lemma CapValue(k: nat)
    ensures 1 <= Pow2(k) && (k >= 12 ==> Pow2(k) >= 4096) && (k <= 11 ==> Pow2(k) <= 2048)
    ensures k <= 10 ==> Pow2(k) <= 1024
  {
    assert Pow2(10) == 1024;
    assert Pow2(11) == 2 * Pow2(10) && Pow2(12) == 2 * Pow2(11);
    Pow2Rises(0, k);
    if k <= 10 {
      Pow2Rises(k, 10);
    } else if k >= 12 {
      Pow2Rises(12, k);
    }
  }

  function Zeros(n: nat): (z: seq<nat>)
    ensures |z| == n && forall i :: 0 <= i < n ==> z[i] == 0
  { if n == 0 then [] else Zeros(n - 1) + [0] }

  /** fdio_tbl_init. */
  function EmptyTable(): Table { Table(Zeros(FIRST_CAP), 0) }

  ghost predicate TableOk(t: Table) { IsCap(|t.cells|) && t.next <= |t.cells| }

  /** The least index from `i` on that holds NULL; the cell behind the table counts. */
  function FirstFree(cells: seq<nat>, i: nat): (k: nat)
    requires i <= |cells|
    ensures i <= k <= |cells|
    ensures forall j :: i <= j < k ==> cells[j] != 0
    ensures k < |cells| ==> cells[k] == 0
    decreases |cells| - i
  { if i == |cells| || cells[i] == 0 then i else FirstFree(cells, i + 1) }

  /** The table has a free number from its hint on, or room to double. */
  ghost predicate CanAlloc(t: Table) {
    0 < |t.cells| && t.next <= |t.cells| && (FirstFree(t.cells, t.next) < |t.cells| || 2 * |t.cells| <= 0x8000)
  }

  /** fd_alloc. */
  function Alloc(t: Table): Table
    requires t.next <= |t.cells|
  {
    var k := FirstFree(t.cells, t.next);
    Table(if k < |t.cells| then t.cells else t.cells + Zeros(|t.cells|), k)
  }

  /** What a number stands for: the partial map that the table is. */
  function Lookup(t: Table, fd: nat): nat {
    if fd < |t.cells| then t.cells[fd] else 0
  }

  /** fd_open, after which `next` is the number it returned. */
  function Opened(t: Table, addr: nat): Table
    requires CanAlloc(t)
  {
    var u := Alloc(t);
    u.(cells := u.cells[u.next := addr])
  }

  /** The number opened is the least free one from the hint on; every other number keeps
      its meaning, also when the table grows; the capacity stays exact. */
  lemma OpenedIs(t: Table, addr: nat)
    requires TableOk(t) && CanAlloc(t)
    ensures var u := Opened(t, addr);
            && TableOk(u) && t.next <= u.next < |u.cells|
            && Lookup(t, u.next) == 0 && Lookup(u, u.next) == addr
            && (forall fd :: t.next <= fd < u.next ==> Lookup(t, fd) != 0)
            && (forall fd :: fd != u.next ==> Lookup(u, fd) == Lookup(t, fd))
            && |u.cells| == if u.next < |t.cells| then |t.cells| else 2 * |t.cells|
  {
    CapDoubles(|t.cells|);
  }

  // ---- many tasks, one memory

  /** `stray` counts, for each address, the copies of it in tables that were made without
      counting a reference. */
  datatype Files = Files(tables: seq<Table>, mem: map<nat, Descr>, stray: map<nat, nat>)

  function Refs(mem: map<nat, Descr>, a: nat): int { if a in mem then mem[a].refs else 0 }

  function Stray(stray: map<nat, nat>, a: nat): nat { if a in stray then stray[a] else 0 }

  /** The number of table slots, over all tasks, that hold `a`. */
  function Slots(tables: seq<Table>, a: nat): nat {
    if |tables| == 0 then 0
    else Slots(tables[..|tables| - 1], a) + multiset(tables[|tables| - 1].cells)[a]
  }

  /** Open with device and the address malloc returned; Dup is fcntl F_DUPFD. */
  datatype FdOp = Open(dev: int, addr: nat) | Dup(from: nat, to: nat) | Close(fd: nat) | Clone

  /** A reference counted by task_clone for every non-NULL cell below the hint. */
  function Counted(mem: map<nat, Descr>, cells: seq<nat>): (r: map<nat, Descr>)
    requires forall i :: 0 <= i < |cells| && cells[i] != 0 ==> cells[i] in mem
    ensures r.Keys == mem.Keys
  {
    if |cells| == 0 then mem
    else
      var m := Counted(mem, cells[..|cells| - 1]);
      var a := cells[|cells| - 1];
      if a == 0 then m else m[a := m[a].(refs := m[a].refs + 1)]
  }

  /** The uncounted copies that task_clone makes of the cells from the hint on. */
  function Strayed(stray: map<nat, nat>, cells: seq<nat>): map<nat, nat> {
    if |cells| == 0 then stray
    else
      var s := Strayed(stray, cells[..|cells| - 1]);
      var a := cells[|cells| - 1];
      if a == 0 then s else s[a := Stray(s, a) + 1]
  }

  /** What the C code may be asked by task `t` without touching freed or foreign memory. */
  ghost predicate Enabled(f: Files, t: nat, op: FdOp) {
    && t < |f.tables| && TableOk(f.tables[t])
    && var table := f.tables[t];
       match op
       case Open(_, addr) => CanAlloc(table) && addr != 0 && addr !in f.mem
       case Dup(from, to) =>
         && from < |table.cells|
         && (table.cells[from] != 0 ==> to <= |table.cells| && FirstFree(table.cells, to) < |table.cells|)
       case Close(fd) => fd < |table.cells| && (table.cells[fd] != 0 ==> table.cells[fd] in f.mem)
       case Clone => forall i :: 0 <= i < table.next && table.cells[i] != 0 ==> table.cells[i] in f.mem
  }

  function Dropped(mem: map<nat, Descr>, a: nat): map<nat, Descr>
    requires a in mem
  { if mem[a].refs - 1 == 0 then mem - {a} else mem[a := mem[a].(refs := mem[a].refs - 1)] }

  function Step(f: Files, t: nat, op: FdOp): Files
    requires Enabled(f, t, op)
  {
    var table := f.tables[t];
    match op
    case Open(dev, addr) =>
      f.(tables := f.tables[t := Opened(table, addr)], mem := f.mem[addr := Descr(dev, 1)])
    case Dup(from, to) =>
      var a := table.cells[from];
      if a == 0 then f
      else f.(tables := f.tables[t := table.(cells := table.cells[FirstFree(table.cells, to) := a])],
              stray := f.stray[a := Stray(f.stray, a) + 1])
    case Close(fd) =>
      if table.cells[fd] == 0 then f
      else f.(tables := f.tables[t := table.(cells := table.cells[fd := 0])],
              mem := Dropped(f.mem, table.cells[fd]))
    case Clone =>
      Files(f.tables + [table], Counted(f.mem, table.cells[..table.next]),
            Strayed(f.stray, table.cells[table.next..]))
  }

  // ---- what the numbers stand for

  /** No operation changes the table of another task. */
  lemma OthersKeep(f: Files, t: nat, op: FdOp, u: nat)
    requires Enabled(f, t, op) && u < |f.tables| && u != t
    ensures u < |Step(f, t, op).tables| && Step(f, t, op).tables[u] == f.tables[u]
  {
  }

  /** A dup makes the least free number `n` from `to` on stand for what `from` stands for,
      and changes no other number, nor the hint, nor any descriptor. */
  lemma DupIs(f: Files, t: nat, from: nat, to: nat) returns (n: nat)
    requires Enabled(f, t, Dup(from, to)) && Lookup(f.tables[t], from) != 0
    ensures var T, T' := f.tables[t], Step(f, t, Dup(from, to)).tables[t];
            && to <= n < |T.cells| && Lookup(T, n) == 0
            && (forall fd :: to <= fd < n ==> Lookup(T, fd) != 0)
            && Lookup(T', n) == Lookup(T, from)
            && (forall fd :: fd != n ==> Lookup(T', fd) == Lookup(T, fd))
            && T'.next == T.next && |T'.cells| == |T.cells|
    ensures Step(f, t, Dup(from, to)).mem == f.mem
  {
    n := FirstFree(f.tables[t].cells, to);
  }

  /** A close makes one number stand for nothing, and changes no other number, nor the
      hint, which may thus be above a free number. */
  lemma CloseIs(f: Files, t: nat, fd: nat)
    requires Enabled(f, t, Close(fd))
    ensures var T, T' := f.tables[t], Step(f, t, Close(fd)).tables[t];
            && Lookup(T', fd) == 0
            && (forall n :: n != fd ==> Lookup(T', n) == Lookup(T, n))
            && T'.next == T.next && |T'.cells| == |T.cells|
  {
  }

  /** In a clone every number stands for what it stands for in its parent. */
  lemma CloneIs(f: Files, t: nat, fd: nat)
    requires Enabled(f, t, Clone)
    ensures var g, n := Step(f, t, Clone), |f.tables|;
            && |g.tables| == n + 1 && g.tables[t] == f.tables[t]
            && Lookup(g.tables[n], fd) == Lookup(f.tables[t], fd) && g.tables[n].next == f.tables[t].next
  {
  }

  /** A descriptor was just opened with its device, or had the same device before. */
  lemma StepDevices(f: Files, t: nat, op: FdOp, a: nat)
    requires Enabled(f, t, op) && 0 !in f.mem && a in Step(f, t, op).mem
    ensures var dev := Step(f, t, op).mem[a].dev;
            if op.Open? && op.addr == a then op == Open(dev, a) else a in f.mem && f.mem[a].dev == dev
  {
    if op.Clone? {
      CountedRefs(f.mem, f.tables[t].cells[..f.tables[t].next], a);
    }
  }

  // ---- conservation

  /** Slots holding an address are the references counted for it plus the stray copies. */
  ghost predicate Conserved(f: Files) {
    forall a :: a != 0 ==> Balanced(f, a)
  }

  ghost predicate Inv(f: Files) {
    && (forall i :: 0 <= i < |f.tables| ==> TableOk(f.tables[i]))
    && (forall a :: a in f.mem ==> f.mem[a].refs > 0)
    && 0 !in f.mem
    && Conserved(f)
  }

  lemma SlotsUpdate(tables: seq<Table>, t: nat, u: Table, a: nat)
    requires t < |tables|
    ensures Slots(tables[t := u], a) == Slots(tables, a) - multiset(tables[t].cells)[a] + multiset(u.cells)[a]
  {
    var n := |tables| - 1;
    if t == n {
      assert tables[t := u][..n] == tables[..n];
    } else {
      assert tables[t := u][..n] == tables[..n][t := u];
      SlotsUpdate(tables[..n], t, u, a);
    }
  }

  lemma SlotsOne(tables: seq<Table>, t: nat, a: nat)
    requires t < |tables|
    ensures multiset(tables[t].cells)[a] <= Slots(tables, a)
  {
    if t < |tables| - 1 { SlotsOne(tables[..|tables| - 1], t, a); }
  }

  lemma ZerosCount(n: nat, a: nat)
    requires a != 0
    ensures multiset(Zeros(n))[a] == 0
  {
  }

  lemma CountedRefs(mem: map<nat, Descr>, cells: seq<nat>, a: nat)
    requires forall i :: 0 <= i < |cells| && cells[i] != 0 ==> cells[i] in mem
    requires a != 0
    ensures Refs(Counted(mem, cells), a) == Refs(mem, a) + multiset(cells)[a]
    ensures a in mem ==> Counted(mem, cells)[a].dev == mem[a].dev
  {
    if |cells| > 0 {
      assert cells == cells[..|cells| - 1] + [cells[|cells| - 1]];
      CountedRefs(mem, cells[..|cells| - 1], a);
    }
  }

  lemma StrayedCount(stray: map<nat, nat>, cells: seq<nat>, a: nat)
    requires a != 0
    ensures Stray(Strayed(stray, cells), a) == Stray(stray, a) + multiset(cells)[a]
  {
    if |cells| > 0 {
      assert cells == cells[..|cells| - 1] + [cells[|cells| - 1]];
      StrayedCount(stray, cells[..|cells| - 1], a);
    }
  }

  lemma OpenedCells(t: Table, addr: nat, a: nat)
    requires TableOk(t) && CanAlloc(t) && a != 0 && addr != 0
    ensures multiset(Opened(t, addr).cells)[a] == multiset(t.cells)[a] + if a == addr then 1 else 0
  {
    CapDoubles(|t.cells|);
    ZerosCount(|t.cells|, a);
    OpenedIs(t, addr);
  }

  ghost predicate Balanced(f: Files, a: nat) {
    Slots(f.tables, a) == Refs(f.mem, a) + Stray(f.stray, a)
  }

  lemma OpenBalances(f: Files, t: nat, dev: int, addr: nat, a: nat)
    requires Enabled(f, t, Open(dev, addr)) && a != 0 && Balanced(f, a)
    ensures Balanced(Step(f, t, Open(dev, addr)), a)
  {
    OpenedCells(f.tables[t], addr, a);
    SlotsUpdate(f.tables, t, Opened(f.tables[t], addr), a);
  }

  lemma DupBalances(f: Files, t: nat, from: nat, to: nat, a: nat)
    requires Enabled(f, t, Dup(from, to)) && a != 0 && Balanced(f, a)
    ensures Balanced(Step(f, t, Dup(from, to)), a)
  {
    SlotsUpdate(f.tables, t, Step(f, t, Dup(from, to)).tables[t], a);
  }

  lemma CloseBalances(f: Files, t: nat, fd: nat, a: nat)
    requires Enabled(f, t, Close(fd)) && a != 0 && Balanced(f, a)
    ensures Balanced(Step(f, t, Close(fd)), a)
  {
    SlotsUpdate(f.tables, t, Step(f, t, Close(fd)).tables[t], a);
  }

  lemma CloneBalances(f: Files, t: nat, a: nat)
    requires Enabled(f, t, Clone) && a != 0 && Balanced(f, a)
    ensures Balanced(Step(f, t, Clone), a)
  {
    var table := f.tables[t];
    var low, high := table.cells[..table.next], table.cells[table.next..];
    assert table.cells == low + high;
    CountedRefs(f.mem, low, a);
    StrayedCount(f.stray, high, a);
    assert (f.tables + [table])[..|f.tables|] == f.tables;
  }

  /** One step of any task conserves references, address by address. */
  lemma StepConserves(f: Files, t: nat, op: FdOp, a: nat)
    requires Enabled(f, t, op) && a != 0 && Balanced(f, a)
    ensures Balanced(Step(f, t, op), a)
  {
    match op
    case Open(dev, addr) => OpenBalances(f, t, dev, addr, a);
    case Dup(from, to) => DupBalances(f, t, from, to, a);
    case Close(fd) => CloseBalances(f, t, fd, a);
    case Clone => CloneBalances(f, t, a);
  }

  lemma StepKeeps(f: Files, t: nat, op: FdOp)
    requires Inv(f) && Enabled(f, t, op)
    ensures Inv(Step(f, t, op))
  {
    var table, g := f.tables[t], Step(f, t, op);
    forall a | a != 0 ensures Balanced(g, a) {
      StepConserves(f, t, op, a);
    }
    match op
    case Open(dev, addr) => OpenedIs(table, addr);
    case Clone =>
      forall a | a in g.mem ensures g.mem[a].refs > 0 {
        CountedRefs(f.mem, table.cells[..table.next], a);
      }
    case _ =>
  }

  // ---- runs

  function Initial(): Files { Files([EmptyTable()], map[], map[]) }

  ghost predicate IsRun(fs: seq<Files>, who: seq<nat>, ops: seq<FdOp>) {
    && |fs| == |ops| + 1 && |who| == |ops|
    && fs[0] == Initial()
    && forall i :: 0 <= i < |ops| ==> Enabled(fs[i], who[i], ops[i]) && fs[i + 1] == Step(fs[i], who[i], ops[i])
  }

  lemma InitialInv()
    ensures Inv(Initial())
  {
    assert FIRST_CAP == FIRST_CAP * Pow2(0);
    forall a | a != 0 ensures Slots(Initial().tables, a) == 0 {
      ZerosCount(FIRST_CAP, a);
    }
  }

  /** Conservation in every state of every run of open, dup, close and clone. */
  lemma {:induction false} RunsConserve(fs: seq<Files>, who: seq<nat>, ops: seq<FdOp>, i: nat)
    requires IsRun(fs, who, ops) && i < |fs|
    ensures Inv(fs[i])
  {
    if i == 0 {
      InitialInv();
    } else {
      RunsConserve(fs, who, ops, i - 1);
      StepKeeps(fs[i - 1], who[i - 1], ops[i - 1]);
    }
  }

  /** Step `k` opens address `a`, or frees it. */
  ghost predicate Touches(fs: seq<Files>, who: seq<nat>, ops: seq<FdOp>, k: nat, a: nat)
    requires IsRun(fs, who, ops) && k < |ops|
  {
    (ops[k].Open? && ops[k].addr == a) || (a in fs[k].mem && a !in fs[k + 1].mem)
  }

  ghost predicate LastOpened(fs: seq<Files>, who: seq<nat>, ops: seq<FdOp>, j: nat, a: nat, dev: int, k: nat)
    requires IsRun(fs, who, ops) && j < |fs|
  {
    && k < j && ops[k] == Open(dev, a)
    && forall m :: k < m < j ==> !Touches(fs, who, ops, m, a)
  }

  lemma RunDevices(fs: seq<Files>, who: seq<nat>, ops: seq<FdOp>, i: nat, a: nat)
    requires IsRun(fs, who, ops) && i < |ops| && a in fs[i + 1].mem
    ensures var dev := fs[i + 1].mem[a].dev;
            if ops[i].Open? && ops[i].addr == a then ops[i] == Open(dev, a)
            else a in fs[i].mem && fs[i].mem[a].dev == dev
  {
    RunsConserve(fs, who, ops, i);
    assert fs[i + 1] == Step(fs[i], who[i], ops[i]);
    StepDevices(fs[i], who[i], ops[i], a);
  }

  /** In every state of every run each descriptor has the device with which it was last
      opened, whatever has been duplicated, closed or cloned since. */
  lemma {:induction false} DevicesAreOpened(fs: seq<Files>, who: seq<nat>, ops: seq<FdOp>, j: nat, a: nat)
    requires IsRun(fs, who, ops) && j < |fs| && a in fs[j].mem
    ensures exists k: nat :: LastOpened(fs, who, ops, j, a, fs[j].mem[a].dev, k)
    decreases j
  {
    var dev := fs[j].mem[a].dev;
    assert j > 0;
    var i: nat := j - 1;
    RunDevices(fs, who, ops, i, a);
    if ops[i].Open? && ops[i].addr == a {
      assert LastOpened(fs, who, ops, j, a, dev, i);
    } else {
      DevicesAreOpened(fs, who, ops, i, a);
      var k: nat :| LastOpened(fs, who, ops, i, a, dev, k);
      assert LastOpened(fs, who, ops, j, a, dev, k);
    }
  }

  /** A close frees the descriptor exactly when only stray copies of it are left; so with
      no stray copies, exactly when it clears the last slot. */
  lemma CloseFrees(fs: seq<Files>, who: seq<nat>, ops: seq<FdOp>, i: nat)
    requires IsRun(fs, who, ops) && i < |ops| && ops[i].Close?
    requires Lookup(fs[i].tables[who[i]], ops[i].fd) != 0
    ensures var a := Lookup(fs[i].tables[who[i]], ops[i].fd);
            && a in fs[i].mem
            && (a !in fs[i + 1].mem <==> Slots(fs[i + 1].tables, a) == Stray(fs[i].stray, a))
            && (Stray(fs[i].stray, a) == 0 ==> (a !in fs[i + 1].mem <==> Slots(fs[i + 1].tables, a) == 0))
  {
    RunsConserve(fs, who, ops, i);
    RunsConserve(fs, who, ops, i + 1);
    assert fs[i + 1] == Step(fs[i], who[i], ops[i]);
    assert Balanced(fs[i + 1], Lookup(fs[i].tables[who[i]], ops[i].fd));
  }

  /** The hint of a task never moves down ... */
  lemma {:induction false} HintsRise(fs: seq<Files>, who: seq<nat>, ops: seq<FdOp>, i: nat, j: nat, t: nat)
    requires IsRun(fs, who, ops) && i <= j < |fs| && t < |fs[i].tables|
    ensures t < |fs[j].tables| && fs[i].tables[t].next <= fs[j].tables[t].next
    decreases j
  {
    if i < j {
      HintsRise(fs, who, ops, i, j - 1, t);
      assert fs[j] == Step(fs[j - 1], who[j - 1], ops[j - 1]);
    }
  }

  /** ... so the numbers that successive opens return to a task never go down, although
      closes free smaller ones in between. */
  lemma NumbersRise(fs: seq<Files>, who: seq<nat>, ops: seq<FdOp>, i: nat, j: nat)
    requires IsRun(fs, who, ops) && i < j < |ops| && who[i] == who[j] && ops[i].Open? && ops[j].Open?
    ensures who[i] < |fs[i + 1].tables| && who[j] < |fs[j + 1].tables|
    ensures Lookup(fs[i + 1].tables[who[i]], fs[i + 1].tables[who[i]].next) == ops[i].addr
    ensures fs[i + 1].tables[who[i]].next <= fs[j + 1].tables[who[j]].next
  {
    assert fs[i + 1] == Step(fs[i], who[i], ops[i]);
    OpenedIs(fs[i].tables[who[i]], ops[i].addr);
    HintsRise(fs, who, ops, i + 1, j + 1, who[i]);
  }

  // ---- when every copy is counted

  ghost predicate NoStrays(f: Files) { forall a :: a != 0 ==> Stray(f.stray, a) == 0 }

  /** The guard under which a step leaves no copy uncounted: not a successful dup, and a
      clone only of a table that is empty from its hint on. */
  predicate Counts(f: Files, t: nat, op: FdOp)
    requires t < |f.tables| && f.tables[t].next <= |f.tables[t].cells|
  {
    match op
    case Dup(from, _) => Lookup(f.tables[t], from) == 0
    case Clone =>
      forall i :: f.tables[t].next <= i < |f.tables[t].cells| ==> f.tables[t].cells[i] == 0
    case _ => true
  }

  lemma CountsExactly(f: Files, t: nat, op: FdOp)
    requires Enabled(f, t, op) && NoStrays(f)
    ensures NoStrays(Step(f, t, op)) <==> Counts(f, t, op)
  {
    var table, g := f.tables[t], Step(f, t, op);
    match op
    case Dup(from, to) =>
      if table.cells[from] != 0 {
        assert Stray(g.stray, table.cells[from]) == 1;
      }
    case Clone =>
      var high := table.cells[table.next..];
      forall a | a != 0 ensures Stray(g.stray, a) == multiset(high)[a] {
        StrayedCount(f.stray, high, a);
      }
      if i :| table.next <= i < |table.cells| && table.cells[i] != 0 {
        assert high[i - table.next] == table.cells[i];
        assert table.cells[i] in multiset(high);
      }
    case _ =>
  }

  /** Without stray copies no table holds a freed descriptor. */
  lemma NoneDangling(f: Files, t: nat, i: nat)
    requires Inv(f) && NoStrays(f) && t < |f.tables| && i < |f.tables[t].cells|
    ensures f.tables[t].cells[i] != 0 ==> f.tables[t].cells[i] in f.mem
  {
    var a := f.tables[t].cells[i];
    if a != 0 {
      assert Balanced(f, a);
      assert a in multiset(f.tables[t].cells);
      SlotsOne(f.tables, t, a);
    }
  }

  /** `refs` is the number of slots that hold the descriptor, for every descriptor. */
  ghost predicate Exact(f: Files) { forall a :: a != 0 ==> Refs(f.mem, a) == Slots(f.tables, a) }

  lemma ExactIff(f: Files)
    requires Inv(f)
    ensures Exact(f) <==> NoStrays(f)
  {
    forall a | a != 0 ensures Slots(f.tables, a) == Refs(f.mem, a) + Stray(f.stray, a) {
      assert Balanced(f, a);
    }
  }

  /** In a run whose steps all meet the guard it is so at all times. */
  lemma {:induction false} RunsCounted(fs: seq<Files>, who: seq<nat>, ops: seq<FdOp>, i: nat)
    requires IsRun(fs, who, ops) && i < |fs|
    requires forall j :: 0 <= j < i ==> Counts(fs[j], who[j], ops[j])
    ensures NoStrays(fs[i]) && Exact(fs[i])
  {
    RunsConserve(fs, who, ops, i);
    ExactIff(fs[i]);
    if i > 0 {
      RunsCounted(fs, who, ops, i - 1);
      CountsExactly(fs[i - 1], who[i - 1], ops[i - 1]);
    }
  }

  /** And only in such a run. */
  lemma {:induction false} RunsExactIff(fs: seq<Files>, who: seq<nat>, ops: seq<FdOp>, i: nat)
    requires IsRun(fs, who, ops) && i < |fs|
    ensures (forall j :: 0 <= j <= i ==> Exact(fs[j])) <==>
            (forall j :: 0 <= j < i ==> Counts(fs[j], who[j], ops[j]))
  {
    if forall j :: 0 <= j < i ==> Counts(fs[j], who[j], ops[j]) {
      forall j | 0 <= j <= i ensures Exact(fs[j]) {
        RunsCounted(fs, who, ops, j);
      }
    }
    if forall j :: 0 <= j <= i ==> Exact(fs[j]) {
      forall j | 0 <= j < i ensures Counts(fs[j], who[j], ops[j]) {
        RunsConserve(fs, who, ops, j);
        RunsConserve(fs, who, ops, j + 1);
        ExactIff(fs[j]);
        ExactIff(fs[j + 1]);
        CountsExactly(fs[j], who[j], ops[j]);
      }
    }
  }

  /** An address that malloc can return is in no table. */
  lemma FreeAddress(f: Files, t: nat, a: nat, i: nat)
    requires Inv(f) && NoStrays(f) && a != 0 && a !in f.mem && t < |f.tables|
    ensures Lookup(f.tables[t], i) != a
  {
    if i < |f.tables[t].cells| {
      NoneDangling(f, t, i);
    }
  }

  /** The number just opened is the hint itself, so a clone that follows an open does not
      count its copy of that descriptor: the parent's close then frees it while the clone
      still holds it. */
  lemma CloneAfterOpen(f: Files, t: nat, dev: int, addr: nat)
    requires Inv(f) && NoStrays(f) && Enabled(f, t, Open(dev, addr))
    ensures var f1 := Step(f, t, Open(dev, addr));
            && Enabled(f1, t, Clone)
            && var f2 := Step(f1, t, Clone);
               var fd := f1.tables[t].next;
               && !NoStrays(f2)
               && Enabled(f2, t, Close(fd))
               && var f3 := Step(f2, t, Close(fd));
                  addr !in f3.mem && Lookup(f3.tables[|f.tables|], fd) == addr
  {
    var table := f.tables[t];
    OpenedIs(table, addr);
    var f1 := Step(f, t, Open(dev, addr));
    var u := f1.tables[t];
    forall i | 0 <= i < u.next && u.cells[i] != 0 ensures u.cells[i] in f1.mem {
      assert Lookup(u, i) == Lookup(table, i);
      NoneDangling(f, t, i);
    }
    StepKeeps(f, t, Open(dev, addr));
    CountsExactly(f1, t, Clone);
    CountedRefs(f1.mem, u.cells[..u.next], addr);
    forall i | 0 <= i < u.next ensures u.cells[i] != addr {
      assert Lookup(u, i) == Lookup(table, i);
      FreeAddress(f, t, addr, i);
    }
  }
}
