/** The descriptor tables as the tasks hold them, updated in place. */
module FdTables {
  import opened Sequences
  import opened Fdio

  /** The fields fdnext, fdcap and fdtbl of a task. */
  class FdTable {
    var fdnext: nat
    var fdcap: nat
    var fdtbl: seq<nat>

    ghost function Value(): Table
      reads this
    { Table(fdtbl, fdnext) }

    ghost predicate Valid()
      reads this
    { fdcap == |fdtbl| && TableOk(Value()) }

    /** fdio_tbl_init. */
    constructor ()
      ensures Valid() && Value() == EmptyTable()
    {
      fdnext, fdcap, fdtbl := 0, FIRST_CAP, Zeros(FIRST_CAP);
      assert FIRST_CAP == FIRST_CAP * Pow2(0);
    }

    /** The table that task_clone allocates and fills by memcpy. */
    constructor Copy(from: FdTable)
      requires from.Valid()
      ensures Valid() && Value() == from.Value()
    {
      fdcap := from.fdcap;
      fdnext := from.fdnext;
      fdtbl := from.fdtbl;
    }

    /** fd_alloc.  The cell behind the table reads as NULL; the counters have 16 bits. */
    method FdAlloc() returns (fd: nat)
      requires Valid() && CanAlloc(Value())
      modifies this
      ensures Valid() && Value() == Alloc(old(Value())) && fd == fdnext < fdcap
    {
      CapDoubles(fdcap);
      while fdnext < |fdtbl| && fdtbl[fdnext] != 0
        invariant fdnext <= |fdtbl| && fdcap == old(fdcap) && fdtbl == old(fdtbl)
        invariant FirstFree(fdtbl, fdnext) == FirstFree(fdtbl, old(fdnext))
        decreases |fdtbl| - fdnext
      {
        fdnext := (fdnext + 1) % 0x1_0000;
      }
      if fdnext >= fdcap {
        var oldcap := fdcap;
        fdcap := fdcap * 2 % 0x1_0000;
        fdtbl := fdtbl + Zeros(fdcap - oldcap);
      }
      return fdnext;
    }
  }

  /** All tasks' tables and the memory that holds the descriptors. */
  class FdSystem {
    var tables: seq<FdTable>
    var mem: map<nat, Descr>
    ghost var files: Files

    ghost predicate Valid()
      reads this, tables
    {
      && |tables| == |files.tables| && Distinct(tables)
      && (forall i :: 0 <= i < |tables| ==> tables[i].Valid() && tables[i].Value() == files.tables[i])
      && files.mem == mem
    }

    constructor ()
      ensures Valid() && files == Initial() && fresh(tables)
    {
      var t := new FdTable();
      tables, mem, files := [t], map[], Initial();
    }

    /** fd_open for task `t`; `addr` is what malloc returned. */
    method FdOpen(t: nat, dev: int, addr: nat) returns (fd: nat)
      requires Valid() && Enabled(files, t, Open(dev, addr))
      modifies this, tables
      ensures Valid() && tables == old(tables)
      ensures files == Step(old(files), t, Open(dev, addr))
      ensures Lookup(old(files).tables[t], fd) == 0 && Lookup(files.tables[t], fd) == addr
      ensures mem == old(mem)[addr := Descr(dev, 1)]
    {
      OpenedIs(files.tables[t], addr);
      fd := tables[t].FdAlloc();
      mem := mem[addr := Descr(dev, 1)];
      tables[t].fdtbl := tables[t].fdtbl[fd := addr];
      files := Step(files, t, Open(dev, addr));
    }

    /** fd_lookup. */
    method FdLookup(t: nat, fd: nat) returns (a: nat)
      requires Valid() && t < |tables| && fd < tables[t].fdcap
      ensures a == Lookup(files.tables[t], fd)
    {
      a := tables[t].fdtbl[fd];
    }

    /** fd_dupfd. */
    method FdDupfd(t: nat, from: nat, to: nat) returns (r: int)
      requires Valid() && Enabled(files, t, Dup(from, to))
      modifies this, tables
      ensures Valid() && tables == old(tables)
      ensures files == Step(old(files), t, Dup(from, to))
      ensures r == if Lookup(old(files).tables[t], from) == 0 then -1 else 0
    {
      var table := tables[t];
      if table.fdtbl[from] == 0 {
        return -1;
      }
      var i := to;
      while table.fdtbl[i] != 0
        invariant i <= FirstFree(table.fdtbl, to) == FirstFree(table.fdtbl, i) < |table.fdtbl|
        decreases |table.fdtbl| - i
      {
        i := i + 1;
      }
      table.fdtbl := table.fdtbl[i := table.fdtbl[from]];
      files := Step(files, t, Dup(from, to));
      return 0;
    }

    /** fd_close. */
    method FdClose(t: nat, fd: nat) returns (r: int)
      requires Valid() && Enabled(files, t, Close(fd))
      modifies this, tables
      ensures Valid() && tables == old(tables)
      ensures files == Step(old(files), t, Close(fd))
      ensures r == if Lookup(old(files).tables[t], fd) == 0 then -1 else 0
    {
      var table := tables[t];
      var a := table.fdtbl[fd];
      if a == 0 {
        return -1;
      }
      mem := mem[a := mem[a].(refs := mem[a].refs - 1)];
      if mem[a].refs == 0 {
        mem := mem - {a};
      }
      table.fdtbl := table.fdtbl[fd := 0];
      files := Step(files, t, Close(fd));
      return 0;
    }

    /** The loop of task_clone that counts a reference for each cell below the hint. */
    method CountRefs(cells: seq<nat>, fdnext: nat)
      requires fdnext <= |cells|
      requires forall i :: 0 <= i < fdnext && cells[i] != 0 ==> cells[i] in mem
      modifies this`mem
      ensures mem == Counted(old(mem), cells[..fdnext])
    {
      for i := 0 to fdnext
        invariant mem == Counted(old(mem), cells[..i])
      {
        assert cells[..i + 1][..i] == cells[..i];
        if cells[i] != 0 {
          mem := mem[cells[i] := mem[cells[i]].(refs := mem[cells[i]].refs + 1)];
        }
      }
    }

    /** The part of task_clone that copies the table. */
    method CloneTable(t: nat)
      requires Valid() && Enabled(files, t, Clone)
      modifies this
      ensures Valid() && |tables| == |old(tables)| + 1 && tables[..|old(tables)|] == old(tables)
      ensures fresh(tables[|old(tables)|])
      ensures files == Step(old(files), t, Clone)
    {
      var table := tables[t];
      var clone := new FdTable.Copy(table);
      CountRefs(clone.fdtbl, clone.fdnext);
      files := Step(files, t, Clone);
      tables := tables + [clone];
    }
  }
}
