/** Files of kernel/fs/tmpfs.c: a growing byte buffer with a cursor.  cpiofs files
    (kernel/fs/cpiofs.c) are read and positioned by the same code. */
module Tmpfs {
  import opened Bytes

  datatype File = File(bytes: seq<Byte>, pos: int)

  datatype Whence = SeekSet | SeekCur | SeekEnd | Other

  /** A seek from the end counts backwards: the code subtracts the offset. */
  function SeekTo(f: File, offset: int, whence: Whence): File {
    match whence
    case SeekSet => f.(pos := offset)
    case SeekCur => f.(pos := f.pos + offset)
    case SeekEnd => f.(pos := |f.bytes| - offset)
    case Other => f
  }

  ghost predicate Placed(f: File) { 0 <= f.pos <= |f.bytes| }

  function Max(a: int, b: int): int { if a > b then a else b }

  /** A write replaces what lies under it and extends the file as needed. */
  function Written(f: File, buf: seq<Byte>): File
    requires Placed(f)
  {
    var end := f.pos + |buf|;
    File(f.bytes[..f.pos] + buf + if end < |f.bytes| then f.bytes[end..] else [], end)
  }

  /** How many bytes a read of `n` gets. */
  function Available(f: File, n: nat): nat
    requires Placed(f)
  { if f.pos + n > |f.bytes| then |f.bytes| - f.pos else n }

  function ReadBytes(f: File, n: nat): seq<Byte>
    requires Placed(f)
  { f.bytes[f.pos..f.pos + Available(f, n)] }

  function AfterRead(f: File, n: nat): File
    requires Placed(f)
  { f.(pos := f.pos + Available(f, n)) }

  // ---- laws

  /** The file never shrinks, and changes only under the write. */
  lemma WrittenAt(f: File, buf: seq<Byte>, i: nat)
    requires Placed(f) && i < |Written(f, buf).bytes|
    ensures |Written(f, buf).bytes| == Max(|f.bytes|, f.pos + |buf|)
    ensures Placed(Written(f, buf))
    ensures Written(f, buf).bytes[i] ==
            if f.pos <= i < f.pos + |buf| then buf[i - f.pos] else f.bytes[i]
  {
  }

  /** A read gets the bytes from the cursor on, `n` of them or as many as are left. */
  lemma ReadAt(f: File, n: nat, i: nat)
    requires Placed(f)
    ensures |ReadBytes(f, n)| == if n <= |f.bytes| - f.pos then n else |f.bytes| - f.pos
    ensures i < |ReadBytes(f, n)| ==> ReadBytes(f, n)[i] == f.bytes[f.pos + i]
    ensures Placed(AfterRead(f, n)) && AfterRead(f, n) == f.(pos := f.pos + |ReadBytes(f, n)|)
  {
  }

  /** A seek changes no byte.  The bytes read next are those from the offset on, counted
      from the start, from the cursor, or, backwards, from the end. */
  lemma SeekRead(f: File, offset: int, n: nat)
    requires Placed(f)
    ensures 0 <= offset <= |f.bytes| && offset + n <= |f.bytes| ==>
              Placed(SeekTo(f, offset, SeekSet)) && ReadBytes(SeekTo(f, offset, SeekSet), n) == f.bytes[offset..offset + n]
    ensures 0 <= f.pos + offset && f.pos + offset + n <= |f.bytes| ==>
              && Placed(SeekTo(f, offset, SeekCur))
              && ReadBytes(SeekTo(f, offset, SeekCur), n) == f.bytes[f.pos + offset..f.pos + offset + n]
    ensures n <= |f.bytes| ==>
              Placed(SeekTo(f, n, SeekEnd)) && ReadBytes(SeekTo(f, n, SeekEnd), n) == f.bytes[|f.bytes| - n..]
    ensures SeekTo(f, offset, Other) == f
    ensures forall whence :: SeekTo(f, offset, whence).bytes == f.bytes
  {
  }

  /** Writing, going back and reading gives back what was written. */
  lemma WriteReadBack(f: File, buf: seq<Byte>)
    requires Placed(f)
    ensures var g := SeekTo(Written(f, buf), -|buf|, SeekCur);
            Placed(g) && ReadBytes(g, |buf|) == buf && AfterRead(g, |buf|) == Written(f, buf)
  {
  }

  /** Two writes in a row are one. */
  lemma WriteWrite(f: File, a: seq<Byte>, b: seq<Byte>)
    requires Placed(f)
    ensures Placed(Written(f, a)) && Written(Written(f, a), b) == Written(f, a + b)
  {
    var g, h := Written(Written(f, a), b), Written(f, a + b);
    assert |g.bytes| == |h.bytes|;
    forall i | 0 <= i < |h.bytes| ensures g.bytes[i] == h.bytes[i] {
      WrittenAt(f, a + b, i);
      WrittenAt(Written(f, a), b, i);
      if i < |Written(f, a).bytes| { WrittenAt(f, a, i); }
    }
    assert g.bytes == h.bytes;
  }

  function ReadAll(f: File, chunks: seq<nat>): seq<Byte>
    requires Placed(f)
    decreases |chunks|
  {
    if |chunks| == 0 then [] else ReadBytes(f, chunks[0]) + ReadAll(AfterRead(f, chunks[0]), chunks[1..])
  }

  function Sum(chunks: seq<nat>): nat {
    if |chunks| == 0 then 0 else chunks[0] + Sum(chunks[1..])
  }

  /** Reading in chunks of any sizes concatenates to the same bytes as one read. */
  lemma {:induction false} ChunkedRead(f: File, chunks: seq<nat>)
    requires Placed(f)
    ensures ReadAll(f, chunks) == ReadBytes(f, Sum(chunks))
    decreases |chunks|
  {
    if |chunks| > 0 {
      ChunkedRead(AfterRead(f, chunks[0]), chunks[1..]);
    }
  }

  // ---- runs

  datatype FileOp = Write(buf: seq<Byte>) | Read(n: nat) | Seek(offset: int, whence: Whence)

  ghost predicate Enabled(f: File, op: FileOp) {
    && Placed(f)
    && (op.Seek? ==> Placed(SeekTo(f, op.offset, op.whence)))
  }

  function Step(f: File, op: FileOp): File
    requires Enabled(f, op)
  {
    match op
    case Write(buf) => Written(f, buf)
    case Read(n) => AfterRead(f, n)
    case Seek(offset, whence) => SeekTo(f, offset, whence)
  }

  ghost predicate IsRun(fs: seq<File>, ops: seq<FileOp>) {
    && |fs| == |ops| + 1 && fs[0] == File([], 0)
    && forall i :: 0 <= i < |ops| ==> Enabled(fs[i], ops[i]) && fs[i + 1] == Step(fs[i], ops[i])
  }

  /** Step `k` of the run wrote byte `i`, and no later step before `j` did. */
  ghost predicate LastWrote(fs: seq<File>, ops: seq<FileOp>, j: nat, i: nat, k: nat)
    requires IsRun(fs, ops) && j < |fs|
  {
    && k < j && Covers(fs, ops, k, i)
    && forall m :: k < m < j ==> !Covers(fs, ops, m, i)
  }

  ghost predicate Covers(fs: seq<File>, ops: seq<FileOp>, k: nat, i: nat)
    requires IsRun(fs, ops) && k < |ops|
  {
    ops[k].Write? && fs[k].pos <= i < fs[k].pos + |ops[k].buf|
  }

  /** In every state of every run, each byte of the file is the one put there by the last
      write that covered it: the file is exactly what its writes say, with no gap. */
  lemma {:induction false} BytesAreLastWrites(fs: seq<File>, ops: seq<FileOp>, j: nat, i: nat)
    requires IsRun(fs, ops) && j < |fs| && i < |fs[j].bytes|
    ensures exists k: nat :: LastWrote(fs, ops, j, i, k) && fs[j].bytes[i] == ops[k].buf[i - fs[k].pos]
    decreases j
  {
    assert j > 0;
    assert fs[j] == Step(fs[j - 1], ops[j - 1]);
    if ops[j - 1].Write? { WrittenAt(fs[j - 1], ops[j - 1].buf, i); }
    if Covers(fs, ops, j - 1, i) {
      assert LastWrote(fs, ops, j, i, j - 1);
    } else {
      BytesAreLastWrites(fs, ops, j - 1, i);
      var k: nat :| LastWrote(fs, ops, j - 1, i, k) && fs[j - 1].bytes[i] == ops[k].buf[i - fs[k].pos];
      assert LastWrote(fs, ops, j, i, k);
    }
  }

  // ---- the file device

  class TmpFile {
    var data: array<Byte>
    var length: int
    var pos: int

    ghost predicate Valid()
      reads this, data
    { length == data.Length && 0 <= pos <= length }

    ghost function Value(): File
      reads this, data
    { File(data[..], pos) }

    /** As tmpfs_create_file leaves it. */
    constructor ()
      ensures Valid() && fresh(data) && Value() == File([], 0)
    {
      data := new Byte[0];
      length, pos := 0, 0;
    }

    /** tmpfs_write_file, for sizes within the 31 bits of ssize_t. */
    method WriteFile(buf: seq<Byte>) returns (n: int)
      requires Valid() && pos + |buf| < 0x8000_0000
      modifies this, data
      ensures Valid() && n == |buf| && Value() == Written(old(Value()), buf)
      ensures data == old(data) || fresh(data)
    {
      if pos + |buf| > length {
        var bigger := new Byte[pos + |buf|];
        forall i | 0 <= i < length {
          bigger[i] := data[i];
        }
        data := bigger;
        length := pos + |buf|;
      }
      forall i | 0 <= i < |buf| {
        data[pos + i] := buf[i];
      }
      pos := pos + |buf|;
      n := |buf|;
      ghost var f := Written(old(Value()), buf);
      forall i | 0 <= i < |f.bytes| ensures |f.bytes| == data.Length && data[i] == f.bytes[i] {
        WrittenAt(old(Value()), buf, i);
      }
      assert data[..] == f.bytes;
    }

    /** tmpfs_read_file, for positions and sizes whose sum fits size_t. */
    method ReadFile(nbyte: nat) returns (buf: seq<Byte>)
      requires Valid() && pos + nbyte < 0x1_0000_0000
      modifies this`pos
      ensures Valid() && buf == ReadBytes(old(Value()), nbyte) && Value() == AfterRead(old(Value()), nbyte)
    {
      var n := nbyte;
      if pos + n > length {
        n := length - pos;
      }
      buf := data[pos..pos + n];
      pos := pos + n;
    }

    /** tmpfs_seek_file. */
    method SeekFile(offset: int, whence: Whence) returns (p: int)
      requires Valid() && Placed(SeekTo(Value(), offset, whence))
      modifies this`pos
      ensures Valid() && Value() == SeekTo(old(Value()), offset, whence) && p == pos
    {
      if whence == SeekSet {
        pos := offset;
      } else if whence == SeekCur {
        pos := pos + offset;
      } else if whence == SeekEnd {
        pos := length - offset;
      }
      return pos;
    }
  }
}
