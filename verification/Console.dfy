/** The keyboard ring and console_read of arch/x86/console.c.

    The ring is specified by the whole history of characters put into it.  The keyboard
    interrupt is part of the input: before each poll of the ring by console_read, some
    characters arrive. */
module Console {
  import opened Bytes
  import opened Vga
  import opened LineEditor

  const RBUF_LEN := 256

  /** The latest put, among `w`, whose index is congruent to `r` modulo the ring size. */
  function Latest(w: nat, r: nat): (j: nat)
    requires r < w
    ensures r <= j < w && j % RBUF_LEN == r % RBUF_LEN && w - RBUF_LEN <= j
    decreases w - r
  {
    if r + RBUF_LEN < w then Latest(w, r + RBUF_LEN) else r
  }

  /** It is the reader's own character exactly while the reader is at most a ring behind. */
  lemma LatestIsOwn(w: nat, r: nat)
    requires r < w
    ensures Latest(w, r) == r <==> w - r <= 256
  {
  }

  lemma LatestGreatest(w: nat, r: nat, j: nat)
    requires r < w && j < w && j % RBUF_LEN == r % RBUF_LEN
    ensures j <= Latest(w, r)
  {
  }

  // ---- a read, poll by poll

  /** All puts so far, the read counter, and the call's progress. */
  datatype Progress = Progress(puts: seq<Byte>, read: nat, edit: Edit)

  /** `arrived` is put, then the ring is polled. */
  function Polled(s: Progress, arrived: seq<Byte>): Progress {
    if s.edit.finished then s
    else
      var puts := s.puts + arrived;
      if s.read < |puts|
      then Progress(puts, s.read + 1, EditStep(s.edit, puts[Latest(|puts|, s.read)]))
      else s.(puts := puts)
  }

  function PolledAll(s: Progress, arrivals: seq<seq<Byte>>): Progress {
    if |arrivals| == 0 then s
    else Polled(PolledAll(s, arrivals[..|arrivals| - 1]), arrivals[|arrivals| - 1])
  }

  /** At every poll the reader is at most one ring behind. */
  predicate KeepsUp(s: Progress, arrivals: seq<seq<Byte>>) {
    |arrivals| == 0 ||
    (&& KeepsUp(s, arrivals[..|arrivals| - 1])
     && var t := PolledAll(s, arrivals[..|arrivals| - 1]);
        |t.puts| + |arrivals[|arrivals| - 1]| - t.read <= RBUF_LEN)
  }

  /** The call stops at the first newline or NUL it consumes. */
  predicate OneLine(cs: seq<Byte>) { forall i :: 0 <= i < |cs| - 1 ==> !Ends(cs[i]) }

  lemma FinishedIff(cs: seq<Byte>)
    requires OneLine(cs)
    ensures Edited(cs).finished <==> |cs| > 0 && Ends(cs[|cs| - 1])
  {
    if |cs| > 0 {
      SurvivorsTake(cs[..|cs| - 1], 0);
    }
  }

  /** Consuming one more character of an unfinished line. */
  lemma ConsumeOne(all: seq<Byte>, read: nat, r: nat)
    requires read <= r < |all| && OneLine(all[read..r]) && !Edited(all[read..r]).finished
    ensures Edited(all[read..r + 1]) == EditStep(Edited(all[read..r]), all[r]) && OneLine(all[read..r + 1])
  {
    var cs := all[read..r];
    assert all[read..r + 1] == cs + [all[r]];
    EditedAppend(cs, all[r]);
    FinishedIff(cs);
  }

  /** A poll that keeps up consumes the next unread character, if there is one. */
  lemma PollInOrder(t: Progress, arrived: seq<Byte>, read: nat)
    requires read <= t.read <= |t.puts| && t.edit == Edited(t.puts[read..t.read])
    requires OneLine(t.puts[read..t.read])
    requires |t.puts| + |arrived| - t.read <= RBUF_LEN
    ensures var u := Polled(t, arrived);
            && t.puts <= u.puts && read <= u.read <= |u.puts|
            && u.edit == Edited(u.puts[read..u.read]) && OneLine(u.puts[read..u.read])
  {
    var all := t.puts + arrived;
    assert all[read..t.read] == t.puts[read..t.read];
    if !t.edit.finished && t.read < |all| {
      LatestIsOwn(|all|, t.read);
      ConsumeOne(all, read, t.read);
    }
  }

  /** Under any interleaving in which the reader keeps up, the call edits exactly the
      characters put from its start on, in order. */
  lemma {:induction false} ReadsInOrder(puts: seq<Byte>, read: nat, arrivals: seq<seq<Byte>>)
    requires read <= |puts|
    requires KeepsUp(Progress(puts, read, Edited([])), arrivals)
    ensures var t := PolledAll(Progress(puts, read, Edited([])), arrivals);
            && puts <= t.puts && read <= t.read <= |t.puts|
            && t.edit == Edited(t.puts[read..t.read]) && OneLine(t.puts[read..t.read])
  {
    if |arrivals| == 0 {
      assert puts[read..read] == [];
    } else {
      var before := arrivals[..|arrivals| - 1];
      ReadsInOrder(puts, read, before);
      PollInOrder(PolledAll(Progress(puts, read, Edited([])), before), arrivals[|arrivals| - 1], read);
    }
  }

  /** A finished line, where it lies among the characters put. */
  lemma LineOf(puts: seq<Byte>, read: nat, r: nat)
    requires read <= r <= |puts| && OneLine(puts[read..r]) && Edited(puts[read..r]).finished
    ensures read < r && Ends(puts[r - 1]) && forall i :: read <= i < r - 1 ==> !Ends(puts[i])
    ensures Edited(puts[read..r]).line == Survivors(puts[read..r - 1], 0) + [puts[r - 1]]
  {
    var cs := puts[read..r];
    FinishedIff(cs);
    assert forall i :: read <= i < r - 1 ==> puts[i] == cs[i - read];
    assert cs == puts[read..r - 1] + [puts[r - 1]];
    EditedLine(puts[read..r - 1], puts[r - 1]);
  }

  /** What a completed read returns: of the characters put from its start on, up to the
      first newline or NUL, those that no backspace cancels, and that terminator.  What it
      echoes: all of them but the backspaces that found nothing to cancel. */
  lemma ReadReturnsLine(puts: seq<Byte>, read: nat, arrivals: seq<seq<Byte>>)
    requires read <= |puts|
    requires KeepsUp(Progress(puts, read, Edited([])), arrivals)
    requires PolledAll(Progress(puts, read, Edited([])), arrivals).edit.finished
    ensures var t := PolledAll(Progress(puts, read, Edited([])), arrivals);
            && puts <= t.puts && read < t.read <= |t.puts|
            && Ends(t.puts[t.read - 1]) && (forall i :: read <= i < t.read - 1 ==> !Ends(t.puts[i]))
            && t.edit.line == Survivors(t.puts[read..t.read - 1], 0) + [t.puts[t.read - 1]]
            && t.edit.echo == Echoed(t.puts[read..t.read])
  {
    ReadsInOrder(puts, read, arrivals);
    var t := PolledAll(Progress(puts, read, Edited([])), arrivals);
    LineOf(t.puts, read, t.read);
    EchoIs(t.puts[read..t.read]);
  }

  /** What the tape shows after a read of plain text and backspaces that ended with Enter:
      the line returned, without the characters taken back, and the cursor in column 0 of
      the row behind it. */
  lemma ReadShows(puts: seq<Byte>, read: nat, arrivals: seq<seq<Byte>>, tape: Tape)
    requires read <= |puts|
    requires KeepsUp(Progress(puts, read, Edited([])), arrivals)
    requires var t := PolledAll(Progress(puts, read, Edited([])), arrivals);
             && t.edit.finished && read < t.read <= |t.puts|
             && t.puts[t.read - 1] == 10 && Typeable(t.puts[read..t.read - 1])
    ensures var t := PolledAll(Progress(puts, read, Edited([])), arrivals);
            var cs, u := t.puts[read..t.read - 1], TypedAll(tape, t.edit.echo);
            var line := Survivors(cs, 0);
            && (forall i :: Vga.Read(u, i) == LineCell(tape, line, Depth(cs), i))
            && u.pos % 80 == 0 && tape.pos + |line| < u.pos <= tape.pos + |line| + 80
  {
    ReadsInOrder(puts, read, arrivals);
    var t := PolledAll(Progress(puts, read, Edited([])), arrivals);
    LineShows(tape, t.puts, read, t.read);
  }

  lemma LineShows(tape: Tape, puts: seq<Byte>, read: nat, r: nat)
    requires read < r <= |puts| && puts[r - 1] == 10 && Typeable(puts[read..r - 1])
    ensures var cs, u := puts[read..r - 1], TypedAll(tape, Edited(puts[read..r]).echo);
            var line := Survivors(cs, 0);
            && (forall i :: Vga.Read(u, i) == LineCell(tape, line, Depth(cs), i))
            && u.pos % 80 == 0 && tape.pos + |line| < u.pos <= tape.pos + |line| + 80
  {
    var cs := puts[read..r - 1];
    assert puts[read..r] == cs + [10];
    forall i | 0 <= i < |cs| ensures !Ends(cs[i]) {
      assert cs[i] == 8 || (cs[i] != 0 && Plain([cs[i]]));
      assert [cs[i]][0] == cs[i];
    }
    NewlineEnds(tape, cs);
    EchoShows(tape, cs);
    SurvivorsTake(cs, 0);
    var l, u, v := Edited(cs).line, TypedAll(tape, Edited(cs).echo), TypedAll(tape, Edited(cs + [10]).echo);
    assert l[..|l| - 0] == l;
    assert forall i :: Vga.Read(v, i) == Vga.Read(u, i);
  }

  lemma {:induction false} PutsGrow(s: Progress, arrivals: seq<seq<Byte>>, j: nat)
    requires j <= |arrivals|
    ensures PolledAll(s, arrivals[..j]).puts <= PolledAll(s, arrivals).puts
  {
    if j < |arrivals| {
      var before := arrivals[..|arrivals| - 1];
      assert before[..j] == arrivals[..j];
      PutsGrow(s, before, j);
    } else {
      assert arrivals[..j] == arrivals;
    }
  }

  /** Until it has caught up with what had arrived by poll `j`, an unfinished read consumes
      one character with every poll. */
  lemma {:induction false} PollsConsume(s: Progress, arrivals: seq<seq<Byte>>, j: nat)
    requires j <= |arrivals| && !PolledAll(s, arrivals).edit.finished
    ensures var t, u := PolledAll(s, arrivals[..j]), PolledAll(s, arrivals);
            u.read >= t.read + (|arrivals| - j) || u.read >= |t.puts|
  {
    if j < |arrivals| {
      var before := arrivals[..|arrivals| - 1];
      assert before[..j] == arrivals[..j];
      PollsConsume(s, before, j);
      PutsGrow(s, before, j);
    } else {
      assert arrivals[..j] == arrivals;
    }
  }

  /** Progress: a read that keeps up finishes as soon as it has polled often enough to
      reach the first newline or NUL that has arrived. */
  lemma ReadFinishes(puts: seq<Byte>, read: nat, arrivals: seq<seq<Byte>>, j: nat, q: nat)
    requires read <= |puts| && j <= |arrivals|
    requires KeepsUp(Progress(puts, read, Edited([])), arrivals)
    requires var t := PolledAll(Progress(puts, read, Edited([])), arrivals[..j]);
             read <= q < |t.puts| && Ends(t.puts[q]) && |arrivals| - j > q - t.read
    ensures PolledAll(Progress(puts, read, Edited([])), arrivals).edit.finished
  {
    var s := Progress(puts, read, Edited([]));
    var t, u := PolledAll(s, arrivals[..j]), PolledAll(s, arrivals);
    ReadsInOrder(puts, read, arrivals);
    if !u.edit.finished {
      PollsConsume(s, arrivals, j);
      PutsGrow(s, arrivals, j);
      var cs := u.puts[read..u.read];
      assert cs[q - read] == t.puts[q];
      FinishedIff(cs);
    }
  }

  /** Once the line is complete the call has returned. */
  lemma {:induction false} Frozen(s: Progress, arrivals: seq<seq<Byte>>, k: nat)
    requires k <= |arrivals| && PolledAll(s, arrivals[..k]).edit.finished
    ensures PolledAll(s, arrivals) == PolledAll(s, arrivals[..k])
  {
    if k < |arrivals| {
      assert arrivals[..|arrivals| - 1][..k] == arrivals[..k];
      Frozen(s, arrivals[..|arrivals| - 1], k);
    } else {
      assert arrivals[..k] == arrivals;
    }
  }

  class ConsoleInput {
    const buf: array<Byte>
    var rbufRead: nat
    var rbufWrite: nat
    ghost var puts: seq<Byte>

    /** The ring holds the last 256 puts. */
    ghost predicate Valid()
      reads this, buf
    {
      && buf.Length == RBUF_LEN
      && rbufRead <= rbufWrite == |puts|
      && forall j :: 0 <= j < |puts| && |puts| - RBUF_LEN <= j ==> buf[j % RBUF_LEN] == puts[j]
    }

    constructor ()
      ensures Valid() && fresh(buf) && puts == [] && rbufRead == 0
    {
      buf := new Byte[RBUF_LEN];
      rbufRead, rbufWrite, puts := 0, 0, [];
    }

    /** console_rbuf_putc. */
    method RbufPutc(c: Byte)
      requires Valid()
      modifies this`rbufWrite, this`puts, buf
      ensures Valid() && puts == old(puts) + [c]
    {
      buf[rbufWrite % RBUF_LEN] := c;
      rbufWrite := rbufWrite + 1;
      puts := puts + [c];
    }

    /** console_rbuf_getc: the latest put congruent to the read counter, which is the next
        unread one exactly if at most 256 are unread. */
    method RbufGetc() returns (ok: bool, c: Byte)
      requires Valid()
      modifies this`rbufRead
      ensures Valid() && ok == (old(rbufRead) < |puts|)
      ensures rbufRead == old(rbufRead) + if ok then 1 else 0
      ensures ok ==> c == puts[Latest(|puts|, old(rbufRead))]
    {
      if rbufRead < rbufWrite {
        ghost var j := Latest(|puts|, rbufRead);
        c := buf[rbufRead % RBUF_LEN];
        rbufRead := rbufRead + 1;
        return true, c;
      }
      return false, 0;
    }

    /** The keyboard interrupt delivers some characters. */
    method Arrive(cs: seq<Byte>)
      requires Valid()
      modifies this`rbufWrite, this`puts, buf
      ensures Valid() && puts == old(puts) + cs
    {
      for i := 0 to |cs|
        invariant Valid() && puts == old(puts) + cs[..i]
      {
        RbufPutc(cs[i]);
      }
    }

    /** One round of the loop of console_read, with `c` characters pending in `cbuf`: what
        the keyboard delivers, then a poll.  `finished` says that the call returns. */
    method Poll(cbuf: array<Byte>, c: nat, echo: seq<Byte>, arrived: seq<Byte>)
      returns (c': nat, echo': seq<Byte>, finished: bool)
      requires Valid() && cbuf != buf && c < cbuf.Length
      modifies this, buf, cbuf
      ensures Valid() && c' <= cbuf.Length
      ensures Polled(Progress(old(puts), old(rbufRead), Edit(old(cbuf[..c]), echo, false)), arrived) ==
              Progress(puts, rbufRead, Edit(cbuf[..c'], echo', finished))
      ensures forall i :: 0 <= i < cbuf.Length && i != c ==> cbuf[i] == old(cbuf[i])
      ensures c' < c ==> cbuf[c] == 0
    {
      Arrive(arrived);
      var got, ch := RbufGetc();
      if !got {
        return c, echo, false;
      }
      cbuf[c] := ch;
      if cbuf[c] == BACKSPACE {
        if c > 0 {
          var out := cbuf[c];
          cbuf[c] := 0;
          assert cbuf[..c - 1] == old(cbuf[..c])[..c - 1];
          return c - 1, echo + [out], false;
        }
        return c, echo, false;
      }
      assert cbuf[..c + 1] == old(cbuf[..c]) + [ch];
      return c + 1, echo + [cbuf[c]], cbuf[c] == NEWLINE || cbuf[c] == NUL;
    }

    /** console_read.  `arrivals[i]` is what the keyboard delivers before poll `i`; the call
        returns the number of bytes, or -1 if it is still polling when they run out.  It
        ignores the caller's count, so `cbuf` must hold the deepest pending line and one
        character more.  `echo` is what it sent to the screen. */
    method Read(cbuf: array<Byte>, arrivals: seq<seq<Byte>>) returns (n: int, echo: seq<Byte>)
      requires Valid() && cbuf != buf
      requires forall i :: 0 <= i < |arrivals| ==>
                 |PolledAll(Progress(puts, rbufRead, Edited([])), arrivals[..i]).edit.line| < cbuf.Length
      modifies this, buf, cbuf
      ensures Valid()
      ensures var t := PolledAll(Progress(old(puts), old(rbufRead), Edited([])), arrivals);
              && puts == t.puts && rbufRead == t.read && echo == t.edit.echo
              && (if t.edit.finished then n == |t.edit.line| <= cbuf.Length && cbuf[..n] == t.edit.line else n == -1)
    {
      ghost var s := Progress(puts, rbufRead, Edited([]));
      var c := 0;
      echo := [];
      for i := 0 to |arrivals|
        invariant 0 <= c <= cbuf.Length
        invariant Valid() && PolledAll(s, arrivals[..i]) == Progress(puts, rbufRead, Edit(cbuf[..c], echo, false))
      {
        assert arrivals[..i + 1][..i] == arrivals[..i];
        var finished;
        c, echo, finished := Poll(cbuf, c, echo, arrivals[i]);
        if finished {
          Frozen(s, arrivals, i + 1);
          return c, echo;
        }
      }
      assert arrivals[..|arrivals|] == arrivals;
      return -1, echo;
    }
  }

  /** A read that keeps up, of input without carriage return, whose pending line fits into
      25 rows from the cursor's column on. */
  ghost predicate Echoable(s: Progress, arrivals: seq<seq<Byte>>, p: Cursor) {
    && KeepsUp(s, arrivals)
    && var t := PolledAll(s, arrivals);
       && s.read <= t.read <= |t.puts| && NoReturn(t.puts[s.read..t.read])
       && p.pos % COLS + Depth(t.puts[s.read..t.read]) < ROWS * COLS
  }

  /** The cursor is on the screen after each character of `cs`. */
  ghost predicate StaysInWindow(p: Cursor, cs: seq<Byte>) {
    forall i :: 0 <= i <= |cs| ==> InWindow(MovedAll(p, cs[..i]))
  }

  lemma EchoableSafe(puts: seq<Byte>, read: nat, arrivals: seq<seq<Byte>>, p: Cursor)
    requires read <= |puts| && Echoable(Progress(puts, read, Edited([])), arrivals, p) && InWindow(p)
    ensures var echo := PolledAll(Progress(puts, read, Edited([])), arrivals).edit.echo;
            Safe(p, echo) && StaysInWindow(p, echo)
  {
    ReadsInOrder(puts, read, arrivals);
    var t := PolledAll(Progress(puts, read, Edited([])), arrivals);
    EchoSafe(p, t.puts[read..t.read]);
    forall i | 0 <= i <= |t.edit.echo| ensures InWindow(MovedAll(p, t.edit.echo[..i])) {
      SafePrefix(p, t.edit.echo, i);
      SafeStays(p, t.edit.echo[..i]);
    }
  }

  /** Such a read with its echo on the screen and no other writer in between: the line
      appears on the tape as typed and erased, and the cursor stays on the screen
      throughout. */
  method ReadWithEcho(input: ConsoleInput, vga: VgaConsole, cbuf: array<Byte>, arrivals: seq<seq<Byte>>)
    returns (n: int)
    requires input.Valid() && vga.Valid() && cbuf != input.buf
    requires Echoable(Progress(input.puts, input.rbufRead, Edited([])), arrivals, Cursor(vga.tape.pos, vga.top))
    requires forall i :: 0 <= i < |arrivals| ==>
               |PolledAll(Progress(input.puts, input.rbufRead, Edited([])), arrivals[..i]).edit.line| < cbuf.Length
    modifies input, input.buf, cbuf, vga, vga.buffer
    ensures input.Valid() && vga.Valid()
    ensures var t := PolledAll(Progress(old(input.puts), old(input.rbufRead), Edited([])), arrivals);
            var p := Cursor(old(vga.tape.pos), old(vga.top));
            && Safe(p, t.edit.echo) && StaysInWindow(p, t.edit.echo)
            && vga.tape == TypedAll(old(vga.tape), t.edit.echo) && vga.top == MovedAll(p, t.edit.echo).top
            && input.puts == t.puts && input.rbufRead == t.read
            && (if t.edit.finished then n == |t.edit.line| <= cbuf.Length && cbuf[..n] == t.edit.line else n == -1)
  {
    EchoableSafe(input.puts, input.rbufRead, arrivals, Cursor(vga.tape.pos, vga.top));
    var echo;
    n, echo := input.Read(cbuf, arrivals);
    vga.Write(echo);
  }
}
