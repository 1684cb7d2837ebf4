/** The line discipline inside console_read (arch/x86/console.c), on values, and its echo
    on the text console. */
module LineEditor {
  import opened Bytes
  import opened Vga

  const NUL: Byte := 0

  /** `line` is the pending text, `echo` what was sent to the screen. */
  datatype Edit = Edit(line: seq<Byte>, echo: seq<Byte>, finished: bool)

  predicate Ends(c: Byte) { c == NEWLINE || c == NUL }

  function EditStep(e: Edit, c: Byte): Edit {
    if e.finished then e
    else if c == BACKSPACE then
      if |e.line| > 0 then Edit(e.line[..|e.line| - 1], e.echo + [c], false) else e
    else Edit(e.line + [c], e.echo + [c], Ends(c))
  }

  /** The call, after it has consumed `cs`. */
  function Edited(cs: seq<Byte>): Edit {
    if |cs| == 0 then Edit([], [], false) else EditStep(Edited(cs[..|cs| - 1]), cs[|cs| - 1])
  }

  // ---- what the edited line is

  lemma EditedAppend(cs: seq<Byte>, c: Byte)
    ensures Edited(cs + [c]) == EditStep(Edited(cs), c)
  {
    assert (cs + [c])[..|cs|] == cs;
  }

  /** Reference: the line is what remains of the input when every backspace cancels the
      nearest uncancelled character before it.  `debt` counts the backspaces still to be
      spent, reading from the right. */
  function Survivors(cs: seq<Byte>, debt: nat): seq<Byte> {
    if |cs| == 0 then []
    else
      var rest, c := cs[..|cs| - 1], cs[|cs| - 1];
      if c == BACKSPACE then Survivors(rest, debt + 1)
      else if debt > 0 then Survivors(rest, debt - 1)
      else Survivors(rest, 0) + [c]
  }

  lemma {:induction false} SurvivorsTake(cs: seq<Byte>, debt: nat)
    requires forall i :: 0 <= i < |cs| ==> !Ends(cs[i])
    ensures !Edited(cs).finished
    ensures Survivors(cs, debt) ==
            var l := Edited(cs).line; if debt <= |l| then l[..|l| - debt] else []
  {
    if |cs| > 0 {
      var rest, c := cs[..|cs| - 1], cs[|cs| - 1];
      assert !Ends(c);
      SurvivorsTake(rest, if c == BACKSPACE then debt + 1 else if debt > 0 then debt - 1 else 0);
      SurvivorsTake(rest, 0);
      var l := Edited(rest).line;
      if c == BACKSPACE && |l| > 0 && debt < |l| {
        assert l[..|l| - 1][..|l| - 1 - debt] == l[..|l| - debt - 1];
      } else if c != BACKSPACE && 0 < debt <= |l| + 1 {
        assert (l + [c])[..|l| + 1 - debt] == l[..|l| + 1 - debt];
      }
    }
  }

  /** Read up to the first newline or NUL, the line is the survivors and the terminator. */
  lemma EditedLine(cs: seq<Byte>, end: Byte)
    requires forall i :: 0 <= i < |cs| ==> !Ends(cs[i])
    requires Ends(end)
    ensures Edited(cs + [end]).finished
    ensures Edited(cs + [end]).line == Survivors(cs, 0) + [end]
  {
    SurvivorsTake(cs, 0);
    EditedAppend(cs, end);
    var l := Edited(cs).line;
    assert l[..|l| - 0] == l;
  }

  // ---- what is echoed

  /** Reference: the input without the backspaces that found no pending character. */
  function Echoed(cs: seq<Byte>): seq<Byte> {
    if |cs| == 0 then []
    else
      var rest, c := cs[..|cs| - 1], cs[|cs| - 1];
      if c == 8 && Survivors(rest, 0) == [] then Echoed(rest) else Echoed(rest) + [c]
  }

  /** Read up to and including the first newline or NUL, that is what appears. */
  lemma {:induction false} EchoIs(cs: seq<Byte>)
    requires forall i :: 0 <= i < |cs| - 1 ==> !Ends(cs[i])
    ensures Edited(cs).echo == Echoed(cs)
  {
    if |cs| > 0 {
      var rest := cs[..|cs| - 1];
      EchoIs(rest);
      SurvivorsTake(rest, 0);
      var l := Edited(rest).line;
      assert l[..|l| - 0] == l;
    }
  }

  /** Without backspaces everything is echoed. */
  lemma {:induction false} EchoAll(cs: seq<Byte>)
    requires forall i :: 0 <= i < |cs| ==> cs[i] != 8
    ensures Echoed(cs) == cs
  {
    if |cs| > 0 {
      EchoAll(cs[..|cs| - 1]);
    }
  }

  /** The terminator is echoed last ... */
  lemma EchoEnds(cs: seq<Byte>, end: Byte)
    requires forall i :: 0 <= i < |cs| ==> !Ends(cs[i])
    requires end == 10 || end == 0
    ensures Edited(cs + [end]).echo == Edited(cs).echo + [end]
  {
    SurvivorsTake(cs, 0);
    EditedAppend(cs, end);
  }

  /** ... and a newline leaves the cursor at the start of the next row. */
  lemma NewlineEnds(t: Tape, cs: seq<Byte>)
    requires forall i :: 0 <= i < |cs| ==> !Ends(cs[i])
    ensures var u, v := TypedAll(t, Edited(cs).echo), TypedAll(t, Edited(cs + [10]).echo);
            v.cells == u.cells && v.pos % 80 == 0 && u.pos < v.pos <= u.pos + 80
  {
    EchoEnds(cs, 10);
    TypedMore(t, Edited(cs).echo, 10);
    var u := TypedAll(t, Edited(cs).echo);
    LineControls(u);
    TypedMore(u, [], 10);
  }

  lemma TypedMore(t: Tape, cs: seq<Byte>, c: Byte)
    ensures TypedAll(t, cs + [c]) == Typed(TypedAll(t, cs), c)
  {
    assert (cs + [c])[..|cs|] == cs;
  }

  /** Backspace takes back, also at the start of the line; newline and NUL end it. */
  lemma SomeEdits()
    ensures Edited([0x61, 8, 8, 0x62, 10]) == Edit([0x62, 10], [0x61, 8, 0x62, 10], true)
    ensures Edited([0]) == Edit([0], [0], true)
  {
    assert [0][..0] == [];
    assert [0x61, 8, 8, 0x62, 10][..4] == [0x61, 8, 8, 0x62];
    assert [0x61, 8, 8, 0x62][..3] == [0x61, 8, 8] && [0x61, 8, 8][..2] == [0x61, 8];
    assert [0x61, 8][..1] == [0x61] && [0x61][..0] == [];
    assert Edited([0x61]) == Edit([0x61], [0x61], false);
    assert Edited([0x61, 8]) == Edit([], [0x61, 8], false);
    assert Edited([0x61, 8, 8]) == Edit([], [0x61, 8], false);
  }

  // ---- what the echo shows

  /** Plain text and backspaces. */
  predicate Typeable(cs: seq<Byte>) {
    forall i :: 0 <= i < |cs| ==> cs[i] == 8 || (cs[i] != 0 && Plain([cs[i]]))
  }

  lemma {:induction false} LineIsPlain(cs: seq<Byte>)
    requires Typeable(cs)
    ensures !Edited(cs).finished && Plain(Edited(cs).line) && |Edited(cs).line| <= Depth(cs)
  {
    if |cs| > 0 {
      LineIsPlain(cs[..|cs| - 1]);
      assert cs[|cs| - 1] == 8 || Plain([cs[|cs| - 1]]);
      assert [cs[|cs| - 1]][0] == cs[|cs| - 1];
    }
  }

  /** A cell of a line being typed from `t.pos` on: the pending characters, then blanks as
      far as the line ever went, and beside it what was there. */
  function LineCell(t: Tape, line: seq<Byte>, depth: nat, i: int): nat {
    if t.pos <= i < t.pos + |line| then 0x700 + line[i - t.pos]
    else if t.pos + |line| <= i < t.pos + depth then 0x720
    else Read(t, i)
  }

  ghost predicate ShowsLine(t: Tape, u: Tape, line: seq<Byte>, depth: nat) {
    u.pos == t.pos + |line| && forall i :: Read(u, i) == LineCell(t, line, depth, i)
  }

  lemma ShowsPrinted(t: Tape, u: Tape, line: seq<Byte>, depth: nat, c: Byte)
    requires ShowsLine(t, u, line, depth) && |line| <= depth && Plain([c])
    ensures ShowsLine(t, Typed(u, c), line + [c], if |line| < depth then depth else depth + 1)
  {
    assert [c][0] == c;
    var u', line', depth' := Typed(u, c), line + [c], if |line| < depth then depth else depth + 1;
    forall i ensures Read(u', i) == LineCell(t, line', depth', i) {
      assert Read(u, i) == LineCell(t, line, depth, i);
    }
  }

  lemma ShowsErased(t: Tape, u: Tape, line: seq<Byte>, depth: nat)
    requires ShowsLine(t, u, line, depth) && 0 < |line| <= depth
    ensures ShowsLine(t, Typed(u, 8), line[..|line| - 1], depth)
  {
    forall i ensures Read(Typed(u, 8), i) == LineCell(t, line[..|line| - 1], depth, i) {
      assert Read(u, i) == LineCell(t, line, depth, i);
    }
  }

  /** The echo makes the tape show the line as edited. */
  lemma {:induction false} EchoShows(t: Tape, cs: seq<Byte>)
    requires Typeable(cs)
    ensures ShowsLine(t, TypedAll(t, Edited(cs).echo), Edited(cs).line, Depth(cs))
  {
    if |cs| > 0 {
      var rest, c := cs[..|cs| - 1], cs[|cs| - 1];
      EchoShows(t, rest);
      LineIsPlain(rest);
      LineIsPlain(cs);
      var e, u := Edited(rest), TypedAll(t, Edited(rest).echo);
      TypedMore(t, e.echo, c);
      if c != 8 {
        ShowsPrinted(t, u, e.line, Depth(rest), c);
      } else if |e.line| > 0 {
        ShowsErased(t, u, e.line, Depth(rest));
      }
    }
  }

  // ---- the echo on the screen

  /** The deepest pending line while `cs` is consumed. */
  function Depth(cs: seq<Byte>): nat {
    if |cs| == 0 then 0
    else
      var d, e := Depth(cs[..|cs| - 1]), Edited(cs);
      if !e.finished && |e.line| > d then |e.line| else d
  }

  /** What the echo does to the cursor: with no carriage return in the input, the cursor
      is as far behind its start as the line is long, and the window has not moved below
      where the deepest line forces it. */
  lemma {:induction false} EchoCursor(p: Cursor, cs: seq<Byte>)
    requires InWindow(p) && !Edited(cs).finished
    requires NoReturn(cs)
    requires p.pos % COLS + Depth(cs) < ROWS * COLS
    ensures Safe(p, Edited(cs).echo)
    ensures MovedAll(p, Edited(cs).echo).pos == p.pos + |Edited(cs).line|
    ensures COLS * MovedAll(p, Edited(cs).echo).top <= p.pos
  {
    if |cs| > 0 {
      var rest, c := cs[..|cs| - 1], cs[|cs| - 1];
      EchoCursor(p, rest);
      var e := Edited(rest).echo;
      if Edited(cs).echo != e {
        assert Edited(cs).echo[..|e|] == e;
        WindowBound(p, p.pos + |Edited(cs).line|, MovedAll(p, e).top);
      }
    }
  }

  /** As long as fewer than 25 rows' worth of cells lie between the start of the first row
      and the cursor, the window still shows the start. */
  lemma WindowBound(p: Cursor, pos: int, top: int)
    requires p.pos <= pos && p.pos % COLS + (pos - p.pos) < ROWS * COLS && COLS * top <= p.pos
    ensures COLS * Follow(top, pos) <= p.pos
  {
    assert p.pos == COLS * (p.pos / COLS) + p.pos % COLS;
  }

  /** Echo safety: no read whose pending line stays below the bound ever echoes a
      backspace at the window origin; 24 rows of pending text are always safe. */
  lemma EchoSafe(p: Cursor, cs: seq<Byte>)
    requires InWindow(p)
    requires NoReturn(cs)
    requires p.pos % COLS + Depth(cs) < ROWS * COLS || Depth(cs) <= (ROWS - 1) * COLS
    ensures Safe(p, Edited(cs).echo)
    ensures InWindow(MovedAll(p, Edited(cs).echo))
  {
    EchoSafeOnly(p, cs);
    SafeStays(p, Edited(cs).echo);
  }

  lemma {:induction false} EchoSafeOnly(p: Cursor, cs: seq<Byte>)
    requires InWindow(p)
    requires NoReturn(cs)
    requires p.pos % COLS + Depth(cs) < ROWS * COLS
    ensures Safe(p, Edited(cs).echo)
  {
    if !Edited(cs).finished {
      EchoCursor(p, cs);
    } else {
      var rest := cs[..|cs| - 1];
      EchoSafeOnly(p, rest);
      if !Edited(rest).finished {
        var e := Edited(rest).echo;
        assert Edited(cs).echo[..|e|] == e;
      }
    }
  }

  // ---- the bound is exact

  predicate NoReturn(cs: seq<Byte>) { forall i :: 0 <= i < |cs| ==> cs[i] != RETURN }

  function Repeat(c: Byte, n: nat): (r: seq<Byte>)
    ensures |r| == n && forall i :: 0 <= i < n ==> r[i] == c
  { if n == 0 then [] else Repeat(c, n - 1) + [c] }

  lemma {:induction false} EchoPosition(p: Cursor, cs: seq<Byte>)
    requires NoReturn(cs) && !Edited(cs).finished
    ensures MovedAll(p, Edited(cs).echo).pos == p.pos + |Edited(cs).line|
  {
    if |cs| > 0 {
      var e := Edited(cs[..|cs| - 1]).echo;
      EchoPosition(p, cs[..|cs| - 1]);
      if Edited(cs).echo != e {
        assert Edited(cs).echo[..|e|] == e;
      }
    }
  }

  lemma SafeAppend(p: Cursor, cs: seq<Byte>, c: Byte)
    ensures MovedAll(p, cs + [c]) == Moved(MovedAll(p, cs), c)
    ensures Safe(p, cs + [c]) <==> Safe(p, cs) && !AtOrigin(MovedAll(p, cs).pos, MovedAll(p, cs).top, c)
  {
    assert (cs + [c])[..|cs|] == cs;
  }

  /** One more backspace on a pending line: it is echoed. */
  lemma OneBack(p: Cursor, cs: seq<Byte>)
    requires !Edited(cs).finished && |Edited(cs).line| > 0
    ensures var e, f := Edited(cs), Edited(cs + [BACKSPACE]);
            && !f.finished && |f.line| == |e.line| - 1
            && MovedAll(p, f.echo) == Moved(MovedAll(p, e.echo), BACKSPACE)
            && (Safe(p, f.echo) <==>
                Safe(p, e.echo) && !AtOrigin(MovedAll(p, e.echo).pos, MovedAll(p, e.echo).top, BACKSPACE))
  {
    EditedAppend(cs, BACKSPACE);
    SafeAppend(p, Edited(cs).echo, BACKSPACE);
  }

  lemma BackInside(q: Cursor)
    requires COLS * q.top < q.pos < COLS * (q.top + ROWS)
    ensures Moved(q, BACKSPACE) == Cursor(q.pos - 1, q.top) && !AtOrigin(q.pos, q.top, BACKSPACE)
  {
  }

  /** The pending line has more characters than there are cells between the window origin
      and the cursor. */
  predicate Overrun(p: Cursor, cs: seq<Byte>) {
    var q := MovedAll(p, Edited(cs).echo);
    && !Edited(cs).finished && Safe(p, Edited(cs).echo)
    && InWindow(q) && q.pos - COLS * q.top < |Edited(cs).line|
  }

  lemma StepBack(p: Cursor, cs: seq<Byte>)
    requires Overrun(p, cs)
    ensures |Edited(cs + [BACKSPACE]).line| == |Edited(cs).line| - 1
    ensures var q := MovedAll(p, Edited(cs).echo);
            if q.pos == COLS * q.top then !Safe(p, Edited(cs + [BACKSPACE]).echo) else Overrun(p, cs + [BACKSPACE])
  {
    OneBack(p, cs);
    var q := MovedAll(p, Edited(cs).echo);
    if q.pos > COLS * q.top {
      BackInside(q);
    }
  }

  /** A long line has pushed its own start off the window. */
  lemma StartGone(p: Cursor, q: Cursor)
    requires InWindow(q) && p.pos <= q.pos && p.pos % COLS + (q.pos - p.pos) >= ROWS * COLS
    ensures p.pos < COLS * q.top
  {
    assert p.pos == COLS * (p.pos / COLS) + p.pos % COLS;
  }

  /** `ds` is `cs` followed by backspaces. */
  predicate ThenErased(cs: seq<Byte>, ds: seq<Byte>) {
    cs <= ds && forall i :: |cs| <= i < |ds| ==> ds[i] == BACKSPACE
  }

  lemma ErasedMore(cs: seq<Byte>, ds: seq<Byte>)
    requires ThenErased(cs + [BACKSPACE], ds)
    ensures ThenErased(cs, ds)
  {
    assert ds[|cs|] == (cs + [BACKSPACE])[|cs|];
    assert cs <= cs + [BACKSPACE] <= ds;
  }

  /** A pending line whose start is above the window can be erased into the origin. */
  lemma {:induction false} ErasedTooFar(p: Cursor, cs: seq<Byte>) returns (ds: seq<Byte>)
    requires Overrun(p, cs)
    ensures ThenErased(cs, ds) && !Safe(p, Edited(ds).echo)
    decreases |Edited(cs).line|
  {
    StepBack(p, cs);
    ds := cs + [BACKSPACE];
    if Safe(p, Edited(ds).echo) {
      ds := ErasedTooFar(p, ds);
      ErasedMore(cs, ds);
    }
  }

  lemma EchoOverruns(p: Cursor, cs: seq<Byte>) returns (ds: seq<Byte>)
    requires InWindow(p) && NoReturn(cs) && !Edited(cs).finished && Safe(p, Edited(cs).echo)
    requires p.pos % COLS + |Edited(cs).line| >= ROWS * COLS
    ensures ThenErased(cs, ds) && !Safe(p, Edited(ds).echo)
  {
    EchoPosition(p, cs);
    SafeStays(p, Edited(cs).echo);
    StartGone(p, MovedAll(p, Edited(cs).echo));
    ds := ErasedTooFar(p, cs);
  }

  lemma {:induction false} Letters(p: Cursor, m: nat)
    requires InWindow(p)
    ensures var e := Edited(Repeat(0x61, m));
            e == Edit(Repeat(0x61, m), Repeat(0x61, m), false) && Safe(p, e.echo)
  {
    if m > 0 {
      var cs, rest := Repeat(0x61, m), Repeat(0x61, m - 1);
      Letters(p, m - 1);
      assert cs[..m - 1] == rest && cs[m - 1] == 0x61;
      assert Edited(cs).echo[..m - 1] == rest;
    }
  }

  ghost predicate AllSafe(p: Cursor, m: nat) {
    forall cs :: NoReturn(cs) && Depth(cs) <= m ==> Safe(p, Edited(cs).echo)
  }

  lemma SomeUnsafe(p: Cursor, m: nat) returns (ds: seq<Byte>)
    requires InWindow(p) && p.pos % COLS + m >= ROWS * COLS
    ensures NoReturn(ds) && Depth(ds) <= m && !Safe(p, Edited(ds).echo)
  {
    Letters(p, m);
    var cs := Repeat(0x61, m);
    ds := EchoOverruns(p, cs);
    ErasedDepth(cs, ds);
  }

  /** Echo stays safe for every pending line of up to `m` characters if and only if `m`
      characters fit between the cursor's column and the end of the 25th row. */
  lemma EchoBound(p: Cursor, m: nat)
    requires InWindow(p)
    ensures AllSafe(p, m) <==> p.pos % COLS + m < ROWS * COLS
  {
    if p.pos % COLS + m < ROWS * COLS {
      forall cs | NoReturn(cs) && Depth(cs) <= m ensures Safe(p, Edited(cs).echo) {
        EchoSafe(p, cs);
      }
    } else {
      var _ := SomeUnsafe(p, m);
    }
  }

  lemma ErasedDepth(cs: seq<Byte>, ds: seq<Byte>)
    requires ThenErased(cs, ds) && NoReturn(cs)
    ensures NoReturn(ds) && Depth(ds) <= |cs|
  {
    assert forall i :: 0 <= i < |cs| ==> ds[i] == cs[i];
    DepthBound(ds, |cs|);
  }

  /** Only non-backspaces deepen the line. */
  lemma {:induction false} DepthBound(cs: seq<Byte>, m: nat)
    requires m <= |cs| && forall i :: m <= i < |cs| ==> cs[i] == BACKSPACE
    ensures Depth(cs) <= m && |Edited(cs).line| <= m
  {
    if |cs| > 0 {
      DepthBound(cs[..|cs| - 1], if m < |cs| then m else m - 1);
    }
  }

  // ---- the keyboard

  /** The unshifted keymap (arch/x86/keymap.h), indexed by scan code. */
  const KEYMAP: seq<Byte> :=
    [0x00, 0x1b] + [0x31, 0x32, 0x33, 0x34, 0x35, 0x36, 0x37, 0x38, 0x39, 0x30, 0x2d, 0x3d, 0x08, 0x09]
    + [0x71, 0x77, 0x65, 0x72, 0x74, 0x79, 0x75, 0x69, 0x6f, 0x70, 0x5b, 0x5d, 0x0a, 0x00]
    + [0x61, 0x73, 0x64, 0x66, 0x67, 0x68, 0x6a, 0x6b, 0x6c, 0x3b, 0x27, 0x60, 0x00, 0x5c]
    + [0x7a, 0x78, 0x63, 0x76, 0x62, 0x6e, 0x6d, 0x2c, 0x2e, 0x2f, 0x00, 0x2a, 0x00, 0x20]

  /** Typed input never contains a carriage return, so 24 rows of it are always safe. */
  lemma TypedInputSafe(p: Cursor, keys: seq<nat>, cs: seq<Byte>)
    requires InWindow(p)
    requires |cs| == |keys| && forall i :: 0 <= i < |keys| ==> keys[i] < |KEYMAP| && cs[i] == KEYMAP[keys[i]]
    requires Depth(cs) <= (ROWS - 1) * COLS
    ensures Safe(p, Edited(cs).echo) && InWindow(MovedAll(p, Edited(cs).echo))
  {
    assert RETURN !in KEYMAP;
    EchoSafe(p, cs);
  }
}
