/** The text console of arch/x86/vga_console.c.

    The reference is a tape without end: a row-major grid of 80 columns, read as one line
    of cells, on which typing never scrolls.  The 25 visible rows are a window on it. */
module Vga {
  import opened Bytes

  const ROWS := 25
  const COLS := 80
  const NEWLINE: Byte := 10
  const BACKSPACE: Byte := 8
  const RETURN: Byte := 13

  /** The 16-bit cell that BUF_PUTC stores with attribute 7.  A char is signed, so from
      0x80 on its sign bits overwrite the attribute. */
  function CellOf(c: Byte): nat { if c < 0x80 then 0x700 + c else 0xFF00 + c }

  /** The cell holds the character in its low byte and, for ASCII, the attribute in its
      high byte; no two characters share a cell value. */
  lemma CellHolds(c: Byte, d: Byte)
    ensures CellOf(c) < 0x1_0000 && CellOf(c) % 256 == c
    ensures c < 0x80 ==> CellOf(c) / 256 == 7
    ensures c >= 0x80 ==> CellOf(c) / 256 == 0xFF
    ensures CellOf(c) == CellOf(d) ==> c == d
  {
  }

  const BLANK: nat := CellOf(0x20)

  // ---- the tape

  datatype Tape = Tape(cells: map<int, nat>, pos: int)

  function Read(t: Tape, i: int): nat { if i in t.cells then t.cells[i] else BLANK }

  function Typed(t: Tape, c: Byte): Tape {
    if c == NEWLINE then t.(pos := (t.pos / COLS + 1) * COLS)
    else if c == BACKSPACE then Tape(t.cells[t.pos - 1 := BLANK], t.pos - 1)
    else if c == RETURN then t
    else Tape(t.cells[t.pos := CellOf(c)], t.pos + 1)
  }

  /** The first row of the window, after the cursor has moved to `pos`. */
  function Follow(top: int, pos: int): int {
    if pos >= COLS * (top + ROWS) then top + 1 else top
  }

  /** Backspace in the first cell of the window is the one thing the console cannot do. */
  predicate AtOrigin(pos: int, top: int, c: Byte) { c == BACKSPACE && pos == COLS * top }

  datatype Cursor = Cursor(pos: int, top: int)

  predicate InWindow(p: Cursor) { COLS * p.top <= p.pos < COLS * (p.top + ROWS) }

  function Moved(p: Cursor, c: Byte): Cursor {
    var pos := Typed(Tape(map[], p.pos), c).pos;
    Cursor(pos, Follow(p.top, pos))
  }

  function MovedAll(p: Cursor, cs: seq<Byte>): Cursor {
    if |cs| == 0 then p else Moved(MovedAll(p, cs[..|cs| - 1]), cs[|cs| - 1])
  }

  /** No character of `cs` is a backspace at the window origin. */
  predicate Safe(p: Cursor, cs: seq<Byte>) {
    |cs| == 0 || (Safe(p, cs[..|cs| - 1])
                  && var q := MovedAll(p, cs[..|cs| - 1]); !AtOrigin(q.pos, q.top, cs[|cs| - 1]))
  }

  function TypedAll(t: Tape, cs: seq<Byte>): Tape {
    if |cs| == 0 then t else Typed(TypedAll(t, cs[..|cs| - 1]), cs[|cs| - 1])
  }

  // ---- what typing leaves on the tape

  /** ASCII text without control characters that the console interprets. */
  predicate Plain(cs: seq<Byte>) {
    forall i :: 0 <= i < |cs| ==> cs[i] < 0x80 && cs[i] != 8 && cs[i] != 10 && cs[i] != 13
  }

  /** Plain text appears cell by cell from the cursor on, in attribute 7, and nothing else
      changes. */
  lemma {:induction false} PlainAppears(t: Tape, cs: seq<Byte>, i: int)
    requires Plain(cs)
    ensures TypedAll(t, cs).pos == t.pos + |cs|
    ensures Read(TypedAll(t, cs), i) == if t.pos <= i < t.pos + |cs| then 0x700 + cs[i - t.pos] else Read(t, i)
  {
    if |cs| > 0 {
      PlainAppears(t, cs[..|cs| - 1], i);
    }
  }

  /** A newline leads to the start of the next row and a carriage return nowhere, and
      neither changes a cell. */
  lemma LineControls(t: Tape)
    ensures var u := TypedAll(t, [10]);
            u.cells == t.cells && u.pos % 80 == 0 && t.pos < u.pos <= t.pos + 80
    ensures TypedAll(t, [13]) == t
  {
    assert TypedAll(t, []) == t;
  }

  /** A backspace takes back a printed character and leaves a blank in attribute 7. */
  lemma PrintErase(t: Tape, c: Byte, i: int)
    requires Plain([c])
    ensures var u := TypedAll(t, [c, 8]);
            u.pos == t.pos && Read(u, i) == if i == t.pos then 0x720 else Read(t, i)
  {
    PlainAppears(t, [c], i);
    assert [c, 8][..1] == [c];
  }

  /** Where character `k` of `cs` is typed. */
  function PosAt(t: Tape, cs: seq<Byte>, k: nat): int
    requires k <= |cs|
  { TypedAll(t, cs[..k]).pos }

  lemma PosAtNext(t: Tape, cs: seq<Byte>, k: nat)
    requires k < |cs|
    ensures PosAt(t, cs, 0) == t.pos
    ensures var p, q := PosAt(t, cs, k), PosAt(t, cs, k + 1);
            match cs[k]
            case 8 => q == p - 1
            case 10 => q % 80 == 0 && p < q <= p + 80
            case 13 => q == p
            case _ => q == p + 1
  {
    assert cs[..k + 1][..k] == cs[..k];
  }

  /** Character `k` of `cs` is printed in cell `i`, or erases it. */
  predicate Puts(t: Tape, cs: seq<Byte>, k: nat, i: int)
    requires k < |cs|
  {
    match cs[k]
    case 8 => i == PosAt(t, cs, k) - 1
    case 10 => false
    case 13 => false
    case _ => i == PosAt(t, cs, k)
  }

  ghost predicate LastPut(t: Tape, cs: seq<Byte>, k: nat, i: int) {
    k < |cs| && Puts(t, cs, k, i) && forall m :: k < m < |cs| ==> !Puts(t, cs, m, i)
  }

  /** The cell that a printed character leaves, or a backspace. */
  function LeftBy(c: Byte): nat {
    if c == 8 then 0x720 else if c < 0x80 then 0x700 + c else 0xFF00 + c
  }

  /** `v` is what the last character of `cs` put in cell `i` left, or what was there. */
  ghost predicate LastLeft(t: Tape, cs: seq<Byte>, i: int, v: nat) {
    || ((forall k :: 0 <= k < |cs| ==> !Puts(t, cs, k, i)) && v == Read(t, i))
    || exists k: nat :: LastPut(t, cs, k, i) && v == LeftBy(cs[k])
  }

  lemma PutLeaves(t: Tape, cs: seq<Byte>, i: int)
    requires |cs| > 0
    ensures var last, u := |cs| - 1, TypedAll(t, cs[..|cs| - 1]);
            Read(TypedAll(t, cs), i) == if Puts(t, cs, last, i) then LeftBy(cs[last]) else Read(u, i)
  {
  }

  lemma PutsPrefix(t: Tape, cs: seq<Byte>, k: nat, i: int)
    requires k < |cs| - 1
    ensures Puts(t, cs[..|cs| - 1], k, i) == Puts(t, cs, k, i)
  {
    assert cs[..|cs| - 1][..k] == cs[..k];
  }

  lemma LastPutMore(t: Tape, cs: seq<Byte>, k: nat, i: int)
    requires |cs| > 0 && LastPut(t, cs[..|cs| - 1], k, i) && !Puts(t, cs, |cs| - 1, i)
    ensures LastPut(t, cs, k, i)
  {
    var rest := cs[..|cs| - 1];
    PutsPrefix(t, cs, k, i);
    forall m | k < m < |cs| ensures !Puts(t, cs, m, i) {
      if m < |rest| {
        PutsPrefix(t, cs, m, i);
        assert !Puts(t, rest, m, i);
      }
    }
  }

  lemma LastLeftMore(t: Tape, cs: seq<Byte>, i: int, v: nat)
    requires |cs| > 0 && LastLeft(t, cs[..|cs| - 1], i, v) && !Puts(t, cs, |cs| - 1, i)
    ensures LastLeft(t, cs, i, v)
  {
    var rest := cs[..|cs| - 1];
    if k: nat :| LastPut(t, rest, k, i) && v == LeftBy(rest[k]) {
      LastPutMore(t, cs, k, i);
    } else {
      forall k | 0 <= k < |cs| ensures !Puts(t, cs, k, i) {
        if k < |rest| {
          PutsPrefix(t, cs, k, i);
        }
      }
    }
  }

  /** After any sequence each cell holds what the last character put there left, and the
      cells that none was put in are unchanged. */
  lemma {:induction false} CellsAreLastPuts(t: Tape, cs: seq<Byte>, i: int)
    ensures LastLeft(t, cs, i, Read(TypedAll(t, cs), i))
  {
    if |cs| > 0 {
      PutLeaves(t, cs, i);
      if Puts(t, cs, |cs| - 1, i) {
        assert LastPut(t, cs, |cs| - 1, i);
      } else {
        CellsAreLastPuts(t, cs[..|cs| - 1], i);
        LastLeftMore(t, cs, i, Read(TypedAll(t, cs), i));
      }
    }
  }

  // ---- the window

  lemma MovedStays(p: Cursor, c: Byte)
    requires InWindow(p)
    ensures InWindow(Moved(p, c)) <==> !AtOrigin(p.pos, p.top, c)
    ensures p.top <= Moved(p, c).top
  {
  }

  /** A safe sequence keeps the cursor in the window, and the window never moves back up. */
  lemma {:induction false} SafeStays(p: Cursor, cs: seq<Byte>)
    requires InWindow(p) && Safe(p, cs)
    ensures InWindow(MovedAll(p, cs)) && p.top <= MovedAll(p, cs).top
  {
    if |cs| > 0 {
      SafeStays(p, cs[..|cs| - 1]);
      MovedStays(MovedAll(p, cs[..|cs| - 1]), cs[|cs| - 1]);
    }
  }

  /** The first unsafe character of a sequence takes the cursor out of the window: safety
      is also necessary. */
  lemma {:induction false} UnsafeLeaves(p: Cursor, cs: seq<Byte>)
    requires InWindow(p) && !Safe(p, cs)
    ensures exists i :: 0 < i <= |cs| && Safe(p, cs[..i - 1]) && !InWindow(MovedAll(p, cs[..i]))
  {
    var last := |cs| - 1;
    if Safe(p, cs[..last]) {
      SafeStays(p, cs[..last]);
      MovedStays(MovedAll(p, cs[..last]), cs[last]);
      assert cs[..last + 1] == cs;
    } else {
      UnsafeLeaves(p, cs[..last]);
      var i :| 0 < i <= last && Safe(p, cs[..last][..i - 1]) && !InWindow(MovedAll(p, cs[..last][..i]));
      assert cs[..last][..i - 1] == cs[..i - 1] && cs[..last][..i] == cs[..i];
    }
  }

  lemma RowOf(pos: int, row: int, col: int)
    requires pos == COLS * row + col && 0 <= col < COLS
    ensures pos / COLS == row
  {
  }

  // ---- the console

  class VgaConsole {
    const buffer: array<nat>
    var x: int
    var y: int
    ghost var tape: Tape
    ghost var top: int

    /** The 25 visible rows are the window of the tape that starts at row `top`; the rest
        of the buffer is blank; nothing has been typed below the window. */
    ghost predicate Shows()
      reads this`tape, this`top, buffer
    {
      && buffer.Length == 2 * (ROWS * COLS)
      && (forall i :: 0 <= i < ROWS * COLS ==> buffer[i] == Read(tape, COLS * top + i))
      && (forall i :: ROWS * COLS <= i < buffer.Length ==> buffer[i] == BLANK)
      && (forall i :: i in tape.cells ==> i < COLS * (top + ROWS))
    }

    ghost predicate Valid()
      reads this, buffer
    {
      && 0 <= x < COLS && 0 <= y < ROWS
      && tape.pos == COLS * (top + y) + x
      && Shows()
    }

    /** vga_console_init. */
    constructor ()
      ensures Valid() && fresh(buffer) && tape == Tape(map[], 0) && top == 0
    {
      buffer := new nat[2 * (ROWS * COLS)];
      x, y, tape, top := 0, 0, Tape(map[], 0), 0;
      new;
      Clear();
    }

    /** vga_console_clear: twice the visible cells, but not the cursor. */
    method Clear()
      requires buffer.Length == 2 * (ROWS * COLS)
      modifies this`tape, buffer
      ensures tape == Tape(map[], old(tape.pos)) && Shows()
    {
      for i := 0 to ROWS * COLS * 2
        invariant tape == old(tape) && forall j :: 0 <= j < i ==> buffer[j] == BLANK
      {
        buffer[i] := BLANK;
      }
      tape := Tape(map[], tape.pos);
    }

    /** BUF_PUTC at the cursor; after a backspace in column 0 the column is -1. */
    method BufPutc(c: Byte)
      requires Shows() && 0 <= COLS * y + x < ROWS * COLS
      modifies this`tape, buffer
      ensures Shows()
      ensures tape == old(tape).(cells := old(tape.cells)[COLS * (top + y) + x := CellOf(c)])
    {
      buffer[COLS * y + x] := CellOf(c);
      tape := tape.(cells := tape.cells[COLS * (top + y) + x := CellOf(c)]);
    }

    /** vga_console_scroll: the row copied in at the bottom is the hidden blank one. */
    method Scroll()
      requires Shows()
      modifies this`y, this`top, buffer
      ensures Shows() && y == old(y) - 1 && top == old(top) + 1
    {
      forall i | 0 <= i < ROWS * COLS {
        buffer[i] := buffer[i + COLS];
      }
      y := y - 1;
      top := top + 1;
    }

    /** The end of vga_console_putc: wraps the column, and scrolls if the cursor has left
        the last row. */
    method Settle()
      requires Shows() && -1 <= x <= COLS && 0 <= COLS * y + x <= ROWS * COLS
      requires tape.pos == COLS * (top + y) + x
      modifies this`x, this`y, this`top, buffer
      ensures Valid() && top == Follow(old(top), tape.pos)
    {
      if x >= COLS {
        x := 0;
        y := y + 1;
      }
      if x < 0 {
        y := y - 1;
        x := COLS - 1;
      }
      if y >= ROWS {
        Scroll();
      }
    }

    /** Printing a character, with the cursor moved but not yet wrapped. */
    method Print(c: Byte)
      requires Valid() && c != NEWLINE && c != BACKSPACE && c != RETURN
      modifies this`x, this`tape, buffer
      ensures Shows() && tape == Typed(old(tape), c) && x == old(x) + 1
    {
      BufPutc(c);
      x := x + 1;
      tape := tape.(pos := tape.pos + 1);
    }

    /** Backspace, likewise; in column 0 the cell is the last of the row above. */
    method Erase()
      requires Valid() && !AtOrigin(tape.pos, top, BACKSPACE)
      modifies this`x, this`tape, buffer
      ensures Shows() && tape == Typed(old(tape), BACKSPACE) && x == old(x) - 1
    {
      x := x - 1;
      BufPutc(0x20);
      tape := tape.(pos := tape.pos - 1);
    }

    /** The first part of vga_console_putc. */
    method Place(c: Byte)
      requires Valid() && !AtOrigin(tape.pos, top, c) && c != RETURN
      modifies this`x, this`y, this`tape, buffer
      ensures Shows() && tape == Typed(old(tape), c) && tape.pos == COLS * (top + y) + x
      ensures -1 <= x <= COLS && 0 <= COLS * y + x <= ROWS * COLS
    {
      RowOf(tape.pos, top + y, x);
      var special := false;
      if c == NEWLINE {
        x := 0;
        y := y + 1;
        tape := tape.(pos := COLS * (top + y));
        special := true;
      } else if c == BACKSPACE {
        Erase();
        special := true;
      }
      if !special {
        Print(c);
      }
    }

    /** vga_console_putc. */
    method Putc(c: Byte)
      requires Valid() && !AtOrigin(tape.pos, top, c)
      modifies this, buffer
      ensures Valid() && tape == Typed(old(tape), c) && top == Follow(old(top), tape.pos)
    {
      if c == RETURN {
        return;
      }
      Place(c);
      Settle();
    }

    /** console_write. */
    method Write(cs: seq<Byte>)
      requires Valid() && Safe(Cursor(tape.pos, top), cs)
      modifies this, buffer
      ensures Valid() && tape == TypedAll(old(tape), cs)
      ensures top == MovedAll(Cursor(old(tape.pos), old(top)), cs).top >= old(top)
    {
      ghost var p := Cursor(tape.pos, top);
      for i := 0 to |cs|
        invariant Valid() && tape == TypedAll(old(tape), cs[..i])
        invariant Cursor(tape.pos, top) == MovedAll(p, cs[..i])
      {
        SafePrefix(p, cs, i + 1);
        assert cs[..i + 1][..i] == cs[..i];
        Putc(cs[i]);
      }
      assert cs[..|cs|] == cs;
      SafeStays(p, cs);
    }
  }

  lemma {:induction false} SafePrefix(p: Cursor, cs: seq<Byte>, i: nat)
    requires Safe(p, cs) && i <= |cs|
    ensures Safe(p, cs[..i])
  {
    if i < |cs| {
      SafePrefix(p, cs[..|cs| - 1], i);
      assert cs[..|cs| - 1][..i] == cs[..i];
    } else {
      assert cs[..i] == cs;
    }
  }
}
