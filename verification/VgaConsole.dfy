/** The legacy text console: an 80 by 25 array written and scrolled in place, against a terminal whose rows
    are never lost. */
module VgaConsole {
  const WIDTH: nat := 80
  const HEIGHT: nat := 25
  const BLANK: nat := 0x0F20

  /** A character in the console's colours; only its low byte is kept. */
  function Glyph(c: nat): nat { 0x0F00 + c % 0x100 }

  const NEWLINE := 10
  const RETURN := 13

  // ---------------------------------------------------------------- the unbounded terminal

  /** Every row written so far, the last one being written at column `x`. */
  datatype Terminal = Terminal(rows: seq<seq<nat>>, x: nat)

  ghost predicate FullRows(t: Terminal) {
    t.rows != [] && forall r :: 0 <= r < |t.rows| ==> |t.rows[r]| == WIDTH
  }

  ghost predicate Proper(t: Terminal) {
    FullRows(t) && t.x < WIDTH
  }

  ghost function BlankRow(): (row: seq<nat>)
    ensures |row| == WIDTH && forall k :: 0 <= k < WIDTH ==> row[k] == BLANK
  {
    seq(WIDTH, _ => BLANK)
  }

  ghost function Start(): (t: Terminal)
    ensures Proper(t)
  {
    Terminal([BlankRow()], 0)
  }

  ghost function NextRow(t: Terminal): Terminal {
    Terminal(t.rows + [BlankRow()], 0)
  }

  ghost function Put(t: Terminal, c: nat): (t': Terminal)
    requires Proper(t)
    ensures Proper(t')
  {
    if c == NEWLINE then NextRow(t)
    else if c == RETURN then t.(x := 0)
    else
      var written := Write(t, c);
      if written.x == WIDTH then NextRow(written) else written
  }

  ghost function Write(t: Terminal, c: nat): (t': Terminal)
    requires Proper(t)
    ensures FullRows(t')
  {
    var last := |t.rows| - 1;
    var row: seq<nat> := t.rows[last][t.x := Glyph(c)];
    Terminal(t.rows[last := row], t.x + 1)
  }

  /** The terminal after the first `n` characters. */
  ghost function Typed(s: seq<nat>, n: nat): (t: Terminal)
    requires n <= |s|
    ensures Proper(t)
  {
    if n == 0 then Start() else Put(Typed(s, n - 1), s[n - 1])
  }

  ghost function Flat(rows: seq<seq<nat>>): seq<nat> {
    if rows == [] then [] else Flat(rows[..|rows| - 1]) + rows[|rows| - 1]
  }

  /** Everything before the cursor, row after row. */
  ghost function Text(t: Terminal): seq<nat>
    requires Proper(t)
  {
    Flat(t.rows[..|t.rows| - 1]) + t.rows[|t.rows| - 1][..t.x]
  }

  ghost function Glyphs(s: seq<nat>, n: nat): seq<nat>
    requires n <= |s|
  {
    if n == 0 then [] else Glyphs(s, n - 1) + [Glyph(s[n - 1])]
  }

  lemma PutText(t: Terminal, c: nat)
    requires Proper(t) && c != NEWLINE && c != RETURN
    ensures Text(Put(t, c)) == Text(t) + [Glyph(c)]
  {
    var last, w := |t.rows| - 1, Write(t, c);
    assert w.rows[..last] == t.rows[..last];
    assert w.rows[last][..t.x + 1] == t.rows[last][..t.x] + [Glyph(c)];
    if w.x == WIDTH {
      assert NextRow(w).rows[..last + 1] == w.rows;
      assert w.rows[last][..WIDTH] == w.rows[last];
    }
  }

  /** Text without control characters is found, read along the rows up to the cursor, exactly as typed. */
  lemma {:induction false} TextWraps(s: seq<nat>, n: nat)
    requires n <= |s| && NEWLINE !in s && RETURN !in s
    ensures Text(Typed(s, n)) == Glyphs(s, n)
  {
    if n > 0 {
      TextWraps(s, n - 1);
      assert s[n - 1] in s;
      PutText(Typed(s, n - 1), s[n - 1]);
    }
  }

  // ---------------------------------------------------------------- lines

  /** The terminal after more characters. */
  ghost function PutAll(t: Terminal, s: seq<nat>): (t': Terminal)
    requires Proper(t)
    ensures Proper(t')
    decreases |s|
  {
    if s == [] then t else Put(PutAll(t, s[..|s| - 1]), s[|s| - 1])
  }

  lemma {:induction false} TypedThen(a: seq<nat>, b: seq<nat>)
    ensures Typed(a + b, |a| + |b|) == PutAll(Typed(a, |a|), b)
    decreases |b|
  {
    hide Put;
    if b == [] {
      assert a + b == a;
    } else {
      var n := |b| - 1;
      assert a + b == a + b[..n] + [b[n]];
      TypedThen(a, b[..n]);
      TypedPrefix(a + b[..n], [b[n]], |a| + n);
    }
  }

  lemma {:induction false} TypedPrefix(a: seq<nat>, b: seq<nat>, n: nat)
    requires n <= |a|
    ensures Typed(a + b, n) == Typed(a, n)
  {
    hide Put;
    if n > 0 {
      TypedPrefix(a, b, n - 1);
    }
  }

  /** A text without line feeds and carriage returns, and with nothing to wrap. */
  predicate Plain(s: seq<nat>) { 10 !in s && 13 !in s && |s| < 80 }

  /** A row with the text written over it from a column on, white on black. */
  ghost function Over(row: seq<nat>, x: nat, s: seq<nat>): (r: seq<nat>)
    ensures |r| == |row|
  {
    seq(|row|, k requires 0 <= k < |row| => if x <= k < x + |s| then 0x0F00 + s[k - x] % 0x100 else row[k])
  }

  /** Plain text that fits stands in the row from the cursor on, and every other row is as it was. */
  lemma {:induction false} PlainStands(t: Terminal, s: seq<nat>)
    requires Proper(t) && Plain(s) && t.x + |s| < 80
    ensures var last := |t.rows| - 1;
            PutAll(t, s) == Terminal(t.rows[last := Over(t.rows[last], t.x, s)], t.x + |s|)
    decreases |s|
  {
    var last := |t.rows| - 1;
    if s == [] {
      assert Over(t.rows[last], t.x, s) == t.rows[last];
    } else {
      var n := |s| - 1;
      assert s[n] in s;
      PlainStands(t, s[..n]);
      assert Over(t.rows[last], t.x, s[..n])[t.x + n := 0x0F00 + s[n] % 0x100] == Over(t.rows[last], t.x, s);
    }
  }

  /** A line feed behind such a text begins an empty row, and a carriage return leads back to the row's beginning. */
  lemma PlainEnded(t: Terminal, s: seq<nat>)
    requires Proper(t) && Plain(s) && t.x + |s| < 80
    ensures var last := |t.rows| - 1;
            var rows := t.rows[last := Over(t.rows[last], t.x, s)];
            PutAll(t, s + [10]) == Terminal(rows + [Empty()], 0) && PutAll(t, s + [13]) == Terminal(rows, 0)
  {
    PlainStands(t, s);
    hide Over;
    assert (s + [10])[..|s|] == s && (s + [13])[..|s|] == s;
    assert BlankRow() == Empty();
  }

  /** An 80-column row of blanks, white on black. */
  ghost function Empty(): seq<nat> { seq(80, _ => 0x0F20) }

  /** Lines, each ended by a line feed. */
  ghost function Joined(lines: seq<seq<nat>>): seq<nat> {
    if lines == [] then [] else Joined(lines[..|lines| - 1]) + (lines[|lines| - 1] + [10])
  }

  /** Plain lines stand one in each row, and the cursor in an empty row below them. */
  lemma {:induction false} LinesStand(lines: seq<seq<nat>>)
    requires forall i :: 0 <= i < |lines| ==> Plain(lines[i])
    ensures Typed(Joined(lines), |Joined(lines)|) == Terminal(Rows(lines) + [Empty()], 0)
  {
    if lines == [] {
      assert Start() == Terminal([Empty()], 0);
    } else {
      hide Put, PutAll, Over, Typed, Proper;
      var n := |lines| - 1;
      var line := lines[n];
      LinesStand(lines[..n]);
      var before := Typed(Joined(lines[..n]), |Joined(lines[..n])|);
      TypedThen(Joined(lines[..n]), line + [10]);
      PlainEnded(before, line);
      assert before.rows[n := Over(Empty(), 0, line)] == Rows(lines[..n]) + [Over(Empty(), 0, line)] == Rows(lines);
    }
  }

  /** Lines one in each row, from its beginning on. */
  ghost function Rows(lines: seq<seq<nat>>): seq<seq<nat>> {
    seq(|lines|, i requires 0 <= i < |lines| => Over(Empty(), 0, lines[i]))
  }

  /** What follows a carriage return is written over the row from its beginning. */
  lemma ReturnOverwrites(t: Terminal, first: seq<nat>, second: seq<nat>)
    requires Proper(t) && t.x == 0 && Plain(first) && Plain(second)
    ensures var last, t' := |t.rows| - 1, PutAll(PutAll(t, first + [13]), second);
            && t'.x == |second| && |t'.rows| == |t.rows| && t'.rows[..last] == t.rows[..last]
            && t'.rows[last] == Over(Over(t.rows[last], 0, first), 0, second)
  {
    assert |first| < 80 && |second| < 80 && |t.rows| > 0;
    hide *;
    PlainEnded(t, first);
    PlainStands(PutAll(t, first + [13]), second);
  }

  // ---------------------------------------------------------------- the window on it

  /** The terminal row shown in the screen row `r`: the last 25 rows, or all with blank rows below. */
  ghost function Shown(t: Terminal, r: nat): seq<nat> {
    var top := if |t.rows| <= HEIGHT then 0 else |t.rows| - HEIGHT;
    if top + r < |t.rows| then t.rows[top + r] else BlankRow()
  }

  ghost function Row(b: seq<nat>, r: nat): seq<nat>
    requires |b| == WIDTH * HEIGHT && r < HEIGHT
  {
    b[r * WIDTH..(r + 1) * WIDTH]
  }

  ghost predicate Shows(b: seq<nat>, t: Terminal) {
    |b| == WIDTH * HEIGHT && FullRows(t) && forall r :: 0 <= r < HEIGHT ==> Row(b, r) == Shown(t, r)
  }

  /** The screen row the terminal is writing in. */
  ghost function Line(t: Terminal): nat
    requires FullRows(t)
  {
    if |t.rows| <= HEIGHT then |t.rows| - 1 else HEIGHT - 1
  }

  ghost function Scrolled(b: seq<nat>): (r: seq<nat>)
    requires |b| == WIDTH * HEIGHT
    ensures |r| == |b|
  {
    b[WIDTH..] + BlankRow()
  }

  lemma ScrolledRow(b: seq<nat>, r: nat)
    requires |b| == WIDTH * HEIGHT && r < HEIGHT
    ensures Row(Scrolled(b), r) == if r + 1 < HEIGHT then Row(b, r + 1) else BlankRow()
  {
  }

  /** A new row shows as nothing but the cursor while the screen has room, and as a scroll after that. */
  lemma NextRowShows(b: seq<nat>, t: Terminal)
    requires Shows(b, t)
    ensures Shows(if Line(t) + 1 < HEIGHT then b else Scrolled(b), NextRow(t))
  {
    hide Row, Scrolled, BlankRow;
    forall r | 0 <= r < HEIGHT
      ensures Row(if Line(t) + 1 < HEIGHT then b else Scrolled(b), r) == Shown(NextRow(t), r)
    {
      ScrolledRow(b, r);
      assert r + 1 < HEIGHT ==> Row(b, r + 1) == Shown(t, r + 1);
    }
  }

  lemma WrittenRow(b: seq<nat>, y: nat, x: nat, v: nat, r: nat)
    requires |b| == WIDTH * HEIGHT && r < HEIGHT && y < HEIGHT && x < WIDTH
    ensures Row(b[y * WIDTH + x := v], r) == if r == y then Row(b, r)[x := v] else Row(b, r)
  {
    if r < y {
      assert (r + 1) * WIDTH <= y * WIDTH;
    } else if r > y {
      assert (y + 1) * WIDTH <= r * WIDTH;
    }
  }

  lemma WriteShows(b: seq<nat>, t: Terminal, c: nat)
    requires Shows(b, t) && Proper(t)
    ensures Shows(b[Line(t) * WIDTH + t.x := Glyph(c)], Write(t, c))
  {
    hide Row, Glyph, BlankRow;
    forall r | 0 <= r < HEIGHT
      ensures Row(b[Line(t) * WIDTH + t.x := Glyph(c)], r) == Shown(Write(t, c), r)
    {
      WrittenRow(b, Line(t), t.x, Glyph(c), r);
    }
  }

  lemma BlankShows(b: seq<nat>)
    requires |b| == WIDTH * HEIGHT && forall i :: 0 <= i < |b| ==> b[i] == BLANK
    ensures Shows(b, Start()) && Proper(Start()) && Start().x == 0 && Line(Start()) == 0
  {
  }

  lemma CursorFits(t: Terminal)
    requires Proper(t)
    ensures t.x < WIDTH && Line(t) < HEIGHT && Line(t) * WIDTH + t.x < WIDTH * HEIGHT
  {
  }

  /** The screen with the character written, if it is one that shows. */
  ghost function Written(b: seq<nat>, t: Terminal, c: nat): seq<nat>
    requires |b| == WIDTH * HEIGHT && Proper(t)
  {
    if c == NEWLINE || c == RETURN then b else b[Line(t) * WIDTH + t.x := Glyph(c)]
  }

  /** The cursor's column and row behind the character, before the screen scrolls. */
  ghost function Behind(t: Terminal, c: nat): (nat, nat)
    requires Proper(t)
  {
    if c == NEWLINE then (0, Line(t) + 1)
    else if c == RETURN then (0, Line(t))
    else if t.x + 1 >= WIDTH then (0, Line(t) + 1)
    else (t.x + 1, Line(t))
  }

  /** A character written, wrapped and scrolled shows what the terminal has. */
  lemma PutShows(b: seq<nat>, t: Terminal, c: nat)
    requires Shows(b, t) && Proper(t)
    ensures |Written(b, t, c)| == WIDTH * HEIGHT
    ensures var (x, y) := Behind(t, c);
            && Shows(if y < HEIGHT then Written(b, t, c) else Scrolled(Written(b, t, c)), Put(t, c))
            && Put(t, c).x == x && Line(Put(t, c)) == if y < HEIGHT then y else HEIGHT - 1
  {
    NextRowShows(b, t);
    CursorFits(t);
    if c != NEWLINE && c != RETURN {
      WriteShows(b, t, c);
      NextRowShows(Written(b, t, c), Write(t, c));
    }
    hide Shows, Scrolled;
  }

  class Console {
    const buffer: array<nat>
    var cursorX: nat
    var cursorY: nat

    constructor ()
      ensures buffer.Length == WIDTH * HEIGHT && fresh(buffer)
    {
      buffer := new nat[WIDTH * HEIGHT];
      cursorX, cursorY := 0, 0;
    }

    /** The array is the window on `t`, and the cursor stands where `t` writes. */
    ghost predicate Displays(t: Terminal)
      reads this, buffer
    {
      Proper(t) && Shows(buffer[..], t) && cursorX == t.x && cursorY == Line(t)
    }

    method ClearScreen()
      requires buffer.Length == WIDTH * HEIGHT
      modifies this, buffer
      ensures Displays(Start())
    {
      for index := 0 to WIDTH * HEIGHT
        invariant forall i :: 0 <= i < index ==> buffer[i] == BLANK
      {
        buffer[index] := BLANK;
      }
      cursorX, cursorY := 0, 0;
      BlankShows(buffer[..]);
      hide Shows, Start;
    }

    /** The in-place scroll is an exact shift by one row, with a blank last row. */
    method ScrollScreen()
      requires buffer.Length == WIDTH * HEIGHT
      modifies buffer
      ensures buffer[..] == Scrolled(old(buffer[..]))
    {
      for index := 0 to (HEIGHT - 1) * WIDTH
        invariant forall i :: 0 <= i < index ==> buffer[i] == old(buffer[i + WIDTH])
        invariant forall i :: index <= i < WIDTH * HEIGHT ==> buffer[i] == old(buffer[i])
      {
        buffer[index] := buffer[index + WIDTH];
      }
      for index := (HEIGHT - 1) * WIDTH to HEIGHT * WIDTH
        invariant forall i :: 0 <= i < (HEIGHT - 1) * WIDTH ==> buffer[i] == old(buffer[i + WIDTH])
        invariant forall i :: (HEIGHT - 1) * WIDTH <= i < index ==> buffer[i] == BLANK
      {
        buffer[index] := BLANK;
      }
    }

    method PutChar(c: nat, ghost t: Terminal)
      requires Displays(t)
      modifies this, buffer
      ensures Displays(Put(t, c))
    {
      ghost var was := buffer[..];
      PutShows(was, t, c);
      CursorFits(t);
      hide Shows, Put, Line, Scrolled, Proper, FullRows;
      if c == NEWLINE {
        cursorX := 0;
        cursorY := cursorY + 1;
      } else if c == RETURN {
        cursorX := 0;
      } else {
        buffer[cursorY * WIDTH + cursorX] := Glyph(c);
        cursorX := cursorX + 1;
      }
      assert buffer[..] == Written(was, t, c);
      if cursorX >= WIDTH {
        cursorX := 0;
        cursorY := cursorY + 1;
      }
      if cursorY >= HEIGHT {
        ScrollScreen();
        cursorY := HEIGHT - 1;
      }
    }

    /** ClearScreen and then any text: the screen is the window on the unbounded terminal. */
    method Display(s: seq<nat>)
      requires buffer.Length == WIDTH * HEIGHT
      modifies this, buffer
      ensures Displays(Typed(s, |s|))
      ensures buffer.Length == 2000
      ensures var rows := Typed(s, |s|).rows;
              forall r :: 0 <= r < 25 && r < |rows| ==>
                buffer[r * 80..r * 80 + 80] == rows[if |rows| <= 25 then r else |rows| - 25 + r]
    {
      ClearScreen();
      for i := 0 to |s|
        invariant Displays(Typed(s, i))
      {
        PutChar(s[i], Typed(s, i));
      }
      var rows := Typed(s, |s|).rows;
      forall r | 0 <= r < 25 && r < |rows|
        ensures buffer[r * 80..r * 80 + 80] == rows[if |rows| <= 25 then r else |rows| - 25 + r]
      {
        assert Row(buffer[..], r) == Shown(Typed(s, |s|), r);
      }
    }
  }
}
