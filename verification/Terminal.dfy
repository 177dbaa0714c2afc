/** The console as a value, and the terminal of unbounded height that it is a window on. */
module Terminal {
  const WIDTH := 80
  const HEIGHT := 25
  const HISTORY := 10000

  type Cell = int
  type Row = seq<Cell>

  /** `hist` are the lines scrolled off, oldest first; `live` is the screen. */
  datatype Console = Console(hist: seq<Row>, live: seq<Row>, x: int, y: int, offset: int)

  /** `vga_entry`. */
  function Entry(c: int, color: int): Cell {
    c + 256 * color
  }

  function Blank(color: int): (r: Row)
    ensures |r| == WIDTH
  {
    seq(WIDTH, _ => Entry(32, color))
  }

  ghost predicate Rows(rows: seq<Row>) {
    forall i :: 0 <= i < |rows| ==> |rows[i]| == WIDTH
  }

  function Max(a: int, b: int): int {
    if a > b then a else b
  }

  ghost predicate ConsoleInv(s: Console) {
    && Rows(s.hist) && Rows(s.live) && |s.live| == HEIGHT && |s.hist| <= HISTORY
    && 0 <= s.x < WIDTH && 0 <= s.y < HEIGHT
    && 0 <= s.offset <= Max(0, |s.hist| - HEIGHT)
  }

  // ----- Output -----

  /** The newest 10000 lines. */
  function AddLine(hist: seq<Row>, row: Row): seq<Row> {
    if |hist| < HISTORY then hist + [row] else hist[1..] + [row]
  }

  function Scroll(s: Console, color: int): Console
    requires s.live != []
  {
    Console(AddLine(s.hist, s.live[0]), s.live[1..] + [Blank(color)], 0, HEIGHT - 1, 0)
  }

  function PutCell(rows: seq<Row>, y: int, x: int, v: Cell): seq<Row> {
    if 0 <= y < |rows| && 0 <= x < |rows[y]| then rows[y := rows[y][x := v]] else rows
  }

  /** The character itself: newline, return, backspace or a cell. */
  function Write(s: Console, c: int, color: int): (s1: Console)
    ensures |s1.live| == |s.live|
  {
    if c == 10 then s.(x := 0, y := s.y + 1)
    else if c == 13 then s.(x := 0)
    else if c == 8 then
      if s.x > 0 then s.(x := s.x - 1, live := PutCell(s.live, s.y, s.x - 1, Entry(32, color)))
      else if s.y > 0 then s.(y := s.y - 1, x := WIDTH - 1, live := PutCell(s.live, s.y - 1, WIDTH - 1, Entry(32, color)))
      else s
    else if s.x + 1 >= WIDTH then s.(live := PutCell(s.live, s.y, s.x, Entry(c, color)), x := 0, y := s.y + 1)
    else s.(live := PutCell(s.live, s.y, s.x, Entry(c, color)), x := s.x + 1)
  }

  function Char(s: Console, c: int, color: int): Console
    requires s.live != []
  {
    var s1 := Write(s, c, color);
    if s1.y >= HEIGHT then Scroll(s1, color) else s1
  }

  function Cleared(color: int): Console {
    Console([], seq(HEIGHT, _ => Blank(color)), 0, 0, 0)
  }

  // ----- The terminal of unbounded height -----

  /** All rows ever started; the cursor is relative to the last 25. */
  datatype Term = Term(rows: seq<Row>, x: int, y: int)

  function TermWrite(t: Term, c: int, color: int): Term {
    var top := |t.rows| - HEIGHT;
    if c == 10 then t.(x := 0, y := t.y + 1)
    else if c == 13 then t.(x := 0)
    else if c == 8 then
      if t.x > 0 then t.(x := t.x - 1, rows := PutCell(t.rows, top + t.y, t.x - 1, Entry(32, color)))
      else if t.y > 0 then t.(y := t.y - 1, x := WIDTH - 1, rows := PutCell(t.rows, top + t.y - 1, WIDTH - 1, Entry(32, color)))
      else t
    else if t.x + 1 >= WIDTH then t.(rows := PutCell(t.rows, top + t.y, t.x, Entry(c, color)), x := 0, y := t.y + 1)
    else t.(rows := PutCell(t.rows, top + t.y, t.x, Entry(c, color)), x := t.x + 1)
  }

  /** Past the last row a new one is started. */
  function TermChar(t: Term, c: int, color: int): Term {
    var t1 := TermWrite(t, c, color);
    if t1.y >= HEIGHT then Term(t1.rows + [Blank(color)], 0, HEIGHT - 1) else t1
  }

  /** What the ring and the screen can hold. */
  function Trim(t: Term): Term {
    if |t.rows| > HISTORY + HEIGHT then t.(rows := t.rows[|t.rows| - HISTORY - HEIGHT..]) else t
  }

  function AsTerm(s: Console): Term {
    Term(s.hist + s.live, s.x, s.y)
  }

  lemma CharKeeps(s: Console, c: int, color: int)
    requires ConsoleInv(s)
    ensures ConsoleInv(Char(s, c, color))
  {
  }

  lemma PutInLive(hist: seq<Row>, live: seq<Row>, y: int, x: int, v: Cell)
    requires 0 <= y < |live|
    ensures hist + PutCell(live, y, x, v) == PutCell(hist + live, |hist| + y, x, v)
  {
  }

  /** Scrolling the console is a new row on the terminal, and forgetting what no longer fits. */
  lemma ScrollRefines(s: Console, color: int)
    requires |s.live| == HEIGHT && |s.hist| <= HISTORY
    ensures var s1 := Scroll(s, color);
      s1.hist + s1.live == Trim(Term(s.hist + s.live + [Blank(color)], 0, 0)).rows
  {
    var s1 := Scroll(s, color);
    assert s.hist + s.live == s.hist + [s.live[0]] + s.live[1..];
  }

  lemma WriteRefines(s: Console, c: int, color: int)
    requires ConsoleInv(s)
    ensures AsTerm(Write(s, c, color)) == TermWrite(AsTerm(s), c, color)
  {
    hide PutCell, Rows;
    if c == 8 && s.x > 0 {
      PutInLive(s.hist, s.live, s.y, s.x - 1, Entry(32, color));
    } else if c == 8 && s.y > 0 {
      PutInLive(s.hist, s.live, s.y - 1, WIDTH - 1, Entry(32, color));
    } else {
      PutInLive(s.hist, s.live, s.y, s.x, Entry(c, color));
    }
  }

  /** One character on the console is that character on the terminal it shows. */
  lemma CharRefines(s: Console, c: int, color: int)
    requires ConsoleInv(s)
    ensures AsTerm(Char(s, c, color)) == Trim(TermChar(AsTerm(s), c, color))
  {
    hide TermWrite, Rows, Blank;
    WriteRefines(s, c, color);
    WriteHist(s, c, color);
    ScrollRefines(Write(s, c, color), color);
  }

  lemma WriteHist(s: Console, c: int, color: int)
    ensures Write(s, c, color).hist == s.hist
  {
  }

  lemma PutInTail(rows: seq<Row>, cut: nat, y: int, x: int, v: Cell)
    requires cut <= y < |rows|
    ensures PutCell(rows, y, x, v)[cut..] == PutCell(rows[cut..], y - cut, x, v)
    ensures |PutCell(rows, y, x, v)| == |rows|
  {
  }

  ghost predicate TermInv(t: Term) {
    |t.rows| >= HEIGHT && 0 <= t.x < WIDTH && 0 <= t.y < HEIGHT
  }

  lemma WriteInTail(t: Term, c: int, color: int)
    requires TermInv(t) && |t.rows| > HISTORY + HEIGHT
    ensures var cut, t1 := |t.rows| - HISTORY - HEIGHT, TermWrite(t, c, color);
      |t1.rows| == |t.rows| && t1.(rows := t1.rows[cut..]) == TermWrite(t.(rows := t.rows[cut..]), c, color)
  {
    hide PutCell;
    var cut, top := |t.rows| - HISTORY - HEIGHT, |t.rows| - HEIGHT;
    if c == 8 && t.x > 0 {
      PutInTail(t.rows, cut, top + t.y, t.x - 1, Entry(32, color));
    } else if c == 8 && t.y > 0 {
      PutInTail(t.rows, cut, top + t.y - 1, WIDTH - 1, Entry(32, color));
    } else {
      PutInTail(t.rows, cut, top + t.y, t.x, Entry(c, color));
    }
  }

  /** Rows that no longer fit have no influence on what comes. */
  lemma TrimForgets(t: Term, c: int, color: int)
    requires TermInv(t)
    ensures Trim(TermChar(t, c, color)) == Trim(TermChar(Trim(t), c, color))
  {
    hide TermWrite, Blank;
    if |t.rows| > HISTORY + HEIGHT {
      WriteInTail(t, c, color);
      AppendTrim(TermWrite(t, c, color).rows, color);
    }
  }

  lemma AppendTrim(rows: seq<Row>, color: int)
    requires |rows| > HISTORY + HEIGHT
    ensures var cut := |rows| - HISTORY - HEIGHT;
      (rows + [Blank(color)])[cut + 1..] == (rows[cut..] + [Blank(color)])[1..]
  {
  }

  lemma TermKeeps(t: Term, c: int, color: int)
    requires TermInv(t)
    ensures TermInv(TermChar(t, c, color))
  {
  }

  /** A character and the colour it is written in. */
  datatype Glyph = Glyph(c: int, color: int)

  function Print(s: Console, text: seq<Glyph>): Console
    requires |s.live| == HEIGHT
    decreases |text|
  {
    if text == [] then s
    else
      var s1 := Char(s, text[0].c, text[0].color);
      if |s1.live| == HEIGHT then Print(s1, text[1..]) else s1
  }

  function TermPrint(t: Term, text: seq<Glyph>): Term
    decreases |text|
  {
    if text == [] then t else TermPrint(TermChar(t, text[0].c, text[0].color), text[1..])
  }

  lemma {:induction false} TrimPrint(t: Term, text: seq<Glyph>)
    requires TermInv(t)
    ensures Trim(TermPrint(t, text)) == Trim(TermPrint(Trim(t), text))
    decreases |text|
  {
    hide TermChar;
    if text == [] {
      assert Trim(Trim(t)) == Trim(t);
    } else {
      var c, color := text[0].c, text[0].color;
      TrimForgets(t, c, color);
      TermKeeps(t, c, color);
      TermKeeps(Trim(t), c, color);
      TrimPrint(TermChar(t, c, color), text[1..]);
      TrimPrint(TermChar(Trim(t), c, color), text[1..]);
    }
  }

  /** Whatever is printed, ring and screen together are the end of the terminal's rows, and the cursor is the
      terminal's. */
  lemma {:induction false} PrintRefines(s: Console, text: seq<Glyph>)
    requires ConsoleInv(s)
    ensures ConsoleInv(Print(s, text)) && AsTerm(Print(s, text)) == Trim(TermPrint(AsTerm(s), text))
    decreases |text|
  {
    hide Char, TermChar;
    if text == [] {
      assert AsTerm(s) == Trim(AsTerm(s));
    } else {
      var c, color := text[0].c, text[0].color;
      CharKeeps(s, c, color);
      CharRefines(s, c, color);
      var s1 := Char(s, c, color);
      PrintRefines(s1, text[1..]);
      TermKeeps(AsTerm(s), c, color);
      TrimPrint(TermChar(AsTerm(s), c, color), text[1..]);
    }
  }

  lemma ClearedInv(color: int)
    ensures ConsoleInv(Cleared(color))
  {
  }

  // ----- Looking back -----

  /** The screen a redraw leaves, branch by branch. */
  function RedrawRow(hist: seq<Row>, offset: int, color: int, y: nat): Row {
    var n := |hist|;
    var start := if n > HEIGHT then Max(0, n - HEIGHT - offset) else 0;
    var lines := if n < HEIGHT then n else HEIGHT;
    if y < lines && 0 <= start + y < n then hist[start + y] else Blank(color)
  }

  function Redraw(s: Console, color: int): Console {
    s.(live := seq(HEIGHT, y requires 0 <= y < HEIGHT => RedrawRow(s.hist, s.offset, color, y)),
       x := 0, y := if s.offset == 0 then HEIGHT - 1 else 0)
  }

  function ScrollUp(s: Console, color: int): Console {
    if s.offset < Max(0, |s.hist| - HEIGHT) then Redraw(s.(offset := s.offset + 1), color) else s
  }

  function ScrollDown(s: Console, color: int): Console {
    if s.offset > 0 then Redraw(s.(offset := s.offset - 1), color) else s
  }

  function SetOffset(s: Console, offset: int, color: int): Console {
    var o := Max(0, offset);
    Redraw(s.(offset := if o > Max(0, |s.hist| - HEIGHT) then Max(0, |s.hist| - HEIGHT) else o), color)
  }

  /** A redraw shows exactly the 25 history lines that end `offset` lines before the newest, or all of them and blanks
      below; neither clamp nor overrun happens. */
  lemma RedrawShows(s: Console, color: int)
    requires ConsoleInv(s)
    ensures var r, n := Redraw(s, color), |s.hist|;
      && ConsoleInv(r) && r.hist == s.hist && r.offset == s.offset
      && (n >= HEIGHT ==> 0 <= n - HEIGHT - s.offset && r.live == s.hist[n - HEIGHT - s.offset..n - s.offset])
      && (n < HEIGHT ==> r.live == s.hist + seq(HEIGHT - n, _ => Blank(color)))
  {
  }

  lemma ScrollingKeeps(s: Console, offset: int, color: int)
    requires ConsoleInv(s)
    ensures ConsoleInv(ScrollUp(s, color)) && ConsoleInv(ScrollDown(s, color))
    ensures ConsoleInv(SetOffset(s, offset, color))
  {
    hide Redraw;
    RedrawShows(s.(offset := Max(0, |s.hist| - HEIGHT)), color);
    if s.offset < Max(0, |s.hist| - HEIGHT) { RedrawShows(s.(offset := s.offset + 1), color); }
    if s.offset > 0 { RedrawShows(s.(offset := s.offset - 1), color); }
    if offset <= Max(0, |s.hist| - HEIGHT) { RedrawShows(s.(offset := Max(0, offset)), color); }
  }

  function MaxOffset(s: Console): int {
    Max(0, |s.hist| - HEIGHT)
  }

  /** The offset that scrolling up and down again comes back to: one lower when there was no line left to go up. */
  function Back(s: Console): int {
    if s.offset < MaxOffset(s) then s.offset else s.offset - 1
  }

  lemma UpDownRedraws(s: Console, color: int)
    requires ConsoleInv(s)
    ensures ScrollDown(ScrollUp(s, color), color) == if MaxOffset(s) == 0 then s else Redraw(s.(offset := Back(s)), color)
  {
    hide RedrawRow;
  }

  /** The history lines a redraw at offset `o` shows. */
  function Page(s: Console, o: int): seq<Row>
    requires 0 <= o <= |s.hist| - HEIGHT
  {
    s.hist[|s.hist| - HEIGHT - o..|s.hist| - o]
  }

  /** Up and down again restores the screen exactly when there is nothing to scroll or the screen showed the history lines
      at that offset already. */
  lemma UpDownRestoresScreen(s: Console, color: int)
    requires ConsoleInv(s)
    ensures ScrollDown(ScrollUp(s, color), color).live == s.live <==>
      |s.hist| <= HEIGHT || s.live == Page(s, Back(s))
  {
    hide Redraw;
    UpDownRedraws(s, color);
    if |s.hist| > HEIGHT { RedrawShows(s.(offset := Back(s)), color); }
  }

  /** It restores the whole state, cursor included, exactly when there is nothing to scroll, or a line was left to go up, the
      screen showed those lines and the cursor stood where a redraw puts it. */
  lemma UpDownRestores(s: Console, color: int)
    requires ConsoleInv(s)
    ensures ScrollDown(ScrollUp(s, color), color) == s <==>
      || |s.hist| <= HEIGHT
      || (s.offset < MaxOffset(s) && s.live == Page(s, s.offset) && s.x == 0 && s.y == if s.offset == 0 then HEIGHT - 1 else 0)
  {
    hide RedrawRow;
    UpDownRedraws(s, color);
    if |s.hist| > HEIGHT { RedrawShows(s.(offset := Back(s)), color); }
  }

  // ----- A live screen that scrolling loses -----

  function Newlines(k: nat, color: int): seq<Glyph> {
    seq(k, _ => Glyph(10, color))
  }

  /** The console after `k` newlines. */
  function Fed(k: nat, color: int): Console {
    Console(seq(Max(0, k - HEIGHT + 1), _ => Blank(color)), seq(HEIGHT, _ => Blank(color)), 0,
            if k < HEIGHT then k else HEIGHT - 1, 0)
  }

  lemma {:induction false} PrintLast(s: Console, text: seq<Glyph>, g: Glyph)
    requires ConsoleInv(s)
    ensures ConsoleInv(Print(s, text)) && Print(s, text + [g]) == Char(Print(s, text), g.c, g.color)
    decreases |text|
  {
    hide Char;
    CharKeeps(s, g.c, g.color);
    if text == [] {
      assert [] + [g] == [g] && [g][1..] == [];
    } else {
      assert (text + [g])[1..] == text[1..] + [g];
      CharKeeps(s, text[0].c, text[0].color);
      PrintLast(Char(s, text[0].c, text[0].color), text[1..], g);
    }
  }

  lemma {:induction false} FedByNewlines(k: nat, color: int)
    requires k <= HISTORY
    ensures ConsoleInv(Fed(k, color)) && Print(Cleared(color), Newlines(k, color)) == Fed(k, color)
  {
    hide Print, Char;
    if k > 0 {
      FedByNewlines(k - 1, color);
      assert Newlines(k, color) == Newlines(k - 1, color) + [Glyph(10, color)];
      ClearedInv(color);
      PrintLast(Cleared(color), Newlines(k - 1, color), Glyph(10, color));
      OneNewline(k - 1, color);
    } else {
      assert Newlines(0, color) == [];
      assert Print(Cleared(color), []) == Cleared(color) by { PrintNothing(Cleared(color)); }
    }
  }

  lemma PrintNothing(s: Console)
    requires |s.live| == HEIGHT
    ensures Print(s, []) == s
  {
  }

  lemma OneNewline(k: nat, color: int)
    requires k < HISTORY
    ensures Char(Fed(k, color), 10, color) == Fed(k + 1, color)
  {
    var s, t := Fed(k, color), Fed(k + 1, color);
    if k >= HEIGHT - 1 {
      assert s.hist + [Blank(color)] == t.hist;
      assert s.live[1..] + [Blank(color)] == t.live;
    }
  }

  /** A screen that printing reaches and scrolling loses: 50 newlines and an "a". */
  lemma UpDownLoses(color: int)
    ensures var s := Print(Cleared(color), Newlines(50, color) + [Glyph(97, color)]);
      ConsoleInv(s) && ScrollDown(ScrollUp(s, color), color).live != s.live
  {
    hide Print, Redraw, ScrollUp, ScrollDown;
    ClearedInv(color);
    FedByNewlines(50, color);
    PrintLast(Cleared(color), Newlines(50, color), Glyph(97, color));
    var f := Fed(50, color);
    CharKeeps(f, 97, color);
    var s := Char(f, 97, color);
    UpDownRestoresScreen(s, color);
    assert s.live[24][0] == Entry(97, color) && Page(s, 0)[24] == Blank(color);
    assert Blank(color)[0] == Entry(32, color);
  }
}
