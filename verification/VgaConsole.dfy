/** The VGA console in memory: a flat 25 x 80 screen and a flat ring of 10000 history lines. */
module VgaConsole {
  import opened Terminal

  const CELLS := 2000
  const RING := 800000

  // ----- Rows of a flat buffer -----

  /** Line `y` of a flat buffer. */
  ghost function Line(a: seq<Cell>, y: nat): (r: Row)
    requires y * WIDTH + WIDTH <= |a|
    ensures |r| == WIDTH
  {
    a[y * WIDTH..y * WIDTH + WIDTH]
  }

  ghost function ScreenRows(a: seq<Cell>): (rows: seq<Row>)
    requires |a| == CELLS
    ensures |rows| == HEIGHT && Rows(rows)
  {
    seq(HEIGHT, y requires 0 <= y < HEIGHT => Line(a, y))
  }

  function LineIndex(start: nat, i: nat): (k: nat)
    ensures k < HISTORY
  {
    (start + i) % HISTORY
  }

  ghost function RingRows(h: seq<Cell>, start: nat, count: nat): (rows: seq<Row>)
    requires |h| == RING
    ensures |rows| == count && Rows(rows)
  {
    seq(count, i requires 0 <= i < count => Line(h, LineIndex(start, i)))
  }

  /** Where a cell of the screen, and of the history, is kept. */
  lemma CellPlace(a: seq<Cell>, y: nat, x: nat)
    requires |a| == CELLS && y < 25 && x < 80
    ensures |a| == 2000 && ScreenRows(a)[y][x] == a[80 * y + x]
  {
  }

  lemma RingPlace(h: seq<Cell>, start: nat, count: nat, i: nat, x: nat)
    requires |h| == RING && i < count && x < 80
    ensures |h| == 800000 && RingRows(h, start, count)[i][x] == h[(start + i) % 10000 * 80 + x]
  {
  }

  lemma PutRows(a: seq<Cell>, y: nat, x: nat, v: Cell)
    requires |a| == CELLS && y < HEIGHT && x < WIDTH
    ensures y * WIDTH + x < CELLS
    ensures ScreenRows(a[y * WIDTH + x := v]) == PutCell(ScreenRows(a), y, x, v)
  {
    var b := a[y * WIDTH + x := v];
    forall k | 0 <= k < HEIGHT
      ensures Line(b, k) == if k == y then Line(a, k)[x := v] else Line(a, k)
    {
      LineUpdate(a, k, y, x, v);
    }
  }

  lemma LineUpdate(a: seq<Cell>, k: nat, y: nat, x: nat, v: Cell)
    requires k * WIDTH + WIDTH <= |a| && y * WIDTH + x < |a| && x < WIDTH
    ensures Line(a[y * WIDTH + x := v], k) == if k == y then Line(a, k)[x := v] else Line(a, k)
  {
  }

  /** A buffer moved up by one line, with a blank line below. */
  lemma ShiftRows(a: seq<Cell>, b: seq<Cell>, color: int)
    requires |a| == |b| == CELLS
    requires forall i :: 0 <= i < CELLS - WIDTH ==> b[i] == a[i + WIDTH]
    requires forall i :: CELLS - WIDTH <= i < CELLS ==> b[i] == Entry(32, color)
    ensures ScreenRows(b) == ScreenRows(a)[1..] + [Blank(color)]
  {
    forall k | 0 <= k < HEIGHT
      ensures ScreenRows(b)[k] == (ScreenRows(a)[1..] + [Blank(color)])[k]
    {
      if k < HEIGHT - 1 {
        assert Line(b, k) == Line(a, k + 1);
      } else {
        BlankLine(b, k, color);
      }
    }
  }

  lemma BlankLine(a: seq<Cell>, y: nat, color: int)
    requires y * WIDTH + WIDTH <= |a|
    requires forall i :: y * WIDTH <= i < y * WIDTH + WIDTH ==> a[i] == Entry(32, color)
    ensures Line(a, y) == Blank(color)
  {
    forall x | 0 <= x < WIDTH
      ensures Line(a, y)[x] == Blank(color)[x]
    {
      var i := y * WIDTH + x;
      assert a[i] == Entry(32, color);
    }
  }

  lemma BlankRows(a: seq<Cell>, color: int)
    requires |a| == CELLS && forall i :: 0 <= i < CELLS ==> a[i] == Entry(32, color)
    ensures ScreenRows(a) == Cleared(color).live
  {
    forall k | 0 <= k < HEIGHT
      ensures Line(a, k) == Blank(color)
    {
      BlankLine(a, k, color);
    }
  }

  /** Only line `k` has changed, to `row`. */
  ghost predicate LineWritten(h: seq<Cell>, g: seq<Cell>, k: nat, row: Row)
    requires |h| == |g| == RING && k < HISTORY && |row| == WIDTH
  {
    && (forall x :: 0 <= x < WIDTH ==> g[k * WIDTH + x] == row[x])
    && (forall i :: 0 <= i < RING && !(k * WIDTH <= i < k * WIDTH + WIDTH) ==> g[i] == h[i])
  }

  lemma WrittenLine(h: seq<Cell>, g: seq<Cell>, k: nat, row: Row, j: nat)
    requires |h| == |g| == RING && k < HISTORY && |row| == WIDTH && j < HISTORY && LineWritten(h, g, k, row)
    ensures Line(g, j) == if j == k then row else Line(h, j)
  {
    if j == k {
      assert forall x :: 0 <= x < WIDTH ==> Line(g, j)[x] == g[k * WIDTH + x];
    } else {
      forall x | 0 <= x < WIDTH
        ensures Line(g, j)[x] == Line(h, j)[x]
      {
        var i := j * WIDTH + x;
        assert !(k * WIDTH <= i < k * WIDTH + WIDTH);
      }
    }
  }

  /** A line added while there is room, and a line added over the oldest. */
  lemma RingAdds(h: seq<Cell>, g: seq<Cell>, start: nat, count: nat, row: Row)
    requires |h| == |g| == RING && |row| == WIDTH && start < HISTORY
    requires count <= HISTORY && (count < HISTORY ==> start == 0)
    requires LineWritten(h, g, if count < HISTORY then count else start, row)
    ensures count < HISTORY ==> RingRows(g, start, count + 1) == AddLine(RingRows(h, start, count), row)
    ensures count == HISTORY ==> RingRows(g, (start + 1) % HISTORY, count) == AddLine(RingRows(h, start, count), row)
  {
    var k := if count < HISTORY then count else start;
    var start1 := if count < HISTORY then start else (start + 1) % HISTORY;
    var count1 := if count < HISTORY then count + 1 else count;
    var before, after := AddLine(RingRows(h, start, count), row), RingRows(g, start1, count1);
    forall i | 0 <= i < count1
      ensures after[i] == before[i]
    {
      WrittenLine(h, g, k, row, LineIndex(start1, i));
      NextLine(start, count, i);
    }
  }

  lemma NextLine(start: nat, count: nat, i: nat)
    requires start < HISTORY && count <= HISTORY && (count < HISTORY ==> start == 0)
    ensures count < HISTORY && i <= count ==> LineIndex(start, i) == i
    ensures count == HISTORY && i < HISTORY ==>
      var j := LineIndex((start + 1) % HISTORY, i);
      if i == HISTORY - 1 then j == start else j == LineIndex(start, i + 1) && j != start
  {
  }

  // ----- The console -----

  class Vga {
    const buffer: array<Cell>
    const history: array<Cell>
    var color: int
    var cursorx: int
    var cursory: int
    var scrollOffset: int
    var historyStart: nat
    var historyCount: nat

    ghost predicate Shaped()
      reads this
    {
      && buffer.Length == CELLS && history.Length == RING && buffer != history
      && historyStart < HISTORY && historyCount <= HISTORY
      && (historyCount < HISTORY ==> historyStart == 0)
    }

    ghost function State(): (s: Console)
      requires Shaped()
      reads this, buffer, history
      ensures |s.live| == HEIGHT
    {
      Console(RingRows(history[..], historyStart, historyCount), ScreenRows(buffer[..]), cursorx, cursory, scrollOffset)
    }

    ghost predicate Valid()
      reads this, buffer, history
    {
      Shaped() && ConsoleInv(State())
    }

    constructor (color: int)
      ensures Valid() && State() == Cleared(color) && this.color == color
    {
      buffer := new Cell[CELLS](_ => Entry(32, color));
      history := new Cell[RING](_ => 0);
      this.color := color;
      cursorx, cursory, scrollOffset, historyStart, historyCount := 0, 0, 0, 0, 0;
      new;
      BlankRows(buffer[..], color);
    }

    /** `vga_clear`. */
    method Clear()
      requires Shaped()
      modifies `cursorx, `cursory, `scrollOffset, `historyStart, `historyCount, buffer
      ensures Valid() && State() == Cleared(color)
    {
      for y := 0 to HEIGHT
        invariant forall i :: 0 <= i < y * WIDTH ==> buffer[i] == Entry(32, color)
      {
        FillBlank(y);
      }
      cursorx, cursory := 0, 0;
      scrollOffset := 0;
      historyStart := 0;
      historyCount := 0;
      BlankRows(buffer[..], color);
    }

    /** One line of blanks. */
    method FillBlank(y: nat)
      requires buffer.Length == CELLS && y < HEIGHT
      modifies buffer
      ensures forall i :: 0 <= i < CELLS ==>
        buffer[i] == if y * WIDTH <= i < y * WIDTH + WIDTH then Entry(32, color) else old(buffer[i])
    {
      for x := 0 to WIDTH
        invariant forall i :: 0 <= i < CELLS ==>
          buffer[i] == if y * WIDTH <= i < y * WIDTH + x then Entry(32, color) else old(buffer[i])
      {
        buffer[y * WIDTH + x] := Entry(32, color);
      }
    }

    /** `vga_copy_line`, from a screen line to a ring line. */
    method CopyLine(target: nat, y: nat)
      requires buffer.Length == CELLS && history.Length == RING && buffer != history && y < HEIGHT && target < HISTORY
      modifies history
      ensures LineWritten(old(history[..]), history[..], target, Line(buffer[..], y))
    {
      var dest, src := target * WIDTH, y * WIDTH;
      for x := 0 to WIDTH
        invariant forall i :: 0 <= i < RING ==>
          history[i] == if dest <= i < dest + x then buffer[src + (i - dest)] else old(history[i])
      {
        history[dest + x] := buffer[src + x];
      }
    }

    /** `add_line_to_history`. */
    method AddLineToHistory(y: nat)
      requires Shaped() && y < HEIGHT
      modifies `historyStart, `historyCount, history
      ensures Shaped() && State().hist == AddLine(old(State().hist), old(State().live[y]))
    {
      hide RingRows, LineWritten, AddLine, Line;
      ghost var h, start, count, row := history[..], historyStart, historyCount, Line(buffer[..], y);
      var target;
      if historyCount < HISTORY {
        target := historyCount;
        historyCount := historyCount + 1;
      } else {
        target := historyStart;
        historyStart := (historyStart + 1) % HISTORY;
      }
      CopyLine(target, y);
      RingAdds(h, history[..], start, count, row);
    }

    /** Moves the screen up by a line and blanks the last one. */
    method ShiftUp()
      requires buffer.Length == CELLS
      modifies buffer
      ensures ScreenRows(buffer[..]) == ScreenRows(old(buffer[..]))[1..] + [Blank(color)]
    {
      ghost var a := buffer[..];
      for y := 1 to HEIGHT
        invariant forall i :: 0 <= i < (y - 1) * WIDTH ==> buffer[i] == a[i + WIDTH]
        invariant forall i :: (y - 1) * WIDTH <= i < CELLS ==> buffer[i] == a[i]
      {
        MoveLineUp(y);
      }
      FillBlank(HEIGHT - 1);
      ShiftRows(a, buffer[..], color);
    }

    /** `vga_scroll`. */
    method VgaScroll()
      requires Shaped()
      modifies `cursorx, `cursory, `scrollOffset, `historyStart, `historyCount, buffer, history
      ensures Shaped() && State() == Scroll(old(State()), color)
    {
      AddLineToHistory(0);
      ShiftUp();
      cursorx := 0;
      cursory := HEIGHT - 1;
      scrollOffset := 0;
    }

    method MoveLineUp(y: nat)
      requires buffer.Length == CELLS && 1 <= y < HEIGHT
      modifies buffer
      ensures forall i :: 0 <= i < CELLS ==>
        buffer[i] == if (y - 1) * WIDTH <= i < y * WIDTH then old(buffer[i + WIDTH]) else old(buffer[i])
    {
      for x := 0 to WIDTH
        invariant forall i :: 0 <= i < CELLS ==>
          buffer[i] == if (y - 1) * WIDTH <= i < (y - 1) * WIDTH + x then old(buffer[i + WIDTH]) else old(buffer[i])
      {
        buffer[(y - 1) * WIDTH + x] := buffer[y * WIDTH + x];
      }
    }

    /** `vga_char`, of a byte. */
    method VgaChar(c: int)
      requires Valid()
      modifies `cursorx, `cursory, `scrollOffset, `historyStart, `historyCount, buffer, history
      ensures Valid() && State() == Char(old(State()), c, color)
    {
      hide Rows;
      CharKeeps(State(), c, color);
      WriteChar(c);
      if cursory >= HEIGHT {
        VgaScroll();
      }
    }

    /** `vga_print`. */
    method VgaPrint(str: seq<int>)
      requires Valid()
      modifies `cursorx, `cursory, `scrollOffset, `historyStart, `historyCount, buffer, history
      ensures Valid() && State() == Print(old(State()), Glyphs(str, color))
    {
      hide Char, Rows;
      ghost var text := Glyphs(str, color);
      for i := 0 to |str|
        invariant Valid() && Print(old(State()), text) == Print(State(), text[i..])
      {
        VgaChar(str[i]);
        assert text[i..][1..] == text[i + 1..];
      }
    }

    /** A cell of the screen. */
    method PutAt(y: nat, x: nat, v: Cell)
      requires Shaped() && y < HEIGHT && x < WIDTH
      modifies buffer
      ensures State() == old(State()).(live := PutCell(old(State()).live, y, x, v))
    {
      PutRows(buffer[..], y, x, v);
      ghost var a := buffer[..];
      buffer[y * WIDTH + x] := v;
      assert buffer[..] == a[y * WIDTH + x := v];
    }

    method WriteChar(c: int)
      requires Valid()
      modifies `cursorx, `cursory, buffer
      ensures Shaped() && State() == Write(old(State()), c, color)
    {
      if c == 10 {
        cursorx := 0;
        cursory := cursory + 1;
      } else if c == 13 {
        cursorx := 0;
      } else if c == 8 {
        if cursorx > 0 {
          cursorx := cursorx - 1;
          PutAt(cursory, cursorx, Entry(32, color));
        } else if cursory > 0 {
          cursory := cursory - 1;
          cursorx := WIDTH - 1;
          PutAt(cursory, cursorx, Entry(32, color));
        }
      } else {
        PutAt(cursory, cursorx, Entry(c, color));
        cursorx := cursorx + 1;
        if cursorx >= WIDTH {
          cursorx := 0;
          cursory := cursory + 1;
        }
      }
    }

    /** A ring line onto a screen line. */
    method CopyBack(line: nat, y: nat)
      requires buffer.Length == CELLS && history.Length == RING && buffer != history && y < HEIGHT && line < HISTORY
      modifies buffer
      ensures forall k :: 0 <= k < HEIGHT ==>
        Line(buffer[..], k) == if k == y then Line(history[..], line) else Line(old(buffer[..]), k)
    {
      var dest, src := y * WIDTH, line * WIDTH;
      for x := 0 to WIDTH
        invariant forall i :: 0 <= i < CELLS ==>
          buffer[i] == if dest <= i < dest + x then history[src + (i - dest)] else old(buffer[i])
      {
        buffer[dest + x] := history[src + x];
      }
      CopiedLine(old(buffer[..]), buffer[..], history[..], line, y);
    }

    method BlankOut(y: nat)
      requires buffer.Length == CELLS && y < HEIGHT
      modifies buffer
      ensures forall k :: 0 <= k < HEIGHT ==> Line(buffer[..], k) == if k == y then Blank(color) else Line(old(buffer[..]), k)
    {
      FillBlank(y);
      BlankedLine(old(buffer[..]), buffer[..], y, color);
    }

    /** `redraw_screen_from_history`. */
    method RedrawFromHistory()
      requires Shaped()
      modifies `cursorx, `cursory, buffer
      ensures Shaped() && State() == Redraw(old(State()), color)
    {
      hide Line;
      ghost var hist, offset := State().hist, scrollOffset;
      var startLine := 0;
      if historyCount > HEIGHT {
        startLine := historyCount - HEIGHT - scrollOffset;
        if startLine < 0 {
          startLine := 0;
        }
      }
      var linesToShow := HEIGHT;
      if historyCount < HEIGHT {
        linesToShow := historyCount;
        startLine := 0;
      }
      for y := 0 to linesToShow
        invariant forall k :: 0 <= k < y ==> Line(buffer[..], k) == RedrawRow(hist, offset, color, k)
      {
        var historyY := startLine + y;
        if historyY >= historyCount {
          BlankOut(y);
        } else {
          CopyBack(LineIndex(historyStart, historyY), y);
          assert hist[historyY] == Line(history[..], LineIndex(historyStart, historyY));
        }
      }
      for y := linesToShow to HEIGHT
        invariant forall k :: 0 <= k < y ==> Line(buffer[..], k) == RedrawRow(hist, offset, color, k)
      {
        BlankOut(y);
      }
      cursorx := 0;
      cursory := if scrollOffset == 0 then HEIGHT - 1 else 0;
      assert State().live == Redraw(old(State()), color).live;
    }

    method VgaScrollUp()
      requires Valid()
      modifies `cursorx, `cursory, `scrollOffset, buffer
      ensures Valid() && State() == ScrollUp(old(State()), color)
    {
      hide Redraw, Rows;
      ScrollingKeeps(State(), 0, color);
      var maxOffset := historyCount - HEIGHT;
      if maxOffset < 0 {
        maxOffset := 0;
      }
      if scrollOffset < maxOffset {
        scrollOffset := scrollOffset + 1;
        RedrawFromHistory();
      }
    }

    method VgaScrollDown()
      requires Valid()
      modifies `cursorx, `cursory, `scrollOffset, buffer
      ensures Valid() && State() == ScrollDown(old(State()), color)
    {
      hide Redraw, Rows;
      ScrollingKeeps(State(), 0, color);
      if scrollOffset > 0 {
        scrollOffset := scrollOffset - 1;
        RedrawFromHistory();
      }
    }

    method VgaSetScrollOffset(offset: int)
      requires Valid()
      modifies `cursorx, `cursory, `scrollOffset, buffer
      ensures Valid() && State() == SetOffset(old(State()), offset, color)
    {
      hide Redraw, Rows;
      ScrollingKeeps(State(), offset, color);
      var o := if offset < 0 then 0 else offset;
      var maxOffset := historyCount - HEIGHT;
      if maxOffset < 0 {
        maxOffset := 0;
      }
      if o > maxOffset {
        o := maxOffset;
      }
      scrollOffset := o;
      RedrawFromHistory();
    }
  }

  /** A string in one colour. */
  function Glyphs(str: seq<int>, color: int): seq<Glyph> {
    seq(|str|, i requires 0 <= i < |str| => Glyph(str[i], color))
  }

  lemma CopiedLine(a: seq<Cell>, b: seq<Cell>, h: seq<Cell>, line: nat, y: nat)
    requires |a| == |b| == CELLS && |h| == RING && y < HEIGHT && line < HISTORY
    requires forall i :: 0 <= i < CELLS ==>
      b[i] == if y * WIDTH <= i < y * WIDTH + WIDTH then h[line * WIDTH + (i - y * WIDTH)] else a[i]
    ensures forall k :: 0 <= k < HEIGHT ==> Line(b, k) == if k == y then Line(h, line) else Line(a, k)
  {
    forall k | 0 <= k < HEIGHT
      ensures Line(b, k) == if k == y then Line(h, line) else Line(a, k)
    {
      forall x | 0 <= x < WIDTH
        ensures Line(b, k)[x] == if k == y then Line(h, line)[x] else Line(a, k)[x]
      {
        var i := k * WIDTH + x;
        assert b[i] == if y * WIDTH <= i < y * WIDTH + WIDTH then h[line * WIDTH + (i - y * WIDTH)] else a[i];
      }
    }
  }

  lemma BlankedLine(a: seq<Cell>, b: seq<Cell>, y: nat, color: int)
    requires |a| == |b| == CELLS && y < HEIGHT
    requires forall i :: 0 <= i < CELLS ==> b[i] == if y * WIDTH <= i < y * WIDTH + WIDTH then Entry(32, color) else a[i]
    ensures forall k :: 0 <= k < HEIGHT ==> Line(b, k) == if k == y then Blank(color) else Line(a, k)
  {
    BlankLine(b, y, color);
    forall k | 0 <= k < HEIGHT && k != y
      ensures Line(b, k) == Line(a, k)
    {
      forall x | 0 <= x < WIDTH
        ensures Line(b, k)[x] == Line(a, k)[x]
      {
        var i := k * WIDTH + x;
        assert !(y * WIDTH <= i < y * WIDTH + WIDTH);
      }
    }
  }
}
