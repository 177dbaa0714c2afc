/** What a reader of the screen sees: the bytes of a cell, where a character goes, and that what was printed can be read
    back. Stated in numbers, beside the operations rather than in their terms. */
module ConsoleLaws {
  import opened Words
  import opened Terminal

  // ----- A cell -----

  /** Character in the low byte, colour in the high byte. */
  predicate Reads(v: int, c: int, color: int) {
    v % 256 == c && v / 256 == color
  }

  predicate Byte(b: int) {
    0 <= b < 256
  }

  /** A cell holds character and colour, and is their `|` as 16-bit words. */
  lemma EntryReads(c: nat, color: nat)
    requires Byte(c) && Byte(color)
    ensures Reads(Entry(c, color), c, color) && Entry(c, color) == Or(c, color * 256)
  {
    hide Or;
    OrByte(c, color);
  }

  lemma OrByte(low: nat, high: nat)
    requires low < 256
    ensures Or(low, high * 256) == low + 256 * high
  {
    hide Or;
    OrSwap(low, high * 256);
    assert Pow2(8) == 256;
    OrAligned(high, 8, low);
  }

  lemma BlankReads(color: nat, x: nat)
    requires Byte(color) && x < 80
    ensures |Blank(color)| == 80 && Reads(Blank(color)[x], ' ' as int, color)
  {
    EntryReads(32, color);
  }

  /** A cleared screen is 25 lines of blanks with nothing above, the cursor at the top left. */
  lemma ClearedReads(color: nat, y: nat, x: nat)
    requires Byte(color) && y < 25 && x < 80
    ensures var s := Cleared(color);
      && |s.live| == 25 && |s.live[y]| == 80 && Reads(s.live[y][x], ' ' as int, color)
      && s.hist == [] && s.x == 0 && s.y == 0 && s.offset == 0
  {
    BlankReads(color, x);
  }

  // ----- One character -----

  predicate Plain(c: int) {
    Byte(c) && c != 10 && c != 13 && c != 8
  }

  /** Where the cursor goes, counting cells from the top left: back to the start of the line, one line on, one cell back
      or one cell on. */
  function Target(s: Console, c: int): int {
    var p := 80 * s.y + s.x;
    if c == 13 then 80 * s.y
    else if c == 10 then 80 * s.y + 80
    else if c == 8 then (if p == 0 then 0 else p - 1)
    else p + 1
  }

  /** It left the screen, so that the lines move up by one. */
  predicate Moves(s: Console, c: int) {
    Target(s, c) >= 2000
  }

  /** The new cell at (x, y), which was at line `y + 1` if the lines moved up. */
  ghost predicate CellLaw(s: Console, s1: Console, c: int, color: int, y: nat, x: nat)
    requires ConsoleInv(s) && ConsoleInv(s1) && y < 25 && x < 80
  {
    var from := if Moves(s, c) then y + 1 else y;
    if from == 25 then Reads(s1.live[y][x], ' ' as int, color)
    else if Plain(c) && from == s.y && x == s.x then Reads(s1.live[y][x], c, color)
    else if c == 8 && 80 * from + x == 80 * s.y + s.x - 1 then Reads(s1.live[y][x], ' ' as int, color)
    else s1.live[y][x] == s.live[from][x]
  }

  /** One character, cell by cell: it is under the old cursor, a backspace blanks the cell before it, a new line is blank,
      and every other cell is as it was. */
  lemma CharCell(s: Console, c: nat, color: nat, y: nat, x: nat)
    requires ConsoleInv(s) && Byte(c) && Byte(color) && y < 25 && x < 80
    ensures ConsoleInv(Char(s, c, color)) && CellLaw(s, Char(s, c, color), c, color, y, x)
  {
    hide Reads, Entry, AddLine;
    CharKeeps(s, c, color);
    EntryReads(c, color);
    EntryReads(32, color);
    BlankReads(color, x);
  }

  /** The cursor, the history and the offset after one character: a line that leaves the screen joins the history, of which
      the newest 10000 lines are kept, and the view is back at the newest. */
  lemma CharMoves(s: Console, c: nat, color: nat)
    requires ConsoleInv(s)
    ensures var s1, q := Char(s, c, color), Target(s, c);
      && 80 * s1.y + s1.x == (if q >= 2000 then 1920 else q)
      && (q < 2000 ==> s1.hist == s.hist && s1.offset == s.offset)
      && (q >= 2000 ==>
            && s1.offset == 0
            && s1.hist == if |s.hist| < 10000 then s.hist + [s.live[0]] else (s.hist + [s.live[0]])[1..])
  {
  }

  // ----- A text -----

  ghost predicate PlainText(text: seq<Glyph>) {
    forall i :: 0 <= i < |text| ==> Plain(text[i].c) && Byte(text[i].color)
  }

  /** The cell with number `k` holds the text's character with that number, or a blank behind the text. */
  ghost predicate HoldsGlyph(v: int, text: seq<Glyph>, k: nat) {
    if k < |text| then Reads(v, text[k].c, text[k].color) else v % 256 == ' ' as int
  }

  ghost predicate HoldsText(rows: seq<Row>, text: seq<Glyph>, y: nat, x: nat) {
    y < |rows| && x < |rows[y]| && HoldsGlyph(rows[y][x], text, 80 * y + x)
  }

  /** The terminal after a text printed on a blank one: the text in lines of 80, and the cursor behind it. */
  ghost predicate Written(t: Term, text: seq<Glyph>) {
    && TermInv(t) && 80 * (|t.rows| - 25 + t.y) + t.x == |text|
    && (|t.rows| == 25 || t.y == 24)
    && Rows(t.rows)
    && forall y: nat, x: nat {:trigger HoldsText(t.rows, text, y, x)} ::
         y < |t.rows| && x < 80 ==> HoldsText(t.rows, text, y, x)
  }

  lemma WrittenStep(t: Term, text: seq<Glyph>, g: Glyph)
    requires Written(t, text) && Plain(g.c) && Byte(g.color)
    ensures Written(TermChar(t, g.c, g.color), text + [g])
  {
    hide Entry, Reads;
    var t1 := TermChar(t, g.c, g.color);
    var line := |t.rows| - 25 + t.y;
    EntryReads(g.c, g.color);
    forall y: nat, x: nat | y < |t1.rows| && x < 80
      ensures HoldsText(t1.rows, text + [g], y, x)
    {
      if y < |t.rows| {
        assert HoldsText(t.rows, text, y, x);
        SameCell(y, x, line, t.x);
      } else {
        BlankReads(g.color, x);
        LowByte(Blank(g.color)[x], ' ' as int, g.color);
      }
    }
  }

  lemma LowByte(v: int, c: int, color: int)
    requires Reads(v, c, color)
    ensures v % 256 == c
  {
  }

  lemma SameCell(y: int, x: int, y1: int, x1: int)
    requires 0 <= x < 80 && 0 <= x1 < 80
    ensures 80 * y + x == 80 * y1 + x1 <==> y == y1 && x == x1
  {
  }

  lemma {:induction false} TextWritten(t: Term, done: seq<Glyph>, text: seq<Glyph>)
    requires Written(t, done) && PlainText(text)
    ensures Written(TermPrint(t, text), done + text)
    decreases |text|
  {
    hide Written, TermChar;
    if text == [] {
      assert done + text == done;
    } else {
      WrittenStep(t, done, text[0]);
      TextWritten(TermChar(t, text[0].c, text[0].color), done + [text[0]], text[1..]);
      assert done + [text[0]] + text[1..] == done + text;
    }
  }

  /** A text printed on a cleared screen can be read back from the history and the screen, in lines of 80, as far as the
      10025 lines reach, with blanks behind it; the cursor is where the text ends. */
  lemma TextReads(color: nat, text: seq<Glyph>, y: nat, x: nat)
    requires Byte(color) && PlainText(text) && x < 80
    ensures var s := Print(Cleared(color), text);
      var lines := s.hist + s.live;
      var first := |TermPrint(AsTerm(Cleared(color)), text).rows| - |lines|;
      && ConsoleInv(s) && first >= 0 && (|text| < 80 * 10025 ==> first == 0)
      && 80 * (first + |s.hist| + s.y) + s.x == |text|
      && (y < |lines| ==> x < |lines[y]| && HoldsGlyph(lines[y][x], text, 80 * (first + y) + x))
  {
    hide PlainText, Written, HoldsGlyph, Print, TermPrint, Trim, Cleared, ConsoleInv;
    ClearedRows(color);
    var s0 := Cleared(color);
    ClearedInv(color);
    BlankWritten(color);
    PrintRefines(s0, text);
    TextWritten(AsTerm(s0), [], text);
    assert [] + text == text;
    LastLines(Print(s0, text), TermPrint(AsTerm(s0), text), text, y, x);
  }

  lemma ClearedRows(color: int)
    ensures |Cleared(color).live| == HEIGHT
  {
  }

  lemma BlankWritten(color: nat)
    requires Byte(color)
    ensures Written(AsTerm(Cleared(color)), [])
  {
    var t := AsTerm(Cleared(color));
    forall y: nat, x: nat | y < |t.rows| && x < 80
      ensures HoldsText(t.rows, [], y, x)
    {
      BlankReads(color, x);
    }
  }

  lemma LastLines(s: Console, t: Term, text: seq<Glyph>, y: nat, x: nat)
    requires ConsoleInv(s) && AsTerm(s) == Trim(t) && Written(t, text) && x < 80
    ensures var lines := s.hist + s.live;
      var first := |t.rows| - |lines|;
      && first >= 0 && (|text| < 80 * 10025 ==> first == 0)
      && 80 * (first + |s.hist| + s.y) + s.x == |text|
      && (y < |lines| ==> lines[y] == t.rows[first + y] && HoldsText(t.rows, text, first + y, x))
  {
  }

  // ----- Scrolling -----

  /** As far back as the view goes. */
  function Farthest(s: Console): nat {
    if |s.hist| > 25 then |s.hist| - 25 else 0
  }

  /** Every offset from 0 to the farthest is reached as given, lower ones give 0 and higher ones the farthest; at 0 the
      newest 25 lines are shown, at the farthest the oldest. */
  lemma OffsetReached(s: Console, offset: int, color: int)
    requires ConsoleInv(s)
    ensures var s1 := SetOffset(s, offset, color);
      && s1.hist == s.hist
      && (0 <= offset <= Farthest(s) ==> s1.offset == offset)
      && (offset < 0 ==> s1.offset == 0)
      && (offset > Farthest(s) ==> s1.offset == Farthest(s))
      && (|s.hist| >= 25 && offset <= 0 ==> s1.live == s.hist[|s.hist| - 25..])
      && (|s.hist| >= 25 && offset >= Farthest(s) ==> s1.live == s.hist[..25])
  {
    hide Redraw, SetOffset, Rows;
    var at := s.(offset := Within(offset, Farthest(s)));
    SetWithin(s, offset, color);
    RedrawOffset(at, color);
    RedrawShows(at, color);
    assert |s.hist| >= 25 ==> s.hist[|s.hist| - 25..|s.hist|] == s.hist[|s.hist| - 25..];
  }

  function Within(offset: int, max: nat): (o: nat)
    ensures o <= max
  {
    if offset < 0 then 0 else if offset > max then max else offset
  }

  lemma SetWithin(s: Console, offset: int, color: int)
    ensures SetOffset(s, offset, color) == Redraw(s.(offset := Within(offset, Farthest(s))), color)
  {
    hide Redraw;
  }

  lemma RedrawOffset(s: Console, color: int)
    ensures Redraw(s, color).offset == s.offset && Redraw(s, color).hist == s.hist
    ensures Redraw(s, color).x == 0 && Redraw(s, color).y == if s.offset == 0 then 24 else 0
  {
  }

  /** One line up or down, and not past the ends. */
  lemma StepsOffset(s: Console, color: int)
    requires ConsoleInv(s)
    ensures ScrollUp(s, color).offset == if s.offset < Farthest(s) then s.offset + 1 else Farthest(s)
    ensures ScrollDown(s, color).offset == if s.offset > 0 then s.offset - 1 else 0
  {
    RedrawOffset(s.(offset := s.offset + 1), color);
  }
}
