/** What is typed: key by key in the rows of the keyboard, and over whole runs of scancodes and reads. */
module KeyboardLaws {
  import opened Keyboard

  // ----- The keys -----

  const ROWS: seq<string> := ["1234567890-=", "qwertyuiop[]", "asdfghjkl;'`", "\\zxcvbnm,./"]
  const SHIFT_ROWS: seq<string> := ["!@#$%^&*()_+", "QWERTYUIOP{}", "ASDFGHJKL:\"~", "|ZXCVBNM<>?"]
  const FIRST: seq<nat> := [0x02, 0x10, 0x1E, 0x2B]

  /** The key is in this row. */
  predicate InRow(row: nat, code: nat) {
    row < 4 && FIRST[row] <= code < FIRST[row] + |ROWS[row]|
  }

  /** The key types this character, shift held or not. */
  ghost predicate Types(code: nat, plain: char, shifted: char) {
    forall k: Mods {:trigger Typed(k, code)} :: !k.e0 ==> Typed(k, code) == [if k.shift then shifted else plain]
  }

  /** Each key of the four rows types its character, and with shift the one above it. */
  lemma RowTypes(row: nat, code: nat)
    requires InRow(row, code)
    ensures |SHIFT_ROWS[row]| == |ROWS[row]|
    ensures Types(code, ROWS[row][code - FIRST[row]], SHIFT_ROWS[row][code - FIRST[row]])
  {
    hide KeyChar;
    var i: nat := code - FIRST[row];
    match row
    case 0 => DigitsRow(i);
    case 1 => UpperRow(i);
    case 2 => HomeRow(i);
    case 3 => LowerRow(i);
  }

  lemma DigitsRow(i: nat)
    requires i < 12
    ensures KeyChar(false, 0x02 + i) == "1234567890-="[i] && KeyChar(true, 0x02 + i) == "!@#$%^&*()_+"[i]
  {
  }

  lemma UpperRow(i: nat)
    requires i < 12
    ensures KeyChar(false, 0x10 + i) == "qwertyuiop[]"[i] && KeyChar(true, 0x10 + i) == "QWERTYUIOP{}"[i]
  {
  }

  lemma HomeRow(i: nat)
    requires i < 12
    ensures KeyChar(false, 0x1E + i) == "asdfghjkl;'`"[i] && KeyChar(true, 0x1E + i) == "ASDFGHJKL:\"~"[i]
  {
  }

  lemma LowerRow(i: nat)
    requires i < 11
    ensures KeyChar(false, 0x2B + i) == "\\zxcvbnm,./"[i] && KeyChar(true, 0x2B + i) == "|ZXCVBNM<>?"[i]
  {
  }

  /** So do escape, backspace, tab, enter, space and the pad's star; the map has the pad's minus and plus one place further
      than the keys, 0x4A and 0x4E, are. Shift makes no difference. */
  lemma OtherTypes()
    ensures Types(0x01, '\U{1b}', '\U{1b}') && Types(0x0E, '\U{8}', '\U{8}') && Types(0x0F, '\t', '\t')
    ensures Types(0x1C, '\n', '\n') && Types(0x39, ' ', ' ')
    ensures Types(0x37, '*', '*') && Types(0x4B, '-', '-') && Types(0x4F, '+', '+')
  {
    hide KeyChar;
    OtherKeys(false);
    OtherKeys(true);
  }

  lemma OtherKeys(shift: bool)
    ensures KeyChar(shift, 0x01) == '\U{1b}' && KeyChar(shift, 0x0E) == '\U{8}' && KeyChar(shift, 0x0F) == '\t'
    ensures KeyChar(shift, 0x1C) == '\n' && KeyChar(shift, 0x39) == ' '
    ensures KeyChar(shift, 0x37) == '*' && KeyChar(shift, 0x4B) == '-' && KeyChar(shift, 0x4F) == '+'
  {
  }

  /** No other scancode types anything: no modifier, no release, nothing behind the prefix 0xE0. */
  lemma NothingElse(k: Mods, code: nat)
    requires code < 0x100
    requires k.e0 || ((forall row :: !InRow(row, code)) && code !in {0x01, 0x0E, 0x0F, 0x1C, 0x39, 0x37, 0x4B, 0x4F})
    ensures Typed(k, code) == []
  {
    assert !k.e0 ==> !InRow(0, code) && !InRow(1, code) && !InRow(2, code) && !InRow(3, code);
  }

  // ----- Modifiers over runs -----

  /** The key state after a run; reads make no difference. */
  function Keys(k: Mods, events: seq<Event>): Mods
    decreases |events|
  {
    if events == [] then k
    else match events[0]
      case Scan(code) => Keys(Next(k, code), events[1..])
      case Get => Keys(k, events[1..])
  }

  lemma {:induction false} RunKeys(t: Trace, events: seq<Event>)
    ensures Run(t, events).state.keys == Keys(t.state.keys, events)
    decreases |events|
  {
    if events != [] { RunKeys(Step(t, events[0]), events[1..]); }
  }

  lemma {:induction false} KeysAppend(k: Mods, a: seq<Event>, b: seq<Event>)
    ensures Keys(k, a + b) == Keys(Keys(k, a), b)
    ensures AllTyped(k, a + b) == AllTyped(k, a) + AllTyped(Keys(k, a), b)
    decreases |a|
  {
    hide Next, Typed;
    if a == [] {
      assert a + b == b;
    } else {
      assert (a + b)[0] == a[0] && (a + b)[1..] == a[1..] + b;
      KeysAppend(if a[0].Scan? then Next(k, a[0].code) else k, a[1..], b);
    }
  }

  /** No scancode of the run is one of these. */
  predicate Without(events: seq<Event>, codes: set<nat>) {
    forall i :: 0 <= i < |events| && events[i].Scan? ==> events[i].code < 0x100 && events[i].code !in codes
  }

  /** Only its own keys' presses and releases change a modifier. */
  lemma {:induction false} ModifiersStay(k: Mods, events: seq<Event>)
    ensures Without(events, {0x2A, 0x36, 0xAA, 0xB6}) ==> Keys(k, events).shift == k.shift
    ensures Without(events, {0x1D, 0x9D}) ==> Keys(k, events).ctrl == k.ctrl
    ensures Without(events, {0x38, 0xB8}) ==> Keys(k, events).alt == k.alt
    decreases |events|
  {
    if events != [] {
      var k1 := if events[0].Scan? then Next(k, events[0].code) else k;
      ModifiersStay(k1, events[1..]);
    }
  }

  /** A modifier is held from its press on, and let go from its release on, whatever else is typed and read meanwhile. */
  lemma ModifierHeld(k: Mods, before: seq<Event>, code: nat, after: seq<Event>)
    requires !Keys(k, before).e0
    ensures var k1 := Keys(k, before + [Scan(code)] + after);
      && (code in {0x2A, 0x36} && Without(after, {0x2A, 0x36, 0xAA, 0xB6}) ==> k1.shift)
      && (code in {0xAA, 0xB6} && Without(after, {0x2A, 0x36, 0xAA, 0xB6}) ==> !k1.shift)
      && (code == 0x1D && Without(after, {0x1D, 0x9D}) ==> k1.ctrl)
      && (code == 0x9D && Without(after, {0x1D, 0x9D}) ==> !k1.ctrl)
      && (code == 0x38 && Without(after, {0x38, 0xB8}) ==> k1.alt)
      && (code == 0xB8 && Without(after, {0x38, 0xB8}) ==> !k1.alt)
  {
    hide Keys, Without;
    var k0 := Keys(k, before);
    KeysAppend(k, before, [Scan(code)]);
    KeysAppend(k, before + [Scan(code)], after);
    OneScan(k0, code);
    ModifiersStay(Next(k0, code), after);
  }

  /** A scancode behind 0xE0 types nothing and leaves the modifiers; it is the console that may move: page up and page down
      always, home and end with ctrl held. */
  lemma Prefixed(k: Mods, code: nat)
    requires !k.e0 && code < 0x100 && code != 0xE0
    ensures var k1 := Next(k, 0xE0);
      && Typed(k, 0xE0) == [] && Scrolls(k, 0xE0) == Stay
      && Typed(k1, code) == [] && Next(k1, code) == k && Scrolls(k, code) == Stay
      && (Scrolls(k1, code) == PageUp <==> code == 0x49)
      && (Scrolls(k1, code) == PageDown <==> code == 0x51)
      && (Scrolls(k1, code) == Home <==> code == 0x47 && k.ctrl)
      && (Scrolls(k1, code) == End <==> code == 0x4F && k.ctrl)
  {
  }

  // ----- Letters -----

  predicate IsLetter(code: nat) {
    0x10 <= code <= 0x19 || 0x1E <= code <= 0x26 || 0x2C <= code <= 0x32
  }

  function Letter(code: nat): char
    requires IsLetter(code)
  {
    if code <= 0x19 then "qwertyuiop"[code - 0x10]
    else if code <= 0x26 then "asdfghjkl"[code - 0x1E]
    else "zxcvbnm"[code - 0x2C]
  }

  predicate LettersOnly(events: seq<Event>) {
    forall i :: 0 <= i < |events| && events[i].Scan? ==> IsLetter(events[i].code)
  }

  /** The letters of a run, `up` by 32 characters. */
  function Letters(events: seq<Event>, up: bool): seq<char>
    requires LettersOnly(events)
    decreases |events|
  {
    if events == [] then []
    else if events[0].Get? then Letters(events[1..], up)
    else
      LetterIsLower(events[0].code);
      [if up then (Letter(events[0].code) as int - 32) as char else Letter(events[0].code)] + Letters(events[1..], up)
  }

  lemma LetterIsLower(code: nat)
    requires IsLetter(code)
    ensures 'a' <= Letter(code) <= 'z'
  {
  }

  lemma LetterTyped(k: Mods, code: nat)
    requires IsLetter(code) && !k.e0
    ensures Next(k, code) == k && 'a' <= Letter(code) <= 'z'
    ensures Typed(k, code) == [if k.shift then (Letter(code) as int - 32) as char else Letter(code)]
  {
    hide KeyChar, Letter;
    LetterIsLower(code);
    LetterKeys(code);
  }

  lemma LetterKeys(code: nat)
    requires IsLetter(code)
    ensures KeyChar(false, code) == Letter(code) && KeyChar(true, code) as int == Letter(code) as int - 32
  {
    hide KeyChar;
    if code <= 0x19 {
      UpperRow(code - 0x10);
      UpperCase("qwertyuiop", "QWERTYUIOP", code - 0x10);
    } else if code <= 0x26 {
      HomeRow(code - 0x1E);
      UpperCase("asdfghjkl", "ASDFGHJKL", code - 0x1E);
    } else {
      LowerRow(code - 0x2B);
      UpperCase("zxcvbnm", "ZXCVBNM", code - 0x2C);
    }
  }

  /** Letters are 32 characters apart from their capitals. */
  lemma UpperCase(lower: string, upper: string, i: nat)
    requires (lower, upper) in {("qwertyuiop", "QWERTYUIOP"), ("asdfghjkl", "ASDFGHJKL"), ("zxcvbnm", "ZXCVBNM")}
    requires i < |lower|
    ensures i < |upper| && lower[i] as int == upper[i] as int + 32
  {
  }

  lemma {:induction false} LettersTyped(k: Mods, events: seq<Event>)
    requires LettersOnly(events) && !k.e0
    ensures Keys(k, events) == k && AllTyped(k, events) == Letters(events, k.shift)
    decreases |events|
  {
    hide Next, Typed, Letter, IsLetter;
    if events != [] {
      if events[0].Scan? { LetterTyped(k, events[0].code); }
      LettersTyped(k, events[1..]);
    }
  }

  /** Letters typed between a shift press and its release come in upper case, those before and after in lower case, whoever
      reads in between. */
  lemma ShiftedText(t: Trace, a: seq<Event>, press: nat, b: seq<Event>, release: nat, c: seq<Event>)
    requires LettersOnly(a) && LettersOnly(b) && LettersOnly(c)
    requires press in {0x2A, 0x36} && release in {0xAA, 0xB6} && !t.state.keys.e0 && !t.state.keys.shift
    ensures var t1 := Run(t, a + [Scan(press)] + b + [Scan(release)] + c);
      Chars(t1.log) == Chars(t.log) + (Letters(a, false) + Letters(b, true) + Letters(c, false))
  {
    hide Run, Chars, Letters, LettersOnly, Keys, AllTyped, Next, Typed;
    var k := t.state.keys;
    var k1 := Next(k, press);
    RunLogsAll(t, a + [Scan(press)] + b + [Scan(release)] + c);
    ShiftKeys(k, press, release);
    LettersTyped(k, a);
    LettersTyped(k1, b);
    LettersTyped(Next(k1, release), c);
    TypesNothing(k, a, press);
    KeysAppend(k, a + [Scan(press)], b);
    TypesNothing(k, a + [Scan(press)] + b, release);
    KeysAppend(k, a + [Scan(press)] + b + [Scan(release)], c);
  }

  lemma ShiftKeys(k: Mods, press: nat, release: nat)
    requires press in {0x2A, 0x36} && release in {0xAA, 0xB6} && !k.e0 && !k.shift
    ensures var k1 := Next(k, press);
      k1 == k.(shift := true) && Next(k1, release) == k && Typed(k, press) == [] && Typed(k1, release) == []
  {
  }

  lemma TypesNothing(k: Mods, events: seq<Event>, code: nat)
    requires Typed(Keys(k, events), code) == []
    ensures Keys(k, events + [Scan(code)]) == Next(Keys(k, events), code)
    ensures AllTyped(k, events + [Scan(code)]) == AllTyped(k, events)
  {
    hide Keys, AllTyped, Next, Typed;
    KeysAppend(k, events, [Scan(code)]);
    OneScan(Keys(k, events), code);
  }

  lemma OneScan(k: Mods, code: nat)
    ensures Keys(k, [Scan(code)]) == Next(k, code) && AllTyped(k, [Scan(code)]) == Typed(k, code)
  {
    hide Next, Typed;
    assert [Scan(code)][1..] == [];
    assert AllTyped(Next(k, code), []) == [];
  }

  // ----- The line -----

  predicate Printable(c: char) {
    ' ' <= c <= '~'
  }

  /** A character that is neither printable nor backspace does nothing to the line. */
  lemma EditIgnores(line: seq<char>, c: char)
    requires c != '\U{8}' && !Printable(c)
    ensures Edit(line, c) == line
  {
  }

  /** The printable characters and backspaces of a text. */
  function Heard(text: seq<char>): seq<char> {
    if text == [] then []
    else
      var c := text[|text| - 1];
      Heard(text[..|text| - 1]) + if c == '\U{8}' || Printable(c) then [c] else []
  }

  /** A line is what its printable characters and backspaces make of it. */
  lemma {:induction false} LineHears(line: seq<char>, text: seq<char>)
    ensures EditAll(line, text) == EditAll(line, Heard(text))
  {
    hide Edit;
    if text != [] {
      var c, before := text[|text| - 1], text[..|text| - 1];
      LineHears(line, before);
      if c == '\U{8}' || Printable(c) {
        assert Heard(text)[..|Heard(text)| - 1] == Heard(before);
      } else {
        EditIgnores(EditAll(line, before), c);
        assert Heard(text) == Heard(before);
      }
    }
  }
}
