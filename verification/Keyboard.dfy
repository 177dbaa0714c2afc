/** The keyboard as a value: scancodes in, characters out, and the line editor on top. */
module Keyboard {
  const CAPACITY := 256
  const LINE := 128

  // ----- Scancodes -----

  const PLAIN: seq<char> :=
    ['\0', '\U{1b}', '1', '2', '3', '4', '5', '6', '7', '8', '9', '0', '-', '=', '\U{8}'] +
    ['\t', 'q', 'w', 'e', 'r', 't', 'y', 'u', 'i', 'o', 'p', '[', ']', '\n'] +
    ['\0', 'a', 's', 'd', 'f', 'g', 'h', 'j', 'k', 'l', ';', '\'', '`'] +
    ['\0', '\\', 'z', 'x', 'c', 'v', 'b', 'n', 'm', ',', '.', '/', '\0'] +
    ['*', '\0', ' '] + Nothing(17) +
    ['-'] + Nothing(3) + ['+'] + Nothing(11)

  const SHIFTED: seq<char> :=
    ['\0', '\U{1b}', '!', '@', '#', '$', '%', '^', '&', '*', '(', ')', '_', '+', '\U{8}'] +
    ['\t', 'Q', 'W', 'E', 'R', 'T', 'Y', 'U', 'I', 'O', 'P', '{', '}', '\n'] +
    ['\0', 'A', 'S', 'D', 'F', 'G', 'H', 'J', 'K', 'L', ':', '"', '~'] +
    ['\0', '|', 'Z', 'X', 'C', 'V', 'B', 'N', 'M', '<', '>', '?', '\0'] +
    ['*', '\0', ' '] + Nothing(17) +
    ['-'] + Nothing(3) + ['+'] + Nothing(11)

  /** Keys without a character. */
  function Nothing(n: nat): seq<char> {
    seq(n, _ => '\0')
  }

  /** A map entry; the rest of the 128 is zero. */
  function KeyChar(shift: bool, code: nat): char {
    var table := if shift then SHIFTED else PLAIN;
    if code < |table| then table[code] else '\0'
  }

  const NEWLINE := '\n'
  const BACKSPACE := '\U{8}'

  datatype Mods = Mods(shift: bool, ctrl: bool, alt: bool, e0: bool)

  /** What a scancode asks of the console. */
  datatype Scroll = Stay | PageUp | PageDown | Home | End

  /** The key state after a scancode. */
  function Next(k: Mods, code: nat): Mods {
    if code == 0xE0 then k.(e0 := true)
    else if k.e0 then k.(e0 := false)
    else
      var pressed, key := code < 0x80, code % 0x80;
      if key == 0x2A || key == 0x36 then k.(shift := pressed)
      else if key == 0x1D then k.(ctrl := pressed)
      else if key == 0x38 then k.(alt := pressed)
      else k
  }

  /** The character a scancode types, as a sequence of none or one. */
  function Typed(k: Mods, code: nat): (c: seq<char>)
    ensures |c| <= 1
  {
    if code == 0xE0 || k.e0 || code >= 0x80 || code in {0x2A, 0x36, 0x1D, 0x38} then []
    else if KeyChar(k.shift, code) == '\0' then [] else [KeyChar(k.shift, code)]
  }

  function Scrolls(k: Mods, code: nat): Scroll {
    if code == 0xE0 || !k.e0 || code >= 0x80 then Stay
    else if code == 0x49 then PageUp
    else if code == 0x51 then PageDown
    else if code == 0x47 && k.ctrl then Home
    else if code == 0x4F && k.ctrl then End
    else Stay
  }

  // ----- The queue -----

  datatype Kb = Kb(keys: Mods, pending: seq<char>)

  function Put(pending: seq<char>, c: seq<char>): seq<char> {
    if |pending| < CAPACITY then pending + c else pending
  }

  /** `PS2_KB_HANDLER` for one scancode. */
  function Handle(s: Kb, code: nat): Kb {
    Kb(Next(s.keys, code), Put(s.pending, Typed(s.keys, code)))
  }

  datatype Event = Scan(code: nat) | Get

  /** What an interleaving leaves: the state, the characters read, and every character typed with whether it was kept. */
  datatype Trace = Trace(state: Kb, delivered: seq<char>, log: seq<(char, bool)>)

  function Step(t: Trace, e: Event): Trace {
    var s := t.state;
    match e
    case Scan(code) =>
      var c := Typed(s.keys, code);
      Trace(Handle(s, code), t.delivered, if c == [] then t.log else t.log + [(c[0], |s.pending| < CAPACITY)])
    case Get =>
      if s.pending == [] then t else Trace(s.(pending := s.pending[1..]), t.delivered + [s.pending[0]], t.log)
  }

  function Run(t: Trace, events: seq<Event>): Trace
    decreases |events|
  {
    if events == [] then t else Run(Step(t, events[0]), events[1..])
  }

  /** The kept characters of a log, in order. */
  function Kept(log: seq<(char, bool)>): seq<char> {
    if log == [] then []
    else
      var last := log[|log| - 1];
      Kept(log[..|log| - 1]) + if last.1 then [last.0] else []
  }

  /** The characters of a log, kept or not. */
  function Chars(log: seq<(char, bool)>): seq<char> {
    seq(|log|, i requires 0 <= i < |log| => log[i].0)
  }

  /** What a sequence of scancodes types, whoever reads it. */
  function AllTyped(k: Mods, events: seq<Event>): seq<char>
    decreases |events|
  {
    if events == [] then []
    else match events[0]
      case Scan(code) => Typed(k, code) + AllTyped(Next(k, code), events[1..])
      case Get => AllTyped(k, events[1..])
  }

  /** What was read and what still waits are what waited at the start and then the kept characters, in order. */
  ghost predicate Fifo(t: Trace, first: seq<char>) {
    t.delivered + t.state.pending == first + Kept(t.log) && |t.state.pending| <= CAPACITY
  }

  lemma KeptAppend(log: seq<(char, bool)>, entry: (char, bool))
    ensures Kept(log + [entry]) == Kept(log) + if entry.1 then [entry.0] else []
  {
    assert (log + [entry])[..|log|] == log;
  }

  lemma StepFifo(t: Trace, e: Event, first: seq<char>)
    requires Fifo(t, first)
    ensures Fifo(Step(t, e), first)
  {
    match e
    case Scan(code) =>
      var c := Typed(t.state.keys, code);
      if c != [] {
        KeptAppend(t.log, (c[0], |t.state.pending| < CAPACITY));
        assert c == [c[0]];
        assert t.delivered + (t.state.pending + c) == (t.delivered + t.state.pending) + c;
        assert first + (Kept(t.log) + c) == (first + Kept(t.log)) + c;
      }
    case Get =>
      if t.state.pending != [] {
        assert t.state.pending == [t.state.pending[0]] + t.state.pending[1..];
      }
  }

  /** First in, first out, over every interleaving of interrupts and reads. */
  lemma {:induction false} RunFifo(t: Trace, events: seq<Event>, first: seq<char>)
    requires Fifo(t, first)
    ensures Fifo(Run(t, events), first)
    decreases |events|
  {
    hide Fifo, Step;
    if events != [] {
      StepFifo(t, events[0], first);
      RunFifo(Step(t, events[0]), events[1..], first);
    }
  }

  /** The log is everything the scancodes type, in order: reading changes nothing about it. */
  lemma {:induction false} RunLogsAll(t: Trace, events: seq<Event>)
    ensures Chars(Run(t, events).log) == Chars(t.log) + AllTyped(t.state.keys, events)
    decreases |events|
  {
    hide Step, Chars, Typed, Next;
    if events == [] {
      assert AllTyped(t.state.keys, events) == [];
    } else {
      var t1 := Step(t, events[0]);
      RunLogsAll(t1, events[1..]);
      StepLogs(t, events[0]);
      if events[0].Scan? {
        Joined(Chars(t.log), Typed(t.state.keys, events[0].code), AllTyped(t1.state.keys, events[1..]));
      }
    }
  }

  lemma Joined(a: seq<char>, b: seq<char>, c: seq<char>)
    ensures (a + b) + c == a + (b + c)
  {
  }

  lemma StepLogs(t: Trace, e: Event)
    ensures match e
      case Scan(code) => Chars(Step(t, e).log) == Chars(t.log) + Typed(t.state.keys, code)
                         && Step(t, e).state.keys == Next(t.state.keys, code)
      case Get => Step(t, e).log == t.log && Step(t, e).state.keys == t.state.keys
  {
    if e.Scan? {
      var c := Typed(t.state.keys, e.code);
      if c != [] { assert c == [c[0]]; }
    }
  }

  /** A character is lost exactly when it is typed while 256 are waiting. */
  lemma DropsOnlyWhenFull(t: Trace, code: nat, first: seq<char>)
    requires Fifo(t, first) && Typed(t.state.keys, code) != []
    ensures var t1 := Step(t, Scan(code));
      t1.state.pending == t.state.pending <==> |t.state.pending| == 256
  {
  }

  // ----- The line editor -----

  /** A character's effect on the line being typed. */
  function Edit(line: seq<char>, c: char): seq<char> {
    if c == BACKSPACE then (if line == [] then line else line[..|line| - 1])
    else if |line| < LINE - 1 && ' ' <= c <= '~' then line + [c]
    else line
  }

  function EditAll(line: seq<char>, text: seq<char>): seq<char> {
    if text == [] then line else Edit(EditAll(line, text[..|text| - 1]), text[|text| - 1])
  }

  /** Lines never outgrow the buffer and hold printable characters only. */
  lemma {:induction false} EditBounded(text: seq<char>)
    ensures |EditAll([], text)| <= 127
    ensures forall i :: 0 <= i < |EditAll([], text)| ==> ' ' <= EditAll([], text)[i] <= '~'
  {
    if text != [] { EditBounded(text[..|text| - 1]); }
  }

  /** A printable character and a backspace cancel unless the line is full; then the backspace eats an older one. */
  lemma TypeThenErase(line: seq<char>, c: char)
    requires ' ' <= c <= '~' && |line| <= 127
    ensures Edit(Edit(line, c), '\U{8}') == line <==> |line| < 127
  {
    if |line| < LINE - 1 {
      assert (line + [c])[..|line|] == line;
    }
  }

  /** After 127 printable characters, one more and a backspace leave 126. */
  lemma FullLineLoses(text: seq<char>, c: char)
    requires |text| == 127 && (forall i :: 0 <= i < |text| ==> ' ' <= text[i] <= '~') && ' ' <= c <= '~'
    ensures EditAll([], text + [c, '\U{8}']) == text[..126]
  {
    var t := text + [c, BACKSPACE];
    PlainLine(text);
    assert t[..|t| - 1] == text + [c] && (text + [c])[..|text|] == text;
    assert EditAll([], text + [c]) == text;
  }

  /** Without control characters a line is what was typed, cut off at 127. */
  lemma {:induction false} PlainLine(text: seq<char>)
    requires forall i :: 0 <= i < |text| ==> ' ' <= text[i] <= '~'
    ensures EditAll([], text) == if |text| <= 127 then text else text[..127]
  {
    if text != [] {
      var n := |text| - 1;
      PlainLine(text[..n]);
      assert text == text[..n] + [text[n]];
    }
  }
}
