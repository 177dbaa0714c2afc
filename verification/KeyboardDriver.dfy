/** The PS/2 keyboard driver: a 256-slot ring between the interrupt handler and the reader, and a line buffer. */
module KeyboardDriver {
  import opened Keyboard

  function RingIndex(start: nat, i: nat): (k: nat)
    ensures k < CAPACITY
  {
    (start + i) % CAPACITY
  }

  /** The ring's contents, oldest first. */
  ghost function Queue(ring: seq<char>, start: nat, count: nat): (q: seq<char>)
    requires |ring| == CAPACITY
    ensures |q| == count
  {
    seq(count, i requires 0 <= i < count => ring[RingIndex(start, i)])
  }

  lemma RingIndexesDiffer(start: nat, i: nat, j: nat)
    requires start < CAPACITY && i < j < CAPACITY
    ensures RingIndex(start, i) != RingIndex(start, j)
  {
  }

  lemma QueuePut(ring: seq<char>, start: nat, count: nat, c: char)
    requires |ring| == CAPACITY && start < CAPACITY && count < CAPACITY
    ensures Queue(ring[RingIndex(start, count) := c], start, count + 1) == Queue(ring, start, count) + [c]
  {
    forall i | 0 <= i < count
      ensures RingIndex(start, i) != RingIndex(start, count)
    {
      RingIndexesDiffer(start, i, count);
    }
  }

  lemma QueueGet(ring: seq<char>, start: nat, count: nat)
    requires |ring| == CAPACITY && start < CAPACITY && 0 < count <= CAPACITY
    ensures Queue(ring, start, count)[0] == ring[start]
    ensures Queue(ring, RingIndex(start, 1), count - 1) == Queue(ring, start, count)[1..]
  {
    hide RingIndex;
    assert RingIndex(start, 0) == start by { FirstIndex(start); }
    forall i | 0 <= i < count - 1
      ensures RingIndex(RingIndex(start, 1), i) == RingIndex(start, i + 1)
    {
      IndexNext(start, i);
    }
    assert Queue(ring, RingIndex(start, 1), count - 1) == Queue(ring, start, count)[1..];
  }

  lemma FirstIndex(start: nat)
    requires start < CAPACITY
    ensures RingIndex(start, 0) == start
  {
  }

  lemma IndexNext(start: nat, i: nat)
    ensures RingIndex(RingIndex(start, 1), i) == RingIndex(start, i + 1)
  {
  }

  lemma RingStep(start: nat, count: nat)
    requires start < CAPACITY && 0 < count
    ensures RingIndex(start, 1) == (start + 1) % CAPACITY
    ensures RingIndex((start + 1) % CAPACITY, count - 1) == RingIndex(start, count)
  {
  }

  lemma {:induction false} RunAppend(t: Trace, a: seq<Event>, b: seq<Event>)
    ensures Run(t, a + b) == Run(Run(t, a), b)
    decreases |a|
  {
    hide Step;
    if a == [] {
      assert a + b == b;
    } else {
      assert (a + b)[1..] == a[1..] + b;
      RunAppend(Step(t, a[0]), a[1..], b);
    }
  }

  /** The trace of a run that starts in `s`, in state and delivered text. */
  ghost predicate Reaches(s: Kb, events: seq<Event>, s1: Kb, text: seq<char>) {
    var t := Run(Trace(s, [], []), events);
    t.state == s1 && t.delivered == text
  }

  lemma ReachesScan(s: Kb, events: seq<Event>, s1: Kb, text: seq<char>, code: nat)
    requires Reaches(s, events, s1, text)
    ensures Reaches(s, events + [Scan(code)], Handle(s1, code), text)
  {
    RunAppend(Trace(s, [], []), events, [Scan(code)]);
    OneStep(Run(Trace(s, [], []), events), Scan(code));
  }

  lemma ReachesGet(s: Kb, events: seq<Event>, s1: Kb, text: seq<char>)
    requires Reaches(s, events, s1, text) && s1.pending != []
    ensures Reaches(s, events + [Get], s1.(pending := s1.pending[1..]), text + [s1.pending[0]])
  {
    RunAppend(Trace(s, [], []), events, [Get]);
    OneStep(Run(Trace(s, [], []), events), Get);
  }

  lemma OneStep(t: Trace, e: Event)
    ensures Run(t, [e]) == Step(t, e)
  {
    hide Step;
    assert [e][1..] == [];
    assert Run(Step(t, e), []) == Step(t, e);
  }

  /** A burst of scancodes as events. */
  ghost function Scans(codes: seq<nat>): seq<Event> {
    seq(|codes|, i requires 0 <= i < |codes| => Scan(codes[i]))
  }

  /** The first `k` bursts, with a read after each. */
  ghost function Interleave(arrivals: seq<seq<nat>>, k: nat): seq<Event>
    requires k <= |arrivals|
  {
    if k == 0 then [] else Interleave(arrivals, k - 1) + Scans(arrivals[k - 1]) + [Get]
  }

  lemma NothingYet(arrivals: seq<seq<nat>>)
    ensures Interleave(arrivals, 0) == [] && EditAll([], []) == []
  {
  }

  lemma OneBurst(arrivals: seq<seq<nat>>, k: nat)
    requires k < |arrivals|
    ensures Interleave(arrivals, k + 1) == Interleave(arrivals, k) + Scans(arrivals[k]) + [Get]
  {
  }

  lemma EditLast(text: seq<char>, c: char)
    ensures EditAll([], text + [c]) == Edit(EditAll([], text), c)
  {
    assert (text + [c])[..|text|] == text;
  }

  class Ps2Keyboard {
    const ring: array<char>
    var bufferStart: nat
    var bufferEnd: nat
    var bufferCount: nat
    var shiftPressed: bool
    var ctrlPressed: bool
    var altPressed: bool
    var e0Prefix: bool
    const inputBuffer: array<char>

    ghost predicate Valid()
      reads this
    {
      && ring.Length == CAPACITY && inputBuffer.Length == LINE && ring != inputBuffer
      && bufferStart < CAPACITY && bufferCount <= CAPACITY
      && bufferEnd == RingIndex(bufferStart, bufferCount)
    }

    ghost function State(): (s: Kb)
      requires Valid()
      reads this, ring
      ensures |s.pending| == bufferCount
    {
      Kb(Mods(shiftPressed, ctrlPressed, altPressed, e0Prefix), Queue(ring[..], bufferStart, bufferCount))
    }

    constructor ()
      ensures Valid() && State() == Kb(Mods(false, false, false, false), [])
    {
      ring := new char[CAPACITY](_ => '\0');
      inputBuffer := new char[LINE](_ => '\0');
      bufferStart, bufferEnd, bufferCount := 0, 0, 0;
      shiftPressed, ctrlPressed, altPressed, e0Prefix := false, false, false, false;
    }

    /** `KB_PUTC`. */
    method PutC(c: char)
      requires Valid()
      modifies `bufferEnd, `bufferCount, ring
      ensures Valid() && State() == old(State()).(pending := Put(old(State()).pending, [c]))
    {
      if bufferCount < CAPACITY {
        QueuePut(ring[..], bufferStart, bufferCount, c);
        ghost var was := ring[..];
        ring[bufferEnd] := c;
        assert ring[..] == was[bufferEnd := c];
        bufferEnd := (bufferEnd + 1) % CAPACITY;
        bufferCount := bufferCount + 1;
      }
    }

    /** `PS2_KB_GETC`, once something is there. */
    method TakeC() returns (c: char)
      requires Valid() && bufferCount > 0
      modifies `bufferStart, `bufferCount
      ensures Valid() && c == old(State()).pending[0]
      ensures State() == old(State()).(pending := old(State()).pending[1..])
    {
      hide Queue, RingIndex;
      QueueGet(ring[..], bufferStart, bufferCount);
      RingStep(bufferStart, bufferCount);
      c := ring[bufferStart];
      bufferStart := (bufferStart + 1) % CAPACITY;
      bufferCount := bufferCount - 1;
    }

    /** `PS2_KB_HANDLER`, for the scancode read from the port. */
    method Handler(scancode: nat) returns (scroll: Scroll)
      requires Valid() && scancode < 0x100
      modifies `shiftPressed, `ctrlPressed, `altPressed, `e0Prefix, `bufferEnd, `bufferCount, ring
      ensures Valid() && State() == Handle(old(State()), scancode)
      ensures scroll == Scrolls(old(State()).keys, scancode)
    {
      hide KeyChar;
      scroll := Stay;
      if scancode == 0xE0 {
        e0Prefix := true;
        return;
      }
      var keyPressed, keyCode := scancode < 0x80, scancode % 0x80;
      if e0Prefix {
        if keyPressed {
          match keyCode
          case 0x49 => scroll := PageUp;
          case 0x51 => scroll := PageDown;
          case 0x47 => if ctrlPressed { scroll := Home; }
          case 0x4F => if ctrlPressed { scroll := End; }
          case _ =>
        }
        e0Prefix := false;
        return;
      }
      if keyPressed {
        match scancode
        case 0x2A => shiftPressed := true;
        case 0x36 => shiftPressed := true;
        case 0x1D => ctrlPressed := true;
        case 0x38 => altPressed := true;
        case _ =>
          var c := KeyChar(shiftPressed, keyCode);
          if c != '\0' {
            PutC(c);
          }
      } else {
        match keyCode
        case 0x2A => shiftPressed := false;
        case 0x36 => shiftPressed := false;
        case 0x1D => ctrlPressed := false;
        case 0x38 => altPressed := false;
        case _ =>
      }
    }

    /** Interrupts between two reads. */
    method HandleAll(codes: seq<nat>, ghost s: Kb, ghost events: seq<Event>, ghost text: seq<char>)
      returns (ghost events1: seq<Event>)
      requires Valid() && (forall i :: 0 <= i < |codes| ==> codes[i] < 0x100)
      requires Reaches(s, events, State(), text)
      modifies `shiftPressed, `ctrlPressed, `altPressed, `e0Prefix, `bufferEnd, `bufferCount, ring
      ensures Valid() && Reaches(s, events1, State(), text)
      ensures events1 == events + Scans(codes)
    {
      hide Reaches, Handle;
      events1 := events;
      for i := 0 to |codes|
        invariant Valid() && Reaches(s, events1, State(), text)
        invariant events1 == events + Scans(codes[..i])
      {
        assert Scans(codes[..i + 1]) == Scans(codes[..i]) + [Scan(codes[i])];
        ReachesScan(s, events1, State(), text, codes[i]);
        var scroll := Handler(codes[i]);
        events1 := events1 + [Scan(codes[i])];
      }
      assert codes[..|codes|] == codes;
    }

    /** One character other than a newline. */
    method EditLine(pos: nat, c: char) returns (pos1: nat)
      requires inputBuffer.Length == LINE && pos < LINE
      modifies inputBuffer
      ensures pos1 < LINE && inputBuffer[..pos1] == Edit(old(inputBuffer[..pos]), c)
    {
      pos1 := pos;
      if c == BACKSPACE {
        if pos > 0 {
          pos1 := pos - 1;
        }
      } else if pos < LINE - 1 && ' ' <= c <= '~' {
        inputBuffer[pos] := c;
        pos1 := pos + 1;
      }
    }

    /** `PS2_KB_READ_LN`. `arrivals[k]` are the scancodes that come in before the k-th character is read; with nothing
        typed by then the reader is still waiting. `length` is the line's length without the newline. */
    method ReadLn(arrivals: seq<seq<nat>>) returns (done: bool, length: nat, ghost text: seq<char>, ghost events: seq<Event>)
      requires Valid()
      requires forall k, i :: 0 <= k < |arrivals| && 0 <= i < |arrivals[k]| ==> arrivals[k][i] < 0x100
      modifies `shiftPressed, `ctrlPressed, `altPressed, `e0Prefix, `bufferStart, `bufferEnd, `bufferCount, ring, inputBuffer
      ensures Valid() && '\n' !in text
      ensures Reaches(old(State()), events, State(), if done then text + ['\n'] else text)
      ensures done ==>
        length < LINE && inputBuffer[..length] == EditAll([], text) && inputBuffer[length] == '\n'
      ensures done ==> |text| < |arrivals| && events == Interleave(arrivals, |text| + 1)
      ensures !done && |text| >= |arrivals| ==> events == Interleave(arrivals, |arrivals|) && |text| == |arrivals|
      ensures !done && |text| < |arrivals| ==>
        State().pending == [] && events == Interleave(arrivals, |text|) + Scans(arrivals[|text|])
    {
      hide Reaches, Queue, Scans, Interleave, EditAll, Edit, RingIndex;
      ghost var s := State();
      var pos: nat := 0;
      text, events, done, length := [], [], false, 0;
      assert Reaches(s, [], s, []) by { StartsHere(s); }
      NothingYet(arrivals);
      for k := 0 to |arrivals|
        invariant Valid() && Reaches(s, events, State(), text) && NEWLINE !in text
        invariant pos < LINE && inputBuffer[..pos] == EditAll([], text) && |text| == k
        invariant events == Interleave(arrivals, k)
      {
        events := HandleAll(arrivals[k], s, events, text);
        if bufferCount == 0 {
          return;
        }
        ReachesGet(s, events, State(), text);
        var c := TakeC();
        events := events + [Get];
        OneBurst(arrivals, k);
        if c == NEWLINE {
          inputBuffer[pos] := NEWLINE;
          return true, pos, text, events;
        }
        EditLast(text, c);
        pos := EditLine(pos, c);
        text := text + [c];
      }
    }
  }

  ghost predicate NothingDropped(log: seq<(char, bool)>) {
    forall i :: 0 <= i < |log| ==> log[i].1
  }

  /** When nothing was dropped, the reader has taken the beginning of what was waiting and what the bursts type. */
  lemma ReadsWhatArrives(s: Kb, arrivals: seq<seq<nat>>, k: nat, s1: Kb, text: seq<char>)
    requires k <= |arrivals| && |s.pending| <= CAPACITY && Reaches(s, Interleave(arrivals, k), s1, text)
    requires NothingDropped(Run(Trace(s, [], []), Interleave(arrivals, k)).log)
    ensures text + s1.pending == s.pending + AllTyped(s.keys, Interleave(arrivals, k))
  {
    hide NothingDropped, Kept, Chars, Run, AllTyped;
    ReadsInOrder(s, Interleave(arrivals, k), s1, text);
    KeptAll(Run(Trace(s, [], []), Interleave(arrivals, k)).log);
  }

  lemma {:induction false} KeptAll(log: seq<(char, bool)>)
    requires NothingDropped(log)
    ensures Kept(log) == Chars(log)
  {
    if log != [] {
      KeptAll(log[..|log| - 1]);
      assert log == log[..|log| - 1] + [log[|log| - 1]];
    }
  }

  /** What a reader has taken is the beginning of what was waiting followed by what was kept since. */
  lemma ReadsInOrder(s: Kb, events: seq<Event>, s1: Kb, text: seq<char>)
    requires |s.pending| <= CAPACITY && Reaches(s, events, s1, text)
    ensures text + s1.pending == s.pending + Kept(Run(Trace(s, [], []), events).log)
    ensures Chars(Run(Trace(s, [], []), events).log) == AllTyped(s.keys, events)
  {
    RunFifo(Trace(s, [], []), events, s.pending);
    RunLogsAll(Trace(s, [], []), events);
  }

  lemma StartsHere(s: Kb)
    ensures Reaches(s, [], s, [])
  {
  }
}
