/** The page-frame allocator as a value: which frames are used, how many, and where the search cursor stands.
    Two step relations are defined over it, one with the cursor of the kernel's allocator and one with the plain
    lowest-first scan of its predecessor, and they are proved to be the same allocator. */
module PageFrames {
  const PAGE_SIZE := 4096
  const KERNEL_PAGES := 4096

  /** `used[p]` is the byte of page `p`, `count` the running counter, `last` the cursor. */
  datatype Frames = Frames(used: seq<bool>, count: int, last: nat)

  ghost predicate WellFormed(s: Frames) {
    KERNEL_PAGES <= s.last <= |s.used|
  }

  // ----- Searching and counting -----

  /** The least free page in [lo, hi), or `hi` when there is none. */
  function FirstFree(used: seq<bool>, lo: nat, hi: nat): (i: nat)
    requires lo <= hi <= |used|
    ensures lo <= i <= hi
    ensures i < hi ==> !used[i]
    ensures forall p :: lo <= p < i ==> used[p]
    decreases hi - lo
  {
    if lo == hi || !used[lo] then lo else FirstFree(used, lo + 1, hi)
  }

  /** The number of used pages. */
  function Count(used: seq<bool>): nat {
    if used == [] then 0 else Count(used[..|used| - 1]) + if used[|used| - 1] then 1 else 0
  }

  lemma {:induction false} CountAll(used: seq<bool>)
    requires forall p :: 0 <= p < |used| ==> used[p]
    ensures Count(used) == |used|
  {
    if used != [] { CountAll(used[..|used| - 1]); }
  }

  lemma {:induction false} CountBound(used: seq<bool>)
    ensures Count(used) <= |used|
  {
    if used != [] { CountBound(used[..|used| - 1]); }
  }

  lemma {:induction false} CountAppend(used: seq<bool>, more: seq<bool>)
    ensures Count(used + more) == Count(used) + Count(more)
  {
    if more == [] {
      assert used + more == used;
    } else {
      var k := |more| - 1;
      assert (used + more)[..|used + more| - 1] == used + more[..k];
      CountAppend(used, more[..k]);
    }
  }

  lemma CountUpdate(used: seq<bool>, p: nat, b: bool)
    requires p < |used|
    ensures Count(used[p := b]) == Count(used) - (if used[p] then 1 else 0) + (if b then 1 else 0)
  {
    var front, back := used[..p], used[p + 1..];
    assert used == front + ([used[p]] + back);
    assert used[p := b] == front + ([b] + back);
    CountAppend(front, [used[p]] + back);
    CountAppend(front, [b] + back);
    CountAppend([used[p]], back);
    CountAppend([b], back);
    assert Count([used[p]]) == (if used[p] then 1 else 0) && Count([b]) == (if b then 1 else 0) by {
      assert Count([]) == 0;
      assert [b][..0] == [] && [used[p]][..0] == [];
    }
  }

  lemma CountKernelOnly(used: seq<bool>)
    requires |used| >= KERNEL_PAGES
    requires forall p :: 0 <= p < |used| ==> used[p] == (p < KERNEL_PAGES)
    ensures Count(used) == KERNEL_PAGES
  {
    var kernel, rest := used[..KERNEL_PAGES], used[KERNEL_PAGES..];
    assert used == kernel + rest;
    CountAppend(kernel, rest);
    CountAll(kernel);
    CountNone(rest);
  }

  lemma {:induction false} CountNone(used: seq<bool>)
    requires forall p :: 0 <= p < |used| ==> !used[p]
    ensures Count(used) == 0
  {
    if used != [] { CountNone(used[..|used| - 1]); }
  }

  // ----- The cursor allocator -----

  function Take(s: Frames, p: nat): Frames
    requires p < |s.used|
  {
    Frames(s.used[p := true], s.count + 1, if p + 1 >= |s.used| then KERNEL_PAGES else p + 1)
  }

  /** Two scans, from the cursor up and then from the first allocatable page up to the cursor. */
  function CursorAlloc(s: Frames): (Frames, nat)
    requires KERNEL_PAGES <= s.last <= |s.used|
  {
    var i := FirstFree(s.used, s.last, |s.used|);
    if i < |s.used| then (Take(s, i), i * PAGE_SIZE)
    else
      var j := FirstFree(s.used, KERNEL_PAGES, s.last);
      if j < s.last then (Take(s, j), j * PAGE_SIZE) else (s, 0)
  }

  lemma AllocAddress(s: Frames)
    requires WellFormed(s)
    ensures var (s', addr) := CursorAlloc(s);
      && addr % PAGE_SIZE == 0 && |s'.used| == |s.used|
      && (addr != 0 ==> KERNEL_PAGES <= addr / PAGE_SIZE < |s.used|)
  {
  }

  function CursorFree(s: Frames, addr: nat): Frames
    requires addr / PAGE_SIZE < |s.used|
  {
    var p := addr / PAGE_SIZE;
    if p < KERNEL_PAGES then s
    else
      Frames(s.used[p := false],
             if s.used[p] then s.count - 1 else s.count,
             if p < s.last then p else s.last)
  }

  // ----- The plain scan -----

  function ScanAlloc(used: seq<bool>, count: int): (seq<bool>, int, nat)
    requires KERNEL_PAGES <= |used|
  {
    var i := FirstFree(used, KERNEL_PAGES, |used|);
    if i < |used| then (used[i := true], count + 1, i * PAGE_SIZE) else (used, count, 0)
  }

  /** Ignores kernel pages and pages past the end, and decrements only above the kernel's own count. */
  function ScanFree(used: seq<bool>, count: int, addr: nat): (seq<bool>, int) {
    var p := addr / PAGE_SIZE;
    if p < KERNEL_PAGES || p >= |used| || !used[p] then (used, count)
    else (used[p := false], if count > KERNEL_PAGES then count - 1 else count)
  }

  // ----- The unwritten invariant -----

  /** Everything below the cursor is taken, and the counter is exact. */
  ghost predicate CursorInv(s: Frames) {
    && WellFormed(s)
    && (forall p :: 0 <= p < KERNEL_PAGES ==> s.used[p])
    && (forall p :: KERNEL_PAGES <= p < s.last ==> s.used[p])
    && s.count == Count(s.used)
  }

  function Booted(total: nat): Frames
    requires KERNEL_PAGES <= total
  {
    Frames(seq(total, p => p < KERNEL_PAGES), KERNEL_PAGES, KERNEL_PAGES)
  }

  lemma BootedInv(total: nat)
    requires KERNEL_PAGES <= total
    ensures CursorInv(Booted(total)) && total >= 4096 && |Booted(total).used| == total && Booted(total).count == 4096
    ensures forall p :: 0 <= p < total ==> (Booted(total).used[p] <==> p < 4096)
  {
    CountKernelOnly(Booted(total).used);
  }

  /** An allocation is the lowest free page, whatever the cursor, and 0 means that no page is left. */
  lemma AllocTakesLowest(s: Frames)
    requires CursorInv(s)
    ensures var (s', addr) := CursorAlloc(s);
      && CursorInv(s')
      && FirstFree(s.used, KERNEL_PAGES, s.last) == s.last
      && (addr == 0 <==> forall p :: KERNEL_PAGES <= p < |s.used| ==> s.used[p])
      && (addr == 0 ==> s' == s)
      && (addr != 0 ==>
            var p := addr / PAGE_SIZE;
            && addr == p * PAGE_SIZE && addr % 4096 == 0 && addr >= 0x100_0000
            && KERNEL_PAGES <= p < |s.used| && !s.used[p]
            && (forall q :: KERNEL_PAGES <= q < p ==> s.used[q])
            && s'.used == s.used[p := true] && s'.count == s.count + 1)
  {
    var i := FirstFree(s.used, s.last, |s.used|);
    if i < |s.used| {
      CountUpdate(s.used, i, true);
      assert !s.used[i];
    }
  }

  lemma AllocKeepsInv(s: Frames)
    requires WellFormed(s)
    ensures CursorInv(s) ==> CursorInv(CursorAlloc(s).0)
  {
    if CursorInv(s) { AllocTakesLowest(s); }
  }

  /** A free keeps the invariant, frees its page and no other, and leaves the kernel's 16 MB alone. */
  lemma FreeKeepsInv(s: Frames, addr: nat)
    requires CursorInv(s) && addr / PAGE_SIZE < |s.used|
    ensures CursorInv(CursorFree(s, addr))
    ensures addr < 0x100_0000 ==> CursorFree(s, addr) == s
    ensures addr >= 0x100_0000 ==> CursorFree(s, addr).used == s.used[addr / 4096 := false]
  {
    var p := addr / PAGE_SIZE;
    if p >= KERNEL_PAGES { CountUpdate(s.used, p, false); }
  }

  /** The counter guard of the plain scan is true whenever the decrement is reached. */
  lemma DecrementGuardHolds(used: seq<bool>, p: nat)
    requires KERNEL_PAGES <= p < |used| && used[p]
    requires forall q :: 0 <= q < KERNEL_PAGES ==> used[q]
    ensures Count(used) > KERNEL_PAGES
  {
    var kernel, rest := used[..KERNEL_PAGES], used[KERNEL_PAGES..];
    assert used == kernel + rest;
    CountAppend(kernel, rest);
    CountAll(kernel);
    assert rest[p - KERNEL_PAGES];
    CountPositive(rest, p - KERNEL_PAGES);
  }

  lemma CountPositive(used: seq<bool>, p: nat)
    requires p < |used| && used[p]
    ensures Count(used) > 0
  {
    CountUpdate(used, p, false);
  }

  // ----- Traces -----

  datatype Call = Alloc | Free(addr: nat)

  /** The kernel's free has no bound check: callers stay inside the map. */
  predicate InRange(c: Call, total: nat) {
    c.Free? ==> c.addr / PAGE_SIZE < total
  }

  /** Final state and the results of the allocations, in order. */
  function RunCursor(s: Frames, calls: seq<Call>): (Frames, seq<nat>)
    requires WellFormed(s)
    requires forall c :: c in calls ==> InRange(c, |s.used|)
    decreases |calls|
  {
    if calls == [] then (s, [])
    else if calls[0].Alloc? then
      var (s1, addr) := CursorAlloc(s);
      var (s2, out) := RunCursor(s1, calls[1..]);
      (s2, [addr] + out)
    else
      assert InRange(calls[0], |s.used|);
      RunCursor(CursorFree(s, calls[0].addr), calls[1..])
  }

  function RunScan(used: seq<bool>, count: int, calls: seq<Call>): (seq<bool>, int, seq<nat>)
    requires KERNEL_PAGES <= |used|
    decreases |calls|
  {
    if calls == [] then (used, count, [])
    else if calls[0].Alloc? then
      var (used1, count1, addr) := ScanAlloc(used, count);
      var (used2, count2, out) := RunScan(used1, count1, calls[1..]);
      (used2, count2, [addr] + out)
    else
      var (used1, count1) := ScanFree(used, count, calls[0].addr);
      RunScan(used1, count1, calls[1..])
  }

  /** The cursor is invisible: one call gives the same result, map and counter as the plain scan. */
  lemma StepEquivalent(s: Frames, c: Call)
    requires CursorInv(s) && InRange(c, |s.used|)
    ensures c.Alloc? ==>
      var (s', addr) := CursorAlloc(s);
      ScanAlloc(s.used, s.count) == (s'.used, s'.count, addr) && CursorInv(s') && |s'.used| == |s.used|
    ensures c.Free? ==>
      var s' := CursorFree(s, c.addr);
      ScanFree(s.used, s.count, c.addr) == (s'.used, s'.count) && CursorInv(s') && |s'.used| == |s.used|
  {
    if c.Alloc? {
      AllocTakesLowest(s);
    } else {
      hide Count, FirstFree;
      var p := c.addr / PAGE_SIZE;
      FreeKeepsInv(s, c.addr);
      if p >= KERNEL_PAGES {
        if s.used[p] { DecrementGuardHolds(s.used, p); } else { assert s.used[p := false] == s.used; }
      }
    }
  }

  /** Trace equivalence: same addresses, same map, same counter, for every sequence of calls. */
  lemma {:induction false} TraceEquivalent(s: Frames, calls: seq<Call>)
    requires CursorInv(s)
    requires forall c :: c in calls ==> InRange(c, |s.used|)
    ensures var (s', out) := RunCursor(s, calls);
      RunScan(s.used, s.count, calls) == (s'.used, s'.count, out) && CursorInv(s')
    decreases |calls|
  {
    if calls != [] {
      StepEquivalent(s, calls[0]);
      var rest := calls[1..];
      assert forall c :: c in rest ==> c in calls;
      if calls[0].Alloc? {
        TraceEquivalent(CursorAlloc(s).0, rest);
      } else {
        TraceEquivalent(CursorFree(s, calls[0].addr), rest);
      }
    }
  }

  /** Both allocators, booted over the same number of pages, answer every sequence of calls alike. */
  lemma SameAllocator(total: nat, calls: seq<Call>)
    requires KERNEL_PAGES <= total
    requires forall c :: c in calls ==> InRange(c, total)
    ensures var s0 := Booted(total);
      var (s, out) := RunCursor(s0, calls);
      RunScan(s0.used, s0.count, calls) == (s.used, s.count, out) && s.count == Count(s.used)
  {
    BootedInv(total);
    TraceEquivalent(Booted(total), calls);
  }

  /** Freeing a page that has just been handed out restores map and counter, and it is handed out again next. */
  lemma AllocFreeAlloc(s: Frames)
    requires CursorInv(s) && CursorAlloc(s).1 != 0
    ensures var (s1, addr) := CursorAlloc(s);
      var s2 := CursorFree(s1, addr);
      s2.used == s.used && s2.count == s.count && CursorAlloc(s2).1 == addr
  {
    AllocTakesLowest(s);
    var (s1, addr) := CursorAlloc(s);
    FreeKeepsInv(s1, addr);
    var s2 := CursorFree(s1, addr);
    assert s2.used == s.used;
    AllocTakesLowest(s2);
  }
}
