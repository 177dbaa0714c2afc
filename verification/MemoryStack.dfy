/** Runs of the whole memory stack: the heap, the page tables below it, the frame allocator below both, and clients
    that take frames and map pages of their own. */
module MemoryStack {
  import opened Words
  import opened PageFrames
  import opened Paging
  import opened BlockLayout
  import opened HeapModel
  import opened HeapRuns

  /** `owned` are the frames clients hold. */
  datatype Stack = Stack(heap: Heap, owned: set<nat>)

  datatype Op =
    | Start(pages: nat)
    | Malloc(size: nat, depth: nat)
    | Release(ptr: int)
    | TakeFrame
    | GiveFrame(addr: nat)
    | MapAt(virt: nat, phys: nat, flags: nat)
    | UnmapAt(virt: nat)

  // ----- Frames and who has them -----

  /** An allocatable frame that is marked used. */
  ghost predicate FrameTaken(vm: Vm, f: nat) {
    f % PAGE_SIZE == 0 && KERNEL_PAGES <= f / PAGE_SIZE < |vm.frames.used| && vm.frames.used[f / PAGE_SIZE]
  }

  ghost predicate InHeap(h: Heap, v: nat) {
    h.base <= v < h.base + h.total
  }

  ghost predicate InWindow(h: Heap, v: nat) {
    h.base <= v < h.base + h.room
  }

  /** The frame behind a heap address. */
  ghost function HeapFrame(h: Heap, v: nat): nat {
    var k := Key(h.vm.shared, v);
    if k in h.vm.entries then FrameOf(h.vm.entries[k]) else 0
  }

  /** Every heap page has a frame to itself: taken, no table's, no client's, no other page's. */
  ghost predicate FramesApart(s: Stack) {
    var h := s.heap;
    && (forall v: nat :: InHeap(h, v) ==>
          Key(h.vm.shared, v) in h.vm.entries && FrameTaken(h.vm, HeapFrame(h, v))
          && !IsTable(h.vm, HeapFrame(h, v)) && HeapFrame(h, v) !in s.owned)
    && (forall v: nat, w: nat :: InHeap(h, v) && InHeap(h, w) && HeapFrame(h, v) == HeapFrame(h, w) ==>
          v / PAGE_SIZE == w / PAGE_SIZE)
    && (forall f: nat :: f in s.owned ==> FrameTaken(h.vm, f) && !IsTable(h.vm, f))
  }

  ghost predicate StackInv(s: Stack) {
    HeapInv(s.heap) && FramesApart(s)
  }

  // ----- Steps -----

  ghost predicate LiveAt(h: Heap, i: nat, ptr: int) {
    i < |h.blocks| && h.blocks[i].used && h.blocks[i].addr + HEADER == ptr
  }

  /** What each caller owes: free what is live, give back and map what it owns or the kernel's own frames, keep off the
      heap's window. */
  ghost predicate Legal(s: Stack, op: Op) {
    var vm := s.heap.vm;
    match op
    case Start(_) => true
    case Malloc(size, _) => size < TWO32
    case Release(ptr) => ptr == 0 || exists i :: LiveAt(s.heap, i, ptr)
    case TakeFrame => true
    case GiveFrame(addr) => addr in s.owned
    case MapAt(virt, phys, flags) =>
      && virt < TWO32 && phys < TWO32 && flags < TWO32
      && (FrameOf(Or(phys, flags)) in s.owned || FrameOf(Or(phys, flags)) / PAGE_SIZE < KERNEL_PAGES)
      && forall w: nat :: InWindow(s.heap, w) ==> Key(vm.shared, w) != Key(vm.shared, virt)
    case UnmapAt(virt) => virt < TWO32 && forall w: nat :: InWindow(s.heap, w) ==> Key(vm.shared, w) != Key(vm.shared, virt)
  }

  /** The state after a call. The machine stops at a trap; the model then stays where it was before the call, so what is
      proved of runs holds up to the trap. */
  ghost function Step(s: Stack, op: Op): Stack {
    if !Defined(s, op) then s
    else
      var vm := s.heap.vm;
      match op
      case Start(pages) =>
        var e := Expand(s.heap, pages);
        if e.Lost? then s else s.(heap := e.heap)
      case Malloc(size, depth) =>
        var (h1, r) := Kmalloc(s.heap, size, depth);
        if r == Trapped then s else s.(heap := h1)
      case Release(ptr) =>
        if ptr == 0 then s else (var i :| LiveAt(s.heap, i, ptr); s.(heap := Kfree(s.heap, i)))
      case TakeFrame =>
        var (frames1, addr) := CursorAlloc(vm.frames);
        Stack(s.heap.(vm := vm.(frames := frames1)), if addr == 0 then s.owned else s.owned + {addr})
      case GiveFrame(addr) =>
        Stack(s.heap.(vm := vm.(frames := CursorFree(vm.frames, addr))), s.owned - {addr})
      case MapAt(virt, phys, flags) => s.(heap := s.heap.(vm := Map(vm, virt, phys, flags)))
      case UnmapAt(virt) => s.(heap := s.heap.(vm := Unmap(vm, virt)))
  }

  /** The call means something here; a legal call in a state of a run always does. */
  ghost predicate Defined(s: Stack, op: Op) {
    && WellFormed(s.heap.vm.frames)
    && (op.GiveFrame? ==> op.addr / PAGE_SIZE < |s.heap.vm.frames.used|)
    && (op.Release? && op.ptr != 0 ==> exists i :: LiveAt(s.heap, i, op.ptr))
  }

  // ----- Steps of the address space -----

  /** From `vm` to `vm1` no frame but `freed` is given up, and a new table is put only where nothing was. */
  ghost predicate Grows(vm: Vm, vm1: Vm, freed: set<nat>) {
    && vm1.shared == vm.shared && |vm1.frames.used| == |vm.frames.used|
    && (forall f: nat :: FrameTaken(vm, f) && f !in freed ==> FrameTaken(vm1, f))
    && (forall f: nat :: IsTable(vm1, f) && !IsTable(vm, f) ==> !FrameTaken(vm, f))
  }

  lemma GrowsTrans(vm: Vm, vm1: Vm, vm2: Vm)
    requires Grows(vm, vm1, {}) && Grows(vm1, vm2, {})
    ensures Grows(vm, vm2, {})
  {
    forall f: nat | IsTable(vm2, f) && !IsTable(vm, f)
      ensures !FrameTaken(vm, f)
    {
      if IsTable(vm1, f) {
      } else {
        assert !FrameTaken(vm1, f);
      }
    }
  }

  lemma AllocGrows(vm: Vm)
    requires VmInv(vm)
    ensures Grows(vm, vm.(frames := CursorAlloc(vm.frames).0), {})
    ensures var (frames1, addr) := CursorAlloc(vm.frames);
      addr != 0 ==> !FrameTaken(vm, addr) && FrameTaken(vm.(frames := frames1), addr) && !IsTable(vm, addr)
  {
    hide TablesInv, EntriesInv, CursorAlloc;
    AllocTakesLowest(vm.frames);
    AllocAddress(vm.frames);
    AllocSparesTables(vm);
    var vm1 := vm.(frames := CursorAlloc(vm.frames).0);
    assert forall f: nat :: IsTable(vm1, f) <==> IsTable(vm, f);
  }

  lemma WithTableGrows(vm: Vm, virt: nat)
    requires VmInv(vm)
    ensures Grows(vm, WithTable(vm, virt), {})
  {
    hide TablesInv, EntriesInv, CursorAlloc;
    var s: nat := TableSlot(vm.shared, Dir(virt));
    if s !in vm.tables {
      AllocGrows(vm);
      var (frames1, table) := CursorAlloc(vm.frames);
      if table != 0 {
        var vm1 := WithTable(vm, virt);
        forall f: nat | IsTable(vm1, f) && !IsTable(vm, f)
          ensures !FrameTaken(vm, f)
        {
          assert forall u: nat :: u in vm.tables ==> vm.tables[u] != f;
        }
      }
    }
  }

  lemma MapGrows(vm: Vm, virt: nat, phys: nat, flags: nat)
    requires VmInv(vm)
    ensures Grows(vm, Map(vm, virt, phys, flags), {})
  {
    WithTableGrows(vm, virt);
    SameTableFrames(WithTable(vm, virt), Map(vm, virt, phys, flags));
    GrowsTrans(vm, WithTable(vm, virt), Map(vm, virt, phys, flags));
  }

  lemma SameTableFrames(vm: Vm, vm1: Vm)
    requires vm1.shared == vm.shared && vm1.frames == vm.frames && vm1.tables == vm.tables
    ensures Grows(vm, vm1, {})
  {
    assert forall f: nat :: IsTable(vm1, f) <==> IsTable(vm, f);
  }

  /** Frames stay apart when the address space grows, the heap's entries stand, and clients gain only fresh frames. */
  lemma ApartKept(s: Stack, vm1: Vm, owned1: set<nat>)
    requires FramesApart(s) && Grows(s.heap.vm, vm1, s.owned - owned1)
    requires forall v: nat :: InHeap(s.heap, v) ==>
      var k := Key(s.heap.vm.shared, v);
      k in s.heap.vm.entries ==> k in vm1.entries && vm1.entries[k] == s.heap.vm.entries[k]
    requires forall f: nat :: f in owned1 && f !in s.owned ==> !FrameTaken(s.heap.vm, f) && FrameTaken(vm1, f) && !IsTable(vm1, f)
    ensures FramesApart(Stack(s.heap.(vm := vm1), owned1))
  {
    var h1 := s.heap.(vm := vm1);
    forall v: nat | InHeap(h1, v)
      ensures Key(vm1.shared, v) in vm1.entries && HeapFrame(h1, v) == HeapFrame(s.heap, v)
      ensures FrameTaken(vm1, HeapFrame(h1, v)) && !IsTable(vm1, HeapFrame(h1, v)) && HeapFrame(h1, v) !in owned1
    {
      assert InHeap(s.heap, v);
    }
    forall f: nat | f in owned1
      ensures FrameTaken(vm1, f) && !IsTable(vm1, f)
    {
    }
  }

  // ----- Steps of the heap -----

  /** The heap address `v` keeps its frame from `h` to `h1`. */
  ghost predicate Stays(h: Heap, h1: Heap) {
    forall v: nat :: InHeap(h, v) ==> InHeap(h1, v) && HeapFrame(h1, v) == HeapFrame(h, v)
  }

  lemma PageKey(shared: bool, v: nat, virt: nat)
    requires virt % PAGE_SIZE == 0 && virt <= v < virt + PAGE_SIZE
    ensures Key(shared, v) == Key(shared, virt) && v / PAGE_SIZE == virt / PAGE_SIZE
  {
    hide Dir;
    SamePage(v, virt);
    DirByPage(v);
    DirByPage(virt);
  }

  lemma SamePage(v: nat, virt: nat)
    requires virt % PAGE_SIZE == 0 && virt <= v < virt + PAGE_SIZE
    ensures v / PAGE_SIZE == virt / PAGE_SIZE
  {
    assert virt == virt / PAGE_SIZE * PAGE_SIZE;
  }

  lemma DirByPage(v: nat)
    ensures Dir(v) == v / PAGE_SIZE / 1024 % 1024
  {
    assert v / TABLE_SPAN == v / PAGE_SIZE / 1024;
  }

  /** The page grown gets a frame of its own. */
  lemma GrowApart(s: Stack)
    requires StackInv(s) && GrowPage(s.heap).Grown?
    ensures FramesApart(Stack(GrowPage(s.heap).heap, s.owned)) && Stays(s.heap, GrowPage(s.heap).heap)
  {
    hide BlocksInv, WindowFree, VmInv, TablesInv, EntriesInv, CursorInv, CursorAlloc, Map, Grows, FramesApart;
    var h, h1 := s.heap, GrowPage(s.heap).heap;
    var (frames1, phys) := CursorAlloc(h.vm.frames);
    var vm0 := h.vm.(frames := frames1);
    GrowPageEffect(h);
    AllocSparesTables(h.vm);
    AllocGrows(h.vm);
    MapGrows(vm0, h.base + h.total, phys, PG_PRESENT + PG_WRITABLE);
    GrowsTrans(h.vm, vm0, h1.vm);
    KeepsTaken(vm0, h1.vm, phys);
    ApartKept(s, h1.vm, s.owned);
    WindowAligned(h);
    NewPageApart(s, h1, phys);
  }

  lemma KeepsTaken(vm: Vm, vm1: Vm, f: nat)
    requires Grows(vm, vm1, {}) && FrameTaken(vm, f) && !IsTable(vm, f)
    ensures FrameTaken(vm1, f) && !IsTable(vm1, f)
  {
  }

  lemma NewPageApart(s: Stack, h1: Heap, phys: nat)
    requires FramesApart(s) && FramesApart(Stack(s.heap.(vm := h1.vm), s.owned))
    requires var h, virt := s.heap, s.heap.base + s.heap.total;
      && h1.base == h.base && h1.total == h.total + PAGE_SIZE && h1.vm.shared == h.vm.shared && virt % PAGE_SIZE == 0
      && Key(h.vm.shared, virt) in h1.vm.entries && FrameOf(h1.vm.entries[Key(h.vm.shared, virt)]) == phys
      && !FrameTaken(h.vm, phys) && FrameTaken(h1.vm, phys) && !IsTable(h1.vm, phys)
      && (forall k :: k in h.vm.entries ==> k in h1.vm.entries && h1.vm.entries[k] == h.vm.entries[k])
    ensures FramesApart(Stack(h1, s.owned)) && Stays(s.heap, h1)
  {
    var h, virt := s.heap, s.heap.base + s.heap.total;
    var mid := h.(vm := h1.vm);
    forall v: nat | InHeap(h1, v)
      ensures HeapFrame(h1, v) == (if InHeap(h, v) then HeapFrame(h, v) else phys)
      ensures !InHeap(h, v) ==> Key(h1.vm.shared, v) == Key(h1.vm.shared, virt) && v / PAGE_SIZE == virt / PAGE_SIZE
      ensures InHeap(h, v) ==> InHeap(mid, v) && HeapFrame(mid, v) == HeapFrame(h, v)
    {
      if !InHeap(h, v) { PageKey(h.vm.shared, v, virt); }
    }
  }

  lemma StaysTrans(h: Heap, h1: Heap, h2: Heap)
    requires Stays(h, h1) && Stays(h1, h2)
    ensures Stays(h, h2)
  {
  }

  lemma {:induction false} ExpandApart(s: Stack, pages: nat)
    requires StackInv(s)
    ensures Expand(s.heap, pages).Expanded? ==>
      var h1 := Expand(s.heap, pages).heap; StackInv(Stack(h1, s.owned)) && Stays(s.heap, h1)
    decreases pages
  {
    hide BlocksInv, WindowFree, VmInv, GrowPage, FramesApart;
    if pages == 0 {
      assert s == Stack(s.heap, s.owned);
    } else {
      GrowPageEffect(s.heap);
      if GrowPage(s.heap).Grown? {
        var h1 := GrowPage(s.heap).heap;
        GrowApart(s);
        ExpandApart(Stack(h1, s.owned), pages - 1);
        if Expand(h1, pages - 1).Expanded? { StaysTrans(s.heap, h1, Expand(h1, pages - 1).heap); }
      } else {
        assert s == Stack(s.heap, s.owned);
      }
    }
  }

  lemma TakeApart(s: Stack, i: nat, n: nat)
    requires FramesApart(s) && i < |s.heap.blocks| && s.heap.blocks[i].size >= n
    ensures FramesApart(Stack(TakeBlock(s.heap, i, n), s.owned)) && Stays(s.heap, TakeBlock(s.heap, i, n))
  {
    SameSpace(s, TakeBlock(s.heap, i, n));
  }

  /** Frames depend on the address space only, not on how the heap is cut into blocks. */
  lemma SameSpace(s: Stack, h1: Heap)
    requires FramesApart(s) && h1.vm == s.heap.vm && h1.base == s.heap.base && h1.total == s.heap.total
    ensures FramesApart(Stack(h1, s.owned)) && Stays(s.heap, h1)
  {
    assert forall v: nat :: InHeap(h1, v) <==> InHeap(s.heap, v);
    assert forall v: nat :: HeapFrame(h1, v) == HeapFrame(s.heap, v);
  }

  lemma {:induction false} KmallocApart(s: Stack, size: nat, depth: nat)
    requires StackInv(s)
    ensures var (h1, r) := Kmalloc(s.heap, size, depth);
      r != Trapped ==> StackInv(Stack(h1, s.owned)) && Stays(s.heap, h1)
    decreases depth
  {
    hide BlocksInv, WindowFree, VmInv, Expand, FramesApart, TakeBlock, RoundUp;
    KmallocEffect(s.heap, size, depth);
    if size == 0 {
      assert s == Stack(s.heap, s.owned);
    } else {
      var n := RoundUp(size);
      RoundAgain(size);
      var i := FirstFit(s.heap.blocks, n);
      if i < |s.heap.blocks| {
        TakeApart(s, i, n);
      } else {
        ExpandApart(s, PagesNeeded(n));
        if Expand(s.heap, PagesNeeded(n)).Expanded? && depth > 0 {
          var h1 := Expand(s.heap, PagesNeeded(n)).heap;
          KmallocApart(Stack(h1, s.owned), n, depth - 1);
          if Kmalloc(h1, n, depth - 1).1 != Trapped { StaysTrans(s.heap, h1, Kmalloc(h1, n, depth - 1).0); }
        }
      }
    }
  }

  // ----- Steps of clients -----

  lemma TakeFrameStep(s: Stack)
    requires StackInv(s)
    ensures StackInv(Step(s, TakeFrame)) && Stays(s.heap, Step(s, TakeFrame).heap)
  {
    hide BlocksInv, TablesInv, EntriesInv, CursorAlloc, Grows, FrameTaken, WindowFree;
    var vm := s.heap.vm;
    var (frames1, addr) := CursorAlloc(vm.frames);
    var vm1 := vm.(frames := frames1);
    AllocSparesTables(vm);
    AllocGrows(vm);
    SameTableSet(vm, vm1);
    SameEntries(s.heap, vm1);
    GrowsMore(vm, vm1, s.owned - Step(s, TakeFrame).owned);
    ApartKept(s, vm1, Step(s, TakeFrame).owned);
  }

  lemma SameTableSet(vm: Vm, vm1: Vm)
    requires vm1.tables == vm.tables
    ensures forall f: nat :: IsTable(vm1, f) <==> IsTable(vm, f)
  {
  }

  lemma GrowsMore(vm: Vm, vm1: Vm, freed: set<nat>)
    requires Grows(vm, vm1, {})
    ensures Grows(vm, vm1, freed)
  {
  }

  /** With the same entries the free part of the window stays free and heap addresses keep their frames. */
  lemma SameEntries(h: Heap, vm1: Vm)
    requires WindowFree(h) && BlocksInv(h) && vm1.shared == h.vm.shared
    requires forall v: nat :: InWindow(h, v) ==>
      var k := Key(vm1.shared, v);
      (k in vm1.entries <==> k in h.vm.entries) && (k in vm1.entries ==> vm1.entries[k] == h.vm.entries[k])
    ensures WindowFree(h.(vm := vm1)) && BlocksInv(h.(vm := vm1)) && Stays(h, h.(vm := vm1))
  {
    var h1 := h.(vm := vm1);
    forall v | h.base + h.total <= v < h.base + h.room
      ensures Key(vm1.shared, v) !in vm1.entries
    {
      assert InWindow(h, v);
    }
    forall v: nat | InHeap(h, v)
      ensures HeapFrame(h1, v) == HeapFrame(h, v)
    {
      assert InWindow(h, v);
    }
  }

  lemma GiveFrameStep(s: Stack, addr: nat)
    requires StackInv(s) && addr in s.owned
    ensures addr / PAGE_SIZE < |s.heap.vm.frames.used|
    ensures StackInv(Step(s, GiveFrame(addr))) && Stays(s.heap, Step(s, GiveFrame(addr)).heap)
  {
    hide BlocksInv, TablesInv, EntriesInv, WindowFree;
    var vm := s.heap.vm;
    assert FrameTaken(vm, addr) && !IsTable(vm, addr);
    FreeSparesTables(vm, addr);
    var vm1 := vm.(frames := CursorFree(vm.frames, addr));
    SameTableSet(vm, vm1);
    SameEntries(s.heap, vm1);
    OnlyFreed(vm, addr);
    assert s.owned - (s.owned - {addr}) == {addr};
    ApartKept(s, vm1, s.owned - {addr});
  }

  lemma OnlyFreed(vm: Vm, addr: nat)
    requires WellFormed(vm.frames) && addr / PAGE_SIZE < |vm.frames.used| && FrameTaken(vm, addr)
    ensures Grows(vm, vm.(frames := CursorFree(vm.frames, addr)), {addr})
  {
    var vm1 := vm.(frames := CursorFree(vm.frames, addr));
    SameTableSet(vm, vm1);
    forall f: nat | FrameTaken(vm, f) && f != addr
      ensures FrameTaken(vm1, f)
    {
      assert f / PAGE_SIZE != addr / PAGE_SIZE;
    }
  }

  lemma MapStep(s: Stack, virt: nat, phys: nat, flags: nat)
    requires StackInv(s) && Legal(s, MapAt(virt, phys, flags))
    ensures StackInv(Step(s, MapAt(virt, phys, flags))) && Stays(s.heap, Step(s, MapAt(virt, phys, flags)).heap)
  {
    hide BlocksInv, TablesInv, EntriesInv, CursorInv, WindowFree, Map, FrameTaken, Grows, Key, HasTable;
    var vm, vm1 := s.heap.vm, Map(s.heap.vm, virt, phys, flags);
    VmFrames(vm);
    MapInv(vm, virt, phys, flags);
    VmFrames(vm1);
    MapEntries(vm, virt, phys, flags);
    MapGrows(vm, virt, phys, flags);
    SameEntries(s.heap, vm1);
    WindowKeys(s.heap);
    assert s.owned - s.owned == {};
    ApartKept(s, vm1, s.owned);
  }

  lemma WindowKeys(h: Heap)
    requires BlocksInv(h)
    ensures forall v: nat :: InHeap(h, v) ==> InWindow(h, v)
  {
  }

  lemma UnmapStep(s: Stack, virt: nat)
    requires StackInv(s) && Legal(s, UnmapAt(virt))
    ensures StackInv(Step(s, UnmapAt(virt))) && Stays(s.heap, Step(s, UnmapAt(virt)).heap)
  {
    hide BlocksInv, TablesInv, EntriesInv, CursorInv, WindowFree, FrameTaken, Grows, Key;
    var vm, vm1 := s.heap.vm, Unmap(s.heap.vm, virt);
    UnmapInv(vm, virt);
    SameTableFrames(vm, vm1);
    SameEntries(s.heap, vm1);
    WindowKeys(s.heap);
    assert s.owned - s.owned == {};
    ApartKept(s, vm1, s.owned);
  }

  lemma ReleaseStep(s: Stack, ptr: int)
    requires StackInv(s) && Legal(s, Release(ptr))
    ensures StackInv(Step(s, Release(ptr))) && Stays(s.heap, Step(s, Release(ptr)).heap)
    ensures ptr != 0 ==> Coalesced(Step(s, Release(ptr)).heap.blocks)
    ensures ptr != 0 ==> exists b :: b in Live(s.heap.blocks) && b.addr + HEADER == ptr
                                     && Live(Step(s, Release(ptr)).heap.blocks) == Live(s.heap.blocks) - {b}
  {
    hide VmInv, FramesApart, Live, Coalesced, Coalesce;
    if ptr != 0 {
      var i :| LiveAt(s.heap, i, ptr) && Step(s, Release(ptr)) == s.(heap := Kfree(s.heap, i));
      var h1 := Kfree(s.heap, i);
      FreeKeepsBlocks(s.heap, i);
      SameSpace(s, h1);
      FreeWindow(s.heap, i);
      LiveMember(s.heap.blocks, i);
    }
  }

  lemma FreeWindow(h: Heap, i: nat)
    requires WindowFree(h) && i < |h.blocks|
    ensures WindowFree(Kfree(h, i))
  {
  }

  lemma LiveMember(bs: seq<Block>, i: nat)
    requires i < |bs| && bs[i].used
    ensures bs[i] in Live(bs)
  {
  }

  // ----- Runs -----

  lemma VmFrames(vm: Vm)
    requires VmInv(vm)
    ensures WellFormed(vm.frames)
  {
  }

  /** Every call keeps the whole invariant, and no heap address ever changes its frame. */
  lemma StepKeeps(s: Stack, op: Op)
    requires StackInv(s) && Legal(s, op)
    ensures Defined(s, op)
    ensures StackInv(Step(s, op)) && Stays(s.heap, Step(s, op).heap)
  {
    hide BlocksInv, WindowFree, VmInv, FramesApart, Kmalloc, Expand;
    assert s == Stack(s.heap, s.owned);
    match op
    case Start(pages) => ExpandApart(s, pages);
    case Malloc(size, depth) => KmallocApart(s, size, depth);
    case Release(ptr) => ReleaseStep(s, ptr);
    case TakeFrame => TakeFrameStep(s);
    case GiveFrame(addr) => GiveFrameStep(s, addr);
    case MapAt(virt, phys, flags) => MapStep(s, virt, phys, flags);
    case UnmapAt(virt) => UnmapStep(s, virt);
  }

  ghost predicate LegalRun(s: Stack, ops: seq<Op>)
    decreases |ops|
  {
    ops == [] || (Legal(s, ops[0]) && LegalRun(Step(s, ops[0]), ops[1..]))
  }

  ghost function Run(s: Stack, ops: seq<Op>): Stack
    decreases |ops|
  {
    if ops == [] then s else Run(Step(s, ops[0]), ops[1..])
  }

  lemma StaysSelf(h: Heap)
    ensures Stays(h, h)
  {
  }

  /** The invariant holds after every run, and every heap address still has the frame it started with. */
  lemma {:induction false} RunKeeps(s: Stack, ops: seq<Op>)
    requires StackInv(s) && LegalRun(s, ops)
    ensures StackInv(Run(s, ops)) && Stays(s.heap, Run(s, ops).heap)
    decreases |ops|
  {
    hide StackInv, Legal, Step, Stays;
    if ops == [] {
      StaysSelf(s.heap);
    } else {
      StepKeeps(s, ops[0]);
      RunKeeps(Step(s, ops[0]), ops[1..]);
      StaysTrans(s.heap, Step(s, ops[0]).heap, Run(s, ops).heap);
    }
  }

  /** The machine after `pmm_init` and `vmm_init`, with a window for the heap. */
  ghost function Boot(total: nat, base: nat, room: nat): Stack
    requires KERNEL_PAGES <= total
  {
    Stack(Fresh(base, room, Init(Booted(total))), {})
  }

  lemma BootInv(total: nat, base: nat, room: nat)
    requires KERNEL_PAGES <= total <= 0x10_0000
    requires TABLE_SPAN <= base && base % PAGE_SIZE == 0 && base + room <= TWO32
    requires WindowFree(Boot(total, base, room).heap)
    ensures StackInv(Boot(total, base, room)) && Exact(Boot(total, base, room).heap.vm)
  {
    BootedInv(total);
    InitInv(Booted(total));
    VmFrames(Init(Booted(total)));
  }

  /** Distinct heap words are distinct words of physical memory, and no table's or client's frame holds one: within a
      run the heap's window behaves as memory of its own. */
  lemma HeapWordsPrivate(s: Stack, v: nat, w: nat)
    requires StackInv(s) && InHeap(s.heap, v) && InHeap(s.heap, w)
    ensures var vm := s.heap.vm;
      && (Translate(vm, v) == Translate(vm, w) ==> v == w)
      && FrameOf(Translate(vm, v)) == HeapFrame(s.heap, v)
      && !IsTable(vm, FrameOf(Translate(vm, v))) && FrameOf(Translate(vm, v)) !in s.owned
  {
    hide HeapInv, FrameTaken, Key;
    var vm := s.heap.vm;
    FrameWord(HeapFrame(s.heap, v), v);
    FrameWord(HeapFrame(s.heap, w), w);
    SameWord(v, w);
  }

  lemma FrameWord(f: nat, v: nat)
    requires f % PAGE_SIZE == 0
    ensures FrameOf(f + v % PAGE_SIZE) == f && (f + v % PAGE_SIZE) % PAGE_SIZE == v % PAGE_SIZE
  {
    FramePlus(f / PAGE_SIZE, v % PAGE_SIZE);
    assert f + v % PAGE_SIZE == FrameOf(f + v % PAGE_SIZE) + (f + v % PAGE_SIZE) % PAGE_SIZE;
  }

  lemma SameWord(v: nat, w: nat)
    ensures v / PAGE_SIZE == w / PAGE_SIZE && v % PAGE_SIZE == w % PAGE_SIZE ==> v == w
  {
    assert v == v / PAGE_SIZE * PAGE_SIZE + v % PAGE_SIZE;
    assert w == w / PAGE_SIZE * PAGE_SIZE + w % PAGE_SIZE;
  }

  /** The next frame handed out is nobody's: no table's, no heap page's, no client's. */
  lemma NextFrameIsFresh(s: Stack)
    requires StackInv(s) && CursorAlloc(s.heap.vm.frames).1 != 0
    ensures var addr := CursorAlloc(s.heap.vm.frames).1;
      && !IsTable(s.heap.vm, addr) && addr !in s.owned
      && forall v: nat :: InHeap(s.heap, v) ==> HeapFrame(s.heap, v) != addr
  {
    hide TablesInv, EntriesInv, BlocksInv, WindowFree, CursorAlloc, Key;
    AllocGrows(s.heap.vm);
  }

  // ----- The mapped-pages counter over a run -----

  ghost predicate Exact(vm: Vm) {
    vm.mapped == |vm.entries|
  }

  lemma GrowCounts(h: Heap)
    requires HeapInv(h) && Exact(h.vm) && GrowPage(h).Grown?
    ensures Exact(GrowPage(h).heap.vm)
  {
    hide BlocksInv, WindowFree, VmInv, CursorAlloc, Map, FrameOf, Or;
    var (frames1, phys) := CursorAlloc(h.vm.frames);
    AllocSparesTables(h.vm);
    AllocAddress(h.vm.frames);
    AlignedMapping(phys, PG_PRESENT + PG_WRITABLE);
    MapCounts(h.vm.(frames := frames1), h.base + h.total, phys, PG_PRESENT + PG_WRITABLE);
  }

  lemma {:induction false} ExpandCounts(h: Heap, pages: nat)
    requires HeapInv(h) && Exact(h.vm)
    ensures Expand(h, pages).Expanded? ==> Exact(Expand(h, pages).heap.vm)
    decreases pages
  {
    hide BlocksInv, WindowFree, VmInv, GrowPage, Exact;
    if pages > 0 && GrowPage(h).Grown? {
      GrowPageEffect(h);
      GrowCounts(h);
      ExpandCounts(GrowPage(h).heap, pages - 1);
    }
  }

  lemma {:induction false} KmallocCounts(h: Heap, size: nat, depth: nat)
    requires HeapInv(h) && Exact(h.vm)
    ensures Kmalloc(h, size, depth).1 != Trapped ==> Exact(Kmalloc(h, size, depth).0.vm)
    decreases depth
  {
    hide BlocksInv, WindowFree, VmInv, Expand, Exact, RoundUp, Place;
    if size > 0 {
      var n := RoundUp(size);
      RoundAgain(size);
      ExpandCounts(h, PagesNeeded(n));
      ExpandEffect(h, PagesNeeded(n));
      if Expand(h, PagesNeeded(n)).Expanded? && depth > 0 {
        KmallocCounts(Expand(h, PagesNeeded(n)).heap, n, depth - 1);
      }
    }
  }

  /** Client mappings are asked to be present: an entry written without the present flag is counted and is not there. */
  predicate MapsPresent(op: Op) {
    op.MapAt? ==> Present(Or(op.phys, op.flags))
  }

  lemma StepCounts(s: Stack, op: Op)
    requires StackInv(s) && Legal(s, op) && Exact(s.heap.vm)
    requires MapsPresent(op)
    ensures Exact(Step(s, op).heap.vm)
  {
    hide BlocksInv, WindowFree, VmInv, FramesApart, Kmalloc, Expand, Kfree, Map, Unmap, Or, CursorAlloc, CursorFree;
    match op
    case Start(pages) => ExpandCounts(s.heap, pages);
    case Malloc(size, depth) => KmallocCounts(s.heap, size, depth);
    case Release(ptr) => ReleaseSpace(s, ptr);
    case MapAt(virt, phys, flags) => MapCounts(s.heap.vm, virt, phys, flags);
    case UnmapAt(virt) => UnmapCounts(s.heap.vm, virt);
    case _ =>
  }

  lemma ReleaseSpace(s: Stack, ptr: int)
    ensures Step(s, Release(ptr)).heap.vm == s.heap.vm
  {
    hide WellFormed;
  }

  /** `total_mapped` is the number of present entries over the distinct tables after every run. */
  lemma {:induction false} RunCounts(s: Stack, ops: seq<Op>)
    requires StackInv(s) && LegalRun(s, ops) && Exact(s.heap.vm) && forall op :: op in ops ==> MapsPresent(op)
    ensures Exact(Run(s, ops).heap.vm)
    decreases |ops|
  {
    hide StackInv, Legal, Step, Stays, Exact, MapsPresent;
    if ops != [] {
      StepKeeps(s, ops[0]);
      StepCounts(s, ops[0]);
      assert forall op :: op in ops[1..] ==> op in ops;
      RunCounts(Step(s, ops[0]), ops[1..]);
    }
  }

  // ----- Allocations over a run -----

  /** Only its own release ends an allocation. */
  lemma StepSparesLive(s: Stack, op: Op, b: Block)
    requires StackInv(s) && Legal(s, op) && b in Live(s.heap.blocks) && op != Release(b.addr + HEADER)
    ensures b in Live(Step(s, op).heap.blocks)
  {
    hide BlocksInv, WindowFree, VmInv, FramesApart, Kmalloc, Expand, Live, Kfree, Gives;
    StepKeeps(s, op);
    match op
    case Start(pages) => ExpandEffect(s.heap, pages);
    case Malloc(size, depth) =>
      KmallocEffect(s.heap, size, depth);
      KmallocLive(s.heap, size, depth);
    case Release(ptr) => if ptr != 0 { ReleaseStep(s, ptr); }
    case _ =>
  }

  lemma KmallocLive(h: Heap, size: nat, depth: nat)
    requires HeapInv(h)
    ensures Kmalloc(h, size, depth).1 != Trapped ==> Live(h.blocks) <= Live(Kmalloc(h, size, depth).0.blocks)
  {
    hide BlocksInv, WindowFree, VmInv, Kmalloc, Live;
    KmallocEffect(h, size, depth);
  }

  /** An allocation stays live, at its place and size, until it is released. */
  lemma {:induction false} LiveUntilReleased(s: Stack, ops: seq<Op>, b: Block)
    requires StackInv(s) && LegalRun(s, ops) && b in Live(s.heap.blocks)
    requires Release(b.addr + HEADER) !in ops
    ensures b in Live(Run(s, ops).heap.blocks)
    decreases |ops|
  {
    hide StackInv, Legal, Step, Live;
    if ops != [] {
      StepKeeps(s, ops[0]);
      StepSparesLive(s, ops[0], b);
      LiveUntilReleased(Step(s, ops[0]), ops[1..], b);
    }
  }

  /** Any run that ends by releasing the last live block leaves one free block over the whole heap. */
  lemma RunEndsWhole(s: Stack, ops: seq<Op>, ptr: int)
    requires StackInv(s) && LegalRun(s, ops) && ptr != 0 && Legal(Run(s, ops), Release(ptr))
    requires Live(Step(Run(s, ops), Release(ptr)).heap.blocks) == {}
    ensures var h := Step(Run(s, ops), Release(ptr)).heap;
      h.blocks == [Block(h.base, h.total - HEADER, false)]
  {
    hide VmInv, FramesApart, WindowFree, Coalesced, Aligned, Kmalloc, Expand, LiveBytes, LegalRun, Run, Stays;
    RunKeeps(s, ops);
    var t := Run(s, ops);
    StepKeeps(t, Release(ptr));
    ReleaseStep(t, ptr);
    var i :| LiveAt(t.heap, i, ptr);
    TiledAt(t.heap.blocks, i, t.heap.base, t.heap.base + t.heap.total, HEADER);
    var h := Step(t, Release(ptr)).heap;
    AllFree(h.blocks, h.base, h.base + h.total, HEADER);
  }
}
