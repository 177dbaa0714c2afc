/** States that runs from start-up reach, and what they show: when the heap can grow, that a freed block is used again, and
    the inputs on which the code does not do what it seems to. */
module Reached {
  import opened Words
  import opened PageFrames
  import opened Paging
  import opened BlockLayout
  import opened HeapModel
  import opened HeapRuns
  import opened MemoryStack
  import opened HeapSizes

  const HEAP_VIRT := 0x4000_0000
  const HEAP_ROOM := 0x1000_0000
  const SLOT_LOW := 0xC000_0000
  const SLOT_HIGH := 0xC040_0000

  // ----- Which windows are free -----

  /** After both set-ups a window above 4 MB is free exactly when it keeps clear of slot 768, or has no room, or no frame was
      left for the identity table. */
  lemma WindowIsFree(total: nat, base: nat, room: nat)
    requires KERNEL_PAGES <= total <= 0x10_0000 && TABLE_SPAN <= base && base + room <= TWO32
    ensures WindowFree(Boot(total, base, room).heap) <==>
      total == KERNEL_PAGES || room == 0 || base + room <= SLOT_LOW || SLOT_HIGH <= base
  {
    hide CursorAlloc, Key;
    BootTables(total);
    var h := Boot(total, base, room).heap;
    if total == KERNEL_PAGES || room == 0 || base + room <= SLOT_LOW || SLOT_HIGH <= base {
      forall v | base <= v < base + room
        ensures Key(h.vm.shared, v) !in h.vm.entries
      {
        IdentityKey(v);
      }
    } else {
      var v := if base < SLOT_LOW then SLOT_LOW else base;
      IdentityKey(v);
      assert h.base + h.total <= v < h.base + h.room;
    }
  }

  lemma BootTables(total: nat)
    requires KERNEL_PAGES <= total <= 0x10_0000
    ensures var vm := Init(Booted(total));
      && VmInv(vm) && (vm.shared <==> total > KERNEL_PAGES)
      && vm.entries == (if total > KERNEL_PAGES then IdentityEntries() else map[])
      && vm.frames.count <= KERNEL_PAGES + 1 && |vm.frames.used| == total
  {
    hide CursorAlloc, TablesInv, EntriesInv;
    BootedInv(total);
    InitInv(Booted(total));
    AllocTakesLowest(Booted(total));
    AllocAddress(Booted(total));
    if total > KERNEL_PAGES { assert !Booted(total).used[KERNEL_PAGES]; }
  }

  lemma IdentityKey(v: nat)
    requires TABLE_SPAN <= v < TWO32
    ensures Key(true, v) in IdentityEntries() <==> SLOT_LOW <= v < SLOT_HIGH
  {
    KeySlot(true, v);
    assert Dir(v) == v / TABLE_SPAN;
  }

  // ----- When the heap can grow -----

  lemma FrameLeft(frames: Frames)
    requires CursorInv(frames) && frames.count < |frames.used|
    ensures CursorAlloc(frames).1 != 0 && CursorInv(CursorAlloc(frames).0)
    ensures CursorAlloc(frames).0.count == frames.count + 1 && |CursorAlloc(frames).0.used| == |frames.used|
  {
    AllocTakesLowest(frames);
    if forall p :: 0 <= p < |frames.used| ==> frames.used[p] { CountAll(frames.used); }
  }

  /** Two free frames and a page of room are enough to grow. */
  lemma GrowsWith(s: Heap)
    requires HeapInv(s) && s.vm.frames.count + 2 <= |s.vm.frames.used| && s.total + PAGE_SIZE <= s.room
    ensures GrowPage(s).Grown?
    ensures var s1 := GrowPage(s).heap;
      && HeapInv(s1) && s1.room == s.room && s1.total == s.total + PAGE_SIZE
      && s1.vm.frames.count <= s.vm.frames.count + 2 && |s1.vm.frames.used| == |s.vm.frames.used|
      && s1.used == s.used && s1.excess == s.excess
      && s1.blocks == s.blocks + [Block(s.base + s.total, PAGE_SIZE - HEADER, false)]
  {
    hide BlocksInv, WindowFree, TablesInv, EntriesInv, CursorAlloc, Map, CursorInv;
    var (frames1, phys) := CursorAlloc(s.vm.frames);
    FrameLeft(s.vm.frames);
    FrameLeft(frames1);
    AllocSparesTables(s.vm);
    GrowthCondition(s);
    GrowPageEffect(s);
    MapFrames(s.vm.(frames := frames1), s.base + s.total, phys, PG_PRESENT + PG_WRITABLE);
  }

  /** A mapping takes one frame at most. */
  lemma MapFrames(vm: Vm, virt: nat, phys: nat, flags: nat)
    requires VmInv(vm) && vm.frames.count < |vm.frames.used|
    ensures var f := Map(vm, virt, phys, flags).frames;
      f.count <= vm.frames.count + 1 && |f.used| == |vm.frames.used|
  {
    hide CursorAlloc, Or;
    FrameLeft(vm.frames);
  }

  /** Two free frames a page and room for all are enough for an expansion of any size, and every page is a block. */
  lemma {:induction false} ExpandSucceeds(s: Heap, pages: nat)
    requires HeapInv(s) && s.vm.frames.count + 2 * pages <= |s.vm.frames.used| && s.total + pages * PAGE_SIZE <= s.room
    ensures Expand(s, pages).Expanded?
    ensures var s1 := Expand(s, pages).heap;
      && HeapInv(s1) && s1.used == s.used && s1.excess == s.excess && s1.total == s.total + pages * PAGE_SIZE
      && |s1.blocks| == |s.blocks| + pages && s1.blocks[..|s.blocks|] == s.blocks
      && forall k :: |s.blocks| <= k < |s1.blocks| ==>
           s1.blocks[k] == Block(s.base + s.total + (k - |s.blocks|) * PAGE_SIZE, PAGE_SIZE - HEADER, false)
    decreases pages
  {
    hide BlocksInv, WindowFree, VmInv, GrowPage;
    if pages > 0 {
      GrowsWith(s);
      GrowPageFields(s);
      var s1 := GrowPage(s).heap;
      ExpandSucceeds(s1, pages - 1);
      var s2 := Expand(s1, pages - 1).heap;
      assert s2.blocks[..|s1.blocks|][..|s.blocks|] == s2.blocks[..|s.blocks|];
      assert s2.blocks[|s.blocks|] == s2.blocks[..|s1.blocks|][|s.blocks|];
    }
  }

  // ----- Start-up in the window meant for the heap -----

  /** The kernel's own heap address with room for 256 MB. */
  ghost function Machine(total: nat): Stack
    requires KERNEL_PAGES <= total
  {
    Boot(total, HEAP_VIRT, HEAP_ROOM)
  }

  lemma MachineInv(total: nat)
    requires KERNEL_PAGES <= total <= 0x10_0000
    ensures StackInv(Machine(total)) && Exact(Machine(total).heap.vm)
    ensures Machine(total).heap.vm.frames.count <= KERNEL_PAGES + 1 && |Machine(total).heap.vm.frames.used| == total
  {
    WindowIsFree(total, HEAP_VIRT, HEAP_ROOM);
    BootInv(total, HEAP_VIRT, HEAP_ROOM);
    BootTables(total);
  }

  /** The heap after `heap_init` with that many pages. */
  ghost function Started(total: nat, pages: nat): Stack
    requires KERNEL_PAGES <= total
  {
    Run(Machine(total), [Start(pages)])
  }

  lemma StartedInv(total: nat, pages: nat)
    requires 0 < pages <= 0x1_0000 && KERNEL_PAGES + 1 + 2 * pages <= total <= 0x10_0000
    ensures var s := Started(total, pages);
      && LegalRun(Machine(total), [Start(pages)]) && StackInv(s)
      && s.heap.used == 0 && |s.heap.blocks| == pages && s.heap.total == 4096 * pages
      && forall k :: 0 <= k < pages ==> s.heap.blocks[k] == Block(0x4000_0000 + 4096 * k, 4080, false)
  {
    hide StackInv, HeapInv, Expand;
    var s0 := Machine(total);
    MachineInv(total);
    StackHeap(s0);
    ExpandSucceeds(s0.heap, pages);
    OneOp(s0, Start(pages));
    StepKeeps(s0, Start(pages));
    assert Step(s0, Start(pages)).heap == Expand(s0.heap, pages).heap by { StackHeap(s0); }
  }

  lemma StackHeap(s: Stack)
    requires StackInv(s)
    ensures HeapInv(s.heap) && WellFormed(s.heap.vm.frames)
  {
    hide BlocksInv, WindowFree, VmInv, FramesApart;
  }

  lemma OneOp(s: Stack, op: Op)
    requires Legal(s, op)
    ensures LegalRun(s, [op]) && Run(s, [op]) == Step(s, op)
  {
    hide Legal, Step;
    assert [op][1..] == [];
    assert LegalRun(Step(s, op), []) && Run(Step(s, op), []) == Step(s, op);
  }

  /** The heap after a call, and its answer. */
  ghost function After(h: Heap, size: nat, depth: nat): Heap {
    if WellFormed(h.vm.frames) then Kmalloc(h, size, depth).0 else h
  }

  ghost function Answer(h: Heap, size: nat, depth: nat): Outcome {
    if WellFormed(h.vm.frames) then Kmalloc(h, size, depth).1 else Trapped
  }

  /** The heap the kernel starts with. */
  ghost function KernelStart(total: nat): Heap
    requires KERNEL_PAGES <= total
  {
    Started(total, INIT_PAGES).heap
  }

  /** Its pages, the first one used or free. */
  function KernelPages(first: bool): seq<Block> {
    [Block(0x4000_0000, 4080, first), Block(0x4000_1000, 4080, false),
     Block(0x4000_2000, 4080, false), Block(0x4000_3000, 4080, false)]
  }

  lemma KernelStartInv(total: nat)
    requires 4096 + 9 <= total <= 0x10_0000
    ensures var s := KernelStart(total);
      HeapInv(s) && s.total == 16384 && s.blocks == KernelPages(false) && FreeAtLeast(s.blocks, 16)
  {
    hide StackInv, HeapInv, Started;
    StartedInv(total, INIT_PAGES);
    StackHeap(Started(total, INIT_PAGES));
    FourPages(KernelStart(total).blocks);
  }

  lemma FourPages(bs: seq<Block>)
    requires |bs| == 4 && forall k :: 0 <= k < 4 ==> bs[k] == Block(0x4000_0000 + 4096 * k, 4080, false)
    ensures bs == KernelPages(false) && FreeAtLeast(bs, 16)
  {
  }

  /** The heap test: three blocks, the middle one freed and its size asked for again gives the same pointer. */
  lemma HeapTestReuses(total: nat, a: nat, b: nat, c: nat, depth: nat)
    requires 4096 + 9 <= total <= 0x10_0000
    requires 0 < a && 0 < b && 0 < c && RoundUp(a) + RoundUp(b) + RoundUp(c) + 5 * HEADER <= PAGE_SIZE
    ensures var s := KernelStart(total);
      var s1, s2 := After(s, a, depth), After(After(s, a, depth), b, depth);
      var s3 := After(s2, c, depth);
      && |s3.blocks| > 1 && s3.blocks[1].used && Answer(s1, b, depth) == Returned(s3.blocks[1].addr + HEADER)
      && Answer(Kfree(s3, 1), b, depth) == Answer(s1, b, depth)
  {
    hide BlocksInv, WindowFree, VmInv, Kmalloc, Kfree, RoundUp, KernelStart;
    KernelStartInv(total);
    var s := KernelStart(total);
    MiddleIsReused(s, a, b, c, depth);
    KfreeVm(After(After(After(s, a, depth), b, depth), c, depth), 1);
  }

  lemma RoundTest()
    ensures RoundUp(8) == 8 && RoundUp(256) == 256 && RoundUp(512) == 512
    ensures RoundUp(1024) == 1024 && RoundUp(4056) == 4056
  {
  }

  /** The kernel's own test, in numbers: 256, 512 and 1024 bytes, the 512 freed and asked for again. */
  lemma HeapTestPointers(total: nat, depth: nat)
    requires 4096 + 9 <= total <= 0x10_0000
    ensures var s := KernelStart(total);
      var s1, s2 := After(s, 256, depth), After(After(s, 256, depth), 512, depth);
      var s3 := After(s2, 1024, depth);
      && Answer(s, 256, depth) == Returned(0x4000_0010)
      && Answer(s1, 512, depth) == Returned(0x4000_0120)
      && Answer(s2, 1024, depth) == Returned(0x4000_0330)
      && |s3.blocks| > 1 && Answer(Kfree(s3, 1), 512, depth) == Returned(0x4000_0120)
  {
    hide BlocksInv, WindowFree, VmInv, Kmalloc, Kfree, RoundUp, KernelStart;
    KernelStartInv(total);
    RoundTest();
    var s := KernelStart(total);
    MiddleIsReused(s, 256, 512, 1024, depth);
    var s1 := Front(s, 0, 256, depth);
    var s2 := Front(s1, 1, 512, depth);
    var s3 := Front(s2, 2, 1024, depth);
    assert After(s, 256, depth) == s1 && After(s1, 512, depth) == s2 && After(s2, 1024, depth) == s3;
    assert s2.blocks[1] == Block(0x4000_0110, 512, true) && s3.blocks[..2] == s2.blocks[..2];
    assert s3.blocks[1] == s2.blocks[1];
    assert Kfree(s3, 1).vm == s3.vm by { KfreeVm(s3, 1); }
  }

  lemma KfreeVm(s: Heap, i: nat)
    requires i < |s.blocks|
    ensures Kfree(s, i).vm == s.vm
  {
  }

  // ----- How small a block gets -----

  /** 8 bytes, twice, and the first freed: a free block of 8 bytes. */
  lemma TinyFree(total: nat, depth: nat)
    requires 4096 + 9 <= total <= 0x10_0000
    ensures var s2 := After(After(KernelStart(total), 8, depth), 8, depth);
      s2.blocks != [] && !FreeAtLeast(Kfree(s2, 0).blocks, 16)
  {
    hide BlocksInv, WindowFree, VmInv, Kmalloc, Kfree, RoundUp, KernelStart;
    KernelStartInv(total);
    RoundTest();
    var s := KernelStart(total);
    KmallocLeaves(s, 8, depth);
    var s1 := Front(s, 0, 8, depth);
    KmallocLeaves(s1, 8, depth);
    var s2 := Front(s1, 1, 8, depth);
    assert s2.blocks[..1][0] == s1.blocks[0];
    KfreeLeaves(s2, 0);
  }

  /** With 24 bytes to spare a block is not split: 4056 bytes take the whole page, and 8 more come from the next. */
  lemma WholePageTaken(total: nat, depth: nat)
    requires 4096 + 9 <= total <= 0x10_0000
    ensures var s, s1 := KernelStart(total), After(KernelStart(total), 4056, depth);
      && Answer(s, 4056, depth) == Returned(0x4000_0010)
      && s1.blocks == KernelPages(true)
      && Answer(s1, 8, depth) == Returned(0x4000_0000 + 4112)
  {
    hide BlocksInv, WindowFree, VmInv, RoundUp, KernelStart, FirstFit;
    KernelStartInv(total);
    RoundTest();
    var s := KernelStart(total);
    FirstFitUnique(s.blocks, 4056, 0);
    var s1 := TakeBlock(s, 0, 4056);
    assert s1.blocks == KernelPages(true);
    FirstFitUnique(s1.blocks, 8, 1);
  }

  // ----- Requests that are not met -----

  /** One byte more than a page leaves is never answered, with any number of pages to start with and at any recursion
      depth. */
  lemma BigRequestHangs(total: nat, pages: nat, depth: nat)
    requires 0 < pages <= 0x1_0000 && KERNEL_PAGES + 1 + 2 * pages <= total <= 0x10_0000
    ensures WellFormed(Started(total, pages).heap.vm.frames)
    ensures !Kmalloc(Started(total, pages).heap, PAGE_SIZE - HEADER + 1, depth).1.Returned?
  {
    hide StackInv, HeapInv, Kmalloc, GrowPage;
    StartedInv(total, pages);
    var s := Started(total, pages);
    StackHeap(s);
    FirstFitUnique(s.heap.blocks, RoundUp(PAGE_SIZE - HEADER + 1), pages);
    KmallocReturnsExactly(s.heap, PAGE_SIZE - HEADER + 1, depth);
  }

  /** The largest 32-bit request gets a page's block. */
  lemma HugeRequestGetsAPage(total: nat, depth: nat)
    requires KERNEL_PAGES + 3 <= total <= 0x10_0000
    ensures WellFormed(Started(total, 1).heap.vm.frames)
    ensures var s := Started(total, 1).heap;
      && Kmalloc(s, TWO32 - 1, depth).1 == Returned(0x4000_0010)
      && !Gives(s, Kmalloc(s, TWO32 - 1, depth).0, 0x4000_0010, TWO32 - 1)
  {
    hide StackInv, HeapInv, Kmalloc, Gives;
    StartedInv(total, 1);
    var s := Started(total, 1).heap;
    StackHeap(Started(total, 1));
    FirstFitUnique(s.blocks, 0, 0);
    WrappedRequest(s, TWO32 - 1, depth);
    RequestMet(s, TWO32 - 1, depth);
  }

  // ----- Counters that drift -----

  /** The first small allocation makes `heap_used` the whole page. */
  lemma UsedDrifts(total: nat)
    requires KERNEL_PAGES + 3 <= total <= 0x10_0000
    ensures WellFormed(Started(total, 1).heap.vm.frames)
    ensures var s1 := Kmalloc(Started(total, 1).heap, 8, 0).0;
      s1.used == 4080 && LiveBytes(s1.blocks) == 8
  {
    hide StackInv, WindowFree, VmInv, Place, LiveBytes, Aligned, FirstFit, Tiled;
    StartedInv(total, 1);
    var s := Started(total, 1).heap;
    StackHeap(Started(total, 1));
    FirstFitUnique(s.blocks, 8, 0);
    OneFree(s.blocks);
    PlaceEffect(s.blocks, 0, 8, s.base, s.base + s.total, HEADER);
  }

  lemma OneFree(bs: seq<Block>)
    requires |bs| == 1 && !bs[0].used
    ensures LiveBytes(bs) == 0
  {
    assert bs[1..] == [];
  }

  /** A client that maps a kernel frame without the present flag makes the mapped counter wrong. */
  lemma MappedDrifts(total: nat)
    requires KERNEL_PAGES + 2 <= total <= 0x10_0000
    ensures var s := Machine(total);
      LegalRun(s, [MapAt(TABLE_SPAN, 0, 0)]) && !Exact(Run(s, [MapAt(TABLE_SPAN, 0, 0)]).heap.vm)
  {
    hide StackInv, HeapInv, Map, CursorAlloc, Key, VmInv;
    var s, op := Machine(total), MapAt(TABLE_SPAN, 0, 0);
    MachineInv(total);
    StackHeap(s);
    BootTables(total);
    assert Or(0, 0) == 0;
    LowKeys(s.heap);
    OneOp(s, op);
    MapCounts(s.heap.vm, TABLE_SPAN, 0, 0);
    LowMapped(s.heap.vm);
  }

  lemma LowKeys(h: Heap)
    requires h.base == HEAP_VIRT && h.room == HEAP_ROOM
    ensures forall w: nat :: InWindow(h, w) ==> Key(h.vm.shared, w) != Key(h.vm.shared, TABLE_SPAN)
  {
    forall w: nat | InWindow(h, w)
      ensures Key(h.vm.shared, w) != Key(h.vm.shared, TABLE_SPAN)
    {
      KeySlot(h.vm.shared, w);
      KeySlot(h.vm.shared, TABLE_SPAN);
      assert Dir(w) == w / TABLE_SPAN && Dir(TABLE_SPAN) == 1;
    }
  }

  lemma LowMapped(vm: Vm)
    requires VmInv(vm) && vm.shared && vm.entries == IdentityEntries() && vm.frames.count < |vm.frames.used|
    ensures CanMap(vm, TABLE_SPAN)
  {
    hide CursorAlloc;
    FrameLeft(vm.frames);
    IdentityKey(TABLE_SPAN);
  }
}
