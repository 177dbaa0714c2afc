/** The kernel heap as a value: its blocks, its counters and the address space it grows in. */
module HeapModel {
  import opened Words
  import opened PageFrames
  import opened Paging
  import opened BlockLayout

  /** The window [base, base + room) is the heap's own; `excess` adds up the remainders of all splits so far. */
  datatype Heap = Heap(base: nat, room: nat, total: nat, blocks: seq<Block>, used: nat, excess: nat, vm: Vm)

  /** `Trapped`: a header write left the mapped window. `TooDeep`: the recursion outran the depth allowed. */
  datatype Outcome = Returned(ptr: int) | Trapped | TooDeep

  const INIT_PAGES := 4

  // ----- The operations -----

  /** `(size + 7) & ~7` in 32 bits. */
  function RoundUp(size: nat): (n: nat)
    ensures n % 8 == 0 && n < TWO32
    ensures size <= TWO32 - 8 ==> size <= n < size + 8
  {
    var s := (size + 7) % TWO32;
    s - s % 8
  }

  /** The least number of pages that hold `n` bytes and a header, as long as the sum does not wrap. */
  function PagesNeeded(n: nat): (p: nat)
    ensures n <= TWO32 - 2 * PAGE_SIZE ==> (p - 1) * PAGE_SIZE < n + HEADER <= p * PAGE_SIZE
  {
    ((n + HEADER) % TWO32 + PAGE_SIZE - 1) % TWO32 / PAGE_SIZE
  }

  datatype Growth = Grown(heap: Heap) | NoFrame | NoWindow

  /** One page: a frame, a mapping, and a free block on the end. */
  ghost function GrowPage(s: Heap): Growth
    requires WellFormed(s.vm.frames)
  {
    var (frames1, phys) := CursorAlloc(s.vm.frames);
    var virt := s.base + s.total;
    if phys == 0 then NoFrame
    else if s.total + PAGE_SIZE > s.room then NoWindow
    else
      var vm1 := Map(s.vm.(frames := frames1), virt, phys, PG_PRESENT + PG_WRITABLE);
      if Key(vm1.shared, virt) !in vm1.entries then NoWindow
      else Grown(s.(total := s.total + PAGE_SIZE, vm := vm1,
                    blocks := s.blocks + [Block(virt, PAGE_SIZE - HEADER, false)]))
  }

  /** `heap_expand`: stops quietly when no frame is left. `None` when a page could not be reached. */
  datatype Expansion = Expanded(heap: Heap) | Lost

  ghost function Expand(s: Heap, pages: nat): Expansion
    requires WellFormed(s.vm.frames)
    decreases pages
  {
    if pages == 0 then Expanded(s)
    else
      match GrowPage(s)
      case NoFrame => Expanded(s)
      case NoWindow => Lost
      case Grown(s1) => if WellFormed(s1.vm.frames) then Expand(s1, pages - 1) else Lost
  }

  /** Take `n` bytes of the free block at `i`; the counter grows by the whole block, before the split. */
  ghost function TakeBlock(s: Heap, i: nat, n: nat): Heap
    requires i < |s.blocks| && s.blocks[i].size >= n
  {
    var size := s.blocks[i].size;
    s.(blocks := Place(s.blocks, i, n, HEADER),
       used := (s.used + size) % TWO32,
       excess := s.excess + if Splits(size, n, HEADER) then size - n else 0)
  }

  /** `kmalloc`, with `depth` recursive calls allowed. */
  ghost function Kmalloc(s: Heap, size: nat, depth: nat): (Heap, Outcome)
    requires WellFormed(s.vm.frames)
    decreases depth
  {
    if size == 0 then (s, Returned(0))
    else
      var n := RoundUp(size);
      var i := FirstFit(s.blocks, n);
      if i < |s.blocks| then (TakeBlock(s, i, n), Returned(s.blocks[i].addr + HEADER))
      else
        match Expand(s, PagesNeeded(n))
        case Lost => (s, Trapped)
        case Expanded(s1) =>
          if depth == 0 || !WellFormed(s1.vm.frames) then (s1, TooDeep) else Kmalloc(s1, n, depth - 1)
  }

  /** `kfree` of the live block at index `i`. */
  ghost function Kfree(s: Heap, i: nat): Heap
    requires i < |s.blocks|
  {
    s.(blocks := Release(s.blocks, i, HEADER), used := (s.used - s.blocks[i].size) % TWO32)
  }

  ghost function Fresh(base: nat, room: nat, vm: Vm): Heap {
    Heap(base, room, 0, [], 0, 0, vm)
  }

  // ----- The invariant of the blocks -----

  ghost predicate Aligned(bs: seq<Block>) {
    forall i :: 0 <= i < |bs| ==> bs[i].addr % 8 == 0 && bs[i].size % 8 == 0
  }

  /** Nothing is mapped yet in the part of the window the heap has still to grow into. */
  ghost predicate WindowFree(s: Heap) {
    forall v :: s.base + s.total <= v < s.base + s.room ==> Key(s.vm.shared, v) !in s.vm.entries
  }

  ghost predicate BlocksInv(s: Heap) {
    && TABLE_SPAN <= s.base && s.base % PAGE_SIZE == 0 && s.total % PAGE_SIZE == 0
    && s.total <= s.room && s.base + s.room <= TWO32
    && Tiled(s.blocks, s.base, s.base + s.total, HEADER)
    && Aligned(s.blocks)
    && s.used == (LiveBytes(s.blocks) + s.excess) % TWO32
  }

  lemma TakeKeepsBlocks(s: Heap, i: nat, n: nat)
    requires BlocksInv(s) && i < |s.blocks| && !s.blocks[i].used && s.blocks[i].size >= n && n % 8 == 0
    ensures BlocksInv(TakeBlock(s, i, n))
    ensures var got := Taken(s.blocks[i], n, HEADER)[0];
      && got.addr == s.blocks[i].addr && n <= got.size && got !in Live(s.blocks)
      && Live(TakeBlock(s, i, n).blocks) == Live(s.blocks) + {got}
  {
    hide Aligned, Live;
    var size := s.blocks[i].size;
    PlaceEffect(s.blocks, i, n, s.base, s.base + s.total, HEADER);
    PlaceAligned(s.blocks, i, n);
    TakeCounts(s.used, LiveBytes(s.blocks), s.excess, size, Taken(s.blocks[i], n, HEADER)[0].size);
  }

  lemma TakeCounts(used: nat, live: int, excess: nat, size: int, got: int)
    requires used == (live + excess) % TWO32
    ensures (used + size) % TWO32 == (live + got + (excess + (size - got))) % TWO32
  {
    AddModulo(live + excess, size);
  }

  lemma PlaceAligned(bs: seq<Block>, i: nat, n: nat)
    requires Aligned(bs) && i < |bs| && n % 8 == 0
    ensures Aligned(Place(bs, i, n, HEADER))
  {
    var t := Taken(bs[i], n, HEADER);
    TakenAligned(bs[i], n);
    AlignedParts(bs, i);
    hide Aligned, Taken;
    AlignedAppend(bs[..i], t);
    AlignedAppend(bs[..i] + t, bs[i + 1..]);
  }

  lemma AlignedParts(bs: seq<Block>, i: nat)
    requires Aligned(bs) && i < |bs|
    ensures Aligned(bs[..i]) && Aligned(bs[i + 1..])
  {
  }

  lemma TakenAligned(b: Block, n: nat)
    requires b.addr % 8 == 0 && b.size % 8 == 0 && n % 8 == 0
    ensures Aligned(Taken(b, n, HEADER))
  {
    Eights(b.addr, b.size, n);
    if Splits(b.size, n, HEADER) {
      assert Taken(b, n, HEADER) == [Block(b.addr, n, true), Block(b.addr + HEADER + n, b.size - n - HEADER, false)];
    }
  }

  lemma Eights(addr: int, size: int, n: nat)
    requires addr % 8 == 0 && size % 8 == 0 && n % 8 == 0
    ensures (addr + HEADER + n) % 8 == 0 && (size - n - HEADER) % 8 == 0
  {
  }

  lemma AlignedAppend(a: seq<Block>, b: seq<Block>)
    requires Aligned(a) && Aligned(b)
    ensures Aligned(a + b)
  {
  }

  lemma AddModulo(x: int, y: int)
    ensures (x % TWO32 + y) % TWO32 == (x + y) % TWO32
  {
  }

  lemma FreeKeepsBlocks(s: Heap, i: nat)
    requires BlocksInv(s) && i < |s.blocks| && s.blocks[i].used
    ensures BlocksInv(Kfree(s, i)) && Coalesced(Kfree(s, i).blocks)
    ensures Live(Kfree(s, i).blocks) == Live(s.blocks) - {s.blocks[i]}
  {
    ReleaseEffect(s.blocks, i, s.base, s.base + s.total, HEADER);
    AddModulo(LiveBytes(s.blocks) + s.excess, -s.blocks[i].size);
    CoalesceAligned(Freed(s.blocks, i));
  }

  lemma {:induction false} CoalesceAligned(bs: seq<Block>)
    requires Aligned(bs)
    ensures Aligned(Coalesce(bs, HEADER))
    decreases |bs|
  {
    if |bs| < 2 {
    } else if !bs[0].used && !bs[1].used {
      CoalesceAligned([Merge(bs[0], bs[1], HEADER)] + bs[2..]);
    } else {
      CoalesceAligned(bs[1..]);
    }
  }

  /** One more page block on the end. */
  lemma AppendKeepsBlocks(s: Heap, s1: Heap)
    requires BlocksInv(s) && s.total + PAGE_SIZE <= s.room && (s.base + s.total) % PAGE_SIZE == 0
    requires s1.base == s.base && s1.room == s.room && s1.used == s.used && s1.excess == s.excess
    requires s1.total == s.total + PAGE_SIZE
    requires s1.blocks == s.blocks + [Block(s.base + s.total, PAGE_SIZE - HEADER, false)]
    ensures BlocksInv(s1) && Live(s1.blocks) == Live(s.blocks)
  {
    hide Tiled, Aligned, Live, LiveBytes;
    var virt := s.base + s.total;
    var block := Block(virt, PAGE_SIZE - HEADER, false);
    AppendTiled(s.blocks, block, s.base, virt);
    PageAligned(virt);
    OneAligned(block);
    AlignedAppend(s.blocks, [block]);
  }

  lemma OneAligned(b: Block)
    requires b.addr % 8 == 0 && b.size % 8 == 0
    ensures Aligned([b])
  {
  }

  lemma PageAligned(virt: nat)
    requires virt % PAGE_SIZE == 0
    ensures virt % 8 == 0 && (PAGE_SIZE - HEADER) % 8 == 0
  {
    assert virt == 8 * (512 * (virt / PAGE_SIZE));
  }

  lemma AppendTiled(bs: seq<Block>, b: Block, lo: int, hi: int)
    requires Tiled(bs, lo, hi, HEADER) && b.addr == hi && b.size >= 0 && !b.used
    ensures Tiled(bs + [b], lo, hi + HEADER + b.size, HEADER)
    ensures LiveBytes(bs + [b]) == LiveBytes(bs) && Live(bs + [b]) == Live(bs)
  {
    assert [b][1..] == [];
    TiledJoin(bs, [b], lo, hi, hi + HEADER + b.size, HEADER);
    BytesAppend(bs, [b]);
    assert LiveBytes([b]) == 0;
  }

  // ----- Growing -----

  /** One page grown: the new block is on the end, its page translates to a frame of its own and can be written, and the
      rest of the window is still free. */
  lemma GrowPageEffect(s: Heap)
    requires BlocksInv(s) && WindowFree(s) && VmInv(s.vm)
    ensures GrowPage(s).Grown? ==>
      var s1, virt, phys := GrowPage(s).heap, s.base + s.total, CursorAlloc(s.vm.frames).1;
      && BlocksInv(s1) && WindowFree(s1) && VmInv(s1.vm) && WellFormed(s1.vm.frames) && Live(s1.blocks) == Live(s.blocks)
      && s1.vm.shared == s.vm.shared
      && Key(s.vm.shared, virt) in s1.vm.entries && FrameOf(s1.vm.entries[Key(s.vm.shared, virt)]) == phys
      && s1.vm.entries[Key(s.vm.shared, virt)] == phys + 3
      && (forall k :: k in s.vm.entries ==> k in s1.vm.entries && s1.vm.entries[k] == s.vm.entries[k])
  {
    hide TablesInv, EntriesInv, WindowFree, Tiled, Aligned, Live, LiveBytes, Map, CursorAlloc, FrameOf;
    if GrowPage(s).Grown? {
      var (frames1, phys) := CursorAlloc(s.vm.frames);
      var vm0, s1 := s.vm.(frames := frames1), GrowPage(s).heap;
      AllocSparesTables(s.vm);
      AllocWord(s.vm.frames);
      NextUnmapped(s);
      MapNext(vm0, s.base + s.total, phys);
      WindowShrinks(s, s1);
      WindowAligned(s);
      AppendKeepsBlocks(s, s1);
    }
  }

  lemma NextUnmapped(s: Heap)
    requires WindowFree(s) && s.total < s.room
    ensures Key(s.vm.shared, s.base + s.total) !in s.vm.entries
  {
  }

  /** A writable mapping of an unmapped page to an aligned frame. */
  lemma MapNext(vm: Vm, virt: nat, phys: nat)
    requires VmInv(vm) && phys < TWO32 && phys % PAGE_SIZE == 0 && Key(vm.shared, virt) !in vm.entries
    ensures var vm1, k := Map(vm, virt, phys, PG_PRESENT + PG_WRITABLE), Key(vm.shared, virt);
      && VmInv(vm1) && vm1.shared == vm.shared
      && (k in vm1.entries <==> HasTable(vm, virt))
      && (k in vm1.entries ==>
            && FrameOf(vm1.entries[k]) == phys && vm1.entries[k] == phys + 3
            && vm1.entries == vm.entries[k := vm1.entries[k]])
      && (k !in vm1.entries ==> vm1.entries == vm.entries)
  {
    hide TablesInv, EntriesInv, CursorInv, Map;
    var flags := PG_PRESENT + PG_WRITABLE;
    MapInv(vm, virt, phys, flags);
    MapEntries(vm, virt, phys, flags);
    AlignedMapping(phys, flags);
  }

  lemma AllocWord(frames: Frames)
    requires WellFormed(frames) && |frames.used| <= 0x10_0000
    ensures CursorAlloc(frames).1 < TWO32 && CursorAlloc(frames).1 % PAGE_SIZE == 0
  {
    AllocAddress(frames);
  }

  lemma WindowAligned(s: Heap)
    requires BlocksInv(s)
    ensures (s.base + s.total) % PAGE_SIZE == 0
  {
  }

  /** Mapping the next page of the window leaves the pages above it unmapped. */
  lemma WindowShrinks(s: Heap, s1: Heap)
    requires BlocksInv(s) && WindowFree(s)
    requires s1.base == s.base && s1.room == s.room && s1.total == s.total + PAGE_SIZE && s1.vm.shared == s.vm.shared
    requires forall k :: k in s1.vm.entries ==> k in s.vm.entries || k == Key(s.vm.shared, s.base + s.total)
    ensures WindowFree(s1)
  {
    var virt := s.base + s.total;
    forall v | virt + PAGE_SIZE <= v < s.base + s.room
      ensures Key(s.vm.shared, v) !in s1.vm.entries
    {
      KeysDiffer(s, v);
    }
  }

  lemma KeysDiffer(s: Heap, v: nat)
    requires BlocksInv(s) && s.base + s.total + PAGE_SIZE <= v < s.base + s.room
    ensures Key(s.vm.shared, v) != Key(s.vm.shared, s.base + s.total)
  {
    var virt := s.base + s.total;
    SameKey(s.vm.shared, v, virt);
    DirPositive(v);
    DirPositive(virt);
  }

  lemma DirPositive(v: nat)
    requires TABLE_SPAN <= v < TWO32
    ensures Dir(v) > 0
  {
  }
}
