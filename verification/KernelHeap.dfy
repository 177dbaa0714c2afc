/** The kernel heap in memory: headers and links are words at addresses, pages come from the frame allocator and the
    page tables. */
module KernelHeap {
  import opened Words
  import opened PageFrames
  import opened Paging
  import opened PageTables
  import opened BlockLayout
  import opened FreeList
  import opened HeapMemory
  import opened HeapModel
  import opened MemoryStack
  import opened HeapBacking

  /** How growing by one page went: done, no frame left, or the page could not be reached. */
  datatype Step = Stepped | Dry | Trap

  class KHeap {
    const vmm: Vmm
    const base: nat
    const room: nat
    var mem: Mem
    var heapStart: int
    var freeList: int
    var heapTotal: nat
    var heapUsed: nat
    var heapBlocks: int
    ghost var state: Heap

    /** Every word of every page of the heap is mapped. */
    ghost predicate WordsMapped()
      reads `mem, `state
    {
      forall a :: state.base <= a < state.base + state.total && a % 4 == 0 ==> a in mem
    }

    /** The page tables are in order, and the heap's words are words of physical memory found by translation. */
    ghost predicate Coherent()
      reads `mem, vmm, vmm.pmm, vmm.pmm.bitmap, vmm.pageDir
    {
      vmm.Valid() && Backed(mem, vmm.state, vmm.ram) && KeysWithin(mem, base, base + room)
    }

    ghost predicate Counters()
      reads this
    {
      && heapStart == (if state.total == 0 then 0 else base)
      && heapTotal == state.total && heapUsed == state.used && heapBlocks == |state.blocks|
    }

    ghost predicate Valid()
      reads this, vmm, vmm.pmm, vmm.pmm.bitmap, vmm.pageDir
    {
      && Coherent() && state.vm == vmm.state
      && state.base == base && state.room == room
      && BlocksInv(state) && WindowFree(state)
      && WordsMapped() && Counters()
      && Shows(mem, state.blocks, freeList, KERNEL)
    }

    /** The heap before its first page, over a window nothing is mapped in. */
    constructor (vmm: Vmm, base: nat, room: nat)
      requires vmm.Valid()
      requires TABLE_SPAN <= base && base % PAGE_SIZE == 0 && base + room <= TWO32
      requires WindowFree(HeapModel.Fresh(base, room, vmm.state))
      ensures Valid() && state == HeapModel.Fresh(base, room, vmm.state)
      ensures this.vmm == vmm && this.base == base && this.room == room
    {
      this.vmm, this.base, this.room := vmm, base, room;
      mem := map[];
      heapStart, freeList := 0, 0;
      heapTotal, heapUsed, heapBlocks := 0, 0, 0;
      state := HeapModel.Fresh(base, room, vmm.state);
      new;
      NothingBacked(vmm.state, vmm.ram);
    }

    lemma TablesInOrder()
      requires Valid()
      ensures VmInv(state.vm) && WellFormed(state.vm.frames)
    {
      hide Backed, Shows, BlocksInv, PagesShow;
    }

    /** A store to a heap word: the walk finds the physical word, which is no table's. */
    method Poke(a: int, v: int)
      requires Coherent() && a in mem && 0 <= v < TWO32
      modifies `mem, vmm`ram
      ensures Coherent() && mem == old(mem)[a := v]
    {
      hide VmInv, PagesShow, Translate, Behind, IsTable, Backed;
      BackedWord(mem, vmm.state, vmm.ram, a);
      StoreBacked(mem, vmm.state, vmm.ram, a, v);
      var phys := vmm.VToP(a);
      var f, i := phys / PAGE_SIZE, phys % PAGE_SIZE / 4;
      var w: Word := v;
      ForeignWrite(vmm.state, vmm.pageDir[..], vmm.ram, f, vmm.ram[f][i := w]);
      vmm.StoreWord(f, i, w);
      mem := mem[a := v];
    }

    /** Addresses and words of the heap are words of the machine. */
    lemma MachineWord(a: int)
      requires Coherent() && a in mem
      ensures 0 <= a < TWO32 && 0 <= mem[a] < TWO32
    {
      hide Backed, Translate;
      BackedWord(mem, vmm.state, vmm.ram, a);
    }

    /** Takes position `k` out of the list. */
    method Unlink(c: int, ghost f: seq<int>, ghost k: nat)
      requires Coherent()
      requires Linked(mem, f, KERNEL) && k < |f| && f[k] == c && (k > 0 ==> freeList == f[0])
      modifies `mem, `freeList, vmm`ram
      ensures Coherent()
      ensures Linked(mem, Removed(f, k), KERNEL) && freeList == At(Removed(f, k), 0)
      ensures SameExcept(old(mem), mem, {At(f, k - 1) + 8, At(f, k + 1) + 12})
    {
      hide Coherent;
      assert Node(mem, f, k, KERNEL);
      ghost var m := mem;
      MachineWord(c + 8);
      MachineWord(c + 12);
      if mem[c + 12] != 0 {
        assert Node(mem, f, k - 1, KERNEL);
        Poke(mem[c + 12] + 8, mem[c + 8]);
      } else {
        freeList := mem[c + 8];
      }
      if mem[c + 8] != 0 {
        assert Node(m, f, k + 1, KERNEL);
        Poke(mem[c + 8] + 12, mem[c + 12]);
      }
      ListRemove(m, mem, f, k, KERNEL);
    }

    /** Links `r` in right after `c`. */
    method LinkAfter(c: int, r: int, ghost f: seq<int>, ghost k: nat)
      requires Coherent()
      requires Linked(mem, f, KERNEL) && k < |f| && f[k] == c && Fits(f, k + 1, r, KERNEL)
      requires r + 8 in mem && r + 12 in mem
      modifies `mem, vmm`ram
      ensures Coherent()
      ensures SameExcept(old(mem), mem, {r + 8, r + 12, c + 8, At(f, k + 1) + 12})
      ensures Linked(mem, Inserted(f, k + 1, r), KERNEL)
    {
      hide Coherent;
      hide Linked, Inserted;
      LinkedNode(mem, f, k, KERNEL);
      if k + 1 < |f| { LinkedNode(mem, f, k + 1, KERNEL); }
      ghost var m := mem;
      LinkedAddr(mem, f, k, KERNEL);
      MachineWord(c + 8);
      MachineWord(r + 8);
      Poke(r + 8, mem[c + 8]);
      Poke(r + 12, c);
      if mem[c + 8] != 0 {
        Poke(mem[c + 8] + 12, r);
      }
      Poke(c + 8, r);
      ListInsert(m, mem, f, k + 1, r, KERNEL);
    }

    /** Size and used word of the remainder. */
    method WriteRest(r: int, size: int)
      requires Coherent() && r in mem && r + 4 in mem && 0 <= size < TWO32
      modifies `mem, vmm`ram
      ensures Coherent() && mem == old(mem)[r := size][r + 4 := 0]
    {
      hide Coherent;
      Poke(r, size);
      Poke(r + 4, 0);
    }

    /** `split_block`: the remainder goes on the list right after the block. */
    method SplitBlock(c: int, n: int, ghost size: int, ghost f: seq<int>, ghost k: nat)
      requires Coherent() && n >= 0
      requires Linked(mem, f, KERNEL) && k < |f| && f[k] == c && Holds(mem, c, size)
      requires var r := c + HEADER + n;
        Splits(size, n, HEADER) ==> Fits(f, k + 1, r, KERNEL) && r in mem && r + 4 in mem && r + 8 in mem && r + 12 in mem
      modifies `mem, `freeList, `heapBlocks, vmm`ram
      ensures Coherent()
      ensures var r := c + HEADER + n;
        if Splits(size, n, HEADER)
        then
          && Linked(mem, Inserted(f, k + 1, r), KERNEL) && SameExcept(old(mem), mem, SplitWords(c, r, At(f, k + 1)))
          && Holds(mem, r, size - n - HEADER) && Holds(mem, r + 4, 0) && r + 8 in mem && r + 12 in mem && Holds(mem, c, n)
          && heapBlocks == old(heapBlocks) + 1 && freeList == if old(freeList) == c then r else old(freeList)
        else mem == old(mem) && heapBlocks == old(heapBlocks) && freeList == old(freeList)
    {
      hide Coherent;
      var remaining := mem[c] - n;
      if remaining >= HEADER + 16 {
        hide Linked, SameExcept, SplitWords, Inserted;
        MachineWord(c);
        ghost var m0 := mem;
        var r := c + HEADER + n;
        WriteRest(r, remaining - HEADER);
        ghost var m1 := mem;
        FreshLinks(m0, m1, f, k + 1, r);
        LinkAfter(c, r, f, k);
        ghost var m2 := mem;
        Touched(m1, m2, {r + 8, r + 12, c + 8, At(f, k + 1) + 12});
        Poke(c, n);
        OneWord(m2, mem, c, n);
        if freeList == c {
          freeList := r;
        }
        heapBlocks := heapBlocks + 1;
        SizeLinks(m2, mem, f, k, c, r);
        SplitFrame(m0, m1, m2, mem, c, r, At(f, k + 1));
      }
    }

    /** Splits a listed block and takes it off the list. */
    method TakeOff(c: int, n: int, ghost size: int, ghost f: seq<int>, ghost k: nat)
      requires Coherent()
      requires Linked(mem, f, KERNEL) && k < |f| && f[k] == c && Holds(mem, c, size) && freeList == f[0] && n >= 0
      requires var r := c + HEADER + n;
        Splits(size, n, HEADER) ==> Fits(f, k + 1, r, KERNEL) && r in mem && r + 4 in mem && r + 8 in mem && r + 12 in mem
      modifies `mem, `freeList, `heapBlocks, vmm`ram
      ensures Coherent()
      ensures var r := c + HEADER + n;
        var g := if Splits(size, n, HEADER) then Removed(Inserted(f, k + 1, r), k) else Removed(f, k);
        && Linked(mem, g, KERNEL) && freeList == At(g, 0)
        && SameExcept(old(mem), mem, TakeOffWords(c, r, At(f, k - 1), At(f, k + 1), Splits(size, n, HEADER)))
        && (Splits(size, n, HEADER) ==> SplitShown(mem, c, r, n, size))
        && heapBlocks == old(heapBlocks) + if Splits(size, n, HEADER) then 1 else 0
    {
      hide Coherent;
      hide Removed, Inserted, Linked;
      ghost var r, split := c + HEADER + n, Splits(size, n, HEADER);
      ListApart(mem, f, k);
      SplitHead(f, k, r);
      SplitBlock(c, n, size, f, k);
      ghost var m := mem;
      Unlink(c, if split then Inserted(f, k + 1, r) else f, k);
      TakeOffFrame(old(mem), m, mem, c, r, n, size, At(f, k - 1), At(f, k + 1), split);
    }

    /** Marks a free block used, splits it and takes it off the list. */
    method TakeMemory(c: int, n: nat, ghost i: nat)
      requires Coherent()
      requires BlocksInv(state) && WordsMapped() && Shows(mem, state.blocks, freeList, KERNEL)
      requires i < |state.blocks| && !state.blocks[i].used && state.blocks[i].size >= n && n % 8 == 0
      requires state.blocks[i].addr == c
      modifies `mem, `freeList, `heapBlocks, `heapUsed, vmm`ram
      ensures Coherent()
      ensures Shows(mem, Place(state.blocks, i, n, HEADER), freeList, KERNEL)
      ensures PayloadKept(old(mem), mem, state.blocks, KERNEL)
      ensures heapUsed == (old(heapUsed) + state.blocks[i].size) % TWO32
      ensures heapBlocks == old(heapBlocks) + if Splits(state.blocks[i].size, n, HEADER) then 1 else 0
    {
      hide Coherent;
      hide Linked, Aligned, LiveBytes, TakeOffWords, PayloadKept, Tiled;
      hide Removed, Inserted, SplitShown, HeadersShown, Place, FreeAddrs;
      ghost var bs, lo, hi := state.blocks, state.base, state.base + state.total;
      ghost var f, k, size := FreeAddrs(bs), ListIndex(bs, i), bs[i].size;
      ghost var m0 := mem;
      TakeList(bs, i, n);
      ShownAt(mem, bs, i, KERNEL);
      if Splits(size, n, HEADER) {
        RestFits(bs, i, n, lo, hi, KERNEL);
        RestMapped(mem, bs, i, n, lo, hi);
      }
      Poke(c + 4, 1);
      heapUsed := (heapUsed + mem[c]) % TWO32;
      ghost var m1 := mem;
      UsedLinks(m0, m1, f, k);
      TakeOff(c, n, size, f, k);
      TakeShown(m0, m1, mem, bs, i, n, lo, hi);
    }

    /** The `while(last && last->next)` walk to the end of the list. */
    method LastFree() returns (last: int)
      requires Shows(mem, state.blocks, freeList, KERNEL)
      ensures var f := FreeAddrs(state.blocks); last == At(f, |f| - 1)
    {
      ghost var f, k := FreeAddrs(state.blocks), 0;
      last := freeList;
      assert last != 0 ==> Node(mem, f, k, KERNEL);
      while last != 0 && mem[last + 8] != 0
        invariant last == At(f, k) && 0 <= k && (last != 0 ==> k < |f| && Node(mem, f, k, KERNEL))
        invariant last == 0 ==> f == []
        decreases |f| - k
      {
        assert Node(mem, f, k + 1, KERNEL);
        last := mem[last + 8];
        k := k + 1;
      }
    }

    /** The words of a page's frame join the heap's memory. */
    method JoinPage(virt: int, phys: nat)
      requires Coherent() && FreshFrame(mem, vmm.state, virt, phys) && InsideWindow(virt, base, room)
      modifies `mem
      ensures Coherent() && |vmm.ram| == FRAMES && phys / PAGE_SIZE < FRAMES
      ensures mem == old(mem) + PageView(virt, vmm.ram[phys / PAGE_SIZE])
    {
      hide VmInv, PagesShow, Backed, PageView, FrameOf, IsTable, Key;
      var f := phys / PAGE_SIZE;
      JoinBacked(mem, vmm.state, vmm.ram, virt, phys);
      KeysJoin(mem, virt, vmm.ram[f], base, base + room);
      mem := mem + PageView(virt, vmm.ram[f]);
    }

    /** The page's words, with the header of a free block over the whole page. */
    method InitBlock(virt: int, phys: nat)
      requires Coherent() && FreshFrame(mem, vmm.state, virt, phys) && InsideWindow(virt, base, room)
      modifies `mem, vmm`ram
      ensures Coherent()
      ensures PageChanged(old(mem), mem, virt) && FreshPage(mem, virt) && Holds(mem, virt + 12, 0)
      ensures PageKeys(virt) <= mem.Keys
    {
      hide Coherent, PageView;
      ghost var m := mem;
      JoinPage(virt, phys);
      ghost var words := vmm.ram[phys / PAGE_SIZE];
      ghost var m1 := mem;
      PageViewKeys(virt, words);
      FirstWords(virt);
      Poke(virt, PAGE_SIZE - HEADER);
      Poke(virt + 4, 0);
      Poke(virt + 8, 0);
      Poke(virt + 12, 0);
      HeaderInPage(m, m1, mem, virt, words);
    }

    /** Links the page's block behind the last free one. */
    method LinkLast(last: int, virt: int)
      requires Coherent() && last + 8 in mem && virt + 12 in mem && last >= 0 && virt >= 0
      modifies `mem, vmm`ram
      ensures Coherent() && mem == old(mem)[last + 8 := virt][virt + 12 := last]
    {
      hide Coherent;
      MachineWord(last + 8);
      MachineWord(virt + 12);
      Poke(last + 8, virt);
      Poke(virt + 12, last);
    }

    /** The page's block goes to the end of the list. */
    method AppendBlock(virt: int, phys: nat)
      requires Coherent() && FreshFrame(mem, vmm.state, virt, phys) && InsideWindow(virt, base, room)
      requires BlocksInv(state) && Shows(mem, state.blocks, freeList, KERNEL) && Counters()
      requires virt == state.base + state.total && state.base == base
      modifies `mem, `freeList, `heapBlocks, `heapTotal, `heapStart, vmm`ram
      ensures Coherent()
      ensures Shows(mem, Appended(state.blocks, virt), freeList, KERNEL)
      ensures PayloadKept(old(mem), mem, state.blocks, KERNEL)
      ensures PageKeys(virt) <= mem.Keys && old(mem).Keys <= mem.Keys
      ensures heapTotal == state.total + PAGE_SIZE && heapStart == base && heapBlocks == |state.blocks| + 1
    {
      hide Aligned, LiveBytes, Tiled, Shows, PayloadKept, FreshPage, Coherent, FreshFrame, PageKeys;
      ghost var bs, f, head := state.blocks, FreeAddrs(state.blocks), freeList;
      heapTotal := heapTotal + PAGE_SIZE;
      InitBlock(virt, phys);
      PageKeeps(old(mem), mem, bs, freeList, base, virt);
      ghost var m1 := mem;
      if heapStart == 0 {
        EmptyHeap(bs, base, HEADER);
        heapStart := virt;
        freeList := heapStart;
        heapBlocks := 1;
      } else {
        var last := LastFree();
        if last != 0 {
          LastMapped(mem, bs, head, base, virt);
          LinkLast(last, virt);
        } else {
          freeList := virt;
        }
        heapBlocks := heapBlocks + 1;
      }
      AppendShows(m1, mem, bs, head, freeList, base, virt);
      PayloadTrans(old(mem), m1, mem, bs, bs, KERNEL);
      KeysKept(old(mem), mem, bs);
    }

    /** A frame, mapped writable at the next page of the window. */
    method MapFresh(virt: nat) returns (r: Step, phys: nat)
      requires Valid() && virt == base + heapTotal
      modifies vmm`state, vmm`totalMapped, vmm`ram, vmm.pmm`usedPages, vmm.pmm`lastAllocIndex, vmm.pmm.bitmap, vmm.pageDir
      ensures match GrowPage(state)
        case Grown(s1) => r == Stepped && Coherent() && vmm.state == s1.vm && FreshFrame(mem, vmm.state, virt, phys)
        case NoFrame => r == Dry && Coherent() && vmm.state == old(vmm.state)
        case NoWindow => r == Trap
    {
      hide BlocksInv, TablesInv, EntriesInv, CursorInv, PagesShow, Shows, CursorAlloc, Map, FrameOf, Backed, FreshFrame;
      ghost var vm, ram := vmm.state, vmm.ram;
      RoomFits(state);
      WindowAligned(state);
      AllocSparesTables(state.vm);
      AllocWord(state.vm.frames);
      phys := vmm.AllocFrame();
      AlignedMapping(phys, PG_PRESENT + PG_WRITABLE);
      if phys == 0 {
        NoFrameLeft(state.vm.frames);
        return Dry, 0;
      }
      if heapTotal + PAGE_SIZE > room {
        return Trap, 0;
      }
      NextUnmapped(state);
      var faulted := vmm.MapPage(virt, phys, PG_PRESENT + PG_WRITABLE);
      MapNext(state.vm.(frames := CursorAlloc(state.vm.frames).0), virt, phys);
      var reached := vmm.VToP(virt);
      if reached != 0 { FreshMapped(mem, vm, ram, vmm.ram, virt, phys); }
      r := if reached == 0 then Trap else Stepped;
    }

    /** One turn of `heap_expand`. */
    method GrowOne() returns (r: Step)
      requires Valid()
      modifies this, vmm`state, vmm`totalMapped, vmm`ram, vmm.pmm`usedPages, vmm.pmm`lastAllocIndex, vmm.pmm.bitmap, vmm.pageDir
      ensures match GrowPage(old(state))
        case Grown(s1) => r == Stepped && Valid() && state == s1 && PayloadKept(old(mem), mem, old(state.blocks), KERNEL)
        case NoFrame => r == Dry && Valid() && state == old(state) && mem == old(mem)
        case NoWindow => r == Trap
    {
      hide Tiled, Aligned, LiveBytes, Live, VmInv, PagesShow;
      hide Shows, PayloadKept, CursorAlloc, Map, PageView, WindowFree;
      hide Coherent;
      TablesInOrder();
      GrowPageEffect(state);
      var virt := base + heapTotal;
      var phys;
      r, phys := MapFresh(virt);
      if r == Stepped {
        ghost var s, m := state, mem;
        RoomLeft(s);
        AppendBlock(virt, phys);
        state := GrowPage(s).heap;
        WordsGrow(m, mem, s);
      }
    }

    /** `heap_expand`: false when a page could not be reached. */
    method HeapExpand(pages: nat) returns (ok: bool)
      requires Valid()
      modifies this, vmm`state, vmm`totalMapped, vmm`ram, vmm.pmm`usedPages, vmm.pmm`lastAllocIndex, vmm.pmm.bitmap, vmm.pageDir
      ensures match Expand(old(state), pages)
        case Expanded(s1) =>
          && ok && Valid() && state == s1
          && PayloadKept(old(mem), mem, old(state.blocks), KERNEL) && Live(state.blocks) == Live(old(state.blocks))
        case Lost => !ok
    {
      hide BlocksInv, WindowFree, Live, VmInv, PagesShow, Shows, PayloadKept, CursorAlloc, Map, GrowPage;
      ghost var s, m := state, mem;
      PayloadSame(mem, state.blocks, KERNEL);
      for i := 0 to pages
        invariant Valid() && Expand(s, pages) == Expand(state, pages - i)
        invariant PayloadKept(m, mem, s.blocks, KERNEL) && Live(state.blocks) == Live(s.blocks)
      {
        ghost var s1, m1 := state, mem;
        GrowPageEffect(s1);
        var r := GrowOne();
        if r != Stepped {
          return r == Dry;
        }
        SameLive(s.blocks, s1.blocks);
        PayloadTrans(m, m1, mem, s.blocks, s1.blocks, KERNEL);
      }
      ok := true;
    }

    /** The first-fit walk: the block found, or null. */
    method FindFit(n: nat) returns (c: int)
      requires Valid()
      ensures var i := FirstFit(state.blocks, n);
        c == AddrAt(state.blocks, i) && (i < |state.blocks| <==> c != 0)
    {
      hide Coherent;
      hide Aligned, LiveBytes, Live, VmInv, PagesShow, WindowFree, Tiled, Linked;
      ghost var bs := state.blocks;
      BlocksApart(bs, base, base + state.total, KERNEL);
      HeadLink(bs);
      c := freeList;
      ghost var i: nat := NextFree(bs, 0);
      while c != 0
        invariant i <= |bs| && c == AddrAt(bs, i) && (i < |bs| ==> !bs[i].used)
        invariant forall j :: 0 <= j < i ==> bs[j].used || bs[j].size < n
        decreases |bs| - i
      {
        ShownAt(mem, bs, i, KERNEL);
        if mem[c + 4] == 0 && mem[c] >= n {
          FirstFitUnique(bs, n, i);
          return;
        }
        NextLink(mem, bs, i, KERNEL);
        c := mem[c + 8];
        i := NextFree(bs, i + 1);
      }
      FirstFitUnique(bs, n, i);
    }

    /** Takes the free block found. */
    method TakeFound(c: int, n: nat, ghost i: nat)
      requires Valid() && i < |state.blocks| && state.blocks[i].addr == c
      requires !state.blocks[i].used && state.blocks[i].size >= n && n % 8 == 0
      modifies `mem, `freeList, `heapBlocks, `heapUsed, `state, vmm`ram
      ensures Valid() && state == TakeBlock(old(state), i, n)
      ensures PayloadKept(old(mem), mem, old(state.blocks), KERNEL)
    {
      hide Coherent;
      hide Tiled, Aligned, LiveBytes, Live, VmInv, PagesShow, Shows, PayloadKept, WindowFree, Place;
      ghost var s, m := state, mem;
      TakeKeepsBlocks(s, i, n);
      TakeCount(s, i, n);
      TakeMemory(c, n, i);
      KeysKept(m, mem, s.blocks);
      state := TakeBlock(s, i, n);
      SameWindow(s, state);
    }

    /** `kmalloc`, with at most `depth` recursive calls. */
    method Kmalloc(size: Word, depth: nat) returns (r: Outcome)
      requires Valid()
      modifies this, vmm`state, vmm`totalMapped, vmm`ram, vmm.pmm`usedPages, vmm.pmm`lastAllocIndex, vmm.pmm.bitmap, vmm.pageDir
      ensures var (s1, o) := HeapModel.Kmalloc(old(state), size, depth);
        r == o && (o != Trapped ==> Valid() && state == s1 && PayloadKept(old(mem), mem, old(state.blocks), KERNEL))
      decreases depth
    {
      hide BlocksInv, Live, VmInv, PagesShow, Shows, PayloadKept, WindowFree, TakeBlock, Expand, RoundUp, PagesNeeded;
      ghost var s, m := state, mem;
      PayloadSame(mem, s.blocks, KERNEL);
      if size == 0 {
        return Returned(0);
      }
      var n := RoundSize(size);
      var c := FindFit(n);
      if c != 0 {
        TakeFound(c, n, FirstFit(s.blocks, n));
        return Returned(c + HEADER);
      }
      var pages := PageCount(n);
      var ok := HeapExpand(pages);
      if !ok {
        return Trapped;
      }
      if depth == 0 {
        return TooDeep;
      }
      ghost var s1, m1 := state, mem;
      r := Kmalloc(n, depth - 1);
      if r != Trapped {
        SameLive(s.blocks, s1.blocks);
        PayloadTrans(m, m1, mem, s.blocks, s1.blocks, KERNEL);
      }
    }

    /** The block at the gap found goes onto the list. */
    method LinkBetween(block: int, prev: int, current: int, ghost f: seq<int>, ghost k: nat)
      requires Coherent()
      requires k <= |f| && prev == At(f, k - 1) && current == At(f, k) && freeList == At(f, 0)
      requires Linked(mem, f, KERNEL) && Fits(f, k, block, KERNEL) && block + 8 in mem && block + 12 in mem
      modifies `mem, `freeList, vmm`ram
      ensures Coherent()
      ensures SameExcept(old(mem), mem, {block + 8, block + 12, prev + 8, current + 12})
      ensures Holds(mem, block + 8, current) && Holds(mem, block + 12, prev)
      ensures (k > 0 ==> Holds(mem, prev + 8, block)) && (k < |f| ==> Holds(mem, current + 12, block))
      ensures freeList == At(Inserted(f, k, block), 0)
    {
      hide Coherent;
      assert k > 0 ==> Node(mem, f, k - 1, KERNEL) && prev + HEADER <= block;
      assert k < |f| ==> Node(mem, f, k, KERNEL) && block + HEADER <= current;
      MachineWord(block + 8);
      if k > 0 { MachineWord(prev + 8); }
      if k < |f| { MachineWord(current + 8); }
      Poke(block + 12, prev);
      Poke(block + 8, current);
      if prev != 0 {
        Poke(prev + 8, block);
      } else {
        freeList := block;
      }
      if current != 0 {
        Poke(current + 12, block);
      }
    }

    /** The sorted-insertion walk ends at the gap the block fits in. */
    method FindGap(block: int, ghost f: seq<int>, ghost k: nat) returns (prev: int, current: int)
      requires Linked(mem, f, KERNEL) && freeList == At(f, 0) && k <= |f| && Fits(f, k, block, KERNEL)
      ensures prev == At(f, k - 1) && current == At(f, k)
    {
      current := freeList;
      prev := 0;
      ghost var j: nat := 0;
      while current != 0 && current < block
        invariant j <= |f| && prev == At(f, j - 1) && current == At(f, j)
        invariant forall x :: 0 <= x < j ==> f[x] < block
        decreases |f| - j
      {
        assert Node(mem, f, j, KERNEL);
        prev := current;
        current := mem[current + 8];
        j := j + 1;
      }
      GapFound(f, k, j, block, KERNEL);
    }

    /** Marks the live block at index `i` free and inserts it in address order. */
    method InsertFree(block: int, ghost i: nat)
      requires Coherent()
      requires BlocksInv(state) && Shows(mem, state.blocks, freeList, KERNEL)
      requires i < |state.blocks| && state.blocks[i].used && state.blocks[i].addr == block
      modifies `mem, `freeList, `heapUsed, vmm`ram
      ensures Coherent()
      ensures Shows(mem, Freed(state.blocks, i), freeList, KERNEL)
      ensures PayloadKept(old(mem), mem, state.blocks, KERNEL)
      ensures heapUsed == (old(heapUsed) - state.blocks[i].size) % TWO32
    {
      hide Coherent;
      hide Linked, Aligned, LiveBytes, Tiled, PayloadKept, HeadersShown, Inserted, Fits, FreeAddrs, SameExcept;
      ghost var bs, lo, hi := state.blocks, state.base, state.base + state.total;
      ghost var f, k, m := FreeAddrs(bs), ListIndex(bs, i), mem;
      ShownAt(mem, bs, i, KERNEL);
      Gap(bs, i, lo, hi, KERNEL);
      Poke(block + 4, 0);
      OneWord(m, mem, block + 4, 0);
      heapUsed := (heapUsed - mem[block]) % TWO32;
      ghost var m1 := mem;
      UnlistedLinks(m, m1, f, k, block, KERNEL);
      var prev, current := FindGap(block, f, k);
      LinkBetween(block, prev, current, f, k);
      FreedShows(m, m1, mem, bs, i, freeList, lo, hi, KERNEL);
    }

    /** The three writes of a merge. */
    method MergeWrite(current: int, ghost next: int, ghost next2: int)
      requires Coherent() && next in mem && current in mem && mem[current] + HEADER + mem[next] < TWO32
      requires current in mem && current + 8 in mem && mem[current + 8] == next
      requires next in mem && next + 8 in mem && mem[next + 8] == next2
      requires current + HEADER <= next
      requires (next2 == 0 || (next + HEADER <= next2 && next2 + 12 in mem)) && current >= HEADER
      modifies `mem, `heapBlocks, vmm`ram
      ensures Coherent()
      ensures SameExcept(old(mem), mem, {current, current + 8, next2 + 12})
      ensures Holds(mem, current, old(mem)[current] + HEADER + old(mem)[next])
      ensures Holds(mem, current + 8, next2) && (next2 != 0 ==> Holds(mem, next2 + 12, current))
      ensures heapBlocks == old(heapBlocks) - 1
    {
      hide Coherent;
      MachineWord(current);
      MachineWord(next);
      MachineWord(next + 8);
      Poke(current, mem[current] + HEADER + mem[mem[current + 8]]);
      Poke(current + 8, mem[mem[current + 8] + 8]);
      if mem[current + 8] != 0 {
        Poke(mem[current + 8] + 12, current);
      }
      heapBlocks := heapBlocks - 1;
    }

    /** Merges the free block at index `j` with the free block right after it. */
    method MergeNext(current: int, ghost bs: seq<Block>, ghost j: nat, ghost lo: int, ghost hi: int)
      requires Coherent() && hi <= TWO32
      requires Tiled(bs, lo, hi, HEADER) && lo >= HEADER && Shows(mem, bs, freeList, KERNEL)
      requires j + 1 < |bs| && !bs[j].used && !bs[j + 1].used && bs[j].addr == current
      modifies `mem, `heapBlocks, vmm`ram
      ensures Coherent()
      ensures Shows(mem, Merged(bs, j, HEADER), freeList, KERNEL) && PayloadKept(old(mem), mem, bs, KERNEL)
      ensures SameExcept(old(mem), mem, {current, current + 8, At(FreeAddrs(bs), ListIndex(bs, j) + 2) + 12})
      ensures heapBlocks == old(heapBlocks) - 1
    {
      hide Coherent;
      hide HeadersShown, Tiled, PayloadKept, Linked, SameExcept, FreeAddrs, Removed;
      ghost var f, k, m := FreeAddrs(bs), ListIndex(bs, j), mem;
      MergedList(bs, j, HEADER);
      ShownAt(mem, bs, j, KERNEL);
      ShownAt(mem, bs, j + 1, KERNEL);
      LinkedNode(mem, f, k, KERNEL);
      LinkedNode(mem, f, k + 1, KERNEL);
      ListSpacedAt(mem, f, k, KERNEL);
      ListSpacedNext(mem, f, k, KERNEL);
      PairFits(bs, j, lo, hi);
      MergeWrite(current, f[k + 1], At(f, k + 2));
      MergeShows(m, mem, bs, j, freeList, lo, hi, KERNEL);
    }

    /** `coalesce_blocks`: one sweep over the list, which is the whole-layout sweep. */
    method CoalesceBlocks(ghost bs: seq<Block>, ghost lo: int, ghost hi: int) returns (ghost out: seq<Block>)
      requires Coherent() && hi <= TWO32
      requires Tiled(bs, lo, hi, HEADER) && lo >= HEADER && Shows(mem, bs, freeList, KERNEL) && heapBlocks == |bs|
      modifies `mem, `heapBlocks, vmm`ram
      ensures Coherent()
      ensures out == Coalesce(bs, HEADER)
      ensures Shows(mem, out, freeList, KERNEL) && heapBlocks == |out|
      ensures PayloadKept(old(mem), mem, bs, KERNEL) && UsedKept(old(mem), mem, bs)
    {
      hide Coherent;
      hide HeadersShown, Linked, Sweeping, SameExcept, FreeAddrs, Tiled;
      ghost var m := mem;
      out := bs;
      ghost var j: nat := NextFree(bs, 0);
      if j < |bs| { ShownAt(mem, bs, j, KERNEL); }
      HeadLink(bs);
      SweepStart(mem, bs, lo, hi);
      var current := freeList;
      BlocksApart(bs, lo, hi, KERNEL);
      while current != 0 && mem[current + 8] != 0
        invariant Sweeping(m, mem, bs, out, j, lo, hi) && Tiled(out, lo, hi, HEADER)
        invariant Coherent()
        invariant Shows(mem, out, freeList, KERNEL) && heapBlocks == |out|
        invariant j <= |out| && current == AddrAt(out, j) && (j < |out| ==> !out[j].used && current + 8 in mem && current >= lo)
        decreases |out| - j
      {
        NextLink(mem, out, j, KERNEL);
        BlocksApart(out, lo, hi, KERNEL);
        ghost var jn: nat := NextFree(out, j + 1);
        NextIsNeighbour(out, j, lo, hi, HEADER);
        ShownAt(mem, out, j, KERNEL);
        ShownAt(mem, out, jn, KERNEL);
        var currentEnd := current + HEADER + mem[current];
        if mem[current + 8] == currentEnd && mem[current + 4] == 0 && mem[mem[current + 8] + 4] == 0 {
          ghost var m1 := mem;
          MergeNext(current, out, j, lo, hi);
          MergePair(out, j, lo, hi, HEADER);
          SweepMerge(m, m1, mem, bs, out, j, lo, hi);
          out := Merged(out, j, HEADER);
          ShownAt(mem, out, j, KERNEL);
        } else {
          SweepOn(m, mem, bs, out, j, jn, lo, hi);
          current := mem[current + 8];
          j := jn;
        }
      }
      if current != 0 { NextLink(mem, out, j, KERNEL); }
      BlocksApart(out, lo, hi, KERNEL);
      SweepEnd(m, mem, bs, out, j, lo, hi);
    }

    /** `kfree`. A pointer whose header reads unused is left alone; any other must be a live allocation's. */
    method Kfree(ptr: int, ghost i: nat)
      requires Valid()
      requires ptr != 0 ==> ptr - HEADER + 4 in mem
      requires ptr != 0 && mem[ptr - HEADER + 4] != 0 ==>
        i < |state.blocks| && state.blocks[i].used && state.blocks[i].addr == ptr - HEADER
      modifies `mem, `freeList, `heapBlocks, `heapUsed, `state, vmm`ram
      ensures Valid()
      ensures state == if ptr != 0 && old(mem)[ptr - HEADER + 4] != 0 then HeapModel.Kfree(old(state), i) else old(state)
      ensures ptr == 0 || old(mem)[ptr - HEADER + 4] == 0 ==> mem == old(mem)
      ensures PayloadKept(old(mem), mem, Survivors(old(state).blocks, ptr), KERNEL)
      ensures ptr != 0 ==> Holds(mem, ptr - HEADER + 4, 0)
    {
      hide Coherent;
      hide Aligned, LiveBytes, Live, VmInv, PagesShow, HeadersShown, Linked;
      hide PayloadKept, UsedKept, WindowFree, Tiled, Coalesce, FreeAddrs, Survivors;
      ghost var s, m := state, mem;
      PayloadSame(mem, Survivors(s.blocks, ptr), KERNEL);
      if ptr == 0 {
        return;
      }
      var block := ptr - HEADER;
      if mem[block + 4] == 0 {
        return;
      }
      ghost var bs, lo, hi := s.blocks, s.base, s.base + s.total;
      FreeKeepsBlocks(s, i);
      FreedEffect(bs, i, lo, hi, HEADER);
      InsertFree(block, i);
      ghost var m1 := mem;
      ghost var freed := Freed(bs, i);
      ghost var out := CoalesceBlocks(freed, lo, hi);
      UsedWord(m1, mem, freed, i);
      KeysKept(m, m1, bs);
      KeysKept(m1, mem, Freed(bs, i));
      state := HeapModel.Kfree(s, i);
      SameWindow(s, state);
      SurvivorsKept(m, m1, mem, bs, i, lo, hi);
    }

    /** `heap_init`. */
    method HeapInit() returns (ok: bool)
      requires Valid() && state.total == 0
      modifies this, vmm`state, vmm`totalMapped, vmm`ram, vmm.pmm`usedPages, vmm.pmm`lastAllocIndex, vmm.pmm.bitmap, vmm.pageDir
      ensures match Expand(old(state), INIT_PAGES)
        case Expanded(s1) => ok && Valid() && state == s1
        case Lost => !ok
    {
      ok := HeapExpand(INIT_PAGES);
    }

    /** The block walk of `heap_print_stats`: from header to header by size. */
    method WalkBlocks() returns (dump: seq<Block>)
      requires Valid()
      ensures dump == state.blocks
    {
      hide Coherent;
      hide Aligned, LiveBytes, VmInv, PagesShow, Linked, WindowFree, Tiled;
      ghost var bs, hi, i := state.blocks, base + state.total, 0;
      WalkStart(bs, base, hi, HEADER);
      var current, offset := heapStart, 0;
      dump := [];
      while offset < heapTotal
        invariant i <= |bs| && dump == bs[..i]
        invariant base + offset == if i < |bs| then bs[i].addr else hi
        invariant i < |bs| ==> current == bs[i].addr && offset < heapTotal
        decreases |bs| - i
      {
        ShownAt(mem, bs, i, KERNEL);
        WalkStep(bs, i, base, hi, HEADER);
        dump := dump + [Block(current, mem[current], mem[current + 4] != 0)];
        offset := offset + HEADER + mem[current];
        current := current + HEADER + mem[current];
        i := i + 1;
      }
    }

    // ----- Clients of the layers below, beside the heap -----

    /** `alloc_page` for a client. */
    method TakeFrame(ghost owned: set<nat>) returns (addr: nat)
      requires Valid() && StackInv(Stack(state, owned))
      modifies `state, vmm`state, vmm.pmm`usedPages, vmm.pmm`lastAllocIndex, vmm.pmm.bitmap
      ensures Valid() && var owned1 := if addr == 0 then owned else owned + {addr};
        Stack(state, owned1) == MemoryStack.Step(Stack(old(state), owned), Op.TakeFrame)
    {
      hide BlocksInv, WindowFree, VmInv, PagesShow, Shows, Backed, CursorAlloc, FramesApart;
      ghost var h := state;
      TakeFrameStep(Stack(h, owned));
      TakeBacked(mem, h, vmm.ram);
      addr := vmm.AllocFrame();
      state := state.(vm := vmm.state);
    }

    /** `pmm_free_page` of a client's frame. */
    method GiveFrame(addr: nat, ghost owned: set<nat>)
      requires Valid() && StackInv(Stack(state, owned)) && Legal(Stack(state, owned), Op.GiveFrame(addr))
      modifies `state, vmm`state, vmm.pmm`usedPages, vmm.pmm`lastAllocIndex, vmm.pmm.bitmap
      ensures Valid()
      ensures Stack(state, owned - {addr}) == MemoryStack.Step(Stack(old(state), owned), Op.GiveFrame(addr))
    {
      hide BlocksInv, WindowFree, VmInv, PagesShow, Shows, Backed, CursorFree, FramesApart, IsTable, FrameTaken;
      ghost var h := state;
      StackTaken(h, owned, addr);
      GiveFrameStep(Stack(h, owned), addr);
      GiveBacked(mem, h, vmm.ram, owned, addr);
      TakenFrame(h.vm, addr);
      vmm.FreeFrame(addr);
      state := state.(vm := vmm.state);
    }

    /** `vmm_map_page` for a client. */
    method MapAt(virt: Word, phys: Word, flags: Word, ghost owned: set<nat>) returns (faulted: bool)
      requires Valid() && StackInv(Stack(state, owned)) && Legal(Stack(state, owned), Op.MapAt(virt, phys, flags))
      requires InsidePage(virt)
      modifies `state, vmm`state, vmm`totalMapped, vmm`ram, vmm.pmm`usedPages, vmm.pmm`lastAllocIndex, vmm.pmm.bitmap, vmm.pageDir
      ensures Valid()
      ensures Stack(state, owned) == MemoryStack.Step(Stack(old(state), owned), Op.MapAt(virt, phys, flags))
    {
      hide BlocksInv, WindowFree, VmInv, PagesShow, Shows, Backed, FramesApart;
      hide IsTable, FrameTaken, Map, Foreign, Or, FrameOf, Key;
      ghost var h, ram := state, vmm.ram;
      MayMap(mem, h, ram, owned, FrameOf(Or(phys, flags)));
      MapStep(Stack(h, owned), virt, phys, flags);
      faulted := vmm.MapPage(virt, phys, flags);
      MapBacked(mem, h, ram, vmm.ram, owned, virt, phys, flags);
      state := state.(vm := vmm.state);
    }

    /** `vmm_unmap_page` for a client. */
    method UnmapAt(virt: Word, ghost owned: set<nat>)
      requires Valid() && StackInv(Stack(state, owned)) && Legal(Stack(state, owned), Op.UnmapAt(virt))
      modifies `state, vmm`state, vmm`totalMapped, vmm`ram
      ensures Valid()
      ensures Stack(state, owned) == MemoryStack.Step(Stack(old(state), owned), Op.UnmapAt(virt))
    {
      hide BlocksInv, WindowFree, VmInv, PagesShow, Shows, Backed, FramesApart, IsTable, FrameTaken, Unmap, Key;
      ghost var h, ram := state, vmm.ram;
      UnmapStep(Stack(h, owned), virt);
      vmm.UnmapPage(virt);
      UnmapBacked(mem, h, ram, vmm.ram, owned, virt);
      state := state.(vm := vmm.state);
    }

    /** A client stores a word in its own payload. */
    method ClientStore(a: int, v: Word, ghost i: nat)
      requires Valid() && i < |state.blocks| && state.blocks[i].used && a in mem
      requires state.blocks[i].addr + HEADER <= a < state.blocks[i].addr + HEADER + state.blocks[i].size
      modifies `mem, vmm`ram
      ensures Valid() && mem == old(mem)[a := v]
    {
      hide Coherent;
      hide Aligned, LiveBytes, VmInv, PagesShow, Shows, WindowFree, Tiled;
      ClientStoreShows(mem, state.blocks, freeList, i, a, v, base, base + state.total, KERNEL);
      Poke(a, v);
    }
  }

  /** The used word of a block that was free stays 0, even where the block has been merged away. */
  lemma UsedWord(m: Mem, m1: Mem, bs: seq<Block>, i: nat)
    requires HeadersShown(m, bs, KERNEL) && UsedKept(m, m1, bs) && i < |bs| && !bs[i].used
    ensures Holds(m1, bs[i].addr + 4, 0)
  {
    assert BlockShown(m, bs[i], KERNEL);
  }

  /** The blocks that stay live when `ptr` is freed. */
  ghost function Survivors(bs: seq<Block>, ptr: int): seq<Block> {
    seq(|bs|, k requires 0 <= k < |bs| => if bs[k].addr + HEADER == ptr then bs[k].(used := false) else bs[k])
  }

  lemma SurvivorsKept(m: Mem, m1: Mem, m2: Mem, bs: seq<Block>, i: nat, lo: int, hi: int)
    requires Tiled(bs, lo, hi, HEADER) && i < |bs| && bs[i].used
    requires PayloadKept(m, m1, bs, KERNEL) && PayloadKept(m1, m2, Freed(bs, i), KERNEL)
    ensures PayloadKept(m, m2, Survivors(bs, bs[i].addr + HEADER), KERNEL)
  {
    TiledDistinct(bs, lo, hi, HEADER);
    assert Survivors(bs, bs[i].addr + HEADER) == Freed(bs, i);
    WeakerKept(m, m1, bs, i);
    PayloadTrans(m, m1, m2, Freed(bs, i), Freed(bs, i), KERNEL);
  }

  lemma WeakerKept(m: Mem, m1: Mem, bs: seq<Block>, i: nat)
    requires i < |bs| && PayloadKept(m, m1, bs, KERNEL)
    ensures PayloadKept(m, m1, Freed(bs, i), KERNEL)
  {
    var g := Freed(bs, i);
    forall k, w | 0 <= k < |g| && g[k].used && g[k].addr + HEADER <= w < g[k].addr + HEADER + g[k].size && w in m
      ensures m1[w] == m[w]
    {
      assert bs[k] == g[k];
    }
  }

  lemma WalkStart(bs: seq<Block>, lo: int, hi: int, h: nat)
    requires Tiled(bs, lo, hi, h) && h > 0
    ensures if bs == [] then lo == hi else bs[0].addr == lo && lo < hi
  {
    TiledSpan(bs, lo, hi, h);
    if bs != [] { TiledAt(bs, 0, lo, hi, h); }
  }

  /** `(size + 7) & ~7`. */
  method RoundSize(size: Word) returns (n: Word)
    ensures n == RoundUp(size)
  {
    var s := (size + 7) % TWO32;
    EightMask(s);
    n := AndNot(s, 7);
  }

  method PageCount(n: Word) returns (pages: nat)
    ensures pages == PagesNeeded(n)
  {
    var needed := (n + HEADER) % TWO32;
    pages := (needed + PAGE_SIZE - 1) % TWO32 / PAGE_SIZE;
  }

  lemma TakeCount(s: Heap, i: nat, n: nat)
    requires i < |s.blocks| && s.blocks[i].size >= n
    ensures |TakeBlock(s, i, n).blocks| == |s.blocks| + if Splits(s.blocks[i].size, n, HEADER) then 1 else 0
  {
  }

  lemma SameWindow(s: Heap, s1: Heap)
    requires WindowFree(s) && s1.base == s.base && s1.room == s.room && s1.total == s.total && s1.vm == s.vm
    ensures WindowFree(s1)
  {
  }

  lemma RoomFits(s: Heap)
    requires BlocksInv(s)
    ensures s.base + s.room <= TWO32 && s.total <= s.room && (s.base + s.total) % 4 == 0
  {
    hide Tiled, Aligned, LiveBytes;
    WindowAligned(s);
    QuarterPage(s.base + s.total);
  }

  lemma QuarterPage(v: nat)
    requires v % PAGE_SIZE == 0
    ensures v % 4 == 0
  {
    assert v == 4 * (1024 * (v / PAGE_SIZE));
  }

  lemma PairFits(bs: seq<Block>, j: nat, lo: int, hi: int)
    requires Tiled(bs, lo, hi, HEADER) && lo >= HEADER && j + 1 < |bs|
    ensures 0 <= bs[j].size && 0 <= bs[j + 1].size && bs[j].size + HEADER + bs[j + 1].size < hi
  {
    TiledAt(bs, j, lo, hi, HEADER);
    TiledAt(bs, j + 1, lo, hi, HEADER);
    TiledSpaced(bs, j, j + 1, lo, hi, HEADER);
  }

  lemma HeaderInPage(m: Mem, m1: Mem, m2: Mem, virt: int, words: FrameWords)
    requires m1 == m + PageView(virt, words) && SameExcept(m1, m2, {virt, virt + 4, virt + 8, virt + 12})
    ensures PageChanged(m, m2, virt)
  {
  }

  lemma WordsGrow(m: Mem, m1: Mem, s: Heap)
    requires forall a :: s.base <= a < s.base + s.total && a % 4 == 0 ==> a in m
    requires m.Keys <= m1.Keys && PageKeys(s.base + s.total) <= m1.Keys
    ensures forall a :: s.base <= a < s.base + s.total + PAGE_SIZE && a % 4 == 0 ==> a in m1
  {
    forall a | s.base + s.total <= a < s.base + s.total + PAGE_SIZE && a % 4 == 0
      ensures a in m1
    {
      assert a in PageKeys(s.base + s.total);
    }
  }

  lemma RoomLeft(s: Heap)
    requires BlocksInv(s) && WellFormed(s.vm.frames) && GrowPage(s).Grown?
    ensures InsideWindow(s.base + s.total, s.base, s.room)
  {
  }

  lemma KeysKept(m: Mem, m1: Mem, bs: seq<Block>)
    requires PayloadKept(m, m1, bs, KERNEL)
    ensures m.Keys <= m1.Keys
  {
  }

  lemma LastMapped(m: Mem, bs: seq<Block>, head: int, lo: int, hi: int)
    requires Shows(m, bs, head, KERNEL) && FreeAddrs(bs) != [] && Tiled(bs, lo, hi, HEADER) && lo >= HEADER
    ensures var last := At(FreeAddrs(bs), |FreeAddrs(bs)| - 1); last + 8 in m && 0 <= last && last + HEADER <= hi
  {
    FreeSpaced(bs, lo, hi, KERNEL);
    assert Node(m, FreeAddrs(bs), |FreeAddrs(bs)| - 1, KERNEL);
  }

  lemma EmptyHeap(bs: seq<Block>, lo: int, h: nat)
    requires Tiled(bs, lo, lo, h) && h > 0
    ensures bs == []
  {
    if bs != [] { TiledAt(bs, 0, lo, lo, h); }
  }

  lemma NoFrameLeft(frames: Frames)
    requires WellFormed(frames) && CursorAlloc(frames).1 == 0
    ensures CursorAlloc(frames).0 == frames
  {
  }

  /** A frame's words at the virtual addresses of its page. */
  lemma ListApart(m: Mem, f: seq<int>, k: nat)
    requires Linked(m, f, KERNEL) && k < |f|
    ensures k > 0 ==> f[0] != f[k]
    ensures f[k] >= HEADER && At(f, k - 1) + HEADER <= f[k]
    ensures At(f, k + 1) == 0 || f[k] + HEADER <= At(f, k + 1)
  {
  }

  lemma TakeOffFrame(m0: Mem, m1: Mem, m2: Mem, c: int, r: int, n: int, size: int, prev: int, next: int, split: bool)
    requires prev + HEADER <= c && c + HEADER <= r && c >= HEADER
    requires if split then SameExcept(m0, m1, SplitWords(c, r, next)) && SplitShown(m1, c, r, n, size) else m1 == m0
    requires SameExcept(m1, m2, {prev + 8, (if split then r else next) + 12})
    ensures SameExcept(m0, m2, TakeOffWords(c, r, prev, next, split))
    ensures split ==> SplitShown(m2, c, r, n, size)
  {
  }

  /** How the neighbours look in the list with the remainder in it. */
  lemma SplitHead(f: seq<int>, k: nat, r: int)
    requires k < |f|
    ensures var g := Inserted(f, k + 1, r);
      k < |g| && g[k] == f[k] && g[0] == f[0] && At(g, k - 1) == At(f, k - 1) && At(g, k + 1) == r
  {
  }

  /** Marking a listed block used leaves the list alone. */
  lemma UsedLinks(m: Mem, m1: Mem, f: seq<int>, k: nat)
    requires k < |f| && Linked(m, f, KERNEL) && SameExcept(m, m1, {f[k] + 4})
    ensures Linked(m1, f, KERNEL)
  {
    OwnHeaderClear(f, k, KERNEL);
    SameExceptMore(m, m1, {f[k] + 4}, {f[k], f[k] + 4});
    LinkedFrame(m, m1, f, {f[k], f[k] + 4}, KERNEL);
  }

  /** The header words of a remainder are words of the heap. */
  lemma RestMapped(m: Mem, bs: seq<Block>, i: nat, n: int, lo: int, hi: int)
    requires Tiled(bs, lo, hi, HEADER) && i < |bs| && Aligned(bs)
    requires n % 8 == 0 && 0 <= n && Splits(bs[i].size, n, HEADER)
    requires forall a :: lo <= a < hi && a % 4 == 0 ==> a in m
    ensures var r := Rest(bs[i], n); r in m && r + 4 in m && r + 8 in m && r + 12 in m
  {
    TiledAt(bs, i, lo, hi, HEADER);
    EightsAre4(bs[i].addr, n);
  }

  lemma EightsAre4(c: int, n: int)
    requires c % 8 == 0 && n % 8 == 0
    ensures var r := c + HEADER + n; r % 4 == 0 && (r + 4) % 4 == 0 && (r + 8) % 4 == 0 && (r + 12) % 4 == 0
  {
    var q := 2 * (c / 8) + 4 + 2 * (n / 8);
    assert c + HEADER + n == 4 * q;
    Fours(q);
  }

  lemma OneWord(m: Mem, m1: Mem, a: int, v: int)
    requires m1 == m[a := v]
    ensures SameExcept(m, m1, {a}) && Holds(m1, a, v)
  {
  }

  lemma Touched(m: Mem, m1: Mem, ws: set<int>)
    requires SameExcept(m, m1, ws)
    ensures m.Keys <= m1.Keys
  {
  }

  lemma SplitFrame(m0: Mem, m1: Mem, m2: Mem, m3: Mem, c: int, r: int, next: int)
    requires c + HEADER <= r && (next == 0 || r + HEADER <= next) && r >= HEADER
    requires r in m1 && r + 4 in m1 && m1 == m0[r := m1[r]][r + 4 := m1[r + 4]]
    requires r + 8 in m0 && r + 12 in m0
    requires SameExcept(m1, m2, {r + 8, r + 12, c + 8, next + 12})
    requires SameExcept(m2, m3, {c})
    ensures SameExcept(m0, m3, SplitWords(c, r, next))
    ensures Holds(m3, r, m1[r]) && Holds(m3, r + 4, m1[r + 4]) && r + 8 in m3 && r + 12 in m3
  {
  }

  /** Writing a new block's size and used words leaves the list alone. */
  lemma FreshLinks(m: Mem, m1: Mem, f: seq<int>, k: nat, r: int)
    requires Linked(m, f, KERNEL) && k <= |f| && Fits(f, k, r, KERNEL) && SameExcept(m, m1, {r, r + 4})
    ensures Linked(m1, f, KERNEL)
  {
    FreshHeaderClear(f, k, r);
    LinkedFrame(m, m1, f, {r, r + 4}, KERNEL);
  }

  /** So does writing a listed block's size. */
  lemma SizeLinks(m2: Mem, m3: Mem, f: seq<int>, k: nat, c: int, r: int)
    requires k < |f| && f[k] == c && Linked(m2, Inserted(f, k + 1, r), KERNEL) && SameExcept(m2, m3, {c})
    ensures Linked(m3, Inserted(f, k + 1, r), KERNEL)
  {
    var g := Inserted(f, k + 1, r);
    assert g[k] == c;
    OwnHeaderClear(g, k, KERNEL);
    SameExceptMore(m2, m3, {c}, {c, c + 4});
    LinkedFrame(m2, m3, g, {c, c + 4}, KERNEL);
  }

  lemma FreshHeaderClear(f: seq<int>, k: nat, r: int)
    requires k <= |f| && Fits(f, k, r, KERNEL)
    ensures LinksClear(f, {r, r + 4}, KERNEL)
  {
    forall j | 0 <= j < |f|
      ensures Clear(f[j], r, KERNEL)
    {
    }
  }
}
