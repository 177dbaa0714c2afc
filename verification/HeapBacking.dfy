/** The heap's words in physical memory: each is the word of a frame that only the heap uses, found by translation. */
module HeapBacking {
  import opened Words
  import opened PageFrames
  import opened Paging
  import opened PageTables
  import opened FreeList
  import opened HeapModel
  import opened MemoryStack

  /** The entry of an address. */
  ghost function EntryKey(vm: Vm, a: int): nat {
    if a >= 0 then Key(vm.shared, a) else 0
  }

  /** The frame address behind a mapped address. */
  ghost function Behind(vm: Vm, a: int): nat {
    var k := EntryKey(vm, a);
    if k in vm.entries then FrameOf(vm.entries[k]) else 0
  }

  /** `a` is a word address, mapped for writing, whose word is kept in a taken frame that holds no table. */
  ghost predicate BackedAt(m: Mem, vm: Vm, ram: seq<FrameWords>, a: int)
    requires a in m
  {
    && 0 <= a < TWO32 && a % 4 == 0 && EntryKey(vm, a) in vm.entries && Writable(vm.entries[EntryKey(vm, a)])
    && FrameTaken(vm, Behind(vm, a)) && !IsTable(vm, Behind(vm, a)) && Behind(vm, a) / PAGE_SIZE < |ram|
    && m[a] == ram[Behind(vm, a) / PAGE_SIZE][a % PAGE_SIZE / 4]
  }

  /** The heap's memory is physical memory, and no two of its pages share a frame. */
  ghost predicate Backed(m: Mem, vm: Vm, ram: seq<FrameWords>) {
    && |ram| == FRAMES
    && (forall a {:trigger BackedAt(m, vm, ram, a)} :: a in m ==> BackedAt(m, vm, ram, a))
    && (forall a, b {:trigger Behind(vm, a), Behind(vm, b)} ::
          a in m && b in m && Behind(vm, a) == Behind(vm, b) ==> a / PAGE_SIZE == b / PAGE_SIZE)
  }

  predicate Within(a: int, lo: int, hi: int) {
    lo <= a < hi
  }

  ghost predicate KeysWithin(m: Mem, lo: int, hi: int) {
    forall a {:trigger Within(a, lo, hi)} :: a in m ==> Within(a, lo, hi)
  }

  lemma NothingBacked(vm: Vm, ram: seq<FrameWords>)
    requires |ram| == FRAMES
    ensures Backed(map[], vm, ram)
  {
  }

  /** What the table walk finds for a heap word. */
  lemma BackedWord(m: Mem, vm: Vm, ram: seq<FrameWords>, a: int)
    requires Backed(m, vm, ram) && a in m
    ensures 0 <= a < TWO32 && 0 <= m[a] < TWO32
    ensures var phys := Translate(vm, a);
      && phys / PAGE_SIZE < FRAMES && phys % PAGE_SIZE / 4 < 1024
      && phys / PAGE_SIZE == Behind(vm, a) / PAGE_SIZE && phys % PAGE_SIZE == a % PAGE_SIZE
      && m[a] == ram[phys / PAGE_SIZE][phys % PAGE_SIZE / 4]
      && Behind(vm, a) == phys / PAGE_SIZE * PAGE_SIZE && !IsTable(vm, Behind(vm, a))
  {
    hide Key, IsTable, FrameTaken, FrameOf;
    assert BackedAt(m, vm, ram, a);
    FrameWord(Behind(vm, a), a);
    OffsetBound(a);
    FrameParts(Behind(vm, a), a);
  }

  /** Both words on the table walk to a heap word are present and writable, so no store of the heap faults. */
  lemma HeapWritable(m: Mem, vm: Vm, dir: seq<Word>, ram: seq<FrameWords>, a: int)
    requires VmInv(vm) && PagesShow(vm, dir, ram) && Backed(m, vm, ram) && a in m
    ensures 0 <= a < TWO32 && |dir| == 1024 && |ram| == FRAMES && WalkWritable(dir, ram, a)
  {
    hide VmInv, PagesShow, WalkWritable, Key, IsTable, FrameTaken, FrameOf, Writable;
    assert BackedAt(m, vm, ram, a);
    WritableExactly(vm, dir, ram, a);
  }

  lemma OffsetBound(a: nat)
    ensures a % PAGE_SIZE / 4 < 1024
  {
  }

  lemma FrameParts(f: nat, a: nat)
    requires f % PAGE_SIZE == 0
    ensures (f + a % PAGE_SIZE) / PAGE_SIZE == f / PAGE_SIZE && (f + a % PAGE_SIZE) % PAGE_SIZE == a % PAGE_SIZE
    ensures f == f / PAGE_SIZE * PAGE_SIZE
  {
  }

  /** A store through translation is a store to the heap's memory. */
  lemma StoreBacked(m: Mem, vm: Vm, ram: seq<FrameWords>, a: int, w: Word)
    requires Backed(m, vm, ram) && a in m
    ensures Behind(vm, a) / PAGE_SIZE < |ram| && a % PAGE_SIZE / 4 < 1024
    ensures var f, i := Behind(vm, a) / PAGE_SIZE, a % PAGE_SIZE / 4;
      Backed(m[a := w], vm, ram[f := ram[f][i := w]])
  {
    hide Key, IsTable, FrameTaken, FrameOf;
    assert BackedAt(m, vm, ram, a);
    OffsetBound(a);
    var f, i := Behind(vm, a) / PAGE_SIZE, a % PAGE_SIZE / 4;
    var m1, ram1 := m[a := w], ram[f := ram[f][i := w]];
    forall b | b in m1
      ensures BackedAt(m1, vm, ram1, b)
    {
      assert BackedAt(m, vm, ram, b);
      if b != a { WordsApart(vm, a, b); }
    }
  }

  /** Two words of the heap in one frame are at different offsets. */
  lemma WordsApart(vm: Vm, a: int, b: int)
    requires 0 <= a && 0 <= b && a % 4 == 0 && b % 4 == 0 && a != b
    ensures a / PAGE_SIZE == b / PAGE_SIZE ==> a % PAGE_SIZE / 4 != b % PAGE_SIZE / 4
  {
    WordNumber(a);
    WordNumber(b);
  }

  /** A word address is its page and its word's number in the page. */
  lemma WordNumber(a: int)
    requires 0 <= a && a % 4 == 0
    ensures a == a / PAGE_SIZE * PAGE_SIZE + 4 * (a % PAGE_SIZE / 4)
  {
    var q, w := a / PAGE_SIZE, a / 4;
    assert a == q * PAGE_SIZE + a % PAGE_SIZE;
    assert a == 4 * w;
    QuarterOf(w - 1024 * q, a % PAGE_SIZE);
  }

  lemma QuarterOf(x: int, y: int)
    requires y == 4 * x
    ensures y / 4 == x
  {
  }

  /** The address space may change around the heap: its entries stand, its frames stay its own and keep their words. */
  lemma AroundBacked(m: Mem, vm: Vm, ram: seq<FrameWords>, vm1: Vm, ram1: seq<FrameWords>)
    requires Backed(m, vm, ram) && |ram1| == FRAMES && vm1.shared == vm.shared
    requires forall a :: a in m ==>
      var f, k := Behind(vm, a), EntryKey(vm, a);
      && (k in vm.entries ==> k in vm1.entries && vm1.entries[k] == vm.entries[k])
      && FrameTaken(vm1, f) && !IsTable(vm1, f) && (f / PAGE_SIZE < FRAMES ==> ram1[f / PAGE_SIZE] == ram[f / PAGE_SIZE])
    ensures Backed(m, vm1, ram1)
  {
    hide Key, IsTable, FrameTaken, FrameOf;
    forall a | a in m
      ensures Behind(vm1, a) == Behind(vm, a) && BackedAt(m, vm1, ram1, a)
    {
      assert BackedAt(m, vm, ram, a);
    }
  }

  /** Steps that give up no frame, put tables only where nothing was, and write only tables and one frame not the heap's. */
  lemma GrowsBacked(m: Mem, vm: Vm, ram: seq<FrameWords>, vm1: Vm, ram1: seq<FrameWords>, freed: set<nat>, target: nat)
    requires Backed(m, vm, ram) && Grows(vm, vm1, freed) && |ram1| == FRAMES
    requires forall a :: a in m && EntryKey(vm, a) in vm.entries ==>
      EntryKey(vm, a) in vm1.entries && vm1.entries[EntryKey(vm, a)] == vm.entries[EntryKey(vm, a)]
    requires forall g :: 0 <= g < FRAMES && !IsTable(vm1, g * PAGE_SIZE) && g != target ==> ram1[g] == ram[g]
    requires forall a {:trigger Behind(vm, a)} :: a in m ==> Behind(vm, a) !in freed && Behind(vm, a) / PAGE_SIZE != target
    ensures Backed(m, vm1, ram1)
  {
    hide Key, IsTable, FrameTaken, FrameOf;
    forall a | a in m
      ensures var f, k := Behind(vm, a), EntryKey(vm, a);
        && FrameTaken(vm1, f) && !IsTable(vm1, f) && (f / PAGE_SIZE < FRAMES ==> ram1[f / PAGE_SIZE] == ram[f / PAGE_SIZE])
        && (k in vm.entries ==> k in vm1.entries && vm1.entries[k] == vm.entries[k])
    {
      assert BackedAt(m, vm, ram, a);
      TakenFrame(vm, Behind(vm, a));
    }
    AroundBacked(m, vm, ram, vm1, ram1);
  }

  lemma TakenFrame(vm: Vm, f: nat)
    requires FrameTaken(vm, f)
    ensures f == f / PAGE_SIZE * PAGE_SIZE
  {
  }

  // ----- A page more -----

  function PageView(virt: int, words: FrameWords): Mem {
    map a | virt <= a < virt + PAGE_SIZE && a % 4 == 0 :: words[(a - virt) / 4]
  }

  lemma PageWord(a: int, virt: nat)
    requires virt % PAGE_SIZE == 0 && virt <= a < virt + PAGE_SIZE
    ensures a % PAGE_SIZE == a - virt && a / PAGE_SIZE == virt / PAGE_SIZE
  {
  }

  /** A frame's words seen at a page mapped to it join the heap's memory. */
  lemma PageBacked(m: Mem, vm: Vm, ram: seq<FrameWords>, virt: nat, f: nat)
    requires Backed(m, vm, ram) && virt % PAGE_SIZE == 0 && virt + PAGE_SIZE <= TWO32 && f < FRAMES
    requires Key(vm.shared, virt) in vm.entries && FrameOf(vm.entries[Key(vm.shared, virt)]) == f * PAGE_SIZE
    requires Writable(vm.entries[Key(vm.shared, virt)]) && FrameTaken(vm, f * PAGE_SIZE) && !IsTable(vm, f * PAGE_SIZE)
    requires forall a {:trigger Behind(vm, a)} :: a in m ==> Behind(vm, a) != f * PAGE_SIZE
    ensures Backed(m + PageView(virt, ram[f]), vm, ram)
  {
    hide Key, IsTable, FrameTaken, FrameOf;
    var m1 := m + PageView(virt, ram[f]);
    forall a | a in PageView(virt, ram[f])
      ensures BackedAt(m1, vm, ram, a) && Behind(vm, a) == f * PAGE_SIZE && a / PAGE_SIZE == virt / PAGE_SIZE
    {
      PageKey(vm.shared, a, virt);
      PageWord(a, virt);
      assert f * PAGE_SIZE / PAGE_SIZE == f;
    }
    forall a | a in m && a !in PageView(virt, ram[f])
      ensures BackedAt(m1, vm, ram, a)
    {
      assert BackedAt(m, vm, ram, a);
    }
  }

  ghost function PageKeys(virt: int): set<int> {
    set a | virt <= a < virt + PAGE_SIZE && a % 4 == 0
  }

  lemma PageViewKeys(virt: int, words: FrameWords)
    ensures PageView(virt, words).Keys == PageKeys(virt)
  {
  }

  ghost predicate InsideWindow(virt: int, base: int, room: int) {
    base <= virt && virt + PAGE_SIZE <= base + room && base >= 0 && base + room <= TWO32
  }

  /** `virt` is a page mapped to the frame at `phys`, which is nobody else's. */
  ghost predicate FreshFrame(m: Mem, vm: Vm, virt: int, phys: nat) {
    && virt >= 0 && virt % PAGE_SIZE == 0 && phys / PAGE_SIZE < FRAMES && phys % PAGE_SIZE == 0
    && EntryKey(vm, virt) in vm.entries && FrameOf(vm.entries[EntryKey(vm, virt)]) == phys
    && Writable(vm.entries[EntryKey(vm, virt)])
    && FrameTaken(vm, phys) && !IsTable(vm, phys)
    && forall a {:trigger Behind(vm, a)} :: a in m ==> Behind(vm, a) != phys
  }

  /** A frame just allocated and mapped at a page nothing was mapped at is fresh, and the heap's words stand. */
  lemma FreshMapped(m: Mem, vm: Vm, ram: seq<FrameWords>, ram1: seq<FrameWords>, virt: nat, phys: nat)
    requires VmInv(vm) && Backed(m, vm, ram) && |ram1| == FRAMES && WellFormed(vm.frames)
    requires phys == CursorAlloc(vm.frames).1 && phys != 0
    requires virt % PAGE_SIZE == 0 && Key(vm.shared, virt) !in vm.entries
    requires var vm0 := vm.(frames := CursorAlloc(vm.frames).0);
      && WellFormed(vm0.frames)
      && var vm1 := Map(vm0, virt, phys, PG_PRESENT + PG_WRITABLE);
      && Key(vm1.shared, virt) in vm1.entries
      && forall g :: 0 <= g < FRAMES && !IsTable(vm1, g * PAGE_SIZE) && g != phys / PAGE_SIZE ==> ram1[g] == ram[g]
    ensures var vm1 := Map(vm.(frames := CursorAlloc(vm.frames).0), virt, phys, PG_PRESENT + PG_WRITABLE);
      Backed(m, vm1, ram1) && FreshFrame(m, vm1, virt, phys)
  {
    hide Key, IsTable, FrameTaken, FrameOf, CursorAlloc, Map, TablesInv, EntriesInv, CursorInv, Grows, Backed, Behind;
    var vm0 := vm.(frames := CursorAlloc(vm.frames).0);
    var vm1 := Map(vm0, virt, phys, PG_PRESENT + PG_WRITABLE);
    AllocGrows(vm);
    AllocSparesTables(vm);
    AllocWord(vm.frames);
    MapGrows(vm0, virt, phys, PG_PRESENT + PG_WRITABLE);
    GrowsTrans(vm, vm0, vm1);
    MapNext(vm0, virt, phys);
    KeepsTaken(vm0, vm1, phys);
    FrameWithin(vm, vm1, phys);
    WritableFrame(phys);
    NotBehind(m, vm, ram, vm1, phys);
    GrowsBacked(m, vm, ram, vm1, ram1, {}, phys / PAGE_SIZE);
    StillNotBehind(m, vm, ram, vm1, phys);
  }

  lemma WritableFrame(phys: nat)
    requires phys % PAGE_SIZE == 0
    ensures Writable(phys + 3)
  {
    ThreeWritable(phys / PAGE_SIZE);
  }

  lemma FrameWithin(vm: Vm, vm1: Vm, f: nat)
    requires VmInv(vm) && Grows(vm, vm1, {}) && FrameTaken(vm1, f)
    ensures f / PAGE_SIZE < FRAMES && f % PAGE_SIZE == 0
  {
  }

  /** A frame that was not taken is behind no heap word. */
  lemma NotBehind(m: Mem, vm: Vm, ram: seq<FrameWords>, vm1: Vm, f: nat)
    requires Backed(m, vm, ram) && !FrameTaken(vm, f) && f % PAGE_SIZE == 0
    ensures forall a {:trigger Behind(vm, a)} :: a in m ==> Behind(vm, a) != f && Behind(vm, a) / PAGE_SIZE != f / PAGE_SIZE
  {
    hide Behind, Key, IsTable;
    forall a | a in m
      ensures Behind(vm, a) != f && Behind(vm, a) / PAGE_SIZE != f / PAGE_SIZE
    {
      assert BackedAt(m, vm, ram, a);
      TakenFrame(vm, Behind(vm, a));
    }
  }

  lemma StillNotBehind(m: Mem, vm: Vm, ram: seq<FrameWords>, vm1: Vm, f: nat)
    requires Backed(m, vm, ram) && vm1.shared == vm.shared
    requires forall a {:trigger Behind(vm, a)} :: a in m ==> Behind(vm, a) != f
    requires forall k :: k in vm.entries ==> k in vm1.entries && vm1.entries[k] == vm.entries[k]
    ensures forall a {:trigger Behind(vm1, a)} :: a in m ==> Behind(vm1, a) != f
  {
    hide Key, IsTable, FrameTaken, FrameOf;
    forall a | a in m
      ensures Behind(vm1, a) != f
    {
      assert BackedAt(m, vm, ram, a);
      assert Behind(vm, a) == Behind(vm1, a);
    }
  }

  lemma JoinBacked(m: Mem, vm: Vm, ram: seq<FrameWords>, virt: int, phys: nat)
    requires Backed(m, vm, ram) && FreshFrame(m, vm, virt, phys) && virt + PAGE_SIZE <= TWO32
    ensures Backed(m + PageView(virt, ram[phys / PAGE_SIZE]), vm, ram)
  {
    hide Backed, Key, IsTable, FrameTaken, FrameOf, PageView;
    PageBacked(m, vm, ram, virt, phys / PAGE_SIZE);
  }

  lemma KeysJoin(m: Mem, virt: int, words: FrameWords, lo: int, hi: int)
    requires KeysWithin(m, lo, hi) && lo <= virt && virt + PAGE_SIZE <= hi
    ensures KeysWithin(m + PageView(virt, words), lo, hi)
  {
  }

  lemma FirstWords(virt: int)
    requires virt % PAGE_SIZE == 0
    ensures {virt, virt + 4, virt + 8, virt + 12} <= PageKeys(virt)
  {
    var q := 1024 * (virt / PAGE_SIZE);
    assert virt == 4 * q;
    Fours(q);
  }

  // ----- Clients beside the heap -----

  /** In a run the frames behind the heap's words are its own: no client's, and none a client may map. */
  lemma OwnFrames(m: Mem, h: Heap, ram: seq<FrameWords>, owned: set<nat>)
    requires StackInv(Stack(h, owned)) && Backed(m, h.vm, ram) && KeysWithin(m, h.base, h.base + h.room)
    ensures forall a {:trigger Behind(h.vm, a)} :: a in m ==>
      && 0 <= a && InHeap(h, a) && Behind(h.vm, a) !in owned && Behind(h.vm, a) / PAGE_SIZE >= KERNEL_PAGES
      && EntryKey(h.vm, a) == Key(h.vm.shared, a)
  {
    hide BlocksInv, VmInv, Key, IsTable;
    forall a | a in m
      ensures 0 <= a && InHeap(h, a) && Behind(h.vm, a) !in owned && Behind(h.vm, a) / PAGE_SIZE >= KERNEL_PAGES
    {
      assert BackedAt(m, h.vm, ram, a);
      assert Within(a, h.base, h.base + h.room);
      assert InHeap(h, a);
      assert Behind(h.vm, a) == HeapFrame(h, a);
    }
  }

  lemma TakeBacked(m: Mem, h: Heap, ram: seq<FrameWords>)
    requires VmInv(h.vm) && WellFormed(h.vm.frames) && Backed(m, h.vm, ram)
    ensures Backed(m, h.vm.(frames := CursorAlloc(h.vm.frames).0), ram)
  {
    hide CursorAlloc, Behind, Backed, VmInv;
    AllocGrows(h.vm);
    RamLength(m, h.vm, ram);
    NoFrameBeyond(m, h.vm, ram);
    GrowsBacked(m, h.vm, ram, h.vm.(frames := CursorAlloc(h.vm.frames).0), ram, {}, FRAMES);
  }

  lemma RamLength(m: Mem, vm: Vm, ram: seq<FrameWords>)
    requires Backed(m, vm, ram)
    ensures |ram| == FRAMES
  {
  }

  lemma NoFrameBeyond(m: Mem, vm: Vm, ram: seq<FrameWords>)
    requires Backed(m, vm, ram)
    ensures forall a {:trigger Behind(vm, a)} :: a in m ==> Behind(vm, a) / PAGE_SIZE != FRAMES
  {
    hide Behind;
    forall a | a in m
      ensures Behind(vm, a) / PAGE_SIZE != FRAMES
    {
      assert BackedAt(m, vm, ram, a);
    }
  }

  lemma GiveBacked(m: Mem, h: Heap, ram: seq<FrameWords>, owned: set<nat>, addr: nat)
    requires StackInv(Stack(h, owned)) && Backed(m, h.vm, ram)
    requires KeysWithin(m, h.base, h.base + h.room) && addr in owned
    ensures addr / PAGE_SIZE < |h.vm.frames.used| && WellFormed(h.vm.frames)
    ensures Backed(m, h.vm.(frames := CursorFree(h.vm.frames, addr)), ram)
  {
    hide CursorFree, Behind, Backed, BlocksInv, WindowFree, VmInv;
    StackTaken(h, owned, addr);
    OwnFrames(m, h, ram, owned);
    OnlyFreed(h.vm, addr);
    RamLength(m, h.vm, ram);
    NoFrameBeyond(m, h.vm, ram);
    GrowsBacked(m, h.vm, ram, h.vm.(frames := CursorFree(h.vm.frames, addr)), ram, {addr}, FRAMES);
  }

  lemma StackTaken(h: Heap, owned: set<nat>, f: nat)
    requires StackInv(Stack(h, owned)) && f in owned
    ensures FrameTaken(h.vm, f) && !IsTable(h.vm, f) && WellFormed(h.vm.frames)
  {
    hide BlocksInv, WindowFree, VmInv;
  }

  /** A frame a client may map is no table's and not behind the heap. */
  lemma MayMap(m: Mem, h: Heap, ram: seq<FrameWords>, owned: set<nat>, frame: nat)
    requires StackInv(Stack(h, owned)) && Backed(m, h.vm, ram) && KeysWithin(m, h.base, h.base + h.room)
    requires frame % PAGE_SIZE == 0 && (frame in owned || frame / PAGE_SIZE < KERNEL_PAGES)
    ensures Foreign(h.vm, frame)
    ensures forall a {:trigger Behind(h.vm, a)} :: a in m ==> Behind(h.vm, a) / PAGE_SIZE != frame / PAGE_SIZE
  {
    hide Behind, BlocksInv, WindowFree, EntriesInv, CursorInv;
    if frame in owned { StackTaken(h, owned, frame); }
    OwnFrames(m, h, ram, owned);
    BehindAligned(m, h.vm, ram);
    assert frame == frame / PAGE_SIZE * PAGE_SIZE;
  }

  lemma BehindAligned(m: Mem, vm: Vm, ram: seq<FrameWords>)
    requires Backed(m, vm, ram)
    ensures forall a {:trigger Behind(vm, a)} :: a in m ==> Behind(vm, a) == Behind(vm, a) / PAGE_SIZE * PAGE_SIZE
  {
    hide Behind;
    forall a | a in m
      ensures Behind(vm, a) == Behind(vm, a) / PAGE_SIZE * PAGE_SIZE
    {
      assert BackedAt(m, vm, ram, a);
    }
  }

  lemma MapBacked(m: Mem, h: Heap, ram: seq<FrameWords>, ram1: seq<FrameWords>, owned: set<nat>, virt: nat, phys: nat, flags: nat)
    requires StackInv(Stack(h, owned)) && Backed(m, h.vm, ram)
    requires KeysWithin(m, h.base, h.base + h.room) && |ram1| == FRAMES
    requires Legal(Stack(h, owned), MapAt(virt, phys, flags)) && WellFormed(h.vm.frames)
    requires var vm1, target := Map(h.vm, virt, phys, flags), FrameOf(Or(phys, flags)) / PAGE_SIZE;
      forall g :: 0 <= g < FRAMES && !IsTable(vm1, g * PAGE_SIZE) && g != target ==> ram1[g] == ram[g]
    ensures Backed(m, Map(h.vm, virt, phys, flags), ram1)
  {
    hide Behind, Backed, BlocksInv, WindowFree, TablesInv, EntriesInv, CursorInv, Map, Or, FrameOf, FramesApart;
    MayMap(m, h, ram, owned, FrameOf(Or(phys, flags)));
    MapGrows(h.vm, virt, phys, flags);
    MapEntries(h.vm, virt, phys, flags);
    GrowsBacked(m, h.vm, ram, Map(h.vm, virt, phys, flags), ram1, {}, FrameOf(Or(phys, flags)) / PAGE_SIZE);
  }

  lemma UnmapBacked(m: Mem, h: Heap, ram: seq<FrameWords>, ram1: seq<FrameWords>, owned: set<nat>, virt: nat)
    requires StackInv(Stack(h, owned)) && Backed(m, h.vm, ram)
    requires KeysWithin(m, h.base, h.base + h.room) && |ram1| == FRAMES
    requires Legal(Stack(h, owned), UnmapAt(virt))
    requires forall g :: 0 <= g < FRAMES && !IsTable(Unmap(h.vm, virt), g * PAGE_SIZE) ==> ram1[g] == ram[g]
    ensures Backed(m, Unmap(h.vm, virt), ram1)
  {
    hide Behind, Backed, BlocksInv, WindowFree, TablesInv, EntriesInv, CursorInv, FramesApart, Key;
    NoFrameBeyond(m, h.vm, ram);
    SameTableFrames(h.vm, Unmap(h.vm, virt));
    KeysApart(m, h, virt);
    GrowsBacked(m, h.vm, ram, Unmap(h.vm, virt), ram1, {}, FRAMES);
  }

  lemma KeysApart(m: Mem, h: Heap, virt: nat)
    requires KeysWithin(m, h.base, h.base + h.room)
    requires forall w: nat :: InWindow(h, w) ==> Key(h.vm.shared, w) != Key(h.vm.shared, virt)
    ensures forall a :: a in m ==> EntryKey(h.vm, a) != Key(h.vm.shared, virt)
  {
    hide Key;
    forall a | a in m
      ensures EntryKey(h.vm, a) != Key(h.vm.shared, virt)
    {
      assert Within(a, h.base, h.base + h.room);
      assert InWindow(h, a);
    }
  }
}
