/** Two-level page tables as a value: which directory slots have a table, which pages have a present entry, and the
    frame allocator the tables come from. Directory entries 0 and 768 name one table once paging is set up. */
module Paging {
  import opened Words
  import opened PageFrames

  const PG_PRESENT := 1
  const PG_WRITABLE := 2
  const TWIN := 768
  const TABLE_SPAN := 0x40_0000
  const PROBE := 0xDEADBEEF

  /** `tables` maps a slot to its table's frame, `entries` maps slot * 1024 + index to the present entry. */
  datatype Vm = Vm(frames: Frames, shared: bool, tables: map<nat, nat>, entries: map<nat, nat>, mapped: int)

  function TableSlot(shared: bool, d: nat): nat {
    if shared && d == TWIN then 0 else d
  }

  function Dir(virt: nat): nat { virt / TABLE_SPAN % 1024 }

  function Index(virt: nat): nat { virt / PAGE_SIZE % 1024 }

  function Key(shared: bool, virt: nat): nat {
    TableSlot(shared, Dir(virt)) * 1024 + Index(virt)
  }

  /** The page address of `w`. */
  function FrameOf(w: nat): (f: nat)
    ensures f % PAGE_SIZE == 0 && f / PAGE_SIZE == w / PAGE_SIZE
  {
    w / PAGE_SIZE * PAGE_SIZE
  }

  lemma FramePlus(p: nat, r: nat)
    requires r < PAGE_SIZE
    ensures FrameOf(p * PAGE_SIZE + r) == p * PAGE_SIZE
  {
    assert (p * PAGE_SIZE + r) / PAGE_SIZE == p;
  }

  lemma FrameMask(w: nat)
    ensures AndNot(w, 0xFFF) == FrameOf(w)
  {
    PageMask(w);
  }

  predicate Present(w: nat) { w % 2 == 1 }

  // ----- The operations -----

  function IdentityEntries(): map<nat, nat> {
    map k: nat | k < 1024 :: k * PAGE_SIZE + 3
  }

  function Init(frames: Frames): Vm
    requires WellFormed(frames)
  {
    var (frames1, table) := CursorAlloc(frames);
    if table == 0 then Vm(frames1, false, map[], map[], 0)
    else Vm(frames1, true, map[0 := table], IdentityEntries(), 1024)
  }

  /** The table for `virt`, taken from the frame allocator when it is missing. */
  function WithTable(vm: Vm, virt: nat): Vm
    requires WellFormed(vm.frames)
  {
    var s := TableSlot(vm.shared, Dir(virt));
    if s in vm.tables then vm
    else
      var (frames1, table) := CursorAlloc(vm.frames);
      if table == 0 then vm.(frames := frames1)
      else vm.(frames := frames1, tables := vm.tables[s := table])
  }

  /** Write entry `k` unless its table is missing or it is present already. */
  function Store(vm: Vm, k: nat, w: nat): Vm {
    if k / 1024 !in vm.tables || k in vm.entries then vm
    else vm.(entries := if Present(w) then vm.entries[k := w] else vm.entries, mapped := vm.mapped + 1)
  }

  function Map(vm: Vm, virt: nat, phys: nat, flags: nat): Vm
    requires WellFormed(vm.frames)
  {
    Store(WithTable(vm, virt), Key(vm.shared, virt), Or(phys, flags))
  }

  function Unmap(vm: Vm, virt: nat): Vm {
    var k := Key(vm.shared, virt);
    if k !in vm.entries then vm
    else vm.(entries := vm.entries - {k}, mapped := vm.mapped - 1)
  }

  function Translate(vm: Vm, virt: nat): nat {
    var k := Key(vm.shared, virt);
    if k in vm.entries then FrameOf(vm.entries[k]) + virt % PAGE_SIZE else 0
  }

  // ----- The invariant -----

  ghost predicate IsTable(vm: Vm, frame: nat) {
    exists s :: s in vm.tables && vm.tables[s] == frame
  }

  ghost predicate TablesInv(vm: Vm) {
    && (forall s :: s in vm.tables ==>
          && s < 1024 && vm.tables[s] % PAGE_SIZE == 0
          && KERNEL_PAGES <= vm.tables[s] / PAGE_SIZE < |vm.frames.used|
          && vm.frames.used[vm.tables[s] / PAGE_SIZE])
    && (forall s, t :: s in vm.tables && t in vm.tables && vm.tables[s] == vm.tables[t] ==> s == t)
    && (vm.shared ==> 0 in vm.tables && TWIN !in vm.tables)
  }

  ghost predicate EntriesInv(vm: Vm) {
    forall k :: k in vm.entries ==> k / 1024 in vm.tables && Present(vm.entries[k]) && vm.entries[k] < TWO32
  }

  /** Table frames are distinct, allocatable and marked used; every present entry lies in a table. */
  ghost predicate VmInv(vm: Vm) {
    && CursorInv(vm.frames) && |vm.frames.used| <= 0x10_0000
    && TablesInv(vm)
    && EntriesInv(vm)
  }

  /** A frame no table lives in and no table will be placed in. */
  ghost predicate Foreign(vm: Vm, frame: nat) {
    var p := frame / PAGE_SIZE;
    (KERNEL_PAGES <= p < |vm.frames.used| ==> vm.frames.used[p]) && !IsTable(vm, frame)
  }

  lemma InitInv(frames: Frames)
    requires CursorInv(frames) && |frames.used| <= 0x10_0000
    ensures VmInv(Init(frames)) && Init(frames).mapped == |Init(frames).entries|
    ensures Init(frames).shared <==> CursorAlloc(frames).1 != 0
  {
    AllocTakesLowest(frames);
    IdentityCount(1024);
    IdentityInv(Init(frames));
  }

  /** After set-up the first 4 MB are mapped to themselves, writable, and seen again at 3 GB; no other address is mapped. */
  lemma IdentityMapped(frames: Frames, virt: nat)
    requires WellFormed(frames) && CursorAlloc(frames).1 != 0 && virt < TWO32
    ensures var vm, k := Init(frames), Key(true, virt);
      var low := if virt < 0x40_0000 then virt else virt - 0xC000_0000;
      && vm.shared
      && (k in vm.entries <==> 0 <= low < 0x40_0000)
      && (k in vm.entries ==> vm.entries[k] == low - low % 4096 + 3 && Translate(vm, virt) == low)
  {
    hide CursorAlloc;
    var k := Key(true, virt);
    KeySlot(true, virt);
    SlotOf(virt);
    if k < 1024 {
      PageSplit(virt);
      FramePlus(k, 3);
    }
  }

  lemma SlotOf(virt: nat)
    requires virt < TWO32
    ensures TableSlot(true, Dir(virt)) == 0 <==> virt < 0x40_0000 || 0xC000_0000 <= virt < 0xC040_0000
  {
    assert Dir(virt) == virt / TABLE_SPAN;
  }

  lemma IdentityInv(vm: Vm)
    requires vm.entries == map[] || (vm.entries == IdentityEntries() && 0 in vm.tables)
    ensures EntriesInv(vm)
  {
    hide Present;
    forall k | k in vm.entries
      ensures k / 1024 in vm.tables && Present(vm.entries[k]) && vm.entries[k] < TWO32
    {
      IdentityEntry(k);
    }
  }

  lemma IdentityEntry(k: nat)
    requires k < 1024
    ensures k / 1024 == 0 && Present(k * PAGE_SIZE + 3) && k * PAGE_SIZE + 3 < TWO32
  {
    assert k * PAGE_SIZE + 3 == 2 * (2048 * k + 1) + 1;
  }

  lemma {:induction false} IdentityCount(n: nat)
    ensures |map k: nat | k < n :: k * PAGE_SIZE + 3| == n
  {
    var m := map k: nat | k < n :: k * PAGE_SIZE + 3;
    if n == 0 {
      assert m == map[];
    } else {
      IdentityCount(n - 1);
      assert m == (map k: nat | k < n - 1 :: k * PAGE_SIZE + 3)[n - 1 := (n - 1) * PAGE_SIZE + 3];
    }
  }

  /** An allocation keeps the tables and never hands one out. */
  lemma AllocSparesTables(vm: Vm)
    requires VmInv(vm)
    ensures var (frames1, addr) := CursorAlloc(vm.frames);
      && VmInv(vm.(frames := frames1))
      && !IsTable(vm, addr)
      && (addr != 0 ==> Foreign(vm.(frames := frames1), addr))
      && (forall f: nat :: Foreign(vm, f) ==>
            Foreign(vm.(frames := frames1), f) && (addr != 0 ==> f / PAGE_SIZE != addr / PAGE_SIZE))
  {
    AllocTakesLowest(vm.frames);
  }

  /** So does freeing a frame that is not a table. */
  lemma FreeSparesTables(vm: Vm, addr: nat)
    requires VmInv(vm) && addr % PAGE_SIZE == 0 && addr / PAGE_SIZE < |vm.frames.used| && !IsTable(vm, addr)
    ensures VmInv(vm.(frames := CursorFree(vm.frames, addr)))
  {
    FreeKeepsInv(vm.frames, addr);
  }

  /** A table is there, or a frame is left for it. */
  ghost predicate HasTable(vm: Vm, virt: nat)
    requires WellFormed(vm.frames)
  {
    TableSlot(vm.shared, Dir(virt)) in vm.tables || CursorAlloc(vm.frames).1 != 0
  }

  lemma SlotBound(vm: Vm, virt: nat)
    ensures var s := TableSlot(vm.shared, Dir(virt)); s < 1024 && (vm.shared ==> s != TWIN)
  {
  }

  /** The frame taken for a table is one nobody else may map. */
  lemma FrameForTable(vm: Vm)
    requires VmInv(vm)
    ensures var (frames1, table) := CursorAlloc(vm.frames);
      && VmInv(vm.(frames := frames1))
      && (forall f: nat :: Foreign(vm, f) ==>
            Foreign(vm.(frames := frames1), f) && (table != 0 ==> f / PAGE_SIZE != table / PAGE_SIZE))
      && (table != 0 ==>
            && !IsTable(vm.(frames := frames1), table) && table % PAGE_SIZE == 0
            && KERNEL_PAGES <= table / PAGE_SIZE < |frames1.used| && frames1.used[table / PAGE_SIZE])
  {
    hide CursorAlloc, EntriesInv, TablesInv, Count;
    AllocSparesTables(vm);
    AllocTakesLowest(vm.frames);
    var (frames1, table) := CursorAlloc(vm.frames);
    assert IsTable(vm.(frames := frames1), table) <==> IsTable(vm, table);
  }

  /** One table more, in a frame of its own. */
  lemma AddTable(vm: Vm, s: nat, table: nat)
    requires VmInv(vm) && s < 1024 && (vm.shared ==> s != TWIN) && s !in vm.tables && table % PAGE_SIZE == 0
    requires KERNEL_PAGES <= table / PAGE_SIZE < |vm.frames.used|
    requires vm.frames.used[table / PAGE_SIZE] && !IsTable(vm, table)
    ensures var vm1 := vm.(tables := vm.tables[s := table]);
      && VmInv(vm1)
      && forall f: nat :: Foreign(vm, f) && f / PAGE_SIZE != table / PAGE_SIZE ==> Foreign(vm1, f)
  {
    hide CursorInv, EntriesInv, TablesInv, IsTable;
    var vm1 := vm.(tables := vm.tables[s := table]);
    AddTableFrames(vm, s, table);
    MoreTables(vm, vm1);
    forall f: nat | Foreign(vm, f) && f / PAGE_SIZE != table / PAGE_SIZE
      ensures Foreign(vm1, f)
    {
      AddTableIs(vm, s, table, f);
    }
  }

  lemma AddTableIs(vm: Vm, s: nat, table: nat, f: nat)
    requires s !in vm.tables
    ensures IsTable(vm.(tables := vm.tables[s := table]), f) ==> IsTable(vm, f) || f == table
  {
  }

  lemma AddTableFrames(vm: Vm, s: nat, table: nat)
    requires TablesInv(vm) && s < 1024 && (vm.shared ==> s != TWIN) && s !in vm.tables && table % PAGE_SIZE == 0
    requires KERNEL_PAGES <= table / PAGE_SIZE < |vm.frames.used|
    requires vm.frames.used[table / PAGE_SIZE] && !IsTable(vm, table)
    ensures TablesInv(vm.(tables := vm.tables[s := table]))
  {
  }

  /** Entries stay inside tables when tables are added. */
  lemma MoreTables(vm: Vm, vm1: Vm)
    requires EntriesInv(vm) && vm1.entries == vm.entries && vm.tables.Keys <= vm1.tables.Keys
    ensures EntriesInv(vm1)
  {
  }

  lemma WithTableInv(vm: Vm, virt: nat)
    requires VmInv(vm)
    ensures var vm1 := WithTable(vm, virt);
      && VmInv(vm1) && vm1.shared == vm.shared && vm1.entries == vm.entries && vm1.mapped == vm.mapped
      && (forall f: nat :: Foreign(vm, f) ==> Foreign(vm1, f))
  {
    hide CursorAlloc, EntriesInv, TablesInv, Count, Dir, Foreign, IsTable;
    var s := TableSlot(vm.shared, Dir(virt));
    SlotBound(vm, virt);
    if s !in vm.tables {
      FrameForTable(vm);
      var (frames1, table) := CursorAlloc(vm.frames);
      if table != 0 { AddTable(vm.(frames := frames1), s, table); }
    }
  }

  lemma KeySlot(shared: bool, virt: nat)
    ensures Key(shared, virt) / 1024 == TableSlot(shared, Dir(virt)) && Key(shared, virt) % 1024 == Index(virt)
  {
  }

  lemma WithTableSlot(vm: Vm, virt: nat)
    requires WellFormed(vm.frames)
    ensures Key(vm.shared, virt) / 1024 == TableSlot(vm.shared, Dir(virt))
    ensures Key(vm.shared, virt) / 1024 in WithTable(vm, virt).tables <==> HasTable(vm, virt)
  {
  }

  lemma StoreInv(vm: Vm, k: nat, w: nat)
    requires VmInv(vm) && w < TWO32
    ensures VmInv(Store(vm, k, w))
    ensures forall f: nat :: Foreign(vm, f) ==> Foreign(Store(vm, k, w), f)
  {
    assert forall f: nat :: IsTable(Store(vm, k, w), f) <==> IsTable(vm, f);
  }

  lemma MapInv(vm: Vm, virt: nat, phys: nat, flags: nat)
    requires VmInv(vm) && phys < TWO32 && flags < TWO32
    ensures VmInv(Map(vm, virt, phys, flags))
    ensures forall f: nat :: Foreign(vm, f) ==> Foreign(Map(vm, virt, phys, flags), f)
  {
    WithTableInv(vm, virt);
    OrWord(phys, flags);
    StoreInv(WithTable(vm, virt), Key(vm.shared, virt), Or(phys, flags));
  }

  lemma UnmapInv(vm: Vm, virt: nat)
    requires VmInv(vm)
    ensures VmInv(Unmap(vm, virt))
    ensures forall f: nat :: Foreign(vm, f) ==> Foreign(Unmap(vm, virt), f)
  {
    assert forall f: nat :: IsTable(Unmap(vm, virt), f) <==> IsTable(vm, f);
  }

  // ----- What each step changes -----

  /** Two addresses share an entry when they are on one page, or on twin pages of the shared table. */
  lemma SameKey(shared: bool, v: nat, w: nat)
    requires v < TWO32 && w < TWO32
    ensures Key(shared, v) == Key(shared, w) <==>
      && Index(v) == Index(w)
      && (Dir(v) == Dir(w) || (shared && (Dir(v) == 0 || Dir(v) == TWIN) && (Dir(w) == 0 || Dir(w) == TWIN)))
    ensures Index(v) == Index(w) && Dir(v) == Dir(w) <==> v / PAGE_SIZE == w / PAGE_SIZE
  {
    PageSplit(v);
    PageSplit(w);
  }

  lemma PageSplit(v: nat)
    requires v < TWO32
    ensures v / PAGE_SIZE == Dir(v) * 1024 + Index(v)
  {
    assert v / TABLE_SPAN == v / PAGE_SIZE / 1024;
  }

  /** A page can be mapped when its slot has a table or a frame is left for one, and it is not mapped yet. */
  ghost predicate CanMap(vm: Vm, virt: nat)
    requires WellFormed(vm.frames)
  {
    Key(vm.shared, virt) !in vm.entries && HasTable(vm, virt)
  }

  lemma MapEntries(vm: Vm, virt: nat, phys: nat, flags: nat)
    requires VmInv(vm)
    ensures var vm1, k, w := Map(vm, virt, phys, flags), Key(vm.shared, virt), Or(phys, flags);
      && vm1.shared == vm.shared
      && vm1.entries == (if CanMap(vm, virt) && Present(w) then vm.entries[k := w] else vm.entries)
      && vm1.mapped == vm.mapped + (if CanMap(vm, virt) then 1 else 0)
  {
    WithTableInv(vm, virt);
    WithTableSlot(vm, virt);
  }

  /** After a present mapping, the page and its twin translate to the given frame; nothing else moves. */
  lemma MapEffect(vm: Vm, virt: nat, phys: nat, flags: nat, other: nat)
    requires VmInv(vm) && Present(Or(phys, flags))
    ensures var vm1 := Map(vm, virt, phys, flags);
      Translate(vm1, other) ==
        if CanMap(vm, virt) && Key(vm.shared, other) == Key(vm.shared, virt)
        then FrameOf(Or(phys, flags)) + other % PAGE_SIZE
        else Translate(vm, other)
  {
    MapEntries(vm, virt, phys, flags);
  }

  lemma UnmapEffect(vm: Vm, virt: nat, other: nat)
    requires VmInv(vm)
    ensures Translate(Unmap(vm, virt), other) ==
      if Key(vm.shared, other) == Key(vm.shared, virt) then 0 else Translate(vm, other)
  {
  }

  /** Mapping an unmapped page and unmapping it again restores every translation, table created or not. */
  lemma MapUnmapRestores(vm: Vm, virt: nat, phys: nat, flags: nat, other: nat)
    requires VmInv(vm) && phys < TWO32 && flags < TWO32 && Present(Or(phys, flags))
    requires Key(vm.shared, virt) !in vm.entries
    ensures var vm2 := Unmap(Map(vm, virt, phys, flags), virt);
      vm2.entries == vm.entries && Translate(vm2, other) == Translate(vm, other) && vm2.mapped == vm.mapped
  {
    MapEntries(vm, virt, phys, flags);
    var k := Key(vm.shared, virt);
    assert vm.entries[k := Or(phys, flags)] - {k} == vm.entries;
    assert Present(Or(phys, flags));
  }

  /** An aligned frame with flags below a page is found again by translation. */
  lemma AlignedMapping(phys: nat, flags: nat)
    requires phys % PAGE_SIZE == 0 && flags < PAGE_SIZE
    ensures FrameOf(Or(phys, flags)) == phys && Or(phys, flags) == phys + flags
    ensures Present(Or(phys, flags)) <==> flags % 2 == 1
  {
    hide Or, FrameOf;
    OrPage(phys, flags);
    FramePlus(phys / PAGE_SIZE, flags);
    EvenPage(phys, flags);
  }

  lemma EvenPage(phys: nat, flags: nat)
    requires phys % PAGE_SIZE == 0
    ensures phys == phys / PAGE_SIZE * PAGE_SIZE && (phys + flags) % 2 == flags % 2
  {
    var p := phys / PAGE_SIZE;
    WholePages(phys);
    AddEven(2048 * p, flags);
  }

  lemma WholePages(phys: nat)
    requires phys % PAGE_SIZE == 0
    ensures phys == phys / PAGE_SIZE * PAGE_SIZE == 2 * (2048 * (phys / PAGE_SIZE))
  {
  }

  lemma AddEven(q: nat, r: nat)
    ensures (2 * q + r) % 2 == r % 2
  {
  }

  /** The counter follows the number of present entries exactly when the entry written is present. */
  lemma MapCounts(vm: Vm, virt: nat, phys: nat, flags: nat)
    requires VmInv(vm) && vm.mapped == |vm.entries|
    ensures var vm1 := Map(vm, virt, phys, flags);
      vm1.mapped == |vm1.entries| <==> (CanMap(vm, virt) ==> Present(Or(phys, flags)))
  {
    hide Map, Or, HasTable, TablesInv, EntriesInv, Key, Present, FirstFree, Count;
    MapEntries(vm, virt, phys, flags);
    var k := Key(vm.shared, virt);
    if k !in vm.entries { OneMore(vm.entries, k, Or(phys, flags)); }
  }

  lemma OneMore(m: map<nat, nat>, k: nat, w: nat)
    requires k !in m
    ensures |m[k := w]| == |m| + 1
  {
    assert m[k := w].Keys == m.Keys + {k};
  }

  lemma UnmapCounts(vm: Vm, virt: nat)
    requires vm.mapped == |vm.entries|
    ensures Unmap(vm, virt).mapped == |Unmap(vm, virt).entries|
  {
    var k := Key(vm.shared, virt);
    if k in vm.entries {
      assert (vm.entries - {k}).Keys == vm.entries.Keys - {k};
    }
  }

  // ----- The configured heap address -----

  const TEST_HEAP_VIRT := 0xC010_0000
  const KERNEL_LOAD := 0x10_0000

  /** The configured heap page lies in slot 768, which set-up has filled: asking to map it leaves every
      translation as it was, with the page on top of the kernel image rather than on the frame given. */
  lemma HeapPageIsKernelPage(frames: Frames, phys: nat, offset: nat)
    requires CursorInv(frames) && |frames.used| <= 0x10_0000 && CursorAlloc(frames).1 != 0
    requires offset < 0x30_0000
    ensures var vm := Init(frames);
      && Map(vm, TEST_HEAP_VIRT + offset, phys, PG_PRESENT + PG_WRITABLE) == vm
      && Translate(vm, TEST_HEAP_VIRT + offset) == KERNEL_LOAD + offset
  {
    InitInv(frames);
    var vm, v := Init(frames), TEST_HEAP_VIRT + offset;
    assert Dir(v) == TWIN;
    assert Index(v) == 256 + offset / PAGE_SIZE;
    assert Key(true, v) == 256 + offset / PAGE_SIZE;
    assert Key(true, v) in vm.entries;
  }
}
