/** Page directory and page tables in physical memory. Physical memory is kept as frames of 1024 words; the directory
    is its own array, outside the frames the allocator hands out. */
module PageTables {
  import opened Words
  import Bytes
  import opened PageFrames
  import opened PageMap
  import opened Paging

  type FrameWords = s: seq<Word> | |s| == 1024 witness seq(1024, _ => 0)

  const FRAMES := 0x10_0000

  /** A table word against the abstract entry `k`. */
  ghost predicate Entry(vm: Vm, w: Word, k: nat) {
    if Present(w) then k in vm.entries && vm.entries[k] == w else k !in vm.entries
  }

  /** A present, writable word with the table's frame for every slot that has one, a word that is only writable for the
      others. */
  ghost predicate DirShows(vm: Vm, dir: seq<Word>) {
    && |dir| == 1024
    && forall d :: 0 <= d < 1024 ==>
         dir[d] == if TableSlot(vm.shared, d) in vm.tables then vm.tables[TableSlot(vm.shared, d)] + 3 else 2
  }

  ghost predicate TableShows(vm: Vm, s: nat, words: FrameWords) {
    forall i :: 0 <= i < 1024 ==> Entry(vm, words[i], s * 1024 + i)
  }

  /** Every word of every table is the entry it stands for. */
  ghost predicate TablesShow(vm: Vm, ram: seq<FrameWords>) {
    && |ram| == FRAMES
    && forall s :: s in vm.tables ==> vm.tables[s] / PAGE_SIZE < FRAMES && TableShows(vm, s, ram[vm.tables[s] / PAGE_SIZE])
  }

  /** Directory and tables in memory are the abstract state. */
  ghost predicate PagesShow(vm: Vm, dir: seq<Word>, ram: seq<FrameWords>) {
    DirShows(vm, dir) && TablesShow(vm, ram)
  }

  /** What the two reads of the table walk show about the abstract entry. */
  lemma WalkShows(vm: Vm, dir: seq<Word>, ram: seq<FrameWords>, virt: Word)
    requires VmInv(vm) && PagesShow(vm, dir, ram)
    ensures |dir| == 1024 && |ram| == FRAMES
    ensures var e, k := dir[Dir(virt)], Key(vm.shared, virt);
      && (Present(e) <==> TableSlot(vm.shared, Dir(virt)) in vm.tables)
      && (!Present(e) ==> k !in vm.entries)
      && (Present(e) ==>
            && FrameOf(e) == vm.tables[TableSlot(vm.shared, Dir(virt))]
            && FrameOf(e) / PAGE_SIZE < FRAMES && Entry(vm, ram[FrameOf(e) / PAGE_SIZE][Index(virt)], k))
  {
    hide CursorInv, TablesInv, Entry, FrameOf, Key;
    KeySlot(vm.shared, virt);
    var s: nat := TableSlot(vm.shared, Dir(virt));
    DirWord(vm, dir, Dir(virt));
    if s in vm.tables {
      var words := ram[vm.tables[s] / PAGE_SIZE];
      assert TableShows(vm, s, words);
      assert Entry(vm, words[Index(virt)], s * 1024 + Index(virt));
    }
  }

  /** What a directory word says about its slot. */
  lemma DirWord(vm: Vm, dir: seq<Word>, d: nat)
    requires TablesInv(vm) && |vm.frames.used| <= FRAMES && DirShows(vm, dir) && d < 1024
    ensures Present(dir[d]) <==> TableSlot(vm.shared, d) in vm.tables
    ensures Present(dir[d]) ==> FrameOf(dir[d]) == vm.tables[TableSlot(vm.shared, d)]
  {
    hide FrameOf;
    var s: nat := TableSlot(vm.shared, d);
    if s in vm.tables {
      var t := vm.tables[s];
      assert t % PAGE_SIZE == 0 && t / PAGE_SIZE < FRAMES;
      assert t == t / PAGE_SIZE * PAGE_SIZE;
      PresentWritable(t / PAGE_SIZE);
    }
  }

  /** `addr | PG_PRESENT | PG_WRITABLE` for a page address. */
  lemma PresentWritable(p: nat)
    requires p < FRAMES
    ensures Or(Or(p * PAGE_SIZE, PG_PRESENT), PG_WRITABLE) == p * PAGE_SIZE + 3
    ensures FrameOf(p * PAGE_SIZE + 3) == p * PAGE_SIZE && Present(p * PAGE_SIZE + 3)
  {
    hide Or;
    hide FrameOf, Present;
    FramePlus(p, 3);
    OddPlus(2048 * p + 1);
    OrThree(1024 * p);
  }

  lemma OddPlus(q: nat)
    ensures Present(2 * q + 1)
  {
  }

  lemma OrThree(q: nat)
    ensures Or(Or(4 * q, 1), 2) == 4 * q + 3
  {
    hide Or;
    OrZero(q);
    OrZero(2 * q);
    OrStep(2 * q, 0, 0, 1);
    OrStep(2 * q, 1, 1, 0);
    OrStep(q, 0, 0, 1);
  }

  /** `w & ~0xFFF`. */
  method MaskFrame(w: Word) returns (frame: nat)
    ensures frame == FrameOf(w)
  {
    FrameMask(w);
    frame := AndNot(w, 0xFFF);
  }

  method ClearDirectory(pageDir: array<Word>)
    modifies pageDir
    ensures forall d :: 0 <= d < pageDir.Length ==> pageDir[d] == PG_WRITABLE
  {
    for i := 0 to pageDir.Length
      invariant forall d :: 0 <= d < i ==> pageDir[d] == PG_WRITABLE
    {
      pageDir[i] := PG_WRITABLE;
    }
  }

  /** The directory and table written by set-up show the initial state. */
  lemma InitShows(vm: Vm, dir: seq<Word>, ram: seq<FrameWords>, f: nat)
    requires |dir| == 1024 && |ram| == FRAMES && f < FRAMES && vm.shared
    requires vm.tables == map[0 := f * PAGE_SIZE] && vm.entries == IdentityEntries()
    requires forall d :: 0 <= d < 1024 ==> dir[d] == if d == 0 || d == TWIN then f * PAGE_SIZE + 3 else PG_WRITABLE
    requires forall j :: 0 <= j < 1024 ==> ram[f][j] == j * PAGE_SIZE + 3
    ensures PagesShow(vm, dir, ram)
  {
    PresentWritable(f);
    forall i | 0 <= i < 1024
      ensures Entry(vm, ram[f][i], i)
    {
      PresentWritable(i);
    }
    assert TableShows(vm, 0, ram[f]);
  }

  /** A directory without tables. */
  lemma NoTablesShow(vm: Vm, dir: seq<Word>, ram: seq<FrameWords>)
    requires |dir| == 1024 && |ram| == FRAMES && vm.tables == map[]
    requires forall d :: 0 <= d < 1024 ==> dir[d] == PG_WRITABLE
    ensures PagesShow(vm, dir, ram)
  {
  }

  /** A zeroed frame entered for a missing slot is that slot's empty table. */
  lemma NewTableShows(vm: Vm, dir: seq<Word>, ram: seq<FrameWords>, ram': seq<FrameWords>, d: nat, f: nat, frames1: Frames)
    requires VmInv(vm) && PagesShow(vm, dir, ram)
    requires d < 1024 && TableSlot(vm.shared, d) !in vm.tables
    requires f < FRAMES && !IsTable(vm, f * PAGE_SIZE)
    requires |ram'| == FRAMES && (forall g :: 0 <= g < FRAMES && g != f ==> ram'[g] == ram[g])
    requires forall i :: 0 <= i < 1024 ==> ram'[f][i] == 0
    ensures var vm1 := vm.(frames := frames1, tables := vm.tables[TableSlot(vm.shared, d) := f * PAGE_SIZE]);
      PagesShow(vm1, dir[d := f * PAGE_SIZE + 3], ram')
  {
    PresentWritable(f);
    var slot: nat := TableSlot(vm.shared, d);
    var vm1 := vm.(frames := frames1, tables := vm.tables[slot := f * PAGE_SIZE]);
    forall s | s in vm1.tables
      ensures vm1.tables[s] / PAGE_SIZE < FRAMES && TableShows(vm1, s, ram'[vm1.tables[s] / PAGE_SIZE])
    {
      if s == slot {
        EmptyTableShows(vm1, s, ram'[f], vm);
      } else {
        assert vm.tables[s] != f * PAGE_SIZE;
        assert TableShows(vm, s, ram[vm.tables[s] / PAGE_SIZE]);
      }
    }
  }

  lemma EmptyTableShows(vm1: Vm, s: nat, words: FrameWords, vm: Vm)
    requires EntriesInv(vm) && s !in vm.tables && vm1.entries == vm.entries
    requires forall i :: 0 <= i < 1024 ==> words[i] == 0
    ensures TableShows(vm1, s, words)
  {
    forall i | 0 <= i < 1024
      ensures Entry(vm1, words[i], s * 1024 + i)
    {
      assert (s * 1024 + i) / 1024 == s;
    }
  }

  /** One table word written, one abstract entry changed. */
  lemma WordShows(vm: Vm, vm1: Vm, ram: seq<FrameWords>, s: nat, i: nat, w: Word)
    requires TablesInv(vm) && TablesShow(vm, ram) && vm1.tables == vm.tables && s in vm.tables && i < 1024
    requires forall k :: k != s * 1024 + i ==> (k in vm1.entries <==> k in vm.entries)
    requires forall k :: k != s * 1024 + i && k in vm.entries ==> vm1.entries[k] == vm.entries[k]
    requires Entry(vm1, w, s * 1024 + i)
    ensures var f := vm.tables[s] / PAGE_SIZE;
      f < FRAMES && TablesShow(vm1, ram[f := ram[f][i := w]])
  {
    var f := vm.tables[s] / PAGE_SIZE;
    assert TableShows(vm, s, ram[f]);
    var ram' := ram[f := ram[f][i := w]];
    forall t | t in vm1.tables
      ensures vm1.tables[t] / PAGE_SIZE < FRAMES && TableShows(vm1, t, ram'[vm1.tables[t] / PAGE_SIZE])
    {
      var words := ram[vm.tables[t] / PAGE_SIZE];
      assert TableShows(vm, t, words);
      if t != s {
        assert vm.tables[t] != vm.tables[s];
        forall j | 0 <= j < 1024
          ensures Entry(vm1, words[j], t * 1024 + j)
        {
          assert Entry(vm, words[j], t * 1024 + j);
          assert t * 1024 + j != s * 1024 + i;
        }
      }
    }
  }

  lemma StoreShows(vm: Vm, dir: seq<Word>, ram: seq<FrameWords>, virt: Word, w: Word)
    requires VmInv(vm) && PagesShow(vm, dir, ram)
    requires TableSlot(vm.shared, Dir(virt)) in vm.tables && Key(vm.shared, virt) !in vm.entries
    ensures var f := vm.tables[TableSlot(vm.shared, Dir(virt))] / PAGE_SIZE;
      && f < |ram|
      && PagesShow(Store(vm, Key(vm.shared, virt), w), dir, ram[f := ram[f][Index(virt) := w]])
  {
    hide CursorInv, TablesInv;
    KeySlot(vm.shared, virt);
    WordShows(vm, Store(vm, Key(vm.shared, virt), w), ram, TableSlot(vm.shared, Dir(virt)), Index(virt), w);
  }

  lemma UnmapShows(vm: Vm, dir: seq<Word>, ram: seq<FrameWords>, virt: Word)
    requires VmInv(vm) && PagesShow(vm, dir, ram) && Key(vm.shared, virt) in vm.entries
    ensures TableSlot(vm.shared, Dir(virt)) in vm.tables
    ensures var f := vm.tables[TableSlot(vm.shared, Dir(virt))] / PAGE_SIZE;
      f < |ram| && PagesShow(Unmap(vm, virt), dir, ram[f := ram[f][Index(virt) := 0]])
  {
    hide CursorInv, TablesInv;
    KeySlot(vm.shared, virt);
    WordShows(vm, Unmap(vm, virt), ram, TableSlot(vm.shared, Dir(virt)), Index(virt), 0);
  }

  /** Writing a frame that holds no table leaves every table alone. */
  lemma ForeignWrite(vm: Vm, dir: seq<Word>, ram: seq<FrameWords>, g: nat, words: FrameWords)
    requires VmInv(vm) && PagesShow(vm, dir, ram) && g < FRAMES && !IsTable(vm, g * PAGE_SIZE)
    ensures g < |ram| && PagesShow(vm, dir, ram[g := words])
  {
    forall s | s in vm.tables
      ensures vm.tables[s] / PAGE_SIZE != g
    {
      assert vm.tables[s] == vm.tables[s] / PAGE_SIZE * PAGE_SIZE;
    }
  }

  // ----- Counting present words -----

  /** The word of entry `k` in the frame of its slot's table, when the slot has one. */
  ghost predicate PresentWord(tables: map<nat, nat>, ram: seq<FrameWords>, k: nat) {
    && k / 1024 in tables && tables[k / 1024] / PAGE_SIZE < |ram|
    && Present(ram[tables[k / 1024] / PAGE_SIZE][k % 1024])
  }

  /** The number of present words among the first `k` words of the slots' tables, one slot after the other. */
  ghost function PresentWords(tables: map<nat, nat>, ram: seq<FrameWords>, k: nat): nat {
    if k == 0 then 0
    else PresentWords(tables, ram, k - 1) + if PresentWord(tables, ram, k - 1) then 1 else 0
  }

  lemma PresentWordIsEntry(vm: Vm, ram: seq<FrameWords>, k: nat)
    requires EntriesInv(vm) && TablesShow(vm, ram)
    ensures PresentWord(vm.tables, ram, k) <==> k in vm.entries
  {
    var s: nat := k / 1024;
    if s in vm.tables {
      assert TableShows(vm, s, ram[vm.tables[s] / PAGE_SIZE]);
      assert Entry(vm, ram[vm.tables[s] / PAGE_SIZE][k % 1024], s * 1024 + k % 1024);
    }
  }

  lemma {:induction false} PresentBelow(vm: Vm, ram: seq<FrameWords>, k: nat)
    requires EntriesInv(vm) && TablesShow(vm, ram)
    ensures PresentWords(vm.tables, ram, k) == |set j | j in vm.entries && j < k|
  {
    hide EntriesInv, TablesShow, PresentWord;
    if k == 0 {
      assert (set j | j in vm.entries && j < k) == {};
    } else {
      PresentBelow(vm, ram, k - 1);
      PresentWordIsEntry(vm, ram, k - 1);
      var before := set j | j in vm.entries && j < k - 1;
      assert (set j | j in vm.entries && j < k) == if k - 1 in vm.entries then before + {k - 1} else before;
    }
  }

  /** The present words in the frames of all tables are as many as the entries. */
  lemma PresentIsEntries(vm: Vm, ram: seq<FrameWords>)
    requires TablesInv(vm) && EntriesInv(vm) && TablesShow(vm, ram)
    ensures PresentWords(vm.tables, ram, 1024 * 1024) == |vm.entries|
  {
    hide TablesShow, PresentWords;
    PresentBelow(vm, ram, 1024 * 1024);
    assert (set j | j in vm.entries && j < 1024 * 1024) == vm.entries.Keys;
  }

  /** The four bytes at an address lie in one page. */
  predicate InsidePage(virt: nat) {
    virt % PAGE_SIZE <= PAGE_SIZE - 4
  }

  lemma FrameNumber(w: Word)
    ensures w / PAGE_SIZE < FRAMES && FrameOf(w) == w / PAGE_SIZE * PAGE_SIZE
  {
  }

  lemma TableFrame(vm: Vm, s: nat)
    requires TablesInv(vm) && s in vm.tables
    ensures IsTable(vm, vm.tables[s] / PAGE_SIZE * PAGE_SIZE)
  {
    assert vm.tables[s] == vm.tables[s] / PAGE_SIZE * PAGE_SIZE;
  }

  // ----- The words of all tables -----

  /** Word `k`, counted over the slots' tables one after the other; 0 where there is no table. */
  ghost function TableWord(tables: map<nat, nat>, ram: seq<FrameWords>, k: nat): nat {
    if k / 1024 in tables && tables[k / 1024] / PAGE_SIZE < |ram| then ram[tables[k / 1024] / PAGE_SIZE][k % 1024] else 0
  }

  /** Every word is what it was, 0 in a new table, but word `k`, if `change`, which is `w`. */
  ghost predicate WordsBecome(tables: map<nat, nat>, ram: seq<FrameWords>, tables1: map<nat, nat>, ram1: seq<FrameWords>,
                              k: nat, w: nat, change: bool) {
    forall j {:trigger TableWord(tables1, ram1, j)} :: j / 1024 in tables1 ==>
      TableWord(tables1, ram1, j) == if change && j == k then w else TableWord(tables, ram, j)
  }

  lemma WordsStay(tables: map<nat, nat>, ram: seq<FrameWords>, k: nat, w: nat)
    ensures WordsBecome(tables, ram, tables, ram, k, w, false)
  {
  }

  lemma WordsAnyway(t0: map<nat, nat>, r0: seq<FrameWords>, t1: map<nat, nat>, r1: seq<FrameWords>, k: nat, w: nat)
    requires WordsBecome(t0, r0, t1, r1, 0, 0, false)
    ensures WordsBecome(t0, r0, t1, r1, k, w, false)
  {
  }

  lemma WordsThen(t0: map<nat, nat>, r0: seq<FrameWords>, t1: map<nat, nat>, r1: seq<FrameWords>, r2: seq<FrameWords>,
                  k: nat, w: nat, k1: nat, w1: nat, first: bool, second: bool)
    requires WordsBecome(t0, r0, t1, r1, k, w, first) && WordsBecome(t1, r1, t1, r2, k1, w1, second)
    requires !first || !second
    ensures WordsBecome(t0, r0, t1, r2, if first then k else k1, if first then w else w1, first || second)
  {
    forall j {:trigger TableWord(t1, r2, j)} | j / 1024 in t1
      ensures TableWord(t1, r2, j) ==
        if (first || second) && j == (if first then k else k1) then (if first then w else w1) else TableWord(t0, r0, j)
    {
      assert TableWord(t1, r1, j) == TableWord(t1, r1, j);
    }
  }

  lemma StoredWords(vm: Vm, ram: seq<FrameWords>, k: nat, w: Word)
    requires TablesInv(vm) && TablesShow(vm, ram) && k / 1024 in vm.tables
    ensures var f := vm.tables[k / 1024] / PAGE_SIZE;
      f < |ram| && WordsBecome(vm.tables, ram, vm.tables, ram[f := ram[f][k % 1024 := w]], k, w, true)
  {
    var f := vm.tables[k / 1024] / PAGE_SIZE;
    var ram1 := ram[f := ram[f][k % 1024 := w]];
    forall j {:trigger TableWord(vm.tables, ram1, j)} | j / 1024 in vm.tables
      ensures TableWord(vm.tables, ram1, j) == if j == k then w else TableWord(vm.tables, ram, j)
    {
      if j / 1024 == k / 1024 {
        assert j == j / 1024 * 1024 + j % 1024 && k == k / 1024 * 1024 + k % 1024;
      } else {
        TablesDiffer(vm, j / 1024, k / 1024);
      }
    }
  }

  lemma TablesDiffer(vm: Vm, s: nat, t: nat)
    requires TablesInv(vm) && s in vm.tables && t in vm.tables && s != t
    ensures vm.tables[s] / PAGE_SIZE != vm.tables[t] / PAGE_SIZE
  {
    assert vm.tables[s] == vm.tables[s] / PAGE_SIZE * PAGE_SIZE;
    assert vm.tables[t] == vm.tables[t] / PAGE_SIZE * PAGE_SIZE;
  }

  /** A write to a frame that holds no table. */
  lemma ForeignWords(vm: Vm, ram: seq<FrameWords>, g: nat, words: FrameWords, k: nat, w: nat)
    requires TablesInv(vm) && TablesShow(vm, ram) && g < |ram| && !IsTable(vm, g * PAGE_SIZE)
    ensures WordsBecome(vm.tables, ram, vm.tables, ram[g := words], k, w, false)
  {
    forall j {:trigger TableWord(vm.tables, ram[g := words], j)} | j / 1024 in vm.tables
      ensures TableWord(vm.tables, ram[g := words], j) == TableWord(vm.tables, ram, j)
    {
      var s: nat := j / 1024;
      assert vm.tables[s] == vm.tables[s] / PAGE_SIZE * PAGE_SIZE;
    }
  }

  /** A zeroed frame for a missing table. */
  lemma NewTableWords(vm: Vm, ram: seq<FrameWords>, ram': seq<FrameWords>, s: nat, f: nat)
    requires TablesInv(vm) && TablesShow(vm, ram) && s !in vm.tables && f < FRAMES && !IsTable(vm, f * PAGE_SIZE)
    requires |ram'| == FRAMES && (forall g :: 0 <= g < FRAMES && g != f ==> ram'[g] == ram[g])
    requires forall i :: 0 <= i < 1024 ==> ram'[f][i] == 0
    ensures WordsBecome(vm.tables, ram, vm.tables[s := f * PAGE_SIZE], ram', 0, 0, false)
  {
    var tables1 := vm.tables[s := f * PAGE_SIZE];
    forall j {:trigger TableWord(tables1, ram', j)} | j / 1024 in tables1
      ensures TableWord(tables1, ram', j) == TableWord(vm.tables, ram, j)
    {
      var t: nat := j / 1024;
      if t != s { assert vm.tables[t] == vm.tables[t] / PAGE_SIZE * PAGE_SIZE; }
    }
  }

  // ----- Writable pages -----

  predicate Writable(w: nat) {
    w / 2 % 2 == 1
  }

  /** Both words on the walk to an address are present and writable. */
  ghost predicate WalkWritable(dir: seq<Word>, ram: seq<FrameWords>, virt: Word)
    requires |dir| == 1024 && |ram| == FRAMES
  {
    && Present(dir[Dir(virt)]) && Writable(dir[Dir(virt)])
    && FrameOf(dir[Dir(virt)]) / PAGE_SIZE < FRAMES
    && var w := ram[FrameOf(dir[Dir(virt)]) / PAGE_SIZE][Index(virt)]; Present(w) && Writable(w)
  }

  /** An address can be written to exactly when its entry is there and writable: the directory never stands in the way. */
  lemma WritableExactly(vm: Vm, dir: seq<Word>, ram: seq<FrameWords>, virt: Word)
    requires VmInv(vm) && PagesShow(vm, dir, ram)
    ensures |dir| == 1024 && |ram| == FRAMES
    ensures var k := Key(vm.shared, virt); WalkWritable(dir, ram, virt) <==> k in vm.entries && Writable(vm.entries[k])
  {
    hide CursorInv, Key, FrameOf, EntriesInv;
    WalkShows(vm, dir, ram, virt);
    var s: nat := TableSlot(vm.shared, Dir(virt));
    if s in vm.tables {
      PresentWritable(vm.tables[s] / PAGE_SIZE);
      ThreeWritable(vm.tables[s] / PAGE_SIZE);
    }
  }

  lemma ThreeWritable(p: nat)
    ensures Writable(p * PAGE_SIZE + 3)
  {
    var q := 1024 * p;
    assert p * PAGE_SIZE + 3 == 2 * (2 * q + 1) + 1;
    OddHalf(q);
  }

  lemma OddHalf(q: nat)
    ensures (2 * (2 * q + 1) + 1) / 2 % 2 == 1
  {
  }

  class Vmm {
    const pmm: Pmm
    const pageDir: array<Word>
    var ram: seq<FrameWords>
    var totalMapped: int
    ghost var state: Vm

    ghost predicate Shaped()
      reads `ram, pmm
    {
      pageDir.Length == 1024 && |ram| == FRAMES && pageDir as object != pmm.bitmap
    }

    ghost predicate Valid()
      reads this, pmm, pmm.bitmap, pageDir
    {
      && Shaped() && pmm.Valid()
      && state.frames == pmm.State() && VmInv(state)
      && totalMapped == state.mapped
      && PagesShow(state, pageDir[..], ram)
    }

    constructor (pmm: Pmm, pageDir: array<Word>, ram: seq<FrameWords>)
      requires pageDir.Length == 1024 && |ram| == FRAMES && pageDir as object != pmm.bitmap
      ensures Shaped() && totalMapped == 0 && this.pmm == pmm && this.pageDir == pageDir && this.ram == ram
    {
      this.pmm, this.pageDir, this.ram := pmm, pageDir, ram;
      totalMapped := 0;
    }

    /** `vmm_init`, over physical memory with any contents. */
    method Init()
      requires Shaped() && pmm.Valid() && totalMapped == 0
      modifies this, pmm`usedPages, pmm`lastAllocIndex, pmm.bitmap, pageDir
      ensures Valid() && state == Paging.Init(old(pmm.State()))
      ensures forall g :: 0 <= g < FRAMES && !IsTable(state, g * PAGE_SIZE) ==> ram[g] == old(ram[g])
    {
      hide TablesInv, EntriesInv, CursorInv, PagesShow, CursorAlloc, IdentityEntries;
      ghost var frames := pmm.State();
      InitInv(frames);
      AllocAddress(frames);
      state := Paging.Init(frames);
      ClearDirectory(pageDir);
      var table := pmm.AllocPage();
      if table == 0 {
        NoTablesShow(state, pageDir[..], ram);
        return;
      }
      IdentityMap(table, state);
      totalMapped := 1024;
      assert state.tables[0] == table;
    }

    /** Fills the first table and enters it twice in the directory. */
    method IdentityMap(table: nat, ghost vm: Vm)
      requires Shaped() && table % PAGE_SIZE == 0 && table / PAGE_SIZE < FRAMES
      requires forall d :: 0 <= d < 1024 ==> pageDir[d] == PG_WRITABLE
      requires vm.shared && vm.tables == map[0 := table] && vm.entries == IdentityEntries()
      modifies `ram, pageDir
      ensures |ram| == FRAMES && PagesShow(vm, pageDir[..], ram)
      ensures forall g :: 0 <= g < FRAMES && g != table / PAGE_SIZE ==> ram[g] == old(ram[g])
    {
      var f := table / PAGE_SIZE;
      for i := 0 to 1024
        invariant |ram| == FRAMES && forall g :: 0 <= g < FRAMES && g != f ==> ram[g] == old(ram[g])
        invariant forall j :: 0 <= j < i ==> ram[f][j] == j * PAGE_SIZE + 3
        invariant forall d :: 0 <= d < 1024 ==> pageDir[d] == PG_WRITABLE
      {
        PresentWritable(i);
        StoreWord(f, i, Or(Or(i * PAGE_SIZE, PG_PRESENT), PG_WRITABLE));
      }
      PresentWritable(f);
      pageDir[0] := Or(Or(table, PG_PRESENT), PG_WRITABLE);
      pageDir[TWIN] := Or(Or(table, PG_PRESENT), PG_WRITABLE);
      InitShows(vm, pageDir[..], ram, f);
    }

    /** The counter is the number of present words in the tables' frames whenever it is the number of entries. */
    lemma MappedIsPresentWords()
      requires Valid()
      ensures totalMapped == PresentWords(state.tables, ram, 1024 * 1024) <==> state.mapped == |state.entries|
    {
      hide CursorInv;
      PresentIsEntries(state, ram);
    }

    /** `vmm_v_to_p`: the table walk. */
    method VToP(virt: Word) returns (phys: nat)
      requires Valid()
      ensures phys == Translate(state, virt)
    {
      hide TablesInv, EntriesInv, CursorInv, PagesShow;
      WalkShows(state, pageDir[..], ram, virt);
      var d, i := virt / TABLE_SPAN % 1024, virt / PAGE_SIZE % 1024;
      if !Present(pageDir[d]) {
        return 0;
      }
      var table := MaskFrame(pageDir[d]);
      var w := ram[table / PAGE_SIZE][i];
      if !Present(w) {
        return 0;
      }
      var frame := MaskFrame(w);
      phys := frame + virt % PAGE_SIZE;
    }

    /** Zeroes a frame and enters it in the directory. */
    method PlaceTable(d: nat, table: nat, ghost vm: Vm, ghost frames1: Frames)
      requires Shaped() && VmInv(vm) && PagesShow(vm, pageDir[..], ram)
      requires d < 1024 && TableSlot(vm.shared, d) !in vm.tables
      requires table % PAGE_SIZE == 0 && table / PAGE_SIZE < FRAMES && !IsTable(vm, table)
      modifies `ram, pageDir
      ensures |ram| == FRAMES
      ensures var vm1 := vm.(frames := frames1, tables := vm.tables[TableSlot(vm.shared, d) := table]);
        PagesShow(vm1, pageDir[..], ram)
      ensures forall g :: 0 <= g < FRAMES && g != table / PAGE_SIZE ==> ram[g] == old(ram[g])
      ensures WordsBecome(vm.tables, old(ram), vm.tables[TableSlot(vm.shared, d) := table], ram, 0, 0, false)
    {
      var f := table / PAGE_SIZE;
      hide TablesInv, EntriesInv, CursorInv, DirShows, TablesShow, IsTable, Or, WordsBecome;
      ZeroFrame(f);
      PresentWritable(f);
      ghost var dir := pageDir[..];
      var w: Word := Or(Or(table, PG_PRESENT), PG_WRITABLE);
      pageDir[d] := w;
      NewTableShows(vm, dir, old(ram), ram, d, f, frames1);
      NewTableWords(vm, old(ram), ram, TableSlot(vm.shared, d), f);
      assert pageDir[..] == dir[d := w];
    }

    method ZeroFrame(f: nat)
      requires f < |ram|
      modifies `ram
      ensures |ram| == old(|ram|) && forall i :: 0 <= i < 1024 ==> ram[f][i] == 0
      ensures forall g :: 0 <= g < |ram| && g != f ==> ram[g] == old(ram[g])
    {
      for i := 0 to 1024
        invariant |ram| == old(|ram|) && forall j :: 0 <= j < i ==> ram[f][j] == 0
        invariant forall g :: 0 <= g < |ram| && g != f ==> ram[g] == old(ram[g])
      {
        StoreWord(f, i, 0);
      }
    }

    /** Looks the directory entry up and, when it is absent, tries to place a zeroed table there. */
    method EnsureTable(virt: Word) returns (ok: bool)
      requires Valid()
      modifies `state, `ram, pmm`usedPages, pmm`lastAllocIndex, pmm.bitmap, pageDir
      ensures Valid() && state == WithTable(old(state), virt)
      ensures ok <==> TableSlot(state.shared, Dir(virt)) in state.tables
      ensures forall g :: 0 <= g < FRAMES && !IsTable(state, g * PAGE_SIZE) ==> ram[g] == old(ram[g])
      ensures WordsBecome(old(state.tables), old(ram), state.tables, ram, 0, 0, false)
    {
      hide TablesInv, EntriesInv, CursorInv, PagesShow, WordsBecome;
      WordsStay(state.tables, ram, 0, 0);
      WalkShows(state, pageDir[..], ram, virt);
      var d := virt / TABLE_SPAN % 1024;
      if Present(pageDir[d]) {
        return true;
      }
      WithTableInv(state, virt);
      AllocAddress(state.frames);
      AllocSparesTables(state);
      ghost var vm := state;
      var table := pmm.AllocPage();
      state := WithTable(vm, virt);
      if table == 0 {
        return false;
      }
      PlaceTable(d, table, vm, state.frames);
      ghost var slot: nat := TableSlot(vm.shared, d);
      assert state.tables[slot] == table;
      return true;
    }

    /** The entry's word, the counter and the probe. */
    method EnterWord(virt: Word, w: Word, table: nat) returns (faulted: bool)
      requires Valid() && InsidePage(virt) && Foreign(state, FrameOf(w))
      requires var s := TableSlot(state.shared, Dir(virt)); s in state.tables && state.tables[s] == table
      requires Key(state.shared, virt) !in state.entries
      modifies `state, `totalMapped, `ram
      ensures Valid() && state == Store(old(state), Key(old(state).shared, virt), w)
      ensures faulted <==> !Present(w)
      ensures forall g :: 0 <= g < FRAMES && !IsTable(state, g * PAGE_SIZE) && g != FrameOf(w) / PAGE_SIZE ==>
        ram[g] == old(ram[g])
      ensures WordsBecome(state.tables, old(ram), state.tables, ram, Key(state.shared, virt), w, true)
    {
      hide TablesInv, EntriesInv, CursorInv, DirShows, TablesShow, FrameOf, WordsBecome;
      ghost var vm, m, k := state, ram, Key(state.shared, virt);
      KeySlot(vm.shared, virt);
      StoreInv(vm, k, w);
      StoreShows(vm, pageDir[..], ram, virt, w);
      StoredWords(vm, ram, k, w);
      state := Store(vm, k, w);
      StoreWord(table / PAGE_SIZE, virt / PAGE_SIZE % 1024, w);
      totalMapped := totalMapped + 1;
      faulted := !Present(w);
      if !faulted {
        ghost var m1 := ram;
        Probe(virt, w);
        WordsThen(vm.tables, m, vm.tables, m1, ram, k, w, 0, 0, true, false);
      }
      FrameNumber(w);
      TableFrame(state, TableSlot(state.shared, Dir(virt)));
    }

    /** Enters `phys | flags` for `virt` and probes the page with a write; a non-present entry makes the probe fault. */
    method MapPage(virt: Word, phys: Word, flags: Word) returns (faulted: bool)
      requires Valid() && InsidePage(virt)
      requires Foreign(state, FrameOf(Or(phys, flags)))
      modifies `state, `totalMapped, `ram, pmm`usedPages, pmm`lastAllocIndex, pmm.bitmap, pageDir
      ensures Valid() && state == Map(old(state), virt, phys, flags)
      ensures faulted <==> CanMap(old(state), virt) && !Present(Or(phys, flags))
      ensures var target := FrameOf(Or(phys, flags)) / PAGE_SIZE;
        forall g :: 0 <= g < FRAMES && !IsTable(state, g * PAGE_SIZE) && g != target ==> ram[g] == old(ram[g])
      ensures WordsBecome(old(state.tables), old(ram), state.tables, ram, Key(state.shared, virt), Or(phys, flags),
                          CanMap(old(state), virt))
    {
      hide TablesInv, EntriesInv, CursorInv, PagesShow, Or, FrameOf, CursorAlloc, HasTable, WordsBecome;
      faulted := false;
      ghost var vm, m, k := state, ram, Key(state.shared, virt);
      WithTableInv(vm, virt);
      WithTableSlot(vm, virt);
      OrWord(phys, flags);
      var d, i := virt / TABLE_SPAN % 1024, virt / PAGE_SIZE % 1024;
      var ok := EnsureTable(virt);
      WordsAnyway(vm.tables, m, state.tables, ram, k, Or(phys, flags));
      if !ok {
        return;
      }
      WalkShows(state, pageDir[..], ram, virt);
      var table := MaskFrame(pageDir[d]);
      if Present(ram[table / PAGE_SIZE][i]) {
        return;
      }
      ghost var m1 := ram;
      faulted := EnterWord(virt, Or(phys, flags), table);
      WordsThen(vm.tables, m, state.tables, m1, ram, 0, 0, k, Or(phys, flags), false, true);
    }

    /** One word of physical memory. */
    method StoreWord(f: nat, i: nat, w: Word)
      requires f < |ram| && i < 1024
      modifies `ram
      ensures ram == old(ram)[f := old(ram)[f][i := w]]
    {
      ram := ram[f := ram[f][i := w]];
    }

    /** `*virt = 0xDEADBEEF` through a present entry: four bytes from the offset on, in one word or in two. */
    method Probe(virt: Word, w: Word)
      requires Valid() && InsidePage(virt) && !IsTable(state, FrameOf(w))
      modifies `ram
      ensures Valid()
      ensures ram == old(ram)[w / PAGE_SIZE := Bytes.StoreAt(old(ram)[w / PAGE_SIZE], virt % PAGE_SIZE, 0xDEADBEEF)]
      ensures WordsBecome(state.tables, old(ram), state.tables, ram, 0, 0, false)
    {
      hide TablesInv, EntriesInv, CursorInv, DirShows, TablesShow, IsTable, WordsBecome;
      var g, i, k := w / PAGE_SIZE, virt % PAGE_SIZE / 4, virt % PAGE_SIZE % 4;
      FrameNumber(w);
      ForeignWrite(state, pageDir[..], ram, g, Bytes.StoreAt(ram[g], virt % PAGE_SIZE, PROBE));
      ForeignWords(state, ram, g, Bytes.StoreAt(ram[g], virt % PAGE_SIZE, PROBE), 0, 0);
      if k == 0 {
        StoreWord(g, i, PROBE);
      } else {
        StoreWord(g, i, Bytes.Front(ram[g][i], PROBE, k));
        StoreWord(g, i + 1, Bytes.Back(ram[g][i + 1], PROBE, k));
      }
      assert ram == old(ram)[g := Bytes.StoreAt(old(ram)[g], virt % PAGE_SIZE, PROBE)];
    }

    method UnmapPage(virt: Word)
      requires Valid()
      modifies `state, `totalMapped, `ram
      ensures Valid() && state == Unmap(old(state), virt)
      ensures forall g :: 0 <= g < FRAMES && !IsTable(state, g * PAGE_SIZE) ==> ram[g] == old(ram[g])
      ensures var k := Key(state.shared, virt);
        WordsBecome(state.tables, old(ram), state.tables, ram, k, 0, k in old(state.entries))
    {
      hide TablesInv, EntriesInv, CursorInv, DirShows, TablesShow, WordsBecome;
      ghost var vm := state;
      WordsStay(vm.tables, ram, Key(vm.shared, virt), 0);
      UnmapInv(vm, virt);
      WalkShows(vm, pageDir[..], ram, virt);
      var d, i := virt / TABLE_SPAN % 1024, virt / PAGE_SIZE % 1024;
      if !Present(pageDir[d]) {
        return;
      }
      var table := MaskFrame(pageDir[d]);
      if !Present(ram[table / PAGE_SIZE][i]) {
        return;
      }
      KeySlot(vm.shared, virt);
      UnmapShows(vm, pageDir[..], ram, virt);
      StoredWords(vm, ram, Key(vm.shared, virt), 0);
      state := Unmap(vm, virt);
      assert IsTable(state, table);
      StoreWord(table / PAGE_SIZE, i, 0);
      totalMapped := totalMapped - 1;
    }

    /** `alloc_page`, which leaves the tables as they are. */
    method AllocFrame() returns (addr: nat)
      requires Valid()
      modifies `state, pmm`usedPages, pmm`lastAllocIndex, pmm.bitmap
      ensures Valid() && state == old(state).(frames := CursorAlloc(old(state).frames).0)
      ensures addr == CursorAlloc(old(state).frames).1
    {
      hide TablesInv, EntriesInv, CursorInv, PagesShow, CursorAlloc;
      ghost var vm := state;
      AllocSparesTables(vm);
      SameTables(vm, CursorAlloc(vm.frames).0, pageDir[..], ram);
      addr := pmm.AllocPage();
      state := state.(frames := CursorAlloc(state.frames).0);
    }

    /** `pmm_free_page` of a frame that holds no table. */
    method FreeFrame(addr: nat)
      requires Valid() && addr % PAGE_SIZE == 0 && addr / PAGE_SIZE < |state.frames.used| && !IsTable(state, addr)
      modifies `state, pmm`usedPages, pmm`lastAllocIndex, pmm.bitmap
      ensures Valid() && state == old(state).(frames := CursorFree(old(state).frames, addr))
    {
      hide TablesInv, EntriesInv, CursorInv, PagesShow, CursorFree;
      ghost var vm := state;
      FreeSparesTables(vm, addr);
      SameTables(vm, CursorFree(vm.frames, addr), pageDir[..], ram);
      pmm.FreePage(addr);
      state := state.(frames := CursorFree(state.frames, addr));
    }
  }

  lemma SameTables(vm: Vm, frames1: Frames, dir: seq<Word>, ram: seq<FrameWords>)
    requires PagesShow(vm, dir, ram)
    ensures PagesShow(vm.(frames := frames1), dir, ram)
  {
    forall s: nat | s in vm.tables
      ensures TableShows(vm.(frames := frames1), s, ram[vm.tables[s] / PAGE_SIZE])
    {
      assert TableShows(vm, s, ram[vm.tables[s] / PAGE_SIZE]);
      forall i | 0 <= i < 1024
        ensures Entry(vm.(frames := frames1), ram[vm.tables[s] / PAGE_SIZE][i], s * 1024 + i)
      {
        assert Entry(vm, ram[vm.tables[s] / PAGE_SIZE][i], s * 1024 + i);
      }
    }
  }
}
