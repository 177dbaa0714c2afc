/** What the kernel heap's memory writes do to the free list and the headers, one operation at a time. */
module HeapMemory {
  import opened BlockLayout
  import opened FreeList
  import opened PageFrames

  /** The address of block `i`, or null past the end. */
  function AddrAt(bs: seq<Block>, i: nat): int {
    if i < |bs| then bs[i].addr else 0
  }

  /** The place of block `i` in the free list. */
  ghost function ListIndex(bs: seq<Block>, i: nat): nat
    requires i <= |bs|
  {
    |FreeAddrs(bs[..i])|
  }

  /** Following `next` from a free block leads to the next free block. */
  lemma NextLink(m: Mem, bs: seq<Block>, i: nat, sh: Shape)
    requires Linked(m, FreeAddrs(bs), sh) && i < |bs| && !bs[i].used
    ensures Holds(m, bs[i].addr + sh.next, AddrAt(bs, NextFree(bs, i + 1)))
  {
    hide FreeAddrs, Removed, Linked;
    FreeAt(bs, i);
    Cut(FreeAddrs(bs[..i]), bs[i].addr, FreeAddrs(bs[i + 1..]));
    HeadIsNextFree(bs, i + 1);
    LinkedNode(m, FreeAddrs(bs), ListIndex(bs, i), sh);
  }

  lemma LinkedNode(m: Mem, f: seq<int>, k: nat, sh: Shape)
    requires Linked(m, f, sh) && k < |f|
    ensures Node(m, f, k, sh)
  {
  }

  lemma LinkedAddr(m: Mem, f: seq<int>, k: nat, sh: Shape)
    requires Linked(m, f, sh) && k < |f|
    ensures f[k] >= sh.bytes
  {
  }

  lemma HeadLink(bs: seq<Block>)
    ensures At(FreeAddrs(bs), 0) == AddrAt(bs, NextFree(bs, 0))
  {
    HeadIsNextFree(bs, 0);
    assert bs[0..] == bs;
  }

  /** The words of a header: the size, the used flag and, when the block is free, the next free block, which names it in
      turn. */
  lemma KernelHeader(m: Mem, bs: seq<Block>, head: int, i: nat)
    requires Shows(m, bs, head, KERNEL) && i < |bs|
    ensures Holds(m, bs[i].addr, bs[i].size) && Holds(m, bs[i].addr + 4, if bs[i].used then 1 else 0)
    ensures !bs[i].used ==>
      var j: nat := NextFree(bs, i + 1);
      && Holds(m, bs[i].addr + 8, AddrAt(bs, j))
      && (j < |bs| ==> Holds(m, bs[j].addr + 12, bs[i].addr))
    ensures head == AddrAt(bs, NextFree(bs, 0))
  {
    hide FreeAddrs, Linked;
    HeadLink(bs);
    ShownAt(m, bs, i, KERNEL);
    if !bs[i].used {
      NextLink(m, bs, i, KERNEL);
      var j: nat, k := NextFree(bs, i + 1), ListIndex(bs, i);
      FreeAt(bs, i);
      Cut(FreeAddrs(bs[..i]), bs[i].addr, FreeAddrs(bs[i + 1..]));
      HeadIsNextFree(bs, i + 1);
      if j < |bs| {
        FreeAt(bs, j);
        Cut(FreeAddrs(bs[..j]), bs[j].addr, FreeAddrs(bs[j + 1..]));
        LinkedAddr(m, FreeAddrs(bs), ListIndex(bs, j), KERNEL);
        assert At(FreeAddrs(bs), k + 1) == bs[j].addr;
        LinkedNode(m, FreeAddrs(bs), k + 1, KERNEL);
      }
    }
  }

  /** Size and used words of a listed block are no links. */
  lemma OwnHeaderClear(f: seq<int>, k: nat, sh: Shape)
    requires Good(sh) && Spaced(f, sh) && k < |f|
    ensures LinksClear(f, {f[k] + sh.size, f[k] + sh.used}, sh)
  {
    forall j | 0 <= j < |f|
      ensures j == k || Clear(f[j], f[k], sh)
    {
    }
  }

  // ----- Taking a block -----

  /** The remainder's address. */
  function Rest(b: Block, n: int): int {
    b.addr + HEADER + n
  }

  lemma TakeList(bs: seq<Block>, i: nat, n: int)
    requires i < |bs| && !bs[i].used
    ensures var f, k := FreeAddrs(bs), ListIndex(bs, i);
      && k < |f| && f[k] == bs[i].addr
      && FreeAddrs(Place(bs, i, n, HEADER)) ==
           if Splits(bs[i].size, n, HEADER) then Removed(Inserted(f, k + 1, Rest(bs[i], n)), k) else Removed(f, k)
  {
    hide FreeAddrs, Removed, Inserted;
    var front, back, r := FreeAddrs(bs[..i]), FreeAddrs(bs[i + 1..]), Rest(bs[i], n);
    var t := Taken(bs[i], n, HEADER);
    FreeAt(bs, i);
    Cut(front, bs[i].addr, back);
    CutInsert(front, bs[i].addr, back, r);
    FreeAppend(bs[..i] + t, bs[i + 1..]);
    FreeAppend(bs[..i], t);
    TakenFree(bs[i], n);
    assert front + [] == front;
  }

  lemma TakenFree(b: Block, n: int)
    ensures FreeAddrs(Taken(b, n, HEADER)) == if Splits(b.size, n, HEADER) then [Rest(b, n)] else []
  {
    var t := Taken(b, n, HEADER);
    if Splits(b.size, n, HEADER) {
      assert t[1..] == [t[1]];
      assert FreeAddrs([t[1]]) == [t[1].addr];
    } else {
      assert t[1..] == [];
    }
  }

  /** The remainder's header fits between its block and the next free one. */
  lemma RestFits(bs: seq<Block>, i: nat, n: int, lo: int, hi: int, sh: Shape)
    requires Tiled(bs, lo, hi, sh.bytes) && lo >= sh.bytes && i < |bs| && !bs[i].used && 0 <= n <= bs[i].size - sh.bytes
    ensures var f, k := FreeAddrs(bs), ListIndex(bs, i);
      k < |f| && Fits(f, k + 1, bs[i].addr + sh.bytes + n, sh)
  {
    FreeAt(bs, i);
    TiledAt(bs, i, lo, hi, sh.bytes);
    var end := bs[i].addr + sh.bytes + bs[i].size;
    FreeSpaced(bs[..i], lo, bs[i].addr, sh);
    FreeSpaced(bs[i + 1..], end, hi, sh);
    FitsAfter(FreeAddrs(bs[..i]), bs[i].addr, FreeAddrs(bs[i + 1..]), bs[i].addr + sh.bytes + n, end, sh);
  }

  lemma FitsAfter(a: seq<int>, c: int, b: seq<int>, r: int, end: int, sh: Shape)
    requires forall j :: 0 <= j < |a| ==> a[j] + sh.bytes <= c
    requires forall j :: 0 <= j < |b| ==> end <= b[j]
    requires sh.bytes <= c && c + sh.bytes <= r && r + sh.bytes <= end
    ensures Fits(a + [c] + b, |a| + 1, r, sh)
  {
  }

  /** The words a split writes. */
  ghost function SplitWords(c: int, r: int, next: int): set<int> {
    {r, r + 4, r + 8, r + 12, c, c + 8, next + 12}
  }

  /** The words written while block at `c` is split and unlinked. */
  ghost function TakeOffWords(c: int, r: int, prev: int, next: int, split: bool): set<int> {
    if split then SplitWords(c, r, next) + {prev + 8, r + 12} else {prev + 8, next + 12}
  }

  /** All words the taking of a block writes are its own or links of its two neighbours. */
  lemma TakeWords(m0: Mem, m1: Mem, m2: Mem, c: int, r: int, prev: int, next: int, split: bool)
    requires SameExcept(m0, m1, {c + 4})
    requires SameExcept(m1, m2, TakeOffWords(c, r, prev, next, split))
    ensures var own := {c, c + 4, c + 8, c + 12} + if split then {r, r + 4, r + 8, r + 12} else {};
      SameExcept(m0, m2, own + {prev + 8, prev + 12} + {next + 8, next + 12})
  {
  }

  /** The remainder's header and the new size, after a split. */
  ghost predicate SplitShown(m: Mem, c: int, r: int, n: int, size: int) {
    && Holds(m, r, size - n - HEADER) && Holds(m, r + 4, 0) && r + 8 in m && r + 12 in m
    && Holds(m, c, n)
  }

  lemma OneShown(m: Mem, a: Block, sh: Shape)
    requires BlockShown(m, a, sh)
    ensures HeadersShown(m, [a], sh)
  {
  }

  lemma TwoShown(m: Mem, a: Block, b: Block, sh: Shape)
    requires BlockShown(m, a, sh) && BlockShown(m, b, sh)
    ensures HeadersShown(m, [a, b], sh)
  {
  }

  lemma TakenShown(m0: Mem, m1: Mem, m2: Mem, b: Block, n: int, prev: int, next: int)
    requires BlockShown(m0, b, KERNEL) && !b.used && 0 <= n <= b.size
    requires SameExcept(m0, m1, {b.addr + 4}) && Holds(m1, b.addr + 4, 1)
    requires SameExcept(m1, m2, TakeOffWords(b.addr, Rest(b, n), prev, next, Splits(b.size, n, HEADER)))
    requires Splits(b.size, n, HEADER) ==> SplitShown(m2, b.addr, Rest(b, n), n, b.size)
    requires prev + HEADER <= b.addr
    requires b.addr + HEADER + b.size <= next || next == 0
    requires b.addr >= HEADER
    ensures HeadersShown(m2, Taken(b, n, HEADER), KERNEL)
  {
    var t := Taken(b, n, HEADER);
    hide HeadersShown;
    if Splits(b.size, n, HEADER) {
      assert BlockShown(m2, t[0], KERNEL) && BlockShown(m2, t[1], KERNEL);
      TwoShown(m2, t[0], t[1], KERNEL);
    } else {
      assert BlockShown(m2, t[0], KERNEL);
      OneShown(m2, t[0], KERNEL);
    }
  }

  /** The neighbours of block `i` in the free list, and where they lie. */
  lemma Neighbours(bs: seq<Block>, i: nat, lo: int, hi: int, sh: Shape)
    requires Tiled(bs, lo, hi, sh.bytes) && lo >= sh.bytes && i < |bs| && !bs[i].used
    ensures var f, k := FreeAddrs(bs), ListIndex(bs, i);
      && k < |f| && f[k] == bs[i].addr
      && IsBlockAddr(bs, At(f, k - 1)) && IsBlockAddr(bs, At(f, k + 1))
      && At(f, k - 1) + sh.bytes <= bs[i].addr
      && (At(f, k + 1) == 0 || bs[i].addr + sh.bytes + bs[i].size <= At(f, k + 1))
  {
    FreeAt(bs, i);
    TiledAt(bs, i, lo, hi, sh.bytes);
    Cut(FreeAddrs(bs[..i]), bs[i].addr, FreeAddrs(bs[i + 1..]));
    ListAddr(bs, ListIndex(bs, i) - 1);
    ListAddr(bs, ListIndex(bs, i) + 1);
    FreeSpaced(bs[..i], lo, bs[i].addr, sh);
    FreeSpaced(bs[i + 1..], bs[i].addr + sh.bytes + bs[i].size, hi, sh);
  }

  /** After taking block `i`, memory shows the new layout, and no client's word has changed. */
  lemma TakeShown(m0: Mem, m1: Mem, m2: Mem, bs: seq<Block>, i: nat, n: int, lo: int, hi: int)
    requires Tiled(bs, lo, hi, HEADER) && lo >= HEADER && i < |bs| && !bs[i].used && 0 <= n <= bs[i].size
    requires HeadersShown(m0, bs, KERNEL)
    requires SameExcept(m0, m1, {bs[i].addr + 4}) && Holds(m1, bs[i].addr + 4, 1)
    requires var prev, next := At(FreeAddrs(bs), ListIndex(bs, i) - 1), At(FreeAddrs(bs), ListIndex(bs, i) + 1);
      SameExcept(m1, m2, TakeOffWords(bs[i].addr, Rest(bs[i], n), prev, next, Splits(bs[i].size, n, HEADER)))
    requires Splits(bs[i].size, n, HEADER) ==> SplitShown(m2, bs[i].addr, Rest(bs[i], n), n, bs[i].size)
    ensures HeadersShown(m2, Place(bs, i, n, HEADER), KERNEL)
    ensures PayloadKept(m0, m2, bs, KERNEL)
  {
    hide HeadersShown, PayloadKept, SameExcept, Holds, SplitShown;
    hide TakeOffWords, IsBlockAddr, FreeAddrs, BlockShown, Tiled;
    var c, r, split := bs[i].addr, Rest(bs[i], n), Splits(bs[i].size, n, HEADER);
    var prev, next := At(FreeAddrs(bs), ListIndex(bs, i) - 1), At(FreeAddrs(bs), ListIndex(bs, i) + 1);
    Neighbours(bs, i, lo, hi, KERNEL);
    TiledAt(bs, i, lo, hi, HEADER);
    ShownAt(m0, bs, i, KERNEL);
    TakenShown(m0, m1, m2, bs[i], n, prev, next);
    TakeWords(m0, m1, m2, c, r, prev, next, split);
    var own := {c, c + 4, c + 8, c + 12} + if split then {r, r + 4, r + 8, r + 12} else {};
    ReplaceShown(m0, m2, bs, i, Taken(bs[i], n, HEADER), own, prev, next, lo, hi, KERNEL);
  }

  // ----- A page on the end -----

  ghost function Appended(bs: seq<Block>, virt: int): seq<Block> {
    bs + [Block(virt, PAGE_SIZE - HEADER, false)]
  }

  ghost predicate PageChanged(m: Mem, m1: Mem, virt: int) {
    && m.Keys <= m1.Keys
    && forall a :: a in m && !(virt <= a < virt + PAGE_SIZE) ==> m1[a] == m[a]
  }

  /** Words past the end of the heap are no block's. */
  lemma PageKeeps(m: Mem, m1: Mem, bs: seq<Block>, head: int, lo: int, virt: int)
    requires Tiled(bs, lo, virt, HEADER) && lo >= HEADER && Shows(m, bs, head, KERNEL) && PageChanged(m, m1, virt)
    ensures Shows(m1, bs, head, KERNEL) && PayloadKept(m, m1, bs, KERNEL)
  {
    var ws := set a | a in m && virt <= a < virt + PAGE_SIZE;
    assert SameExcept(m, m1, ws);
    BlocksApart(bs, lo, virt, KERNEL);
    FreeSpaced(bs, lo, virt, KERNEL);
    HeadersFrame(m, m1, bs, ws, KERNEL);
    LinkedFrame(m, m1, FreeAddrs(bs), ws, KERNEL);
    forall i | 0 <= i < |bs|
      ensures bs[i].addr + HEADER + bs[i].size <= virt
    {
      TiledAt(bs, i, lo, virt, HEADER);
    }
  }

  ghost predicate FreshPage(m: Mem, virt: int) {
    Holds(m, virt, PAGE_SIZE - HEADER) && Holds(m, virt + 4, 0) && Holds(m, virt + 8, 0) && virt + 12 in m
  }

  lemma AppendShows(m: Mem, m1: Mem, bs: seq<Block>, head: int, head1: int, lo: int, virt: int)
    requires Tiled(bs, lo, virt, HEADER) && lo >= HEADER && Shows(m, bs, head, KERNEL) && FreshPage(m, virt)
    requires var last := At(FreeAddrs(bs), |FreeAddrs(bs)| - 1);
      && SameExcept(m, m1, {last + 8, virt + 12}) && Holds(m1, virt + 12, last)
      && (last != 0 ==> Holds(m1, last + 8, virt))
      && head1 == if last == 0 then virt else head
    ensures Shows(m1, Appended(bs, virt), head1, KERNEL)
    ensures PayloadKept(m, m1, bs, KERNEL)
  {
    hide HeadersShown, PayloadKept;
    var f, block := FreeAddrs(bs), Block(virt, PAGE_SIZE - HEADER, false);
    var last := At(f, |f| - 1);
    TiledSpan(bs, lo, virt, HEADER);
    FreeSpaced(bs, lo, virt, KERNEL);
    SameExceptMore(m, m1, {last + 8, virt + 12}, {virt + 8, virt + 12, last + 8, 12});
    ListInsert(m, m1, f, |f|, virt, KERNEL);
    FreeAppend(bs, [block]);
    assert FreeAddrs([block]) == [virt];
    assert Inserted(f, |f|, virt) == f + [virt];
    AppendHeaders(m, m1, bs, last, lo, virt);
  }

  lemma AppendHeaders(m: Mem, m1: Mem, bs: seq<Block>, last: int, lo: int, virt: int)
    requires Tiled(bs, lo, virt, HEADER) && lo >= HEADER && HeadersShown(m, bs, KERNEL) && FreshPage(m, virt)
    requires last == At(FreeAddrs(bs), |FreeAddrs(bs)| - 1)
    requires SameExcept(m, m1, {last + 8, virt + 12})
    ensures HeadersShown(m1, Appended(bs, virt), KERNEL) && PayloadKept(m, m1, bs, KERNEL)
  {
    hide HeadersShown, HeadersClear, AllUnowned, PayloadKept, FreshPage, SameExcept, IsBlockAddr;
    var block := Block(virt, PAGE_SIZE - HEADER, false);
    ListAddr(bs, |FreeAddrs(bs)| - 1);
    LinkWordClear(bs, last, lo, virt, KERNEL);
    LinkWordUnowned(bs, last, lo, virt, KERNEL);
    PageClear(bs, last, lo, virt);
    HeadersFrame(m, m1, bs, {last + 8, virt + 12}, KERNEL);
    FreshShown(m, m1, last, virt);
    LastBelow(bs, lo, virt);
    HeadersAppend(m1, bs, [block], KERNEL);
    AppendPayload(m, m1, bs, last, lo, virt);
  }

  lemma LastBelow(bs: seq<Block>, lo: int, virt: int)
    requires Tiled(bs, lo, virt, HEADER) && lo >= HEADER
    ensures At(FreeAddrs(bs), |FreeAddrs(bs)| - 1) + HEADER <= virt
  {
    TiledSpan(bs, lo, virt, HEADER);
    FreeSpaced(bs, lo, virt, KERNEL);
  }

  lemma FreshShown(m: Mem, m1: Mem, last: int, virt: int)
    requires FreshPage(m, virt) && SameExcept(m, m1, {last + 8, virt + 12})
    ensures last + HEADER <= virt ==> HeadersShown(m1, [Block(virt, PAGE_SIZE - HEADER, false)], KERNEL)
  {
    if last + HEADER <= virt { assert BlockShown(m1, Block(virt, PAGE_SIZE - HEADER, false), KERNEL); }
  }

  lemma PageClear(bs: seq<Block>, last: int, lo: int, virt: int)
    requires Tiled(bs, lo, virt, HEADER) && HeadersClear(bs, {last + 8, last + 12}, KERNEL)
    ensures HeadersClear(bs, {last + 8, virt + 12}, KERNEL)
  {
    BlocksApart(bs, lo, virt, KERNEL);
  }

  lemma AppendPayload(m: Mem, m1: Mem, bs: seq<Block>, last: int, lo: int, virt: int)
    requires Tiled(bs, lo, virt, HEADER) && SameExcept(m, m1, {last + 8, virt + 12})
    requires AllUnowned(bs, {last + 8, last + 12}, lo, KERNEL)
    ensures PayloadKept(m, m1, bs, KERNEL)
  {
    forall i, w | 0 <= i < |bs| && bs[i].used && bs[i].addr + HEADER <= w < bs[i].addr + HEADER + bs[i].size && w in m
      ensures m1[w] == m[w]
    {
      TiledAt(bs, i, lo, virt, HEADER);
      if w == last + 8 {
        var j :| 0 <= j < |bs| && Unowned(bs[j], w, KERNEL);
        if j < i { TiledSpaced(bs, j, i, lo, virt, HEADER); }
        if i < j { TiledSpaced(bs, i, j, lo, virt, HEADER); }
      }
    }
  }

  // ----- Giving a block back -----

  /** The free list around a used block. */
  lemma Gap(bs: seq<Block>, i: nat, lo: int, hi: int, sh: Shape)
    requires Tiled(bs, lo, hi, sh.bytes) && lo >= sh.bytes && i < |bs| && bs[i].used
    ensures var f, k, c := FreeAddrs(bs), ListIndex(bs, i), bs[i].addr;
      && k <= |f| && Fits(f, k, c, sh)
      && IsBlockAddr(bs, At(f, k - 1)) && IsBlockAddr(bs, At(f, k))
      && FreeAddrs(Freed(bs, i)) == Inserted(f, k, c)
  {
    hide FreeAddrs, Fits, Inserted, IsBlockAddr;
    var a, b, c := FreeAddrs(bs[..i]), FreeAddrs(bs[i + 1..]), bs[i].addr;
    UsedAt(bs, i);
    TiledAt(bs, i, lo, hi, sh.bytes);
    FreeSpaced(bs[..i], lo, c, sh);
    FreeSpaced(bs[i + 1..], c + sh.bytes + bs[i].size, hi, sh);
    ListAddr(bs, |a| - 1);
    ListAddr(bs, |a|);
    FreedList(bs, i);
    GapFits(a, b, c, sh);
  }

  lemma UsedAt(bs: seq<Block>, i: nat)
    requires i < |bs| && bs[i].used
    ensures FreeAddrs(bs) == FreeAddrs(bs[..i]) + FreeAddrs(bs[i + 1..])
  {
    assert bs == bs[..i] + bs[i..] && bs[i..][1..] == bs[i + 1..];
    FreeAppend(bs[..i], bs[i..]);
  }

  lemma GapFits(a: seq<int>, b: seq<int>, c: int, sh: Shape)
    requires c >= sh.bytes
    requires forall j :: 0 <= j < |a| ==> a[j] + sh.bytes <= c
    requires forall j :: 0 <= j < |b| ==> c + sh.bytes <= b[j]
    ensures Fits(a + b, |a|, c, sh) && Inserted(a + b, |a|, c) == a + [c] + b
  {
  }

  lemma FreedList(bs: seq<Block>, i: nat)
    requires i < |bs|
    ensures FreeAddrs(Freed(bs, i)) == FreeAddrs(bs[..i]) + [bs[i].addr] + FreeAddrs(bs[i + 1..])
  {
    var g := Freed(bs, i);
    assert g[..i] == bs[..i] && g[i + 1..] == bs[i + 1..];
    FreeAt(g, i);
  }

  /** A walk that stops at the first address above `c` stops at the gap. */
  lemma GapFound(f: seq<int>, k: nat, j: nat, c: int, sh: Shape)
    requires k <= |f| && j <= |f| && Fits(f, k, c, sh) && sh.bytes > 0
    requires forall x :: 0 <= x < j ==> f[x] < c
    requires j < |f| ==> f[j] >= c
    ensures j == k
  {
    assert j < k ==> At(f, j) + sh.bytes <= c;
    assert k < j ==> At(f, k) < c && c + sh.bytes <= At(f, k);
  }

  /** A freed block linked in: memory shows it free, and no client's word has changed. */
  lemma FreedShows(m: Mem, m1: Mem, m2: Mem, bs: seq<Block>, i: nat, head: int, lo: int, hi: int, sh: Shape)
    requires Good(sh) && Tiled(bs, lo, hi, sh.bytes) && lo >= sh.bytes && i < |bs| && bs[i].used
    requires HeadersShown(m, bs, sh) && Linked(m, FreeAddrs(bs), sh)
    requires SameExcept(m, m1, {bs[i].addr + sh.used}) && Holds(m1, bs[i].addr + sh.used, 0)
    requires var f, k, c := FreeAddrs(bs), ListIndex(bs, i), bs[i].addr;
      && k <= |f|
      && SameExcept(m1, m2, {c + sh.next, c + sh.prev, At(f, k - 1) + sh.next, At(f, k) + sh.prev})
      && Holds(m2, c + sh.next, At(f, k)) && Holds(m2, c + sh.prev, At(f, k - 1))
      && (k > 0 ==> Holds(m2, f[k - 1] + sh.next, c))
      && (k < |f| ==> Holds(m2, f[k] + sh.prev, c))
      && head == At(Inserted(f, k, c), 0)
    ensures Shows(m2, Freed(bs, i), head, sh)
    ensures PayloadKept(m, m2, bs, sh)
  {
    hide HeadersShown, Linked, PayloadKept, SameExcept, Holds;
    hide IsBlockAddr, BlockShown, Tiled, Fits, FreeAddrs, Inserted;
    var f, k, c := FreeAddrs(bs), ListIndex(bs, i), bs[i].addr;
    var prev: int, next: int := At(f, (k as int) - 1), At(f, k);
    Gap(bs, i, lo, hi, sh);
    UnlistedLinks(m, m1, f, k, c, sh);
    ListInsert(m1, m2, f, k, c, sh);
    ShownAt(m, bs, i, sh);
    GapApart(f, k, c, sh);
    FreedHeader(m, m1, m2, bs[i], prev, next, sh);
    FreedWords(m, m1, m2, c, prev, next, sh);
    TiledAt(bs, i, lo, hi, sh.bytes);
    var own := {c + sh.used, c + sh.next, c + sh.prev};
    ReplaceShown(m, m2, bs, i, [bs[i].(used := false)], own, prev, next, lo, hi, sh);
    assert Freed(bs, i) == bs[..i] + [bs[i].(used := false)] + bs[i + 1..];
  }

  lemma GapApart(f: seq<int>, k: nat, c: int, sh: Shape)
    requires k <= |f| && Fits(f, k, c, sh)
    ensures c >= sh.bytes && At(f, k - 1) + sh.bytes <= c && (At(f, k) == 0 || c + sh.bytes <= At(f, k))
  {
  }

  lemma UnlistedLinks(m: Mem, m1: Mem, f: seq<int>, k: nat, c: int, sh: Shape)
    requires Good(sh) && Linked(m, f, sh) && k <= |f| && Fits(f, k, c, sh) && SameExcept(m, m1, {c + sh.used})
    ensures Linked(m1, f, sh)
  {
    forall j | 0 <= j < |f|
      ensures Clear(f[j], c, sh)
    {
    }
    LinkedFrame(m, m1, f, {c + sh.used}, sh);
  }

  lemma FreedWords(m: Mem, m1: Mem, m2: Mem, c: int, prev: int, next: int, sh: Shape)
    requires SameExcept(m, m1, {c + sh.used})
    requires SameExcept(m1, m2, {c + sh.next, c + sh.prev, prev + sh.next, next + sh.prev})
    ensures SameExcept(m, m2, {c + sh.used, c + sh.next, c + sh.prev} + {prev + sh.next, prev + sh.prev}
                                + {next + sh.next, next + sh.prev})
  {
  }

  lemma FreedHeader(m: Mem, m1: Mem, m2: Mem, b: Block, prev: int, next: int, sh: Shape)
    requires Good(sh) && BlockShown(m, b, sh)
    requires SameExcept(m, m1, {b.addr + sh.used}) && Holds(m1, b.addr + sh.used, 0)
    requires SameExcept(m1, m2, {b.addr + sh.next, b.addr + sh.prev, prev + sh.next, next + sh.prev})
    requires b.addr >= sh.bytes && prev + sh.bytes <= b.addr && (next == 0 || b.addr + sh.bytes <= next)
    ensures HeadersShown(m2, [b.(used := false)], sh)
  {
    assert BlockShown(m2, b.(used := false), sh);
  }

  // ----- Merging -----

  /** Where the next free block follows directly, the two are neighbours in the layout; elsewhere all between is used. */
  lemma NextIsNeighbour(bs: seq<Block>, i: nat, lo: int, hi: int, h: nat)
    requires Tiled(bs, lo, hi, h) && h > 0 && i < |bs| && !bs[i].used && NextFree(bs, i + 1) < |bs|
    ensures bs[NextFree(bs, i + 1)].addr == bs[i].addr + h + bs[i].size <==> NextFree(bs, i + 1) == i + 1
  {
    var j := NextFree(bs, i + 1);
    TiledSpaced(bs, i, j, lo, hi, h);
    if j > i + 1 {
      TiledSpaced(bs, i, i + 1, lo, hi, h);
      TiledSpaced(bs, i + 1, j, lo, hi, h);
      TiledAt(bs, i + 1, lo, hi, h);
    }
  }

  /** The sweep passes over blocks up to the next free one that is no neighbour. */
  lemma {:induction false} SweepSkips(bs: seq<Block>, i: nat, j: nat, h: nat)
    requires i <= j <= |bs|
    requires forall k :: i <= k < j && k + 1 < |bs| ==> bs[k].used || bs[k + 1].used
    ensures Coalesce(bs[i..], h) == bs[i..j] + Coalesce(bs[j..], h)
    decreases j - i
  {
    hide Coalesce;
    if i == j {
      assert bs[i..j] == [];
    } else {
      assert bs[i..][1..] == bs[i + 1..];
      SweepPasses(bs[i..], h);
      SweepSkips(bs, i + 1, j, h);
      assert bs[i..j] == [bs[i]] + bs[i + 1..j];
    }
  }

  lemma SweepMergesAt(bs: seq<Block>, i: nat, h: nat)
    requires i + 1 < |bs| && !bs[i].used && !bs[i + 1].used
    ensures Coalesce(bs[i..], h) == Coalesce(Merged(bs, i, h)[i..], h) && Merged(bs, i, h)[..i] == bs[..i]
    ensures !Merged(bs, i, h)[i].used && Merged(bs, i, h)[i].addr == bs[i].addr
  {
    hide Coalesce;
    SweepMerges(bs[i..], h);
    assert bs[i..][2..] == bs[i + 2..];
    assert Merged(bs, i, h)[i..] == [Merge(bs[i], bs[i + 1], h)] + bs[i + 2..];
  }

  lemma MergedList(bs: seq<Block>, i: nat, h: nat)
    requires i + 1 < |bs| && !bs[i].used && !bs[i + 1].used
    ensures var f, k := FreeAddrs(bs), ListIndex(bs, i);
      && k + 1 < |f| && f[k] == bs[i].addr && f[k + 1] == bs[i + 1].addr
      && FreeAddrs(Merged(bs, i, h)) == Removed(f, k + 1)
  {
    hide FreeAddrs, Removed;
    var a, b := FreeAddrs(bs[..i]), FreeAddrs(bs[i + 2..]);
    var g := Merged(bs, i, h);
    FreeAt(bs, i);
    FreeHead(bs[i + 1..]);
    assert bs[i + 1..][1..] == bs[i + 2..];
    assert g[..i] == bs[..i];
    assert g[i + 1..] == bs[i + 2..];
    FreeAt(g, i);
    RemovedSecond(a, bs[i].addr, bs[i + 1].addr, b);
  }

  lemma FreeHead(bs: seq<Block>)
    requires bs != [] && !bs[0].used
    ensures FreeAddrs(bs) == [bs[0].addr] + FreeAddrs(bs[1..])
  {
  }

  lemma RemovedSecond(a: seq<int>, x: int, y: int, b: seq<int>)
    ensures var f := a + [x] + ([y] + b);
      |a| + 1 < |f| && f[|a|] == x && f[|a| + 1] == y && Removed(f, |a| + 1) == a + [x] + b
  {
  }

  /** The neighbour merged in: memory shows one block less, and no client's word has changed. */
  lemma MergeShows(m: Mem, m2: Mem, bs: seq<Block>, i: nat, head: int, lo: int, hi: int, sh: Shape)
    requires Good(sh) && Tiled(bs, lo, hi, sh.bytes) && lo >= sh.bytes
    requires i + 1 < |bs| && !bs[i].used && !bs[i + 1].used && Shows(m, bs, head, sh)
    requires var c, next := bs[i].addr, At(FreeAddrs(bs), ListIndex(bs, i) + 2);
      && SameExcept(m, m2, {c + sh.size, c + sh.next, next + sh.prev})
      && Holds(m2, c + sh.size, bs[i].size + sh.bytes + bs[i + 1].size)
      && Holds(m2, c + sh.next, next) && (next != 0 ==> Holds(m2, next + sh.prev, c))
    ensures Shows(m2, Merged(bs, i, sh.bytes), head, sh)
    ensures PayloadKept(m, m2, bs, sh)
  {
    hide HeadersShown, Linked, PayloadKept, SameExcept, Holds, IsBlockAddr, Tiled;
    var f, k, c := FreeAddrs(bs), ListIndex(bs, i), bs[i].addr;
    var next, size := At(f, k + 2), bs[i].size + sh.bytes + bs[i + 1].size;
    var m1 := m[c + sh.size := size];
    MergedList(bs, i, sh.bytes);
    ShownAt(m, bs, i, sh);
    SizeFirst(m, m1, m2, c, next, size, sh);
    SizeWordLinks(m, m1, f, k, sh);
    ListSpacedAt(m, f, k, sh);
    ListRemove(m1, m2, f, k + 1, sh);
    ListAddr(bs, k + 2);
    MergeShown(m, m2, bs, i, next, lo, hi, sh);
  }

  lemma SizeFirst(m: Mem, m1: Mem, m2: Mem, c: int, next: int, size: int, sh: Shape)
    requires c + sh.size in m && m1 == m[c + sh.size := size] && Holds(m2, c + sh.size, size)
    requires SameExcept(m, m2, {c + sh.size, c + sh.next, next + sh.prev})
    ensures SameExcept(m, m1, {c + sh.size}) && SameExcept(m1, m2, {c + sh.next, next + sh.prev})
  {
  }

  lemma SizeWordLinks(m: Mem, m1: Mem, f: seq<int>, k: nat, sh: Shape)
    requires Good(sh) && Linked(m, f, sh) && k < |f| && SameExcept(m, m1, {f[k] + sh.size})
    ensures Linked(m1, f, sh)
  {
    OwnHeaderClear(f, k, sh);
    SameExceptMore(m, m1, {f[k] + sh.size}, {f[k] + sh.size, f[k] + sh.used});
    LinkedFrame(m, m1, f, {f[k] + sh.size, f[k] + sh.used}, sh);
  }

  lemma ListSpacedAt(m: Mem, f: seq<int>, k: nat, sh: Shape)
    requires Good(sh) && Linked(m, f, sh) && k + 1 < |f|
    ensures f[k] >= sh.bytes && (At(f, k + 2) == 0 <==> k + 2 == |f|)
    ensures At(f, k + 2) == 0 || f[k] + sh.bytes <= At(f, k + 2)
  {
  }

  lemma ListSpacedNext(m: Mem, f: seq<int>, k: nat, sh: Shape)
    requires Linked(m, f, sh) && k + 1 < |f|
    ensures f[k] + sh.bytes <= f[k + 1] && (k + 2 < |f| ==> Node(m, f, k + 2, sh) && f[k + 1] + sh.bytes <= f[k + 2])
  {
  }

  // ----- Headers left behind -----

  /** Every block of `out` starts where a block of `bs` starts. */
  ghost predicate StartsIn(out: seq<Block>, bs: seq<Block>) {
    forall i :: 0 <= i < |out| ==> exists j :: 0 <= j < |bs| && bs[j].addr == out[i].addr
  }

  /** The used words of these headers are as they were, whether or not the blocks still exist. */
  ghost predicate UsedKept(m: Mem, m': Mem, bs: seq<Block>) {
    forall i :: 0 <= i < |bs| && bs[i].addr + 4 in m ==> Holds(m', bs[i].addr + 4, m[bs[i].addr + 4])
  }

  lemma UsedKeptTrans(m: Mem, m1: Mem, m2: Mem, bs: seq<Block>)
    requires UsedKept(m, m1, bs) && UsedKept(m1, m2, bs)
    ensures UsedKept(m, m2, bs)
  {
  }

  /** A merge writes no used word, not even of a header that an earlier merge has swallowed. */
  lemma MergeKeepsUsed(m: Mem, m': Mem, bs: seq<Block>, out: seq<Block>, c: int, q: int, lo: int, hi: int)
    requires Tiled(bs, lo, hi, HEADER) && lo >= HEADER && StartsIn(out, bs) && SameExcept(m, m', {c, c + 8, q + 12})
    requires IsBlockAddr(out, c) && IsBlockAddr(out, q)
    ensures UsedKept(m, m', bs)
  {
    BlocksApart(bs, lo, hi, KERNEL);
    StartOf(out, bs, c);
    StartOf(out, bs, q);
    ApartWords(bs, c);
    ApartWords(bs, q);
  }

  lemma StartOf(out: seq<Block>, bs: seq<Block>, x: int)
    requires StartsIn(out, bs) && IsBlockAddr(out, x)
    ensures IsBlockAddr(bs, x)
  {
    if x != 0 {
      var i :| 0 <= i < |out| && out[i].addr == x;
      assert exists j :: 0 <= j < |bs| && bs[j].addr == out[i].addr;
    }
  }

  lemma ApartWords(bs: seq<Block>, x: int)
    requires IsBlockAddr(bs, x)
    requires forall i, j :: 0 <= i < j < |bs| ==> bs[i].addr + HEADER <= bs[j].addr
    requires forall i :: 0 <= i < |bs| ==> bs[i].addr >= HEADER
    ensures forall i :: 0 <= i < |bs| ==> bs[i].addr + 4 != x && bs[i].addr + 4 != x + 8 && bs[i].addr + 4 != x + 12
  {
    if x != 0 {
      var j :| 0 <= j < |bs| && bs[j].addr == x;
      forall i | 0 <= i < |bs|
        ensures i == j || Clear(bs[i].addr, x, KERNEL)
      {
      }
    }
  }

  lemma MergedStarts(out: seq<Block>, bs: seq<Block>, i: nat)
    requires StartsIn(out, bs) && i + 1 < |out|
    ensures StartsIn(Merged(out, i, HEADER), bs)
  {
    var g := Merged(out, i, HEADER);
    forall x | 0 <= x < |g|
      ensures exists j :: 0 <= j < |bs| && bs[j].addr == g[x].addr
    {
      var y := if x <= i then x else x + 1;
      assert g[x].addr == out[y].addr;
    }
  }

  // ----- The sweep -----

  /** Half way through the sweep of `bs`: what is behind `j` is final, what is ahead has still to be swept. */
  ghost predicate Sweeping(m0: Mem, m: Mem, bs: seq<Block>, out: seq<Block>, j: nat, lo: int, hi: int) {
    && Tiled(out, lo, hi, HEADER) && j <= |out|
    && Coalesce(bs, HEADER) == out[..j] + Coalesce(out[j..], HEADER)
    && PayloadKept(m0, m, bs, KERNEL) && Live(out) == Live(bs)
    && UsedKept(m0, m, bs) && StartsIn(out, bs)
  }

  lemma SweepStart(m: Mem, bs: seq<Block>, lo: int, hi: int)
    requires Tiled(bs, lo, hi, HEADER)
    ensures Sweeping(m, m, bs, bs, NextFree(bs, 0), lo, hi)
  {
    var j: nat := NextFree(bs, 0);
    SweepSkips(bs, 0, j, HEADER);
    assert bs[0..] == bs && bs[0..j] == bs[..j];
  }

  lemma SweepMerge(m0: Mem, m: Mem, m1: Mem, bs: seq<Block>, out: seq<Block>, j: nat, lo: int, hi: int)
    requires Tiled(bs, lo, hi, HEADER) && lo >= HEADER && Sweeping(m0, m, bs, out, j, lo, hi)
    requires j + 1 < |out| && !out[j].used && !out[j + 1].used
    requires PayloadKept(m, m1, out, KERNEL)
    requires SameExcept(m, m1, {out[j].addr, out[j].addr + 8, At(FreeAddrs(out), ListIndex(out, j) + 2) + 12})
    ensures Sweeping(m0, m1, bs, Merged(out, j, HEADER), j, lo, hi)
    ensures |Merged(out, j, HEADER)| == |out| - 1 && !Merged(out, j, HEADER)[j].used
    ensures Merged(out, j, HEADER)[j].addr == out[j].addr
  {
    hide Tiled, Coalesce, PayloadKept, Live, UsedKept, StartsIn, SameExcept, IsBlockAddr;
    assert Live(bs) <= Live(out);
    PayloadTrans(m0, m, m1, bs, out, KERNEL);
    BlockAddr(out, j);
    ListAddr(out, ListIndex(out, j) + 2);
    MergeKeepsUsed(m, m1, bs, out, out[j].addr, At(FreeAddrs(out), ListIndex(out, j) + 2), lo, hi);
    UsedKeptTrans(m0, m, m1, bs);
    MergedStarts(out, bs, j);
    MergePair(out, j, lo, hi, HEADER);
    SweepMergesAt(out, j, HEADER);
  }

  /** From a free block on to the next free one, when the two are no neighbours. */
  lemma SweepOn(m0: Mem, m: Mem, bs: seq<Block>, out: seq<Block>, j: nat, jn: nat, lo: int, hi: int)
    requires Sweeping(m0, m, bs, out, j, lo, hi) && j + 1 < jn <= |out| && jn == NextFree(out, j + 1)
    ensures Sweeping(m0, m, bs, out, jn, lo, hi)
  {
    hide Tiled, Coalesce, PayloadKept, Live, UsedKept, StartsIn;
    SweepSkips(out, j, jn, HEADER);
    assert out[..j] + out[j..jn] == out[..jn];
  }

  /** Behind the last free block nothing is left to merge. */
  lemma SweepEnd(m0: Mem, m: Mem, bs: seq<Block>, out: seq<Block>, j: nat, lo: int, hi: int)
    requires Sweeping(m0, m, bs, out, j, lo, hi) && (j < |out| ==> NextFree(out, j + 1) == |out|)
    ensures out == Coalesce(bs, HEADER) && PayloadKept(m0, m, bs, KERNEL) && UsedKept(m0, m, bs)
  {
    hide Tiled, PayloadKept, Live, UsedKept, StartsIn;
    SweepSkips(out, j, |out|, HEADER);
    assert out[..j] + out[j..] == out && out[|out|..] == [];
  }

  // ----- Clients -----

  /** A word of a used block's payload is no word of any header. */
  lemma ClientWordClear(bs: seq<Block>, i: nat, a: int, lo: int, hi: int, sh: Shape)
    requires Good(sh) && Tiled(bs, lo, hi, sh.bytes) && i < |bs| && bs[i].used
    requires bs[i].addr + sh.bytes <= a < bs[i].addr + sh.bytes + bs[i].size
    ensures forall j :: 0 <= j < |bs| ==> a < bs[j].addr || bs[j].addr + sh.bytes <= a
  {
    forall j | 0 <= j < |bs|
      ensures a < bs[j].addr || bs[j].addr + sh.bytes <= a
    {
      TiledAt(bs, j, lo, hi, sh.bytes);
      if j < i { TiledSpaced(bs, j, i, lo, hi, sh.bytes); }
      if i < j { TiledSpaced(bs, i, j, lo, hi, sh.bytes); }
    }
  }

  /** Whatever a client stores in its own payload, the heap's structure does not notice. */
  lemma ClientStoreShows(m: Mem, bs: seq<Block>, head: int, i: nat, a: int, v: int, lo: int, hi: int, sh: Shape)
    requires Good(sh) && Tiled(bs, lo, hi, sh.bytes) && i < |bs| && bs[i].used && Shows(m, bs, head, sh)
    requires bs[i].addr + sh.bytes <= a < bs[i].addr + sh.bytes + bs[i].size
    ensures Shows(m[a := v], bs, head, sh)
  {
    ClientWordClear(bs, i, a, lo, hi, sh);
    var f := FreeAddrs(bs);
    forall k | 0 <= k < |f|
      ensures f[k] + sh.next != a && f[k] + sh.prev != a
    {
      var j := FreeIsBlock(bs, k);
    }
    HeadersFrame(m, m[a := v], bs, {a}, sh);
    LinkedFrame(m, m[a := v], f, {a}, sh);
  }

  /** One step of a walk by sizes. */
  lemma WalkStep(bs: seq<Block>, i: nat, lo: int, hi: int, h: nat)
    requires Tiled(bs, lo, hi, h) && i < |bs| && h > 0
    ensures bs[i].addr + h + bs[i].size == if i + 1 < |bs| then bs[i + 1].addr else hi
    ensures i + 1 < |bs| ==> bs[i + 1].addr < hi
  {
    TiledAt(bs, i, lo, hi, h);
    if i + 1 < |bs| {
      TiledSpaced(bs, i, i + 1, lo, hi, h);
      TiledAt(bs, i + 1, lo, hi, h);
    } else {
      assert bs[i + 1..] == [];
    }
  }
}
