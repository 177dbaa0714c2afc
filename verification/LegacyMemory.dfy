/** The predecessor's heap in memory: a free list in address order and a used list, both through the headers. */
module LegacyMemory {
  import opened BlockLayout
  import opened FreeList
  import opened HeapMemory
  import opened LegacyLists
  import opened LegacyTake
  import opened Words
  import LegacyHeap

  /** `(size + 15) & ~15`. */
  method LegacyRound(size: nat) returns (n: nat)
    requires size < TWO32
    ensures n == LegacyHeap.RoundUp(size)
  {
    SixteenMask((size + 15) % TWO32);
    n := AndNot((size + 15) % TWO32, 15);
  }

  /** The link words on either side of a gap, clear of the block's own. */
  lemma GapWords(m: Mem, f: seq<int>, k: nat, block: int)
    requires Linked(m, f, LEGACY) && k <= |f| && Fits(f, k, block, LEGACY)
    ensures k > 0 ==> f[k - 1] != 0 && f[k - 1] + 12 in m && f[k - 1] + LEGACY_HEADER <= block
    ensures k < |f| ==> f[k] != 0 && f[k] + 16 in m && block + LEGACY_HEADER <= f[k]
  {
    hide Spaced;
    if k > 0 {
      LinkedNode(m, f, k - 1, LEGACY);
      LinkedAddr(m, f, k - 1, LEGACY);
    }
    if k < |f| {
      LinkedNode(m, f, k, LEGACY);
      LinkedAddr(m, f, k, LEGACY);
    }
  }

  lemma HeadInserted(f: seq<int>, k: nat, block: int)
    requires k <= |f|
    ensures At(Inserted(f, k, block), 0) == if k == 0 then block else At(f, 0)
  {
  }

  class LHeap {
    var mem: Mem
    var freeList: int
    var usedList: int
    ghost var blocks: seq<Block>
    ghost var order: seq<int>

    ghost predicate Valid()
      reads this
    {
      && Tiled(blocks, LegacyHeap.HEAP_START, LegacyHeap.HEAP_END, LEGACY_HEADER)
      && Shows(mem, blocks, freeList, LEGACY)
      && Others(mem, blocks, order) && usedList == At(order, 0)
    }

    /** `HEAP_INIT`, in memory with any contents. */
    constructor (memory: Mem)
      ensures Valid() && blocks == LegacyHeap.Initial() && order == []
      ensures Holds(mem, 0x20_0000, 0xDEAD_BEEF) && Holds(mem, 0x20_0004, 0x20_0000 - 20) && Holds(mem, 0x20_0008, 0)
    {
      mem := memory[LegacyHeap.HEAP_START := LegacyHeap.BLOCK_MAGIC]
        [LegacyHeap.HEAP_START + 4 := LegacyHeap.HEAP_END - LegacyHeap.HEAP_START - LEGACY_HEADER]
        [LegacyHeap.HEAP_START + 8 := 0][LegacyHeap.HEAP_START + 12 := 0][LegacyHeap.HEAP_START + 16 := 0];
      freeList := LegacyHeap.HEAP_START;
      usedList := 0;
      blocks := LegacyHeap.Initial();
      order := [];
      new;
      LegacyHeap.InitialInv();
      assert FreeAddrs(blocks) == [LegacyHeap.HEAP_START] by { assert blocks[1..] == []; }
    }

    /** `find_free_block`. */
    method FindFreeBlock(size: int) returns (c: int)
      requires Valid()
      ensures var i := FirstFit(blocks, size); c == AddrAt(blocks, i) && (i < |blocks| <==> c != 0)
    {
      hide Tiled, Linked, Others;
      BlocksApart(blocks, LegacyHeap.HEAP_START, LegacyHeap.HEAP_END, LEGACY);
      HeadLink(blocks);
      c := freeList;
      ghost var i: nat := NextFree(blocks, 0);
      while c != 0
        invariant i <= |blocks| && c == AddrAt(blocks, i) && (i < |blocks| ==> !blocks[i].used)
        invariant forall j :: 0 <= j < i ==> blocks[j].used || blocks[j].size < size
        decreases |blocks| - i
      {
        ShownAt(mem, blocks, i, LEGACY);
        if mem[c + 4] >= size && mem[c + 8] == 0 {
          FirstFitUnique(blocks, size, i);
          return;
        }
        NextLink(mem, blocks, i, LEGACY);
        c := mem[c + 12];
        i := NextFree(blocks, i + 1);
      }
      FirstFitUnique(blocks, size, i);
    }

    /** The split test as the code computes it: cuts the listed free block when the wrapped remainder is big enough. */
    method SplitListed(block: int, n: nat, ghost i: nat)
      requires Valid() && i < |blocks| && !blocks[i].used && blocks[i].addr == block
      requires n <= blocks[i].size < TWO32 && !LegacyHeap.Wraps(blocks[i].size, n)
      modifies `mem, `blocks
      ensures Valid() && i < |blocks| && !blocks[i].used && blocks[i].addr == block
      ensures LegacyHeap.Place(old(blocks), i, n) == Marked(blocks, i)
      ensures PayloadKept(old(mem), mem, old(blocks), LEGACY) && Live(blocks) == Live(old(blocks))
    {
      hide Tiled, Shows, Others, PayloadKept, Live, FreeAddrs, CutShown, CutWords, SameExcept, LegacyHeap.Place, Cleft;
      ghost var bs, m := blocks, mem;
      HeaderOf(mem, bs, i, freeList);
      CleftMarked(bs, i, n);
      var remaining := (mem[block + 4] - n - LEGACY_HEADER) % TWO32;
      if remaining >= LegacyHeap.MIN_BLOCK_SIZE + 16 {
        CutBlock(block, n, remaining, FreeAddrs(bs), ListIndex(bs, i), i);
        CutShows(m, mem, bs, order, i, n, freeList, LegacyHeap.HEAP_START, LegacyHeap.HEAP_END);
        CleftLive(bs, i, n);
        CleftAt(bs, i, n);
        blocks := Cleft(bs, i, n);
      } else {
        PayloadSame(mem, bs, LEGACY);
      }
    }

    /** The writes of the split. */
    method CutBlock(block: int, n: nat, remaining: int, ghost f: seq<int>, ghost k: nat, ghost i: nat)
      requires Valid() && i < |blocks| && !blocks[i].used && blocks[i].addr == block
      requires f == FreeAddrs(blocks) && k == ListIndex(blocks, i)
      requires remaining >= 0 && n + LEGACY_HEADER + remaining == blocks[i].size
      modifies `mem
      ensures k < |f| && SameExcept(old(mem), mem, CutWords(block, block + LEGACY_HEADER + n, At(f, k + 1)))
      ensures CutShown(mem, block, block + LEGACY_HEADER + n, n, n + LEGACY_HEADER + remaining, At(f, k + 1))
    {
      hide Tiled, HeadersShown, Linked, Others, FreeAddrs, Fits, IsBlockAddr, SameExcept, CutShown, CutWords;
      ghost var lo, hi := LegacyHeap.HEAP_START, LegacyHeap.HEAP_END;
      TiledAt(blocks, i, lo, hi, LEGACY_HEADER);
      Neighbours(blocks, i, lo, hi, LEGACY);
      LinkedNode(mem, f, k, LEGACY);
      ListNext(mem, f, k);
      ShownAt(mem, blocks, i, LEGACY);
      ghost var m, next := mem, At(f, k + 1);
      WriteHeader(block + LEGACY_HEADER + n, remaining);
      ghost var m1 := mem;
      HeaderWritten(m, m1, block, block + LEGACY_HEADER + n, next);
      WriteLinks(block, block + LEGACY_HEADER + n, n, next);
      CutWritten(m, m1, mem, block, n, remaining, next);
    }

    /** The new block's magic, size and used words. */
    method WriteHeader(rest: int, remaining: int)
      modifies `mem
      ensures SameExcept(old(mem), mem, {rest, rest + 4, rest + 8})
      ensures Holds(mem, rest, LegacyHeap.BLOCK_MAGIC) && Holds(mem, rest + 4, remaining) && Holds(mem, rest + 8, 0)
    {
      mem := mem[rest := LegacyHeap.BLOCK_MAGIC];
      mem := mem[rest + 4 := remaining];
      mem := mem[rest + 8 := 0];
    }

    /** The links around it, and the size left to the block in front. */
    method WriteLinks(block: int, rest: int, n: nat, ghost next: int)
      requires Holds(mem, block + 12, next) && block >= LEGACY_HEADER && block + LEGACY_HEADER <= rest
      requires next == 0 || (rest + LEGACY_HEADER <= next && next + 16 in mem)
      modifies `mem
      ensures SameExcept(old(mem), mem, {rest + 12, rest + 16, next + 16, block + 12, block + 4})
      ensures Holds(mem, rest + 12, next) && Holds(mem, rest + 16, block) && (next != 0 ==> Holds(mem, next + 16, rest))
      ensures Holds(mem, block + 12, rest) && Holds(mem, block + 4, n)
    {
      mem := mem[rest + 12 := mem[block + 12]];
      mem := mem[rest + 16 := block];
      if mem[block + 12] != 0 {
        mem := mem[mem[block + 12] + 16 := rest];
      }
      mem := mem[block + 12 := rest];
      mem := mem[block + 4 := n];
    }

    /** Takes position `k` out of the free list. */
    method UnlinkFree(block: int, ghost f: seq<int>, ghost k: nat)
      requires Linked(mem, f, LEGACY) && k < |f| && f[k] == block && freeList == At(f, 0)
      modifies `mem, `freeList
      ensures Linked(mem, Removed(f, k), LEGACY) && freeList == At(Removed(f, k), 0)
      ensures SameExcept(old(mem), mem, {At(f, k - 1) + 12, At(f, k + 1) + 16})
    {
      hide Linked;
      LinkedNode(mem, f, k, LEGACY);
      if k > 0 { LinkedNode(mem, f, k - 1, LEGACY); }
      ListNext(mem, f, k);
      ListBefore(mem, f, k);
      ghost var m := mem;
      if mem[block + 16] != 0 {
        mem := mem[mem[block + 16] + 12 := mem[block + 12]];
      } else {
        freeList := mem[block + 12];
      }
      if mem[block + 12] != 0 {
        mem := mem[mem[block + 12] + 16 := mem[block + 16]];
      }
      ListRemove(m, mem, f, k, LEGACY);
    }

    /** In front of the used list. */
    method PushUsed(block: int, ghost u: seq<int>)
      requires usedList == At(u, 0)
      requires (u != [] ==> u[0] + 16 in mem && u[0] != 0 && Clear(block, u[0], LEGACY)) && block >= LEGACY_HEADER
      modifies `mem, `usedList
      ensures SameExcept(old(mem), mem, {block + 12, block + 16, At(u, 0) + 16}) && usedList == block
      ensures Holds(mem, block + 12, At(u, 0)) && Holds(mem, block + 16, 0)
      ensures (u != [] ==> Holds(mem, u[0] + 16, block))
    {
      mem := mem[block + 16 := 0];
      mem := mem[block + 12 := usedList];
      if usedList != 0 {
        mem := mem[usedList + 16 := block];
      }
      usedList := block;
    }

    /** Marks a listed free block used and moves it to the used list. */
    method MoveToUsed(block: int, ghost i: nat)
      requires Valid() && i < |blocks| && !blocks[i].used && blocks[i].addr == block
      modifies `mem, `freeList, `usedList, `blocks, `order
      ensures Valid() && blocks == Marked(old(blocks), i) && order == [block] + old(order)
      ensures PayloadKept(old(mem), mem, old(blocks), LEGACY)
    {
      hide Tiled, HeadersShown, Linked, Others, PayloadKept, Live, FreeAddrs, Removed, Marked, SameExcept;
      ghost var bs, u, m, lo, hi := blocks, order, mem, LegacyHeap.HEAP_START, LegacyHeap.HEAP_END;
      ghost var f, k := FreeAddrs(bs), ListIndex(bs, i);
      MarkedList(bs, i);
      mem := mem[block + 8 := 1];
      ghost var m1 := mem;
      MarkWord(m, m1, block);
      ListedMark(m, m1, f, k);
      UnlinkFree(block, f, k);
      ghost var m2 := mem;
      OffShown(m, m1, m2, bs, u, i, lo, hi);
      UsedFront(m2, bs, u, i, lo, hi);
      PushUsed(block, u);
      OnShown(m2, mem, bs, u, i, lo, hi);
      MarkedLive(bs, i);
      PayloadTrans(m, m2, mem, bs, Marked(bs, i), LEGACY);
      blocks, order := Marked(bs, i), [block] + u;
    }

    /** `KMALLOC`, for a request that meets no block with less than a header to spare. */
    method Kmalloc(size: nat) returns (ptr: int)
      requires Valid() && size < TWO32 && LegacyHeap.Spacious(blocks, LegacyHeap.Malloc(size))
      modifies `mem, `freeList, `usedList, `blocks, `order
      ensures Valid() && blocks == LegacyHeap.Malloced(old(blocks), size)
      ensures var i := FirstFit(old(blocks), LegacyHeap.RoundUp(size));
        ptr == if size == 0 || i == |old(blocks)| then 0 else old(blocks)[i].addr + LEGACY_HEADER
      ensures order == if ptr == 0 then old(order) else [ptr - LEGACY_HEADER] + old(order)
      ensures ptr != 0 ==>
        && LegacyHeap.Tight(old(blocks), blocks, ptr, LegacyHeap.RoundUp(size))
        && (LegacyHeap.Gives(old(blocks), blocks, ptr, size) <==> size <= TWO32 - 16)
      ensures PayloadKept(old(mem), mem, old(blocks), LEGACY)
    {
      hide Tiled, Shows, Others, PayloadKept, Live, Marked, LegacyHeap.Place, LegacyHeap.RoundUp,
           LegacyHeap.Gives, LegacyHeap.Tight;
      ghost var bs, m := blocks, mem;
      PayloadSame(mem, bs, LEGACY);
      if size == 0 {
        return 0;
      }
      var n := LegacyRound(size);
      var block := FindFreeBlock(n);
      if block == 0 {
        return 0;
      }
      ghost var i := FirstFit(bs, n);
      BlockBelow(bs, i);
      LegacyHeap.RequestMet(bs, size, LegacyHeap.HEAP_START, LegacyHeap.HEAP_END);
      SplitListed(block, n, i);
      ghost var bs1, m1 := blocks, mem;
      MoveToUsed(block, i);
      PayloadTrans(m, m1, mem, bs, bs1, LEGACY);
      ptr := block + LEGACY_HEADER;
    }

    /** Takes position `k` out of the used list. */
    method UnlinkUsed(block: int, ghost u: seq<int>, ghost k: nat)
      requires Chained(mem, u) && k < |u| && u[k] == block && usedList == At(u, 0)
      modifies `mem, `usedList
      ensures Chained(mem, Removed(u, k)) && usedList == At(Removed(u, k), 0)
      ensures SameExcept(old(mem), mem, {At(u, k - 1) + 12, At(u, k + 1) + 16})
    {
      assert Node(mem, u, k, LEGACY);
      assert k > 0 ==> Node(mem, u, k - 1, LEGACY) && Clear(u[k - 1], u[k], LEGACY);
      assert k + 1 < |u| ==> Node(mem, u, k + 1, LEGACY);
      ghost var m := mem;
      if mem[block + 16] != 0 {
        mem := mem[mem[block + 16] + 12 := mem[block + 12]];
      } else {
        usedList := mem[block + 12];
      }
      if mem[block + 12] != 0 {
        mem := mem[mem[block + 12] + 16 := mem[block + 16]];
      }
      assert k > 0 && k + 1 < |u| ==> Clear(u[k - 1], u[k + 1], LEGACY);
      ChainRemove(m, mem, u, k);
    }

    /** The walk of `insert_free_block` ends at the gap the block fits in. */
    method FindGap(block: int, ghost f: seq<int>, ghost k: nat) returns (prev: int, cur: int)
      requires Linked(mem, f, LEGACY) && freeList == At(f, 0) && k <= |f| && Fits(f, k, block, LEGACY)
      ensures prev == At(f, k - 1) && cur == At(f, k)
    {
      cur, prev := freeList, 0;
      ghost var j: nat := 0;
      while cur != 0 && cur < block
        invariant j <= |f| && prev == At(f, j - 1) && cur == At(f, j)
        invariant forall x :: 0 <= x < j ==> f[x] < block
        decreases |f| - j
      {
        assert Node(mem, f, j, LEGACY);
        prev := cur;
        cur := mem[cur + 12];
        j := j + 1;
      }
      GapFound(f, k, j, block, LEGACY);
    }

    /** `insert_free_block`. */
    method InsertFreeBlock(block: int, ghost f: seq<int>, ghost k: nat)
      requires Linked(mem, f, LEGACY) && freeList == At(f, 0)
      requires k <= |f| && Fits(f, k, block, LEGACY) && block + 12 in mem && block + 16 in mem
      modifies `mem, `freeList
      ensures SameExcept(old(mem), mem, {block + 12, block + 16, At(f, k - 1) + 12, At(f, k) + 16})
      ensures Holds(mem, block + 12, At(f, k)) && Holds(mem, block + 16, At(f, k - 1))
      ensures (k > 0 ==> Holds(mem, f[k - 1] + 12, block)) && (k < |f| ==> Holds(mem, f[k] + 16, block))
      ensures freeList == At(Inserted(f, k, block), 0)
    {
      hide Linked, Inserted;
      GapWords(mem, f, k, block);
      var prev, cur := FindGap(block, f, k);
      HeadInserted(f, k, block);
      mem := mem[block + 16 := prev];
      mem := mem[block + 12 := cur];
      if cur != 0 {
        mem := mem[cur + 16 := block];
      }
      if prev != 0 {
        mem := mem[prev + 12 := block];
      } else {
        freeList := block;
      }
    }

    /** Merges the free block at index `i` with the free block right after it, known by their addresses. */
    method Merge(c: int, next: int, ghost i: nat)
      requires Tiled(blocks, LegacyHeap.HEAP_START, LegacyHeap.HEAP_END, LEGACY_HEADER)
      requires Shows(mem, blocks, freeList, LEGACY) && Others(mem, blocks, order)
      requires i + 1 < |blocks| && !blocks[i].used && !blocks[i + 1].used
      requires blocks[i].addr == c && blocks[i + 1].addr == next
      modifies `mem, `blocks
      ensures blocks == Merged(old(blocks), i, LEGACY_HEADER)
      ensures Tiled(blocks, LegacyHeap.HEAP_START, LegacyHeap.HEAP_END, LEGACY_HEADER)
      ensures Shows(mem, blocks, freeList, LEGACY) && Others(mem, blocks, order)
      ensures PayloadKept(old(mem), mem, old(blocks), LEGACY)
    {
      hide Tiled, HeadersShown, Linked, Others, PayloadKept, FreeAddrs, Removed, FreeOrNull;
      ghost var bs, f, k, m := blocks, FreeAddrs(blocks), ListIndex(blocks, i), mem;
      ghost var lo, hi := LegacyHeap.HEAP_START, LegacyHeap.HEAP_END;
      MergedList(bs, i, LEGACY_HEADER);
      ShownAt(mem, bs, i, LEGACY);
      ShownAt(mem, bs, i + 1, LEGACY);
      LinkedNode(mem, f, k, LEGACY);
      LinkedNode(mem, f, k + 1, LEGACY);
      ListSpacedAt(mem, f, k, LEGACY);
      ListSpacedNext(mem, f, k, LEGACY);
      MergeWrite(c, next, At(f, k + 2));
      MergeShows(m, mem, bs, i, freeList, lo, hi, LEGACY);
      ListFree(bs, k + 2);
      MergeOthers(m, mem, bs, order, i, c, At(f, k + 2), lo, hi);
      MergePair(bs, i, lo, hi, LEGACY_HEADER);
      blocks := Merged(bs, i, LEGACY_HEADER);
    }

    method MergeWrite(c: int, next: int, ghost next2: int)
      requires c + 4 in mem && c + 12 in mem && next + 4 in mem && next + 12 in mem && mem[next + 12] == next2
      requires c + LEGACY_HEADER <= next
      requires (next2 == 0 || (next + LEGACY_HEADER <= next2 && next2 + 16 in mem)) && c >= LEGACY_HEADER
      modifies `mem
      ensures SameExcept(old(mem), mem, {c + 4, c + 12, next2 + 16})
      ensures Holds(mem, c + 4, old(mem)[c + 4] + LEGACY_HEADER + old(mem)[next + 4])
      ensures Holds(mem, c + 12, next2) && (next2 != 0 ==> Holds(mem, next2 + 16, c))
    {
      mem := mem[c + 4 := mem[c + 4] + LEGACY_HEADER + mem[next + 4]];
      mem := mem[c + 12 := mem[next + 12]];
      if mem[c + 12] != 0 {
        mem := mem[mem[c + 12] + 16 := c];
      }
    }

    /** Looks right. */
    method MergeWithNext(block: int, ghost i: nat)
      requires Tiled(blocks, LegacyHeap.HEAP_START, LegacyHeap.HEAP_END, LEGACY_HEADER)
      requires Shows(mem, blocks, freeList, LEGACY) && Others(mem, blocks, order)
      requires i < |blocks| && !blocks[i].used && blocks[i].addr == block
      modifies `mem, `blocks
      ensures blocks == MergeRight(old(blocks), i, LEGACY_HEADER)
      ensures Tiled(blocks, LegacyHeap.HEAP_START, LegacyHeap.HEAP_END, LEGACY_HEADER)
      ensures Shows(mem, blocks, freeList, LEGACY) && Others(mem, blocks, order)
      ensures PayloadKept(old(mem), mem, old(blocks), LEGACY)
    {
      hide Tiled, HeadersShown, Linked, Others, PayloadKept, FreeAddrs;
      ghost var bs := blocks;
      BlocksApart(bs, LegacyHeap.HEAP_START, LegacyHeap.HEAP_END, LEGACY);
      PayloadSame(mem, bs, LEGACY);
      ShownAt(mem, bs, i, LEGACY);
      NextLink(mem, bs, i, LEGACY);
      ghost var j: nat := NextFree(bs, i + 1);
      if j < |bs| { NextIsNeighbour(bs, i, LegacyHeap.HEAP_START, LegacyHeap.HEAP_END, LEGACY_HEADER); }
      var next := mem[block + 12];
      if next != 0 && block + LEGACY_HEADER + mem[block + 4] == next {
        Merge(block, next, i);
      }
    }

    /** Looks left. */
    method MergeWithPrev(block: int, ghost i: nat)
      requires Tiled(blocks, LegacyHeap.HEAP_START, LegacyHeap.HEAP_END, LEGACY_HEADER)
      requires Shows(mem, blocks, freeList, LEGACY) && Others(mem, blocks, order)
      requires i < |blocks| && !blocks[i].used && blocks[i].addr == block
      modifies `mem, `blocks
      ensures blocks == MergeLeft(old(blocks), i, LEGACY_HEADER)
      ensures Tiled(blocks, LegacyHeap.HEAP_START, LegacyHeap.HEAP_END, LEGACY_HEADER)
      ensures Shows(mem, blocks, freeList, LEGACY) && Others(mem, blocks, order)
      ensures PayloadKept(old(mem), mem, old(blocks), LEGACY)
    {
      hide Tiled, HeadersShown, Linked, Others, PayloadKept, FreeAddrs;
      ghost var bs := blocks;
      BlocksApart(bs, LegacyHeap.HEAP_START, LegacyHeap.HEAP_END, LEGACY);
      PayloadSame(mem, bs, LEGACY);
      ShownAt(mem, bs, i, LEGACY);
      PrevLink(mem, bs, i, LEGACY);
      if PrevFree(bs, i) >= 0 {
        PrevIsNeighbour(bs, i, LegacyHeap.HEAP_START, LegacyHeap.HEAP_END, LEGACY_HEADER);
        ShownAt(mem, bs, PrevFree(bs, i), LEGACY);
      }
      var prev := mem[block + 16];
      if prev != 0 && prev + LEGACY_HEADER + mem[prev + 4] == block {
        Merge(prev, block, i - 1);
      }
    }

    /** Looks right, then left. */
    method MergeAround(block: int, ghost i: nat)
      requires Tiled(blocks, LegacyHeap.HEAP_START, LegacyHeap.HEAP_END, LEGACY_HEADER)
      requires Shows(mem, blocks, freeList, LEGACY) && Others(mem, blocks, order)
      requires i < |blocks| && !blocks[i].used && blocks[i].addr == block
      modifies `mem, `blocks
      ensures blocks == MergeLeft(MergeRight(old(blocks), i, LEGACY_HEADER), i, LEGACY_HEADER)
      ensures Tiled(blocks, LegacyHeap.HEAP_START, LegacyHeap.HEAP_END, LEGACY_HEADER)
      ensures Shows(mem, blocks, freeList, LEGACY) && Others(mem, blocks, order)
      ensures PayloadKept(old(mem), mem, old(blocks), LEGACY)
    {
      hide Tiled, HeadersShown, Linked, Others, PayloadKept, FreeAddrs, Live, MergeLeft;
      ghost var bs, m := blocks, mem;
      MergeRightEffect(bs, i, LegacyHeap.HEAP_START, LegacyHeap.HEAP_END, LEGACY_HEADER);
      MergeWithNext(block, i);
      ghost var r, m1 := blocks, mem;
      MergeRightStays(bs, i);
      MergeWithPrev(block, i);
      SameLive(bs, r);
      PayloadTrans(m, m1, mem, bs, r, LEGACY);
    }

    /** `KFREE`. Without the magic word, or with an unused header, the pointer is left alone; any other is a live
        allocation's. */
    method Kfree(ptr: int, ghost i: nat)
      requires Valid()
      requires ptr != 0 ==> ptr - LEGACY_HEADER in mem && ptr - LEGACY_HEADER + 8 in mem
      requires ptr != 0 && mem[ptr - LEGACY_HEADER] == 0xDEAD_BEEF && mem[ptr - LEGACY_HEADER + 8] != 0 ==>
        LegacyHeap.LiveAt(blocks, i, ptr)
      modifies `mem, `freeList, `usedList, `blocks, `order
      ensures var frees := ptr != 0 && old(mem)[ptr - LEGACY_HEADER] == 0xDEAD_BEEF && old(mem)[ptr - LEGACY_HEADER + 8] != 0;
        && (frees ==> Valid() && blocks == ReleaseLocally(old(blocks), i, LEGACY_HEADER))
        && (frees ==> PayloadKept(old(mem), mem, Freed(old(blocks), i), LEGACY))
        && (!frees ==> Valid() && mem == old(mem) && blocks == old(blocks) && order == old(order))
    {
      hide Tiled, HeadersShown, Linked, Others, PayloadKept, FreeAddrs, Live, Chained;
      if ptr == 0 {
        return;
      }
      var block := ptr - LEGACY_HEADER;
      if mem[block] != LegacyHeap.BLOCK_MAGIC {
        return;
      }
      if mem[block + 8] == 0 {
        return;
      }
      ghost var bs, m := blocks, mem;
      FreedEffect(bs, i, LegacyHeap.HEAP_START, LegacyHeap.HEAP_END, LEGACY_HEADER);
      MakeFree(block, i);
      ghost var m1 := mem;
      MergeAround(block, i);
      SameLive(Freed(bs, i), Freed(bs, i));
      PayloadTrans(m, m1, mem, Freed(bs, i), Freed(bs, i), LEGACY);
    }

    /** Marks the block free and takes it off the used list; `mem[block + 8 := 1]` is memory with the mark undone. */
    method MarkAndUnlink(block: int, ghost i: nat)
      requires Valid() && i < |blocks| && blocks[i].used && blocks[i].addr == block
      modifies `mem, `usedList, `order
      ensures order == Removed(old(order), IndexOf(old(order), block)) && usedList == At(order, 0)
      ensures Holds(mem, block + 8, 0) && block + 12 in mem && block + 16 in mem
      ensures HeadersShown(mem[block + 8 := 1], blocks, LEGACY)
      ensures Linked(mem[block + 8 := 1], FreeAddrs(blocks), LEGACY)
      ensures PayloadKept(old(mem), mem[block + 8 := 1], blocks, LEGACY)
      ensures Others(mem, Freed(blocks, i), order)
    {
      hide Tiled, HeadersShown, Linked, Chained, MagicShown, ListsUsed, PayloadKept, FreeAddrs, Removed, SameExcept;
      ghost var bs, u, m, k := blocks, order, mem, IndexOf(order, block);
      ghost var lo, hi := LegacyHeap.HEAP_START, LegacyHeap.HEAP_END;
      UsedListed(bs, u, i);
      ShownAt(mem, bs, i, LEGACY);
      mem := mem[block + 8 := 0];
      ghost var m1 := mem;
      MarkKeepsChain(m, u, k);
      UnlinkUsed(block, u, k);
      UnlinkFrame(m, m1, mem, u, k);
      SameExceptMore(m, mem[block + 8 := 1], {At(u, (k as int) - 1) + 12, At(u, k + 1) + 16},
                     {At(u, (k as int) - 1) + 12, At(u, (k as int) - 1) + 16} + {At(u, k + 1) + 12, At(u, k + 1) + 16});
      UsedLinksFrame(m, mem[block + 8 := 1], bs, u, (k as int) - 1, k + 1, lo, hi);
      UnlinkOthers(m, mem, bs, u, i, k, lo, hi);
      order := Removed(u, k);
    }

    /** From the used list to the free list. */
    method MakeFree(block: int, ghost i: nat)
      requires Valid() && i < |blocks| && blocks[i].used && blocks[i].addr == block
      modifies `mem, `freeList, `usedList, `blocks, `order
      ensures blocks == Freed(old(blocks), i) && order == Removed(old(order), IndexOf(old(order), block))
      ensures Shows(mem, blocks, freeList, LEGACY) && Others(mem, blocks, order) && usedList == At(order, 0)
      ensures PayloadKept(old(mem), mem, blocks, LEGACY)
    {
      hide Tiled, HeadersShown, Linked, Others, PayloadKept, FreeAddrs, Removed, Inserted, SameExcept, Fits;
      ghost var bs, m := blocks, mem;
      ghost var lo, hi, f, p := LegacyHeap.HEAP_START, LegacyHeap.HEAP_END, FreeAddrs(blocks), ListIndex(blocks, i);
      ghost var prev: int := At(f, (p as int) - 1);
      MarkAndUnlink(block, i);
      ghost var m2 := mem;
      ghost var mu := mem[block + 8 := 1];
      mem := mem[block + 16 := 0];
      mem := mem[block + 12 := 0];
      ghost var m3 := mem;
      Gap(bs, i, lo, hi, LEGACY);
      OwnWords(m2, f, p, block);
      InsertFreeBlock(block, f, p);
      InsertFrame(m2, mem, block, prev, At(f, p));
      FreedShows(mu, m2, mem, bs, i, freeList, lo, hi, LEGACY);
      FreedOthers(m2, mem, bs, order, i, prev, At(f, p), lo, hi);
      FreedPayload(m, mu, mem, bs, i);
      blocks := Freed(bs, i);
    }
  }
}
