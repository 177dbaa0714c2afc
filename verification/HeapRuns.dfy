/** What single calls of the kernel heap promise: which block is returned, when a call returns at all, what the
    counter holds. */
module HeapRuns {
  import opened Words
  import opened PageFrames
  import opened Paging
  import opened BlockLayout
  import opened HeapModel

  /** What every call keeps. */
  ghost predicate HeapInv(s: Heap) {
    BlocksInv(s) && WindowFree(s) && VmInv(s.vm) && WellFormed(s.vm.frames)
  }

  // ----- Expansion -----

  lemma {:induction false} ExpandEffect(s: Heap, pages: nat)
    requires HeapInv(s)
    ensures Expand(s, pages).Expanded? ==>
      var s1 := Expand(s, pages).heap;
      && HeapInv(s1) && Live(s1.blocks) == Live(s.blocks)
      && s1.base == s.base && s1.room == s.room && s1.used == s.used && s1.excess == s.excess
    decreases pages
  {
    hide BlocksInv, WindowFree, VmInv, GrowPage, Live;
    if pages > 0 {
      GrowPageEffect(s);
      GrowPageFields(s);
      if GrowPage(s).Grown? { ExpandEffect(GrowPage(s).heap, pages - 1); }
    }
  }

  lemma GrowPageFields(s: Heap)
    requires WellFormed(s.vm.frames)
    ensures GrowPage(s).Grown? ==>
      var s1 := GrowPage(s).heap;
      && s1.base == s.base && s1.room == s.room && s1.used == s.used && s1.excess == s.excess
      && s1.blocks == s.blocks + [Block(s.base + s.total, PAGE_SIZE - HEADER, false)] && s1.total == s.total + 4096
    ensures GrowPage(s).NoFrame? <==> CursorAlloc(s.vm.frames).1 == 0
  {
    hide CursorAlloc, Map, Key;
  }

  /** An expansion that does not fault adds pages behind the heap, a free block of 4080 bytes each, and fewer than asked for
      only when no frame is left. */
  lemma {:induction false} ExpandStops(s: Heap, pages: nat)
    requires HeapInv(s)
    ensures Expand(s, pages).Expanded? ==>
      var s1 := Expand(s, pages).heap;
      var had, k := |s.blocks|, |s1.blocks| - |s.blocks|;
      && 0 <= k <= pages && s1.total == s.total + 4096 * k && s1.blocks[..had] == s.blocks
      && (forall j :: had <= j < |s1.blocks| ==> s1.blocks[j] == Block(s.base + s.total + 4096 * (j - had), 4080, false))
      && WellFormed(s1.vm.frames) && (k < pages ==> CursorAlloc(s1.vm.frames).1 == 0)
    decreases pages
  {
    hide BlocksInv, WindowFree, VmInv, GrowPage, CursorAlloc;
    if pages > 0 {
      GrowPageFields(s);
      if GrowPage(s).Grown? {
        GrowPageEffect(s);
        var s1 := GrowPage(s).heap;
        ExpandStops(s1, pages - 1);
        if Expand(s1, pages - 1).Expanded? {
          var s2 := Expand(s1, pages - 1).heap;
          assert s2.blocks[..|s1.blocks|][..|s.blocks|] == s2.blocks[..|s.blocks|];
          assert s2.blocks[|s.blocks|] == s2.blocks[..|s1.blocks|][|s.blocks|];
        }
      }
    }
  }

  /** A page can be had when a frame is free, the window has room, and the page's slot has a table or a second frame
      is free for one. */
  lemma GrowthCondition(s: Heap)
    requires HeapInv(s)
    ensures var (frames1, phys) := CursorAlloc(s.vm.frames);
      GrowPage(s).Grown? <==>
        && phys != 0 && s.total + PAGE_SIZE <= s.room
        && WellFormed(frames1) && HasTable(s.vm.(frames := frames1), s.base + s.total)
  {
    hide BlocksInv, TablesInv, EntriesInv, WindowFree, CursorAlloc, Map, HasTable, FrameOf;
    var (frames1, phys) := CursorAlloc(s.vm.frames);
    AllocSparesTables(s.vm);
    AllocWord(s.vm.frames);
    if phys != 0 && s.total + PAGE_SIZE <= s.room {
      NextUnmapped(s);
      MapNext(s.vm.(frames := frames1), s.base + s.total, phys);
    }
  }

  // ----- What an allocation returns -----

  /** The block behind a pointer. */
  ghost predicate Gives(s: Heap, s1: Heap, ptr: int, size: nat) {
    exists got :: got in Live(s1.blocks) && got !in Live(s.blocks) && Live(s1.blocks) == Live(s.blocks) + {got}
                  && got.addr + HEADER == ptr && got.size >= size
  }

  /** Every call that does not trap keeps the invariant and every live block, whatever the size. A successful call for at
      most 2^32 - 8 bytes adds one live block of at least that size, 8-aligned. */
  lemma {:induction false} KmallocEffect(s: Heap, size: nat, depth: nat)
    requires HeapInv(s)
    ensures var (s1, r) := Kmalloc(s, size, depth);
      && (r != Trapped ==> HeapInv(s1) && s1.base == s.base && s1.room == s.room && Live(s.blocks) <= Live(s1.blocks))
      && (r == TooDeep ==> Live(s1.blocks) == Live(s.blocks))
      && (r.Returned? && 0 < size <= TWO32 - 8 ==> Gives(s, s1, r.ptr, size) && r.ptr % 8 == 0 && r.ptr > 0)
      && (r.Returned? && size == 0 ==> r.ptr == 0 && s1 == s)
    decreases depth
  {
    hide BlocksInv, VmInv, WindowFree, Expand, Live, Place, Gives, RoundUp;
    if size > 0 {
      var n := RoundUp(size);
      RoundAgain(size);
      var i := FirstFit(s.blocks, n);
      if i < |s.blocks| {
        TakeEffect(s, i, n, if size <= n then size else 0);
        GivesMore(s, TakeBlock(s, i, n), s.blocks[i].addr + HEADER, if size <= n then size else 0);
      } else {
        ExpandEffect(s, PagesNeeded(n));
        if Expand(s, PagesNeeded(n)).Expanded? && depth > 0 {
          var s1 := Expand(s, PagesNeeded(n)).heap;
          KmallocEffect(s1, n, depth - 1);
          var (s2, r) := Kmalloc(s1, n, depth - 1);
          if r.Returned? && n > 0 && size <= n { GivesOn(s, s1, s2, r.ptr, n, size); }
        }
      }
    }
  }

  lemma RoundAgain(size: nat)
    ensures RoundUp(size) <= TWO32 - 8 && RoundUp(RoundUp(size)) == RoundUp(size)
    ensures 0 < size <= TWO32 - 8 ==> size <= RoundUp(size)
    ensures TWO32 - 8 < size < TWO32 ==> RoundUp(size) == 0
  {
    var n := RoundUp(size);
    assert n % 8 == 0 && TWO32 % 8 == 0;
  }

  lemma GivesMore(s: Heap, s1: Heap, ptr: int, size: nat)
    requires Gives(s, s1, ptr, size)
    ensures Live(s.blocks) <= Live(s1.blocks)
  {
  }

  lemma GivesOn(s: Heap, s1: Heap, s2: Heap, ptr: int, n: nat, size: nat)
    requires Gives(s1, s2, ptr, n) && Live(s1.blocks) == Live(s.blocks) && size <= n
    ensures Gives(s, s2, ptr, size)
  {
  }

  lemma TakeEffect(s: Heap, i: nat, n: nat, size: nat)
    requires HeapInv(s) && i < |s.blocks| && !s.blocks[i].used && s.blocks[i].size >= n && n % 8 == 0 && size <= n
    ensures var s1, ptr := TakeBlock(s, i, n), s.blocks[i].addr + HEADER;
      HeapInv(s1) && Gives(s, s1, ptr, size) && ptr % 8 == 0 && ptr > 0
  {
    hide Aligned, Tiled, LiveBytes, Place, WindowFree, VmInv;
    TakeKeepsBlocks(s, i, n);
    TakeWindow(s, i, n);
    PointerAligned(s.blocks, i, s.base, s.base + s.total);
    var got := Taken(s.blocks[i], n, HEADER)[0];
    assert got in Live(s.blocks) + {got};
  }

  lemma PointerAligned(bs: seq<Block>, i: nat, lo: int, hi: int)
    requires Tiled(bs, lo, hi, HEADER) && Aligned(bs) && i < |bs| && lo > 0
    ensures (bs[i].addr + HEADER) % 8 == 0 && bs[i].addr > 0
  {
    TiledAt(bs, i, lo, hi, HEADER);
  }

  lemma TakeWindow(s: Heap, i: nat, n: nat)
    requires WindowFree(s) && i < |s.blocks| && s.blocks[i].size >= n
    ensures WindowFree(TakeBlock(s, i, n))
  {
  }

  /** Live payloads are disjoint. */
  lemma LiveDisjoint(s: Heap, a: Block, b: Block)
    requires BlocksInv(s) && a in Live(s.blocks) && b in Live(s.blocks) && a != b
    ensures a.addr + HEADER + a.size <= b.addr || b.addr + HEADER + b.size <= a.addr
  {
    var i :| 0 <= i < |s.blocks| && s.blocks[i] == a;
    var j :| 0 <= j < |s.blocks| && s.blocks[j] == b;
    if i < j {
      TiledSpaced(s.blocks, i, j, s.base, s.base + s.total, HEADER);
    } else {
      TiledSpaced(s.blocks, j, i, s.base, s.base + s.total, HEADER);
    }
  }

  /** The pointer is that of the lowest free block that fits, when one fits. */
  lemma LowestFit(s: Heap, size: nat, depth: nat, i: nat)
    requires WellFormed(s.vm.frames) && 0 < size && i < |s.blocks|
    requires !s.blocks[i].used && s.blocks[i].size >= RoundUp(size)
    requires forall j :: 0 <= j < i ==> s.blocks[j].used || s.blocks[j].size < RoundUp(size)
    ensures Kmalloc(s, size, depth).1 == Returned(s.blocks[i].addr + HEADER)
  {
    FirstFitUnique(s.blocks, RoundUp(size), i);
  }

  // ----- When an allocation returns -----

  /** No free block of this size: larger than what a page of its own leaves. */
  ghost predicate Unfit(s: Heap, n: nat) {
    FirstFit(s.blocks, n) == |s.blocks|
  }

  lemma {:induction false} ExpandUnfit(s: Heap, pages: nat, n: nat)
    requires HeapInv(s) && Unfit(s, n) && n > PAGE_SIZE - HEADER
    ensures Expand(s, pages).Expanded? ==> Unfit(Expand(s, pages).heap, n)
    decreases pages
  {
    hide BlocksInv, WindowFree, VmInv, GrowPage, Unfit;
    if pages > 0 {
      GrowPageEffect(s);
      GrowPageFields(s);
      if GrowPage(s).Grown? {
        var s1 := GrowPage(s).heap;
        StillUnfit(s, s1, n);
        ExpandUnfit(s1, pages - 1, n);
      }
    }
  }

  lemma StillUnfit(s: Heap, s1: Heap, n: nat)
    requires Unfit(s, n) && n > PAGE_SIZE - HEADER
    requires s1.blocks == s.blocks + [Block(s.base + s.total, PAGE_SIZE - HEADER, false)]
    ensures Unfit(s1, n)
  {
    assert forall j :: 0 <= j < |s.blocks| ==> s1.blocks[j] == s.blocks[j];
    FirstFitUnique(s1.blocks, n, |s1.blocks|);
  }

  /** A request no page can hold and no free block fits is never answered, however deep the recursion. */
  lemma {:induction false} BigNeverReturns(s: Heap, n: nat, depth: nat)
    requires HeapInv(s) && 0 < n <= TWO32 - 8 && RoundUp(n) == n && n > PAGE_SIZE - HEADER && Unfit(s, n)
    ensures !Kmalloc(s, n, depth).1.Returned?
    decreases depth
  {
    hide BlocksInv, WindowFree, VmInv, Expand, FirstFit;
    ExpandEffect(s, PagesNeeded(n));
    ExpandUnfit(s, PagesNeeded(n), n);
    if Expand(s, PagesNeeded(n)).Expanded? && depth > 0 {
      BigNeverReturns(Expand(s, PagesNeeded(n)).heap, n, depth - 1);
    }
  }

  /** Without a frame the recursion goes round and round. */
  lemma {:induction false} DryNeverReturns(s: Heap, n: nat, depth: nat)
    requires HeapInv(s) && 0 < n <= PAGE_SIZE - HEADER && RoundUp(n) == n && Unfit(s, n) && !GrowPage(s).Grown?
    ensures !Kmalloc(s, n, depth).1.Returned?
    decreases depth
  {
    hide BlocksInv, WindowFree, VmInv, GrowPage, FirstFit;
    OnePage(n);
    if GrowPage(s).NoFrame? && depth > 0 { DryNeverReturns(s, n, depth - 1); }
  }

  lemma OnePage(n: nat)
    requires 0 < n <= PAGE_SIZE - HEADER
    ensures PagesNeeded(n) == 1
  {
  }

  /** With a page to be had, one recursive call is enough. */
  lemma SmallReturns(s: Heap, n: nat, depth: nat)
    requires HeapInv(s) && 0 < n <= PAGE_SIZE - HEADER && RoundUp(n) == n
    requires Unfit(s, n) && GrowPage(s).Grown? && depth > 0
    ensures Kmalloc(s, n, depth).1 == Returned(s.base + s.total + HEADER)
  {
    hide BlocksInv, WindowFree, VmInv, GrowPage;
    OnePage(n);
    GrowPageEffect(s);
    GrowPageFields(s);
    var s1 := GrowPage(s).heap;
    assert Expand(s1, 0) == Expanded(s1);
    assert Expand(s, 1) == Expanded(s1);
    assert forall j :: 0 <= j < |s.blocks| ==> s1.blocks[j] == s.blocks[j];
    FirstFitUnique(s1.blocks, n, |s.blocks|);
  }

  lemma FirstFitBound(bs: seq<Block>, n: int)
    ensures FirstFit(bs, n) <= |bs|
  {
  }

  /** Asking for the rounded size is the same request. */
  lemma RoundedCall(s: Heap, size: nat, depth: nat)
    requires HeapInv(s) && 0 < size <= TWO32 - 8
    ensures Kmalloc(s, size, depth) == Kmalloc(s, RoundUp(size), depth)
  {
    hide RoundUp;
    RoundAgain(size);
  }

  // ----- The wrapped request -----

  /** An answered request gets a block of at least its size exactly when the rounding does not wrap. */
  lemma RequestMet(s: Heap, size: nat, depth: nat)
    requires HeapInv(s) && 0 < size < TWO32 && Kmalloc(s, size, depth).1.Returned?
    ensures var (s1, r) := Kmalloc(s, size, depth);
      Gives(s, s1, r.ptr, size) <==> size <= TWO32 - 8
  {
    hide VmInv, WindowFree, Expand, Place, Kmalloc, Tiled;
    KmallocEffect(s, size, depth);
    var (s1, r) := Kmalloc(s, size, depth);
    if size > TWO32 - 8 && Gives(s, s1, r.ptr, size) {
      var got :| got in Live(s1.blocks) && got.size >= size;
      BlockBelow(s1, got);
    }
  }

  lemma BlockBelow(s: Heap, b: Block)
    requires BlocksInv(s) && b in s.blocks
    ensures 0 <= b.size <= TWO32 - TABLE_SPAN - HEADER
  {
    var i :| 0 <= i < |s.blocks| && s.blocks[i] == b;
    TiledAt(s.blocks, i, s.base, s.base + s.total, HEADER);
  }

  /** From 2^32 - 7 on the rounding wraps to 0. The first free block is handed out, too small whatever its size; without a
      free block the heap grows by a page and the recursive call, for 0 bytes, answers null. */
  lemma WrappedRequest(s: Heap, size: nat, depth: nat)
    requires HeapInv(s) && TWO32 - 8 < size < TWO32
    ensures var i := FirstFit(s.blocks, 0);
      && (i < |s.blocks| ==> s.blocks[i].size < size && Kmalloc(s, size, depth).1 == Returned(s.blocks[i].addr + HEADER))
      && (i == |s.blocks| ==>
            && (forall j :: 0 <= j < |s.blocks| ==> s.blocks[j].used)
            && Kmalloc(s, size, depth).1 ==
                 if GrowPage(s).NoWindow? then Trapped else if depth == 0 then TooDeep else Returned(0))
  {
    hide VmInv, WindowFree, GrowPage, RoundUp, FirstFit;
    RoundAgain(size);
    var i := FirstFit(s.blocks, 0);
    if i < |s.blocks| {
      BlockBelow(s, s.blocks[i]);
    } else {
      FirstFitBound(s.blocks, 0);
      AllUsed(s);
      ExpandOnce(s);
      assert PagesNeeded(0) == 1;
    }
  }

  /** Every free block holds 0 bytes. */
  lemma AllUsed(s: Heap)
    requires BlocksInv(s) && FirstFit(s.blocks, 0) == |s.blocks|
    ensures forall j :: 0 <= j < |s.blocks| ==> s.blocks[j].used
  {
    forall j | 0 <= j < |s.blocks|
      ensures s.blocks[j].used
    {
      BlockBelow(s, s.blocks[j]);
    }
  }

  lemma ExpandOnce(s: Heap)
    requires HeapInv(s)
    ensures Expand(s, 1) == match GrowPage(s)
      case NoFrame => Expanded(s)
      case NoWindow => Lost
      case Grown(s1) => Expanded(s1)
    ensures GrowPage(s).Grown? ==> WellFormed(GrowPage(s).heap.vm.frames)
  {
    hide BlocksInv, VmInv, WindowFree, GrowPage;
    GrowPageEffect(s);
    if GrowPage(s).Grown? { assert Expand(GrowPage(s).heap, 0) == Expanded(GrowPage(s).heap); }
  }

  /** Exactly when `kmalloc` returns: a free block fits, or the request leaves room for the header in one page and a page
      can be had; a request that rounds to 0 needs no page, only no fault. Then one recursive call is enough; otherwise no
      depth is. */
  lemma KmallocReturnsExactly(s: Heap, size: nat, depth: nat)
    requires HeapInv(s) && 0 < size < TWO32
    ensures var n := RoundUp(size);
      var answerable := FirstFit(s.blocks, n) < |s.blocks|
        || (if n == 0 then !GrowPage(s).NoWindow? else n <= PAGE_SIZE - HEADER && GrowPage(s).Grown?);
      && (Kmalloc(s, size, depth).1.Returned? ==> answerable)
      && (answerable && depth > 0 ==> Kmalloc(s, size, depth).1.Returned?)
  {
    hide BlocksInv, WindowFree, VmInv, GrowPage, FirstFit, PagesNeeded, RoundUp;
    var n := RoundUp(size);
    RoundAgain(size);
    if size > TWO32 - 8 {
      WrappedRequest(s, size, depth);
      return;
    }
    RoundedCall(s, size, depth);
    if FirstFit(s.blocks, n) >= |s.blocks| {
      FirstFitBound(s.blocks, n);
      if n > PAGE_SIZE - HEADER {
        BigNeverReturns(s, n, depth);
      } else if GrowPage(s).Grown? {
        if depth > 0 { SmallReturns(s, n, depth); }
      } else {
        DryNeverReturns(s, n, depth);
      }
    }
  }

  // ----- The counter -----

  /** `heap_used` is the live total exactly when the remainders split off so far add up to a multiple of 2^32. */
  lemma UsedIsLive(s: Heap)
    requires BlocksInv(s)
    ensures s.used == LiveBytes(s.blocks) <==> s.excess % TWO32 == 0
  {
    hide Aligned;
    LiveFits(s.blocks, s.base, s.base + s.total);
    SumModulo(LiveBytes(s.blocks), s.excess);
  }

  /** An allocation that finds the counter exact leaves it exact if and only if it does not split. */
  lemma UsedAfterTake(s: Heap, i: nat, n: nat)
    requires BlocksInv(s) && i < |s.blocks| && !s.blocks[i].used && s.blocks[i].size >= n
    requires s.used == LiveBytes(s.blocks)
    ensures var s1 := TakeBlock(s, i, n);
      s1.used == LiveBytes(s1.blocks) <==> !Splits(s.blocks[i].size, n, HEADER)
  {
    hide Aligned, Tiled, Place;
    PlaceEffect(s.blocks, i, n, s.base, s.base + s.total, HEADER);
    FreeFits(s.blocks, i, s.base, s.base + s.total);
  }

  /** A free leaves the counter exact if and only if it was. */
  lemma UsedAfterFree(s: Heap, i: nat)
    requires BlocksInv(s) && i < |s.blocks| && s.blocks[i].used
    ensures Kfree(s, i).used == LiveBytes(Kfree(s, i).blocks) <==> s.used == LiveBytes(s.blocks)
  {
    hide Aligned, Tiled, Release;
    var hi := s.base + s.total;
    ReleaseEffect(s.blocks, i, s.base, hi, HEADER);
    LiveFits(s.blocks, s.base, hi);
    LiveFits(Release(s.blocks, i, HEADER), s.base, hi);
    TiledAt(s.blocks, i, s.base, hi, HEADER);
  }

  lemma {:induction false} LiveFits(bs: seq<Block>, lo: int, hi: int)
    requires Tiled(bs, lo, hi, HEADER)
    ensures 0 <= LiveBytes(bs) <= hi - lo
  {
    if bs != [] {
      LiveFits(bs[1..], lo + HEADER + bs[0].size, hi);
    }
  }

  /** The live bytes leave room for every free block. */
  lemma FreeFits(bs: seq<Block>, i: nat, lo: int, hi: int)
    requires Tiled(bs, lo, hi, HEADER) && i < |bs| && !bs[i].used
    ensures 0 <= LiveBytes(bs) && LiveBytes(bs) + bs[i].size <= hi - lo
  {
    var end := bs[i].addr + HEADER + bs[i].size;
    assert bs == bs[..i] + [bs[i]] + bs[i + 1..];
    TiledAt(bs, i, lo, hi, HEADER);
    BytesAppend(bs[..i] + [bs[i]], bs[i + 1..]);
    BytesAppend(bs[..i], [bs[i]]);
    assert LiveBytes([bs[i]]) == 0;
    LiveFits(bs[..i], lo, bs[i].addr);
    LiveFits(bs[i + 1..], end, hi);
  }

  lemma SumModulo(x: int, y: int)
    requires 0 <= x < TWO32
    ensures (x + y) % TWO32 == x <==> y % TWO32 == 0
  {
    var q, r := y / TWO32, y % TWO32;
    assert (x + y) % TWO32 == (x + r) % TWO32 by { assert x + y == q * TWO32 + (x + r); }
  }

  /** Giving everything back leaves one free block over the whole heap, in whatever order the calls came. */
  lemma AllReturned(s: Heap, i: nat)
    requires HeapInv(s) && i < |s.blocks| && Live(s.blocks) == {s.blocks[i]}
    ensures Kfree(s, i).blocks == [Block(s.base, s.total - HEADER, false)]
  {
    FreeKeepsBlocks(s, i);
    TiledAt(s.blocks, i, s.base, s.base + s.total, HEADER);
    AllFree(Kfree(s, i).blocks, s.base, s.base + s.total, HEADER);
  }

  /** Two frees in either order leave the same heap. */
  lemma FreesCommute(s: Heap, a: Block, b: Block, s1: Heap, s2: Heap, i: nat, j: nat, k: nat, l: nat)
    requires BlocksInv(s) && a != b
    requires i < |s.blocks| && s.blocks[i] == a && a.used && s1 == Kfree(s, i)
    requires j < |s1.blocks| && s1.blocks[j] == b && b.used
    requires k < |s.blocks| && s.blocks[k] == b && s2 == Kfree(s, k)
    requires l < |s2.blocks| && s2.blocks[l] == a
    ensures Kfree(s1, j) == Kfree(s2, l)
  {
    FreeKeepsBlocks(s, i);
    FreeKeepsBlocks(s1, j);
    FreeKeepsBlocks(s, k);
    FreeKeepsBlocks(s2, l);
    Canonical(Kfree(s1, j).blocks, Kfree(s2, l).blocks, s.base, s.base + s.total, HEADER);
    AddModulo(s.used - a.size, -b.size);
    AddModulo(s.used - b.size, -a.size);
  }

  // ----- Reuse -----

  /** Giving back the block just taken leaves the layout the sweep would have made of the old one, which on a coalesced
      heap is the old one. */
  lemma TakeThenFree(s: Heap, i: nat, n: nat, j: nat)
    requires BlocksInv(s) && i < |s.blocks| && !s.blocks[i].used && s.blocks[i].size >= n && n % 8 == 0
    requires var s1 := TakeBlock(s, i, n);
      j < |s1.blocks| && s1.blocks[j] == Taken(s.blocks[i], n, HEADER)[0]
    ensures Kfree(TakeBlock(s, i, n), j).blocks == Coalesce(s.blocks, HEADER)
    ensures Coalesced(s.blocks) ==> Kfree(TakeBlock(s, i, n), j).blocks == s.blocks
  {
    var s1, hi := TakeBlock(s, i, n), s.base + s.total;
    TakeKeepsBlocks(s, i, n);
    FreeKeepsBlocks(s1, j);
    CoalesceTiled(s.blocks, s.base, hi, HEADER);
    CoalesceLive(s.blocks, HEADER);
    CoalesceCoalesced(s.blocks, HEADER);
    Canonical(Kfree(s1, j).blocks, Coalesce(s.blocks, HEADER), s.base, hi, HEADER);
    if Coalesced(s.blocks) { CoalescedFixed(s.blocks, HEADER); }
  }

  /** The same request, answered again right after its block was given back: the pointer is the same exactly when the first
      run of free neighbours that fits starts with the first single block that fits. */
  lemma FreedIsReused(s: Heap, size: nat, depth: nat, j: nat)
    requires BlocksInv(s) && WellFormed(s.vm.frames) && 0 < size
    requires FirstFit(s.blocks, RoundUp(size)) < |s.blocks|
    requires var (s1, r) := Kmalloc(s, size, depth);
      j < |s1.blocks| && s1.blocks[j].used && Returned(s1.blocks[j].addr + HEADER) == r
    ensures var n, c := RoundUp(size), Coalesce(s.blocks, HEADER);
      && FirstFit(c, n) < |c|
      && (Kmalloc(Kfree(Kmalloc(s, size, depth).0, j), size, depth).1 == Kmalloc(s, size, depth).1 <==>
            c[FirstFit(c, n)].addr == s.blocks[FirstFit(s.blocks, n)].addr)
  {
    hide Aligned, LiveBytes, Coalesced, Coalesce, Kfree, RoundUp, Tiled;
    var n, i := RoundUp(size), FirstFit(s.blocks, RoundUp(size));
    var s1 := Kmalloc(s, size, depth).0;
    TakeKeepsBlocks(s, i, n);
    SameAddress(s1, Taken(s.blocks[i], n, HEADER)[0], j);
    TakeThenFree(s, i, n, j);
    FreeSpace(s1, j);
    var k := CoalesceCovers(s.blocks, i, s.base, s.base + s.total, HEADER);
  }

  lemma FreeSpace(s: Heap, j: nat)
    requires j < |s.blocks|
    ensures Kfree(s, j).vm == s.vm
  {
  }

  lemma SameAddress(s: Heap, b: Block, j: nat)
    requires BlocksInv(s) && b in Live(s.blocks) && j < |s.blocks| && s.blocks[j].addr == b.addr
    ensures s.blocks[j] == b
  {
    TiledDistinct(s.blocks, s.base, s.base + s.total, HEADER);
  }

  /** Whatever was allocated in between: a request that fits a live block gets that block's pointer right after the block is
      freed exactly when no free block precedes it directly and no run of free blocks below it fits. */
  lemma FreedAnswersNext(s: Heap, j: nat, size: nat, depth: nat)
    requires BlocksInv(s) && WellFormed(s.vm.frames) && j < |s.blocks| && s.blocks[j].used
    requires 0 < size && RoundUp(size) <= s.blocks[j].size
    ensures var below := Coalesce(s.blocks[..j], HEADER);
      Kmalloc(Kfree(s, j), size, depth).1 == Returned(s.blocks[j].addr + HEADER) <==>
        (j == 0 || s.blocks[j - 1].used) && FirstFit(below, RoundUp(size)) == |below|
  {
    hide Aligned, LiveBytes, Coalesced, Coalesce, RoundUp, Tiled;
    var g, n, hi := Freed(s.blocks, j), RoundUp(size), s.base + s.total;
    var c := Coalesce(g, HEADER);
    FreedEffect(s.blocks, j, s.base, hi, HEADER);
    var k := CoalesceCovers(g, j, s.base, hi, HEADER);
    var f: nat := FirstFit(c, n);
    assert g[..j] == s.blocks[..j];
    if j == 0 || s.blocks[j - 1].used {
      CoalesceCut(g, j, HEADER);
      CutFit(s, g, j, n);
    } else {
      var i := CoalesceStart(g, f, HEADER);
      TiledDistinct(g, s.base, hi, HEADER);
      assert c[f].addr != g[j].addr;
    }
  }

  /** The first fit of two swept parts, the second of which starts with a free block that fits. */
  lemma CutFit(s: Heap, g: seq<Block>, j: nat, n: nat)
    requires Tiled(g, s.base, s.base + s.total, HEADER) && j < |g| && !g[j].used && g[j].size >= n
    ensures var a, b := Coalesce(g[..j], HEADER), Coalesce(g[j..], HEADER);
      var f := FirstFit(a + b, n);
      f < |a + b| && ((a + b)[f].addr == g[j].addr <==> FirstFit(a, n) == |a|)
  {
    hide Coalesce, Tiled, Coalesced;
    var a, b, hi := Coalesce(g[..j], HEADER), Coalesce(g[j..], HEADER), s.base + s.total;
    TiledCut(g, j, s.base, hi);
    CoalesceCoalesced(g[j..], HEADER);
    var k := CoalesceCovers(g[j..], 0, g[j].addr, hi, HEADER);
    var f: nat := FirstFit(a, n);
    if f == |a| {
      FirstFitUnique(a + b, n, |a|);
    } else {
      FirstFitUnique(a + b, n, f);
      CoalesceTiled(g[..j], s.base, g[j].addr, HEADER);
      TiledAt(a, f, s.base, g[j].addr, HEADER);
    }
  }

  lemma TiledCut(g: seq<Block>, j: nat, lo: int, hi: int)
    requires Tiled(g, lo, hi, HEADER) && j < |g|
    ensures Tiled(g[..j], lo, g[j].addr, HEADER) && Tiled(g[j..], g[j].addr, hi, HEADER)
  {
    TiledAt(g, j, lo, hi, HEADER);
    assert g[j..][1..] == g[j + 1..];
  }

  /** Three blocks allocated in a row from the front of a free block, the middle one freed and its size asked for again:
      the same pointer. */
  lemma MiddleIsReused(s: Heap, a: nat, b: nat, c: nat, depth: nat)
    requires HeapInv(s) && s.blocks != [] && !s.blocks[0].used && 0 < a && 0 < b && 0 < c
    requires RoundUp(a) + RoundUp(b) + RoundUp(c) + 4 * HEADER <= s.blocks[0].size
    ensures var (s1, p1) := Kmalloc(s, a, depth);
      && WellFormed(s1.vm.frames)
      && var (s2, p2) := Kmalloc(s1, b, depth);
      && WellFormed(s2.vm.frames)
      && var (s3, p3) := Kmalloc(s2, c, depth);
      && WellFormed(s3.vm.frames) && |s3.blocks| > 1
      && s3.blocks[1].used && p2 == Returned(s3.blocks[1].addr + HEADER)
      && Kmalloc(Kfree(s3, 1), b, depth).1 == p2
  {
    hide VmInv, WindowFree, Aligned, LiveBytes, Tiled, RoundUp, Kfree, Kmalloc, Place, Coalesce, FirstFit;
    var s1 := Front(s, 0, a, depth);
    var s2 := Front(s1, 1, b, depth);
    var s3 := Front(s2, 2, c, depth);
    assert s3.blocks[1] == s2.blocks[1];
    FreedAnswersNext(s3, 1, b, depth);
    assert s3.blocks[..1] == [s3.blocks[0]];
    assert s3.blocks[..2][0] == s2.blocks[..2][0] && s2.blocks[..1][0] == s1.blocks[..1][0];
    UsedAlone(s3.blocks[0], RoundUp(b));
  }

  lemma UsedAlone(b: Block, n: nat)
    requires b.used
    ensures Coalesce([b], HEADER) == [b] && FirstFit([b], n) == 1
  {
    FirstFitUnique([b], n, 1);
  }

  /** The first free block, roomy enough, is cut at the front. */
  lemma Front(s: Heap, i: nat, size: nat, depth: nat) returns (s1: Heap)
    requires HeapInv(s) && i < |s.blocks| && !s.blocks[i].used && (forall j :: 0 <= j < i ==> s.blocks[j].used)
    requires 0 < size && RoundUp(size) + 2 * HEADER <= s.blocks[i].size
    ensures HeapInv(s1) && s1.vm == s.vm
    ensures Kmalloc(s, size, depth) == (s1, Returned(s.blocks[i].addr + HEADER))
    ensures i + 1 < |s1.blocks| && s1.blocks[..i] == s.blocks[..i]
    ensures s1.blocks[i] == Block(s.blocks[i].addr, RoundUp(size), true)
    ensures s1.blocks[i + 1] ==
      Block(s.blocks[i].addr + HEADER + RoundUp(size), s.blocks[i].size - RoundUp(size) - HEADER, false)
  {
    hide BlocksInv, WindowFree, VmInv, RoundUp;
    var n := RoundUp(size);
    s1 := TakeBlock(s, i, n);
    FirstFitUnique(s.blocks, n, i);
    TakeKeepsBlocks(s, i, n);
    TakeWindow(s, i, n);
  }
}
