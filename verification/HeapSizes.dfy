/** How small blocks get and how much a request wastes: the bounds that say when a block is split. */
module HeapSizes {
  import opened Words
  import opened PageFrames
  import opened Paging
  import opened BlockLayout
  import opened HeapModel
  import opened HeapRuns
  import opened MemoryStack

  /** Every free block holds at least `m` bytes. */
  ghost predicate FreeAtLeast(bs: seq<Block>, m: int) {
    forall i :: 0 <= i < |bs| ==> bs[i].used || bs[i].size >= m
  }

  /** Every block does. */
  ghost predicate AllAtLeast(bs: seq<Block>, m: int) {
    forall i :: 0 <= i < |bs| ==> bs[i].size >= m
  }

  // ----- What allocation leaves over -----

  lemma TakeLeaves(s: Heap, i: nat, n: nat)
    requires i < |s.blocks| && s.blocks[i].size >= n && FreeAtLeast(s.blocks, 16)
    ensures FreeAtLeast(TakeBlock(s, i, n).blocks, 16)
  {
    var t, p := Taken(s.blocks[i], n, HEADER), Place(s.blocks, i, n, HEADER);
    forall k | 0 <= k < |p|
      ensures p[k].used || p[k].size >= 16
    {
      if k >= i + |t| { assert p[k] == s.blocks[k - |t| + 1]; }
    }
  }

  lemma GrowLeaves(s: Heap)
    requires WellFormed(s.vm.frames) && FreeAtLeast(s.blocks, 16)
    ensures GrowPage(s).Grown? ==> FreeAtLeast(GrowPage(s).heap.blocks, 16)
  {
    hide GrowPage;
    GrowPageFields(s);
  }

  lemma {:induction false} ExpandLeaves(s: Heap, pages: nat)
    requires HeapInv(s) && FreeAtLeast(s.blocks, 16)
    ensures Expand(s, pages).Expanded? ==> FreeAtLeast(Expand(s, pages).heap.blocks, 16)
    decreases pages
  {
    hide BlocksInv, WindowFree, VmInv, GrowPage, FreeAtLeast;
    if pages > 0 && GrowPage(s).Grown? {
      GrowPageEffect(s);
      GrowLeaves(s);
      ExpandLeaves(GrowPage(s).heap, pages - 1);
    }
  }

  /** An allocation never leaves a free block of fewer than 16 bytes that was not there before. */
  lemma {:induction false} KmallocLeaves(s: Heap, size: nat, depth: nat)
    requires HeapInv(s) && FreeAtLeast(s.blocks, 16)
    ensures FreeAtLeast(Kmalloc(s, size, depth).0.blocks, 16)
    decreases depth
  {
    hide BlocksInv, WindowFree, VmInv, Expand, FreeAtLeast, RoundUp, TakeBlock, PagesNeeded;
    if size > 0 {
      var n := RoundUp(size);
      var i := FirstFit(s.blocks, n);
      if i < |s.blocks| {
        TakeLeaves(s, i, n);
      } else {
        ExpandLeaves(s, PagesNeeded(n));
        ExpandEffect(s, PagesNeeded(n));
        if Expand(s, PagesNeeded(n)).Expanded? && depth > 0 {
          KmallocLeaves(Expand(s, PagesNeeded(n)).heap, n, depth - 1);
        }
      }
    }
  }

  // ----- What a free leaves -----

  ghost predicate FreeAt(bs: seq<Block>, i: int) {
    0 <= i < |bs| && !bs[i].used
  }

  ghost predicate BigAt(bs: seq<Block>, i: int, m: int) {
    0 <= i < |bs| && !bs[i].used && bs[i].size >= m
  }

  /** Every smaller free block has a free neighbour that is not. */
  ghost predicate SmallBesideBig(bs: seq<Block>, m: int) {
    forall i {:trigger FreeAt(bs, i)} :: FreeAt(bs, i) ==> BigAt(bs, i, m) || BigAt(bs, i - 1, m) || BigAt(bs, i + 1, m)
  }

  /** The sweep then leaves no smaller free block. */
  lemma {:induction false} CoalesceLeaves(bs: seq<Block>, m: int, lo: int, hi: int, h: nat)
    requires Tiled(bs, lo, hi, h) && SmallBesideBig(bs, m)
    ensures FreeAtLeast(Coalesce(bs, h), m)
    decreases |bs|
  {
    if |bs| < 2 {
      assert |bs| == 1 && FreeAt(bs, 0) ==> BigAt(bs, 0, m);
    } else if !bs[0].used && !bs[1].used {
      MergeLeaves(bs, m, lo, hi, h);
      CoalesceLeaves([Merge(bs[0], bs[1], h)] + bs[2..], m, lo, hi, h);
    } else {
      PassLeaves(bs, m);
      CoalesceLeaves(bs[1..], m, lo + h + bs[0].size, hi, h);
      assert FreeAt(bs, 0) ==> BigAt(bs, 0, m);
      SweepPasses(bs, h);
      var c := Coalesce(bs[1..], h);
      assert forall k :: 0 < k < |[bs[0]] + c| ==> ([bs[0]] + c)[k] == c[k - 1];
    }
  }

  lemma MergeLeaves(bs: seq<Block>, m: int, lo: int, hi: int, h: nat)
    requires Tiled(bs, lo, hi, h) && |bs| >= 2 && !bs[0].used && !bs[1].used && SmallBesideBig(bs, m)
    ensures var g := [Merge(bs[0], bs[1], h)] + bs[2..]; Tiled(g, lo, hi, h) && SmallBesideBig(g, m)
  {
    var g := [Merge(bs[0], bs[1], h)] + bs[2..];
    assert bs[1..][1..] == bs[2..] && g[1..] == bs[2..];
    assert FreeAt(bs, 0);
    assert BigAt(bs, 0, m) || BigAt(bs, 1, m);
    assert BigAt(g, 0, m);
    forall i | FreeAt(g, i)
      ensures BigAt(g, i, m) || BigAt(g, i - 1, m) || BigAt(g, i + 1, m)
    {
      if i > 1 {
        assert FreeAt(bs, i + 1);
        assert BigAt(bs, i + 2, m) ==> BigAt(g, i + 1, m);
        assert BigAt(bs, i, m) ==> BigAt(g, i - 1, m);
      }
    }
  }

  lemma PassLeaves(bs: seq<Block>, m: int)
    requires |bs| >= 2 && (bs[0].used || bs[1].used) && SmallBesideBig(bs, m)
    ensures SmallBesideBig(bs[1..], m)
  {
    var g := bs[1..];
    forall i | FreeAt(g, i)
      ensures BigAt(g, i, m) || BigAt(g, i - 1, m) || BigAt(g, i + 1, m)
    {
      assert FreeAt(bs, i + 1);
      assert BigAt(bs, i + 2, m) ==> BigAt(g, i + 1, m);
      assert i > 0 && BigAt(bs, i, m) ==> BigAt(g, i - 1, m);
    }
  }

  /** A free leaves a free block of fewer than 16 bytes if and only if the block freed is one, between used blocks or the
      heap's ends. */
  lemma KfreeLeaves(s: Heap, i: nat)
    requires BlocksInv(s) && i < |s.blocks| && s.blocks[i].used && FreeAtLeast(s.blocks, 16)
    ensures FreeAtLeast(Kfree(s, i).blocks, 16) <==>
      s.blocks[i].size >= 16 || FreeAt(s.blocks, i - 1) || FreeAt(s.blocks, i + 1)
  {
    hide Aligned, LiveBytes, Coalesce, Tiled, Coalesced;
    var g, hi := Freed(s.blocks, i), s.base + s.total;
    FreedEffect(s.blocks, i, s.base, hi, HEADER);
    if s.blocks[i].size >= 16 || FreeAt(s.blocks, i - 1) || FreeAt(s.blocks, i + 1) {
      FreedBeside(s.blocks, i);
      CoalesceLeaves(g, 16, s.base, hi, HEADER);
    } else {
      CoalesceCut(g, i, HEADER);
      SweepPasses(g[i..], HEADER);
      var a, c := Coalesce(g[..i], HEADER), Coalesce(g, HEADER);
      assert c[|a|] == g[i];
    }
  }

  lemma FreedBeside(bs: seq<Block>, i: nat)
    requires i < |bs| && FreeAtLeast(bs, 16) && (bs[i].size >= 16 || FreeAt(bs, i - 1) || FreeAt(bs, i + 1))
    ensures SmallBesideBig(Freed(bs, i), 16)
  {
    var g := Freed(bs, i);
    forall k | FreeAt(g, k)
      ensures BigAt(g, k, 16) || BigAt(g, k - 1, 16) || BigAt(g, k + 1, 16)
    {
      if k == i {
        assert FreeAt(bs, i - 1) ==> BigAt(g, i - 1, 16);
        assert FreeAt(bs, i + 1) ==> BigAt(g, i + 1, 16);
      }
    }
  }

  // ----- Over runs -----

  /** Requests round to at least `m` bytes, or to no block at all. */
  predicate AsksAtLeast(op: Op, m: int) {
    op.Malloc? ==> op.size == 0 || RoundUp(op.size) >= m
  }

  lemma TakeKeepsSize(s: Heap, i: nat, n: nat, m: int)
    requires m <= 16 && m <= n && i < |s.blocks| && s.blocks[i].size >= n && AllAtLeast(s.blocks, m)
    ensures AllAtLeast(TakeBlock(s, i, n).blocks, m)
  {
    var t, p := Taken(s.blocks[i], n, HEADER), Place(s.blocks, i, n, HEADER);
    forall k | 0 <= k < |p|
      ensures p[k].size >= m
    {
      if k >= i + |t| { assert p[k] == s.blocks[k - |t| + 1]; }
    }
  }

  lemma {:induction false} ExpandKeepsSize(s: Heap, pages: nat, m: int)
    requires HeapInv(s) && m <= 16 && AllAtLeast(s.blocks, m)
    ensures Expand(s, pages).Expanded? ==> AllAtLeast(Expand(s, pages).heap.blocks, m)
    decreases pages
  {
    hide BlocksInv, WindowFree, VmInv, GrowPage;
    if pages > 0 && GrowPage(s).Grown? {
      GrowPageEffect(s);
      GrowPageFields(s);
      ExpandKeepsSize(GrowPage(s).heap, pages - 1, m);
    }
  }

  lemma {:induction false} KmallocKeepsSize(s: Heap, size: nat, depth: nat, m: int)
    requires HeapInv(s) && m <= 16 && AllAtLeast(s.blocks, m) && (size == 0 || RoundUp(size) >= m)
    ensures AllAtLeast(Kmalloc(s, size, depth).0.blocks, m)
    decreases depth
  {
    hide BlocksInv, WindowFree, VmInv, Expand, AllAtLeast, RoundUp, TakeBlock, PagesNeeded;
    if size > 0 {
      var n := RoundUp(size);
      RoundAgain(size);
      var i := FirstFit(s.blocks, n);
      if i < |s.blocks| {
        TakeKeepsSize(s, i, n, m);
      } else {
        ExpandKeepsSize(s, PagesNeeded(n), m);
        ExpandEffect(s, PagesNeeded(n));
        if Expand(s, PagesNeeded(n)).Expanded? && depth > 0 {
          KmallocKeepsSize(Expand(s, PagesNeeded(n)).heap, n, depth - 1, m);
        }
      }
    }
  }

  lemma {:induction false} CoalesceKeepsSize(bs: seq<Block>, h: nat, m: int, lo: int, hi: int)
    requires AllAtLeast(bs, m) && Tiled(bs, lo, hi, h)
    ensures AllAtLeast(Coalesce(bs, h), m)
    decreases |bs|
  {
    if |bs| < 2 {
    } else if !bs[0].used && !bs[1].used {
      var g := [Merge(bs[0], bs[1], h)] + bs[2..];
      assert bs[1..][1..] == bs[2..] && g[1..] == bs[2..];
      CoalesceKeepsSize(g, h, m, lo, hi);
    } else {
      CoalesceKeepsSize(bs[1..], h, m, lo + h + bs[0].size, hi);
      SweepPasses(bs, h);
    }
  }

  lemma KfreeKeepsSize(s: Heap, i: nat, m: int)
    requires BlocksInv(s) && i < |s.blocks| && s.blocks[i].used && AllAtLeast(s.blocks, m)
    ensures AllAtLeast(Kfree(s, i).blocks, m)
  {
    hide Aligned, LiveBytes, Coalesce;
    FreedEffect(s.blocks, i, s.base, s.base + s.total, HEADER);
    CoalesceKeepsSize(Freed(s.blocks, i), HEADER, m, s.base, s.base + s.total);
  }

  lemma StepKeepsSize(s: Stack, op: Op, m: int)
    requires StackInv(s) && Legal(s, op) && m <= 16 && AllAtLeast(s.heap.blocks, m) && AsksAtLeast(op, m)
    ensures AllAtLeast(Step(s, op).heap.blocks, m)
  {
    hide BlocksInv, WindowFree, VmInv, FramesApart, Kmalloc, Expand, Kfree, RoundUp, AllAtLeast;
    StepKeeps(s, op);
    match op
    case Start(pages) => ExpandKeepsSize(s.heap, pages, m);
    case Malloc(size, depth) => KmallocKeepsSize(s.heap, size, depth, m);
    case Release(ptr) =>
      if ptr != 0 {
        var i :| LiveAt(s.heap, i, ptr) && Step(s, op) == s.(heap := Kfree(s.heap, i));
        KfreeKeepsSize(s.heap, i, m);
      }
    case _ =>
  }

  /** In a run whose requests round to at least `m` bytes, for `m` up to 16, no block is smaller: with requests of 9 bytes
      and more every free block holds 16. */
  lemma {:induction false} RunKeepsSize(s: Stack, ops: seq<Op>, m: int)
    requires StackInv(s) && LegalRun(s, ops) && m <= 16 && AllAtLeast(s.heap.blocks, m)
    requires forall op :: op in ops ==> AsksAtLeast(op, m)
    ensures AllAtLeast(Run(s, ops).heap.blocks, m)
    decreases |ops|
  {
    hide StackInv, Legal, Step, Stays, AllAtLeast, AsksAtLeast;
    if ops != [] {
      StepKeeps(s, ops[0]);
      StepKeepsSize(s, ops[0], m);
      assert forall op :: op in ops[1..] ==> op in ops;
      RunKeepsSize(Step(s, ops[0]), ops[1..], m);
    }
  }

  // ----- What a request wastes -----

  /** The block behind a pointer is new and holds less than `n + 32` bytes. */
  ghost predicate Tight(s: Heap, s1: Heap, ptr: int, n: int) {
    exists got :: got in Live(s1.blocks) && got !in Live(s.blocks) && Live(s1.blocks) == Live(s.blocks) + {got}
                  && got.addr + 16 == ptr && n <= got.size < n + 32
  }

  lemma TakeTight(s: Heap, i: nat, n: nat)
    requires BlocksInv(s) && i < |s.blocks| && !s.blocks[i].used && s.blocks[i].size >= n && n % 8 == 0
    ensures Tight(s, TakeBlock(s, i, n), s.blocks[i].addr + HEADER, n)
  {
    hide Aligned, LiveBytes, Place, Tiled;
    TakeKeepsBlocks(s, i, n);
    var got := Taken(s.blocks[i], n, HEADER)[0];
    assert got in Live(s.blocks) + {got};
  }

  /** An answered request gets a block of at least the rounded size and less than 32 bytes more, 16 bytes below the
      pointer. */
  lemma {:induction false} KmallocTight(s: Heap, size: nat, depth: nat)
    requires HeapInv(s) && 0 < size <= TWO32 - 8
    ensures var (s1, r) := Kmalloc(s, size, depth); r.Returned? ==> Tight(s, s1, r.ptr, RoundUp(size))
    decreases depth
  {
    hide BlocksInv, VmInv, WindowFree, Expand, Live, Place, Tight, RoundUp;
    var n := RoundUp(size);
    RoundAgain(size);
    var i := FirstFit(s.blocks, n);
    if i < |s.blocks| {
      TakeTight(s, i, n);
    } else {
      ExpandEffect(s, PagesNeeded(n));
      if Expand(s, PagesNeeded(n)).Expanded? && depth > 0 {
        var s1 := Expand(s, PagesNeeded(n)).heap;
        KmallocTight(s1, n, depth - 1);
        if Kmalloc(s1, n, depth - 1).1.Returned? {
          TightOn(s, s1, Kmalloc(s1, n, depth - 1).0, Kmalloc(s1, n, depth - 1).1.ptr, n);
        }
      }
    }
  }

  lemma TightOn(s: Heap, s1: Heap, s2: Heap, ptr: int, n: int)
    requires Tight(s1, s2, ptr, n) && Live(s1.blocks) == Live(s.blocks)
    ensures Tight(s, s2, ptr, n)
  {
  }
}
