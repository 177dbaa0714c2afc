/** The predecessor's heap: a 20-byte header with a magic word, a used list beside the free list, a split whose size test
    wraps, and local merging on free. */
module LegacyHeap {
  import opened Words
  import opened BlockLayout
  import opened FreeList
  import opened HeapMemory

  const MIN_BLOCK_SIZE := 16
  const HEAP_START := 0x20_0000
  const HEAP_END := 0x40_0000
  const BLOCK_MAGIC := 0xDEAD_BEEF

  // ----- Allocation -----

  /** `(size + 15) & ~15` in 32 bits: the next multiple of 16, or 0 for the last 15 sizes. */
  function RoundUp(size: nat): (n: nat)
    ensures n % 16 == 0 && n < TWO32
    ensures size <= TWO32 - 16 ==> size <= n < size + 16
    ensures TWO32 - 16 < size < TWO32 ==> n == 0
  {
    var s := (size + 15) % TWO32;
    s - s % 16
  }

  /** `block->size - size - BLOCK_SIZE`, as the unsigned subtraction computes it. */
  function Remaining(size: int, n: int): int {
    (size - n - LEGACY_HEADER) % TWO32
  }

  ghost function Taken(b: Block, n: int): seq<Block> {
    var remaining := Remaining(b.size, n);
    if remaining >= MIN_BLOCK_SIZE + 16
    then [Block(b.addr, n, true), Block(b.addr + LEGACY_HEADER + n, remaining, false)]
    else [Block(b.addr, b.size, true)]
  }

  ghost function Place(bs: seq<Block>, i: nat, n: int): seq<Block>
    requires i < |bs|
  {
    bs[..i] + Taken(bs[i], n) + bs[i + 1..]
  }

  /** The block found has fewer spare bytes than a header: the subtraction wraps and the block is split anyway. */
  predicate Wraps(size: int, n: int) {
    size - n < LEGACY_HEADER
  }

  lemma TakenTiles(b: Block, n: int)
    requires 0 <= n <= b.size < TWO32
    ensures Tiled(Taken(b, n), b.addr, b.addr + LEGACY_HEADER + b.size, LEGACY_HEADER) <==> !Wraps(b.size, n)
    ensures Wraps(b.size, n) ==> |Taken(b, n)| == 2 && Taken(b, n)[1].size >= TWO32 - LEGACY_HEADER
  {
    var t := Taken(b, n);
    RemainingValue(b.size, n);
    if |t| == 2 {
      var end := b.addr + LEGACY_HEADER + b.size;
      assert t[1..] == [t[1]] && [t[1]][1..] == [];
      assert Tiled([t[1]], t[1].addr, end, LEGACY_HEADER) <==> t[1].addr + LEGACY_HEADER + t[1].size == end && t[1].size >= 0;
    } else {
      assert t[1..] == [];
    }
  }

  lemma RemainingValue(size: int, n: int)
    requires 0 <= n <= size < TWO32
    ensures Remaining(size, n) == if Wraps(size, n) then TWO32 + (size - n - LEGACY_HEADER) else size - n - LEGACY_HEADER
  {
  }

  /** Allocation keeps the tiling exactly when the size test does not wrap. */
  lemma KmallocTilesExactly(bs: seq<Block>, i: nat, n: int, lo: int, hi: int)
    requires Tiled(bs, lo, hi, LEGACY_HEADER) && i < |bs| && !bs[i].used && 0 <= n <= bs[i].size < TWO32
    ensures Tiled(Place(bs, i, n), lo, hi, LEGACY_HEADER) <==> !Wraps(bs[i].size, n)
  {
    var pre, t, post := bs[..i], Taken(bs[i], n), bs[i + 1..];
    var end := bs[i].addr + LEGACY_HEADER + bs[i].size;
    TiledAt(bs, i, lo, hi, LEGACY_HEADER);
    TakenTiles(bs[i], n);
    if !Wraps(bs[i].size, n) {
      TiledJoin(pre, t, lo, bs[i].addr, end, LEGACY_HEADER);
      TiledJoin(pre + t, post, lo, end, hi, LEGACY_HEADER);
    } else if Tiled(pre + t + post, lo, hi, LEGACY_HEADER) {
      TiledAppend(pre + t, post, lo, hi, LEGACY_HEADER);
      TiledAppend(pre, t, lo, lo + Span(pre + t, LEGACY_HEADER), LEGACY_HEADER);
      TiledSpan(pre + t, lo, lo + Span(pre + t, LEGACY_HEADER), LEGACY_HEADER);
      TiledSpan(post, end, hi, LEGACY_HEADER);
      TiledSpan(post, lo + Span(pre + t, LEGACY_HEADER), hi, LEGACY_HEADER);
      TiledSpan(pre, lo, bs[i].addr, LEGACY_HEADER);
    }
  }

  /** Without a wrap, the live set gains exactly the block taken, of less than 52 bytes more than `n`; a remainder holds at
      least 32, and a coalesced heap stays coalesced. */
  lemma KmallocEffect(bs: seq<Block>, i: nat, n: int, lo: int, hi: int)
    requires Tiled(bs, lo, hi, LEGACY_HEADER) && i < |bs| && !bs[i].used
    requires 0 <= n <= bs[i].size < TWO32 && !Wraps(bs[i].size, n)
    ensures var got := Taken(bs[i], n)[0];
      && got.addr == bs[i].addr && n <= got.size < n + 52 && got !in Live(bs) && Live(Place(bs, i, n)) == Live(bs) + {got}
      && (got.size == bs[i].size
          || (|Taken(bs[i], n)| == 2 && !Taken(bs[i], n)[1].used && Taken(bs[i], n)[1].size >= 32 && got.size == n))
    ensures Coalesced(bs) ==> Coalesced(Place(bs, i, n))
  {
    TiledDistinct(bs, lo, hi, LEGACY_HEADER);
    assert bs == bs[..i] + [bs[i]] + bs[i + 1..];
    RemainingValue(bs[i].size, n);
    if Coalesced(bs) { PlaceCoalesced(bs, i, n); }
  }

  lemma PlaceCoalesced(bs: seq<Block>, i: nat, n: int)
    requires Coalesced(bs) && i < |bs| && !bs[i].used
    ensures Coalesced(Place(bs, i, n))
  {
    var p, t := Place(bs, i, n), Taken(bs[i], n);
    forall k {:trigger p[k].used} | 0 <= k < |p| - 1
      ensures p[k].used || p[k + 1].used
    {
      if k + 1 < i {
        assert bs[k].used || bs[k + 1].used;
      } else if k >= i + |t| - 1 {
        var src := k - |t| + 1;
        assert bs[src].used || bs[src + 1].used;
      }
    }
  }

  // ----- Requests -----

  /** A new live block of at least `size` bytes, 20 bytes below the pointer. */
  ghost predicate Gives(bs: seq<Block>, bs1: seq<Block>, ptr: int, size: int) {
    exists got :: got in Live(bs1) && got !in Live(bs) && Live(bs1) == Live(bs) + {got}
                  && got.addr + 20 == ptr && size <= got.size
  }

  /** A new live block, 20 bytes below the pointer, of less than 52 bytes more than `n`. */
  ghost predicate Tight(bs: seq<Block>, bs1: seq<Block>, ptr: int, n: int) {
    exists got :: got in Live(bs1) && got !in Live(bs) && Live(bs1) == Live(bs) + {got}
                  && got.addr + 20 == ptr && n <= got.size < n + 52
  }

  /** An answered request gets a new block that is big enough exactly when the rounding did not wrap, and wastes less than
      67 bytes. */
  lemma RequestMet(bs: seq<Block>, size: nat, lo: int, hi: int)
    requires Tiled(bs, lo, hi, LEGACY_HEADER) && hi - lo < TWO32 && 0 < size < TWO32 && Spacious(bs, Malloc(size))
    requires FirstFit(bs, RoundUp(size)) < |bs|
    ensures var ptr := bs[FirstFit(bs, RoundUp(size))].addr + LEGACY_HEADER;
      && Tight(bs, Malloced(bs, size), ptr, RoundUp(size))
      && (Gives(bs, Malloced(bs, size), ptr, size) <==> size <= TWO32 - 16)
  {
    hide Tiled, Live, Place, RoundUp;
    var i, n := FirstFit(bs, RoundUp(size)), RoundUp(size);
    FitBounds(bs, i, n, lo, hi);
    KmallocEffect(bs, i, n, lo, hi);
    assert Taken(bs[i], n)[0] in Live(bs) + {Taken(bs[i], n)[0]};
  }

  lemma FitBounds(bs: seq<Block>, i: nat, n: nat, lo: int, hi: int)
    requires Tiled(bs, lo, hi, LEGACY_HEADER) && hi - lo < TWO32 && i == FirstFit(bs, n) && i < |bs|
    ensures !bs[i].used && n <= bs[i].size < TWO32
  {
    TiledAt(bs, i, lo, hi, LEGACY_HEADER);
  }

  // ----- Runs -----

  /** `HEAP_INIT`. */
  ghost function Initial(): seq<Block> {
    [Block(HEAP_START, HEAP_END - HEAP_START - LEGACY_HEADER, false)]
  }

  datatype Op = Malloc(size: nat) | Free(ptr: int)

  /** `KMALLOC` answers 0 for 0 and when nothing fits. */
  ghost function Malloced(bs: seq<Block>, size: nat): seq<Block> {
    var i := FirstFit(bs, RoundUp(size));
    if size == 0 || i == |bs| then bs else Place(bs, i, RoundUp(size))
  }

  ghost predicate LiveAt(bs: seq<Block>, i: nat, ptr: int) {
    i < |bs| && bs[i].used && bs[i].addr + LEGACY_HEADER == ptr
  }

  ghost function Step(bs: seq<Block>, op: Op): seq<Block> {
    match op
    case Malloc(size) => Malloced(bs, size)
    case Free(ptr) =>
      if ptr != 0 && exists i :: LiveAt(bs, i, ptr) then (var i :| LiveAt(bs, i, ptr); ReleaseLocally(bs, i, LEGACY_HEADER)) else bs
  }

  /** The call does not meet a block that fits with less than a header to spare. */
  ghost predicate Spacious(bs: seq<Block>, op: Op) {
    op.Malloc? && op.size > 0 ==>
      var i := FirstFit(bs, RoundUp(op.size)); i < |bs| ==> !Wraps(bs[i].size, RoundUp(op.size))
  }

  ghost predicate HeapInv(bs: seq<Block>) {
    Tiled(bs, HEAP_START, HEAP_END, LEGACY_HEADER) && Coalesced(bs)
  }

  /** One call keeps a coalesced tiling exactly when it is spacious, and a free is then the full sweep. */
  lemma StepExact(bs: seq<Block>, op: Op)
    requires HeapInv(bs)
    ensures HeapInv(Step(bs, op)) <==> Spacious(bs, op)
    ensures forall i :: op.Free? && op.ptr != 0 && LiveAt(bs, i, op.ptr) ==> Step(bs, op) == Release(bs, i, LEGACY_HEADER)
  {
    match op
    case Malloc(size) =>
      var n, i := RoundUp(size), FirstFit(bs, RoundUp(size));
      if size > 0 && i < |bs| {
        TiledAt(bs, i, HEAP_START, HEAP_END, LEGACY_HEADER);
        KmallocTilesExactly(bs, i, n, HEAP_START, HEAP_END);
        PlaceCoalesced(bs, i, n);
      }
    case Free(ptr) =>
      if ptr != 0 && exists i :: LiveAt(bs, i, ptr) {
        var i :| LiveAt(bs, i, ptr) && Step(bs, op) == ReleaseLocally(bs, i, LEGACY_HEADER);
        LocalIsSweep(bs, i, HEAP_START, HEAP_END, LEGACY_HEADER);
        ReleaseEffect(bs, i, HEAP_START, HEAP_END, LEGACY_HEADER);
        TiledDistinct(bs, HEAP_START, HEAP_END, LEGACY_HEADER);
      }
  }

  ghost predicate SpaciousRun(bs: seq<Block>, ops: seq<Op>)
    decreases |ops|
  {
    ops == [] || (Spacious(bs, ops[0]) && SpaciousRun(Step(bs, ops[0]), ops[1..]))
  }

  ghost function Run(bs: seq<Block>, ops: seq<Op>): seq<Block>
    decreases |ops|
  {
    if ops == [] then bs else Run(Step(bs, ops[0]), ops[1..])
  }

  lemma {:induction false} RunKeeps(bs: seq<Block>, ops: seq<Op>)
    requires HeapInv(bs) && SpaciousRun(bs, ops)
    ensures HeapInv(Run(bs, ops))
    decreases |ops|
  {
    hide HeapInv, Step, Spacious;
    if ops != [] {
      StepExact(bs, ops[0]);
      RunKeeps(Step(bs, ops[0]), ops[1..]);
    }
  }

  lemma InitialInv()
    ensures HeapInv(Initial())
  {
    assert Initial()[1..] == [];
  }

  /** 20 bytes, twice, of the initial heap: blocks of 32 bytes at 2 MB and 52 bytes further on. */
  lemma FirstBlocks()
    ensures Initial() == [Block(0x20_0000, 0x20_0000 - 20, false)]
    ensures Malloced(Initial(), 20) == [Block(0x20_0000, 32, true), Block(0x20_0034, 0x20_0000 - 72, false)]
    ensures Malloced(Malloced(Initial(), 20), 20) ==
      [Block(0x20_0000, 32, true), Block(0x20_0034, 32, true), Block(0x20_0068, 0x20_0000 - 124, false)]
  {
    var s1 := [Block(0x20_0000, 32, true), Block(0x20_0034, 0x20_0000 - 72, false)];
    FirstFitUnique(Initial(), 32, 0);
    FirstFitUnique(s1, 32, 1);
  }

  /** Allocating 16 bytes twice, freeing the first block and asking for 16 bytes again breaks the tiling. */
  lemma ReuseBreaks()
    ensures var ops := [Malloc(16), Malloc(16), Free(HEAP_START + LEGACY_HEADER), Malloc(16)];
      !HeapInv(Run(Initial(), ops)) && HeapInv(Run(Initial(), ops[..3]))
  {
    var ops := [Malloc(16), Malloc(16), Free(HEAP_START + LEGACY_HEADER), Malloc(16)];
    var a, b, c := HEAP_START, HEAP_START + 36, HEAP_START + 72;
    var rest := HEAP_END - HEAP_START - LEGACY_HEADER;
    var s1 := [Block(a, 16, true), Block(b, rest - 36, false)];
    var s2 := [Block(a, 16, true), Block(b, 16, true), Block(c, rest - 72, false)];
    var s3 := [Block(a, 16, false), Block(b, 16, true), Block(c, rest - 72, false)];
    InitialInv();
    FirstFitUnique(Initial(), 16, 0);
    assert Step(Initial(), ops[0]) == s1;
    FirstFitUnique(s1, 16, 1);
    assert Step(s1, ops[1]) == s2;
    assert LiveAt(s2, 0, HEAP_START + LEGACY_HEADER);
    assert Step(s2, ops[2]) == s3;
    FirstFitUnique(s3, 16, 0);
    assert Wraps(s3[0].size, 16);
    StepExact(Initial(), ops[0]);
    StepExact(s1, ops[1]);
    StepExact(s2, ops[2]);
    StepExact(s3, ops[3]);
    RunFour(Initial(), ops);
  }

  lemma RunFour(bs: seq<Block>, ops: seq<Op>)
    requires |ops| == 4
    ensures Run(bs, ops[..3]) == Step(Step(Step(bs, ops[0]), ops[1]), ops[2])
    ensures Run(bs, ops) == Step(Run(bs, ops[..3]), ops[3])
  {
    hide Step;
    var o := ops[..3];
    assert o[1..] == [ops[1], ops[2]] && o[1..][1..] == [ops[2]] && [ops[2]][1..] == [];
    assert ops[1..][1..] == [ops[2], ops[3]] && ops[1..][1..][1..] == [ops[3]] && [ops[3]][1..] == [];
    var s1 := Step(bs, ops[0]);
    var s2 := Step(s1, ops[1]);
    assert Run(s1, o[1..]) == Run(s2, [ops[2]]);
    assert Run(s2, [ops[2]]) == Run(Step(s2, ops[2]), []);
    assert Run(s1, ops[1..]) == Run(s2, [ops[2], ops[3]]);
    assert [ops[2], ops[3]][1..] == [ops[3]];
    assert Run(s2, [ops[2], ops[3]]) == Run(Step(s2, ops[2]), [ops[3]]);
    assert Run(Step(s2, ops[2]), [ops[3]]) == Run(Step(Step(s2, ops[2]), ops[3]), []);
  }
}
