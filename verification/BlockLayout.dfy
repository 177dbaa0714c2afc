/** A heap as the sequence of its blocks in address order, and what first fit, splitting, freeing and coalescing do
    to it. The header size `h` is a parameter: 16 bytes in the kernel's heap, 20 in its predecessor's. */
module BlockLayout {
  /** Header sizes, of the kernel's heap and of its predecessor's. */
  const HEADER := 16
  const LEGACY_HEADER := 20

  datatype Block = Block(addr: int, size: int, used: bool)

  // ----- Tiling -----

  /** The blocks, headers included, fill [lo, hi) without gap or overlap. */
  ghost predicate Tiled(bs: seq<Block>, lo: int, hi: int, h: nat) {
    if bs == [] then lo == hi
    else bs[0].addr == lo && bs[0].size >= 0 && Tiled(bs[1..], lo + h + bs[0].size, hi, h)
  }

  ghost function Span(bs: seq<Block>, h: nat): int {
    if bs == [] then 0 else h + bs[0].size + Span(bs[1..], h)
  }

  lemma {:induction false} TiledAppend(a: seq<Block>, b: seq<Block>, lo: int, hi: int, h: nat)
    ensures Tiled(a + b, lo, hi, h) <==> Tiled(a, lo, lo + Span(a, h), h) && Tiled(b, lo + Span(a, h), hi, h)
  {
    if a == [] {
      assert a + b == b;
    } else {
      assert (a + b)[1..] == a[1..] + b;
      TiledAppend(a[1..], b, lo + h + a[0].size, hi, h);
    }
  }

  lemma {:induction false} TiledSpan(bs: seq<Block>, lo: int, hi: int, h: nat)
    requires Tiled(bs, lo, hi, h)
    ensures hi == lo + Span(bs, h) && lo <= hi
  {
    if bs != [] { TiledSpan(bs[1..], lo + h + bs[0].size, hi, h); }
  }

  /** A tiling cut at block `i`. */
  lemma TiledAt(bs: seq<Block>, i: nat, lo: int, hi: int, h: nat)
    requires Tiled(bs, lo, hi, h) && i < |bs|
    ensures var b := bs[i];
      && Tiled(bs[..i], lo, b.addr, h) && b.size >= 0 && lo <= b.addr
      && Tiled(bs[i + 1..], b.addr + h + b.size, hi, h) && b.addr + h + b.size <= hi
  {
    assert bs == bs[..i] + bs[i..];
    assert bs[i..][1..] == bs[i + 1..];
    TiledAppend(bs[..i], bs[i..], lo, hi, h);
    TiledSpan(bs[..i], lo, lo + Span(bs[..i], h), h);
    TiledSpan(bs[i + 1..], bs[i].addr + h + bs[i].size, hi, h);
  }

  lemma TiledJoin(a: seq<Block>, b: seq<Block>, lo: int, mid: int, hi: int, h: nat)
    requires Tiled(a, lo, mid, h) && Tiled(b, mid, hi, h)
    ensures Tiled(a + b, lo, hi, h)
  {
    TiledSpan(a, lo, mid, h);
    TiledAppend(a, b, lo, hi, h);
  }

  /** Blocks do not overlap, headers included. */
  lemma TiledSpaced(bs: seq<Block>, i: nat, j: nat, lo: int, hi: int, h: nat)
    requires Tiled(bs, lo, hi, h) && i < j < |bs|
    ensures bs[i].addr + h + bs[i].size <= bs[j].addr
    ensures j == i + 1 ==> bs[i].addr + h + bs[i].size == bs[j].addr
  {
    TiledAt(bs, i, lo, hi, h);
    TiledAt(bs[i + 1..], j - i - 1, bs[i].addr + h + bs[i].size, hi, h);
  }

  lemma TiledDistinct(bs: seq<Block>, lo: int, hi: int, h: nat)
    requires Tiled(bs, lo, hi, h) && h > 0
    ensures forall i, j :: 0 <= i < |bs| && 0 <= j < |bs| && bs[i].addr == bs[j].addr ==> i == j
  {
    forall i, j | 0 <= i < |bs| && 0 <= j < |bs| && i < j
      ensures bs[i].addr < bs[j].addr
    {
      TiledSpaced(bs, i, j, lo, hi, h);
      TiledAt(bs, i, lo, hi, h);
    }
  }

  // ----- The free list and the live blocks -----

  /** The addresses of the free blocks, in address order. */
  ghost function FreeAddrs(bs: seq<Block>): seq<int> {
    if bs == [] then []
    else (if bs[0].used then [] else [bs[0].addr]) + FreeAddrs(bs[1..])
  }

  ghost function Live(bs: seq<Block>): set<Block> {
    set b | b in bs && b.used
  }

  /** The bytes in used blocks. */
  ghost function LiveBytes(bs: seq<Block>): int {
    if bs == [] then 0 else (if bs[0].used then bs[0].size else 0) + LiveBytes(bs[1..])
  }

  lemma {:induction false} FreeAppend(a: seq<Block>, b: seq<Block>)
    ensures FreeAddrs(a + b) == FreeAddrs(a) + FreeAddrs(b)
  {
    if a == [] {
      assert a + b == b;
    } else {
      assert (a + b)[1..] == a[1..] + b;
      FreeAppend(a[1..], b);
    }
  }

  lemma {:induction false} BytesAppend(a: seq<Block>, b: seq<Block>)
    ensures LiveBytes(a + b) == LiveBytes(a) + LiveBytes(b)
  {
    if a == [] {
      assert a + b == b;
    } else {
      assert (a + b)[1..] == a[1..] + b;
      BytesAppend(a[1..], b);
    }
  }

  lemma LiveAppend(a: seq<Block>, b: seq<Block>)
    ensures Live(a + b) == Live(a) + Live(b)
  {
  }

  // ----- First fit and splitting -----

  /** The lowest free block of at least `n` bytes, or the length when none fits. */
  ghost function FirstFit(bs: seq<Block>, n: int): (i: nat)
    ensures i <= |bs|
    ensures i < |bs| ==> !bs[i].used && bs[i].size >= n
    ensures forall j :: 0 <= j < i ==> bs[j].used || bs[j].size < n
  {
    if bs == [] || (!bs[0].used && bs[0].size >= n) then 0
    else
      var k := FirstFit(bs[1..], n);
      assert forall j :: 1 <= j < |bs| ==> bs[j] == bs[1..][j - 1];
      k + 1
  }

  lemma FirstFitUnique(bs: seq<Block>, n: int, i: nat)
    requires i <= |bs| && (i < |bs| ==> !bs[i].used && bs[i].size >= n)
    requires forall j :: 0 <= j < i ==> bs[j].used || bs[j].size < n
    ensures FirstFit(bs, n) == i
  {
  }

  /** The smallest payload a split leaves behind. */
  const MIN_SPLIT := 16

  predicate Splits(size: int, n: int, h: nat) {
    size - n >= h + MIN_SPLIT
  }

  /** What a block becomes when `n` bytes of it are taken: itself, or itself and a free remainder. */
  ghost function Taken(b: Block, n: int, h: nat): seq<Block> {
    if Splits(b.size, n, h)
    then [Block(b.addr, n, true), Block(b.addr + h + n, b.size - n - h, false)]
    else [Block(b.addr, b.size, true)]
  }

  ghost function Place(bs: seq<Block>, i: nat, n: int, h: nat): seq<Block>
    requires i < |bs|
  {
    bs[..i] + Taken(bs[i], n, h) + bs[i + 1..]
  }

  lemma TakenTiled(b: Block, n: int, h: nat)
    requires 0 <= n <= b.size
    ensures Tiled(Taken(b, n, h), b.addr, b.addr + h + b.size, h)
  {
    var t := Taken(b, n, h);
    if Splits(b.size, n, h) {
      assert t[1..] == [t[1]];
      assert Tiled([t[1]], t[1].addr, t[1].addr + h + t[1].size, h);
    }
  }

  /** Taking a block changes the live set by exactly the block taken, which is big enough. */
  lemma PlaceEffect(bs: seq<Block>, i: nat, n: int, lo: int, hi: int, h: nat)
    requires Tiled(bs, lo, hi, h) && h > 0 && i < |bs| && !bs[i].used && 0 <= n <= bs[i].size
    ensures var got := Taken(bs[i], n, h)[0];
      && Tiled(Place(bs, i, n, h), lo, hi, h)
      && got.addr == bs[i].addr && got.used && n <= got.size && got.size <= bs[i].size
      && got !in Live(bs) && Live(Place(bs, i, n, h)) == Live(bs) + {got}
      && LiveBytes(Place(bs, i, n, h)) == LiveBytes(bs) + got.size
      && |Place(bs, i, n, h)| == |bs| + (if Splits(bs[i].size, n, h) then 1 else 0)
  {
    var pre, b, post := bs[..i], bs[i], bs[i + 1..];
    var t := Taken(b, n, h);
    TiledAt(bs, i, lo, hi, h);
    TakenTiled(b, n, h);
    TiledJoin(pre, t, lo, b.addr, b.addr + h + b.size, h);
    TiledJoin(pre + t, post, lo, b.addr + h + b.size, hi, h);
    assert bs == pre + [b] + post;
    TiledDistinct(bs, lo, hi, h);
    BytesAppend(pre, t);
    BytesAppend(pre + t, post);
    BytesAppend(pre, [b]);
    BytesAppend(pre + [b], post);
    assert LiveBytes([b]) == 0;
    TakenBytes(b, n, h);
  }

  lemma TakenBytes(b: Block, n: int, h: nat)
    ensures LiveBytes(Taken(b, n, h)) == Taken(b, n, h)[0].size
  {
    var t := Taken(b, n, h);
    if Splits(b.size, n, h) {
      assert t[1..] == [t[1]];
      assert LiveBytes([t[1]]) == 0;
    } else {
      assert t[1..] == [];
    }
  }

  // ----- Coalescing -----

  ghost function Merge(a: Block, b: Block, h: nat): Block {
    Block(a.addr, a.size + h + b.size, false)
  }

  /** The whole-list sweep: every run of neighbouring free blocks becomes one block. */
  ghost function Coalesce(bs: seq<Block>, h: nat): seq<Block>
    decreases |bs|
  {
    if |bs| < 2 then bs
    else if !bs[0].used && !bs[1].used then Coalesce([Merge(bs[0], bs[1], h)] + bs[2..], h)
    else [bs[0]] + Coalesce(bs[1..], h)
  }

  /** No two neighbours are both free. */
  ghost predicate Coalesced(bs: seq<Block>) {
    forall i {:trigger bs[i].used} :: 0 <= i < |bs| - 1 ==> bs[i].used || bs[i + 1].used
  }

  lemma {:induction false} CoalesceTiled(bs: seq<Block>, lo: int, hi: int, h: nat)
    requires Tiled(bs, lo, hi, h)
    ensures Tiled(Coalesce(bs, h), lo, hi, h)
    decreases |bs|
  {
    if |bs| < 2 {
    } else if !bs[0].used && !bs[1].used {
      var m := [Merge(bs[0], bs[1], h)] + bs[2..];
      assert bs[1..][1..] == bs[2..] && m[1..] == bs[2..];
      CoalesceTiled(m, lo, hi, h);
    } else {
      CoalesceTiled(bs[1..], lo + h + bs[0].size, hi, h);
      assert ([bs[0]] + Coalesce(bs[1..], h))[1..] == Coalesce(bs[1..], h);
    }
  }

  lemma {:induction false} CoalesceLive(bs: seq<Block>, h: nat)
    ensures Live(Coalesce(bs, h)) == Live(bs) && LiveBytes(Coalesce(bs, h)) == LiveBytes(bs)
    decreases |bs|
  {
    if |bs| < 2 {
    } else if !bs[0].used && !bs[1].used {
      var m := [Merge(bs[0], bs[1], h)] + bs[2..];
      assert bs == [bs[0], bs[1]] + bs[2..] && m[1..] == bs[2..] && bs[1..][1..] == bs[2..];
      assert Live(m) == Live(bs[2..]) && Live(bs) == Live(bs[2..]);
      CoalesceLive(m, h);
    } else {
      var rest := Coalesce(bs[1..], h);
      assert bs == [bs[0]] + bs[1..] && ([bs[0]] + rest)[1..] == rest;
      CoalesceLive(bs[1..], h);
      LiveAppend([bs[0]], bs[1..]);
      LiveAppend([bs[0]], rest);
    }
  }

  lemma {:induction false} CoalesceCoalesced(bs: seq<Block>, h: nat)
    ensures Coalesced(Coalesce(bs, h))
    ensures bs != [] ==> Coalesce(bs, h) != [] && Coalesce(bs, h)[0].used == bs[0].used && Coalesce(bs, h)[0].addr == bs[0].addr
    decreases |bs|
  {
    if |bs| < 2 {
    } else if !bs[0].used && !bs[1].used {
      CoalesceCoalesced([Merge(bs[0], bs[1], h)] + bs[2..], h);
    } else {
      CoalesceCoalesced(bs[1..], h);
      var rest := Coalesce(bs[1..], h);
      var all := [bs[0]] + rest;
      forall i {:trigger all[i].used} | 0 <= i < |all| - 1
        ensures all[i].used || all[i + 1].used
      {
        if i > 0 { assert rest[i - 1].used || rest[i].used; }
      }
    }
  }

  /** The sweep swallows no free block: a free block at least as big lies over it afterwards. */
  lemma {:induction false} CoalesceCovers(bs: seq<Block>, i: nat, lo: int, hi: int, h: nat) returns (k: nat)
    requires Tiled(bs, lo, hi, h) && i < |bs| && !bs[i].used
    ensures var c := Coalesce(bs, h); k < |c| && !c[k].used && c[k].size >= bs[i].size
    ensures i == 0 ==> k == 0
    decreases |bs|
  {
    if |bs| < 2 {
      return i;
    }
    assert bs[1..][1..] == bs[2..];
    if !bs[0].used && !bs[1].used {
      var m := [Merge(bs[0], bs[1], h)] + bs[2..];
      assert m[1..] == bs[2..];
      k := CoalesceCovers(m, if i <= 1 then 0 else i - 1, lo, hi, h);
    } else if i == 0 {
      k := 0;
    } else {
      k := CoalesceCovers(bs[1..], i - 1, lo + h + bs[0].size, hi, h);
      k := k + 1;
    }
  }

  lemma SweepMerges(bs: seq<Block>, h: nat)
    requires |bs| >= 2 && !bs[0].used && !bs[1].used
    ensures Coalesce(bs, h) == Coalesce([Merge(bs[0], bs[1], h)] + bs[2..], h)
  {
  }

  lemma SweepPasses(bs: seq<Block>, h: nat)
    requires bs != [] && (|bs| > 1 ==> bs[0].used || bs[1].used)
    ensures Coalesce(bs, h) == [bs[0]] + Coalesce(bs[1..], h)
  {
    if |bs| == 1 { assert bs == [bs[0]] && bs[1..] == []; }
  }

  lemma MergedSlices(bs: seq<Block>, j: nat, h: nat)
    requires 2 < j <= |bs|
    ensures var m := [Merge(bs[0], bs[1], h)] + bs[2..];
      m[..j - 1] == [Merge(bs[0], bs[1], h)] + bs[..j][2..] && m[j - 1..] == bs[j..] && m[j - 2] == bs[j - 1]
  {
  }

  lemma PassedSlices(bs: seq<Block>, j: nat)
    requires 0 < j <= |bs|
    ensures bs[1..][..j - 1] == bs[..j][1..] && bs[1..][j - 1..] == bs[j..] && (j > 1 ==> bs[1..][j - 2] == bs[j - 1])
  {
  }

  lemma Reassociate(a: seq<Block>, b: seq<Block>, c: seq<Block>)
    ensures a + (b + c) == (a + b) + c
  {
  }

  /** Behind a used block the sweep starts afresh. */
  lemma {:induction false} CoalesceCut(bs: seq<Block>, j: nat, h: nat)
    requires j <= |bs| && (j > 0 ==> bs[j - 1].used)
    ensures Coalesce(bs, h) == Coalesce(bs[..j], h) + Coalesce(bs[j..], h)
    decreases |bs|
  {
    if j == 0 {
      assert bs[..0] == [] && bs[0..] == bs;
    } else if |bs| > 1 && !bs[0].used && !bs[1].used {
      hide Coalesce;
      var m := [Merge(bs[0], bs[1], h)] + bs[2..];
      SweepMerges(bs, h);
      SweepMerges(bs[..j], h);
      MergedSlices(bs, j, h);
      CoalesceCut(m, j - 1, h);
    } else {
      hide Coalesce;
      SweepPasses(bs, h);
      SweepPasses(bs[..j], h);
      PassedSlices(bs, j);
      CoalesceCut(bs[1..], j - 1, h);
      Reassociate([bs[0]], Coalesce(bs[..j][1..], h), Coalesce(bs[j..], h));
    }
  }

  /** A block of the sweep's result starts where one of the blocks starts that is used, is the first, or follows a used
      one. */
  lemma {:induction false} CoalesceStart(bs: seq<Block>, k: nat, h: nat) returns (i: nat)
    requires k < |Coalesce(bs, h)|
    ensures i < |bs| && bs[i].addr == Coalesce(bs, h)[k].addr && (i == 0 || bs[i - 1].used || bs[i].used)
    decreases |bs|
  {
    if |bs| < 2 {
      return k;
    }
    if !bs[0].used && !bs[1].used {
      i := CoalesceStart([Merge(bs[0], bs[1], h)] + bs[2..], k, h);
      i := if i == 0 then 0 else i + 1;
    } else if k == 0 {
      i := 0;
    } else {
      i := CoalesceStart(bs[1..], k - 1, h);
      i := i + 1;
    }
  }

  /** A coalesced tiling is determined by its live blocks: how they came about leaves no trace. */
  lemma {:induction false} Canonical(a: seq<Block>, b: seq<Block>, lo: int, hi: int, h: nat)
    requires h > 0 && Tiled(a, lo, hi, h) && Tiled(b, lo, hi, h)
    requires Coalesced(a) && Coalesced(b) && Live(a) == Live(b)
    ensures a == b
    decreases |a|
  {
    if a == [] {
      TiledSpan(b, lo, hi, h);
      if b != [] { TiledAt(b, 0, lo, hi, h); }
    } else if b == [] {
      TiledAt(a, 0, lo, hi, h);
    } else {
      SameHead(a, b, lo, hi, h);
      LiveTail(a, lo, hi, h);
      LiveTail(b, lo, hi, h);
      CoalescedTail(a);
      CoalescedTail(b);
      Canonical(a[1..], b[1..], lo + h + a[0].size, hi, h);
      assert a == [a[0]] + a[1..] && b == [b[0]] + b[1..];
    }
  }

  lemma CoalescedTail(bs: seq<Block>)
    requires Coalesced(bs) && bs != []
    ensures Coalesced(bs[1..])
  {
    forall i {:trigger bs[1..][i].used} | 0 <= i < |bs| - 2
      ensures bs[1..][i].used || bs[1..][i + 1].used
    {
      assert bs[i + 1].used || bs[i + 2].used;
    }
  }

  lemma LiveTail(bs: seq<Block>, lo: int, hi: int, h: nat)
    requires h > 0 && Tiled(bs, lo, hi, h) && bs != []
    ensures Live(bs[1..]) == Live(bs) - {bs[0]}
  {
    TiledDistinct(bs, lo, hi, h);
    assert bs == [bs[0]] + bs[1..];
    forall b | b in bs[1..]
      ensures b != bs[0]
    {
      var k :| 0 <= k < |bs[1..]| && bs[1..][k] == b;
      assert bs[k + 1] == b;
    }
  }

  /** The first blocks agree: a used one is live on both sides, and a free one ends where the next live one starts. */
  lemma SameHead(a: seq<Block>, b: seq<Block>, lo: int, hi: int, h: nat)
    requires h > 0 && Tiled(a, lo, hi, h) && Tiled(b, lo, hi, h) && a != [] && b != []
    requires Coalesced(a) && Coalesced(b) && Live(a) == Live(b)
    ensures a[0] == b[0]
  {
    HeadBound(a, b, lo, hi, h);
    HeadBound(b, a, lo, hi, h);
  }

  lemma HeadBound(a: seq<Block>, b: seq<Block>, lo: int, hi: int, h: nat)
    requires h > 0 && Tiled(a, lo, hi, h) && Tiled(b, lo, hi, h) && a != [] && b != []
    requires Coalesced(a) && Live(a) == Live(b)
    ensures a[0].used ==> a[0] == b[0]
    ensures !a[0].used && !b[0].used ==> b[0].size <= a[0].size
  {
    if a[0].used {
      assert a[0] in Live(b);
      var k :| 0 <= k < |b| && b[k] == a[0];
      TiledDistinct(b, lo, hi, h);
    } else if !b[0].used {
      TiledAt(b, 0, lo, hi, h);
      if |a| == 1 {
        assert a[1..] == [];
      } else {
        assert a[0].used || a[1].used;
        TiledSpaced(a, 0, 1, lo, hi, h);
        assert a[1] in Live(b);
        var k :| 0 <= k < |b| && b[k] == a[1];
        TiledSpaced(b, 0, k, lo, hi, h);
      }
    }
  }

  /** With nothing live the heap is one free block. */
  lemma AllFree(bs: seq<Block>, lo: int, hi: int, h: nat)
    requires h > 0 && Tiled(bs, lo, hi, h) && Coalesced(bs) && Live(bs) == {} && lo + h <= hi
    ensures bs == [Block(lo, hi - lo - h, false)]
  {
    var one := [Block(lo, hi - lo - h, false)];
    assert one[1..] == [];
    assert Live(one) == {};
    Canonical(bs, one, lo, hi, h);
  }

  // ----- Freeing -----

  ghost function Freed(bs: seq<Block>, i: nat): seq<Block>
    requires i < |bs|
  {
    bs[i := bs[i].(used := false)]
  }

  /** Mark, then sweep. */
  ghost function Release(bs: seq<Block>, i: nat, h: nat): seq<Block>
    requires i < |bs|
  {
    Coalesce(Freed(bs, i), h)
  }

  lemma FreedEffect(bs: seq<Block>, i: nat, lo: int, hi: int, h: nat)
    requires h > 0 && Tiled(bs, lo, hi, h) && i < |bs| && bs[i].used
    ensures Tiled(Freed(bs, i), lo, hi, h)
    ensures Live(Freed(bs, i)) == Live(bs) - {bs[i]} && LiveBytes(Freed(bs, i)) == LiveBytes(bs) - bs[i].size
  {
    var pre, b, post := bs[..i], bs[i], bs[i + 1..];
    var f := b.(used := false);
    assert bs == pre + [b] + post && Freed(bs, i) == pre + [f] + post;
    TiledAt(bs, i, lo, hi, h);
    assert [f][1..] == [];
    TiledJoin(pre, [f], lo, b.addr, b.addr + h + b.size, h);
    TiledJoin(pre + [f], post, lo, b.addr + h + b.size, hi, h);
    TiledDistinct(bs, lo, hi, h);
    BytesAppend(pre, [b]);
    BytesAppend(pre + [b], post);
    BytesAppend(pre, [f]);
    BytesAppend(pre + [f], post);
  }

  lemma ReleaseEffect(bs: seq<Block>, i: nat, lo: int, hi: int, h: nat)
    requires h > 0 && Tiled(bs, lo, hi, h) && i < |bs| && bs[i].used
    ensures var bs' := Release(bs, i, h);
      && Tiled(bs', lo, hi, h) && Coalesced(bs')
      && Live(bs') == Live(bs) - {bs[i]} && LiveBytes(bs') == LiveBytes(bs) - bs[i].size
  {
    FreedEffect(bs, i, lo, hi, h);
    CoalesceTiled(Freed(bs, i), lo, hi, h);
    CoalesceLive(Freed(bs, i), h);
    CoalesceCoalesced(Freed(bs, i), h);
  }

  // ----- Local coalescing -----

  /** Merge the block at `i` with its right neighbour when that is free. */
  ghost function MergeRight(bs: seq<Block>, i: nat, h: nat): seq<Block>
    requires i < |bs| && !bs[i].used
  {
    if i + 1 < |bs| && !bs[i + 1].used then bs[..i] + [Merge(bs[i], bs[i + 1], h)] + bs[i + 2..] else bs
  }

  /** Merge the block at `i` into its left neighbour when that is free. */
  ghost function MergeLeft(bs: seq<Block>, i: nat, h: nat): seq<Block>
    requires i < |bs| && !bs[i].used
  {
    if i > 0 && !bs[i - 1].used then bs[..i - 1] + [Merge(bs[i - 1], bs[i], h)] + bs[i + 1..] else bs
  }

  /** Mark, then look right and left only. */
  ghost function ReleaseLocally(bs: seq<Block>, i: nat, h: nat): seq<Block>
    requires i < |bs|
  {
    MergeLeft(MergeRight(Freed(bs, i), i, h), i, h)
  }

  /** Sweeping again changes nothing. */
  lemma {:induction false} CoalescedFixed(bs: seq<Block>, h: nat)
    requires Coalesced(bs)
    ensures Coalesce(bs, h) == bs
    decreases |bs|
  {
    if |bs| >= 2 {
      assert bs[0].used || bs[1].used;
      CoalescedTail(bs);
      CoalescedFixed(bs[1..], h);
      assert bs == [bs[0]] + bs[1..];
    }
  }

  /** On a heap that was coalesced, the two local merges do what the whole sweep does. */
  lemma LocalIsSweep(bs: seq<Block>, i: nat, lo: int, hi: int, h: nat)
    requires h > 0 && Tiled(bs, lo, hi, h) && Coalesced(bs) && i < |bs| && bs[i].used
    ensures ReleaseLocally(bs, i, h) == Release(bs, i, h)
  {
    var f := Freed(bs, i);
    var r := MergeRight(f, i, h);
    var l := MergeLeft(r, i, h);
    FreedEffect(bs, i, lo, hi, h);
    MergeRightEffect(f, i, lo, hi, h);
    MergeLeftEffect(r, i, lo, hi, h);
    ReleaseEffect(bs, i, lo, hi, h);
    LocalCoalesced(bs, i, h);
    Canonical(l, Release(bs, i, h), lo, hi, h);
  }

  lemma MergeRightEffect(bs: seq<Block>, i: nat, lo: int, hi: int, h: nat)
    requires h > 0 && Tiled(bs, lo, hi, h) && i < |bs| && !bs[i].used
    ensures Tiled(MergeRight(bs, i, h), lo, hi, h) && Live(MergeRight(bs, i, h)) == Live(bs)
    ensures i < |MergeRight(bs, i, h)| && !MergeRight(bs, i, h)[i].used
  {
    if i + 1 < |bs| && !bs[i + 1].used {
      MergePair(bs, i, lo, hi, h);
    }
  }

  lemma MergeLeftEffect(bs: seq<Block>, i: nat, lo: int, hi: int, h: nat)
    requires h > 0 && Tiled(bs, lo, hi, h) && i < |bs| && !bs[i].used
    ensures Tiled(MergeLeft(bs, i, h), lo, hi, h) && Live(MergeLeft(bs, i, h)) == Live(bs)
  {
    if i > 0 && !bs[i - 1].used {
      MergePair(bs, i - 1, lo, hi, h);
    }
  }

  ghost function Merged(bs: seq<Block>, i: nat, h: nat): seq<Block>
    requires i + 1 < |bs|
  {
    bs[..i] + [Merge(bs[i], bs[i + 1], h)] + bs[i + 2..]
  }

  lemma MergePair(bs: seq<Block>, i: nat, lo: int, hi: int, h: nat)
    requires h > 0 && Tiled(bs, lo, hi, h) && i + 1 < |bs| && !bs[i].used && !bs[i + 1].used
    ensures Tiled(Merged(bs, i, h), lo, hi, h) && Live(Merged(bs, i, h)) == Live(bs)
    ensures LiveBytes(Merged(bs, i, h)) == LiveBytes(bs)
  {
    var pre, a, b, post := bs[..i], bs[i], bs[i + 1], bs[i + 2..];
    var m := Merge(a, b, h);
    assert bs == pre + [a, b] + post;
    TiledAt(bs, i, lo, hi, h);
    TiledAt(bs, i + 1, lo, hi, h);
    TiledSpaced(bs, i, i + 1, lo, hi, h);
    assert [m][1..] == [];
    TiledJoin(pre, [m], lo, a.addr, b.addr + h + b.size, h);
    TiledJoin(pre + [m], post, lo, b.addr + h + b.size, hi, h);
    BytesAppend(pre, [a, b]);
    BytesAppend(pre + [a, b], post);
    BytesAppend(pre, [m]);
    BytesAppend(pre + [m], post);
    assert [a, b][1..] == [b];
    assert LiveBytes([a, b]) == LiveBytes([b]) == 0;
  }

  lemma LocalCoalesced(bs: seq<Block>, i: nat, h: nat)
    requires Coalesced(bs) && i < |bs| && bs[i].used
    ensures Coalesced(ReleaseLocally(bs, i, h))
  {
    var f := Freed(bs, i);
    var r := MergeRight(f, i, h);
    var l := MergeLeft(r, i, h);
    forall k {:trigger r[k].used} | 0 <= k < |r| - 1 && k + 1 != i
      ensures r[k].used || r[k + 1].used
    {
      var src := if k < i || r == f then k else k + 1;
      assert bs[src].used || bs[src + 1].used;
      if r != f && k == i && i + 2 < |bs| { assert bs[i + 1].used || bs[i + 2].used; }
    }
    forall k {:trigger l[k].used} | 0 <= k < |l| - 1
      ensures l[k].used || l[k + 1].used
    {
      if l != r {
        if k + 1 < i {
          assert r[k].used || r[k + 1].used;
          if k + 2 == i { assert bs[k].used || bs[k + 1].used; }
        } else {
          assert r[k + 1].used || r[k + 2].used;
        }
      } else {
        assert r[k].used || r[k + 1].used;
      }
    }
  }
}
