/** The two lists of the predecessor's heap in memory, and what its writes do to them. */
module LegacyLists {
  import opened BlockLayout
  import opened FreeList
  import opened HeapMemory
  import LegacyHeap

  // ----- The used list: doubly linked, in no particular order -----

  ghost predicate Chained(m: Mem, u: seq<int>) {
    && (forall k :: 0 <= k < |u| ==> u[k] >= LEGACY_HEADER)
    && (forall i, j :: 0 <= i < j < |u| ==> Clear(u[i], u[j], LEGACY))
    && (forall k :: 0 <= k < |u| ==> Node(m, u, k, LEGACY))
  }

  lemma ChainFrame(m: Mem, m': Mem, u: seq<int>, ws: set<int>)
    requires Chained(m, u) && SameExcept(m, m', ws) && LinksClear(u, ws, LEGACY)
    ensures Chained(m', u)
  {
    forall k | 0 <= k < |u|
      ensures Node(m', u, k, LEGACY)
    {
      assert Node(m, u, k, LEGACY);
    }
  }

  lemma ChainRemove(m: Mem, m': Mem, u: seq<int>, k: nat)
    requires Chained(m, u) && k < |u|
    requires SameExcept(m, m', {At(u, k - 1) + 12, At(u, k + 1) + 16})
    requires k > 0 ==> Holds(m', u[k - 1] + 12, At(u, k + 1))
    requires k + 1 < |u| ==> Holds(m', u[k + 1] + 16, At(u, k - 1))
    ensures Chained(m', Removed(u, k))
  {
    hide Holds, SameExcept;
    var g := Removed(u, k);
    forall i | 0 <= i < |g|
      ensures Node(m', g, i, LEGACY)
    {
      RemovedAt(u, k, i);
      ChainRemoveNode(m, m', u, k, if i < k then i else i + 1);
    }
    ChainApart(m, u, k);
  }

  lemma ChainApart(m: Mem, u: seq<int>, k: nat)
    requires Chained(m, u) && k < |u|
    ensures var g := Removed(u, k);
      && (forall i :: 0 <= i < |g| ==> g[i] >= LEGACY_HEADER)
      && (forall i, j :: 0 <= i < j < |g| ==> Clear(g[i], g[j], LEGACY))
  {
    var g := Removed(u, k);
    forall i, j | 0 <= i < j < |g|
      ensures Clear(g[i], g[j], LEGACY)
    {
      assert g[i] == u[if i < k then i else i + 1];
      assert g[j] == u[if j < k then j else j + 1];
    }
  }

  lemma ChainRemoveNode(m: Mem, m': Mem, u: seq<int>, k: nat, j: nat)
    requires Chained(m, u) && k < |u| && j < |u| && j != k
    requires SameExcept(m, m', {At(u, k - 1) + 12, At(u, k + 1) + 16})
    requires k > 0 ==> Holds(m', u[k - 1] + 12, At(u, k + 1))
    requires k + 1 < |u| ==> Holds(m', u[k + 1] + 16, At(u, k - 1))
    ensures Holds(m', u[j] + 12, if j + 1 == k then At(u, k + 1) else At(u, j + 1))
    ensures Holds(m', u[j] + 16, if j == k + 1 then At(u, k - 1) else At(u, j - 1))
  {
    assert Node(m, u, j, LEGACY);
    assert k > 0 && j != k - 1 ==> Clear(u[j], u[k - 1], LEGACY);
    assert k + 1 < |u| && j != k + 1 ==> Clear(u[j], u[k + 1], LEGACY);
  }

  ghost predicate IsUsedAddr(bs: seq<Block>, x: int) {
    exists i :: 0 <= i < |bs| && bs[i].used && bs[i].addr == x
  }

  /** The used list holds the addresses of exactly the used blocks. */
  ghost predicate ListsUsed(bs: seq<Block>, u: seq<int>) {
    && (forall k :: 0 <= k < |u| ==> IsUsedAddr(bs, u[k]))
    && (forall i :: 0 <= i < |bs| && bs[i].used ==> bs[i].addr in u)
  }

  ghost predicate MagicShown(m: Mem, bs: seq<Block>) {
    forall i :: 0 <= i < |bs| ==> Holds(m, bs[i].addr, 0xDEAD_BEEF)
  }

  // ----- Blocks before and after -----

  /** The last free block before `i`, or -1. */
  ghost function PrevFree(bs: seq<Block>, i: nat): (j: int)
    requires i <= |bs|
    ensures -1 <= j < i
    ensures j >= 0 ==> !bs[j].used
    ensures forall k :: j < k < i ==> bs[k].used
  {
    if i == 0 then -1 else if !bs[i - 1].used then i - 1 else PrevFree(bs, i - 1)
  }

  lemma {:induction false} PrevIsLast(bs: seq<Block>, i: nat)
    requires i <= |bs|
    ensures var a := FreeAddrs(bs[..i]);
      At(a, |a| - 1) == if PrevFree(bs, i) >= 0 then bs[PrevFree(bs, i)].addr else 0
  {
    if i > 0 {
      var b := bs[i - 1];
      assert bs[..i] == bs[..i - 1] + [b];
      FreeAppend(bs[..i - 1], [b]);
      assert [b][1..] == [];
      if b.used {
        assert FreeAddrs([b]) == [];
        PrevIsLast(bs, i - 1);
      } else {
        assert FreeAddrs([b]) == [b.addr];
      }
    }
  }

  lemma PrevLink(m: Mem, bs: seq<Block>, i: nat, sh: Shape)
    requires Linked(m, FreeAddrs(bs), sh) && i < |bs| && !bs[i].used
    ensures Holds(m, bs[i].addr + sh.prev, if PrevFree(bs, i) >= 0 then bs[PrevFree(bs, i)].addr else 0)
  {
    hide FreeAddrs, Removed, Linked;
    FreeAt(bs, i);
    Cut(FreeAddrs(bs[..i]), bs[i].addr, FreeAddrs(bs[i + 1..]));
    PrevIsLast(bs, i);
    LinkedNode(m, FreeAddrs(bs), ListIndex(bs, i), sh);
  }

  /** The last free block before `i` ends at `i` exactly when it is the left neighbour. */
  lemma PrevIsNeighbour(bs: seq<Block>, i: nat, lo: int, hi: int, h: nat)
    requires Tiled(bs, lo, hi, h) && h > 0 && i < |bs| && PrevFree(bs, i) >= 0
    ensures var p := bs[PrevFree(bs, i)];
      p.addr + h + p.size == bs[i].addr <==> PrevFree(bs, i) == i - 1
  {
    var j := PrevFree(bs, i);
    TiledSpaced(bs, j, i, lo, hi, h);
    if j < i - 1 {
      TiledSpaced(bs, j, j + 1, lo, hi, h);
      TiledSpaced(bs, j + 1, i, lo, hi, h);
      TiledAt(bs, j + 1, lo, hi, h);
    }
  }

  lemma MergeRightStays(bs: seq<Block>, i: nat)
    requires i < |bs| && !bs[i].used
    ensures var r := MergeRight(bs, i, LEGACY_HEADER); i < |r| && r[i].addr == bs[i].addr && !r[i].used
  {
  }

  // ----- What the two lists and the magic words survive -----

  /** A word of a free block other than its magic word. */
  predicate FreeWord(b: Block, w: int) {
    !b.used && (b.addr + 4 <= w < b.addr + LEGACY_HEADER || b.addr + LEGACY_HEADER <= w < b.addr + LEGACY_HEADER + b.size)
  }

  /** Words of free blocks other than their magic words, or words of the null page. */
  ghost predicate FreeWords(bs: seq<Block>, ws: set<int>) {
    forall w :: w in ws ==> w < LEGACY_HEADER || exists j :: 0 <= j < |bs| && FreeWord(bs[j], w)
  }

  lemma UsedOf(bs: seq<Block>, u: seq<int>, k: nat) returns (i: nat)
    requires ListsUsed(bs, u) && k < |u|
    ensures i < |bs| && bs[i].used && bs[i].addr == u[k]
  {
    assert IsUsedAddr(bs, u[k]);
    i :| 0 <= i < |bs| && bs[i].used && bs[i].addr == u[k];
  }

  /** The chain of used blocks and the magic words. */
  ghost predicate Others(m: Mem, bs: seq<Block>, u: seq<int>) {
    Chained(m, u) && MagicShown(m, bs) && ListsUsed(bs, u)
  }

  /** The five words of a header: the magic word, the size, the used flag and, when the block is free, its neighbours in
      the free list. */
  lemma LegacyHeader(m: Mem, bs: seq<Block>, head: int, u: seq<int>, i: nat)
    requires Shows(m, bs, head, LEGACY) && Others(m, bs, u) && i < |bs|
    ensures Holds(m, bs[i].addr, 0xDEAD_BEEF) && Holds(m, bs[i].addr + 4, bs[i].size)
    ensures Holds(m, bs[i].addr + 8, if bs[i].used then 1 else 0)
    ensures !bs[i].used ==>
      && Holds(m, bs[i].addr + 12, AddrAt(bs, NextFree(bs, i + 1)))
      && Holds(m, bs[i].addr + 16, if PrevFree(bs, i) >= 0 then bs[PrevFree(bs, i)].addr else 0)
  {
    hide FreeAddrs, Linked, Chained, ListsUsed;
    ShownAt(m, bs, i, LEGACY);
    if !bs[i].used {
      NextLink(m, bs, i, LEGACY);
      PrevLink(m, bs, i, LEGACY);
    }
  }

  lemma FreeWordsApart(bs: seq<Block>, i: nat, ws: set<int>, lo: int, hi: int)
    requires Tiled(bs, lo, hi, LEGACY_HEADER) && lo >= LEGACY_HEADER && FreeWords(bs, ws) && i < |bs|
    ensures bs[i].addr !in ws && (bs[i].used ==> bs[i].addr + 12 !in ws && bs[i].addr + 16 !in ws)
  {
    hide Tiled, FreeWord;
    TiledAt(bs, i, lo, hi, LEGACY_HEADER);
    if bs[i].addr in ws { FreeWordApart(bs, i, bs[i].addr, ws, lo, hi); }
    if bs[i].used && bs[i].addr + 12 in ws { FreeWordApart(bs, i, bs[i].addr + 12, ws, lo, hi); }
    if bs[i].used && bs[i].addr + 16 in ws { FreeWordApart(bs, i, bs[i].addr + 16, ws, lo, hi); }
  }

  /** A word of `ws` in a header is no magic word, and the header is a free block's. */
  lemma FreeWordApart(bs: seq<Block>, i: nat, w: int, ws: set<int>, lo: int, hi: int)
    requires Tiled(bs, lo, hi, LEGACY_HEADER) && lo >= LEGACY_HEADER && FreeWords(bs, ws)
    requires i < |bs| && w in ws && bs[i].addr <= w < bs[i].addr + LEGACY_HEADER
    ensures !bs[i].used && w != bs[i].addr
  {
    TiledAt(bs, i, lo, hi, LEGACY_HEADER);
    var j :| 0 <= j < |bs| && FreeWord(bs[j], w);
    TiledAt(bs, j, lo, hi, LEGACY_HEADER);
    if j < i { TiledSpaced(bs, j, i, lo, hi, LEGACY_HEADER); }
    if i < j { TiledSpaced(bs, i, j, lo, hi, LEGACY_HEADER); }
  }

  lemma MagicFrame(m: Mem, m': Mem, bs: seq<Block>, ws: set<int>)
    requires MagicShown(m, bs) && SameExcept(m, m', ws) && forall i :: 0 <= i < |bs| ==> bs[i].addr !in ws
    ensures MagicShown(m', bs)
  {
    forall i | 0 <= i < |bs|
      ensures Holds(m', bs[i].addr, LegacyHeap.BLOCK_MAGIC)
    {
      assert Holds(m, bs[i].addr, LegacyHeap.BLOCK_MAGIC);
    }
  }

  lemma OthersFrame(m: Mem, m': Mem, bs: seq<Block>, u: seq<int>, ws: set<int>, lo: int, hi: int)
    requires Tiled(bs, lo, hi, LEGACY_HEADER) && lo >= LEGACY_HEADER
    requires Others(m, bs, u) && SameExcept(m, m', ws) && FreeWords(bs, ws)
    ensures Others(m', bs, u)
  {
    hide Tiled, MagicShown, Chained, FreeWords, ListsUsed;
    forall i | 0 <= i < |bs|
      ensures bs[i].addr !in ws && (bs[i].used ==> bs[i].addr + 12 !in ws && bs[i].addr + 16 !in ws)
    {
      FreeWordsApart(bs, i, ws, lo, hi);
    }
    forall k | 0 <= k < |u|
      ensures u[k] + 12 !in ws && u[k] + 16 !in ws
    {
      var i := UsedOf(bs, u, k);
    }
    ChainFrame(m, m', u, ws);
    MagicFrame(m, m', bs, ws);
  }

  /** Null or the address of a free block. */
  ghost predicate FreeOrNull(bs: seq<Block>, x: int) {
    x == 0 || exists j :: 0 <= j < |bs| && !bs[j].used && bs[j].addr == x
  }

  lemma ListFree(bs: seq<Block>, k: int)
    ensures FreeOrNull(bs, At(FreeAddrs(bs), k))
  {
    if 0 <= k < |FreeAddrs(bs)| {
      var j := FreeIsBlock(bs, k);
    }
  }

  lemma FreeWordsOf(bs: seq<Block>, x: int)
    requires FreeOrNull(bs, x)
    ensures FreeWords(bs, {x + 4, x + 8, x + 12, x + 16})
  {
    if x != 0 {
      var j :| 0 <= j < |bs| && !bs[j].used && bs[j].addr == x;
      assert forall w :: x + 4 <= w < x + LEGACY_HEADER ==> FreeWord(bs[j], w);
    }
  }

  lemma FreeWordsUnion(bs: seq<Block>, a: set<int>, b: set<int>)
    requires FreeWords(bs, a) && FreeWords(bs, b)
    ensures FreeWords(bs, a + b)
  {
  }

  lemma FreeWordsSubset(bs: seq<Block>, a: set<int>, b: set<int>)
    requires FreeWords(bs, b) && a <= b
    ensures FreeWords(bs, a)
  {
  }

  /** A merge: the survivor's size and next words, and the link back to it. */
  lemma MergeOthers(m: Mem, m': Mem, bs: seq<Block>, u: seq<int>, i: nat, c: int, q: int, lo: int, hi: int)
    requires Tiled(bs, lo, hi, LEGACY_HEADER) && lo >= LEGACY_HEADER
    requires Others(m, bs, u) && SameExcept(m, m', {c + 4, c + 12, q + 16})
    requires i + 1 < |bs| && !bs[i].used && !bs[i + 1].used && bs[i].addr == c && FreeOrNull(bs, q)
    ensures Others(m', Merged(bs, i, LEGACY_HEADER), u)
  {
    FreeWordsOf(bs, c);
    FreeWordsOf(bs, q);
    FreeWordsUnion(bs, {c + 4, c + 8, c + 12, c + 16}, {q + 4, q + 8, q + 12, q + 16});
    FreeWordsSubset(bs, {c + 4, c + 12, q + 16}, {c + 4, c + 8, c + 12, c + 16} + {q + 4, q + 8, q + 12, q + 16});
    OthersFrame(m, m', bs, u, {c + 4, c + 12, q + 16}, lo, hi);
    MergedOthers(m', bs, u, i);
  }

  lemma MergedOthers(m: Mem, bs: seq<Block>, u: seq<int>, i: nat)
    requires Others(m, bs, u) && i + 1 < |bs| && !bs[i].used && !bs[i + 1].used
    ensures Others(m, Merged(bs, i, LEGACY_HEADER), u)
  {
    var g := Merged(bs, i, LEGACY_HEADER);
    forall x | 0 <= x < |g|
      ensures Holds(m, g[x].addr, LegacyHeap.BLOCK_MAGIC) && (g[x].used ==> g[x].addr in u)
    {
      var y := if x <= i then x else x + 1;
      assert g[x].addr == bs[y].addr && (x != i ==> g[x] == bs[y]);
      assert Holds(m, bs[y].addr, LegacyHeap.BLOCK_MAGIC);
    }
    forall k | 0 <= k < |u|
      ensures IsUsedAddr(g, u[k])
    {
      var y := UsedOf(bs, u, k);
      var x := if y < i then y else y - 1;
      assert g[x] == bs[y] && g[x].used && g[x].addr == u[k];
    }
  }

  // ----- Off the used list and onto the free list -----

  lemma UsedListed(bs: seq<Block>, u: seq<int>, i: nat)
    requires ListsUsed(bs, u) && i < |bs| && bs[i].used
    ensures var k := IndexOf(u, bs[i].addr); k < |u| && u[k] == bs[i].addr
  {
  }

  lemma MarkKeepsChain(m: Mem, u: seq<int>, k: nat)
    requires Chained(m, u) && k < |u|
    ensures Chained(m[u[k] + 8 := 0], u)
  {
    forall j | 0 <= j < |u|
      ensures j == k || Clear(u[j], u[k], LEGACY)
    {
      assert j < k ==> Clear(u[j], u[k], LEGACY);
      assert k < j ==> Clear(u[k], u[j], LEGACY);
    }
    ChainFrame(m, m[u[k] + 8 := 0], u, {u[k] + 8});
  }

  /** The used word put back, only links of the used list have changed. */
  lemma UnlinkFrame(m: Mem, m1: Mem, m2: Mem, u: seq<int>, k: nat)
    requires Chained(m, u) && k < |u| && Holds(m, u[k] + 8, 1) && m1 == m[u[k] + 8 := 0]
    requires SameExcept(m1, m2, {At(u, k - 1) + 12, At(u, k + 1) + 16})
    ensures SameExcept(m, m2[u[k] + 8 := 1], {At(u, k - 1) + 12, At(u, k + 1) + 16})
    ensures SameExcept(m, m2, {u[k] + 8, At(u, k - 1) + 12, At(u, k + 1) + 16})
    ensures Holds(m2, u[k] + 8, 0)
    ensures u[k] + 12 in m ==> u[k] + 12 in m2
    ensures u[k] + 16 in m ==> u[k] + 16 in m2
  {
    assert k > 0 ==> Clear(u[k - 1], u[k], LEGACY);
    assert k + 1 < |u| ==> Clear(u[k], u[k + 1], LEGACY);
  }

  /** Null or the address of a used block. */
  lemma UsedAddr(m: Mem, bs: seq<Block>, u: seq<int>, k: int)
    requires ListsUsed(bs, u)
    ensures IsBlockAddr(bs, At(u, k))
    ensures At(u, k) != 0 ==> At(u, k) in u
  {
    if 0 <= k < |u| {
      var i := UsedOf(bs, u, k);
    }
  }

  /** Links of used blocks are no header's size or used word, no free block's link, and no client's word. */
  lemma UsedLinksFrame(m: Mem, m': Mem, bs: seq<Block>, u: seq<int>, x: int, y: int, lo: int, hi: int)
    requires Tiled(bs, lo, hi, LEGACY_HEADER) && lo >= LEGACY_HEADER
    requires HeadersShown(m, bs, LEGACY) && Linked(m, FreeAddrs(bs), LEGACY)
    requires ListsUsed(bs, u)
    requires SameExcept(m, m', {At(u, x) + 12, At(u, x) + 16} + {At(u, y) + 12, At(u, y) + 16})
    ensures HeadersShown(m', bs, LEGACY) && Linked(m', FreeAddrs(bs), LEGACY) && PayloadKept(m, m', bs, LEGACY)
  {
    hide HeadersShown, Linked, PayloadKept, Tiled, ListsUsed;
    hide HeadersClear, AllUnowned, IsBlockAddr, LinksClear, SameExcept, FreeAddrs;
    var p, q := At(u, x), At(u, y);
    var ps, qs := {p + 12, p + 16}, {q + 12, q + 16};
    UsedAddr(m, bs, u, x);
    UsedAddr(m, bs, u, y);
    LinkWordClear(bs, p, lo, hi, LEGACY);
    LinkWordClear(bs, q, lo, hi, LEGACY);
    LinkWordUnowned(bs, p, lo, hi, LEGACY);
    LinkWordUnowned(bs, q, lo, hi, LEGACY);
    ClearUnion(bs, ps, qs, lo, LEGACY);
    HeadersFrame(m, m', bs, ps + qs, LEGACY);
    UnownedWritesKeepPayload(m, m', bs, ps + qs, lo, hi, LEGACY);
    UsedNotFree(bs, u, x, lo, hi);
    UsedNotFree(bs, u, y, lo, hi);
    LinksUnion(FreeAddrs(bs), ps, qs);
    LinkedFrame(m, m', FreeAddrs(bs), ps + qs, LEGACY);
  }

  lemma LinksUnion(f: seq<int>, a: set<int>, b: set<int>)
    requires LinksClear(f, a, LEGACY) && LinksClear(f, b, LEGACY)
    ensures LinksClear(f, a + b, LEGACY)
  {
  }

  lemma UsedNotFree(bs: seq<Block>, u: seq<int>, k: int, lo: int, hi: int)
    requires Tiled(bs, lo, hi, LEGACY_HEADER) && lo >= LEGACY_HEADER && ListsUsed(bs, u)
    ensures LinksClear(FreeAddrs(bs), {At(u, k) + 12, At(u, k) + 16}, LEGACY)
  {
    BlocksApart(bs, lo, hi, LEGACY);
    var f := FreeAddrs(bs);
    forall j | 0 <= j < |f|
      ensures f[j] >= LEGACY_HEADER && (At(u, k) == 0 || Clear(f[j], At(u, k), LEGACY))
    {
      var x := FreeIsBlock(bs, j);
      if 0 <= k < |u| { var y := UsedOf(bs, u, k); }
    }
  }

  /** The used list without the block, seen from the layout where the block is free. */
  lemma UnlinkOthers(m: Mem, m2: Mem, bs: seq<Block>, u: seq<int>, i: nat, k: nat, lo: int, hi: int)
    requires Tiled(bs, lo, hi, LEGACY_HEADER) && lo >= LEGACY_HEADER
    requires i < |bs| && bs[i].used && k < |u| && u[k] == bs[i].addr
    requires MagicShown(m, bs) && ListsUsed(bs, u) && Chained(m, u) && Chained(m2, Removed(u, k))
    requires SameExcept(m, m2, {bs[i].addr + 8, At(u, k - 1) + 12, At(u, k + 1) + 16})
    ensures Others(m2, Freed(bs, i), Removed(u, k))
  {
    hide Chained;
    RemovedLists(m, bs, u, i, k, lo, hi);
    UsedAddr(m, bs, u, k - 1);
    UsedAddr(m, bs, u, k + 1);
    MagicKept(m, m2, bs, bs[i].addr, At(u, (k as int) - 1), At(u, k + 1), lo, hi);
    forall x | 0 <= x < |bs|
      ensures Freed(bs, i)[x].addr == bs[x].addr
    {
    }
  }

  /** Used and link words of three blocks are no magic words. */
  lemma MagicKept(m: Mem, m2: Mem, bs: seq<Block>, x: int, y: int, z: int, lo: int, hi: int)
    requires Tiled(bs, lo, hi, LEGACY_HEADER) && lo >= LEGACY_HEADER && MagicShown(m, bs)
    requires IsBlockAddr(bs, x) && IsBlockAddr(bs, y) && IsBlockAddr(bs, z)
    requires SameExcept(m, m2, {x + 8, x + 12, x + 16, y + 12, y + 16, z + 12, z + 16})
    ensures MagicShown(m2, bs)
  {
    hide Tiled, IsBlockAddr, SameExcept, MagicShown;
    BlocksApart(bs, lo, hi, LEGACY);
    MagicApart(bs, x);
    MagicApart(bs, y);
    MagicApart(bs, z);
    MagicFrame(m, m2, bs, {x + 8, x + 12, x + 16, y + 12, y + 16, z + 12, z + 16});
  }

  /** No other header word is a magic word. */
  lemma MagicApart(bs: seq<Block>, y: int)
    requires IsBlockAddr(bs, y)
    requires forall i, j :: 0 <= i < j < |bs| ==> bs[i].addr + LEGACY_HEADER <= bs[j].addr
    requires forall i :: 0 <= i < |bs| ==> bs[i].addr >= LEGACY_HEADER
    ensures forall x :: 0 <= x < |bs| ==> bs[x].addr != y + 8 && bs[x].addr != y + 12 && bs[x].addr != y + 16
  {
    if y != 0 {
      var j :| 0 <= j < |bs| && bs[j].addr == y;
      forall x | 0 <= x < |bs|
        ensures x == j || Clear(bs[x].addr, y, LEGACY)
      {
      }
    }
  }

  lemma ChainDistinct(m: Mem, u: seq<int>, j: nat, k: nat)
    requires Chained(m, u) && j < |u| && k < |u| && j != k
    ensures u[j] != u[k]
  {
    assert j < k ==> Clear(u[j], u[k], LEGACY);
    assert k < j ==> Clear(u[k], u[j], LEGACY);
  }

  lemma RemovedLists(m: Mem, bs: seq<Block>, u: seq<int>, i: nat, k: nat, lo: int, hi: int)
    requires Tiled(bs, lo, hi, LEGACY_HEADER) && ListsUsed(bs, u) && Chained(m, u)
    requires i < |bs| && bs[i].used && k < |u| && u[k] == bs[i].addr
    ensures ListsUsed(Freed(bs, i), Removed(u, k))
  {
    hide Chained, Tiled;
    var g, v := Freed(bs, i), Removed(u, k);
    TiledDistinct(bs, lo, hi, LEGACY_HEADER);
    forall x | 0 <= x < |v|
      ensures IsUsedAddr(g, v[x])
    {
      var z := if x < k then x else x + 1;
      ChainDistinct(m, u, z, k);
      var y := UsedOf(bs, u, z);
      assert g[y] == bs[y] && v[x] == u[z];
    }
    forall y | 0 <= y < |g| && g[y].used
      ensures g[y].addr in v
    {
      assert bs[y] == g[y] && bs[y].addr in u;
      var z :| 0 <= z < |u| && u[z] == bs[y].addr;
      assert v[if z < k then z else z - 1] == u[z];
    }
  }

  /** The freed block's own words are no link of the free list. */
  lemma OwnWords(m2: Mem, f: seq<int>, p: nat, c: int)
    requires c + 8 in m2 && Linked(m2[c + 8 := 1], f, LEGACY) && p <= |f| && Fits(f, p, c, LEGACY)
    ensures Linked(m2[c + 16 := 0][c + 12 := 0], f, LEGACY)
  {
    var mu, m3 := m2[c + 8 := 1], m2[c + 16 := 0][c + 12 := 0];
    forall j | 0 <= j < |f|
      ensures Clear(f[j], c, LEGACY)
    {
    }
    assert SameExcept(mu, m3, {c + 8, c + 12, c + 16});
    LinkedFrame(mu, m3, f, {c + 8, c + 12, c + 16}, LEGACY);
  }

  lemma InsertFrame(m2: Mem, m4: Mem, c: int, prev: int, next: int)
    requires SameExcept(m2[c + 16 := 0][c + 12 := 0], m4, {c + 12, c + 16, prev + 12, next + 16})
    requires Holds(m2, c + 8, 0)
    ensures SameExcept(m2, m4, {c + 12, c + 16, prev + 12, next + 16})
    ensures SameExcept(m2[c + 8 := 1], m2, {c + 8})
  {
  }

  lemma FreedOthers(m2: Mem, m4: Mem, bs: seq<Block>, v: seq<int>, i: nat, prev: int, next: int, lo: int, hi: int)
    requires Tiled(bs, lo, hi, LEGACY_HEADER) && lo >= LEGACY_HEADER
    requires i < |bs| && bs[i].used && Others(m2, Freed(bs, i), v)
    requires SameExcept(m2, m4, {bs[i].addr + 12, bs[i].addr + 16, prev + 12, next + 16})
    requires var k := ListIndex(bs, i); prev == At(FreeAddrs(bs), k - 1) && next == At(FreeAddrs(bs), k)
    ensures Others(m4, Freed(bs, i), v)
  {
    hide Others, Tiled, FreeAddrs, FreeWords, Live, FreeOrNull, SameExcept, ListIndex, Freed;
    var g, c := Freed(bs, i), bs[i].addr;
    FreedEffect(bs, i, lo, hi, LEGACY_HEADER);
    FreedIsFree(bs, i);
    ListFree(bs, ListIndex(bs, i) - 1);
    ListFree(bs, ListIndex(bs, i));
    StillFree(bs, i, prev);
    StillFree(bs, i, next);
    FreeWordsOf(g, c);
    FreeWordsOf(g, prev);
    FreeWordsOf(g, next);
    FreeLinkWords(g, c, prev, next);
    OthersFrame(m2, m4, g, v, {c + 12, c + 16, prev + 12, next + 16}, lo, hi);
  }

  lemma FreedIsFree(bs: seq<Block>, i: nat)
    requires i < |bs|
    ensures FreeOrNull(Freed(bs, i), bs[i].addr)
  {
    assert Freed(bs, i)[i].addr == bs[i].addr && !Freed(bs, i)[i].used;
  }

  lemma FreeLinkWords(bs: seq<Block>, x: int, y: int, z: int)
    requires FreeWords(bs, {x + 4, x + 8, x + 12, x + 16}) && FreeWords(bs, {y + 4, y + 8, y + 12, y + 16})
    requires FreeWords(bs, {z + 4, z + 8, z + 12, z + 16})
    ensures FreeWords(bs, {x + 12, x + 16, y + 12, z + 16})
  {
    hide FreeWords;
    var a, b, c := {x + 4, x + 8, x + 12, x + 16}, {y + 4, y + 8, y + 12, y + 16}, {z + 4, z + 8, z + 12, z + 16};
    FreeWordsUnion(bs, a, b);
    FreeWordsUnion(bs, a + b, c);
    FreeWordsSubset(bs, {x + 12, x + 16, y + 12, z + 16}, a + b + c);
  }

  lemma StillFree(bs: seq<Block>, i: nat, x: int)
    requires i < |bs| && bs[i].used && FreeOrNull(bs, x)
    ensures FreeOrNull(Freed(bs, i), x)
  {
    if x != 0 {
      var j :| 0 <= j < |bs| && !bs[j].used && bs[j].addr == x;
      assert Freed(bs, i)[j] == bs[j];
    }
  }

  lemma FreedPayload(m: Mem, mu: Mem, m4: Mem, bs: seq<Block>, i: nat)
    requires i < |bs| && PayloadKept(m, mu, bs, LEGACY) && PayloadKept(mu, m4, bs, LEGACY)
    ensures PayloadKept(m, m4, Freed(bs, i), LEGACY)
  {
    PayloadTrans(m, mu, m4, bs, bs, LEGACY);
    var g := Freed(bs, i);
    forall k, w | 0 <= k < |g| && g[k].used && g[k].addr + LEGACY_HEADER <= w < g[k].addr + LEGACY_HEADER + g[k].size && w in m
      ensures m4[w] == m[w]
    {
      assert bs[k] == g[k];
    }
  }

  /** The position of an address in the used list. */
  ghost function IndexOf(u: seq<int>, x: int): (k: nat)
    ensures x in u ==> k < |u| && u[k] == x
  {
    if u == [] || u[0] == x then 0
    else
      assert x in u ==> x in u[1..];
      1 + IndexOf(u[1..], x)
  }
}
