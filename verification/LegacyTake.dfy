/** What the predecessor's `KMALLOC` does to memory: a free block is cut in two while it is listed, then the front part
    moves from the free list to the head of the used list. */
module LegacyTake {
  import opened BlockLayout
  import opened FreeList
  import opened HeapMemory
  import opened LegacyLists
  import LegacyHeap
  import opened Words

  // ----- Cutting a free block in two -----

  /** Both parts are free. */
  ghost function Cleft(bs: seq<Block>, i: nat, n: int): seq<Block>
    requires i < |bs|
  {
    bs[..i] + Parts(bs[i], n) + bs[i + 1..]
  }

  ghost function Parts(b: Block, n: int): seq<Block> {
    [Block(b.addr, n, false), Block(b.addr + LEGACY_HEADER + n, b.size - n - LEGACY_HEADER, false)]
  }

  ghost function Marked(bs: seq<Block>, i: nat): seq<Block>
    requires i < |bs|
  {
    bs[i := bs[i].(used := true)]
  }

  /** Cutting and marking is what allocation does to the layout, as long as the size test does not wrap. */
  lemma CleftMarked(bs: seq<Block>, i: nat, n: int)
    requires i < |bs| && 0 <= n <= bs[i].size < TWO32 && !LegacyHeap.Wraps(bs[i].size, n)
    ensures var remaining := LegacyHeap.Remaining(bs[i].size, n);
      && remaining == bs[i].size - n - LEGACY_HEADER
      && LegacyHeap.Place(bs, i, n) ==
           if remaining >= LegacyHeap.MIN_BLOCK_SIZE + 16 then Marked(Cleft(bs, i, n), i) else Marked(bs, i)
  {
    LegacyHeap.RemainingValue(bs[i].size, n);
  }

  lemma CleftTiled(bs: seq<Block>, i: nat, n: int, lo: int, hi: int)
    requires Tiled(bs, lo, hi, LEGACY_HEADER) && i < |bs| && 0 <= n <= bs[i].size - LEGACY_HEADER
    ensures Tiled(Cleft(bs, i, n), lo, hi, LEGACY_HEADER)
  {
    var b, t := bs[i], Parts(bs[i], n);
    TiledAt(bs, i, lo, hi, LEGACY_HEADER);
    assert t[1..] == [t[1]] && [t[1]][1..] == [];
    assert Tiled([t[1]], t[1].addr, b.addr + LEGACY_HEADER + b.size, LEGACY_HEADER);
    TiledJoin(bs[..i], t, lo, b.addr, b.addr + LEGACY_HEADER + b.size, LEGACY_HEADER);
    TiledJoin(bs[..i] + t, bs[i + 1..], lo, b.addr + LEGACY_HEADER + b.size, hi, LEGACY_HEADER);
  }

  lemma CleftList(bs: seq<Block>, i: nat, n: int)
    requires i < |bs| && !bs[i].used
    ensures var f, k := FreeAddrs(bs), ListIndex(bs, i);
      k < |f| && f[k] == bs[i].addr && FreeAddrs(Cleft(bs, i, n)) == Inserted(f, k + 1, bs[i].addr + LEGACY_HEADER + n)
  {
    hide FreeAddrs, Inserted;
    var front, back, t := FreeAddrs(bs[..i]), FreeAddrs(bs[i + 1..]), Parts(bs[i], n);
    hide Parts;
    FreeAt(bs, i);
    AtPlace(front, bs[i].addr, back);
    FreeAppend(bs[..i] + t, bs[i + 1..]);
    FreeAppend(bs[..i], t);
    PartsFree(bs[i], n);
    InsertAfter(front, bs[i].addr, back, bs[i].addr + LEGACY_HEADER + n);
  }

  lemma PartsFree(b: Block, n: int)
    ensures FreeAddrs(Parts(b, n)) == [b.addr, b.addr + LEGACY_HEADER + n]
  {
    var t := Parts(b, n);
    assert t[1..] == [t[1]] && [t[1]][1..] == [];
    assert FreeAddrs([t[1]]) == [t[1].addr];
  }

  lemma AtPlace(a: seq<int>, c: int, b: seq<int>)
    ensures |a| < |a + [c] + b| && (a + [c] + b)[|a|] == c
  {
  }

  lemma InsertAfter(a: seq<int>, c: int, b: seq<int>, r: int)
    ensures Inserted(a + [c] + b, |a| + 1, r) == a + [c, r] + b
  {
  }

  /** The words cutting writes. */
  ghost function CutWords(c: int, r: int, next: int): set<int> {
    {r, r + 4, r + 8, r + 12, r + 16, c + 4, c + 12, next + 16}
  }

  /** The new header, and the two links and the size around it. */
  ghost predicate CutShown(m: Mem, c: int, r: int, n: int, size: int, next: int) {
    && Holds(m, r, LegacyHeap.BLOCK_MAGIC) && Holds(m, r + 4, size - n - LEGACY_HEADER) && Holds(m, r + 8, 0)
    && Holds(m, r + 12, next) && Holds(m, r + 16, c)
    && Holds(m, c + 12, r) && Holds(m, c + 4, n)
    && (next != 0 ==> Holds(m, next + 16, r))
  }

  lemma CutLinks(m: Mem, m': Mem, f: seq<int>, k: nat, r: int, n: int, size: int)
    requires Linked(m, f, LEGACY) && k < |f| && Fits(f, k + 1, r, LEGACY) && f[k] + 4 in m
    requires SameExcept(m, m', CutWords(f[k], r, At(f, k + 1))) && CutShown(m', f[k], r, n, size, At(f, k + 1))
    ensures Linked(m', Inserted(f, k + 1, r), LEGACY)
  {
    hide Linked, Inserted;
    var c, next := f[k], At(f, k + 1);
    var m1 := m[c + 4 := n][r := LegacyHeap.BLOCK_MAGIC][r + 4 := size - n - LEGACY_HEADER][r + 8 := 0];
    HeaderClear(m, f, k, r);
    LinkedFrame(m, m1, f, {c + 4, r, r + 4, r + 8}, LEGACY);
    ListInsert(m1, m', f, k + 1, r, LEGACY);
  }

  lemma HeaderClear(m: Mem, f: seq<int>, k: nat, r: int)
    requires Linked(m, f, LEGACY) && k < |f| && Fits(f, k + 1, r, LEGACY)
    ensures LinksClear(f, {f[k] + 4, r, r + 4, r + 8}, LEGACY)
  {
    OwnHeaderClear(f, k, LEGACY);
    forall j | 0 <= j < |f|
      ensures Clear(f[j], r, LEGACY)
    {
    }
  }

  lemma PartsShown(m: Mem, m': Mem, b: Block, n: int, next: int)
    requires BlockShown(m, b, LEGACY) && !b.used && b.addr >= LEGACY_HEADER && 0 <= n
    requires next == 0 || b.addr + LEGACY_HEADER + b.size <= next
    requires n + LEGACY_HEADER <= b.size
    requires SameExcept(m, m', CutWords(b.addr, b.addr + LEGACY_HEADER + n, next))
    requires CutShown(m', b.addr, b.addr + LEGACY_HEADER + n, n, b.size, next)
    ensures HeadersShown(m', Parts(b, n), LEGACY)
  {
    hide HeadersShown;
    var front, rest := Block(b.addr, n, false), Block(b.addr + LEGACY_HEADER + n, b.size - n - LEGACY_HEADER, false);
    assert BlockShown(m', front, LEGACY);
    assert BlockShown(m', rest, LEGACY);
    TwoShown(m', front, rest, LEGACY);
  }

  /** A free block cut in two: memory shows both parts, and nobody else's word has changed. */
  lemma CutShows(m: Mem, m': Mem, bs: seq<Block>, u: seq<int>, i: nat, n: int, head: int, lo: int, hi: int)
    requires Tiled(bs, lo, hi, LEGACY_HEADER) && lo >= LEGACY_HEADER
    requires i < |bs| && !bs[i].used && 0 <= n <= bs[i].size - LEGACY_HEADER
    requires Shows(m, bs, head, LEGACY) && Others(m, bs, u)
    requires var c, r, next := bs[i].addr, bs[i].addr + LEGACY_HEADER + n, At(FreeAddrs(bs), ListIndex(bs, i) + 1);
      SameExcept(m, m', CutWords(c, r, next)) && CutShown(m', c, r, n, bs[i].size, next)
    ensures Tiled(Cleft(bs, i, n), lo, hi, LEGACY_HEADER)
    ensures Shows(m', Cleft(bs, i, n), head, LEGACY) && Others(m', Cleft(bs, i, n), u) && PayloadKept(m, m', bs, LEGACY)
  {
    hide Tiled, HeadersShown, Linked, Others, PayloadKept, SameExcept;
    hide CutShown, IsBlockAddr, Fits, FreeAddrs, BlockShown, CutWords, Inserted;
    var f, k, c, r := FreeAddrs(bs), ListIndex(bs, i), bs[i].addr, bs[i].addr + LEGACY_HEADER + n;
    var next := At(f, k + 1);
    CleftTiled(bs, i, n, lo, hi);
    CleftList(bs, i, n);
    RestFits(bs, i, n, lo, hi, LEGACY);
    ShownAt(m, bs, i, LEGACY);
    SizeMapped(m, bs[i]);
    CutLinks(m, m', f, k, r, n, bs[i].size);
    InsertedHead(f, k, r);
    Neighbours(bs, i, lo, hi, LEGACY);
    TiledAt(bs, i, lo, hi, LEGACY_HEADER);
    PartsShown(m, m', bs[i], n, next);
    CutHeaders(m, m', bs, i, n, next, lo, hi);
    ListFree(bs, k + 1);
    CutOthers(m, m', bs, u, i, n, next, lo, hi);
  }

  lemma SizeMapped(m: Mem, b: Block)
    requires BlockShown(m, b, LEGACY)
    ensures b.addr + 4 in m
  {
  }

  lemma InsertedHead(f: seq<int>, k: nat, r: int)
    requires k < |f|
    ensures At(Inserted(f, k + 1, r), 0) == At(f, 0)
  {
  }

  lemma CutHeaders(m: Mem, m': Mem, bs: seq<Block>, i: nat, n: int, next: int, lo: int, hi: int)
    requires Tiled(bs, lo, hi, LEGACY_HEADER) && lo >= LEGACY_HEADER
    requires i < |bs| && !bs[i].used && 0 <= n <= bs[i].size - LEGACY_HEADER
    requires HeadersShown(m, bs, LEGACY) && HeadersShown(m', Parts(bs[i], n), LEGACY) && IsBlockAddr(bs, next)
    requires SameExcept(m, m', CutWords(bs[i].addr, bs[i].addr + LEGACY_HEADER + n, next))
    ensures HeadersShown(m', Cleft(bs, i, n), LEGACY) && PayloadKept(m, m', bs, LEGACY)
  {
    hide HeadersShown, IsBlockAddr, PayloadKept, SameExcept, Tiled;
    var c, r := bs[i].addr, bs[i].addr + LEGACY_HEADER + n;
    var own := {r, r + 4, r + 8, r + 12, r + 16, c + 4, c + 12};
    SameExceptMore(m, m', CutWords(c, r, next), own + {next + 12, next + 16} + {next + 12, next + 16});
    ReplaceShown(m, m', bs, i, Parts(bs[i], n), own, next, next, lo, hi, LEGACY);
  }

  lemma CutOthers(m: Mem, m': Mem, bs: seq<Block>, u: seq<int>, i: nat, n: int, next: int, lo: int, hi: int)
    requires Tiled(bs, lo, hi, LEGACY_HEADER) && lo >= LEGACY_HEADER
    requires i < |bs| && !bs[i].used && 0 <= n <= bs[i].size - LEGACY_HEADER
    requires Others(m, bs, u) && FreeOrNull(bs, next)
    requires var c, r := bs[i].addr, bs[i].addr + LEGACY_HEADER + n;
      SameExcept(m, m', CutWords(c, r, next)) && CutShown(m', c, r, n, bs[i].size, next)
    ensures Others(m', Cleft(bs, i, n), u)
  {
    hide Tiled, Others, FreeWords, FreeOrNull, SameExcept;
    var c, r := bs[i].addr, bs[i].addr + LEGACY_HEADER + n;
    var own := {r, r + 4, r + 8, r + 12, r + 16, c + 4, c + 12};
    assert FreeWords(bs, own) by { OwnFreeWords(bs, i, own); }
    FreeWordsOf(bs, next);
    FreeWordsUnion(bs, own, {next + 4, next + 8, next + 12, next + 16});
    FreeWordsSubset(bs, CutWords(c, r, next), own + {next + 4, next + 8, next + 12, next + 16});
    OthersFrame(m, m', bs, u, CutWords(c, r, next), lo, hi);
    CleftOthers(m', bs, u, i, n);
  }

  lemma OwnFreeWords(bs: seq<Block>, i: nat, ws: set<int>)
    requires i < |bs| && forall w :: w in ws ==> FreeWord(bs[i], w)
    ensures FreeWords(bs, ws)
  {
  }

  lemma CleftOthers(m: Mem, bs: seq<Block>, u: seq<int>, i: nat, n: int)
    requires Others(m, bs, u) && i < |bs| && !bs[i].used
    requires Holds(m, bs[i].addr + LEGACY_HEADER + n, LegacyHeap.BLOCK_MAGIC)
    ensures Others(m, Cleft(bs, i, n), u)
  {
    hide Chained;
    var g := Cleft(bs, i, n);
    forall x | 0 <= x < |g|
      ensures Holds(m, g[x].addr, LegacyHeap.BLOCK_MAGIC) && (g[x].used ==> g[x].addr in u)
    {
      if x != i + 1 {
        var y := if x <= i then x else x - 1;
        assert g[x].addr == bs[y].addr && (x != i ==> g[x] == bs[y]);
        assert Holds(m, bs[y].addr, LegacyHeap.BLOCK_MAGIC);
      }
    }
    forall k | 0 <= k < |u|
      ensures IsUsedAddr(g, u[k])
    {
      var y := UsedOf(bs, u, k);
      assert g[if y < i then y else y + 1] == bs[y];
    }
  }

  // ----- From the free list to the used list -----

  lemma MarkedTiled(bs: seq<Block>, i: nat, lo: int, hi: int)
    requires Tiled(bs, lo, hi, LEGACY_HEADER) && i < |bs|
    ensures Tiled(Marked(bs, i), lo, hi, LEGACY_HEADER)
  {
    var b := bs[i].(used := true);
    var end := b.addr + LEGACY_HEADER + b.size;
    TiledAt(bs, i, lo, hi, LEGACY_HEADER);
    assert [b][1..] == [];
    TiledJoin(bs[..i], [b], lo, b.addr, end, LEGACY_HEADER);
    TiledJoin(bs[..i] + [b], bs[i + 1..], lo, end, hi, LEGACY_HEADER);
    assert Marked(bs, i) == bs[..i] + [b] + bs[i + 1..];
  }

  lemma MarkedList(bs: seq<Block>, i: nat)
    requires i < |bs| && !bs[i].used
    ensures var f, k := FreeAddrs(bs), ListIndex(bs, i);
      k < |f| && f[k] == bs[i].addr && FreeAddrs(Marked(bs, i)) == Removed(f, k)
  {
    hide FreeAddrs, Removed;
    var g := Marked(bs, i);
    FreeAt(bs, i);
    Cut(FreeAddrs(bs[..i]), bs[i].addr, FreeAddrs(bs[i + 1..]));
    assert g[..i] == bs[..i] && g[i + 1..] == bs[i + 1..];
    UsedAt(g, i);
  }

  lemma ListedMark(m: Mem, m1: Mem, f: seq<int>, k: nat)
    requires Linked(m, f, LEGACY) && k < |f| && SameExcept(m, m1, {f[k] + 8})
    ensures Linked(m1, f, LEGACY)
  {
    OwnHeaderClear(f, k, LEGACY);
    LinkedFrame(m, m1, f, {f[k] + 4, f[k] + 8}, LEGACY);
  }

  /** Marked and off the free list. */
  lemma OffShown(m: Mem, m1: Mem, m2: Mem, bs: seq<Block>, u: seq<int>, i: nat, lo: int, hi: int)
    requires Tiled(bs, lo, hi, LEGACY_HEADER) && lo >= LEGACY_HEADER && i < |bs| && !bs[i].used
    requires HeadersShown(m, bs, LEGACY) && Others(m, bs, u)
    requires var c, k, f := bs[i].addr, ListIndex(bs, i), FreeAddrs(bs);
      && SameExcept(m, m1, {c + 8}) && Holds(m1, c + 8, 1)
      && SameExcept(m1, m2, {At(f, k - 1) + 12, At(f, k + 1) + 16})
    ensures HeadersShown(m2, Marked(bs, i), LEGACY) && Others(m2, bs, u) && PayloadKept(m, m2, bs, LEGACY)
  {
    hide Tiled, HeadersShown, Others, PayloadKept, SameExcept;
    hide Holds, IsBlockAddr, FreeOrNull, BlockShown, FreeAddrs, FreeWords;
    var f, k, c := FreeAddrs(bs), ListIndex(bs, i), bs[i].addr;
    var p: int, q: int := At(f, (k as int) - 1), At(f, k + 1);
    Neighbours(bs, i, lo, hi, LEGACY);
    TiledAt(bs, i, lo, hi, LEGACY_HEADER);
    ShownAt(m, bs, i, LEGACY);
    MarkedHeader(m, m1, m2, bs[i], p, q);
    OffWords(m, m1, m2, c, p, q);
    ReplaceShown(m, m2, bs, i, [bs[i].(used := true)], {c + 8}, p, q, lo, hi, LEGACY);
    assert Marked(bs, i) == bs[..i] + [bs[i].(used := true)] + bs[i + 1..];
    ListFree(bs, (k as int) - 1);
    ListFree(bs, k + 1);
    OffFreeWords(bs, i, p, q);
    OthersFrame(m, m2, bs, u, {c + 8, p + 12, q + 16}, lo, hi);
  }

  lemma OffWords(m: Mem, m1: Mem, m2: Mem, c: int, p: int, q: int)
    requires SameExcept(m, m1, {c + 8}) && SameExcept(m1, m2, {p + 12, q + 16})
    ensures SameExcept(m, m2, {c + 8, p + 12, q + 16})
    ensures SameExcept(m, m2, {c + 8} + {p + 12, p + 16} + {q + 12, q + 16})
  {
  }

  lemma OffFreeWords(bs: seq<Block>, i: nat, p: int, q: int)
    requires i < |bs| && !bs[i].used && FreeOrNull(bs, p) && FreeOrNull(bs, q)
    ensures FreeWords(bs, {bs[i].addr + 8, p + 12, q + 16})
  {
    hide FreeOrNull, FreeWords;
    var own := {bs[i].addr + 8};
    OwnFreeWords(bs, i, own);
    FreeWordsOf(bs, p);
    FreeWordsOf(bs, q);
    var ps, qs := {p + 4, p + 8, p + 12, p + 16}, {q + 4, q + 8, q + 12, q + 16};
    FreeWordsUnion(bs, ps, qs);
    FreeWordsUnion(bs, own, ps + qs);
    FreeWordsSubset(bs, {bs[i].addr + 8, p + 12, q + 16}, own + (ps + qs));
  }

  lemma MarkedHeader(m: Mem, m1: Mem, m2: Mem, b: Block, p: int, q: int)
    requires BlockShown(m, b, LEGACY) && b.addr >= LEGACY_HEADER
    requires p + LEGACY_HEADER <= b.addr && (q == 0 || b.addr + LEGACY_HEADER <= q)
    requires SameExcept(m, m1, {b.addr + 8}) && Holds(m1, b.addr + 8, 1) && SameExcept(m1, m2, {p + 12, q + 16})
    ensures HeadersShown(m2, [b.(used := true)], LEGACY)
  {
    assert BlockShown(m2, b.(used := true), LEGACY);
    OneShown(m2, b.(used := true), LEGACY);
  }

  /** A block put in front of a used list it lies apart from. */
  lemma ChainPush(m: Mem, m': Mem, u: seq<int>, c: int)
    requires Chained(m, u) && c >= LEGACY_HEADER && forall k :: 0 <= k < |u| ==> Clear(c, u[k], LEGACY)
    requires SameExcept(m, m', {c + 12, c + 16, At(u, 0) + 16})
    requires Holds(m', c + 12, At(u, 0)) && Holds(m', c + 16, 0) && (u != [] ==> Holds(m', u[0] + 16, c))
    ensures Chained(m', [c] + u)
  {
    var v := [c] + u;
    forall k | 0 <= k < |v|
      ensures Node(m', v, k, LEGACY)
    {
      if k > 0 {
        assert Node(m, u, k - 1, LEGACY);
        assert k > 1 ==> Clear(u[0], u[k - 1], LEGACY);
      }
    }
    forall i, j | 0 <= i < j < |v|
      ensures Clear(v[i], v[j], LEGACY)
    {
    }
  }

  lemma ApartFromUsed(bs: seq<Block>, u: seq<int>, i: nat, lo: int, hi: int)
    requires Tiled(bs, lo, hi, LEGACY_HEADER) && lo >= LEGACY_HEADER && i < |bs| && !bs[i].used && ListsUsed(bs, u)
    ensures bs[i].addr >= LEGACY_HEADER && forall k :: 0 <= k < |u| ==> Clear(bs[i].addr, u[k], LEGACY)
  {
    hide Tiled, ListsUsed;
    BlocksApart(bs, lo, hi, LEGACY);
    forall k | 0 <= k < |u|
      ensures Clear(bs[i].addr, u[k], LEGACY)
    {
      var y := UsedOf(bs, u, k);
    }
  }

  lemma MarkedLists(bs: seq<Block>, u: seq<int>, i: nat)
    requires i < |bs| && !bs[i].used && ListsUsed(bs, u)
    ensures ListsUsed(Marked(bs, i), [bs[i].addr] + u)
  {
    var g, v := Marked(bs, i), [bs[i].addr] + u;
    forall k | 0 <= k < |v|
      ensures IsUsedAddr(g, v[k])
    {
      if k == 0 {
        assert g[i].used && g[i].addr == v[0];
      } else {
        var y := UsedOf(bs, u, k - 1);
        assert g[y] == bs[y];
      }
    }
    forall y | 0 <= y < |g| && g[y].used
      ensures g[y].addr in v
    {
      if y == i {
        assert v[0] == g[y].addr;
      } else {
        assert g[y] == bs[y] && bs[y].addr in u;
      }
    }
  }

  /** On the used list: the free list and the headers as they were, the used list with the block in front. */
  lemma OnShown(m2: Mem, m3: Mem, bs: seq<Block>, u: seq<int>, i: nat, lo: int, hi: int)
    requires Tiled(bs, lo, hi, LEGACY_HEADER) && lo >= LEGACY_HEADER && i < |bs| && !bs[i].used && Others(m2, bs, u)
    requires HeadersShown(m2, Marked(bs, i), LEGACY) && Linked(m2, FreeAddrs(Marked(bs, i)), LEGACY)
    requires var c := bs[i].addr;
      && SameExcept(m2, m3, {c + 12, c + 16, At(u, 0) + 16})
      && Holds(m3, c + 12, At(u, 0)) && Holds(m3, c + 16, 0) && (u != [] ==> Holds(m3, u[0] + 16, c))
    ensures Tiled(Marked(bs, i), lo, hi, LEGACY_HEADER)
    ensures HeadersShown(m3, Marked(bs, i), LEGACY) && Linked(m3, FreeAddrs(Marked(bs, i)), LEGACY)
    ensures Others(m3, Marked(bs, i), [bs[i].addr] + u) && PayloadKept(m2, m3, Marked(bs, i), LEGACY)
  {
    hide Tiled, HeadersShown, Linked, Chained, MagicShown;
    hide ListsUsed, PayloadKept, SameExcept, Holds, FreeAddrs, IsBlockAddr;
    var g, c, v := Marked(bs, i), bs[i].addr, [bs[i].addr] + u;
    MarkedTiled(bs, i, lo, hi);
    MarkedLists(bs, u, i);
    ApartFromUsed(bs, u, i, lo, hi);
    ChainPush(m2, m3, u, c);
    BlockAddr(bs, i);
    UsedAddr(m2, bs, u, 0);
    SameExceptMore(m2, m3, {c + 12, c + 16, At(u, 0) + 16},
                   {c + 8, c + 12, c + 16, At(u, 0) + 12, At(u, 0) + 16, At(u, 0) + 12, At(u, 0) + 16});
    MagicKept(m2, m3, bs, c, At(u, 0), At(u, 0), lo, hi);
    MarkedMagic(m3, bs, i);
    assert At(v, 0) == c && At(v, 1) == At(u, 0);
    SameExceptMore(m2, m3, {c + 12, c + 16, At(u, 0) + 16}, {c + 12, c + 16} + {At(u, 0) + 12, At(u, 0) + 16});
    UsedLinksFrame(m2, m3, g, v, 0, 1, lo, hi);
  }

  lemma MarkedMagic(m: Mem, bs: seq<Block>, i: nat)
    requires MagicShown(m, bs) && i < |bs|
    ensures MagicShown(m, Marked(bs, i))
  {
    forall x | 0 <= x < |bs|
      ensures Holds(m, Marked(bs, i)[x].addr, LegacyHeap.BLOCK_MAGIC)
    {
      assert Holds(m, bs[x].addr, LegacyHeap.BLOCK_MAGIC);
    }
  }

  // ----- What the writes find -----

  lemma HeaderOf(m: Mem, bs: seq<Block>, i: nat, head: int)
    requires Shows(m, bs, head, LEGACY) && i < |bs|
    ensures Holds(m, bs[i].addr + 4, bs[i].size)
  {
    hide HeadersShown, Linked;
    ShownAt(m, bs, i, LEGACY);
  }

  lemma CleftAt(bs: seq<Block>, i: nat, n: int)
    requires i < |bs|
    ensures i < |Cleft(bs, i, n)| && Cleft(bs, i, n)[i] == Block(bs[i].addr, n, false)
  {
  }

  lemma HeaderWritten(m: Mem, m1: Mem, c: int, r: int, next: int)
    requires SameExcept(m, m1, {r, r + 4, r + 8}) && c + LEGACY_HEADER <= r && (next == 0 || r + LEGACY_HEADER <= next)
    requires Holds(m, c + 12, next) && (next != 0 ==> next + 16 in m)
    ensures Holds(m1, c + 12, next) && (next != 0 ==> next + 16 in m1)
  {
  }

  lemma CutWritten(m: Mem, m1: Mem, m2: Mem, c: int, n: nat, remaining: int, next: int)
    requires c >= LEGACY_HEADER && (next == 0 || c + LEGACY_HEADER + n + LEGACY_HEADER <= next)
    requires var r := c + LEGACY_HEADER + n;
      && SameExcept(m, m1, {r, r + 4, r + 8})
      && Holds(m1, r, LegacyHeap.BLOCK_MAGIC) && Holds(m1, r + 4, remaining) && Holds(m1, r + 8, 0)
      && SameExcept(m1, m2, {r + 12, r + 16, next + 16, c + 12, c + 4})
      && Holds(m2, r + 12, next) && Holds(m2, r + 16, c) && (next != 0 ==> Holds(m2, next + 16, r))
      && Holds(m2, c + 12, r) && Holds(m2, c + 4, n)
    ensures SameExcept(m, m2, CutWords(c, c + LEGACY_HEADER + n, next))
    ensures CutShown(m2, c, c + LEGACY_HEADER + n, n, n + LEGACY_HEADER + remaining, next)
  {
  }

  lemma CleftLive(bs: seq<Block>, i: nat, n: int)
    requires i < |bs| && !bs[i].used
    ensures Live(Cleft(bs, i, n)) == Live(bs)
  {
    assert bs == bs[..i] + [bs[i]] + bs[i + 1..];
  }

  lemma MarkedLive(bs: seq<Block>, i: nat)
    requires i < |bs| && !bs[i].used
    ensures Live(bs) <= Live(Marked(bs, i))
  {
    assert bs == bs[..i] + [bs[i]] + bs[i + 1..];
    assert Marked(bs, i) == bs[..i] + [bs[i].(used := true)] + bs[i + 1..];
  }

  lemma ListNext(m: Mem, f: seq<int>, k: nat)
    requires Linked(m, f, LEGACY) && k < |f|
    ensures At(f, k + 1) != 0 <==> k + 1 < |f|
    ensures At(f, k + 1) != 0 ==> At(f, k + 1) + 16 in m && f[k] + LEGACY_HEADER <= At(f, k + 1)
  {
    if k + 1 < |f| { assert Node(m, f, k + 1, LEGACY); }
  }

  lemma ListBefore(m: Mem, f: seq<int>, k: nat)
    requires Linked(m, f, LEGACY) && k < |f|
    ensures f[k] >= LEGACY_HEADER && (At(f, k - 1) != 0 <==> k > 0) && At(f, k - 1) + LEGACY_HEADER <= f[k]
  {
  }

  lemma MarkWord(m: Mem, m1: Mem, c: int)
    requires m1 == m[c + 8 := 1]
    ensures SameExcept(m, m1, {c + 8}) && Holds(m1, c + 8, 1)
  {
  }

  lemma UsedFront(m: Mem, bs: seq<Block>, u: seq<int>, i: nat, lo: int, hi: int)
    requires Tiled(bs, lo, hi, LEGACY_HEADER) && lo >= LEGACY_HEADER && i < |bs| && !bs[i].used && Others(m, bs, u)
    ensures bs[i].addr >= LEGACY_HEADER && (u != [] ==> u[0] + 16 in m && u[0] != 0 && Clear(bs[i].addr, u[0], LEGACY))
  {
    hide Tiled, ListsUsed;
    ApartFromUsed(bs, u, i, lo, hi);
    if u != [] { assert Node(m, u, 0, LEGACY); }
  }

  lemma BlockBelow(bs: seq<Block>, i: nat)
    requires Tiled(bs, LegacyHeap.HEAP_START, LegacyHeap.HEAP_END, LEGACY_HEADER) && i < |bs|
    ensures 0 <= bs[i].size < TWO32 && bs[i].addr >= LEGACY_HEADER
  {
    TiledAt(bs, i, LegacyHeap.HEAP_START, LegacyHeap.HEAP_END, LEGACY_HEADER);
  }
}
