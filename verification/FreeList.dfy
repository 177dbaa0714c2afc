/** The free list in memory. Memory is a map from addresses to words; a block's links are two words of its header. */
module FreeList {
  import opened BlockLayout

  type Mem = map<int, int>

  /** Header size and the offsets of its fields. */
  datatype Shape = Shape(bytes: nat, size: nat, used: nat, next: nat, prev: nat)

  const KERNEL := Shape(HEADER, 0, 4, 8, 12)
  const LEGACY := Shape(LEGACY_HEADER, 4, 8, 12, 16)

  /** Distinct words inside the header. */
  predicate Good(sh: Shape) {
    && sh.size + 4 <= sh.used && sh.used + 4 <= sh.next && sh.next + 4 <= sh.prev && sh.prev + 4 <= sh.bytes
  }

  // ----- Lists -----

  function At(f: seq<int>, k: int): int {
    if 0 <= k < |f| then f[k] else 0
  }

  ghost predicate Holds(m: Mem, a: int, v: int) {
    a in m && m[a] == v
  }

  ghost predicate Node(m: Mem, f: seq<int>, k: nat, sh: Shape)
    requires k < |f|
  {
    Holds(m, f[k] + sh.next, At(f, k + 1)) && Holds(m, f[k] + sh.prev, At(f, k - 1))
  }

  /** Headers at these addresses do not overlap each other or the null page, and the addresses increase. */
  ghost predicate Spaced(f: seq<int>, sh: Shape) {
    && (forall i :: 0 <= i < |f| ==> f[i] >= sh.bytes)
    && (forall i, j :: 0 <= i < j < |f| ==> f[i] + sh.bytes <= f[j])
  }

  /** `f` is a doubly linked list in strictly increasing address order. */
  ghost predicate Linked(m: Mem, f: seq<int>, sh: Shape) {
    Spaced(f, sh) && forall k :: 0 <= k < |f| ==> Node(m, f, k, sh)
  }

  /** Words outside `ws` are as they were, and no word is lost. */
  ghost predicate SameExcept(m: Mem, m': Mem, ws: set<int>) {
    && m.Keys <= m'.Keys
    && forall a :: a in m && a !in ws ==> m'[a] == m[a]
  }

  /** No link word of the list is in `ws`. */
  ghost predicate LinksClear(f: seq<int>, ws: set<int>, sh: Shape) {
    forall k :: 0 <= k < |f| ==> f[k] + sh.next !in ws && f[k] + sh.prev !in ws
  }

  lemma LinkedFrame(m: Mem, m': Mem, f: seq<int>, ws: set<int>, sh: Shape)
    requires Linked(m, f, sh) && SameExcept(m, m', ws) && LinksClear(f, ws, sh)
    ensures Linked(m', f, sh)
  {
    forall k | 0 <= k < |f|
      ensures Node(m', f, k, sh)
    {
      assert Node(m, f, k, sh);
    }
  }

  function Inserted(f: seq<int>, k: nat, n: int): seq<int>
    requires k <= |f|
  {
    f[..k] + [n] + f[k..]
  }

  function Removed(f: seq<int>, k: nat): seq<int>
    requires k < |f|
  {
    f[..k] + f[k + 1..]
  }

  /** The header at `n` fits between positions k - 1 and k. */
  ghost predicate Fits(f: seq<int>, k: nat, n: int, sh: Shape)
    requires k <= |f|
  {
    && n >= sh.bytes
    && (forall i :: 0 <= i < k ==> f[i] + sh.bytes <= n)
    && (forall i :: k <= i < |f| ==> n + sh.bytes <= f[i])
  }

  /** A header apart from another: no word of one is a word of the other. */
  predicate Clear(a: int, b: int, sh: Shape) {
    a + sh.bytes <= b || b + sh.bytes <= a
  }

  /** The link words an insertion writes. */
  lemma ListInsert(m: Mem, m': Mem, f: seq<int>, k: nat, n: int, sh: Shape)
    requires Good(sh) && Linked(m, f, sh) && k <= |f| && Fits(f, k, n, sh)
    requires SameExcept(m, m', {n + sh.next, n + sh.prev, At(f, k - 1) + sh.next, At(f, k) + sh.prev})
    requires Holds(m', n + sh.next, At(f, k)) && Holds(m', n + sh.prev, At(f, k - 1))
    requires k > 0 ==> Holds(m', f[k - 1] + sh.next, n)
    requires k < |f| ==> Holds(m', f[k] + sh.prev, n)
    ensures Linked(m', Inserted(f, k, n), sh)
  {
    hide Holds, SameExcept, Fits;
    InsertedSpaced(f, k, n, sh);
    forall i | 0 <= i < |Inserted(f, k, n)|
      ensures Node(m', Inserted(f, k, n), i, sh)
    {
      InsertedNode(m, m', f, k, n, i, sh);
    }
  }

  lemma InsertedNode(m: Mem, m': Mem, f: seq<int>, k: nat, n: int, i: nat, sh: Shape)
    requires Good(sh) && Linked(m, f, sh) && k <= |f| && Fits(f, k, n, sh) && i <= |f|
    requires SameExcept(m, m', {n + sh.next, n + sh.prev, At(f, k - 1) + sh.next, At(f, k) + sh.prev})
    requires Holds(m', n + sh.next, At(f, k)) && Holds(m', n + sh.prev, At(f, k - 1))
    requires k > 0 ==> Holds(m', f[k - 1] + sh.next, n)
    requires k < |f| ==> Holds(m', f[k] + sh.prev, n)
    ensures Node(m', Inserted(f, k, n), i, sh)
  {
    hide Holds, SameExcept, Fits, Linked;
    InsertedAt(f, k, n, i);
    if i != k { InsertNode(m, m', f, k, n, if i < k then i else i - 1, sh); }
  }

  lemma InsertedAt(f: seq<int>, k: nat, n: int, i: nat)
    requires k <= |f| && i <= |f|
    ensures var g, j := Inserted(f, k, n), if i < k then i else i - 1;
      if i == k then g[i] == n && At(g, i + 1) == At(f, k) && At(g, i - 1) == At(f, k - 1)
      else
        && g[i] == f[j]
        && At(g, i + 1) == (if j + 1 == k then n else At(f, j + 1))
        && At(g, i - 1) == (if j == k then n else At(f, j - 1))
  {
  }

  lemma InsertedSpaced(f: seq<int>, k: nat, n: int, sh: Shape)
    requires Spaced(f, sh) && k <= |f| && Fits(f, k, n, sh)
    ensures Spaced(Inserted(f, k, n), sh)
  {
    var g := Inserted(f, k, n);
    forall i, j | 0 <= i < j < |g|
      ensures g[i] + sh.bytes <= g[j]
    {
      assert i != k ==> g[i] == f[if i < k then i else i - 1];
      assert j != k ==> g[j] == f[if j < k then j else j - 1];
    }
  }

  lemma InsertNode(m: Mem, m': Mem, f: seq<int>, k: nat, n: int, j: nat, sh: Shape)
    requires Good(sh) && Linked(m, f, sh) && k <= |f| && Fits(f, k, n, sh) && j < |f|
    requires SameExcept(m, m', {n + sh.next, n + sh.prev, At(f, k - 1) + sh.next, At(f, k) + sh.prev})
    requires k > 0 ==> Holds(m', f[k - 1] + sh.next, n)
    requires k < |f| ==> Holds(m', f[k] + sh.prev, n)
    ensures Holds(m', f[j] + sh.next, if j + 1 == k then n else At(f, j + 1))
    ensures Holds(m', f[j] + sh.prev, if j == k then n else At(f, j - 1))
  {
    assert Node(m, f, j, sh);
    assert Clear(f[j], n, sh);
    assert Clear(f[j], At(f, k - 1), sh) || j == k - 1;
    assert Clear(f[j], At(f, k), sh) || j == k;
  }

  /** The two link words a removal writes. */
  lemma ListRemove(m: Mem, m': Mem, f: seq<int>, k: nat, sh: Shape)
    requires Good(sh) && Linked(m, f, sh) && k < |f|
    requires SameExcept(m, m', {At(f, k - 1) + sh.next, At(f, k + 1) + sh.prev})
    requires k > 0 ==> Holds(m', f[k - 1] + sh.next, At(f, k + 1))
    requires k + 1 < |f| ==> Holds(m', f[k + 1] + sh.prev, At(f, k - 1))
    ensures Linked(m', Removed(f, k), sh)
  {
    hide Holds, SameExcept;
    var g := Removed(f, k);
    forall i | 0 <= i < |g|
      ensures Node(m', g, i, sh)
    {
      RemovedAt(f, k, i);
      RemoveNode(m, m', f, k, if i < k then i else i + 1, sh);
    }
    RemovedSpaced(f, k, sh);
  }

  lemma RemovedAt(f: seq<int>, k: nat, i: nat)
    requires k < |f| && i + 1 < |f|
    ensures var g, j := Removed(f, k), if i < k then i else i + 1;
      && g[i] == f[j]
      && At(g, i + 1) == (if j + 1 == k then At(f, k + 1) else At(f, j + 1))
      && At(g, i - 1) == (if j == k + 1 then At(f, k - 1) else At(f, j - 1))
  {
  }

  lemma RemovedSpaced(f: seq<int>, k: nat, sh: Shape)
    requires Spaced(f, sh) && k < |f|
    ensures Spaced(Removed(f, k), sh)
  {
    var g := Removed(f, k);
    forall i, j | 0 <= i < j < |g|
      ensures g[i] + sh.bytes <= g[j]
    {
      assert g[i] == f[if i < k then i else i + 1];
      assert g[j] == f[if j < k then j else j + 1];
    }
  }

  lemma RemoveNode(m: Mem, m': Mem, f: seq<int>, k: nat, j: nat, sh: Shape)
    requires Good(sh) && Linked(m, f, sh) && k < |f| && j < |f| && j != k
    requires SameExcept(m, m', {At(f, k - 1) + sh.next, At(f, k + 1) + sh.prev})
    requires k > 0 ==> Holds(m', f[k - 1] + sh.next, At(f, k + 1))
    requires k + 1 < |f| ==> Holds(m', f[k + 1] + sh.prev, At(f, k - 1))
    ensures Holds(m', f[j] + sh.next, if j + 1 == k then At(f, k + 1) else At(f, j + 1))
    ensures Holds(m', f[j] + sh.prev, if j == k + 1 then At(f, k - 1) else At(f, j - 1))
  {
    assert Node(m, f, j, sh);
    assert Clear(f[j], At(f, k - 1), sh) || j == k - 1;
    assert Clear(f[j], At(f, k + 1), sh) || j == k + 1;
  }

  // ----- Headers -----

  ghost predicate BlockShown(m: Mem, b: Block, sh: Shape) {
    && b.addr + sh.size in m && b.addr + sh.used in m && b.addr + sh.next in m && b.addr + sh.prev in m
    && m[b.addr + sh.size] == b.size
    && m[b.addr + sh.used] == if b.used then 1 else 0
  }

  ghost predicate HeadersShown(m: Mem, bs: seq<Block>, sh: Shape) {
    forall i :: 0 <= i < |bs| ==> BlockShown(m, bs[i], sh)
  }

  /** No size or used word of these blocks is in `ws`. */
  ghost predicate HeadersClear(bs: seq<Block>, ws: set<int>, sh: Shape) {
    forall i :: 0 <= i < |bs| ==> bs[i].addr + sh.size !in ws && bs[i].addr + sh.used !in ws
  }

  lemma HeadersFrame(m: Mem, m': Mem, bs: seq<Block>, ws: set<int>, sh: Shape)
    requires HeadersShown(m, bs, sh) && SameExcept(m, m', ws) && HeadersClear(bs, ws, sh)
    ensures HeadersShown(m', bs, sh)
  {
    forall i | 0 <= i < |bs|
      ensures BlockShown(m', bs[i], sh)
    {
      assert BlockShown(m, bs[i], sh);
    }
  }

  lemma HeadersAppend(m: Mem, a: seq<Block>, b: seq<Block>, sh: Shape)
    ensures HeadersShown(m, a + b, sh) <==> HeadersShown(m, a, sh) && HeadersShown(m, b, sh)
  {
    if HeadersShown(m, a + b, sh) {
      forall i | 0 <= i < |a|
        ensures BlockShown(m, a[i], sh)
      {
        assert (a + b)[i] == a[i];
      }
      forall i | 0 <= i < |b|
        ensures BlockShown(m, b[i], sh)
      {
        assert (a + b)[|a| + i] == b[i];
      }
    }
  }

  // ----- Payloads -----

  /** The payload words of every live block of `bs` are as they were. */
  ghost predicate PayloadKept(m: Mem, m': Mem, bs: seq<Block>, sh: Shape) {
    && m.Keys <= m'.Keys
    && forall i, w :: 0 <= i < |bs| && bs[i].used && bs[i].addr + sh.bytes <= w < bs[i].addr + sh.bytes + bs[i].size && w in m
         ==> m'[w] == m[w]
  }

  /** The words of a block that no client owns: its header, and all of it while it is free. */
  predicate Unowned(b: Block, w: int, sh: Shape) {
    b.addr <= w < b.addr + sh.bytes + if b.used then 0 else b.size
  }

  /** Every word of `ws` is unowned, or below the heap. */
  ghost predicate AllUnowned(bs: seq<Block>, ws: set<int>, lo: int, sh: Shape) {
    forall w :: w in ws ==> w < lo || exists j :: 0 <= j < |bs| && Unowned(bs[j], w, sh)
  }

  lemma UnownedWritesKeepPayload(m: Mem, m': Mem, bs: seq<Block>, ws: set<int>, lo: int, hi: int, sh: Shape)
    requires Tiled(bs, lo, hi, sh.bytes) && SameExcept(m, m', ws) && AllUnowned(bs, ws, lo, sh)
    ensures PayloadKept(m, m', bs, sh)
  {
    forall i, w | 0 <= i < |bs| && bs[i].used && bs[i].addr + sh.bytes <= w < bs[i].addr + sh.bytes + bs[i].size && w in m
      ensures m'[w] == m[w]
    {
      if w in ws {
        TiledAt(bs, i, lo, hi, sh.bytes);
        var j :| 0 <= j < |bs| && Unowned(bs[j], w, sh);
        if j < i { TiledSpaced(bs, j, i, lo, hi, sh.bytes); }
        if i < j { TiledSpaced(bs, i, j, lo, hi, sh.bytes); }
      }
    }
  }

  lemma PayloadSame(m: Mem, bs: seq<Block>, sh: Shape)
    ensures PayloadKept(m, m, bs, sh)
  {
  }

  lemma SameLive(a: seq<Block>, b: seq<Block>)
    requires Live(a) == Live(b)
    ensures Live(a) <= Live(b)
  {
  }

  /** Keeping every live payload is transitive while the live blocks stay live. */
  lemma PayloadTrans(m: Mem, m1: Mem, m2: Mem, bs: seq<Block>, bs1: seq<Block>, sh: Shape)
    requires PayloadKept(m, m1, bs, sh) && PayloadKept(m1, m2, bs1, sh) && Live(bs) <= Live(bs1)
    ensures PayloadKept(m, m2, bs, sh)
  {
    forall i, w | 0 <= i < |bs| && bs[i].used && bs[i].addr + sh.bytes <= w < bs[i].addr + sh.bytes + bs[i].size && w in m
      ensures m2[w] == m[w]
    {
      assert bs[i] in Live(bs1);
      var j :| 0 <= j < |bs1| && bs1[j] == bs[i];
      assert m2[w] == m1[w];
    }
  }

  // ----- Positions -----

  /** The free list, cut at a free block. */
  lemma FreeAt(bs: seq<Block>, i: nat)
    requires i < |bs| && !bs[i].used
    ensures FreeAddrs(bs) == FreeAddrs(bs[..i]) + [bs[i].addr] + FreeAddrs(bs[i + 1..])
  {
    assert bs == bs[..i] + bs[i..] && bs[i..][1..] == bs[i + 1..];
    FreeAppend(bs[..i], bs[i..]);
  }

  /** A list, seen from one of its elements. */
  lemma Cut(a: seq<int>, c: int, b: seq<int>)
    ensures var f, k := a + [c] + b, |a|;
      && k < |f| && f[k] == c && f[..k] == a && f[k + 1..] == b
      && At(f, k - 1) == At(a, k - 1) && At(f, k + 1) == At(b, 0)
      && Removed(f, k) == a + b
  {
  }

  lemma CutInsert(a: seq<int>, c: int, b: seq<int>, r: int)
    ensures var f, k := a + [c] + b, |a|;
      && Removed(Inserted(f, k + 1, r), k) == a + [r] + b
      && At(Inserted(f, k + 1, r), k) == c
      && At(Inserted(f, k + 1, r), k - 1) == At(a, k - 1) && At(Inserted(f, k + 1, r), k + 1) == r
  {
    var f, k := a + [c] + b, |a|;
    assert f[..k + 1] == a + [c] && f[k + 1..] == b;
  }

  /** The first free block from `i` on, or the length. */
  ghost function NextFree(bs: seq<Block>, i: nat): (j: nat)
    requires i <= |bs|
    ensures i <= j <= |bs|
    ensures j < |bs| ==> !bs[j].used
    ensures forall k :: i <= k < j ==> bs[k].used
    decreases |bs| - i
  {
    if i == |bs| || !bs[i].used then i else NextFree(bs, i + 1)
  }

  /** The head of the free list from `i` on is the next free block. */
  lemma {:induction false} HeadIsNextFree(bs: seq<Block>, i: nat)
    requires i <= |bs|
    ensures At(FreeAddrs(bs[i..]), 0) == (if NextFree(bs, i) < |bs| then bs[NextFree(bs, i)].addr else 0)
    ensures FreeAddrs(bs[i..]) == FreeAddrs(bs[NextFree(bs, i)..])
    decreases |bs| - i
  {
    if i < |bs| {
      assert bs[i..][1..] == bs[i + 1..];
      if bs[i].used { HeadIsNextFree(bs, i + 1); }
    }
  }

  lemma {:induction false} NoFree(bs: seq<Block>)
    requires forall i :: 0 <= i < |bs| ==> bs[i].used
    ensures FreeAddrs(bs) == []
  {
    if bs != [] { NoFree(bs[1..]); }
  }

  /** Free addresses are those of blocks, so they are as far apart as blocks are. */
  lemma {:induction false} FreeSpaced(bs: seq<Block>, lo: int, hi: int, sh: Shape)
    requires Tiled(bs, lo, hi, sh.bytes) && lo >= sh.bytes
    ensures Spaced(FreeAddrs(bs), sh)
    ensures forall k :: 0 <= k < |FreeAddrs(bs)| ==> lo <= FreeAddrs(bs)[k] && FreeAddrs(bs)[k] + sh.bytes <= hi
  {
    if bs != [] {
      FreeSpaced(bs[1..], lo + sh.bytes + bs[0].size, hi, sh);
      TiledSpan(bs[1..], lo + sh.bytes + bs[0].size, hi, sh.bytes);
    }
  }

  lemma {:induction false} FreeIsBlock(bs: seq<Block>, k: nat) returns (j: nat)
    requires k < |FreeAddrs(bs)|
    ensures j < |bs| && !bs[j].used && bs[j].addr == FreeAddrs(bs)[k]
  {
    if !bs[0].used && k == 0 {
      return 0;
    }
    var i := FreeIsBlock(bs[1..], if bs[0].used then k else k - 1);
    return i + 1;
  }

  /** Blocks are at least a header apart. */
  lemma BlocksApart(bs: seq<Block>, lo: int, hi: int, sh: Shape)
    requires Tiled(bs, lo, hi, sh.bytes)
    ensures forall i, j :: 0 <= i < j < |bs| ==> bs[i].addr + sh.bytes <= bs[j].addr
    ensures forall i :: 0 <= i < |bs| ==> lo <= bs[i].addr && bs[i].addr + sh.bytes <= hi
  {
    forall i, j | 0 <= i < j < |bs|
      ensures bs[i].addr + sh.bytes <= bs[j].addr
    {
      TiledSpaced(bs, i, j, lo, hi, sh.bytes);
      TiledAt(bs, i, lo, hi, sh.bytes);
    }
    forall i | 0 <= i < |bs|
      ensures lo <= bs[i].addr && bs[i].addr + sh.bytes <= hi
    {
      TiledAt(bs, i, lo, hi, sh.bytes);
    }
  }

  // ----- Memory against layout -----

  /** Memory holds exactly these blocks, with the free ones on the list that starts at `head`. */
  ghost predicate Shows(m: Mem, bs: seq<Block>, head: int, sh: Shape) {
    && HeadersShown(m, bs, sh)
    && Linked(m, FreeAddrs(bs), sh)
    && head == At(FreeAddrs(bs), 0)
  }

  /** `x` is the null pointer or the address of a block. */
  ghost predicate IsBlockAddr(bs: seq<Block>, x: int) {
    x == 0 || exists j :: 0 <= j < |bs| && bs[j].addr == x
  }

  lemma ListAddr(bs: seq<Block>, k: int)
    ensures IsBlockAddr(bs, At(FreeAddrs(bs), k))
  {
    if 0 <= k < |FreeAddrs(bs)| {
      var j := FreeIsBlock(bs, k);
    }
  }

  /** A link word of a block is no size or used word of any block. */
  lemma LinkWordClear(bs: seq<Block>, x: int, lo: int, hi: int, sh: Shape)
    requires Good(sh) && Tiled(bs, lo, hi, sh.bytes) && lo >= sh.bytes && IsBlockAddr(bs, x)
    ensures HeadersClear(bs, {x + sh.next, x + sh.prev}, sh)
  {
    BlocksApart(bs, lo, hi, sh);
    if x != 0 {
      var j :| 0 <= j < |bs| && bs[j].addr == x;
      LinkWordOf(bs, j, x, sh);
    }
  }

  lemma LinkWordUnowned(bs: seq<Block>, x: int, lo: int, hi: int, sh: Shape)
    requires Good(sh) && Tiled(bs, lo, hi, sh.bytes) && lo >= sh.bytes && IsBlockAddr(bs, x)
    ensures AllUnowned(bs, {x + sh.next, x + sh.prev}, lo, sh)
  {
    if x != 0 {
      var j :| 0 <= j < |bs| && bs[j].addr == x;
      TiledAt(bs, j, lo, hi, sh.bytes);
      assert Unowned(bs[j], x + sh.next, sh) && Unowned(bs[j], x + sh.prev, sh);
    }
  }

  lemma LinkWordOf(bs: seq<Block>, j: nat, x: int, sh: Shape)
    requires Good(sh) && j < |bs| && bs[j].addr == x
    requires forall i, k :: 0 <= i < k < |bs| ==> bs[i].addr + sh.bytes <= bs[k].addr
    ensures HeadersClear(bs, {x + sh.next, x + sh.prev}, sh)
  {
    forall i | 0 <= i < |bs|
      ensures i == j || Clear(bs[i].addr, x, sh)
    {
    }
  }

  lemma ClearUnion(bs: seq<Block>, a: set<int>, b: set<int>, lo: int, sh: Shape)
    ensures HeadersClear(bs, a, sh) && HeadersClear(bs, b, sh) ==> HeadersClear(bs, a + b, sh)
    ensures AllUnowned(bs, a, lo, sh) && AllUnowned(bs, b, lo, sh) ==> AllUnowned(bs, a + b, lo, sh)
  {
  }

  /** Words of block `i`'s own unowned part touch no other block's header, and no client. */
  lemma OwnWordsClear(bs: seq<Block>, i: nat, ws: set<int>, lo: int, hi: int, sh: Shape)
    requires Good(sh) && Tiled(bs, lo, hi, sh.bytes) && i < |bs|
    requires forall w :: w in ws ==> Unowned(bs[i], w, sh)
    ensures HeadersClear(bs[..i], ws, sh) && HeadersClear(bs[i + 1..], ws, sh)
    ensures AllUnowned(bs, ws, lo, sh)
  {
    TiledAt(bs, i, lo, hi, sh.bytes);
    BlocksApart(bs[..i], lo, bs[i].addr, sh);
    BlocksApart(bs[i + 1..], bs[i].addr + sh.bytes + bs[i].size, hi, sh);
  }

  /** Replacing block `i` by blocks shown in its own words, with links of two neighbours rewritten. */
  lemma ReplaceShown(m: Mem, m': Mem, bs: seq<Block>, i: nat, t: seq<Block>,
                     own: set<int>, p: int, q: int, lo: int, hi: int, sh: Shape)
    requires Good(sh) && Tiled(bs, lo, hi, sh.bytes) && lo >= sh.bytes && i < |bs|
    requires HeadersShown(m, bs, sh) && HeadersShown(m', t, sh)
    requires forall w :: w in own ==> Unowned(bs[i], w, sh)
    requires IsBlockAddr(bs, p) && IsBlockAddr(bs, q)
    requires SameExcept(m, m', own + {p + sh.next, p + sh.prev} + {q + sh.next, q + sh.prev})
    ensures HeadersShown(m', bs[..i] + t + bs[i + 1..], sh)
    ensures PayloadKept(m, m', bs, sh)
  {
    hide HeadersShown, HeadersClear, AllUnowned, IsBlockAddr, PayloadKept, SameExcept;
    var pq := {p + sh.next, p + sh.prev} + {q + sh.next, q + sh.prev};
    var ws := own + {p + sh.next, p + sh.prev} + {q + sh.next, q + sh.prev};
    assert ws == own + pq;
    ReplaceClear(bs, i, own, p, q, lo, hi, sh);
    var pre, post := bs[..i], bs[i + 1..];
    assert bs == pre + [bs[i]] + post;
    HeadersAppend(m, pre, [bs[i]], sh);
    HeadersAppend(m, pre + [bs[i]], post, sh);
    HeadersFrame(m, m', pre, ws, sh);
    HeadersFrame(m, m', post, ws, sh);
    HeadersAppend(m', pre, t, sh);
    HeadersAppend(m', pre + t, post, sh);
    UnownedWritesKeepPayload(m, m', bs, ws, lo, hi, sh);
  }

  lemma ReplaceClear(bs: seq<Block>, i: nat, own: set<int>, p: int, q: int, lo: int, hi: int, sh: Shape)
    requires Good(sh) && Tiled(bs, lo, hi, sh.bytes) && lo >= sh.bytes && i < |bs|
    requires forall w :: w in own ==> Unowned(bs[i], w, sh)
    requires IsBlockAddr(bs, p) && IsBlockAddr(bs, q)
    ensures var ws := own + ({p + sh.next, p + sh.prev} + {q + sh.next, q + sh.prev});
      && HeadersClear(bs[..i], ws, sh) && HeadersClear(bs[i + 1..], ws, sh)
      && AllUnowned(bs, ws, lo, sh)
  {
    hide IsBlockAddr, HeadersClear, AllUnowned;
    var ps, qs := {p + sh.next, p + sh.prev}, {q + sh.next, q + sh.prev};
    LinkWordClear(bs, p, lo, hi, sh);
    LinkWordClear(bs, q, lo, hi, sh);
    LinkWordUnowned(bs, p, lo, hi, sh);
    LinkWordUnowned(bs, q, lo, hi, sh);
    OwnWordsClear(bs, i, own, lo, hi, sh);
    ClearUnion(bs, ps, qs, lo, sh);
    ClearUnion(bs, own, ps + qs, lo, sh);
    ClearPart(bs, i, ps + qs, sh);
    ClearUnion(bs[..i], own, ps + qs, lo, sh);
    ClearUnion(bs[i + 1..], own, ps + qs, lo, sh);
  }

  lemma ClearPart(bs: seq<Block>, i: nat, ws: set<int>, sh: Shape)
    requires HeadersClear(bs, ws, sh) && i < |bs|
    ensures HeadersClear(bs[..i], ws, sh) && HeadersClear(bs[i + 1..], ws, sh)
  {
  }

  /** Merging a free block with its free right neighbour: one size word, and the links around the neighbour. */
  lemma MergeShown(m: Mem, m': Mem, bs: seq<Block>, i: nat, q: int, lo: int, hi: int, sh: Shape)
    requires Good(sh) && Tiled(bs, lo, hi, sh.bytes) && lo >= sh.bytes && i + 1 < |bs| && !bs[i].used && !bs[i + 1].used
    requires HeadersShown(m, bs, sh) && IsBlockAddr(bs, q)
    requires SameExcept(m, m', {bs[i].addr + sh.size, bs[i].addr + sh.next, q + sh.prev})
    requires Holds(m', bs[i].addr + sh.size, bs[i].size + sh.bytes + bs[i + 1].size)
    ensures HeadersShown(m', Merged(bs, i, sh.bytes), sh)
    ensures PayloadKept(m, m', bs, sh)
  {
    hide HeadersShown, IsBlockAddr, PayloadKept, SameExcept;
    var c, own := bs[i].addr, {bs[i].addr + sh.size};
    var merged := Merge(bs[i], bs[i + 1], sh.bytes);
    TiledAt(bs, i, lo, hi, sh.bytes);
    BlockAddr(bs, i);
    SameExceptMore(m, m', {c + sh.size, c + sh.next, q + sh.prev},
                   own + {c + sh.next, c + sh.prev} + {q + sh.next, q + sh.prev});
    ShownAt(m, bs, i, sh);
    MergedHeader(m, m', bs[i], merged, q, sh, bs, lo, hi);
    ReplaceShown(m, m', bs, i, [merged], own, c, q, lo, hi, sh);
    assert bs[i + 1..] == [bs[i + 1]] + bs[i + 2..];
    HeadersAppend(m', bs[..i] + [merged], bs[i + 1..], sh);
    HeadersAppend(m', [bs[i + 1]], bs[i + 2..], sh);
    HeadersAppend(m', bs[..i] + [merged], bs[i + 2..], sh);
  }

  lemma BlockAddr(bs: seq<Block>, i: nat)
    requires i < |bs|
    ensures IsBlockAddr(bs, bs[i].addr)
  {
  }

  lemma SameExceptMore(m: Mem, m': Mem, a: set<int>, b: set<int>)
    requires SameExcept(m, m', a) && a <= b
    ensures SameExcept(m, m', b)
  {
  }

  lemma ShownAt(m: Mem, bs: seq<Block>, i: nat, sh: Shape)
    requires HeadersShown(m, bs, sh) && i < |bs|
    ensures BlockShown(m, bs[i], sh)
  {
  }

  lemma MergedHeader(m: Mem, m': Mem, a: Block, merged: Block, q: int, sh: Shape, bs: seq<Block>, lo: int, hi: int)
    requires Good(sh) && Tiled(bs, lo, hi, sh.bytes) && lo >= sh.bytes && IsBlockAddr(bs, q) && a in bs && !a.used
    requires BlockShown(m, a, sh) && merged.addr == a.addr && !merged.used
    requires SameExcept(m, m', {a.addr + sh.size, a.addr + sh.next, q + sh.prev})
    requires Holds(m', a.addr + sh.size, merged.size)
    ensures HeadersShown(m', [merged], sh)
  {
    LinkWordClear(bs, q, lo, hi, sh);
    assert BlockShown(m', merged, sh);
  }
}
