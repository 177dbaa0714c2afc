/** The kernel's page-frame allocator: one byte per page and a cursor. */
module PageMap {
  import opened PageFrames

  type uint8 = x: int | 0 <= x < 0x100

  /** Pages in that many megabytes, scaled in 32 bits: 256 each, and none of 4 GB. */
  function PagesOf(megabytes: nat): (p: nat)
    ensures p < 0x10_0000 && (megabytes < 4096 ==> p == 256 * megabytes) && (megabytes == 4096 ==> p == 0)
  {
    megabytes * 0x100000 % 0x1_0000_0000 / PAGE_SIZE
  }

  class Pmm {
    var bitmap: array<uint8>
    var totalPages: nat
    var usedPages: int
    var lastAllocIndex: nat

    /** The pages the map has bytes for: at least the kernel's own. */
    ghost function Limit(): nat
      reads `totalPages
    {
      if totalPages < KERNEL_PAGES then KERNEL_PAGES else totalPages
    }

    ghost predicate Shaped()
      reads this, bitmap
    {
      && bitmap.Length == Limit()
      && totalPages <= 0x100000
      && KERNEL_PAGES <= lastAllocIndex <= Limit()
      && forall p :: 0 <= p < bitmap.Length ==> bitmap[p] == 0 || bitmap[p] == 1
    }

    ghost function State(): (s: Frames)
      requires Shaped()
      reads this, bitmap
      ensures |s.used| == Limit() && WellFormed(s)
    {
      Frames(seq(bitmap.Length, p requires 0 <= p < bitmap.Length reads this, bitmap => bitmap[p] != 0),
             usedPages, lastAllocIndex)
    }

    ghost predicate Valid()
      reads this, bitmap
    {
      Shaped() && CursorInv(State())
    }

    /** `totalMem` is in megabytes and is scaled in 32 bits. With less than 16 MB the kernel's pages are all there is. */
    constructor (totalMem: nat)
      requires totalMem < 0x1_0000_0000
      ensures Valid() && fresh(bitmap)
      ensures totalPages == PagesOf(totalMem)
      ensures State() == Booted(Limit())
    {
      var total := totalMem * 0x100000 % 0x1_0000_0000 / PAGE_SIZE;
      assert total == PagesOf(totalMem);
      totalPages := total;
      bitmap := new uint8[if total < KERNEL_PAGES then KERNEL_PAGES else total];
      lastAllocIndex := KERNEL_PAGES;
      usedPages := 0;
      new;
      for i := 0 to totalPages
        invariant totalPages == total && bitmap.Length == Limit() && lastAllocIndex == KERNEL_PAGES && fresh(bitmap)
        invariant forall p :: 0 <= p < i ==> bitmap[p] == 0
      {
        bitmap[i] := 0;
      }
      var kernelPages := 0x1000000 / PAGE_SIZE;
      for i := 0 to kernelPages
        invariant totalPages == total && bitmap.Length == Limit() && lastAllocIndex == KERNEL_PAGES && fresh(bitmap)
        invariant forall p :: 0 <= p < i ==> bitmap[p] == 1
        invariant forall p :: i <= p < totalPages ==> bitmap[p] == 0
      {
        bitmap[i] := 1;
      }
      usedPages := kernelPages;
      assert State().used == Booted(Limit()).used;
      BootedInv(Limit());
    }

    /** The least free page in [lo, hi), or the end; nothing is searched when `lo` lies past `hi`. */
    method Scan(lo: nat, hi: nat) returns (i: nat)
      requires Shaped() && lo <= Limit() && hi <= Limit()
      ensures if lo <= hi then lo <= i <= hi && i == FirstFree(State().used, lo, hi) else i == lo
    {
      i := lo;
      while i < hi
        invariant lo <= i && (lo <= hi ==> i <= hi) && (hi < lo ==> i == lo)
        invariant lo <= hi ==> FirstFree(State().used, lo, hi) == FirstFree(State().used, i, hi)
      {
        assert State().used[i] == (bitmap[i] != 0);
        if bitmap[i] == 0 {
          return;
        }
        i := i + 1;
      }
    }

    method TakePage(i: nat) returns (addr: nat)
      requires Shaped() && KERNEL_PAGES <= i < totalPages
      modifies `usedPages, `lastAllocIndex, bitmap
      ensures Shaped() && State() == Take(old(State()), i) && addr == i * PAGE_SIZE
    {
      ghost var used := State().used;
      bitmap[i] := 1;
      usedPages := usedPages + 1;
      lastAllocIndex := i + 1;
      if lastAllocIndex >= totalPages {
        lastAllocIndex := KERNEL_PAGES;
      }
      assert State().used == used[i := true];
      addr := i * PAGE_SIZE;
    }

    /** The search from the cursor, then the search below it. */
    method AllocPage() returns (addr: nat)
      requires Shaped()
      modifies `usedPages, `lastAllocIndex, bitmap
      ensures Shaped() && (State(), addr) == CursorAlloc(old(State()))
      ensures old(Valid()) ==> Valid()
    {
      AllocKeepsInv(State());
      var start := lastAllocIndex;
      var i := Scan(start, totalPages);
      if i < totalPages {
        addr := TakePage(i);
        return;
      }
      i := Scan(KERNEL_PAGES, start);
      if i < start {
        addr := TakePage(i);
        return;
      }
      addr := 0;
    }

    method FreePage(physicalAddr: nat)
      requires Valid() && physicalAddr / PAGE_SIZE < Limit()
      modifies `usedPages, `lastAllocIndex, bitmap
      ensures Valid() && State() == CursorFree(old(State()), physicalAddr)
    {
      ghost var s := State();
      FreeKeepsInv(s, physicalAddr);
      var pageIndex := physicalAddr / PAGE_SIZE;
      if pageIndex < KERNEL_PAGES {
        return;
      }
      if bitmap[pageIndex] == 1 {
        bitmap[pageIndex] := 0;
        usedPages := usedPages - 1;
      }
      if pageIndex < lastAllocIndex {
        lastAllocIndex := pageIndex;
      }
      assert State().used == s.used[pageIndex := false];
    }
  }
}
