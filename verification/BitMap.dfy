/** The predecessor's page-frame allocator: one bit per page in 32-bit words, scanned from the bottom. */
module BitMap {
  import opened PageFrames
  import opened Words

  const BITMAP_WORDS := 32768
  const MAX_PAGES := 32 * BITMAP_WORDS

  ghost predicate PageBit(words: seq<Word>, p: nat)
    requires |words| == BITMAP_WORDS && p < MAX_PAGES
  {
    TestBit(words[p / 32], p % 32)
  }

  /** Every bit of the map, as one flag a page. */
  ghost function Pages(words: seq<Word>, total: nat): (s: seq<bool>)
    requires |words| == BITMAP_WORDS && total <= MAX_PAGES
    ensures |s| == total
    ensures forall p :: 0 <= p < total ==> s[p] == PageBit(words, p)
  {
    seq(total, p requires 0 <= p < total => PageBit(words, p))
  }

  lemma SetPage(words: seq<Word>, p: nat, total: nat)
    requires |words| == BITMAP_WORDS && p < total <= MAX_PAGES
    ensures Or(words[p / 32], Pow2(p % 32)) < TWO32
    ensures Pages(words[p / 32 := Or(words[p / 32], Pow2(p % 32))], total) == Pages(words, total)[p := true]
  {
    var w := words[p / 32];
    MaskWord(p % 32);
    OrWord(w, Pow2(p % 32));
    var words' := words[p / 32 := Or(w, Pow2(p % 32))];
    forall q | 0 <= q < total
      ensures PageBit(words', q) == (q == p || PageBit(words, q))
    {
      OrBit(w, Pow2(p % 32), q % 32);
      MaskBit(p % 32, q % 32);
    }
  }

  lemma ClearPage(words: seq<Word>, p: nat, total: nat)
    requires |words| == BITMAP_WORDS && p < total <= MAX_PAGES
    ensures Pages(words[p / 32 := AndNot(words[p / 32], Pow2(p % 32))], total) == Pages(words, total)[p := false]
  {
    var w := words[p / 32];
    var words' := words[p / 32 := AndNot(w, Pow2(p % 32))];
    forall q | 0 <= q < total
      ensures PageBit(words', q) == (q != p && PageBit(words, q))
    {
      AndNotBit(w, Pow2(p % 32), q % 32);
      MaskBit(p % 32, q % 32);
    }
  }

  lemma {:induction false} MaskWord(k: nat)
    requires k < 32
    ensures Pow2(k) < TWO32
  {
    Pow2Grows(k, 31);
    assert Pow2(10) == 0x400;
    assert Pow2(20) == 0x10_0000;
    assert Pow2(31) == 0x8000_0000;
  }

  lemma {:induction false} Pow2Grows(j: nat, k: nat)
    requires j <= k
    ensures Pow2(j) <= Pow2(k)
  {
    if j < k { Pow2Grows(j, k - 1); }
  }

  lemma ClearedWords(words: seq<Word>)
    requires |words| == BITMAP_WORDS
    requires forall i :: 0 <= i < BITMAP_WORDS ==> words[i] == 0
    ensures forall p :: 0 <= p < MAX_PAGES ==> !Pages(words, MAX_PAGES)[p]
  {
    forall p | 0 <= p < MAX_PAGES
      ensures !PageBit(words, p)
    {
      ZeroBit(p % 32);
    }
  }

  /** Kernel pages are set, nothing is set from `limit` up, and the counter is exact. */
  ghost predicate Consistent(all: seq<bool>, limit: nat, count: int) {
    && KERNEL_PAGES <= limit <= |all|
    && (forall p :: 0 <= p < KERNEL_PAGES ==> all[p])
    && (forall p :: limit <= p < |all| ==> !all[p])
    && count == Count(all[..limit])
  }

  lemma SetKeeps(all: seq<bool>, limit: nat, count: int, p: nat)
    requires Consistent(all, limit, count) && KERNEL_PAGES <= p < limit && !all[p]
    ensures Consistent(all[p := true], limit, count + 1)
    ensures all[p := true][..limit] == all[..limit][p := true]
  {
    assert all[p := true][..limit] == all[..limit][p := true];
    CountUpdate(all[..limit], p, true);
  }

  lemma ClearKeeps(all: seq<bool>, limit: nat, count: int, p: nat)
    requires Consistent(all, limit, count) && KERNEL_PAGES <= p < |all| && all[p]
    ensures p < limit && count > KERNEL_PAGES
    ensures Consistent(all[p := false], limit, count - 1)
    ensures all[p := false][..limit] == all[..limit][p := false]
  {
    assert all[p := false][..limit] == all[..limit][p := false];
    CountUpdate(all[..limit], p, false);
    DecrementGuardHolds(all[..limit], p);
  }

  /** What the plain scan's free does, read off the whole map. */
  lemma FreeOnWholeMap(all: seq<bool>, limit: nat, count: int, addr: nat)
    requires Consistent(all, limit, count) && |all| == MAX_PAGES && addr < TWO32
    ensures var p := addr / PAGE_SIZE;
      && p < MAX_PAGES
      && ScanFree(all[..limit], count, addr)
         == if p < KERNEL_PAGES || !all[p] then (all[..limit], count) else (all[p := false][..limit], count - 1)
    ensures var p := addr / PAGE_SIZE;
      p >= KERNEL_PAGES && all[p] ==> p < limit && count > KERNEL_PAGES && Consistent(all[p := false], limit, count - 1)
  {
    var p := addr / PAGE_SIZE;
    if p >= KERNEL_PAGES && all[p] {
      ClearKeeps(all, limit, count, p);
    }
  }

  class BitPmm {
    var bitmap: array<Word>
    var totalPages: nat
    var usedPages: int
    var bitmapSize: nat

    /** The pages that can be told apart from spare bits: at least the kernel's own. */
    ghost function Limit(): nat
      reads `totalPages
    {
      if totalPages < KERNEL_PAGES then KERNEL_PAGES else totalPages
    }

    ghost predicate Shaped()
      reads `bitmap, `totalPages, `bitmapSize
    {
      && bitmap.Length == BITMAP_WORDS
      && totalPages < MAX_PAGES
      && bitmapSize == (totalPages + 31) / 32
    }

    ghost function AllBits(): (s: seq<bool>)
      requires bitmap.Length == BITMAP_WORDS
      reads `bitmap, bitmap
      ensures |s| == MAX_PAGES
    {
      Pages(bitmap[..], MAX_PAGES)
    }

    ghost function State(): (s: seq<bool>)
      requires Shaped()
      reads `bitmap, `totalPages, `bitmapSize, bitmap
      ensures |s| == Limit()
    {
      AllBits()[..Limit()]
    }

    ghost predicate Valid()
      reads this, bitmap
    {
      Shaped() && Consistent(AllBits(), Limit(), usedPages)
    }

    /** The counter is the number of set bits in the whole map, spare bits and all. */
    lemma CounterIsBitCount()
      requires Valid()
      ensures usedPages == Count(AllBits())
    {
      var spare := AllBits()[Limit()..];
      assert AllBits() == State() + spare;
      CountAppend(State(), spare);
      CountNone(spare);
    }

    constructor (totalMemory: Word)
      ensures Valid() && fresh(bitmap)
      ensures totalPages == totalMemory / PAGE_SIZE
      ensures KERNEL_PAGES <= totalPages ==> State() == Booted(totalPages).used && usedPages == KERNEL_PAGES
    {
      bitmap := new Word[BITMAP_WORDS](_ => 0);
      totalPages := totalMemory / PAGE_SIZE;
      bitmapSize := (totalMemory / PAGE_SIZE + 31) / 32;
      usedPages := 0;
      new;
      for i := 0 to bitmapSize
        invariant Shaped() && fresh(bitmap) && totalPages == totalMemory / PAGE_SIZE
        invariant forall j :: 0 <= j < BITMAP_WORDS ==> bitmap[j] == 0
      {
        bitmap[i] := 0;
      }
      ClearedWords(bitmap[..]);
      var kernelPages := 16 * 1024 * 1024 / PAGE_SIZE;
      for i := 0 to kernelPages
        invariant Shaped() && fresh(bitmap) && totalPages == totalMemory / PAGE_SIZE
        invariant forall p :: 0 <= p < MAX_PAGES ==> AllBits()[p] == (p < i)
      {
        SetBitOf(i);
      }
      usedPages := kernelPages;
      assert forall p :: 0 <= p < Limit() ==> State()[p] == AllBits()[p];
      CountKernelOnly(State());
    }

    /** Whether `bitmap[p / 32] & (1 << p % 32)` is nonzero. */
    method TestBitOf(p: nat) returns (b: bool)
      requires bitmap.Length == BITMAP_WORDS && p < MAX_PAGES
      ensures b == AllBits()[p]
    {
      var bitmapIndex, bitIndex := p / 32, p % 32;
      AndMask(bitmap[bitmapIndex], bitIndex);
      assert AllBits()[p] == PageBit(bitmap[..], p);
      b := And(bitmap[bitmapIndex], Pow2(bitIndex)) != 0;
    }

    /** `bitmap[p / 32] |= 1 << p % 32`. */
    method SetBitOf(p: nat)
      requires bitmap.Length == BITMAP_WORDS && p < MAX_PAGES
      modifies bitmap
      ensures AllBits() == old(AllBits())[p := true]
    {
      ghost var words := bitmap[..];
      SetPage(words, p, MAX_PAGES);
      var bitmapIndex, bitIndex := p / 32, p % 32;
      bitmap[bitmapIndex] := Or(bitmap[bitmapIndex], Pow2(bitIndex));
      assert bitmap[..] == words[p / 32 := Or(words[p / 32], Pow2(p % 32))];
    }

    /** `bitmap[p / 32] &= ~(1 << p % 32)`. */
    method ClearBitOf(p: nat)
      requires bitmap.Length == BITMAP_WORDS && p < MAX_PAGES
      modifies bitmap
      ensures AllBits() == old(AllBits())[p := false]
    {
      ghost var words := bitmap[..];
      ClearPage(words, p, MAX_PAGES);
      var bitmapIndex, bitIndex := p / 32, p % 32;
      bitmap[bitmapIndex] := AndNot(bitmap[bitmapIndex], Pow2(bitIndex));
      assert bitmap[..] == words[p / 32 := AndNot(words[p / 32], Pow2(p % 32))];
    }

    method AllocPage() returns (addr: nat)
      requires Valid()
      modifies `usedPages, bitmap
      ensures Valid()
      ensures (State(), usedPages, addr) == ScanAlloc(old(State()), old(usedPages))
    {
      ghost var all := AllBits();
      var i := KERNEL_PAGES;
      while i < totalPages
        invariant KERNEL_PAGES <= i <= Limit()
        invariant FirstFree(State(), KERNEL_PAGES, Limit()) == FirstFree(State(), i, Limit())
        invariant AllBits() == all && usedPages == old(usedPages)
      {
        var taken := TestBitOf(i);
        if !taken {
          SetKeeps(all, Limit(), usedPages, i);
          SetBitOf(i);
          usedPages := usedPages + 1;
          addr := i * PAGE_SIZE;
          return;
        }
        i := i + 1;
      }
      return 0;
    }

    method FreePage(page: Word)
      requires Valid()
      modifies `usedPages, bitmap
      ensures Valid()
      ensures (State(), usedPages) == ScanFree(old(State()), old(usedPages), page)
    {
      FreeOnWholeMap(AllBits(), Limit(), usedPages, page);
      var pageIndex := page / PAGE_SIZE;
      if pageIndex < KERNEL_PAGES {
        return;
      }
      var bitmapIndex := pageIndex / 32;
      if bitmapIndex < bitmapSize {
        var taken := TestBitOf(pageIndex);
        if taken {
          ClearBitOf(pageIndex);
          if usedPages > KERNEL_PAGES {
            usedPages := usedPages - 1;
          }
        }
      }
    }

    /** Exactly the pages below the total whose bit is clear. */
    method GetFreePages() returns (n: int)
      requires Valid()
      ensures n == totalPages - Count(State()[..totalPages])
    {
      FreeCount();
      if totalPages > usedPages {
        n := totalPages - usedPages;
      } else {
        n := 0;
      }
    }

    lemma FreeCount()
      requires Valid()
      ensures var free := totalPages - Count(State()[..totalPages]);
        free == if totalPages > usedPages then totalPages - usedPages else 0
    {
      AtLeastKernel();
      if totalPages < KERNEL_PAGES {
        CountAll(State()[..totalPages]);
      } else {
        assert State()[..totalPages] == State();
        CountBound(State());
      }
    }

    lemma AtLeastKernel()
      requires Valid()
      ensures usedPages >= KERNEL_PAGES
    {
      var kernel, rest := State()[..KERNEL_PAGES], State()[KERNEL_PAGES..];
      assert State() == kernel + rest;
      CountAppend(kernel, rest);
      CountAll(kernel);
    }
  }
}
