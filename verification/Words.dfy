/** The bit operators of unsigned C words, on naturals, and what they mean in arithmetic. */
module Words {
  const TWO32 := 0x1_0000_0000

  type Word = x: int | 0 <= x < TWO32

  /** `1 << k`. */
  function Pow2(k: nat): (r: nat)
    ensures r > 0
  {
    if k == 0 then 1 else 2 * Pow2(k - 1)
  }

  /** Bit `k` of `w`. */
  predicate TestBit(w: nat, k: nat) {
    if k == 0 then w % 2 == 1 else TestBit(w / 2, k - 1)
  }

  /** `a | b`. */
  function Or(a: nat, b: nat): nat
    decreases a + b
  {
    if a == 0 && b == 0 then 0
    else 2 * Or(a / 2, b / 2) + if a % 2 == 1 || b % 2 == 1 then 1 else 0
  }

  /** `a & b`. */
  function And(a: nat, b: nat): nat {
    if a == 0 || b == 0 then 0
    else 2 * And(a / 2, b / 2) + if a % 2 == 1 && b % 2 == 1 then 1 else 0
  }

  /** `a & ~b`. */
  function AndNot(a: nat, b: nat): (r: nat)
    ensures r <= a
  {
    if a == 0 then 0
    else 2 * AndNot(a / 2, b / 2) + if a % 2 == 1 && b % 2 == 0 then 1 else 0
  }

  // ----- Bit by bit -----

  /** `|` on numbers split into their low bit and the rest. */
  lemma OrStep(a: nat, b: nat, x: nat, y: nat)
    requires x < 2 && y < 2
    ensures Or(2 * a + x, 2 * b + y) == 2 * Or(a, b) + if x == 1 || y == 1 then 1 else 0
  {
    assert (2 * a + x) / 2 == a && (2 * b + y) / 2 == b;
    assert (2 * a + x) % 2 == x && (2 * b + y) % 2 == y;
  }

  lemma OrHalves(a: nat, b: nat)
    ensures Or(a, b) / 2 == Or(a / 2, b / 2) && (Or(a, b) % 2 == 1 <==> a % 2 == 1 || b % 2 == 1)
  {
  }

  lemma AndNotHalves(a: nat, b: nat)
    ensures AndNot(a, b) / 2 == AndNot(a / 2, b / 2) && (AndNot(a, b) % 2 == 1 <==> a % 2 == 1 && b % 2 == 0)
  {
    if a == 0 { assert AndNot(0, b / 2) == 0; }
  }

  lemma {:induction false} OrBit(a: nat, b: nat, k: nat)
    ensures TestBit(Or(a, b), k) == (TestBit(a, k) || TestBit(b, k))
    decreases k
  {
    OrHalves(a, b);
    if k > 0 {
      hide Or;
      OrBit(a / 2, b / 2, k - 1);
    } else {
      hide Or;
    }
  }

  lemma {:induction false} AndNotBit(a: nat, b: nat, k: nat)
    ensures TestBit(AndNot(a, b), k) == (TestBit(a, k) && !TestBit(b, k))
    decreases k
  {
    AndNotHalves(a, b);
    if k > 0 {
      hide AndNot;
      AndNotBit(a / 2, b / 2, k - 1);
    } else {
      hide AndNot;
    }
  }

  lemma {:induction false} ZeroBit(k: nat)
    ensures !TestBit(0, k)
  {
    if k > 0 { ZeroBit(k - 1); }
  }

  lemma {:induction false} MaskBit(j: nat, k: nat)
    ensures TestBit(Pow2(j), k) == (j == k)
    decreases k
  {
    if j == 0 {
      if k > 0 { ZeroBit(k - 1); }
    } else if k > 0 {
      assert Pow2(j) / 2 == Pow2(j - 1);
      MaskBit(j - 1, k - 1);
    }
  }

  /** `w & (1 << k)` is nonzero exactly when bit `k` is set. */
  lemma {:induction false} AndMask(w: nat, k: nat)
    ensures And(w, Pow2(k)) != 0 <==> TestBit(w, k)
    decreases k
  {
    if w == 0 {
      ZeroBit(k);
    } else if k == 0 {
      assert And(w / 2, 0) == 0;
    } else {
      assert Pow2(k) / 2 == Pow2(k - 1) && Pow2(k) % 2 == 0;
      AndMask(w / 2, k - 1);
    }
  }

  // ----- Low bits -----

  /** `w & ~(2^k - 1)` rounds down to a multiple of `2^k`. */
  lemma {:induction false} RoundDown(q: nat, k: nat, r: nat)
    requires r < Pow2(k)
    ensures AndNot(q * Pow2(k) + r, Pow2(k) - 1) == q * Pow2(k)
    decreases k
  {
    if k == 0 {
      AndNotZero(q);
    } else {
      var p := Pow2(k - 1);
      assert q * Pow2(k) == 2 * (q * p);
      assert (Pow2(k) - 1) / 2 == p - 1 && (Pow2(k) - 1) % 2 == 1;
      assert (2 * (q * p) + r) / 2 == q * p + r / 2;
      RoundDown(q, k - 1, r / 2);
    }
  }

  lemma {:induction false} AndNotZero(w: nat)
    ensures AndNot(w, 0) == w
  {
    if w > 0 { AndNotZero(w / 2); }
  }

  lemma {:induction false} OrZero(a: nat)
    ensures Or(a, 0) == a && Or(0, a) == a
  {
    if a > 0 { OrZero(a / 2); }
  }

  lemma {:induction false} OrSwap(a: nat, b: nat)
    ensures Or(a, b) == Or(b, a)
    decreases a + b
  {
    if a > 0 || b > 0 { OrSwap(a / 2, b / 2); }
  }

  /** Flags below an aligned address are simply added. */
  lemma {:induction false} OrAligned(q: nat, k: nat, b: nat)
    requires b < Pow2(k)
    ensures Or(q * Pow2(k), b) == q * Pow2(k) + b
    decreases k
  {
    if k == 0 {
      OrZero(q);
    } else {
      var p := Pow2(k - 1);
      assert q * Pow2(k) == 2 * (q * p);
      OrAligned(q, k - 1, b / 2);
      assert (2 * (q * p)) / 2 == q * p;
    }
  }

  lemma {:induction false} OrBound(a: nat, b: nat, k: nat)
    requires a < Pow2(k) && b < Pow2(k)
    ensures Or(a, b) < Pow2(k)
    decreases k
  {
    if k > 0 { OrBound(a / 2, b / 2, k - 1); }
  }

  /** Four words from an aligned address are aligned. */
  lemma Fours(q: int)
    ensures (4 * q) % 4 == 0 && (4 * q + 4) % 4 == 0 && (4 * q + 8) % 4 == 0 && (4 * q + 12) % 4 == 0
  {
    FourTimes(q);
    FourTimes(q + 1);
    FourTimes(q + 2);
    FourTimes(q + 3);
  }

  lemma FourTimes(q: int)
    ensures (4 * q) % 4 == 0
  {
  }

  // ----- The masks the kernel uses -----

  lemma PageMask(w: nat)
    ensures AndNot(w, 0xFFF) == w - w % 4096
  {
    assert Pow2(12) == 4096;
    RoundDown(w / 4096, 12, w % 4096);
  }

  lemma EightMask(w: nat)
    ensures AndNot(w, 7) == w - w % 8
  {
    assert Pow2(3) == 8;
    RoundDown(w / 8, 3, w % 8);
  }

  lemma SixteenMask(w: nat)
    ensures AndNot(w, 15) == w - w % 16
  {
    assert Pow2(4) == 16;
    RoundDown(w / 16, 4, w % 16);
  }

  lemma OrPage(frame: nat, flags: nat)
    requires frame % 4096 == 0 && flags < 4096
    ensures Or(frame, flags) == frame + flags
  {
    assert Pow2(12) == 4096;
    OrAligned(frame / 4096, 12, flags);
  }

  lemma OrWord(a: nat, b: nat)
    requires a < TWO32 && b < TWO32
    ensures Or(a, b) < TWO32
  {
    assert Pow2(10) == 0x400;
    assert Pow2(20) == 0x10_0000;
    assert Pow2(30) == 0x4000_0000;
    OrBound(a, b, 32);
  }
}
