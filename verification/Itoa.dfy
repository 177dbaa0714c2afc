/** Integer to string: digits written backwards by signed division, then reversed in place. */
module Itoa {
  const INT_MIN := -0x8000_0000
  const INT_MAX := 0x7FFF_FFFF

  /** Digits of either sign around the zero in the middle. */
  const TABLE: string := LETTERS_DOWN + NINE_TO_ONE + ZERO_TO_NINE + LETTERS_UP
  const LETTERS_DOWN: string := "zyxwvutsrqponmlkjihgfedcba"
  const NINE_TO_ONE: string := "987654321"
  const ZERO_TO_NINE: string := "0123456789"
  const LETTERS_UP: string := "abcdefghijklmnopqrstuvwxyz"

  /** C's division, which truncates toward zero. */
  function TruncDiv(a: int, b: int): (q: int)
    requires b > 0
    ensures a >= 0 ==> q == a / b
    ensures a < 0 ==> q == -(-a / b)
  {
    if a >= 0 then a / b else -(-a / b)
  }

  /** The d-th digit: 0 to 9, then a to z. */
  function DigitChar(d: nat): char
    requires d < 36
  {
    if d < 10 then (48 + d) as char else (87 + d) as char
  }

  function Abs(v: int): nat {
    if v < 0 then -v else v
  }

  // ----- The text of a number -----

  function Digits(n: nat, base: nat): (s: string)
    requires 2 <= base <= 36
    ensures |s| > 0
    decreases n
  {
    if n < base then [DigitChar(n)]
    else
      assert n / base < n by { Smaller(n, base); }
      Digits(n / base, base) + [DigitChar(n % base)]
  }

  lemma Smaller(n: nat, base: nat)
    requires 2 <= base <= n
    ensures 0 < n / base < n
  {
    assert n == n / base * base + n % base;
    if n / base >= n { Product(n / base, base, n); }
  }

  lemma Product(q: nat, base: nat, n: nat)
    requires base >= 2 && q >= n
    ensures q * base >= 2 * n
  {
    assert q * base == q * (base - 2) + 2 * q;
  }

  function Text(v: int, base: nat): string
    requires 2 <= base <= 36
  {
    (if v < 0 then "-" else "") + Digits(Abs(v), base)
  }

  // ----- Reading it back -----

  function DigitValue(c: char): int {
    if '0' <= c <= '9' then c as int - '0' as int
    else if 'a' <= c <= 'z' then c as int - 'a' as int + 10
    else -1
  }

  function ParseNat(s: string, base: nat): int {
    if s == "" then 0 else ParseNat(s[..|s| - 1], base) * base + DigitValue(s[|s| - 1])
  }

  function Parse(s: string, base: nat): int {
    if s != "" && s[0] == '-' then -ParseNat(s[1..], base) else ParseNat(s, base)
  }

  lemma DigitCharValue(d: nat)
    requires d < 36
    ensures DigitValue(DigitChar(d)) == d && DigitChar(d) != '-'
    ensures DigitChar(d) == '0' <==> d == 0
  {
  }

  /** The digits' names. */
  lemma DigitNames(d: nat)
    requires d < 36
    ensures d < 10 ==> DigitChar(d) == "0123456789"[d]
    ensures d >= 10 ==> 'a' <= DigitChar(d) <= 'z' && DigitChar(d) as int == 'a' as int + d - 10
  {
  }

  /** Digits that read as `n`: no sign among them and no zero in front unless alone. */
  ghost predicate ReadsAs(s: string, n: nat, base: nat) {
    && s != "" && ParseNat(s, base) == n
    && (forall i :: 0 <= i < |s| ==> s[i] != '-')
    && (|s| > 1 || n > 0 ==> s[0] != '0')
  }

  lemma OneRead(d: nat, base: nat)
    requires d < 36
    ensures ReadsAs([DigitChar(d)], d, base)
  {
    hide DigitChar, DigitValue;
    DigitCharValue(d);
    var s := [DigitChar(d)];
    assert s[..0] == "" && ParseNat("", base) == 0;
  }

  lemma MoreRead(s: string, q: nat, d: nat, base: nat)
    requires d < 36 && q > 0 && ReadsAs(s, q, base)
    ensures ReadsAs(s + [DigitChar(d)], q * base + d, base)
  {
    hide DigitChar, DigitValue;
    DigitCharValue(d);
    assert (s + [DigitChar(d)])[..|s|] == s;
  }

  lemma LastDigitOff(n: nat, base: nat)
    requires 2 <= base <= 36
    ensures n < base ==> Digits(n, base) == [DigitChar(n)]
    ensures n >= base ==> Digits(n, base) == Digits(n / base, base) + [DigitChar(n % base)]
  {
    hide DigitChar;
  }

  lemma {:induction false} DigitsRead(n: nat, base: nat)
    requires 2 <= base <= 36
    ensures ReadsAs(Digits(n, base), n, base)
    decreases n
  {
    hide ReadsAs, DigitChar, Digits;
    LastDigitOff(n, base);
    if n < base {
      OneRead(n, base);
    } else {
      Smaller(n, base);
      DigitsRead(n / base, base);
      MoreRead(Digits(n / base, base), n / base, n % base, base);
      assert n == n / base * base + n % base;
    }
  }

  /** A sign in front of digits is read as a sign. */
  lemma Signed(d: string, base: nat, minus: bool)
    requires d != "" && d[0] != '-'
    ensures Parse((if minus then "-" else "") + d, base) == if minus then -ParseNat(d, base) else ParseNat(d, base)
  {
    hide ParseNat;
    if minus {
      assert ("-" + d)[1..] == d;
    } else {
      assert "" + d == d;
    }
  }

  lemma ZeroText(base: nat)
    requires 2 <= base <= 36
    ensures Text(0, base) == "0"
  {
    assert Digits(0, base) == [DigitChar(0)];
    assert "" + [DigitChar(0)] == [DigitChar(0)];
  }

  /** Parsing undoes printing, for every number and base; no leading zeros, and a minus sign exactly for negatives. */
  lemma RoundTrip(v: int, base: nat)
    requires 2 <= base <= 36
    ensures var s := Text(v, base);
      && Parse(s, base) == v
      && (s[0] == '-' <==> v < 0)
      && (forall i :: 1 <= i < |s| ==> s[i] != '-')
      && (s[if v < 0 then 1 else 0] == '0' <==> v == 0)
      && (v == 0 ==> s == "0")
  {
    hide Digits, ParseNat, DigitChar;
    DigitsRead(Abs(v), base);
    Signed(Digits(Abs(v), base), base, v < 0);
    if v == 0 { ZeroText(base); }
  }

  /** 255 below zero, in hexadecimal and in decimal. */
  lemma TextOf255()
    ensures Text(-255, 16) == "-ff" && Text(-255, 10) == "-255"
  {
    LastDigitOff(15, 16);
    LastDigitOff(255, 16);
    LastDigitOff(2, 10);
    LastDigitOff(25, 10);
    LastDigitOff(255, 10);
  }

  /** Distinct numbers print differently. */
  lemma Injective(v: int, w: int, base: nat)
    requires 2 <= base <= 36 && Text(v, base) == Text(w, base)
    ensures v == w
  {
    RoundTrip(v, base);
    RoundTrip(w, base);
  }

  function Power(base: nat, k: nat): nat {
    if k == 0 then 1 else base * Power(base, k - 1)
  }

  lemma {:induction false} DigitsBound(n: nat, base: nat, k: nat)
    requires 2 <= base <= 36 && k > 0 && n < Power(base, k)
    ensures |Digits(n, base)| <= k
    decreases k
  {
    if k == 1 {
      assert Power(base, 0) == 1;
    } else if n >= base {
      Smaller(n, base);
      QuotientBound(n, base, Power(base, k - 1));
      DigitsBound(n / base, base, k - 1);
    }
  }

  lemma QuotientBound(n: nat, base: nat, p: nat)
    requires base > 0 && n < base * p
    ensures n / base < p
  {
    assert n == n / base * base + n % base;
    if n / base >= p { Scaled(n / base, p, base); }
  }

  lemma Scaled(q: nat, p: nat, base: nat)
    requires q >= p
    ensures q * base >= base * p
  {
    assert q * base == p * base + (q - p) * base;
  }

  /** In base 10 a 32-bit number takes at most 11 characters; in any base at most 33. */
  lemma TextBound(v: int, base: nat)
    requires INT_MIN <= v <= INT_MAX && 2 <= base <= 36
    ensures base == 10 ==> |Text(v, base)| <= 11
    ensures |Text(v, base)| <= 33
  {
    if base == 10 {
      PowersOfTen();
      DigitsBound(Abs(v), 10, 10);
    }
    PowersOfTwo();
    PowerGrows(2, base, 32);
    DigitsBound(Abs(v), base, 32);
  }

  lemma PowersOfTen()
    ensures Power(10, 10) == 1_00000_00000
  {
    assert Power(10, 5) == 1_00000;
  }

  lemma PowersOfTwo()
    ensures Power(2, 32) == 0x1_0000_0000
  {
    assert Power(2, 8) == 0x100;
    assert Power(2, 16) == 0x1_0000;
    assert Power(2, 24) == 0x100_0000;
  }

  lemma {:induction false} PowerGrows(a: nat, b: nat, k: nat)
    requires a <= b
    ensures Power(a, k) <= Power(b, k)
  {
    if k > 0 {
      PowerGrows(a, b, k - 1);
      Products(a, b, Power(a, k - 1), Power(b, k - 1));
    }
  }

  lemma Products(a: nat, b: nat, p: nat, q: nat)
    requires a <= b && p <= q
    ensures a * p <= b * q
  {
    assert b * q == a * q + (b - a) * q;
    assert a * q == a * p + a * (q - p);
  }

  // ----- The program -----

  function Reversed(s: string): string {
    if s == "" then "" else Reversed(s[1..]) + [s[0]]
  }

  lemma {:induction false} ReversedAt(s: string, k: nat)
    requires k < |s|
    ensures |Reversed(s)| == |s| && Reversed(s)[k] == s[|s| - 1 - k]
  {
    if |s| > 1 {
      ReversedAt(s[1..], if k < |s| - 1 then k else 0);
    }
  }

  lemma {:induction false} ReversedAppend(s: string, c: char)
    ensures Reversed(s + [c]) == [c] + Reversed(s)
  {
    if s != "" {
      assert (s + [c])[1..] == s[1..] + [c];
      ReversedAppend(s[1..], c);
    } else {
      assert (s + [c])[1..] == "";
    }
  }

  /** One digit written: the digits still to come are those of the quotient. */
  lemma OneDigit(n: nat, base: nat, done: string, all: string)
    requires 2 <= base <= 36
    requires Digits(n, base) + Reversed(done) == all
    ensures var now := done + [DigitChar(n % base)];
      && (n / base != 0 ==> Digits(n / base, base) + Reversed(now) == all && n / base < n)
      && (n / base == 0 ==> Reversed(now) == all)
  {
    hide Reversed, DigitChar;
    var c := DigitChar(n % base);
    ReversedAppend(done, c);
    if n >= base {
      Smaller(n, base);
      assert Digits(n, base) == Digits(n / base, base) + [c];
      assert Digits(n / base, base) + ([c] + Reversed(done)) == (Digits(n / base, base) + [c]) + Reversed(done);
    } else {
      QuotientBound(n, base, 1);
      LastDigit(n, base);
    }
  }

  lemma LastDigit(n: nat, base: nat)
    requires n < base
    ensures n / base == 0 && n % base == n
  {
  }

  lemma LetterUp(e: nat)
    requires e < 26
    ensures LETTERS_UP[e] == (97 + e) as char
  {
    if e < 13 { assert LETTERS_UP[e] == "abcdefghijklm"[e]; } else { assert LETTERS_UP[e] == "nopqrstuvwxyz"[e - 13]; }
  }

  lemma LetterDown(e: nat)
    requires e < 26
    ensures LETTERS_DOWN[e] == (122 - e) as char
  {
    if e < 13 { assert LETTERS_DOWN[e] == "zyxwvutsrqpon"[e]; } else { assert LETTERS_DOWN[e] == "mlkjihgfedcba"[e - 13]; }
  }

  lemma DigitUp(e: nat)
    requires e < 10
    ensures ZERO_TO_NINE[e] == (48 + e) as char
  {
  }

  lemma DigitDown(e: nat)
    requires e < 9
    ensures NINE_TO_ONE[e] == (57 - e) as char
  {
  }

  lemma TableLengths()
    ensures |LETTERS_DOWN| == 26 && |NINE_TO_ONE| == 9 && |ZERO_TO_NINE| == 10 && |LETTERS_UP| == 26
  {
  }

  /** The table is indexed by a remainder of either sign. */
  lemma TableDigit(d: nat)
    requires d < 36
    ensures |TABLE| == 71 && TABLE[35 + d] == TABLE[35 - d] == DigitChar(d)
  {
    hide LETTERS_DOWN, LETTERS_UP, ZERO_TO_NINE, NINE_TO_ONE;
    TableLengths();
    if d < 10 {
      DigitUp(d);
      if d > 0 { DigitDown(9 - d); }
    } else {
      LetterUp(d - 10);
      LetterDown(35 - d);
    }
  }

  lemma SignedRest(v: int, base: nat)
    requires base > 0
    ensures var q := TruncDiv(v, base);
      && v - q * base == (if v < 0 then -(Abs(v) % base) else Abs(v) % base)
      && Abs(q) == Abs(v) / base
  {
    var n := Abs(v);
    assert n == n / base * base + n % base;
  }

  method Itoa(value: int, str: array<char>, base: nat)
    requires INT_MIN <= value <= INT_MAX && 2 <= base <= 36
    requires |Text(value, base)| < str.Length
    modifies str
    ensures str[..|Text(value, base)|] == Text(value, base)
    ensures str[|Text(value, base)|] == '\0'
    ensures forall i :: |Text(value, base)| < i < str.Length ==> str[i] == old(str[i])
  {
    hide Digits, Reversed;
    var ptr, last := WriteDigits(value, str, base);
    ghost var digits := str[..ptr];
    if last < 0 {
      str[ptr] := '-';
      ptr := ptr + 1;
    }
    str[ptr] := '\0';
    Backwards(value, base, digits);
    assert str[..ptr] == digits + (if value < 0 then "-" else "");
    ReversedLength(str[..ptr]);
    Reverse(str, ptr);
  }

  lemma Backwards(value: int, base: nat, digits: string)
    requires 2 <= base <= 36 && Reversed(digits) == Digits(Abs(value), base)
    ensures Reversed(digits + (if value < 0 then "-" else "")) == Text(value, base)
  {
    hide Digits, Reversed;
    if value < 0 {
      ReversedAppend(digits, '-');
    } else {
      assert digits + "" == digits;
      assert "" + Digits(Abs(value), base) == Digits(Abs(value), base);
    }
  }

  lemma {:induction false} ReversedLength(s: string)
    ensures |Reversed(s)| == |s|
  {
    if s != "" { ReversedLength(s[1..]); }
  }

  /** The digits, last first, and the number that gave the last one written. */
  method WriteDigits(value: int, str: array<char>, base: nat) returns (ptr: nat, last: int)
    requires 2 <= base <= 36 && |Digits(Abs(value), base)| < str.Length
    modifies str
    ensures ptr == |Digits(Abs(value), base)| && Reversed(str[..ptr]) == Digits(Abs(value), base)
    ensures last < 0 <==> value < 0
    ensures forall i :: ptr <= i < str.Length ==> str[i] == old(str[i])
  {
    hide Reversed;
    ghost var all := Digits(Abs(value), base);
    var v := value;
    ptr, last := 0, value;
    assert Reversed("") == "" by { ReversedLength(""); }
    var going := true;
    while going
      invariant ptr <= |all| && (last < 0 <==> value < 0)
      invariant going ==> Digits(Abs(v), base) + Reversed(str[..ptr]) == all && (v < 0 <==> value < 0)
      invariant !going ==> Reversed(str[..ptr]) == all && ptr == |all|
      invariant forall i :: ptr <= i < str.Length ==> str[i] == old(str[i])
      decreases going, Abs(v)
    {
      ghost var done := str[..ptr];
      ReversedLength(done);
      OneDigit(Abs(v), base, done, all);
      last := v;
      v := TruncDiv(v, base);
      str[ptr] := DigitAt(last - v * base, last, base);
      ptr := ptr + 1;
      assert str[..ptr] == done + [DigitChar(Abs(last) % base)];
      ReversedLength(str[..ptr]);
      going := v != 0;
    }
  }

  /** The table's entry for the remainder of `v`, whatever the sign of `v`. */
  function DigitAt(r: int, v: int, base: nat): (c: char)
    requires 2 <= base <= 36 && r == v - TruncDiv(v, base) * base
    ensures c == DigitChar(Abs(v) % base) && Abs(TruncDiv(v, base)) == Abs(v) / base
  {
    SignedRest(v, base);
    TableDigit(Abs(r));
    TABLE[35 + r]
  }

  /** The two pointers moving towards each other. */
  method Reverse(str: array<char>, n: nat)
    requires n < str.Length
    modifies str
    ensures str[..n] == Reversed(old(str[..n]))
    ensures forall i :: n <= i < str.Length ==> str[i] == old(str[i])
  {
    var lo, hi := 0, n - 1;
    while lo < hi
      invariant 0 <= lo <= hi + 1 && lo + hi == n - 1
      invariant forall k :: 0 <= k < lo ==> str[k] == old(str[n - 1 - k]) && str[n - 1 - k] == old(str[k])
      invariant forall k :: lo <= k <= hi ==> str[k] == old(str[k])
      invariant forall k :: n <= k < str.Length ==> str[k] == old(str[k])
    {
      str[lo], str[hi] := str[hi], str[lo];
      lo := lo + 1;
      hi := hi - 1;
    }
    ghost var was := old(str[..n]);
    ReversedLength(was);
    forall k | 0 <= k < n
      ensures str[..n][k] == Reversed(was)[k]
    {
      ReversedAt(was, k);
      assert k >= lo && k > hi ==> str[k] == old(str[n - 1 - k]);
    }
  }
}
