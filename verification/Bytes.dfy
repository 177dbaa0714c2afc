/** A 32-bit store at any byte offset inside a frame, low byte first. */
module Bytes {
  import opened Words

  /** `1 << 8 * k`. */
  function Shift(k: nat): (s: nat)
    requires k < 4
    ensures s > 0
  {
    if k == 0 then 1 else if k == 1 then 0x100 else if k == 2 then 0x1_0000 else 0x100_0000
  }

  function ByteOf(w: Word, b: nat): nat
    requires b < 4
  {
    w / Shift(b) % 0x100
  }

  function ByteAt(words: seq<Word>, o: nat): nat
    requires o / 4 < |words|
  {
    ByteOf(words[o / 4], o % 4)
  }

  /** The word the store begins in: its low `k` bytes stay. */
  function Front(w: Word, v: Word, k: nat): Word
    requires 0 < k < 4
  {
    w % Shift(k) + Shift(k) * (v % Shift(4 - k))
  }

  /** The word the store ends in: its low `k` bytes are the value's high ones. */
  function Back(w: Word, v: Word, k: nat): Word
    requires 0 < k < 4
  {
    w / Shift(k) * Shift(k) + v / Shift(4 - k)
  }

  function StoreAt(words: seq<Word>, off: nat, v: Word): (r: seq<Word>)
    requires off + 4 <= 4 * |words|
    ensures |r| == |words|
  {
    var i, k := off / 4, off % 4;
    if k == 0 then words[i := v]
    else words[i := Front(words[i], v, k)][i + 1 := Back(words[i + 1], v, k)]
  }

  // ----- Words as bytes -----

  type Byte = x: int | 0 <= x < 0x100

  function Join(a: Byte, b: Byte, c: Byte, d: Byte): Word {
    a + 0x100 * b + 0x1_0000 * c + 0x100_0000 * d
  }

  lemma LowDigit(a: Byte, x: nat)
    ensures (a + 0x100 * x) / 0x100 == x && (a + 0x100 * x) % 0x100 == a
  {
  }

  lemma TwiceDown(w: nat)
    ensures w / 0x1_0000 == w / 0x100 / 0x100 && w / 0x100_0000 == w / 0x100 / 0x100 / 0x100
  {
  }

  lemma Joined(a: Byte, b: Byte, c: Byte, d: Byte)
    ensures var w := Join(a, b, c, d);
      && w / 0x100 == b + 0x100 * c + 0x1_0000 * d && w / 0x1_0000 == c + 0x100 * d && w / 0x100_0000 == d
      && w % 0x100 == a && w % 0x1_0000 == a + 0x100 * b && w % 0x100_0000 == a + 0x100 * b + 0x1_0000 * c
  {
    var w := Join(a, b, c, d);
    LowDigit(a, b + 0x100 * c + 0x1_0000 * d);
    LowDigit(b, c + 0x100 * d);
    LowDigit(c, d);
    TwiceDown(w);
  }

  lemma JoinedBytes(a: Byte, b: Byte, c: Byte, d: Byte)
    ensures var w := Join(a, b, c, d);
      ByteOf(w, 0) == a && ByteOf(w, 1) == b && ByteOf(w, 2) == c && ByteOf(w, 3) == d
  {
    Joined(a, b, c, d);
    LowDigit(b, c + 0x100 * d);
    LowDigit(c, d);
  }

  lemma Split(w: Word) returns (a: Byte, b: Byte, c: Byte, d: Byte)
    ensures w == Join(a, b, c, d)
  {
    a, b, c, d := w % 0x100, w / 0x100 % 0x100, w / 0x100 / 0x100 % 0x100, w / 0x100 / 0x100 / 0x100;
  }

  lemma FrontByte(w: Word, v: Word, k: nat, b: nat)
    requires 0 < k < 4 && b < 4
    ensures ByteOf(Front(w, v, k), b) == if b < k then ByteOf(w, b) else ByteOf(v, b - k)
  {
    hide ByteOf;
    var w0, w1, w2, w3 := Split(w);
    var v0, v1, v2, v3 := Split(v);
    Joined(w0, w1, w2, w3);
    Joined(v0, v1, v2, v3);
    JoinedBytes(w0, w1, w2, w3);
    JoinedBytes(v0, v1, v2, v3);
    if k == 1 {
      JoinedBytes(w0, v0, v1, v2);
      assert Front(w, v, k) == Join(w0, v0, v1, v2);
    } else if k == 2 {
      JoinedBytes(w0, w1, v0, v1);
      assert Front(w, v, k) == Join(w0, w1, v0, v1);
    } else {
      JoinedBytes(w0, w1, w2, v0);
      assert Front(w, v, k) == Join(w0, w1, w2, v0);
    }
  }

  lemma BackByte(w: Word, v: Word, k: nat, b: nat)
    requires 0 < k < 4 && b < 4
    ensures ByteOf(Back(w, v, k), b) == if b < k then ByteOf(v, 4 - k + b) else ByteOf(w, b)
  {
    hide ByteOf;
    var w0, w1, w2, w3 := Split(w);
    var v0, v1, v2, v3 := Split(v);
    Joined(w0, w1, w2, w3);
    Joined(v0, v1, v2, v3);
    JoinedBytes(w0, w1, w2, w3);
    JoinedBytes(v0, v1, v2, v3);
    if k == 1 {
      JoinedBytes(v3, w1, w2, w3);
      assert Back(w, v, k) == Join(v3, w1, w2, w3);
    } else if k == 2 {
      JoinedBytes(v2, v3, w2, w3);
      assert Back(w, v, k) == Join(v2, v3, w2, w3);
    } else {
      JoinedBytes(v1, v2, v3, w3);
      assert Back(w, v, k) == Join(v1, v2, v3, w3);
    }
  }

  /** The four bytes from the offset on are the value's, all others as they were. */
  lemma StoreAtBytes(words: seq<Word>, off: nat, v: Word, o: nat)
    requires off + 4 <= 4 * |words| && o / 4 < |words|
    ensures ByteAt(StoreAt(words, off, v), o) == if off <= o < off + 4 then ByteOf(v, o - off) else ByteAt(words, o)
  {
    hide Front, Back, ByteOf;
    var i, k := off / 4, off % 4;
    if k > 0 {
      FrontByte(words[i], v, k, o % 4);
      BackByte(words[i + 1], v, k, o % 4);
    }
  }
}
