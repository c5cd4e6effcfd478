/** What the word operations mean bit by bit and byte by byte, in plain
    division and remainder: the reference the rest of the arithmetic stands on. */
module BitLaws {
  import opened Bytes

  /** Bit i of a number. */
  function Bit(a: nat, i: nat): (p: int)
    ensures 0 <= p <= 1
  {
    a / Pow2(i) % 2
  }

  lemma ProductGap(d: nat, a: nat, b: nat)
    requires a < b
    ensures d * a + d <= d * b
  {
    assert d * b == d * a + d * (b - a);
    assert d * (b - a) == d + d * (b - a - 1);
  }

  lemma QuotientIs(n: nat, d: nat, q: nat, r: nat)
    requires r < d && n == d * q + r
    ensures n / d == q
  {
    var k := n / d;
    assert n == d * k + n % d;
    if k < q {
      ProductGap(d, k, q);
    } else if q < k {
      ProductGap(d, q, k);
    }
  }

  lemma HalfThenDivide(a: nat, p: nat)
    requires p > 0
    ensures a / 2 / p == a / (2 * p)
  {
    var h := a / 2;
    var q, r := h / p, h % p;
    assert h == p * q + r;
    assert (2 * p) * q == 2 * (p * q);
    QuotientIs(a, 2 * p, q, 2 * r + a % 2);
  }

  lemma BitOfHalf(a: nat, i: nat)
    requires i > 0
    ensures Bit(a, i) == Bit(a / 2, i - 1)
  {
    HalfThenDivide(a, Pow2(i - 1));
  }

  lemma BitZero(a: nat)
    ensures Bit(a, 0) == a % 2
  {}

  /** Exclusive or adds bits without carrying. */
  lemma {:induction false} XorAtBit(bits: nat, a: nat, b: nat, i: nat)
    requires i < bits
    ensures Bit(Xor(bits, a, b), i) == (Bit(a, i) + Bit(b, i)) % 2
    decreases i
  {
    hide Bit;
    var x := Xor(bits, a, b);
    XorDigits(bits, a, b);
    if i == 0 {
      BitZero(a);
      BitZero(b);
      BitZero(x);
    } else {
      XorAtBit(bits - 1, a / 2, b / 2, i - 1);
      BitOfHalf(a, i);
      BitOfHalf(b, i);
      BitOfHalf(x, i);
    }
  }

  /** a >> k divides. */
  lemma {:induction false} ShiftRightIsQuotient(a: nat, k: nat)
    ensures ShiftRight(a, k) == a / Pow2(k)
  {
    if k == 0 {
    } else {
      ShiftRightIsQuotient(a / 2, k - 1);
      HalfThenDivide(a, Pow2(k - 1));
    }
  }

  lemma {:induction false} ShiftRightAtBit(a: nat, k: nat, i: nat)
    ensures Bit(ShiftRight(a, k), i) == Bit(a, k + i)
  {
    hide Bit;
    if k == 0 {
    } else {
      ShiftRightAtBit(a / 2, k - 1, i);
      BitOfHalf(a, k + i);
    }
  }

  lemma {:induction false} ShiftLeftAtBit(a: nat, k: nat, i: nat)
    ensures Bit(ShiftLeft(a, k), i) == if i < k then 0 else Bit(a, i - k)
  {
    hide Bit;
    if k == 0 {
    } else if i == 0 {
      BitZero(ShiftLeft(a, k));
    } else {
      ShiftLeftAtBit(a, k - 1, i - 1);
      BitOfHalf(ShiftLeft(a, k), i);
      assert ShiftLeft(a, k) / 2 == ShiftLeft(a, k - 1);
    }
  }

  /** The exclusive or of bytes, 32-bit words and 64-bit words. */
  lemma XorWidths(a: Byte, b: Byte, v: Word, w: Word, x: Long, y: Long, i: nat)
    ensures i < 8 ==> Bit(XorByte(a, b), i) == (Bit(a, i) + Bit(b, i)) % 2
    ensures i < 32 ==> Bit(XorWord(v, w), i) == (Bit(v, i) + Bit(w, i)) % 2
    ensures i < 64 ==> Bit(XorLong(x, y), i) == (Bit(x, i) + Bit(y, i)) % 2
  {
    hide Bit, Xor;
    if i < 8 {
      XorAtBit(8, a, b, i);
    }
    if i < 32 {
      XorAtBit(32, v, w, i);
    }
    if i < 64 {
      XorAtBit(64, x, y, i);
    }
  }

  /** Words are little-endian: the first byte is the lowest. */
  lemma Read32Bytes(s: seq<Byte>, off: nat)
    requires off + 4 <= |s|
    ensures
      var w := Read32(s, off);
      && w % 0x100 == s[off] && w / 0x100 % 0x100 == s[off + 1]
      && w / 0x1_0000 % 0x100 == s[off + 2] && w / 0x100_0000 == s[off + 3]
  {
    var w: int := Read32(s, off);
    var b, c, d := s[off + 1] as int, s[off + 2] as int, s[off + 3] as int;
    assert w / 0x100 == b + 0x100 * (c + 0x100 * d);
    assert w / 0x1_0000 == c + 0x100 * d;
    assert w / 0x100_0000 == d;
  }

  /** A word's bytes are those it was read from. */
  lemma WordsAreBytes(s: seq<Byte>, off: nat)
    requires off + 4 <= |s|
    ensures Le32(Read32(s, off)) == s[off..off + 4]
  {
    var b := s[off..off + 4];
    var w := Read32(s, off);
    assert Read32(b, 0) == w;
    Read32Determines(Le32(w), b);
    assert Le32(w)[..4] == Le32(w) && b[..4] == b;
  }
}
