/** Octets, little-endian words and bitwise operations: the vocabulary every
    packet and primitive of the proxy is written in. Words are bounded
    integers; bit operations are defined one bit at a time. */
module Bytes {

  const WORD_RANGE := 0x1_0000_0000
  const LONG_RANGE := 0x1_0000_0000_0000_0000

  type Byte = x: int | 0 <= x < 0x100

  /** A 32-bit unsigned word. */
  type Word = x: int | 0 <= x < 0x1_0000_0000

  /** A 64-bit unsigned word. */
  type Long = x: int | 0 <= x < 0x1_0000_0000_0000_0000

  function Pow2(k: nat): (r: nat)
    ensures r > 0
  {
    if k == 0 then 1 else 2 * Pow2(k - 1)
  }

  function XorBit(p: int, q: int): (r: int)
    ensures 0 <= r <= 1
  {
    if p == q then 0 else 1
  }

  /** Bitwise exclusive or of the low `bits` bits of two words. */
  function Xor(bits: nat, a: nat, b: nat): (r: nat)
    ensures r < Pow2(bits)
  {
    if bits == 0 then 0
    else XorBit(a % 2, b % 2) + 2 * Xor(bits - 1, a / 2, b / 2)
  }

  /** a >> k */
  function ShiftRight(a: nat, k: nat): (r: nat) {
    if k == 0 then a else ShiftRight(a / 2, k - 1)
  }

  /** a << k, before truncation to the word width. */
  function ShiftLeft(a: nat, k: nat): (r: nat) {
    if k == 0 then a else 2 * ShiftLeft(a, k - 1)
  }

  lemma SmallRemainder(n: nat, d: nat)
    requires n < d
    ensures n % d == n
  {}

  lemma {:induction false} Pow2Add(a: nat, b: nat)
    ensures Pow2(a + b) == Pow2(a) * Pow2(b)
  {
    if a == 0 {
    } else {
      Pow2Add(a - 1, b);
    }
  }

  lemma Pow2Unfold(k: nat)
    ensures Pow2(k) == if k == 0 then 1 else 2 * Pow2(k - 1)
  {}

  lemma WordWidths()
    ensures Pow2(8) == 0x100 && Pow2(16) == 0x1_0000
    ensures Pow2(32) == WORD_RANGE && Pow2(64) == LONG_RANGE
  {
    assert Pow2(8) == 0x100;
    Pow2Add(8, 8);
    Pow2Add(16, 16);
    Pow2Add(32, 32);
  }

  function XorByte(a: Byte, b: Byte): (r: Byte) {
    WordWidths();
    Xor(8, a, b)
  }

  function XorWord(a: Word, b: Word): (r: Word) {
    WordWidths();
    Xor(32, a, b)
  }

  function XorLong(a: Long, b: Long): (r: Long) {
    WordWidths();
    Xor(64, a, b)
  }

  lemma XorUnfold(bits: nat, a: nat, b: nat)
    ensures Xor(bits, a, b) == if bits == 0 then 0 else XorBit(a % 2, b % 2) + 2 * Xor(bits - 1, a / 2, b / 2)
  {}

  lemma ShiftLeftUnfold(a: nat, k: nat)
    ensures ShiftLeft(a, k) == if k == 0 then a else 2 * ShiftLeft(a, k - 1)
  {}

  lemma XorDigits(bits: nat, a: nat, b: nat)
    requires bits > 0
    ensures Xor(bits, a, b) % 2 == XorBit(a % 2, b % 2)
    ensures Xor(bits, a, b) / 2 == Xor(bits - 1, a / 2, b / 2)
  {
    hide *;
    XorUnfold(bits, a, b);
  }

  /** Two numbers that agree on the upper bits, and on the lowest one behind
      the same mask, are equal. */
  lemma SameDigits(x: nat, y: nat, mask: int)
    requires x / 2 == y / 2 && XorBit(x % 2, mask) == XorBit(y % 2, mask)
    requires 0 <= mask <= 1
    ensures x == y
  {}

  lemma SameLowBit(x: nat, y: nat, mask: int)
    requires XorBit(x % 2, mask) == XorBit(y % 2, mask)
    requires 0 <= mask <= 1
    ensures x % 2 == y % 2
  {}

  lemma {:induction false} XorInvolution(bits: nat, a: nat, b: nat)
    requires a < Pow2(bits)
    ensures Xor(bits, Xor(bits, a, b), b) == a
  {
    if bits == 0 {
    } else {
      XorInvolution(bits - 1, a / 2, b / 2);
      XorDigits(bits, a, b);
    }
  }

  lemma {:induction false} XorZero(bits: nat, a: nat)
    requires a < Pow2(bits)
    ensures Xor(bits, a, 0) == a
  {
    if bits == 0 {
    } else {
      XorZero(bits - 1, a / 2);
    }
  }

  lemma {:induction false} XorCommutes(bits: nat, a: nat, b: nat)
    ensures Xor(bits, a, b) == Xor(bits, b, a)
  {
    if bits == 0 {
    } else {
      XorCommutes(bits - 1, a / 2, b / 2);
    }
  }

  lemma EvenPlus(s: nat, low: nat)
    ensures (2 * s + low) / 2 == s + low / 2 && (2 * s + low) % 2 == low % 2
  {}

  /** Exclusive or works on the low and the high part of a word separately. */
  lemma {:induction false} XorParts(j: nat, k: nat, a0: nat, a1: nat, b0: nat, b1: nat)
    requires a0 < Pow2(j) && b0 < Pow2(j)
    ensures Xor(j + k, a0 + ShiftLeft(a1, j), b0 + ShiftLeft(b1, j)) == Xor(j, a0, b0) + ShiftLeft(Xor(k, a1, b1), j)
  {
    hide *;
    ShiftLeftUnfold(a1, j);
    ShiftLeftUnfold(b1, j);
    ShiftLeftUnfold(Xor(k, a1, b1), j);
    Pow2Unfold(j);
    XorUnfold(j, a0, b0);
    if j == 0 {
    } else {
      XorParts(j - 1, k, a0 / 2, a1, b0 / 2, b1);
      EvenPlus(ShiftLeft(a1, j - 1), a0);
      EvenPlus(ShiftLeft(b1, j - 1), b0);
      XorUnfold(j + k, a0 + ShiftLeft(a1, j), b0 + ShiftLeft(b1, j));
    }
  }

  lemma {:induction false} ShiftRightHalf(a: nat, k: nat)
    ensures ShiftRight(a, k) / 2 == ShiftRight(a / 2, k)
  {
    if k == 0 {
    } else {
      ShiftRightHalf(a / 2, k - 1);
    }
  }

  /** x ^ (x >> k) loses nothing: the top bits stand as they are, and each
      one below is masked by a bit already known. */
  lemma {:induction false} XorShiftRightInjective(bits: nat, k: nat, x: nat, y: nat)
    requires k > 0 && x < Pow2(bits) && y < Pow2(bits)
    requires Xor(bits, x, ShiftRight(x, k)) == Xor(bits, y, ShiftRight(y, k))
    ensures x == y
  {
    if bits == 0 {
    } else {
      hide Xor;
      ShiftRightHalf(x, k);
      ShiftRightHalf(y, k);
      XorDigits(bits, x, ShiftRight(x, k));
      XorDigits(bits, y, ShiftRight(y, k));
      XorShiftRightInjective(bits - 1, k, x / 2, y / 2);
      assert ShiftRight(x, k) == ShiftRight(y, k);
    }
  }

  /** The word that x ^ (x >> k) comes from, found from the top bit down. */
  function UnXorShiftRight(bits: nat, k: nat, y: nat): (x: nat)
    requires k > 0
  {
    if bits == 0 then 0
    else
      var high := UnXorShiftRight(bits - 1, k, y / 2);
      2 * high + XorBit(y % 2, ShiftRight(high, k - 1) % 2)
  }

  lemma {:induction false} XorShiftRightOnto(bits: nat, k: nat, y: nat)
    requires k > 0 && y < Pow2(bits)
    ensures
      var x := UnXorShiftRight(bits, k, y);
      x < Pow2(bits) && Xor(bits, x, ShiftRight(x, k)) == y
  {
    if bits == 0 {
    } else {
      XorShiftRightOnto(bits - 1, k, y / 2);
      var high := UnXorShiftRight(bits - 1, k, y / 2);
      var x := 2 * high + XorBit(y % 2, ShiftRight(high, k - 1) % 2);
      assert x / 2 == high;
      ShiftRightHalf(x, k);
      assert ShiftRight(x, k) == ShiftRight(high, k - 1);
    }
  }

  lemma {:induction false} ShiftLeftIsProduct(x: nat, k: nat)
    ensures ShiftLeft(x, k) == x * Pow2(k)
  {
    if k == 0 {
    } else {
      ShiftLeftIsProduct(x, k - 1);
    }
  }

  lemma {:induction false} ShiftLeftSplit(x: nat, k: nat)
    ensures ShiftLeft(x, k) == ShiftLeft(x / 2, k + 1) + ShiftLeft(x % 2, k)
    ensures ShiftLeft(x % 2, k) <= Pow2(k)
  {
    if k == 0 {
      assert ShiftLeft(x / 2, 1) == 2 * (x / 2);
    } else {
      ShiftLeftSplit(x, k - 1);
    }
  }

  /** What x << k looks like one bit further up. */
  lemma ShiftedHalf(x: nat, k: nat, carry: nat)
    requires k > 0 && carry < Pow2(k)
    ensures (ShiftLeft(x, k) + carry) % 2 == carry % 2
    ensures (ShiftLeft(x, k) + carry) / 2 == ShiftLeft(x / 2, k) + (carry / 2 + ShiftLeft(x % 2, k - 1))
    ensures carry / 2 + ShiftLeft(x % 2, k - 1) < Pow2(k)
  {
    ShiftLeftSplit(x, k - 1);
    EvenPlus(ShiftLeft(x, k - 1), carry);
  }

  /** x ^ (x << k) loses nothing: the low k bits are masked by known bits
      (carry), each one above by a bit k places below it. */
  lemma {:induction false} XorShiftLeftInjective(bits: nat, k: nat, x: nat, y: nat, carry: nat)
    requires k > 0 && x < Pow2(bits) && y < Pow2(bits) && carry < Pow2(k)
    requires Xor(bits, x, ShiftLeft(x, k) + carry) == Xor(bits, y, ShiftLeft(y, k) + carry)
    ensures x == y
  {
    hide *;
    Pow2Unfold(bits);
    if bits == 0 {
    } else {
      XorDigits(bits, x, ShiftLeft(x, k) + carry);
      XorDigits(bits, y, ShiftLeft(y, k) + carry);
      ShiftedHalf(x, k, carry);
      ShiftedHalf(y, k, carry);
      SameLowBit(x, y, carry % 2);
      XorShiftLeftInjective(bits - 1, k, x / 2, y / 2, carry / 2 + ShiftLeft(x % 2, k - 1));
      SameDigits(x, y, carry % 2);
    }
  }

  /** The little-endian word at an offset (read32_le, load32_le). */
  function Read32(s: seq<Byte>, off: nat): (w: Word)
    requires off + 4 <= |s|
  {
    (s[off] as int) + 0x100 * (s[off + 1] as int) + 0x1_0000 * (s[off + 2] as int) + 0x100_0000 * (s[off + 3] as int)
  }

  function Le32(w: Word): (s: seq<Byte>)
    ensures |s| == 4
    ensures Read32(s, 0) == w
  {
    var x := w / 0x100;
    var y := x / 0x100;
    assert w == w % 0x100 + 0x100 * x && x == x % 0x100 + 0x100 * y && y == y % 0x100 + 0x100 * (y / 0x100);
    [w % 0x100, x % 0x100, y % 0x100, y / 0x100]
  }

  /** The bytes after write32_le at an offset. */
  function Write32(s: seq<Byte>, off: nat, w: Word): (r: seq<Byte>)
    requires off + 4 <= |s|
    ensures |r| == |s|
    ensures r[..off] == s[..off] && r[off + 4..] == s[off + 4..]
    ensures Read32(r, off) == w
  {
    var r := s[..off] + Le32(w) + s[off + 4..];
    assert r[off] == Le32(w)[0] && r[off + 1] == Le32(w)[1] && r[off + 2] == Le32(w)[2] && r[off + 3] == Le32(w)[3];
    r
  }

  lemma OctetDigit(a: Byte, b: Byte, x: int, y: int)
    requires a as int + 0x100 * x == b as int + 0x100 * y
    ensures a == b && x == y
  {}

  /** Four bytes are determined by the word they spell. */
  lemma Read32Determines(a: seq<Byte>, b: seq<Byte>)
    requires |a| >= 4 && |b| >= 4
    requires Read32(a, 0) == Read32(b, 0)
    ensures a[..4] == b[..4]
  {
    var a2, b2 := a[2] as int + 0x100 * (a[3] as int), b[2] as int + 0x100 * (b[3] as int);
    OctetDigit(a[0], b[0], a[1] as int + 0x100 * a2, b[1] as int + 0x100 * b2);
    OctetDigit(a[1], b[1], a2, b2);
    OctetDigit(a[2], b[2], a[3], b[3]);
  }

  /** s with the bytes at `at` overwritten by b: what an in-place write leaves. */
  function Splice(s: seq<Byte>, at: nat, b: seq<Byte>): (r: seq<Byte>)
    requires at + |b| <= |s|
    ensures |r| == |s|
  {
    seq(|s|, i requires 0 <= i < |s| => if at <= i < at + |b| then b[i - at] else s[i])
  }

  lemma SpliceNothing(s: seq<Byte>, at: nat)
    requires at <= |s|
    ensures Splice(s, at, []) == s
  {}

  lemma SpliceAdjacent(s: seq<Byte>, at: nat, p: seq<Byte>, q: seq<Byte>)
    requires at + |p| + |q| <= |s|
    ensures Splice(Splice(s, at, p), at + |p|, q) == Splice(s, at, p + q)
  {}

  /** memcpy into a buffer. */
  method Copy(buf: array<Byte>, at: nat, b: seq<Byte>)
    requires at + |b| <= buf.Length
    modifies buf
    ensures buf[..] == Splice(old(buf[..]), at, b)
  {
    for j := 0 to |b|
      invariant buf[..] == Splice(old(buf[..]), at, b[..j])
    {
      buf[at + j] := b[j];
    }
    assert b[..|b|] == b;
  }

  /** Every byte of a against the byte of ks at the same place. */
  function XorBytes(a: seq<Byte>, ks: seq<Byte>): (r: seq<Byte>)
    requires |a| <= |ks|
    ensures |r| == |a|
  {
    seq(|a|, i requires 0 <= i < |a| => XorByte(a[i], ks[i]))
  }

  /** Applying the same keystream twice gives the text back. */
  lemma XorBytesInvolution(a: seq<Byte>, ks: seq<Byte>)
    requires |a| <= |ks|
    ensures XorBytes(XorBytes(a, ks), ks) == a
  {
    forall i | 0 <= i < |a|
      ensures XorByte(XorByte(a[i], ks[i]), ks[i]) == a[i]
    {
      WordWidths();
      XorInvolution(8, a[i], ks[i]);
    }
  }

  lemma XorOctet(k: nat, a0: Byte, a1: nat, b0: Byte, b1: nat)
    ensures Xor(8 + k, a0 + 0x100 * a1, b0 + 0x100 * b1) == XorByte(a0, b0) + 0x100 * Xor(k, a1, b1)
  {
    hide Xor;
    WordWidths();
    XorParts(8, k, a0, a1, b0, b1);
    ShiftLeftIsProduct(a1, 8);
    ShiftLeftIsProduct(b1, 8);
    ShiftLeftIsProduct(Xor(k, a1, b1), 8);
  }

  /** The little-endian value of any number of bytes. */
  function LeValue(s: seq<Byte>): (v: nat) {
    if |s| == 0 then 0 else s[0] as int + 0x100 * LeValue(s[1..])
  }

  lemma LeValueUnfold(s: seq<Byte>)
    ensures LeValue(s) == if |s| == 0 then 0 else s[0] as int + 0x100 * LeValue(s[1..])
  {}

  lemma {:induction false} XorLeValue(a: seq<Byte>, ks: seq<Byte>)
    requires |a| == |ks|
    ensures Xor(8 * |a|, LeValue(a), LeValue(ks)) == LeValue(XorBytes(a, ks))
  {
    hide *;
    var r := XorBytes(a, ks);
    LeValueUnfold(a);
    LeValueUnfold(ks);
    LeValueUnfold(r);
    if |a| == 0 {
      XorNone(0, 0);
    } else {
      XorLeValue(a[1..], ks[1..]);
      XorOctet(8 * (|a| - 1), a[0], LeValue(a[1..]), ks[0], LeValue(ks[1..]));
      XorBytesUnfold(a, ks);
    }
  }

  lemma XorBytesUnfold(a: seq<Byte>, ks: seq<Byte>)
    requires 0 < |a| <= |ks|
    ensures XorBytes(a, ks)[0] == XorByte(a[0], ks[0])
    ensures XorBytes(a, ks)[1..] == XorBytes(a[1..], ks[1..])
  {}

  lemma XorNone(a: nat, b: nat)
    ensures Xor(0, a, b) == 0
  {}

  lemma Read32IsLeValue(s: seq<Byte>)
    requires |s| >= 4
    ensures Read32(s, 0) == LeValue(s[..4])
  {
    assert s[..4] == [s[0], s[1], s[2], s[3]];
    assert LeValue([s[3]]) == s[3];
    assert LeValue([s[2], s[3]]) == s[2] as int + 0x100 * (s[3] as int) by { assert [s[2], s[3]][1..] == [s[3]]; }
    assert LeValue([s[1], s[2], s[3]]) == s[1] as int + 0x100 * LeValue([s[2], s[3]]) by { assert [s[1], s[2], s[3]][1..] == [s[2], s[3]]; }
    assert [s[0], s[1], s[2], s[3]][1..] == [s[1], s[2], s[3]];
  }

  /** The word of a masked text is the masked word, so a receiver may unmask
      the type alone before touching the packet. */
  lemma XorWordOfBytes(a: seq<Byte>, ks: seq<Byte>)
    requires 4 <= |a| <= |ks|
    ensures Read32(XorBytes(a, ks), 0) == XorWord(Read32(a, 0), Read32(ks, 0))
  {
    Read32IsLeValue(a);
    Read32IsLeValue(ks);
    Read32IsLeValue(XorBytes(a, ks));
    XorLeValue(a[..4], ks[..4]);
    assert XorBytes(a, ks)[..4] == XorBytes(a[..4], ks[..4]);
  }
}
