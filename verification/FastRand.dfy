/** The xorshift generator behind the packet padding (src/fastrand.c) and the
    mixer that keeps a padding stream apart from its caller's. */
module FastRand {
  import opened BitLaws
  import opened Bytes

  /** x ^ (x << k) and x ^ (x >> k) on 64-bit words. */
  function XorLeft(x: Long, k: nat): (r: Long) {
    WordWidths();
    Xor(64, x, ShiftLeft(x, k))
  }

  function XorRight(x: Long, k: nat): (r: Long) {
    WordWidths();
    Xor(64, x, ShiftRight(x, k))
  }

  /** One xorshift step: the next state, which is also the output. */
  function Step(s: Long): (r: Long) {
    XorLeft(XorRight(XorLeft(s, 13), 7), 17)
  }

  /** fastrand_init: a zero seed is replaced by 1. */
  function Seeded(seed: Long): (s: Long)
    ensures s != 0
  {
    if seed != 0 then seed else 1
  }

  const MIX_ADD: Long := 0x9E3779B97F4A7C15
  const MIX_MUL1: Long := 0xBF58476D1CE4E5B9
  const MIX_MUL2: Long := 0x94D049BB133111EB

  function Plus(x: Long, y: Long): (r: Long) {
    (x as int + y as int) % LONG_RANGE
  }

  function Times(x: Long, y: Long): (r: Long) {
    (x as int * y as int) % LONG_RANGE
  }

  function Mix64(x: Long): (r: Long) {
    XorRight(Times(XorRight(Times(XorRight(Plus(x, MIX_ADD), 30), MIX_MUL1), 27), MIX_MUL2), 31)
  }

  /** The low n bytes of a value, least significant first. */
  function LeBytes(v: nat, n: nat): (s: seq<Byte>)
    ensures |s| == n
    decreases v, n
  {
    if n == 0 then [] else [v % 0x100] + LeBytes(v / 0x100, n - 1)
  }

  /** The memory image of a 64-bit word. */
  function Le64(v: Long): (s: seq<Byte>)
    ensures |s| == 8
  {
    LeBytes(v, 8)
  }

  /** The bytes a generator in state s emits for a request of len bytes. */
  function Stream(s: Long, len: nat): (r: seq<Byte>)
    ensures |r| == len
    decreases len
  {
    if len == 0 then []
    else if len < 8 then Le64(Step(s))[..len]
    else Le64(Step(s)) + Stream(Step(s), len - 8)
  }

  /** The state such a request leaves behind: one step per word begun. */
  function StreamEnd(s: Long, len: nat): (r: Long)
    decreases len
  {
    if len == 0 then s else if len < 8 then Step(s) else StreamEnd(Step(s), len - 8)
  }

  /** fill_padding: the padding of len bytes drawn for a seed. */
  function Padding(seed: Long, len: nat): (r: seq<Byte>)
    ensures |r| == len
  {
    Stream(Seeded(Mix64(seed)), len)
  }

  class Generator {
    var s: Long

    constructor (seed: Long)
      ensures s == Seeded(seed)
    {
      s := if seed != 0 then seed else 1;
    }

    method U64() returns (v: Long)
      modifies this
      ensures v == s == Step(old(s))
    {
      s := XorLeft(s, 13);
      s := XorRight(s, 7);
      s := XorLeft(s, 17);
      v := s;
    }

    /** fastrand_fill: whole words first, then the head of one more. */
    method Fill(buf: array<Byte>, off: nat, len: nat)
      requires off + len <= buf.Length
      modifies this, buf
      ensures buf[..] == Splice(old(buf[..]), off, Stream(old(s), len))
      ensures s == StreamEnd(old(s), len)
    {
      hide LeBytes, Step, Xor;
      ghost var goal := Splice(buf[..], off, Stream(s, len));
      var i := 0;
      while i + 8 <= len
        invariant 0 <= i <= len
        invariant Splice(buf[..], off + i, Stream(s, len - i)) == goal
        invariant StreamEnd(s, len - i) == StreamEnd(old(s), len)
      {
        StreamWord(s, len - i);
        SpliceAdjacent(buf[..], off + i, Le64(Step(s)), Stream(Step(s), len - i - 8));
        EmitWord(buf, off + i, 8);
        i := i + 8;
      }
      if i < len {
        StreamTail(s, len - i);
        EmitWord(buf, off + i, len - i);
      } else {
        assert Splice(buf[..], off + i, []) == buf[..];
      }
    }

    /** The head of the next word, copied into place. */
    method EmitWord(buf: array<Byte>, at: nat, k: nat)
      requires 0 < k <= 8 && at + k <= buf.Length
      modifies this, buf
      ensures s == Step(old(s))
      ensures buf[..] == Splice(old(buf[..]), at, Le64(s)[..k])
    {
      var v := U64();
      Copy(buf, at, Le64(v)[..k]);
    }
  }

  lemma StreamTail(s: Long, len: nat)
    requires 0 < len < 8
    ensures Stream(s, len) == Le64(Step(s))[..len] && StreamEnd(s, len) == Step(s)
  {}

  lemma StreamWord(s: Long, len: nat)
    requires len >= 8
    ensures Stream(s, len) == Le64(Step(s)) + Stream(Step(s), len - 8)
    ensures StreamEnd(s, len) == StreamEnd(Step(s), len - 8)
  {}

  // ---- What a step and a stream are ----

  /** The bit k places below bit i, 0 past the end. */
  function BitBelow(x: Long, i: nat, k: nat): (p: int) {
    if i >= k then Bit(x, i - k) else 0
  }

  /** Each bit of y is that of x, with the bit k places below it taken in. */
  ghost predicate FromBelow(x: Long, y: Long, k: nat) {
    forall i: nat :: i < 64 ==> Bit(y, i) == (Bit(x, i) + BitBelow(x, i, k)) % 2
  }

  /** The same with the bit k places above it. */
  ghost predicate FromAbove(x: Long, y: Long, k: nat) {
    forall i: nat :: i < 64 ==> Bit(y, i) == (Bit(x, i) + Bit(x, i + k)) % 2
  }

  lemma XorLeftBits(x: Long, k: nat)
    ensures FromBelow(x, XorLeft(x, k), k)
  {
    hide Bit, Xor;
    forall i: nat | i < 64
      ensures Bit(XorLeft(x, k), i) == (Bit(x, i) + BitBelow(x, i, k)) % 2
    {
      XorAtBit(64, x, ShiftLeft(x, k), i);
      ShiftLeftAtBit(x, k, i);
    }
  }

  lemma XorRightBits(x: Long, k: nat)
    ensures FromAbove(x, XorRight(x, k), k)
  {
    hide Bit, Xor;
    forall i: nat | i < 64
      ensures Bit(XorRight(x, k), i) == (Bit(x, i) + Bit(x, i + k)) % 2
    {
      XorAtBit(64, x, ShiftRight(x, k), i);
      ShiftRightAtBit(x, k, i);
    }
  }

  /** One step, bit by bit. */
  lemma StepBits(s: Long) returns (a: Long, b: Long)
    ensures FromBelow(s, a, 13) && FromAbove(a, b, 7) && FromBelow(b, Step(s), 17)
  {
    hide FromBelow, FromAbove, XorLeft, XorRight;
    a := XorLeft(s, 13);
    b := XorRight(a, 7);
    XorLeftBits(s, 13);
    XorRightBits(a, 7);
    XorLeftBits(b, 17);
  }

  /** The generator's state after n steps. */
  function After(s: Long, n: nat): (r: Long)
    decreases n
  {
    if n == 0 then s else After(Step(s), n - 1)
  }

  /** Byte i of a stream is byte i % 8 of the word drawn i / 8 steps on. */
  lemma {:induction false} StreamAt(s: Long, len: nat, i: nat)
    requires i < len
    ensures Stream(s, len)[i] == Le64(After(s, i / 8 + 1))[i % 8]
    decreases len
  {
    hide Step, LeBytes;
    if i < 8 {
      assert After(s, 1) == Step(s) by { assert After(Step(s), 0) == Step(s); }
    } else {
      StreamAt(Step(s), len - 8, i - 8);
      assert i / 8 == (i - 8) / 8 + 1 && i % 8 == (i - 8) % 8;
    }
  }

  /** A padding is the stream of a generator seeded with the mixed seed, with 1
      in place of 0. */
  lemma PaddingAt(seed: Long, len: nat, i: nat)
    requires i < len
    ensures Padding(seed, len)[i] == Le64(After(if Mix64(seed) == 0 then 1 else Mix64(seed), i / 8 + 1))[i % 8]
  {
    hide Mix64, Stream, LeBytes, After;
    StreamAt(Seeded(Mix64(seed)), len, i);
  }

  /** A word's bytes spell its value, lowest byte first. */
  lemma {:induction false} LeBytesValue(v: nat, n: nat)
    requires v < Pow2(8 * n)
    ensures LeValue(LeBytes(v, n)) == v
    decreases n
  {
    if n == 0 {
    } else {
      assert Pow2(8 * n) == 0x100 * Pow2(8 * (n - 1)) by {
        WordWidths();
        Pow2Add(8, 8 * (n - 1));
      }
      LeBytesValue(v / 0x100, n - 1);
      assert LeBytes(v, n)[1..] == LeBytes(v / 0x100, n - 1);
    }
  }

  lemma Le64Value(v: Long)
    ensures LeValue(Le64(v)) == v
  {
    WordWidths();
    LeBytesValue(v, 8);
  }

  // ---- Injectivity ----

  lemma XorLeftInjective(x: Long, y: Long, k: nat)
    requires k > 0 && XorLeft(x, k) == XorLeft(y, k)
    ensures x == y
  {
    WordWidths();
    XorShiftLeftInjective(64, k, x, y, 0);
  }

  lemma XorRightInjective(x: Long, y: Long, k: nat)
    requires k > 0 && XorRight(x, k) == XorRight(y, k)
    ensures x == y
  {
    WordWidths();
    XorShiftRightInjective(64, k, x, y);
  }

  lemma StepInjective(x: Long, y: Long)
    requires Step(x) == Step(y)
    ensures x == y
  {
    XorLeftInjective(XorRight(XorLeft(x, 13), 7), XorRight(XorLeft(y, 13), 7), 17);
    XorRightInjective(XorLeft(x, 13), XorLeft(y, 13), 7);
    XorLeftInjective(x, y, 13);
  }

  lemma {:induction false} ShiftOfZero(k: nat)
    ensures ShiftLeft(0, k) == 0 && ShiftRight(0, k) == 0
  {
    if k == 0 {
    } else {
      ShiftOfZero(k - 1);
    }
  }

  lemma StepOfZero()
    ensures Step(0) == 0
  {
    ShiftOfZero(13);
    ShiftOfZero(7);
    ShiftOfZero(17);
    WordWidths();
    XorZero(64, 0);
  }

  /** The generator never falls into the fixed point 0. */
  lemma StepNeverZero(s: Long)
    requires s != 0
    ensures Step(s) != 0
  {
    StepOfZero();
    if Step(s) == 0 {
      StepInjective(s, 0);
    }
  }

  /** An odd multiplier is undone by its inverse modulo 2^64. */
  lemma Unmultiply(x: Long, c: Long, inverse: Long, k: nat)
    requires c as int * inverse as int == 1 + k * LONG_RANGE
    ensures Times(Times(x, c), inverse) == x
  {
    var q, r := (x * c) / LONG_RANGE, (x as int * c as int) % LONG_RANGE;
    assert r == x * c - q * LONG_RANGE;
    assert r * inverse == x + (k * x - q * inverse) * LONG_RANGE by {
      assert r * inverse == x * (c * inverse) - q * inverse * LONG_RANGE;
      assert x * (c * inverse) == x + k * x * LONG_RANGE;
    }
    ModOfSum(x, k * x - q * inverse);
  }

  lemma ModOfSum(x: Long, z: int)
    ensures (x + z * LONG_RANGE) % LONG_RANGE == x
  {}

  lemma TimesMul1Injective(x: Long, y: Long)
    requires Times(x, MIX_MUL1) == Times(y, MIX_MUL1)
    ensures x == y
  {
    Unmultiply(x, MIX_MUL1, 0x96DE1B173F119089, 0x70C3BCA78F27F46C);
    Unmultiply(y, MIX_MUL1, 0x96DE1B173F119089, 0x70C3BCA78F27F46C);
  }

  lemma TimesMul2Injective(x: Long, y: Long)
    requires Times(x, MIX_MUL2) == Times(y, MIX_MUL2)
    ensures x == y
  {
    Unmultiply(x, MIX_MUL2, 0x319642B2D24D8EC3, 0x1CD336EDA85F1453);
    Unmultiply(y, MIX_MUL2, 0x319642B2D24D8EC3, 0x1CD336EDA85F1453);
  }

  lemma PlusInjective(x: Long, y: Long, c: Long)
    requires Plus(x, c) == Plus(y, c)
    ensures x == y
  {}

  lemma Mix64Injective(x: Long, y: Long)
    ensures Mix64(x) == Mix64(y) <==> x == y
  {
    if Mix64(x) == Mix64(y) {
      var ax, ay := Plus(x, MIX_ADD), Plus(y, MIX_ADD);
      var bx, by' := Times(XorRight(ax, 30), MIX_MUL1), Times(XorRight(ay, 30), MIX_MUL1);
      XorRightInjective(Times(XorRight(bx, 27), MIX_MUL2), Times(XorRight(by', 27), MIX_MUL2), 31);
      TimesMul2Injective(XorRight(bx, 27), XorRight(by', 27));
      XorRightInjective(bx, by', 27);
      TimesMul1Injective(XorRight(ax, 30), XorRight(ay, 30));
      XorRightInjective(ax, ay, 30);
      PlusInjective(x, y, MIX_ADD);
    }
  }

  /** Undoing x ^ (x >> k). */
  function UnXorRight(y: Long, k: nat): (x: Long)
    requires k > 0
    ensures XorRight(x, k) == y
  {
    WordWidths();
    XorShiftRightOnto(64, k, y);
    UnXorShiftRight(64, k, y)
  }

  /** The mixer's inverse: its steps undone one by one, last first. */
  function UnMix64(y: Long): (x: Long) {
    var c := UnXorRight(y, 31);
    var b := UnXorRight((c as int * 0x319642B2D24D8EC3) % 0x1_0000_0000_0000_0000, 27);
    var a := UnXorRight((b as int * 0x96DE1B173F119089) % 0x1_0000_0000_0000_0000, 30);
    (a as int - 0x9E3779B97F4A7C15) % 0x1_0000_0000_0000_0000
  }

  /** The mixer is the permutation with that inverse: y is the mixed value of
      this one word and of no other. */
  lemma Mix64Inverse(x: Long, y: Long)
    ensures Mix64(x) == y <==> x == UnMix64(y)
  {
    UnMix64Mixes(y);
    Mix64Injective(x, UnMix64(y));
  }

  lemma UnMix64Mixes(y: Long)
    ensures Mix64(UnMix64(y)) == y
  {
    hide XorRight, UnXorRight;
    var c := UnXorRight(y, 31);
    var b := Times(c, 0x319642B2D24D8EC3);
    Unmultiply(c, 0x319642B2D24D8EC3, MIX_MUL2, 0x1CD336EDA85F1453);
    var b' := UnXorRight(b, 27);
    var a := Times(b', 0x96DE1B173F119089);
    Unmultiply(b', 0x96DE1B173F119089, MIX_MUL1, 0x70C3BCA78F27F46C);
    var a' := UnXorRight(a, 30);
    hide Times;
    assert Plus(UnMix64(y), MIX_ADD) == a';
  }

  lemma Mix64Onto(y: Long) returns (x: Long)
    ensures Mix64(x) == y
  {
    x := UnMix64(y);
    UnMix64Mixes(y);
  }

  /** One value in full: the mixer takes the complement of its increment to 0,
      so it is no fixed point. */
  lemma MixedToZero()
    ensures Mix64(0x61C8864680B583EB) == 0
  {
    assert Plus(0x61C8864680B583EB, MIX_ADD) == 0;
    ShiftOfZero(30);
    ShiftOfZero(27);
    ShiftOfZero(31);
    WordWidths();
    XorZero(64, 0);
  }

  lemma {:induction false} LeBytesInjective(x: nat, y: nat, n: nat)
    requires x < Pow2(8 * n) && y < Pow2(8 * n)
    requires LeBytes(x, n) == LeBytes(y, n)
    ensures x == y
    decreases n
  {
    if n == 0 {
    } else {
      var a, b := LeBytes(x, n), LeBytes(y, n);
      assert a[0] == b[0] && a[1..] == b[1..];
      assert Pow2(8 * n) == 0x100 * Pow2(8 * (n - 1)) by {
        WordWidths();
        Pow2Add(8, 8 * (n - 1));
      }
      LeBytesInjective(x / 0x100, y / 0x100, n - 1);
    }
  }

  lemma Le64Injective(x: Long, y: Long)
    requires Le64(x) == Le64(y)
    ensures x == y
  {
    WordWidths();
    LeBytesInjective(x, y, 8);
  }

  // ---- Nonce freshness ----

  /** The two seeds whose mixed values are 0 and 1: fastrand_init folds them
      onto one state, so they are the only pair that shares a padding. */
  predicate FoldedPair(x: Long, y: Long) {
    (Mix64(x) == 0 && Mix64(y) == 1) || (Mix64(x) == 1 && Mix64(y) == 0)
  }

  lemma PaddingHead(seed: Long, len: nat)
    requires len >= 8
    ensures Padding(seed, len)[..8] == Le64(Step(Seeded(Mix64(seed))))
  {
    StreamWord(Seeded(Mix64(seed)), len);
  }

  /** Two paddings of at least 8 bytes agree on their first 8 bytes exactly
      when they were drawn for the same seed, or for the one folded pair. */
  lemma PaddingFresh(x: Long, y: Long, m: nat, n: nat)
    requires m >= 8 && n >= 8
    ensures Padding(x, m)[..8] == Padding(y, n)[..8] <==> x == y || FoldedPair(x, y)
  {
    PaddingHead(x, m);
    PaddingHead(y, n);
    if Padding(x, m)[..8] == Padding(y, n)[..8] {
      Le64Injective(Step(Seeded(Mix64(x))), Step(Seeded(Mix64(y))));
      StepInjective(Seeded(Mix64(x)), Seeded(Mix64(y)));
      Mix64Injective(x, y);
    }
  }

  /** The exception is real: there are two different seeds whose paddings
      agree, at every length. */
  lemma FoldedPairExists() returns (x: Long, y: Long)
    ensures x != y && FoldedPair(x, y)
    ensures forall n: nat :: Padding(x, n) == Padding(y, n)
  {
    hide Mix64, Stream;
    x := Mix64Onto(0);
    y := Mix64Onto(1);
  }

  /** Why the seed is mixed: seeded straight with its caller's state a padding
      would start with the very bytes the caller emits next. Mixed, it does so
      only for a state the mixer maps to itself. */
  lemma PaddingApartFromCaller(s: Long, n: nat)
    requires s != 0 && n >= 8
    ensures Stream(Seeded(s), n)[..8] == Stream(s, n)[..8]
    ensures Padding(s, n)[..8] == Stream(s, n)[..8] <==> Mix64(s) == s || (Mix64(s) == 0 && s == 1)
  {
    hide Mix64, Step, LeBytes;
    PaddingHead(s, n);
    StreamWord(s, n);
    if Padding(s, n)[..8] == Stream(s, n)[..8] {
      Le64Injective(Step(Seeded(Mix64(s))), Step(s));
      StepInjective(Seeded(Mix64(s)), s);
    }
  }

  /** And for some states it does not. */
  lemma PaddingIsNoClone(n: nat)
    requires n >= 8
    ensures Padding(0x61C8864680B583EB, n)[..8] != Stream(0x61C8864680B583EB, n)[..8]
  {
    hide Mix64, Stream, Padding;
    MixedToZero();
    PaddingApartFromCaller(0x61C8864680B583EB, n);
  }

  /** A message kind salts its draw with a constant of its own, which keeps
      different draws different. */
  lemma SaltedPaddingFresh(x: Long, y: Long, salt: Long, m: nat, n: nat)
    requires m >= 8 && n >= 8
    ensures Padding(XorLong(x, salt), m)[..8] == Padding(XorLong(y, salt), n)[..8]
            <==> x == y || FoldedPair(XorLong(x, salt), XorLong(y, salt))
  {
    PaddingFresh(XorLong(x, salt), XorLong(y, salt), m, n);
    WordWidths();
    XorInvolution(64, x, salt);
    XorInvolution(64, y, salt);
  }
}
