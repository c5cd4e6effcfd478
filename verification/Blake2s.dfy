/** BLAKE2s as a stream (src/blake2s.c) against the one-shot definition of
    section 3.3 of RFC 7693. The compression function is a parameter. */
module Blake2s {
  import opened Bytes

  const BLOCK := 64

  type Digest = s: seq<Byte> | |s| == 32 witness seq(32, _ => 0)
  type Chain = s: seq<Word> | |s| == 8 witness seq(8, _ => 0)

  /** h, block, t0, t1, last block? */
  type Compress = (Chain, seq<Byte>, Word, Word, bool) -> Chain

  const IV: seq<Word> := [0x6A09E667, 0xBB67AE85, 0x3C6EF372, 0xA54FF53A,
                          0x510E527F, 0x9B05688C, 0x1F83D9AB, 0x5BE0CD19]

  /** The chaining value after initialisation: the parameter block is folded
      into word 0. kk < 256 and nn < 256, so the three parts do not meet. */
  function InitChain(nn: Byte, kk: Byte): (h: Chain) {
    IV[0 := XorWord(IV[0], 0x01010000 + 0x100 * (kk as int) + nn as int)]
  }

  // ---- The definition: a message cut into blocks ----

  function Padded(s: seq<Byte>): (b: seq<Byte>)
    requires |s| <= 64
    ensures |b| == 64
  {
    s + seq(64 - |s|, _ => 0)
  }

  /** The 64-bit byte counter, as its low and high word. */
  function CounterLow(t: nat): (w: Word) { t % WORD_RANGE }
  function CounterHigh(t: nat): (w: Word) { t / WORD_RANGE % WORD_RANGE }

  /** Section 3.3: every block but the last is compressed with the number of
      bytes up to its end, the last one zero-padded, with the total, and with
      the final flag. t is what came before this part of the message. */
  function Absorb(f: Compress, h: Chain, t: nat, msg: seq<Byte>): (r: Chain)
    decreases |msg|
  {
    if |msg| > 64 then
      Absorb(f, f(h, msg[..64], CounterLow(t + 64), CounterHigh(t + 64), false), t + 64, msg[64..])
    else
      f(h, Padded(msg), CounterLow(t + |msg|), CounterHigh(t + |msg|), true)
  }

  /** The message of a keyed hash starts with the key, padded to a block. */
  function Message(key: seq<Byte>, data: seq<Byte>): (m: seq<Byte>)
    requires |key| <= 64
  {
    if |key| > 0 then Padded(key) + data else data
  }

  function Hash(f: Compress, nn: Byte, key: seq<Byte>, data: seq<Byte>): (h: Chain)
    requires |key| <= 32
  {
    Absorb(f, InitChain(nn, |key|), 0, Message(key, data))
  }

  /** The little-endian image of a chaining value. */
  function Image(h: Chain): (d: Digest) {
    Le32(h[0]) + Le32(h[1]) + Le32(h[2]) + Le32(h[3]) + Le32(h[4]) + Le32(h[5]) + Le32(h[6]) + Le32(h[7])
  }

  // ---- What the definition is made of ----

  /** Section 2.6 of RFC 7693: the initial words are the first 32 bits of the
      fractional parts of the square roots of the first eight primes. */
  lemma IvIsRoots()
    ensures |IV| == 8
    ensures RootOf(2, 1, IV[0]) && RootOf(3, 1, IV[1]) && RootOf(5, 2, IV[2]) && RootOf(7, 2, IV[3])
    ensures RootOf(11, 3, IV[4]) && RootOf(13, 3, IV[5]) && RootOf(17, 4, IV[6]) && RootOf(19, 4, IV[7])
  {}

  /** whole + fraction / 2^32 is the square root of n, cut to 32 bits. */
  predicate RootOf(n: nat, whole: nat, fraction: Word) {
    var r := whole * 0x1_0000_0000 + fraction as int;
    r * r <= n * 0x1_0000_0000_0000_0000 < (r + 1) * (r + 1)
  }

  /** The parameter block folded into the first word: digest length, key
      length, fanout 1, depth 1. */
  lemma InitChainParameters(nn: Byte, kk: Byte)
    ensures Le32(XorWord(InitChain(nn, kk)[0], IV[0])) == [nn, kk, 1, 1]
    ensures InitChain(nn, kk)[1..] == IV[1..]
  {
    hide Xor, Read32;
    var w: Word := 0x01010000 + 0x100 * (kk as int) + nn as int;
    WordWidths();
    XorCommutes(32, IV[0], w);
    XorInvolution(32, w, IV[0]);
    ParameterBytes(nn, kk);
  }

  lemma ParameterBytes(nn: Byte, kk: Byte)
    ensures Le32(0x01010000 + 0x100 * (kk as int) + nn as int) == [nn, kk, 1, 1]
  {
    var w: Word := 0x01010000 + 0x100 * (kk as int) + nn as int;
    assert w / 0x100 == 0x010100 + kk as int;
    assert w / 0x100 / 0x100 == 0x0101;
  }

  /** A keyed message: the key, zeros up to a block, the data; unkeyed, the
      data alone. */
  lemma MessageParts(key: seq<Byte>, data: seq<Byte>)
    requires |key| <= 64
    ensures |key| == 0 ==> Message(key, data) == data
    ensures |key| > 0 ==>
              var m := Message(key, data);
              && |m| == 64 + |data| && m[..|key|] == key && m[64..] == data
              && forall i :: |key| <= i < 64 ==> m[i] == 0
  {}

  /** The two counter words spell the count. */
  lemma CounterWords(t: nat)
    requires t < 0x1_0000_0000_0000_0000
    ensures CounterLow(t) as int + 0x1_0000_0000 * CounterHigh(t) as int == t
  {
    assert t / 0x1_0000_0000 < 0x1_0000_0000;
  }

  /** The digest is the chaining value's words, little-endian, in order. */
  lemma ImageWords(h: Chain, i: nat)
    requires i < 8
    ensures Read32(Image(h), 4 * i) == h[i]
  {
    hide Le32, Read32;
    var d := Image(h);
    assert d[4 * i..4 * i + 4] == Le32(h[i]);
    WordAt(d, 4 * i, Le32(h[i]));
  }

  lemma WordAt(s: seq<Byte>, off: nat, b: seq<Byte>)
    requires off + 4 <= |s| && |b| == 4 && s[off..off + 4] == b
    ensures Read32(s, off) == Read32(b, 0)
  {
    assert b[0] == s[off] && b[1] == s[off + 1] && b[2] == s[off + 2] && b[3] == s[off + 3];
  }

  /** MAC1's hash in full, for a response (60 bytes) and for an init (116): 16
      bytes out of a 32-byte key block and one or two blocks of message, with
      the byte counts and the last-block flag. */
  lemma MacInFull(f: Compress, key: seq<Byte>, data: seq<Byte>)
    requires |key| == 32 && 0 < |data| <= 128
    ensures
      var h := f(InitChain(16, 32), key + seq(32, _ => 0), 64, 0, false);
      Mac128(f, key, data)
      == if |data| <= 64 then Image(f(h, data + seq(64 - |data|, _ => 0), 64 + |data|, 0, true))[..16]
         else Image(f(f(h, data[..64], 128, 0, false), data[64..] + seq(128 - |data|, _ => 0), 64 + |data|, 0, true))[..16]
  {
    hide InitChain, Image;
    var m := Message(key, data);
    assert m[..64] == key + seq(32, _ => 0) && m[64..] == data;
    var h := f(InitChain(16, 32), m[..64], CounterLow(64), CounterHigh(64), false);
    assert Absorb(f, InitChain(16, 32), 0, m) == Absorb(f, h, 64, data);
    if |data| > 64 {
      var h' := f(h, data[..64], CounterLow(128), CounterHigh(128), false);
      assert Absorb(f, h, 64, data) == Absorb(f, h', 128, data[64..]);
      assert seq(64 - |data[64..]|, _ => 0 as Byte) == seq(128 - |data|, _ => 0 as Byte);
    }
  }

  // ---- Whole blocks compressed one after the other ----

  function Chained(f: Compress, h: Chain, t: nat, blocks: seq<Byte>): (r: Chain)
    requires |blocks| % 64 == 0
    decreases |blocks|
  {
    if |blocks| == 0 then h
    else Chained(f, f(h, blocks[..64], CounterLow(t + 64), CounterHigh(t + 64), false), t + 64, blocks[64..])
  }

  /** One more block at the end is one more compression. */
  lemma {:induction false} ChainedSnoc(f: Compress, h: Chain, t: nat, blocks: seq<Byte>, b: seq<Byte>)
    requires |blocks| % 64 == 0 && |b| == 64
    ensures Chained(f, h, t, blocks + b)
            == f(Chained(f, h, t, blocks), b, CounterLow(t + |blocks| + 64), CounterHigh(t + |blocks| + 64), false)
    decreases |blocks|
  {
    if |blocks| == 0 {
      assert blocks + b == b && b[64..] == [] && b[..64] == b;
    } else {
      var h' := f(h, blocks[..64], CounterLow(t + 64), CounterHigh(t + 64), false);
      ChainedSnoc(f, h', t + 64, blocks[64..], b);
      assert (blocks + b)[..64] == blocks[..64] && (blocks + b)[64..] == blocks[64..] + b;
    }
  }

  /** A message is its leading whole blocks, chained, then its last block. */
  lemma {:induction false} AbsorbIsChained(f: Compress, h: Chain, t: nat, blocks: seq<Byte>, last: seq<Byte>)
    requires |blocks| % 64 == 0 && |last| <= 64 && (|blocks| > 0 ==> |last| > 0)
    ensures Absorb(f, h, t, blocks + last)
            == f(Chained(f, h, t, blocks), Padded(last),
                 CounterLow(t + |blocks| + |last|), CounterHigh(t + |blocks| + |last|), true)
    decreases |blocks|
  {
    if |blocks| == 0 {
      assert blocks + last == last;
    } else {
      var h' := f(h, blocks[..64], CounterLow(t + 64), CounterHigh(t + 64), false);
      AbsorbIsChained(f, h', t + 64, blocks[64..], last);
      assert (blocks + last)[..64] == blocks[..64] && (blocks + last)[64..] == blocks[64..] + last;
    }
  }

  /** Adding to a counter kept in two 32-bit halves: the low half wraps, and a
      low half smaller than what was added carries into the high one. */
  lemma CounterCarry(t: nat, n: nat)
    requires n < WORD_RANGE
    ensures CounterLow(t + n) == (CounterLow(t) as int + n) % WORD_RANGE
    ensures CounterHigh(t + n)
            == if CounterLow(t + n) < n then (CounterHigh(t) as int + 1) % WORD_RANGE else CounterHigh(t)
  {
    var q, r := t / WORD_RANGE, t % WORD_RANGE;
    assert t == q * WORD_RANGE + r;
    if r + n < WORD_RANGE {
      assert (t + n) / WORD_RANGE == q && (t + n) % WORD_RANGE == r + n;
    } else {
      assert (t + n) / WORD_RANGE == q + 1 && (t + n) % WORD_RANGE == r + n - WORD_RANGE;
    }
  }

  // ---- The implementation: blake2s_state ----

  class State {
    const f: Compress
    const nn: Byte
    const buf: array<Byte>
    var h: Chain
    var t0: Word
    var t1: Word
    var buflen: nat

    /** What has been hashed so far, the key block included; how much of it
        was compressed already; and the chaining value it started from. */
    ghost var msg: seq<Byte>
    ghost var done: nat
    ghost const h0: Chain

    ghost predicate Valid()
      reads this, buf
    {
      && buf.Length == 64 && buflen <= 64
      && done % 64 == 0 && done + buflen == |msg|
      && (done > 0 ==> buflen > 0)
      && buf[..buflen] == msg[done..]
      && Compressed(msg)
    }

    /** The first `done` bytes of m are behind h and the counter. */
    ghost predicate Compressed(m: seq<Byte>)
      reads this
    {
      && done % 64 == 0 && done <= |m|
      && h == Chained(f, h0, 0, m[..done])
      && t0 == CounterLow(done) && t1 == CounterHigh(done)
    }

    /** blake2s_init */
    constructor (f: Compress, nn: Byte, key: seq<Byte>)
      requires |key| <= 32
      ensures Valid() && fresh(buf)
      ensures this.f == f && this.nn == nn && h0 == InitChain(nn, |key|)
      ensures msg == Message(key, [])
    {
      this.f := f;
      this.nn := nn;
      h := InitChain(nn, |key|);
      h0 := InitChain(nn, |key|);
      t0, t1 := 0, 0;
      buf := new Byte[64](_ => 0);
      buflen := 0;
      msg, done := [], 0;
      new;
      if |key| > 0 {
        ghost var zero := buf[..];
        Copy(buf, 0, key);
        buflen := 64;
        msg := buf[..];
        assert buf[..] == Padded(key) + [];
      }
    }

    /** t0 += n, with the carry into t1. */
    method AddToCounter(n: Word, ghost before: nat)
      requires t0 == CounterLow(before) && t1 == CounterHigh(before)
      modifies this`t0, this`t1
      ensures t0 == CounterLow(before + n as int) && t1 == CounterHigh(before + n as int)
    {
      CounterCarry(before, n);
      t0 := (t0 as int + n as int) % WORD_RANGE;
      if t0 < n {
        t1 := (t1 as int + 1) % WORD_RANGE;
      }
    }

    /** Compress one block that is not the last. */
    method CompressBlock(block: seq<Byte>, ghost m: seq<Byte>)
      requires Compressed(m) && |block| == 64 && done + 64 <= |m| && block == m[done..done + 64]
      modifies this`h, this`t0, this`t1, this`done
      ensures Compressed(m) && done == old(done) + 64
    {
      hide CounterLow, CounterHigh, Chained;
      AddToCounter(64, done);
      h := f(h, block, t0, t1, false);
      ChainedSnoc(f, h0, 0, m[..done], block);
      assert m[..done] + block == m[..done + 64];
      done := done + 64;
    }

    /** blake2s_update */
    method Update(data: seq<Byte>)
      requires Valid() && |data| < 0x8000_0000
      modifies this, buf
      ensures Valid() && msg == old(msg) + data
    {
      hide CounterLow, CounterHigh, Chained;
      if |data| == 0 {
        assert msg + data == msg;
        return;
      }
      ghost var m := msg + data;
      var p := 0;
      var fill := 64 - buflen;
      assert m[..done] == msg[..done];
      if |data| > fill {
        FillBlock(buf[..], buflen, msg, done, data);
        Copy(buf, buflen, data[..fill]);
        CompressBlock(buf[..], m);
        p := fill;
        buflen := 0;
        while |data| - p > 64
          invariant fill <= p < |data| && buflen == 0 && msg == old(msg)
          invariant done == |msg| + p && Compressed(m)
        {
          assert data[p..p + 64] == (msg + data)[done..done + 64];
          CompressBlock(data[p..p + 64], m);
          p := p + 64;
        }
      }
      TailKept(buf[..], buflen, msg, done, data, p);
      Copy(buf, buflen, data[p..]);
      buflen := buflen + (|data| - p);
      msg := m;
    }

    /** blake2s_final */
    method Final() returns (out: Digest)
      requires Valid()
      modifies this, buf
      ensures out == Image(Absorb(f, h0, 0, old(msg)))
    {
      hide CounterLow, CounterHigh, Chained, Absorb, Image, Splice, Padded;
      AddToCounter(buflen, done);
      AbsorbIsChained(f, h0, 0, msg[..done], msg[done..]);
      assert msg[..done] + msg[done..] == msg;
      PadInPlace(buf[..], buflen);
      Copy(buf, buflen, seq(64 - buflen, _ => 0));
      h := f(h, buf[..], t0, t1, true);
      out := Image(h);
    }
  }

  /** A buffer topped up from the new data is the next block of the message. */
  lemma FillBlock(buf: seq<Byte>, buflen: nat, msg: seq<Byte>, done: nat, data: seq<Byte>)
    requires |buf| == 64 && buflen <= 64 && done + buflen == |msg| && buf[..buflen] == msg[done..]
    requires |data| > 64 - buflen
    ensures Splice(buf, buflen, data[..64 - buflen]) == (msg + data)[done..done + 64]
  {
    forall i | 0 <= i < buflen
      ensures buf[i] == (msg + data)[done + i]
    {
      assert buf[..buflen][i] == msg[done..][i];
    }
  }

  lemma TailKept(buf: seq<Byte>, buflen: nat, msg: seq<Byte>, done: nat, data: seq<Byte>, p: nat)
    requires |buf| == 64 && buflen <= 64 && p <= |data| && buflen + |data| - p <= 64
    requires done + buflen == |msg| + p
    requires (p == 0 && buf[..buflen] == msg[done..]) || buflen == 0
    ensures Splice(buf, buflen, data[p..])[..buflen + |data| - p] == (msg + data)[done..]
  {
    forall i | 0 <= i < buflen
      ensures buf[i] == (msg + data)[done + i]
    {
      assert buf[..buflen][i] == msg[done..][i];
    }
  }

  lemma PadInPlace(buf: seq<Byte>, buflen: nat)
    requires |buf| == 64 && buflen <= 64
    ensures Splice(buf, buflen, seq(64 - buflen, _ => 0)) == Padded(buf[..buflen])
  {}

  /** Feed the parts of a message one after the other. */
  method HashParts(f: Compress, nn: Byte, key: seq<Byte>, parts: seq<seq<Byte>>) returns (out: Digest)
    requires |key| <= 32
    requires forall i :: 0 <= i < |parts| ==> |parts[i]| < 0x8000_0000
    ensures out == Image(Hash(f, nn, key, Concat(parts)))
  {
    hide InitChain, Absorb, Concat;
    var st := new State(f, nn, key);
    ConcatNone(parts[..0]);
    for i := 0 to |parts|
      invariant st.Valid() && fresh(st) && fresh(st.buf)
      invariant st.f == f && st.h0 == InitChain(nn, |key|)
      invariant st.msg == Message(key, Concat(parts[..i]))
    {
      st.Update(parts[i]);
      ConcatSnoc(parts[..i], parts[i]);
      assert parts[..i] + [parts[i]] == parts[..i + 1];
      MessageSnoc(key, Concat(parts[..i]), parts[i]);
    }
    assert parts[..|parts|] == parts;
    out := st.Final();
  }

  function Concat(parts: seq<seq<Byte>>): (r: seq<Byte>) {
    if |parts| == 0 then [] else parts[0] + Concat(parts[1..])
  }

  lemma ConcatNone(parts: seq<seq<Byte>>)
    requires |parts| == 0
    ensures Concat(parts) == []
  {}

  lemma MessageSnoc(key: seq<Byte>, data: seq<Byte>, p: seq<Byte>)
    requires |key| <= 64
    ensures Message(key, data + p) == Message(key, data) + p
  {}

  lemma {:induction false} ConcatSnoc(parts: seq<seq<Byte>>, p: seq<Byte>)
    ensures Concat(parts + [p]) == Concat(parts) + p
  {
    if |parts| == 0 {
    } else {
      ConcatSnoc(parts[1..], p);
      assert (parts + [p])[1..] == parts[1..] + [p];
    }
  }

  type Mac = s: seq<Byte> | |s| == 16 witness seq(16, _ => 0)

  /** The keyed 16-byte hash MAC1 is made of. */
  function Mac128(f: Compress, key: seq<Byte>, data: seq<Byte>): (m: Mac)
    requires |key| <= 32
  {
    Image(Hash(f, 16, key, data))[..16]
  }

  /** blake2s_128mac */
  method ComputeMac128(f: Compress, key: seq<Byte>, data: seq<Byte>) returns (m: Mac)
    requires |key| <= 32 && |data| < 0x8000_0000
    ensures m == Mac128(f, key, data)
  {
    hide InitChain, Absorb, Image;
    var st := new State(f, 16, key);
    st.Update(data);
    MessageSnoc(key, [], data);
    assert [] + data == data;
    var full := st.Final();
    m := full[..16];
  }

  /** blake2s_256 */
  method ComputeHash256(f: Compress, data: seq<Byte>) returns (d: Digest)
    requires |data| < 0x8000_0000
    ensures d == Image(Hash(f, 32, [], data))
  {
    hide InitChain, Absorb, Image;
    var st := new State(f, 32, []);
    st.Update(data);
    assert [] + data == data;
    d := st.Final();
  }
}
