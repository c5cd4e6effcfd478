/** The ChaCha20 keystream (src/chacha20.c, sections 2.3 and 2.4 of RFC 8439)
    and the generator that runs on it (csprng_* of src/fastrand.c). The
    rounds are a parameter: `core` stands for any function from the sixteen
    input words to a 64-byte block. */
module ChaCha20 {
  import opened BitLaws
  import opened Bytes

  type Block = s: seq<Byte> | |s| == 64 witness seq(64, _ => 0)
  type Key = s: seq<Byte> | |s| == 32 witness seq(32, _ => 0)
  type Nonce = s: seq<Byte> | |s| == 12 witness seq(12, _ => 0)
  type Core = seq<Word> -> Block

  /** The block of a key, a nonce and a block counter. */
  type BlockFn = (Key, Nonce, Word) -> Block

  /** chacha20_setup: the input words; the counter is word 12. */
  function Setup(key: Key, nonce: Nonce, counter: Word): (st: seq<Word>)
    ensures |st| == 16 && st[12] == counter
  {
    [0x61707865, 0x3320646E, 0x79622D32, 0x6B206574,
     Read32(key, 0), Read32(key, 4), Read32(key, 8), Read32(key, 12),
     Read32(key, 16), Read32(key, 20), Read32(key, 24), Read32(key, 28),
     counter, Read32(nonce, 0), Read32(nonce, 4), Read32(nonce, 8)]
  }

  /** The words of a state as bytes, in order. */
  function StateBytes(st: seq<Word>): (s: seq<Byte>)
    ensures |s| == 4 * |st|
  {
    if |st| == 0 then [] else Le32(st[0]) + StateBytes(st[1..])
  }

  lemma {:induction false} StateBytesJoin(a: seq<Word>, b: seq<Word>)
    ensures StateBytes(a + b) == StateBytes(a) + StateBytes(b)
  {
    if |a| == 0 {
      assert a + b == b;
    } else {
      StateBytesJoin(a[1..], b);
      assert (a + b)[1..] == a[1..] + b;
    }
  }

  /** Words read from bytes have those bytes. */
  lemma {:induction false} WordsOfBytes(st: seq<Word>, s: seq<Byte>)
    requires |s| == 4 * |st| && forall i :: 0 <= i < |st| ==> st[i] == Read32(s, 4 * i)
    ensures StateBytes(st) == s
  {
    if |st| == 0 {
    } else {
      var rest := s[4..];
      forall i | 0 <= i < |st| - 1
        ensures st[1..][i] == Read32(rest, 4 * i)
      {
        assert st[1..][i] == Read32(s, 4 * (i + 1));
      }
      WordsOfBytes(st[1..], rest);
      WordsAreBytes(s, 0);
      assert s == s[0..4] + rest;
    }
  }

  /** "expand 32-byte k" */
  const EXPAND: seq<Byte> := [101, 120, 112, 97, 110, 100, 32, 51, 50, 45, 98, 121, 116, 101, 32, 107]

  /** Section 2.3 of RFC 8439: the input state is the constant, the key, the
      block counter and the nonce, as bytes one behind the other. */
  lemma SetupBytes(key: Key, nonce: Nonce, counter: Word)
    ensures StateBytes(Setup(key, nonce, counter)) == EXPAND + key + Le32(counter) + nonce
  {
    hide Read32, Le32, StateBytes;
    var st := Setup(key, nonce, counter);
    WordsOfBytes(st[..4], EXPAND) by { ExpandWords(); }
    WordsOfBytes(st[4..12], key);
    WordsOfBytes(st[13..], nonce);
    OneWord(counter);
    assert st == st[..4] + (st[4..12] + ([counter] + st[13..]));
    StateBytesJoin([counter], st[13..]);
    StateBytesJoin(st[4..12], [counter] + st[13..]);
    StateBytesJoin(st[..4], st[4..12] + ([counter] + st[13..]));
    InFour(StateBytes(st[..4]), StateBytes(st[4..12]), StateBytes([counter]), StateBytes(st[13..]));
  }

  lemma InFour(a: seq<Byte>, b: seq<Byte>, c: seq<Byte>, d: seq<Byte>)
    ensures a + (b + (c + d)) == a + b + c + d
  {}

  lemma ExpandWords()
    ensures Read32(EXPAND, 0) == 0x61707865 && Read32(EXPAND, 4) == 0x3320646E
    ensures Read32(EXPAND, 8) == 0x79622D32 && Read32(EXPAND, 12) == 0x6B206574
  {}

  lemma OneWord(w: Word)
    ensures StateBytes([w]) == Le32(w)
  {
    assert [w][1..] == [];
  }

  /** So the input tells keys, nonces and counters apart: two packets whose
      nonces differ never share a block's input. */
  lemma SetupInjective(k: Key, n: Nonce, c: Word, k': Key, n': Nonce, c': Word)
    ensures Setup(k, n, c) == Setup(k', n', c') <==> k == k' && n == n' && c == c'
  {
    hide Le32, Read32, StateBytes;
    SetupBytes(k, n, c);
    SetupBytes(k', n', c');
    if Setup(k, n, c) == Setup(k', n', c') {
      var s, s' := EXPAND + k + Le32(c) + n, EXPAND + k' + Le32(c') + n';
      assert s[16..48] == k && s'[16..48] == k';
      assert s[52..] == n && s'[52..] == n';
    }
  }

  /** st[12]++ */
  function Bump(st: seq<Word>): (r: seq<Word>)
    requires |st| == 16
    ensures |r| == 16
  {
    st[12 := Wrap(st[12] as int + 1)]
  }

  function Wrap(n: nat): (w: Word) {
    n % WORD_RANGE
  }

  /** chacha20_block for a given core. */
  function BlockOf(core: Core): (f: BlockFn) {
    (key: Key, nonce: Nonce, counter: Word) => core(Setup(key, nonce, counter))
  }

  lemma BlockOfIs(core: Core, key: Key, nonce: Nonce, counter: Word)
    ensures BlockOf(core)(key, nonce, counter) == core(Setup(key, nonce, counter))
  {}

  /** Byte i of the keystream that starts at a block counter: byte i % 64 of
      the block i / 64 places further, the counter wrapping at 2^32. */
  function StreamByte(f: BlockFn, key: Key, nonce: Nonce, counter: Word, i: nat): (b: Byte) {
    f(key, nonce, Wrap(counter as int + i / 64))[i % 64]
  }

  function Keystream(f: BlockFn, key: Key, nonce: Nonce, counter: Word, len: nat): (s: seq<Byte>)
    ensures |s| == len
  {
    seq(len, i requires 0 <= i => StreamByte(f, key, nonce, counter, i))
  }

  /** What chacha20_xor leaves in place of text. */
  function Protect(f: BlockFn, key: Key, nonce: Nonce, text: seq<Byte>): (s: seq<Byte>)
    ensures |s| == |text|
  {
    XorBytes(text, Keystream(f, key, nonce, 0, |text|))
  }

  /** Protecting twice under the same key and nonce gives the text back, at
      every length. */
  lemma ProtectInvolution(f: BlockFn, key: Key, nonce: Nonce, text: seq<Byte>)
    ensures Protect(f, key, nonce, Protect(f, key, nonce, text)) == text
  {
    XorBytesInvolution(text, Keystream(f, key, nonce, 0, |text|));
  }

  /** Byte by byte: text byte i against byte i % 64 of the block with counter
      i / 64. */
  lemma ProtectAt(core: Core, key: Key, nonce: Nonce, text: seq<Byte>, i: nat)
    requires i < |text|
    ensures Protect(BlockOf(core), key, nonce, text)[i]
            == XorByte(text[i], core(Setup(key, nonce, i / 64 % 0x1_0000_0000))[i % 64])
  {
    hide Setup, XorByte;
  }

  /** The keystream of a shorter request is a prefix of a longer one. */
  lemma KeystreamPrefix(f: BlockFn, key: Key, nonce: Nonce, counter: Word, m: nat, n: nat)
    requires m <= n
    ensures Keystream(f, key, nonce, counter, n)[..m] == Keystream(f, key, nonce, counter, m)
  {}

  /** One block is the head of the keystream at its counter. */
  lemma BlockIsHead(f: BlockFn, key: Key, nonce: Nonce, counter: Word, n: nat)
    requires n <= 64
    ensures Keystream(f, key, nonce, counter, n) == f(key, nonce, counter)[..n]
  {
    forall i | 0 <= i < n
      ensures StreamByte(f, key, nonce, counter, i) == f(key, nonce, counter)[i]
    {
      assert i / 64 == 0 && i % 64 == i;
    }
  }

  /** The keystream splits at every block boundary. */
  lemma KeystreamSplit(f: BlockFn, key: Key, nonce: Nonce, counter: Word, blocks: nat, len: nat)
    ensures Keystream(f, key, nonce, counter, 64 * blocks + len)
            == Keystream(f, key, nonce, counter, 64 * blocks)
               + Keystream(f, key, nonce, Wrap(counter as int + blocks), len)
  {
    var whole := Keystream(f, key, nonce, counter, 64 * blocks + len);
    var head := Keystream(f, key, nonce, counter, 64 * blocks);
    var tail := Keystream(f, key, nonce, Wrap(counter as int + blocks), len);
    forall i | 0 <= i < |whole|
      ensures whole[i] == (head + tail)[i]
    {
      if i >= 64 * blocks {
        var j := i - 64 * blocks;
        assert i / 64 == blocks + j / 64 && i % 64 == j % 64;
        WrapTwice(counter as int + blocks, j / 64);
      }
    }
  }

  lemma WrapTwice(a: nat, b: nat)
    ensures Wrap(Wrap(a) as int + b) == Wrap(a + b)
  {}

  lemma BumpSetup(key: Key, nonce: Nonce, counter: Word, blocks: nat)
    ensures Bump(Setup(key, nonce, Wrap(counter as int + blocks))) == Setup(key, nonce, Wrap(counter as int + blocks + 1))
  {
    WrapTwice(counter as int + blocks, 1);
  }

  /** chacha20_keystream: whole blocks straight into the output, then the head
      of one more. */
  method FillKeystream(core: Core, key: Key, nonce: Nonce, counter: Word, out: array<Byte>, off: nat, len: nat)
    requires off + len <= out.Length
    modifies out
    ensures out[..] == Splice(old(out[..]), off, Keystream(BlockOf(core), key, nonce, counter, len))
  {
    ghost var f := BlockOf(core);
    ghost var start := out[..];
    var st := Setup(key, nonce, counter);
    var left, at := len, off;
    ghost var blocks := 0;
    assert Splice(start, off, Keystream(f, key, nonce, counter, 0)) == start;
    while left >= 64
      invariant left >= 0 && at == off + 64 * blocks && left == len - 64 * blocks
      invariant st == Setup(key, nonce, Wrap(counter as int + blocks))
      invariant out[..] == Splice(start, off, Keystream(f, key, nonce, counter, 64 * blocks))
    {
      var blk := core(st);
      Copy(out, at, blk);
      OneMoreBlock(f, key, nonce, counter, blocks, start, off, 64);
      assert f(key, nonce, Wrap(counter as int + blocks))[..64] == blk;
      BumpSetup(key, nonce, counter, blocks);
      st := Bump(st);
      blocks := blocks + 1;
      at := at + 64;
      left := left - 64;
    }
    if left > 0 {
      var blk := core(st);
      Copy(out, at, blk[..left]);
      OneMoreBlock(f, key, nonce, counter, blocks, start, off, left);
    }
  }

  lemma OneMoreBlock(f: BlockFn, key: Key, nonce: Nonce, counter: Word, blocks: nat,
                     start: seq<Byte>, off: nat, n: nat)
    requires n <= 64 && off + 64 * blocks + n <= |start|
    ensures Splice(Splice(start, off, Keystream(f, key, nonce, counter, 64 * blocks)),
                   off + 64 * blocks, f(key, nonce, Wrap(counter as int + blocks))[..n])
            == Splice(start, off, Keystream(f, key, nonce, counter, 64 * blocks + n))
  {
    KeystreamSplit(f, key, nonce, counter, blocks, n);
    BlockIsHead(f, key, nonce, Wrap(counter as int + blocks), n);
    SpliceAdjacent(start, off, Keystream(f, key, nonce, counter, 64 * blocks),
                   f(key, nonce, Wrap(counter as int + blocks))[..n]);
  }

  /** chacha20_xor_ks: up to one block of text against a computed block. */
  method XorBlock(buf: array<Byte>, off: nat, ks: seq<Byte>, len: nat)
    requires len <= |ks| && off + len <= buf.Length
    modifies buf
    ensures buf[..] == Splice(old(buf[..]), off, XorBytes(old(buf[off..off + len]), ks))
  {
    hide XorByte, XorBytes, Splice;
    ghost var start := buf[..];
    ghost var text := start[off..off + len];
    XorNoneYet(start, off, text, ks);
    for i := 0 to len
      invariant buf[..] == Splice(start, off, XorBytes(text[..i], ks))
    {
      XorOneMore(start, off, text, ks, i);
      buf[off + i] := XorByte(buf[off + i], ks[i]);
    }
    assert text[..len] == text;
  }

  lemma XorNoneYet(start: seq<Byte>, off: nat, text: seq<Byte>, ks: seq<Byte>)
    requires off + |text| <= |start|
    ensures Splice(start, off, XorBytes(text[..0], ks)) == start
  {}

  lemma XorOneMore(start: seq<Byte>, off: nat, text: seq<Byte>, ks: seq<Byte>, i: nat)
    requires i < |text| <= |ks| && off + |text| <= |start| && text == start[off..off + |text|]
    ensures
      var s := Splice(start, off, XorBytes(text[..i], ks));
      && s[off + i] == text[i]
      && s[off + i := XorByte(text[i], ks[i])] == Splice(start, off, XorBytes(text[..i + 1], ks))
  {
    hide XorByte;
  }

  /** chacha20_xor: text in place against the keystream from counter 0. */
  method XorInPlace(core: Core, key: Key, nonce: Nonce, buf: array<Byte>, off: nat, len: nat)
    requires off + len <= buf.Length
    modifies buf
    ensures buf[..] == Splice(old(buf[..]), off, Protect(BlockOf(core), key, nonce, old(buf[off..off + len])))
  {
    hide *;
    ghost var f := BlockOf(core);
    ghost var text := buf[off..off + len];
    ghost var masked := Protect(f, key, nonce, text);
    ghost var goal := Splice(buf[..], off, masked);
    var st := Setup(key, nonce, 0);
    WrapZero();
    NothingMasked(buf[..], off, len);
    assert masked[0..] == masked;
    var at := 0;
    ghost var blocks := 0;
    while at < len
      invariant 0 <= at <= len
      invariant at < len ==> at == 64 * blocks
      invariant st == Setup(key, nonce, Wrap(blocks))
      invariant Unmasked(buf[..], off, text, at)
      invariant Splice(buf[..], off + at, masked[at..]) == goal
    {
      var n := if len - at < 64 then len - at else 64;
      var blk := core(st);
      BlockOfIs(core, key, nonce, Wrap(blocks));
      MaskedBlock(f, key, nonce, text, blocks, n);
      MaskedChunk(buf[..], off, text, masked, at, n);
      XorBlock(buf, off + at, blk, n);
      BumpSetup(key, nonce, 0, blocks);
      st := Bump(st);
      blocks := blocks + 1;
      at := at + n;
    }
    assert masked[len..] == [];
    SpliceNothing(buf[..], off + len);
  }

  /** The text from position `at` on still stands in the buffer. */
  ghost predicate Unmasked(buf: seq<Byte>, off: nat, text: seq<Byte>, at: nat) {
    at <= |text| && off + |text| <= |buf| && buf[off + at..off + |text|] == text[at..]
  }

  lemma NothingMasked(buf: seq<Byte>, off: nat, len: nat)
    requires off + len <= |buf|
    ensures Unmasked(buf, off, buf[off..off + len], 0)
  {}

  lemma MaskedChunk(buf: seq<Byte>, off: nat, text: seq<Byte>, masked: seq<Byte>, at: nat, n: nat)
    requires Unmasked(buf, off, text, at) && at + n <= |text| == |masked|
    ensures buf[off + at..off + at + n] == text[at..at + n]
    ensures
      var next := Splice(buf, off + at, masked[at..at + n]);
      Unmasked(next, off, text, at + n)
      && Splice(next, off + at + n, masked[at + n..]) == Splice(buf, off + at, masked[at..])
  {
    assert buf[off + at..off + at + n] == buf[off + at..off + |text|][..n];
    var next := Splice(buf, off + at, masked[at..at + n]);
    SpliceAdjacent(buf, off + at, masked[at..at + n], masked[at + n..]);
    assert masked[at..] == masked[at..at + n] + masked[at + n..];
    forall i | at + n <= i < |text|
      ensures next[off + i] == text[i]
    {
      assert buf[off + i] == buf[off + at..off + |text|][i - at];
    }
  }

  lemma WrapZero()
    ensures Wrap(0) == 0
  {}

  lemma MaskedBlock(f: BlockFn, key: Key, nonce: Nonce, text: seq<Byte>, blocks: nat, n: nat)
    requires n <= 64 && 64 * blocks + n <= |text|
    ensures XorBytes(text[64 * blocks..64 * blocks + n], f(key, nonce, Wrap(blocks)))
            == Protect(f, key, nonce, text)[64 * blocks..64 * blocks + n]
  {
    var at := 64 * blocks;
    forall i | 0 <= i < n
      ensures StreamByte(f, key, nonce, 0, at + i) == f(key, nonce, Wrap(blocks))[i]
    {
      assert (at + i) / 64 == blocks && (at + i) % 64 == i;
    }
  }
}
