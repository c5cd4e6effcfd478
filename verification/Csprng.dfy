/** The generator of the bytes that leave in the clear before a handshake
    (csprng_* of src/fastrand.c): a ChaCha20 keystream read in whole blocks. */
module Csprng {
  import opened Bytes
  import opened ChaCha20

  /** Blocks a request takes up; a partial last block is thrown away. */
  function BlocksFor(len: nat): (n: nat)
    ensures 64 * n >= len && (len > 0 ==> 64 * (n - 1) < len)
  {
    (len + 63) / 64
  }

  class Generator {
    const core: Core
    const key: Key
    const nonce: Nonce
    var ctr: Word

    /** csprng_init: the stream number tells apart generators on one key. */
    constructor (core: Core, key: Key, stream: Byte)
      ensures this.core == core && this.key == key && ctr == 0
      ensures nonce == [stream] + seq(11, _ => 0)
    {
      this.core := core;
      this.key := key;
      this.nonce := [stream] + seq(11, _ => 0);
      this.ctr := 0;
    }

    method Fill(buf: array<Byte>, off: nat, len: nat)
      requires off + len <= buf.Length
      modifies buf, this`ctr
      ensures buf[..] == Splice(old(buf[..]), off, Keystream(BlockOf(core), key, nonce, old(ctr), len))
      ensures ctr == Wrap(old(ctr) as int + BlocksFor(len))
    {
      FillKeystream(core, key, nonce, ctr, buf, off, len);
      ctr := (ctr as int + (len + 63) / 64) % WORD_RANGE;
    }
  }

  /** The counter after the first k requests of a run. */
  function CounterAt(ctr: Word, lens: seq<nat>, k: nat): (c: Word)
    requires k <= |lens|
  {
    if k == 0 then ctr else Wrap(CounterAt(ctr, lens, k - 1) as int + BlocksFor(lens[k - 1]))
  }

  /** Blocks drawn by the first k requests of a run. */
  function BlocksBefore(lens: seq<nat>, k: nat): (n: nat)
    requires k <= |lens|
  {
    if k == 0 then 0 else BlocksBefore(lens, k - 1) + BlocksFor(lens[k - 1])
  }

  lemma {:induction false} CounterIsBlocksDrawn(ctr: Word, lens: seq<nat>, k: nat)
    requires k <= |lens|
    ensures CounterAt(ctr, lens, k) == Wrap(ctr as int + BlocksBefore(lens, k))
  {
    if k == 0 {
    } else {
      CounterIsBlocksDrawn(ctr, lens, k - 1);
      WrapTwice(ctr as int + BlocksBefore(lens, k - 1), BlocksFor(lens[k - 1]));
    }
  }

  lemma {:induction false} BlocksMonotone(lens: seq<nat>, i: nat, j: nat)
    requires i <= j <= |lens|
    ensures BlocksBefore(lens, i) <= BlocksBefore(lens, j)
  {
    if i == j {
    } else {
      BlocksMonotone(lens, i, j - 1);
    }
  }

  /** The block counter behind byte 64 * a of the k-th request. */
  function BlockCounter(ctr: Word, lens: seq<nat>, k: nat, a: nat): (c: Word)
    requires k < |lens|
  {
    Wrap(CounterAt(ctr, lens, k) as int + a)
  }

  /** Two blocks of one run, named by request and place, share a counter
      exactly when the run drew them a multiple of 2^32 blocks apart. */
  lemma SameCounterIff(ctr: Word, lens: seq<nat>, i: nat, a: nat, j: nat, b: nat)
    requires i < |lens| && j < |lens|
    ensures BlockCounter(ctr, lens, i, a) == BlockCounter(ctr, lens, j, b)
            <==> (BlocksBefore(lens, i) + a - (BlocksBefore(lens, j) + b)) % 0x1_0000_0000 == 0
  {
    hide *;
    CounterIsBlocksDrawn(ctr, lens, i);
    CounterIsBlocksDrawn(ctr, lens, j);
    BlockCounterIs(ctr, lens, i, a);
    BlockCounterIs(ctr, lens, j, b);
    WrapEqual(ctr as int + BlocksBefore(lens, i) + a, ctr as int + BlocksBefore(lens, j) + b);
  }

  lemma BlockCounterIs(ctr: Word, lens: seq<nat>, k: nat, a: nat)
    requires k < |lens|
    ensures BlockCounter(ctr, lens, k, a) == Wrap(ctr as int + BlocksBefore(lens, k) + a)
  {
    CounterIsBlocksDrawn(ctr, lens, k);
    WrapTwice(ctr as int + BlocksBefore(lens, k), a);
  }

  lemma WrapEqual(x: nat, y: nat)
    ensures Wrap(x) == Wrap(y) <==> (x - y) % 0x1_0000_0000 == 0
  {}

  /** Until 2^32 blocks have been drawn, no two requests of a run read the
      same keystream block. */
  lemma RequestsDisjoint(ctr: Word, lens: seq<nat>, i: nat, a: nat, j: nat, b: nat)
    requires i < j < |lens| && a < BlocksFor(lens[i]) && b < BlocksFor(lens[j])
    requires BlocksBefore(lens, |lens|) <= WORD_RANGE
    ensures BlockCounter(ctr, lens, i, a) != BlockCounter(ctr, lens, j, b)
  {
    BlocksMonotone(lens, i + 1, j);
    BlocksMonotone(lens, j + 1, |lens|);
    SameCounterIff(ctr, lens, i, a, j, b);
  }
}
