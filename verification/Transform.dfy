/** The packet transform as it runs (src/transform.c): in place, in a buffer
    with headroom in front of the message, or in the static handshake buffer
    when the headroom is too short. Every method is proved against Wire. */
module Transform {
  import opened Bytes
  import opened ChaCha20
  import FastRand
  import opened Profiles
  import opened Wire

  /** fill_padding */
  method FillPadding(buf: array<Byte>, at: nat, len: nat, seed: Long)
    requires at + len <= buf.Length
    modifies buf
    ensures buf[..] == Splice(old(buf[..]), at, FastRand.Padding(seed, len))
  {
    var g := new FastRand.Generator(FastRand.Mix64(seed));
    g.Fill(buf, at, len);
  }

  /** append_trailer: the new length of a finished packet of `size` bytes. */
  method AppendTrailer(c: Config, p: Profile, buf: array<Byte>, at: nat, size: nat, seed: Long) returns (len: nat)
    requires size <= PACKET_BUF && at + PACKET_BUF <= buf.Length
    modifies buf
    ensures len == size + TrailerLen(p.rt, c.window, size, seed) <= PACKET_BUF
    ensures buf[..] == Splice(old(buf[..]), at + size, Trailer(p.rt, c.window, size, seed))
  {
    hide FastRand.Padding, FastRand.Mix64, XorLong, FastRand.Stream;
    var tl := TrailerLen(p.rt, c.window, size, seed);
    if tl > 0 {
      FillPadding(buf, at + size, tl, XorLong(seed, SALT_TRAILER));
    } else {
      SpliceNothing(buf[..], at + size);
    }
    len := size + tl;
  }

  lemma SpliceSlice(s: seq<Byte>, at: nat, b: seq<Byte>)
    requires at + |b| <= |s|
    ensures Splice(s, at, b)[at..at + |b|] == b
  {}

  lemma SpliceWithin(s: seq<Byte>, at: nat, n: nat, i: nat, b: seq<Byte>)
    requires at + n <= |s| && i + |b| <= n
    ensures Splice(s, at + i, b)[at..at + n] == Splice(s[at..at + n], i, b)
  {}

  lemma SpliceTail(s: seq<Byte>, at: nat, n: nat, b: seq<Byte>)
    requires at + n + |b| <= |s|
    ensures Splice(s, at + n, b)[at..at + n + |b|] == s[at..at + n] + b
  {}

  lemma Write32IsSplice(s: seq<Byte>, w: Word)
    requires |s| >= 4
    ensures Splice(s, 0, Le32(w)) == Write32(s, 0, w)
  {}

  /** Rewrite the type, then MAC1, of the handshake message at dataoff. */
  method Dress(c: Config, p: Profile, k: Kind, key: Option<Key>, rand: Long, buf: array<Byte>, dataoff: nat)
    requires dataoff + k.Size() <= buf.Length
    modifies buf
    ensures buf[dataoff..dataoff + k.Size()] == Dressed(c, p, k, key, rand, old(buf[dataoff..dataoff + k.Size()]))
  {
    hide Le32, Read32, Pick, Write32, Splice;
    ghost var m := buf[dataoff..dataoff + k.Size()];
    var h := Pick(p.Range(k), rand);
    SpliceWithin(buf[..], dataoff, k.Size(), 0, Le32(h));
    Write32IsSplice(m, h);
    Copy(buf, dataoff, Le32(h));
    assert buf[dataoff..dataoff + k.Size()] == buf[..][dataoff..dataoff + k.Size()];
    StampInPlace(c.mac, k, key, buf, dataoff);
  }

  /** What padding and masking in place leave in the buffer. */
  lemma PadThenMask(start: seq<Byte>, at: nat, pad: seq<Byte>, n: nat, masked: seq<Byte>)
    requires at + |pad| + n <= |start| && |masked| <= n
    ensures
      var padded := Splice(start, at, pad);
      && (|pad| >= 12 ==> padded[at..at + 12] == pad[..12])
      && padded[at + |pad|..at + |pad| + n] == start[at + |pad|..at + |pad| + n]
      && Splice(padded, at + |pad|, masked) == Splice(start, at, pad + masked)
  {
    SpliceAdjacent(start, at, pad, masked);
  }

  lemma PaddedOnly(s: seq<Byte>, at: nat, pad: seq<Byte>, n: nat)
    requires at + |pad| + n <= |s|
    ensures Splice(s, at, pad) == Splice(s, at, pad + s[at + |pad|..at + |pad| + n])
  {}

  lemma MaskedIs(c: Config, p: Profile, pad: seq<Byte>, m: seq<Byte>)
    requires p.hpOn ==> |pad| >= HP_MIN_PADDING
    ensures Masked(c, p, pad, m) == if p.hpOn then Protect(BlockOf(c.core), c.hpKey, pad[..12], m) else m
  {}

  /** The datagram around a dressed message. */
  function Packed(c: Config, p: Profile, k: Kind, seed: Long, typed: seq<Byte>): (w: seq<Byte>)
    requires Ready(p)
    ensures |w| == p.Pad(k) + |typed| + TrailerLen(p.rt, c.window, p.Total(k), seed)
  {
    ReadyMeans(p, k);
    var pad := FastRand.Padding(seed, p.Pad(k));
    pad + Masked(c, p, pad, typed) + Trailer(p.rt, c.window, p.Total(k), seed)
  }

  lemma PackedIs(c: Config, p: Profile, k: Kind, seed: Long, typed: seq<Byte>)
    requires Ready(p)
    ensures p.hpOn ==> p.Pad(k) >= HP_MIN_PADDING
    ensures
      var pad := FastRand.Padding(seed, p.Pad(k));
      Packed(c, p, k, seed, typed) == pad + Masked(c, p, pad, typed) + Trailer(p.rt, c.window, p.Total(k), seed)
  {
    ReadyMeans(p, k);
  }

  lemma WireIsPacked(c: Config, p: Profile, k: Kind, key: Option<Key>, rand: Long, m: seq<Byte>)
    requires Ready(p) && |m| == k.Size()
    ensures HandshakeWire(c, p, k, key, rand, m) == Packed(c, p, k, Seed(k, rand), Dressed(c, p, k, key, rand, m))
  {}

  /** Pad, protect and trail the dressed message standing at off + s. */
  method Wrap(c: Config, p: Profile, k: Kind, seed: Long, buf: array<Byte>, off: nat) returns (len: nat)
    requires Ready(p) && off + PACKET_BUF <= buf.Length && 0 <= p.Pad(k) && p.Total(k) == p.Pad(k) + k.Size() <= PACKET_BUF
    modifies buf
    ensures off + len <= buf.Length
    ensures buf[off..off + len] == Packed(c, p, k, seed, old(buf[off + p.Pad(k)..off + p.Total(k)]))
  {
    hide Packed, Masked, Protect, FastRand.Padding, Trailer, TrailerLen, Splice, Ready, BlockOf, Profile.Pad, Profile.Total,
         Kind.Size;
    var s, n := p.Pad(k), k.Size();
    ghost var start := buf[..];
    ghost var typed := start[off + s..off + s + n];
    PackedIs(c, p, k, seed, typed);
    ghost var pad := FastRand.Padding(seed, s);
    ghost var masked := Masked(c, p, pad, typed);
    MaskedIs(c, p, pad, typed);
    PadThenMask(start, off, pad, n, masked);
    PaddedOnly(start, off, pad, n);
    FillPadding(buf, off, s, seed);
    if p.hpOn {
      var nonce: Nonce := buf[off..off + 12];
      XorInPlace(c.core, c.hpKey, nonce, buf, off + s, n);
    }
    assert buf[..] == Splice(start, off, pad + masked);
    len := AppendTrailer(c, p, buf, off, s + n, seed);
    ghost var trailer := Trailer(p.rt, c.window, p.Total(k), seed);
    SpliceAdjacent(start, off, pad + masked, trailer);
    SpliceSlice(start, off, pad + masked + trailer);
  }

  /** Which buffer the packet to send stands in. */
  datatype Place = Nowhere | InBuffer | InStatic

  ghost predicate Holds(place: Place, buf: array<Byte>, hs: array<Byte>, off: nat, len: nat, bytes: seq<Byte>)
    reads buf, hs
  {
    match place
    case Nowhere => false
    case InBuffer => off + len <= buf.Length && buf[off..off + len] == bytes
    case InStatic => off + len <= hs.Length && hs[off..off + len] == bytes
  }

  /** Pad a copy of the dressed message in the static buffer. */
  method WrapCopy(c: Config, p: Profile, k: Kind, seed: Long, hs: array<Byte>, typed: seq<Byte>) returns (len: nat)
    requires Ready(p) && hs.Length == PACKET_BUF && |typed| == k.Size()
    requires 0 <= p.Pad(k) && p.Total(k) == p.Pad(k) + k.Size() <= PACKET_BUF
    modifies hs
    ensures len <= hs.Length && hs[..len] == Packed(c, p, k, seed, typed)
  {
    hide Ready, Splice, Packed, Profile.Pad, Profile.Total, Kind.Size;
    SpliceSlice(hs[..], p.Pad(k), typed);
    Copy(hs, p.Pad(k), typed);
    len := Wrap(c, p, k, seed, hs, 0);
  }

  /** Pad the dressed message at dataoff: in the headroom in front of it, or
      in the static buffer when the headroom is too short. */
  method WrapSomewhere(c: Config, p: Profile, k: Kind, seed: Long, buf: array<Byte>, hs: array<Byte>, dataoff: nat)
    returns (place: Place, off: nat, len: nat)
    requires Ready(p) && buf != hs && hs.Length == PACKET_BUF && dataoff + PACKET_BUF <= buf.Length
    requires 0 <= p.Pad(k) && p.Total(k) == p.Pad(k) + k.Size() <= PACKET_BUF
    modifies buf, hs
    ensures Holds(place, buf, hs, off, len, Packed(c, p, k, seed, old(buf[dataoff..dataoff + k.Size()])))
  {
    hide TrailerLen, Trailer, Ready, Splice, Packed, Profile.Pad, Profile.Total, Kind.Size;
    var s, n := p.Pad(k), k.Size();
    if s > 0 {
      if dataoff >= s {
        place, off := InBuffer, dataoff - s;
        len := Wrap(c, p, k, seed, buf, off);
      } else {
        place, off := InStatic, 0;
        len := WrapCopy(c, p, k, seed, hs, buf[dataoff..dataoff + n]);
      }
    } else {
      place, off := InBuffer, dataoff;
      UnpaddedPacked(c, p, k, seed, buf[..], dataoff);
      len := AppendTrailer(c, p, buf, dataoff, n, seed);
    }
  }

  /** One handshake branch: type and MAC1 first, then padding, protection and
      trailer. */
  method SendHandshake(c: Config, p: Profile, k: Kind, key: Option<Key>, rand: Long,
                       buf: array<Byte>, hs: array<Byte>, dataoff: nat) returns (place: Place, off: nat, len: nat)
    requires Ready(p) && buf != hs && hs.Length == PACKET_BUF && dataoff + PACKET_BUF <= buf.Length
    requires k.Size() <= PACKET_BUF
    modifies buf, hs
    ensures Holds(place, buf, hs, off, len,
                  HandshakeWire(c, p, k, key, rand, old(buf[dataoff..dataoff + k.Size()])))
  {
    hide Holds, Ready, Dressed, Packed, HandshakeWire, Seed, Profile.Pad, Profile.Total, Kind.Size;
    ReadyMeans(p, k);
    WireIsPacked(c, p, k, key, rand, buf[dataoff..dataoff + k.Size()]);
    Dress(c, p, k, key, rand, buf, dataoff);
    place, off, len := WrapSomewhere(c, p, k, Seed(k, rand), buf, hs, dataoff);
  }

  lemma UnpaddedPacked(c: Config, p: Profile, k: Kind, seed: Long, start: seq<Byte>, at: nat)
    requires Ready(p) && p.Pad(k) == 0 && at + PACKET_BUF <= |start|
    ensures k.Size() + TrailerLen(p.rt, c.window, k.Size(), seed) <= PACKET_BUF
    ensures
      var n := k.Size();
      var trailer := Trailer(p.rt, c.window, n, seed);
      Splice(start, at + n, trailer)[at..at + n + |trailer|] == Packed(c, p, k, seed, start[at..at + n])
  {
    hide FastRand.Padding, XorLong, TrailerLen, Trailer, Protect, Validate;
    ReadyMeans(p, k);
    var n := k.Size();
    var typed, trailer := start[at..at + n], Trailer(p.rt, c.window, n, seed);
    assert Packed(c, p, k, seed, typed) == typed + trailer;
    SpliceTail(start, at, n, trailer);
  }

  /** The transport branch. */
  method SendTransport(c: Config, p: Profile, rand: Long, buf: array<Byte>, dataoff: nat, n: nat)
    returns (off: nat, len: nat)
    requires Ready(p) && TRANSPORT_MIN <= n && dataoff + n <= buf.Length
    modifies buf
    ensures off + len <= buf.Length
    ensures buf[off..off + len] == TransportWire(c, p, dataoff, rand, old(buf[dataoff..dataoff + n]))
  {
    hide FastRand.Padding, XorLong, Ready, Splice, Write32, Le32, Pick, TransportWire, MaskedHeader;
    ReadyMeans(p, Init);
    TransportWireIs(c, p, dataoff, rand, buf[dataoff..dataoff + n]);
    if p.h4Noop {
      return dataoff, n;
    }
    var h := if p.h4.min == p.h4.max then p.h4Fixed else Pick(p.h4, rand);
    SpliceWithin(buf[..], dataoff, n, 0, Le32(h));
    Write32IsSplice(buf[dataoff..dataoff + n], h);
    Copy(buf, dataoff, Le32(h));
    if p.s4 > 0 && dataoff >= p.s4 {
      off := dataoff - p.s4;
      len := p.s4 + n;
      WrapTransport(c, p, rand, buf, off, n);
    } else {
      off, len := dataoff, n;
    }
  }

  lemma TransportWireIs(c: Config, p: Profile, dataoff: nat, rand: Long, m: seq<Byte>)
    requires Ready(p) && |m| >= TRANSPORT_MIN
    ensures p.hpOn ==> p.s4 >= HP_MIN_PADDING
    ensures p.h4Noop ==> TransportWire(c, p, dataoff, rand, m) == m
    ensures !p.h4Noop ==>
              var typed := Write32(m, 0, if p.h4.min == p.h4.max then p.h4Fixed else Pick(p.h4, rand));
              var pad := FastRand.Padding(XorLong(rand, SALT_TRANSPORT), if p.s4 > 0 then p.s4 else 0);
              TransportWire(c, p, dataoff, rand, m)
              == if 0 < p.s4 <= dataoff then pad + MaskedHeader(c, p, pad, typed) else typed
  {
    hide FastRand.Padding, XorLong, MaskedHeader, Write32, Pick;
    ReadyMeans(p, Init);
  }

  /** Pad and protect the typed packet standing at off + s4. */
  method WrapTransport(c: Config, p: Profile, rand: Long, buf: array<Byte>, off: nat, n: nat)
    requires p.s4 > 0 && (p.hpOn ==> p.s4 >= HP_MIN_PADDING) && TRANSPORT_MIN <= n && off + p.s4 + n <= buf.Length
    modifies buf
    ensures
      var pad := FastRand.Padding(XorLong(rand, SALT_TRANSPORT), p.s4);
      buf[off..off + p.s4 + n] == pad + MaskedHeader(c, p, pad, old(buf[off + p.s4..off + p.s4 + n]))
  {
    hide FastRand.Padding, XorLong, Splice, Protect, BlockOf;
    ghost var start := buf[..];
    ghost var pad := FastRand.Padding(XorLong(rand, SALT_TRANSPORT), p.s4);
    ghost var typed := start[off + p.s4..off + p.s4 + n];
    PaddedOnly(start, off, pad, n);
    SpliceSlice(start, off, pad + typed);
    FillPadding(buf, off, p.s4, XorLong(rand, SALT_TRANSPORT));
    if p.hpOn {
      ghost var head := Protect(c.Block(), c.hpKey, pad[..12], typed[..16]);
      PadThenMask(start, off, pad, 16, head);
      assert start[off + p.s4..off + p.s4 + 16] == typed[..16];
      var nonce: Nonce := buf[off..off + 12];
      XorInPlace(c.core, c.hpKey, nonce, buf, off + p.s4, HP_TRANSPORT_HDR);
      HeaderThenBody(start, off, pad, head, typed);
    }
  }

  lemma HeaderThenBody(start: seq<Byte>, at: nat, pad: seq<Byte>, head: seq<Byte>, typed: seq<Byte>)
    requires |head| == 16 <= |typed| && at + |pad| + |typed| <= |start|
    requires start[at + |pad|..at + |pad| + |typed|] == typed
    ensures Splice(start, at, pad + head)[at..at + |pad| + |typed|] == pad + (head + typed[16..])
  {
    var r := Splice(start, at, pad + head);
    forall i | 16 <= i < |typed|
      ensures r[at + |pad| + i] == typed[i]
    {
      assert start[at + |pad| + i] == start[at + |pad|..at + |pad| + |typed|][i];
    }
  }

  /** transform_outbound_profile: the message at dataoff leaves as Outbound
      says, every write inside the buffers. */
  method TransformOutbound(buf: array<Byte>, hs: array<Byte>, dataoff: nat, n: nat, c: Config, p: Profile,
                           key: Option<Key>, rand: Long) returns (place: Place, off: nat, len: nat, junk: bool)
    requires Ready(p) && buf != hs && hs.Length == PACKET_BUF
    requires dataoff + n <= buf.Length && dataoff + PACKET_BUF <= buf.Length
    modifies buf, hs
    ensures
      match Outbound(c, p, key, dataoff, rand, old(buf[dataoff..dataoff + n]))
      case Dropped => place == Nowhere
      case Sent(bytes, j) => junk == j && Holds(place, buf, hs, off, len, bytes)
  {
    hide HandshakeWire, TransportWire, Validate;
    var out := if key.Some? then key else c.mac1Out;
    place, off, len, junk := InBuffer, dataoff, n, false;
    if n < 4 {
      return;
    }
    var m := buf[dataoff..dataoff + n];
    var msgType := Read32(m, 0);
    if msgType == 1 && n == 148 {
      place, off, len := SendHandshake(c, p, Init, out, rand, buf, hs, dataoff);
      junk := c.jc > 0 || p.cps;
    } else if msgType == 2 && n == 92 {
      place, off, len := SendHandshake(c, p, Response, out, rand, buf, hs, dataoff);
    } else if msgType == 3 && n == 64 {
      if c.disableCookies {
        place, len := Nowhere, 0;
      } else {
        place, off, len := SendHandshake(c, p, Cookie, out, rand, buf, hs, dataoff);
      }
    } else if msgType == TRANSPORT_TYPE && n >= TRANSPORT_MIN {
      off, len := SendTransport(c, p, rand, buf, dataoff, n);
    }
  }

  // ---- Inbound ----

  /** awg_hp_ks_t: the first keystream block of the packet being received. */
  class KeystreamCache {
    var ks: Block
    var valid: bool

    constructor ()
      ensures !valid
    {
      ks := seq(64, _ => 0);
      valid := false;
    }

    /** A filled cache holds the block of this packet's first 12 bytes. */
    ghost predicate GoodFor(c: Config, w: seq<Byte>)
      reads this
    {
      valid ==> |w| >= HP_MIN_PADDING && ks == RecvBlock(c, w)
    }

    /** hp_recv_ks: computed at most once. */
    method Get(c: Config, buf: array<Byte>, n: nat)
      requires HP_MIN_PADDING <= n <= buf.Length && GoodFor(c, buf[..n])
      modifies this
      ensures valid && GoodFor(c, buf[..n])
      ensures old(valid) ==> ks == old(ks)
    {
      if !valid {
        assert buf[..n][..12] == buf[..12];
        ks := c.Block()(c.hpKey, buf[..12], 0);
        valid := true;
      }
    }
  }

  /** Where a decoded message stands in the buffer. */
  datatype Found = NotFound | Found(off: nat, len: nat)

  /** The buffer holds what decoding the datagram w calls for. */
  ghost predicate Shows(buf: seq<Byte>, f: Found, d: Decoded) {
    match d
    case Drop => f == NotFound
    case Accept(off, bytes) => f == Found(off, |bytes|) && off + |bytes| <= |buf| && buf[off..off + |bytes|] == bytes
  }

  /** The word at an offset of a received datagram, unmasked. */
  method PeekType(c: Config, p: Profile, buf: array<Byte>, n: nat, at: nat, ks: KeystreamCache) returns (h: Word)
    requires at + 4 <= n <= buf.Length && (p.hpOn ==> n >= HP_MIN_PADDING && ks.valid)
    requires ks.GoodFor(c, buf[..n])
    ensures h == TypeAt(c, p, buf[..n], at)
  {
    var mask: Word := if p.hpOn then Read32(ks.ks, 0) else 0;
    var word := buf[at..at + 4];
    h := XorWord(Read32(word, 0), mask);
  }

  /** The body of a handshake branch that matched: unmask, restore the type,
      recompute MAC1. */
  method OpenHandshake(c: Config, p: Profile, k: Kind, buf: array<Byte>, n: nat)
    requires Ready(p) && p.Total(k) <= n <= buf.Length
    requires 0 <= p.Pad(k) && p.Total(k) == p.Pad(k) + k.Size() && (p.hpOn ==> p.Pad(k) >= HP_MIN_PADDING)
    modifies buf
    ensures buf[p.Pad(k)..p.Total(k)] == DecodeHandshake(c, p, k, old(buf[..n]))
  {
    hide Protect, Splice, Write32, Le32, Ready, Profile.Pad, Profile.Total, Stamped, DecodeHandshake, BlockOf;
    var s, size := p.Pad(k), k.Size();
    ghost var w := buf[..n];
    ghost var start := buf[..];
    if p.hpOn {
      var nonce: Nonce := buf[..12];
      SpliceSlice(start, s, Protect(BlockOf(c.core), c.hpKey, nonce, start[s..s + size]));
      XorInPlace(c.core, c.hpKey, nonce, buf, s, size);
    }
    ghost var plain := Masked(c, p, w, w[s..s + size]);
    MaskedIs(c, p, w, w[s..s + size]);
    PrefixSlices(start, n, s, size);
    assert buf[..][s..s + size] == plain;
    SpliceWithin(buf[..], s, size, 0, Le32(k.Type()));
    Write32IsSplice(plain, k.Type());
    Copy(buf, s, Le32(k.Type()));
    StampInPlace(c.mac, k, c.mac1In, buf, s);
    DecodeHandshakeIs(c, p, k, w);
  }

  lemma PrefixSlices(start: seq<Byte>, n: nat, s: nat, size: nat)
    requires s + size <= n <= |start|
    ensures start[..n][s..s + size] == start[s..s + size]
    ensures n >= 12 ==> start[..n][..12] == start[..12]
  {}

  lemma DecodeHandshakeIs(c: Config, p: Profile, k: Kind, w: seq<Byte>)
    requires Ready(p) && |w| >= p.Total(k)
    ensures 0 <= p.Pad(k) && p.Total(k) == p.Pad(k) + k.Size() && (p.hpOn ==> |w| >= HP_MIN_PADDING)
    ensures DecodeHandshake(c, p, k, w)
            == Stamped(c.mac, k, c.mac1In, Write32(Masked(c, p, w, w[p.Pad(k)..p.Pad(k) + k.Size()]), 0, k.Type()))
  {
    ReadyMeans(p, k);
  }

  /** recompute_mac1 and recompute_mac1_response, in place. */
  method StampInPlace(mac: MacFn, k: Kind, key: Option<Key>, buf: array<Byte>, at: nat)
    requires at + k.Size() <= buf.Length
    modifies buf
    ensures buf[at..at + k.Size()] == Stamped(mac, k, key, old(buf[at..at + k.Size()]))
  {
    hide Splice;
    var place := MacAt(k);
    if key.Some? && place.Some? {
      var m := mac(key.value, buf[at..at + place.value]);
      assert buf[at..at + k.Size()][..place.value] == buf[at..at + place.value];
      SpliceWithin(buf[..], at, k.Size(), place.value, m);
      Copy(buf, at + place.value, m);
    }
  }
}
