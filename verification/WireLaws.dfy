/** What leaves on the wire and what is taken from it, message kind by message
    kind, with the sizes, offsets, types and salts of the protocol written out. */
module WireLaws {
  import opened Bytes
  import opened ChaCha20
  import opened FastRand
  import opened Profiles
  import opened RoundTrip
  import opened Wire

  // ---- Outbound ----

  /** The key MAC1 is made with: the one given, else the configured one. */
  function OutKey(c: Config, key: Option<Key>): (k: Option<Key>) {
    match key case Some(_) => key case None => c.mac1Out
  }

  /** The n bytes at `at`, header protection undone with the datagram's own
      first 12 bytes as the nonce. */
  function Plaintext(c: Config, p: Profile, w: seq<Byte>, at: nat, n: nat): (m: seq<Byte>)
    requires at + n <= |w| && |w| >= 12
    ensures |m| == n
  {
    if p.hpOn then Protect(BlockOf(c.core), c.hpKey, w[..12], w[at..at + n]) else w[at..at + n]
  }

  /** Bytes a..a+16 of the message are its MAC1 under the key, if there is one,
      and the original's otherwise. */
  ghost predicate MacOk(c: Config, key: Option<Key>, body: seq<Byte>, m: seq<Byte>, at: nat)
    requires |body| == |m| >= at + 16
  {
    body[at..at + 16] == match key case Some(k) => c.mac(k, body[..at]) case None => m[at..at + 16]
  }

  /** A handshake datagram: padding drawn for the seed, the message, a trailer
      drawn for the seed. */
  ghost predicate Framed(c: Config, p: Profile, w: seq<Byte>, pad: nat, n: nat, seed: Long) {
    && |w| >= pad + n && w[..pad] == Padding(seed, pad)
    && w[pad + n..] == Padding(XorLong(seed, 0xFEED1), |w| - pad - n)
    && |w| == pad + n + TrailerLen(p.rt, c.window, pad + n, seed)
  }

  lemma HandshakeLayout(c: Config, p: Profile, k: Kind, key: Option<Key>, rand: Long, m: seq<Byte>)
    requires Ready(p) && |m| == k.Size()
    ensures p.Pad(k) >= 0
    ensures
      var w, n := HandshakeWire(c, p, k, key, rand, m), k.Size();
      && Framed(c, p, w, p.Pad(k), n, Seed(k, rand))
      && Plaintext(c, p, w, p.Pad(k), n) == Dressed(c, p, k, key, rand, m)
  {
    hide Padding, Dressed, TrailerLen, Protect, Validate, XorLong, Framed;
    ReadyMeans(p, k);
    var seed, s, n := Seed(k, rand), p.Pad(k), k.Size();
    var pad, typed := Padding(seed, s), Dressed(c, p, k, key, rand, m);
    var masked, trailer := Masked(c, p, pad, typed), Trailer(p.rt, c.window, p.Total(k), seed);
    var w := HandshakeWire(c, p, k, key, rand, m);
    assert w == pad + masked + trailer;
    assert w[s..s + n] == masked && w[..s] == pad && w[s + n..] == trailer;
    MaskSeen(c, p, pad, typed);
    assert p.hpOn ==> w[..12] == pad[..12];
    FramedIs(c, p, w, s, n, seed);
  }

  lemma FramedIs(c: Config, p: Profile, w: seq<Byte>, pad: nat, n: nat, seed: Long)
    requires |w| >= pad + n
    ensures w[..pad] == Padding(seed, pad) && w[pad + n..] == Trailer(p.rt, c.window, pad + n, seed)
            ==> Framed(c, p, w, pad, n, seed)
  {
    hide Padding, TrailerLen, XorLong;
  }

  /** A message retyped and stamped: MAC1 over the message as it now is, and
      every other byte as it was. */
  lemma RestampedBytes(c: Config, k: Kind, key: Option<Key>, h: Word, m: seq<Byte>)
    requires |m| == k.Size()
    ensures
      var b := Stamped(c.mac, k, key, Write32(m, 0, h));
      && Read32(b, 0) == h
      && (k == Init ==> b[4..116] == m[4..116] && b[132..] == m[132..] && MacOk(c, key, b, m, 116))
      && (k == Response ==> b[4..60] == m[4..60] && b[76..] == m[76..] && MacOk(c, key, b, m, 60))
      && (k == Cookie ==> b[4..] == m[4..])
  {
    hide Read32, Le32;
    var out := Write32(m, 0, h);
    StampedBytes(c.mac, k, key, out);
    var b := Stamped(c.mac, k, key, out);
    SameWord(b, out);
    assert out[4..] == m[4..];
    if k == Init {
      Outside(b, out, m, 116);
    } else if k == Response {
      Outside(b, out, m, 60);
    }
  }

  lemma Outside(b: seq<Byte>, out: seq<Byte>, m: seq<Byte>, at: nat)
    requires |b| == |out| == |m| >= at + 16 && at >= 4
    requires b[..at] == out[..at] && b[at + 16..] == out[at + 16..] && out[4..] == m[4..]
    ensures b[4..at] == m[4..at] && b[at + 16..] == m[at + 16..] && out[at..at + 16] == m[at..at + 16]
  {
    forall i | 4 <= i < |m|
      ensures out[i] == m[i] && (i < at || i >= at + 16 ==> b[i] == m[i])
    {
      assert out[i] == out[4..][i - 4] && m[i] == m[4..][i - 4];
      if i < at {
        assert b[i] == b[..at][i] && out[i] == out[..at][i];
      } else if i >= at + 16 {
        assert b[i] == b[at + 16..][i - at - 16] && out[i] == out[at + 16..][i - at - 16];
      }
    }
  }

  /** An init leaves with S1 bytes of padding, a type of H1 and MAC1 over the
      116 bytes before it. */
  lemma InitSent(c: Config, p: Profile, key: Option<Key>, dataoff: nat, rand: Long, m: seq<Byte>)
    requires Ready(p) && |m| == 148 && Read32(m, 0) == 1
    ensures
      var s := Outbound(c, p, key, dataoff, rand, m);
      && p.s1 >= 0 && s.Sent? && s.junk == (c.jc > 0 || p.cps) && Framed(c, p, s.bytes, p.s1, 148, rand)
      && var b := Plaintext(c, p, s.bytes, p.s1, 148);
         && Read32(b, 0) == Pick(p.h1, rand) && b[4..116] == m[4..116] && b[132..] == m[132..]
         && MacOk(c, OutKey(c, key), b, m, 116)
  {
    hide HandshakeWire, Framed, Plaintext, Stamped, MacOk, Validate, TransportWire, Pick;
    HandshakeLayout(c, p, Init, OutKey(c, key), rand, m);
    RestampedBytes(c, Init, OutKey(c, key), Pick(p.Range(Init), rand), m);
    assert |HandshakeWire(c, p, Init, OutKey(c, key), rand, m)| >= 148;
  }

  /** A response: S2, H2, MAC1 over 60 bytes, its own salt, never junk. */
  lemma ResponseSent(c: Config, p: Profile, key: Option<Key>, dataoff: nat, rand: Long, m: seq<Byte>)
    requires Ready(p) && |m| == 92 && Read32(m, 0) == 2
    ensures
      var s := Outbound(c, p, key, dataoff, rand, m);
      && p.s2 >= 0 && s.Sent? && !s.junk && Framed(c, p, s.bytes, p.s2, 92, XorLong(rand, 0x12345))
      && var b := Plaintext(c, p, s.bytes, p.s2, 92);
         && Read32(b, 0) == Pick(p.h2, rand) && b[4..60] == m[4..60] && b[76..] == m[76..]
         && MacOk(c, OutKey(c, key), b, m, 60)
  {
    hide HandshakeWire, Framed, Plaintext, Stamped, MacOk, Validate, TransportWire, Pick, XorLong;
    HandshakeLayout(c, p, Response, OutKey(c, key), rand, m);
    RestampedBytes(c, Response, OutKey(c, key), Pick(p.Range(Response), rand), m);
    assert |HandshakeWire(c, p, Response, OutKey(c, key), rand, m)| >= 92;
  }

  /** A cookie reply: S3, H3, no MAC1; not sent at all with cookies disabled. */
  lemma CookieSent(c: Config, p: Profile, key: Option<Key>, dataoff: nat, rand: Long, m: seq<Byte>)
    requires Ready(p) && |m| == 64 && Read32(m, 0) == 3
    ensures
      var s := Outbound(c, p, key, dataoff, rand, m);
      if c.disableCookies then s == Dropped
      else
        && p.s3 >= 0 && s.Sent? && !s.junk && Framed(c, p, s.bytes, p.s3, 64, XorLong(rand, 0x67890))
        && var b := Plaintext(c, p, s.bytes, p.s3, 64);
           Read32(b, 0) == Pick(p.h3, rand) && b[4..] == m[4..]
  {
    hide HandshakeWire, Framed, Plaintext, Stamped, MacOk, Validate, TransportWire, Pick, XorLong;
    HandshakeLayout(c, p, Cookie, OutKey(c, key), rand, m);
    RestampedBytes(c, Cookie, OutKey(c, key), Pick(p.Range(Cookie), rand), m);
    assert |HandshakeWire(c, p, Cookie, OutKey(c, key), rand, m)| >= 64;
  }

  /** A transport packet: untouched under an identity profile; else a type of
      H4, and with headroom S4 bytes of padding in front and 16 bytes of header
      protected. */
  lemma TransportSent(c: Config, p: Profile, key: Option<Key>, dataoff: nat, rand: Long, m: seq<Byte>)
    requires Ready(p) && |m| >= 32 && Read32(m, 0) == 4
    ensures
      var s := Outbound(c, p, key, dataoff, rand, m);
      && s.Sent? && !s.junk
      && if p.h4 == Bounds(4, 4) && p.s4 == 0 && !p.hpOn then s.bytes == m
         else if p.s4 == 0 || dataoff < p.s4 then
           |s.bytes| == |m| && Read32(s.bytes, 0) == Pick(p.h4, rand) && s.bytes[4..] == m[4..]
         else
           && p.s4 > 0 && |s.bytes| == p.s4 + |m|
           && s.bytes[..p.s4] == Padding(XorLong(rand, 0xABCDE), p.s4)
           && s.bytes[p.s4 + 16..] == m[16..]
           && var b := Plaintext(c, p, s.bytes, p.s4, 16);
              Read32(b, 0) == Pick(p.h4, rand) && b[4..] == m[4..16]
  {
    hide HandshakeWire, Validate, XorLong, Padding, Read32, Plaintext, Pick, MaskedHeader;
    ReadyMeans(p, Init);
    var h := Pick(p.h4, rand);
    PickFixed(p.h4, rand);
    assert Write32(m, 0, h)[4..] == m[4..];
    if !p.h4Noop && 0 < p.s4 <= dataoff {
      PaddedTransport(c, p, Padding(XorLong(rand, SALT_TRANSPORT), p.s4), h, m);
    }
  }

  lemma PickFixed(r: HRange, rand: Long)
    ensures r.min == r.max ==> Pick(r, rand) == r.min
  {}

  lemma PaddedTransport(c: Config, p: Profile, pad: seq<Byte>, h: Word, m: seq<Byte>)
    requires |pad| == p.s4 > 0 && |m| >= 32 && (p.hpOn ==> p.s4 >= 12)
    ensures
      var w := pad + MaskedHeader(c, p, pad, Write32(m, 0, h));
      && |w| == p.s4 + |m| && w[..p.s4] == pad && w[p.s4 + 16..] == m[16..]
      && var b := Plaintext(c, p, w, p.s4, 16);
         Read32(b, 0) == h && b[4..] == m[4..16]
  {
    hide Protect, Read32, MaskedHeader;
    var typed := Write32(m, 0, h);
    var masked := MaskedHeader(c, p, pad, typed);
    var w := pad + masked;
    HeaderRestored(c, p, pad, typed);
    assert w[p.s4..p.s4 + 16] == masked[..16] && w[p.s4 + 16..] == masked[16..];
    assert p.hpOn ==> w[..12] == pad[..12];
    assert typed[16..] == typed[4..][12..] && m[16..] == m[4..][12..];
    assert typed[..16][4..] == typed[4..][..12] && m[4..16] == m[4..][..12];
    SameWord(typed[..16], typed);
  }

  lemma HeaderRestored(c: Config, p: Profile, pad: seq<Byte>, m: seq<Byte>)
    requires (p.hpOn ==> |pad| >= HP_MIN_PADDING) && |m| >= 16
    ensures MaskedHeader(c, p, pad, m)[16..] == m[16..]
    ensures p.hpOn ==> Protect(BlockOf(c.core), c.hpKey, pad[..12], MaskedHeader(c, p, pad, m)[..16]) == m[..16]
    ensures !p.hpOn ==> MaskedHeader(c, p, pad, m)[..16] == m[..16]
  {
    if p.hpOn {
      var head := Protect(c.Block(), c.hpKey, pad[..12], m[..16]);
      assert (head + m[16..])[..16] == head;
      ProtectInvolution(c.Block(), c.hpKey, pad[..12], m[..16]);
    }
  }

  /** Anything else passes as it is. */
  lemma OtherSent(c: Config, p: Profile, key: Option<Key>, dataoff: nat, rand: Long, m: seq<Byte>)
    requires Ready(p)
    requires |m| >= 4 ==> var t := Read32(m, 0);
                          && !(|m| == 148 && t == 1) && !(|m| == 92 && t == 2) && !(|m| == 64 && t == 3)
                          && !(|m| >= 32 && t == 4)
    ensures Outbound(c, p, key, dataoff, rand, m) == Sent(m, false)
  {
    hide HandshakeWire, TransportWire, Validate, Read32;
  }

  /** Every trailer length that leaves the datagram short of the window and of
      the packet buffer is drawn for some seed. */
  lemma TrailerLenOnto(window: Word, size: nat, n: nat) returns (seed: Long)
    requires size + n < window && size + n < 1500
    ensures TrailerLen(true, window, size, seed) == n
  {
    hide Mix64, XorLong, TrailerLen;
    var x := Mix64Onto(n);
    seed := XorLong(x, SALT_TRAILER_LEN);
    SaltTwice(x, SALT_TRAILER_LEN);
    TrailerLenIs(window, size, n, seed);
  }

  lemma TrailerLenIs(window: Word, size: nat, n: nat, seed: Long)
    requires size + n < window && size + n < 1500
    ensures Mix64(XorLong(seed, 0x7A11E45)) == n ==> TrailerLen(true, window, size, seed) == n
  {
    hide Mix64, XorLong;
    SmallRemainder(n, (if window > 1500 then 1500 else window as int) - size);
  }

  lemma SaltTwice(x: Long, salt: Long)
    ensures XorLong(XorLong(x, salt), salt) == x
  {
    WordWidths();
    XorInvolution(64, x, salt);
  }

  // ---- Inbound ----

  /** The datagram is a message of n bytes with a type of the range, behind
      padding, protected under it, with a trailer only where trailers are on. */
  ghost predicate HandshakeParts(c: Config, p: Profile, pad: int, n: nat, range: HRange, w: seq<Byte>,
                                 typed: seq<Byte>, trailer: seq<Byte>) {
    && 0 <= pad <= |w| && (p.hpOn ==> pad >= 12)
    && |typed| == n >= 4 && range.min <= Read32(typed, 0) <= range.max && (|trailer| > 0 ==> p.rt)
    && w == w[..pad] + Masked(c, p, w[..pad], typed) + trailer
  }

  ghost predicate HandshakeForm(c: Config, p: Profile, pad: int, n: nat, range: HRange, w: seq<Byte>) {
    exists typed: seq<Byte>, trailer: seq<Byte> :: HandshakeParts(c, p, pad, n, range, w, typed, trailer)
  }

  /** The datagram is a transport packet with a type of H4 behind padding, its
      header protected under it. */
  ghost predicate TransportParts(c: Config, p: Profile, w: seq<Byte>, typed: seq<Byte>) {
    && 0 <= p.s4 <= |w| && (p.hpOn ==> p.s4 >= 12)
    && |typed| >= 32 && p.h4.min <= Read32(typed, 0) <= p.h4.max
    && w == w[..p.s4] + MaskedHeader(c, p, w[..p.s4], typed)
  }

  ghost predicate TransportForm(c: Config, p: Profile, w: seq<Byte>) {
    exists typed: seq<Byte> :: TransportParts(c, p, w, typed)
  }

  lemma ClaimedHasForm(c: Config, p: Profile, k: Kind, w: seq<Byte>)
    requires Ready(p) && Claims(c, p, k, w)
    ensures HandshakeForm(c, p, p.Pad(k), k.Size(), p.Range(k), w)
  {
    hide Masked, Ready, Read32, TypeAt, Profile.Pad, Profile.Range, Profile.Total;
    ReadyMeans(p, k);
    var s, n := p.Pad(k), k.Size();
    var pad, body, trailer := w[..s], w[s..s + n], w[s + n..];
    UnmaskedForm(c, p, w, s, n);
    assert w == pad + body + trailer;
    assert HandshakeParts(c, p, s, n, p.Range(k), w, Masked(c, p, pad, body), trailer);
  }

  lemma FormIsClaimed(c: Config, p: Profile, k: Kind, w: seq<Byte>, typed: seq<Byte>, trailer: seq<Byte>)
    requires Ready(p) && HandshakeParts(c, p, p.Pad(k), k.Size(), p.Range(k), w, typed, trailer)
    ensures Claims(c, p, k, w)
  {
    hide Masked, Ready, Read32, Claims, Profile.Pad, Profile.Range, Profile.Total, DecodeHandshake, Stamped;
    HandshakeReceived(c, p, k, w[..p.Pad(k)], typed, trailer);
  }

  /** A dispatch test claims exactly the datagrams a sender could have made of
      its kind. */
  lemma ClaimsExact(c: Config, p: Profile, k: Kind, w: seq<Byte>)
    requires Ready(p)
    ensures Claims(c, p, k, w) <==> HandshakeForm(c, p, p.Pad(k), k.Size(), p.Range(k), w)
  {
    hide Ready, Claims, HandshakeParts;
    if Claims(c, p, k, w) {
      ClaimedHasForm(c, p, k, w);
    }
    if typed, trailer :| HandshakeParts(c, p, p.Pad(k), k.Size(), p.Range(k), w, typed, trailer) {
      FormIsClaimed(c, p, k, w, typed, trailer);
    }
  }

  lemma UnmaskedForm(c: Config, p: Profile, w: seq<Byte>, s: nat, n: nat)
    requires s + n <= |w| && n >= 4 && (p.hpOn ==> s >= 12)
    ensures
      var typed := Masked(c, p, w[..s], w[s..s + n]);
      Masked(c, p, w[..s], typed) == w[s..s + n] && Read32(typed, 0) == TypeAt(c, p, w, s)
  {
    hide Protect, Read32, XorWord;
    var pad, body := w[..s], w[s..s + n];
    var typed := Masked(c, p, pad, body);
    assert p.hpOn ==> pad[..12] == w[..12];
    MaskSeen(c, p, pad, body);
    MaskSeen(c, p, pad, typed);
    WordInside(w, s, n);
  }

  lemma WordInside(w: seq<Byte>, s: nat, n: nat)
    requires s + n <= |w| && n >= 4
    ensures Read32(w[s..s + n], 0) == Read32(w, s)
  {}

  lemma ClaimedHasTransportForm(c: Config, p: Profile, w: seq<Byte>)
    requires Ready(p) && TransportClaims(c, p, w)
    ensures TransportForm(c, p, w)
  {
    hide MaskedHeader, Ready, Read32, TypeMask, XorWord;
    ReadyMeans(p, Init);
    var s := p.s4;
    var pad, body := w[..s], w[s..];
    var typed := MaskedHeader(c, p, pad, body);
    HeaderMaskSeen(c, p, pad, typed);
    HeaderTwice(c, p, pad, body);
    SameMaskWord(c, p, w, s);
    WordInside(w, s, |w| - s);
    assert body == w[s..s + (|w| - s)] && w == pad + body;
    assert TransportParts(c, p, w, typed);
  }

  lemma TransportClaimsExact(c: Config, p: Profile, w: seq<Byte>)
    requires Ready(p)
    ensures TransportClaims(c, p, w) <==> TransportForm(c, p, w)
  {
    hide Ready, Read32, TransportClaims, MaskedHeader, DecodeTransport;
    if TransportClaims(c, p, w) {
      ClaimedHasTransportForm(c, p, w);
    }
    if typed :| TransportParts(c, p, w, typed) {
      TransportReceived(c, p, w[..p.s4], typed);
    }
  }

  lemma SameMaskWord(c: Config, p: Profile, w: seq<Byte>, s: nat)
    requires s <= |w| && (p.hpOn ==> s >= 12)
    ensures TypeMask(c, p, w[..s]) == TypeMask(c, p, w)
  {
    hide Read32;
    assert p.hpOn ==> w[..s][..12] == w[..12];
  }

  lemma HeaderTwice(c: Config, p: Profile, pad: seq<Byte>, m: seq<Byte>)
    requires (p.hpOn ==> |pad| >= 12) && |m| >= 16
    ensures MaskedHeader(c, p, pad, MaskedHeader(c, p, pad, m)) == m
  {
    HeaderRestored(c, p, pad, m);
  }

  /** What a handshake test hands on: the message in plain at its offset, with
      its WireGuard type and MAC1 good under the receiver's key. */
  ghost predicate Taken(c: Config, p: Profile, r: Decoded, w: seq<Byte>, s: int, n: nat, t: Word) {
    && r.Accept? && r.off == s && 0 <= s && s + n <= |w| && |w| >= 12 && n >= 4 && |r.bytes| == n
    && Read32(r.bytes, 0) == t
    && var b := Plaintext(c, p, w, s, n);
       && (n == 148 ==> r.bytes[4..116] == b[4..116] && r.bytes[132..] == b[132..] && MacOk(c, c.mac1In, r.bytes, b, 116))
       && (n == 92 ==> r.bytes[4..60] == b[4..60] && r.bytes[76..] == b[76..] && MacOk(c, c.mac1In, r.bytes, b, 60))
       && (n == 64 ==> r.bytes[4..] == b[4..])
  }

  lemma DecodedIsTaken(c: Config, p: Profile, k: Kind, w: seq<Byte>)
    requires Ready(p) && Claims(c, p, k, w)
    ensures Taken(c, p, Accept(p.Pad(k), DecodeHandshake(c, p, k, w)), w, p.Pad(k), k.Size(), k.Type())
  {
    hide Protect, MacOk, Validate, Stamped, Write32, Read32, TypeAt, Compute;
    ReadyMeans(p, k);
    RestampedBytes(c, k, c.mac1In, k.Type(), Plaintext(c, p, w, p.Pad(k), k.Size()));
  }

  /** What the transport test hands on: the packet in plain with type 4. */
  ghost predicate TransportTaken(c: Config, p: Profile, r: Decoded, w: seq<Byte>) {
    && r.Accept? && r.off == p.s4 && 0 <= p.s4 && p.s4 + 32 <= |w| && |r.bytes| == |w| - p.s4
    && Read32(r.bytes, 0) == 4 && r.bytes[16..] == w[p.s4 + 16..]
    && r.bytes[4..16] == Plaintext(c, p, w, p.s4, 16)[4..]
  }

  lemma DecodedTransportIsTaken(c: Config, p: Profile, w: seq<Byte>)
    requires Ready(p) && TransportClaims(c, p, w)
    ensures TransportTaken(c, p, Accept(p.s4, DecodeTransport(c, p, w)), w)
  {
    hide Validate, Read32, TypeAt, Compute, XorBytes, Le32;
    ReadyMeans(p, Init);
    var s := p.s4;
    var head, body := w[s..s + 16], w[s..];
    var plain := if p.hpOn then XorBytes(body[..16], RecvBlock(c, w)) + body[16..] else body;
    assert body[..16] == head && body[16..] == w[s + 16..];
    if p.hpOn {
      BlockIsHead(c.Block(), c.hpKey, w[..12], 0, 16);
      XorBytesHead(head, RecvBlock(c, w));
    }
    assert plain[..16] == Plaintext(c, p, w, s, 16) && plain[16..] == w[s + 16..];
    var out := Write32(plain, 0, 4);
    assert out[4..] == plain[4..];
    assert out[16..] == out[4..][12..] && plain[16..] == plain[4..][12..];
    assert out[4..16] == out[4..][..12] && plain[..16][4..] == plain[4..][..12];
  }

  /** The receiver in full: every datagram is taken by the first form it has, in
      the order identity, init, response, cookie, transport, and dropped when
      it has none. */
  lemma InboundExact(c: Config, p: Profile, w: seq<Byte>)
    requires Ready(p)
    ensures
      var r := Inbound(c, p, w);
      var same := p.h4 == Bounds(4, 4) && p.s4 == 0 && !p.hpOn && |w| >= 32 && Read32(w, 0) == 4;
      if same then r == Accept(0, w)
      else if HandshakeForm(c, p, p.s1, 148, p.h1, w) then Taken(c, p, r, w, p.s1, 148, 1)
      else if HandshakeForm(c, p, p.s2, 92, p.h2, w) then Taken(c, p, r, w, p.s2, 92, 2)
      else if HandshakeForm(c, p, p.s3, 64, p.h3, w) then Taken(c, p, r, w, p.s3, 64, 3)
      else if TransportForm(c, p, w) then TransportTaken(c, p, r, w)
      else r == Drop
  {
    hide HandshakeForm, TransportForm, Taken, TransportTaken, DecodeHandshake, DecodeTransport, TypeAt, Validate, Read32;
    ReadyMeans(p, Init);
    ReadyMeans(p, Response);
    ReadyMeans(p, Cookie);
    ClaimsExact(c, p, Init, w);
    ClaimsExact(c, p, Response, w);
    ClaimsExact(c, p, Cookie, w);
    TransportClaimsExact(c, p, w);
    if NoopClaims(p, w) {
    } else if Claims(c, p, Init, w) {
      DecodedIsTaken(c, p, Init, w);
    } else if Claims(c, p, Response, w) {
      DecodedIsTaken(c, p, Response, w);
    } else if Claims(c, p, Cookie, w) {
      DecodedIsTaken(c, p, Cookie, w);
    } else if TransportClaims(c, p, w) {
      DecodedTransportIsTaken(c, p, w);
    }
  }

  // ---- Nonces and keystreams ----

  /** Byte i of the message at `at` is masked with a byte of core(input). */
  predicate MaskedWith(c: Config, w: seq<Byte>, at: nat, body: seq<Byte>, i: nat, input: seq<Word>) {
    at + i < |w| && i < |body| && w[at + i] == XorByte(body[i], c.core(input)[i % 64])
  }

  /** The input of the block that masks byte i of a datagram's message. */
  function MaskInput(c: Config, w: seq<Byte>, i: nat): (st: seq<Word>) {
    if |w| < 12 || i >= 0x40_0000_0000 then [] else Setup(c.hpKey, w[..12], i / 64)
  }

  lemma MaskedByte(c: Config, p: Profile, k: Kind, key: Option<Key>, rand: Long, m: seq<Byte>, i: nat)
    requires Ready(p) && p.hpOn && |m| == k.Size() && i < k.Size()
    ensures p.Pad(k) >= 0
    ensures
      var w := HandshakeWire(c, p, k, key, rand, m);
      |w| >= 12 && MaskedWith(c, w, p.Pad(k), Dressed(c, p, k, key, rand, m), i, MaskInput(c, w, i))
  {
    hide Padding, Dressed, TrailerLen, Validate, XorLong, Setup, XorByte, Protect, BlockOf;
    ReadyMeans(p, k);
    var s, seed := p.Pad(k), Seed(k, rand);
    var pad, typed := Padding(seed, s), Dressed(c, p, k, key, rand, m);
    var masked, trailer := Masked(c, p, pad, typed), Trailer(p.rt, c.window, p.Total(k), seed);
    var w := HandshakeWire(c, p, k, key, rand, m);
    assert w == pad + masked + trailer;
    assert w[..12] == pad[..12] && w[s + i] == masked[i];
    ProtectAt(c.core, c.hpKey, pad[..12], typed, i);
  }

  /** Two datagrams that differ in their first 12 bytes are masked with blocks
      of different inputs, whichever bytes one compares. */
  lemma MaskedApart(c: Config, w: seq<Byte>, w': seq<Byte>, i: nat, j: nat)
    requires |w| >= 12 && |w'| >= 12 && w[..12] != w'[..12] && i < 0x40_0000_0000 && j < 0x40_0000_0000
    ensures MaskInput(c, w, i) != MaskInput(c, w', j)
  {
    hide Setup;
    SetupInjective(c.hpKey, w[..12], i / 64, c.hpKey, w'[..12], j / 64);
  }
}
