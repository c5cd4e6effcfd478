/** What one proxy sends, the other end gets back: inbound after outbound on
    the same profile, and exactly when it fails. */
module RoundTrip {
  import opened Bytes
  import opened ChaCha20
  import opened FastRand
  import opened Profiles
  import opened Wire

  /** The two ends of a tunnel share the primitives and the device key; their
      MAC1 keys, windows and switches are their own. */
  ghost predicate SameTunnel(tx: Config, rx: Config) {
    tx.core == rx.core && tx.mac == rx.mac && tx.hpKey == rx.hpKey
  }

  /** The receiver handed on message m: same length, every byte outside MAC1
      equal, type included, and MAC1 good under the receiver's key if it has
      one. */
  ghost predicate Delivered(rx: Config, k: Kind, m: seq<Byte>, r: seq<Byte>) {
    && |r| == |m| == k.Size()
    && (MacAt(k).None? ==> r == m)
    && (MacAt(k).Some? ==>
          var at := MacAt(k).value;
          && r[..at] == m[..at] && r[at + 16..] == m[at + 16..]
          && (rx.mac1In.Some? ==> r[at..at + 16] == rx.mac(rx.mac1In.value, m[..at])))
  }

  // ---- One handshake message under any padding and trailer ----

  lemma StampedBytes(mac: MacFn, k: Kind, key: Option<Key>, m: seq<Byte>)
    requires |m| == k.Size()
    ensures MacAt(k).None? || key.None? ==> Stamped(mac, k, key, m) == m
    ensures MacAt(k).Some? ==>
              var at, r := MacAt(k).value, Stamped(mac, k, key, m);
              && r[..at] == m[..at] && r[at + 16..] == m[at + 16..]
              && (key.Some? ==> r[at..at + 16] == mac(key.value, m[..at]))
    ensures Stamped(mac, k, key, m)[..4] == m[..4]
  {}

  /** Dressing a message and undressing it delivers it. */
  lemma UndressDelivers(tx: Config, rx: Config, k: Kind, key: Option<Key>, h: Word, m: seq<Byte>)
    requires IsHandshake(k, m) && tx.mac == rx.mac
    ensures
      var typed := Stamped(tx.mac, k, key, Write32(m, 0, h));
      Delivered(rx, k, m, Stamped(rx.mac, k, rx.mac1In, Write32(typed, 0, k.Type())))
  {
    hide Stamped, Read32, Le32, Write32, Splice;
    var out := Write32(m, 0, h);
    var typed := Stamped(tx.mac, k, key, out);
    var back := Write32(typed, 0, k.Type());
    StampedBytes(tx.mac, k, key, out);
    StampedBytes(rx.mac, k, rx.mac1In, back);
    Read32Determines(back, m);
    if MacAt(k).Some? {
      var at := MacAt(k).value;
      OutsideKept(m, out, typed, back, at, at + 16);
    } else {
      assert typed == out;
      OutsideKept(m, out, typed, back, |m|, |m|);
      assert back[..|m|] == back && m[..|m|] == m;
    }
  }

  /** Rewriting the first word twice, and something in [a, b) in between,
      leaves the bytes outside [a, b) as they were. */
  lemma OutsideKept(m: seq<Byte>, out: seq<Byte>, typed: seq<Byte>, back: seq<Byte>, a: nat, b: nat)
    requires 4 <= a <= b <= |m| && |out| == |typed| == |back| == |m|
    requires out[4..] == m[4..] && back[4..] == typed[4..] && back[..4] == m[..4]
    requires typed[..a] == out[..a] && typed[b..] == out[b..]
    ensures back[..a] == m[..a] && back[b..] == m[b..]
  {
    forall i | 0 <= i < |m| && (i < a || i >= b)
      ensures back[i] == m[i]
    {
      if i < 4 {
        assert back[i] == back[..4][i] && m[i] == m[..4][i];
      } else {
        assert back[i] == back[4..][i - 4] && typed[i] == typed[4..][i - 4];
        assert out[i] == out[4..][i - 4] && m[i] == m[4..][i - 4];
        if i < a {
          assert typed[i] == typed[..a][i] && out[i] == out[..a][i];
        } else {
          assert typed[i] == typed[b..][i - b] && out[i] == out[b..][i - b];
        }
      }
    }
  }

  /** Equal first words are equal first bytes. */
  lemma TypeWord(a: seq<Byte>, b: seq<Byte>)
    requires |a| >= 4 && |b| >= 4 && Read32(a, 0) == Read32(b, 0)
    ensures forall i :: 0 <= i < 4 ==> a[i] == b[i]
  {
    Read32Determines(a, b);
    assert forall i :: 0 <= i < 4 ==> a[i] == a[..4][i] && b[i] == b[..4][i];
  }

  /** Masking is undone by masking, and the receiver sees the masked type
      through the one block it computed. */
  lemma MaskSeen(c: Config, p: Profile, pad: seq<Byte>, m: seq<Byte>)
    requires p.hpOn ==> |pad| >= HP_MIN_PADDING
    requires |m| >= 4
    ensures Masked(c, p, pad, Masked(c, p, pad, m)) == m
    ensures XorWord(Read32(Masked(c, p, pad, m), 0), TypeMask(c, p, pad)) == Read32(m, 0)
  {
    if p.hpOn {
      ProtectInvolution(c.Block(), c.hpKey, pad[..12], m);
      MaskedTypeSeen(c.Block(), c.hpKey, pad[..12], m);
    } else {
      WordWidths();
      XorZero(32, Read32(m, 0));
    }
  }

  lemma MaskedTypeSeen(f: BlockFn, key: Key, nonce: Nonce, m: seq<Byte>)
    requires |m| >= 4
    ensures XorWord(Read32(Protect(f, key, nonce, m), 0), Read32(f(key, nonce, 0), 0)) == Read32(m, 0)
  {
    var ks := Keystream(f, key, nonce, 0, |m|);
    KeystreamPrefix(f, key, nonce, 0, 4, |m|);
    BlockIsHead(f, key, nonce, 0, 4);
    assert ks[..4] == f(key, nonce, 0)[..4];
    assert forall i :: 0 <= i < 4 ==> ks[i] == ks[..4][i] && f(key, nonce, 0)[i] == f(key, nonce, 0)[..4][i];
    assert Read32(ks, 0) == Read32(f(key, nonce, 0), 0);
    XorWordOfBytes(m, ks);
    WordWidths();
    XorInvolution(32, Read32(m, 0), Read32(ks, 0));
  }

  /** Whatever padding and trailer surround it, a dressed message is claimed
      by its own dispatch test and decodes to its undressed form. */
  lemma HandshakeReceived(c: Config, p: Profile, k: Kind, pad: seq<Byte>, typed: seq<Byte>, trailer: seq<Byte>)
    requires Ready(p) && |pad| == p.Pad(k) && |typed| == k.Size()
    requires Contains(p.Range(k), Read32(typed, 0)) && (|trailer| > 0 ==> p.rt)
    requires p.hpOn ==> |pad| >= HP_MIN_PADDING
    ensures
      var w := pad + Masked(c, p, pad, typed) + trailer;
      && Claims(c, p, k, w)
      && DecodeHandshake(c, p, k, w) == Stamped(c.mac, k, c.mac1In, Write32(typed, 0, k.Type()))
  {
    hide Stamped, Write32, Protect, Validate, Compute;
    ReadyMeans(p, k);
    var s, body := p.Pad(k), Masked(c, p, pad, typed);
    var w := pad + body + trailer;
    assert w[s..s + k.Size()] == body;
    assert p.hpOn ==> w[..12] == pad[..12];
    MaskSeen(c, p, pad, typed);
    assert Read32(w, s) == Read32(body, 0) by {
      assert w[s] == body[0] && w[s + 1] == body[1] && w[s + 2] == body[2] && w[s + 3] == body[3];
    }
  }

  // ---- Handshakes ----

  /** Some test that runs before the one for kind k claims the datagram. */
  predicate ClaimedEarlier(c: Config, p: Profile, k: Kind, w: seq<Byte>)
    requires Ready(p)
  {
    || NoopClaims(p, w)
    || (k != Init && Claims(c, p, Init, w))
    || (k == Cookie && Claims(c, p, Response, w))
  }

  lemma InboundReachesKind(c: Config, p: Profile, k: Kind, w: seq<Byte>)
    requires Ready(p) && |w| >= 4 && (p.hpOn ==> |w| >= HP_MIN_PADDING)
    requires Claims(c, p, k, w) && !ClaimedEarlier(c, p, k, w)
    ensures Inbound(c, p, w) == Accept(p.Pad(k), DecodeHandshake(c, p, k, w))
  {}

  lemma InboundClaimedEarlier(c: Config, p: Profile, k: Kind, w: seq<Byte>)
    requires Ready(p) && |w| >= 4 && (p.hpOn ==> |w| >= HP_MIN_PADDING)
    requires ClaimedEarlier(c, p, k, w)
    ensures Inbound(c, p, w).Accept?
    ensures NoopClaims(p, w) ==> Inbound(c, p, w).bytes == w
    ensures !NoopClaims(p, w) ==> |Inbound(c, p, w).bytes| != k.Size()
  {}

  /** The identity test cannot mistake an unpadded handshake: its type word is
      in a range that excludes 4. */
  lemma NoopNeedsPadding(c: Config, p: Profile, k: Kind, pad: seq<Byte>, typed: seq<Byte>, trailer: seq<Byte>)
    requires Ready(p) && |pad| == p.Pad(k) && |typed| == k.Size()
    requires Contains(p.Range(k), Read32(typed, 0))
    requires !p.hpOn && NoopClaims(p, pad + typed + trailer)
    ensures |pad| > 0
  {
    ReadyMeans(p, k);
  }

  /** For every ready profile, every draw, every key and every handshake
      message: the far end delivers the message if and only if no earlier
      dispatch test claims the datagram. */
  lemma HandshakeRoundTrip(tx: Config, rx: Config, p: Profile, k: Kind, key: Option<Key>, rand: Long, m: seq<Byte>)
    requires Ready(p) && SameTunnel(tx, rx) && IsHandshake(k, m)
    ensures
      var w := HandshakeWire(tx, p, k, key, rand, m);
      var r := Inbound(rx, p, w);
      (r.Accept? && Delivered(rx, k, m, r.bytes)) <==> !ClaimedEarlier(rx, p, k, w)
  {
    hide Padding, Mix64, XorLong, Masked, Stamped, Claims, DecodeHandshake, Inbound, Trailer, TrailerLen, Validate;
    ReadyMeans(p, k);
    var h := Pick(p.Range(k), rand);
    var pad, typed := Padding(Seed(k, rand), p.Pad(k)), Dressed(tx, p, k, key, rand, m);
    var trailer := Trailer(p.rt, tx.window, p.Total(k), Seed(k, rand));
    var w := HandshakeWire(tx, p, k, key, rand, m);
    assert Read32(typed, 0) == h by {
      StampedBytes(tx.mac, k, key, Write32(m, 0, h));
      SameWord(typed, Write32(m, 0, h));
    }
    SameMask(tx, rx, p, pad, typed);
    HandshakeReceived(rx, p, k, pad, typed, trailer);
    if ClaimedEarlier(rx, p, k, w) {
      InboundClaimedEarlier(rx, p, k, w);
      if NoopClaims(p, w) {
        PlainWire(rx, p, pad, typed);
        NoopNeedsPadding(rx, p, k, pad, typed, trailer);
      }
    } else {
      InboundReachesKind(rx, p, k, w);
      UndressDelivers(tx, rx, k, key, h, m);
    }
  }

  lemma SameWord(a: seq<Byte>, b: seq<Byte>)
    requires |a| >= 4 && |b| >= 4 && a[..4] == b[..4]
    ensures Read32(a, 0) == Read32(b, 0)
  {
    assert forall i :: 0 <= i < 4 ==> a[i] == a[..4][i] && b[i] == b[..4][i];
  }

  lemma SameMask(tx: Config, rx: Config, p: Profile, pad: seq<Byte>, m: seq<Byte>)
    requires SameTunnel(tx, rx) && (p.hpOn ==> |pad| >= HP_MIN_PADDING)
    ensures Masked(tx, p, pad, m) == Masked(rx, p, pad, m)
  {}

  lemma PlainWire(c: Config, p: Profile, pad: seq<Byte>, m: seq<Byte>)
    requires Ready(p) && p.h4Noop
    ensures !p.hpOn && Masked(c, p, pad, m) == m
  {}

  /** The same about transform_outbound_profile as a whole, whatever the
      headroom; a cookie reply leaves at all only if cookies are on. */
  lemma OutboundHandshakeRoundTrip(tx: Config, rx: Config, p: Profile, k: Kind, key: Option<Key>, dataoff: nat,
                                   rand: Long, m: seq<Byte>)
    requires Ready(p) && SameTunnel(tx, rx) && IsHandshake(k, m)
    ensures
      var s := Outbound(tx, p, key, dataoff, rand, m);
      if k == Cookie && tx.disableCookies then s == Dropped
      else
        && s.Sent? && s.junk == (k == Init && (tx.jc > 0 || p.cps))
        && var r := Inbound(rx, p, s.bytes);
           (r.Accept? && Delivered(rx, k, m, r.bytes)) <==> !ClaimedEarlier(rx, p, k, s.bytes)
  {
    hide HandshakeWire, Inbound, ClaimedEarlier, Delivered, Validate, TransportWire;
    HandshakeRoundTrip(tx, rx, p, k, if key.Some? then key else tx.mac1Out, rand, m);
  }

  /** Without trailers a handshake datagram has its own total length, so it is
      delivered whenever that total differs from those of the kinds tried
      before it and the identity test stays out of the way. */
  lemma HandshakeDeliveredBySize(tx: Config, rx: Config, p: Profile, k: Kind, key: Option<Key>, rand: Long, m: seq<Byte>)
    requires Ready(p) && SameTunnel(tx, rx) && IsHandshake(k, m)
    requires !p.rt && (k != Init ==> p.Total(k) != p.initTotal) && (k == Cookie ==> p.Total(k) != p.respTotal)
    requires !p.h4Noop || Read32(HandshakeWire(tx, p, k, key, rand, m), 0) != TRANSPORT_TYPE
    ensures
      var r := Inbound(rx, p, HandshakeWire(tx, p, k, key, rand, m));
      r.Accept? && Delivered(rx, k, m, r.bytes)
  {
    hide Padding, Mix64, XorLong, Masked, Stamped, Inbound, Delivered, Validate, TypeAt;
    ReadyMeans(p, k);
    HandshakeRoundTrip(tx, rx, p, k, key, rand, m);
    var w := HandshakeWire(tx, p, k, key, rand, m);
    assert |w| == p.Total(k);
  }

  /** Init and response of one length, the init's type being word v. */
  function ClashProfile(v: Word): (p: Profile) {
    var at := (i: nat) => (v as int + i) % WORD_RANGE;
    Compute(Profile(0, 56, 0, 1, Bounds(v, v), Bounds(at(1), at(1)), Bounds(at(2), at(2)), Bounds(at(3), at(3)),
                    false, false, false, 0, false, 0, 0, 0, false))
  }

  lemma ClashReady(v: Word)
    ensures
      var p := ClashProfile(v);
      && Ready(p) && !p.hpOn && !p.rt && !p.h4Noop
      && p.s1 == 0 && p.s2 == 56 && p.initTotal == p.respTotal == 148 && p.h1 == Bounds(v, v)
  {}

  /** The condition is not idle: for every draw and every response there is a
      ready profile under which the far end takes the response for an init. */
  lemma HandshakeCollision(tx: Config, rx: Config, key: Option<Key>, rand: Long, m: seq<Byte>)
    requires SameTunnel(tx, rx) && IsHandshake(Response, m)
    ensures
      var p := ClashProfile(Read32(Padding(Seed(Response, rand), 56), 0));
      && Ready(p)
      && var w := HandshakeWire(tx, p, Response, key, rand, m);
         var r := Inbound(rx, p, w);
         ClaimedEarlier(rx, p, Response, w) && r.Accept? && |r.bytes| == 148 && !Delivered(rx, Response, m, r.bytes)
  {
    hide Padding, XorLong, Masked, Dressed, DecodeHandshake, Trailer, Mix64, Xor, ClashProfile, Ready, Read32, TransportClaims;
    var pad := Padding(Seed(Response, rand), 56);
    var v := Read32(pad, 0);
    var p := ClashProfile(v);
    ClashReady(v);
    var w := HandshakeWire(tx, p, Response, key, rand, m);
    assert w[..4] == pad[..4];
    SameWord(w, pad);
    WordWidths();
    XorZero(32, v);
    assert Claims(rx, p, Init, w);
  }

  // ---- Transport ----

  lemma HeaderMaskSeen(c: Config, p: Profile, pad: seq<Byte>, m: seq<Byte>)
    requires p.hpOn ==> |pad| >= HP_MIN_PADDING
    requires |m| >= HP_TRANSPORT_HDR
    ensures XorWord(Read32(MaskedHeader(c, p, pad, m), 0), TypeMask(c, p, pad)) == Read32(m, 0)
    ensures p.hpOn ==> XorBytes(MaskedHeader(c, p, pad, m)[..16], RecvBlock(c, pad)) == m[..16]
    ensures MaskedHeader(c, p, pad, m)[16..] == m[16..]
  {
    if p.hpOn {
      var nonce: Nonce := pad[..12];
      var head := Protect(c.Block(), c.hpKey, nonce, m[..16]);
      MaskedTypeSeen(c.Block(), c.hpKey, nonce, m[..16]);
      SameWord(m, m[..16]);
      SameWord(head + m[16..], head);
      assert (head + m[16..])[..16] == head;
      BlockIsHead(c.Block(), c.hpKey, nonce, 0, 16);
      XorBytesInvolution(m[..16], Keystream(c.Block(), c.hpKey, nonce, 0, 16));
      XorBytesHead(head, c.Block()(c.hpKey, nonce, 0));
    } else {
      WordWidths();
      XorZero(32, Read32(m, 0));
    }
  }

  lemma XorBytesHead(a: seq<Byte>, ks: seq<Byte>)
    requires |a| <= |ks|
    ensures XorBytes(a, ks[..|a|]) == XorBytes(a, ks)
  {}

  /** Whatever the padding and whatever header of the range was drawn, by the
      slow path or the inline one, the packet is recognised and its body
      restored. */
  lemma TransportReceived(c: Config, p: Profile, pad: seq<Byte>, typed: seq<Byte>)
    requires Ready(p) && |pad| == p.s4 && |typed| >= TRANSPORT_MIN && Contains(p.h4, Read32(typed, 0))
    requires p.hpOn ==> |pad| >= HP_MIN_PADDING
    ensures
      var w := pad + MaskedHeader(c, p, pad, typed);
      && TransportClaims(c, p, w)
      && DecodeTransport(c, p, w) == Write32(typed, 0, TRANSPORT_TYPE)
  {
    ReadyMeans(p, Init);
    var body := MaskedHeader(c, p, pad, typed);
    var w := pad + body;
    HeaderMaskSeen(c, p, pad, typed);
    assert w[p.s4..] == body;
    assert p.hpOn ==> w[..12] == pad[..12];
    assert Read32(w, p.s4) == Read32(body, 0);
    if p.hpOn {
      assert XorBytes(body[..16], RecvBlock(c, w)) + body[16..] == typed;
    }
  }

  /** Some handshake test claims the datagram. */
  predicate HandshakeClaims(c: Config, p: Profile, w: seq<Byte>)
    requires Ready(p)
  {
    Claims(c, p, Init, w) || Claims(c, p, Response, w) || Claims(c, p, Cookie, w)
  }

  lemma HandshakeTypeKept(c: Config, p: Profile, k: Kind, w: seq<Byte>)
    requires Ready(p) && |w| >= p.Total(k)
    ensures Read32(DecodeHandshake(c, p, k, w), 0) == k.Type()
  {
    ReadyMeans(p, k);
    var s := p.Pad(k);
    var typed := Write32(Masked(c, p, w, w[s..s + k.Size()]), 0, k.Type());
    StampedBytes(c.mac, k, c.mac1In, typed);
    SameWord(Stamped(c.mac, k, c.mac1In, typed), typed);
  }

  /** Every way a datagram can be taken in, seen from the transport test. */
  lemma InboundFromTransport(c: Config, p: Profile, w: seq<Byte>)
    requires Ready(p) && |w| >= TRANSPORT_MIN
    ensures NoopClaims(p, w) ==> Inbound(c, p, w) == Accept(0, w)
    ensures !NoopClaims(p, w) && HandshakeClaims(c, p, w) ==>
              Inbound(c, p, w).Accept? && |Inbound(c, p, w).bytes| >= 4
              && Read32(Inbound(c, p, w).bytes, 0) != TRANSPORT_TYPE
    ensures !NoopClaims(p, w) && !HandshakeClaims(c, p, w) ==>
              Inbound(c, p, w) == if TransportClaims(c, p, w) then Accept(p.s4, DecodeTransport(c, p, w)) else Drop
  {
    hide DecodeHandshake, DecodeTransport, TypeAt;
    if Claims(c, p, Init, w) {
      HandshakeTypeKept(c, p, Init, w);
    } else if Claims(c, p, Response, w) {
      HandshakeTypeKept(c, p, Response, w);
    } else if Claims(c, p, Cookie, w) {
      HandshakeTypeKept(c, p, Cookie, w);
    }
  }

  /** For every ready profile, draw and transport message: the far end gets
      exactly the message back if and only if the transform is the identity,
      or the sender had headroom for the padding and no handshake test claims
      the datagram. */
  lemma TransportRoundTrip(tx: Config, rx: Config, p: Profile, dataoff: nat, rand: Long, m: seq<Byte>)
    requires Ready(p) && SameTunnel(tx, rx) && IsTransport(m)
    ensures
      var w := TransportWire(tx, p, dataoff, rand, m);
      var r := Inbound(rx, p, w);
      (r.Accept? && r.bytes == m) <==> p.h4Noop || (p.s4 <= dataoff && !HandshakeClaims(rx, p, w))
  {
    hide Padding, Mix64, XorLong, MaskedHeader, Claims, DecodeTransport, TransportClaims, Inbound, Validate, Protect;
    ReadyMeans(p, Init);
    var w := TransportWire(tx, p, dataoff, rand, m);
    InboundFromTransport(rx, p, w);
    if !p.h4Noop {
      var h := if p.h4.min == p.h4.max then p.h4Fixed else Pick(p.h4, rand);
      var typed := Write32(m, 0, h);
      if p.s4 <= dataoff {
        var pad := if p.s4 > 0 then Padding(XorLong(rand, SALT_TRANSPORT), p.s4) else [];
        SameHeaderMask(tx, rx, p, pad, typed);
        UnpaddedHeader(rx, p, pad, typed);
        TransportReceived(rx, p, pad, typed);
        Retyped(m, h);
      }
    }
  }

  /** The same about transform_outbound_profile as a whole. */
  lemma OutboundTransportRoundTrip(tx: Config, rx: Config, p: Profile, key: Option<Key>, dataoff: nat,
                                   rand: Long, m: seq<Byte>)
    requires Ready(p) && SameTunnel(tx, rx) && IsTransport(m)
    ensures
      var s := Outbound(tx, p, key, dataoff, rand, m);
      && s.Sent? && !s.junk
      && var r := Inbound(rx, p, s.bytes);
         (r.Accept? && r.bytes == m) <==> p.h4Noop || (p.s4 <= dataoff && !HandshakeClaims(rx, p, s.bytes))
  {
    hide HandshakeWire, Inbound, HandshakeClaims, Validate, TransportWire;
    TransportRoundTrip(tx, rx, p, dataoff, rand, m);
  }

  /** Without trailers a padded transport packet is delivered whenever its
      length on the wire is not a handshake's. */
  lemma TransportDeliveredBySize(tx: Config, rx: Config, p: Profile, dataoff: nat, rand: Long, m: seq<Byte>)
    requires Ready(p) && SameTunnel(tx, rx) && IsTransport(m)
    requires !p.rt && p.s4 <= dataoff && !HandshakeLength(p, p.s4 + |m|)
    ensures
      var r := Inbound(rx, p, TransportWire(tx, p, dataoff, rand, m));
      r.Accept? && r.bytes == m
  {
    hide Padding, XorLong, MaskedHeader, Inbound, Validate, TypeAt, Write32;
    TransportRoundTrip(tx, rx, p, dataoff, rand, m);
    ReadyMeans(p, Init);
    var w := TransportWire(tx, p, dataoff, rand, m);
    assert |w| == p.s4 + |m|;
  }

  lemma Retyped(m: seq<Byte>, h: Word)
    requires |m| >= 4
    ensures Write32(Write32(m, 0, h), 0, Read32(m, 0)) == m
  {
    TypeWord(Write32(m, 0, Read32(m, 0)), m);
  }

  lemma SameHeaderMask(tx: Config, rx: Config, p: Profile, pad: seq<Byte>, m: seq<Byte>)
    requires SameTunnel(tx, rx) && (p.hpOn ==> |pad| >= HP_MIN_PADDING) && |m| >= HP_TRANSPORT_HDR
    ensures MaskedHeader(tx, p, pad, m) == MaskedHeader(rx, p, pad, m)
  {}

  lemma UnpaddedHeader(c: Config, p: Profile, pad: seq<Byte>, m: seq<Byte>)
    requires (p.hpOn ==> |pad| >= HP_MIN_PADDING) && |m| >= HP_TRANSPORT_HDR
    ensures |pad| == 0 ==> pad + MaskedHeader(c, p, pad, m) == m
  {}

  /** The condition is not idle: a transport packet of a handshake's length,
      with the handshake's type word at the handshake's offset, comes out as a
      handshake. */
  lemma TransportCollision(c: Config, m: seq<Byte>)
    requires IsTransport(m) && |m| == 168 && Read32(m, 20) == 1
    ensures
      var p := Compute(Profile(20, 0, 0, 0, Bounds(1, 1), Bounds(2, 2), Bounds(3, 3), Bounds(5, 5),
                               false, false, false, 0, false, 0, 0, 0, false));
      && Ready(p)
      && var r := Inbound(c, p, TransportWire(c, p, 0, 0, m));
         r.Accept? && r.bytes != m
  {
    var p := Compute(Profile(20, 0, 0, 0, Bounds(1, 1), Bounds(2, 2), Bounds(3, 3), Bounds(5, 5),
                             false, false, false, 0, false, 0, 0, 0, false));
    var w := TransportWire(c, p, 0, 0, m);
    assert Read32(w, 20) == Read32(m, 20);
    WordWidths();
    XorZero(32, 1);
    assert Claims(c, p, Init, w);
    InboundFromTransport(c, p, w);
  }

  // ---- Nonces ----

  /** Two handshake datagrams of one kind start with the same 8 bytes, and so
      risk the same nonce, exactly when they were made from the same draw or
      from the one pair of draws the generator folds together. */
  lemma HandshakeNonceFresh(tx: Config, p: Profile, k: Kind, key: Option<Key>, key': Option<Key>,
                            x: Long, y: Long, m: seq<Byte>, m': seq<Byte>)
    requires Ready(p) && p.Pad(k) >= 8 && |m| == |m'| == k.Size()
    ensures HandshakeWire(tx, p, k, key, x, m)[..8] == HandshakeWire(tx, p, k, key', y, m')[..8]
            <==> x == y || FoldedPair(Seed(k, x), Seed(k, y))
  {
    hide Padding, FoldedPair, XorLong, Masked, Dressed, Trailer, Validate;
    var px, py := Padding(Seed(k, x), p.Pad(k)), Padding(Seed(k, y), p.Pad(k));
    assert HandshakeWire(tx, p, k, key, x, m)[..8] == px[..8];
    assert HandshakeWire(tx, p, k, key', y, m')[..8] == py[..8];
    match k
    case Init => PaddingFresh(x, y, p.s1, p.s1);
    case Response => SaltedPaddingFresh(x, y, SALT_RESPONSE, p.s2, p.s2);
    case Cookie => SaltedPaddingFresh(x, y, SALT_COOKIE, p.s3, p.s3);
  }

  lemma TransportNonceFresh(tx: Config, p: Profile, dataoff: nat, x: Long, y: Long, m: seq<Byte>, m': seq<Byte>)
    requires Ready(p) && 8 <= p.s4 <= dataoff && |m| >= TRANSPORT_MIN && |m'| >= TRANSPORT_MIN
    ensures TransportWire(tx, p, dataoff, x, m)[..8] == TransportWire(tx, p, dataoff, y, m')[..8]
            <==> x == y || FoldedPair(XorLong(x, SALT_TRANSPORT), XorLong(y, SALT_TRANSPORT))
  {
    hide Padding, FoldedPair, XorLong, MaskedHeader, Validate;
    var px, py := Padding(XorLong(x, SALT_TRANSPORT), p.s4), Padding(XorLong(y, SALT_TRANSPORT), p.s4);
    assert TransportWire(tx, p, dataoff, x, m)[..8] == px[..8];
    assert TransportWire(tx, p, dataoff, y, m')[..8] == py[..8];
    SaltedPaddingFresh(x, y, SALT_TRANSPORT, p.s4, p.s4);
  }
}
