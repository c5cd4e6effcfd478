/** Taking a datagram in: transform_inbound_profile over one buffer and one
    keystream cache, the inline transport path in front of it, and the walk
    over the fallback profiles (src/transform.c, src/proxy.c). */
module Receive {
  import opened Bytes
  import opened ChaCha20
  import opened Profiles
  import opened RoundTrip
  import opened Transform
  import opened Wire

  // ---- transform_inbound_profile ----

  /** One handshake test and, when it matches, its branch. */
  method TryHandshake(c: Config, p: Profile, k: Kind, buf: array<Byte>, n: nat, ks: KeystreamCache) returns (f: Found)
    requires Ready(p) && n <= buf.Length && (p.hpOn ==> n >= HP_MIN_PADDING && ks.valid)
    requires ks.GoodFor(c, buf[..n])
    modifies buf
    ensures !Claims(c, p, k, old(buf[..n])) ==> f == NotFound && buf[..] == old(buf[..])
    ensures Claims(c, p, k, old(buf[..n])) ==>
              && 0 <= p.Pad(k) && n >= p.Total(k)
              && Shows(buf[..], f, Accept(p.Pad(k), DecodeHandshake(c, p, k, old(buf[..n]))))
  {
    hide Ready, DecodeHandshake, TypeAt, RecvBlock, Profile.Pad, Profile.Total, Profile.Range;
    ReadyMeans(p, k);
    f := NotFound;
    if n == p.Total(k) || (p.rt && n > p.Total(k)) {
      var h := PeekType(c, p, buf, n, p.Pad(k), ks);
      if Contains(p.Range(k), h) {
        OpenHandshake(c, p, k, buf, n);
        f := Found(p.Pad(k), k.Size());
      }
    }
  }

  /** The body of the transport branch: the header against the block at hand,
      the type restored. */
  method OpenTransport(c: Config, p: Profile, buf: array<Byte>, n: nat, ks: KeystreamCache)
    requires Ready(p) && 0 <= p.s4 && p.s4 + TRANSPORT_MIN <= n <= buf.Length
    requires ks.GoodFor(c, buf[..n]) && (p.hpOn ==> ks.valid)
    modifies buf
    ensures buf[p.s4..n] == DecodeTransport(c, p, old(buf[..n]))
  {
    hide Ready, RecvBlock, Splice, Write32, Le32, XorBytes, DecodeTransport;
    var s := p.s4;
    ghost var w := buf[..n];
    DecodeTransportIs(c, p, w);
    assert w[s..] == buf[s..n] && buf[s..n][..16] == buf[s..s + 16];
    if p.hpOn {
      HeadRewritten(buf[..], s, n, XorBytes(buf[s..s + 16], ks.ks));
      XorBlock(buf, s, ks.ks, HP_TRANSPORT_HDR);
    }
    TypeRewritten(buf[..], s, n);
    Copy(buf, s, Le32(TRANSPORT_TYPE));
  }

  lemma HeadRewritten(s: seq<Byte>, at: nat, n: nat, head: seq<Byte>)
    requires at + |head| <= n <= |s|
    ensures Splice(s, at, head)[at..n] == head + s[at..n][|head|..]
  {}

  lemma TypeRewritten(s: seq<Byte>, at: nat, n: nat)
    requires at + 4 <= n <= |s|
    ensures Splice(s, at, Le32(TRANSPORT_TYPE))[at..n] == Write32(s[at..n], 0, TRANSPORT_TYPE)
  {
    SpliceWithin(s, at, n - at, 0, Le32(TRANSPORT_TYPE));
    Write32IsSplice(s[at..n], TRANSPORT_TYPE);
  }

  lemma DecodeTransportIs(c: Config, p: Profile, w: seq<Byte>)
    requires Ready(p) && |w| >= p.s4 + TRANSPORT_MIN
    ensures 0 <= p.s4 && (p.hpOn ==> |w| >= HP_MIN_PADDING)
    ensures
      var body := w[p.s4..];
      var plain := if p.hpOn then XorBytes(body[..16], RecvBlock(c, w)) + body[16..] else body;
      DecodeTransport(c, p, w) == Write32(plain, 0, TRANSPORT_TYPE)
  {
    ReadyMeans(p, Init);
  }

  /** transform_inbound_profile: the datagram decodes as Inbound says; one
      that does not leaves every byte of the buffer as it was; and the cache,
      filled or not, is good for this datagram. */
  method TransformInbound(buf: array<Byte>, n: nat, c: Config, p: Profile, ks: KeystreamCache) returns (f: Found)
    requires Ready(p) && n <= buf.Length && ks.GoodFor(c, buf[..n])
    modifies buf, ks
    ensures Shows(buf[..], f, Inbound(c, p, old(buf[..n])))
    ensures f == NotFound ==> buf[..] == old(buf[..])
    ensures ks.GoodFor(c, old(buf[..n]))
  {
    hide Ready, DecodeHandshake, DecodeTransport, TypeAt, RecvBlock, Claims, TransportClaims;
    ghost var w := buf[..n];
    ReadyMeans(p, Init);
    ReadyMeans(p, Response);
    ReadyMeans(p, Cookie);
    if n < 4 {
      return NotFound;
    }
    if p.h4Noop && n >= TRANSPORT_MIN {
      var head := buf[..4];
      SameWord(w, head);
      if Read32(head, 0) == TRANSPORT_TYPE {
        return Found(0, n);
      }
    }
    if p.hpOn {
      if n < HP_MIN_PADDING {
        return NotFound;
      }
      ks.Get(c, buf, n);
    }
    f := TryHandshake(c, p, Init, buf, n, ks);
    if f == NotFound {
      f := TryHandshake(c, p, Response, buf, n, ks);
      if f == NotFound {
        f := TryHandshake(c, p, Cookie, buf, n, ks);
        if f == NotFound {
          f := TryTransport(c, p, buf, n, ks);
        }
      }
    }
  }

  /** The transport test and its branch. */
  method TryTransport(c: Config, p: Profile, buf: array<Byte>, n: nat, ks: KeystreamCache) returns (f: Found)
    requires Ready(p) && n <= buf.Length && (p.hpOn ==> n >= HP_MIN_PADDING && ks.valid)
    requires ks.GoodFor(c, buf[..n])
    modifies buf
    ensures !TransportClaims(c, p, old(buf[..n])) ==> f == NotFound && buf[..] == old(buf[..])
    ensures TransportClaims(c, p, old(buf[..n])) ==>
              && 0 <= p.s4 && n >= p.s4 + TRANSPORT_MIN
              && Shows(buf[..], f, Accept(p.s4, DecodeTransport(c, p, old(buf[..n]))))
  {
    hide Ready, DecodeTransport, TypeAt, RecvBlock;
    ReadyMeans(p, Init);
    f := NotFound;
    if n >= p.s4 + TRANSPORT_MIN {
      var h := PeekType(c, p, buf, n, p.s4, ks);
      if Contains(p.h4, h) {
        OpenTransport(c, p, buf, n, ks);
        f := Found(p.s4, n - p.s4);
      }
    }
  }

  // ---- The inline transport path ----

  /** The test the threads make before falling back to the transform. */
  predicate FastAccepts(c: Config, p: Profile, w: seq<Byte>)
    requires Ready(p)
  {
    (!p.sizeAmbiguous || !HandshakeLength(p, |w|)) && TransportClaims(c, p, w)
  }

  function FastInbound(c: Config, p: Profile, w: seq<Byte>): (r: Decoded)
    requires Ready(p)
  {
    if FastAccepts(c, p, w) then Accept(p.s4, DecodeTransport(c, p, w)) else Inbound(c, p, w)
  }

  lemma DecodedTransportType(c: Config, p: Profile, w: seq<Byte>)
    requires Ready(p) && |w| >= p.s4 + TRANSPORT_MIN
    ensures Read32(DecodeTransport(c, p, w), 0) == TRANSPORT_TYPE
    ensures NoopClaims(p, w) ==> p.s4 == 0 && DecodeTransport(c, p, w) == w
  {
    ReadyMeans(p, Init);
    if NoopClaims(p, w) {
      Retyped(w, TRANSPORT_TYPE);
      assert w[0..] == w;
    }
  }

  /** For every ready profile and every datagram: the inline path followed by
      the fallback agrees with the transform alone, in bytes, place and drop
      decision, unless the inline test takes a datagram that a handshake test
      would have claimed. */
  lemma FastPathExact(c: Config, p: Profile, w: seq<Byte>)
    requires Ready(p)
    ensures FastInbound(c, p, w) == Inbound(c, p, w)
            <==> !(FastAccepts(c, p, w) && !NoopClaims(p, w) && HandshakeClaims(c, p, w))
  {
    hide Ready, DecodeTransport, DecodeHandshake, TypeAt, Claims, Inbound;
    ReadyMeans(p, Init);
    if FastAccepts(c, p, w) {
      DecodedTransportType(c, p, w);
      InboundFromTransport(c, p, w);
    }
  }

  /** The exception is real when trailers are on: a datagram longer than an init
      with the init's type word in front and transport's behind S4. */
  lemma FastPathDisagrees(c: Config, w: seq<Byte>)
    requires |w| == 200 && Read32(w, 0) == 1 && Read32(w, 20) == 5
    ensures
      var p := Compute(Profile(0, 0, 0, 20, Bounds(1, 1), Bounds(2, 2), Bounds(3, 3), Bounds(5, 5),
                               false, false, true, 0, false, 0, 0, 0, false));
      Ready(p) && FastInbound(c, p, w) != Inbound(c, p, w)
  {
    var p := Compute(Profile(0, 0, 0, 20, Bounds(1, 1), Bounds(2, 2), Bounds(3, 3), Bounds(5, 5),
                             false, false, true, 0, false, 0, 0, 0, false));
    hide DecodeTransport, DecodeHandshake, Xor;
    WordWidths();
    XorZero(32, 1);
    XorZero(32, 5);
    assert Claims(c, p, Init, w) && FastAccepts(c, p, w);
    FastPathExact(c, p, w);
  }

  /** Without trailers the exception cannot arise: a handshake test looks only
      at its own length, which the inline test leaves alone. */
  lemma FastPathAgrees(c: Config, p: Profile, w: seq<Byte>)
    requires Ready(p) && !p.rt
    ensures FastInbound(c, p, w) == Inbound(c, p, w)
  {
    hide Validate, DecodeTransport, DecodeHandshake, TypeAt, Inbound;
    FastPathExact(c, p, w);
    AmbiguityExact(p);
    assert HandshakeLength(p, |w|) || !HandshakeClaims(c, p, w);
  }

  // ---- One received datagram against the whole chain ----

  /** What stage i of the chain makes of the datagram on a copy of its own.
      The current stage has the inline path in front of it. */
  function Attempt(c: Config, ps: seq<Profile>, first: nat, i: nat, w: seq<Byte>): (d: Decoded)
    requires i < |ps| && Ready(ps[i])
  {
    if i == first then FastInbound(c, ps[i], w) else Inbound(c, ps[i], w)
  }

  /** d is what the first accepting stage gives, `first` being tried ahead of
      the others, or Drop when none accepts. */
  ghost predicate ChainResult(c: Config, ps: seq<Profile>, first: nat, w: seq<Byte>, stage: nat, d: Decoded)
    requires (forall i :: 0 <= i < |ps| ==> Ready(ps[i])) && first < |ps|
  {
    if d == Drop then forall i :: 0 <= i < |ps| ==> Attempt(c, ps, first, i, w) == Drop
    else
      && stage < |ps| && d == Attempt(c, ps, first, stage, w)
      && (stage != first ==> Attempt(c, ps, first, first, w) == Drop)
      && (stage != first ==> forall i :: 0 <= i < stage ==> Attempt(c, ps, first, i, w) == Drop)
  }

  /** With no trailers on the current stage the walk is over plain decodes. */
  lemma ChainOfPlainDecodes(c: Config, ps: seq<Profile>, first: nat, i: nat, w: seq<Byte>)
    requires i < |ps| && Ready(ps[i]) && (i == first ==> !ps[i].rt)
    ensures Attempt(c, ps, first, i, w) == Inbound(c, ps[i], w)
  {
    hide Ready, Inbound, FastInbound;
    if i == first {
      FastPathAgrees(c, ps[i], w);
    }
  }

  /** The receive loop's body: inline path, transform on the current stage,
      then the other stages in order, all in place over one buffer and one
      cache; the outcome is that of independent attempts. */
  method ReceiveChain(buf: array<Byte>, n: nat, c: Config, ps: seq<Profile>, first: nat)
    returns (f: Found, stage: nat, ghost d: Decoded)
    requires n <= buf.Length && first < |ps| && forall i :: 0 <= i < |ps| ==> Ready(ps[i])
    modifies buf
    ensures Shows(buf[..], f, d) && ChainResult(c, ps, first, old(buf[..n]), stage, d)
    ensures f == NotFound ==> buf[..] == old(buf[..])
  {
    hide Ready, Inbound, FastInbound, DecodeTransport, TypeAt, RecvBlock;
    ghost var w := buf[..n];
    var ks := new KeystreamCache();
    stage := first;
    f := ReceiveFast(buf, n, c, ps[first], ks);
    d := Attempt(c, ps, first, first, w);
    if f == NotFound && |ps| > 1 {
      var k := 0;
      while k < |ps| && f == NotFound
        invariant 0 <= k <= |ps|
        invariant ks.GoodFor(c, w) && fresh(ks)
        invariant f == NotFound ==>
                    buf[..] == old(buf[..]) && d == Drop && forall i :: 0 <= i < k ==> Attempt(c, ps, first, i, w) == Drop
        invariant Shows(buf[..], f, d) && (f != NotFound ==> ChainResult(c, ps, first, w, stage, d))
        invariant Attempt(c, ps, first, first, w) == Drop
      {
        if k != first {
          assert buf[..n] == buf[..][..n] == w;
          f := TransformInbound(buf, n, c, ps[k], ks);
          d := Attempt(c, ps, first, k, w);
          if f != NotFound {
            stage := k;
          }
        }
        k := k + 1;
      }
    }
  }

  /** The inline transport path, then the transform. */
  method ReceiveFast(buf: array<Byte>, n: nat, c: Config, p: Profile, ks: KeystreamCache) returns (f: Found)
    requires Ready(p) && n <= buf.Length && ks.GoodFor(c, buf[..n])
    modifies buf, ks
    ensures Shows(buf[..], f, FastInbound(c, p, old(buf[..n])))
    ensures f == NotFound ==> buf[..] == old(buf[..])
    ensures ks.GoodFor(c, old(buf[..n]))
  {
    hide Ready, Inbound, DecodeTransport, TypeAt, RecvBlock, HandshakeLength;
    ReadyMeans(p, Init);
    if n >= p.s4 + TRANSPORT_MIN && (!p.sizeAmbiguous || !HandshakeLength(p, n)) {
      if p.hpOn {
        ks.Get(c, buf, n);
      }
      f := TryTransport(c, p, buf, n, ks);
      if f != NotFound {
        return;
      }
    }
    f := TransformInbound(buf, n, c, p, ks);
  }
}
