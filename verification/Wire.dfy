/** What the packet transform does to a message (src/transform.c), as
    functions on byte sequences: WireGuard to wire, and wire to WireGuard. */
module Wire {
  import Blake2s
  import opened Bytes
  import opened ChaCha20
  import opened FastRand
  import opened Profiles

  datatype Option<+T> = None | Some(value: T)

  type MacFn = (Key, seq<Byte>) -> Blake2s.Mac

  /** The part of awg_config_t the transform reads. The ChaCha20 rounds and
      the MAC are parameters. */
  datatype Config = Config(
    core: Core, mac: MacFn, hpKey: Key,
    mac1Out: Option<Key>, mac1In: Option<Key>,
    jc: int, disableCookies: bool, window: Word)
  {
    function Block(): BlockFn { BlockOf(core) }
  }

  const HP_TRANSPORT_HDR := 16

  // ---- MAC1 ----

  /** Where MAC1 sits; a cookie reply has none. */
  function MacAt(k: Kind): (at: Option<nat>) {
    match k case Init => Some(116) case Response => Some(60) case Cookie => None
  }

  /** recompute_mac1, recompute_mac1_response: MAC1 over everything before it. */
  function Stamped(mac: MacFn, k: Kind, key: Option<Key>, m: seq<Byte>): (r: seq<Byte>)
    requires |m| == k.Size()
    ensures |r| == |m|
  {
    if key.Some? && MacAt(k).Some? then
      var at := MacAt(k).value;
      Splice(m, at, mac(key.value, m[..at]))
    else m
  }

  // ---- Outbound ----

  const SALT_RESPONSE: Long := 0x12345
  const SALT_COOKIE: Long := 0x67890
  const SALT_TRANSPORT: Long := 0xABCDE
  const SALT_TRAILER_LEN: Long := 0x7A11E45
  const SALT_TRAILER: Long := 0xFEED1

  function Seed(k: Kind, rand: Long): (s: Long) {
    match k
    case Init => rand
    case Response => XorLong(rand, SALT_RESPONSE)
    case Cookie => XorLong(rand, SALT_COOKIE)
  }

  /** trailer_len: a draw from [0, window - size), none past the window. */
  function TrailerLen(rt: bool, window: Word, size: nat, seed: Long): (n: nat)
    ensures n > 0 ==> rt && size + n < window && size + n < PACKET_BUF
  {
    if !rt then 0
    else
      var win: int := if window > PACKET_BUF then PACKET_BUF else window;
      if win <= size then 0 else Mix64(XorLong(seed, SALT_TRAILER_LEN)) as int % (win - size)
  }

  function Trailer(rt: bool, window: Word, size: nat, seed: Long): (t: seq<Byte>)
    ensures |t| == TrailerLen(rt, window, size, seed)
  {
    Padding(XorLong(seed, SALT_TRAILER), TrailerLen(rt, window, size, seed))
  }

  /** Header protection of a handshake message: all of it, under the first 12
      bytes of its padding. */
  function Masked(c: Config, p: Profile, pad: seq<Byte>, m: seq<Byte>): (r: seq<Byte>)
    requires p.hpOn ==> |pad| >= HP_MIN_PADDING
    ensures |r| == |m|
  {
    if p.hpOn then Protect(c.Block(), c.hpKey, pad[..12], m) else m
  }

  /** The handshake message as it is before padding: AWG type, then MAC1. */
  function Dressed(c: Config, p: Profile, k: Kind, key: Option<Key>, rand: Long, m: seq<Byte>): (r: seq<Byte>)
    requires |m| == k.Size()
    ensures |r| == |m|
  {
    Stamped(c.mac, k, key, Write32(m, 0, Pick(p.Range(k), rand)))
  }

  function HandshakeWire(c: Config, p: Profile, k: Kind, key: Option<Key>, rand: Long, m: seq<Byte>): (w: seq<Byte>)
    requires Ready(p) && |m| == k.Size()
    ensures |w| >= k.Size()
  {
    ReadyMeans(p, k);
    var seed := Seed(k, rand);
    var pad := Padding(seed, p.Pad(k));
    pad + Masked(c, p, pad, Dressed(c, p, k, key, rand, m)) + Trailer(p.rt, c.window, p.Total(k), seed)
  }

  /** Header protection of a transport packet: its first 16 bytes only. */
  function MaskedHeader(c: Config, p: Profile, pad: seq<Byte>, m: seq<Byte>): (r: seq<Byte>)
    requires (p.hpOn ==> |pad| >= HP_MIN_PADDING) && |m| >= HP_TRANSPORT_HDR
    ensures |r| == |m|
  {
    if p.hpOn then Protect(c.Block(), c.hpKey, pad[..12], m[..16]) + m[16..] else m
  }

  function TransportWire(c: Config, p: Profile, dataoff: nat, rand: Long, m: seq<Byte>): (w: seq<Byte>)
    requires Ready(p) && |m| >= TRANSPORT_MIN
  {
    if p.h4Noop then m
    else
      var typed := Write32(m, 0, if p.h4.min == p.h4.max then p.h4Fixed else Pick(p.h4, rand));
      if 0 < p.s4 <= dataoff then
        var pad := Padding(XorLong(rand, SALT_TRANSPORT), p.s4);
        pad + MaskedHeader(c, p, pad, typed)
      else typed
  }

  datatype Sent = Dropped | Sent(bytes: seq<Byte>, junk: bool)

  predicate IsHandshake(k: Kind, m: seq<Byte>) {
    |m| == k.Size() && Read32(m, 0) == k.Type()
  }

  predicate IsTransport(m: seq<Byte>) {
    |m| >= TRANSPORT_MIN && Read32(m, 0) == TRANSPORT_TYPE
  }

  /** transform_outbound_profile: what leaves for a message with dataoff bytes
      of headroom in front of it. */
  function Outbound(c: Config, p: Profile, key: Option<Key>, dataoff: nat, rand: Long, m: seq<Byte>): (r: Sent)
    requires Ready(p)
  {
    var out := if key.Some? then key else c.mac1Out;
    if |m| < 4 then Sent(m, false)
    else if IsHandshake(Init, m) then Sent(HandshakeWire(c, p, Init, out, rand, m), c.jc > 0 || p.cps)
    else if IsHandshake(Response, m) then Sent(HandshakeWire(c, p, Response, out, rand, m), false)
    else if IsHandshake(Cookie, m) then
      if c.disableCookies then Dropped
      else Sent(HandshakeWire(c, p, Cookie, out, rand, m), false)
    else if IsTransport(m) then Sent(TransportWire(c, p, dataoff, rand, m), false)
    else Sent(m, false)
  }

  // ---- Inbound ----

  datatype Decoded = Drop | Accept(off: nat, bytes: seq<Byte>)

  /** The keystream block of a received datagram: its nonce is the first 12
      bytes, whatever the profile. */
  function RecvBlock(c: Config, w: seq<Byte>): (b: Block)
    requires |w| >= HP_MIN_PADDING
  {
    c.Block()(c.hpKey, w[..12], 0)
  }

  function TypeMask(c: Config, p: Profile, w: seq<Byte>): (mask: Word)
    requires p.hpOn ==> |w| >= HP_MIN_PADDING
  {
    if p.hpOn then Read32(RecvBlock(c, w), 0) else 0
  }

  function TypeAt(c: Config, p: Profile, w: seq<Byte>, at: nat): (h: Word)
    requires at + 4 <= |w| && (p.hpOn ==> |w| >= HP_MIN_PADDING)
  {
    XorWord(Read32(w, at), TypeMask(c, p, w))
  }

  predicate NoopClaims(p: Profile, w: seq<Byte>) {
    p.h4Noop && |w| >= TRANSPORT_MIN && Read32(w, 0) == TRANSPORT_TYPE
  }

  /** The size rule: the exact length, or anything longer with trailers on. */
  predicate SizeFits(p: Profile, k: Kind, n: nat) {
    n == p.Total(k) || (p.rt && n > p.Total(k))
  }

  predicate Claims(c: Config, p: Profile, k: Kind, w: seq<Byte>)
    requires Ready(p)
  {
    ReadyMeans(p, k);
    SizeFits(p, k, |w|) && Contains(p.Range(k), TypeAt(c, p, w, p.Pad(k)))
  }

  predicate TransportClaims(c: Config, p: Profile, w: seq<Byte>)
    requires Ready(p)
  {
    ReadyMeans(p, Init);
    |w| >= p.s4 + TRANSPORT_MIN && Contains(p.h4, TypeAt(c, p, w, p.s4))
  }

  function DecodeHandshake(c: Config, p: Profile, k: Kind, w: seq<Byte>): (m: seq<Byte>)
    requires Ready(p) && |w| >= p.Total(k)
    ensures |m| == k.Size()
  {
    ReadyMeans(p, k);
    var s := p.Pad(k);
    Stamped(c.mac, k, c.mac1In, Write32(Masked(c, p, w, w[s..s + k.Size()]), 0, k.Type()))
  }

  /** Only the header block is undone, with the block already at hand. */
  function DecodeTransport(c: Config, p: Profile, w: seq<Byte>): (m: seq<Byte>)
    requires Ready(p) && |w| >= p.s4 + TRANSPORT_MIN
    ensures |m| == |w| - p.s4
  {
    ReadyMeans(p, Init);
    var body := w[p.s4..];
    var plain := if p.hpOn then XorBytes(body[..16], RecvBlock(c, w)) + body[16..] else body;
    Write32(plain, 0, TRANSPORT_TYPE)
  }

  /** transform_inbound_profile */
  function Inbound(c: Config, p: Profile, w: seq<Byte>): (r: Decoded)
    requires Ready(p)
  {
    ReadyMeans(p, Init);
    if |w| < 4 then Drop
    else if NoopClaims(p, w) then Accept(0, w)
    else if p.hpOn && |w| < HP_MIN_PADDING then Drop
    else if Claims(c, p, Init, w) then Accept(p.s1, DecodeHandshake(c, p, Init, w))
    else if Claims(c, p, Response, w) then Accept(p.s2, DecodeHandshake(c, p, Response, w))
    else if Claims(c, p, Cookie, w) then Accept(p.s3, DecodeHandshake(c, p, Cookie, w))
    else if TransportClaims(c, p, w) then Accept(p.s4, DecodeTransport(c, p, w))
    else Drop
  }
}
