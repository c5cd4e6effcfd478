/** Obfuscation profiles (src/transform.h, config_*_profile of
    src/transform.c): padding lengths, header ranges and the flags derived
    from them. */
module Profiles {
  import opened Bytes

  const PACKET_BUF := 1500
  const HEADROOM := 256
  const TRANSPORT_MIN := 32
  const TRANSPORT_TYPE: Word := 4
  const HP_MIN_PADDING := 12

  /** An inclusive header range; the parser refuses min > max. */
  datatype Bounds = Bounds(min: Word, max: Word)
  type HRange = r: Bounds | r.min <= r.max witness Bounds(0, 0)

  /** The handshake messages, in the order the receiver tries them. */
  datatype Kind = Init | Response | Cookie {
    function Size(): nat {
      match this case Init => 148 case Response => 92 case Cookie => 64
    }

    function Type(): Word {
      match this case Init => 1 case Response => 2 case Cookie => 3
    }
  }

  datatype Profile = Profile(
    s1: int, s2: int, s3: int, s4: int,
    h1: HRange, h2: HRange, h3: HRange, h4: HRange,
    cps: bool, hpOn: bool, rt: bool,
    // derived
    h4Fixed: Word, h4Noop: bool,
    initTotal: int, respTotal: int, cookieTotal: int,
    sizeAmbiguous: bool)
  {
    function Pad(k: Kind): int {
      match k case Init => s1 case Response => s2 case Cookie => s3
    }

    function Range(k: Kind): HRange {
      match k case Init => h1 case Response => h2 case Cookie => h3
    }

    function Total(k: Kind): int {
      match k case Init => initTotal case Response => respTotal case Cookie => cookieTotal
    }
  }

  function Pick(r: HRange, rand: Long): (w: Word)
    ensures Contains(r, w)
  {
    if r.min == r.max then r.min
    else
      var span := r.max as int - r.min as int + 1;
      r.min as int + rand as int % span
  }

  predicate Contains(r: HRange, v: Word) {
    r.min <= v <= r.max
  }

  /** Every header of a range is drawn, and the draws that differ by less than
      the range's size give different ones. */
  lemma PickOnto(r: HRange, v: Word)
    requires r.min <= v <= r.max
    ensures Pick(r, v as int - r.min as int) == v
  {
    SmallRemainder(v as int - r.min as int, r.max as int - r.min as int + 1);
  }

  predicate Overlaps(a: HRange, b: HRange) {
    a.min <= b.max && b.min <= a.max
  }

  /** Two ranges overlap exactly when some header belongs to both. */
  lemma OverlapsIff(a: HRange, b: HRange)
    ensures Overlaps(a, b) <==> exists v: Word :: Contains(a, v) && Contains(b, v)
  {
    if Overlaps(a, b) {
      var v := if a.min >= b.min then a.min else b.min;
      assert Contains(a, v) && Contains(b, v);
    }
  }

  datatype Verdict = Ok | BadS1 | BadS2 | BadS3 | BadS4 | ShortS1 | ShortS2 | ShortS3 | ShortS4 | RangesOverlap

  /** config_validate_profile: the first complaint, or Ok. */
  function Validate(p: Profile): (v: Verdict) {
    if p.s1 < 0 || p.s1 > PACKET_BUF - 148 then BadS1
    else if p.s2 < 0 || p.s2 > PACKET_BUF - 92 then BadS2
    else if p.s3 < 0 || p.s3 > PACKET_BUF - 64 then BadS3
    else if p.s4 < 0 || p.s4 > HEADROOM then BadS4
    else if p.hpOn && p.s1 < HP_MIN_PADDING then ShortS1
    else if p.hpOn && p.s2 < HP_MIN_PADDING then ShortS2
    else if p.hpOn && p.s3 < HP_MIN_PADDING then ShortS3
    else if p.hpOn && p.s4 < HP_MIN_PADDING then ShortS4
    else if Overlaps(p.h1, p.h2) || Overlaps(p.h1, p.h3) || Overlaps(p.h1, p.h4)
         || Overlaps(p.h2, p.h3) || Overlaps(p.h2, p.h4) || Overlaps(p.h3, p.h4) then RangesOverlap
    else Ok
  }

  /** config_compute_profile: the derived fields. */
  function Compute(p: Profile): (r: Profile) {
    var tmin := p.s4 + TRANSPORT_MIN;
    var i, rs, c := p.s1 + 148, p.s2 + 92, p.s3 + 64;
    p.(h4Fixed := p.h4.min,
       h4Noop := p.h4.min == TRANSPORT_TYPE && p.h4.max == TRANSPORT_TYPE && p.s4 == 0 && !p.hpOn,
       initTotal := i, respTotal := rs, cookieTotal := c,
       sizeAmbiguous := i >= tmin || rs >= tmin || c >= tmin)
  }

  /** A profile the proxy may run with. */
  predicate Ready(p: Profile) {
    Validate(p) == Ok && p == Compute(p)
  }

  /** What a ready profile guarantees, kind by kind. */
  lemma ReadyMeans(p: Profile, k: Kind)
    requires Ready(p)
    ensures 0 <= p.Pad(k) && p.Total(k) == p.Pad(k) + k.Size() <= PACKET_BUF
    ensures 0 <= p.s4 <= HEADROOM
    ensures p.hpOn ==> p.Pad(k) >= HP_MIN_PADDING && p.s4 >= HP_MIN_PADDING
    ensures !Overlaps(p.Range(k), p.h4)
    ensures p.h4Noop <==> p.h4 == Bounds(4, 4) && p.s4 == 0 && !p.hpOn
  {}

  /** Validation accepts exactly the profiles whose paddings fit the packet
      buffer (and carry a nonce under header protection) and whose header
      ranges give every type word at most one meaning. */
  lemma ValidateExact(p: Profile)
    ensures Validate(p) == Ok <==>
            && (forall k: Kind :: 0 <= p.Pad(k) <= 1500 - k.Size())
            && 0 <= p.s4 <= 256
            && (p.hpOn ==> p.s4 >= 12 && forall k: Kind :: p.Pad(k) >= 12)
            && (forall k: Kind, v: Word :: !(Contains(p.Range(k), v) && Contains(p.h4, v)))
            && (forall k: Kind, k': Kind, v: Word :: k != k' ==> !(Contains(p.Range(k), v) && Contains(p.Range(k'), v)))
  {
    assert p.Pad(Init) == p.s1 && p.Pad(Response) == p.s2 && p.Pad(Cookie) == p.s3;
    assert p.Range(Init) == p.h1 && p.Range(Response) == p.h2 && p.Range(Cookie) == p.h3;
    OverlapsIff(p.h1, p.h2);
    OverlapsIff(p.h1, p.h3);
    OverlapsIff(p.h1, p.h4);
    OverlapsIff(p.h2, p.h3);
    OverlapsIff(p.h2, p.h4);
    OverlapsIff(p.h3, p.h4);
  }

  /** A datagram of n bytes has the exact length of some handshake message. */
  predicate HandshakeLength(p: Profile, n: int) {
    n == p.initTotal || n == p.respTotal || n == p.cookieTotal
  }

  /** The ambiguity flag is exact: it is clear precisely when no datagram long
      enough for transport has a handshake length. */
  lemma AmbiguityExact(p: Profile)
    requires Ready(p)
    ensures !p.sizeAmbiguous <==> forall n: int :: n >= p.s4 + TRANSPORT_MIN ==> !HandshakeLength(p, n)
  {
    if p.sizeAmbiguous {
      assert HandshakeLength(p, p.initTotal) && HandshakeLength(p, p.respTotal) && HandshakeLength(p, p.cookieTotal);
    }
  }
}
