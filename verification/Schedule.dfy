/** When a port falls due (rot_* schedule functions of src/proxy.c). Ticks are
    32-bit and wrap; the lemmas relate them to ticks that never do. */
module Schedule {
  import opened Bytes

  const HALF := 0x8000_0000
  const RETRY_TICKS: Word := 60

  datatype RotCfg = RotCfg(tLo: Word, tHi: Word, mbLo: Word, mbHi: Word, idle: Word, retry: Word, force: Word)

  datatype Sched = Sched(deadline: Word, retry: Word, bytes: nat, vol: nat)

  function Wrap32(n: int): (w: Word) {
    n % WORD_RANGE
  }

  /** now - then, unsigned. */
  function Since(now: Word, then': Word): (d: Word) {
    Wrap32(now as int - then' as int)
  }

  /** (int32_t)(now - then) >= 0 */
  predicate NotBefore(now: Word, then': Word) {
    Since(now, then') < HALF
  }

  /** Ticks for a span of seconds, rounded up: (s + 4) / 5 in 32 bits. */
  function TicksFor(seconds: Word): (t: Word) {
    Wrap32(seconds as int + 4) as int / 5
  }

  function Min(a: Word, b: Word): (m: Word) {
    if a < b then a else b
  }

  /** rot_cfg_make */
  function MakeCfg(tLoS: Word, tHiS: Word, mbLo: Word, mbHi: Word): (c: RotCfg) {
    if tLoS != 0 then
      RotCfg(TicksFor(tLoS), TicksFor(tHiS), mbLo, mbHi, TicksFor(Min(30, tLoS)),
             Min(RETRY_TICKS, TicksFor(tLoS)), TicksFor(Min(900, tLoS)))
    else RotCfg(0, 0, mbLo, mbHi, TicksFor(30), RETRY_TICKS, TicksFor(900))
  }

  /** What the rotation needs of its configuration. */
  predicate GoodCfg(c: RotCfg) {
    c.tLo <= c.tHi < HALF && c.mbLo <= c.mbHi && c.retry <= RETRY_TICKS
  }

  /** An ordered span of seconds stays an ordered span of ticks exactly when
      rounding its end does not pass 2^32, unless its start wraps with it (and
      the timer is then off). */
  lemma MakeCfgExact(tLoS: Word, tHiS: Word, mbLo: Word, mbHi: Word)
    requires tLoS <= tHiS && mbLo <= mbHi
    ensures GoodCfg(MakeCfg(tLoS, tHiS, mbLo, mbHi))
            <==> tLoS == 0 || tHiS < WORD_RANGE - 4 || tLoS >= WORD_RANGE - 4
    ensures tHiS < WORD_RANGE - 4 ==> 5 * (MakeCfg(tLoS, tHiS, mbLo, mbHi).tLo as int - 1) < tLoS
                                      <= 5 * MakeCfg(tLoS, tHiS, mbLo, mbHi).tLo as int
  {}

  /** t is the least number of 5-second ticks that cover s seconds. */
  predicate Covers(t: int, s: int) {
    5 * (t - 1) < s <= 5 * t
  }

  /** The configuration in seconds: the span rounded up to ticks; quiet for 30
      seconds, forced after 900, back-off 60 ticks, each of them shortened to
      the span's start when that is less. */
  lemma MakeCfgMeans(tLoS: Word, tHiS: Word, mbLo: Word, mbHi: Word)
    requires tLoS < WORD_RANGE - 4 && tHiS < WORD_RANGE - 4
    ensures
      var c := MakeCfg(tLoS, tHiS, mbLo, mbHi);
      && c.mbLo == mbLo && c.mbHi == mbHi
      && if tLoS == 0 then c == RotCfg(0, 0, mbLo, mbHi, 6, 60, 180)
         else
           && Covers(c.tLo, tLoS) && Covers(c.tHi, tHiS)
           && Covers(c.idle, if tLoS < 30 then tLoS else 30) && Covers(c.force, if tLoS < 900 then tLoS else 900)
           && c.retry == (if c.tLo < 60 then c.tLo else 60)
  {}

  /** Every value of a span is drawn. */
  lemma DrawOnto(lo: Word, hi: Word, v: Word)
    requires lo <= v <= hi
    ensures Draw(lo, hi, v as int - lo as int) == v
  {
    SmallRemainder(v as int - lo as int, hi as int - lo as int + 1);
  }

  /** Every span the parser lets through is below that edge: a number of at
      most ten digits, in seconds, minutes or hours, that fits 32 bits. */
  lemma ParsedSpanFits(v: nat, unit: nat)
    requires v <= 10 * 100_000_000 + 9 && (unit == 1 || unit == 60 || unit == 3600)
    requires v * unit < WORD_RANGE
    ensures v * unit < WORD_RANGE - 4
  {}

  /** rot_draw */
  predicate DrawnFrom(v: nat, lo: Word, hi: Word) {
    lo as int <= v <= hi as int
  }

  function Draw(lo: Word, hi: Word, rand: Long): (v: nat)
    requires lo <= hi
    ensures DrawnFrom(v, lo, hi)
  {
    lo as int + rand as int % (hi as int - lo as int + 1)
  }

  /** rot_sched_reset, with the two draws it makes. */
  function Reset(c: RotCfg, now: Word, timer: nat, volume: nat): (s: Sched) {
    Sched(if c.tLo != 0 then Wrap32(now as int + timer) else 0, now, 0,
          if c.mbLo != 0 then volume * 0x10_0000 else 0)
  }

  /** rot_is_due */
  predicate IsDue(c: RotCfg, s: Sched, now: Word) {
    && NotBefore(now, s.retry)
    && ((c.tLo != 0 && NotBefore(now, s.deadline)) || (s.vol != 0 && s.bytes >= s.vol))
  }

  /** Within half the range, wrapped ticks compare as the ticks themselves. */
  lemma NotBeforeExact(now: nat, then': nat)
    requires -HALF <= now - then' < HALF
    ensures NotBefore(Wrap32(now), Wrap32(then')) <==> now >= then'
  {
    WrapDifference(now, then');
    if now < then' {
      assert Wrap32(now - then') == now - then' + WORD_RANGE;
    }
  }

  lemma WrapDifference(a: nat, b: nat)
    ensures Since(Wrap32(a), Wrap32(b)) == Wrap32(a - b)
  {
    var qa, qb := a / WORD_RANGE, b / WORD_RANGE;
    assert a - b == (Wrap32(a) as int - Wrap32(b) as int) + (qa - qb) * WORD_RANGE;
    WrapMultiple(Wrap32(a) as int - Wrap32(b) as int, qa - qb);
  }

  lemma WrapMultiple(x: int, k: int)
    ensures Wrap32(x + k * 0x1_0000_0000) == Wrap32(x)
  {}
}
