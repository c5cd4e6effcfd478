/** The set of server ports AWG_REMOTE allows (src/proxy.c): its parser, its
    enumeration, and the draws from it. */
module PortSet {
  import opened Bytes
  import FastRand

  const MAX_RANGES := 32
  const MAX_PORT := 65535

  type Port = x: int | 1 <= x <= 65535 witness 1

  datatype Range = Range(lo: Port, hi: Port)

  datatype PortSet = PortSet(ranges: seq<Range>, total: nat)

  // ---- The language of port lists ----

  predicate IsDigit(c: char) {
    '0' <= c <= '9'
  }

  function Digit(c: char): (d: nat)
    requires IsDigit(c)
    ensures d <= 9
  {
    c as int - '0' as int
  }

  /** s[a..b] consists of digits. */
  predicate Digits(s: string, a: nat, b: nat)
    requires b <= |s|
  {
    forall i :: a <= i < b ==> IsDigit(s[i])
  }

  /** The number s[a..b] spells. */
  function Decimal(s: string, a: nat, b: nat): (v: nat)
    requires a <= b <= |s| && Digits(s, a, b)
    decreases b
  {
    if a == b then 0 else 10 * Decimal(s, a, b - 1) + Digit(s[b - 1])
  }

  /** s[a..b] spells port v; leading zeros are fine. */
  predicate SpellsPort(s: string, a: nat, b: nat, v: int) {
    a < b <= |s| && Digits(s, a, b) && 1 <= Decimal(s, a, b) <= MAX_PORT && v == Decimal(s, a, b)
  }

  /** s[a..b] spells one port, or an ordered range of them. */
  ghost predicate SpellsRange(s: string, a: nat, b: nat, r: Range) {
    || (SpellsPort(s, a, b, r.lo) && r.hi == r.lo)
    || (r.lo <= r.hi && b <= |s|
        && exists k: nat :: a <= k < b && s[k] == '-' && SpellsPort(s, a, k, r.lo) && SpellsPort(s, k + 1, b, r.hi))
  }

  /** The end of the token that starts at q: the next comma, or the end. */
  function TokenEnd(s: string, q: nat): (e: nat)
    requires q <= |s|
    ensures q <= e <= |s| && (e < |s| ==> s[e] == ',')
    ensures forall i :: q <= i < e ==> s[i] != ','
    decreases |s| - q
  {
    if q == |s| || s[q] == ',' then q else TokenEnd(s, q + 1)
  }

  /** From q on, s is a comma list of ranges spelling rs. */
  ghost predicate SpellsList(s: string, q: nat, rs: seq<Range>)
    requires q <= |s|
    decreases |s| - q
  {
    var e := TokenEnd(s, q);
    && |rs| > 0 && SpellsRange(s, q, e, rs[0])
    && if e == |s| then |rs| == 1 else SpellsList(s, e + 1, rs[1..])
  }

  // ---- The parser ----

  /** Where the run of digits that starts at q ends. */
  function DigitsEnd(s: string, q: nat): (e: nat)
    requires q <= |s|
    ensures q <= e <= |s| && (e < |s| ==> !IsDigit(s[e]))
    ensures Digits(s, q, e)
    decreases |s| - q
  {
    if q == |s| || !IsDigit(s[q]) then q else DigitsEnd(s, q + 1)
  }

  lemma {:induction false} DecimalGrows(s: string, a: nat, m: nat, b: nat)
    requires a <= m <= b <= |s| && Digits(s, a, b)
    ensures Decimal(s, a, m) <= Decimal(s, a, b)
    decreases b - m
  {
    if m == b {
    } else {
      DecimalGrows(s, a, m, b - 1);
    }
  }

  lemma {:induction false} DigitsEndUnique(s: string, q: nat, e: nat)
    requires q <= e <= |s| && Digits(s, q, e) && (e < |s| ==> !IsDigit(s[e]))
    ensures DigitsEnd(s, q) == e
    decreases e - q
  {
    if q == e {
    } else {
      DigitsEndUnique(s, q + 1, e);
    }
  }

  lemma {:induction false} TokenEndUnique(s: string, q: nat, e: nat)
    requires q <= e <= |s| && (forall i :: q <= i < e ==> s[i] != ',') && (e == |s| || s[e] == ',')
    ensures TokenEnd(s, q) == e
    decreases e - q
  {
    if q == e {
    } else {
      TokenEndUnique(s, q + 1, e);
    }
  }

  /** parse_port_num: the run of digits at q, if it spells a port. */
  method ParsePort(s: string, q: nat) returns (ok: bool, v: nat, e: nat)
    requires q <= |s|
    ensures ok ==> e == DigitsEnd(s, q) && SpellsPort(s, q, e, v)
    ensures !ok ==> forall u :: !SpellsPort(s, q, DigitsEnd(s, q), u)
  {
    v, e := 0, q;
    while e < |s| && IsDigit(s[e])
      invariant q <= e <= |s| && Digits(s, q, e)
      invariant v == Decimal(s, q, e) <= MAX_PORT
    {
      v := v * 10 + Digit(s[e]);
      e := e + 1;
      if v > MAX_PORT {
        DigitsPrefix(s, q, e);
        DecimalGrows(s, q, e, DigitsEnd(s, q));
        return false, 0, 0;
      }
    }
    DigitsEndUnique(s, q, e);
    ok := e > q && v != 0;
  }

  lemma {:induction false} DigitsPrefix(s: string, q: nat, e: nat)
    requires q <= e <= |s| && Digits(s, q, e)
    ensures e <= DigitsEnd(s, q)
    decreases e - q
  {
    if q == e {
    } else {
      DigitsPrefix(s, q + 1, e);
    }
  }

  /** What the parser goes by: the digits at q, and the digits behind a dash
      that follows them, up to the end of the token. */
  predicate Seen(s: string, q: nat, r: Range)
    requires q <= |s|
  {
    var d := DigitsEnd(s, q);
    && SpellsPort(s, q, d, r.lo)
    && if d < |s| && s[d] == '-' then
         SpellsPort(s, d + 1, DigitsEnd(s, d + 1), r.hi) && DigitsEnd(s, d + 1) == TokenEnd(s, q) && r.lo <= r.hi
       else d == TokenEnd(s, q) && r.hi == r.lo
  }

  /** It decides the token: no other reading of it exists. */
  lemma SeenExact(s: string, q: nat, r: Range)
    requires q <= |s|
    ensures SpellsRange(s, q, TokenEnd(s, q), r) <==> Seen(s, q, r)
  {
    hide Decimal, TokenEnd, DigitsEnd;
    var e, d := TokenEnd(s, q), DigitsEnd(s, q);
    if SpellsPort(s, q, e, r.lo) && r.hi == r.lo {
      DigitsEndUnique(s, q, e);
    } else if SpellsRange(s, q, e, r) {
      var k: nat :| q <= k < e && s[k] == '-' && SpellsPort(s, q, k, r.lo) && SpellsPort(s, k + 1, e, r.hi);
      DigitsEndUnique(s, q, k);
      DigitsEndUnique(s, k + 1, e);
    }
  }

  /** One token: digits, an optional dash and more digits. The caller takes it
      only if it ends at a comma or at the end of the string. */
  method ParseRange(s: string, q: nat) returns (ok: bool, r: Range, e: nat)
    requires q <= |s|
    ensures ok ==> q <= e <= |s|
    ensures ok && (e == |s| || s[e] == ',') ==>
              e == TokenEnd(s, q) && SpellsRange(s, q, e, r) && forall u :: SpellsRange(s, q, e, u) ==> u == r
    ensures !(ok && (e == |s| || s[e] == ',')) ==> forall u :: !SpellsRange(s, q, TokenEnd(s, q), u)
  {
    hide Decimal, TokenEnd, DigitsEnd, SpellsRange;
    forall u {
      SeenExact(s, q, u);
    }
    r, e := Range(1, 1), q;
    var lo, hi, d;
    ok, lo, d := ParsePort(s, q);
    if !ok {
      return;
    }
    hi, e := lo, d;
    if d < |s| && s[d] == '-' {
      ok, hi, e := ParsePort(s, d + 1);
      if !ok {
        return;
      }
    }
    if hi < lo {
      return false, r, e;
    }
    r := Range(lo, hi);
    if e == |s| || s[e] == ',' {
      TokenEndUnique(s, q, e);
      assert Seen(s, q, r);
    }
  }

  /** Ports of a list of ranges, the ranges in order. */
  function SizeOf(r: Range): (n: nat) {
    if r.lo <= r.hi then r.hi as int - r.lo as int + 1 else 0
  }

  function Total(rs: seq<Range>): (n: nat) {
    if |rs| == 0 then 0 else Total(rs[..|rs| - 1]) + SizeOf(rs[|rs| - 1])
  }

  /** A set the parser may produce. */
  ghost predicate Wellformed(ps: PortSet) {
    && 1 <= |ps.ranges| <= 32
    && (forall i :: 0 <= i < |ps.ranges| ==> ps.ranges[i].lo <= ps.ranges[i].hi)
    && ps.total == Total(ps.ranges)
  }

  /** What the rest of the list must be once a prefix has been read. */
  ghost predicate ReadSoFar(s: string, q: nat, got: seq<Range>)
    requires q <= |s|
  {
    forall all: seq<Range> :: SpellsList(s, 0, all) <==> |all| > |got| && all[..|got|] == got && SpellsList(s, q, all[|got|..])
  }

  /** Reading one more token. */
  lemma ReadOne(s: string, q: nat, got: seq<Range>, r: Range)
    requires q <= |s| && ReadSoFar(s, q, got)
    requires var e := TokenEnd(s, q); SpellsRange(s, q, e, r) && forall u :: SpellsRange(s, q, e, u) ==> u == r
    ensures
      var e := TokenEnd(s, q);
      && (e == |s| ==> forall all: seq<Range> :: SpellsList(s, 0, all) <==> all == got + [r])
      && (e < |s| ==> ReadSoFar(s, e + 1, got + [r]))
  {
    hide SpellsList, SpellsRange, TokenEnd;
    var e, n := TokenEnd(s, q), |got|;
    forall all: seq<Range>
      ensures e == |s| ==> (SpellsList(s, 0, all) <==> all == got + [r])
      ensures e < |s| ==>
                (SpellsList(s, 0, all) <==> |all| > n + 1 && all[..n + 1] == got + [r] && SpellsList(s, e + 1, all[n + 1..]))
    {
      ReadOneOf(s, q, got, r, all);
    }
  }

  lemma ReadOneOf(s: string, q: nat, got: seq<Range>, r: Range, all: seq<Range>)
    requires q <= |s|
    requires SpellsList(s, 0, all) <==> |all| > |got| && all[..|got|] == got && SpellsList(s, q, all[|got|..])
    requires var e := TokenEnd(s, q); SpellsRange(s, q, e, r) && forall u :: SpellsRange(s, q, e, u) ==> u == r
    ensures
      var e, n := TokenEnd(s, q), |got|;
      && (e == |s| ==> (SpellsList(s, 0, all) <==> all == got + [r]))
      && (e < |s| ==>
            (SpellsList(s, 0, all) <==> |all| > n + 1 && all[..n + 1] == got + [r] && SpellsList(s, e + 1, all[n + 1..])))
  {
    hide SpellsList, SpellsRange, TokenEnd;
    var e, n := TokenEnd(s, q), |got|;
    if |all| > n {
      ListHead(s, q, all[n..], r);
      assert all[n..][0] == all[n] && all[n..][1..] == all[n + 1..];
      assert all[..n + 1] == all[..n] + [all[n]];
      assert all[..n + 1] == got + [r] <==> all[..n] == got && all[n] == r;
      assert |all| == n + 1 ==> all[..n + 1] == all && all[n + 1..] == [];
      if e < |s| {
        ListNotEmpty(s, e + 1);
      }
    }
  }

  lemma ListNotEmpty(s: string, q: nat)
    requires q <= |s|
    ensures !SpellsList(s, q, [])
  {}

  /** A list read from q on starts with the one range its first token spells. */
  lemma ListHead(s: string, q: nat, rest: seq<Range>, r: Range)
    requires q <= |s| && |rest| > 0
    requires var e := TokenEnd(s, q); SpellsRange(s, q, e, r) && forall u :: SpellsRange(s, q, e, u) ==> u == r
    ensures
      var e := TokenEnd(s, q);
      SpellsList(s, q, rest) <==> rest[0] == r && if e == |s| then |rest| == 1 else SpellsList(s, e + 1, rest[1..])
  {
    hide SpellsRange;
  }

  /** parse_port_set: accepts exactly the comma lists of one to 32 ordered
      ranges, and keeps the ranges and their total size. */
  method Parse(s: string) returns (ok: bool, ps: PortSet)
    ensures ok ==> Wellformed(ps) && SpellsList(s, 0, ps.ranges)
    ensures !ok ==> forall rs: seq<Range> :: SpellsList(s, 0, rs) ==> |rs| > 32
    ensures ok ==> forall rs: seq<Range> :: SpellsList(s, 0, rs) ==> rs == ps.ranges
  {
    hide SpellsList, SpellsRange, TokenEnd, DigitsEnd, ReadSoFar, Total, SizeOf;
    TotalNone();
    var got: seq<Range>, total := [], 0;
    ps := PortSet([], 0);
    var q := 0;
    ReadNothing(s);
    while true
      invariant q <= |s| && ReadSoFar(s, q, got) && total == Total(got) && |got| <= MAX_RANGES
      invariant forall i :: 0 <= i < |got| ==> got[i].lo <= got[i].hi
      decreases |s| - q
    {
      var parsed, r, e := ParseRange(s, q);
      if !parsed || (e < |s| && s[e] != ',') {
        NoToken(s, q, got);
        return false, ps;
      }
      OrderedRange(s, q, e, r);
      ReadOne(s, q, got, r);
      if |got| >= MAX_RANGES {
        TooLong(s, q, e, got, r);
        return false, ps;
      }
      TotalSnoc(got, r);
      got := got + [r];
      total := total + (r.hi as int - r.lo as int + 1);
      if e == |s| {
        return true, PortSet(got, total);
      }
      q := e + 1;
    }
  }

  lemma TotalNone()
    ensures Total([]) == 0
  {}

  lemma TotalSnoc(rs: seq<Range>, r: Range)
    requires r.lo <= r.hi
    ensures Total(rs + [r]) == Total(rs) + (r.hi as int - r.lo as int + 1)
  {
    assert (rs + [r])[..|rs|] == rs;
  }

  lemma ReadNothing(s: string)
    ensures ReadSoFar(s, 0, [])
  {
    assert forall all: seq<Range> :: SpellsList(s, 0, all) ==> |all| > 0;
    assert forall all: seq<Range> :: all[0..] == all;
  }

  lemma OrderedRange(s: string, a: nat, b: nat, r: Range)
    requires SpellsRange(s, a, b, r)
    ensures r.lo <= r.hi
  {}

  lemma NoToken(s: string, q: nat, got: seq<Range>)
    requires q <= |s| && ReadSoFar(s, q, got) && forall u :: !SpellsRange(s, q, TokenEnd(s, q), u)
    ensures forall all: seq<Range> :: !SpellsList(s, 0, all)
  {
    assert forall rest: seq<Range> :: !SpellsList(s, q, rest);
  }

  lemma TooLong(s: string, q: nat, e: nat, got: seq<Range>, r: Range)
    requires q <= |s| && e == TokenEnd(s, q) && |got| >= MAX_RANGES
    requires e == |s| ==> forall all: seq<Range> :: SpellsList(s, 0, all) <==> all == got + [r]
    requires e < |s| ==> ReadSoFar(s, e + 1, got + [r])
    ensures forall rs: seq<Range> :: SpellsList(s, 0, rs) ==> |rs| > MAX_RANGES
  {}

  // ---- Enumeration and draws ----

  function PortsOf(r: Range): (s: seq<int>)
    ensures |s| == SizeOf(r)
  {
    seq(SizeOf(r), i requires 0 <= i => r.lo as int + i)
  }

  /** Every port of the set, the ranges in order. */
  function Ports(rs: seq<Range>): (s: seq<int>) {
    if |rs| == 0 then [] else Ports(rs[..|rs| - 1]) + PortsOf(rs[|rs| - 1])
  }

  lemma {:induction false} PortsCount(rs: seq<Range>)
    ensures |Ports(rs)| == Total(rs)
  {
    if |rs| == 0 {
    } else {
      PortsCount(rs[..|rs| - 1]);
    }
  }

  /** A range contributes its ports right behind those of the ranges before. */
  lemma {:induction false} PortsAt(rs: seq<Range>, k: nat, j: nat)
    requires k < |rs| && j < SizeOf(rs[k])
    ensures Total(rs[..k]) + j < |Ports(rs)| && Ports(rs)[Total(rs[..k]) + j] == rs[k].lo as int + j
  {
    PortsCount(rs);
    var front := rs[..|rs| - 1];
    PortsCount(front);
    if k == |rs| - 1 {
      assert rs[..k] == front;
    } else {
      PortsAt(front, k, j);
      assert front[..k] == rs[..k];
    }
  }

  /** portset_at: the ranges are counted through until idx falls inside one;
      on a parsed set the loop always returns, the line behind it is dead. */
  method PortAt(ps: PortSet, idx: nat) returns (port: int)
    requires Wellformed(ps) && idx < ps.total
    ensures idx < |Ports(ps.ranges)| && port == Ports(ps.ranges)[idx]
  {
    hide Ports;
    var rs, left, i := ps.ranges, idx, 0;
    assert rs[..|rs|] == rs;
    while i < |rs|
      invariant 0 <= i <= |rs|
      invariant left == idx - Total(rs[..i]) && left >= 0
    {
      var size := rs[i].hi as int - rs[i].lo as int + 1;
      if left < size {
        PortsAt(rs, i, left);
        return rs[i].lo as int + left;
      }
      left := left - size;
      assert rs[..i + 1][..i] == rs[..i];
      i := i + 1;
    }
    assert false;
  }

  lemma {:induction false} TotalBounded(rs: seq<Range>)
    ensures Total(rs) <= |rs| * MAX_PORT
  {
    if |rs| == 0 {
    } else {
      TotalBounded(rs[..|rs| - 1]);
    }
  }

  lemma {:induction false} TotalPositive(rs: seq<Range>)
    requires |rs| > 0 && forall i :: 0 <= i < |rs| ==> rs[i].lo <= rs[i].hi
    ensures Total(rs) > 0
  {}

  /** A port belongs to the set exactly when one of its ranges spans it. */
  lemma {:induction false} InPortsIff(rs: seq<Range>, port: int)
    ensures port in Ports(rs) <==> exists i :: 0 <= i < |rs| && rs[i].lo as int <= port <= rs[i].hi as int
  {
    if |rs| == 0 {
    } else {
      var front, last := rs[..|rs| - 1], rs[|rs| - 1];
      InPortsIff(front, port);
      if last.lo as int <= port <= last.hi as int {
        assert PortsOf(last)[port - last.lo as int] == port;
      }
      if i :| 0 <= i < |rs| && rs[i].lo as int <= port <= rs[i].hi as int {
        if i < |rs| - 1 {
          assert front[i] == rs[i];
        }
      }
      if i :| 0 <= i < |front| && front[i].lo as int <= port <= front[i].hi as int {
        assert rs[i] == front[i];
      }
    }
  }

  /** A drawn port and the generator's state behind the draw. */
  datatype Drawn = Drawn(port: int, s: Long)

  function DrawFrom(ps: PortSet, s: Long): (d: Drawn)
    requires Wellformed(ps)
    ensures d.port in Ports(ps.ranges)
  {
    TotalPositive(ps.ranges);
    PortsCount(ps.ranges);
    var v := FastRand.Step(s);
    Drawn(Ports(ps.ranges)[v as int % ps.total], v)
  }

  /** A draw over the ports, with one redraw off `avoid`. */
  function PickFrom(ps: PortSet, s: Long, avoid: int): (d: Drawn)
    requires Wellformed(ps)
    ensures d.port in Ports(ps.ranges)
  {
    var d := DrawFrom(ps, s);
    if d.port == avoid && ps.total > 1 then DrawFrom(ps, d.s) else d
  }

  /** The first of up to `tries` picks that is neither the current port nor a
      silent one; the current one when none is. */
  function RotateFrom(ps: PortSet, s: Long, cur: int, bad: seq<int>, tries: nat): (d: Drawn)
    requires Wellformed(ps)
    ensures d.port == cur || (d.port in Ports(ps.ranges) && d.port !in bad)
    decreases tries
  {
    if tries == 0 then Drawn(cur, s)
    else
      var d := PickFrom(ps, s, cur);
      if d.port == cur || d.port in bad then RotateFrom(ps, d.s, cur, bad, tries - 1) else d
  }

  /** A pick is the first draw unless that is the port to avoid and there are
      others, and then the second, whatever it is. */
  lemma PickMeans(ps: PortSet, s: Long, avoid: int)
    requires Wellformed(ps)
    ensures ps.total == |Ports(ps.ranges)| > 0
    ensures
      var a := FastRand.Step(s);
      var b := FastRand.Step(a);
      var first := Ports(ps.ranges)[a as int % ps.total];
      PickFrom(ps, s, avoid)
      == if first != avoid || ps.total == 1 then Drawn(first, a) else Drawn(Ports(ps.ranges)[b as int % ps.total], b)
  {
    hide FastRand.Step, Ports, Total;
    TotalPositive(ps.ranges);
    PortsCount(ps.ranges);
  }

  /** The k-th pick in a row, and the state before it. */
  function NthPick(ps: PortSet, s: Long, avoid: int, k: nat): (d: Drawn)
    requires Wellformed(ps)
    decreases k
  {
    var d := PickFrom(ps, s, avoid);
    if k == 0 then d else NthPick(ps, d.s, avoid, k - 1)
  }

  predicate Useless(d: Drawn, cur: int, bad: seq<int>) {
    d.port == cur || d.port in bad
  }

  /** The rotation takes the first of its picks that will do, the k-th; it stays
      where it is only when none of them will. */
  lemma {:induction false} RotateTakesFirst(ps: PortSet, s: Long, cur: int, bad: seq<int>, tries: nat) returns (k: nat)
    requires Wellformed(ps)
    ensures k <= tries && forall j: nat :: j < k ==> Useless(NthPick(ps, s, cur, j), cur, bad)
    ensures
      var d := RotateFrom(ps, s, cur, bad, tries);
      if k == tries then d.port == cur
      else d == NthPick(ps, s, cur, k) && !Useless(d, cur, bad)
    decreases tries
  {
    hide PickFrom, Wellformed;
    k := 0;
    if tries == 0 {
    } else {
      var d := PickFrom(ps, s, cur);
      if Useless(d, cur, bad) {
        var n := RotateTakesFirst(ps, d.s, cur, bad, tries - 1);
        k := n + 1;
        forall j: nat | j < k
          ensures Useless(NthPick(ps, s, cur, j), cur, bad)
        {
          if j > 0 {
            assert NthPick(ps, s, cur, j) == NthPick(ps, d.s, cur, j - 1);
          }
        }
      }
    }
  }

  /** portset_at of a fastrand_intn draw. */
  method DrawPort(ps: PortSet, rng: FastRand.Generator) returns (port: int)
    requires Wellformed(ps)
    modifies rng
    ensures Drawn(port, rng.s) == DrawFrom(ps, old(rng.s))
  {
    hide FastRand.Step, Ports, Total;
    TotalPositive(ps.ranges);
    PortsCount(ps.ranges);
    var v := rng.U64();
    port := PortAt(ps, v as int % ps.total);
  }

  /** portset_pick: a port of the set, the one the generator's state picks. */
  method Pick(ps: PortSet, rng: FastRand.Generator, avoid: int) returns (port: int)
    requires Wellformed(ps)
    modifies rng
    ensures port in Ports(ps.ranges) && Drawn(port, rng.s) == PickFrom(ps, old(rng.s), avoid)
  {
    hide FastRand.Step, Ports, Total, DrawFrom;
    port := DrawPort(ps, rng);
    if port == avoid && ps.total > 1 {
      port := DrawPort(ps, rng);
    }
  }

  /** rot_pick: up to four draws for a port other than the current one and off
      the list of silent ones; the current one when none turns up. */
  method RotatePick(ps: PortSet, rng: FastRand.Generator, cur: int, bad: seq<int>) returns (port: int)
    requires Wellformed(ps)
    modifies rng
    ensures port == cur || (port in Ports(ps.ranges) && port !in bad)
    ensures Drawn(port, rng.s) == RotateFrom(ps, old(rng.s), cur, bad, 4)
  {
    hide PickFrom, Ports, Wellformed;
    var t := 0;
    while t < 4
      invariant 0 <= t <= 4
      invariant RotateFrom(ps, rng.s, cur, bad, 4 - t) == RotateFrom(ps, old(rng.s), cur, bad, 4)
      decreases 4 - t
    {
      var c := Pick(ps, rng, cur);
      var skip, i := c == cur, 0;
      while i < |bad| && !skip
        invariant 0 <= i <= |bad|
        invariant !skip ==> c != cur && c !in bad[..i]
        invariant skip ==> c == cur || c in bad
      {
        skip := bad[i] == c;
        i := i + 1;
      }
      if !skip {
        assert bad[..|bad|] == bad;
        return c;
      }
      t := t + 1;
    }
    port := cur;
  }
}
