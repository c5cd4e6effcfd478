/** Writing a port list out, and reading it back (parse_port_set of
    src/proxy.c). */
module PortSpelling {
  import opened Bytes
  import opened PortSet

  /** A number in decimal, without leading zeros. */
  function Print(v: nat): (s: string)
    ensures |s| > 0
  {
    (if v < 10 then "" else Print(v / 10)) + ["0123456789"[v % 10]]
  }

  /** The digits "0" to "9" are worth 0 to 9. */
  lemma DigitValues(d: nat)
    requires d < 10
    ensures IsDigit("0123456789"[d]) && Digit("0123456789"[d]) == d
  {}

  lemma {:induction false} PrintDigits(v: nat)
    ensures Digits(Print(v), 0, |Print(v)|) && Decimal(Print(v), 0, |Print(v)|) == v
  {
    var s := Print(v);
    DigitValues(v % 10);
    if v < 10 {
      assert s == ["0123456789"[v % 10]];
      assert Decimal(s, 0, 0) == 0;
    } else {
      var front := Print(v / 10);
      PrintDigits(v / 10);
      assert s == front + ["0123456789"[v % 10]];
      SameDecimal(front, 0, |front|, s, 0);
    }
  }

  /** Digits are worth the same wherever they stand. */
  lemma {:induction false} SameDecimal(s: string, a: nat, b: nat, u: string, at: nat)
    requires a <= b <= |s| && Digits(s, a, b) && at + (b - a) <= |u|
    requires u[at..at + (b - a)] == s[a..b]
    ensures Digits(u, at, at + (b - a)) && Decimal(u, at, at + (b - a)) == Decimal(s, a, b)
    decreases b
  {
    forall i | at <= i < at + (b - a)
      ensures IsDigit(u[i])
    {
      assert u[i] == u[at..at + (b - a)][i - at] == s[a..b][i - at] == s[a + (i - at)];
    }
    if a == b {
    } else {
      var n := b - a;
      SliceFront(u, at, at + n);
      SliceFront(s, a, b);
      SameDecimal(s, a, b - 1, u, at);
    }
  }

  lemma SliceFront(s: string, a: nat, b: nat)
    requires a < b <= |s|
    ensures s[a..b - 1] == s[a..b][..b - a - 1] && s[b - 1] == s[a..b][b - a - 1]
  {}

  /** A range, and a list of them, as AWG_REMOTE spells them. */
  function RenderRange(r: Range): (s: string) {
    Print(r.lo as int) + "-" + Print(r.hi as int)
  }

  function Render(rs: seq<Range>): (s: string)
    requires |rs| > 0
  {
    if |rs| == 1 then RenderRange(rs[0]) else RenderRange(rs[0]) + "," + Render(rs[1..])
  }

  lemma PortSpelled(s: string, q: nat, v: Port)
    requires q + |Print(v)| <= |s| && s[q..q + |Print(v)|] == Print(v)
    ensures SpellsPort(s, q, q + |Print(v)|, v)
  {
    hide Print, Decimal;
    var p := Print(v);
    PrintDigits(v);
    assert p[0..|p|] == p;
    SameDecimal(p, 0, |p|, s, q);
  }

  lemma RangeSpelled(s: string, q: nat, r: Range)
    requires r.lo <= r.hi && q + |RenderRange(r)| <= |s| && s[q..q + |RenderRange(r)|] == RenderRange(r)
    ensures SpellsRange(s, q, q + |RenderRange(r)|, r)
    ensures forall i :: q <= i < q + |RenderRange(r)| ==> s[i] != ','
  {
    hide Print, SpellsPort;
    var lo, hi, t := Print(r.lo as int), Print(r.hi as int), RenderRange(r);
    var k, e := q + |lo|, q + |t|;
    assert s[q..k] == s[q..e][..|lo|] && t[..|lo|] == lo;
    assert s[k] == s[q..e][|lo|] && t[|lo|] == '-';
    assert s[k + 1..e] == s[q..e][|lo| + 1..] && t[|lo| + 1..] == hi;
    PortSpelled(s, q, r.lo);
    PortSpelled(s, k + 1, r.hi);
    assert s[k] == '-' && k + 1 + |hi| == e;
    NoComma(s, q, k, r.lo);
    NoComma(s, k + 1, e, r.hi);
  }

  lemma NoComma(s: string, a: nat, b: nat, v: int)
    requires SpellsPort(s, a, b, v)
    ensures forall i :: a <= i < b ==> s[i] != ','
  {
    forall i | a <= i < b
      ensures s[i] != ','
    {
      assert IsDigit(s[i]);
    }
  }

  /** What is written out is read back: the rendering of any list of ordered
      ranges spells that list. */
  lemma {:induction false} RenderedIsSpelled(s: string, q: nat, rs: seq<Range>)
    requires |rs| > 0 && (forall i :: 0 <= i < |rs| ==> rs[i].lo <= rs[i].hi)
    requires q <= |s| && s[q..] == Render(rs)
    ensures SpellsList(s, q, rs)
    decreases |rs|
  {
    hide SpellsRange, RenderRange, TokenEnd, Render;
    var t := RenderRange(rs[0]);
    RenderUnfold(rs);
    TokenThere(s, q, t, if |rs| == 1 then "" else "," + Render(rs[1..]));
    RangeSpelled(s, q, rs[0]);
    TokenEndUnique(s, q, q + |t|);
    if |rs| == 1 {
    } else {
      RenderedIsSpelled(s, q + |t| + 1, rs[1..]);
    }
  }

  lemma RenderUnfold(rs: seq<Range>)
    requires |rs| > 0
    ensures Render(rs) == RenderRange(rs[0]) + if |rs| == 1 then "" else "," + Render(rs[1..])
  {
    hide RenderRange;
    assert RenderRange(rs[0]) + "" == RenderRange(rs[0]);
  }

  /** A token at q, and what stands behind it. */
  lemma TokenThere(s: string, q: nat, t: string, rest: string)
    requires q <= |s| && s[q..] == t + rest
    ensures q + |t| <= |s| && s[q..q + |t|] == t && (rest == "" ==> q + |t| == |s|)
    ensures |rest| > 0 ==> q + |t| < |s| && s[q + |t|] == rest[0] && s[q + |t| + 1..] == rest[1..]
  {
    assert |s| == q + |t| + |rest|;
    assert s[q..q + |t|] == s[q..][..|t|];
    if |rest| > 0 {
      assert s[q + |t|] == s[q..][|t|];
      assert s[q + |t| + 1..] == s[q..][|t| + 1..];
    }
  }

  /** So the parser gives back every set of one to 32 ordered ranges. */
  method ParseRendered(rs: seq<Range>) returns (ok: bool, ps: PortSet)
    requires 1 <= |rs| <= 32 && forall i :: 0 <= i < |rs| ==> rs[i].lo <= rs[i].hi
    ensures ok && ps.ranges == rs && ps.total == Total(rs)
  {
    hide SpellsList, Render;
    var s := Render(rs);
    assert s[0..] == s;
    RenderedIsSpelled(s, 0, rs);
    ok, ps := Parse(s);
  }
}
