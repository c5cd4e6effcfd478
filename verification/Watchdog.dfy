/** The silence watchdog of the main loop (src/proxy.c), with one profile: a
    few counters, and what they amount to over the whole history of ticks. */
module Watchdog {

  /** What one tick found: a packet from the remote, a handshake init from the
      client. */
  datatype Event = Event(rx: bool, init: bool)

  /** checks: ticks of AWG_TIMEOUT; hop: ticks per port, 0 for a single port. */
  datatype Limits = Limits(checks: nat, hop: nat)

  predicate WellFormed(l: Limits) {
    l.checks > 0
  }

  /** AWG_TIMEOUT in 5-second ticks, and the port-hop limit. */
  function LimitsFor(timeout: int, ports: nat): (l: Limits)
    ensures WellFormed(l)
  {
    var secs := if timeout > 0 then timeout else 180;
    Limits(if secs / 5 < 1 then 1 else secs / 5, if ports > 1 then 3 else 0)
  }

  // ---- The history ----

  /** Hops are on, and fit inside the timeout. */
  predicate Hopping(l: Limits) {
    0 < l.hop <= l.checks
  }

  function Threshold(l: Limits): (n: nat) {
    if Hopping(l) then l.hop else l.checks
  }

  predicate InitSince(h: seq<Event>, at: nat) {
    exists i :: at <= i < |h| && h[i].init
  }

  /** The tick the present silence started with: the one after the last remote
      packet or the last trigger. */
  function QuietFrom(l: Limits, h: seq<Event>): (q: nat)
    ensures q <= |h|
    decreases |h|, 1
  {
    if |h| == 0 then 0
    else if h[|h| - 1].rx || Fires(l, h) then |h|
    else QuietFrom(l, h[..|h| - 1])
  }

  /** The last tick of h triggers: nothing came in it, the silence it ends has
      lasted long enough, and an init went unanswered in it. */
  predicate Fires(l: Limits, h: seq<Event>)
    decreases |h|, 0
  {
    && |h| > 0 && !h[|h| - 1].rx
    && var q := QuietFrom(l, h[..|h| - 1]);
       |h| - q >= Threshold(l) && InitSince(h, q)
  }

  /** Triggers in a row that have not yet added up to the timeout. */
  function Hops(l: Limits, h: seq<Event>): (n: nat) {
    if |h| == 0 || h[|h| - 1].rx then 0
    else
      var before := Hops(l, h[..|h| - 1]);
      if !Fires(l, h) then before
      else if Hopping(l) && (before + 1) * l.hop < l.checks then before + 1
      else 0
  }

  /** The trigger also drops the learned address family. */
  predicate Resets(l: Limits, h: seq<Event>) {
    Fires(l, h) && (Hopping(l) ==> (Hops(l, h[..|h| - 1]) + 1) * l.hop >= l.checks)
  }

  /** Hops that cover the timeout. */
  function HopsPerTimeout(l: Limits): (k: nat)
    requires Hopping(l)
  {
    (l.checks + l.hop - 1) / l.hop
  }

  lemma {:induction false} HopsStayBelow(l: Limits, h: seq<Event>)
    requires WellFormed(l)
    ensures Hopping(l) ==> Hops(l, h) * l.hop < l.checks
    ensures !Hopping(l) ==> Hops(l, h) == 0
  {
    if |h| == 0 {
    } else {
      HopsStayBelow(l, h[..|h| - 1]);
    }
  }

  /** The triggers since the last remote packet. */
  function Triggers(l: Limits, h: seq<Event>): (n: nat) {
    if |h| == 0 || h[|h| - 1].rx then 0
    else Triggers(l, h[..|h| - 1]) + if Fires(l, h) then 1 else 0
  }

  /** The counter of hops is the number of triggers, round and round the hops
      that cover the timeout. */
  lemma {:induction false} HopsCountTriggers(l: Limits, h: seq<Event>)
    requires WellFormed(l) && Hopping(l)
    ensures HopsPerTimeout(l) > 0 && Hops(l, h) == Triggers(l, h) % HopsPerTimeout(l)
    decreases |h|
  {
    hide Fires, HopsPerTimeout;
    var k := HopsPerTimeout(l);
    CoversAt(l, 0);
    if |h| == 0 || h[|h| - 1].rx {
    } else {
      var front := h[..|h| - 1];
      HopsCountTriggers(l, front);
      HopsStayBelow(l, front);
      CoversAt(l, Hops(l, front));
      NextRound(Triggers(l, front), k);
    }
  }

  lemma NextRound(n: nat, k: nat)
    requires k > 0
    ensures (n + 1) % k == if n % k + 1 == k then 0 else n % k + 1
  {
    var q, r := n / k, n % k;
    assert n == q * k + r;
    if r + 1 == k {
      assert n + 1 == (q + 1) * k;
      Remainder(q + 1, 0, k);
    } else {
      Remainder(q, r + 1, k);
    }
  }

  lemma Remainder(q: nat, r: nat, k: nat)
    requires r < k
    ensures (q * k + r) % k == r
  {
    var n := q * k + r;
    var d := n / k - q;
    assert n == (n / k) * k + n % k;
    assert d * k == r - n % k;
    if d >= 1 {
      MonotoneProduct(1, d, k);
    } else if d <= -1 {
      MonotoneProduct(1, -d, k);
    }
  }

  /** The family is dropped at exactly every k-th trigger of an unbroken
      silence, k hops being what covers the timeout; with a single port, or a
      hop longer than the timeout, at every trigger. */
  lemma ResetsEveryTimeout(l: Limits, h: seq<Event>)
    requires WellFormed(l) && Fires(l, h)
    ensures Hopping(l) ==> HopsPerTimeout(l) > 0 && (Resets(l, h) <==> Triggers(l, h) % HopsPerTimeout(l) == 0)
    ensures !Hopping(l) ==> Resets(l, h)
  {
    if Hopping(l) {
      var front := h[..|h| - 1];
      assert Triggers(l, h) == Triggers(l, front) + 1;
      hide Fires, Hops, HopsPerTimeout, Triggers;
      HopsCountTriggers(l, front);
      HopsStayBelow(l, front);
      CoversAt(l, Hops(l, front));
      NextRound(Triggers(l, front), HopsPerTimeout(l));
    }
  }

  /** The first multiple of the hop that covers the timeout. */
  lemma CoversAt(l: Limits, n: nat)
    requires WellFormed(l) && Hopping(l) && n * l.hop < l.checks
    ensures HopsPerTimeout(l) > n && ((n + 1) * l.hop >= l.checks <==> n + 1 == HopsPerTimeout(l))
  {
    var k := HopsPerTimeout(l);
    CeilingOf(l.checks, l.hop, k);
    hide HopsPerTimeout;
    if n + 1 < k {
      MonotoneProduct(n + 1, k - 1, l.hop);
    } else if n + 1 > k {
      MonotoneProduct(k, n, l.hop);
    }
  }

  lemma CeilingOf(n: nat, d: nat, k: nat)
    requires d > 0 && n > 0 && k == (n + d - 1) / d
    ensures k > 0 && (k - 1) * d < n <= k * d
  {
    var r := (n + d - 1) % d;
    assert n + d - 1 == k * d + r;
    assert (k - 1) * d == k * d - d;
  }

  lemma MonotoneProduct(a: nat, b: nat, d: nat)
    requires a <= b
    ensures a * d <= b * d
  {
    assert b * d == a * d + (b - a) * d;
  }

  // ---- The counters ----

  class Counters {
    const limits: Limits
    var silentTicks: nat
    var initUnanswered: bool
    var hopRounds: nat
    ghost var history: seq<Event>

    ghost predicate Valid()
      reads this
    {
      && WellFormed(limits)
      && silentTicks == Capped(|history| - QuietFrom(limits, history), limits.checks)
      && (initUnanswered <==> InitSince(history, QuietFrom(limits, history)))
      && hopRounds == Hops(limits, history)
    }

    constructor (limits: Limits)
      requires WellFormed(limits)
      ensures Valid() && history == [] && this.limits == limits
    {
      this.limits := limits;
      silentTicks, initUnanswered, hopRounds, history := 0, false, 0, [];
    }

    /** One tick: exactly the triggers and resets the history calls for. */
    method Tick(e: Event) returns (trigger: bool, reset: bool)
      requires Valid()
      modifies this
      ensures Valid() && history == old(history) + [e]
      ensures trigger == Fires(limits, history) && reset == Resets(limits, history)
    {
      hide QuietFrom, Fires, Hops, Resets, InitSince;
      ghost var h := history + [e];
      OneMoreTick(limits, history, e);
      OneMoreHop(limits, history, e);
      trigger, reset := false, false;
      history := h;
      if e.rx {
        silentTicks := 0;
        initUnanswered := false;
        hopRounds := 0;
      } else {
        if e.init {
          initUnanswered := true;
        }
        if silentTicks < limits.checks {
          silentTicks := silentTicks + 1;
        }
        if limits.hop != 0 && initUnanswered && silentTicks >= limits.hop {
          trigger := true;
          hopRounds := hopRounds + 1;
          if hopRounds * limits.hop >= limits.checks {
            hopRounds := 0;
            reset := true;
          }
          silentTicks := 0;
          initUnanswered := false;
        } else if silentTicks >= limits.checks && initUnanswered {
          trigger := true;
          reset := true;
          silentTicks := 0;
          initUnanswered := false;
        }
      }
    }
  }

  function Capped(n: nat, cap: nat): (r: nat) {
    if n < cap then n else cap
  }

  /** The silence one tick on, in terms of the history before it. */
  lemma OneMoreTick(l: Limits, h: seq<Event>, e: Event)
    ensures
      var h', q := h + [e], QuietFrom(l, h);
      && Fires(l, h') == (!e.rx && |h| + 1 - q >= Threshold(l) && (InitSince(h, q) || e.init))
      && QuietFrom(l, h') == (if e.rx || Fires(l, h') then |h| + 1 else q)
      && (InitSince(h', QuietFrom(l, h')) <==> !e.rx && !Fires(l, h') && (InitSince(h, q) || e.init))
  {
    hide InitSince;
    assert (h + [e])[..|h|] == h;
    InitOneMore(h, e, QuietFrom(l, h));
  }

  /** The limits in seconds: AWG_TIMEOUT, 180 when unset, in whole 5-second
      ticks but at least one; 3 ticks a port when there is more than one. */
  lemma LimitsMean(timeout: int, ports: nat)
    ensures
      var l, secs := LimitsFor(timeout, ports), if timeout > 0 then timeout else 180;
      && (if secs < 5 then l.checks == 1 else 5 * l.checks <= secs < 5 * (l.checks + 1))
      && l.hop == (if ports > 1 then 3 else 0)
  {}

  /** Tick i of the history triggered. */
  predicate FiredAt(l: Limits, h: seq<Event>, i: nat) {
    i < |h| && Fires(l, h[..i + 1])
  }

  /** h has been silent since tick q: nothing came in and nothing fired since,
      and before q there is nothing, or a remote packet, or a trigger. */
  ghost predicate SilentSince(l: Limits, h: seq<Event>, q: nat) {
    && q <= |h| && (q == 0 || h[q - 1].rx || FiredAt(l, h, q - 1))
    && forall i: nat :: q <= i < |h| ==> !h[i].rx && !FiredAt(l, h, i)
  }

  lemma FiredBefore(l: Limits, h: seq<Event>, i: nat)
    requires i < |h|
    ensures i < |h| - 1 ==> FiredAt(l, h[..|h| - 1], i) == FiredAt(l, h, i)
    ensures i == |h| - 1 ==> FiredAt(l, h, i) == Fires(l, h)
  {
    hide Fires;
    assert h[..|h|] == h;
    if i < |h| - 1 {
      assert h[..|h| - 1][..i + 1] == h[..i + 1];
    }
  }

  lemma {:induction false} SilenceIsUnique(l: Limits, h: seq<Event>, q: nat)
    requires SilentSince(l, h, q)
    ensures q == QuietFrom(l, h)
    decreases |h|
  {
    hide Fires, FiredAt;
    if |h| == 0 {
    } else if q == |h| {
      FiredBefore(l, h, |h| - 1);
    } else {
      var front := h[..|h| - 1];
      FiredBefore(l, h, |h| - 1);
      if q > 0 {
        FiredBefore(l, h, q - 1);
      }
      forall i: nat | q <= i < |front|
        ensures !front[i].rx && !FiredAt(l, front, i)
      {
        FiredBefore(l, h, i);
        assert !h[i].rx;
      }
      SilenceIsUnique(l, front, q);
    }
  }

  /** A tick triggers exactly when nothing came in it and the silence it ends,
      counted from the last remote packet or trigger, has lasted the hop limit
      (where there is one and it fits the timeout) or else the whole timeout,
      and saw a client's init. */
  lemma FiresExactly(l: Limits, h: seq<Event>, q: nat)
    requires |h| > 0 && SilentSince(l, h[..|h| - 1], q)
    ensures Fires(l, h) <==>
            && !h[|h| - 1].rx
            && |h| - q >= (if 0 < l.hop <= l.checks then l.hop else l.checks)
            && exists i :: q <= i < |h| && h[i].init
  {
    SilenceIsUnique(l, h[..|h| - 1], q);
  }

  /** And there always is such a silence to count. */
  lemma {:induction false} SilenceExists(l: Limits, h: seq<Event>)
    ensures SilentSince(l, h, QuietFrom(l, h))
    decreases |h|
  {
    hide Fires, FiredAt;
    var q := QuietFrom(l, h);
    if |h| == 0 {
    } else if h[|h| - 1].rx || Fires(l, h) {
      FiredBefore(l, h, |h| - 1);
    } else {
      var front := h[..|h| - 1];
      SilenceExists(l, front);
      if q > 0 {
        FiredBefore(l, h, q - 1);
      }
      forall i: nat | q <= i < |h|
        ensures !h[i].rx && !FiredAt(l, h, i)
      {
        FiredBefore(l, h, i);
        if i < |h| - 1 {
          assert front[i] == h[i];
        }
      }
    }
  }

  /** The hops one tick on. */
  lemma OneMoreHop(l: Limits, h: seq<Event>, e: Event)
    requires WellFormed(l)
    ensures
      var h' := h + [e];
      && Hops(l, h') == (if e.rx then 0 else if !Fires(l, h') then Hops(l, h)
                         else if Hopping(l) && (Hops(l, h) + 1) * l.hop < l.checks then Hops(l, h) + 1 else 0)
      && Resets(l, h') == (Fires(l, h') && (Hopping(l) ==> (Hops(l, h) + 1) * l.hop >= l.checks))
    ensures !Hopping(l) ==> Hops(l, h) == 0
  {
    hide Fires, QuietFrom, InitSince;
    assert (h + [e])[..|h|] == h;
    HopsStayBelow(l, h);
  }

  lemma InitOneMore(h: seq<Event>, e: Event, q: nat)
    requires q <= |h|
    ensures InitSince(h + [e], q) <==> InitSince(h, q) || e.init
    ensures !InitSince(h + [e], |h| + 1)
  {
    assert forall i :: 0 <= i < |h| ==> (h + [e])[i] == h[i];
    if e.init {
      assert (h + [e])[|h|].init;
    }
    if i :| q <= i < |h| && h[i].init {
      assert (h + [e])[i].init;
    }
  }

  /** So traffic sparser than one packet per tick cannot keep the watchdog from
      firing: once an init has gone unanswered for the threshold's number of
      ticks with nothing from the remote, one of those ticks triggered. */
  lemma {:induction false} SilenceIsNoticed(l: Limits, h: seq<Event>, from: nat)
    requires WellFormed(l) && from + Threshold(l) <= |h|
    requires forall i :: from <= i < |h| ==> !h[i].rx
    requires InitSince(h, from)
    ensures exists n :: from < n <= |h| && Fires(l, h[..n])
  {
    var q := QuietFrom(l, h[..|h| - 1]);
    assert Threshold(l) > 0;
    if q <= from {
      assert InitSince(h, q);
      assert h[..|h|] == h;
      assert Fires(l, h[..|h|]);
    } else {
      QuietStarts(l, h[..|h| - 1]);
      assert h[..|h| - 1][..q] == h[..q];
      assert h[..q][q - 1] == h[q - 1];
    }
  }

  /** A silence starts at the beginning, after a remote packet, or after a
      trigger. */
  lemma {:induction false} QuietStarts(l: Limits, h: seq<Event>)
    ensures var q := QuietFrom(l, h); q == 0 || h[q - 1].rx || Fires(l, h[..q])
  {
    if |h| == 0 || h[|h| - 1].rx {
    } else {
      if Fires(l, h) {
        assert h[..|h|] == h;
      } else {
        QuietStarts(l, h[..|h| - 1]);
        var q := QuietFrom(l, h);
        assert h[..|h| - 1][..q] == h[..q];
      }
    }
  }
}
