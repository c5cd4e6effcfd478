/** The copies for the old port waiting out ROT_LAG_MS (rot_lag_* of
    src/proxy.c): a ring buffer that behaves as a timed queue. */
module LagRing {
  import opened Bytes

  const LAG_US := 50_000
  const RING := 256
  const MAX_COPY := 1600
  const BATCH := 32

  datatype Copy = Copy(due: nat, bytes: seq<Byte>)

  // ---- The timed queue ----

  ghost predicate DueOrdered(q: seq<Copy>) {
    forall i, j :: 0 <= i < j < |q| ==> q[i].due <= q[j].due
  }

  /** Every copy was put by the given time. */
  ghost predicate PutBy(q: seq<Copy>, clock: nat) {
    forall i :: 0 <= i < |q| ==> q[i].due <= clock + LAG_US
  }

  /** How many copies from the head are due. */
  function DuePrefix(q: seq<Copy>, now: nat): (n: nat)
    ensures n <= |q|
    ensures forall i :: 0 <= i < n ==> q[i].due <= now
    ensures n < |q| ==> q[n].due > now
  {
    if |q| == 0 || q[0].due > now then 0 else 1 + DuePrefix(q[1..], now)
  }

  /** In due order the prefix is all there is: exactly the copies due. */
  lemma DuePrefixExact(q: seq<Copy>, now: nat, i: nat)
    requires DueOrdered(q) && i < |q|
    ensures q[i].due <= now <==> i < DuePrefix(q, now)
  {
    var n := DuePrefix(q, now);
    if n < i {
      assert q[n].due <= q[i].due;
    }
  }

  datatype Outcome = Outcome(queue: seq<Copy>, sent: seq<Copy>, dropped: seq<Copy>)

  /** What servicing the queue does: over and won, or the old socket gone, the
      rest is pointless; over and lost, it is needed now; with both ports
      carrying, what is due goes. */
  function Serviced(q: seq<Copy>, now: nat, oldOpen: bool, dual: bool, won: bool): (o: Outcome) {
    if !oldOpen || (!dual && won) then Outcome([], [], q)
    else
      var n := if dual then DuePrefix(q, now) else |q|;
      Outcome(q[n..], q[..n], [])
  }

  /** Nothing is lost or reordered, and what is discarded unsent is discarded
      only because the new port won or the old socket is gone. */
  lemma ServicedConserves(q: seq<Copy>, now: nat, oldOpen: bool, dual: bool, won: bool)
    ensures
      var o := Serviced(q, now, oldOpen, dual, won);
      && q == o.sent + o.dropped + o.queue
      && (|o.dropped| > 0 ==> !oldOpen || (!dual && won))
      && (oldOpen && !dual && !won ==> o.sent == q)
  {
    hide DuePrefix;
    var o := Serviced(q, now, oldOpen, dual, won);
    assert q == o.sent + o.dropped + o.queue;
  }

  /** While both ports carry, exactly the copies already due are attempted. */
  lemma ServicedTimely(q: seq<Copy>, now: nat, won: bool, i: nat)
    requires DueOrdered(q) && i < |q|
    ensures
      var o := Serviced(q, now, true, true, won);
      && (q[i].due <= now <==> i < |o.sent|)
      && (i < |o.sent| ==> o.sent[i] == q[i])
      && (i >= |o.sent| ==> o.queue[i - |o.sent|] == q[i])
  {
    hide DuePrefix;
    DuePrefixExact(q, now, i);
  }

  /** Once the new port won, or the old socket is gone, nothing more is sent;
      a move that lost sends all that waits. */
  lemma ServicedSettles(q: seq<Copy>, now: nat, oldOpen: bool, dual: bool, won: bool)
    ensures
      var o := Serviced(q, now, oldOpen, dual, won);
      && (!oldOpen || (!dual && won) ==> o.sent == [] && o.dropped == q && o.queue == [])
      && (oldOpen && !dual && !won ==> o.sent == q && o.dropped == [] && o.queue == [])
      && (oldOpen && dual ==> o.dropped == [])
  {
    hide DuePrefix;
  }

  // ---- Whole runs of the queue ----

  /** A queue and its history: the copies ever queued, those of them sent and
      those discarded, and the copies that went at once. ready: the ring has
      been allocated. */
  datatype Line = Line(queued: seq<Copy>, waiting: seq<Copy>, sent: seq<Copy>, dropped: seq<Copy>,
                       straight: seq<Copy>, ready: bool)

  datatype Op =
    | PutOp(bytes: seq<Byte>, now: nat, memory: bool)
    | ServiceOp(now: nat, oldOpen: bool, dual: bool, won: bool)
    | ClearOp

  function Do(l: Line, op: Op): (r: Line) {
    match op
    case PutOp(bytes, now, memory) =>
      var ready := l.ready || (|bytes| <= MAX_COPY && memory);
      if !ready || |bytes| > MAX_COPY || |l.waiting| == RING then
        l.(straight := l.straight + [Copy(now, bytes)], ready := ready)
      else
        var c := Copy(now + LAG_US, bytes);
        l.(queued := l.queued + [c], waiting := l.waiting + [c], ready := ready)
    case ServiceOp(now, oldOpen, dual, won) =>
      var o := Serviced(l.waiting, now, oldOpen, dual, won);
      l.(waiting := o.queue, sent := l.sent + o.sent, dropped := l.dropped + o.dropped)
    case ClearOp => l.(waiting := [], dropped := l.dropped + l.waiting)
  }

  function DoAll(l: Line, ops: seq<Op>): (r: Line) {
    if |ops| == 0 then l else Do(DoAll(l, ops[..|ops| - 1]), ops[|ops| - 1])
  }

  /** A copy that can wait is due 50 ms on, behind all that wait already; one
      that cannot, being over 1600 bytes or with 256 waiting or no memory for a
      ring, goes at once. */
  lemma PutWaits(l: Line, bytes: seq<Byte>, now: nat, memory: bool)
    ensures
      var r := Do(l, PutOp(bytes, now, memory));
      && r.sent == l.sent && r.dropped == l.dropped
      && if |bytes| <= 1600 && |l.waiting| != 256 && (l.ready || memory) then
           && r.ready && r.straight == l.straight
           && r.waiting == l.waiting + [Copy(now + 50000, bytes)] && r.queued == l.queued + [Copy(now + 50000, bytes)]
         else r.waiting == l.waiting && r.queued == l.queued && r.straight == l.straight + [Copy(now, bytes)]
  {}

  /** Servicing sends and discards what the queue's rules say; a new move
      discards all that waits. */
  lemma OthersAct(l: Line, now: nat, oldOpen: bool, dual: bool, won: bool)
    ensures
      var r, o := Do(l, ServiceOp(now, oldOpen, dual, won)), Serviced(l.waiting, now, oldOpen, dual, won);
      && r.sent == l.sent + o.sent && r.dropped == l.dropped + o.dropped && r.waiting == o.queue
      && r.queued == l.queued && r.straight == l.straight
    ensures
      var r := Do(l, ClearOp);
      && r.waiting == [] && r.dropped == l.dropped + l.waiting
      && r.sent == l.sent && r.queued == l.queued && r.straight == l.straight
  {
    hide Serviced;
  }

  /** The copies among the first |fates| whose fate is v, in order. */
  function Picked(q: seq<Copy>, fates: seq<bool>, v: bool): (r: seq<Copy>)
    requires |fates| <= |q|
  {
    if |fates| == 0 then []
    else
      var n := |fates| - 1;
      Picked(q, fates[..n], v) + if fates[n] == v then [q[n]] else []
  }

  /** Every copy ever queued has exactly one place: sent, discarded, or still
      waiting behind all that are; and in each place the order of queueing. */
  ghost predicate FatesOf(l: Line, fates: seq<bool>) {
    && |fates| <= |l.queued| && l.waiting == l.queued[|fates|..]
    && l.sent == Picked(l.queued, fates, true) && l.dropped == Picked(l.queued, fates, false)
  }

  ghost predicate Conserved(l: Line) {
    exists fates: seq<bool> :: FatesOf(l, fates)
  }

  lemma {:induction false} PickedKept(q: seq<Copy>, c: Copy, fates: seq<bool>, v: bool)
    requires |fates| <= |q|
    ensures Picked(q + [c], fates, v) == Picked(q, fates, v)
    decreases |fates|
  {
    if |fates| == 0 {
    } else {
      PickedKept(q, c, fates[..|fates| - 1], v);
    }
  }

  lemma PickedSnoc(q: seq<Copy>, fates: seq<bool>, fate: bool, v: bool)
    requires |fates| < |q|
    ensures Picked(q, fates + [fate], v) == Picked(q, fates, v) + if fate == v then [q[|fates|]] else []
  {
    assert (fates + [fate])[..|fates|] == fates;
  }

  /** The next n copies all meet one fate. */
  lemma {:induction false} PickedMore(q: seq<Copy>, fates: seq<bool>, n: nat, fate: bool, v: bool)
    requires |fates| + n <= |q|
    ensures Picked(q, fates + seq(n, _ => fate), v)
            == Picked(q, fates, v) + if fate == v then q[|fates|..|fates| + n] else []
    decreases n
  {
    hide Picked;
    if n == 0 {
      assert fates + seq(n, _ => fate) == fates;
    } else {
      PickedMore(q, fates, n - 1, fate, v);
      PickedSnoc(q, fates + seq(n - 1, _ => fate), fate, v);
      assert fates + seq(n, _ => fate) == fates + seq(n - 1, _ => fate) + [fate];
      assert q[|fates|..|fates| + n] == q[|fates|..|fates| + n - 1] + [q[|fates| + n - 1]];
    }
  }

  /** The first n waiting copies leave together, sent or not. */
  lemma LeaveTogether(l: Line, fates: seq<bool>, n: nat, fate: bool, r: Line)
    requires FatesOf(l, fates) && n <= |l.waiting| && r.queued == l.queued && r.waiting == l.waiting[n..]
    requires r.sent == l.sent + if fate then l.waiting[..n] else []
    requires r.dropped == l.dropped + if fate then [] else l.waiting[..n]
    ensures FatesOf(r, fates + seq(n, _ => fate))
  {
    hide Picked;
    PickedMore(l.queued, fates, n, fate, true);
    PickedMore(l.queued, fates, n, fate, false);
    assert l.waiting[..n] == l.queued[|fates|..|fates| + n];
  }

  lemma PutConserves(l: Line, fates: seq<bool>, bytes: seq<Byte>, now: nat, memory: bool)
    requires FatesOf(l, fates)
    ensures FatesOf(Do(l, PutOp(bytes, now, memory)), fates)
  {
    hide Picked, Serviced;
    var c := Copy(now + LAG_US, bytes);
    PickedKept(l.queued, c, fates, true);
    PickedKept(l.queued, c, fates, false);
  }

  lemma ServiceConserves(l: Line, fates: seq<bool>, now: nat, oldOpen: bool, dual: bool, won: bool)
    requires FatesOf(l, fates)
    ensures Conserved(Do(l, ServiceOp(now, oldOpen, dual, won)))
  {
    hide Picked, DuePrefix, FatesOf;
    var o, r := Serviced(l.waiting, now, oldOpen, dual, won), Do(l, ServiceOp(now, oldOpen, dual, won));
    if !oldOpen || (!dual && won) {
      LeaveTogether(l, fates, |l.waiting|, false, r);
    } else {
      LeaveTogether(l, fates, |o.sent|, true, r);
    }
  }

  lemma DoConserves(l: Line, op: Op)
    requires Conserved(l)
    ensures Conserved(Do(l, op))
  {
    hide Picked, FatesOf, Serviced;
    var fates :| FatesOf(l, fates);
    match op
    case PutOp(bytes, now, memory) => PutConserves(l, fates, bytes, now, memory);
    case ServiceOp(now, oldOpen, dual, won) => ServiceConserves(l, fates, now, oldOpen, dual, won);
    case ClearOp => LeaveTogether(l, fates, |l.waiting|, false, Do(l, ClearOp));
  }

  /** Over any sequence of puts, services and new moves. */
  lemma {:induction false} EveryRunConserves(l: Line, ops: seq<Op>)
    requires Conserved(l)
    ensures Conserved(DoAll(l, ops))
    decreases |ops|
  {
    hide Conserved, Do;
    if |ops| == 0 {
    } else {
      EveryRunConserves(l, ops[..|ops| - 1]);
      DoConserves(DoAll(l, ops[..|ops| - 1]), ops[|ops| - 1]);
    }
  }

  lemma NothingQueued(l: Line)
    requires l.queued == l.waiting == l.sent == l.dropped == []
    ensures Conserved(l)
  {
    assert FatesOf(l, []);
  }

  // ---- The ring ----

  /** The n copies from the head on, round the end of the buffer. */
  function Contents(slots: seq<Copy>, head: nat, n: nat): (q: seq<Copy>)
    requires n == 0 || |slots| == RING
    ensures |q| == n
  {
    seq(n, i requires 0 <= i < n => slots[(head + i) % RING])
  }

  lemma ContentsDrop(slots: seq<Copy>, head: nat, n: nat, b: nat)
    requires |slots| == RING && b <= n
    ensures Contents(slots, (head + b) % RING, n - b) == Contents(slots, head, n)[b..]
  {
    forall i | 0 <= i < n - b
      ensures Contents(slots, (head + b) % RING, n - b)[i] == Contents(slots, head, n)[b..][i]
    {
      RoundTheEnd(head, b, i);
    }
  }

  lemma RoundTheEnd(head: nat, b: nat, i: nat)
    ensures ((head + b) % RING + i) % RING == (head + (b + i)) % RING
  {}

  lemma ContentsPut(slots: seq<Copy>, head: nat, n: nat, c: Copy)
    requires |slots| == RING && n < RING
    ensures Contents(slots[(head + n) % RING := c], head, n + 1) == Contents(slots, head, n) + [c]
  {
    var next := slots[(head + n) % RING := c];
    forall i | 0 <= i < n
      ensures Contents(next, head, n + 1)[i] == Contents(slots, head, n)[i]
    {
      SlotsDiffer(head, i, n);
    }
  }

  lemma SlotsDiffer(head: nat, i: nat, n: nat)
    requires i < n < RING
    ensures (head + i) % RING != (head + n) % RING
  {}

  lemma ContentsAt(slots: seq<Copy>, head: nat, n: nat, i: nat)
    requires |slots| == RING && i < n
    ensures slots[(head + i) % RING] == Contents(slots, head, n)[i]
  {}

  lemma ContentsNone(slots: seq<Copy>, head: nat)
    ensures Contents(slots, head, 0) == []
  {}

  lemma OrderedTail(q: seq<Copy>, b: nat, clock: nat)
    requires DueOrdered(q) && PutBy(q, clock) && b <= |q|
    ensures DueOrdered(q[b..]) && PutBy(q[b..], clock)
  {}

  lemma OrderedSnoc(q: seq<Copy>, c: Copy, clock: nat, now: nat)
    requires DueOrdered(q) && PutBy(q, clock) && clock <= now && c.due == now + LAG_US
    ensures DueOrdered(q + [c]) && PutBy(q + [c], now)
  {}

  /** Milliseconds to the due time, rounded up. */
  function WaitMs(at: nat, now: nat): (w: nat)
    ensures now + 1000 * w >= at && (w > 0 ==> now + 1000 * (w - 1) < at)
  {
    if at > now then (at - now + 999) / 1000 else 0
  }

  class Ring {
    /** None until the first copy: a tunnel that never moves never pays. */
    var slots: array?<Copy>
    var head: nat
    var n: nat

    /** The copies ever queued; those of them handed to the old port's socket,
        in order; those discarded unsent; and the copies that went at once. */
    ghost var queued: seq<Copy>
    ghost var attempted: seq<Copy>
    ghost var discarded: seq<Copy>
    ghost var straightaway: seq<Copy>

    /** When the last copy was put; the clock does not run backwards. */
    ghost var clock: nat

    ghost predicate Shaped()
      reads this
    {
      n <= RING && head < RING && (slots == null ==> n == 0) && (slots != null ==> slots.Length == RING)
    }

    /** The copies waiting, oldest first. */
    ghost function Queue(): (q: seq<Copy>)
      requires Shaped()
      reads this, slots
      ensures |q| == n
    {
      Contents(if slots == null then [] else slots[..], head, n)
    }

    ghost predicate Valid()
      reads this, slots
    {
      Shaped() && DueOrdered(Queue()) && PutBy(Queue(), clock)
    }

    ghost function View(): (l: Line)
      requires Shaped()
      reads this, slots
    {
      Line(queued, Queue(), attempted, discarded, straightaway, slots != null)
    }

    constructor ()
      ensures Valid() && View() == Line([], [], [], [], [], false) && Conserved(View())
    {
      slots, head, n := null, 0, 0;
      queued, attempted, discarded, straightaway, clock := [], [], [], [], 0;
      new;
      NothingQueued(View());
    }

    /** One sendmmsg of rot_lag_send. Whatever the kernel takes, the copies
        leave the ring: a failed send drops them as a straight one would have. */
    method SendBatch(b: nat)
      requires Valid() && 0 < b <= n && b <= BATCH
      modifies this`head, this`n, this`attempted
      ensures Valid() && n == old(n) - b
      ensures Queue() == old(Queue())[b..] && attempted == old(attempted) + old(Queue())[..b]
    {
      hide Contents, DueOrdered, PutBy;
      ContentsDrop(slots[..], head, n, b);
      OrderedTail(Queue(), b, clock);
      attempted := attempted + Queue()[..b];
      head := (head + b) % RING;
      n := n - b;
    }

    /** rot_lag_send of the first k copies, at most BATCH per system call. */
    method SendHead(k: nat)
      requires Valid() && k <= n
      modifies this`head, this`n, this`attempted
      ensures Valid()
      ensures Queue() == old(Queue())[k..] && attempted == old(attempted) + old(Queue())[..k]
    {
      hide Contents, DueOrdered, PutBy, Queue;
      var left := k;
      ghost var q0, a0 := Queue(), attempted;
      while left > 0
        invariant Valid() && 0 <= left <= n && left <= k
        invariant Queue() == q0[k - left..] && attempted == a0 + q0[..k - left]
      {
        var b := if left < BATCH then left else BATCH;
        CutTwice(q0, k - left, b, a0);
        SendBatch(b);
        left := left - b;
      }
    }

    /** rot_lag_put: what fits waits its lag; what does not goes at once. */
    method Put(b: seq<Byte>, now: nat, memory: bool) returns (straight: bool)
      requires Valid() && now >= clock
      modifies this, slots
      ensures Valid() && (slots == old(slots) || fresh(slots))
      ensures straight <==> |b| > MAX_COPY || old(n) == RING || (old(slots) == null && !memory)
      ensures View() == Do(old(View()), PutOp(b, now, memory)) && (straight || clock == now)
    {
      hide Contents, DueOrdered, PutBy;
      if slots == null && |b| <= MAX_COPY && memory {
        ContentsNone([], head);
        slots := new Copy[RING](_ => Copy(0, []));
        ContentsNone(slots[..], head);
      }
      if slots == null || |b| > MAX_COPY || n == RING {
        straightaway := straightaway + [Copy(now, b)];
        return true;
      }
      var c := Copy(now + LAG_US, b);
      ContentsPut(slots[..], head, n, c);
      OrderedSnoc(Queue(), c, clock, now);
      slots[(head + n) % RING] := c;
      n := n + 1;
      queued := queued + [c];
      clock := now;
      straight := false;
    }

    /** How many copies from the head are due: the scan of rot_lag_service. */
    method CountDue(now: nat) returns (due: nat)
      requires Valid()
      ensures due == DuePrefix(Queue(), now)
    {
      hide Contents, DueOrdered, PutBy, DuePrefix;
      due := 0;
      while due < n
        invariant 0 <= due <= n
        invariant forall i :: 0 <= i < due ==> Queue()[i].due <= now
      {
        ContentsAt(slots[..], head, n, due);
        if slots[(head + due) % RING].due > now {
          break;
        }
        due := due + 1;
      }
      PrefixUnique(Queue(), now, due);
    }

    /** rot_lag_service: the wait in ms until the next copy, -1 for none. */
    method Service(now: nat, oldOpen: bool, dual: bool, won: bool) returns (wait: int)
      requires Valid()
      modifies this`head, this`n, this`attempted, this`discarded
      ensures Valid()
      ensures View() == Do(old(View()), ServiceOp(now, oldOpen, dual, won))
      ensures wait == -1 <==> Queue() == []
      ensures wait >= 0 ==>
                now + 1000 * wait >= Queue()[0].due && (wait > 0 ==> now + 1000 * (wait - 1) < Queue()[0].due)
    {
      hide Contents, DueOrdered, PutBy, DuePrefix, WaitMs, Queue;
      if n == 0 {
        assert attempted + [] == attempted && discarded + [] == discarded;
        return -1;
      }
      if !oldOpen || (!dual && won) {
        discarded := discarded + Queue();
        assert attempted + [] == attempted;
        n := 0;
        EmptyOrdered(Queue(), clock);
        assert Queue() == [];
        return -1;
      }
      assert discarded + [] == discarded;
      var due := n;
      if dual {
        due := CountDue(now);
      }
      SendHead(due);
      if n == 0 {
        return -1;
      }
      HeadOfQueue();
      var at := slots[head].due;
      wait := WaitMs(at, now);
    }

    lemma HeadOfQueue()
      requires Shaped() && n > 0
      ensures slots[head] == Queue()[0]
    {}

    /** A new move starts with an empty ring (rot_move). */
    method Clear()
      requires Valid()
      modifies this`n, this`discarded
      ensures Valid() && View() == Do(old(View()), ClearOp)
    {
      discarded := discarded + Queue();
      n := 0;
    }
  }

  lemma EmptyOrdered(q: seq<Copy>, clock: nat)
    requires |q| == 0
    ensures DueOrdered(q) && PutBy(q, clock) && q == []
  {}

  lemma CutTwice(q: seq<Copy>, i: nat, b: nat, a: seq<Copy>)
    requires i + b <= |q|
    ensures q[i..][b..] == q[i + b..]
    ensures (a + q[..i]) + q[i..][..b] == a + q[..i + b]
  {}

  lemma {:induction false} PrefixUnique(q: seq<Copy>, now: nat, n: nat)
    requires n <= |q| && (forall i :: 0 <= i < n ==> q[i].due <= now) && (n < |q| ==> q[n].due > now)
    ensures DuePrefix(q, now) == n
    decreases n
  {
    if n == 0 {
    } else {
      PrefixUnique(q[1..], now, n - 1);
    }
  }
}
