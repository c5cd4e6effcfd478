/** Segmentation offload (src/proxy.c): which packets one segmented send can
    carry, the batch sender built on it, and the loops that split a coalesced
    read. */
module Offload {
  import opened Addresses
  import opened Bytes

  const MAX_SEGMENTS := 64
  const MAX_BYTES := 65507
  const BATCH := 32

  /** A batch: packet lengths, and destinations when the socket is unconnected. */
  datatype Batch = Batch(lens: seq<nat>, addrs: seq<Addr>, connected: bool)

  predicate WellFormed(b: Batch) {
    b.connected || |b.addrs| == |b.lens|
  }

  predicate SameDest(b: Batch, i: nat, j: nat)
    requires WellFormed(b) && i < |b.lens| && j < |b.lens|
  {
    b.connected || b.addrs[i] == b.addrs[j]
  }

  function Sum(lens: seq<nat>, at: nat, n: nat): (s: nat)
    requires at + n <= |lens|
  {
    if n == 0 then 0 else Sum(lens, at, n - 1) + lens[at + n - 1]
  }

  /** n packets from `at` on can leave as one segmented datagram: equal
      lengths, the last one may be shorter, within the kernel's limits, one
      destination. */
  predicate Legal(b: Batch, at: nat, n: nat)
    requires WellFormed(b)
  {
    && 1 <= n <= 64 && at + n <= |b.lens| && b.lens[at] > 0
    && (forall i :: at <= i < at + n - 1 ==> b.lens[i] == b.lens[at])
    && b.lens[at + n - 1] <= b.lens[at]
    && Sum(b.lens, at, n) <= 65507
    && (forall i :: at <= i < at + n ==> SameDest(b, i, at))
  }

  /** r is the longest legal run from `at`, 0 when it is shorter than two. */
  ghost predicate IsRunLen(b: Batch, at: nat, r: nat)
    requires WellFormed(b)
  {
    && (r == 0 || (r >= 2 && Legal(b, at, r)))
    && forall n: nat :: Legal(b, at, n) ==> n <= r || n == 1
  }

  /** Some segmented send could start at this packet. */
  ghost predicate Coalescable(b: Batch, at: nat)
    requires WellFormed(b)
  {
    exists n: nat :: n >= 2 && Legal(b, at, n)
  }

  lemma {:induction false} SumOfEqual(lens: seq<nat>, at: nat, n: nat)
    requires at + n <= |lens| && at < |lens| && forall i :: at <= i < at + n ==> lens[i] == lens[at]
    ensures Sum(lens, at, n) == n * lens[at]
  {
    if n == 0 {
    } else {
      SumOfEqual(lens, at, n - 1);
    }
  }

  lemma {:induction false} SumGrows(lens: seq<nat>, at: nat, m: nat, n: nat)
    requires m <= n && at + n <= |lens|
    ensures Sum(lens, at, m) <= Sum(lens, at, n)
  {
    if m == n {
    } else {
      SumGrows(lens, at, m, n - 1);
    }
  }

  /** A longer run is legal only if the next packet fits the tail rules. */
  lemma LongerRunNeeds(b: Batch, at: nat, run: nat, n: nat)
    requires WellFormed(b) && Legal(b, at, n) && 1 <= run < n
    ensures at + run < |b.lens| && run < MAX_SEGMENTS
    ensures b.lens[at + run] <= b.lens[at] && (n > run + 1 ==> b.lens[at + run] == b.lens[at])
    ensures SameDest(b, at + run, at)
    ensures Sum(b.lens, at, run) + b.lens[at + run] <= MAX_BYTES
  {
    SumGrows(b.lens, at, run + 1, n);
  }

  /** gso_run_len over the packets from `at` to the end of the batch. */
  method RunLen(b: Batch, at: nat) returns (r: nat)
    requires WellFormed(b) && at <= |b.lens|
    ensures IsRunLen(b, at, r)
  {
    hide Sum, SameDest;
    var count := |b.lens| - at;
    if count <= 1 {
      return 0;
    }
    var seg := b.lens[at];
    if seg == 0 || seg > MAX_BYTES {
      FirstTooLong(b, at);
      return 0;
    }
    var total, run := seg, 1;
    SumOfOne(b, at);
    while run < count && run < MAX_SEGMENTS && b.lens[at + run] == seg && total + seg <= MAX_BYTES
          && SameDest(b, at + run, at)
      invariant 1 <= run <= count && run <= MAX_SEGMENTS
      invariant forall i :: at <= i < at + run ==> b.lens[i] == seg && SameDest(b, i, at)
      invariant total == Sum(b.lens, at, run) <= MAX_BYTES
    {
      SumOfNext(b.lens, at, run);
      total := total + seg;
      run := run + 1;
    }
    ghost var equal := run;
    if run < count && run < MAX_SEGMENTS && b.lens[at + run] < seg && total + b.lens[at + run] <= MAX_BYTES
       && SameDest(b, at + run, at)
    {
      SumOfNext(b.lens, at, run);
      run := run + 1;
    }
    forall n: nat | Legal(b, at, n)
      ensures n <= run
    {
      if n > equal {
        LongerRunNeeds(b, at, equal, n);
      }
    }
    r := if run > 1 then run else 0;
  }

  lemma SumOfNext(lens: seq<nat>, at: nat, n: nat)
    requires at + n < |lens|
    ensures Sum(lens, at, n + 1) == Sum(lens, at, n) + lens[at + n]
  {}

  lemma SumOfOne(b: Batch, at: nat)
    requires WellFormed(b) && at < |b.lens|
    ensures Sum(b.lens, at, 1) == b.lens[at] && SameDest(b, at, at)
  {
    assert Sum(b.lens, at, 0) == 0;
  }

  lemma FirstTooLong(b: Batch, at: nat)
    requires WellFormed(b) && at < |b.lens| && (b.lens[at] == 0 || b.lens[at] > MAX_BYTES)
    ensures forall n: nat :: !Legal(b, at, n)
  {
    forall n: nat | Legal(b, at, n)
      ensures false
    {
      SumGrows(b.lens, at, 1, n);
      SumOfOne(b, at);
    }
  }

  // ---- What the kernel cuts a segmented datagram into ----

  function Cut(bytes: seq<Byte>, seg: nat): (r: seq<seq<Byte>>)
    requires seg > 0
    decreases |bytes|
  {
    if |bytes| == 0 then []
    else if |bytes| <= seg then [bytes]
    else [bytes[..seg]] + Cut(bytes[seg..], seg)
  }

  function Join(pkts: seq<seq<Byte>>): (r: seq<Byte>) {
    if |pkts| == 0 then [] else pkts[0] + Join(pkts[1..])
  }

  /** All packets but the last have length seg, the last at most that. */
  predicate RunShape(pkts: seq<seq<Byte>>, seg: nat) {
    |pkts| > 0 && (forall i :: 0 <= i < |pkts| - 1 ==> |pkts[i]| == seg) && |pkts[|pkts| - 1]| <= seg
  }

  /** The run's concatenation, cut every seg bytes, is the run again, exactly
      when its last packet is not empty. */
  lemma {:induction false} CutUndoesJoin(pkts: seq<seq<Byte>>, seg: nat)
    requires seg > 0 && RunShape(pkts, seg)
    ensures Cut(Join(pkts), seg) == pkts <==> |pkts[|pkts| - 1]| > 0
  {
    if |pkts| == 1 {
      assert Join(pkts[1..]) == [] && Join(pkts) == pkts[0];
    } else {
      CutUndoesJoin(pkts[1..], seg);
      var rest := Join(pkts[1..]);
      assert pkts == [pkts[0]] + pkts[1..];
      if |rest| == 0 {
        assert Join(pkts) == pkts[0];
        JoinNonEmpty(pkts[1..], seg);
      } else {
        assert Join(pkts)[..seg] == pkts[0] && Join(pkts)[seg..] == rest;
        assert Cut(Join(pkts), seg) == [pkts[0]] + Cut(rest, seg);
        assert ([pkts[0]] + Cut(rest, seg))[1..] == Cut(rest, seg) && pkts[1..] == ([pkts[0]] + pkts[1..])[1..];
      }
    }
  }

  lemma JoinNonEmpty(pkts: seq<seq<Byte>>, seg: nat)
    requires seg > 0 && RunShape(pkts, seg) && Join(pkts) == []
    ensures |pkts| == 1 && pkts[0] == []
  {
    assert |pkts[0]| <= |Join(pkts)|;
  }

  lemma {:induction false} JoinSnoc(pkts: seq<seq<Byte>>, p: seq<Byte>)
    ensures Join(pkts + [p]) == Join(pkts) + p
  {
    if |pkts| == 0 {
      assert [p][1..] == [] && pkts + [p] == [p];
    } else {
      JoinSnoc(pkts[1..], p);
      assert (pkts + [p])[1..] == pkts[1..] + [p];
    }
  }

  /** A batch's lengths are those of its packets. */
  ghost predicate LengthsOf(b: Batch, pkts: seq<seq<Byte>>) {
    |pkts| == |b.lens| && forall i :: 0 <= i < |pkts| ==> b.lens[i] == |pkts[i]|
  }

  lemma {:induction false} JoinLength(b: Batch, pkts: seq<seq<Byte>>, at: nat, n: nat)
    requires LengthsOf(b, pkts) && at + n <= |pkts|
    ensures |Join(pkts[at..at + n])| == Sum(b.lens, at, n)
  {
    if n == 0 {
      assert pkts[at..at] == [];
    } else {
      JoinLength(b, pkts, at, n - 1);
      JoinSnoc(pkts[at..at + n - 1], pkts[at + n - 1]);
      assert pkts[at..at + n] == pkts[at..at + n - 1] + [pkts[at + n - 1]];
    }
  }

  /** What RunLen promises in terms of packets: the run fits one datagram, and
      the receiver cuts it into those very packets, unless the last one is
      empty. (The proxy drops empty packets before they get here.) */
  lemma RunIsCutBack(b: Batch, pkts: seq<seq<Byte>>, at: nat, r: nat)
    requires WellFormed(b) && LengthsOf(b, pkts) && IsRunLen(b, at, r) && r >= 2
    ensures at + r <= |pkts| && |Join(pkts[at..at + r])| <= 65507 && b.lens[at] > 0
    ensures Cut(Join(pkts[at..at + r]), b.lens[at]) == pkts[at..at + r] <==> |pkts[at + r - 1]| > 0
  {
    JoinLength(b, pkts, at, r);
    CutUndoesJoin(pkts[at..at + r], b.lens[at]);
  }

  // ---- The batch sender ----

  /** A system call's answer: how much it took, or an error number. */
  datatype Answer = Took(n: nat) | Refused(errno: nat)

  const ENOPROTOOPT := 92
  const EIO := 5

  /** A system call: from which packet on it was offered how many, as one
      segmented datagram or one by one, and the kernel's answer. */
  datatype Call = Segmented(at: nat, want: nat, answer: Answer) | Plain(at: nat, want: nat, answer: Answer)
  {
    /** The packets it sent. */
    function Sent(): (n: nat)
      ensures n <= want
    {
      if answer.Refused? then 0 else if answer.n < want then answer.n else want
    }

    predicate Failed() {
      Segmented? && Sent() == 0
    }

    /** The kernel cannot segment at all. */
    predicate Unsupported() {
      Segmented? && answer.Refused? && (answer.errno == 92 || answer.errno == 5)
    }

    predicate Stops() {
      Plain? && answer.Refused?
    }
  }

  function SentBy(calls: seq<Call>): (n: nat) {
    if |calls| == 0 then 0 else SentBy(calls[..|calls| - 1]) + calls[|calls| - 1].Sent()
  }

  /** The offload was on at entry and the kernel has not disowned it since. */
  predicate OffloadOn(offload: bool, calls: seq<Call>) {
    offload && forall i :: 0 <= i < |calls| ==> !calls[i].Unsupported()
  }

  predicate LastFailed(calls: seq<Call>) {
    |calls| > 0 && calls[|calls| - 1].Failed()
  }

  predicate Stopped(calls: seq<Call>) {
    |calls| > 0 && calls[|calls| - 1].Stops()
  }

  /** The one call that is right after the given ones: the packets of a failed
      segmented send one by one; else, with the offload off, all that is left;
      else the longest run from here, or the packets up to the next run. */
  ghost predicate RightCall(b: Batch, offload: bool, before: seq<Call>, c: Call)
    requires WellFormed(b)
  {
    && c.at == SentBy(before) < |b.lens|
    && if LastFailed(before) then c.Plain? && c.want == before[|before| - 1].want
       else if !OffloadOn(offload, before) then c.Plain? && c.want == |b.lens| - c.at
       else if Coalescable(b, c.at) then c.Segmented? && IsRunLen(b, c.at, c.want)
       else
         && c.Plain? && c.want >= 1 && c.at + c.want <= |b.lens|
         && (forall i: nat :: c.at <= i < c.at + c.want ==> !Coalescable(b, i))
         && (c.at + c.want < |b.lens| ==> Coalescable(b, c.at + c.want))
  }

  /** Call number i was answered by the kernel, which may be any. */
  predicate Answered(c: Call, i: nat, plain: nat -> Answer, segmented: nat -> Answer) {
    c.answer == if c.Segmented? then segmented(i) else plain(i)
  }

  /** Every call was right when it was made, and answered by the kernel. */
  ghost predicate Trace(b: Batch, offload: bool, plain: nat -> Answer, segmented: nat -> Answer, calls: seq<Call>)
    requires WellFormed(b)
  {
    |calls| == 0
    || (var before, c := calls[..|calls| - 1], calls[|calls| - 1];
        && Trace(b, offload, plain, segmented, before) && !Stopped(before)
        && RightCall(b, offload, before, c) && Answered(c, |before|, plain, segmented))
  }

  lemma TraceOne(b: Batch, offload: bool, plain: nat -> Answer, segmented: nat -> Answer, calls: seq<Call>, c: Call)
    requires WellFormed(b) && Trace(b, offload, plain, segmented, calls) && !Stopped(calls)
    requires RightCall(b, offload, calls, c) && Answered(c, |calls|, plain, segmented)
    ensures Trace(b, offload, plain, segmented, calls + [c])
    ensures SentBy(calls + [c]) == SentBy(calls) + c.Sent()
    ensures LastFailed(calls + [c]) == c.Failed() && Stopped(calls + [c]) == c.Stops()
    ensures OffloadOn(offload, calls + [c]) <==> OffloadOn(offload, calls) && !c.Unsupported()
  {
    hide RightCall, Answered;
    assert (calls + [c])[..|calls|] == calls;
    assert forall i :: 0 <= i < |calls| ==> (calls + [c])[i] == calls[i];
    assert (calls + [c])[|calls|] == c;
  }

  /** The run at the head of what is left, and whether there is one. */
  lemma RunMeans(b: Batch, at: nat, r: nat)
    requires WellFormed(b) && at < |b.lens| && IsRunLen(b, at, r)
    ensures r == 0 || (r >= 2 && at + r <= |b.lens|)
    ensures Coalescable(b, at) <==> r >= 2
  {}

  /** How far the packets go that head no run. */
  method PlainLen(b: Batch, at: nat) returns (want: nat)
    requires WellFormed(b) && at < |b.lens| && !Coalescable(b, at)
    ensures want >= 1 && at + want <= |b.lens|
    ensures forall i: nat :: at <= i < at + want ==> !Coalescable(b, i)
    ensures at + want < |b.lens| ==> Coalescable(b, at + want)
  {
    hide IsRunLen, Coalescable;
    want := 1;
    while at + want < |b.lens|
      invariant 1 <= want && at + want <= |b.lens|
      invariant forall i: nat :: at <= i < at + want ==> !Coalescable(b, i)
    {
      var next := RunLen(b, at + want);
      RunMeans(b, at + want, next);
      if next != 0 {
        break;
      }
      want := want + 1;
    }
  }

  /** send_batch_gso, against any kernel: `plain` and `segmented` hold its
      answer to call number i of either kind. A plain send takes at least one
      packet or fails; a segmented one may fall short by any amount. */
  method SendBatch(b: Batch, offload: bool, plain: nat -> Answer, segmented: nat -> Answer)
    returns (sent: nat, err: nat, stillOn: bool, calls: seq<Call>)
    requires WellFormed(b)
    requires forall i :: plain(i) != Took(0) && plain(i) != Refused(0)
    ensures Trace(b, offload, plain, segmented, calls)
    ensures sent == SentBy(calls) <= |b.lens| && stillOn == OffloadOn(offload, calls)
    ensures err == 0 <==> sent == |b.lens|
    ensures err != 0 ==> Stopped(calls) && calls[|calls| - 1].answer == Refused(err)
  {
    hide IsRunLen, Coalescable, SentBy, RightCall, OffloadOn, Trace, LastFailed;
    sent, err, stillOn, calls := 0, 0, offload, [];
    NoCalls(b, offload, plain, segmented);
    while sent < |b.lens|
      invariant sent == SentBy(calls) <= |b.lens| && err == 0 && stillOn == OffloadOn(offload, calls)
      invariant Trace(b, offload, plain, segmented, calls) && !Stopped(calls) && !LastFailed(calls)
      decreases |b.lens| - sent
    {
      var want := |b.lens| - sent;
      if stillOn {
        var run := RunLen(b, sent);
        RunMeans(b, sent, run);
        if run > 1 {
          var c := Segmented(sent, run, segmented(|calls|));
          RightSegmented(b, offload, calls, c);
          TraceOne(b, offload, plain, segmented, calls, c);
          calls := calls + [c];
          if c.Sent() > 0 {
            sent := sent + c.Sent();
            continue;
          }
          if c.answer.Refused? && (c.answer.errno == ENOPROTOOPT || c.answer.errno == EIO) {
            stillOn := false;
          }
          want := run;
          RightRetry(b, offload, calls, Plain(sent, want, plain(|calls|)));
        } else {
          want := PlainLen(b, sent);
          RightPlain(b, offload, calls, Plain(sent, want, plain(|calls|)));
        }
      } else {
        RightRest(b, offload, calls, Plain(sent, want, plain(|calls|)));
      }
      var c := Plain(sent, want, plain(|calls|));
      TraceOne(b, offload, plain, segmented, calls, c);
      calls := calls + [c];
      if c.answer.Refused? {
        err := c.answer.errno;
        break;
      }
      sent := sent + c.Sent();
    }
  }

  lemma NoCalls(b: Batch, offload: bool, plain: nat -> Answer, segmented: nat -> Answer)
    requires WellFormed(b)
    ensures Trace(b, offload, plain, segmented, []) && SentBy([]) == 0 && OffloadOn(offload, []) == offload
    ensures !LastFailed([]) && !Stopped([])
  {}

  lemma RightSegmented(b: Batch, offload: bool, before: seq<Call>, c: Call)
    requires WellFormed(b) && c.at == SentBy(before) < |b.lens| && OffloadOn(offload, before) && !LastFailed(before)
    requires c.Segmented? && IsRunLen(b, c.at, c.want) && Coalescable(b, c.at)
    ensures RightCall(b, offload, before, c)
  {}

  lemma RightRetry(b: Batch, offload: bool, before: seq<Call>, c: Call)
    requires WellFormed(b) && c.at == SentBy(before) < |b.lens|
    requires |before| > 0 && before[|before| - 1].Failed() && c.Plain? && c.want == before[|before| - 1].want
    ensures RightCall(b, offload, before, c)
  {}

  lemma RightPlain(b: Batch, offload: bool, before: seq<Call>, c: Call)
    requires WellFormed(b) && c.at == SentBy(before) < |b.lens| && OffloadOn(offload, before) && !LastFailed(before)
    requires !Coalescable(b, c.at) && c.Plain? && c.want >= 1 && c.at + c.want <= |b.lens|
    requires forall i: nat :: c.at <= i < c.at + c.want ==> !Coalescable(b, i)
    requires c.at + c.want < |b.lens| ==> Coalescable(b, c.at + c.want)
    ensures RightCall(b, offload, before, c)
  {}

  lemma RightRest(b: Batch, offload: bool, before: seq<Call>, c: Call)
    requires WellFormed(b) && c.at == SentBy(before) < |b.lens| && !OffloadOn(offload, before) && !LastFailed(before)
    requires c.Plain? && c.want == |b.lens| - c.at
    ensures RightCall(b, offload, before, c)
  {}

  // ---- What a trace of calls amounts to ----

  /** The packets handed over, call by call. */
  function Handed(calls: seq<Call>): (r: seq<nat>) {
    if |calls| == 0 then []
    else
      var c := calls[|calls| - 1];
      Handed(calls[..|calls| - 1]) + seq(c.Sent(), i requires 0 <= i => c.at + i)
  }

  /** Exactly the first packets of the batch, once each and in order. */
  lemma {:induction false} HandedInOrder(b: Batch, offload: bool, plain: nat -> Answer, segmented: nat -> Answer,
                                         calls: seq<Call>)
    requires WellFormed(b) && Trace(b, offload, plain, segmented, calls)
    ensures Handed(calls) == seq(SentBy(calls), i => i)
  {
    if |calls| == 0 {
    } else {
      HandedInOrder(b, offload, plain, segmented, calls[..|calls| - 1]);
    }
  }

  lemma {:induction false} TracePrefix(b: Batch, offload: bool, plain: nat -> Answer, segmented: nat -> Answer,
                                       calls: seq<Call>, i: nat)
    requires WellFormed(b) && Trace(b, offload, plain, segmented, calls) && i < |calls|
    ensures RightCall(b, offload, calls[..i], calls[i]) && !Stopped(calls[..i])
    ensures Answered(calls[i], i, plain, segmented)
    decreases |calls|
  {
    hide RightCall, Answered, Stopped;
    var before := calls[..|calls| - 1];
    if i == |calls| - 1 {
    } else {
      TracePrefix(b, offload, plain, segmented, before, i);
      assert before[..i] == calls[..i] && before[i] == calls[i];
    }
  }

  /** While the kernel has not disowned the offload, a packet that could head a
      segmented send is offered one by one only right after the segmented send
      of that very run took nothing. */
  lemma PlainOnlyAfterFailure(b: Batch, offload: bool, plain: nat -> Answer, segmented: nat -> Answer,
                              calls: seq<Call>, i: nat, k: nat)
    requires WellFormed(b) && Trace(b, offload, plain, segmented, calls) && i < |calls|
    requires calls[i].Plain? && OffloadOn(offload, calls[..i])
    requires calls[i].at <= k < calls[i].at + calls[i].want && Coalescable(b, k)
    ensures i > 0 && calls[i - 1].Segmented? && calls[i - 1].answer == segmented(i - 1) && calls[i - 1].Sent() == 0
    ensures calls[i - 1].at == calls[i].at && calls[i - 1].want == calls[i].want && IsRunLen(b, calls[i].at, calls[i].want)
  {
    hide IsRunLen, Coalescable, SentBy;
    TracePrefix(b, offload, plain, segmented, calls, i);
    assert LastFailed(calls[..i]);
    TracePrefix(b, offload, plain, segmented, calls, i - 1);
    SentByFailed(calls[..i]);
    assert calls[..i][..i - 1] == calls[..i - 1] && calls[..i][i - 1] == calls[i - 1];
  }

  lemma SentByFailed(calls: seq<Call>)
    requires LastFailed(calls)
    ensures SentBy(calls) == SentBy(calls[..|calls| - 1])
  {}

  lemma RunLenUnique(b: Batch, at: nat, r: nat, r': nat)
    requires WellFormed(b) && IsRunLen(b, at, r) && IsRunLen(b, at, r') && Coalescable(b, at)
    ensures r == r'
  {}

  /** The batch, the kernel and the switch determine every call: there is one
      way to send a batch. */
  lemma {:induction false} TraceUnique(b: Batch, offload: bool, plain: nat -> Answer, segmented: nat -> Answer,
                                       x: seq<Call>, y: seq<Call>)
    requires WellFormed(b) && |x| == |y|
    requires Trace(b, offload, plain, segmented, x) && Trace(b, offload, plain, segmented, y)
    ensures x == y
    decreases |x|
  {
    hide IsRunLen, Coalescable, SentBy, OffloadOn, LastFailed;
    if |x| == 0 {
    } else {
      var n := |x| - 1;
      TraceUnique(b, offload, plain, segmented, x[..n], y[..n]);
      RightCallUnique(b, offload, x[..n], x[n], y[n]);
      assert x == x[..n] + [x[n]] && y == y[..n] + [y[n]];
    }
  }

  lemma RightCallUnique(b: Batch, offload: bool, before: seq<Call>, c: Call, d: Call)
    requires WellFormed(b) && RightCall(b, offload, before, c) && RightCall(b, offload, before, d)
    ensures c.Plain? == d.Plain? && c.at == d.at && c.want == d.want
  {
    hide IsRunLen, Coalescable, SentBy, OffloadOn;
    if c.Segmented? && d.Segmented? {
      RunLenUnique(b, c.at, c.want, d.want);
    }
  }

  // ---- Splitting a coalesced read ----

  const PACKET_BUF := 1500

  /** The pieces of a read that are left from an offset on. */
  function Pieces(bytes: seq<Byte>, seg: nat, off: nat): (r: seq<seq<Byte>>)
    requires seg > 0
  {
    if off >= |bytes| then [] else Cut(bytes[off..], seg)
  }

  lemma PiecesUnfold(bytes: seq<Byte>, seg: nat, off: nat)
    requires seg > 0 && off < |bytes|
    ensures Pieces(bytes, seg, off)
            == [bytes[off..if off + seg > |bytes| then |bytes| else off + seg]] + Pieces(bytes, seg, off + seg)
  {
    var rest := bytes[off..];
    if |rest| > seg {
      assert rest[..seg] == bytes[off..off + seg] && rest[seg..] == bytes[off + seg..];
    } else {
      assert bytes[off..|bytes|] == rest && [rest] + [] == [rest];
    }
  }

  /** How many packets of a list the send batch takes in. */
  function CountOf(pkts: seq<seq<Byte>>, counts: seq<Byte> -> bool): (n: nat)
    ensures n <= |pkts|
  {
    if |pkts| == 0 then 0
    else CountOf(pkts[..|pkts| - 1], counts) + if counts(pkts[|pkts| - 1]) then 1 else 0
  }

  lemma CountSnoc(pkts: seq<seq<Byte>>, p: seq<Byte>, counts: seq<Byte> -> bool)
    ensures CountOf(pkts + [p], counts) == CountOf(pkts, counts) + if counts(p) then 1 else 0
  {
    assert (pkts + [p])[..|pkts|] == pkts;
  }

  /** One turn of the s2c loop: packets are processed until the send batch is
      full or the read is used up; the rest is left for the next turn. `counts`
      tells whether processing a packet adds to the batch: a dropped one does
      not. */
  method SplitTurn(buf: array<Byte>, total: nat, seg: nat, off: nat, counts: seq<Byte> -> bool)
    returns (next: nat, pkts: seq<seq<Byte>>, filled: nat)
    requires seg > 0 && off < total <= buf.Length
    ensures next > off && pkts + Pieces(buf[..total], seg, next) == Pieces(buf[..total], seg, off)
    ensures filled == CountOf(pkts, counts) <= 32 && (next < total ==> filled == 32)
    ensures |pkts| > 0 && CountOf(pkts[..|pkts| - 1], counts) < 32
  {
    hide Pieces, CountOf;
    ghost var bytes := buf[..total];
    var at := off;
    pkts, filled := [], 0;
    NoneCounted(counts);
    assert [] + Pieces(bytes, seg, off) == Pieces(bytes, seg, off);
    while at < total && filled < BATCH
      invariant at >= off && (at == off ==> pkts == []) && (at > off ==> |pkts| > 0 && CountOf(pkts[..|pkts| - 1], counts) < BATCH)
      invariant filled == CountOf(pkts, counts) <= BATCH
      invariant pkts + Pieces(bytes, seg, at) == Pieces(bytes, seg, off)
      decreases total - at
    {
      var end := if at + seg > total then total else at + seg;
      var p := buf[at..end];
      PiecesUnfold(bytes, seg, at);
      assert bytes[at..end] == p;
      MovePieces(pkts, [p], Pieces(bytes, seg, at + seg));
      CountSnoc(pkts, p, counts);
      assert (pkts + [p])[..|pkts|] == pkts;
      pkts := pkts + [p];
      if counts(p) {
        filled := filled + 1;
      }
      at := at + seg;
    }
    next := at;
  }

  lemma NoneCounted(counts: seq<Byte> -> bool)
    ensures CountOf([], counts) == 0
  {}

  /** One turn of the c2s loop: the segments are copied into the packet
      buffers, all of them used or the read used up. A segment larger than a
      packet buffer makes it give up. */
  method SplitCopy(buf: array<Byte>, total: nat, seg: nat, off: nat, slots: array<seq<Byte>>)
    returns (next: nat, filled: nat, gaveUp: bool)
    requires seg > 0 && off < total <= buf.Length && slots.Length == BATCH
    modifies slots
    ensures gaveUp <==> (if off + seg <= total then seg else total - off) > 1500
    ensures gaveUp ==> filled == 0 && next == off
    ensures !gaveUp ==>
              && 0 < filled <= BATCH && (next < total ==> filled == BATCH)
              && slots[..filled] + Pieces(buf[..total], seg, next) == Pieces(buf[..total], seg, off)
              && forall i :: 0 <= i < filled ==> |slots[i]| <= PACKET_BUF
  {
    hide Pieces;
    ghost var bytes := buf[..total];
    next, filled, gaveUp := off, 0, false;
    assert slots[..0] + Pieces(bytes, seg, off) == Pieces(bytes, seg, off);
    while next < total && filled < BATCH
      invariant next >= off && 0 <= filled <= BATCH && !gaveUp
      invariant filled == 0 <==> next == off
      invariant next > off ==> (if off + seg <= total then seg else total - off) <= PACKET_BUF
      invariant slots[..filled] + Pieces(bytes, seg, next) == Pieces(bytes, seg, off)
      invariant forall i :: 0 <= i < filled ==> |slots[i]| <= PACKET_BUF
      decreases total - next
    {
      var plen := if next + seg <= total then seg else total - next;
      if plen > PACKET_BUF {
        gaveUp, filled := true, 0;
        break;
      }
      var p := buf[next..next + plen];
      PiecesUnfold(bytes, seg, next);
      assert bytes[next..next + plen] == p;
      MovePieces(slots[..filled], [p], Pieces(bytes, seg, next + seg));
      ghost var before := slots[..filled];
      slots[filled] := p;
      assert slots[..filled + 1] == before + [p];
      filled := filled + 1;
      next := next + seg;
    }
  }

  function Flatten(turns: seq<seq<seq<Byte>>>): (r: seq<seq<Byte>>) {
    if |turns| == 0 then [] else Flatten(turns[..|turns| - 1]) + turns[|turns| - 1]
  }

  lemma FlattenSnoc(turns: seq<seq<seq<Byte>>>, t: seq<seq<Byte>>)
    ensures Flatten(turns + [t]) == Flatten(turns) + t
  {
    assert (turns + [t])[..|turns|] == turns;
  }

  /** The turns together: every packet of the read once, in order, and every
      turn but the last fills the batch. */
  method DrainRead(buf: array<Byte>, total: nat, seg: nat, counts: seq<Byte> -> bool) returns (turns: seq<seq<seq<Byte>>>)
    requires seg > 0 && total <= buf.Length
    ensures Flatten(turns) == Cut(buf[..total], seg)
    ensures forall i :: 0 <= i < |turns| ==> CountOf(turns[i], counts) <= 32
    ensures forall i :: 0 <= i < |turns| - 1 ==> CountOf(turns[i], counts) == 32
  {
    hide CountOf, Flatten, Pieces, Cut;
    ghost var bytes := buf[..total];
    WholeRead(bytes, seg);
    var pend := 0;
    turns := [];
    while pend < total
      invariant Flatten(turns) + Pieces(bytes, seg, pend) == Pieces(bytes, seg, 0)
      invariant forall i :: 0 <= i < |turns| ==> CountOf(turns[i], counts) <= BATCH
      invariant forall i :: 0 <= i < |turns| ==> CountOf(turns[i], counts) == BATCH || (i == |turns| - 1 && pend >= total)
      decreases total - pend
    {
      var next, pkts, filled := SplitTurn(buf, total, seg, pend, counts);
      FlattenSnoc(turns, pkts);
      MovePieces(Flatten(turns), pkts, Pieces(bytes, seg, next));
      turns := turns + [pkts];
      pend := next;
    }
    NothingLeft(bytes, seg, pend, Flatten(turns));
  }

  lemma WholeRead(bytes: seq<Byte>, seg: nat)
    requires seg > 0
    ensures Pieces(bytes, seg, 0) == Cut(bytes, seg) && Flatten([]) + Pieces(bytes, seg, 0) == Pieces(bytes, seg, 0)
  {
    assert bytes[0..] == bytes;
  }

  lemma MovePieces(done: seq<seq<Byte>>, pkts: seq<seq<Byte>>, rest: seq<seq<Byte>>)
    ensures done + (pkts + rest) == done + pkts + rest
  {}

  lemma NothingLeft(bytes: seq<Byte>, seg: nat, off: nat, done: seq<seq<Byte>>)
    requires seg > 0 && off >= |bytes|
    ensures done + Pieces(bytes, seg, off) == done
  {}
}
