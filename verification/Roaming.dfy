/** Roaming over the session table (src/proxy.h, src/proxy.c): a client that
    moved is followed by its packet counters, all of its entries move
    together, and a handshake retires what a peer left elsewhere. */
module Roaming {
  import opened Addresses
  import opened Bytes
  import opened Sessions

  /** sidx_map: for a server index, the slot it was last recorded in, plus one. */
  type Index = m: seq<nat> | |m| == 4096 && forall i :: 0 <= i < 4096 ==> m[i] <= 4096 witness seq(4096, _ => 0)

  /** session_get_by_server_index: advisory, so the entry is asked again. */
  function BySidx(t: Table, m: Index, sidx: Word): (s: int)
    ensures -1 <= s < SIZE
    ensures s >= 0 ==> sidx != 0 && t[s].valid && t[s].server == sidx
  {
    if sidx == 0 then -1
    else
      var ref := m[sidx % SIZE];
      if ref == 0 || !t[ref - 1].valid || t[ref - 1].server != sidx then -1 else ref - 1
  }

  /** A freshly recorded server index is found again, in the entry it names. */
  lemma RecordedIsFound(t: Table, m: Index, s: nat, sidx: Word)
    requires s < SIZE && sidx != 0 && t[s].valid
    ensures BySidx(t[s := t[s].(server := sidx)], m[sidx % SIZE := s + 1], sidx) == s
  {}

  // ---- Following ----

  function MoveAll(t: Table, a: Addr, b: Addr): (r: Table) {
    seq(SIZE, i requires 0 <= i < SIZE => if t[i].valid && t[i].addr == a then t[i].(addr := b) else t[i])
  }

  /** The counter the next packet of this session is measured against. */
  function NextOf(e: Entry, sidx: Word): (n: Long) {
    if e.ctrSidx == sidx then e.ctrNext else 0
  }

  /** A duplicate, a straggler or a forgery. */
  predicate Passed(next: Long, ctr: Long) {
    next != 0 && (ctr < next || ctr as int - next as int > CTR_LEAP)
  }

  function Succ(ctr: Long): (n: Long) {
    (ctr as int + 1) % LONG_RANGE
  }

  /** session_follow_client */
  function Follow(t: Table, m: Index, sidx: Word, from: Addr, ctr: Long): (r: Table) {
    var s := BySidx(t, m, sidx);
    if s < 0 then t
    else
      var next := NextOf(t[s], sidx);
      if Passed(next, ctr) then t[s := t[s].(ctrSidx := sidx, ctrNext := next)]
      else
        var t' := t[s := t[s].(ctrSidx := sidx, ctrNext := Succ(ctr))];
        if t[s].addr == from then t' else MoveAll(t', t[s].addr, from)
  }

  /** A packet whose counter was already passed, or that leaps too far, leaves
      the whole table as it was. */
  lemma PassedChangesNothing(t: Table, m: Index, sidx: Word, from: Addr, ctr: Long)
    requires var s := BySidx(t, m, sidx); s < 0 || Passed(NextOf(t[s], sidx), ctr)
    ensures Follow(t, m, sidx, from, ctr) == t
  {
    var s := BySidx(t, m, sidx);
    if s >= 0 {
      assert t[s].(ctrSidx := sidx, ctrNext := NextOf(t[s], sidx)) == t[s];
    }
  }

  /** Following a move never splits a client: entries at one address stay at
      one address. */
  lemma FollowKeepsTogether(t: Table, m: Index, sidx: Word, from: Addr, ctr: Long, i: nat, j: nat)
    requires i < SIZE && j < SIZE && t[i].valid && t[j].valid && t[i].addr == t[j].addr
    ensures
      var r := Follow(t, m, sidx, from, ctr);
      r[i].valid && r[j].valid && r[i].addr == r[j].addr
  {}

  /** Exactly the entries at the session's address move, and to where the packet
      came from; every other client stays where it is. */
  lemma FollowMovesExactly(t: Table, m: Index, sidx: Word, from: Addr, ctr: Long, i: nat)
    requires i < SIZE
    ensures
      var s := BySidx(t, m, sidx);
      Follow(t, m, sidx, from, ctr)[i].addr
      == if s >= 0 && !Passed(NextOf(t[s], sidx), ctr) && t[i].valid && t[i].addr == t[s].addr then from else t[i].addr
  {}

  ghost predicate OneClient(t: Table) {
    forall i, j :: 0 <= i < SIZE && 0 <= j < SIZE && t[i].valid && t[j].valid ==> t[i].addr == t[j].addr
  }

  lemma FollowKeepsOneClient(t: Table, m: Index, sidx: Word, from: Addr, ctr: Long)
    requires OneClient(t)
    ensures OneClient(Follow(t, m, sidx, from, ctr))
  {
    var r := Follow(t, m, sidx, from, ctr);
    forall i, j | 0 <= i < SIZE && 0 <= j < SIZE && r[i].valid && r[j].valid
      ensures r[i].addr == r[j].addr
    {
      FollowKeepsShape(t, m, sidx, from, ctr, i);
      FollowKeepsShape(t, m, sidx, from, ctr, j);
      FollowKeepsTogether(t, m, sidx, from, ctr, i, j);
    }
  }

  /** Following touches addresses and one counter, nothing else. */
  lemma FollowKeepsShape(t: Table, m: Index, sidx: Word, from: Addr, ctr: Long, i: nat)
    requires i < SIZE
    ensures
      var e, r := t[i], Follow(t, m, sidx, from, ctr)[i];
      && r.valid == e.valid && r.sender == e.sender && r.server == e.server && r.peer == e.peer && r.prof == e.prof
      && (i != BySidx(t, m, sidx) ==> r.ctrSidx == e.ctrSidx && r.ctrNext == e.ctrNext)
  {}

  lemma FollowKeepsPlaced(t: Table, m: Index, sidx: Word, from: Addr, ctr: Long)
    requires Placed(t)
    ensures Placed(Follow(t, m, sidx, from, ctr))
  {
    hide InWindow, Follow;
    forall s | 0 <= s < SIZE && Follow(t, m, sidx, from, ctr)[s].valid
      ensures InWindow(Follow(t, m, sidx, from, ctr)[s].sender, s)
    {
      FollowKeepsShape(t, m, sidx, from, ctr, s);
    }
  }

  // ---- One session over a whole trace ----

  datatype Packet = Packet(from: Addr, ctr: Long)

  /** What roaming depends on: the next counter expected, and the address. */
  datatype Session = Session(next: Long, addr: Addr)

  function Advance(s: Session, p: Packet): (r: Session) {
    if Passed(s.next, p.ctr) then s else Session(Succ(p.ctr), p.from)
  }

  function AdvanceAll(s: Session, ps: seq<Packet>): (r: Session) {
    if |ps| == 0 then s else Advance(AdvanceAll(s, ps[..|ps| - 1]), ps[|ps| - 1])
  }

  function FollowAll(t: Table, m: Index, sidx: Word, ps: seq<Packet>): (r: Table) {
    if |ps| == 0 then t
    else Follow(FollowAll(t, m, sidx, ps[..|ps| - 1]), m, sidx, ps[|ps| - 1].from, ps[|ps| - 1].ctr)
  }

  function SessionOf(t: Table, s: nat, sidx: Word): (r: Session)
    requires s < SIZE
  {
    Session(NextOf(t[s], sidx), t[s].addr)
  }

  /** One packet, seen from the session's own entry. */
  lemma FollowIsAdvance(t: Table, m: Index, sidx: Word, p: Packet)
    requires BySidx(t, m, sidx) >= 0
    ensures
      var s := BySidx(t, m, sidx);
      var r := Follow(t, m, sidx, p.from, p.ctr);
      BySidx(r, m, sidx) == s && SessionOf(r, s, sidx) == Advance(SessionOf(t, s, sidx), p)
  {
    var s := BySidx(t, m, sidx);
    FollowKeepsShape(t, m, sidx, p.from, p.ctr, s);
  }

  lemma {:induction false} FollowAllIsAdvanceAll(t: Table, m: Index, sidx: Word, ps: seq<Packet>)
    requires BySidx(t, m, sidx) >= 0
    ensures
      var s := BySidx(t, m, sidx);
      var r := FollowAll(t, m, sidx, ps);
      BySidx(r, m, sidx) == s && SessionOf(r, s, sidx) == AdvanceAll(SessionOf(t, s, sidx), ps)
  {
    hide Follow, BySidx, Advance, SessionOf;
    if |ps| == 0 {
    } else {
      FollowAllIsAdvanceAll(t, m, sidx, ps[..|ps| - 1]);
      FollowIsAdvance(FollowAll(t, m, sidx, ps[..|ps| - 1]), m, sidx, ps[|ps| - 1]);
    }
  }

  /** The session's address over a trace is its own or that of some packet. */
  lemma {:induction false} SessionStands(t: Table, m: Index, sidx: Word, ps: seq<Packet>)
    requires BySidx(t, m, sidx) >= 0
    ensures
      var s, r := BySidx(t, m, sidx), FollowAll(t, m, sidx, ps);
      && BySidx(r, m, sidx) == s
      && (r[s].addr == t[s].addr || exists j :: 0 <= j < |ps| && r[s].addr == ps[j].from)
    decreases |ps|
  {
    hide Follow, BySidx, Passed, NextOf;
    if |ps| == 0 {
    } else {
      var front, p := ps[..|ps| - 1], ps[|ps| - 1];
      var s, u := BySidx(t, m, sidx), FollowAll(t, m, sidx, front);
      SessionStands(t, m, sidx, front);
      FollowIsAdvance(u, m, sidx, p);
      FollowMovesExactly(u, m, sidx, p.from, p.ctr, s);
      if j :| 0 <= j < |front| && u[s].addr == front[j].from {
        assert ps[j] == front[j];
      }
    }
  }

  /** Over any trace of one session, a client at another address than the
      session's, from which no packet of the trace came, stays where it is. */
  lemma {:induction false} OthersStay(t: Table, m: Index, sidx: Word, ps: seq<Packet>, i: nat)
    requires i < SIZE && BySidx(t, m, sidx) >= 0 && t[i].addr != t[BySidx(t, m, sidx)].addr
    requires forall j :: 0 <= j < |ps| ==> ps[j].from != t[i].addr
    ensures FollowAll(t, m, sidx, ps)[i] == t[i]
    decreases |ps|
  {
    hide Follow, BySidx, Passed, NextOf;
    if |ps| == 0 {
    } else {
      var front, p := ps[..|ps| - 1], ps[|ps| - 1];
      var u := FollowAll(t, m, sidx, front);
      assert forall j :: 0 <= j < |front| ==> front[j] == ps[j];
      OthersStay(t, m, sidx, front, i);
      SessionStands(t, m, sidx, front);
      FollowMovesExactly(u, m, sidx, p.from, p.ctr, i);
      FollowKeepsShape(u, m, sidx, p.from, p.ctr, i);
    }
  }

  /** The packets that were believed. */
  function Believed(s: Session, ps: seq<Packet>): (r: seq<Packet>) {
    if |ps| == 0 then []
    else
      var front, p := ps[..|ps| - 1], ps[|ps| - 1];
      if Passed(AdvanceAll(s, front).next, p.ctr) then Believed(s, front) else Believed(s, front) + [p]
  }

  ghost predicate BelowTop(ps: seq<Packet>) {
    forall i :: 0 <= i < |ps| ==> ps[i].ctr as int < LONG_RANGE - 1
  }

  /** Believed counters strictly increase, in bounded leaps, and the session
      stands at the source of the last, hence the highest, of them. */
  lemma {:induction false} BelievedIncrease(s: Session, ps: seq<Packet>)
    requires BelowTop(ps)
    ensures
      var b := Believed(s, ps);
      && (forall i, j :: 0 <= i < j < |b| ==> b[i].ctr < b[j].ctr)
      && (forall i :: 0 <= i < |b| - 1 ==> b[i + 1].ctr as int - b[i].ctr as int <= 0x100_0000 + 1)
      && AdvanceAll(s, ps)
         == if |b| == 0 then s else Session(Succ(b[|b| - 1].ctr), b[|b| - 1].from)
    ensures forall i :: 0 <= i < |Believed(s, ps)| ==> Believed(s, ps)[i].ctr as int < LONG_RANGE - 1
  {
    if |ps| == 0 {
    } else {
      var front, p := ps[..|ps| - 1], ps[|ps| - 1];
      BelievedIncrease(s, front);
      var b := Believed(s, front);
      AdvanceLast(s, ps);
      hide AdvanceAll;
      if !Passed(AdvanceAll(s, front).next, p.ctr) && |b| > 0 {
        assert Succ(b[|b| - 1].ctr) == b[|b| - 1].ctr as int + 1;
        assert b[|b| - 1].ctr < p.ctr && p.ctr as int - b[|b| - 1].ctr as int <= CTR_LEAP + 1;
      }
    }
  }

  lemma {:induction false} NextComesFrom(s: Session, ps: seq<Packet>)
    ensures AdvanceAll(s, ps).next == s.next || exists j :: 0 <= j < |ps| && AdvanceAll(s, ps).next == Succ(ps[j].ctr)
  {
    if |ps| == 0 {
    } else {
      var front := ps[..|ps| - 1];
      NextComesFrom(s, front);
      if j :| 0 <= j < |front| && AdvanceAll(s, front).next == Succ(front[j].ctr) {
        assert ps[j] == front[j];
      }
    }
  }

  /** No packet is far enough ahead of another, or of where the session
      stands, to be taken for a forgery. */
  ghost predicate Close(s: Session, ps: seq<Packet>) {
    && (forall i, j :: 0 <= i < |ps| && 0 <= j < |ps| ==> ps[i].ctr as int - ps[j].ctr as int <= 0x100_0000)
    && (s.next != 0 ==> forall i :: 0 <= i < |ps| ==> ps[i].ctr as int - s.next as int <= 0x100_0000)
  }

  /** Packet i carries the highest counter of the trace, and is the first to. */
  ghost predicate FirstHighest(ps: seq<Packet>, i: nat) {
    && i < |ps|
    && (forall j :: 0 <= j < |ps| ==> ps[j].ctr <= ps[i].ctr)
    && (forall j :: 0 <= j < i ==> ps[j].ctr < ps[i].ctr)
  }

  lemma AdvanceLast(s: Session, ps: seq<Packet>)
    requires |ps| > 0
    ensures AdvanceAll(s, ps) == Advance(AdvanceAll(s, ps[..|ps| - 1]), ps[|ps| - 1])
  {}

  /** In whatever order the copies arrive, the session ends at the source of
      the highest counter, of its first copy if it came twice. */
  lemma {:induction false} EndsAtHighest(s: Session, ps: seq<Packet>, i: nat)
    requires BelowTop(ps) && Close(s, ps) && FirstHighest(ps, i) && ps[i].ctr >= s.next
    ensures AdvanceAll(s, ps) == Session(Succ(ps[i].ctr), ps[i].from)
  {
    hide AdvanceAll, Advance, Close, BelowTop, FirstHighest;
    var n := |ps|;
    FirstHighestIn(ps, i);
    if i == n - 1 {
      HighestBelieved(s, ps);
    } else {
      HighestShorter(s, ps, i);
      EndsAtHighest(s, ps[..n - 1], i);
      AdvanceLast(s, ps);
      LowerPassed(ps, i, n - 1, ps[..n - 1][i].from);
    }
  }

  lemma FirstHighestIn(ps: seq<Packet>, i: nat)
    requires FirstHighest(ps, i)
    ensures i < |ps|
  {}

  /** A highest packet that comes last is believed. */
  lemma HighestBelieved(s: Session, ps: seq<Packet>)
    requires BelowTop(ps) && Close(s, ps) && |ps| > 0 && FirstHighest(ps, |ps| - 1) && ps[|ps| - 1].ctr >= s.next
    ensures AdvanceAll(s, ps) == Session(Succ(ps[|ps| - 1].ctr), ps[|ps| - 1].from)
  {
    hide AdvanceAll;
    var front, p := ps[..|ps| - 1], ps[|ps| - 1];
    AdvanceLast(s, ps);
    NextComesFrom(s, front);
    var next := AdvanceAll(s, front).next;
    if next != s.next {
      var j :| 0 <= j < |front| && next == Succ(front[j].ctr);
      assert front[j] == ps[j] && ps[j].ctr < p.ctr && p.ctr as int - ps[j].ctr as int <= CTR_LEAP;
      assert next == ps[j].ctr as int + 1;
    }
  }

  lemma HighestShorter(s: Session, ps: seq<Packet>, i: nat)
    requires BelowTop(ps) && Close(s, ps) && FirstHighest(ps, i) && i < |ps| - 1
    ensures
      var front := ps[..|ps| - 1];
      BelowTop(front) && Close(s, front) && FirstHighest(front, i) && front[i] == ps[i]
  {
    var front := ps[..|ps| - 1];
    assert forall j :: 0 <= j < |front| ==> front[j] == ps[j];
  }

  /** Past the highest counter, no packet is believed any more. */
  lemma LowerPassed(ps: seq<Packet>, i: nat, j: nat, at: Addr)
    requires BelowTop(ps) && FirstHighest(ps, i) && j < |ps|
    ensures Advance(Session(Succ(ps[i].ctr), at), ps[j]) == Session(Succ(ps[i].ctr), at)
  {
    assert Succ(ps[i].ctr) == ps[i].ctr as int + 1;
  }

  /** The same for the table: after any trace of one session alone, its entry
      stands at the source of the highest counter. */
  lemma RoamsToHighest(t: Table, m: Index, sidx: Word, ps: seq<Packet>, i: nat)
    requires BySidx(t, m, sidx) >= 0
    requires
      var s := SessionOf(t, BySidx(t, m, sidx), sidx);
      BelowTop(ps) && Close(s, ps) && FirstHighest(ps, i) && ps[i].ctr >= s.next
    ensures
      var r := FollowAll(t, m, sidx, ps);
      BySidx(r, m, sidx) == BySidx(t, m, sidx) && r[BySidx(t, m, sidx)].addr == ps[i].from
  {
    hide BySidx, FollowAll;
    FollowAllIsAdvanceAll(t, m, sidx, ps);
    EndsAtHighest(SessionOf(t, BySidx(t, m, sidx), sidx), ps, i);
  }

  /** Over any trace at all, leaps and forgeries included: the entry stands at
      the source of the highest counter believed, and did not move if none
      was. */
  lemma RoamsToBelieved(t: Table, m: Index, sidx: Word, ps: seq<Packet>)
    requires BySidx(t, m, sidx) >= 0 && BelowTop(ps)
    ensures
      var s := BySidx(t, m, sidx);
      var r, b := FollowAll(t, m, sidx, ps), Believed(SessionOf(t, s, sidx), ps);
      && BySidx(r, m, sidx) == s
      && (|b| == 0 ==> r[s].addr == t[s].addr)
      && (|b| > 0 ==> r[s].addr == b[|b| - 1].from && NextOf(r[s], sidx) == b[|b| - 1].ctr as int + 1)
      && (forall i :: 0 <= i < |b| - 1 ==> b[i].ctr < b[|b| - 1].ctr)
  {
    hide BySidx, FollowAll, NextOf, Believed, AdvanceAll;
    FollowAllIsAdvanceAll(t, m, sidx, ps);
    BelievedIncrease(SessionOf(t, BySidx(t, m, sidx), sidx), ps);
  }

  // ---- Handshakes ----

  /** session_drop_moved_peer */
  function DropMoved(t: Table, peer: int, cur: Addr): (r: Table) {
    if peer < 0 then t
    else
      seq(SIZE, i requires 0 <= i < SIZE =>
        if t[i].valid && t[i].peer == peer && t[i].addr != cur then t[i].(valid := false) else t[i])
  }

  /** Exactly the named peer's entries at other addresses are retired. */
  lemma DropExact(t: Table, peer: int, cur: Addr, i: nat)
    requires i < SIZE
    ensures
      var r := DropMoved(t, peer, cur);
      && r[i] == t[i].(valid := r[i].valid)
      && (r[i].valid <==> t[i].valid && !(peer >= 0 && t[i].peer == peer && t[i].addr != cur))
  {}

  /** A handshake that names its peer records it in the destination entry and
      retires the rest: the peer is left at one address, the destination is
      alive, and nobody else is touched. */
  lemma HandshakeSettles(t: Table, d: nat, peer: int)
    requires d < SIZE && t[d].valid && peer >= 0
    ensures
      var r := DropMoved(t[d := t[d].(peer := peer)], peer, t[d].addr);
      && r[d].valid && r[d].addr == t[d].addr && r[d].peer == peer
      && (forall i :: 0 <= i < SIZE && r[i].valid && r[i].peer == peer ==> r[i].addr == t[d].addr)
      && (forall i :: 0 <= i < SIZE && i != d && t[i].peer != peer ==> r[i] == t[i])
  {}

  lemma DropKeepsPlaced(t: Table, peer: int, cur: Addr)
    requires Placed(t)
    ensures Placed(DropMoved(t, peer, cur))
  {
    hide InWindow;
  }

  // ---- Any sequence of table operations ----

  datatype Op =
    | PutOp(index: Word, addr: Addr, prof: int)
    | FollowOp(sidx: Word, from: Addr, ctr: Long)
    | DropOp(peer: int, cur: Addr)
    | RecordOp(slot: nat, sidx: Word)
    | PeerOp(slot: nat, peer: int)

  datatype Store = Store(t: Table, m: Index)

  function ApplyOp(s: Store, op: Op): (r: Store) {
    match op
    case PutOp(index, addr, prof) => s.(t := Put(s.t, index, addr, prof))
    case FollowOp(sidx, from, ctr) => s.(t := Follow(s.t, s.m, sidx, from, ctr))
    case DropOp(peer, cur) => s.(t := DropMoved(s.t, peer, cur))
    case RecordOp(slot, sidx) =>
      if slot >= SIZE || sidx == 0 then s
      else Store(s.t[slot := s.t[slot].(server := sidx)], s.m[sidx % SIZE := slot + 1])
    case PeerOp(slot, peer) => if slot >= SIZE then s else s.(t := s.t[slot := s.t[slot].(peer := peer)])
  }

  function ApplyOps(s: Store, ops: seq<Op>): (r: Store) {
    if |ops| == 0 then s else ApplyOp(ApplyOps(s, ops[..|ops| - 1]), ops[|ops| - 1])
  }

  /** What the operations of a sequence do: a put is found again, a recorded
      server index leads to its entry, a named peer is noted there. */
  lemma OpsAct(s: Store, index: Word, addr: Addr, prof: int, slot: nat, sidx: Word, peer: int)
    requires slot < 4096
    ensures
      var r := ApplyOp(s, PutOp(index, addr, prof));
      r.m == s.m && Find(r.t, index) >= 0 && r.t[Find(r.t, index)].addr == addr && r.t[Find(r.t, index)].prof == prof
    ensures
      var r := ApplyOp(s, RecordOp(slot, sidx));
      && (sidx != 0 && s.t[slot].valid ==> BySidx(r.t, r.m, sidx) == slot)
      && (sidx == 0 ==> r == s)
      && forall i :: 0 <= i < 4096 && i != slot ==> r.t[i] == s.t[i]
    ensures
      var r := ApplyOp(s, PeerOp(slot, peer));
      r.m == s.m && r.t == s.t[slot := s.t[slot].(peer := peer)]
  {
    hide Put, Find, BySidx, Follow, DropMoved;
    PutThenFind(s.t, index, addr, prof);
    FoundAtSlot(s.t, index, addr, prof);
    if sidx != 0 && s.t[slot].valid {
      RecordedIsFound(s.t, s.m, slot, sidx);
    }
  }

  lemma FoundAtSlot(t: Table, index: Word, addr: Addr, prof: int)
    ensures Find(Put(t, index, addr, prof), index) >= 0
  {
    PutThenFind(t, index, addr, prof);
  }

  lemma OpKeepsPlaced(s: Store, op: Op)
    requires Placed(s.t)
    ensures Placed(ApplyOp(s, op).t)
  {
    hide InWindow, Put, Follow, DropMoved;
    match op
    case PutOp(index, addr, prof) => PutKeepsPlaced(s.t, index, addr, prof);
    case FollowOp(sidx, from, ctr) => FollowKeepsPlaced(s.t, s.m, sidx, from, ctr);
    case DropOp(peer, cur) => DropKeepsPlaced(s.t, peer, cur);
    case RecordOp(slot, sidx) =>
    case PeerOp(slot, peer) =>
  }

  /** After any operations, in any order, from any table whose entries are in
      their windows: four probes find an index exactly when a full scan would. */
  lemma {:induction false} AnyRunLookupIsScan(s: Store, ops: seq<Op>, index: Word)
    requires Placed(s.t)
    ensures
      var t := ApplyOps(s, ops).t;
      && Placed(t)
      && (Find(t, index) >= 0 <==> exists i :: 0 <= i < SIZE && Sessions.Holds(t[i], index))
  {
    hide Placed, ApplyOp, Find;
    if |ops| == 0 {
    } else {
      AnyRunLookupIsScan(s, ops[..|ops| - 1], index);
      OpKeepsPlaced(ApplyOps(s, ops[..|ops| - 1]), ops[|ops| - 1]);
    }
    LookupIsScan(ApplyOps(s, ops).t, index);
  }
}
