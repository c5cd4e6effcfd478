/** The rotation at the grain of its shared stores. The main loop's tick and
    rot_answered hold no lock, a reconnect tells its news in two stores, and
    rot_main_poll decides on a snapshot taken before it holds the lock. Here
    each of them is cut wherever another thread can come in between, and the
    snapshot may be arbitrarily stale. What is left whole holds remote_mu, or
    is the first half of a tick, which commutes with the others' stores. */
module RotationFine {
  import opened Bytes
  import opened PortSet
  import opened Rotation
  import opened Schedule

  /** The store the s2c thread makes next. Redialed: the one that ends a
      reconnect, with remote_mu still held. */
  datatype S2c = Free | CasNext | WonNext | DualNext | DueNext | ChangedNext | Redialed

  /** raising: the main loop found the port due and has not said so yet. */
  datatype Fine = Fine(s: State, s2c: S2c, raising: bool)

  datatype FineStep =
    | LockedMove(soft: bool, to: int, keep: int, connects: bool, now: nat)
    | LockedProbe(useAlt: bool)
    | Redial(dial: Dial)
    | Stamp(now: nat)
    | Cas
    | StoreWon
    | StoreDual
    | StoreDue
    | StoreChanged
    | TickTake(carried: nat, timer: nat, volume: nat)
    | TickRaise
    | PollAct(sawPending: bool, sawDual: bool, sawRefused: bool, connects: bool)
    | RefuseLate

  // ---- The steps ----

  /** do_reconnect_locked up to, not including, rot_changed. */
  function DoRedial(s: State, dial: Dial): (r: State) {
    var r := DoReconnect(s, dial);
    r.(fl := r.fl.(changed := s.fl.changed))
  }

  /** The compare-and-swap of rot_answered. */
  function DoCas(s: State): (r: State) {
    if !s.mv.pending then s
    else s.(mv := s.mv.(pending := false), ends := s.ends.(answered := s.ends.answered + 1))
  }

  predicate FallsDue(e: Env, m: MainLoop) {
    !m.due && IsDue(e.cfg, m.sched, Wrap32(m.tick))
  }

  /** rot_main_tick up to, not including, rot_due. */
  function DoTake(e: Env, s: State, carried: nat, timer: nat, volume: nat): (r: State) {
    var m := Informed(e.cfg, s, carried, timer, volume);
    var force := s.fl.force && !s.fl.changed && !s.fl.failed;
    var late := m.due && e.softOn && Since(Wrap32(m.tick), m.dueAt) >= e.cfg.force;
    s.(main := if FallsDue(e, m) then m.(due := true, dueAt := Wrap32(m.tick)) else m,
       fl := Flags(s.fl.due, false, false, force || late))
  }

  /** What rot_main_poll does under the lock, whatever it saw before: back, if
      it saw a pending move and one is still pending; otherwise the old port's
      socket is closed. */
  function DoPollAct(s: State, sawPending: bool, sawDual: bool, sawRefused: bool, connects: bool): (r: State) {
    if sawPending && s.mv.pending then
      s.(mv := s.mv.(pending := false, dual := false),
         ep := if s.ep.fd >= 0 && connects then s.ep.(port := s.mv.from) else s.ep,
         silent := if !sawDual || sawRefused then WriteOff(s.silent, s.mv.to) else s.silent,
         fl := s.fl.(due := false, failed := true), ends := s.ends.(wentBack := s.ends.wentBack + 1))
    else s.(mv := s.mv.(oldFd := NONE, dual := false), open := s.open - One(s.mv.oldFd))
  }

  /** A thread makes its stores in order, and nothing that takes remote_mu
      happens while a reconnect holds it. */
  predicate FineEnabled(e: Env, f: Fine, st: FineStep) {
    match st
    case LockedMove(soft, to, keep, connects, now) =>
      f.s2c != Redialed && Enabled(e, f.s, Move(soft, to, keep, connects, now))
    case LockedProbe(_) => f.s2c == Free
    case Redial(dial) => f.s2c == Free && Enabled(e, f.s, Reconnect(dial))
    case Stamp(now) => f.s2c == Free && now >= f.s.mv.t0
    case Cas => f.s2c == CasNext
    case StoreWon => f.s2c == WonNext
    case StoreDual => f.s2c == DualNext
    case StoreDue => f.s2c == DueNext
    case StoreChanged => HalfTold(f)
    case TickTake(_, timer, volume) => !f.raising && Draws(e.cfg, timer, volume)
    case TickRaise => f.raising
    case PollAct(_, _, _, _) => !f.raising && f.s2c != Redialed
    case RefuseLate => true
  }

  function FineApply(e: Env, f: Fine, st: FineStep): (r: Fine)
    requires FineEnabled(e, f, st)
  {
    var s := f.s;
    match st
    case LockedMove(soft, to, keep, connects, now) => f.(s := DoMove(s, soft, to, keep, connects, now))
    case LockedProbe(useAlt) => f.(s := DoFinishProbe(s, useAlt))
    case Redial(dial) => f.(s := DoRedial(s, dial), s2c := if dial.Dialed? then Redialed else Free)
    case Stamp(now) => f.(s := s.(mv := s.mv.(ansMs := Odd(Wrap32(now - s.mv.t0)))), s2c := CasNext)
    case Cas => f.(s := DoCas(s), s2c := if s.mv.pending then WonNext else Free)
    case StoreWon => f.(s := s.(mv := s.mv.(won := true)), s2c := DualNext)
    case StoreDual => f.(s := s.(mv := s.mv.(dual := false)), s2c := DueNext)
    case StoreDue => f.(s := s.(fl := s.fl.(due := false)), s2c := ChangedNext)
    case StoreChanged => f.(s := s.(fl := s.fl.(changed := true)), s2c := Free)
    case TickTake(carried, timer, volume) =>
      f.(s := DoTake(e, s, carried, timer, volume), raising := FallsDue(e, Informed(e.cfg, s, carried, timer, volume)))
    case TickRaise => f.(s := s.(fl := s.fl.(due := true)), raising := false)
    case PollAct(p, d, r, c) => f.(s := DoPollAct(s, p, d, r, c))
    case RefuseLate => f.(s := s.(mv := s.mv.(refused := true)))
  }

  /** s2c has lowered the due flag and not yet said that the port changed. */
  predicate HalfTold(f: Fine) {
    f.s2c == ChangedNext || f.s2c == Redialed
  }

  // ---- What every run keeps ----

  predicate PortKept(e: Env, s: State) {
    && InSet(e, s.ep.port) && |s.silent.bad| == BAD_N
    && (s.mv.dual ==> s.mv.oldFd >= 0)
    && (s.mv.pending ==>
          s.ep.fd >= 0 && s.ep.fd2 < 0 && s.ep.port == s.mv.to != s.mv.from && InSet(e, s.mv.from))
  }

  /** No wake-up is lost: a main loop that waits for a move while the flag is
      down has news waiting or on its way, or is about to raise the flag. */
  predicate NoWakeUpLost(e: Env, f: Fine) {
    var fl := f.s.fl;
    && (f.s.main.due && !fl.due ==> fl.changed || fl.failed || f.raising || HalfTold(f))
    && (fl.force ==> f.s.main.due && e.softOn)
    && (f.raising ==> f.s.main.due && !fl.failed)
  }

  predicate CoreInv(e: Env, f: Fine) {
    && SocketsAccounted(f.s) && PortKept(e, f.s) && MovesAccounted(f.s)
    && NoWakeUpLost(e, f) && ScheduleTracked(e.cfg, f.s.main)
  }

  lemma MoveSockets(s: State, soft: bool, to: int, keep: int, connects: bool, now: nat)
    requires SocketsAccounted(s) && (keep == NONE || Fresh(keep, s.open))
    ensures SocketsAccounted(DoMove(s, soft, to, keep, connects, now))
  {}

  lemma RedialSockets(e: Env, s: State, dial: Dial)
    requires SocketsAccounted(s) && Enabled(e, s, Reconnect(dial))
    ensures SocketsAccounted(DoRedial(s, dial))
  {
    hide InSet;
  }

  lemma OtherSockets(s: State, useAlt: bool, p: bool, d: bool, r: bool, connects: bool)
    requires SocketsAccounted(s)
    ensures SocketsAccounted(DoFinishProbe(s, useAlt)) && SocketsAccounted(DoPollAct(s, p, d, r, connects))
  {
    hide WriteOff;
  }

  lemma FineSocketsKept(e: Env, f: Fine, st: FineStep)
    requires SocketsAccounted(f.s) && FineEnabled(e, f, st)
    ensures SocketsAccounted(FineApply(e, f, st).s)
  {
    hide InSet, One, DoMove, DoRedial, DoFinishProbe, DoPollAct, DoTake, FallsDue, Wrap32, Informed, FreshDial;
    TakeKeepsPort(e, f.s, st);
    match st
    case LockedMove(soft, to, keep, connects, now) => MoveSockets(f.s, soft, to, keep, connects, now);
    case LockedProbe(useAlt) => OtherSockets(f.s, useAlt, false, false, false, false);
    case Redial(dial) => RedialSockets(e, f.s, dial);
    case PollAct(p, d, r, c) => OtherSockets(f.s, false, p, d, r, c);
    case _ =>
  }

  /** The first half of a tick leaves ports, moves and sockets alone. */
  lemma TakeKeepsPort(e: Env, s: State, st: FineStep)
    ensures st.TickTake? ==>
              var r := DoTake(e, s, st.carried, st.timer, st.volume);
              r.ep == s.ep && r.mv == s.mv && r.open == s.open && r.ends == s.ends && r.silent == s.silent
              && r.fl.due == s.fl.due && !r.fl.changed && !r.fl.failed
  {}

  lemma FinePortKept(e: Env, f: Fine, st: FineStep)
    requires SocketsAccounted(f.s) && PortKept(e, f.s) && MovesAccounted(f.s) && FineEnabled(e, f, st)
    ensures PortKept(e, FineApply(e, f, st).s) && MovesAccounted(FineApply(e, f, st).s)
  {
    hide InSet, One, DoTake, FallsDue, Wrap32, Informed;
    TakeKeepsPort(e, f.s, st);
  }

  lemma FineWakeUpKept(e: Env, f: Fine, st: FineStep)
    requires NoWakeUpLost(e, f) && FineEnabled(e, f, st)
    ensures NoWakeUpLost(e, FineApply(e, f, st))
  {
    hide InSet, One, IsDue, Wrap32, Since, Reset, WriteOff;
  }

  lemma FineScheduleKept(e: Env, f: Fine, st: FineStep)
    requires GoodEnv(e) && ScheduleTracked(e.cfg, f.s.main) && FineEnabled(e, f, st)
    ensures ScheduleTracked(e.cfg, FineApply(e, f, st).s.main)
  {
    hide InSet, One, IsDue, Wrap32, Since, Informed, WriteOff;
    if st.TickTake? {
      InformedTracked(e.cfg, f.s, st.carried, st.timer, st.volume);
    }
  }

  /** Every store of every thread, in every state it can be made in. */
  lemma FineStepKeepsCore(e: Env, f: Fine, st: FineStep)
    requires GoodEnv(e) && CoreInv(e, f) && FineEnabled(e, f, st)
    ensures CoreInv(e, FineApply(e, f, st))
  {
    hide *;
    CoreParts(e, f);
    FineSocketsKept(e, f, st);
    FinePortKept(e, f, st);
    FineWakeUpKept(e, f, st);
    FineScheduleKept(e, f, st);
    CoreParts(e, FineApply(e, f, st));
  }

  lemma CoreParts(e: Env, f: Fine)
    ensures CoreInv(e, f) <==>
            && SocketsAccounted(f.s) && PortKept(e, f.s) && MovesAccounted(f.s)
            && NoWakeUpLost(e, f) && ScheduleTracked(e.cfg, f.s.main)
  {}

  /** When the flag rises, at this grain too: only the second half of a tick
      raises it, and the first half calls for that exactly when the port was
      not due before and is due by the unwrapped schedule. Nothing but a tick
      touches the schedule in between. */
  lemma FineFlagRises(e: Env, f: Fine, st: FineStep)
    requires GoodEnv(e) && CoreInv(e, f) && FineEnabled(e, f, st)
    ensures
      var r := FineApply(e, f, st);
      && (!f.s.fl.due && r.s.fl.due ==> st.TickRaise? && f.raising)
      && (!st.TickTake? ==> r.s.main == f.s.main)
      && (st.TickTake? && InRange(r.s.main) ==>
            (r.raising <==> DueAt(e.cfg, r.s.main) && !(f.s.main.due && !f.s.fl.changed && !f.s.fl.failed)))
  {
    hide InSet, One, WriteOff, Wrap32, Since, Reset, IsDue, ScheduleTracked, SocketsAccounted, PortKept, MovesAccounted,
         NoWakeUpLost;
    if st.TickTake? {
      var m := Informed(e.cfg, f.s, st.carried, st.timer, st.volume);
      InformedTracked(e.cfg, f.s, st.carried, st.timer, st.volume);
      if InRange(m) {
        IsDueExact(e.cfg, m);
      }
    }
  }

  // ---- What a late store breaks, and only it ----

  /** A pending move is doubled exactly while its old socket is held, and not
      called won. */
  predicate MoveExact(f: Fine) {
    var mv := f.s.mv;
    && (mv.pending ==> (mv.dual <==> mv.oldFd >= 0) && !mv.won)
    && (f.s2c == WonNext ==> !mv.pending)
    && (f.s2c == DualNext ==> !(mv.pending && mv.oldFd >= 0))
  }

  /** The flag is up only while the main loop thinks so and no news waits. */
  predicate FlagExact(f: Fine) {
    f.s.fl.due ==> f.s.main.due && !f.s.fl.changed && !f.s.fl.failed && !HalfTold(f)
  }

  /** The step starts a move whose flags a late store of the last answer will
      overwrite. */
  predicate SlipsIn(f: Fine, st: FineStep) {
    && st.LockedMove? && (f.s2c == WonNext || (f.s2c == DualNext && st.keep >= 0))
    && !f.s.mv.pending && f.s.mv.oldFd < 0 && f.s.ep.fd >= 0 && f.s.ep.fd2 < 0
    && st.to != f.s.ep.port && (st.soft ==> st.keep >= 0) && st.connects
  }

  /** The step raises the flag although the port has changed, or is being
      changed, since the tick looked. */
  predicate LateRaise(f: Fine, st: FineStep) {
    st.TickRaise? && (f.s.fl.changed || HalfTold(f))
  }

  lemma MoveExactKeptIff(e: Env, f: Fine, st: FineStep)
    requires CoreInv(e, f) && MoveExact(f) && FineEnabled(e, f, st)
    ensures MoveExact(FineApply(e, f, st)) <==> !SlipsIn(f, st)
  {
    hide InSet, One, DoTake, FallsDue, Wrap32, Informed, ScheduleTracked, SocketsAccounted, MovesAccounted, NoWakeUpLost,
         WriteOff;
    TakeKeepsPort(e, f.s, st);
  }

  lemma FlagExactKeptIff(e: Env, f: Fine, st: FineStep)
    requires CoreInv(e, f) && FlagExact(f) && FineEnabled(e, f, st)
    ensures FlagExact(FineApply(e, f, st)) <==> !LateRaise(f, st)
  {
    hide InSet, One, IsDue, Wrap32, Since, Reset, WriteOff, ScheduleTracked, SocketsAccounted, MovesAccounted, PortKept;
  }

  /** Between stores, both together with the core are the coarse invariant. */
  lemma SettledIff(e: Env, f: Fine)
    requires (f.s2c == Free || f.s2c == CasNext) && !f.raising
    ensures Inv(e, f.s) <==> CoreInv(e, f) && MoveExact(f) && FlagExact(f)
  {
    hide InSet, SocketsAccounted, MovesAccounted, ScheduleTracked;
  }

  // ---- Whole runs ----

  ghost predicate FineReaches(e: Env, f: Fine, steps: seq<FineStep>, f': Fine)
    decreases |steps|
  {
    if |steps| == 0 then f' == f
    else FineEnabled(e, f, steps[0]) && FineReaches(e, FineApply(e, f, steps[0]), steps[1..], f')
  }

  /** In every run whatever, at every point between any two stores: exactly the
      named sockets are open, every move has ended once or is pending at its
      target, the port is in the set, no wake-up is lost, and the schedule is
      what was drawn. */
  lemma {:induction false} EveryFineRunKeepsCore(e: Env, f: Fine, steps: seq<FineStep>, f': Fine)
    requires GoodEnv(e) && CoreInv(e, f) && FineReaches(e, f, steps, f')
    ensures CoreInv(e, f')
    decreases |steps|
  {
    hide CoreInv, FineApply, FineEnabled, GoodEnv;
    if |steps| == 0 {
    } else {
      FineStepKeepsCore(e, f, steps[0]);
      EveryFineRunKeepsCore(e, FineApply(e, f, steps[0]), steps[1..], f');
    }
  }

  /** No step of the run is a move that slips in, or a late raise. */
  ghost predicate Undisturbed(e: Env, f: Fine, steps: seq<FineStep>)
    decreases |steps|
  {
    |steps| > 0 && FineEnabled(e, f, steps[0]) ==>
      !SlipsIn(f, steps[0]) && !LateRaise(f, steps[0]) && Undisturbed(e, FineApply(e, f, steps[0]), steps[1..])
  }

  lemma {:induction false} UndisturbedRunIsExact(e: Env, f: Fine, steps: seq<FineStep>, f': Fine)
    requires GoodEnv(e) && CoreInv(e, f) && MoveExact(f) && FlagExact(f)
    requires FineReaches(e, f, steps, f') && Undisturbed(e, f, steps)
    ensures CoreInv(e, f') && MoveExact(f') && FlagExact(f')
    decreases |steps|
  {
    hide CoreInv, MoveExact, FlagExact, SlipsIn, LateRaise, FineApply, FineEnabled, GoodEnv;
    if |steps| == 0 {
    } else {
      FineStepKeepsCore(e, f, steps[0]);
      MoveExactKeptIff(e, f, steps[0]);
      FlagExactKeptIff(e, f, steps[0]);
      UndisturbedRunIsExact(e, FineApply(e, f, steps[0]), steps[1..], f');
    }
  }

  /** So whatever the threads do from the start keeps the core, and without the
      two late stores every settled state satisfies the coarse invariant. */
  lemma FineReachable(e: Env, s: State, steps: seq<FineStep>, f: Fine)
    requires GoodEnv(e) && Initial(e, s) && FineReaches(e, Fine(s, Free, false), steps, f)
    ensures CoreInv(e, f)
    ensures Undisturbed(e, Fine(s, Free, false), steps) && f.s2c == Free && !f.raising ==> Inv(e, f.s)
  {
    hide Inv, CoreInv, MoveExact, FlagExact, Initial, FineReaches, Undisturbed, GoodEnv;
    InitialInv(e, s);
    SettledIff(e, Fine(s, Free, false));
    EveryFineRunKeepsCore(e, Fine(s, Free, false), steps, f);
    if Undisturbed(e, Fine(s, Free, false), steps) && f.s2c == Free && !f.raising {
      UndisturbedRunIsExact(e, Fine(s, Free, false), steps, f);
      SettledIff(e, f);
    }
  }

  // ---- The coarse steps are runs of the fine ones ----

  /** The stores a coarse step stands for, made without a break. */
  function Stores(e: Env, s: State, st: Step): (r: seq<FineStep>)
    requires Enabled(e, s, st)
  {
    match st
    case Move(soft, to, keep, connects, now) => [LockedMove(soft, to, keep, connects, now)]
    case Answer(now) => if s.mv.pending then [Stamp(now), Cas, StoreWon, StoreDual, StoreDue, StoreChanged] else []
    case Reconnect(dial) => if dial.Dialed? then [Redial(dial), StoreChanged] else [Redial(dial)]
    case FinishProbe(useAlt) => [LockedProbe(useAlt)]
    case Tick(carried, timer, volume) =>
      [TickTake(carried, timer, volume)]
      + if FallsDue(e, Informed(e.cfg, s, carried, timer, volume)) then [TickRaise] else []
    case Poll(now, connects) =>
      if PollActs(s.mv, now) then [PollAct(s.mv.pending, s.mv.dual, s.mv.refused, connects)] else []
    case Refuse => if s.mv.pending then [RefuseLate] else []
  }

  lemma ReachesOne(e: Env, f: Fine, st: FineStep)
    requires FineEnabled(e, f, st)
    ensures FineReaches(e, f, [st], FineApply(e, f, st))
  {
    hide FineEnabled, FineApply;
    assert [st][1..] == [];
  }

  lemma {:induction false} ReachesOn(e: Env, f: Fine, a: seq<FineStep>, g: Fine, b: seq<FineStep>, h: Fine)
    requires FineReaches(e, f, a, g) && FineReaches(e, g, b, h)
    ensures FineReaches(e, f, a + b, h)
    decreases |a|
  {
    hide FineEnabled, FineApply;
    if |a| == 0 {
      assert a + b == b;
    } else {
      ReachesOn(e, FineApply(e, f, a[0]), a[1..], g, b, h);
      assert (a + b)[1..] == a[1..] + b;
    }
  }

  /** One more step in front of a run. */
  lemma ReachesFrom(e: Env, f: Fine, st: FineStep, g: Fine, steps: seq<FineStep>, h: Fine)
    requires |steps| > 0 && steps[0] == st && FineEnabled(e, f, st) && g == FineApply(e, f, st)
    requires FineReaches(e, g, steps[1..], h)
    ensures FineReaches(e, f, steps, h)
  {
    hide FineEnabled, FineApply;
  }

  /** rot_answered is its six stores. */
  lemma AnswerIsItsStores(e: Env, s: State, now: nat)
    requires now >= s.mv.t0 && s.mv.pending
    ensures FineReaches(e, Fine(s, Free, false), [Stamp(now), Cas, StoreWon, StoreDual, StoreDue, StoreChanged],
                        Fine(DoAnswer(s, now), Free, false))
  {
    hide FineReaches, Wrap32, Odd, InSet, DoMove, DoRedial, DoTake, DoFinishProbe, DoPollAct, Enabled, Draws, FallsDue, Informed;
    var steps := [Stamp(now), Cas, StoreWon, StoreDual, StoreDue, StoreChanged];
    var f0 := Fine(s, Free, false);
    var f1 := FineApply(e, f0, Stamp(now));
    var f2 := FineApply(e, f1, Cas);
    var f3 := FineApply(e, f2, StoreWon);
    var f4 := FineApply(e, f3, StoreDual);
    var f5 := FineApply(e, f4, StoreDue);
    var f6 := FineApply(e, f5, StoreChanged);
    assert f6 == Fine(DoAnswer(s, now), Free, false);
    SixSteps(e, f0, f1, f2, f3, f4, f5, f6, steps);
  }

  lemma SixSteps(e: Env, f0: Fine, f1: Fine, f2: Fine, f3: Fine, f4: Fine, f5: Fine, f6: Fine, steps: seq<FineStep>)
    requires |steps| == 6
    requires FineEnabled(e, f0, steps[0]) && f1 == FineApply(e, f0, steps[0])
    requires FineEnabled(e, f1, steps[1]) && f2 == FineApply(e, f1, steps[1])
    requires FineEnabled(e, f2, steps[2]) && f3 == FineApply(e, f2, steps[2])
    requires FineEnabled(e, f3, steps[3]) && f4 == FineApply(e, f3, steps[3])
    requires FineEnabled(e, f4, steps[4]) && f5 == FineApply(e, f4, steps[4])
    requires FineEnabled(e, f5, steps[5]) && f6 == FineApply(e, f5, steps[5])
    ensures FineReaches(e, f0, steps, f6)
  {
    hide FineReaches, FineEnabled, FineApply;
    ReachesNone(e, f6);
    assert steps[6..] == [];
    ReachesFrom(e, f5, steps[5], f6, steps[5..], f6);
    ReachesFrom(e, f4, steps[4], f5, steps[4..], f6);
    ReachesFrom(e, f3, steps[3], f4, steps[3..], f6);
    ReachesFrom(e, f2, steps[2], f3, steps[2..], f6);
    ReachesFrom(e, f1, steps[1], f2, steps[1..], f6);
    ReachesFrom(e, f0, steps[0], f1, steps, f6);
  }

  /** do_reconnect_locked, and rot_main_tick. */
  lemma ReconnectIsItsStores(e: Env, s: State, dial: Dial)
    requires Enabled(e, s, Reconnect(dial))
    ensures FineReaches(e, Fine(s, Free, false), Stores(e, s, Reconnect(dial)), Fine(DoReconnect(s, dial), Free, false))
  {
    hide FineReaches, InSet, One;
    var f := Fine(s, Free, false);
    var g := FineApply(e, f, Redial(dial));
    if dial.Dialed? {
      ReachesOne(e, g, StoreChanged);
      ReachesFrom(e, f, Redial(dial), g, [Redial(dial), StoreChanged], Fine(DoReconnect(s, dial), Free, false));
    } else {
      ReachesOne(e, f, Redial(dial));
    }
  }

  lemma TickIsItsStores(e: Env, s: State, carried: nat, timer: nat, volume: nat)
    requires Draws(e.cfg, timer, volume)
    ensures FineReaches(e, Fine(s, Free, false), Stores(e, s, Tick(carried, timer, volume)),
                        Fine(DoTick(e, s, carried, timer, volume), Free, false))
  {
    hide FineReaches, InSet, Informed, IsDue, Wrap32, Since;
    var f, take := Fine(s, Free, false), TickTake(carried, timer, volume);
    var g := FineApply(e, f, take);
    if FallsDue(e, Informed(e.cfg, s, carried, timer, volume)) {
      ReachesOne(e, g, TickRaise);
      ReachesFrom(e, f, take, g, [take] + [TickRaise], Fine(DoTick(e, s, carried, timer, volume), Free, false));
    } else {
      ReachesOne(e, f, take);
      assert [take] + [] == [take];
    }
  }

  lemma CoarseStepIsFine(e: Env, s: State, st: Step)
    requires Enabled(e, s, st)
    ensures FineReaches(e, Fine(s, Free, false), Stores(e, s, st), Fine(Apply(e, s, st), Free, false))
  {
    hide FineReaches, DoAnswer, DoReconnect, DoTick, DoMove, DoFinishProbe, InSet, PollActs;
    var f := Fine(s, Free, false);
    match st
    case Answer(now) =>
      if s.mv.pending {
        AnswerIsItsStores(e, s, now);
      } else {
        ReachesNone(e, f);
        AnswerIdle(s, now);
      }
    case Reconnect(dial) => ReconnectIsItsStores(e, s, dial);
    case Tick(carried, timer, volume) => TickIsItsStores(e, s, carried, timer, volume);
    case Move(soft, to, keep, connects, now) => ReachesOne(e, f, LockedMove(soft, to, keep, connects, now));
    case FinishProbe(useAlt) => ReachesOne(e, f, LockedProbe(useAlt));
    case Poll(now, connects) =>
      if PollActs(s.mv, now) {
        ReachesOne(e, f, PollAct(s.mv.pending, s.mv.dual, s.mv.refused, connects));
      } else {
        ReachesNone(e, f);
      }
    case Refuse =>
      ReachesNone(e, f);
      ReachesOne(e, f, RefuseLate);
  }

  lemma AnswerIdle(s: State, now: nat)
    ensures !s.mv.pending ==> DoAnswer(s, now) == s
  {}

  lemma ReachesNone(e: Env, f: Fine)
    ensures FineReaches(e, f, [], f)
  {}

  /** Every run of the coarse system is one of the fine system. */
  lemma {:induction false} CoarseRunIsFine(e: Env, s: State, steps: seq<Step>, s': State)
    requires Reaches(e, s, steps, s')
    ensures exists fine: seq<FineStep> :: FineReaches(e, Fine(s, Free, false), fine, Fine(s', Free, false))
    decreases |steps|
  {
    hide Apply, Enabled, FineReaches, Stores;
    if |steps| == 0 {
      ReachesNone(e, Fine(s, Free, false));
    } else {
      var t := Apply(e, s, steps[0]);
      CoarseStepIsFine(e, s, steps[0]);
      CoarseRunIsFine(e, t, steps[1..], s');
      var rest :| FineReaches(e, Fine(t, Free, false), rest, Fine(s', Free, false));
      ReachesOn(e, Fine(s, Free, false), Stores(e, s, steps[0]), Fine(t, Free, false), rest, Fine(s', Free, false));
    }
  }
}
