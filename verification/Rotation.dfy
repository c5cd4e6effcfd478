/** Port rotation (src/proxy.c) as a transition system. The three threads take
    turns; each step below is one critical section of one of them and happens
    at once. What the kernel and the clock contribute comes with the step. */
module Rotation {
  import opened Bytes
  import opened PortSet
  import opened Schedule

  const VERIFY_MS := 2000
  const VERIFY_DUAL_MS := 3000
  const GRACE_MS := 3000
  const BAD_N := 8
  const NONE := -1

  datatype Env = Env(cfg: RotCfg, softOn: bool, ports: PortSet)

  predicate InSet(e: Env, port: int) {
    port in Ports(e.ports.ranges)
  }

  /** remote_fd, remote_fd2 and remote_port, under remote_mu. */
  datatype Endpoint = Endpoint(fd: int, fd2: int, port: int)

  /** The move under way, or the last one. */
  datatype Moving = Moving(pending: bool, refused: bool, won: bool, dual: bool, oldFd: int,
                           from: int, to: int, t0: nat, ansMs: nat)

  /** What the threads tell each other: rot_due, rot_changed, rot_failed, rot_force. */
  datatype Flags = Flags(due: bool, changed: bool, failed: bool, force: bool)

  /** The ports that stayed silent. */
  datatype Silent = Silent(bad: seq<int>, next: nat)

  /** The main loop's view, and next to its wrapped schedule the same one in
      ticks that do not wrap. */
  datatype MainLoop = MainLoop(tick: nat, sched: Sched, due: bool, dueAt: Word,
                               resetAt: nat, deadlineAt: nat, retryAt: nat)

  /** How the moves so far ended. */
  datatype Ends = Ends(moves: nat, answered: nat, wentBack: nat, cancelled: nat)

  datatype State = State(ep: Endpoint, mv: Moving, fl: Flags, silent: Silent, main: MainLoop,
                         open: set<int>, ends: Ends)

  datatype Dial = DialFailed(port: int) | Dialed(port: int, fd: int, fd2: int)

  datatype Step =
    | Move(soft: bool, to: int, keep: int, connects: bool, now: nat)
    | Answer(now: nat)
    | Reconnect(dial: Dial)
    | FinishProbe(useAlt: bool)
    | Tick(carried: nat, timer: nat, volume: nat)
    | Poll(now: nat, connects: bool)
    | Refuse

  function One(fd: int): (s: set<int>) {
    if fd >= 0 then {fd} else {}
  }

  predicate Fresh(fd: int, open: set<int>) {
    fd >= 0 && fd !in open
  }

  /** What a step may bring from outside: sockets not open yet, ports of the
      set, draws from their spans, a clock that does not run backwards. */
  predicate Enabled(e: Env, s: State, st: Step) {
    match st
    case Move(_, to, keep, _, _) =>
      (to == s.ep.port || (InSet(e, to) && to !in s.silent.bad)) && (keep == NONE || Fresh(keep, s.open))
    case Answer(now) => now >= s.mv.t0
    case Reconnect(dial) =>
      InSet(e, dial.port) && (dial.Dialed? ==> FreshDial(dial, s.open - One(s.ep.fd) - One(s.ep.fd2)))
    case FinishProbe(_) => true
    case Tick(_, timer, volume) => Draws(e.cfg, timer, volume)
    case Poll(now, _) => now >= s.mv.t0
    case Refuse => true
  }

  predicate FreshDial(d: Dial, open: set<int>)
    requires d.Dialed?
  {
    Fresh(d.fd, open) && (d.fd2 == NONE || (Fresh(d.fd2, open) && d.fd2 != d.fd))
  }

  predicate Draws(c: RotCfg, timer: nat, volume: nat) {
    (c.tLo != 0 ==> DrawnFrom(timer, c.tLo, c.tHi)) && (c.mbLo != 0 ==> DrawnFrom(volume, c.mbLo, c.mbHi))
  }

  /** rot_move, behind the test of the c2s thread. That test also asks for the
      due flag; a reconnect may drop the flag between the test and the move,
      so the step does not rely on it. */
  function DoMove(s: State, soft: bool, to: int, keep: int, connects: bool, now: nat): (r: State) {
    if s.mv.pending || s.mv.oldFd >= 0 then s
    else if s.ep.fd < 0 || s.ep.fd2 >= 0 || to == s.ep.port then s
    else if soft && keep < 0 then s
    else if !connects then s
    else
      s.(ep := s.ep.(port := to),
         mv := Moving(true, false, false, keep >= 0, keep, s.ep.port, to, now, 0),
         open := s.open + One(keep), ends := s.ends.(moves := s.ends.moves + 1))
  }

  /** x | 1 */
  function Odd(x: nat): (r: nat) {
    if x % 2 == 0 then x + 1 else x
  }

  /** rot_answered, behind the s2c thread's test of the state. */
  function DoAnswer(s: State, now: nat): (r: State) {
    if !s.mv.pending then s
    else
      s.(mv := s.mv.(pending := false, won := true, dual := false, ansMs := Odd(Wrap32(now - s.mv.t0))),
         fl := s.fl.(due := false, changed := true),
         ends := s.ends.(answered := s.ends.answered + 1))
  }

  /** do_reconnect_locked: a failed dial leaves no socket, but has already
      drawn a port and ended any pending move. */
  function DoReconnect(s: State, dial: Dial): (r: State) {
    var mv := s.mv.(pending := false);
    var ends := if s.mv.pending then s.ends.(cancelled := s.ends.cancelled + 1) else s.ends;
    var open := s.open - One(s.ep.fd) - One(s.ep.fd2);
    match dial
    case DialFailed(port) => s.(ep := Endpoint(NONE, NONE, port), mv := mv, open := open, ends := ends)
    case Dialed(port, fd, fd2) =>
      s.(ep := Endpoint(fd, fd2, port), mv := mv, open := open + One(fd) + One(fd2), ends := ends,
         fl := s.fl.(due := false, changed := true))
  }

  /** he_finish */
  function DoFinishProbe(s: State, useAlt: bool): (r: State) {
    if s.ep.fd2 < 0 then s
    else if useAlt then s.(ep := Endpoint(s.ep.fd2, NONE, s.ep.port), open := s.open - One(s.ep.fd))
    else s.(ep := s.ep.(fd2 := NONE), open := s.open - One(s.ep.fd2))
  }

  /** rot_main_tick takes the news "the port changed": a fresh schedule. */
  function TakeChanged(c: RotCfg, m: MainLoop, timer: nat, volume: nat): (r: MainLoop) {
    MainLoop(m.tick, Reset(c, Wrap32(m.tick), timer, volume), false, m.dueAt,
             m.tick, if c.tLo != 0 then m.tick + timer else 0, m.tick)
  }

  /** ... and the news "a port stayed silent": back off. */
  function TakeFailed(c: RotCfg, m: MainLoop): (r: MainLoop) {
    m.(due := false, sched := m.sched.(retry := Wrap32(m.tick + c.retry as int)), retryAt := m.tick + c.retry as int)
  }

  /** The main loop's view once the traffic and the news are folded in. */
  function Informed(c: RotCfg, s: State, carried: nat, timer: nat, volume: nat): (r: MainLoop) {
    var m := s.main.(tick := s.main.tick + 1, sched := s.main.sched.(bytes := s.main.sched.bytes + carried));
    var m' := if s.fl.changed then TakeChanged(c, m, timer, volume) else m;
    if s.fl.failed then TakeFailed(c, m') else m'
  }

  /** rot_main_tick, right after the main loop advanced its clock. */
  function DoTick(e: Env, s: State, carried: nat, timer: nat, volume: nat): (r: State) {
    var m := Informed(e.cfg, s, carried, timer, volume);
    var force := s.fl.force && !s.fl.changed && !s.fl.failed;
    if m.due then
      var forced := force || (e.softOn && Since(Wrap32(m.tick), m.dueAt) >= e.cfg.force);
      s.(main := m, fl := Flags(s.fl.due, false, false, forced))
    else if !IsDue(e.cfg, m.sched, Wrap32(m.tick)) then s.(main := m, fl := Flags(s.fl.due, false, false, force))
    else s.(main := m.(due := true, dueAt := Wrap32(m.tick)), fl := Flags(true, false, false, force))
  }

  /** rot_main_poll has something to do: a pending move ran out of time or was
      refused, or the old port's grace is over. */
  predicate PollActs(mv: Moving, now: nat)
    requires now >= mv.t0
  {
    var age := now - mv.t0;
    if mv.pending then mv.refused || age >= (if mv.dual then VERIFY_DUAL_MS else VERIFY_MS)
    else mv.oldFd >= 0 && age >= mv.ansMs + GRACE_MS
  }

  /** A port written off goes round the ring of silent ones. */
  function WriteOff(b: Silent, port: int): (r: Silent) {
    Silent(if |b.bad| == BAD_N then b.bad[b.next % BAD_N := port] else b.bad, b.next + 1)
  }

  /** rot_main_poll: a move that stays unanswered, or is refused, goes back;
      the old port's socket is closed once its grace is over. */
  function DoPoll(s: State, now: nat, connects: bool): (r: State)
    requires now >= s.mv.t0
  {
    if !PollActs(s.mv, now) then s
    else if s.mv.pending then
      s.(mv := s.mv.(pending := false, dual := false),
         ep := if s.ep.fd >= 0 && connects then s.ep.(port := s.mv.from) else s.ep,
         silent := if !s.mv.dual || s.mv.refused then WriteOff(s.silent, s.mv.to) else s.silent,
         fl := s.fl.(due := false, failed := true), ends := s.ends.(wentBack := s.ends.wentBack + 1))
    else s.(mv := s.mv.(oldFd := NONE, dual := false), open := s.open - One(s.mv.oldFd))
  }

  function Apply(e: Env, s: State, st: Step): (r: State)
    requires Enabled(e, s, st)
  {
    match st
    case Move(soft, to, keep, connects, now) => DoMove(s, soft, to, keep, connects, now)
    case Answer(now) => DoAnswer(s, now)
    case Reconnect(dial) => DoReconnect(s, dial)
    case FinishProbe(useAlt) => DoFinishProbe(s, useAlt)
    case Tick(carried, timer, volume) => DoTick(e, s, carried, timer, volume)
    case Poll(now, connects) => DoPoll(s, now, connects)
    case Refuse => if s.mv.pending then s.(mv := s.mv.(refused := true)) else s
  }

  // ---- Invariants ----

  predicate GoodEnv(e: Env) {
    GoodCfg(e.cfg)
  }

  /** Exactly the sockets the fields name are open, and they are different
      ones: none leaked, none closed twice, at most one kept for an old port. */
  predicate SocketsAccounted(s: State) {
    var fd, fd2, kept := s.ep.fd, s.ep.fd2, s.mv.oldFd;
    && fd >= NONE && fd2 >= NONE && kept >= NONE
    && s.open == One(fd) + One(fd2) + One(kept)
    && (fd >= 0 ==> fd != fd2 && fd != kept) && (fd2 >= 0 ==> fd2 != kept && fd >= 0)
  }

  predicate MoveConsistent(e: Env, s: State) {
    && InSet(e, s.ep.port) && |s.silent.bad| == BAD_N
    && (s.mv.dual ==> s.mv.oldFd >= 0)
    && (s.mv.pending ==>
          && s.ep.fd >= 0 && s.ep.fd2 < 0
          && s.ep.port == s.mv.to != s.mv.from && InSet(e, s.mv.from)
          && (s.mv.dual <==> s.mv.oldFd >= 0) && !s.mv.won)
  }

  /** Every move ended exactly once, or is still pending. */
  predicate MovesAccounted(s: State) {
    s.ends.moves == s.ends.answered + s.ends.wentBack + s.ends.cancelled + (if s.mv.pending then 1 else 0)
  }

  /** No wake-up is lost: the flag is up only while the main loop thinks so and
      no news is waiting, and when the main loop thinks so with the flag down,
      news that will make it think again is waiting. */
  predicate WakeUpKept(e: Env, s: State) {
    && (s.fl.due ==> s.main.due && !s.fl.changed && !s.fl.failed)
    && (s.main.due && !s.fl.due ==> s.fl.changed || s.fl.failed)
    && (s.fl.force ==> s.main.due && e.softOn)
  }

  /** The wrapped schedule stands for the unwrapped one. */
  predicate ScheduleTracked(c: RotCfg, m: MainLoop) {
    && m.resetAt <= m.tick
    && m.sched.retry == Wrap32(m.retryAt) && m.resetAt <= m.retryAt <= m.tick + c.retry as int
    && (c.tLo != 0 ==>
          m.sched.deadline == Wrap32(m.deadlineAt) && m.resetAt + c.tLo as int <= m.deadlineAt <= m.resetAt + c.tHi as int)
    && (m.sched.vol != 0 ==> c.mbLo as int * 0x10_0000 <= m.sched.vol <= c.mbHi as int * 0x10_0000)
  }

  predicate Inv(e: Env, s: State) {
    SocketsAccounted(s) && MoveConsistent(e, s) && MovesAccounted(s) && WakeUpKept(e, s) && ScheduleTracked(e.cfg, s.main)
  }

  /** The state the threads start from: dialled, the schedule freshly drawn. */
  ghost predicate Initial(e: Env, s: State) {
    && s.ep.fd >= 0 && s.ep.fd2 >= NONE && s.ep.fd2 != s.ep.fd && InSet(e, s.ep.port)
    && s.mv == Moving(false, false, false, false, NONE, 0, 0, 0, 0)
    && s.fl == Flags(false, false, false, false)
    && |s.silent.bad| == BAD_N
    && s.open == One(s.ep.fd) + One(s.ep.fd2) && s.ends == Ends(0, 0, 0, 0)
    && exists timer: nat, volume: nat ::
         Draws(e.cfg, timer, volume) && s.main == TakeChanged(e.cfg, MainLoop(0, Sched(0, 0, 0, 0), false, 0, 0, 0, 0), timer, volume)
  }

  lemma InitialInv(e: Env, s: State)
    requires GoodEnv(e) && Initial(e, s)
    ensures Inv(e, s)
  {
    hide InSet;
  }

  lemma SocketsKept(e: Env, s: State, st: Step)
    requires Inv(e, s) && Enabled(e, s, st)
    ensures SocketsAccounted(Apply(e, s, st))
  {
    hide InSet, IsDue, Informed, ScheduleTracked, WakeUpKept, PollActs, Since, Wrap32;
  }

  lemma MovesKept(e: Env, s: State, st: Step)
    requires Inv(e, s) && Enabled(e, s, st)
    ensures MoveConsistent(e, Apply(e, s, st)) && MovesAccounted(Apply(e, s, st))
  {
    hide InSet, IsDue, Informed, ScheduleTracked, WakeUpKept, PollActs, Since, Wrap32, One;
  }

  lemma WakeUpsKept(e: Env, s: State, st: Step)
    requires Inv(e, s) && Enabled(e, s, st)
    ensures WakeUpKept(e, Apply(e, s, st))
  {
    hide InSet, IsDue, Reset, ScheduleTracked, SocketsAccounted, MoveConsistent, PollActs, Since, Wrap32, One;
  }

  lemma ScheduleKept(e: Env, s: State, st: Step)
    requires GoodEnv(e) && Inv(e, s) && Enabled(e, s, st)
    ensures ScheduleTracked(e.cfg, Apply(e, s, st).main)
  {
    hide InSet, IsDue, Since, One, SocketsAccounted, MoveConsistent, WakeUpKept, PollActs, Informed, Wrap32, Reset;
    if st.Tick? {
      InformedTracked(e.cfg, s, st.carried, st.timer, st.volume);
    }
  }

  lemma InformedTracked(c: RotCfg, s: State, carried: nat, timer: nat, volume: nat)
    requires GoodCfg(c) && ScheduleTracked(c, s.main) && Draws(c, timer, volume)
    ensures ScheduleTracked(c, Informed(c, s, carried, timer, volume))
  {
    if s.fl.changed {
      WrapSum(s.main.tick + 1, timer);
    }
  }

  lemma WrapSum(a: nat, b: nat)
    ensures Wrap32(Wrap32(a) as int + b) == Wrap32(a + b)
  {}

  lemma StepKeepsInv(e: Env, s: State, st: Step)
    requires GoodEnv(e) && Inv(e, s) && Enabled(e, s, st)
    ensures Inv(e, Apply(e, s, st))
  {
    SocketsKept(e, s, st);
    MovesKept(e, s, st);
    WakeUpsKept(e, s, st);
    ScheduleKept(e, s, st);
  }

  // ---- Whole runs ----

  /** s' is reached from s by the steps in order, each one enabled. */
  ghost predicate Reaches(e: Env, s: State, steps: seq<Step>, s': State)
    decreases |steps|
  {
    if |steps| == 0 then s' == s
    else Enabled(e, s, steps[0]) && Reaches(e, Apply(e, s, steps[0]), steps[1..], s')
  }

  /** In every interleaving of the threads' steps, every state is consistent. */
  lemma {:induction false} EveryRunKeepsInv(e: Env, s: State, steps: seq<Step>, s': State)
    requires GoodEnv(e) && Inv(e, s) && Reaches(e, s, steps, s')
    ensures Inv(e, s')
    decreases |steps|
  {
    hide Inv, Apply, Enabled, GoodEnv;
    if |steps| == 0 {
    } else {
      StepKeepsInv(e, s, steps[0]);
      EveryRunKeepsInv(e, Apply(e, s, steps[0]), steps[1..], s');
    }
  }

  /** The whole protocol: whatever the three threads do in whatever order from
      the start, no socket is leaked or closed twice, every move ends once, no
      wake-up is lost and the schedule is what was drawn. */
  lemma ReachableIsConsistent(e: Env, s: State, steps: seq<Step>, s': State)
    requires GoodEnv(e) && Initial(e, s) && Reaches(e, s, steps, s')
    ensures Inv(e, s')
  {
    hide Inv, Initial, GoodEnv, Reaches;
    InitialInv(e, s);
    EveryRunKeepsInv(e, s, steps, s');
  }

  // ---- When the flag rises ----

  /** The main loop has not gone half the tick range without a reset. */
  predicate InRange(m: MainLoop) {
    m.tick - m.resetAt < HALF
  }

  /** Due by the clock that does not wrap: past any back-off, and past the
      drawn timer or the drawn volume. */
  predicate DueAt(c: RotCfg, m: MainLoop) {
    && m.tick >= m.retryAt
    && ((c.tLo != 0 && m.tick >= m.deadlineAt) || (m.sched.vol != 0 && m.sched.bytes >= m.sched.vol))
  }

  lemma IsDueExact(c: RotCfg, m: MainLoop)
    requires GoodCfg(c) && ScheduleTracked(c, m) && InRange(m)
    ensures IsDue(c, m.sched, Wrap32(m.tick)) <==> DueAt(c, m)
  {
    NotBeforeExact(m.tick, m.retryAt);
    if c.tLo != 0 {
      NotBeforeExact(m.tick, m.deadlineAt);
    }
  }

  /** Nothing but a tick of the main loop raises the flag. After every tick the
      flag and the main loop agree, and a port not already due is due exactly
      by the unwrapped schedule. */
  lemma FlagRisesExactly(e: Env, s: State, st: Step)
    requires GoodEnv(e) && Inv(e, s) && Enabled(e, s, st)
    ensures
      var r := Apply(e, s, st);
      && (!s.fl.due && r.fl.due ==> st.Tick?)
      && (st.Tick? ==> r.fl.due == r.main.due && !r.fl.changed && !r.fl.failed)
      && (st.Tick? && InRange(r.main) && !s.fl.due ==> (r.fl.due <==> DueAt(e.cfg, r.main)))
      && (st.Tick? && s.fl.due ==> r.fl.due)
  {
    hide InSet, One, SocketsAccounted, MoveConsistent, PollActs, NotBefore, Since, Reset, ScheduleTracked;
    if st.Tick? {
      var m := Informed(e.cfg, s, st.carried, st.timer, st.volume);
      InformedTracked(e.cfg, s, st.carried, st.timer, st.volume);
      if InRange(m) {
        IsDueExact(e.cfg, m);
      }
    }
  }

  /** So the flag never rises inside a back-off, nor before the timer's lower
      bound unless the volume is reached, and it is up from the timer's upper
      bound on, a back-off aside. */
  lemma FlagTimely(e: Env, s: State, st: Step)
    requires GoodEnv(e) && Inv(e, s) && Enabled(e, s, st) && st.Tick? && InRange(Apply(e, s, st).main)
    ensures
      var r := Apply(e, s, st);
      var m := r.main;
      && (!s.fl.due && r.fl.due ==>
            && m.tick >= m.retryAt
            && ((e.cfg.tLo != 0 && m.tick >= m.resetAt + e.cfg.tLo as int) || (m.sched.vol != 0 && m.sched.bytes >= m.sched.vol)))
      && (e.cfg.tLo != 0 && m.tick >= m.resetAt + e.cfg.tHi as int && m.tick >= m.retryAt ==> r.fl.due)
  {
    hide Apply, InSet, SocketsAccounted, MoveConsistent, WakeUpKept, Enabled;
    FlagRisesExactly(e, s, st);
    ScheduleKept(e, s, st);
  }
}
