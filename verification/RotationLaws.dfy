/** What each step of the rotation does, in the program's own times and
    constants: when a move starts, how it ends, what the main loop makes of it. */
module RotationLaws {
  import opened Bytes
  import opened PortSet
  import opened Rotation
  import opened RotationFine
  import opened Schedule

  /** Nothing but the endpoint, the move, the flags and the counts differ. */
  predicate SameMain(s: State, r: State) {
    r.main == s.main && r.silent == s.silent
  }

  // ---- A move starts ----

  /** rot_move goes ahead exactly when no move is under way and no old socket
      is held, there is one connected socket, the port drawn is another one,
      the old socket can be had if the tunnel is busy, and connect succeeds. */
  lemma MoveStarts(e: Env, s: State, soft: bool, to: int, keep: int, connects: bool, now: nat)
    requires Enabled(e, s, Move(soft, to, keep, connects, now))
    ensures
      var r := Apply(e, s, Move(soft, to, keep, connects, now));
      if !s.mv.pending && s.mv.oldFd < 0 && s.ep.fd >= 0 && s.ep.fd2 < 0 && to != s.ep.port
         && (soft ==> keep >= 0) && connects
      then
        && r.mv.pending && !r.mv.won && !r.mv.refused && r.mv.ansMs == 0 && r.mv.t0 == now
        && r.mv.from == s.ep.port && r.mv.to == to == r.ep.port && r.ep.fd == s.ep.fd && r.ep.fd2 == s.ep.fd2
        && r.mv.oldFd == keep && (r.mv.dual <==> keep >= 0)
        && r.open == (if keep >= 0 then s.open + {keep} else s.open)
        && r.ends == s.ends.(moves := s.ends.moves + 1) && r.fl == s.fl && SameMain(s, r)
      else r == s
  {
    hide InSet;
  }

  // ---- A move ends ----

  /** An answer ends a pending move for good: won, the copies stop, the flag is
      lowered, the main loop is told, and the time the answer took is kept, odd
      so that it is never 0. */
  lemma AnswerEnds(e: Env, s: State, now: nat)
    requires now >= s.mv.t0
    ensures
      var r := Apply(e, s, Answer(now));
      if !s.mv.pending then r == s
      else
        && !r.mv.pending && r.mv.won && !r.mv.dual && !r.fl.due && r.fl.changed
        && r.fl.failed == s.fl.failed && r.fl.force == s.fl.force
        && r.mv.ansMs % 2 == 1 && 0 <= r.mv.ansMs - (now - s.mv.t0) % 0x1_0000_0000 <= 1
        && r.mv.oldFd == s.mv.oldFd && r.mv.t0 == s.mv.t0 && r.mv.from == s.mv.from && r.mv.to == s.mv.to
        && r.ep == s.ep && r.open == s.open && SameMain(s, r)
        && r.ends == s.ends.(answered := s.ends.answered + 1)
  {}

  /** The poll of a pending move. Refused, or unanswered for 2 seconds, 3 if
      both ports carry: it goes back to the port it came from, the main loop is
      told, and the new port is written off unless it ran beside the old one
      and was not refused. The old socket is left to its grace. Younger, the
      move is left alone. */
  lemma SilentMoveGoesBack(e: Env, s: State, now: nat, connects: bool)
    requires now >= s.mv.t0 && s.mv.pending && |s.silent.bad| == 8
    ensures
      var r := Apply(e, s, Poll(now, connects));
      if s.mv.refused || now - s.mv.t0 >= (if s.mv.dual then 3000 else 2000) then
        && !r.mv.pending && !r.mv.dual && r.mv.oldFd == s.mv.oldFd && r.open == s.open
        && r.ends == s.ends.(wentBack := s.ends.wentBack + 1)
        && !r.fl.due && r.fl.failed && r.fl.changed == s.fl.changed && r.fl.force == s.fl.force
        && r.ep.fd == s.ep.fd && r.ep.fd2 == s.ep.fd2
        && r.ep.port == (if s.ep.fd >= 0 && connects then s.mv.from else s.ep.port)
        && (if s.mv.dual && !s.mv.refused then r.silent == s.silent
            else s.mv.to in r.silent.bad && r.silent.next == s.silent.next + 1
                 && forall i :: 0 <= i < 8 && i != s.silent.next % 8 ==> |r.silent.bad| == 8 && r.silent.bad[i] == s.silent.bad[i])
        && r.main == s.main
      else r == s
  {
    hide InSet;
    var r := Apply(e, s, Poll(now, connects));
    if r.silent != s.silent {
      assert r.silent.bad[s.silent.next % 8] == s.mv.to;
    }
  }

  /** The poll with no move pending closes the old port's socket exactly once
      it is 3 seconds past the answer, and does nothing else. */
  lemma OldSocketCloses(e: Env, s: State, now: nat, connects: bool)
    requires now >= s.mv.t0 && !s.mv.pending
    ensures
      var r := Apply(e, s, Poll(now, connects));
      if s.mv.oldFd >= 0 && now - s.mv.t0 >= s.mv.ansMs + 3000 then
        && r.mv.oldFd == -1 && !r.mv.dual && r.open == s.open - {s.mv.oldFd}
        && !r.mv.pending && r.ep == s.ep && r.fl == s.fl && r.ends == s.ends && SameMain(s, r)
      else r == s
  {
    hide InSet;
  }

  /** So no move outlives a poll 3 seconds on, whatever happened before it, and
      none that kept no old socket one 2 seconds on. */
  lemma {:induction false} NoMoveOutlivesItsTime(e: Env, s: State, steps: seq<Step>, s': State, now: nat, connects: bool)
    requires GoodEnv(e) && Inv(e, s) && Reaches(e, s, steps, s') && now >= s'.mv.t0
    requires now - s'.mv.t0 >= (if s'.mv.dual then 3000 else 2000)
    ensures
      var r := Apply(e, s', Poll(now, connects));
      && !r.mv.pending
      && (s'.mv.pending && connects ==> r.ep.port == s'.mv.from && r.ends.wentBack == s'.ends.wentBack + 1)
  {
    hide Reaches, GoodEnv, InSet, ScheduleTracked, Apply;
    EveryRunKeepsInv(e, s, steps, s');
    if s'.mv.pending {
      SilentMoveGoesBack(e, s', now, connects);
    } else {
      OldSocketCloses(e, s', now, connects);
    }
  }

  /** A reconnect closes both sockets, ends a pending move and takes the dialled
      port and sockets; a failed dial leaves none and tells nobody. */
  lemma ReconnectReplaces(e: Env, s: State, dial: Dial)
    requires Enabled(e, s, Reconnect(dial))
    ensures
      var r := Apply(e, s, Reconnect(dial));
      var closed := s.open - (if s.ep.fd >= 0 then {s.ep.fd} else {}) - (if s.ep.fd2 >= 0 then {s.ep.fd2} else {});
      && r.mv == s.mv.(pending := false) && r.ep.port == dial.port && SameMain(s, r)
      && r.ends == (if s.mv.pending then s.ends.(cancelled := s.ends.cancelled + 1) else s.ends)
      && if dial.Dialed? then
           && r.ep.fd == dial.fd && r.ep.fd2 == dial.fd2
           && r.open == closed + {dial.fd} + (if dial.fd2 >= 0 then {dial.fd2} else {})
           && r.fl == Flags(false, true, s.fl.failed, s.fl.force)
         else r.ep.fd == -1 && r.ep.fd2 == -1 && r.open == closed && r.fl == s.fl
  {
    hide InSet;
  }

  /** The family that answered is kept, the other one's socket closed. */
  lemma ProbeSettles(e: Env, s: State, useAlt: bool)
    requires SocketsAccounted(s)
    ensures
      var r := Apply(e, s, FinishProbe(useAlt));
      if s.ep.fd2 < 0 then r == s
      else
        && r.ep == Endpoint(if useAlt then s.ep.fd2 else s.ep.fd, -1, s.ep.port)
        && r.open == s.open - {if useAlt then s.ep.fd else s.ep.fd2}
        && r.mv == s.mv && r.fl == s.fl && r.ends == s.ends && SameMain(s, r)
  {}

  /** A refusal is noted on a pending move, and only there. */
  lemma RefusalIsNoted(e: Env, s: State)
    ensures
      var r := Apply(e, s, Refuse);
      r == s.(mv := s.mv.(refused := s.mv.refused || s.mv.pending))
  {}

  // ---- The main loop ----

  /** News that the port changed starts the schedule over: the deadline one
      draw of ticks on, the volume one draw of megabytes, nothing carried yet,
      no back-off. */
  lemma ChangeStartsOver(e: Env, s: State, carried: nat, timer: nat, volume: nat)
    requires Enabled(e, s, Tick(carried, timer, volume)) && s.fl.changed && !s.fl.failed
    ensures
      var m := Apply(e, s, Tick(carried, timer, volume)).main;
      && m.tick == m.resetAt == m.retryAt == s.main.tick + 1 && m.sched.bytes == 0
      && m.sched.retry == m.tick % 0x1_0000_0000
      && (e.cfg.tLo != 0 ==> m.deadlineAt == m.tick + timer && m.sched.deadline == (m.tick + timer) % 0x1_0000_0000)
      && m.sched.vol == (if e.cfg.mbLo != 0 then volume * 1048576 else 0)
  {
    WrapSum(s.main.tick + 1, timer);
  }

  /** News that a port stayed silent puts the next try off by the back-off and
      leaves deadline, volume and traffic alone. */
  lemma FailureBacksOff(e: Env, s: State, carried: nat, timer: nat, volume: nat)
    requires Enabled(e, s, Tick(carried, timer, volume)) && s.fl.failed
    ensures
      var m := Apply(e, s, Tick(carried, timer, volume)).main;
      && m.tick == s.main.tick + 1 && m.retryAt == m.tick + e.cfg.retry as int
      && m.sched.retry == (m.tick + e.cfg.retry as int) % 0x1_0000_0000
      && (!s.fl.changed ==>
            && m.resetAt == s.main.resetAt && m.deadlineAt == s.main.deadlineAt && m.sched.deadline == s.main.sched.deadline
            && m.sched.vol == s.main.sched.vol && m.sched.bytes == s.main.sched.bytes + carried)
  {
    hide IsDue;
  }

  /** Without news a tick only counts time and traffic. */
  lemma QuietTickCounts(e: Env, s: State, carried: nat, timer: nat, volume: nat)
    requires Enabled(e, s, Tick(carried, timer, volume)) && !s.fl.changed && !s.fl.failed
    ensures
      var m := Apply(e, s, Tick(carried, timer, volume)).main;
      && m.tick == s.main.tick + 1 && m.sched == s.main.sched.(bytes := s.main.sched.bytes + carried)
      && m.resetAt == s.main.resetAt && m.deadlineAt == s.main.deadlineAt && m.retryAt == s.main.retryAt
      && (s.main.due ==> m.due && m.dueAt == s.main.dueAt)
      && (!s.main.due && m.due ==> m.dueAt == m.tick % 0x1_0000_0000)
  {
    hide IsDue;
  }

  /** A move under load is allowed exactly while the port has been due for the
      forcing time, on hardware that allows it, and no news came; and a tick
      touches nothing but the main loop's view and the flags. */
  lemma ForceComesLast(e: Env, s: State, carried: nat, timer: nat, volume: nat)
    requires Enabled(e, s, Tick(carried, timer, volume))
    ensures
      var r := Apply(e, s, Tick(carried, timer, volume));
      && r.ep == s.ep && r.mv == s.mv && r.silent == s.silent && r.open == s.open && r.ends == s.ends
      && !r.fl.changed && !r.fl.failed
      && (r.fl.force <==>
            && !s.fl.changed && !s.fl.failed
            && (s.fl.force
                || (s.main.due && e.softOn
                    && (s.main.tick + 1 - s.main.dueAt as int) % 0x1_0000_0000 >= e.cfg.force as int)))
  {
    hide IsDue, Wrap32, Since, Reset;
    DueFor(s.main.tick + 1, s.main.dueAt);
  }

  /** For how long the port has been due, in wrapped ticks. */
  lemma DueFor(tick: nat, dueAt: Word)
    ensures Since(Wrap32(tick), dueAt) == (tick - dueAt as int) % 0x1_0000_0000
  {
    WrapDifference(tick, dueAt as int);
    assert Wrap32(dueAt as int) == dueAt;
  }

  // ---- The poll on a stale snapshot ----

  /** Whatever it saw, under the lock it sends a move back only if one is still
      pending and it saw one; otherwise it closes the old socket. */
  lemma StalePollActs(e: Env, f: Fine, sawPending: bool, sawDual: bool, sawRefused: bool, connects: bool)
    requires FineEnabled(e, f, PollAct(sawPending, sawDual, sawRefused, connects)) && |f.s.silent.bad| == 8
    ensures
      var s, r := f.s, FineApply(e, f, PollAct(sawPending, sawDual, sawRefused, connects)).s;
      && !r.mv.dual && r.main == s.main
      && if sawPending && s.mv.pending then
           && !r.mv.pending && r.ends.wentBack == s.ends.wentBack + 1 && !r.fl.due && r.fl.failed
           && r.mv.oldFd == s.mv.oldFd && r.open == s.open
           && (s.ep.fd >= 0 && connects ==> r.ep.port == s.mv.from)
           && (!sawDual || sawRefused ==> s.mv.to in r.silent.bad)
         else
           && r.mv.oldFd == -1 && r.open == s.open - (if s.mv.oldFd >= 0 then {s.mv.oldFd} else {}) && r.mv.pending == s.mv.pending
           && r.ep == s.ep && r.fl == s.fl && r.ends == s.ends && r.silent == s.silent
  {
    hide InSet;
    var s, r := f.s, FineApply(e, f, PollAct(sawPending, sawDual, sawRefused, connects)).s;
    if r.silent != s.silent {
      assert r.silent.bad[s.silent.next % 8] == s.mv.to;
    }
  }
}
