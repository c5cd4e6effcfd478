/** The rotation code as it runs: the shared record changed field by field
    (src/proxy.c). Each method is one step of Rotation; what sockets, clock
    and generator return comes in as a parameter. */
module RotationProxy {
  import opened Bytes
  import opened PortSet
  import opened Rotation
  import opened Schedule

  class Proxy {
    const env: Env
    var ep: Endpoint
    var mv: Moving
    var fl: Flags
    var silent: Silent
    var main: MainLoop
    ghost var open: set<int>
    ghost var ends: Ends

    ghost function View(): (s: State)
      reads this
    {
      State(ep, mv, fl, silent, main, open, ends)
    }

    ghost predicate Valid()
      reads this
    {
      GoodEnv(env) && Inv(env, View())
    }

    /** rot_move. Returns whether the socket moved. */
    method Move(soft: bool, to: int, keep: int, connects: bool, now: nat) returns (moved: bool)
      requires Valid() && Enabled(env, View(), Step.Move(soft, to, keep, connects, now))
      modifies this
      ensures Valid() && View() == Apply(env, old(View()), Step.Move(soft, to, keep, connects, now))
      ensures moved <==> ends.moves == old(ends.moves) + 1
    {
      hide Inv, GoodEnv, Enabled, InSet;
      StepKeepsInv(env, View(), Step.Move(soft, to, keep, connects, now));
      moved := false;
      if mv.pending || mv.oldFd >= 0 {
        return;
      }
      if ep.fd < 0 || ep.fd2 >= 0 {
        return;
      }
      var from := ep.port;
      if to == from {
        return;
      }
      if soft && keep < 0 {
        return;
      }
      if !connects {
        return;
      }
      ep := ep.(port := to);
      mv := mv.(from := from, to := to, t0 := now);
      mv := mv.(refused := false, won := false, ansMs := 0);
      mv := mv.(oldFd := keep, dual := keep >= 0);
      mv := mv.(pending := true);
      open := open + One(keep);
      ends := ends.(moves := ends.moves + 1);
      moved := true;
    }

    /** rot_answered */
    method Answered(now: nat)
      requires Valid() && now >= mv.t0
      modifies this
      ensures Valid() && View() == Apply(env, old(View()), Answer(now))
    {
      hide Inv, GoodEnv, Wrap32, Odd;
      StepKeepsInv(env, View(), Answer(now));
      if !mv.pending {
        return;
      }
      mv := mv.(ansMs := Odd(Wrap32(now - mv.t0)));
      mv := mv.(pending := false);
      mv := mv.(won := true, dual := false);
      fl := fl.(due := false);
      fl := fl.(changed := true);
      ends := ends.(answered := ends.answered + 1);
    }

    /** do_reconnect_locked */
    method Reconnect(dial: Dial)
      requires Valid() && Enabled(env, View(), Step.Reconnect(dial))
      modifies this
      ensures Valid() && View() == Apply(env, old(View()), Step.Reconnect(dial))
    {
      hide Inv, GoodEnv, Enabled, InSet;
      StepKeepsInv(env, View(), Step.Reconnect(dial));
      open := open - One(ep.fd) - One(ep.fd2);
      ep := ep.(fd := NONE);
      ep := ep.(fd2 := NONE);
      if mv.pending {
        ends := ends.(cancelled := ends.cancelled + 1);
      }
      mv := mv.(pending := false);
      ep := ep.(port := dial.port);
      if dial.DialFailed? {
        return;
      }
      ep := ep.(fd2 := dial.fd2);
      ep := ep.(fd := dial.fd);
      open := open + One(dial.fd) + One(dial.fd2);
      fl := fl.(due := false);
      fl := fl.(changed := true);
    }

    /** rot_main_tick */
    method MainTick(carried: nat, timer: nat, volume: nat)
      requires Valid() && Draws(env.cfg, timer, volume)
      modifies this
      ensures Valid() && View() == Apply(env, old(View()), Tick(carried, timer, volume))
      ensures fl.due == main.due
    {
      hide Inv, GoodEnv, IsDue, Since, Reset, Draws, Wrap32;
      StepKeepsInv(env, View(), Tick(carried, timer, volume));
      FlagRisesExactly(env, View(), Tick(carried, timer, volume));
      main := main.(tick := main.tick + 1, sched := main.sched.(bytes := main.sched.bytes + carried));
      if fl.changed {
        main := TakeChanged(env.cfg, main, timer, volume);
        fl := fl.(changed := false, force := false);
      }
      if fl.failed {
        main := TakeFailed(env.cfg, main);
        fl := fl.(failed := false, force := false);
      }
      if main.due {
        if env.softOn && Since(Wrap32(main.tick), main.dueAt) >= env.cfg.force && !fl.force {
          fl := fl.(force := true);
        }
        return;
      }
      if !IsDue(env.cfg, main.sched, Wrap32(main.tick)) {
        return;
      }
      main := main.(due := true, dueAt := Wrap32(main.tick));
      fl := fl.(due := true);
    }

    /** rot_main_poll */
    method MainPoll(now: nat, connects: bool)
      requires Valid() && now >= mv.t0
      modifies this
      ensures Valid() && View() == Apply(env, old(View()), Poll(now, connects))
    {
      hide Inv, GoodEnv;
      RingSize(env, View());
      StepKeepsInv(env, View(), Poll(now, connects));
      if mv.oldFd < 0 && !mv.pending {
        return;
      }
      var age := now - mv.t0;
      var dual, refused := mv.dual, mv.pending && mv.refused;
      if mv.pending && !refused && age < (if dual then VERIFY_DUAL_MS else VERIFY_MS) {
        return;
      }
      if !mv.pending && age < mv.ansMs + GRACE_MS {
        return;
      }
      var back := mv.pending;
      mv := mv.(pending := false);
      if !back {
        open := open - One(mv.oldFd);
        mv := mv.(oldFd := NONE);
      }
      mv := mv.(dual := false);
      if back {
        if ep.fd >= 0 && connects {
          ep := ep.(port := mv.from);
        }
        if !dual || refused {
          silent := Silent(silent.bad[silent.next % BAD_N := mv.to], silent.next + 1);
        }
        fl := fl.(due := false);
        fl := fl.(failed := true);
        ends := ends.(wentBack := ends.wentBack + 1);
      }
    }

    /** he_finish: one family wins, the other socket is closed. */
    method FinishHappyEyeballs(useAlt: bool)
      requires Valid()
      modifies this
      ensures Valid() && View() == Apply(env, old(View()), FinishProbe(useAlt))
    {
      hide Inv, GoodEnv;
      StepKeepsInv(env, View(), FinishProbe(useAlt));
      if ep.fd2 < 0 {
        return;
      }
      var fd2 := ep.fd2;
      ep := ep.(fd2 := NONE);
      if useAlt {
        open := open - One(ep.fd);
        ep := ep.(fd := fd2);
      } else {
        open := open - One(fd2);
      }
    }

    /** rot_refused_now: whether an ICMP refusal belongs to a move, pending or
        just over, and not to the server. */
    method RefusedNow() returns (ours: bool)
      requires Valid()
      modifies this
      ensures Valid() && View() == Apply(env, old(View()), Refuse)
      ensures ours <==> old(mv.pending) || old(mv.oldFd) >= 0
    {
      hide Inv, GoodEnv;
      StepKeepsInv(env, View(), Refuse);
      if mv.pending {
        mv := mv.(refused := true);
        return true;
      }
      ours := mv.oldFd >= 0;
    }
  }

  lemma RingSize(e: Env, s: State)
    requires Inv(e, s)
    ensures |s.silent.bad| == BAD_N
  {}
}
