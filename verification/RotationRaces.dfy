/** The two interleavings of the rotation that end badly, each as a run from
    the start of a small tunnel: nine ports, a timer of one tick. */
module RotationRaces {
  import opened Bytes
  import opened PortSet
  import opened Rotation
  import opened RotationFine
  import opened Schedule

  function SmallEnv(): (e: Env) {
    Env(RotCfg(1, 1, 0, 0, 1, 1, 1), false, PortSet([Range(1, 9)], 9))
  }

  function SmallStart(): (s: State) {
    State(Endpoint(3, NONE, 1), Moving(false, false, false, false, NONE, 0, 0, 0, 0), Flags(false, false, false, false),
          Silent([0, 0, 0, 0, 0, 0, 0, 0], 0),
          MainLoop(0, Sched(1, 0, 0, 0), false, 0, 0, 1, 0), {3}, Ends(0, 0, 0, 0))
  }

  lemma SmallIsGood()
    ensures GoodEnv(SmallEnv()) && Initial(SmallEnv(), SmallStart())
    ensures forall port :: 1 <= port <= 9 ==> InSet(SmallEnv(), port)
  {
    var e, s := SmallEnv(), SmallStart();
    forall port | 1 <= port <= 9
      ensures InSet(e, port)
    {
      InPortsIff(e.ports.ranges, port);
      assert e.ports.ranges[0] == Range(1, 9);
    }
    assert Draws(e.cfg, 1, 0);
    assert s.main == TakeChanged(e.cfg, MainLoop(0, Sched(0, 0, 0, 0), false, 0, 0, 0, 0), 1, 0);
  }

  /** The main loop after the first tick of that tunnel, due at once. */
  function SmallDue(): (m: MainLoop) {
    MainLoop(1, Sched(1, 0, 0, 0), true, 1, 0, 1, 0)
  }

  lemma SmallTick()
    ensures
      var e, f := SmallEnv(), Fine(SmallStart(), Free, false);
      && FineEnabled(e, f, TickTake(0, 1, 0))
      && FineApply(e, f, TickTake(0, 1, 0)) == Fine(SmallStart().(main := SmallDue()), Free, true)
  {
    hide InSet;
  }

  /** ... once the flag is up, ... */
  function SmallRaised(): (f: Fine) {
    Fine(SmallStart().(main := SmallDue(), fl := Flags(true, false, false, false)), Free, false)
  }

  /** ... once it moved to port 2, unable to keep the old socket, ... */
  function SmallMoved(): (f: Fine) {
    var f := SmallRaised();
    f.(s := f.s.(ep := Endpoint(3, NONE, 2), mv := Moving(true, false, false, false, NONE, 1, 2, 0, 0), ends := Ends(1, 0, 0, 0)))
  }

  /** ... once the state has turned but nothing else was said, ... */
  function SmallTurned(): (f: Fine) {
    var f := SmallMoved();
    Fine(f.s.(mv := f.s.mv.(pending := false, ansMs := 1), ends := Ends(1, 1, 0, 0)), WonNext, false)
  }

  /** ... and once it moved again, to port 3, this time keeping the old one. */
  function SmallAgain(): (f: Fine) {
    var f := SmallTurned();
    f.(s := f.s.(ep := Endpoint(3, NONE, 3), mv := Moving(true, false, false, true, 7, 2, 3, 0, 0), open := {3, 7},
                 ends := Ends(2, 1, 0, 0)))
  }

  lemma SmallFirstMove()
    ensures
      var e, f, m := SmallEnv(), SmallRaised(), LockedMove(false, 2, NONE, true, 0);
      FineEnabled(e, f, m) && FineApply(e, f, m) == SmallMoved()
  {
    hide InSet, SmallEnv;
    SmallIsGood();
  }

  lemma SmallSecondMove()
    ensures
      var e, f, m := SmallEnv(), SmallTurned(), LockedMove(false, 3, 7, true, 0);
      FineEnabled(e, f, m) && FineApply(e, f, m) == SmallAgain()
  {
    hide InSet, SmallEnv;
    SmallIsGood();
  }

  lemma SmallAnswer()
    ensures
      var e, f := SmallEnv(), SmallMoved();
      && FineEnabled(e, f, Stamp(0))
      && var g := FineApply(e, f, Stamp(0));
         FineEnabled(e, g, Cas) && FineApply(e, g, Cas) == SmallTurned()
  {
    hide InSet, SmallEnv;
  }

  /** The way to the answer whose second half is still to come. */
  lemma SmallRun()
    ensures FineReaches(SmallEnv(), Fine(SmallStart(), Free, false),
                        [TickTake(0, 1, 0), TickRaise, LockedMove(false, 2, NONE, true, 0), Stamp(0), Cas,
                         LockedMove(false, 3, 7, true, 0)], SmallAgain())
  {
    hide FineReaches, InSet, SmallEnv, SmallMoved, SmallTurned, SmallAgain;
    SmallTick();
    SmallFirstMove();
    SmallAnswer();
    SmallSecondMove();
    var e, f0 := SmallEnv(), Fine(SmallStart(), Free, false);
    var m1, m2 := LockedMove(false, 2, NONE, true, 0), LockedMove(false, 3, 7, true, 0);
    var f1 := Fine(SmallStart().(main := SmallDue()), Free, true);
    assert FineEnabled(e, f1, TickRaise) && FineApply(e, f1, TickRaise) == SmallRaised();
    hide FineEnabled, FineApply, SmallRaised, SmallStart;
    SixSteps(e, f0, f1, SmallRaised(), SmallMoved(), FineApply(e, SmallMoved(), Stamp(0)), SmallTurned(), SmallAgain(),
             [TickTake(0, 1, 0), TickRaise, m1, Stamp(0), Cas, m2]);
  }

  /** A move starts between the compare-and-swap and the stores behind it: it
      ends up pending, already called won, its old socket open and no copies
      going there. The move that was answered had not kept its old socket, so
      nothing held the next one back. */
  lemma MoveSlipsIn()
    ensures
      var steps := [TickTake(0, 1, 0), TickRaise, LockedMove(false, 2, NONE, true, 0), Stamp(0), Cas,
                    LockedMove(false, 3, 7, true, 0)] + [StoreWon, StoreDual];
      exists f :: Initial(SmallEnv(), SmallStart())
               && FineReaches(SmallEnv(), Fine(SmallStart(), Free, false), steps, f)
               && f.s.mv.pending && f.s.mv.won && f.s.mv.oldFd >= 0 && !f.s.mv.dual && !MoveExact(f)
  {
    hide FineReaches, InSet, Initial, SmallEnv, SmallStart;
    SmallIsGood();
    SmallRun();
    var e, f := SmallEnv(), SmallAgain();
    var g := FineApply(e, f, StoreWon);
    var h := FineApply(e, g, StoreDual);
    ReachesOne(e, g, StoreDual);
    ReachesFrom(e, f, StoreWon, g, [StoreWon, StoreDual], h);
    ReachesOn(e, Fine(SmallStart(), Free, false),
              [TickTake(0, 1, 0), TickRaise, LockedMove(false, 2, NONE, true, 0), Stamp(0), Cas, LockedMove(false, 3, 7, true, 0)],
              f, [StoreWon, StoreDual], h);
  }

  /** The tunnel once a reconnect came between the two halves of the tick. */
  function SmallLate(): (f: Fine) {
    Fine(SmallStart().(ep := Endpoint(4, NONE, 2), main := SmallDue(), open := {4}, fl := Flags(true, true, false, false)),
         Free, false)
  }

  lemma SmallRedial()
    ensures
      var e, f, redial := SmallEnv(), Fine(SmallStart().(main := SmallDue()), Free, true), Redial(Dialed(2, 4, NONE));
      && FineEnabled(e, f, redial)
      && var g := FineApply(e, f, redial);
         && FineEnabled(e, g, StoreChanged)
         && var h := FineApply(e, g, StoreChanged);
            FineEnabled(e, h, TickRaise) && FineApply(e, h, TickRaise) == SmallLate()
  {
    hide InSet, SmallEnv;
    SmallIsGood();
  }

  lemma SmallNextTick()
    ensures
      var e, f, t := SmallEnv(), SmallLate(), TickTake(0, 1, 0);
      && FineEnabled(e, f, t)
      && var g := FineApply(e, f, t);
         g.s.fl.due && !g.s.main.due && !g.raising && !DueAt(e.cfg, g.s.main)
  {
    hide InSet;
  }

  /** A reconnect lands between the tick's look at the news and its raising of
      the flag: the flag goes up with news waiting, and stays up after the next
      tick although the fresh schedule is not due. */
  lemma RaiseComesLate()
    ensures
      var steps := [TickTake(0, 1, 0), Redial(Dialed(2, 4, NONE)), StoreChanged, TickRaise, TickTake(0, 1, 0)];
      exists f :: Initial(SmallEnv(), SmallStart())
               && FineReaches(SmallEnv(), Fine(SmallStart(), Free, false), steps, f)
               && f.s.fl.due && !f.s.main.due && !f.raising && !DueAt(SmallEnv().cfg, f.s.main) && !FlagExact(f)
  {
    hide FineReaches, InSet, Initial, SmallEnv, SmallStart, SmallLate, FineEnabled, FineApply, DueAt;
    SmallIsGood();
    SmallTick();
    SmallRedial();
    SmallNextTick();
    var e, f0 := SmallEnv(), Fine(SmallStart(), Free, false);
    var f1 := Fine(SmallStart().(main := SmallDue()), Free, true);
    var t, redial := TickTake(0, 1, 0), Redial(Dialed(2, 4, NONE));
    var f2 := FineApply(e, f1, redial);
    var f3 := FineApply(e, f2, StoreChanged);
    var f5 := FineApply(e, SmallLate(), t);
    var steps := [t, redial, StoreChanged, TickRaise, t];
    ReachesOne(e, SmallLate(), t);
    assert steps[4..] == [t];
    ReachesFrom(e, f3, TickRaise, SmallLate(), steps[3..], f5);
    ReachesFrom(e, f2, StoreChanged, f3, steps[2..], f5);
    ReachesFrom(e, f1, redial, f2, steps[1..], f5);
    ReachesFrom(e, f0, t, f1, steps, f5);
  }
}
