/** Every transition of a device handler ends. */
module DeviceSettles {
  import opened Words
  import opened DeviceModes

  predicate Known(m: Mode) {
    m <= ERROR_ON || ChildDriven(m)
    || m == POWER_DOWN || m == POWER_ON || m == WAIT_OFF || m == WAIT_ON || m == SWITCH_IS_OFF
  }

  /** A failed transition falls back to a mode the device was on in, or powers it down. */
  predicate SourceOk(s: Modes) {
    s.source == ON || s.source == NORMAL || s.source == RAW || s.source == POWER_DOWN
  }

  predicate Sound(s: Modes) { Known(s.mode) && SourceOk(s) }

  predicate ChildKnown(i: Input) { i.child.Sets? ==> Known(i.child.mode) }

  lemma SetModeSets(s: Modes, c: Config, mode: Mode, submode: nat, now: nat)
    ensures var t := SetMode(s, c, mode, submode, now);
            && t.mode == mode && t.source == s.source && t.childDelay == s.childDelay && t.timeoutStart == now
  {
  }

  lemma SoundStart(s: Modes, c: Config, mode: Mode, submode: nat, delay: nat, now: nat)
    requires Sound(s) && Reachable(s, mode, submode, true)
    ensures Sound(StartTransition(s, c, mode, submode, delay, now))
  {
    var moved := s.(childDelay := delay, source := s.mode, sourceSubmode := s.submode);
    if mode == ON && s.mode == OFF {
      SetModeSets(s.(source := POWER_DOWN, sourceSubmode := 0), c, POWER_ON, submode, now);
    } else if mode == OFF {
      SetModeSets(s, c, POWER_DOWN, submode, now);
      SetModeSets(s.(childDelay := delay, source := POWER_DOWN, sourceSubmode := submode), c, SHUT_DOWN, submode, now);
    } else if mode == RAW && s.mode == OFF {
      SetModeSets(s, c, RAW, submode, now);
    } else {
      assert s.mode == ON || s.mode == NORMAL || s.mode == RAW;
      SetModeSets(moved, c, WithChildAction(mode), submode, now);
    }
  }

  lemma SoundCommand(s: Modes, c: Config, m: ModeCommand, thermalOk: bool, delay: nat, now: nat)
    requires Sound(s)
    ensures Sound(HandleModeCommand(s, c, m, thermalOk, delay, now))
  {
    if m.Command? {
      var t := if m.forced then s.(forced := true) else s;
      if Reachable(t, m.mode, m.submode, thermalOk) {
        SoundStart(t.(commander := m.sender, commandedMode := m.mode, commandedSubmode := m.submode), c,
                   m.mode, m.submode, delay, now);
      }
    }
  }

  lemma SoundMachine(s: Modes, c: Config, i: Input)
    requires Sound(s) && ChildKnown(i)
    ensures Sound(DoStateMachine(s, c, i))
  {
    if ChildDriven(s.mode) {
      var t := CallChild(s, c, i.child, i.now);
      if i.child.Sets? {
        SetModeSets(s, c, i.child.mode, i.child.submode, i.now);
      }
      SetModeSets(t, c, t.source, t.sourceSubmode, i.now);
    } else {
      var move := BaseMove(s, c, i);
      if move.Go? {
        var t := SetMode(s, c, move.mode, move.submode, i.now);
        SetModeSets(s, c, move.mode, move.submode, i.now);
        if i.child.Sets? {
          SetModeSets(t, c, i.child.mode, i.child.submode, i.now);
        }
      }
    }
  }

  /** On every run whose child sets modes of the handler only, the fallback is ON, NORMAL, RAW or power down. */
  lemma {:induction false} SourceAlwaysOk(c: Config, cycles: seq<Cycle>)
    requires forall y :: y in cycles ==> ChildKnown(y.input)
    ensures Sound(Run(START, c, cycles))
    decreases |cycles|
  {
    if cycles != [] {
      var before, y := cycles[..|cycles| - 1], cycles[|cycles| - 1];
      assert y in cycles;
      SourceAlwaysOk(c, before);
      var s := Run(START, c, before);
      var t := if y.command.None? then s else HandleModeCommand(s, c, y.command.value, y.thermalOk, y.delay,
                                                                y.input.now);
      if y.command.Some? {
        SoundCommand(s, c, y.command.value, y.thermalOk, y.delay, y.input.now);
      }
      SoundMachine(t, c, y.input);
    }
  }

  // --- The measure: rank of the mode, then time left ---------------------------------------------------------

  function Rank(m: Mode): nat {
    if !Transitional(m) then 0
    else if m == SWITCH_IS_OFF then 1
    else if m == WAIT_OFF then 2
    else if m == POWER_DOWN then 3
    else if m == SHUT_DOWN || m == TO_ON || m == TO_NORMAL || m == TO_RAW then 4
    else if m == START_UP then 5
    else if m == WAIT_ON then 6
    else 7
  }

  /** How long a mode may last without any progress. */
  function Patience(s: Modes, c: Config): nat {
    if s.mode == WAIT_ON || s.mode == WAIT_OFF then
      if c.switchDelay.Switcher? then c.switchDelay.delay else 0
    else s.childDelay
  }

  /** The uptime difference is not distorted by the 32-bit clock. */
  predicate InTime(s: Modes, now: nat) { s.timeoutStart <= now < s.timeoutStart + WORD }

  function Left(s: Modes, c: Config, now: nat): nat
    requires InTime(s, now)
  {
    var elapsed := now - s.timeoutStart;
    if elapsed >= Patience(s, c) then 0 else Patience(s, c) - elapsed
  }

  /** Time advances, and by little enough for the clock to notice every timeout. */
  predicate Paced(s: Modes, c: Config, now: nat, later: nat) {
    && now < later
    && later - now + s.childDelay < WORD
    && (c.switchDelay.Switcher? ==> later - now + c.switchDelay.delay < WORD)
  }

  /** The child leaves the mode alone or brings the transition forward. */
  predicate Cooperative(s: Modes, i: Input) {
    i.child.Sets? ==> Known(i.child.mode) && Rank(i.child.mode) < Rank(s.mode)
  }

  /** One cycle in a transition: commands are refused; the rank falls, or only the time left does. */
  lemma TransitionStep(s: Modes, c: Config, y: Cycle, later: nat)
    requires Sound(s) && Transitional(s.mode) && InTime(s, y.input.now) && Cooperative(s, y.input)
    requires Paced(s, c, y.input.now, later)
    ensures var t := Next(s, c, y);
            && Sound(t) && InTime(t, later) && t.childDelay == s.childDelay
            && (Rank(t.mode) < Rank(s.mode)
                || (t.mode == s.mode && Left(t, c, later) < Left(s, c, y.input.now)))
  {
    var t := s;
    if y.command.Some? {
      RefusedInTransition(s, c, y.command.value, y.thermalOk, y.delay, y.input.now);
      t := HandleModeCommand(s, c, y.command.value, y.thermalOk, y.delay, y.input.now);
    }
    MachineStep(t, c, y.input, later);
  }

  lemma RefusedInTransition(s: Modes, c: Config, m: ModeCommand, thermalOk: bool, delay: nat, now: nat)
    requires Transitional(s.mode)
    ensures var t := HandleModeCommand(s, c, m, thermalOk, delay, now);
            t.mode == s.mode && t.source == s.source && t.childDelay == s.childDelay && t.timeoutStart == s.timeoutStart
  {
  }

  lemma MachineStep(s: Modes, c: Config, i: Input, later: nat)
    requires Sound(s) && Transitional(s.mode) && InTime(s, i.now) && Cooperative(s, i) && Paced(s, c, i.now, later)
    ensures var t := DoStateMachine(s, c, i);
            && Sound(t) && InTime(t, later) && t.childDelay == s.childDelay
            && (Rank(t.mode) < Rank(s.mode)
                || (t.mode == s.mode && Left(t, c, later) < Left(s, c, i.now)))
  {
    assert Elapsed(i.now, s.timeoutStart) == i.now - s.timeoutStart;
    if ChildDriven(s.mode) {
      ChildDrivenStep(s, c, i, later);
    } else {
      BaseMoveForward(s, c, i);
      var move := BaseMove(s, c, i);
      if move.Go? {
        var t := SetMode(s, c, move.mode, move.submode, i.now);
        SetModeSets(s, c, move.mode, move.submode, i.now);
        if i.child.Sets? {
          SetModeSets(t, c, i.child.mode, i.child.submode, i.now);
        }
      }
    }
  }

  lemma ChildDrivenStep(s: Modes, c: Config, i: Input, later: nat)
    requires Sound(s) && ChildDriven(s.mode) && InTime(s, i.now) && Cooperative(s, i) && Paced(s, c, i.now, later)
    ensures var t := DoStateMachine(s, c, i);
            && Sound(t) && InTime(t, later) && t.childDelay == s.childDelay
            && (Rank(t.mode) < Rank(s.mode)
                || (t.mode == s.mode && Left(t, c, later) < Left(s, c, i.now)))
  {
    assert Elapsed(i.now, s.timeoutStart) == i.now - s.timeoutStart;
    if i.child.Sets? {
      SetModeSets(s, c, i.child.mode, i.child.submode, i.now);
    } else {
      SetModeSets(s, c, s.source, s.sourceSubmode, i.now);
    }
  }

  /** The base class only ever moves to a mode of lower rank, and waits for no longer than its patience. */
  lemma BaseMoveForward(s: Modes, c: Config, i: Input)
    requires Known(s.mode) && Transitional(s.mode) && !ChildDriven(s.mode) && InTime(s, i.now)
    ensures match BaseMove(s, c, i)
            case Go(mode, _) => Known(mode) && Rank(mode) < Rank(s.mode)
            case Stay => c.switchDelay.Switcher? && i.now - s.timeoutStart < c.switchDelay.delay == Patience(s, c)
  {
    assert Elapsed(i.now, s.timeoutStart) == i.now - s.timeoutStart;
  }

  ghost function StateAt(s: Modes, c: Config, cycles: nat -> Cycle, k: nat): Modes {
    if k == 0 then s else Next(StateAt(s, c, cycles, k - 1), c, cycles(k - 1))
  }

  ghost predicate AlwaysPaced(s: Modes, c: Config, cycles: nat -> Cycle) {
    forall j: nat :: PacedAt(s, c, cycles, j)
  }

  ghost predicate PacedAt(s: Modes, c: Config, cycles: nat -> Cycle, j: nat) {
    Paced(s, c, cycles(j).input.now, cycles(j + 1).input.now)
  }

  ghost predicate AlwaysCooperative(s: Modes, c: Config, cycles: nat -> Cycle) {
    forall j: nat :: CooperativeAt(s, c, cycles, j)
  }

  ghost predicate CooperativeAt(s: Modes, c: Config, cycles: nat -> Cycle, j: nat) {
    Cooperative(StateAt(s, c, cycles, j), cycles(j).input)
  }

  /** The state k cycles on, still sound and timed by the delay that the transition began with. */
  ghost predicate OnTheWay(s: Modes, c: Config, cycles: nat -> Cycle, k: nat) {
    var t := StateAt(s, c, cycles, k);
    Sound(t) && InTime(t, cycles(k).input.now) && t.childDelay == s.childDelay
  }

  lemma StepOnTheWay(s: Modes, c: Config, cycles: nat -> Cycle, k: nat)
    requires AlwaysPaced(s, c, cycles) && AlwaysCooperative(s, c, cycles)
    requires OnTheWay(s, c, cycles, k) && Transitional(StateAt(s, c, cycles, k).mode)
    ensures OnTheWay(s, c, cycles, k + 1)
    ensures var t, u := StateAt(s, c, cycles, k), StateAt(s, c, cycles, k + 1);
            Rank(u.mode) < Rank(t.mode)
            || (u.mode == t.mode && Left(u, c, cycles(k + 1).input.now) < Left(t, c, cycles(k).input.now))
  {
    assert PacedAt(s, c, cycles, k) && CooperativeAt(s, c, cycles, k);
    TransitionStep(StateAt(s, c, cycles, k), c, cycles(k), cycles(k + 1).input.now);
  }

  /**
   From every state of a transition, whatever is commanded meanwhile: if time advances and the child leaves
   the mode or brings the transition forward, a lasting mode is reached.
   */
  lemma {:induction false} Settles(s: Modes, c: Config, cycles: nat -> Cycle, k: nat) returns (n: nat)
    requires AlwaysPaced(s, c, cycles) && AlwaysCooperative(s, c, cycles)
    requires OnTheWay(s, c, cycles, k)
    ensures n >= k && !Transitional(StateAt(s, c, cycles, n).mode)
    decreases Rank(StateAt(s, c, cycles, k).mode), Left(StateAt(s, c, cycles, k), c, cycles(k).input.now)
  {
    if !Transitional(StateAt(s, c, cycles, k).mode) {
      n := k;
    } else {
      StepOnTheWay(s, c, cycles, k);
      n := Settles(s, c, cycles, k + 1);
    }
  }

  /** Hence an accepted command that starts a transition is answered: its commander stops waiting. */
  lemma CommanderIsAnswered(s: Modes, c: Config, cycles: nat -> Cycle) returns (n: nat)
    requires AlwaysPaced(s, c, cycles) && AlwaysCooperative(s, c, cycles)
    requires Sound(s) && InTime(s, cycles(0).input.now) && NobodyWaits(s)
    ensures !Transitional(StateAt(s, c, cycles, n).mode) && StateAt(s, c, cycles, n).commander == NO_QUEUE
  {
    n := Settles(s, c, cycles, 0);
    NobodyWaitsAt(s, c, cycles, n);
  }

  /** Over all states up to the n-th. */
  lemma {:induction false} NobodyWaitsAt(s: Modes, c: Config, cycles: nat -> Cycle, n: nat)
    requires NobodyWaits(s)
    ensures NobodyWaitsIn(s, c, cycles, n)
  {
    if n == 0 {
      assert StateAt(s, c, cycles, 0) == s;
    } else {
      NobodyWaitsAt(s, c, cycles, n - 1);
      NobodyWaitsOneOn(s, c, cycles, n - 1);
    }
  }

  ghost predicate NobodyWaitsIn(s: Modes, c: Config, cycles: nat -> Cycle, n: nat)
    decreases n
  {
    NobodyWaits(StateAt(s, c, cycles, n)) && (n > 0 ==> NobodyWaitsIn(s, c, cycles, n - 1))
  }

  lemma NobodyWaitsOneOn(s: Modes, c: Config, cycles: nat -> Cycle, n: nat)
    requires NobodyWaitsIn(s, c, cycles, n)
    ensures NobodyWaitsIn(s, c, cycles, n + 1)
  {
    NobodyWaitsNext(StateAt(s, c, cycles, n), c, cycles(n));
  }

  lemma NobodyWaitsNext(s: Modes, c: Config, y: Cycle)
    requires NobodyWaits(s)
    ensures NobodyWaits(Next(s, c, y))
  {
    var t := s;
    if y.command.Some? {
      CommandKeepsAccount(s, c, y.command.value, y.thermalOk, y.delay, y.input.now, 1);
      t := HandleModeCommand(s, c, y.command.value, y.thermalOk, y.delay, y.input.now);
    }
    StateMachineKeepsAccount(t, c, y.input, 1);
  }

  // --- Every transition that a run enters ---------------------------------------------------------------------

  /** A transition is timed from the cycle in which it begins. */
  lemma BeginsInTime(s: Modes, c: Config, y: Cycle, later: nat)
    requires !Transitional(s.mode) && Transitional(Next(s, c, y).mode)
    requires y.input.now < later < y.input.now + WORD
    ensures InTime(Next(s, c, y), later)
  {
  }

  /**
   On every run from the start: a transition that begins in any cycle ends, and whoever commanded it is
   answered, if time goes on and the child leaves the mode or brings the transition forward.
   */
  lemma EveryTransitionSettles(c: Config, before: seq<Cycle>, y: Cycle, rest: nat -> Cycle) returns (n: nat)
    requires forall x :: x in before + [y] ==> ChildKnown(x.input)
    requires var s := Run(START, c, before);
             && !Transitional(s.mode) && Transitional(Next(s, c, y).mode)
             && y.input.now < rest(0).input.now < y.input.now + WORD
             && AlwaysPaced(Next(s, c, y), c, rest) && AlwaysCooperative(Next(s, c, y), c, rest)
    ensures var t := StateAt(Next(Run(START, c, before), c, y), c, rest, n);
            !Transitional(t.mode) && t.commander == NO_QUEUE
  {
    var s := Run(START, c, before);
    var t := Next(s, c, y);
    assert (before + [y])[..|before|] == before;
    SourceAlwaysOk(c, before + [y]);
    BeginsInTime(s, c, y, rest(0).input.now);
    OneAnswerPerCommand(c, before + [y], 1);
    n := CommanderIsAnswered(t, c, rest);
  }

  // --- Why time must not go on by too much ---------------------------------------------------------------------

  /** Every cycle comes a multiple of 2^32 milliseconds after the last change of mode, and the child leaves the mode. */
  ghost predicate AlwaysSameTime(s: Modes, cycles: nat -> Cycle) {
    forall j: nat :: SameTime(s, cycles(j))
  }

  predicate SameTime(s: Modes, y: Cycle) {
    y.command.None? && y.input.child.Leave? && Elapsed(y.input.now, s.timeoutStart) == 0
  }

  /** However much time has gone by, such a transition never ends: the timeout is not noticed. */
  lemma {:induction false} UnnoticedTimeout(s: Modes, c: Config, cycles: nat -> Cycle, k: nat)
    requires ChildDriven(s.mode) && 0 < s.childDelay && AlwaysSameTime(s, cycles)
    ensures StateAt(s, c, cycles, k) == s
  {
    if k > 0 {
      UnnoticedTimeout(s, c, cycles, k - 1);
      assert SameTime(s, cycles(k - 1));
    }
  }
}
