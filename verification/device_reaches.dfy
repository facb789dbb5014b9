/** Where a commanded transition ends: in the mode commanded, or back where it began. */
module DeviceReaches {
  import opened Words
  import opened Wrappers
  import opened DeviceModes
  import opened DeviceSettles

  // --- How child and switches behave ------------------------------------------------------------------------

  /** The mode by which a child confirms the one it was asked to bring about. */
  function BaseMode(m: Mode): Mode {
    if m == START_UP then TO_ON else if m == SHUT_DOWN then POWER_DOWN else m % 0x10 + m / 0x40 * 0x40
  }

  /** A device that has started may also be set to ON at once. */
  predicate Confirmed(m: Mode, submode: nat, child: Child) {
    child == Sets(BaseMode(m), submode) || (m == START_UP && child == Sets(ON, submode))
  }

  predicate SwitchLate(s: Modes, c: Config, i: Input) {
    c.switchDelay.Switcher? && Elapsed(i.now, s.timeoutStart) >= c.switchDelay.delay
  }

  /** The child, where it is asked, confirms in time, and so do the switches. */
  predicate Confirming(s: Modes, c: Config, i: Input) {
    && (ChildDriven(s.mode) || s.mode == WAIT_ON || i.child.Leave?)
    && (ChildDriven(s.mode) ==>
          Confirmed(s.mode, s.submode, i.child) || (i.child.Leave? && Elapsed(i.now, s.timeoutStart) < s.childDelay))
    && (s.mode == WAIT_ON ==> !SwitchLate(s, c, i) && (i.child.Leave? || Confirmed(START_UP, s.submode, i.child)))
    && (s.mode == WAIT_OFF ==> !SwitchLate(s, c, i))
  }

  /** The child never does anything, and the switches go off in time. */
  predicate Silent(s: Modes, c: Config, i: Input) {
    i.child.Leave? && (s.mode == WAIT_OFF ==> !SwitchLate(s, c, i))
  }

  // --- A commanded transition -------------------------------------------------------------------------------

  /** The state right after a command was taken in this cycle, before the state machine moves. */
  function Taken(s: Modes, c: Config, y: Cycle): Modes {
    if y.command.None? then s else HandleModeCommand(s, c, y.command.value, y.thermalOk, y.delay, y.input.now)
  }

  /** The cycle has a command that the handler, in a lasting mode, accepts. */
  predicate Accepts(s: Modes, y: Cycle) {
    y.command.Some? && y.command.value.Command?
    && Reachable(s, y.command.value.mode, y.command.value.submode, y.thermalOk)
  }

  /** Where a mode leads when all goes well. */
  function Destination(m: Mode): Mode {
    if m == POWER_ON || m == WAIT_ON || m == START_UP || m == TO_ON then ON
    else if m == TO_NORMAL then NORMAL
    else if m == TO_RAW then RAW
    else if Transitional(m) then OFF
    else m
  }

  /** Its commander waits for the mode it commanded. */
  ghost predicate WaitsFor(t: Modes, m: ModeCommand, sent: seq<Message>)
    requires m.Command?
  {
    t.commander == m.sender && t.commandedMode == m.mode && t.commandedSubmode == m.submode && sent <= t.outbox
  }

  /** Its commander was told, behind what had been sent before. */
  ghost predicate Told(t: Modes, sent: seq<Message>, m: Message) {
    sent <= t.outbox && (m.to != NO_QUEUE ==> m in t.outbox[|sent|..])
  }

  lemma TellsOnChange(s: Modes, c: Config, mode: Mode, submode: nat, now: nat, m: ModeCommand, sent: seq<Message>)
    requires m.Command? && WaitsFor(s, m, sent) && !Transitional(mode)
    ensures var t := SetMode(s, c, mode, submode, now);
            Told(t, sent, if mode == m.mode && submode == m.submode then ModeReply(m.sender, mode, submode)
                          else WrongModeReply(m.sender, mode, submode))
  {
    var reply := if mode == m.mode && submode == m.submode then ModeReply(m.sender, mode, submode)
                 else WrongModeReply(m.sender, mode, submode);
    var t := SetMode(s, c, mode, submode, now);
    if m.sender != NO_QUEUE {
      assert t.outbox[|s.outbox|] == reply;
    }
  }

  // --- Confirmed or not ---------------------------------------------------------------------------------------

  /** What the child does in all of a transition. */
  datatype Conduct = Confirms | StaysSilent {
    predicate Allows(s: Modes, c: Config, i: Input) {
      if this.Confirms? then Confirming(s, c, i) else Silent(s, c, i)
    }

    /** The lasting mode a command ought to lead to: the one commanded, or else the one left, or off. */
    function Target(s: Modes, m: ModeCommand): Setting
      requires m.Command?
    {
      if this.Confirms? || (s.mode == OFF && m.mode == RAW) then Setting(m.mode, m.submode)
      else if m.mode == OFF || s.mode == OFF || s.mode == ERROR_ON then Setting(OFF, 0)
      else Setting(s.mode, s.submode)
    }
  }

  datatype Setting = Setting(mode: Mode, submode: nat)

  function ReplyOn(to: Setting, m: ModeCommand): Message
    requires m.Command?
  {
    if to == Setting(m.mode, m.submode) then ModeReply(m.sender, to.mode, to.submode)
    else WrongModeReply(m.sender, to.mode, to.submode)
  }

  /** Will a transition that nothing confirms end in this lasting mode? */
  predicate FallsBack(t: Modes, to: Setting) {
    if ChildDriven(t.mode) then
      t.source == (if to == Setting(OFF, 0) then POWER_DOWN else to.mode) && t.sourceSubmode == to.submode
    else
      to == Setting(OFF, 0) && t.submode == 0
      && (t.mode == POWER_ON || t.mode == WAIT_ON ==> t.source == POWER_DOWN && t.sourceSubmode == 0)
  }

  /** On the way there, or there with the commander told so. */
  ghost predicate Bound(k: Conduct, t: Modes, to: Setting, m: ModeCommand, sent: seq<Message>)
    requires m.Command?
  {
    if !Transitional(t.mode) then to == Setting(t.mode, t.submode) && Told(t, sent, ReplyOn(to, m))
    else
      && WaitsFor(t, m, sent) && !Transitional(to.mode)
      && if k.Confirms? then Destination(t.mode) == to.mode && t.submode == to.submode == 0 else FallsBack(t, to)
  }

  lemma BoundOn(k: Conduct, s: Modes, c: Config, mode: Mode, submode: nat, now: nat, to: Setting, m: ModeCommand,
                sent: seq<Message>)
    requires m.Command? && WaitsFor(s, m, sent) && !Transitional(to.mode)
    requires if !Transitional(mode) then to == Setting(mode, submode)
             else if k.Confirms? then Destination(mode) == to.mode && submode == to.submode == 0
             else FallsBack(s.(mode := mode, submode := submode), to)
    ensures Bound(k, SetMode(s, c, mode, submode, now), to, m, sent)
  {
    if !Transitional(mode) { TellsOnChange(s, c, mode, submode, now, m, sent); }
  }

  lemma TransitionBound(k: Conduct, u: Modes, c: Config, m: ModeCommand, delay: nat, now: nat, sent: seq<Message>)
    requires m.Command? && Reachable(u, m.mode, m.submode, true) && Known(u.mode) && WaitsFor(u, m, sent)
    ensures Bound(k, StartTransition(u, c, m.mode, m.submode, delay, now), k.Target(u, m), m, sent)
  {
    var to := k.Target(u, m);
    if m.mode == ON && u.mode == OFF {
      BoundOn(k, u.(source := POWER_DOWN, sourceSubmode := 0), c, POWER_ON, 0, now, to, m, sent);
    } else if m.mode == OFF && u.mode == OFF {
      BoundOn(k, u, c, POWER_DOWN, 0, now, to, m, sent);
    } else if m.mode == OFF {
      BoundOn(k, u.(childDelay := delay, source := POWER_DOWN, sourceSubmode := 0), c, SHUT_DOWN, 0, now, to, m, sent);
    } else if u.mode == OFF {
      BoundOn(k, u, c, RAW, 0, now, to, m, sent);
    } else {
      BoundOn(k, u.(childDelay := delay, source := u.mode, sourceSubmode := u.submode), c, WithChildAction(m.mode), 0,
              now, to, m, sent);
    }
  }

  lemma SetsOut(k: Conduct, s: Modes, c: Config, y: Cycle)
    requires Accepts(s, y) && Known(s.mode)
    ensures Bound(k, Taken(s, c, y), k.Target(s, y.command.value), y.command.value, s.outbox)
  {
    var m := y.command.value;
    var u := (if m.forced then s.(forced := true) else s)
             .(commander := m.sender, commandedMode := m.mode, commandedSubmode := m.submode);
    TransitionBound(k, u, c, m, y.delay, y.input.now, s.outbox);
  }

  lemma BoundMachine(k: Conduct, s: Modes, c: Config, i: Input, to: Setting, m: ModeCommand, sent: seq<Message>)
    requires m.Command? && Sound(s) && Bound(k, s, to, m, sent) && k.Allows(s, c, i)
    ensures Bound(k, DoStateMachine(s, c, i), to, m, sent)
  {
    if ChildDriven(s.mode) {
      BoundChild(k, s, c, i, to, m, sent);
    } else {
      var move := BaseMove(s, c, i);
      if move.Go? {
        BoundOn(k, s, c, move.mode, move.submode, i.now, to, m, sent);
        var t := SetMode(s, c, move.mode, move.submode, i.now);
        if s.mode == WAIT_ON && i.child.Sets? {
          BoundOn(k, t, c, i.child.mode, i.child.submode, i.now, to, m, sent);
        }
      }
    }
  }

  lemma BoundChild(k: Conduct, s: Modes, c: Config, i: Input, to: Setting, m: ModeCommand, sent: seq<Message>)
    requires m.Command? && ChildDriven(s.mode) && Bound(k, s, to, m, sent) && k.Allows(s, c, i)
    ensures Bound(k, DoStateMachine(s, c, i), to, m, sent)
  {
    if i.child.Sets? {
      BoundOn(k, s, c, i.child.mode, i.child.submode, i.now, to, m, sent);
    } else if Elapsed(i.now, s.timeoutStart) >= s.childDelay {
      BoundOn(k, s, c, s.source, s.sourceSubmode, i.now, to, m, sent);
    }
  }

  /** Whatever is commanded meanwhile. */
  lemma MeanwhileWaits(s: Modes, c: Config, y: Cycle, m: ModeCommand, sent: seq<Message>)
    requires m.Command? && Transitional(s.mode) && WaitsFor(s, m, sent)
    ensures var t := Taken(s, c, y);
            && t == s.(forced := t.forced, outbox := t.outbox) && WaitsFor(t, m, sent)
  {
  }

  lemma AllowedIsCooperative(k: Conduct, s: Modes, c: Config, i: Input)
    requires Known(s.mode) && Transitional(s.mode) && k.Allows(s, c, i)
    ensures Cooperative(s, i)
  {
  }

  // --- Until a lasting mode is reached --------------------------------------------------------------------------

  ghost predicate AlwaysAllows(k: Conduct, s: Modes, c: Config, cycles: nat -> Cycle) {
    forall j: nat :: AllowsAt(k, s, c, cycles, j)
  }

  ghost predicate AllowsAt(k: Conduct, s: Modes, c: Config, cycles: nat -> Cycle, j: nat) {
    k.Allows(StateAt(s, c, cycles, j), c, cycles(j).input)
  }

  ghost predicate StillMoving(s: Modes, c: Config, cycles: nat -> Cycle, j: nat, n: nat) {
    forall i: nat :: j <= i < n ==> Transitional(StateAt(s, c, cycles, i).mode)
  }

  ghost predicate BoundAt(k: Conduct, s: Modes, c: Config, cycles: nat -> Cycle, j: nat, to: Setting, m: ModeCommand,
                          sent: seq<Message>)
    requires m.Command?
  {
    Bound(k, StateAt(s, c, cycles, j), to, m, sent)
  }

  /** The rank of the mode falls, or only the time left does. */
  ghost predicate Nearer(s: Modes, c: Config, cycles: nat -> Cycle, j: nat)
    requires OnTheWay(s, c, cycles, j) && OnTheWay(s, c, cycles, j + 1)
  {
    var t, u := StateAt(s, c, cycles, j), StateAt(s, c, cycles, j + 1);
    Rank(u.mode) < Rank(t.mode)
    || (u.mode == t.mode && Left(u, c, cycles(j + 1).input.now) < Left(t, c, cycles(j).input.now))
  }

  /** One cycle on: nearer to the end of the transition, and still bound for the same mode. */
  lemma StepBound(k: Conduct, s: Modes, c: Config, cycles: nat -> Cycle, j: nat, to: Setting, m: ModeCommand,
                  sent: seq<Message>)
    requires AlwaysPaced(s, c, cycles) && AlwaysAllows(k, s, c, cycles) && m.Command?
    requires OnTheWay(s, c, cycles, j) && Transitional(StateAt(s, c, cycles, j).mode)
    requires BoundAt(k, s, c, cycles, j, to, m, sent)
    ensures OnTheWay(s, c, cycles, j + 1) && Nearer(s, c, cycles, j) && BoundAt(k, s, c, cycles, j + 1, to, m, sent)
  {
    var t, y := StateAt(s, c, cycles, j), cycles(j);
    assert PacedAt(s, c, cycles, j) && AllowsAt(k, s, c, cycles, j);
    AllowedIsCooperative(k, t, c, y.input);
    TransitionStep(t, c, y, cycles(j + 1).input.now);
    MeanwhileWaits(t, c, y, m, sent);
    BoundMachine(k, Taken(t, c, y), c, y.input, to, m, sent);
  }

  lemma {:induction false} Arrives(k: Conduct, s: Modes, c: Config, cycles: nat -> Cycle, j: nat, to: Setting,
                                   m: ModeCommand, sent: seq<Message>) returns (n: nat)
    requires AlwaysPaced(s, c, cycles) && AlwaysAllows(k, s, c, cycles) && m.Command?
    requires OnTheWay(s, c, cycles, j) && BoundAt(k, s, c, cycles, j, to, m, sent)
    ensures n >= j && StillMoving(s, c, cycles, j, n) && !Transitional(StateAt(s, c, cycles, n).mode)
    ensures BoundAt(k, s, c, cycles, n, to, m, sent)
    decreases Rank(StateAt(s, c, cycles, j).mode), Left(StateAt(s, c, cycles, j), c, cycles(j).input.now)
  {
    if !Transitional(StateAt(s, c, cycles, j).mode) {
      n := j;
    } else {
      StepBound(k, s, c, cycles, j, to, m, sent);
      n := Arrives(k, s, c, cycles, j + 1, to, m, sent);
    }
  }

  /** The child sets modes of the handler only. */
  lemma AllowedIsKnown(k: Conduct, s: Modes, c: Config, y: Cycle)
    requires Sound(s) && k.Allows(s, c, y.input)
    ensures ChildKnown(y.input)
  {
  }

  lemma TimedFromHere(s: Modes, c: Config, y: Cycle, later: nat)
    requires Accepts(s, y) && y.input.now < later < y.input.now + WORD
    ensures InTime(Next(s, c, y), later)
  {
  }

  /** The cycle of the command. */
  lemma FirstCycle(k: Conduct, s: Modes, c: Config, y: Cycle, later: nat)
    requires Sound(s) && Accepts(s, y) && k.Allows(Taken(s, c, y), c, y.input)
    requires y.input.now < later < y.input.now + WORD
    ensures var t := Next(s, c, y);
            Sound(t) && InTime(t, later) && Bound(k, t, k.Target(s, y.command.value), y.command.value, s.outbox)
  {
    var u := Taken(s, c, y);
    SetsOut(k, s, c, y);
    SoundCommand(s, c, y.command.value, y.thermalOk, y.delay, y.input.now);
    BoundMachine(k, u, c, y.input, k.Target(s, y.command.value), y.command.value, s.outbox);
    AllowedIsKnown(k, u, c, y);
    SoundMachine(u, c, y.input);
    TimedFromHere(s, c, y, later);
  }

  lemma ArrivesFrom(k: Conduct, t: Modes, c: Config, rest: nat -> Cycle, to: Setting, m: ModeCommand,
                    sent: seq<Message>) returns (n: nat)
    requires Sound(t) && InTime(t, rest(0).input.now) && m.Command? && Bound(k, t, to, m, sent)
    requires AlwaysPaced(t, c, rest) && AlwaysAllows(k, t, c, rest)
    ensures StillMoving(t, c, rest, 0, n)
    ensures var u := StateAt(t, c, rest, n); Setting(u.mode, u.submode) == to && Told(u, sent, ReplyOn(to, m))
  {
    n := Arrives(k, t, c, rest, 0, to, m, sent);
  }

  /**
   Every command taken in a lasting mode: if the child confirms what it is asked to bring about and the switches
   answer in time, the first lasting mode reached is the one commanded; if the child stays silent, it is the one
   that was left, or off where power was or is to be off. In both cases the commander is told which.
   */
  lemma ReachesTarget(k: Conduct, s: Modes, c: Config, y: Cycle, t: Modes, rest: nat -> Cycle) returns (n: nat)
    requires Sound(s) && Accepts(s, y) && k.Allows(Taken(s, c, y), c, y.input) && t == Next(s, c, y)
    requires y.input.now < rest(0).input.now < y.input.now + WORD
    requires AlwaysPaced(t, c, rest) && AlwaysAllows(k, t, c, rest)
    ensures StillMoving(t, c, rest, 0, n)
    ensures var m, u := y.command.value, StateAt(t, c, rest, n);
            Setting(u.mode, u.submode) == k.Target(s, m) && Told(u, s.outbox, ReplyOn(k.Target(s, m), m))
  {
    FirstCycle(k, s, c, y, rest(0).input.now);
    n := ArrivesFrom(k, t, c, rest, k.Target(s, y.command.value), y.command.value, s.outbox);
  }

  /** A device that is on is commanded to NORMAL by queue 5, and its child confirms at once. */
  lemma OnToNormalExample(now: nat)
    ensures var s := START.(mode := ON);
            var y := Cycle(Some(Command(5, NORMAL, 0, false)), true, 0, Input(now, Sets(NORMAL, 0), NoSwitch));
            var t := Next(s, Config(NO_QUEUE, NoSwitcher), y);
            t.mode == NORMAL && t.outbox == [ModeReply(5, NORMAL, 0)]
  {
  }

  // --- Switches that are late ---------------------------------------------------------------------------------

  /**
   A device waits for power exactly while the switches are off and not late; late, it is powered down again. With
   power its child is asked to start it up in the same cycle.
   */
  lemma WaitsForPower(s: Modes, c: Config, i: Input)
    requires s.mode == WAIT_ON && (i.child.Sets? ==> i.child.mode != WAIT_ON)
    ensures var t := DoStateMachine(s, c, i);
            && (t.mode == WAIT_ON <==> c.switchDelay.Switcher? && i.switches.SwitchOff? && !SwitchLate(s, c, i))
            && (SwitchLate(s, c, i) ==> t.mode == POWER_DOWN)
            && (t.mode != WAIT_ON && !SwitchLate(s, c, i) ==>
                  t.mode == if i.child.Sets? then i.child.mode else START_UP)
  {
  }

  /** A mode that the handler does not know powers the device down. */
  lemma UnknownPowersDown(s: Modes, c: Config, i: Input)
    requires !Known(s.mode)
    ensures DoStateMachine(s, c, i).mode == POWER_DOWN && DoStateMachine(s, c, i).submode == 0
  {
  }

  /** Likewise while the switches are on; late, it is in error and its commander told that this is a wrong mode. */
  lemma WaitsForSwitchOff(s: Modes, c: Config, i: Input, m: ModeCommand)
    requires s.mode == WAIT_OFF && m.Command? && WaitsFor(s, m, s.outbox) && m.mode != ERROR_ON
    ensures var t := DoStateMachine(s, c, i);
            && (t.mode == WAIT_OFF <==> c.switchDelay.Switcher? && i.switches.SwitchOn? && !SwitchLate(s, c, i))
            && (SwitchLate(s, c, i) ==>
                  t.mode == ERROR_ON && Told(t, s.outbox, WrongModeReply(m.sender, ERROR_ON, s.submode)))
  {
    if SwitchLate(s, c, i) { TellsOnChange(s, c, ERROR_ON, s.submode, i.now, m, s.outbox); }
  }

  // --- Commands refused, and the parent -----------------------------------------------------------------------

  /** What a handler cannot be commanded to, and when. */
  predicate OutOfReach(s: Modes, m: ModeCommand, thermalOk: bool)
    requires m.Command?
  {
    || Transitional(s.mode)
    || m.submode != 0 || m.mode > RAW
    || (s.mode == ERROR_ON && m.mode != OFF)
    || (s.mode == OFF && m.mode == NORMAL)
    || (s.mode == OFF && m.mode == ON && !thermalOk)
  }

  /**
   The timer is restarted, the child has as long as the transition may take, wherever it is to be asked, and
   nobody is told that a mode cannot be reached.
   */
  ghost predicate Started(t: Modes, sent: seq<Message>, q: Queue, delay: nat, now: nat) {
    && t.timeoutStart == now && (ChildDriven(t.mode) || t.mode == POWER_ON ==> t.childDelay == delay)
    && sent <= t.outbox && CantReach(q) !in t.outbox[|sent|..]
  }

  lemma SetModeStarts(s: Modes, c: Config, mode: Mode, submode: nat, delay: nat, now: nat, q: Queue)
    requires ChildDriven(mode) ==> s.childDelay == delay
    ensures var t := SetMode(s, c, mode, submode, now);
            Started(if mode == POWER_ON then t.(childDelay := delay) else t, s.outbox, q, delay, now)
  {
  }

  lemma TransitionStarts(s: Modes, c: Config, mode: Mode, submode: nat, delay: nat, now: nat, q: Queue)
    requires Reachable(s, mode, submode, true)
    ensures Started(StartTransition(s, c, mode, submode, delay, now), s.outbox, q, delay, now)
  {
    if mode == ON && s.mode == OFF {
      SetModeStarts(s.(source := POWER_DOWN, sourceSubmode := 0), c, POWER_ON, submode, delay, now, q);
    } else if mode == OFF {
      SetModeStarts(s, c, POWER_DOWN, submode, delay, now, q);
      SetModeStarts(s.(childDelay := delay, source := POWER_DOWN, sourceSubmode := submode), c, SHUT_DOWN, submode,
                    delay, now, q);
    } else {
      SetModeStarts(s, c, RAW, submode, delay, now, q);
      SetModeStarts(s.(childDelay := delay, source := s.mode, sourceSubmode := s.submode), c, WithChildAction(mode),
                    submode, delay, now, q);
    }
  }

  /** A command out of reach is refused, with that message and nothing else changed; any other starts. */
  lemma RefusedIff(s: Modes, c: Config, m: ModeCommand, thermalOk: bool, delay: nat, now: nat)
    requires m.Command?
    ensures var t := HandleModeCommand(s, c, m, thermalOk, delay, now);
            if OutOfReach(s, m, thermalOk) then
              t == s.(forced := s.forced || m.forced, outbox := s.outbox + [CantReach(m.sender)])
            else Started(t, s.outbox, m.sender, delay, now)
  {
    if !OutOfReach(s, m, thermalOk) {
      TransitionStarts((if m.forced then s.(forced := true) else s)
                       .(commander := m.sender, commandedMode := m.mode, commandedSubmode := m.submode),
                       c, m.mode, m.submode, delay, now, m.sender);
    }
  }

  /** Reading the mode is answered with mode and submode as they are, and changes nothing. */
  lemma ReadTells(s: Modes, c: Config, q: Queue, thermalOk: bool, delay: nat, now: nat)
    ensures var t := HandleModeCommand(s, c, Read(q), thermalOk, delay, now);
            && t == s.(outbox := t.outbox) && |t.outbox| == |s.outbox| + 1 && s.outbox <= t.outbox
            && t.outbox[|s.outbox|] == ModeReply(q, s.mode, s.submode)
  {
  }

  /** A forced command stays one until a lasting mode is set. */
  lemma ForcedUntilReached(s: Modes, c: Config, mode: Mode, submode: nat, now: nat)
    ensures SetMode(s, c, mode, submode, now).forced <==> s.forced && Transitional(mode)
  {
  }

  function MessagesTo(messages: seq<Message>, q: Queue): nat {
    if messages == [] then 0
    else MessagesTo(messages[..|messages| - 1], q) + if messages[|messages| - 1].to == q then 1 else 0
  }

  lemma OneMessageMore(a: seq<Message>, m: Message, q: Queue)
    ensures MessagesTo(a + [m], q) == MessagesTo(a, q) + if m.to == q then 1 else 0
  {
    assert (a + [m])[..|a|] == a;
  }

  /** The parent gets one message with every lasting mode that is set, as an answer if it commanded it. */
  lemma ParentHears(s: Modes, c: Config, mode: Mode, submode: nat, now: nat)
    requires c.parent != NO_QUEUE && !Transitional(mode)
    ensures var t := SetMode(s, c, mode, submode, now);
            && MessagesTo(t.outbox, c.parent) == MessagesTo(s.outbox, c.parent) + 1
            && t.outbox != [] && t.outbox[|t.outbox| - 1].to == c.parent
            && (t.outbox[|t.outbox| - 1].ModeInfo? <==> s.commander != c.parent)
  {
    var u := s.(mode := mode, submode := submode);
    var reply, info, q := ReplyFor(u), ModeInfo(c.parent, mode, submode), c.parent;
    var t := SetMode(s, c, mode, submode, now);
    if s.commander == NO_QUEUE {
      assert t.outbox == s.outbox + [info];
      OneMessageMore(s.outbox, info, q);
    } else {
      OneMessageMore(s.outbox, reply, q);
      OneMessageMore(s.outbox + [reply], info, q);
      assert t.outbox == if s.commander == q then s.outbox + [reply] else s.outbox + [reply] + [info];
    }
  }
}
