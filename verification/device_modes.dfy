/** The mode machine of a device handler and the replies it owes to whoever commands a mode. */
module DeviceModes {
  import opened Wrappers
  import opened Words

  // --- Modes ------------------------------------------------------------------------------------------

  type Mode = nat
  type Queue = nat

  const NO_QUEUE: Queue := 0

  const OFF: Mode := 0
  const ON: Mode := 1
  const NORMAL: Mode := 2
  const RAW: Mode := 3
  const ERROR_ON: Mode := 4

  const START_UP: Mode := 0x25
  const SHUT_DOWN: Mode := 0x26
  const TO_ON: Mode := 0x21
  const TO_NORMAL: Mode := 0x22
  const TO_RAW: Mode := 0x23
  const POWER_DOWN: Mode := 0x11
  const POWER_ON: Mode := 0x12
  const WAIT_OFF: Mode := 0x13
  const WAIT_ON: Mode := 0x14
  const SWITCH_IS_OFF: Mode := 0x15

  /** Bit 0x20: the child drives the transition; bit 0x10: the base class does. */
  predicate ChildAction(m: Mode) { m / 0x20 % 2 == 1 }

  predicate Transitional(m: Mode) { m / 0x10 % 4 != 0 }

  function WithChildAction(m: Mode): Mode { if ChildAction(m) then m else m + 0x20 }

  // --- State ---------------------------------------------------------------------------------------------

  datatype Message =
    | CantReach(to: Queue)
    | ModeReply(to: Queue, mode: Mode, submode: nat)
    | WrongModeReply(to: Queue, mode: Mode, submode: nat)
    | ModeInfo(to: Queue, mode: Mode, submode: nat)

  /** What a handler is configured with: its parent, and the delay of its power switch if it has one. */
  datatype Config = Config(parent: Queue, switchDelay: Switch)
  datatype Switch = NoSwitcher | Switcher(delay: nat)
  datatype SwitchState = SwitchOn | SwitchOff | NoSwitch

  datatype Modes = Modes(
    mode: Mode, submode: nat,
    source: Mode, sourceSubmode: nat,
    childDelay: nat, timeoutStart: nat,
    commander: Queue, commandedMode: Mode, commandedSubmode: nat, forced: bool,
    outbox: seq<Message>)

  const START := Modes(OFF, 0, POWER_DOWN, 0, 5000, 0, NO_QUEUE, OFF, 0, false, [])

  /** Difference of two 32-bit uptimes. */
  function Elapsed(now: nat, since: nat): nat { (now - since) % WORD }

  // --- ModeHelper ------------------------------------------------------------------------------------------

  function ReplyFor(s: Modes): Message {
    if s.mode != s.commandedMode || s.submode != s.commandedSubmode then WrongModeReply(s.commander, s.mode, s.submode)
    else ModeReply(s.commander, s.mode, s.submode)
  }

  function ModeChanged(s: Modes, c: Config): Modes {
    s.(forced := false, commander := NO_QUEUE,
       outbox := s.outbox
                 + (if s.commander != NO_QUEUE then [ReplyFor(s)] else [])
                 + (if s.commander != c.parent && c.parent != NO_QUEUE
                    then [ModeInfo(c.parent, s.mode, s.submode)] else []))
  }

  function SetMode(s: Modes, c: Config, mode: Mode, submode: nat, now: nat): Modes {
    var t := s.(mode := mode, submode := submode);
    var u := if Transitional(mode) then t else ModeChanged(t, c);
    u.(timeoutStart := now)
  }

  // --- Commands ------------------------------------------------------------------------------------------------

  datatype ModeCommand = Command(sender: Queue, mode: Mode, submode: nat, forced: bool) | Read(sender: Queue) | Announce

  function SetTransition(s: Modes, c: Config, to: Mode, submode: nat, delay: nat, now: nat): Modes {
    SetMode(s.(childDelay := delay, source := s.mode, sourceSubmode := s.submode), c, WithChildAction(to), submode, now)
  }

  /**
   A command is taken in a lasting mode only; only OFF leaves the error mode, and NORMAL needs a device
   that is on.
   */
  predicate Reachable(s: Modes, mode: Mode, submode: nat, thermalOk: bool) {
    && !Transitional(s.mode)
    && (s.mode == ERROR_ON ==> mode == OFF)
    && !(mode == NORMAL && s.mode == OFF)
    && (mode == ON && s.mode == OFF ==> thermalOk)
    && (mode == OFF || mode == ON || mode == NORMAL || mode == RAW) && submode == 0
  }

  function StartTransition(s: Modes, c: Config, mode: Mode, submode: nat, delay: nat, now: nat): Modes {
    if mode == ON then
      if s.mode == OFF then
        SetMode(s.(source := POWER_DOWN, sourceSubmode := 0), c, POWER_ON, submode, now).(childDelay := delay)
      else SetTransition(s, c, ON, submode, delay, now)
    else if mode == OFF then
      if s.mode == OFF then SetMode(s, c, POWER_DOWN, submode, now)
      else SetMode(s.(childDelay := delay, source := POWER_DOWN, sourceSubmode := submode), c, SHUT_DOWN, submode, now)
    else if mode == RAW then
      if s.mode != OFF then SetTransition(s, c, RAW, submode, delay, now) else SetMode(s, c, RAW, submode, now)
    else if mode == NORMAL && s.mode != OFF then SetTransition(s, c, NORMAL, submode, delay, now)
    else s
  }

  /** Rejects a command, or notes the commander and starts. */
  function Take(s: Modes, c: Config, m: ModeCommand, thermalOk: bool, delay: nat, now: nat): Modes
    requires m.Command?
  {
    if !Reachable(s, m.mode, m.submode, thermalOk) then s.(outbox := s.outbox + [CantReach(m.sender)])
    else
      StartTransition(s.(commander := m.sender, commandedMode := m.mode, commandedSubmode := m.submode), c,
                      m.mode, m.submode, delay, now)
  }

  function HandleModeCommand(s: Modes, c: Config, m: ModeCommand, thermalOk: bool, delay: nat, now: nat): Modes {
    match m
    case Command(sender, mode, submode, forced) =>
      Take(if forced then s.(forced := true) else s, c, m, thermalOk, delay, now)
    case Read(sender) => s.(outbox := s.outbox + [ModeReply(sender, s.mode, s.submode)])
    case Announce => s
  }

  // --- The state machine -----------------------------------------------------------------------------------------

  /** What a child hook does: leave the mode or set one. */
  datatype Child = Leave | Sets(mode: Mode, submode: nat)

  function CallChild(s: Modes, c: Config, child: Child, now: nat): Modes {
    if ChildAction(s.mode) && child.Sets? then SetMode(s, c, child.mode, child.submode, now) else s
  }

  /** Surroundings of one cycle: uptime, the child's hook and the state of the switches. */
  datatype Input = Input(now: nat, child: Child, switches: SwitchState)

  function Switches(c: Config, i: Input): SwitchState {
    if c.switchDelay.NoSwitcher? then NoSwitch else i.switches
  }

  predicate ChildDriven(m: Mode) {
    m == START_UP || m == SHUT_DOWN || m == TO_NORMAL || m == TO_ON || m == TO_RAW
  }

  /** What the base class does in the modes it drives itself, by power switch and timeout. */
  datatype Move = Stay | Go(mode: Mode, submode: nat)

  function BaseMove(s: Modes, c: Config, i: Input): Move {
    var timedOut := c.switchDelay.Switcher? && Elapsed(i.now, s.timeoutStart) >= c.switchDelay.delay;
    if s.mode == POWER_DOWN then Go(WAIT_OFF, s.submode)
    else if s.mode == POWER_ON then Go(WAIT_ON, s.submode)
    else if s.mode == WAIT_ON then
      if timedOut then Go(POWER_DOWN, s.submode)
      else if !Switches(c, i).SwitchOff? then Go(START_UP, s.submode)
      else Stay
    else if s.mode == WAIT_OFF then
      if c.switchDelay.NoSwitcher? then Go(OFF, s.submode)
      else if timedOut then Go(ERROR_ON, s.submode)
      else if !Switches(c, i).SwitchOn? then Go(SWITCH_IS_OFF, s.submode)
      else Stay
    else if s.mode == SWITCH_IS_OFF then Go(OFF, 0)
    else if s.mode == OFF || s.mode == ON || s.mode == RAW || s.mode == NORMAL || s.mode == ERROR_ON then Stay
    else Go(POWER_DOWN, 0)
  }

  function DoStateMachine(s: Modes, c: Config, i: Input): Modes {
    if ChildDriven(s.mode) then
      var t := CallChild(s, c, i.child, i.now);
      if t.mode == s.mode && Elapsed(i.now, t.timeoutStart) >= t.childDelay then
        SetMode(t, c, t.source, t.sourceSubmode, i.now)
      else t
    else
      match BaseMove(s, c, i)
      case Stay => s
      case Go(mode, submode) =>
        var t := SetMode(s, c, mode, submode, i.now);
        if s.mode == WAIT_ON then CallChild(t, c, i.child, i.now) else t
  }

  // --- Replies, over every run -----------------------------------------------------------------------------------

  /** One cycle: at most one command, then the state machine. */
  datatype Cycle = Cycle(command: Option<ModeCommand>, thermalOk: bool, delay: nat, input: Input)

  function Next(s: Modes, c: Config, y: Cycle): Modes {
    var t := if y.command.None? then s else HandleModeCommand(s, c, y.command.value, y.thermalOk, y.delay, y.input.now);
    DoStateMachine(t, c, y.input)
  }

  function Run(s: Modes, c: Config, cycles: seq<Cycle>): Modes {
    if cycles == [] then s else Next(Run(s, c, cycles[..|cycles| - 1]), c, cycles[|cycles| - 1])
  }

  predicate Answers(m: Message, q: Queue) {
    (m.CantReach? || m.ModeReply? || m.WrongModeReply?) && m.to == q
  }

  function Answered(outbox: seq<Message>, q: Queue): nat {
    if outbox == [] then 0
    else Answered(outbox[..|outbox| - 1], q) + if Answers(outbox[|outbox| - 1], q) then 1 else 0
  }

  function Pending(s: Modes, q: Queue): nat { if s.commander == q then 1 else 0 }

  /** Commanding a mode and reading it both ask for an answer, and a read is answered like a mode reached. */
  predicate Asks(m: ModeCommand, q: Queue) { !m.Announce? && m.sender == q }

  function CommandsIn(y: Cycle, q: Queue): nat {
    if y.command.Some? && Asks(y.command.value, q) then 1 else 0
  }

  function Commands(cycles: seq<Cycle>, q: Queue): nat {
    if cycles == [] then 0 else Commands(cycles[..|cycles| - 1], q) + CommandsIn(cycles[|cycles| - 1], q)
  }

  /** In a lasting mode nobody is waiting for an answer. */
  predicate NobodyWaits(s: Modes) {
    !Transitional(s.mode) ==> s.commander == NO_QUEUE
  }

  lemma AnsweredOne(a: seq<Message>, m: Message, q: Queue)
    ensures Answered(a + [m], q) == Answered(a, q) + if Answers(m, q) then 1 else 0
  {
    assert (a + [m])[..|a|] == a;
  }

  /** What a commander is owed: the answers it has and the one outstanding. */
  function Owed(s: Modes, q: Queue): nat { Answered(s.outbox, q) + Pending(s, q) }

  lemma OptionalMessage(a: seq<Message>, given: bool, m: Message, q: Queue)
    ensures Answered(a + (if given then [m] else []), q) == Answered(a, q) + if given && Answers(m, q) then 1 else 0
  {
    AnsweredOne(a, m, q);
    assert a + [] == a;
  }

  lemma ModeChangedKeepsAccount(s: Modes, c: Config, q: Queue)
    requires q != NO_QUEUE
    ensures Owed(ModeChanged(s, c), q) == Owed(s, q)
  {
    var info := ModeInfo(c.parent, s.mode, s.submode);
    var replied := s.outbox + (if s.commander != NO_QUEUE then [ReplyFor(s)] else []);
    OptionalMessage(s.outbox, s.commander != NO_QUEUE, ReplyFor(s), q);
    OptionalMessage(replied, s.commander != c.parent && c.parent != NO_QUEUE, info, q);
  }

  /** Setting a mode, whichever it is, answers exactly the commander that was waiting, or leaves it waiting. */
  lemma SetModeKeepsAccount(s: Modes, c: Config, mode: Mode, submode: nat, now: nat, q: Queue)
    requires q != NO_QUEUE
    ensures var t := SetMode(s, c, mode, submode, now); Owed(t, q) == Owed(s, q) && NobodyWaits(t)
  {
    ModeChangedKeepsAccount(s.(mode := mode, submode := submode), c, q);
  }

  lemma CallChildKeepsAccount(s: Modes, c: Config, child: Child, now: nat, q: Queue)
    requires q != NO_QUEUE && NobodyWaits(s)
    ensures var t := CallChild(s, c, child, now); Owed(t, q) == Owed(s, q) && NobodyWaits(t)
  {
    if child.Sets? {
      SetModeKeepsAccount(s, c, child.mode, child.submode, now, q);
    }
  }

  lemma StateMachineKeepsAccount(s: Modes, c: Config, i: Input, q: Queue)
    requires q != NO_QUEUE && NobodyWaits(s)
    ensures var t := DoStateMachine(s, c, i); Owed(t, q) == Owed(s, q) && NobodyWaits(t)
  {
    if ChildDriven(s.mode) {
      CallChildKeepsAccount(s, c, i.child, i.now, q);
      var t := CallChild(s, c, i.child, i.now);
      SetModeKeepsAccount(t, c, t.source, t.sourceSubmode, i.now, q);
    } else {
      match BaseMove(s, c, i)
      case Stay =>
      case Go(mode, submode) =>
        SetModeKeepsAccount(s, c, mode, submode, i.now, q);
        CallChildKeepsAccount(SetMode(s, c, mode, submode, i.now), c, i.child, i.now, q);
    }
  }

  /** An accepted command finds nobody waiting, so it never displaces a commander. */
  lemma AcceptanceKeepsAccount(s: Modes, c: Config, m: ModeCommand, delay: nat, now: nat, q: Queue)
    requires q != NO_QUEUE && NobodyWaits(s) && m.Command? && Reachable(s, m.mode, m.submode, true)
    ensures var u := s.(commander := m.sender, commandedMode := m.mode, commandedSubmode := m.submode);
            var t := StartTransition(u, c, m.mode, m.submode, delay, now);
            Owed(t, q) == Owed(s, q) + (if m.sender == q then 1 else 0) && NobodyWaits(t)
  {
    var u := s.(commander := m.sender, commandedMode := m.mode, commandedSubmode := m.submode);
    assert s.commander == NO_QUEUE;
    StartTransitionKeepsAccount(u, c, m.mode, m.submode, delay, now, q);
  }

  lemma MessageKeepsAccount(s: Modes, m: Message, q: Queue)
    requires NobodyWaits(s)
    ensures var t := s.(outbox := s.outbox + [m]);
            Owed(t, q) == Owed(s, q) + (if Answers(m, q) then 1 else 0) && NobodyWaits(t)
  {
    AnsweredOne(s.outbox, m, q);
  }

  lemma TakeKeepsAccount(s: Modes, c: Config, m: ModeCommand, thermalOk: bool, delay: nat, now: nat, q: Queue)
    requires q != NO_QUEUE && NobodyWaits(s) && m.Command?
    ensures var t := Take(s, c, m, thermalOk, delay, now);
            Owed(t, q) == Owed(s, q) + (if m.sender == q then 1 else 0) && NobodyWaits(t)
  {
    if Reachable(s, m.mode, m.submode, thermalOk) {
      AcceptanceKeepsAccount(s, c, m, delay, now, q);
    } else {
      MessageKeepsAccount(s, CantReach(m.sender), q);
    }
  }

  lemma CommandKeepsAccount(s: Modes, c: Config, m: ModeCommand, thermalOk: bool, delay: nat, now: nat, q: Queue)
    requires q != NO_QUEUE && NobodyWaits(s)
    ensures var t := HandleModeCommand(s, c, m, thermalOk, delay, now);
            && Owed(t, q) == Owed(s, q) + (if Asks(m, q) then 1 else 0)
            && NobodyWaits(t)
  {
    match m
    case Command(sender, mode, submode, forced) =>
      TakeKeepsAccount(if forced then s.(forced := true) else s, c, m, thermalOk, delay, now, q);
    case Read(sender) =>
      MessageKeepsAccount(s, ModeReply(sender, s.mode, s.submode), q);
    case Announce =>
  }

  lemma StartTransitionKeepsAccount(s: Modes, c: Config, mode: Mode, submode: nat, delay: nat, now: nat, q: Queue)
    requires q != NO_QUEUE && Reachable(s, mode, submode, true)
    ensures var t := StartTransition(s, c, mode, submode, delay, now); Owed(t, q) == Owed(s, q) && NobodyWaits(t)
  {
    var moved := s.(childDelay := delay, source := s.mode, sourceSubmode := s.submode);
    if mode == ON && s.mode == OFF {
      SetModeKeepsAccount(s.(source := POWER_DOWN, sourceSubmode := 0), c, POWER_ON, submode, now, q);
    } else if mode == OFF {
      SetModeKeepsAccount(s, c, POWER_DOWN, submode, now, q);
      SetModeKeepsAccount(s.(childDelay := delay, source := POWER_DOWN, sourceSubmode := submode), c, SHUT_DOWN,
                          submode, now, q);
    } else if mode == RAW && s.mode == OFF {
      SetModeKeepsAccount(s, c, RAW, submode, now, q);
    } else {
      SetModeKeepsAccount(moved, c, WithChildAction(mode), submode, now, q);
    }
  }

  /**
   Over every run, whatever the child does: a commander has as many answers as it sent commands and reads, but for
   the one outstanding command of a transition, and there is none outstanding in a lasting mode.
   */
  lemma {:induction false} OneAnswerPerCommand(c: Config, cycles: seq<Cycle>, q: Queue)
    requires q != NO_QUEUE
    ensures var s := Run(START, c, cycles);
            Answered(s.outbox, q) + Pending(s, q) == Commands(cycles, q) && NobodyWaits(s)
    decreases |cycles|
  {
    if cycles != [] {
      var before, y := Run(START, c, cycles[..|cycles| - 1]), cycles[|cycles| - 1];
      OneAnswerPerCommand(c, cycles[..|cycles| - 1], q);
      var t := before;
      if y.command.Some? {
        CommandKeepsAccount(before, c, y.command.value, y.thermalOk, y.delay, y.input.now, q);
        t := HandleModeCommand(before, c, y.command.value, y.thermalOk, y.delay, y.input.now);
      }
      StateMachineKeepsAccount(t, c, y.input, q);
    }
  }

  /** The answer given when a lasting mode is set says whether it is the commanded one. */
  lemma AnswerTellsOutcome(s: Modes, c: Config, mode: Mode, submode: nat, now: nat)
    requires s.commander != NO_QUEUE && !Transitional(mode)
    ensures var t := SetMode(s, c, mode, submode, now);
            && |t.outbox| > |s.outbox| && t.outbox[..|s.outbox|] == s.outbox
            && t.outbox[|s.outbox|] == (if mode == s.commandedMode && submode == s.commandedSubmode
                                        then ModeReply(s.commander, mode, submode)
                                        else WrongModeReply(s.commander, mode, submode))
  {
  }
}
