/** Failure detection, isolation and recovery of one device: when it is power-cycled, and when it is given up. */
module DeviceFdir {
  import opened Words
  import opened LeakyBucket

  datatype State = None | RecoveryOngoing | DeviceMightBeOff | AwaitShutdown

  datatype Health = Healthy | Faulty | ExternalControl | NeedsRecovery | PermanentFaulty

  datatype Event =
    | ModeTransitionFailed | ObjectInInvalidMode
    | InterpretingReplyFailed | ReadingReplyFailed | UnrequestedReply | UnknownReply | BuildingCommandFailed
    | SendingCommandFailed | RequestingReplyFailed | MissedReply
    | GetDataFailed | StoreDataFailed | InvalidDeviceCommand
    | HealthInfo(health: Health) | ModeInfo | ChangingMode
    | SwitchWentOff | FuseWentOff | PowerAboveHighLimit | PowerBelowLowLimit
    | TempLow | TempHigh | TempOolLow | TempOolHigh | TempNotInOpRange
    | Other

  datatype Action = StartsRecovery | TurnsOffDevice

  datatype Fdir = Fdir(state: State, strange: Counter, missed: Counter, recovery: Counter, health: Health)

  predicate StrangeReply(e: Event) {
    e.InterpretingReplyFailed? || e.ReadingReplyFailed? || e.UnrequestedReply? || e.UnknownReply?
        || e.BuildingCommandFailed?
  }

  predicate NeedsConfirmation(e: Event) { e.SendingCommandFailed? || e.RequestingReplyFailed? || e.MissedReply? }

  predicate AsksForRecovery(e: Event) { e.ModeTransitionFailed? || e.ObjectInInvalidMode? || e.PowerBelowLowLimit? }

  predicate AsksForShutdown(e: Event) {
    e.FuseWentOff? || e.PowerAboveHighLimit? || e.TempLow? || e.TempHigh? || e.TempOolLow? || e.TempOolHigh?
  }

  predicate Active(f: Fdir) { f.state != None || f.health == Faulty || f.health == PermanentFaulty }

  // --- Steps --------------------------------------------------------------------------------------

  function GiveUp(f: Fdir): (Fdir, seq<Action>) { (f.(state := AwaitShutdown, health := Faulty), [TurnsOffDevice]) }

  function Recover(f: Fdir, now: nat): (Fdir, seq<Action>) {
    var r := IncrementAndCheck(f.recovery, 1, now);
    var g := f.(strange := Clear(f.strange), missed := Clear(f.missed), recovery := r.0);
    if r.1 then GiveUp(g) else (g.(state := RecoveryOngoing, health := NeedsRecovery), [StartsRecovery])
  }

  function CountMissed(f: Fdir, now: nat): (Fdir, seq<Action>) {
    var r := IncrementAndCheck(f.missed, 1, now);
    if r.1 then Recover(f.(missed := r.0), now) else (f.(missed := r.0), [])
  }

  function CountStrange(f: Fdir, now: nat): (Fdir, seq<Action>) {
    var r := IncrementAndCheck(f.strange, 1, now);
    if r.1 then Recover(f.(strange := r.0), now) else (f.(strange := r.0), [])
  }

  /** While an action is under way, only the news that ends it are heard. */
  function Released(f: Fdir, e: Event): Fdir {
    if f.state != None && (e == HealthInfo(Healthy) || (e.ModeInfo? && f.state != RecoveryOngoing))
    then f.(state := None) else f
  }

  /** asked: a confirmation request could be sent to the parent, or to the power system if there is one. */
  function EventReceived(f: Fdir, e: Event, asked: bool, now: nat): (Fdir, seq<Action>) {
    if Active(f) then (Released(f, e), [])
    else if AsksForRecovery(e) then Recover(f, now)
    else if StrangeReply(e) then CountStrange(f, now)
    else if NeedsConfirmation(e) then if asked then (f, []) else CountMissed(f, now)
    else if e.SwitchWentOff? then if asked then (f.(state := DeviceMightBeOff), []) else (f, [])
    else if AsksForShutdown(e) then GiveUp(f)
    else (f, [])
  }

  function EventConfirmed(f: Fdir, e: Event, now: nat): (Fdir, seq<Action>) {
    if NeedsConfirmation(e) then CountMissed(f, now)
    else if e.SwitchWentOff? then Recover(f, now)
    else (f, [])
  }

  function DecrementFaultCounters(f: Fdir, now: nat): Fdir {
    f.(strange := CheckForDecrement(f.strange, now).0, missed := CheckForDecrement(f.missed, now).0,
       recovery := CheckForDecrement(f.recovery, now).0)
  }

  datatype What =
    | Received(event: Event, asked: bool)
    | Confirmed(event: Event)
    | Decrement
    | OwnerHealth(health: Health)

  datatype Input = Input(now: nat, what: What)

  function Step(f: Fdir, i: Input): (Fdir, seq<Action>) {
    match i.what
    case Received(e, asked) => EventReceived(f, e, asked, i.now)
    case Confirmed(e) => EventConfirmed(f, e, i.now)
    case Decrement => (DecrementFaultCounters(f, i.now), [])
    case OwnerHealth(h) => (f.(health := h), [])
  }

  // --- Quiet while active ---------------------------------------------------------------------------

  /** No count of g is above that of f. */
  predicate NoneRose(f: Fdir, g: Fdir) {
    g.strange.count <= f.strange.count && g.missed.count <= f.missed.count && g.recovery.count <= f.recovery.count
  }

  predicate Releases(w: What) { w.Received? && (w.event == HealthInfo(Healthy) || w.event.ModeInfo?) }

  function Final(f: Fdir, inputs: seq<Input>): (Fdir, seq<Action>)
    decreases |inputs|
  {
    if inputs == [] then (f, [])
    else
      var s := Step(f, inputs[0]);
      var r := Final(s.0, inputs[1..]);
      (r.0, s.1 + r.1)
  }

  /** One event at a handler that is active, or whose device is faulty: nothing is counted, nothing is done. */
  lemma ActiveIgnores(f: Fdir, e: Event, asked: bool, now: nat)
    requires f.state != None || f.health == Faulty || f.health == PermanentFaulty
    ensures var r := EventReceived(f, e, asked, now);
            r.1 == [] && NoneRose(f, r.0) && r.0.health == f.health && (r.0.state == f.state || r.0.state == None)
  {
  }

  /** The step takes no action and raises no count. */
  predicate QuietStep(f: Fdir, i: Input) { Step(f, i).1 == [] && NoneRose(f, Step(f, i).0) }

  /** A confirmed fault, as long as the counter of missed replies can count it, or a switch confirmed to be off. */
  predicate Disturbs(f: Fdir, w: What) {
    w.Confirmed? && (w.event.SwitchWentOff? || (NeedsConfirmation(w.event) && f.missed.count < WORD - 1))
  }

  /** While an action is under way, a step is quiet if and only if it is not a confirmation that disturbs. */
  lemma QuietIff(f: Fdir, i: Input)
    requires f.state != None
    ensures QuietStep(f, i) <==> !Disturbs(f, i.what)
  {
    if i.what.Confirmed? && NeedsConfirmation(i.what.event) {
      var r := IncrementAndCheck(f.missed, 1, i.now);
      assert r.1 ==> Step(f, i).1 != [];
    }
  }

  /** Every step of the run, from the start of an action to the news that ends it, is quiet. */
  predicate QuietThroughout(f: Fdir, inputs: seq<Input>)
    decreases |inputs|
  {
    inputs == [] || (QuietStep(f, inputs[0]) && QuietThroughout(Step(f, inputs[0]).0, inputs[1..]))
  }

  predicate NeverDisturbed(f: Fdir, inputs: seq<Input>)
    decreases |inputs|
  {
    inputs == [] || (!Disturbs(f, inputs[0].what) && NeverDisturbed(Step(f, inputs[0]).0, inputs[1..]))
  }

  /** From the start of an action to the news that ends it: all is quiet if and only if no confirmation disturbs. */
  lemma {:induction false} QuietThroughoutIff(f: Fdir, inputs: seq<Input>)
    requires f.state != None && forall i :: 0 <= i < |inputs| ==> !Releases(inputs[i].what)
    ensures QuietThroughout(f, inputs) <==> NeverDisturbed(f, inputs)
    decreases |inputs|
  {
    if inputs != [] {
      QuietIff(f, inputs[0]);
      if !Disturbs(f, inputs[0].what) { QuietThroughoutIff(Step(f, inputs[0]).0, inputs[1..]); }
    }
  }

  /** And then, over the whole of it, no count has risen, no action was taken and the action is still under way. */
  lemma {:induction false} QuietWhileActive(f: Fdir, inputs: seq<Input>)
    requires f.state != None && NeverDisturbed(f, inputs)
    requires forall i :: 0 <= i < |inputs| ==> !Releases(inputs[i].what)
    ensures var r := Final(f, inputs);
            r.1 == [] && NoneRose(f, r.0) && r.0.state == f.state
    decreases |inputs|
  {
    if inputs != [] {
      QuietIff(f, inputs[0]);
      QuietWhileActive(Step(f, inputs[0]).0, inputs[1..]);
    }
  }

  /** A confirmed fault can start a recovery of a device that is being shut down. */
  lemma ConfirmationIsNotIgnored(f: Fdir, now: nat)
    requires f.state == AwaitShutdown && f.missed.count == f.missed.threshold < WORD - 1
    requires f.recovery.count < f.recovery.threshold
    ensures var r := EventConfirmed(f, MissedReply, now);
            r.0.state == RecoveryOngoing && r.0.health == NeedsRecovery && r.1 == [StartsRecovery]
  {
  }

  // --- What each event leads to ---------------------------------------------------------------------------

  /** No action is under way, and the device has not been given up. */
  predicate Idle(f: Fdir) { f.state == None && f.health != Faulty && f.health != PermanentFaulty }

  /** The device was up to now no more than at the thresholds, and these are not the largest number. */
  predicate Ordinary(f: Fdir) {
    && f.strange.count <= f.strange.threshold < WORD - 1 && f.missed.count <= f.missed.threshold < WORD - 1
    && f.recovery.count <= f.recovery.threshold < WORD - 1
  }

  /** A strange reply, or a missed one that nobody can confirm, and already as many as are tolerated. */
  predicate OneTooMany(f: Fdir, e: Event, asked: bool) {
    || (e in {InterpretingReplyFailed, ReadingReplyFailed, UnrequestedReply, UnknownReply, BuildingCommandFailed}
        && f.strange.count == f.strange.threshold)
    || (e in {SendingCommandFailed, RequestingReplyFailed, MissedReply} && !asked
        && f.missed.count == f.missed.threshold)
  }

  predicate NeedsPowerCycle(f: Fdir, e: Event, asked: bool) {
    e in {ModeTransitionFailed, ObjectInInvalidMode, PowerBelowLowLimit} || OneTooMany(f, e, asked)
  }

  predicate MustStayOff(e: Event) {
    e in {FuseWentOff, PowerAboveHighLimit, TempLow, TempHigh, TempOolLow, TempOolHigh}
  }

  /** What the event leads to: given up, power-cycled, asked about, or neither. */
  predicate ActsRight(f: Fdir, e: Event, asked: bool, g: Fdir, actions: seq<Action>) {
    && (actions == [TurnsOffDevice]
        <==> MustStayOff(e) || (NeedsPowerCycle(f, e, asked) && f.recovery.count == f.recovery.threshold))
    && (actions == [StartsRecovery] <==> NeedsPowerCycle(f, e, asked) && f.recovery.count < f.recovery.threshold)
    && (actions == [TurnsOffDevice] <==> g.state == AwaitShutdown && g.health == Faulty)
    && (actions == [StartsRecovery] <==> g.state == RecoveryOngoing && g.health == NeedsRecovery)
    && (g.state == DeviceMightBeOff <==> e.SwitchWentOff? && asked)
  }

  /** A fault that is tolerated is counted; a power cycle forgets the faults that led to it; nothing else counts. */
  predicate CountsRight(f: Fdir, e: Event, asked: bool, g: Fdir) {
    if NeedsPowerCycle(f, e, asked) then g.strange.count == g.missed.count == 0
    else
      && g.strange.count == f.strange.count + (if StrangeReply(e) then 1 else 0)
      && g.missed.count == f.missed.count + (if NeedsConfirmation(e) && !asked then 1 else 0)
      && g.recovery == f.recovery && Ordinary(g)
  }

  lemma StrangeOutcome(f: Fdir, e: Event, asked: bool, now: nat)
    requires Idle(f) && Ordinary(f) && StrangeReply(e)
    ensures var r := CountStrange(f, now); ActsRight(f, e, asked, r.0, r.1) && CountsRight(f, e, asked, r.0)
  {
  }

  lemma MissedOutcome(f: Fdir, e: Event, now: nat)
    requires Idle(f) && Ordinary(f) && NeedsConfirmation(e)
    ensures var r := CountMissed(f, now); ActsRight(f, e, false, r.0, r.1) && CountsRight(f, e, false, r.0)
  {
  }

  lemma RecoveryOutcome(f: Fdir, e: Event, asked: bool, now: nat)
    requires Idle(f) && Ordinary(f) && AsksForRecovery(e)
    ensures var r := Recover(f, now); ActsRight(f, e, asked, r.0, r.1) && CountsRight(f, e, asked, r.0)
  {
  }

  /** Exactly the events named have an idle device given up or power-cycled, and exactly the faults are counted. */
  lemma EventOutcome(f: Fdir, e: Event, asked: bool, now: nat)
    requires Idle(f) && Ordinary(f)
    ensures var r := EventReceived(f, e, asked, now); ActsRight(f, e, asked, r.0, r.1) && CountsRight(f, e, asked, r.0)
  {
    if AsksForRecovery(e) {
      RecoveryOutcome(f, e, asked, now);
    } else if StrangeReply(e) {
      StrangeOutcome(f, e, asked, now);
    } else if NeedsConfirmation(e) {
      MissedOutcome(f, e, now);
    }
  }

  predicate AllStrange(inputs: seq<Input>) {
    forall i :: 0 <= i < |inputs| ==> inputs[i].what.Received? && StrangeReply(inputs[i].what.event)
  }

  /** Strange replies in a row are tolerated up to the threshold; the next one has the device power-cycled. */
  lemma {:induction false} ToleratedIff(f: Fdir, inputs: seq<Input>)
    requires Idle(f) && Ordinary(f) && AllStrange(inputs)
    ensures Final(f, inputs).1 == [] <==> f.strange.count + |inputs| <= f.strange.threshold
    decreases |inputs|
  {
    if inputs != [] {
      var e, asked := inputs[0].what.event, inputs[0].what.asked;
      EventOutcome(f, e, asked, inputs[0].now);
      var s := Step(f, inputs[0]);
      assert |s.1| <= 1;
      if !NeedsPowerCycle(f, e, asked) {
        assert s.1 == [] && s.0.strange.threshold == f.strange.threshold;
        ToleratedIff(s.0, inputs[1..]);
        assert [] + Final(s.0, inputs[1..]).1 == Final(s.0, inputs[1..]).1;
      }
    }
  }

  /** An action under way ends with the news of good health, and if it is no recovery with a mode that was reached. */
  lemma EndsIff(f: Fdir, e: Event, asked: bool, now: nat)
    requires f.state != None
    ensures EventReceived(f, e, asked, now).0.state == None
       <==> e == HealthInfo(Healthy) || (e == ModeInfo && f.state != RecoveryOngoing)
  {
  }

  predicate TakenOff(c: Counter, d: Counter, now: nat) {
    if TimedOut(c, now) then d.startTime == now % WORD && (d.count == c.count - 1 || c.count == d.count == 0)
    else d == c
  }

  lemma TakesOne(c: Counter, now: nat)
    ensures TakenOff(c, CheckForDecrement(c, now).0, now)
  {
  }

  /** Time takes one off every count that has waited long enough. */
  lemma DecrementTakesOne(f: Fdir, now: nat)
    ensures var g := DecrementFaultCounters(f, now);
            && TakenOff(f.strange, g.strange, now) && TakenOff(f.missed, g.missed, now)
            && TakenOff(f.recovery, g.recovery, now)
            && g.state == f.state && g.health == f.health
  {
    TakesOne(f.strange, now);
    TakesOne(f.missed, now);
    TakesOne(f.recovery, now);
  }

  // --- What is reported -------------------------------------------------------------------------------

  datatype Report = Acted(action: Action) | Changed(to: State, from: State)

  /**
   What a step reports, in order: its action, if it takes one, then the change of its own state. Every
   action sets the state, and so do a release and a switch.
   */
  function Reports(f: Fdir, r: (Fdir, seq<Action>)): seq<Report> {
    if r.1 != [] then [Acted(r.1[0]), Changed(r.0.state, f.state)]
    else if r.0.state != f.state then [Changed(r.0.state, f.state)]
    else []
  }

  /** A step takes one action at most. */
  lemma OneActionAtMost(f: Fdir, i: Input)
    ensures |Step(f, i).1| <= 1
  {
  }

  /** Events are passed on unhandled only if they are unknown and nothing hides them. */
  predicate Handled(f: Fdir, e: Event) { Active(f) || !e.Other? }

  /** Only an unknown event at an idle device is passed on, and it changes nothing. */
  lemma PassedOnIff(f: Fdir, e: Event, asked: bool, now: nat)
    ensures !Handled(f, e) <==> e == Other && Idle(f)
    ensures !Handled(f, e) ==> EventReceived(f, e, asked, now) == (f, [])
  {
  }

  /** An action is reported before the change of state that it brings, and there are no other reports. */
  lemma ReportsInOrder(f: Fdir, i: Input)
    ensures var s, r := Step(f, i), Reports(f, Step(f, i));
            && (s.1 != [] ==> r == [Acted(s.1[0]), Changed(s.0.state, f.state)])
            && (s.1 == [] ==> r == if s.0.state == f.state then [] else [Changed(s.0.state, f.state)])
  {
  }

  // --- How often a device is recovered ----------------------------------------------------------------

  /** The state with what an observer with an unbounded clock has counted since the device was last given up. */
  datatype Tally = Tally(fdir: Fdir, recoveries: nat, decrements: nat, since: nat, started: nat, clock: nat)

  function TallyStep(t: Tally, i: Input): Tally {
    var c := t.fdir.recovery;
    var r := Step(t.fdir, i);
    var n := if i.what.Decrement? && CheckForDecrement(c, i.now).1 then 1 else 0;
    var started := if r.0.recovery.startTime == i.now % WORD && Restarted(t.fdir, i) then i.now else t.started;
    if r.1 == [TurnsOffDevice] then Tally(r.0, 0, 0, i.now, started, i.now)
    else Tally(r.0, t.recoveries + |r.1|, t.decrements + n, t.since, started, i.now)
  }

  /** The recovery counter's countdown begins anew. */
  predicate Restarted(f: Fdir, i: Input) {
    if i.what.Decrement? then TimedOut(f.recovery, i.now)
    else f.recovery.count == 0 && Step(f, i).0.recovery != f.recovery
  }

  function TallyAll(t: Tally, inputs: seq<Input>): Tally
    decreases |inputs|
  {
    if inputs == [] then t else TallyAll(TallyStep(t, inputs[0]), inputs[1..])
  }

  predicate InOrder(clock: nat, inputs: seq<Input>)
    decreases |inputs|
  {
    inputs == [] || (clock <= inputs[0].now && InOrder(inputs[0].now, inputs[1..]))
  }

  /** A recovery at the largest number: the counter wraps around and starts again. */
  predicate Overflows(f: Fdir, i: Input) {
    f.recovery.count == WORD - 1 && Step(f, i).1 == [StartsRecovery]
  }

  predicate NeverOverflows(t: Tally, inputs: seq<Input>)
    decreases |inputs|
  {
    inputs == [] || (!Overflows(t.fdir, inputs[0]) && NeverOverflows(TallyStep(t, inputs[0]), inputs[1..]))
  }

  predicate Balanced(t: Tally) {
    && t.fdir.recovery.count <= t.fdir.recovery.threshold
    && t.recoveries <= t.fdir.recovery.count + t.decrements
    && t.since <= t.clock && t.started <= t.clock && t.fdir.recovery.startTime == t.started % WORD
    && (t.decrements == 0 ||
        (t.since <= t.started
         && t.decrements * t.fdir.recovery.timeout <= (t.started - t.since) + t.fdir.recovery.timeout))
  }

  /** A countdown that has run out by the 32-bit clock has really run out. */
  lemma TimedOutReally(c: Counter, started: nat, now: nat)
    requires started <= now && c.startTime == started % WORD && TimedOut(c, now)
    ensures c.timeout <= now - started
  {
  }

  /** Looked at less than 2^32 milliseconds after it was started, it has run out exactly after its time. */
  lemma TimedOutIff(c: Counter, started: nat, now: nat)
    requires started <= now < started + WORD && c.startTime == started % WORD
    ensures TimedOut(c, now) <==> c.timeout <= now - started
  {
  }

  /** What a recovery or a shutdown does to the recovery counter. */
  lemma RecoverCounts(f: Fdir, now: nat)
    requires f.recovery.count <= f.recovery.threshold
    ensures var r := Recover(f, now);
            && r.0.recovery.threshold == f.recovery.threshold && r.0.recovery.timeout == f.recovery.timeout
            && r.0.recovery.startTime == (if f.recovery.count == 0 then now % WORD else f.recovery.startTime)
            && (if f.recovery.count < f.recovery.threshold
                then r.1 == [StartsRecovery] && r.0.recovery.count == f.recovery.count + 1
                else r.0.recovery.count == 0
                     && r.1 == [if f.recovery.threshold < WORD - 1 then TurnsOffDevice else StartsRecovery])
  {
  }

  /** The device is given up exactly when the counter is at its threshold, unless that is the largest number. */
  lemma GivesUpIff(f: Fdir, now: nat)
    requires f.recovery.count <= f.recovery.threshold
    ensures Recover(f, now).1 == [TurnsOffDevice] <==> f.recovery.count == f.recovery.threshold < WORD - 1
  {
  }

  /** Everything but a decrement either leaves the recovery counter alone or recovers. */
  lemma StepKinds(f: Fdir, i: Input)
    requires !i.what.Decrement?
    ensures var r := Step(f, i);
            || (r.0.recovery == f.recovery && r.1 == [])
            || (r.0.recovery == f.recovery && r.1 == [TurnsOffDevice])
            || exists g: Fdir :: g.recovery == f.recovery && r == Recover(g, i.now)
  {
    var r := Step(f, i);
    if i.what.Received? {
      ReceivedKinds(f, i.what.event, i.what.asked, i.now);
    } else if i.what.Confirmed? {
      var e := i.what.event;
      if NeedsConfirmation(e) {
        assert r == Recover(f.(missed := IncrementAndCheck(f.missed, 1, i.now).0), i.now) || r.1 == [];
      } else if e.SwitchWentOff? {
        assert r == Recover(f, i.now);
      }
    }
  }

  lemma ReceivedKinds(f: Fdir, e: Event, asked: bool, now: nat)
    ensures var r := EventReceived(f, e, asked, now);
            || (r.0.recovery == f.recovery && r.1 == [])
            || (r.0.recovery == f.recovery && r.1 == [TurnsOffDevice])
            || exists g: Fdir :: g.recovery == f.recovery && r == Recover(g, now)
  {
    var r := EventReceived(f, e, asked, now);
    if !Active(f) {
      if AsksForRecovery(e) {
        assert r == Recover(f, now);
      } else if StrangeReply(e) {
        assert r == Recover(f.(strange := IncrementAndCheck(f.strange, 1, now).0), now) || r.1 == [];
      } else if NeedsConfirmation(e) {
        assert r == Recover(f.(missed := IncrementAndCheck(f.missed, 1, now).0), now) || r.1 == [];
      }
    }
  }

  lemma DecrementBalances(t: Tally, i: Input)
    requires Balanced(t) && t.clock <= i.now && i.what.Decrement?
    ensures Balanced(TallyStep(t, i)) && TallyStep(t, i).clock == i.now
    ensures TallyStep(t, i).fdir.recovery.threshold == t.fdir.recovery.threshold
    ensures TallyStep(t, i).fdir.recovery.timeout == t.fdir.recovery.timeout
  {
    var c := t.fdir.recovery;
    if TimedOut(c, i.now) {
      TimedOutReally(c, t.started, i.now);
      assert (t.decrements + 1) * c.timeout == t.decrements * c.timeout + c.timeout;
    }
  }

  lemma StepBalances(t: Tally, i: Input)
    requires Balanced(t) && t.clock <= i.now && !Overflows(t.fdir, i)
    ensures Balanced(TallyStep(t, i)) && TallyStep(t, i).clock == i.now
    ensures TallyStep(t, i).fdir.recovery.threshold == t.fdir.recovery.threshold
    ensures TallyStep(t, i).fdir.recovery.timeout == t.fdir.recovery.timeout
  {
    var c := t.fdir.recovery;
    if i.what.Decrement? {
      DecrementBalances(t, i);
    } else {
      StepKinds(t.fdir, i);
      var r := Step(t.fdir, i);
      if r.0.recovery != c {
        var g: Fdir :| g.recovery == c && r == Recover(g, i.now);
        RecoverCounts(g, i.now);
      } else if r.1 != [] && r.1 != [TurnsOffDevice] {
        var g: Fdir :| g.recovery == c && r == Recover(g, i.now);
        RecoverCounts(g, i.now);
      }
    }
  }

  /**
   * On every run: the recoveries started since the device was last given up are no more than the
   * threshold and the decrements, and those need their time, whatever the 32-bit clock does, unless the
   * counter wraps around, which it can only do at the largest threshold.
   */
  lemma {:induction false} RecoveriesBounded(t: Tally, inputs: seq<Input>)
    requires Balanced(t) && InOrder(t.clock, inputs) && NeverOverflows(t, inputs)
    ensures var u := TallyAll(t, inputs);
            var threshold, timeout := t.fdir.recovery.threshold, t.fdir.recovery.timeout;
            && Balanced(u)
            && u.recoveries <= threshold + u.decrements
            && u.decrements * timeout <= (u.clock - u.since) + timeout
    decreases |inputs|
  {
    if inputs == [] {
      assert 0 * t.fdir.recovery.timeout == 0;
    } else {
      StepBalances(t, inputs[0]);
      RecoveriesBounded(TallyStep(t, inputs[0]), inputs[1..]);
    }
  }

  lemma {:induction false} SmallThresholdNeverOverflows(t: Tally, inputs: seq<Input>)
    requires Balanced(t) && InOrder(t.clock, inputs) && t.fdir.recovery.threshold < WORD - 1
    ensures NeverOverflows(t, inputs)
    decreases |inputs|
  {
    if inputs != [] {
      StepBalances(t, inputs[0]);
      SmallThresholdNeverOverflows(TallyStep(t, inputs[0]), inputs[1..]);
    }
  }

  /**
   With the default of one recovery and 180 seconds: at most two recoveries at once, and then one every
   three minutes.
   */
  lemma DefaultsBounded(t: Tally, inputs: seq<Input>)
    requires Balanced(t) && InOrder(t.clock, inputs) && t.fdir.recovery.threshold == 1
             && t.fdir.recovery.timeout == 180000
    ensures var u := TallyAll(t, inputs);
            (u.recoveries - 2) * 180000 <= u.clock - u.since
  {
    SmallThresholdNeverOverflows(t, inputs);
    RecoveriesBounded(t, inputs);
    var u := TallyAll(t, inputs);
    OnceAtFirst(u.recoveries, u.decrements, u.clock - u.since, t.fdir.recovery.timeout);
  }

  lemma OnceAtFirst(recoveries: nat, decrements: nat, time: int, timeout: nat)
    requires recoveries <= 1 + decrements && decrements * timeout <= time + timeout && timeout == 180000
    ensures (recoveries - 2) * 180000 <= time
  {
  }
}
