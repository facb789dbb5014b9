/** FARM-1, the frame acceptance and reporting mechanism of section 6 of CCSDS 232.1-B-2: its transitions on values. */
module Farm1 {
  import opened Checksum
  import C = Clcw

  datatype State = Open | Wait | Lockout

  /** Receiver state, V(R), the FARM-B counter and the flags of the control word. */
  datatype Farm = Farm(state: State, vR: byte, farmB: byte, lockout: bool, wait: bool, retransmit: bool) {
    function Counted(): Farm { this.(farmB := (farmB + 1) % 0x100) }

    function Published(): C.Report { C.Report(lockout, wait, retransmit, farmB % 4, vR) }
  }

  const START := Farm(Open, 0, 0, false, false, false)

  datatype Event = Ad(ns: byte) | Bd | BcUnlock | BcSetVr(vr: byte) | BcIllegal | IllegalFlags

  datatype Outcome = Accepted | NsPositiveW | NsNegativeW | NsLockout | FarmInWait | FarmInLockout
                   | BcIsUnlock | BcIsSetVr | BcIllegalCommand | IllegalFlagCombination

  // --- Windows, as the standard places them on the circle of 256 sequence numbers ---------------------

  /** How far N(S) is ahead of V(R). */
  function Ahead(ns: byte, vR: byte): nat { ((ns as int) - (vR as int)) % 0x100 }

  predicate InPositiveWindow(ns: byte, vR: byte, w: nat) { 0 < Ahead(ns, vR) < w }

  predicate InNegativeWindow(ns: byte, vR: byte, w: nat) { Ahead(ns, vR) >= 0x100 - w }

  function Step(f: Farm, w: nat, e: Event): (Farm, Outcome) {
    match e
    case Ad(ns) => (
      match f.state
      case Open =>
        if ns == f.vR then (f.(vR := (f.vR + 1) % 0x100, retransmit := false), Accepted)
        else if InPositiveWindow(ns, f.vR, w) then (f.(retransmit := true), NsPositiveW)
        else if InNegativeWindow(ns, f.vR, w) then (f, NsNegativeW)
        else (f.(state := Lockout, lockout := true), NsLockout)
      case Wait =>
        if Ahead(ns, f.vR) < w || InNegativeWindow(ns, f.vR, w) then (f, FarmInWait)
        else (f.(state := Lockout, lockout := true), FarmInWait)
      case Lockout => (f, FarmInLockout))
    case Bd => (f.Counted(), Accepted)
    case BcUnlock => (
      var g := f.Counted().(state := Open, retransmit := false);
      match f.state
      case Open => (g, BcIsUnlock)
      case Wait => (g.(wait := false), BcIsUnlock)
      case Lockout => (g.(lockout := false, wait := false), BcIsUnlock))
    case BcSetVr(vr) => (
      var g := f.Counted().(state := Open, vR := vr, retransmit := false);
      match f.state
      case Open => (g, BcIsSetVr)
      case Wait => (g.(wait := false), BcIsSetVr)
      case Lockout => (f.Counted(), BcIsSetVr))
    case BcIllegal => (f, BcIllegalCommand)
    case IllegalFlags => (f, IllegalFlagCombination)
  }

  function EnterWait(f: Farm): Farm { f.(state := Wait, wait := true) }

  // --- Runs --------------------------------------------------------------------------------------------

  /** A frame arrives, or the channel is told to wait. */
  datatype Input = Frame(event: Event) | WaitRequest

  function Next(f: Farm, w: nat, i: Input): Farm {
    match i
    case Frame(e) => Step(f, w, e).0
    case WaitRequest => EnterWait(f)
  }

  function Run(f: Farm, w: nat, inputs: seq<Input>): Farm {
    if inputs == [] then f
    else Next(Run(f, w, inputs[..|inputs| - 1]), w, inputs[|inputs| - 1])
  }

  predicate AcceptsAd(f: Farm, w: nat, i: Input) {
    i.Frame? && i.event.Ad? && Step(f, w, i.event).1.Accepted?
  }

  /** The last value set outside lockout, and the AD frames accepted since. */
  datatype Numbering = Numbering(base: nat, accepted: nat) {
    function After(f: Farm, w: nat, i: Input): Numbering {
      if i.Frame? && i.event.BcSetVr? && !f.state.Lockout? then Numbering(i.event.vr, 0)
      else if AcceptsAd(f, w, i) then Numbering(base, accepted + 1)
      else this
    }

    function Current(): byte { (base + accepted) % 0x100 }
  }

  function NumberingOf(f: Farm, w: nat, inputs: seq<Input>): Numbering
    decreases |inputs|
  {
    if inputs == [] then Numbering(f.vR, 0)
    else
      var before := inputs[..|inputs| - 1];
      NumberingOf(f, w, before).After(Run(f, w, before), w, inputs[|inputs| - 1])
  }

  /** V(R) is, on every run, the last value set outside lockout plus the AD frames accepted since. */
  lemma {:induction false} ReceiverNumber(f: Farm, w: nat, inputs: seq<Input>)
    ensures Run(f, w, inputs).vR == NumberingOf(f, w, inputs).Current()
    decreases |inputs|
  {
    if inputs != [] {
      var before := inputs[..|inputs| - 1];
      ReceiverNumber(f, w, before);
      NumberingStep(Run(f, w, before), w, inputs[|inputs| - 1], NumberingOf(f, w, before));
    }
  }

  lemma NumberingStep(f: Farm, w: nat, i: Input, n: Numbering)
    requires f.vR == n.Current()
    ensures Next(f, w, i).vR == n.After(f, w, i).Current()
  {
    CountOneMore(n.base + n.accepted);
  }

  lemma CountOneMore(n: nat)
    ensures (n % 0x100 + 1) % 0x100 == (n + 1) % 0x100
  {
  }

  predicate CountsForFarmB(i: Input) {
    i.Frame? && (i.event.Bd? || i.event.BcUnlock? || i.event.BcSetVr?)
  }

  function FarmBFrames(inputs: seq<Input>): nat {
    if inputs == [] then 0
    else FarmBFrames(inputs[..|inputs| - 1]) + if CountsForFarmB(inputs[|inputs| - 1]) then 1 else 0
  }

  /** The FARM-B counter counts the BD and the valid BC frames, whatever the state. */
  lemma {:induction false} FarmBCounter(f: Farm, w: nat, inputs: seq<Input>)
    ensures Run(f, w, inputs).farmB == (f.farmB + FarmBFrames(inputs)) % 0x100
    decreases |inputs|
  {
    if inputs != [] {
      FarmBCounter(f, w, inputs[..|inputs| - 1]);
    }
  }

  // --- The control word tells the state -------------------------------------------------------------------

  /** The flags agree with the state: lockout exactly in lockout, waiting in wait and never when open. */
  predicate FlagsAgree(f: Farm) {
    && (f.lockout <==> f.state.Lockout?)
    && (f.state.Wait? ==> f.wait)
    && (f.state.Open? ==> !f.wait)
  }

  /** One input keeps the flags in agreement unless it is a request to wait in lockout; that one never does. */
  lemma AgreementStep(f: Farm, w: nat, i: Input)
    requires FlagsAgree(f)
    ensures FlagsAgree(Next(f, w, i)) <==> !(i.WaitRequest? && f.state.Lockout?)
  {
  }

  /** After every prefix of the run the flags agree with the state. */
  predicate AlwaysAgrees(w: nat, inputs: seq<Input>) {
    FlagsAgree(Run(START, w, inputs)) && (inputs == [] || AlwaysAgrees(w, inputs[..|inputs| - 1]))
  }

  /** No input of the run asks the channel to wait while it is in lockout. */
  predicate NeverWaitsInLockout(w: nat, inputs: seq<Input>) {
    inputs == [] ||
    var before := inputs[..|inputs| - 1];
    NeverWaitsInLockout(w, before) && !(inputs[|inputs| - 1].WaitRequest? && Run(START, w, before).state.Lockout?)
  }

  /** Over a run the control word agrees with the state throughout iff no wait was requested during lockout. */
  lemma {:induction false} AgreementIff(w: nat, inputs: seq<Input>)
    ensures AlwaysAgrees(w, inputs) <==> NeverWaitsInLockout(w, inputs)
  {
    if inputs != [] {
      var before := inputs[..|inputs| - 1];
      AgreementIff(w, before);
      if FlagsAgree(Run(START, w, before)) {
        AgreementStep(Run(START, w, before), w, inputs[|inputs| - 1]);
      }
      AgreesNow(w, before);
    }
  }

  /** A frame far outside of the window, then a request to wait: the flag says lockout, the state does not. */
  lemma WaitInLockoutExample()
    ensures var inputs := [Frame(Ad(100)), WaitRequest];
            var f := Run(START, 10, inputs);
            && !NeverWaitsInLockout(10, inputs) && !AlwaysAgrees(10, inputs) && f.state.Wait? && f.lockout
  {
    var inputs := [Frame(Ad(100)), WaitRequest];
    var first := inputs[..1];
    assert first == [Frame(Ad(100))] && first[..0] == [];
    assert Run(START, 10, first) == Next(START, 10, Frame(Ad(100)));
    assert Run(START, 10, first).state.Lockout?;
    AgreementIff(10, inputs);
  }

  lemma AgreesNow(w: nat, inputs: seq<Input>)
    ensures AlwaysAgrees(w, inputs) ==> FlagsAgree(Run(START, w, inputs))
  {
  }

  /** Lockout is left by an unlock command, or by the request to wait, and by nothing else. */
  lemma LockoutExit(f: Farm, w: nat, i: Input)
    requires f.state.Lockout?
    ensures Next(f, w, i).state.Lockout? <==> !(i == Frame(BcUnlock) || i.WaitRequest?)
    ensures i != Frame(BcUnlock) ==> Next(f, w, i).vR == f.vR && !AcceptsAd(f, w, i)
  {
  }
}
