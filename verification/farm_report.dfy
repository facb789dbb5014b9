/** What state and control word say, read off the frames and wait requests that came. */
module FarmReport {
  import opened Checksum
  import opened Farm1
  import C = Clcw

  predicate FarOff(f: Farm, w: nat, i: Input) {
    i.Frame? && i.event.Ad? && !f.state.Lockout? && !(f.state.Open? && i.event.ns == f.vR)
    && w <= Ahead(i.event.ns, f.vR) < 0x100 - w
  }

  /** An unlock, or a Set V(R) outside lockout. */
  predicate Releases(f: Farm, i: Input) {
    i == Frame(BcUnlock) || (i.Frame? && i.event.BcSetVr? && !f.state.Lockout?)
  }

  /** What an input means to a receiver, told by state, V(R) and windows alone. */
  datatype Occasion = FrameAhead | CaughtUp | FrameFarOff | LockoutUnlocked | LockoutLeft | WaitAsked | Released
                    | WaitLeft

  predicate Is(o: Occasion, f: Farm, w: nat, i: Input) {
    match o
    case FrameAhead => i.Frame? && i.event.Ad? && f.state.Open? && InPositiveWindow(i.event.ns, f.vR, w)
    case CaughtUp => Releases(f, i) || (f.state.Open? && i == Frame(Ad(f.vR)))
    case FrameFarOff => FarOff(f, w, i)
    case LockoutUnlocked => f.state.Lockout? && i == Frame(BcUnlock)
    case LockoutLeft => i == Frame(BcUnlock) || i.WaitRequest?
    case WaitAsked => i.WaitRequest?
    case Released => Releases(f, i)
    case WaitLeft => Releases(f, i) || FarOff(f, w, i)
  }

  /** The k-th input of the run is such an occasion. */
  ghost predicate Occurs(o: Occasion, w: nat, inputs: seq<Input>, k: nat)
    requires k < |inputs|
  {
    Is(o, Run(START, w, inputs[..k]), w, inputs[k])
  }

  /** The one occasion occurred in the run, and the other has not occurred since. */
  ghost predicate Since(o: Occasion, ends: Occasion, w: nat, inputs: seq<Input>) {
    exists k: nat :: k < |inputs| && Occurs(o, w, inputs, k) && NotAfter(ends, w, inputs, k)
  }

  ghost predicate NotAfter(o: Occasion, w: nat, inputs: seq<Input>, k: nat) {
    forall j: nat :: k < j < |inputs| ==> !Occurs(o, w, inputs, j)
  }

  lemma OccursBefore(o: Occasion, w: nat, inputs: seq<Input>, k: nat)
    requires k < |inputs| - 1
    ensures Occurs(o, w, inputs[..|inputs| - 1], k) <==> Occurs(o, w, inputs, k)
  {
    assert inputs[..|inputs| - 1][..k] == inputs[..k];
  }

  lemma NotAfterStep(o: Occasion, w: nat, inputs: seq<Input>, k: nat)
    requires k < |inputs| - 1
    ensures NotAfter(o, w, inputs, k)
       <==> NotAfter(o, w, inputs[..|inputs| - 1], k) && !Occurs(o, w, inputs, |inputs| - 1)
  {
    var before := inputs[..|inputs| - 1];
    forall j: nat | k < j < |before|
      ensures Occurs(o, w, before, j) <==> Occurs(o, w, inputs, j)
    {
      OccursBefore(o, w, inputs, j);
    }
    if NotAfter(o, w, before, k) && !Occurs(o, w, inputs, |before|) {
      forall j: nat | k < j < |inputs| ensures !Occurs(o, w, inputs, j) {
        if j < |before| { assert !Occurs(o, w, before, j); }
      }
    }
  }

  /** The last input is the occasion, or it was so before and the last input does not end it. */
  lemma SinceStep(o: Occasion, ends: Occasion, w: nat, inputs: seq<Input>)
    requires inputs != []
    ensures Since(o, ends, w, inputs)
       <==> Occurs(o, w, inputs, |inputs| - 1)
            || (Since(o, ends, w, inputs[..|inputs| - 1]) && !Occurs(ends, w, inputs, |inputs| - 1))
  {
    var n, before := |inputs| - 1, inputs[..|inputs| - 1];
    forall k: nat | k < n
      ensures Occurs(o, w, before, k) && NotAfter(ends, w, before, k) && !Occurs(ends, w, inputs, n)
         <==> Occurs(o, w, inputs, k) && NotAfter(ends, w, inputs, k)
    {
      OccursBefore(o, w, inputs, k);
      NotAfterStep(ends, w, inputs, k);
    }
    assert NotAfter(ends, w, inputs, n);
  }

  /** What one input does to each flag and to the state. */
  lemma FlagsStep(f: Farm, w: nat, i: Input)
    ensures var g := Next(f, w, i);
            && (g.retransmit <==> Is(FrameAhead, f, w, i) || (f.retransmit && !Is(CaughtUp, f, w, i)))
            && (g.lockout <==> Is(FrameFarOff, f, w, i) || (f.lockout && !Is(LockoutUnlocked, f, w, i)))
            && ((f.state.Open? ==> !f.wait) ==>
                 (g.wait <==> Is(WaitAsked, f, w, i) || (f.wait && !Is(Released, f, w, i)))
                 && (g.state.Open? ==> !g.wait))
  {
    match i
    case WaitRequest =>
    case Frame(e) =>
      match e
      case Ad(ns) => match f.state { case Open => case Wait => case Lockout => }
      case _ =>
  }

  lemma StateStep(f: Farm, w: nat, i: Input)
    ensures var g := Next(f, w, i);
            && (g.state.Lockout? <==> Is(FrameFarOff, f, w, i) || (f.state.Lockout? && !Is(LockoutLeft, f, w, i)))
            && (g.state.Wait? <==> Is(WaitAsked, f, w, i) || (f.state.Wait? && !Is(WaitLeft, f, w, i)))
  {
    match i
    case WaitRequest =>
    case Frame(e) =>
      match e
      case Ad(ns) => match f.state { case Open => case Wait => case Lockout => }
      case _ =>
  }

  /** On every run: in lockout since a frame far outside of the windows, waiting since a request to wait. */
  lemma {:induction false} StateTells(w: nat, inputs: seq<Input>)
    ensures var f := Run(START, w, inputs);
            && (f.state.Lockout? <==> Since(FrameFarOff, LockoutLeft, w, inputs))
            && (f.state.Wait? <==> Since(WaitAsked, WaitLeft, w, inputs))
  {
    if inputs != [] {
      var before := inputs[..|inputs| - 1];
      StateTells(w, before);
      StateStep(Run(START, w, before), w, inputs[|inputs| - 1]);
      SinceStep(FrameFarOff, LockoutLeft, w, inputs);
      SinceStep(WaitAsked, WaitLeft, w, inputs);
    }
  }

  /**
   On every run: retransmission is asked for exactly if a frame ahead in the window came to the open receiver
   and since then no AD frame was accepted and no unlock, or Set V(R) outside lockout, received. Lockout is
   reported since a frame far outside of the windows until an unlock in lockout, waiting since a request to wait
   until an unlock or Set V(R) outside lockout.
   */
  lemma {:induction false} FlagsTell(w: nat, inputs: seq<Input>)
    ensures var f := Run(START, w, inputs);
            && (f.retransmit <==> Since(FrameAhead, CaughtUp, w, inputs))
            && (f.lockout <==> Since(FrameFarOff, LockoutUnlocked, w, inputs))
            && (f.wait <==> Since(WaitAsked, Released, w, inputs))
            && (f.state.Open? ==> !f.wait)
  {
    if inputs != [] {
      var before := inputs[..|inputs| - 1];
      FlagsTell(w, before);
      FlagsStep(Run(START, w, before), w, inputs[|inputs| - 1]);
      SinceStep(FrameAhead, CaughtUp, w, inputs);
      SinceStep(FrameFarOff, LockoutUnlocked, w, inputs);
      SinceStep(WaitAsked, Released, w, inputs);
    }
  }

  lemma TwoBits(n: nat)
    ensures n % 0x100 % 4 == n % 4
  {
  }

  /** The published word of every run, field by field, from the inputs. */
  lemma WordTells(w: nat, inputs: seq<Input>)
    ensures Run(START, w, inputs).Published()
         == C.Report(Since(FrameFarOff, LockoutUnlocked, w, inputs), Since(WaitAsked, Released, w, inputs),
                     Since(FrameAhead, CaughtUp, w, inputs), FarmBFrames(inputs) % 4,
                     NumberingOf(START, w, inputs).Current())
  {
    FlagsTell(w, inputs);
    FarmBCounter(START, w, inputs);
    ReceiverNumber(START, w, inputs);
    TwoBits(FarmBFrames(inputs));
  }

  /** Frame 0 was lost and frame 1 comes: retransmission is asked for. */
  lemma LostFrameExample()
    ensures Run(START, 10, [Frame(Ad(1))]).Published() == C.Report(false, false, true, 0, 0)
  {
    var inputs := [Frame(Ad(1))];
    assert inputs[..0] == [] && Run(START, 10, []) == START;
    assert Run(START, 10, inputs) == Next(START, 10, Frame(Ad(1)));
  }

  /**
   Unlock opens the receiver in every state; it withdraws the requests to wait and to retransmit, and the
   report of lockout unless that was not true any more.
   */
  lemma UnlockOpens(w: nat, before: seq<Input>)
    ensures var f, g := Run(START, w, before), Run(START, w, before + [Frame(BcUnlock)]);
            && g.state.Open? && !g.wait && !g.retransmit && g.vR == f.vR
            && (g.lockout <==> f.lockout && !f.state.Lockout?)
  {
    var inputs := before + [Frame(BcUnlock)];
    assert inputs[..|before|] == before;
    FlagsTell(w, inputs);
  }

  /** Lockout, a request to wait, an unlock: the open receiver goes on reporting lockout. */
  lemma UnlockAfterWaitExample()
    ensures var f := Run(START, 10, [Frame(Ad(100)), WaitRequest, Frame(BcUnlock)]);
            f.state.Open? && f.Published().lockout
  {
    var inputs := [Frame(Ad(100)), WaitRequest];
    var far := inputs[..1];
    assert far == [Frame(Ad(100))] && far[..0] == [];
    assert Run(START, 10, far) == Next(START, 10, Frame(Ad(100)));
    assert Run(START, 10, inputs) == EnterWait(Run(START, 10, far));
    assert inputs + [Frame(BcUnlock)] == [Frame(Ad(100)), WaitRequest, Frame(BcUnlock)];
    UnlockOpens(10, inputs);
  }

  /** The answer tells what came and what became of it. */
  lemma OutcomeTells(f: Farm, w: nat, e: Event)
    ensures var (g, r) := Step(f, w, e);
            && (r.Accepted? <==> e.Bd? || (f.state.Open? && e == Ad(f.vR)))
            && (r.NsPositiveW? <==> Is(FrameAhead, f, w, Frame(e)))
            && (r.NsLockout? <==> f.state.Open? && g.state.Lockout?)
            && (r.NsNegativeW? <==> e.Ad? && f.state.Open? && g == f && !Is(FrameAhead, f, w, Frame(e)))
            && (r.FarmInWait? <==> e.Ad? && f.state.Wait?) && (r.FarmInLockout? <==> e.Ad? && f.state.Lockout?)
            && (r.BcIsUnlock? <==> e.BcUnlock?) && (r.BcIsSetVr? <==> e.BcSetVr?)
            && (r.BcIllegalCommand? <==> e.BcIllegal?) && (r.IllegalFlagCombination? <==> e.IllegalFlags?)
  {
  }
}
