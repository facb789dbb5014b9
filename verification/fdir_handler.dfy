/** The failure isolation object of a device handler, with its three counters. */
module DeviceHandlerFailureIsolation {
  import opened Words
  import opened LeakyBucket
  import opened DeviceFdir
  import C = FaultCounter

  const MAX_REBOOT: word := 1
  const REBOOT_TIME_MS: word := 180000
  const MAX_STRANGE_REPLIES: word := 10
  const STRANGE_REPLIES_TIME_MS: word := 10000
  const MAX_MISSED_REPLY_COUNT: word := 5
  const MISSED_REPLY_TIME_MS: word := 10000

  class DeviceHandlerFailureIsolation {
    const strangeReplyCount: C.FaultCounter
    const missedReplyCount: C.FaultCounter
    const recoveryCounter: C.FaultCounter
    const powerConfirmation: bool
    var fdirState: State
    var ownerHealth: Health
    /** The actions and changes of state reported, in order. */
    var reported: seq<Report>

    ghost predicate Valid() {
      && strangeReplyCount != missedReplyCount && strangeReplyCount != recoveryCounter
      && missedReplyCount != recoveryCounter
    }

    ghost function View(): Fdir
      reads this, strangeReplyCount, missedReplyCount, recoveryCounter
    {
      Fdir(fdirState, strangeReplyCount.View(), missedReplyCount.View(), recoveryCounter.View(), ownerHealth)
    }

    /** The new state and all reports come from this step. */
    twostate predicate Took(step: (Fdir, seq<Action>))
      reads this, strangeReplyCount, missedReplyCount, recoveryCounter
    {
      View() == step.0 && reported == old(reported) + Reports(old(View()), step)
    }

    constructor (powerConfirmation: bool, now: nat)
      ensures Valid() && fresh(strangeReplyCount) && fresh(missedReplyCount) && fresh(recoveryCounter)
      ensures View().state == None && View().health == Healthy && reported == []
      ensures this.powerConfirmation == powerConfirmation
      ensures Balanced(Tally(View(), 0, 0, now, now, now))
      ensures View().recovery.threshold == 1 && View().recovery.timeout == 180000
    {
      strangeReplyCount := new C.FaultCounter(MAX_STRANGE_REPLIES, STRANGE_REPLIES_TIME_MS, now);
      missedReplyCount := new C.FaultCounter(MAX_MISSED_REPLY_COUNT, MISSED_REPLY_TIME_MS, now);
      recoveryCounter := new C.FaultCounter(MAX_REBOOT, REBOOT_TIME_MS, now);
      this.powerConfirmation := powerConfirmation;
      fdirState, ownerHealth, reported := None, Healthy, [];
    }

    method SetFdirState(state: State)
      modifies this`fdirState, this`reported
      ensures fdirState == state && reported == old(reported) + [Changed(state, old(fdirState))]
    {
      reported := reported + [Changed(state, fdirState)];
      fdirState := state;
    }

    method SetFaulty()
      requires Valid()
      modifies this`fdirState, this`ownerHealth, this`reported
      ensures Took(GiveUp(old(View())))
    {
      reported := reported + [Acted(TurnsOffDevice)];
      ownerHealth := Faulty;
      SetFdirState(AwaitShutdown);
    }

    method StartRecovery()
      requires Valid()
      modifies this`fdirState, this`ownerHealth, this`reported
      ensures Took((old(View()).(state := RecoveryOngoing, health := NeedsRecovery), [StartsRecovery]))
    {
      reported := reported + [Acted(StartsRecovery)];
      ownerHealth := NeedsRecovery;
      SetFdirState(RecoveryOngoing);
    }

    method HandleRecovery(now: nat)
      requires Valid()
      modifies this`fdirState, this`ownerHealth, this`reported, strangeReplyCount, missedReplyCount, recoveryCounter
      ensures Took(Recover(old(View()), now))
    {
      strangeReplyCount.Clear();
      missedReplyCount.Clear();
      var tooOften := recoveryCounter.IncrementAndCheck(1, now);
      if !tooOften { StartRecovery(); } else { SetFaulty(); }
    }

    method CountMissedReply(now: nat)
      requires Valid()
      modifies this`fdirState, this`ownerHealth, this`reported, strangeReplyCount, missedReplyCount, recoveryCounter
      ensures Took(CountMissed(old(View()), now))
    {
      var tooOften := missedReplyCount.IncrementAndCheck(1, now);
      if tooOften { HandleRecovery(now); }
    }

    method IsFdirInActionOrAreWeFaulty(event: Event) returns (r: bool)
      requires Valid()
      modifies this`fdirState, this`reported
      ensures r == old(Active(View())) && View() == if r then Released(old(View()), event) else old(View())
      ensures reported == old(reported) + Reports(old(View()), (View(), []))
    {
      if fdirState != None {
        if event == HealthInfo(Healthy) { SetFdirState(None); }
        if event.ModeInfo? && fdirState != RecoveryOngoing { SetFdirState(None); }
        return true;
      }
      return ownerHealth == Faulty || ownerHealth == PermanentFaulty;
    }

    /** A confirmation request went out; about a switch it is only made with a power system to ask. */
    predicate Asked(event: Event, sent: bool) { sent && (event.SwitchWentOff? ==> powerConfirmation) }

    /** sent: the confirmation request went out, where it is made at all. */
    method EventReceived(event: Event, sent: bool, now: nat) returns (handled: bool)
      requires Valid()
      modifies this`fdirState, this`ownerHealth, this`reported, strangeReplyCount, missedReplyCount, recoveryCounter
      ensures Took(DeviceFdir.EventReceived(old(View()), event, Asked(event, sent), now))
      ensures handled == old(Handled(View(), event))
    {
      var ignored := IsFdirInActionOrAreWeFaulty(event);
      if ignored { return true; }
      handled := HandleEvent(event, sent, now);
    }

    method HandleEvent(event: Event, sent: bool, now: nat) returns (handled: bool)
      requires Valid() && !Active(View())
      modifies this`fdirState, this`ownerHealth, this`reported, strangeReplyCount, missedReplyCount, recoveryCounter
      ensures Took(DeviceFdir.EventReceived(old(View()), event, Asked(event, sent), now))
      ensures handled == !event.Other?
    {
      if AsksForRecovery(event) {
        HandleRecovery(now);
      } else if StrangeReply(event) {
        var tooOften := strangeReplyCount.IncrementAndCheck(1, now);
        if tooOften { HandleRecovery(now); }
      } else if NeedsConfirmation(event) {
        if !sent { CountMissedReply(now); }
      } else if event.SwitchWentOff? {
        if powerConfirmation && sent { SetFdirState(DeviceMightBeOff); }
      } else if AsksForShutdown(event) {
        SetFaulty();
      } else if event.Other? {
        return false;
      }
      return true;
    }

    method EventConfirmed(event: Event, now: nat)
      requires Valid()
      modifies this`fdirState, this`ownerHealth, this`reported, strangeReplyCount, missedReplyCount, recoveryCounter
      ensures Took(DeviceFdir.EventConfirmed(old(View()), event, now))
    {
      if NeedsConfirmation(event) {
        CountMissedReply(now);
      } else if event.SwitchWentOff? {
        HandleRecovery(now);
      }
    }

    method DecrementFaultCounters(now: nat)
      requires Valid()
      modifies strangeReplyCount, missedReplyCount, recoveryCounter
      ensures Took((DeviceFdir.DecrementFaultCounters(old(View()), now), []))
    {
      var strange := strangeReplyCount.CheckForDecrement(now);
      var missed := missedReplyCount.CheckForDecrement(now);
      var recovery := recoveryCounter.CheckForDecrement(now);
    }
  }
}
