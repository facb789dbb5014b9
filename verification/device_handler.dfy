/** The device handler as its code keeps it: fields, two maps and a mode helper, updated in place. */
module DeviceHandlerBase {
  import opened Wrappers
  import M = DeviceModes
  import opened DeviceCommands
  import R = DeviceRuns

  class ModeHelper {
    const parentQueueId: Queue
    var theOneWhoCommandedAMode: Queue
    var commandedMode: M.Mode
    var commandedSubmode: nat
    var forced: bool
    /** The messages sent, in order. */
    var sent: seq<M.Message>

    constructor (parent: Queue)
      ensures parentQueueId == parent && theOneWhoCommandedAMode == M.NO_QUEUE && sent == []
      ensures commandedMode == M.OFF && commandedSubmode == 0 && !forced
    {
      parentQueueId, theOneWhoCommandedAMode, sent := parent, M.NO_QUEUE, [];
      commandedMode, commandedSubmode, forced := M.OFF, 0, false;
    }

    method SendModeReplyMessage(ownerMode: M.Mode, ownerSubmode: nat)
      modifies this`sent
      ensures sent == old(sent) +
                if theOneWhoCommandedAMode == M.NO_QUEUE then []
                else if ownerMode == commandedMode && ownerSubmode == commandedSubmode
                then [M.ModeReply(theOneWhoCommandedAMode, ownerMode, ownerSubmode)]
                else [M.WrongModeReply(theOneWhoCommandedAMode, ownerMode, ownerSubmode)]
    {
      if theOneWhoCommandedAMode != M.NO_QUEUE {
        if ownerMode != commandedMode || ownerSubmode != commandedSubmode {
          sent := sent + [M.WrongModeReply(theOneWhoCommandedAMode, ownerMode, ownerSubmode)];
        } else {
          sent := sent + [M.ModeReply(theOneWhoCommandedAMode, ownerMode, ownerSubmode)];
        }
      }
    }

    method SendModeInfoMessage(ownerMode: M.Mode, ownerSubmode: nat)
      modifies this`sent
      ensures sent == old(sent) +
                if theOneWhoCommandedAMode != parentQueueId && parentQueueId != M.NO_QUEUE
                then [M.ModeInfo(parentQueueId, ownerMode, ownerSubmode)] else []
    {
      if theOneWhoCommandedAMode != parentQueueId && parentQueueId != M.NO_QUEUE {
        sent := sent + [M.ModeInfo(parentQueueId, ownerMode, ownerSubmode)];
      }
    }

    method ModeChanged(ownerMode: M.Mode, ownerSubmode: nat)
      modifies this`forced, this`sent, this`theOneWhoCommandedAMode
      ensures theOneWhoCommandedAMode == M.NO_QUEUE && !forced
      ensures sent == old(sent)
        + (if old(theOneWhoCommandedAMode) == M.NO_QUEUE then []
           else if ownerMode == commandedMode && ownerSubmode == commandedSubmode
           then [M.ModeReply(old(theOneWhoCommandedAMode), ownerMode, ownerSubmode)]
           else [M.WrongModeReply(old(theOneWhoCommandedAMode), ownerMode, ownerSubmode)])
        + (if old(theOneWhoCommandedAMode) != parentQueueId && parentQueueId != M.NO_QUEUE
           then [M.ModeInfo(parentQueueId, ownerMode, ownerSubmode)] else [])
    {
      forced := false;
      SendModeReplyMessage(ownerMode, ownerSubmode);
      SendModeInfoMessage(ownerMode, ownerSubmode);
      theOneWhoCommandedAMode := M.NO_QUEUE;
    }
  }

  class DeviceHandlerBase {
    const config: R.Config
    const modeHelper: ModeHelper

    var mode: M.Mode
    var submode: nat
    var transitionSourceMode: M.Mode
    var transitionSourceSubMode: nat
    var childTransitionDelay: nat
    var timeoutStart: nat

    var cookieState: Cookie
    var pendingCommand: Option<Id>
    var deviceCommandMap: map<Id, CommandInfo>
    var deviceReplyMap: map<Id, ReplyInfo>
    var ignoreMissedRepliesCount: nat
    var log: seq<Event>

    ghost predicate Valid()
      reads {}
    {
      modeHelper.parentQueueId == config.modes.parent
    }

    ghost function ModesView(): M.Modes
      reads this`mode, this`submode, this`transitionSourceMode, this`transitionSourceSubMode,
            this`childTransitionDelay, this`timeoutStart, modeHelper
    {
      M.Modes(mode, submode, transitionSourceMode, transitionSourceSubMode, childTransitionDelay, timeoutStart,
              modeHelper.theOneWhoCommandedAMode, modeHelper.commandedMode, modeHelper.commandedSubmode,
              modeHelper.forced, modeHelper.sent)
    }

    ghost function EngineView(): Engine
      reads this`cookieState, this`pendingCommand, this`deviceCommandMap, this`deviceReplyMap,
            this`ignoreMissedRepliesCount, this`log
    {
      Engine(cookieState, pendingCommand, deviceCommandMap, deviceReplyMap, ignoreMissedRepliesCount, log)
    }

    ghost function View(): R.Handler
      reads this, modeHelper
    {
      R.Handler(ModesView(), EngineView())
    }

    constructor (config: R.Config, commands: map<Id, CommandInfo>, replies: map<Id, ReplyInfo>)
      ensures Valid() && this.config == config && fresh(modeHelper)
      ensures ModesView() == M.START && EngineView() == Engine(Unused, None, commands, replies, 0, [])
    {
      this.config := config;
      modeHelper := new ModeHelper(config.modes.parent);
      mode, submode, transitionSourceMode, transitionSourceSubMode := M.OFF, 0, M.POWER_DOWN, 0;
      childTransitionDelay, timeoutStart := 5000, 0;
      cookieState, pendingCommand, deviceCommandMap, deviceReplyMap := Unused, None, commands, replies;
      ignoreMissedRepliesCount, log := 0, [];
    }

    // --- Modes --------------------------------------------------------------------------------------------

    method SetMode(newMode: M.Mode, newSubmode: nat, now: nat)
      requires Valid()
      modifies this`mode, this`submode, this`timeoutStart, modeHelper
      ensures ModesView() == M.SetMode(old(ModesView()), config.modes, newMode, newSubmode, now)
    {
      submode := newSubmode;
      mode := newMode;
      if !M.Transitional(mode) {
        modeHelper.ModeChanged(newMode, newSubmode);
      }
      timeoutStart := now;
    }

    method SetTransition(modeTo: M.Mode, submodeTo: nat, delay: nat, now: nat)
      requires Valid()
      modifies this`mode, this`submode, this`timeoutStart, this`childTransitionDelay,
               this`transitionSourceMode, this`transitionSourceSubMode, modeHelper
      ensures ModesView() == M.SetTransition(old(ModesView()), config.modes, modeTo, submodeTo, delay, now)
    {
      childTransitionDelay := delay;
      transitionSourceMode := mode;
      transitionSourceSubMode := submode;
      SetMode(M.WithChildAction(modeTo), submodeTo, now);
    }

    method StartTransition(commandedMode: M.Mode, commandedSubmode: nat, delay: nat, now: nat)
      requires Valid()
      modifies this`mode, this`submode, this`timeoutStart, this`childTransitionDelay,
               this`transitionSourceMode, this`transitionSourceSubMode, modeHelper
      ensures ModesView() == M.StartTransition(old(ModesView()), config.modes, commandedMode, commandedSubmode,
                                               delay, now)
    {
      if commandedMode == M.ON {
        if mode == M.OFF {
          transitionSourceMode := M.POWER_DOWN;
          transitionSourceSubMode := 0;
          SetMode(M.POWER_ON, commandedSubmode, now);
          childTransitionDelay := delay;
        } else {
          SetTransition(M.ON, commandedSubmode, delay, now);
        }
      } else if commandedMode == M.OFF {
        if mode == M.OFF {
          SetMode(M.POWER_DOWN, commandedSubmode, now);
        } else {
          childTransitionDelay := delay;
          transitionSourceMode := M.POWER_DOWN;
          transitionSourceSubMode := commandedSubmode;
          SetMode(M.SHUT_DOWN, commandedSubmode, now);
        }
      } else if commandedMode == M.RAW {
        if mode != M.OFF {
          SetTransition(M.RAW, commandedSubmode, delay, now);
        } else {
          SetMode(M.RAW, commandedSubmode, now);
        }
      } else if commandedMode == M.NORMAL {
        if mode != M.OFF {
          SetTransition(M.NORMAL, commandedSubmode, delay, now);
        }
      }
    }

    method CheckModeCommand(commandedMode: M.Mode, commandedSubmode: nat, thermalOk: bool) returns (ok: bool)
      ensures ok == M.Reachable(ModesView(), commandedMode, commandedSubmode, thermalOk)
    {
      if M.Transitional(mode) {
        return false;
      }
      if mode == M.ERROR_ON && commandedMode != M.OFF {
        return false;
      }
      if commandedMode == M.NORMAL && mode == M.OFF {
        return false;
      }
      if commandedMode == M.ON && mode == M.OFF && !thermalOk {
        return false;
      }
      if commandedMode == M.OFF || commandedMode == M.ON || commandedMode == M.NORMAL || commandedMode == M.RAW {
        return commandedSubmode == 0;
      }
      return false;
    }

    method HandleModeCommand(m: M.ModeCommand, thermalOk: bool, delay: nat, now: nat)
      requires Valid()
      modifies this`mode, this`submode, this`timeoutStart, this`childTransitionDelay,
               this`transitionSourceMode, this`transitionSourceSubMode, modeHelper
      ensures ModesView() == M.HandleModeCommand(old(ModesView()), config.modes, m, thermalOk, delay, now)
    {
      match m {
        case Command(sender, commandedMode, commandedSubmode, forced) =>
          if forced {
            modeHelper.forced := true;
          }
          var ok := CheckModeCommand(commandedMode, commandedSubmode, thermalOk);
          if !ok {
            modeHelper.sent := modeHelper.sent + [M.CantReach(sender)];
          } else {
            modeHelper.theOneWhoCommandedAMode := sender;
            modeHelper.commandedMode := commandedMode;
            modeHelper.commandedSubmode := commandedSubmode;
            StartTransition(commandedMode, commandedSubmode, delay, now);
          }
        case Read(sender) =>
          modeHelper.sent := modeHelper.sent + [M.ModeReply(sender, mode, submode)];
        case Announce =>
      }
    }

    method CallChildStatemachine(child: M.Child, now: nat)
      requires Valid()
      modifies this`mode, this`submode, this`timeoutStart, modeHelper
      ensures ModesView() == M.CallChild(old(ModesView()), config.modes, child, now)
    {
      if M.ChildAction(mode) {
        match child {
          case Leave =>
          case Sets(childMode, childSubmode) => SetMode(childMode, childSubmode, now);
        }
      }
    }

    method DoStateMachine(i: M.Input)
      requires Valid()
      modifies this`mode, this`submode, this`timeoutStart, modeHelper
      ensures ModesView() == M.DoStateMachine(old(ModesView()), config.modes, i)
    {
      if M.ChildDriven(mode) {
        var currentMode := mode;
        CallChildStatemachine(i.child, i.now);
        if mode == currentMode {
          if M.Elapsed(i.now, timeoutStart) >= childTransitionDelay {
            SetMode(transitionSourceMode, transitionSourceSubMode, i.now);
          }
        }
      } else if mode == M.POWER_DOWN {
        SetMode(M.WAIT_OFF, submode, i.now);
      } else if mode == M.POWER_ON {
        SetMode(M.WAIT_ON, submode, i.now);
      } else if mode == M.WAIT_ON {
        if config.modes.switchDelay.Switcher? && M.Elapsed(i.now, timeoutStart) >= config.modes.switchDelay.delay {
          SetMode(M.POWER_DOWN, submode, i.now);
          CallChildStatemachine(i.child, i.now);
        } else {
          var switchState := M.Switches(config.modes, i);
          if switchState.SwitchOn? || switchState.NoSwitch? {
            SetMode(M.START_UP, submode, i.now);
            CallChildStatemachine(i.child, i.now);
          }
        }
      } else if mode == M.WAIT_OFF {
        if config.modes.switchDelay.NoSwitcher? {
          SetMode(M.OFF, submode, i.now);
        } else if M.Elapsed(i.now, timeoutStart) >= config.modes.switchDelay.delay {
          SetMode(M.ERROR_ON, submode, i.now);
        } else {
          var switchState := M.Switches(config.modes, i);
          if switchState.SwitchOff? || switchState.NoSwitch? {
            SetMode(M.SWITCH_IS_OFF, submode, i.now);
          }
        }
      } else if mode == M.SWITCH_IS_OFF {
        SetMode(M.OFF, 0, i.now);
      } else if !(mode == M.OFF || mode == M.ON || mode == M.RAW || mode == M.NORMAL || mode == M.ERROR_ON) {
        SetMode(M.POWER_DOWN, 0, i.now);
      }
    }

    // --- Commands ------------------------------------------------------------------------------------------

    method ExecuteAction(id: Id, from: Queue, build: Return)
      modifies this`cookieState, this`pendingCommand, this`deviceCommandMap, this`log
      ensures EngineView() ==
        if mode == M.ON || mode == M.NORMAL then DeviceCommands.ExecuteAction(old(EngineView()), id, from, build)
        else Refuse(old(EngineView()), id, from, WrongMode)
    {
      var result := build;
      if mode != M.ON && mode != M.NORMAL {
        result := WrongMode;
      } else if id !in deviceCommandMap {
        result := NotSupported;
      } else if deviceCommandMap[id].isExecuting {
        result := AlreadySent;
      }
      if result.Ok? {
        deviceCommandMap := deviceCommandMap[id := deviceCommandMap[id].(sendReplyTo := from)];
        deviceCommandMap := deviceCommandMap[id := deviceCommandMap[id].(isExecuting := true)];
        pendingCommand := Some(id);
        cookieState := WriteReady;
        log := log + [Accepted(id, from)];
        ghost var was := old(deviceCommandMap);
        assert deviceCommandMap == was[id := was[id].(isExecuting := true, sendReplyTo := from)];
      } else {
        if result.ExecutionFinished? { log := log + [Completed(from, id, result)]; }
        log := log + [Refused(from, id, result)];
      }
    }

    method BuildInternalCommand(internal: Option<Id>)
      modifies this`cookieState, this`pendingCommand, this`deviceCommandMap
      ensures EngineView() == if R.BuildsCommands(mode) && internal.Some?
                              then DeviceCommands.BuildInternalCommand(old(EngineView()), internal.value)
                              else old(EngineView())
    {
      if !R.BuildsCommands(mode) || internal.None? {
        return;
      }
      var id := internal.value;
      if id in deviceCommandMap && !deviceCommandMap[id].isExecuting {
        var info := deviceCommandMap[id];
        deviceCommandMap := deviceCommandMap[id := info.(isExecuting := true, sendReplyTo := NO_COMMANDER)];
        pendingCommand := Some(id);
        cookieState := WriteReady;
      }
    }

    method ReplyToCommand(status: Return)
      requires pendingCommand.Some? && pendingCommand.value in deviceCommandMap
      modifies this`log
      ensures EngineView() == DeviceCommands.ReplyToCommand(old(EngineView()), status)
    {
      var id := pendingCommand.value;
      var queueId := deviceCommandMap[id].sendReplyTo;
      if queueId != NO_COMMANDER {
        if status.NoReplyExpected? {
          log := log + [Finish(queueId, id, Ok)];
        } else {
          log := log + [Step(queueId, id, 1, status)];
        }
      }
    }

    method ReplyToReply(replyId: Id, status: Return)
      requires replyId in deviceReplyMap
      modifies this`deviceCommandMap, this`log
      ensures EngineView() == DeviceCommands.ReplyToReply(old(EngineView()), replyId, status)
    {
      var command := deviceReplyMap[replyId].command;
      if command.None? || command.value !in deviceCommandMap {
        return;
      }
      var info := deviceCommandMap[command.value];
      var left := (info.expectedReplies + 0xff) % 0x100;
      deviceCommandMap := deviceCommandMap[command.value := info.(expectedReplies := left)];
      if left == 0 {
        if info.sendReplyTo != NO_COMMANDER {
          log := log + [Finish(info.sendReplyTo, replyId, status)];
        }
        deviceCommandMap := deviceCommandMap[command.value := deviceCommandMap[command.value].(isExecuting := false)];
      }
    }

    method DoSendWrite(sent: Return)
      modifies this`cookieState, this`deviceCommandMap, this`log
      ensures EngineView() == DeviceCommands.DoSendWrite(old(EngineView()), sent)
    {
      if cookieState.WriteReady? && pendingCommand.Some? && pendingCommand.value in deviceCommandMap {
        if sent.Ok? {
          cookieState := WriteSent;
        } else {
          ReplyToCommand(sent);
          cookieState := Unused;
          var id := pendingCommand.value;
          deviceCommandMap := deviceCommandMap[id := deviceCommandMap[id].(isExecuting := false)];
        }
      }
    }

    method DoGetWrite(success: Return)
      modifies this`cookieState, this`deviceCommandMap, this`deviceReplyMap, this`log
      ensures EngineView() == DeviceCommands.DoGetWrite(old(EngineView()), success)
    {
      if !cookieState.WriteSent? || pendingCommand.None? || pendingCommand.value !in deviceCommandMap {
        return;
      }
      cookieState := Unused;
      var result := success;
      var id := pendingCommand.value;
      if result.Ok? {
        if id in deviceReplyMap {
          var reply := deviceReplyMap[id];
          deviceReplyMap := deviceReplyMap[id := reply.(delayCycles := reply.maxDelayCycles, command := Some(id))];
          deviceCommandMap := deviceCommandMap[id := deviceCommandMap[id].(expectedReplies := 1)];
        } else {
          result := NoReplyExpected;
        }
      }
      if !result.Ok? {
        deviceCommandMap := deviceCommandMap[id := deviceCommandMap[id].(isExecuting := false)];
      }
      ReplyToCommand(result);
    }

    method DoSendRead(requested: Return)
      modifies this`cookieState, this`ignoreMissedRepliesCount
      ensures EngineView() == DeviceCommands.DoSendRead(old(EngineView()), requested)
    {
      if requested.Ok? {
        cookieState := ReadSent;
      } else {
        ignoreMissedRepliesCount := ignoreMissedRepliesCount + 1;
        cookieState := Unused;
      }
    }

    method HandleReply(f: Found)
      modifies this`deviceCommandMap, this`deviceReplyMap, this`log
      ensures EngineView() == DeviceCommands.HandleReply(old(EngineView()), f)
    {
      if f.id in deviceReplyMap && deviceReplyMap[f.id].delayCycles != 0 {
        var info := deviceReplyMap[f.id];
        var cycles := if info.periodic then info.maxDelayCycles else 0;
        deviceReplyMap := deviceReplyMap[f.id := info.(delayCycles := cycles)];
        ReplyToReply(f.id, f.result);
      }
    }

    method DoGetRead(data: Option<seq<Found>>)
      modifies this`cookieState, this`ignoreMissedRepliesCount, this`deviceCommandMap, this`deviceReplyMap, this`log
      ensures EngineView() == DeviceCommands.DoGetRead(old(EngineView()), data)
    {
      if !cookieState.ReadSent? {
        cookieState := Unused;
        return;
      }
      cookieState := Unused;
      if data.None? {
        ignoreMissedRepliesCount := ignoreMissedRepliesCount + 1;
        return;
      }
      ghost var all := HandleReplies(EngineView(), data.value);
      var i := 0;
      assert data.value[0..] == data.value;
      while i < |data.value|
        invariant 0 <= i <= |data.value|
        invariant HandleReplies(EngineView(), data.value[i..]) == all
      {
        assert data.value[i..][1..] == data.value[i + 1..];
        HandleReply(data.value[i]);
        i := i + 1;
      }
    }

    method Decrement(id: Id)
      requires id in deviceReplyMap
      modifies this`deviceReplyMap, this`deviceCommandMap, this`ignoreMissedRepliesCount, this`log
      ensures EngineView() == DeviceCommands.Decrement(old(EngineView()), id)
    {
      ghost var was, info := EngineView(), deviceReplyMap[id];
      if deviceReplyMap[id].delayCycles != 0 {
        deviceReplyMap := deviceReplyMap[id := deviceReplyMap[id].(delayCycles := deviceReplyMap[id].delayCycles - 1)];
        assert EngineView() == SetDelay(was, id, info.delayCycles - 1);
        if deviceReplyMap[id].delayCycles == 0 {
          if deviceReplyMap[id].periodic {
            var cycles := deviceReplyMap[id].maxDelayCycles;
            deviceReplyMap := deviceReplyMap[id := deviceReplyMap[id].(delayCycles := cycles)];
          }
          assert EngineView() == SetDelay(was, id, if info.periodic then info.maxDelayCycles else 0);
          ReplyToReply(id, Timeout);
          if ignoreMissedRepliesCount > 0 {
            ignoreMissedRepliesCount := ignoreMissedRepliesCount - 1;
          }
        }
      }
    }

    method DecrementDeviceReplyMap()
      modifies this`deviceReplyMap, this`deviceCommandMap, this`ignoreMissedRepliesCount, this`log
      ensures EngineView() == DecrementAll(Log(old(EngineView()), Tick), config.order)
    {
      log := log + [Tick];
      var order := config.order;
      ghost var all := DecrementAll(EngineView(), order);
      var i := 0;
      assert order[0..] == order;
      while i < |order|
        invariant 0 <= i <= |order|
        invariant cookieState == old(cookieState) && pendingCommand == old(pendingCommand)
        invariant DecrementAll(EngineView(), order[i..]) == all
      {
        assert order[i..][1..] == order[i + 1..];
        if order[i] in deviceReplyMap {
          Decrement(order[i]);
        }
        i := i + 1;
      }
    }

    // --- The four steps of a cycle -----------------------------------------------------------------------------

    method ReadCommandQueue(y: R.Cycle)
      requires Valid()
      modifies this, modeHelper
      ensures View() == R.ReadCommandQueue(old(View()), config, y)
    {
      match y.message {
        case NoMessage =>
        case ModeCommand(command, thermalOk, delay) => HandleModeCommand(command, thermalOk, delay, y.input.now);
        case Action(id, from, build) => ExecuteAction(id, from, build);
      }
    }

    /** performOperation: the step chosen by the counter of the cycle. */
    method PerformOperation(counter: nat, y: R.Cycle)
      requires Valid()
      modifies this, modeHelper
      ensures View() ==
        if counter == 0 then R.SendWrite(old(View()), config, y)
        else if counter == 1 then R.GetWrite(old(View()), y)
        else if counter == 2 then R.SendRead(old(View()), y)
        else if counter == 3 then R.GetRead(old(View()), config, y)
        else old(View())
    {
      if counter == 0 {
        cookieState := Unused;
        ReadCommandQueue(y);
        DoStateMachine(y.input);
        DecrementDeviceReplyMap();
      }
      if mode == M.OFF {
        return;
      }
      if counter == 0 {
        if cookieState.Unused? {
          BuildInternalCommand(y.internal);
        }
        DoSendWrite(y.sent);
      } else if counter == 1 {
        DoGetWrite(y.success);
      } else if counter == 2 {
        DoSendRead(y.requested);
      } else if counter == 3 {
        if mode == M.RAW && config.rawReceiver && y.data.Some? {
          DoGetRead(Some([]));
        } else {
          DoGetRead(y.data);
        }
        cookieState := Unused;
      }
    }

    /** One polling sequence of the handler. */
    method PerformCycle(y: R.Cycle)
      requires Valid()
      modifies this, modeHelper
      ensures View() == R.Perform(old(View()), config, y)
    {
      PerformOperation(0, y);
      PerformOperation(1, y);
      PerformOperation(2, y);
      PerformOperation(3, y);
    }
  }
}
