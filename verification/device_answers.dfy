/** Every accepted command is answered in time, and one whose reply entry waits no cycle never is. */
module DeviceAnswers {
  import opened Sequences
  import opened Wrappers
  import M = DeviceModes
  import opened DeviceCommands
  import opened DeviceRuns

  // --- Between two ticks an answer is only ever given ---------------------------------------------------

  /** The account of a command is as before or settled, and no reply entry waits for longer or shorter. */
  ghost predicate GoesOn(g: Engine, k: Engine, id: Id) {
    (Track(k.log, id) == Track(g.log, id) || !Track(k.log, id).Open?) && SameLimits(g, k)
  }

  ghost predicate SameLimits(g: Engine, k: Engine) {
    k.replies.Keys == g.replies.Keys
    && (forall i :: i in g.replies ==> k.replies[i].maxDelayCycles == g.replies[i].maxDelayCycles)
  }

  lemma LogGoesOn(g: Engine, e: Event, id: Id)
    requires !e.Accepted? && !e.Tick?
    ensures GoesOn(g, Log(g, e), id)
  {
    TrackLog(g, e, id);
  }

  lemma ReplyGoesOn(g: Engine, replyId: Id, status: Return, id: Id)
    requires replyId in g.replies
    ensures GoesOn(g, ReplyToReply(g, replyId, status), id)
  {
    var command := g.replies[replyId].command;
    if command.Some? && command.value in g.commands {
      var info := g.commands[command.value];
      var left := (info.expectedReplies + 0xff) % 0x100;
      var h := g.(commands := g.commands[command.value := info.(expectedReplies := left)]);
      LogGoesOn(h, Finish(info.sendReplyTo, replyId, status), id);
    }
  }

  lemma GoesOnTwice(g: Engine, k: Engine, m: Engine, id: Id)
    requires GoesOn(g, k, id) && GoesOn(k, m, id)
    ensures GoesOn(g, m, id)
  {
  }

  /** A reply entry is set and its command told. */
  lemma SettleGoesOn(g: Engine, replyId: Id, cycles: nat, status: Return, id: Id)
    requires replyId in g.replies
    ensures GoesOn(g, ReplyToReply(SetDelay(g, replyId, cycles), replyId, status), id)
  {
    var k := SetDelay(g, replyId, cycles);
    ReplyGoesOn(k, replyId, status, id);
    GoesOnTwice(g, k, ReplyToReply(k, replyId, status), id);
  }

  lemma DecrementGoesOn(g: Engine, replyId: Id, id: Id)
    ensures GoesOn(g, Decrement(g, replyId), id)
  {
    if replyId in g.replies && g.replies[replyId].delayCycles == 1 {
      var info := g.replies[replyId];
      SettleGoesOn(g, replyId, if info.periodic then info.maxDelayCycles else 0, Timeout, id);
    }
  }

  lemma {:induction false} DecrementAllGoesOn(g: Engine, order: seq<Id>, id: Id)
    ensures GoesOn(g, DecrementAll(g, order), id)
    decreases |order|
  {
    if order != [] {
      DecrementGoesOn(g, order[0], id);
      DecrementAllGoesOn(Decrement(g, order[0]), order[1..], id);
    }
  }

  lemma ReplyToCommandGoesOn(g: Engine, status: Return, id: Id)
    requires HasPending(g)
    ensures GoesOn(g, ReplyToCommand(g, status), id)
  {
    var to := g.commands[g.pending.value].sendReplyTo;
    LogGoesOn(g, Finish(to, g.pending.value, Ok), id);
    LogGoesOn(g, Step(to, g.pending.value, 1, status), id);
  }

  lemma SendWriteGoesOn(g: Engine, sent: Return, id: Id)
    ensures GoesOn(g, DoSendWrite(g, sent), id)
  {
    if g.cookie.WriteReady? && HasPending(g) { ReplyToCommandGoesOn(g, sent, id); }
  }

  lemma GetWriteGoesOn(g: Engine, success: Return, id: Id)
    ensures GoesOn(g, DoGetWrite(g, success), id)
  {
    if g.cookie.WriteSent? && HasPending(g) {
      var h := g.(cookie := Unused);
      if success.Ok? && g.pending.value in h.replies {
        ReplyToCommandGoesOn(EnableReply(h, g.pending.value), Ok, id);
      } else {
        var status := if success.Ok? then NoReplyExpected else success;
        ReplyToCommandGoesOn(SetExecuting(h, g.pending.value, false), status, id);
      }
    }
  }

  lemma {:induction false} HandleRepliesGoOn(g: Engine, found: seq<Found>, id: Id)
    ensures GoesOn(g, HandleReplies(g, found), id)
    decreases |found|
  {
    if found != [] {
      var f := found[0];
      if f.id in g.replies && g.replies[f.id].delayCycles != 0 {
        var info := g.replies[f.id];
        SettleGoesOn(g, f.id, if info.periodic then info.maxDelayCycles else 0, f.result, id);
      }
      HandleRepliesGoOn(HandleReply(g, f), found[1..], id);
    }
  }

  lemma ReadGoesOn(g: Engine, requested: Return, data: Option<seq<Found>>, id: Id)
    ensures GoesOn(g, DoGetRead(DoSendRead(g, requested), data), id)
  {
    var k := DoSendRead(g, requested);
    if k.cookie.ReadSent? && data.Some? { HandleRepliesGoOn(k.(cookie := Unused), data.value, id); }
  }

  // --- One cycle makes an outstanding answer one cycle older ----------------------------------------------

  /** While an answer is owed, its command is not accepted again. */
  lemma ActionGoesOn(g: Engine, action: Id, from: Queue, build: Return, id: Id)
    requires Sound(g) && Accounted(g, id, 0, 0) && Track(g.log, id).Open?
    ensures var r := ExecuteAction(g, action, from, build);
            Track(r.log, id) == Track(g.log, id) && r.replies == g.replies
  {
    var result := Verdict(g, action, build);
    if result.Ok? {
      assert action != id;
      TrackLog(Load(g, action, from), Accepted(action, from), id);
    } else {
      RefuseKeeps(g, action, from, result, id);
    }
  }

  lemma QueueGoesOn(h: Handler, c: Config, y: Cycle, id: Id)
    requires Between(h, c, id) && Track(h.engine.log, id).Open?
    ensures var r := ReadCommandQueue(h, c, y);
            Track(r.engine.log, id) == Track(h.engine.log, id) && r.engine.replies == h.engine.replies
  {
    var r := ReadCommandQueue(h, c, y);
    if y.message.Action? {
      var action, from, build := y.message.id, y.message.from, y.message.build;
      if h.modes.mode == M.ON || h.modes.mode == M.NORMAL {
        ActionGoesOn(h.engine, action, from, build, id);
        assert r.engine == ExecuteAction(h.engine, action, from, build);
      } else {
        RefuseKeeps(h.engine, action, from, WrongMode, id);
        assert r.engine == Refuse(h.engine, action, from, WrongMode);
      }
    } else {
      assert r.engine == h.engine;
    }
  }

  lemma CountAndBuildGoesOn(g: Engine, c: Config, mode: M.Mode, internal: Option<Id>, id: Id)
    ensures GoesOn(Log(g, Tick), CountAndBuild(g, c, mode, internal), id)
  {
    DecrementAllGoesOn(Log(g, Tick), c.order, id);
    var counted, built := DecrementAll(Log(g, Tick), c.order), CountAndBuild(g, c, mode, internal);
    assert built.log == counted.log && built.replies == counted.replies;
  }

  /** The rest of the cycle, after the tick. */
  lemma RestGoesOn(g: Engine, h: Handler, c: Config, y: Cycle, modes: M.Modes, id: Id)
    requires h == Handler(modes, if modes.mode == M.OFF then CountAndBuild(g, c, modes.mode, y.internal)
                                 else DoSendWrite(CountAndBuild(g, c, modes.mode, y.internal), y.sent))
    ensures GoesOn(Log(g, Tick), GetRead(SendRead(GetWrite(h, y), y), c, y).engine, id)
  {
    CountAndBuildGoesOn(g, c, modes.mode, y.internal, id);
    var built := CountAndBuild(g, c, modes.mode, y.internal);
    SendWriteGoesOn(built, y.sent, id);
    GetWriteGoesOn(h.engine, y.success, id);
    var a := GetWrite(h, y);
    var data := if a.modes.mode == M.RAW && c.rawReceiver && y.data.Some? then Some([]) else y.data;
    ReadGoesOn(a.engine, y.requested, data, id);
  }

  lemma PerformGoesOn(h: Handler, c: Config, y: Cycle, id: Id)
    requires h.engine.cookie.Unused?
    ensures GoesOn(Log(ReadCommandQueue(h, c, y).engine, Tick), Perform(h, c, y).engine, id)
  {
    assert h.(engine := h.engine.(cookie := Unused)) == h;
    var read := ReadCommandQueue(h, c, y);
    var modes := M.DoStateMachine(read.modes, c.modes, y.input);
    RestGoesOn(read.engine, SendWrite(h, c, y), c, y, modes, id);
  }

  /** What follows from it when an answer is owed at the tick. */
  lemma FromThereOn(g: Engine, k: Engine, id: Id, to: Queue, age: nat)
    requires GoesOn(g, k, id) && Track(g.log, id) == Account.Open(to, age)
    ensures Track(k.log, id) == Account.Open(to, age) || !Track(k.log, id).Open?
  {
  }

  lemma Ticked(g: Engine, id: Id)
    requires Track(g.log, id).Open?
    ensures var t := Track(g.log, id);
            Track(Log(g, Tick).log, id) == Account.Open(t.to, t.age + 1) && Log(g, Tick).replies == g.replies
  {
    TrackLog(g, Tick, id);
  }

  lemma OneCycleOlder(h: Handler, c: Config, y: Cycle, id: Id)
    requires Between(h, c, id) && Track(h.engine.log, id).Open?
    ensures var t, u := Track(h.engine.log, id), Track(Perform(h, c, y).engine.log, id);
            u == Account.Open(t.to, t.age + 1) || !u.Open?
    ensures SameLimits(h.engine, Perform(h, c, y).engine)
  {
    var t, g := Track(h.engine.log, id), ReadCommandQueue(h, c, y).engine;
    QueueGoesOn(h, c, y, id);
    Ticked(g, id);
    PerformGoesOn(h, c, y, id);
    FromThereOn(Log(g, Tick), Perform(h, c, y).engine, id, t.to, t.age + 1);
  }

  // --- Runs -----------------------------------------------------------------------------------------------

  /** After every prefix of the run the answer is still outstanding. */
  ghost predicate StaysOpen(h: Handler, c: Config, ys: seq<Cycle>, id: Id) {
    Track(Run(h, c, ys).engine.log, id).Open? && (ys == [] || StaysOpen(h, c, ys[..|ys| - 1], id))
  }

  lemma {:induction false} OlderAndOlder(h: Handler, c: Config, ys: seq<Cycle>, id: Id)
    requires Between(h, c, id) && StaysOpen(h, c, ys, id)
    ensures var t, k := Track(h.engine.log, id), Run(h, c, ys).engine;
            && Between(Run(h, c, ys), c, id) && t.Open? && Track(k.log, id) == Account.Open(t.to, t.age + |ys|)
            && SameLimits(h.engine, k)
    decreases |ys|
  {
    if ys != [] {
      var front := ys[..|ys| - 1];
      OlderAndOlder(h, c, front, id);
      OneCycleOlder(Run(h, c, front), c, ys[|ys| - 1], id);
      CycleKeeps(Run(h, c, front), c, ys[|ys| - 1], id);
    }
  }

  /**
   An answer that is owed is given before it is older than the number of cycles its reply entry waits,
   unless that is none.
   */
  lemma AnsweredInTime(h: Handler, c: Config, ys: seq<Cycle>, id: Id)
    requires Between(h, c, id) && Track(h.engine.log, id).Open?
    requires id in h.engine.replies && 0 < h.engine.replies[id].maxDelayCycles < Track(h.engine.log, id).age + |ys|
    ensures !StaysOpen(h, c, ys, id)
  {
    if StaysOpen(h, c, ys, id) {
      OlderAndOlder(h, c, ys, id);
      NotTooOld(Run(h, c, ys), c, id);
      assert false;
    }
  }

  lemma NotTooOld(h: Handler, c: Config, id: Id)
    requires Between(h, c, id) && Track(h.engine.log, id).Open? && id in h.engine.replies
             && h.engine.replies[id].maxDelayCycles > 0
    ensures Track(h.engine.log, id).age <= h.engine.replies[id].maxDelayCycles
  {
    assert CommandSound(h.engine, id);
  }

  // --- The entry that waits no cycle ------------------------------------------------------------------------

  /** Such a command is never answered, on any run. */
  lemma {:induction false} StuckOnEveryRun(h: Handler, c: Config, ys: seq<Cycle>, id: Id, q: Queue)
    requires Between(h, c, id) && Stuck(h.engine, id, q) && q != NO_COMMANDER
    ensures var k := Run(h, c, ys);
            Between(k, c, id) && Stuck(k.engine, id, q) && Track(k.engine.log, id).Open?
                && Track(k.engine.log, id).to == q
    ensures StaysOpen(h, c, ys, id)
    decreases |ys|
  {
    if ys != [] {
      StuckOnEveryRun(h, c, ys[..|ys| - 1], id, q);
      StuckForever(Run(h, c, ys[..|ys| - 1]), c, ys[|ys| - 1], id, q);
    }
  }

  /** The cycle hands an external command to a device that takes it. */
  predicate Delivers(h: Handler, y: Cycle, id: Id, from: Queue) {
    && (h.modes.mode == M.ON || h.modes.mode == M.NORMAL)
    && y.message == Action(id, from, Ok) && id in h.engine.commands && !h.engine.commands[id].isExecuting
    && y.sent.Ok? && y.success.Ok?
  }

  /** Counting down leaves a command alone that is still to be written. */
  lemma DecrementLeavesLoaded(g: Engine, replyId: Id, id: Id)
    requires Sound(g) && Loaded(g) == Some(id) && id in g.commands
    ensures var k := Decrement(g, replyId);
            id in k.commands && k.commands[id] == g.commands[id] && k.cookie == g.cookie && k.pending == g.pending
  {
    if replyId in g.replies && g.replies[replyId].delayCycles > 0 { assert ReplySound(g, replyId); }
  }

  lemma {:induction false} DecrementAllLeavesLoaded(g: Engine, order: seq<Id>, id: Id)
    requires Sound(g) && Loaded(g) == Some(id) && id in g.commands && Distinct(order)
    requires Accounted(g, id, 1, if id in order then 1 else 0)
    ensures var k := DecrementAll(g, order);
            id in k.commands && k.commands[id] == g.commands[id] && k.cookie == g.cookie && k.pending == g.pending
    decreases |order|
  {
    if order != [] {
      assert order == [order[0]] + order[1..];
      DecrementLeavesLoaded(g, order[0], id);
      DecrementKeeps(g, order[0], id, if id in order then 1 else 0);
      DecrementAllLeavesLoaded(Decrement(g, order[0]), order[1..], id);
    }
  }

  lemma QueueLoads(h: Handler, c: Config, y: Cycle, id: Id, from: Queue)
    requires Between(h, c, id) && Delivers(h, y, id, from)
    ensures var r := ReadCommandQueue(h, c, y);
            && r.modes == h.modes && r.engine == Log(Load(h.engine, id, from), Accepted(id, from))
            && r.engine.replies == h.engine.replies && id in r.engine.commands && r.engine.commands[id].isExecuting
            && r.engine.commands[id].sendReplyTo == from
            && Sound(r.engine) && Accounted(r.engine, id, 0, 0) && Loaded(r.engine) == Some(id)
            && Track(r.engine.log, id) == (if from != NO_COMMANDER then Account.Open(from, 0) else Account.Idle)
  {
    ReadQueueKeeps(h, c, y, id);
    assert Track(h.engine.log, id).Idle?;
    TrackLog(Load(h.engine, id, from), Accepted(id, from), id);
  }

  lemma CountingLeavesLoaded(g: Engine, c: Config, mode: M.Mode, internal: Option<Id>, id: Id)
    requires Sound(g) && Accounted(g, id, 0, 0) && Loaded(g) == Some(id) && id in g.commands && Distinct(c.order)
    ensures var k := CountAndBuild(g, c, mode, internal);
            id in k.commands && k.commands[id] == g.commands[id] && k.cookie == g.cookie && k.pending == g.pending
  {
    var h := Log(g, Tick);
    TickKeeps(g, id);
    LoadedHasNoLag(h, id, if id in c.order then 1 else 0);
    DecrementAllLeavesLoaded(h, c.order, id);
    assert CountAndBuild(g, c, mode, internal) == DecrementAll(h, c.order);
  }

  /** A command still to be written has no reply entry that counts. */
  lemma LoadedHasNoLag(g: Engine, id: Id, lag: nat)
    requires Accounted(g, id, 1, 1) && Loaded(g) == Some(id)
    ensures Accounted(g, id, 1, lag)
  {
  }

  /** In a mode that accepts commands the state machine stands still, and what waits is sent. */
  lemma SendWriteWhenOn(h: Handler, c: Config, y: Cycle)
    requires h.engine.cookie.Unused? && (h.modes.mode == M.ON || h.modes.mode == M.NORMAL) && y.message.Action?
    ensures SendWrite(h, c, y)
         == Handler(h.modes, DoSendWrite(CountAndBuild(ReadCommandQueue(h, c, y).engine, c, h.modes.mode,
                                                       y.internal), y.sent))
  {
    assert h.(engine := h.engine.(cookie := Unused)) == h;
    var read := ReadCommandQueue(h, c, y);
    assert read.modes == h.modes;
    AcceptingModeStays(read.modes, c.modes, y.input);
  }

  lemma LoadedIsSent(g: Engine, id: Id)
    requires g.cookie.WriteReady? && g.pending == Some(id) && id in g.commands
    ensures DoSendWrite(g, Ok) == g.(cookie := WriteSent)
  {
  }

  /** The command is sent in the cycle that accepts it. */
  lemma AcceptedIsSent(h: Handler, c: Config, y: Cycle, id: Id, from: Queue)
    requires Between(h, c, id) && Delivers(h, y, id, from)
    ensures var a := SendWrite(h, c, y);
            && a.modes == h.modes && a.engine.cookie.WriteSent? && a.engine.pending == Some(id)
            && id in a.engine.commands && a.engine.commands[id].isExecuting && a.engine.commands[id].sendReplyTo == from
  {
    QueueLoads(h, c, y, id, from);
    SendWriteWhenOn(h, c, y);
    var g := ReadCommandQueue(h, c, y).engine;
    CountingLeavesLoaded(g, c, h.modes.mode, y.internal, id);
    LoadedIsSent(CountAndBuild(g, c, h.modes.mode, y.internal), id);
  }

  /**
   Its answer can then wait for ever if and only if its reply entry waits no cycle; otherwise it comes
   within that many cycles.
   */
  lemma NeverAnsweredIff(h: Handler, c: Config, y: Cycle, ys: seq<Cycle>, id: Id, from: Queue)
    requires Between(h, c, id) && Delivers(h, y, id, from) && from != NO_COMMANDER && id in h.engine.replies
    requires |ys| >= h.engine.replies[id].maxDelayCycles
    ensures StaysOpen(Perform(h, c, y), c, ys, id) <==> h.engine.replies[id].maxDelayCycles == 0
  {
    CycleKeeps(h, c, y, id);
    var k := Perform(h, c, y);
    DeliveredCycle(h, c, y, id, from);
    if h.engine.replies[id].maxDelayCycles == 0 {
      ZeroDelayCycle(h, c, y, id, from);
      StuckOnEveryRun(k, c, ys, id, from);
    } else if StaysOpen(k, c, ys, id) {
      OlderAndOlder(k, c, ys, id);
      AnsweredInTime(k, c, ys, id);
      assert false;
    }
  }

  lemma DeliveredCycle(h: Handler, c: Config, y: Cycle, id: Id, from: Queue)
    requires Between(h, c, id) && Delivers(h, y, id, from) && from != NO_COMMANDER && id in h.engine.replies
    ensures var k := Perform(h, c, y);
            && id in k.engine.replies && k.engine.replies[id].maxDelayCycles == h.engine.replies[id].maxDelayCycles
            && (Track(k.engine.log, id).Open? ==> Track(k.engine.log, id) == Account.Open(from, 1))
  {
    var g := ReadCommandQueue(h, c, y).engine;
    QueueLoads(h, c, y, id, from);
    Ticked(g, id);
    PerformGoesOn(h, c, y, id);
    FromThereOn(Log(g, Tick), Perform(h, c, y).engine, id, from, 1);
  }

  lemma ZeroDelayCycle(h: Handler, c: Config, y: Cycle, id: Id, from: Queue)
    requires Between(h, c, id) && Delivers(h, y, id, from) && id in h.engine.replies
             && h.engine.replies[id].maxDelayCycles == 0
    ensures Stuck(Perform(h, c, y).engine, id, from)
  {
    AcceptedIsSent(h, c, y, id, from);
    SendWriteWhenOn(h, c, y);
    SendWriteStepKeeps(h, c, y, id);
    QueueLoads(h, c, y, id, from);
    var a := SendWrite(h, c, y);
    SentGoesOn(ReadCommandQueue(h, c, y).engine, a, c, y, h.modes, id);
    DeliveredIsStuck(h, c, y, id, from, a);
  }

  lemma SentGoesOn(g: Engine, a: Handler, c: Config, y: Cycle, modes: M.Modes, id: Id)
    requires a == Handler(modes, DoSendWrite(CountAndBuild(g, c, modes.mode, y.internal), y.sent))
    ensures GoesOn(Log(g, Tick), a.engine, id)
  {
    CountAndBuildGoesOn(g, c, modes.mode, y.internal, id);
    var built := CountAndBuild(g, c, modes.mode, y.internal);
    SendWriteGoesOn(built, y.sent, id);
  }

  lemma DeliveredIsStuck(h: Handler, c: Config, y: Cycle, id: Id, from: Queue, a: Handler)
    requires a == SendWrite(h, c, y) && Sound(a.engine) && Accounted(a.engine, id, 1, 0) && a.modes.mode != M.OFF
    requires a.engine.cookie.WriteSent? && a.engine.pending == Some(id) && a.engine.commands[id].sendReplyTo == from
    requires id in a.engine.replies && a.engine.replies[id].maxDelayCycles == 0 && y.success.Ok?
    ensures Stuck(Perform(h, c, y).engine, id, from)
  {
    ZeroDelayGetsStuck(a.engine, id);
    GetWriteKeeps(a.engine, y.success, id);
    var b := GetWrite(a, y);
    var data := if b.modes.mode == M.RAW && c.rawReceiver && y.data.Some? then Some([]) else y.data;
    StuckRead(b.engine, y.requested, data, id, from);
  }
}
