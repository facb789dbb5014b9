/** Whole cycles of a device handler: the mode machine and the command engine together, over every run. */
module DeviceRuns {
  import opened Sequences
  import opened Wrappers
  import M = DeviceModes
  import opened DeviceCommands

  datatype Handler = Handler(modes: M.Modes, engine: Engine)

  /** Parent and switch of the handler, whether raw replies have a receiver, and the ids of the reply map in order. */
  datatype Config = Config(modes: M.Config, rawReceiver: bool, order: seq<Id>)

  /** The message read at the start of a cycle. */
  datatype Message =
    | NoMessage
    | ModeCommand(command: M.ModeCommand, thermalOk: bool, delay: nat)
    | Action(id: Id, from: Queue, build: Return)

  /** All that comes from outside during one cycle. */
  datatype Cycle = Cycle(
    message: Message, input: M.Input, internal: Option<Id>,
    sent: Return, success: Return, requested: Return, data: Option<seq<Found>>)

  function ReadCommandQueue(h: Handler, c: Config, y: Cycle): Handler {
    match y.message
    case NoMessage => h
    case ModeCommand(command, thermalOk, delay) =>
      h.(modes := M.HandleModeCommand(h.modes, c.modes, command, thermalOk, delay, y.input.now))
    case Action(id, from, build) =>
      if h.modes.mode == M.ON || h.modes.mode == M.NORMAL then h.(engine := ExecuteAction(h.engine, id, from, build))
      else h.(engine := Refuse(h.engine, id, from, WrongMode))
  }

  /** May the handler build a command of its own in this mode? */
  predicate BuildsCommands(m: M.Mode) { m == M.NORMAL || (m != M.RAW && M.ChildAction(m)) }

  /** The timeouts, and then in a mode that may a command of the handler's own. */
  function CountAndBuild(g: Engine, c: Config, mode: M.Mode, internal: Option<Id>): Engine {
    var counted := DecrementAll(Log(g, Tick), c.order);
    if mode != M.OFF && counted.cookie.Unused? && BuildsCommands(mode) && internal.Some? then
      BuildInternalCommand(counted, internal.value)
    else counted
  }

  function SendWrite(h: Handler, c: Config, y: Cycle): Handler {
    var read := ReadCommandQueue(h.(engine := h.engine.(cookie := Unused)), c, y);
    var modes := M.DoStateMachine(read.modes, c.modes, y.input);
    var built := CountAndBuild(read.engine, c, modes.mode, y.internal);
    Handler(modes, if modes.mode == M.OFF then built else DoSendWrite(built, y.sent))
  }

  function GetWrite(h: Handler, y: Cycle): Handler {
    if h.modes.mode == M.OFF then h else h.(engine := DoGetWrite(h.engine, y.success))
  }

  function SendRead(h: Handler, y: Cycle): Handler {
    if h.modes.mode == M.OFF then h else h.(engine := DoSendRead(h.engine, y.requested))
  }

  /** Raw data goes to its receiver, if there is one, instead of being searched for replies. */
  function GetRead(h: Handler, c: Config, y: Cycle): Handler {
    if h.modes.mode == M.OFF then h
    else
      var data := if h.modes.mode == M.RAW && c.rawReceiver && y.data.Some? then Some([]) else y.data;
      h.(engine := DoGetRead(h.engine, data).(cookie := Unused))
  }

  function Perform(h: Handler, c: Config, y: Cycle): Handler {
    GetRead(SendRead(GetWrite(SendWrite(h, c, y), y), y), c, y)
  }

  function Run(h: Handler, c: Config, cycles: seq<Cycle>): Handler {
    if cycles == [] then h else Perform(Run(h, c, cycles[..|cycles| - 1]), c, cycles[|cycles| - 1])
  }

  // --- Answers to external commands --------------------------------------------------------------------------

  /** The state between two cycles: nothing is being written and every answer owed is accounted for. */
  ghost predicate Between(h: Handler, c: Config, id: Id) {
    && Sound(h.engine) && h.engine.cookie.Unused? && Accounted(h.engine, id, 0, 0)
    && Distinct(c.order) && (forall i :: i in h.engine.replies ==> i in c.order)
  }

  lemma AnyAge(g: Engine, id: Id, a: nat, b: nat)
    requires Loaded(g).None? && Accounted(g, id, a, 0)
    ensures Accounted(g, id, b, 0)
  {
  }

  /** A command is accepted only in modes that the state machine leaves alone. */
  lemma AcceptingModeStays(s: M.Modes, c: M.Config, i: M.Input)
    requires s.mode == M.ON || s.mode == M.NORMAL
    ensures M.DoStateMachine(s, c, i) == s
  {
  }

  lemma ReadQueueKeeps(h: Handler, c: Config, y: Cycle, id: Id)
    requires Between(h, c, id)
    ensures var r := ReadCommandQueue(h, c, y);
            && Sound(r.engine) && Accounted(r.engine, id, 0, 0) && r.engine.replies == h.engine.replies
            && !r.engine.cookie.WriteSent?
            && (!r.engine.cookie.Unused? ==> r.modes.mode == M.ON || r.modes.mode == M.NORMAL)
  {
    var r := ReadCommandQueue(h, c, y);
    if y.message.Action? {
      var action, from, build := y.message.id, y.message.from, y.message.build;
      if h.modes.mode == M.ON || h.modes.mode == M.NORMAL {
        ExecuteActionKeeps(h.engine, action, from, build, id);
        assert r.engine == ExecuteAction(h.engine, action, from, build) && r.modes == h.modes;
      } else {
        RefuseKeeps(h.engine, action, from, WrongMode, id);
        assert r.engine == Refuse(h.engine, action, from, WrongMode);
      }
    } else {
      assert r.engine == h.engine;
    }
  }

  lemma CountAndBuildKeeps(g: Engine, c: Config, mode: M.Mode, internal: Option<Id>, id: Id)
    requires Sound(g) && Accounted(g, id, 0, 0) && !g.cookie.WriteSent?
    requires Distinct(c.order) && (forall i :: i in g.replies ==> i in c.order)
    requires mode == M.OFF ==> g.cookie.Unused?
    ensures var r := CountAndBuild(g, c, mode, internal);
            && Sound(r) && Accounted(r, id, 1, 0) && !r.cookie.WriteSent? && r.replies.Keys == g.replies.Keys
            && (mode == M.OFF ==> r.cookie.Unused?)
  {
    CountdownKeeps(g, c.order, id);
    var counted := DecrementAll(Log(g, Tick), c.order);
    if counted.cookie.Unused? && internal.Some? {
      BuildInternalKeeps(counted, internal.value, id);
    }
  }

  lemma SendWriteStepKeeps(h: Handler, c: Config, y: Cycle, id: Id)
    requires Between(h, c, id)
    ensures var r := SendWrite(h, c, y);
            && Sound(r.engine) && Accounted(r.engine, id, 1, 0) && !r.engine.cookie.WriteReady?
            && (r.modes.mode == M.OFF ==> r.engine.cookie.Unused?)
            && r.engine.replies.Keys == h.engine.replies.Keys
  {
    assert h.(engine := h.engine.(cookie := Unused)) == h;
    ReadQueueKeeps(h, c, y, id);
    var read := ReadCommandQueue(h, c, y);
    if !read.engine.cookie.Unused? {
      AcceptingModeStays(read.modes, c.modes, y.input);
    }
    var modes := M.DoStateMachine(read.modes, c.modes, y.input);
    CountAndBuildKeeps(read.engine, c, modes.mode, y.internal, id);
    var built := CountAndBuild(read.engine, c, modes.mode, y.internal);
    if modes.mode != M.OFF {
      SendWriteKeeps(built, y.sent, id);
    }
  }

  lemma CycleKeeps(h: Handler, c: Config, y: Cycle, id: Id)
    requires Between(h, c, id)
    ensures Between(Perform(h, c, y), c, id)
  {
    SendWriteStepKeeps(h, c, y, id);
    var a := SendWrite(h, c, y);
    if a.modes.mode == M.OFF {
      AnyAge(a.engine, id, 1, 0);
    } else {
      GetWriteKeeps(a.engine, y.success, id);
      var b := GetWrite(a, y);
      var data := if b.modes.mode == M.RAW && c.rawReceiver && y.data.Some? then Some([]) else y.data;
      ReadKeeps(b.engine, y.requested, data, id);
      var d := Perform(h, c, y);
      AnyAge(d.engine, id, 1, 0);
    }
  }

  /** A handler as it is configured, before its first cycle. */
  ghost predicate Configured(h: Handler, c: Config) {
    && h.engine.cookie.Unused? && h.engine.log == []
    && (forall i :: i in h.engine.commands ==> !h.engine.commands[i].isExecuting)
    && (forall i :: i in h.engine.replies ==>
          h.engine.replies[i] == ReplyInfo(h.engine.replies[i].maxDelayCycles, 0, false, None)
          && h.engine.replies[i].maxDelayCycles < 0x1_0000)
    && Distinct(c.order) && (forall i :: i in h.engine.replies ==> i in c.order)
  }

  lemma {:induction false} RunKeeps(h: Handler, c: Config, cycles: seq<Cycle>, id: Id)
    requires Configured(h, c)
    ensures Between(Run(h, c, cycles), c, id)
    decreases |cycles|
  {
    if cycles != [] {
      RunKeeps(h, c, cycles[..|cycles| - 1], id);
      CycleKeeps(Run(h, c, cycles[..|cycles| - 1]), c, cycles[|cycles| - 1], id);
    }
  }

  /**
   On every run, whatever the device sends or omits: the answers to the accepted commands of one id
   alternate with their acceptances and go to the commander; and an answer that is outstanding after a cycle
   belongs to a command with a reply entry and, unless that entry waits no cycle at all, was accepted no more
   than its number of cycles ago.
   */
  lemma OneAnswerInTime(h: Handler, c: Config, cycles: seq<Cycle>, id: Id)
    requires Configured(h, c)
    ensures var g := Run(h, c, cycles).engine;
            var t := Track(g.log, id);
            && !t.Broken?
            && (t.Open? ==> id in g.commands && g.commands[id].isExecuting && g.commands[id].sendReplyTo == t.to)
            && (t.Open? ==> id in g.replies)
            && (t.Open? && g.replies[id].maxDelayCycles > 0 ==> t.age <= g.replies[id].maxDelayCycles)
  {
    RunKeeps(h, c, cycles, id);
    var g := Run(h, c, cycles).engine;
    if Owes(g, id) {
      assert CommandSound(g, id);
    }
  }

  // --- A reply entry that waits no cycle ------------------------------------------------------------------------

  /** The command of commander `q` is executing, not being written, and its reply entry waits no cycle. */
  ghost predicate Stuck(g: Engine, id: Id, q: Queue) {
    && id in g.commands && g.commands[id].isExecuting && g.commands[id].sendReplyTo == q && Loaded(g) != Some(id)
    && id in g.replies && g.replies[id].maxDelayCycles == 0
  }

  lemma StuckReply(g: Engine, replyId: Id, status: Return, id: Id, q: Queue)
    requires Sound(g) && Stuck(g, id, q) && replyId in g.replies && g.replies[replyId].delayCycles > 0
    ensures Stuck(ReplyToReply(SetDelay(g, replyId, 0), replyId, status), id, q)
  {
    assert ReplySound(g, replyId) && ReplySound(g, id);
    ReplySettles(g, replyId, status);
  }

  lemma StuckDecrement(g: Engine, replyId: Id, id: Id, q: Queue)
    requires Sound(g) && Stuck(g, id, q)
    ensures Stuck(Decrement(g, replyId), id, q)
  {
    if replyId in g.replies && g.replies[replyId].delayCycles == 1 {
      assert ReplySound(g, replyId);
      StuckReply(g, replyId, Timeout, id, q);
    }
  }

  lemma {:induction false} StuckDecrementAll(g: Engine, order: seq<Id>, id: Id, q: Queue)
    requires Sound(g) && Stuck(g, id, q) && Distinct(order) && Accounted(g, id, 1, if id in order then 1 else 0)
    ensures Stuck(DecrementAll(g, order), id, q)
    decreases |order|
  {
    if order != [] {
      assert order == [order[0]] + order[1..];
      DecrementKeeps(g, order[0], id, if id in order then 1 else 0);
      StuckDecrement(g, order[0], id, q);
      StuckDecrementAll(Decrement(g, order[0]), order[1..], id, q);
    }
  }

  lemma {:induction false} StuckReplies(g: Engine, found: seq<Found>, id: Id, q: Queue)
    requires Sound(g) && Loaded(g).None? && Stuck(g, id, q) && Accounted(g, id, 1, 0)
    ensures Stuck(HandleReplies(g, found), id, q)
    decreases |found|
  {
    if found != [] {
      var f := found[0];
      HandleReplyKeeps(g, f, id);
      if f.id in g.replies && g.replies[f.id].delayCycles > 0 {
        assert ReplySound(g, f.id);
        StuckReply(g, f.id, f.result, id, q);
      }
      StuckReplies(HandleReply(g, f), found[1..], id, q);
    }
  }

  lemma StuckBuild(g: Engine, internal: Id, id: Id, q: Queue)
    requires Stuck(g, id, q)
    ensures Stuck(BuildInternalCommand(g, internal), id, q)
  {
  }

  lemma StuckTick(g: Engine, c: Config, id: Id, q: Queue)
    requires Sound(g) && Accounted(g, id, 0, 0) && Stuck(g, id, q)
    requires Distinct(c.order) && (forall i :: i in g.replies ==> i in c.order)
    ensures Stuck(DecrementAll(Log(g, Tick), c.order), id, q)
  {
    TickKeeps(g, id);
    assert id in c.order;
    StuckDecrementAll(Log(g, Tick), c.order, id, q);
  }

  lemma StuckCountAndBuild(g: Engine, c: Config, mode: M.Mode, internal: Option<Id>, id: Id, q: Queue)
    requires Sound(g) && Accounted(g, id, 0, 0) && Stuck(g, id, q)
    requires Distinct(c.order) && (forall i :: i in g.replies ==> i in c.order)
    ensures Stuck(CountAndBuild(g, c, mode, internal), id, q)
  {
    StuckTick(g, c, id, q);
    var counted := DecrementAll(Log(g, Tick), c.order);
    if internal.Some? { StuckBuild(counted, internal.value, id, q); }
  }

  lemma StuckWrites(g: Engine, sent: Return, success: Return, id: Id, q: Queue)
    requires Stuck(g, id, q)
    ensures Stuck(DoSendWrite(g, sent), id, q) && Stuck(DoGetWrite(g, success), id, q)
  {
  }

  lemma StuckRead(g: Engine, requested: Return, data: Option<seq<Found>>, id: Id, q: Queue)
    requires Sound(g) && Loaded(g).None? && Accounted(g, id, 1, 0) && Stuck(g, id, q)
    ensures Stuck(DoGetRead(DoSendRead(g, requested), data).(cookie := Unused), id, q)
  {
    var k := DoSendRead(g, requested);
    CookieKeeps(g, k.cookie, k.ignoreMissedReplies, id);
    CookieKeeps(k, Unused, k.ignoreMissedReplies, id);
    if k.cookie.ReadSent? && data.Some? {
      StuckReplies(k.(cookie := Unused), data.value, id, q);
    }
  }

  lemma StuckReadQueue(h: Handler, c: Config, y: Cycle, id: Id, q: Queue)
    requires Stuck(h.engine, id, q)
    ensures Stuck(ReadCommandQueue(h, c, y).engine, id, q)
  {
  }

  lemma StuckSendWrite(h: Handler, c: Config, y: Cycle, id: Id, q: Queue)
    requires Between(h, c, id) && Stuck(h.engine, id, q)
    ensures Stuck(SendWrite(h, c, y).engine, id, q)
  {
    assert h.(engine := h.engine.(cookie := Unused)) == h;
    ReadQueueKeeps(h, c, y, id);
    StuckReadQueue(h, c, y, id, q);
    var read := ReadCommandQueue(h, c, y);
    var mode := M.DoStateMachine(read.modes, c.modes, y.input).mode;
    StuckCountAndBuild(read.engine, c, mode, y.internal, id, q);
    StuckWrites(CountAndBuild(read.engine, c, mode, y.internal), y.sent, y.success, id, q);
  }

  lemma StuckCycle(h: Handler, c: Config, y: Cycle, id: Id, q: Queue)
    requires Between(h, c, id) && Stuck(h.engine, id, q)
    ensures Stuck(Perform(h, c, y).engine, id, q)
  {
    StuckSendWrite(h, c, y, id, q);
    SendWriteStepKeeps(h, c, y, id);
    var a := SendWrite(h, c, y);
    if a.modes.mode != M.OFF {
      GetWriteKeeps(a.engine, y.success, id);
      StuckWrites(a.engine, y.sent, y.success, id, q);
      var data := if a.modes.mode == M.RAW && c.rawReceiver && y.data.Some? then Some([]) else y.data;
      StuckRead(DoGetWrite(a.engine, y.success), y.requested, data, id, q);
    }
  }

  /** Such a command is never answered, and its id never accepted again. */
  lemma StuckForever(h: Handler, c: Config, y: Cycle, id: Id, q: Queue)
    requires Between(h, c, id) && Stuck(h.engine, id, q) && q != NO_COMMANDER
    ensures var k := Perform(h, c, y);
            Between(k, c, id) && Stuck(k.engine, id, q) && Track(k.engine.log, id).Open?
                && Track(k.engine.log, id).to == q
  {
    CycleKeeps(h, c, y, id);
    StuckCycle(h, c, y, id, q);
  }

  /** A command gets there as soon as its write succeeds. */
  lemma ZeroDelayGetsStuck(g: Engine, id: Id)
    requires Sound(g) && g.cookie.WriteSent? && g.pending == Some(id) && id in g.replies
             && g.replies[id].maxDelayCycles == 0
    ensures Stuck(DoGetWrite(g, Ok), id, g.commands[id].sendReplyTo)
  {
  }
}
