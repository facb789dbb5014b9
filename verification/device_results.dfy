/** What commanders are told: the result of every command, from what the device and the channel did in the cycle. */
module DeviceResults {
  import opened Sequences
  import opened Wrappers
  import M = DeviceModes
  import S = DeviceSettles
  import opened DeviceCommands
  import opened DeviceRuns

  predicate Tells(e: Event, id: Id) { (e.Finish? || e.Step?) && e.id == id }

  /** What commanders of one id are told, in order. */
  function Answers(log: seq<Event>, id: Id): seq<Event> {
    if log == [] then []
    else Answers(log[..|log| - 1], id) + if Tells(log[|log| - 1], id) then [log[|log| - 1]] else []
  }

  // --- The answer that a cycle ought to bring ---------------------------------------------------------------

  function Tell(to: Queue, e: Event): seq<Event> { if to != NO_COMMANDER then [e] else [] }

  function FirstResult(found: seq<Found>, id: Id): Option<Return> {
    if found == [] then None else if found[0].id == id then Some(found[0].result) else FirstResult(found[1..], id)
  }

  /** The mode of the handler in this cycle, once commands are read and the mode machine has moved. */
  function ModeOf(h: Handler, c: Config, y: Cycle): M.Mode {
    M.DoStateMachine(ReadCommandQueue(h, c, y).modes, c.modes, y.input).mode
  }

  /** The result of the first reply of this id in the data of the cycle, if the data are searched for replies. */
  function ReplyIn(mode: M.Mode, c: Config, y: Cycle, id: Id): Option<Return> {
    if mode == M.OFF || (mode == M.RAW && c.rawReceiver) || !y.requested.Ok? || y.data.None? then None
    else FirstResult(y.data.value, id)
  }

  function WriteTold(to: Queue, id: Id, result: Return): seq<Event> {
    Tell(to, if result.NoReplyExpected? then Finish(to, id, Ok) else Step(to, id, 1, result))
  }

  function Finished(to: Queue, id: Id, reply: Option<Return>): seq<Event> {
    if reply.Some? then Tell(to, Finish(to, id, reply.value)) else []
  }

  /** A command that was sent: its write fails, needs no reply, or waits for one. */
  function Sent(to: Queue, id: Id, success: Return, entry: Option<nat>, reply: Option<Return>): seq<Event> {
    if !success.Ok? then WriteTold(to, id, success)
    else match entry
      case None => Tell(to, Finish(to, id, Ok))
      case Some(cycles) => Tell(to, Step(to, id, 1, Ok)) + if cycles > 0 then Finished(to, id, reply) else []
  }

  function Written(to: Queue, id: Id, y: Cycle, entry: Option<nat>, reply: Option<Return>): seq<Event> {
    if !y.sent.Ok? then WriteTold(to, id, y.sent) else Sent(to, id, y.success, entry, reply)
  }

  function Entry(g: Engine, id: Id): Option<nat> {
    if id in g.replies then Some(g.replies[id].maxDelayCycles) else None
  }

  /** The cycle accepts this command: it comes in a mode that takes commands, and its builder takes it. */
  predicate Takes(h: Handler, y: Cycle, id: Id) {
    && (h.modes.mode == M.ON || h.modes.mode == M.NORMAL)
    && y.message.Action? && y.message.id == id && y.message.build.Ok?
    && id in h.engine.commands && !h.engine.commands[id].isExecuting
  }

  predicate Awaits(g: Engine, id: Id) {
    id in g.commands && id in g.replies && g.replies[id].delayCycles > 0
  }

  /** A reply that is late tells TIMEOUT, one that comes its own result; a command taken tells of its write. */
  function Answer(h: Handler, c: Config, y: Cycle, id: Id): seq<Event> {
    var g, reply := h.engine, ReplyIn(ModeOf(h, c, y), c, y, id);
    if Awaits(g, id) then
      Finished(g.commands[id].sendReplyTo, id, if g.replies[id].delayCycles == 1 then Some(Timeout) else reply)
    else if Takes(h, y, id) then Written(y.message.from, id, y, Entry(g, id), reply)
    else []
  }

  /** This is what the k-th cycle of the run ought to bring. */
  ghost predicate Demands(h: Handler, c: Config, ys: seq<Cycle>, id: Id, k: nat, part: seq<Event>)
    requires k < |ys|
    decreases |ys|
  {
    var before := ys[..|ys| - 1];
    if k < |before| then Demands(h, c, before, id, k, part) else part == Answer(Run(h, c, before), c, ys[k], id)
  }

  /** These are the answers that the cycles of the run demand, one after the other. */
  ghost predicate AllDemanded(h: Handler, c: Config, ys: seq<Cycle>, id: Id, parts: seq<seq<Event>>) {
    |parts| == |ys| && forall k: nat :: k < |ys| ==> Demands(h, c, ys, id, k, parts[k])
  }

  function All(parts: seq<seq<Event>>): seq<Event> {
    if parts == [] then [] else All(parts[..|parts| - 1]) + parts[|parts| - 1]
  }

  // --- Each operation ---------------------------------------------------------------------------------------

  lemma AnswersLog(g: Engine, e: Event, id: Id)
    ensures Answers(Log(g, e).log, id) == Answers(g.log, id) + if Tells(e, id) then [e] else []
  {
    assert Log(g, e).log[..|g.log|] == g.log;
  }

  /** Nothing about the command has changed, and it has not been answered. */
  ghost predicate Untouched(g: Engine, k: Engine, id: Id) {
    && Answers(k.log, id) == Answers(g.log, id)
    && (id in g.commands <==> id in k.commands) && (id in g.commands ==> k.commands[id] == g.commands[id])
    && (id in g.replies <==> id in k.replies) && (id in g.replies ==> k.replies[id] == g.replies[id])
  }

  /** One cycle less to wait, or the timeout told. */
  ghost predicate CountedDown(g: Engine, k: Engine, id: Id)
    requires Awaits(g, id)
  {
    && id in k.commands && id in k.replies
    && if g.replies[id].delayCycles > 1 then
         && Answers(k.log, id) == Answers(g.log, id) && k.commands[id] == g.commands[id]
         && k.replies[id] == g.replies[id].(delayCycles := g.replies[id].delayCycles - 1)
       else
         && Answers(k.log, id) == Answers(g.log, id) + Finished(g.commands[id].sendReplyTo, id, Some(Timeout))
         && !k.commands[id].isExecuting && k.replies[id].delayCycles == 0
  }

  /** The end of an awaited reply: for the command itself, and for all others. */
  lemma SettledAnswers(g: Engine, replyId: Id, status: Return, id: Id)
    requires Sound(g) && replyId in g.replies && g.replies[replyId].delayCycles > 0
    ensures var k := ReplyToReply(SetDelay(g, replyId, 0), replyId, status);
            if replyId != id then Untouched(g, k, id)
            else
              && replyId in g.commands && id in k.commands && id in k.replies
              && Answers(k.log, id) == Answers(g.log, id) + Finished(g.commands[id].sendReplyTo, id, Some(status))
              && !k.commands[id].isExecuting && k.replies[id].delayCycles == 0
  {
    assert ReplySound(g, replyId);
    ReplySettles(g, replyId, status);
    var to := g.commands[replyId].sendReplyTo;
    AnswersLog(g, Finish(to, replyId, status), id);
  }

  lemma DecrementAnswers(g: Engine, replyId: Id, id: Id)
    requires Sound(g)
    ensures var k := Decrement(g, replyId);
            if replyId == id && Awaits(g, id) then CountedDown(g, k, id) else Untouched(g, k, id)
  {
    if replyId in g.replies && g.replies[replyId].delayCycles > 0 {
      assert ReplySound(g, replyId);
      SettledAnswers(g, replyId, Timeout, id);
    }
  }

  lemma {:induction false} CountdownAnswers(g: Engine, order: seq<Id>, id: Id)
    requires Sound(g) && Distinct(order) && Accounted(g, id, 1, if id in order then 1 else 0)
    ensures var k := DecrementAll(g, order);
            if id in order && Awaits(g, id) then CountedDown(g, k, id) else Untouched(g, k, id)
    decreases |order|
  {
    if order != [] {
      assert order == [order[0]] + order[1..];
      DecrementAnswers(g, order[0], id);
      DecrementKeeps(g, order[0], id, if id in order then 1 else 0);
      CountdownAnswers(Decrement(g, order[0]), order[1..], id);
    }
  }

  lemma ReplyAnswers(g: Engine, f: Found, id: Id)
    requires Sound(g)
    ensures var k := HandleReply(g, f);
            if f.id == id && Awaits(g, id) then
              Answers(k.log, id) == Answers(g.log, id) + Finished(g.commands[id].sendReplyTo, id, Some(f.result))
                && !Awaits(k, id)
            else Untouched(g, k, id)
  {
    if f.id in g.replies && g.replies[f.id].delayCycles > 0 {
      assert ReplySound(g, f.id);
      SettledAnswers(g, f.id, f.result, id);
    }
  }

  function Replied(g: Engine, id: Id, reply: Option<Return>): seq<Event> {
    if Awaits(g, id) then Finished(g.commands[id].sendReplyTo, id, reply) else []
  }

  lemma {:induction false} RepliesAnswer(g: Engine, found: seq<Found>, id: Id)
    requires Sound(g) && Loaded(g).None? && Accounted(g, id, 1, 0)
    ensures Answers(HandleReplies(g, found).log, id)
         == Answers(g.log, id) + Replied(g, id, FirstResult(found, id))
    decreases |found|
  {
    if found != [] {
      ReplyAnswers(g, found[0], id);
      HandleReplyKeeps(g, found[0], id);
      RepliesAnswer(HandleReply(g, found[0]), found[1..], id);
    }
  }

  lemma ReadAnswers(g: Engine, requested: Return, data: Option<seq<Found>>, id: Id)
    requires Sound(g) && Loaded(g).None? && Accounted(g, id, 1, 0)
    ensures var k := DoGetRead(DoSendRead(g, requested), data).(cookie := Unused);
            Answers(k.log, id) == Answers(g.log, id)
              + Replied(g, id, if requested.Ok? && data.Some? then FirstResult(data.value, id) else None)
  {
    var k := DoSendRead(g, requested);
    CookieKeeps(g, k.cookie, k.ignoreMissedReplies, id);
    CookieKeeps(k, Unused, k.ignoreMissedReplies, id);
    if requested.Ok? && data.Some? {
      RepliesAnswer(k.(cookie := Unused), data.value, id);
    }
  }

  lemma ToldOfWrite(g: Engine, status: Return, id: Id)
    requires HasPending(g)
    ensures var k := ReplyToCommand(g, status);
            k == g.(log := k.log)
              && Answers(k.log, id) == Answers(g.log, id)
                   + if g.pending.value == id then WriteTold(g.commands[id].sendReplyTo, id, status) else []
  {
    var p := g.pending.value;
    var to := g.commands[p].sendReplyTo;
    AnswersLog(g, Finish(to, p, Ok), id);
    AnswersLog(g, Step(to, p, 1, status), id);
  }

  lemma SendWriteAnswers(g: Engine, sent: Return, id: Id)
    requires Sound(g)
    ensures var k := DoSendWrite(g, sent);
            if g.cookie.WriteReady? && g.pending == Some(id) then
              id in g.commands
                && Answers(k.log, id) == Answers(g.log, id)
                     + (if sent.Ok? then [] else WriteTold(g.commands[id].sendReplyTo, id, sent))
                && k.replies == g.replies && id in k.commands
                && k.commands[id] == g.commands[id].(isExecuting := sent.Ok?)
                && (if sent.Ok? then k.cookie.WriteSent? && k.pending == g.pending else k.cookie.Unused?)
            else Untouched(g, k, id)
  {
    if g.cookie.WriteReady? { ToldOfWrite(g, sent, id); }
  }

  lemma GetWriteAnswers(g: Engine, success: Return, id: Id)
    requires Sound(g)
    ensures var k := DoGetWrite(g, success);
            if g.cookie.WriteSent? && g.pending == Some(id) then
              id in g.commands && id in k.commands && k.commands[id].sendReplyTo == g.commands[id].sendReplyTo
                && Answers(k.log, id) == Answers(g.log, id)
                     + (if !success.Ok? then WriteTold(g.commands[id].sendReplyTo, id, success)
                        else if id !in g.replies then WriteTold(g.commands[id].sendReplyTo, id, NoReplyExpected)
                        else WriteTold(g.commands[id].sendReplyTo, id, Ok))
                && (Awaits(k, id) <==> success.Ok? && id in g.replies && g.replies[id].maxDelayCycles > 0)
            else Untouched(g, k, id)
  {
    if g.cookie.WriteSent? {
      var p := g.pending.value;
      var h := g.(cookie := Unused);
      if p in g.replies { assert ReplySound(g, p); }
      if success.Ok? && p in g.replies {
        ToldOfWrite(EnableReply(h, p), Ok, id);
      } else {
        ToldOfWrite(SetExecuting(h, p, false), if success.Ok? then NoReplyExpected else success, id);
      }
    }
  }

  // --- The steps together -----------------------------------------------------------------------------------

  /** The steps behind SEND_WRITE of a handler that is not off. */
  function Rest(g: Engine, y: Cycle, data: Option<seq<Found>>): Engine {
    DoGetRead(DoSendRead(DoGetWrite(g, y.success), y.requested), data).(cookie := Unused)
  }

  function Searched(y: Cycle, data: Option<seq<Found>>, id: Id): Option<Return> {
    if y.requested.Ok? && data.Some? then FirstResult(data.value, id) else None
  }

  lemma Joined(a: seq<Event>, b: seq<Event>, c: seq<Event>)
    ensures a + b + c == a + (b + c) && a + [] == a
  {
  }

  /** The command being written, and then the reply to it if it is there already. */
  lemma RestOfWritten(g: Engine, y: Cycle, data: Option<seq<Found>>, id: Id)
    requires Sound(g) && Accounted(g, id, 1, 0) && g.cookie.WriteSent? && g.pending == Some(id) && id in g.commands
    ensures Answers(Rest(g, y, data).log, id) == Answers(g.log, id)
              + Sent(g.commands[id].sendReplyTo, id, y.success, Entry(g, id), Searched(y, data, id))
  {
    var k, reply, to := DoGetWrite(g, y.success), Searched(y, data, id), g.commands[id].sendReplyTo;
    GetWriteAnswers(g, y.success, id);
    GetWriteKeeps(g, y.success, id);
    ReadAnswers(k, y.requested, data, id);
    Joined(Answers(g.log, id), Tell(to, Step(to, id, 1, Ok)), Replied(k, id, reply));
  }

  lemma RestAnswers(g: Engine, y: Cycle, data: Option<seq<Found>>, id: Id)
    requires Sound(g) && Accounted(g, id, 1, 0) && !g.cookie.WriteReady?
    ensures Answers(Rest(g, y, data).log, id) == Answers(g.log, id)
              + if g.cookie.WriteSent? && g.pending == Some(id) && id in g.commands then
                  Sent(g.commands[id].sendReplyTo, id, y.success, Entry(g, id), Searched(y, data, id))
                else Replied(g, id, Searched(y, data, id))
  {
    if g.cookie.WriteSent? && g.pending == Some(id) {
      RestOfWritten(g, y, data, id);
    } else {
      GetWriteAnswers(g, y.success, id);
      GetWriteKeeps(g, y.success, id);
      ReadAnswers(DoGetWrite(g, y.success), y.requested, data, id);
    }
  }

  /** What is built waits to be written, or nothing does. */
  lemma TailAnswers(g: Engine, y: Cycle, data: Option<seq<Found>>, id: Id)
    requires Sound(g) && Accounted(g, id, 1, 0) && !g.cookie.WriteSent?
    ensures Answers(Rest(DoSendWrite(g, y.sent), y, data).log, id) == Answers(g.log, id)
              + if g.cookie.WriteReady? && g.pending == Some(id) && id in g.commands then
                  Written(g.commands[id].sendReplyTo, id, y, Entry(g, id), Searched(y, data, id))
                else Replied(g, id, Searched(y, data, id))
  {
    SendWriteAnswers(g, y.sent, id);
    SendWriteKeeps(g, y.sent, id);
    if id in g.replies { assert ReplySound(g, id); }
    RestAnswers(DoSendWrite(g, y.sent), y, data, id);
  }

  /** Reading the queue answers no command that was accepted. */
  lemma QueueAnswers(h: Handler, c: Config, y: Cycle, id: Id)
    requires Between(h, c, id)
    ensures var g, r := h.engine, ReadCommandQueue(h, c, y).engine;
            && Answers(r.log, id) == Answers(g.log, id) && r.replies == g.replies
            && (id in g.commands <==> id in r.commands)
            && (id in g.commands ==>
                  if Takes(h, y, id) then
                    Loaded(r) == Some(id) && r.commands[id].isExecuting && r.commands[id].sendReplyTo == y.message.from
                  else Loaded(r) != Some(id) && r.commands[id] == g.commands[id])
  {
    var g, r := h.engine, ReadCommandQueue(h, c, y).engine;
    if y.message.Action? {
      var action, from, build := y.message.id, y.message.from, y.message.build;
      if h.modes.mode == M.ON || h.modes.mode == M.NORMAL {
        assert r == ExecuteAction(g, action, from, build);
        if Verdict(g, action, build).Ok? {
          AnswersLog(Load(g, action, from), Accepted(action, from), id);
        } else {
          RefuseAnswers(g, action, from, Verdict(g, action, build), id);
        }
      } else {
        assert r == Refuse(g, action, from, WrongMode);
        RefuseAnswers(g, action, from, WrongMode, id);
      }
    } else {
      assert r == g;
    }
  }

  lemma RefuseAnswers(g: Engine, action: Id, from: Queue, result: Return, id: Id)
    ensures Answers(Refuse(g, action, from, result).log, id) == Answers(g.log, id)
  {
    var completed, refused := Completed(from, action, result), Refused(from, action, result);
    if result.ExecutionFinished? {
      TellsNobody(g.log, completed, id);
      TellsNobody(g.log + [completed], refused, id);
    } else {
      TellsNobody(g.log, refused, id);
    }
  }

  lemma TellsNobody(log: seq<Event>, e: Event, id: Id)
    requires !Tells(e, id)
    ensures Answers(log + [e], id) == Answers(log, id)
  {
    assert (log + [e])[..|log|] == log;
  }

  /** The count, and a command of the handler's own, which nobody is told about. */
  ghost predicate Built(g: Engine, k: Engine, id: Id) {
    && Answers(k.log, id) == Answers(g.log, id)
         + (if Awaits(g, id) && g.replies[id].delayCycles == 1
            then Finished(g.commands[id].sendReplyTo, id, Some(Timeout)) else [])
    && (if Loaded(g) == Some(id) then
          id in g.commands ==>
            Loaded(k) == Some(id) && id in k.commands && k.commands[id] == g.commands[id]
            && k.cookie == g.cookie && Entry(k, id) == Entry(g, id)
        else if Loaded(k) == Some(id) then
          id in k.commands && k.commands[id].sendReplyTo == NO_COMMANDER
          && !(Awaits(g, id) && g.replies[id].delayCycles > 1)
        else
          (Awaits(k, id) <==> Awaits(g, id) && g.replies[id].delayCycles > 1)
          && (Awaits(k, id) ==> k.commands[id].sendReplyTo == g.commands[id].sendReplyTo))
  }

  /** After the count. */
  ghost predicate Counted(g: Engine, k: Engine, id: Id) {
    if Awaits(g, id) then CountedDown(g, k, id) else Untouched(g, k, id)
  }

  lemma TickCountsNothing(g: Engine, h: Engine, k: Engine, id: Id)
    requires h == g.(log := h.log) && Answers(h.log, id) == Answers(g.log, id) && Counted(h, k, id)
    ensures Counted(g, k, id)
  {
  }

  lemma CountAnswers(g: Engine, c: Config, id: Id)
    requires Sound(g) && Accounted(g, id, 0, 0) && Distinct(c.order) && (forall i :: i in g.replies ==> i in c.order)
    ensures var k := DecrementAll(Log(g, Tick), c.order);
            Sound(k) && Counted(g, k, id) && k.cookie == g.cookie && k.pending == g.pending
  {
    var h := Log(g, Tick);
    TickKeeps(g, id);
    AnswersLog(g, Tick, id);
    LagOfCount(h, c.order, id);
    CountdownAnswers(h, c.order, id);
    CountdownKeeps(g, c.order, id);
    TickCountsNothing(g, h, DecrementAll(h, c.order), id);
  }

  lemma BuiltAnswers(g: Engine, c: Config, mode: M.Mode, internal: Option<Id>, id: Id)
    requires Sound(g) && Accounted(g, id, 0, 0) && Distinct(c.order) && (forall i :: i in g.replies ==> i in c.order)
    ensures Built(g, CountAndBuild(g, c, mode, internal), id)
  {
    CountAnswers(g, c, id);
    var counted, k := DecrementAll(Log(g, Tick), c.order), CountAndBuild(g, c, mode, internal);
    BuildLeaves(counted, internal, id);
    AfterCount(g, counted, k, id);
  }

  /** A command may be built after the count, if none is being written. */
  ghost predicate MayBuild(g: Engine, k: Engine, id: Id) {
    k == g ||
    (g.cookie.Unused? && k.log == g.log && k.replies == g.replies
     && if Loaded(k) == Some(id)
        then id in k.commands && k.commands[id].sendReplyTo == NO_COMMANDER && id in g.commands
             && !g.commands[id].isExecuting
        else (id in k.commands <==> id in g.commands) && (id in k.commands ==> k.commands[id] == g.commands[id]))
  }

  lemma AfterCount(g: Engine, counted: Engine, k: Engine, id: Id)
    requires Sound(g) && Sound(counted) && Counted(g, counted, id) && MayBuild(counted, k, id)
    requires counted.cookie == g.cookie && counted.pending == g.pending
    ensures Built(g, k, id)
  {
    if id in g.replies { assert ReplySound(g, id); }
    if id in counted.replies { assert ReplySound(counted, id); }
  }

  lemma LagOfCount(g: Engine, order: seq<Id>, id: Id)
    requires Accounted(g, id, 1, 1) && (id in g.replies ==> id in order)
    ensures Accounted(g, id, 1, if id in order then 1 else 0)
  {
  }

  lemma BuildLeaves(g: Engine, internal: Option<Id>, id: Id)
    requires Sound(g)
    ensures internal.Some? && g.cookie.Unused? ==> MayBuild(g, BuildInternalCommand(g, internal.value), id)
  {
  }

  /** In the mode of the cycle, with what was built. */
  lemma CycleTail(h: Handler, c: Config, y: Cycle, b: Engine, mode: M.Mode)
    requires h.engine.cookie.Unused? && mode == ModeOf(h, c, y)
    requires b == CountAndBuild(ReadCommandQueue(h, c, y).engine, c, mode, y.internal)
    ensures var data := if mode == M.RAW && c.rawReceiver && y.data.Some? then Some([]) else y.data;
            Perform(h, c, y).engine == if mode == M.OFF then b else Rest(DoSendWrite(b, y.sent), y, data)
  {
    assert h.(engine := h.engine.(cookie := Unused)) == h;
  }

  lemma ReplySearched(mode: M.Mode, c: Config, y: Cycle, id: Id)
    requires mode != M.OFF
    ensures var data := if mode == M.RAW && c.rawReceiver && y.data.Some? then Some([]) else y.data;
            ReplyIn(mode, c, y, id) == Searched(y, data, id)
  {
  }

  function TailOf(b: Engine, mode: M.Mode, c: Config, y: Cycle, id: Id): seq<Event> {
    if mode == M.OFF then []
    else if b.cookie.WriteReady? && b.pending == Some(id) && id in b.commands then
      Written(b.commands[id].sendReplyTo, id, y, Entry(b, id), ReplyIn(mode, c, y, id))
    else Replied(b, id, ReplyIn(mode, c, y, id))
  }

  lemma TailTold(h: Handler, c: Config, y: Cycle, b: Engine, mode: M.Mode, id: Id)
    requires h.engine.cookie.Unused? && mode == ModeOf(h, c, y)
    requires b == CountAndBuild(ReadCommandQueue(h, c, y).engine, c, mode, y.internal)
    requires Sound(b) && Accounted(b, id, 1, 0) && !b.cookie.WriteSent?
    ensures Answers(Perform(h, c, y).engine.log, id) == Answers(b.log, id) + TailOf(b, mode, c, y, id)
  {
    var data := if mode == M.RAW && c.rawReceiver && y.data.Some? then Some([]) else y.data;
    CycleTail(h, c, y, b, mode);
    if mode != M.OFF {
      TailAnswers(b, y, data, id);
      ReplySearched(mode, c, y, id);
    }
  }

  /** What a cycle tells is the timeout, if it is due, and what its tail tells. */
  lemma AnswerParts(h: Handler, c: Config, y: Cycle, id: Id, r: Engine, b: Engine)
    requires Between(h, c, id) && r.replies == h.engine.replies && Built(r, b, id)
    requires id in h.engine.commands <==> id in r.commands
    requires id in r.commands ==>
               if Takes(h, y, id) then
                 Loaded(r) == Some(id) && r.commands[id].isExecuting && r.commands[id].sendReplyTo == y.message.from
               else Loaded(r) != Some(id) && r.commands[id] == h.engine.commands[id]
    requires Sound(b) && !b.cookie.WriteSent? && !r.cookie.WriteSent?
    requires r.cookie.WriteReady? ==> ModeOf(h, c, y) != M.OFF && HasPending(r)
    ensures Answers(b.log, id) + TailOf(b, ModeOf(h, c, y), c, y, id) == Answers(r.log, id) + Answer(h, c, y, id)
  {
    var g := h.engine;
    if id in g.replies { assert ReplySound(g, id); }
    if id in b.replies { assert ReplySound(b, id); }
    if Takes(h, y, id) {
      assert Answers(b.log, id) == Answers(r.log, id);
    } else if Loaded(b) == Some(id) {
      assert TailOf(b, ModeOf(h, c, y), c, y, id) == [];
    } else {
      assert Awaits(g, id) == Awaits(r, id);
    }
  }

  /** Each cycle answers a command exactly as what happened in it demands. */
  lemma CycleAnswers(h: Handler, c: Config, y: Cycle, id: Id)
    requires Between(h, c, id)
    ensures Answers(Perform(h, c, y).engine.log, id) == Answers(h.engine.log, id) + Answer(h, c, y, id)
  {
    var read, mode := ReadCommandQueue(h, c, y), ModeOf(h, c, y);
    QueueAnswers(h, c, y, id);
    ReadQueueKeeps(h, c, y, id);
    if !read.engine.cookie.Unused? { AcceptingModeStays(read.modes, c.modes, y.input); }
    BuiltAnswers(read.engine, c, mode, y.internal, id);
    CountAndBuildKeeps(read.engine, c, mode, y.internal, id);
    var b := CountAndBuild(read.engine, c, mode, y.internal);
    TailTold(h, c, y, b, mode, id);
    AnswerParts(h, c, y, id, read.engine, b);
  }

  lemma OneMoreDemanded(h: Handler, c: Config, ys: seq<Cycle>, id: Id, parts: seq<seq<Event>>, part: seq<Event>)
    requires ys != [] && AllDemanded(h, c, ys[..|ys| - 1], id, parts) && Demands(h, c, ys, id, |ys| - 1, part)
    ensures AllDemanded(h, c, ys, id, parts + [part])
  {
    forall k: nat | k < |ys| ensures Demands(h, c, ys, id, k, (parts + [part])[k]) {
      if k < |ys| - 1 { assert Demands(h, c, ys[..|ys| - 1], id, k, parts[k]); }
    }
  }

  lemma {:induction false} DemandsMeans(h: Handler, c: Config, ys: seq<Cycle>, id: Id, k: nat, part: seq<Event>)
    requires k < |ys| && Demands(h, c, ys, id, k, part)
    ensures part == Answer(Run(h, c, ys[..k]), c, ys[k], id)
    decreases |ys|
  {
    var before := ys[..|ys| - 1];
    if k < |before| {
      DemandsMeans(h, c, before, id, k, part);
      assert before[..k] == ys[..k];
    }
  }

  /** Over every run from the start, what is told is what the cycles demand, one after the other. */
  lemma {:induction false} RunAnswers(h: Handler, c: Config, ys: seq<Cycle>, id: Id) returns (parts: seq<seq<Event>>)
    requires Configured(h, c)
    ensures AllDemanded(h, c, ys, id, parts) && Answers(Run(h, c, ys).engine.log, id) == All(parts)
    decreases |ys|
  {
    parts := [];
    if ys != [] {
      var before := ys[..|ys| - 1];
      var told := RunAnswers(h, c, before, id);
      RunKeeps(h, c, before, id);
      var part := CycleDemands(h, c, ys, id);
      OneMoreDemanded(h, c, ys, id, told, part);
      AllOneMore(told, part);
      parts := told + [part];
    }
  }

  lemma CycleDemands(h: Handler, c: Config, ys: seq<Cycle>, id: Id) returns (part: seq<Event>)
    requires ys != [] && Between(Run(h, c, ys[..|ys| - 1]), c, id)
    ensures Demands(h, c, ys, id, |ys| - 1, part)
    ensures Answers(Run(h, c, ys).engine.log, id) == Answers(Run(h, c, ys[..|ys| - 1]).engine.log, id) + part
  {
    var k := Run(h, c, ys[..|ys| - 1]);
    part := Answer(k, c, ys[|ys| - 1], id);
    CycleAnswers(k, c, ys[|ys| - 1], id);
  }

  lemma AllOneMore(parts: seq<seq<Event>>, part: seq<Event>)
    ensures All(parts + [part]) == All(parts) + part
  {
    assert (parts + [part])[..|parts|] == parts;
  }

  // --- Who is told what, the other way round ------------------------------------------------------------------

  /** The data of the cycle hold this very reply. */
  predicate ReplyCame(y: Cycle, e: Event) {
    e.Finish? && y.requested.Ok? && y.data.Some? && Found(e.id, e.result) in y.data.value
  }

  /** The command was written, and there is no reply to wait for. */
  predicate NeededNoReply(h: Handler, y: Cycle, e: Event) {
    e.Finish? && e.result.Ok? && Takes(h, y, e.id)
    && (y.sent.NoReplyExpected? || (y.sent.Ok? && y.success.NoReplyExpected?)
        || (y.sent.Ok? && y.success.Ok? && e.id !in h.engine.replies))
  }

  /** The last of the cycles that the reply entry waits has gone by. */
  predicate CameTooLate(h: Handler, e: Event) {
    e.Finish? && e.result.Timeout? && e.id in h.engine.replies && h.engine.replies[e.id].delayCycles == 1
  }

  lemma {:induction false} FirstResultIsFound(found: seq<Found>, id: Id)
    ensures FirstResult(found, id).Some? ==> Found(id, FirstResult(found, id).value) in found
  {
    if found != [] { FirstResultIsFound(found[1..], id); }
  }

  lemma AnswerHasReason(h: Handler, c: Config, y: Cycle, e: Event)
    requires e.Finish? && e in Answer(h, c, y, e.id)
    ensures ReplyCame(y, e) || NeededNoReply(h, y, e) || CameTooLate(h, e)
  {
    if y.data.Some? { FirstResultIsFound(y.data.value, e.id); }
  }

  lemma {:induction false} FinishIsAnswer(log: seq<Event>, e: Event)
    requires e.Finish? && e in log
    ensures e in Answers(log, e.id)
  {
    var before, last := log[..|log| - 1], log[|log| - 1];
    assert log == before + [last];
    if e != last { FinishIsAnswer(before, e); }
  }

  lemma {:induction false} InSomePart(parts: seq<seq<Event>>, e: Event) returns (k: nat)
    requires e in All(parts)
    ensures k < |parts| && e in parts[k]
  {
    var n := |parts| - 1;
    if e in parts[n] {
      k := n;
    } else {
      k := InSomePart(parts[..n], e);
    }
  }

  /**
   On every run a command is reported as finished only if its reply came, with the very result reported, or the
   command was written and needed none, or with TIMEOUT when its last cycle had gone by.
   */
  lemma FinishedOnlyIf(h: Handler, c: Config, ys: seq<Cycle>, e: Event) returns (k: nat)
    requires Configured(h, c) && e.Finish? && e in Run(h, c, ys).engine.log
    ensures k < |ys|
    ensures ReplyCame(ys[k], e) || NeededNoReply(Run(h, c, ys[..k]), ys[k], e) || CameTooLate(Run(h, c, ys[..k]), e)
  {
    FinishIsAnswer(Run(h, c, ys).engine.log, e);
    var parts := RunAnswers(h, c, ys, e.id);
    k := InSomePart(parts, e);
    DemandsMeans(h, c, ys, e.id, k, parts[k]);
    AnswerHasReason(Run(h, c, ys[..k]), c, ys[k], e);
  }

  // --- Acceptance and refusal ----------------------------------------------------------------------------------

  /** Exactly one message says whether a command was taken, and a refusal says why. */
  lemma ActionTold(h: Handler, c: Config, y: Cycle)
    requires y.message.Action?
    ensures var log := ReadCommandQueue(h, c, y).engine.log;
            var id, from, known := y.message.id, y.message.from, y.message.id in h.engine.commands;
            var on := h.modes.mode == M.ON || h.modes.mode == M.NORMAL;
            && h.engine.log < log
            && (log[|log| - 1] == Accepted(id, from) <==> Takes(h, y, id))
            && (log[|log| - 1] == Refused(from, id, WrongMode) <== !on)
            && (log[|log| - 1] == Refused(from, id, NotSupported) <== on && !known)
            && (log[|log| - 1] == Refused(from, id, AlreadySent) <== on && known && h.engine.commands[id].isExecuting)
            && (on && known && !h.engine.commands[id].isExecuting && !y.message.build.Ok? ==>
                  log[|log| - 1] == Refused(from, id, y.message.build))
  {
  }

  // --- Replies that the channel lost --------------------------------------------------------------------------

  /** The reply entries whose last cycle is now. */
  function Expiring(g: Engine, order: seq<Id>): nat {
    if order == [] then 0
    else Expiring(g, order[1..]) + if order[0] in g.replies && g.replies[order[0]].delayCycles == 1 then 1 else 0
  }

  function Minus(a: nat, b: nat): nat { if a > b then a - b else 0 }

  lemma {:induction false} ExpiringSame(g: Engine, k: Engine, order: seq<Id>)
    requires g.replies.Keys == k.replies.Keys
    requires forall i :: i in order && i in g.replies ==> k.replies[i] == g.replies[i]
    ensures Expiring(k, order) == Expiring(g, order)
  {
    if order != [] { ExpiringSame(g, k, order[1..]); }
  }

  lemma {:induction false} CountdownIgnores(g: Engine, order: seq<Id>)
    requires Distinct(order)
    ensures DecrementAll(g, order).ignoreMissedReplies == Minus(g.ignoreMissedReplies, Expiring(g, order))
    decreases |order|
  {
    if order != [] {
      var k := Decrement(g, order[0]);
      assert order == [order[0]] + order[1..];
      assert k.replies.Keys == g.replies.Keys;
      CountdownIgnores(k, order[1..]);
      ExpiringSame(g, k, order[1..]);
    }
  }

  lemma {:induction false} RepliesIgnoreNone(g: Engine, found: seq<Found>)
    ensures HandleReplies(g, found).ignoreMissedReplies == g.ignoreMissedReplies
    decreases |found|
  {
    if found != [] { RepliesIgnoreNone(HandleReply(g, found[0]), found[1..]); }
  }

  /** The cycle's reading failed. */
  predicate LosesRead(mode: M.Mode, y: Cycle) { mode != M.OFF && (!y.requested.Ok? || y.data.None?) }

  lemma WritesIgnoreNone(g: Engine, sent: Return, success: Return)
    ensures DoSendWrite(g, sent).ignoreMissedReplies == g.ignoreMissedReplies
    ensures DoGetWrite(g, success).ignoreMissedReplies == g.ignoreMissedReplies
  {
  }

  lemma RestIgnores(g: Engine, y: Cycle, data: Option<seq<Found>>)
    ensures Rest(g, y, data).ignoreMissedReplies
         == g.ignoreMissedReplies + if !y.requested.Ok? || data.None? then 1 else 0
  {
    WritesIgnoreNone(g, Ok, y.success);
    var k := DoSendRead(DoGetWrite(g, y.success), y.requested);
    if data.Some? { RepliesIgnoreNone(k.(cookie := Unused), data.value); }
  }

  /** Every failed read allows one more missed reply to be ignored, and every missed reply uses one of these up. */
  lemma IgnoredReplies(h: Handler, c: Config, y: Cycle)
    requires h.engine.cookie.Unused? && Distinct(c.order)
    ensures Perform(h, c, y).engine.ignoreMissedReplies
         == Minus(h.engine.ignoreMissedReplies, Expiring(h.engine, c.order))
            + if LosesRead(ModeOf(h, c, y), y) then 1 else 0
  {
    var read, mode := ReadCommandQueue(h, c, y).engine, ModeOf(h, c, y);
    QueueIgnoresNone(h, c, y);
    CountdownIgnores(Log(read, Tick), c.order);
    ExpiringSame(h.engine, Log(read, Tick), c.order);
    var b := CountAndBuild(read, c, mode, y.internal);
    CycleTail(h, c, y, b, mode);
    if mode != M.OFF {
      var data := if mode == M.RAW && c.rawReceiver && y.data.Some? then Some([]) else y.data;
      WritesIgnoreNone(b, y.sent, y.success);
      RestIgnores(DoSendWrite(b, y.sent), y, data);
    }
  }

  lemma QueueIgnoresNone(h: Handler, c: Config, y: Cycle)
    ensures var r := ReadCommandQueue(h, c, y).engine;
            r.ignoreMissedReplies == h.engine.ignoreMissedReplies && r.replies == h.engine.replies
  {
  }

  // --- The handler's own commands -----------------------------------------------------------------------------

  /** A command of the handler's own finds its entry free: idle, or just timed out. */
  predicate IsFree(g: Engine, id: Id) {
    id in g.commands && (!g.commands[id].isExecuting || (Awaits(g, id) && g.replies[id].delayCycles == 1))
  }

  lemma FreeAfterCount(g: Engine, c: Config, id: Id)
    requires Sound(g) && Accounted(g, id, 0, 0) && Distinct(c.order) && (forall i :: i in g.replies ==> i in c.order)
    ensures var k := DecrementAll(Log(g, Tick), c.order);
            k.cookie == g.cookie && (IsFree(g, id) <==> id in k.commands && !k.commands[id].isExecuting)
  {
    CountAnswers(g, c, id);
    if Awaits(g, id) { assert ReplySound(g, id); }
  }

  /** After the count, as SEND_WRITE goes on. */
  lemma FreeIsSent(g: Engine, mode: M.Mode, id: Id, k: Engine)
    requires g.cookie.Unused? && S.Known(mode)
    requires k == if mode == M.OFF then g
                  else DoSendWrite(if BuildsCommands(mode) then BuildInternalCommand(g, id) else g, Ok)
    ensures k.cookie.WriteSent? <==>
              (mode == M.NORMAL || M.ChildDriven(mode)) && id in g.commands && !g.commands[id].isExecuting
    ensures k.cookie.WriteSent? ==>
              k.pending == Some(id) && id in k.commands && k.commands[id].sendReplyTo == NO_COMMANDER
  {
  }

  lemma SendWriteIs(h: Handler, c: Config, y: Cycle, id: Id)
    requires h.engine.cookie.Unused? && !y.message.Action? && y.internal == Some(id) && y.sent.Ok?
    ensures var g, mode := DecrementAll(Log(h.engine, Tick), c.order), ModeOf(h, c, y);
            g.cookie.Unused? ==>
              SendWrite(h, c, y).engine == if mode == M.OFF then g
                else DoSendWrite(if BuildsCommands(mode) then BuildInternalCommand(g, id) else g, Ok)
  {
    assert h.(engine := h.engine.(cookie := Unused)) == h;
    assert ReadCommandQueue(h, c, y).engine == h.engine;
  }

  /**
   In a cycle without an action to take, a command of the handler's own is sent exactly if it is free, in NORMAL
   or while the child drives a transition, and nobody is to be told of it.
   */
  lemma OwnCommandSentIff(h: Handler, c: Config, y: Cycle, id: Id, k: Engine)
    requires Between(h, c, id) && !y.message.Action? && y.internal == Some(id) && y.sent.Ok?
    requires k == SendWrite(h, c, y).engine && S.Known(ModeOf(h, c, y))
    ensures k.cookie.WriteSent? <==>
              (ModeOf(h, c, y) == M.NORMAL || M.ChildDriven(ModeOf(h, c, y))) && IsFree(h.engine, id)
    ensures k.cookie.WriteSent? ==>
              k.pending == Some(id) && id in k.commands && k.commands[id].sendReplyTo == NO_COMMANDER
  {
    FreeAfterCount(h.engine, c, id);
    SendWriteIs(h, c, y, id);
    FreeIsSent(DecrementAll(Log(h.engine, Tick), c.order), ModeOf(h, c, y), id, k);
  }

  /** SEND_WRITE begins afresh, whatever an unfinished cycle left behind. */
  lemma NothingLeftOver(h: Handler, c: Config, y: Cycle, cookie: Cookie)
    ensures SendWrite(h.(engine := h.engine.(cookie := cookie)), c, y) == SendWrite(h, c, y)
  {
    assert h.(engine := h.engine.(cookie := cookie)).(engine := h.engine.(cookie := Unused))
        == h.(engine := h.engine.(cookie := Unused));
  }

  // --- Entries that the commands of this model do not use ------------------------------------------------------

  /** A periodic entry starts again, with its reply and with its timeout. */
  lemma PeriodicStartsAgain(g: Engine, f: Found)
    requires f.id in g.replies && g.replies[f.id].periodic
    ensures g.replies[f.id].delayCycles > 0 ==>
              var k := HandleReply(g, f); f.id in k.replies && k.replies[f.id] == Restarted(g.replies[f.id])
    ensures g.replies[f.id].delayCycles == 1 ==>
              var k := Decrement(g, f.id); f.id in k.replies && k.replies[f.id] == Restarted(g.replies[f.id])
  {
  }

  function Restarted(r: ReplyInfo): ReplyInfo { r.(delayCycles := r.maxDelayCycles) }

  /** Several replies to one command, one after the other. */
  function ReplyAll(g: Engine, replyId: Id, results: seq<Return>): (k: Engine)
    requires replyId in g.replies
    ensures replyId in k.replies
  {
    if results == [] then g
    else ReplyToReply(ReplyAll(g, replyId, results[..|results| - 1]), replyId, results[|results| - 1])
  }

  /** The last reply expected, and no other, finishes the command, with its own result. */
  lemma {:induction false} LastReplyFinishes(g: Engine, replyId: Id, id: Id, results: seq<Return>)
    requires replyId in g.replies && g.replies[replyId].command == Some(id) && id in g.commands
    requires |results| <= g.commands[id].expectedReplies < 0x100 && g.commands[id].isExecuting && results != []
    ensures var k, info := ReplyAll(g, replyId, results), g.commands[id];
            && id in k.commands && k.replies == g.replies && k.commands[id].sendReplyTo == info.sendReplyTo
            && k.commands[id].expectedReplies == info.expectedReplies - |results|
            && (k.commands[id].isExecuting <==> |results| < info.expectedReplies)
            && k.log == g.log + if |results| < info.expectedReplies then []
                                else Tell(info.sendReplyTo, Finish(info.sendReplyTo, replyId, results[|results| - 1]))
    decreases |results|
  {
    if |results| > 1 { LastReplyFinishes(g, replyId, id, results[..|results| - 1]); }
  }
}
