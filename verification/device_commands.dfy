/** The command and reply engine of a device handler: four communication steps a cycle, timeouts and answers. */
module DeviceCommands {
  import opened Sequences
  import opened Wrappers
  type Id = nat
  type Queue = nat

  const NO_COMMANDER: Queue := 0

  datatype Return = Ok | NoReplyExpected | Timeout | ExecutionFinished | NotSupported | AlreadySent | WrongMode
                  | Failure(code: nat)

  datatype Cookie = Unused | WriteReady | WriteSent | ReadSent

  datatype CommandInfo = CommandInfo(isExecuting: bool, expectedReplies: nat, sendReplyTo: Queue)

  datatype ReplyInfo = ReplyInfo(maxDelayCycles: nat, delayCycles: nat, periodic: bool, command: Option<Id>)

  /** What happened, in order: messages sent, external commands accepted and timeout counts taken. */
  datatype Event =
    | Accepted(id: Id, from: Queue)
    | Refused(to: Queue, id: Id, result: Return)
    | Completed(to: Queue, id: Id, result: Return)
    | Step(to: Queue, id: Id, step: nat, result: Return)
    | Finish(to: Queue, id: Id, result: Return)
    | Tick

  datatype Engine = Engine(
    cookie: Cookie, pending: Option<Id>,
    commands: map<Id, CommandInfo>, replies: map<Id, ReplyInfo>,
    ignoreMissedReplies: nat, log: seq<Event>)

  function Log(g: Engine, e: Event): Engine { g.(log := g.log + [e]) }

  function SetExecuting(g: Engine, id: Id, on: bool): Engine
    requires id in g.commands
  {
    g.(commands := g.commands[id := g.commands[id].(isExecuting := on)])
  }

  // --- Accepting and building commands -----------------------------------------------------------------

  /** An accepted or internal command waits to be written. */
  function Load(g: Engine, id: Id, from: Queue): Engine
    requires id in g.commands
  {
    g.(commands := g.commands[id := g.commands[id].(isExecuting := true, sendReplyTo := from)],
       pending := Some(id), cookie := WriteReady)
  }

  /** The answer to an external command: `build` is what the child's command builder returns. */
  function Verdict(g: Engine, id: Id, build: Return): Return {
    if id !in g.commands then NotSupported
    else if g.commands[id].isExecuting then AlreadySent
    else build
  }

  /**
   A command that is not accepted is answered at once; one that the builder has executed already is
   answered twice.
   */
  function Refuse(g: Engine, id: Id, from: Queue, result: Return): Engine {
    Log(if result.ExecutionFinished? then Log(g, Completed(from, id, result)) else g, Refused(from, id, result))
  }

  function ExecuteAction(g: Engine, id: Id, from: Queue, build: Return): Engine {
    var result := Verdict(g, id, build);
    if result.Ok? then Log(Load(g, id, from), Accepted(id, from)) else Refuse(g, id, from, result)
  }

  /** A refused command gets a single answer if and only if the builder was not asked or did not execute it at once. */
  lemma OneRefusalIff(g: Engine, id: Id, from: Queue, build: Return)
    requires !Verdict(g, id, build).Ok?
    ensures var h := ExecuteAction(g, id, from, build);
            && h == g.(log := h.log) && g.log < h.log
                && (forall e :: e in h.log[|g.log|..] ==> e.Refused? || e.Completed?)
            && (|h.log| == |g.log| + 1
                <==> id !in g.commands || g.commands[id].isExecuting || !build.ExecutionFinished?)
  {
  }

  /** A command that the builder executes at once, sent to an idle handler by queue 5: two messages. */
  lemma RefusedTwice()
    ensures var g := Engine(Unused, None, map[1 := CommandInfo(false, 0, NO_COMMANDER)], map[], 0, []);
            ExecuteAction(g, 1, 5, ExecutionFinished).log
                == [Completed(5, 1, ExecutionFinished), Refused(5, 1, ExecutionFinished)]
  {
  }

  function BuildInternalCommand(g: Engine, id: Id): Engine {
    if id !in g.commands || g.commands[id].isExecuting then g else Load(g, id, NO_COMMANDER)
  }

  // --- Answers ----------------------------------------------------------------------------------------------

  function ReplyToCommand(g: Engine, status: Return): Engine
    requires HasPending(g)
  {
    var id := g.pending.value;
    var to := g.commands[id].sendReplyTo;
    if to == NO_COMMANDER then g
    else if status.NoReplyExpected? then Log(g, Finish(to, id, Ok))
    else Log(g, Step(to, id, 1, status))
  }

  /** One reply fewer is expected; with the last one the command is finished. */
  function ReplyToReply(g: Engine, replyId: Id, status: Return): Engine
    requires replyId in g.replies
  {
    var command := g.replies[replyId].command;
    if command.None? || command.value !in g.commands then g
    else
      var info := g.commands[command.value];
      var left := (info.expectedReplies + 0xff) % 0x100;
      var h := g.(commands := g.commands[command.value := info.(expectedReplies := left)]);
      if left != 0 then h
      else
        var k := if info.sendReplyTo != NO_COMMANDER then Log(h, Finish(info.sendReplyTo, replyId, status)) else h;
        SetExecuting(k, command.value, false)
  }

  // --- The four steps --------------------------------------------------------------------------------------------

  /** The pending command is an entry of the command map. */
  predicate HasPending(g: Engine) { g.pending.Some? && g.pending.value in g.commands }

  function DoSendWrite(g: Engine, sent: Return): Engine {
    if !g.cookie.WriteReady? || !HasPending(g) then g
    else if sent.Ok? then g.(cookie := WriteSent)
    else SetExecuting(ReplyToCommand(g, sent).(cookie := Unused), g.pending.value, false)
  }

  function EnableReply(g: Engine, id: Id): Engine
    requires id in g.commands && id in g.replies
  {
    g.(replies := g.replies[id := g.replies[id].(delayCycles := g.replies[id].maxDelayCycles, command := Some(id))],
       commands := g.commands[id := g.commands[id].(expectedReplies := 1)])
  }

  function DoGetWrite(g: Engine, success: Return): Engine {
    if !g.cookie.WriteSent? || !HasPending(g) then g
    else
      var id := g.pending.value;
      var h := g.(cookie := Unused);
      if success.Ok? && id in h.replies then ReplyToCommand(EnableReply(h, id), Ok)
      else ReplyToCommand(SetExecuting(h, id, false), if success.Ok? then NoReplyExpected else success)
  }

  function DoSendRead(g: Engine, requested: Return): Engine {
    if requested.Ok? then g.(cookie := ReadSent)
    else g.(cookie := Unused, ignoreMissedReplies := g.ignoreMissedReplies + 1)
  }

  /** A reply found in the received data, with what its interpretation returned. */
  datatype Found = Found(id: Id, result: Return)

  function HandleReply(g: Engine, f: Found): Engine {
    if f.id !in g.replies || g.replies[f.id].delayCycles == 0 then g
    else
      var info := g.replies[f.id];
      ReplyToReply(SetDelay(g, f.id, if info.periodic then info.maxDelayCycles else 0), f.id, f.result)
  }

  function HandleReplies(g: Engine, found: seq<Found>): Engine
    decreases |found|
  {
    if found == [] then g else HandleReplies(HandleReply(g, found[0]), found[1..])
  }

  /** `data` is none when reading fails, otherwise the replies in it. */
  function DoGetRead(g: Engine, data: Option<seq<Found>>): Engine {
    var h := g.(cookie := Unused);
    if !g.cookie.ReadSent? then h
    else if data.None? then h.(ignoreMissedReplies := h.ignoreMissedReplies + 1)
    else HandleReplies(h, data.value)
  }

  // --- Timeouts --------------------------------------------------------------------------------------------------

  /** A missed reply that the channel is known to have lost is ignored once. */
  function MissedReply(g: Engine): Engine {
    if g.ignoreMissedReplies > 0 then g.(ignoreMissedReplies := g.ignoreMissedReplies - 1) else g
  }

  function SetDelay(g: Engine, id: Id, cycles: nat): Engine
    requires id in g.replies
  {
    g.(replies := g.replies[id := g.replies[id].(delayCycles := cycles)])
  }

  function Decrement(g: Engine, id: Id): Engine {
    if id !in g.replies || g.replies[id].delayCycles == 0 then g
    else
      var info := g.replies[id];
      if info.delayCycles > 1 then SetDelay(g, id, info.delayCycles - 1)
      else MissedReply(ReplyToReply(SetDelay(g, id, if info.periodic then info.maxDelayCycles else 0), id, Timeout))
  }

  /** The reply map is walked in the order of its ids. */
  function DecrementAll(g: Engine, order: seq<Id>): Engine
    decreases |order|
  {
    if order == [] then g else DecrementAll(Decrement(g, order[0]), order[1..])
  }

  // --- The account of one command, read off the log --------------------------------------------------------------

  /** No answer owed, an answer owed to a commander for so many ticks, or a message too many or too few. */
  datatype Account = Idle | Open(to: Queue, age: nat) | Broken

  predicate Terminal(e: Event, id: Id) {
    (e.Finish? && e.id == id) || (e.Step? && e.id == id && !e.result.Ok?)
  }

  function Book(t: Account, e: Event, id: Id): Account {
    if t.Broken? then Broken
    else if e.Accepted? && e.id == id && e.from != NO_COMMANDER then if t.Idle? then Open(e.from, 0) else Broken
    else if Terminal(e, id) then if t.Open? && t.to == e.to then Idle else Broken
    else if e.Step? && e.id == id then if t.Open? && t.to == e.to then t else Broken
    else if e.Tick? && t.Open? then Open(t.to, t.age + 1)
    else t
  }

  function Track(log: seq<Event>, id: Id): Account {
    if log == [] then Idle else Book(Track(log[..|log| - 1], id), log[|log| - 1], id)
  }

  lemma TrackLog(g: Engine, e: Event, id: Id)
    ensures Track(Log(g, e).log, id) == Book(Track(g.log, id), e, id)
  {
    assert Log(g, e).log[..|g.log|] == g.log;
  }

  /** The command between acceptance and the end of its write. */
  function Loaded(g: Engine): Option<Id> {
    if g.cookie.WriteReady? || g.cookie.WriteSent? then g.pending else None
  }

  ghost predicate ReplySound(g: Engine, id: Id)
    requires id in g.replies
  {
    var r := g.replies[id];
    && !r.periodic && r.delayCycles <= r.maxDelayCycles < 0x1_0000
    && (r.command == None || (r.command == Some(id) && id in g.commands))
    && (r.delayCycles > 0 ==>
          r.command == Some(id) && g.commands[id].isExecuting && g.commands[id].expectedReplies == 1
              && Loaded(g) != Some(id))
  }

  ghost predicate CommandSound(g: Engine, id: Id)
    requires id in g.commands
  {
    g.commands[id].isExecuting ==>
      Loaded(g) == Some(id) || (id in g.replies && (g.replies[id].delayCycles > 0 || g.replies[id].maxDelayCycles == 0))
  }

  ghost predicate Sound(g: Engine) {
    && (g.cookie.WriteReady? || g.cookie.WriteSent? ==> HasPending(g) && g.commands[g.pending.value].isExecuting)
    && (forall id :: id in g.replies ==> ReplySound(g, id))
    && (forall id :: id in g.commands ==> CommandSound(g, id))
  }

  /** Is there an external command of this id that has not been answered? */
  predicate Owes(g: Engine, id: Id) {
    id in g.commands && g.commands[id].isExecuting && g.commands[id].sendReplyTo != NO_COMMANDER
  }

  /**
   The log agrees with the maps about `id`: an answer is owed exactly while the maps say so, to the same
   commander, and its age and the cycles left add up. `young` is the age of a command being written, `lag`
   is 1 while the tick of the cycle has been taken but the reply entry has not been counted down yet.
   */
  ghost predicate Accounted(g: Engine, id: Id, young: nat, lag: nat) {
    var t := Track(g.log, id);
    if !Owes(g, id) then t.Idle?
    else
      && t.Open? && t.to == g.commands[id].sendReplyTo
      && (Loaded(g) == Some(id) ==> t.age == young)
      && (Loaded(g) != Some(id) && id in g.replies && g.replies[id].delayCycles > 0 ==>
            t.age + g.replies[id].delayCycles == g.replies[id].maxDelayCycles + 1 + lag)
  }

  // --- Each operation keeps soundness and account -----------------------------------------------------------------

  lemma LogKeepsSound(g: Engine, e: Event)
    requires Sound(g)
    ensures Sound(Log(g, e))
  {
    var h := Log(g, e);
    forall id | id in h.replies ensures ReplySound(h, id) { assert ReplySound(g, id); }
    forall id | id in h.commands ensures CommandSound(h, id) { assert CommandSound(g, id); }
  }

  lemma LoadKeepsSound(g: Engine, id: Id, from: Queue)
    requires Sound(g) && g.cookie.Unused? && id in g.commands && !g.commands[id].isExecuting
    ensures Sound(Load(g, id, from))
  {
    var h := Load(g, id, from);
    forall i | i in h.replies ensures ReplySound(h, i) { assert ReplySound(g, i); }
    forall i | i in h.commands ensures CommandSound(h, i) { assert CommandSound(g, i); }
  }

  lemma AcceptKeeps(g: Engine, action: Id, from: Queue, id: Id)
    requires Sound(g) && g.cookie.Unused? && Accounted(g, id, 0, 0) && action in g.commands
             && !g.commands[action].isExecuting
    ensures var h := Log(Load(g, action, from), Accepted(action, from));
            Sound(h) && Accounted(h, id, 0, 0) && h.replies == g.replies
  {
    var k := Load(g, action, from);
    LoadKeepsSound(g, action, from);
    LogKeepsSound(k, Accepted(action, from));
    TrackLog(k, Accepted(action, from), id);
    AcceptAccounts(g, k, Log(k, Accepted(action, from)), action, from, id);
  }

  lemma AcceptAccounts(g: Engine, k: Engine, h: Engine, action: Id, from: Queue, id: Id)
    requires g.cookie.Unused? && Accounted(g, id, 0, 0) && action in g.commands && !g.commands[action].isExecuting
    requires k == Load(g, action, from) && h == k.(log := h.log)
    requires Track(h.log, id) == Book(Track(g.log, id), Accepted(action, from), id)
    ensures Accounted(h, id, 0, 0)
  {
    assert Loaded(h) == Some(action) && Loaded(g).None?;
    if id == action {
      assert Track(g.log, id).Idle?;
    } else {
      assert Owes(h, id) == Owes(g, id) && Track(h.log, id) == Track(g.log, id);
    }
  }

  /** A message to a refused sender changes no account. */
  lemma RefusalKeeps(g: Engine, e: Event, id: Id)
    requires Sound(g) && Accounted(g, id, 0, 0) && (e.Refused? || e.Completed?)
    ensures Sound(Log(g, e)) && Accounted(Log(g, e), id, 0, 0) && Track(Log(g, e).log, id) == Track(g.log, id)
  {
    LogKeepsSound(g, e);
    TrackLog(g, e, id);
  }

  lemma RefuseKeeps(g: Engine, action: Id, from: Queue, result: Return, id: Id)
    requires Sound(g) && Accounted(g, id, 0, 0)
    ensures var h := Refuse(g, action, from, result);
            && Sound(h) && Accounted(h, id, 0, 0) && h == g.(log := h.log) && Track(h.log, id) == Track(g.log, id)
  {
    var k := g;
    if result.ExecutionFinished? {
      RefusalKeeps(g, Completed(from, action, result), id);
      k := Log(g, Completed(from, action, result));
    }
    RefusalKeeps(k, Refused(from, action, result), id);
  }

  lemma ExecuteActionKeeps(g: Engine, action: Id, from: Queue, build: Return, id: Id)
    requires Sound(g) && g.cookie.Unused? && Accounted(g, id, 0, 0)
    ensures var h := ExecuteAction(g, action, from, build);
            Sound(h) && Accounted(h, id, 0, 0) && h.replies == g.replies && (h.cookie.Unused? || h.cookie.WriteReady?)
  {
    var result := Verdict(g, action, build);
    if result.Ok? {
      AcceptKeeps(g, action, from, id);
    } else {
      RefuseKeeps(g, action, from, result, id);
    }
  }

  lemma BuildInternalKeeps(g: Engine, internal: Id, id: Id)
    requires Sound(g) && g.cookie.Unused? && Accounted(g, id, 1, 0)
    ensures var h := BuildInternalCommand(g, internal); Sound(h) && Accounted(h, id, 1, 0) && h.replies == g.replies
  {
    if internal in g.commands && !g.commands[internal].isExecuting {
      LoadKeepsSound(g, internal, NO_COMMANDER);
    }
  }

  lemma TickKeeps(g: Engine, id: Id)
    requires Sound(g) && Accounted(g, id, 0, 0)
    ensures var h := Log(g, Tick); Sound(h) && Accounted(h, id, 1, 1)
  {
    TrackLog(g, Tick, id);
  }

  lemma SendWriteKeeps(g: Engine, sent: Return, id: Id)
    requires Sound(g) && Accounted(g, id, 1, 0) && !g.cookie.WriteSent?
    ensures var h := DoSendWrite(g, sent);
            Sound(h) && Accounted(h, id, 1, 0) && !h.cookie.WriteReady? && h.replies == g.replies
  {
    if g.cookie.WriteReady? && !sent.Ok? {
      WriteFailureKeeps(g, sent, id);
    } else {
      var h := DoSendWrite(g, sent);
      forall i | i in h.replies ensures ReplySound(h, i) { assert ReplySound(g, i); }
      forall i | i in h.commands ensures CommandSound(h, i) { assert CommandSound(g, i); }
    }
  }

  lemma WriteFailureSound(g: Engine, status: Return)
    requires Sound(g) && Loaded(g).Some?
    ensures Sound(SetExecuting(ReplyToCommand(g, status).(cookie := Unused), g.pending.value, false))
  {
    var p := g.pending.value;
    var h := SetExecuting(ReplyToCommand(g, status).(cookie := Unused), p, false);
    forall i | i in h.replies ensures ReplySound(h, i) { assert ReplySound(g, i); assert CommandSound(g, p); }
    forall i | i in h.commands ensures CommandSound(h, i) { assert CommandSound(g, i); }
  }

  /** A command whose write fails, at once or later, is answered and forgotten. */
  lemma WriteFailureKeeps(g: Engine, status: Return, id: Id)
    requires Sound(g) && Accounted(g, id, 1, 0) && Loaded(g).Some? && !status.Ok?
    ensures var h := SetExecuting(ReplyToCommand(g, status).(cookie := Unused), g.pending.value, false);
            Sound(h) && Accounted(h, id, 1, 0)
  {
    WriteFailureSound(g, status);
    var p := g.pending.value;
    var to := g.commands[p].sendReplyTo;
    if to != NO_COMMANDER {
      var e := if status.NoReplyExpected? then Finish(to, p, Ok) else Step(to, p, 1, status);
      assert ReplyToCommand(g, status) == Log(g, e) && Terminal(e, p);
      TrackLog(g, e, id);
      DroppedKeeps(g, Log(g, e), id);
    } else {
      DroppedKeeps(g, g, id);
    }
  }

  /** Only the command being written is dropped, and its account is closed if it had one. */
  lemma DroppedKeeps(g: Engine, k: Engine, id: Id)
    requires Sound(g) && Accounted(g, id, 1, 0) && Loaded(g).Some?
    requires k == g.(log := k.log)
    requires Track(k.log, id) == if id == g.pending.value then Idle else Track(g.log, id)
    ensures Accounted(SetExecuting(k.(cookie := Unused), g.pending.value, false), id, 1, 0)
  {
  }

  lemma GetWriteKeeps(g: Engine, success: Return, id: Id)
    requires Sound(g) && Accounted(g, id, 1, 0) && !g.cookie.WriteReady?
    ensures var h := DoGetWrite(g, success);
            Sound(h) && Accounted(h, id, 1, 0) && Loaded(h).None? && h.replies.Keys == g.replies.Keys
  {
    if g.cookie.WriteSent? {
      var p := g.pending.value;
      if success.Ok? && p in g.replies {
        EnableKeeps(g, id);
      } else {
        var status := if success.Ok? then NoReplyExpected else success;
        WriteFailureKeeps(g, status, id);
        assert DoGetWrite(g, success) == SetExecuting(ReplyToCommand(g, status).(cookie := Unused), p, false);
      }
    }
  }

  lemma EnableSound(g: Engine)
    requires Sound(g) && g.cookie.WriteSent? && g.pending.value in g.replies
    ensures Sound(EnableReply(g.(cookie := Unused), g.pending.value))
  {
    var p := g.pending.value;
    var h := EnableReply(g.(cookie := Unused), p);
    assert ReplySound(g, p) && CommandSound(g, p);
    forall i | i in h.replies ensures ReplySound(h, i) { assert ReplySound(g, i); }
    forall i | i in h.commands ensures CommandSound(h, i) { assert CommandSound(g, i); }
  }

  lemma EnableKeeps(g: Engine, id: Id)
    requires Sound(g) && Accounted(g, id, 1, 0) && g.cookie.WriteSent? && g.pending.value in g.replies
    ensures var h := ReplyToCommand(EnableReply(g.(cookie := Unused), g.pending.value), Ok);
            Sound(h) && Accounted(h, id, 1, 0)
  {
    var p := g.pending.value;
    var k := EnableReply(g.(cookie := Unused), p);
    EnableSound(g);
    assert Accounted(k, id, 1, 0);
    if k.commands[p].sendReplyTo != NO_COMMANDER {
      var e := Step(k.commands[p].sendReplyTo, p, 1, Ok);
      LogKeepsSound(k, e);
      TrackLog(k, e, id);
    }
  }

  /** The state once the awaited reply `replyId` has come or timed out, and the command is forgotten. */
  function Settled(g: Engine, replyId: Id): Engine
    requires replyId in g.replies && replyId in g.commands
  {
    g.(replies := g.replies[replyId := g.replies[replyId].(delayCycles := 0)],
       commands := g.commands[replyId := g.commands[replyId].(expectedReplies := 0, isExecuting := false)])
  }

  lemma SettledSound(g: Engine, replyId: Id)
    requires Sound(g) && replyId in g.replies && replyId in g.commands && Loaded(g) != Some(replyId)
    ensures Sound(Settled(g, replyId))
  {
    var h := Settled(g, replyId);
    forall i | i in h.replies ensures ReplySound(h, i) { assert ReplySound(g, i); }
    forall i | i in h.commands ensures CommandSound(h, i) { assert CommandSound(g, i); }
  }

  lemma ReplySettles(g: Engine, replyId: Id, status: Return)
    requires Sound(g) && replyId in g.replies && g.replies[replyId].delayCycles > 0
    ensures replyId in g.commands && g.commands[replyId].isExecuting
    ensures var to := g.commands[replyId].sendReplyTo;
            ReplyToReply(SetDelay(g, replyId, 0), replyId, status) ==
              Settled(if to == NO_COMMANDER then g else Log(g, Finish(to, replyId, status)), replyId)
  {
    assert ReplySound(g, replyId);
    var cleared := SetDelay(g, replyId, 0);
    var info := g.commands[replyId];
    var counted := info.(expectedReplies := 0);
    assert cleared.commands[replyId := counted][replyId := counted.(isExecuting := false)]
        == cleared.commands[replyId := info.(expectedReplies := 0, isExecuting := false)];
  }

  /** The reply that a command waits for, or its timeout, answers the command and forgets it. */
  lemma ReplyKeeps(g: Engine, replyId: Id, status: Return, id: Id, lag: nat)
    requires Sound(g) && replyId in g.replies && g.replies[replyId].delayCycles > 0
    requires Accounted(g, id, 1, lag)
    ensures var cleared := SetDelay(g, replyId, 0);
            var h := ReplyToReply(cleared, replyId, status);
            Sound(h) && Accounted(h, id, 1, lag) && h.cookie == g.cookie && h.pending == g.pending
                && h.replies == cleared.replies
  {
    assert ReplySound(g, replyId);
    ReplySettles(g, replyId, status);
    SettledSound(g, replyId);
    var to := g.commands[replyId].sendReplyTo;
    var e := Finish(to, replyId, status);
    if to != NO_COMMANDER {
      LogKeepsSound(g, e);
      SettledSound(Log(g, e), replyId);
      TrackLog(g, e, id);
    }
  }

  lemma HandleReplyKeeps(g: Engine, f: Found, id: Id)
    requires Sound(g) && Loaded(g).None? && Accounted(g, id, 1, 0)
    ensures var h := HandleReply(g, f);
            Sound(h) && Accounted(h, id, 1, 0) && Loaded(h).None? && h.replies.Keys == g.replies.Keys
  {
    if f.id in g.replies && g.replies[f.id].delayCycles != 0 {
      assert ReplySound(g, f.id);
      ReplyKeeps(g, f.id, f.result, id, 0);
    }
  }

  lemma {:induction false} HandleRepliesKeep(g: Engine, found: seq<Found>, id: Id)
    requires Sound(g) && Loaded(g).None? && Accounted(g, id, 1, 0)
    ensures var h := HandleReplies(g, found);
            Sound(h) && Accounted(h, id, 1, 0) && Loaded(h).None? && h.replies.Keys == g.replies.Keys
    decreases |found|
  {
    if found != [] {
      HandleReplyKeeps(g, found[0], id);
      HandleRepliesKeep(HandleReply(g, found[0]), found[1..], id);
    }
  }

  lemma CookieKeeps(g: Engine, cookie: Cookie, ignored: nat, id: Id)
    requires Sound(g) && Loaded(g).None? && (cookie.Unused? || cookie.ReadSent?) && Accounted(g, id, 1, 0)
    ensures var h := g.(cookie := cookie, ignoreMissedReplies := ignored); Sound(h) && Accounted(h, id, 1, 0)
  {
    var h := g.(cookie := cookie, ignoreMissedReplies := ignored);
    forall i | i in h.replies ensures ReplySound(h, i) { assert ReplySound(g, i); }
    forall i | i in h.commands ensures CommandSound(h, i) { assert CommandSound(g, i); }
  }

  lemma ReadKeeps(g: Engine, requested: Return, data: Option<seq<Found>>, id: Id)
    requires Sound(g) && Loaded(g).None? && Accounted(g, id, 1, 0)
    ensures var h := DoGetRead(DoSendRead(g, requested), data).(cookie := Unused);
            Sound(h) && Accounted(h, id, 1, 0) && h.cookie.Unused? && h.replies.Keys == g.replies.Keys
  {
    var k := DoSendRead(g, requested);
    CookieKeeps(g, k.cookie, k.ignoreMissedReplies, id);
    CookieKeeps(k, Unused, k.ignoreMissedReplies, id);
    var u := k.(cookie := Unused);
    if k.cookie.ReadSent? && data.Some? {
      HandleRepliesKeep(u, data.value, id);
      var v := HandleReplies(u, data.value);
      CookieKeeps(v, Unused, v.ignoreMissedReplies, id);
    } else if k.cookie.ReadSent? {
      CookieKeeps(u, Unused, u.ignoreMissedReplies + 1, id);
    }
  }

  // --- Counting down -----------------------------------------------------------------------------------------

  lemma CountedKeeps(g: Engine, replyId: Id, id: Id, lag: nat)
    requires Sound(g) && replyId in g.replies && g.replies[replyId].delayCycles > 1
    requires Accounted(g, id, 1, lag) && (replyId == id ==> lag == 1)
    ensures var h := SetDelay(g, replyId, g.replies[replyId].delayCycles - 1);
            Sound(h) && Accounted(h, id, 1, if replyId == id then 0 else lag)
  {
    var h := SetDelay(g, replyId, g.replies[replyId].delayCycles - 1);
    assert ReplySound(g, replyId);
    forall i | i in h.replies ensures ReplySound(h, i) { assert ReplySound(g, i); }
    forall i | i in h.commands ensures CommandSound(h, i) { assert CommandSound(g, i); }
  }

  lemma IgnoredKeeps(g: Engine, ignored: nat, id: Id, lag: nat)
    requires Sound(g) && Accounted(g, id, 1, lag)
    ensures var h := g.(ignoreMissedReplies := ignored); Sound(h) && Accounted(h, id, 1, lag)
  {
    var h := g.(ignoreMissedReplies := ignored);
    forall i | i in h.replies ensures ReplySound(h, i) { assert ReplySound(g, i); }
    forall i | i in h.commands ensures CommandSound(h, i) { assert CommandSound(g, i); }
  }

  /** Counting down its own entry takes the lag of a command away, and no other entry matters to it. */
  lemma DecrementKeeps(g: Engine, replyId: Id, id: Id, lag: nat)
    requires Sound(g) && Accounted(g, id, 1, lag) && (replyId == id ==> lag == 1)
    ensures var h := Decrement(g, replyId);
            && Sound(h) && h.cookie == g.cookie && h.pending == g.pending
                && Accounted(h, id, 1, if replyId == id then 0 else lag)
            && h.replies.Keys == g.replies.Keys
  {
    if replyId in g.replies && g.replies[replyId].delayCycles > 1 {
      CountedKeeps(g, replyId, id, lag);
    } else if replyId in g.replies && g.replies[replyId].delayCycles == 1 {
      TimeoutKeeps(g, replyId, id, lag);
    }
  }

  lemma TimeoutKeeps(g: Engine, replyId: Id, id: Id, lag: nat)
    requires Sound(g) && replyId in g.replies && g.replies[replyId].delayCycles == 1
    requires Accounted(g, id, 1, lag)
    ensures var h := Decrement(g, replyId);
            && Sound(h) && h.cookie == g.cookie && h.pending == g.pending
            && Accounted(h, id, 1, if replyId == id then 0 else lag) && h.replies.Keys == g.replies.Keys
  {
    assert ReplySound(g, replyId);
    ReplyKeeps(g, replyId, Timeout, id, lag);
    var k := ReplyToReply(SetDelay(g, replyId, 0), replyId, Timeout);
    assert Accounted(k, id, 1, if replyId == id then 0 else lag);
    IgnoredKeeps(k, if k.ignoreMissedReplies > 0 then k.ignoreMissedReplies - 1 else 0, id,
                 if replyId == id then 0 else lag);
  }

  lemma {:induction false} DecrementAllKeeps(g: Engine, order: seq<Id>, id: Id)
    requires Sound(g) && Distinct(order) && Accounted(g, id, 1, if id in order then 1 else 0)
    ensures var h := DecrementAll(g, order);
            && Sound(h) && h.cookie == g.cookie && h.pending == g.pending && Accounted(h, id, 1, 0)
            && h.replies.Keys == g.replies.Keys
    decreases |order|
  {
    if order != [] {
      assert order == [order[0]] + order[1..];
      DecrementKeeps(g, order[0], id, if id in order then 1 else 0);
      DecrementAllKeeps(Decrement(g, order[0]), order[1..], id);
    }
  }

  /** The whole SEND_WRITE count: one tick for every open command, one cycle less for every awaited reply. */
  lemma CountdownKeeps(g: Engine, order: seq<Id>, id: Id)
    requires Sound(g) && Distinct(order) && Accounted(g, id, 0, 0) && (forall i :: i in g.replies ==> i in order)
    ensures var h := DecrementAll(Log(g, Tick), order);
            Sound(h) && h.cookie == g.cookie && h.pending == g.pending && Accounted(h, id, 1, 0)
                && h.replies.Keys == g.replies.Keys
  {
    TickKeeps(g, id);
    DecrementAllKeeps(Log(g, Tick), order, id);
  }
}
