/** One virtual channel: the FARM-1 machine in front of the MAP channels. */
module VirtualChannelReception {
  import opened Checksum
  import opened Farm1
  import F = TcTransferFrame
  import M = MapPacketExtraction
  import C = Clcw

  /** What the channel answers: a FARM outcome, that a command was done, or what became of an accepted frame. */
  datatype Result = Farm(outcome: Outcome) | CommandDone | VcNotFound | Extracted(status: M.Status)

  // --- Reading a frame ------------------------------------------------------------------------------------

  /** The BC command held by a data field: one zero byte unlocks, 0x82 0x00 sets V(R). */
  function BcEvent(field: seq<byte>): Event {
    if |field| == 1 && field[0] == 0 then BcUnlock
    else if |field| == 3 && field[0] == 0x82 && field[1] == 0 then BcSetVr(field[2])
    else BcIllegal
  }

  /** Data field of a BC frame; too short a frame states a length that wraps and holds no command. */
  function BcField(frame: seq<byte>): seq<byte>
    requires M.IsDelimited(frame)
  {
    if F.GetFrameLength(frame) >= 6 then frame[5..F.GetFullSize(frame) - 2] else []
  }

  function EventOf(frame: seq<byte>): Event
    requires M.IsDelimited(frame)
  {
    if !F.BypassFlagSet(frame) then
      if F.ControlCommandFlagSet(frame) then IllegalFlags else Ad(F.GetSequenceNumber(frame))
    else
      if F.ControlCommandFlagSet(frame) then BcEvent(BcField(frame)) else Bd
  }

  // --- Specification: the FARM, and what each MAP channel holds ---------------------------------------------

  datatype Channel = Channel(farm: Farm1.Farm, maps: map<byte, M.Assembly>)

  function Demultiplex(maps: map<byte, M.Assembly>, frame: seq<byte>): (map<byte, M.Assembly>, Result)
    requires M.IsDelimited(frame)
  {
    var id := F.GetMapId(frame);
    if id !in maps then (maps, VcNotFound)
    else var (a, status) := M.Extract(maps[id], M.SegmentOf(frame)); (maps[id := a], Extracted(status))
  }

  function Receive(c: Channel, w: nat, frame: seq<byte>): (Channel, Result)
    requires M.IsDelimited(frame)
  {
    var (farm, outcome) := Step(c.farm, w, EventOf(frame));
    if outcome.Accepted? then
      var (maps, result) := Demultiplex(c.maps, frame); (Channel(farm, maps), result)
    else
      (Channel(farm, c.maps), if outcome.BcIsUnlock? || outcome.BcIsSetVr? then CommandDone else Result.Farm(outcome))
  }

  // --- The code -----------------------------------------------------------------------------------------------

  /** The difference of two sequence numbers as a signed 8-bit value. */
  function SignedDifference(ns: byte, vR: byte): int {
    ((ns as int) - (vR as int) + 0x80) % 0x100 - 0x80
  }

  /** For half windows up to 127 the signed difference decides as the windows on the circle do. */
  lemma DifferenceDecides(ns: byte, vR: byte, w: nat)
    requires w <= 127
    ensures var d := SignedDifference(ns, vR);
            && (d == 0 <==> ns == vR)
            && (0 < d < w <==> InPositiveWindow(ns, vR, w))
            && (-(w as int) <= d < 0 <==> InNegativeWindow(ns, vR, w))
            && (-(w as int) <= d < w <==> Ahead(ns, vR) < w || InNegativeWindow(ns, vR, w))
  {
    var n := (ns as int) - (vR as int);
    if n >= 0 {
      assert Ahead(ns, vR) == n;
    } else {
      assert Ahead(ns, vR) == n + 0x100;
    }
  }

  /** The subtraction of the code, with what it decides. */
  method Subtract(ns: byte, vR: byte, ghost w: nat) returns (diff: int)
    requires w <= 127
    ensures diff == 0 <==> ns == vR
    ensures 0 < diff < w <==> InPositiveWindow(ns, vR, w)
    ensures -(w as int) <= diff < 0 <==> InNegativeWindow(ns, vR, w)
    ensures -(w as int) <= diff < w <==> Ahead(ns, vR) < w || InNegativeWindow(ns, vR, w)
  {
    diff := SignedDifference(ns, vR);
    DifferenceDecides(ns, vR, w);
  }

  class VirtualChannelReception {
    const channelId: byte
    const positiveWindow: nat
    const negativeWindow: nat
    var currentState: State
    const internalClcw: C.Clcw
    var vR: byte
    var farmBCounter: byte
    var mapChannels: map<byte, M.MapPacketExtraction>

    /** The MAP channels and their buffers. */
    ghost function MapRepr(): set<object>
      reads this`mapChannels
    {
      (set id | id in mapChannels :: mapChannels[id]) + (set id | id in mapChannels :: mapChannels[id].packetBuffer)
    }

    ghost function Repr(): set<object>
      reads this`mapChannels
    {
      {this, internalClcw} + MapRepr()
    }

    ghost predicate MapsValid()
      reads this`mapChannels, MapRepr()
    {
      && (forall id :: id in mapChannels ==> mapChannels[id].Valid())
      && (forall i, j :: i in mapChannels && j in mapChannels && i != j ==>
            mapChannels[i] != mapChannels[j] && mapChannels[i].packetBuffer != mapChannels[j].packetBuffer)
    }

    ghost function MapViews(): map<byte, M.Assembly>
      reads this`mapChannels, MapRepr()
      requires MapsValid()
    {
      map id | id in mapChannels :: mapChannels[id].View()
    }

    ghost predicate Valid()
      reads this, Repr()
    {
      && positiveWindow == negativeWindow <= 127
      && internalClcw.content.Read().vR == vR && internalClcw.content.Read().farmB == farmBCounter % 4
      && MapsValid()
    }

    ghost function FarmView(): Farm1.Farm
      reads this, internalClcw
    {
      var r := internalClcw.content.Read();
      Farm1.Farm(currentState, vR, farmBCounter, r.lockout, r.wait, r.retransmit)
    }

    ghost function View(): Channel
      reads this, Repr()
      requires Valid()
    {
      Channel(FarmView(), MapViews())
    }

    constructor (setChannelId: byte, setSlidingWindowWidth: byte)
      ensures Valid() && View() == Channel(START, map[]) && fresh(internalClcw)
      ensures positiveWindow == setSlidingWindowWidth / 2
    {
      channelId := setChannelId;
      positiveWindow, negativeWindow := setSlidingWindowWidth / 2, setSlidingWindowWidth / 2;
      currentState, vR, farmBCounter, mapChannels := Open, 0, 0, map[];
      var clcw := new C.Clcw();
      internalClcw := clcw;
      new;
      internalClcw.SetVirtualChannel(channelId);
    }

    method HandleAdFrameOpen(ns: byte) returns (r: Outcome)
      requires positiveWindow == negativeWindow <= 127 && currentState == Open
      modifies this`currentState, this`vR, internalClcw
      ensures (FarmView(), r) == Step(old(FarmView()), positiveWindow, Ad(ns))
    {
      var diff := Subtract(ns, vR, positiveWindow);
      if diff == 0 {
        vR := (vR + 1) % 0x100;
        internalClcw.SetRetransmitFlag(false);
        r := Accepted;
      } else if diff < positiveWindow && diff > 0 {
        internalClcw.SetRetransmitFlag(true);
        r := NsPositiveW;
      } else if diff < 0 && diff >= -(negativeWindow as int) {
        r := NsNegativeW;
      } else {
        internalClcw.SetLockoutFlag(true);
        currentState := Lockout;
        r := NsLockout;
      }
    }

    method HandleAdFrameWait(ns: byte) returns (r: Outcome)
      requires positiveWindow == negativeWindow <= 127 && currentState == Wait
      modifies this`currentState, internalClcw
      ensures (FarmView(), r) == Step(old(FarmView()), positiveWindow, Ad(ns))
    {
      var diff := Subtract(ns, vR, positiveWindow);
      if diff < -(negativeWindow as int) || diff >= positiveWindow {
        internalClcw.SetLockoutFlag(true);
        currentState := Lockout;
      }
      r := FarmInWait;
    }

    method HandleAdFrame(frame: seq<byte>) returns (r: Outcome)
      requires Valid() && M.IsDelimited(frame)
      modifies this`currentState, this`vR, internalClcw
      ensures (FarmView(), r) == Step(old(FarmView()), positiveWindow, Ad(F.GetSequenceNumber(frame)))
    {
      match currentState {
        case Open => r := HandleAdFrameOpen(F.GetSequenceNumber(frame));
        case Wait => r := HandleAdFrameWait(F.GetSequenceNumber(frame));
        case Lockout => r := FarmInLockout;
      }
    }

    method HandleBcFrame(frame: seq<byte>) returns (r: Outcome)
      requires Valid() && M.IsDelimited(frame)
      modifies this`currentState, this`vR, this`farmBCounter, internalClcw
      ensures (FarmView(), r) == Step(old(FarmView()), positiveWindow, BcEvent(BcField(frame)))
    {
      var size := F.GetFullDataLength(frame);
      if size == 1 && frame[5] == 0 {
        farmBCounter := (farmBCounter + 1) % 0x100;
        internalClcw.SetRetransmitFlag(false);
        match currentState {
          case Open =>
          case Wait =>
            internalClcw.SetWaitFlag(false);
            currentState := Open;
          case Lockout =>
            internalClcw.SetLockoutFlag(false);
            internalClcw.SetWaitFlag(false);
            currentState := Open;
        }
        r := BcIsUnlock;
      } else if size == 3 && frame[5] == 0x82 && frame[6] == 0 {
        farmBCounter := (farmBCounter + 1) % 0x100;
        match currentState {
          case Open =>
            internalClcw.SetRetransmitFlag(false);
            vR := frame[7];
          case Wait =>
            internalClcw.SetWaitFlag(false);
            internalClcw.SetRetransmitFlag(false);
            vR := frame[7];
            currentState := Open;
          case Lockout =>
        }
        r := BcIsSetVr;
      } else {
        r := BcIllegalCommand;
      }
    }

    method DoFarm(frame: seq<byte>) returns (r: Outcome)
      requires Valid() && M.IsDelimited(frame)
      modifies this`currentState, this`vR, this`farmBCounter, internalClcw
      ensures (FarmView(), r) == Step(old(FarmView()), positiveWindow, EventOf(frame))
    {
      var typeValue := (if F.BypassFlagSet(frame) then 2 else 0) + (if F.ControlCommandFlagSet(frame) then 1 else 0);
      if typeValue == 0 {
        r := HandleAdFrame(frame);
      } else if typeValue == 2 {
        farmBCounter := (farmBCounter + 1) % 0x100;
        r := Accepted;
      } else if typeValue == 3 {
        r := HandleBcFrame(frame);
      } else {
        r := IllegalFlagCombination;
      }
    }

    /** Runs the FARM, publishes the control word and passes an accepted frame on to its MAP channel. */
    method FrameAcceptanceAndReportingMechanism(frame: seq<byte>, clcw: C.Clcw) returns (r: Result)
      requires Valid() && M.IsDelimited(frame) && clcw !in Repr()
      modifies Repr(), clcw
      ensures Valid() && mapChannels == old(mapChannels)
      ensures (View(), r) == Receive(old(View()), positiveWindow, frame)
      ensures clcw.content == internalClcw.content && clcw.content.Read() == FarmView().Published()
    {
      var outcome := Accept(frame, clcw);
      if outcome.Accepted? {
        r := MapDemultiplexing(frame);
      } else if outcome.BcIsSetVr? || outcome.BcIsUnlock? {
        r := CommandDone;
      } else {
        r := Result.Farm(outcome);
      }
    }

    method Accept(frame: seq<byte>, clcw: C.Clcw) returns (r: Outcome)
      requires Valid() && M.IsDelimited(frame) && clcw != internalClcw
      modifies this`currentState, this`vR, this`farmBCounter, internalClcw, clcw
      ensures Valid() && MapViews() == old(MapViews())
      ensures (FarmView(), r) == Step(old(FarmView()), positiveWindow, EventOf(frame))
      ensures clcw.content == internalClcw.content && clcw.content.Read() == FarmView().Published()
    {
      r := DoFarm(frame);
      Publish(clcw);
    }

    /** Completes the control word and copies it to the one sent to the ground. */
    method Publish(clcw: C.Clcw)
      requires clcw != internalClcw
      modifies internalClcw, clcw
      ensures FarmView() == old(FarmView())
      ensures clcw.content == internalClcw.content && clcw.content.Read() == FarmView().Published()
    {
      internalClcw.SetReceiverFrameSequenceNumber(vR);
      internalClcw.SetFarmBCount(farmBCounter);
      clcw.SetWhole(internalClcw.content);
    }

    method MapDemultiplexing(frame: seq<byte>) returns (r: Result)
      requires MapsValid() && M.IsDelimited(frame)
      modifies MapRepr()
      ensures MapsValid()
      ensures (MapViews(), r) == Demultiplex(old(MapViews()), frame)
    {
      var mapId := F.GetMapId(frame);
      if mapId !in mapChannels {
        r := VcNotFound;
      } else {
        var channel := mapChannels[mapId];
        ghost var before := MapViews();
        var status := channel.ExtractPackets(frame);
        r := Extracted(status);
        forall id | id in mapChannels && id != mapId
          ensures mapChannels[id].Valid() && mapChannels[id].View() == before[id]
        {
        }
        assert MapViews() == before[mapId := channel.View()];
      }
    }

    method AddMapChannel(mapId: byte, channel: M.MapPacketExtraction) returns (inserted: bool)
      requires Valid() && channel.Valid() && channel !in Repr() && channel.packetBuffer !in Repr()
      modifies this`mapChannels
      ensures Valid() && inserted == (mapId !in old(mapChannels))
      ensures View() == if inserted then old(View()).(maps := old(View().maps)[mapId := channel.View()])
                        else old(View())
    {
      inserted := mapId !in mapChannels;
      if inserted {
        mapChannels := mapChannels[mapId := channel];
      }
    }

    method SetToWaitState()
      requires Valid()
      modifies this`currentState, internalClcw
      ensures Valid() && FarmView() == EnterWait(old(FarmView())) && View().maps == old(View().maps)
    {
      internalClcw.SetWaitFlag(true);
      currentState := Wait;
    }
  }
}
