/** What the ground builds into a frame is what the receiver on board takes it for. */
module Uplink {
  import opened Wrappers
  import opened Checksum
  import opened Farm1
  import opened VirtualChannelReception
  import F = TcTransferFrame
  import M = MapPacketExtraction
  import S = MapStream

  // --- The sender's side: commands and segments as bytes ------------------------------------------------

  /** The content of a BC frame for each command of section 4.1.3.3 of CCSDS 232.0-B. */
  function CommandBytes(e: Event): seq<byte>
    requires e.BcUnlock? || e.BcSetVr?
  {
    if e.BcUnlock? then [0] else [0x82, 0, e.vr]
  }

  /** The sequence flags of section 4.1.3.2.2 of CCSDS 232.0-B. */
  function FlagNumber(flag: M.Flag): byte {
    match flag
    case First => 1
    case Continuing => 0
    case Last => 2
    case NoSegmentation => 3
  }

  function SegmentHeader(flag: M.Flag, mapId: byte): byte
    requires mapId < 0x40
  {
    FlagNumber(flag) * 0x40 + mapId
  }

  // --- A built frame, as its getters read it ---------------------------------------------------------------

  ghost predicate ReadsAs(f: seq<byte>, h: F.Header, segmentHeader: byte, data: seq<byte>)
    requires |data| <= F.MaxPayload(h)
  {
    && |f| == |data| + (if h.bypass && h.controlCommand then 7 else 8)
    && F.BypassFlagSet(f) == h.bypass && F.ControlCommandFlagSet(f) == h.controlCommand
    && F.GetSequenceNumber(f) == h.sequenceNumber && F.GetFullSize(f) == |f|
    && (h.bypass && h.controlCommand ==> f[5..5 + |data|] == data)
    && (!(h.bypass && h.controlCommand) ==>
          && F.GetSequenceFlags(f) == segmentHeader / 0x40 && F.GetMapId(f) == segmentHeader % 0x40
          && f[6..6 + |data|] == data)
  }

  lemma BuiltReads(h: F.Header, segmentHeader: byte, data: seq<byte>, f: seq<byte>)
    requires |data| <= F.MaxPayload(h) && f == F.FrameOf(h, F.FieldOf(h, segmentHeader, data))
    ensures ReadsAs(f, h, segmentHeader, data) && M.IsDelimited(f)
  {
    F.BuiltFrameRoundTrip(h, segmentHeader, data, f);
  }

  lemma EventRead(f: seq<byte>, h: F.Header, segmentHeader: byte, data: seq<byte>)
    requires |data| <= F.MaxPayload(h) && ReadsAs(f, h, segmentHeader, data) && M.IsDelimited(f)
    ensures !h.bypass && !h.controlCommand ==> EventOf(f) == Ad(h.sequenceNumber)
    ensures h.bypass && !h.controlCommand ==> EventOf(f) == Bd
    ensures !h.bypass && h.controlCommand ==> EventOf(f) == IllegalFlags
    ensures h.bypass && h.controlCommand ==>
              && (EventOf(f).BcUnlock? || EventOf(f).BcSetVr? || EventOf(f).BcIllegal?)
              && forall e: Event :: e.BcUnlock? || e.BcSetVr? ==> (EventOf(f) == e <==> data == CommandBytes(e))
  {
    if h.bypass && h.controlCommand {
      assert F.GetFullSize(f) - 2 == 5 + |data|;
      assert BcField(f) == data;
      forall e: Event | e.BcUnlock? || e.BcSetVr? ensures BcEvent(data) == e <==> data == CommandBytes(e) {
        if BcEvent(data) == e { assert data == CommandBytes(e); }
      }
    }
  }

  /**
   Every built frame is taken for what it was built as: sequence-controlled data with its number, bypass data,
   and of the control commands exactly the unlock and Set V(R) that its content spells.
   */
  lemma BuiltFrameUnderstood(h: F.Header, segmentHeader: byte, data: seq<byte>, f: seq<byte>)
    requires |data| <= F.MaxPayload(h) && f == F.FrameOf(h, F.FieldOf(h, segmentHeader, data))
    ensures M.IsDelimited(f)
    ensures !h.bypass && !h.controlCommand ==> EventOf(f) == Ad(h.sequenceNumber)
    ensures h.bypass && !h.controlCommand ==> EventOf(f) == Bd
    ensures !h.bypass && h.controlCommand ==> EventOf(f) == IllegalFlags
    ensures h.bypass && h.controlCommand ==>
              && (EventOf(f).BcUnlock? || EventOf(f).BcSetVr? || EventOf(f).BcIllegal?)
              && forall e: Event :: e.BcUnlock? || e.BcSetVr? ==> (EventOf(f) == e <==> data == CommandBytes(e))
  {
    BuiltReads(h, segmentHeader, data, f);
    EventRead(f, h, segmentHeader, data);
  }

  lemma HeaderSplits(flag: M.Flag, mapId: byte)
    requires mapId < 0x40
    ensures SegmentHeader(flag, mapId) / 0x40 == FlagNumber(flag) && SegmentHeader(flag, mapId) % 0x40 == mapId
    ensures M.FlagOf(FlagNumber(flag)) == flag
  {
  }

  /** Every segment put into a frame is the one that comes out, on its own MAP channel. */
  lemma BuiltSegmentUnderstood(h: F.Header, flag: M.Flag, mapId: byte, data: seq<byte>, f: seq<byte>)
    requires !(h.bypass && h.controlCommand) && mapId < 0x40 && |data| <= F.MaxPayload(h)
    requires f == F.FrameOf(h, F.FieldOf(h, SegmentHeader(flag, mapId), data))
    ensures M.IsDelimited(f) && F.GetMapId(f) == mapId && M.SegmentOf(f) == M.Segment(flag, Some(data))
  {
    BuiltReads(h, SegmentHeader(flag, mapId), data, f);
    HeaderSplits(flag, mapId);
    SegmentRead(h, flag, mapId, data, f);
  }

  lemma SegmentRead(h: F.Header, flag: M.Flag, mapId: byte, data: seq<byte>, f: seq<byte>)
    requires !(h.bypass && h.controlCommand) && mapId < 0x40 && |data| <= F.MaxPayload(h) && M.IsDelimited(f)
    requires ReadsAs(f, h, SegmentHeader(flag, mapId), data)
    requires SegmentHeader(flag, mapId) / 0x40 == FlagNumber(flag) && SegmentHeader(flag, mapId) % 0x40 == mapId
    requires M.FlagOf(FlagNumber(flag)) == flag
    ensures F.GetMapId(f) == mapId && M.SegmentOf(f) == M.Segment(flag, Some(data))
  {
    assert F.GetFullSize(f) - 2 == 6 + |data|;
  }

  // --- Where an accepted frame goes ---------------------------------------------------------------------------

  /** An accepted frame changes the MAP channel it is addressed to and no other; it is lost iff there is none. */
  lemma GoesWhereAddressed(c: Channel, w: nat, f: seq<byte>, mapId: byte)
    requires M.IsDelimited(f) && mapId in c.maps
    ensures var (d, result) := Receive(c, w, f);
            && d.maps.Keys == c.maps.Keys
            && d.maps[mapId] == (if Step(c.farm, w, EventOf(f)).1.Accepted? && F.GetMapId(f) == mapId
                                 then S.Run(c.maps[mapId], [M.SegmentOf(f)]) else c.maps[mapId])
            && (result.VcNotFound? <==> Step(c.farm, w, EventOf(f)).1.Accepted? && F.GetMapId(f) !in c.maps)
            && (result.CommandDone? <==> EventOf(f).BcUnlock? || EventOf(f).BcSetVr?)
  {
    assert [M.SegmentOf(f)][1..] == [];
  }

  /** The next frame, built by the ground around blocked packets: they are handed on, but for a short last one. */
  lemma NextFrameDelivers(c: Channel, w: nat, h: F.Header, mapId: byte, packets: seq<seq<byte>>, f: seq<byte>)
    requires !h.bypass && !h.controlCommand && mapId < 0x40 && mapId in c.maps
    requires S.Blocking(packets).Valid() && |S.Concat(packets)| <= F.MaxPayload(h)
    requires c.farm.state.Open? && h.sequenceNumber == c.farm.vR
    requires f == F.FrameOf(h, F.FieldOf(h, SegmentHeader(M.NoSegmentation, mapId), S.Concat(packets)))
    ensures M.IsDelimited(f)
    ensures Receive(c, w, f).0.maps[mapId].sent == c.maps[mapId].sent + S.Delivered(packets).0
  {
    BuiltFrameUnderstood(h, SegmentHeader(M.NoSegmentation, mapId), S.Concat(packets), f);
    BuiltSegmentUnderstood(h, M.NoSegmentation, mapId, S.Concat(packets), f);
    S.BlockedPackets(packets);
  }
}
