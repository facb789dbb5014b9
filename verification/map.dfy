/** Reassembly of segmented packets and splitting of blocked ones on one MAP channel. */
module MapPacketExtraction {
  import opened Wrappers
  import opened Checksum
  import F = TcTransferFrame

  const MAX_PACKET_SIZE: nat := 4096
  /** Size of a space packet's header and its own checksum. */
  const MINIMUM_SIZE: nat := 8

  datatype Flag = Continuing | First | Last | NoSegmentation

  datatype Status = Ok | ContentTooLarge | IllegalSegmentationFlag | TooShortBlockedPacket | DataCorrupted
                  | ResidualData

  /** The two sequence flags and the payload of a frame; no payload when the stated length wraps below zero. */
  datatype Segment = Segment(flag: Flag, content: Option<seq<byte>>)

  function FlagOf(flags: byte): Flag {
    if flags == 0 then Continuing else if flags == 1 then First else if flags == 2 then Last else NoSegmentation
  }

  ghost predicate IsDelimited(frame: seq<byte>) {
    |frame| > F.HEADER_SIZE && |frame| >= F.GetFullSize(frame)
  }

  function SegmentOf(frame: seq<byte>): Segment
    requires IsDelimited(frame)
  {
    Segment(FlagOf(F.GetSequenceFlags(frame)),
            if F.GetFrameLength(frame) >= 7 then Some(frame[6..F.GetFullSize(frame) - 2]) else None)
  }

  // --- Specification --------------------------------------------------------------------------------

  /** What one channel holds: the flag seen last, the bytes collected and the packets handed on. */
  datatype Assembly = Assembly(last: Flag, pending: seq<byte>, sent: seq<seq<byte>>)

  const START := Assembly(NoSegmentation, [], [])

  function PacketSize(data: seq<byte>): nat
    requires |data| >= 6
  {
    (data[4] as int) * 0x100 + data[5] as int + 7
  }

  /** The packets taken off the front of a blocked payload, and the bytes left when no further one was looked for. */
  function Blocked(data: seq<byte>): (r: (seq<seq<byte>>, Option<seq<byte>>)) {
    if |data| <= MINIMUM_SIZE then ([], Some(data))
    else if PacketSize(data) > |data| then ([], None)
    else var (packets, left) := Blocked(data[PacketSize(data)..]); ([data[..PacketSize(data)]] + packets, left)
  }

  ghost function Joined(done: seq<seq<byte>>, data: seq<byte>): (seq<seq<byte>>, Option<seq<byte>>) {
    (done + Blocked(data).0, Blocked(data).1)
  }

  lemma JoinedStep(done: seq<seq<byte>>, data: seq<byte>)
    requires |data| > MINIMUM_SIZE && PacketSize(data) <= |data|
    ensures Joined(done + [data[..PacketSize(data)]], data[PacketSize(data)..]) == Joined(done, data)
  {
    var packet, rest := data[..PacketSize(data)], Blocked(data[PacketSize(data)..]);
    assert done + [packet] + rest.0 == done + ([packet] + rest.0);
  }

  function BlockedStatus(data: seq<byte>): Status {
    var (packets, left) := Blocked(data);
    if left.None? then DataCorrupted
    else if left.value != [] then ResidualData
    else if packets == [] then TooShortBlockedPacket
    else Ok
  }

  function Fits(pending: seq<byte>, content: Option<seq<byte>>): bool {
    content.Some? && |pending| + |content.value| <= MAX_PACKET_SIZE
  }

  predicate Expected(last: Flag, flag: Flag) {
    match flag
    case NoSegmentation => true
    case First => true
    case _ => last.First? || last.Continuing?
  }

  function Extract(a: Assembly, s: Segment): (Assembly, Status) {
    var b := a.(last := s.flag);
    if s.flag.NoSegmentation? then
      if !Fits([], s.content) then (b, ContentTooLarge)
      else (b.(sent := a.sent + Blocked(s.content.value).0), BlockedStatus(s.content.value))
    else if !Expected(a.last, s.flag) then (b.(pending := []), IllegalSegmentationFlag)
    else
      var before := if s.flag.First? then [] else a.pending;
      if !Fits(before, s.content) then (b.(pending := []), ContentTooLarge)
      else if s.flag.Last? then (b.(pending := [], sent := a.sent + [before + s.content.value]), Ok)
      else (b.(pending := before + s.content.value), Ok)
  }

  // --- The code ---------------------------------------------------------------------------------------

  class MapPacketExtraction {
    var lastSegmentationFlag: Flag
    var packetLength: nat
    var bufferPosition: nat
    const packetBuffer: array<byte>
    /** The packets passed to the distributor, in order. */
    var sent: seq<seq<byte>>

    /** The write position is the length of the packet so far, whatever arrives. */
    ghost predicate Valid()
      reads this
    {
      packetBuffer.Length == MAX_PACKET_SIZE && bufferPosition == packetLength <= MAX_PACKET_SIZE
    }

    ghost function View(): Assembly
      reads this, packetBuffer
      requires Valid()
    {
      Assembly(lastSegmentationFlag, packetBuffer[..packetLength], sent)
    }

    constructor ()
      ensures Valid() && fresh(packetBuffer) && View() == START
    {
      lastSegmentationFlag, packetLength, bufferPosition, sent := NoSegmentation, 0, 0, [];
      packetBuffer := new byte[MAX_PACKET_SIZE](_ => 0);
      new;
      assert packetBuffer[..0] == [];
    }

    method ExtractPackets(frame: seq<byte>) returns (status: Status)
      requires Valid() && IsDelimited(frame)
      modifies this, packetBuffer
      ensures Valid()
      ensures (View(), status) == Extract(old(View()), SegmentOf(frame))
    {
      var flag := FlagOf(F.GetSequenceFlags(frame));
      var length := F.GetDataLength(frame);
      if flag.NoSegmentation? {
        status := UnpackBlockingPackets(frame);
      } else if flag.First? {
        packetLength := length;
        if packetLength <= MAX_PACKET_SIZE {
          bufferPosition := 0;
          CopySegment(frame[6..6 + length]);
          status := Ok;
        } else {
          ClearBuffers();
          status := ContentTooLarge;
        }
      } else if lastSegmentationFlag.First? || lastSegmentationFlag.Continuing? {
        packetLength := packetLength + length;
        if packetLength <= MAX_PACKET_SIZE {
          CopySegment(frame[6..6 + length]);
          if flag.Last? {
            SendCompletePacket(packetBuffer[..packetLength]);
            ClearBuffers();
          }
          status := Ok;
        } else {
          ClearBuffers();
          status := ContentTooLarge;
        }
      } else {
        ClearBuffers();
        status := IllegalSegmentationFlag;
      }
      lastSegmentationFlag := flag;
    }

    /** Copies a segment to the write position and moves it to the end of the packet. */
    method CopySegment(data: seq<byte>)
      requires packetBuffer.Length == MAX_PACKET_SIZE
      requires bufferPosition + |data| == packetLength <= MAX_PACKET_SIZE
      modifies this`bufferPosition, packetBuffer
      ensures Valid() && packetBuffer[..packetLength] == old(packetBuffer[..bufferPosition]) + data
    {
      forall i | 0 <= i < |data| { packetBuffer[bufferPosition + i] := data[i]; }
      bufferPosition := packetLength;
    }

    method UnpackBlockingPackets(frame: seq<byte>) returns (status: Status)
      requires Valid() && IsDelimited(frame) && SegmentOf(frame).flag.NoSegmentation?
      modifies this`sent
      ensures View() == Extract(old(View()), SegmentOf(frame)).0.(last := old(lastSegmentationFlag))
      ensures status == Extract(old(View()), SegmentOf(frame)).1
    {
      status := TooShortBlockedPacket;
      var totalLength := F.GetDataLength(frame);
      if totalLength > MAX_PACKET_SIZE {
        return ContentTooLarge;
      }
      var data := frame[6..6 + totalLength];
      var position := 0;
      ghost var all := Joined(sent, data);
      assert data[0..] == data;
      while totalLength > MINIMUM_SIZE
        invariant 0 <= position && 0 <= totalLength && position + totalLength == |data|
        invariant Joined(sent, data[position..]) == all
        invariant status == (if position == 0 then TooShortBlockedPacket else Ok)
        invariant position > 0 ==> |sent| > |old(sent)|
        invariant position == 0 ==> sent == old(sent)
      {
        var packetSize := PacketSize(data[position..]);
        if packetSize <= totalLength {
          assert data[position..][packetSize..] == data[position + packetSize..];
          assert data[position..][..packetSize] == data[position..position + packetSize];
          JoinedStep(sent, data[position..]);
          SendCompletePacket(data[position..position + packetSize]);
          totalLength := totalLength - packetSize;
          position := position + packetSize;
          status := Ok;
        } else {
          return DataCorrupted;
        }
      }
      if totalLength > 0 {
        status := ResidualData;
      }
    }

    method SendCompletePacket(packet: seq<byte>)
      modifies this`sent
      ensures sent == old(sent) + [packet]
    {
      sent := sent + [packet];
    }

    method ClearBuffers()
      requires packetBuffer.Length == MAX_PACKET_SIZE
      modifies this, packetBuffer
      ensures Valid() && View() == Assembly(NoSegmentation, [], old(sent))
    {
      forall i | 0 <= i < MAX_PACKET_SIZE { packetBuffer[i] := 0; }
      bufferPosition := 0;
      packetLength := 0;
      lastSegmentationFlag := NoSegmentation;
    }
  }
}
