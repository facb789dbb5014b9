/** Telecommand transfer frames: the getters, the frame builder and the validation of received frames. */
module TcTransferFrame {
  import opened Wrappers
  import opened Checksum
  import Crc

  const HEADER_SIZE: nat := 5
  const FRAME_CRC_SIZE: nat := 2
  const MAX_FRAME_SIZE: nat := 1024

  // --- Getters: bit expressions over the frame bytes ---------------------------------------------

  function GetVersionNumber(f: seq<byte>): byte
    requires |f| >= HEADER_SIZE
  {
    f[0] / 0x40
  }

  predicate BypassFlagSet(f: seq<byte>)
    requires |f| >= HEADER_SIZE
  {
    f[0] / 0x20 % 2 == 1
  }

  predicate ControlCommandFlagSet(f: seq<byte>)
    requires |f| >= HEADER_SIZE
  {
    f[0] / 0x10 % 2 == 1
  }

  predicate SpareIsZero(f: seq<byte>)
    requires |f| >= HEADER_SIZE
  {
    f[0] / 4 % 4 == 0
  }

  function GetSpacecraftId(f: seq<byte>): nat
    requires |f| >= HEADER_SIZE
  {
    (f[0] as int) % 4 * 0x100 + f[1] as int
  }

  function GetVirtualChannelId(f: seq<byte>): byte
    requires |f| >= HEADER_SIZE
  {
    f[2] / 4
  }

  /** The length field: the number of bytes of the frame, minus one. */
  function GetFrameLength(f: seq<byte>): nat
    requires |f| >= HEADER_SIZE
  {
    (f[2] as int) % 4 * 0x100 + f[3] as int
  }

  function GetFullSize(f: seq<byte>): nat
    requires |f| >= HEADER_SIZE
  {
    GetFrameLength(f) + 1
  }

  /** Bytes behind a segment header; a 16-bit value that wraps for frames too short to hold one. */
  function GetDataLength(f: seq<byte>): nat
    requires |f| >= HEADER_SIZE
  {
    (GetFrameLength(f) - HEADER_SIZE - 1 - FRAME_CRC_SIZE + 1) % 0x1_0000
  }

  /** Bytes of the data field when there is no segment header; wraps in the same way. */
  function GetFullDataLength(f: seq<byte>): nat
    requires |f| >= HEADER_SIZE
  {
    (GetFrameLength(f) - HEADER_SIZE - FRAME_CRC_SIZE + 1) % 0x1_0000
  }

  function GetSequenceNumber(f: seq<byte>): byte
    requires |f| >= HEADER_SIZE
  {
    f[4]
  }

  function GetSequenceFlags(f: seq<byte>): byte
    requires |f| > HEADER_SIZE
  {
    f[5] / 0x40
  }

  function GetMapId(f: seq<byte>): byte
    requires |f| > HEADER_SIZE
  {
    f[5] % 0x40
  }

  // --- Building a frame ---------------------------------------------------------------------------

  type uint16 = x: int | 0 <= x < 0x1_0000

  datatype Header = Header(bypass: bool, controlCommand: bool, scid: uint16, vcId: byte, sequenceNumber: byte)

  function FlagsAndScid(h: Header): byte {
    (if h.bypass then 0x20 else 0) + (if h.controlCommand then 0x10 else 0) + h.scid / 0x100 % 4
  }

  /** The five header bytes of a frame whose length field is `length`. */
  function HeaderBytes(h: Header, length: nat): (r: seq<byte>)
    ensures |r| == HEADER_SIZE
  {
    [FlagsAndScid(h), h.scid % 0x100, h.vcId % 0x40 * 4 + length / 0x100 % 4, length % 0x100, h.sequenceNumber]
  }

  function WithCrc(body: seq<byte>): (r: seq<byte>)
    ensures |r| == |body| + FRAME_CRC_SIZE
  {
    body + ChecksumBytes(body)
  }

  /** A frame around the data field `field`: header, data field, checksum. */
  function FrameOf(h: Header, field: seq<byte>): (r: seq<byte>)
    requires |field| <= MAX_FRAME_SIZE - HEADER_SIZE - FRAME_CRC_SIZE
    ensures |r| == |field| + HEADER_SIZE + FRAME_CRC_SIZE
  {
    WithCrc(HeaderBytes(h, |field| + HEADER_SIZE + FRAME_CRC_SIZE - 1) + field)
  }

  /** A BC frame carries the data alone, every other frame a segment header in front of it. */
  function FieldOf(h: Header, segmentHeader: byte, data: seq<byte>): seq<byte> {
    if h.bypass && h.controlCommand then data else [segmentHeader] + data
  }

  /** Size of the longest payload the builder turns into a frame. */
  function MaxPayload(h: Header): nat {
    if h.bypass && h.controlCommand then 1017 else 1016
  }

  /** What the builder writes: a whole frame, or header and segment header alone when there is nothing it can hold. */
  function FrameOrHeader(h: Header, segmentHeader: byte, data: Option<seq<byte>>): seq<byte> {
    if data.Some? && |data.value| <= MaxPayload(h) then FrameOf(h, FieldOf(h, segmentHeader, data.value))
    else HeaderBytes(h, 4) + [segmentHeader]
  }

  method WriteHeader(b: array<byte>, h: Header, segmentHeader: byte)
    requires b.Length == MAX_FRAME_SIZE
    modifies b
    ensures b[..6] == HeaderBytes(h, 4) + [segmentHeader]
  {
    b[0] := FlagsAndScid(h);
    b[1] := h.scid % 0x100;
    b[2] := h.vcId % 0x40 * 4;
    b[3] := 4;
    b[4] := h.sequenceNumber;
    b[5] := segmentHeader;
  }

  method WriteLength(b: array<byte>, ghost h: Header, length: nat)
    requires b.Length == MAX_FRAME_SIZE && b[..5] == HeaderBytes(h, 4)
    modifies b
    ensures b[..5] == HeaderBytes(h, length) && b[5..] == old(b[5..])
  {
    assert b[2] == b[..5][2];
    b[2] := b[2] + length / 0x100 % 4;
    b[3] := length % 0x100;
    assert b[..5] == HeaderBytes(h, length);
  }

  method WriteCrc(b: array<byte>, n: nat)
    requires n + 2 <= b.Length == MAX_FRAME_SIZE
    modifies b
    ensures b[..n + 2] == WithCrc(old(b[..n]))
  {
    var crc := Crc16Ccitt(b, n, 0xffff);
    b[n] := ToNumber(Crc.HighByte(crc));
    b[n + 1] := ToNumber(Crc.LowByte(crc));
  }

  /** Enters the final length of a frame whose data field ends at `end`, and appends the checksum. */
  method Complete(b: array<byte>, ghost h: Header, end: nat) returns (fullSize: nat)
    requires b.Length == MAX_FRAME_SIZE && HEADER_SIZE <= end <= MAX_FRAME_SIZE - FRAME_CRC_SIZE
    requires b[..5] == HeaderBytes(h, 4)
    modifies b
    ensures fullSize == end + FRAME_CRC_SIZE && b[..fullSize] == FrameOf(h, old(b[5..end]))
  {
    WriteLength(b, h, end + FRAME_CRC_SIZE - 1);
    assert b[5..end] == b[5..][..end - 5] == old(b[5..end]);
    assert b[..end] == b[..5] + b[5..end];
    WriteCrc(b, end);
    fullSize := end + FRAME_CRC_SIZE;
  }

  /** Copies the payload behind the header and completes the frame. */
  method PutData(b: array<byte>, ghost h: Header, offset: nat, data: array<byte>, dataSize: nat) returns (fullSize: nat)
    requires b.Length == MAX_FRAME_SIZE && b != data && dataSize <= data.Length
    requires HEADER_SIZE <= offset && offset + dataSize <= MAX_FRAME_SIZE - FRAME_CRC_SIZE
    requires b[..5] == HeaderBytes(h, 4)
    modifies b
    ensures fullSize == offset + dataSize + FRAME_CRC_SIZE
    ensures b[..fullSize] == FrameOf(h, old(b[5..offset]) + old(data[..dataSize]))
  {
    ghost var before, header, payload := b[5..offset], b[..5], data[..dataSize];
    forall i | 0 <= i < dataSize { b[offset + i] := data[i]; }
    assert b[5..offset + dataSize] == before + payload;
    assert b[..5] == header;
    fullSize := Complete(b, h, offset + dataSize);
  }

  /** The offset counts from the data field, not from the start of the frame, so the frame keeps its own checksum. */
  method ForceCrc(b: array<byte>, fullSize: nat, crc: uint16)
    requires HEADER_SIZE <= fullSize && HEADER_SIZE + fullSize <= b.Length == MAX_FRAME_SIZE
    modifies b
    ensures b[..fullSize + 3] == old(b[..fullSize + 3])
  {
    b[HEADER_SIZE + fullSize - 2] := crc / 0x100;
    b[HEADER_SIZE + fullSize - 1] := crc % 0x100;
  }

  /** Puts the payload, if it fits, behind the header written before. */
  method FillFrame(b: array<byte>, h: Header, segmentHeader: byte, data: array<byte>, dataSize: uint16)
    returns (fullSize: nat)
    requires b.Length == MAX_FRAME_SIZE && b != data && dataSize <= data.Length
    requires h.bypass && h.controlCommand ==> dataSize <= MaxPayload(h)
    requires b[..6] == HeaderBytes(h, 4) + [segmentHeader]
    modifies b
    ensures FrameOrHeader(h, segmentHeader, Some(old(data[..dataSize]))) <= b[..]
    ensures fullSize == (if dataSize > MaxPayload(h) then HEADER_SIZE
                         else |FieldOf(h, segmentHeader, old(data[..dataSize]))| + HEADER_SIZE + FRAME_CRC_SIZE)
  {
    assert b[..5] == b[..6][..5] == HeaderBytes(h, 4);
    assert b[5..6] == b[..6][5..] == [segmentHeader];
    fullSize := HEADER_SIZE;
    if h.bypass && h.controlCommand {
      fullSize := PutData(b, h, 5, data, dataSize);
      assert old(b[5..5]) + old(data[..dataSize]) == old(data[..dataSize]);
    } else if dataSize <= 1016 {
      fullSize := PutData(b, h, 6, data, dataSize);
    }
  }

  class TcTransferFrameLocal {
    const localData: array<byte>

    /**
     A BC frame larger than the buffer is the caller's fault, as is a forced checksum whose place lies
     outside the buffer; any other frame with too much data is left without data.
     */
    constructor (h: Header, segmentHeader: byte, data: array?<byte>, dataSize: uint16, forceCrc: uint16)
      requires data != null ==> dataSize <= data.Length
      requires data != null && h.bypass && h.controlCommand ==> dataSize <= MaxPayload(h)
      requires forceCrc != 0 && data != null && dataSize <= MaxPayload(h) ==> dataSize <= MaxPayload(h) - HEADER_SIZE
      ensures fresh(localData) && localData.Length == MAX_FRAME_SIZE
      ensures FrameOrHeader(h, segmentHeader, if data == null then None else Some(data[..dataSize])) <= localData[..]
    {
      localData := new byte[MAX_FRAME_SIZE];
      new;
      WriteHeader(localData, h, segmentHeader);
      var fullSize := HEADER_SIZE;
      ghost var payload: Option<seq<byte>> := None;
      if data != null {
        payload := Some(data[..dataSize]);
        fullSize := FillFrame(localData, h, segmentHeader, data, dataSize);
      }
      ghost var frame := FrameOrHeader(h, segmentHeader, payload);
      assert frame <= localData[..];
      if forceCrc != 0 {
        ghost var before := localData[..];
        ForceCrc(localData, fullSize, forceCrc);
        KeepsPrefix(frame, before, localData[..], fullSize + 3);
      }
    }
  }

  lemma KeepsPrefix<T>(p: seq<T>, a: seq<T>, b: seq<T>, n: nat)
    requires p <= a && |p| <= n <= |a| == |b| && a[..n] == b[..n]
    ensures p <= b
  {
    assert p == a[..n][..|p|];
  }

  // --- Validation of a received frame ---------------------------------------------------------------

  datatype Validation = Ok | WrongTfVersion | WrongSpacecraftId | NoValidFrameType | TooShort | CrcFailed

  /** frameValidationCheck on the first `received` bytes of the frame buffer. */
  function FrameValidationCheck(f: seq<byte>, spacecraftId: nat, received: nat): Validation
    requires HEADER_SIZE <= |f| && received <= |f|
  {
    if GetVersionNumber(f) != 0 then WrongTfVersion
    else if GetSpacecraftId(f) != spacecraftId then WrongSpacecraftId
    else if !BypassFlagSet(f) && ControlCommandFlagSet(f) then NoValidFrameType
    else if !SpareIsZero(f) then NoValidFrameType
    else if GetFullSize(f) > received then TooShort
    else if Crc16Of(f[..GetFullSize(f)]) == 0 then Ok
    else CrcFailed
  }

  predicate LegalSpare(f: seq<byte>)
    requires |f| >= HEADER_SIZE
  {
    f[0] / 0x40 == 0 && f[0] / 4 % 4 == 0
  }

  ghost predicate LegalHeader(f: seq<byte>, spacecraftId: nat)
    requires |f| >= HEADER_SIZE
  {
    && LegalSpare(f) && GetSpacecraftId(f) == spacecraftId
    && (BypassFlagSet(f) || !ControlCommandFlagSet(f))
  }

  /**
   A frame is accepted exactly when its header is legal, it was received in full and it ends in the
   checksum of the bytes before, for which it must state at least two bytes.
   */
  lemma AcceptedIff(f: seq<byte>, spacecraftId: nat, received: nat)
    requires HEADER_SIZE <= |f| && received <= |f|
    ensures FrameValidationCheck(f, spacecraftId, received).Ok? <==>
              && LegalHeader(f, spacecraftId) && 2 <= GetFullSize(f) <= received
              && f[GetFullSize(f) - 2..GetFullSize(f)] == ChecksumBytes(f[..GetFullSize(f) - 2])
  {
    var n := GetFullSize(f);
    if n == 1 {
      OneByteHasResidue(f[..1]);
    } else if n <= received {
      ChecksumIff(f, n);
    }
  }

  /** A frame that is refused is told the first thing wrong with it: version, spacecraft, header, size, content. */
  lemma RefusalTells(f: seq<byte>, spacecraftId: nat, received: nat)
    requires HEADER_SIZE <= |f| && received <= |f|
    ensures var v := FrameValidationCheck(f, spacecraftId, received);
            && (v.WrongTfVersion? <==> f[0] / 0x40 != 0)
            && (v.WrongSpacecraftId? <==> f[0] / 0x40 == 0 && GetSpacecraftId(f) != spacecraftId)
            && (v.NoValidFrameType? ==> !LegalHeader(f, spacecraftId))
            && (v.TooShort? <==> LegalHeader(f, spacecraftId) && GetFullSize(f) > received)
            && (v.CrcFailed? <==>
                  LegalHeader(f, spacecraftId) && GetFullSize(f) <= received
                  && (GetFullSize(f) < 2
                      || f[GetFullSize(f) - 2..GetFullSize(f)] != ChecksumBytes(f[..GetFullSize(f) - 2])))
  {
    AcceptedIff(f, spacecraftId, received);
  }

  lemma FlagBits(h: Header)
    ensures var x := FlagsAndScid(h); x / 0x40 == 0 && x / 4 % 4 == 0 && x % 4 == h.scid / 0x100 % 4
    ensures FlagsAndScid(h) / 0x20 % 2 == 1 <==> h.bypass
    ensures FlagsAndScid(h) / 0x10 % 2 == 1 <==> h.controlCommand
  {
    var s := h.scid / 0x100 % 4;
    if h.bypass {
      if h.controlCommand { assert FlagsAndScid(h) == 0x30 + s; } else { assert FlagsAndScid(h) == 0x20 + s; }
    } else {
      if h.controlCommand { assert FlagsAndScid(h) == 0x10 + s; } else { assert FlagsAndScid(h) == s; }
    }
  }

  lemma SplitNumber(x: nat, high: nat)
    requires high == x / 0x100 % 4
    ensures high * 0x100 + x % 0x100 == x % 0x400
  {
  }

  /** Every header field and the length survive the header. */
  lemma HeaderFields(h: Header, length: nat, f: seq<byte>)
    requires length < 0x0400 && |f| >= HEADER_SIZE && f[..5] == HeaderBytes(h, length)
    ensures LegalSpare(f)
    ensures BypassFlagSet(f) == h.bypass && ControlCommandFlagSet(f) == h.controlCommand
    ensures GetSpacecraftId(f) == h.scid % 0x400 && GetVirtualChannelId(f) == h.vcId % 0x40
    ensures GetSequenceNumber(f) == h.sequenceNumber && GetFrameLength(f) == length
  {
    var header := f[..5];
    assert f[0] == header[0] && f[1] == header[1] && f[2] == header[2] && f[3] == header[3] && f[4] == header[4];
    FlagBits(h);
    SplitNumber(h.scid, h.scid / 0x100 % 4);
    SplitNumber(length, length / 0x100 % 4);
    var v, k := h.vcId % 0x40, length / 0x100 % 4;
    assert (v * 4 + k) / 4 == v && (v * 4 + k) % 4 == k;
  }

  /** Without a payload that fits, the frame is its header alone, with all fields, and states that size. */
  lemma HeaderAlone(h: Header, segmentHeader: byte, data: Option<seq<byte>>, f: seq<byte>)
    requires data.None? || |data.value| > MaxPayload(h)
    requires f == FrameOrHeader(h, segmentHeader, data)
    ensures |f| == HEADER_SIZE + 1 && GetFullSize(f) == HEADER_SIZE && f[5] == segmentHeader && LegalSpare(f)
    ensures BypassFlagSet(f) == h.bypass && ControlCommandFlagSet(f) == h.controlCommand
    ensures GetSpacecraftId(f) == h.scid % 0x400 && GetVirtualChannelId(f) == h.vcId % 0x40
    ensures GetSequenceNumber(f) == h.sequenceNumber
  {
    assert f[..5] == HeaderBytes(h, 4);
    HeaderFields(h, 4, f);
  }

  /** A built frame passes validation for its own spacecraft exactly when its flags are legal. */
  lemma BuiltFrameAccepted(h: Header, field: seq<byte>, rest: seq<byte>)
    requires |field| <= MAX_FRAME_SIZE - HEADER_SIZE - FRAME_CRC_SIZE
    ensures var f := FrameOf(h, field);
            FrameValidationCheck(f + rest, h.scid % 0x400, |f|) ==
              (if h.controlCommand && !h.bypass then NoValidFrameType else Ok)
  {
    var n := |field| + HEADER_SIZE;
    var body := HeaderBytes(h, n + 1) + field;
    WellFormedFrameAccepted(h, body, FrameOf(h, field) + rest);
  }

  lemma WellFormedFrameAccepted(h: Header, body: seq<byte>, g: seq<byte>)
    requires HEADER_SIZE <= |body| <= MAX_FRAME_SIZE - FRAME_CRC_SIZE && body[..5] == HeaderBytes(h, |body| + 1)
    requires body + ChecksumBytes(body) <= g
    ensures FrameValidationCheck(g, h.scid % 0x400, |body| + 2) ==
              (if h.controlCommand && !h.bypass then NoValidFrameType else Ok)
  {
    ChecksumFits(body, g);
    assert g[..5] == body[..5];
    HeaderFields(h, |body| + 1, g);
    OwnHeaderVerdict(h, g, |body| + 2);
  }

  lemma ChecksumFits(body: seq<byte>, g: seq<byte>)
    requires body + ChecksumBytes(body) <= g
    ensures Crc16Of(g[..|body| + 2]) == 0
  {
    OwnChecksumLeavesZero(body, ChecksumBytes(body));
    Prefix(body + ChecksumBytes(body), g, |body| + 2);
  }

  lemma Prefix(f: seq<byte>, g: seq<byte>, n: nat)
    requires f <= g && |f| == n
    ensures g[..n] == f
  {
  }

  lemma ChecksumIff(f: seq<byte>, n: nat)
    requires 2 <= n <= |f|
    ensures Crc16Of(f[..n]) == 0 <==> f[n - 2..n] == ChecksumBytes(f[..n - 2])
  {
    assert f[..n][..n - 2] == f[..n - 2] && f[..n][n - 2..] == f[n - 2..n];
    ResidueMeansOwnChecksum(f[..n]);
  }

  /** For the frame's own spacecraft only the flags and the checksum can speak against it. */
  lemma OwnHeaderVerdict(h: Header, g: seq<byte>, n: nat)
    requires HEADER_SIZE <= |g| && n <= |g| && LegalSpare(g) && GetFullSize(g) == n
    requires BypassFlagSet(g) == h.bypass && ControlCommandFlagSet(g) == h.controlCommand
             && GetSpacecraftId(g) == h.scid % 0x400
    ensures FrameValidationCheck(g, h.scid % 0x400, n) ==
              if h.controlCommand && !h.bypass then NoValidFrameType
              else if Crc16Of(g[..n]) == 0 then Ok else CrcFailed
  {
  }

  /** Round trip: the getters give back header, segment header, payload and its length. */
  lemma BuiltFrameRoundTrip(h: Header, segmentHeader: byte, data: seq<byte>, f: seq<byte>)
    requires |data| <= MaxPayload(h) && f == FrameOf(h, FieldOf(h, segmentHeader, data))
    ensures BypassFlagSet(f) == h.bypass && ControlCommandFlagSet(f) == h.controlCommand
    ensures GetSpacecraftId(f) == h.scid % 0x400 && GetVirtualChannelId(f) == h.vcId % 0x40
    ensures GetSequenceNumber(f) == h.sequenceNumber && GetFullSize(f) == |f|
    ensures h.bypass && h.controlCommand ==> GetFullDataLength(f) == |data| && f[5..5 + |data|] == data
    ensures !(h.bypass && h.controlCommand) ==>
              && GetSequenceFlags(f) == segmentHeader / 0x40 && GetMapId(f) == segmentHeader % 0x40
              && GetDataLength(f) == |data| && f[6..6 + |data|] == data
  {
    var field := FieldOf(h, segmentHeader, data);
    var body := HeaderBytes(h, |field| + HEADER_SIZE + 1) + field;
    assert body <= f;
    BodyRoundTrip(h, segmentHeader, data, body, f);
  }

  lemma BodyRoundTrip(h: Header, segmentHeader: byte, data: seq<byte>, body: seq<byte>, f: seq<byte>)
    requires |data| <= MaxPayload(h) && |f| == |body| + FRAME_CRC_SIZE && body <= f
    requires var field := FieldOf(h, segmentHeader, data); body == HeaderBytes(h, |field| + HEADER_SIZE + 1) + field
    ensures BypassFlagSet(f) == h.bypass && ControlCommandFlagSet(f) == h.controlCommand
    ensures GetSpacecraftId(f) == h.scid % 0x400 && GetVirtualChannelId(f) == h.vcId % 0x40
    ensures GetSequenceNumber(f) == h.sequenceNumber && GetFullSize(f) == |f|
    ensures h.bypass && h.controlCommand ==> GetFullDataLength(f) == |data| && f[5..5 + |data|] == data
    ensures !(h.bypass && h.controlCommand) ==>
              && GetSequenceFlags(f) == segmentHeader / 0x40 && GetMapId(f) == segmentHeader % 0x40
              && GetDataLength(f) == |data| && f[6..6 + |data|] == data
  {
    var field := FieldOf(h, segmentHeader, data);
    assert f[..5] == body[..5] == HeaderBytes(h, |f| - 1);
    HeaderFields(h, |f| - 1, f);
    assert f[5..5 + |field|] == field;
    if !(h.bypass && h.controlCommand) {
      assert f[5] == field[0] && f[6..6 + |data|] == field[1..];
    }
  }

  /** An accepted frame damaged by a burst of at most sixteen bits that leaves its length is rejected. */
  lemma DamagedFrameRejected(sent: seq<byte>, damaged: seq<byte>, spacecraftId: nat, p: nat)
    requires |sent| == |damaged| >= HEADER_SIZE && GetFullSize(sent) == GetFullSize(damaged) == |sent|
    requires FrameValidationCheck(sent, spacecraftId, |sent|).Ok?
    requires Crc.DifferWithin(Bitstring(sent), Bitstring(damaged), p)
    ensures !FrameValidationCheck(damaged, spacecraftId, |damaged|).Ok?
  {
    assert sent[..|sent|] == sent && damaged[..|damaged|] == damaged;
    Crc.BurstDetected(0xffff, Octets(sent), Octets(damaged), p);
  }
}
