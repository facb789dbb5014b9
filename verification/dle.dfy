/** Framing of byte strings with STX and ETX, and escaping with DLE. */
module DleEncoder {
  import opened Checksum

  const STX: byte := 0x02
  const ETX: byte := 0x03
  const DLE: byte := 0x10
  const CR: byte := 0x0D

  predicate Control(b: byte) { b == STX || b == ETX || b == CR }

  function Escaped(b: byte): seq<byte> {
    if Control(b) then [DLE, b + 0x40] else if b == DLE then [DLE, DLE] else [b]
  }

  /** The body of an encoding. */
  function Body(s: seq<byte>): (r: seq<byte>)
    ensures |s| <= |r| <= 2 * |s|
  {
    if s == [] then [] else Escaped(s[0]) + Body(s[1..])
  }

  function Encoding(s: seq<byte>): (r: seq<byte>) { [STX] + Body(s) + [ETX] }

  // --- Decoding -----------------------------------------------------------------------------------

  /**
   PastEnd is a read beyond the source; BadEscape leaves the caller without a read length; Stopped
   tells how far the decoder went.
   */
  datatype Decoded = PastEnd | NotStarted | BadEscape | Stopped(readLen: nat) | Ok(readLen: nat, data: seq<byte>)

  function Prepend(b: byte, read: nat, d: Decoded): Decoded {
    match d
    case Ok(n, data) => Ok(n + read, [b] + data)
    case Stopped(n) => Stopped(n + read)
    case _ => d
  }

  /** The next byte of data and how many bytes it took; None for an escape the encoder never writes. */
  datatype Unescaped = None | Some(b: byte, read: nat)

  function Unescape(s: seq<byte>): Unescaped
    requires s != [] && (s[0] == DLE ==> 1 < |s|)
  {
    if s[0] != DLE then Some(s[0], 1)
    else if s[1] == DLE then Some(DLE, 2)
    else if s[1] == 0x42 || s[1] == 0x43 || s[1] == 0x4D then Some(s[1] - 0x40, 2)
    else None
  }

  /** Decoding behind the STX, with room for so many bytes. */
  function DecodeBody(s: seq<byte>, room: nat): Decoded {
    if s == [] then PastEnd
    else if s[0] == ETX then Ok(1, [])
    else if room == 0 || s[0] == STX then Stopped(1)
    else if s == [DLE] then PastEnd
    else
      var u := Unescape(s);
      if u.None? then BadEscape else Prepend(u.b, u.read, DecodeBody(s[u.read..], room - 1))
  }

  function Decode(s: seq<byte>, room: nat): Decoded {
    if s == [] then PastEnd else if s[0] != STX then NotStarted else Prepended(DecodeBody(s[1..], room))
  }

  /** Only escapes that the encoder writes, and perhaps half of one at the end. */
  predicate Escapes(s: seq<byte>)
    decreases |s|
  {
    s == [] || s == [DLE] || (Unescape(s).Some? && Escapes(s[Unescape(s).read..]))
  }

  /** The bytes of data these stand for, half an escape counted as one. */
  function Tokens(s: seq<byte>): nat
    requires Escapes(s)
    decreases |s|
  {
    if s == [] then 0 else if s == [DLE] then 1 else 1 + Tokens(s[Unescape(s).read..])
  }

  /**
   The source behind a start is left if and only if it holds neither an end nor another start, all its
   escapes are good and the destination has room for what it stands for.
   */
  lemma {:induction false} BodyLeftIff(s: seq<byte>, room: nat)
    ensures DecodeBody(s, room) == PastEnd <==> ETX !in s && STX !in s && Escapes(s) && Tokens(s) <= room
    decreases |s|
  {
    if s != [] && s != [DLE] && s[0] != ETX && s[0] != STX {
      var u := Unescape(s);
      if u.Some? && room != 0 {
        assert s == s[..u.read] + s[u.read..];
        assert ETX !in s[..u.read] && STX !in s[..u.read];
        BodyLeftIff(s[u.read..], room - 1);
      }
    }
  }

  /** The source is not empty, and a frame that starts in it also ends in it. */
  predicate Complete(s: seq<byte>) { s != [] && (s[0] == STX ==> ETX in s) }

  lemma CompleteStaysInside(s: seq<byte>, room: nat)
    requires Complete(s)
    ensures Decode(s, room) != PastEnd
  {
    SourceLeftIff(s, room);
    if s[0] == STX { assert ETX in s[1..]; }
  }

  /** Exactly which sources the decoder reads past their end. */
  lemma SourceLeftIff(s: seq<byte>, room: nat)
    ensures Decode(s, room) == PastEnd
       <==> s == [] || (s[0] == STX && ETX !in s[1..] && STX !in s[1..] && Escapes(s[1..]) && Tokens(s[1..]) <= room)
  {
    if s != [] { BodyLeftIff(s[1..], room); }
  }

  /** A start and one byte, with room for it. */
  lemma SourceLeftExample()
    ensures Decode([STX, 0x41], 8) == PastEnd
  {
    assert [STX, 0x41][1..] == [0x41] && [0x41][1..] == [];
  }

  /** One more byte was read. */
  function Prepended(d: Decoded): Decoded {
    match d
    case Ok(n, data) => Ok(n + 1, data)
    case Stopped(n) => Stopped(n + 1)
    case _ => d
  }

  // --- Round trips --------------------------------------------------------------------------------

  lemma {:induction false} BodyHasNoControls(s: seq<byte>)
    ensures forall b :: b in Body(s) ==> !Control(b)
  {
    if s != [] { BodyHasNoControls(s[1..]); }
  }

  lemma DecodesEscaped(b: byte, tail: seq<byte>, room: nat)
    requires 0 < room
    ensures DecodeBody(Escaped(b) + tail, room) == Prepend(b, |Escaped(b)|, DecodeBody(tail, room - 1))
  {
    var all := Escaped(b) + tail;
    assert all[|Escaped(b)|..] == tail;
    assert Unescape(all) == Some(b, |Escaped(b)|);
  }

  lemma BodySplits(s: seq<byte>, after: seq<byte>)
    requires s != []
    ensures Body(s) + after == Escaped(s[0]) + (Body(s[1..]) + after)
  {
  }

  /** All of the body is read, then the character behind it decides. */
  function Outcome(s: seq<byte>, end: byte): Decoded {
    if end == ETX then Ok(|Body(s)| + 1, s) else Stopped(|Body(s)| + 1)
  }

  /** How decoding goes on behind an encoded body. */
  function Shifted(s: seq<byte>, d: Decoded): Decoded {
    match d
    case Ok(n, data) => Ok(n + |Body(s)|, s + data)
    case Stopped(n) => Stopped(n + |Body(s)|)
    case _ => d
  }

  lemma ShiftedPrepends(s: seq<byte>, d: Decoded)
    requires s != []
    ensures Prepend(s[0], |Escaped(s[0])|, Shifted(s[1..], d)) == Shifted(s, d)
  {
    if d.Ok? { assert [s[0]] + (s[1..] + d.data) == s + d.data; }
  }

  lemma ShiftedByNothing(d: Decoded)
    ensures Shifted([], d) == d
  {
    if d.Ok? { assert [] + d.data == d.data; }
  }

  /** What stands in front as an encoded body is decoded, whatever comes behind it. */
  lemma {:induction false} DecodesPrefix(s: seq<byte>, after: seq<byte>, room: nat)
    requires |s| <= room
    ensures DecodeBody(Body(s) + after, room) == Shifted(s, DecodeBody(after, room - |s|))
  {
    var d := DecodeBody(after, room - |s|);
    if s == [] {
      assert Body(s) + after == after;
      ShiftedByNothing(d);
    } else {
      BodySplits(s, after);
      DecodesPrefix(s[1..], after, room - 1);
      ShiftedPrepends(s, d);
      DecodesEscaped(s[0], Body(s[1..]) + after, room);
    }
  }

  lemma DecodesBody(s: seq<byte>, after: seq<byte>, room: nat)
    requires after != [] && (after[0] == STX || after[0] == ETX) && |s| <= room
    ensures DecodeBody(Body(s) + after, room) == Outcome(s, after[0])
  {
    DecodesPrefix(s, after, room);
    assert s + [] == s;
  }

  /** Decoding an encoding with anything after it gives the data back, and the place where it ended. */
  lemma DecodeInverts(s: seq<byte>, suffix: seq<byte>, room: nat)
    requires |s| <= room
    ensures Decode(Encoding(s) + suffix, room) == Ok(|Encoding(s)|, s)
    ensures (Encoding(s) + suffix)[|Encoding(s)|..] == suffix
  {
    var all := Encoding(s) + suffix;
    assert all == [STX] + (Body(s) + ([ETX] + suffix));
    DecodesBody(s, [ETX] + suffix, room);
    StartedBody(Body(s) + ([ETX] + suffix), room);
  }

  lemma {:induction false} BodyOfConcat(s: seq<byte>, t: seq<byte>)
    ensures Body(s + t) == Body(s) + Body(t)
  {
    if s == [] {
      assert s + t == t;
    } else {
      assert (s + t)[0] == s[0] && (s + t)[1..] == s[1..] + t;
      BodyOfConcat(s[1..], t);
      BodySplits(s, Body(t));
    }
  }

  /** A start and an encoded body in front of whatever is decoded. */
  lemma DecodesStarted(s: seq<byte>, after: seq<byte>, room: nat, d: Decoded)
    requires |s| <= room && d == DecodeBody(after, room - |s|)
    ensures Decode([STX] + (Body(s) + after), room) == Prepended(Shifted(s, d))
  {
    DecodesPrefix(s, after, room);
    StartedBody(Body(s) + after, room);
  }

  lemma StopsWithoutRoom(after: seq<byte>)
    requires after != [] && after[0] != ETX
    ensures DecodeBody(after, 0) == Stopped(1)
  {
  }

  /** A frame of more data than there is room for is given up behind as much of it as fits. */
  lemma TooLargeStops(s: seq<byte>, suffix: seq<byte>, room: nat)
    requires room < |s|
    ensures Decode(Encoding(s) + suffix, room) == Stopped(|Body(s[..room])| + 2)
  {
    var fits, after := s[..room], Body(s[room..]) + ([ETX] + suffix);
    assert s == fits + s[room..];
    BodyOfConcat(fits, s[room..]);
    assert Encoding(s) + suffix == [STX] + (Body(fits) + after);
    BodySplits(s[room..], [ETX] + suffix);
    StopsWithoutRoom(after);
    DecodesStarted(fits, after, room, Stopped(1));
  }

  lemma StopsAtBadEscape(after: seq<byte>, room: nat)
    requires |after| >= 2 && after[0] == DLE && after[1] != DLE && !(after[1] >= 0x40 && Control(after[1] - 0x40))
    requires 0 < room
    ensures DecodeBody(after, room) == BadEscape
  {
  }

  /** An escape that stands for no byte makes the frame bad, wherever it comes. */
  lemma BadEscapeIsRefused(s: seq<byte>, b: byte, suffix: seq<byte>, room: nat)
    requires |s| < room && b != DLE && !(b >= 0x40 && Control(b - 0x40))
    ensures Decode([STX] + (Body(s) + ([DLE, b] + suffix)), room) == BadEscape
  {
    StopsAtBadEscape([DLE, b] + suffix, room - |s|);
    DecodesStarted(s, [DLE, b] + suffix, room, BadEscape);
  }

  /** A source that does not start with STX is not decoded at all. */
  lemma StartIsNeeded(s: seq<byte>, room: nat)
    ensures Decode(s, room).NotStarted? <==> s != [] && s[0] != STX
  {
    if s != [] && s[0] == STX { NotStartedOutside(s[1..], room); }
  }

  lemma {:induction false} NotStartedOutside(s: seq<byte>, room: nat)
    ensures !DecodeBody(s, room).NotStarted?
    decreases |s|
  {
    if s != [] && s[0] != ETX && room != 0 && s[0] != STX && s != [DLE] && Unescape(s).Some? {
      NotStartedOutside(s[Unescape(s).read..], room - 1);
    }
  }

  function Encodings(list: seq<seq<byte>>): seq<byte> {
    if list == [] then [] else Encoding(list[0]) + Encodings(list[1..])
  }

  /** A receiver that moves on by the read length after each decoded frame, until the bytes or the frames run out. */
  function DecodeStream(s: seq<byte>, room: nat): seq<seq<byte>>
    decreases |s|
  {
    var d := Decode(s, room);
    if d.Ok? && d.readLen <= |s| && 0 < d.readLen then [d.data] + DecodeStream(s[d.readLen..], room) else []
  }

  lemma StreamStep(s: seq<byte>, suffix: seq<byte>, room: nat)
    requires |s| <= room
    ensures DecodeStream(Encoding(s) + suffix, room) == [s] + DecodeStream(suffix, room)
  {
    DecodeInverts(s, suffix, room);
  }

  /** Any list of byte strings goes through. */
  lemma {:induction false} StreamRoundTrip(list: seq<seq<byte>>, room: nat)
    requires forall i :: 0 <= i < |list| ==> |list[i]| <= room
    ensures DecodeStream(Encodings(list), room) == list
  {
    if list != [] {
      StreamStep(list[0], Encodings(list[1..]), room);
      StreamRoundTrip(list[1..], room);
      assert list == [list[0]] + list[1..];
    }
  }

  /** The first k bytes are what the encoder writes behind the STX, unless a raw CR was let in. */
  ghost predicate Canonical(s: seq<byte>, k: nat, data: seq<byte>) {
    0 < k <= |s| && (s[..k] == Body(data) + [ETX] <==> CR !in s[..k])
  }

  lemma CanonicalPrepend(s: seq<byte>, u: Unescaped, k: nat, data: seq<byte>)
    requires s != [] && s != [DLE] && s[0] != ETX && s[0] != STX && u == Unescape(s) && u.Some?
    requires Canonical(s[u.read..], k, data)
    ensures Canonical(s, k + u.read, [u.b] + data)
  {
    BodyHasNoControls(data);
    CanonicalStep(s[..u.read], u.b, s[u.read..][..k], Body(data) + [ETX]);
    assert s[..u.read + k] == s[..u.read] + s[u.read..][..k];
    PrependedBody(u.b, data);
  }

  lemma {:induction false} DecodedBodyIsCanonical(s: seq<byte>, room: nat)
    requires DecodeBody(s, room).Ok?
    ensures var d := DecodeBody(s, room);
            |d.data| <= room && Canonical(s, d.readLen, d.data)
    decreases |s|
  {
    if s[0] == ETX {
      assert s[..1] == [ETX];
    } else {
      var u := Unescape(s);
      DecodedBodyIsCanonical(s[u.read..], room - 1);
      var e := DecodeBody(s[u.read..], room - 1);
      CanonicalPrepend(s, u, e.readLen, e.data);
    }
  }

  lemma PrependedBody(b: byte, data: seq<byte>)
    ensures Body([b] + data) + [ETX] == Escaped(b) + (Body(data) + [ETX])
  {
    assert ([b] + data)[1..] == data;
  }

  lemma CanonicalStep(head: seq<byte>, b: byte, tail: seq<byte>, body: seq<byte>)
    requires head == Escaped(b) || (head == [CR] && b == CR)
    requires CR !in body && (tail == body <==> CR !in tail)
    ensures head + tail == Escaped(b) + body <==> CR !in head + tail
  {
    assert forall x :: x in head + tail <==> x in head || x in tail;
    if head == [CR] {
      assert CR in head;
      assert CR !in Escaped(b) + body;
    } else if head + tail == Escaped(b) + body {
      assert tail == (head + tail)[|head|..] == body;
    }
  }

  /** A frame is decoded from exactly the bytes the encoder makes of it, if and only if no raw CR is among them. */
  lemma CanonicalIff(s: seq<byte>, room: nat)
    requires Decode(s, room).Ok?
    ensures var d := Decode(s, room);
            && d.readLen <= |s| && |d.data| <= room
            && (s[..d.readLen] == Encoding(d.data) <==> CR !in s[..d.readLen])
  {
    var d := Decode(s, room);
    DecodedBodyIsCanonical(s[1..], room);
    assert s[..d.readLen] == [STX] + s[1..][..d.readLen - 1];
    assert Encoding(d.data) == [STX] + (Body(d.data) + [ETX]);
    assert s[1..][..d.readLen - 1] == s[..d.readLen][1..];
    assert Encoding(d.data)[1..] == Body(d.data) + [ETX];
    if CR in s[..d.readLen] {
      var i :| 0 <= i < d.readLen && s[..d.readLen][i] == CR;
      assert s[..d.readLen][1..][i - 1] == CR;
    }
  }

  /** A raw carriage return is decoded, though the encoder never writes one. */
  lemma RawCarriageReturn()
    ensures var s := [STX, CR, ETX];
            Decode(s, 1) == Ok(3, [CR]) && CR in s[..3] && Encoding([CR]) == [STX, DLE, 0x4D, ETX]
  {
    var s := [STX, CR, ETX];
    assert s[1..] == [CR, ETX] && [CR, ETX][1..] == [ETX] && [CR][1..] == [];
    assert DecodeBody([ETX], 0) == Ok(1, []) && [CR] + [] == [CR];
    assert DecodeBody([CR, ETX], 1) == Ok(2, [CR]);
    assert s[..3][1] == CR;
  }

  /** A frame cut short by the start of the next one takes that start with it. */
  lemma InterruptedFrameTakesStart(s: seq<byte>, next: seq<byte>, room: nat)
    requires |s| <= room
    ensures var all := [STX] + Body(s) + Encoding(next);
            && Decode(all, room) == Stopped(|Body(s)| + 2)
            && all[|Body(s)| + 2..] == Body(next) + [ETX]
  {
    EncodingEnds(next);
    InterruptedBy(s, Encoding(next), room);
    CutBehind([STX], Body(s), Encoding(next));
  }

  lemma InterruptedBy(s: seq<byte>, after: seq<byte>, room: nat)
    requires |s| <= room && after != [] && after[0] == STX
    ensures Decode([STX] + (Body(s) + after), room) == Stopped(|Body(s)| + 2)
  {
    DecodesBody(s, after, room);
    StartedBody(Body(s) + after, room);
  }

  lemma EncodingEnds(s: seq<byte>)
    ensures Encoding(s)[0] == STX && Encoding(s)[1..] == Body(s) + [ETX]
  {
  }

  lemma CutBehind(a: seq<byte>, b: seq<byte>, c: seq<byte>)
    requires c != []
    ensures a + b + c == a + (b + c) && (a + b + c)[|a| + |b| + 1..] == c[1..]
  {
  }

  /** What is then left of the next frame is not taken for a frame. */
  lemma InterruptedFrameLosesNext(next: seq<byte>, room: nat)
    ensures Decode(Body(next) + [ETX], room) == NotStarted
  {
    var rest := Body(next) + [ETX];
    assert rest[|rest| - 1] == ETX;
    BodyHasNoControls(next);
    assert rest[0] == ETX || rest[0] in Body(next);
  }

  lemma StartedBody(s: seq<byte>, room: nat)
    ensures Decode([STX] + s, room) == Prepended(DecodeBody(s, room))
  {
    assert ([STX] + s)[1..] == s;
  }

  // --- The loops ----------------------------------------------------------------------------------

  /** One byte goes out, escaped where it must be, if there is room. */
  method EncodeByte(nextByte: byte, dest: array<byte>, at: nat, maxDestLen: nat) returns (ok: bool, encodedIndex: nat)
    requires at < maxDestLen <= dest.Length
    modifies dest
    ensures ok <==> at + |Escaped(nextByte)| <= maxDestLen
    ensures ok ==> encodedIndex == at + |Escaped(nextByte)|
    ensures ok ==> dest[..encodedIndex] == old(dest[..at]) + Escaped(nextByte)
    ensures dest[maxDestLen..] == old(dest[maxDestLen..])
  {
    encodedIndex := at;
    if nextByte == STX || nextByte == ETX || nextByte == CR {
      if encodedIndex + 1 >= maxDestLen { return false, 0; }
      dest[encodedIndex] := DLE;
      encodedIndex := encodedIndex + 1;
      dest[encodedIndex] := nextByte + 0x40;
    } else if nextByte == DLE {
      if encodedIndex + 1 >= maxDestLen { return false, 0; }
      dest[encodedIndex] := DLE;
      encodedIndex := encodedIndex + 1;
      dest[encodedIndex] := DLE;
    } else {
      dest[encodedIndex] := nextByte;
    }
    return true, encodedIndex + 1;
  }

  lemma BodyShifts(done: seq<byte>, all: seq<byte>, i: nat)
    requires i < |all|
    ensures done + Body(all[i..]) == (done + Escaped(all[i])) + Body(all[i + 1..])
    ensures |Body(all[i..])| >= |Escaped(all[i])|
  {
    assert all[i..][1..] == all[i + 1..];
  }

  /** The loop over the source, from a position of the destination on. */
  method EncodeBody(source: array<byte>, sourceLen: nat, dest: array<byte>, at: nat, maxDestLen: nat)
    returns (complete: bool, encodedIndex: nat)
    requires sourceLen <= source.Length && at <= maxDestLen <= dest.Length && source != dest
    modifies dest
    ensures complete <==> at + |Body(source[..sourceLen])| <= maxDestLen
    ensures complete ==> encodedIndex == at + |Body(source[..sourceLen])|
    ensures complete ==> dest[..encodedIndex] == old(dest[..at]) + Body(source[..sourceLen])
    ensures dest[maxDestLen..] == old(dest[maxDestLen..])
  {
    ghost var all := source[..sourceLen];
    ghost var wanted := dest[..at] + Body(all);
    var sourceIndex := 0;
    encodedIndex := at;
    while encodedIndex < maxDestLen && sourceIndex < sourceLen
      invariant sourceIndex <= sourceLen && encodedIndex <= maxDestLen
      invariant dest[..encodedIndex] + Body(all[sourceIndex..]) == wanted
      invariant dest[maxDestLen..] == old(dest[maxDestLen..])
    {
      BodyShifts(dest[..encodedIndex], all, sourceIndex);
      var ok, next := EncodeByte(source[sourceIndex], dest, encodedIndex, maxDestLen);
      if !ok { return false, 0; }
      encodedIndex := next;
      sourceIndex := sourceIndex + 1;
    }
    complete := sourceIndex == sourceLen;
    assert complete ==> dest[..encodedIndex] == wanted;
    assert !complete ==> |Body(all[sourceIndex..])| > 0;
  }

  method Encode(source: array<byte>, sourceLen: nat, dest: array<byte>, maxDestLen: nat, addStxEtx: bool)
    returns (ok: bool, encodedLen: nat)
    requires sourceLen <= source.Length && maxDestLen <= dest.Length && source != dest
    modifies dest
    ensures ok <==> 2 <= maxDestLen && |Body(source[..sourceLen])| + (if addStxEtx then 2 else 1) <= maxDestLen
    ensures ok ==> encodedLen == |Body(source[..sourceLen])| + (if addStxEtx then 2 else 0)
    ensures ok && addStxEtx ==> dest[..encodedLen] == Encoding(source[..sourceLen])
    ensures ok && !addStxEtx ==> dest[..encodedLen] == Body(source[..sourceLen])
    ensures dest[maxDestLen..] == old(dest[maxDestLen..])
  {
    if maxDestLen < 2 { return false, 0; }
    var encodedIndex := 0;
    if addStxEtx {
      dest[0] := STX;
      encodedIndex := 1;
    }
    ghost var start := dest[..encodedIndex];
    var complete;
    complete, encodedIndex := EncodeBody(source, sourceLen, dest, encodedIndex, maxDestLen);
    if complete && encodedIndex < maxDestLen {
      if addStxEtx {
        dest[encodedIndex] := ETX;
        encodedIndex := encodedIndex + 1;
        assert dest[..encodedIndex] == start + Body(source[..sourceLen]) + [ETX];
      }
      return true, encodedIndex;
    }
    return false, 0;
  }

  lemma OneByte(s: seq<byte>, i: nat, room: nat)
    requires i < |s| && s[i] != ETX && s[i] != STX && 0 < room && DecodeBody(s[i..], room) != PastEnd
    ensures s[i] == DLE ==> i + 1 < |s|
    ensures var u := Unescape(s[i..]);
            if u.None? then DecodeBody(s[i..], room) == BadEscape
            else i + u.read <= |s|
                 && DecodeBody(s[i..], room) == Prepend(u.b, u.read, DecodeBody(s[i + u.read..], room - 1))
  {
    var u := Unescape(s[i..]);
    if u.Some? { assert s[i..][u.read..] == s[i + u.read..]; }
  }

  /** Two bytes without markers are refused for a destination of two bytes, which they would fit. */
  method SpareByteIsMissing() returns (ok: bool)
    ensures !ok && |Body([0x41, 0x42])| == 2
  {
    var source, dest := new byte[2], new byte[2];
    source[0], source[1] := 0x41, 0x42;
    assert source[..2] == [0x41, 0x42] && [0x41, 0x42][1..] == [0x42] && [0x42][1..] == [];
    var n;
    ok, n := Encode(source, 2, dest, 2, false);
  }

  method UnescapeByte(source: array<byte>, encodedIndex: nat, sourceStreamLen: nat) returns (r: Unescaped)
    requires encodedIndex < sourceStreamLen <= source.Length
    requires source[encodedIndex] == DLE ==> encodedIndex + 1 < sourceStreamLen
    ensures r == Unescape(source[encodedIndex..sourceStreamLen])
  {
    if source[encodedIndex] == DLE {
      var nextByte := source[encodedIndex + 1];
      if nextByte == DLE { return Some(nextByte, 2); }
      if nextByte == 0x42 || nextByte == 0x43 || nextByte == 0x4D { return Some(nextByte - 0x40, 2); }
      return None;
    }
    return Some(source[encodedIndex], 1);
  }

  method DecodeFrame(source: array<byte>, sourceStreamLen: nat, dest: array<byte>, maxDestStreamLen: nat)
    returns (ok: bool, readLen: nat, decodedLen: nat)
    requires sourceStreamLen <= source.Length && maxDestStreamLen <= dest.Length && source != dest
    requires Decode(source[..sourceStreamLen], maxDestStreamLen) != PastEnd
    modifies dest
    ensures var d := Decode(source[..sourceStreamLen], maxDestStreamLen);
            && ok == d.Ok?
            && (d.Ok? || d.Stopped? ==> readLen == d.readLen)
            && (d.Ok? ==> decodedLen == |d.data| <= maxDestStreamLen && dest[..decodedLen] == d.data)
    ensures dest[maxDestStreamLen..] == old(dest[maxDestStreamLen..])
  {
    ghost var s := source[..sourceStreamLen];
    if source[0] != STX { return false, 0, 0; }
    var encodedIndex, decodedIndex := 1, 0;
    assert dest[..0] == [];
    ReachedStart(s, maxDestStreamLen);
    while encodedIndex < sourceStreamLen && decodedIndex < maxDestStreamLen
          && source[encodedIndex] != ETX && source[encodedIndex] != STX
      invariant 1 <= encodedIndex <= sourceStreamLen && decodedIndex <= maxDestStreamLen
      invariant Reached(s, maxDestStreamLen, encodedIndex, dest[..decodedIndex])
      invariant dest[maxDestStreamLen..] == old(dest[maxDestStreamLen..])
    {
      ghost var done := dest[..decodedIndex];
      assert s[encodedIndex..] == source[encodedIndex..sourceStreamLen];
      ReachedNext(s, maxDestStreamLen, encodedIndex, done);
      var u := UnescapeByte(source, encodedIndex, sourceStreamLen);
      if u.None? { return false, 0, 0; }
      dest[decodedIndex] := u.b;
      encodedIndex := encodedIndex + u.read;
      decodedIndex := decodedIndex + 1;
      assert dest[..decodedIndex] == done + [u.b];
    }
    ReachedEnd(s, maxDestStreamLen, encodedIndex, dest[..decodedIndex]);
    if source[encodedIndex] != ETX { return false, encodedIndex + 1, 0; }
    return true, encodedIndex + 1, decodedIndex;
  }

  /** The decoder stands at i and has put out these bytes. */
  ghost predicate Reached(s: seq<byte>, room: nat, i: nat, done: seq<byte>) {
    && 1 <= i <= |s| && |done| <= room && Decode(s, room) != PastEnd
    && Decode(s, room) == Prepended(Continued(done, i - 1, DecodeBody(s[i..], room - |done|)))
  }

  lemma ReachedStart(s: seq<byte>, room: nat)
    requires Decode(s, room) != PastEnd && s[0] == STX
    ensures Reached(s, room, 1, [])
  {
    ContinuedNothing(DecodeBody(s[1..], room));
  }

  lemma ReachedNext(s: seq<byte>, room: nat, i: nat, done: seq<byte>)
    requires Reached(s, room, i, done) && i < |s| && |done| < room && s[i] != ETX && s[i] != STX
    ensures s[i] == DLE ==> i + 1 < |s|
    ensures var u := Unescape(s[i..]);
            if u.None? then Decode(s, room) == BadEscape else Reached(s, room, i + u.read, done + [u.b])
  {
    OneByte(s, i, room - |done|);
    var u := Unescape(s[i..]);
    if u.Some? { ContinuedMore(done, i - 1, u.b, u.read, DecodeBody(s[i + u.read..], room - |done| - 1)); }
  }

  lemma ReachedEnd(s: seq<byte>, room: nat, i: nat, done: seq<byte>)
    requires Reached(s, room, i, done) && (i == |s| || |done| == room || s[i] == ETX || s[i] == STX)
    ensures i < |s| && Decode(s, room) == if s[i] == ETX then Ok(i + 1, done) else Stopped(i + 1)
  {
    assert done + [] == done;
  }

  lemma ContinuedNothing(d: Decoded)
    ensures Continued([], 0, d) == d
  {
    if d.Ok? { assert [] + d.data == d.data; }
  }

  /** A result that begins with bytes already decoded. */
  function Continued(done: seq<byte>, read: nat, d: Decoded): Decoded {
    match d
    case Ok(n, data) => Ok(n + read, done + data)
    case Stopped(n) => Stopped(n + read)
    case _ => d
  }

  lemma ContinuedMore(done: seq<byte>, read: nat, b: byte, more: nat, d: Decoded)
    ensures Continued(done, read, Prepend(b, more, d)) == Continued(done + [b], read + more, d)
  {
    if d.Ok? { assert done + ([b] + d.data) == done + [b] + d.data; }
  }
}
