/** What a MAP channel hands on over whole runs. */
module MapStream {
  import opened Wrappers
  import opened Checksum
  import opened MapPacketExtraction

  function Run(a: Assembly, segments: seq<Segment>): Assembly
    decreases |segments|
  {
    if segments == [] then a else Run(Extract(a, segments[0]).0, segments[1..])
  }

  function Concat(parts: seq<seq<byte>>): seq<byte> {
    if parts == [] then [] else parts[0] + Concat(parts[1..])
  }

  lemma {:induction false} RunConcat(a: Assembly, s: seq<Segment>, t: seq<Segment>)
    ensures Run(a, s + t) == Run(Run(a, s), t)
    decreases |s|
  {
    if s == [] {
      assert s + t == t;
    } else {
      assert (s + t)[0] == s[0] && (s + t)[1..] == s[1..] + t;
      RunConcat(Extract(a, s[0]).0, s[1..], t);
    }
  }

  lemma {:induction false} ConcatAppend(parts: seq<seq<byte>>, part: seq<byte>)
    ensures Concat(parts + [part]) == Concat(parts) + part
  {
    if parts == [] {
      assert [part][1..] == [];
    } else {
      assert (parts + [part])[1..] == parts[1..] + [part];
      ConcatAppend(parts[1..], part);
    }
  }

  // --- Any sequence of segments, well formed or not ---------------------------------------------------

  /** The segments of a run together with the status each one was answered with. */
  function Log(a: Assembly, segments: seq<Segment>): (r: seq<(Segment, Status)>)
    ensures |r| == |segments|
    decreases |segments|
  {
    if segments == [] then []
    else [(segments[0], Extract(a, segments[0]).1)] + Log(Extract(a, segments[0]).0, segments[1..])
  }

  /** The payloads accepted since the last accepted first segment, error or end of packet, oldest first. */
  function Since(log: seq<(Segment, Status)>): seq<seq<byte>> {
    if log == [] then []
    else
      var (segment, status) := log[|log| - 1];
      var before := Since(log[..|log| - 1]);
      if segment.flag.NoSegmentation? then before
      else if !status.Ok? || segment.flag.Last? || segment.content.None? then []
      else if segment.flag.First? then [segment.content.value]
      else before + [segment.content.value]
  }

  /** One packet for every accepted last segment, and those of every unsegmented frame. */
  function Emitted(log: seq<(Segment, Status)>): seq<seq<byte>> {
    if log == [] then []
    else
      var (segment, status) := log[|log| - 1];
      var before := log[..|log| - 1];
      Emitted(before) +
        if segment.content.None? then []
        else if segment.flag.NoSegmentation? && !status.ContentTooLarge? then Blocked(segment.content.value).0
        else if segment.flag.Last? && status.Ok? then [Concat(Since(before) + [segment.content.value])]
        else []
  }

  lemma {:induction false} LogAppend(a: Assembly, segments: seq<Segment>, s: Segment)
    ensures Log(a, segments + [s]) == Log(a, segments) + [(s, Extract(Run(a, segments), s).1)]
    decreases |segments|
  {
    if segments == [] {
      assert [s][1..] == [] && Log(Extract(a, s).0, []) == [];
    } else {
      assert (segments + [s])[1..] == segments[1..] + [s];
      LogAppend(Extract(a, segments[0]).0, segments[1..], s);
    }
  }

  /** The buffer and the packets sent are determined by the accepted segments, for every run from the start. */
  lemma {:induction false} HistoryDeterminesPackets(segments: seq<Segment>)
    ensures var a := Run(START, segments); var log := Log(START, segments);
            && a.pending == Concat(Since(log)) && |a.pending| <= MAX_PACKET_SIZE
            && a.sent == Emitted(log)
    decreases |segments|
  {
    if segments != [] {
      var front, s := segments[..|segments| - 1], segments[|segments| - 1];
      assert segments == front + [s];
      HistoryDeterminesPackets(front);
      LogAppend(START, front, s);
      RunConcat(START, front, [s]);
      var a, log := Run(START, front), Log(START, segments);
      assert Run(a, [s]) == Extract(a, s).0 by {
        assert [s][1..] == [];
      }
      assert log[..|log| - 1] == Log(START, front);
      if s.content.Some? {
        ConcatAppend(Since(Log(START, front)), s.content.value);
        ConcatAppend([], s.content.value);
        assert [] + [s.content.value] == [s.content.value];
      }
      StatusTellsAcceptance(a, s);
    }
  }

  lemma StatusTellsAcceptance(a: Assembly, s: Segment)
    ensures var (b, status) := Extract(a, s);
            && (s.flag.NoSegmentation? ==> b.pending == a.pending)
            && (s.flag.NoSegmentation? ==> (status.ContentTooLarge? <==> !Fits([], s.content)))
            && (!s.flag.NoSegmentation? && !status.Ok? ==> b.pending == [] && b.sent == a.sent)
            && (!s.flag.NoSegmentation? && status.Ok? ==> s.content.Some?)
  {
  }

  // --- Which segments are refused for what came before them -------------------------------------------

  /** A continuing or last segment that nothing in front of it allows: it comes first, or behind a whole packet. */
  predicate OutOfPlace(segments: seq<Segment>, i: nat)
    requires i < |segments|
  {
    && (segments[i].flag.Continuing? || segments[i].flag.Last?)
    && (i == 0 || segments[i - 1].flag.Last? || segments[i - 1].flag.NoSegmentation?)
  }

  lemma RunOne(a: Assembly, front: seq<Segment>, s: Segment)
    ensures Run(a, front + [s]) == Extract(Run(a, front), s).0
  {
    RunConcat(a, front, [s]);
    assert [s][1..] == [];
  }

  lemma {:induction false} LogAt(a: Assembly, segments: seq<Segment>, i: nat)
    requires i < |segments|
    ensures Log(a, segments)[i] == (segments[i], Extract(Run(a, segments[..i]), segments[i]).1)
    decreases i
  {
    if i == 0 {
      assert segments[..0] == [];
    } else {
      var b := Extract(a, segments[0]).0;
      LogAt(b, segments[1..], i - 1);
      assert segments[..i][1..] == segments[1..][..i - 1];
    }
  }

  /** The flag of the segment before, whatever it was answered with. */
  lemma LastFlag(segments: seq<Segment>, i: nat)
    requires i <= |segments|
    ensures Run(START, segments[..i]).last == if i == 0 then NoSegmentation else segments[i - 1].flag
  {
    if i > 0 {
      assert segments[..i] == segments[..i - 1] + [segments[i - 1]];
      RunOne(START, segments[..i - 1], segments[i - 1]);
    }
  }

  /** On every run from the start exactly the segments out of place are refused for their flags. */
  lemma RefusedIff(segments: seq<Segment>, i: nat)
    requires i < |segments|
    ensures Log(START, segments)[i].1.IllegalSegmentationFlag? <==> OutOfPlace(segments, i)
  {
    LogAt(START, segments, i);
    LastFlag(segments, i);
  }

  /** A segment out of place sends nothing and leaves nothing in the buffer. */
  lemma OutOfPlaceClears(segments: seq<Segment>, i: nat)
    requires i < |segments| && OutOfPlace(segments, i)
    ensures var a, b := Run(START, segments[..i]), Run(START, segments[..i + 1]); b.pending == [] && b.sent == a.sent
  {
    assert segments[..i + 1] == segments[..i] + [segments[i]];
    RunOne(START, segments[..i], segments[i]);
    RefusedIff(segments, i);
    LogAt(START, segments, i);
    StatusTellsAcceptance(Run(START, segments[..i]), segments[i]);
  }

  /** A last segment whose first one was lost is no packet. */
  lemma LostFirstExample()
    ensures var s := Segment(Last, Some([1, 2, 3]));
            Run(START, [s]).sent == [] && Log(START, [s]) == [(s, IllegalSegmentationFlag)]
  {
    var segments := [Segment(Last, Some([1, 2, 3]))];
    RefusedIff(segments, 0);
    OutOfPlaceClears(segments, 0);
    LogAt(START, segments, 0);
    assert segments[..0] == [] && segments[..1] == segments;
  }

  // --- Streams of whole packets -----------------------------------------------------------------------

  /** What a sender puts on the channel: a packet in two or more segments, or packets blocked into one frame. */
  datatype Unit = Segmented(parts: seq<seq<byte>>) | Blocking(packets: seq<seq<byte>>) {
    ghost predicate Valid() {
      match this
      case Segmented(parts) => |parts| >= 2
      case Blocking(packets) => forall p :: p in packets ==> |p| >= 7 && PacketSize(p) == |p|
    }
  }

  function Rest(parts: seq<seq<byte>>): (r: seq<Segment>)
    ensures |r| == |parts|
  {
    if parts == [] then []
    else [Segment(if |parts| == 1 then Last else Continuing, Some(parts[0]))] + Rest(parts[1..])
  }

  function Segments(u: Unit): (r: seq<Segment>)
    requires u.Valid()
    ensures |r| > 0
  {
    match u
    case Segmented(parts) => [Segment(First, Some(parts[0]))] + Rest(parts[1..])
    case Blocking(packets) => [Segment(NoSegmentation, Some(Concat(packets)))]
  }

  ghost predicate AllValid(units: seq<Unit>) {
    forall u :: u in units ==> u.Valid()
  }

  function Stream(units: seq<Unit>): seq<Segment>
    requires AllValid(units)
  {
    if units == [] then [] else Segments(units[0]) + Stream(units[1..])
  }

  lemma TailValid(units: seq<Unit>)
    requires AllValid(units) && units != []
    ensures AllValid(units[1..]) && units[0].Valid() && units == [units[0]] + units[1..]
  {
  }

  /** The units whose segments all lie among the first `k` of the stream. */
  function Complete(units: seq<Unit>, k: nat): (r: seq<Unit>)
    requires AllValid(units)
    ensures r <= units
  {
    if units == [] then []
    else
      TailValid(units);
      var n := |Segments(units[0])|;
      if k < n then [] else [units[0]] + Complete(units[1..], k - n)
  }

  /** The buffer after one more part: emptied when the part does not fit. */
  function Keep(pending: seq<byte>, part: seq<byte>): seq<byte> {
    if |pending| + |part| <= MAX_PACKET_SIZE then pending + part else []
  }

  function KeepAll(pending: seq<byte>, parts: seq<seq<byte>>): seq<byte>
    decreases |parts|
  {
    if parts == [] then pending else KeepAll(Keep(pending, parts[0]), parts[1..])
  }

  /** What is sent for the parts of a packet behind `pending`. */
  function Closing(pending: seq<byte>, parts: seq<seq<byte>>): seq<seq<byte>>
    requires parts != []
  {
    var kept, last := KeepAll(pending, parts[..|parts| - 1]), parts[|parts| - 1];
    if |kept| + |last| <= MAX_PACKET_SIZE then [kept + last] else []
  }

  function Emission(u: Unit): seq<seq<byte>>
    requires u.Valid()
  {
    match u
    case Segmented(parts) => Closing([], parts)
    case Blocking(packets) => if |Concat(packets)| <= MAX_PACKET_SIZE then Blocked(Concat(packets)).0 else []
  }

  function Emissions(units: seq<Unit>): seq<seq<byte>>
    requires AllValid(units)
  {
    if units == [] then [] else Emission(units[0]) + Emissions(units[1..])
  }

  lemma {:induction false} RunRest(a: Assembly, parts: seq<seq<byte>>, k: nat)
    requires (a.last.First? || a.last.Continuing?) && k <= |parts| && parts != []
    ensures var b := Run(a, Rest(parts)[..k]);
            b.sent == a.sent + if k == |parts| then Closing(a.pending, parts) else []
    decreases |parts|
  {
    if k == 0 {
      assert Rest(parts)[..k] == [];
    } else {
      var s := Rest(parts)[0];
      var b := Extract(a, s).0;
      assert Rest(parts)[..k][1..] == Rest(parts[1..])[..k - 1];
      if |parts| > 1 {
        RunRest(b, parts[1..], k - 1);
        assert b.pending == Keep(a.pending, parts[0]);
        assert parts[..|parts| - 1][1..] == parts[1..][..|parts| - 2];
      } else {
        assert parts[..0] == [] && Rest(parts[1..])[..0] == [];
      }
    }
  }

  lemma RunSegmented(a: Assembly, parts: seq<seq<byte>>, k: nat)
    requires |parts| >= 2 && 0 < k <= |parts|
    ensures Run(a, ([Segment(First, Some(parts[0]))] + Rest(parts[1..]))[..k]).sent ==
            a.sent + if k == |parts| then Closing([], parts) else []
  {
    var s := Segment(First, Some(parts[0]));
    var b := Extract(a, s).0;
    assert b.pending == Keep([], parts[0]) && b.sent == a.sent && b.last.First?;
    RunRest(b, parts[1..], k - 1);
    ClosingFromStart(parts);
    assert ([s] + Rest(parts[1..]))[..k] == [s] + Rest(parts[1..])[..k - 1];
    RunHead(a, s, Rest(parts[1..])[..k - 1]);
  }

  lemma RunHead(a: Assembly, s: Segment, rest: seq<Segment>)
    ensures Run(a, [s] + rest) == Run(Extract(a, s).0, rest)
  {
    assert ([s] + rest)[1..] == rest;
  }

  /** One unit: nothing is sent before its last segment, then exactly its emission. */
  lemma RunUnit(a: Assembly, u: Unit, k: nat)
    requires u.Valid() && k <= |Segments(u)|
    ensures Run(a, Segments(u)[..k]).sent == a.sent + if k == |Segments(u)| then Emission(u) else []
  {
    if k == 0 {
      assert Segments(u)[..0] == [];
    } else {
      match u
      case Segmented(parts) =>
        RunSegmented(a, parts, k);
      case Blocking(packets) =>
        var s := Segment(NoSegmentation, Some(Concat(packets)));
        assert Segments(u)[..k] == [s] + [];
        RunHead(a, s, []);
    }
  }

  lemma ClosingFromStart(parts: seq<seq<byte>>)
    requires |parts| >= 2
    ensures Closing(Keep([], parts[0]), parts[1..]) == Closing([], parts)
  {
    assert parts[..|parts| - 1][1..] == parts[1..][..|parts| - 2];
  }

  lemma StreamHead(units: seq<Unit>, k: nat)
    requires AllValid(units) && units != []
    ensures AllValid(units[1..]) && units[0].Valid() && Stream(units) == Segments(units[0]) + Stream(units[1..])
    ensures Complete(units, k) == if k < |Segments(units[0])| then []
                                  else [units[0]] + Complete(units[1..], k - |Segments(units[0])|)
  {
  }

  lemma PartOfHead(a: Assembly, u: Unit, rest: seq<Segment>, k: nat, stream: seq<Segment>)
    requires u.Valid() && k < |Segments(u)| && stream == Segments(u) + rest
    ensures Run(a, stream[..k]).sent == a.sent + Emissions([])
  {
    assert stream[..k] == Segments(u)[..k];
    RunUnit(a, u, k);
  }

  /** A whole unit in front. */
  lemma HeadEmits(a: Assembly, u: Unit, rest: seq<Segment>, k: nat, stream: seq<Segment>, complete: seq<Unit>)
    requires u.Valid() && AllValid(complete) && |Segments(u)| <= k <= |stream| && stream == Segments(u) + rest
    requires var b := Run(a, Segments(u)); Run(b, rest[..k - |Segments(u)|]).sent == b.sent + Emissions(complete)
    ensures AllValid([u] + complete) && Run(a, stream[..k]).sent == a.sent + Emissions([u] + complete)
  {
    var n := |Segments(u)|;
    SplitPrefix(Segments(u), rest, k);
    RunConcat(a, Segments(u), rest[..k - n]);
    RunUnit(a, u, n);
    assert Segments(u)[..n] == Segments(u);
    EmissionsOfHead(u, complete, a.sent);
  }

  /** Over any prefix of a stream, what is sent is exactly the emissions of the units complete in it. */
  lemma {:induction false} StreamEmits(a: Assembly, units: seq<Unit>, k: nat)
    requires AllValid(units) && k <= |Stream(units)|
    ensures Run(a, Stream(units)[..k]).sent == a.sent + Emissions(Complete(units, k))
    decreases |units|
  {
    if units == [] {
      assert Stream(units)[..k] == [];
    } else {
      StreamHead(units, k);
      var u, rest, n := units[0], units[1..], |Segments(units[0])|;
      if k < n {
        PartOfHead(a, u, Stream(rest), k, Stream(units));
      } else {
        StreamEmits(Run(a, Segments(u)), rest, k - n);
        HeadEmits(a, u, Stream(rest), k, Stream(units), Complete(rest, k - n));
      }
    }
  }

  lemma SplitPrefix<T>(head: seq<T>, tail: seq<T>, k: nat)
    requires |head| <= k <= |head| + |tail|
    ensures (head + tail)[..k] == head + tail[..k - |head|] && head[..|head|] == head
  {
  }

  lemma EmissionsOfHead(u: Unit, units: seq<Unit>, sent: seq<seq<byte>>)
    requires u.Valid() && AllValid(units)
    ensures AllValid([u] + units) && sent + Emission(u) + Emissions(units) == sent + Emissions([u] + units)
  {
    assert ([u] + units)[1..] == units;
  }

  // --- When exactly the packets come out ------------------------------------------------------------------

  /** What the channel is for: every packet of at most 4096 bytes, and nothing else. */
  function Intended(u: Unit): seq<seq<byte>> {
    match u
    case Segmented(parts) => if |Concat(parts)| <= MAX_PACKET_SIZE then [Concat(parts)] else []
    case Blocking(packets) => if |Concat(packets)| <= MAX_PACKET_SIZE then packets else []
  }

  function Sum(sizes: seq<nat>): nat {
    if sizes == [] then 0 else sizes[0] + Sum(sizes[1..])
  }

  function Sizes(parts: seq<seq<byte>>): (r: seq<nat>)
    ensures |r| == |parts|
  {
    seq(|parts|, i requires 0 <= i < |parts| => |parts[i]|)
  }

  /** Parts of these sizes fit into the buffer but for the last one. */
  predicate Outgrow(sizes: seq<nat>) {
    sizes != [] && Sum(sizes[..|sizes| - 1]) <= MAX_PACKET_SIZE < Sum(sizes)
  }

  /** The sizes fall into runs each of which outgrows the buffer just with its last part. */
  ghost predicate RunsOutgrow(sizes: seq<nat>)
    decreases |sizes|
  {
    sizes == [] || exists k :: 0 < k <= |sizes| && Outgrow(sizes[..k]) && RunsOutgrow(sizes[k..])
  }

  /**
   A segmented packet is handled as intended when it fits, or when its parts fall into runs that
   outgrow the buffer; blocked packets are, when the last of them is larger than eight bytes.
   */
  ghost predicate Clean(u: Unit)
    requires u.Valid()
  {
    match u
    case Segmented(parts) => Sum(Sizes(parts)) <= MAX_PACKET_SIZE || RunsOutgrow(Sizes(parts))
    case Blocking(packets) =>
      packets == [] || |packets[|packets| - 1]| > MINIMUM_SIZE || |Concat(packets)| > MAX_PACKET_SIZE
  }

  lemma SizesTail(parts: seq<seq<byte>>)
    requires parts != []
    ensures Sizes(parts)[0] == |parts[0]| && Sizes(parts)[1..] == Sizes(parts[1..])
  {
  }

  lemma {:induction false} SumOfSizes(parts: seq<seq<byte>>)
    ensures |Concat(parts)| == Sum(Sizes(parts))
  {
    if parts != [] {
      SizesTail(parts);
      SumOfSizes(parts[1..]);
    }
  }

  /** Is the part that came last dropped? */
  function EndsDropped(kept: nat, sizes: seq<nat>, dropped: bool): bool
    decreases |sizes|
  {
    if sizes == [] then dropped
    else if kept + sizes[0] <= MAX_PACKET_SIZE then EndsDropped(kept + sizes[0], sizes[1..], false)
    else EndsDropped(0, sizes[1..], true)
  }

  lemma {:induction false} ClosingDrops(pending: seq<byte>, parts: seq<seq<byte>>, dropped: bool)
    requires parts != []
    ensures Closing(pending, parts) == [] <==> EndsDropped(|pending|, Sizes(parts), dropped)
    decreases |parts|
  {
    SizesTail(parts);
    if |parts| == 1 {
      assert parts[..0] == [] && parts[1..] == [];
    } else {
      assert parts[..|parts| - 1][1..] == parts[1..][..|parts| - 2];
      var kept := Keep(pending, parts[0]);
      assert Closing(pending, parts) == Closing(kept, parts[1..]);
      ClosingDrops(kept, parts[1..], |pending| + |parts[0]| > MAX_PACKET_SIZE);
    }
  }

  /** The first run that outgrows the buffer, with some bytes kept in front of it. */
  ghost predicate FirstRun(kept: nat, sizes: seq<nat>, k: nat) {
    0 < k <= |sizes| && kept + Sum(sizes[..k - 1]) <= MAX_PACKET_SIZE < kept + Sum(sizes[..k])
  }

  lemma {:induction false} FirstRunDrops(kept: nat, sizes: seq<nat>, k: nat)
    requires FirstRun(kept, sizes, k)
    ensures EndsDropped(kept, sizes, false) == EndsDropped(0, sizes[k..], true)
    decreases |sizes|
  {
    assert sizes[..k][1..] == sizes[1..][..k - 1];
    if k == 1 {
      assert sizes[..0] == [] && Sum(sizes[..1]) == sizes[0] + Sum([]);
    } else {
      assert sizes[..k - 1][1..] == sizes[1..][..k - 2] && sizes[1..][k - 1..] == sizes[k..];
      FirstRunDrops(kept + sizes[0], sizes[1..], k - 1);
    }
  }

  lemma {:induction false} DroppedHasRun(kept: nat, sizes: seq<nat>) returns (k: nat)
    requires EndsDropped(kept, sizes, false) && kept <= MAX_PACKET_SIZE
    ensures FirstRun(kept, sizes, k)
    decreases |sizes|
  {
    if kept + sizes[0] > MAX_PACKET_SIZE {
      k := 1;
      assert sizes[..0] == [] && sizes[..1][1..] == [];
    } else {
      var m := DroppedHasRun(kept + sizes[0], sizes[1..]);
      k := m + 1;
      assert sizes[..k][1..] == sizes[1..][..m] && sizes[..k - 1][1..] == sizes[1..][..m - 1];
    }
  }

  lemma {:induction false} RunsDrop(sizes: seq<nat>)
    ensures EndsDropped(0, sizes, true) <==> RunsOutgrow(sizes)
    decreases |sizes|
  {
    if sizes != [] {
      if EndsDropped(0, sizes, true) {
        var k := DroppedHasRun(0, sizes);
        FirstRunDrops(0, sizes, k);
        RunsDrop(sizes[k..]);
        assert sizes[..k][..k - 1] == sizes[..k - 1];
        assert Outgrow(sizes[..k]);
      }
      if RunsOutgrow(sizes) {
        var k :| 0 < k <= |sizes| && Outgrow(sizes[..k]) && RunsOutgrow(sizes[k..]);
        assert sizes[..k][..k - 1] == sizes[..k - 1];
        FirstRunDrops(0, sizes, k);
        RunsDrop(sizes[k..]);
      }
    }
  }

  lemma {:induction false} SumSplit(sizes: seq<nat>, k: nat)
    requires k <= |sizes|
    ensures Sum(sizes) == Sum(sizes[..k]) + Sum(sizes[k..])
  {
    if k == 0 {
      assert sizes[..0] == [] && sizes[0..] == sizes;
    } else {
      SumSplit(sizes[1..], k - 1);
      assert sizes[..k][1..] == sizes[1..][..k - 1] && sizes[1..][k - 1..] == sizes[k..];
    }
  }

  /** For packets of at most twice the buffer there is only one run: the parts in front of the last one fit. */
  lemma CleanUpToTwice(parts: seq<seq<byte>>)
    requires |parts| >= 2 && Sum(Sizes(parts)) <= 2 * MAX_PACKET_SIZE
    ensures Clean(Segmented(parts))
       <==> Sum(Sizes(parts)) <= MAX_PACKET_SIZE || Sum(Sizes(parts[..|parts| - 1])) <= MAX_PACKET_SIZE
  {
    var sizes, n := Sizes(parts), |parts|;
    assert Sizes(parts[..n - 1]) == sizes[..n - 1] && sizes[..n] == sizes;
    if Sum(sizes) > MAX_PACKET_SIZE && Sum(sizes[..n - 1]) <= MAX_PACKET_SIZE {
      assert sizes[n..] == [];
      assert Outgrow(sizes[..n]) && RunsOutgrow(sizes[n..]);
    } else if Sum(sizes) > MAX_PACKET_SIZE && RunsOutgrow(sizes) {
      var k :| 0 < k <= n && Outgrow(sizes[..k]) && RunsOutgrow(sizes[k..]);
      SumSplit(sizes, k);
      if k < n {
        var m :| 0 < m <= |sizes[k..]| && Outgrow(sizes[k..][..m]);
        SumSplit(sizes[k..], m);
      }
    }
  }

  lemma {:induction false} KeepAllFits(pending: seq<byte>, parts: seq<seq<byte>>)
    requires |pending| + |Concat(parts)| <= MAX_PACKET_SIZE
    ensures KeepAll(pending, parts) == pending + Concat(parts)
    decreases |parts|
  {
    if parts != [] {
      KeepAllFits(pending + parts[0], parts[1..]);
    }
  }

  lemma SplitLast(parts: seq<seq<byte>>)
    requires parts != []
    ensures Concat(parts) == Concat(parts[..|parts| - 1]) + parts[|parts| - 1]
  {
    ConcatAppend(parts[..|parts| - 1], parts[|parts| - 1]);
    assert parts == parts[..|parts| - 1] + [parts[|parts| - 1]];
  }

  lemma BlockedHead(p: seq<byte>, tail: seq<byte>)
    requires |p| >= 7 && PacketSize(p) == |p| && |p| + |tail| > MINIMUM_SIZE
    ensures Blocked(p + tail) == ([p] + Blocked(tail).0, Blocked(tail).1)
  {
    var data := p + tail;
    assert data[4] == p[4] && data[5] == p[5];
    assert data[..|p|] == p && data[|p|..] == tail;
  }

  /** The packets that come out of a blocked payload, and the bytes left over. */
  function Delivered(packets: seq<seq<byte>>): (seq<seq<byte>>, Option<seq<byte>>) {
    var n := |packets|;
    if n == 0 || |packets[n - 1]| > MINIMUM_SIZE then (packets, Some([]))
    else (packets[..n - 1], Some(packets[n - 1]))
  }

  lemma DeliveredHead(p: seq<byte>, rest: seq<seq<byte>>)
    requires rest != []
    ensures Delivered([p] + rest) == ([p] + Delivered(rest).0, Delivered(rest).1)
  {
    assert ([p] + rest)[..|rest|] == [p] + rest[..|rest| - 1];
  }

  lemma ConcatHead(p: seq<byte>, rest: seq<seq<byte>>)
    ensures Concat([p] + rest) == p + Concat(rest)
  {
    assert ([p] + rest)[1..] == rest;
  }

  /** Packets blocked into one payload come out again, but for a last one of at most eight bytes. */
  lemma {:induction false} BlockedPackets(packets: seq<seq<byte>>)
    requires Blocking(packets).Valid()
    ensures Blocked(Concat(packets)) == Delivered(packets)
    decreases |packets|
  {
    if |packets| == 1 {
      OnePacket(packets[0]);
      assert packets == [packets[0]] && packets[..0] == [];
    } else if |packets| > 1 {
      var p, rest := packets[0], packets[1..];
      assert packets == [p] + rest && p in packets && rest[0] in packets;
      forall q | q in rest ensures q in packets { }
      BlockedPackets(rest);
      ConcatHead(p, rest);
      BlockedHead(p, Concat(rest));
      DeliveredHead(p, rest);
    }
  }

  lemma OnePacket(p: seq<byte>)
    requires |p| >= 7 && PacketSize(p) == |p|
    ensures Concat([p]) == p
    ensures Blocked(p) == if |p| > MINIMUM_SIZE then ([p], Some([])) else ([], Some(p))
  {
    assert [p][1..] == [] && p + Concat([]) == p && p + [] == p;
    if |p| > MINIMUM_SIZE {
      BlockedHead(p, []);
      assert [p] + [] == [p];
    }
  }

  /** What follows the packets taken off a payload. */
  ghost predicate Leftover(data: seq<byte>, packets: seq<seq<byte>>, tail: seq<byte>) {
    && data == Concat(packets) + tail && (forall p :: p in packets ==> |p| >= 7 && PacketSize(p) == |p|)
    && (|tail| <= MINIMUM_SIZE || PacketSize(tail) > |tail|)
  }

  lemma JoinsAgain(data: seq<byte>, p: seq<byte>, rest: seq<byte>, taken: seq<byte>, tail: seq<byte>, all: seq<byte>)
    requires data == p + rest && rest == taken + tail && all == p + taken
    ensures data == all + tail
  {
  }

  /**
   Any unsegmented payload is some whole packets and what is left: the packets are sent, and the answer tells
   whether something is left, or a packet that is not all there, or nothing came at all.
   */
  lemma {:induction false} BlockedAnswer(data: seq<byte>) returns (tail: seq<byte>)
    ensures Leftover(data, Blocked(data).0, tail)
    ensures BlockedStatus(data).DataCorrupted? <==> |tail| > MINIMUM_SIZE
    ensures BlockedStatus(data).ResidualData? <==> 0 < |tail| <= MINIMUM_SIZE
    ensures BlockedStatus(data).TooShortBlockedPacket? <==> data == []
    ensures BlockedStatus(data).Ok? <==> tail == [] && data != []
    decreases |data|
  {
    if |data| <= MINIMUM_SIZE || PacketSize(data) > |data| {
      tail := data;
      assert Concat([]) + tail == data;
    } else {
      var p, rest := data[..PacketSize(data)], data[PacketSize(data)..];
      assert PacketSize(p) == PacketSize(data);
      tail := BlockedAnswer(rest);
      var packets := Blocked(rest).0;
      ConcatHead(p, packets);
      JoinsAgain(data, p, rest, Concat(packets), tail, Concat([p] + packets));
      forall q | q in [p] + packets ensures |q| >= 7 && PacketSize(q) == |q| { }
    }
  }

  /** A packet of seven bytes, alone in its frame, does not come out. */
  lemma ShortPacketIsLeftOver()
    ensures var u := Blocking([[0, 0, 0, 0, 0, 0, 9]]);
            u.Valid() && !Clean(u) && Intended(u) == [[0, 0, 0, 0, 0, 0, 9]] && Emission(u) == []
  {
    var p: seq<byte> := [0, 0, 0, 0, 0, 0, 9];
    OnePacket(p);
  }

  /** A unit comes out as intended if and only if it is clean. */
  lemma CleanIff(u: Unit)
    requires u.Valid()
    ensures Emission(u) == Intended(u) <==> Clean(u)
  {
    match u
    case Segmented(parts) =>
      SumOfSizes(parts);
      ClosingDrops([], parts, true);
      RunsDrop(Sizes(parts));
      SplitLast(parts);
      if |Concat(parts)| <= MAX_PACKET_SIZE {
        var front := parts[..|parts| - 1];
        KeepAllFits([], front);
        assert [] + Concat(front) == Concat(front);
      }
    case Blocking(packets) =>
      BlockedPackets(packets);
      if packets != [] {
        assert |packets[..|packets| - 1]| != |packets|;
      }
  }

  function AllIntended(units: seq<Unit>): seq<seq<byte>> {
    if units == [] then [] else Intended(units[0]) + AllIntended(units[1..])
  }

  lemma {:induction false} CleanStream(units: seq<Unit>)
    requires AllValid(units) && forall u :: u in units ==> u.Valid() && Clean(u)
    ensures Emissions(units) == AllIntended(units)
  {
    if units != [] {
      CleanIff(units[0]);
      CleanStream(units[1..]);
    }
  }

  function Zeros(n: nat): (r: seq<byte>)
    ensures |r| == n
  {
    seq(n, _ => 0)
  }

  /** A packet that outgrows the buffer before its last segment leaves a fragment: its tail is sent as a packet. */
  lemma OversizeLeavesFragment()
    ensures var u := Segmented([Zeros(4000), Zeros(200), [1, 2, 3]]);
            u.Valid() && !Clean(u) && Intended(u) == [] && Emission(u) == [[1, 2, 3]]
  {
    var a, b, c: seq<byte> := Zeros(4000), Zeros(200), [1, 2, 3];
    var front, parts: seq<seq<byte>> := [a, b], [a, b, c];
    var second: seq<seq<byte>> := [b];
    assert parts[..2] == front && front[1..] == second && second[1..] == [];
    assert KeepAll([], front) == KeepAll(Keep([], a), second) == KeepAll(Keep(Keep([], a), b), []);
    assert KeepAll([], parts[..2]) == [] && [] + c == c;
    SplitLast(parts);
    SplitLast(front);
    assert front[..1] == [a];
    SplitLast([a]);
    assert |Concat(parts)| == 4203;
    CleanIff(Segmented(parts));
  }
}
