/**
 The receiver behind a channel that loses, repeats and reorders: in-order, exactly-once delivery of
 sequence-controlled frames, and through reassembly of the packets in them.
 */
module TcReceiver {
  import opened Checksum
  import opened Farm1
  import opened VC = VirtualChannelReception
  import F = TcTransferFrame
  import M = MapPacketExtraction
  import S = MapStream

  /** The sender numbers its sequence-controlled frames from zero, modulo 256. */
  ghost predicate Numbered(sent: seq<seq<byte>>) {
    forall i :: 0 <= i < |sent| ==> M.IsDelimited(sent[i]) && EventOf(sent[i]) == Ad(i % 0x100)
  }

  /** A copy of the frame with the given place in the sender's order, some other frame, or a request to wait. */
  datatype Arrival = Copy(index: nat) | Other(frame: seq<byte>) | WaitRequested

  /** Frames outside of the sender's numbering: bypass data, control commands and frames the FARM refuses. */
  ghost predicate Unnumbered(frame: seq<byte>) {
    M.IsDelimited(frame) && !EventOf(frame).Ad?
  }

  ghost predicate Known(sent: seq<seq<byte>>, a: Arrival) {
    match a
    case Copy(i) => i < |sent|
    case Other(frame) => Unnumbered(frame)
    case WaitRequested => true
  }

  ghost predicate AllKnown(sent: seq<seq<byte>>, arrivals: seq<Arrival>) {
    Numbered(sent) && forall a :: a in arrivals ==> Known(sent, a)
  }

  ghost function Arrive(c: Channel, w: nat, sent: seq<seq<byte>>, a: Arrival): Channel
    requires Numbered(sent) && Known(sent, a)
  {
    match a
    case Copy(i) => Receive(c, w, sent[i]).0
    case Other(frame) => Receive(c, w, frame).0
    case WaitRequested => c.(farm := EnterWait(c.farm))
  }

  ghost function Deliver(c: Channel, w: nat, sent: seq<seq<byte>>, arrivals: seq<Arrival>): Channel
    requires AllKnown(sent, arrivals)
  {
    if arrivals == [] then c
    else Arrive(Deliver(c, w, sent, arrivals[..|arrivals| - 1]), w, sent, arrivals[|arrivals| - 1])
  }

  /** Does the FARM hand this arrival on? */
  ghost predicate Passes(c: Channel, w: nat, sent: seq<seq<byte>>, a: Arrival)
    requires Numbered(sent) && Known(sent, a)
  {
    a.Copy? && Step(c.farm, w, EventOf(sent[a.index])).1.Accepted?
  }

  /** The places, in the sender's order, of the frames handed on, in the order in which they were. */
  ghost function HandedOn(c: Channel, w: nat, sent: seq<seq<byte>>, arrivals: seq<Arrival>): seq<nat>
    requires AllKnown(sent, arrivals)
  {
    if arrivals == [] then []
    else
      var front, a := arrivals[..|arrivals| - 1], arrivals[|arrivals| - 1];
      HandedOn(c, w, sent, front) + if Passes(Deliver(c, w, sent, front), w, sent, a) then [a.index] else []
  }

  /** A command, not lost to lockout, that sets V(R) to another number than that of the next frame. */
  ghost predicate Renumbers(c: Channel, n: nat, a: Arrival) {
    && a.Other? && M.IsDelimited(a.frame) && EventOf(a.frame).BcSetVr?
    && !c.farm.state.Lockout? && EventOf(a.frame).vr != n % 0x100
  }

  /**
   Every copy arrives while its place is within 255 of the number of frames handed on before, and no
   command renumbers.
   */
  ghost predicate Timely(c: Channel, w: nat, sent: seq<seq<byte>>, arrivals: seq<Arrival>)
    requires AllKnown(sent, arrivals)
  {
    arrivals == [] ||
    var front, a := arrivals[..|arrivals| - 1], arrivals[|arrivals| - 1];
    var n := |HandedOn(c, w, sent, front)|;
    && Timely(c, w, sent, front)
    && (a.Copy? ==> -255 <= a.index - n <= 255) && !Renumbers(Deliver(c, w, sent, front), n, a)
  }

  ghost function UpTo(n: nat): (r: seq<nat>)
    ensures |r| == n
  {
    seq(n, i requires 0 <= i < n => i)
  }

  /** The MAP channels after the given frames have been passed to them. */
  ghost function MapsAfter(maps: map<byte, M.Assembly>, frames: seq<seq<byte>>): map<byte, M.Assembly>
    requires forall f :: f in frames ==> M.IsDelimited(f)
  {
    if frames == [] then maps
    else
      var front, f := frames[..|frames| - 1], frames[|frames| - 1];
      assert f in frames;
      Demultiplex(MapsAfter(maps, front), f).0
  }

  // --- In order and exactly once ------------------------------------------------------------------------

  lemma SameNumberSamePlace(i: nat, n: nat)
    requires -255 <= i - n <= 255 && i % 0x100 == n % 0x100
    ensures i == n
  {
  }

  /** The frame, if any, that an arrival passes to the MAP channels: a numbered one handed on, or bypass data. */
  ghost function Forwards(c: Channel, w: nat, sent: seq<seq<byte>>, a: Arrival): seq<seq<byte>>
    requires Numbered(sent) && Known(sent, a)
  {
    if Passes(c, w, sent, a) then [sent[a.index]]
    else if a.Other? && EventOf(a.frame).Bd? then [a.frame]
    else []
  }

  /** All frames passed to the MAP channels, in order. */
  ghost function Forwarded(c: Channel, w: nat, sent: seq<seq<byte>>, arrivals: seq<Arrival>): seq<seq<byte>>
    requires AllKnown(sent, arrivals)
  {
    if arrivals == [] then []
    else
      var front, a := arrivals[..|arrivals| - 1], arrivals[|arrivals| - 1];
      Forwarded(c, w, sent, front) + Forwards(Deliver(c, w, sent, front), w, sent, a)
  }

  ghost predicate AllDelimited(frames: seq<seq<byte>>) { forall f :: f in frames ==> M.IsDelimited(f) }

  /** The numbered frames among those passed on. */
  ghost function Sequenced(frames: seq<seq<byte>>): seq<seq<byte>>
    requires AllDelimited(frames)
  {
    if frames == [] then []
    else
      var front, f := frames[..|frames| - 1], frames[|frames| - 1];
      assert f in frames;
      Sequenced(front) + if EventOf(f).Ad? then [f] else []
  }

  lemma ForwardOne(maps: map<byte, M.Assembly>, frames: seq<seq<byte>>, f: seq<byte>)
    requires AllDelimited(frames) && M.IsDelimited(f)
    ensures AllDelimited(frames + [f])
    ensures MapsAfter(maps, frames + [f]) == Demultiplex(MapsAfter(maps, frames), f).0
    ensures Sequenced(frames + [f]) == Sequenced(frames) + if EventOf(f).Ad? then [f] else []
  {
    assert (frames + [f])[..|frames|] == frames;
  }

  /**
   A numbered frame that is handed on takes V(R) one further; the MAP channels see what is passed on,
   and nothing else.
   */
  lemma ArrivalStep(c: Channel, w: nat, sent: seq<seq<byte>>, a: Arrival, n: nat)
    requires Numbered(sent) && Known(sent, a)
    ensures var d := Arrive(c, w, sent, a);
            && (if Passes(c, w, sent, a) then a.index % 0x100 == c.farm.vR && d.farm.vR == (c.farm.vR + 1) % 0x100
                else c.farm.vR == n % 0x100 ==> (d.farm.vR == c.farm.vR <==> !Renumbers(c, n, a)))
            && (var f := Forwards(c, w, sent, a);
                if f == [] then d.maps == c.maps else M.IsDelimited(f[0]) && d.maps == Demultiplex(c.maps, f[0]).0)
  {
  }

  /**
   The first frames sent have been handed on, in order and once each, and V(R) tells so; the MAP
   channels have seen just the frames passed on, of which those are the numbered ones.
   */
  ghost predicate Delivered(c: Channel, maps: map<byte, M.Assembly>, sent: seq<seq<byte>>, handed: seq<nat>,
                            forwarded: seq<seq<byte>>)
    requires Numbered(sent)
  {
    var n := |handed|;
    && n <= |sent| && handed == UpTo(n) && c.farm.vR == n % 0x100
    && AllDelimited(forwarded) && c.maps == MapsAfter(maps, forwarded) && Sequenced(forwarded) == sent[..n]
  }

  /** One arrival within the bound is handed on if and only if it is the next frame and the receiver is open. */
  lemma PassesIff(c: Channel, maps: map<byte, M.Assembly>, w: nat, sent: seq<seq<byte>>, handed: seq<nat>,
              forwarded: seq<seq<byte>>, a: Arrival)
    requires Numbered(sent) && Known(sent, a) && Delivered(c, maps, sent, handed, forwarded)
    requires a.Copy? ==> -255 <= a.index - |handed| <= 255
    ensures Passes(c, w, sent, a) <==> c.farm.state.Open? && a == Copy(|handed|)
  {
    if a.Copy? && a.index % 0x100 == |handed| % 0x100 { SameNumberSamePlace(a.index, |handed|); }
  }

  lemma OneArrival(c: Channel, maps: map<byte, M.Assembly>, w: nat, sent: seq<seq<byte>>, handed: seq<nat>,
              forwarded: seq<seq<byte>>, a: Arrival)
    requires Numbered(sent) && Known(sent, a) && Delivered(c, maps, sent, handed, forwarded)
    requires (a.Copy? ==> -255 <= a.index - |handed| <= 255) && !Renumbers(c, |handed|, a)
    ensures Delivered(Arrive(c, w, sent, a), maps, sent, handed + (if Passes(c, w, sent, a) then [a.index] else []),
                      forwarded + Forwards(c, w, sent, a))
  {
    var n, f := |handed|, Forwards(c, w, sent, a);
    ArrivalStep(c, w, sent, a, n);
    PassesIff(c, maps, w, sent, handed, forwarded, a);
    if f == [] {
      assert handed + [] == handed && forwarded + [] == forwarded;
    } else {
      ForwardOne(maps, forwarded, f[0]);
      assert forwarded + f == forwarded + [f[0]];
      if Passes(c, w, sent, a) {
        CountOneMore(n);
        assert UpTo(n) + [n] == UpTo(n + 1);
        assert sent[..n] + [sent[n]] == sent[..n + 1];
      } else {
        assert handed + [] == handed && sent[..n] + [] == sent[..n];
      }
    }
  }

  /** A command to set V(R) leaves all this as it is if and only if it does not renumber. */
  lemma RenumbersIff(c: Channel, maps: map<byte, M.Assembly>, w: nat, sent: seq<seq<byte>>, handed: seq<nat>,
                     forwarded: seq<seq<byte>>, a: Arrival)
    requires Numbered(sent) && Known(sent, a) && Delivered(c, maps, sent, handed, forwarded)
    requires a.Other? && EventOf(a.frame).BcSetVr?
    ensures Delivered(Arrive(c, w, sent, a), maps, sent, handed, forwarded) <==> !Renumbers(c, |handed|, a)
  {
    ArrivalStep(c, w, sent, a, |handed|);
  }

  /**
   For every run, window and initial content of the MAP channels: the frames handed on are the first n
   frames sent, in order and once each, V(R) is n modulo 256, and the MAP channels have seen just them
   and the bypass data in between.
   */
  lemma {:induction false} InOrderExactlyOnce(maps: map<byte, M.Assembly>, w: nat, sent: seq<seq<byte>>,
                                              arrivals: seq<Arrival>)
    requires AllKnown(sent, arrivals) && Timely(Channel(START, maps), w, sent, arrivals)
    ensures var c := Deliver(Channel(START, maps), w, sent, arrivals);
            Delivered(c, maps, sent, HandedOn(Channel(START, maps), w, sent, arrivals),
                      Forwarded(Channel(START, maps), w, sent, arrivals))
    decreases |arrivals|
  {
    var start := Channel(START, maps);
    if arrivals == [] {
      assert sent[..0] == [];
    } else {
      var front, a := arrivals[..|arrivals| - 1], arrivals[|arrivals| - 1];
      InOrderExactlyOnce(maps, w, sent, front);
      OneArrival(Deliver(start, w, sent, front), maps, w, sent, HandedOn(start, w, sent, front),
                 Forwarded(start, w, sent, front), a);
    }
  }

  // --- A sender that keeps to the window -----------------------------------------------------------------

  /** Every copy arrives within the sliding window around the next frame, and no command renumbers. */
  ghost predicate InWindow(c: Channel, w: nat, sent: seq<seq<byte>>, arrivals: seq<Arrival>)
    requires AllKnown(sent, arrivals)
  {
    arrivals == [] ||
    var front, a := arrivals[..|arrivals| - 1], arrivals[|arrivals| - 1];
    var n := |HandedOn(c, w, sent, front)|;
    && InWindow(c, w, sent, front)
    && (a.Copy? ==> -(w as int) <= a.index - n < w) && !Renumbers(Deliver(c, w, sent, front), n, a)
  }

  lemma PlaceOnCircle(i: nat, n: nat)
    ensures Ahead(i % 0x100, n % 0x100) == (i - n) % 0x100
  {
  }

  /**
   A receiver not in lockout goes there exactly on a copy whose distance from the next frame, modulo
   256, lies outside of the window; the next frame itself is never outside for an open one.
   */
  lemma LocksOutIff(c: Channel, maps: map<byte, M.Assembly>, w: nat, sent: seq<seq<byte>>, handed: seq<nat>,
                    forwarded: seq<seq<byte>>, a: Arrival)
    requires Numbered(sent) && Known(sent, a) && Delivered(c, maps, sent, handed, forwarded)
    requires w <= 127 && !c.farm.state.Lockout?
    ensures Arrive(c, w, sent, a).farm.state.Lockout?
       <==> a.Copy? && w <= (a.index - |handed|) % 0x100 < 0x100 - w
            && !(c.farm.state.Open? && (a.index - |handed|) % 0x100 == 0)
  {
    if a.Copy? {
      PlaceOnCircle(a.index, |handed|);
      assert EventOf(sent[a.index]) == Ad(a.index % 0x100);
    }
  }

  lemma WindowOnCircle(d: int, w: nat)
    requires w <= 127 && -(w as int) <= d < w
    ensures !(w <= d % 0x100 < 0x100 - w)
  {
    assert d % 0x100 == if d >= 0 then d else d + 0x100;
  }

  lemma StaysUnlocked(c: Channel, maps: map<byte, M.Assembly>, w: nat, sent: seq<seq<byte>>, handed: seq<nat>,
                      forwarded: seq<seq<byte>>, a: Arrival)
    requires Numbered(sent) && Known(sent, a) && Delivered(c, maps, sent, handed, forwarded)
    requires w <= 127 && !c.farm.state.Lockout?
    requires a.Copy? ==> -(w as int) <= a.index - |handed| < w
    ensures !Arrive(c, w, sent, a).farm.state.Lockout?
  {
    LocksOutIff(c, maps, w, sent, handed, forwarded, a);
    if a.Copy? { WindowOnCircle(a.index - |handed|, w); }
  }

  /** With a sender that keeps to the window, whatever is lost, repeated or reordered, the receiver never locks out. */
  lemma {:induction false} WindowPreventsLockout(maps: map<byte, M.Assembly>, w: nat, sent: seq<seq<byte>>,
                                                 arrivals: seq<Arrival>)
    requires AllKnown(sent, arrivals) && InWindow(Channel(START, maps), w, sent, arrivals) && w <= 127
    ensures !Deliver(Channel(START, maps), w, sent, arrivals).farm.state.Lockout?
    ensures Timely(Channel(START, maps), w, sent, arrivals)
    decreases |arrivals|
  {
    var start := Channel(START, maps);
    if arrivals != [] {
      var front, a := arrivals[..|arrivals| - 1], arrivals[|arrivals| - 1];
      WindowPreventsLockout(maps, w, sent, front);
      InOrderExactlyOnce(maps, w, sent, front);
      StaysUnlocked(Deliver(start, w, sent, front), maps, w, sent, HandedOn(start, w, sent, front),
                    Forwarded(start, w, sent, front), a);
    }
  }

  /** The bound of 255 is sharp: a frame 256 places ahead has the number expected and is taken for it. */
  lemma AheadBy256(maps: map<byte, M.Assembly>, w: nat, sent: seq<seq<byte>>)
    requires Numbered(sent) && |sent| > 256
    ensures HandedOn(Channel(START, maps), w, sent, [Copy(256)]) == [256]
  {
    var start, arrivals := Channel(START, maps), [Copy(256)];
    assert arrivals[..0] == [] && EventOf(sent[256]) == Ad(0);
    assert AllKnown(sent, []) && Deliver(start, w, sent, []) == start;
    assert Passes(start, w, sent, arrivals[0]);
    assert HandedOn(start, w, sent, arrivals) == HandedOn(start, w, sent, []) + [256];
  }

  /** After the first n copies, and after fewer, everything has been handed on by an open receiver. */
  ghost predicate AllHandedOn(maps: map<byte, M.Assembly>, w: nat, sent: seq<seq<byte>>, n: nat)
    decreases n
  {
    && AllKnown(sent, Copies(n)) && Timely(Channel(START, maps), w, sent, Copies(n))
    && HandedOn(Channel(START, maps), w, sent, Copies(n)) == UpTo(n)
    && Deliver(Channel(START, maps), w, sent, Copies(n)).farm.state.Open?
    && (n > 0 ==> AllHandedOn(maps, w, sent, n - 1))
  }

  /** A channel that loses, repeats and reorders nothing hands on everything. */
  lemma {:induction false} PerfectChannel(maps: map<byte, M.Assembly>, w: nat, sent: seq<seq<byte>>, n: nat)
    requires Numbered(sent) && n <= |sent|
    ensures AllHandedOn(maps, w, sent, n)
    decreases n
  {
    if n > 0 {
      PerfectChannel(maps, w, sent, n - 1);
      OneMoreHandedOn(maps, w, sent, n - 1);
    }
  }

  lemma OneMoreHandedOn(maps: map<byte, M.Assembly>, w: nat, sent: seq<seq<byte>>, n: nat)
    requires Numbered(sent) && n < |sent| && AllHandedOn(maps, w, sent, n)
    ensures AllHandedOn(maps, w, sent, n + 1)
  {
    InOrderExactlyOnce(maps, w, sent, Copies(n));
    NextCopy(Channel(START, maps), w, sent, Copies(n), n);
    OneMoreCopy(n);
  }

  lemma OneMoreCopy(n: nat)
    ensures Copies(n + 1) == Copies(n) + [Copy(n)] && UpTo(n + 1) == UpTo(n) + [n]
  {
  }

  function Copies(n: nat): (r: seq<Arrival>)
    ensures |r| == n
  {
    seq(n, i requires 0 <= i < n => Copy(i))
  }

  lemma NextCopy(c: Channel, w: nat, sent: seq<seq<byte>>, front: seq<Arrival>, n: nat)
    requires AllKnown(sent, front) && n < |sent| && Timely(c, w, sent, front) && |HandedOn(c, w, sent, front)| == n
    requires Deliver(c, w, sent, front).farm.state.Open? && Deliver(c, w, sent, front).farm.vR == n % 0x100
    ensures AllKnown(sent, front + [Copy(n)]) && Timely(c, w, sent, front + [Copy(n)])
    ensures HandedOn(c, w, sent, front + [Copy(n)]) == HandedOn(c, w, sent, front) + [n]
    ensures Deliver(c, w, sent, front + [Copy(n)]).farm.state.Open?
  {
    assert (front + [Copy(n)])[..|front|] == front;
    NextCopyPasses(Deliver(c, w, sent, front), w, sent, n);
  }

  lemma NextCopyPasses(c: Channel, w: nat, sent: seq<seq<byte>>, n: nat)
    requires Numbered(sent) && n < |sent| && c.farm.state.Open? && c.farm.vR == n % 0x100
    ensures Passes(c, w, sent, Copy(n)) && Arrive(c, w, sent, Copy(n)).farm.state.Open?
  {
  }

  /** And on the other side: after 256 frames or more, a copy 256 places behind is taken for the next one. */
  lemma BehindBy256(maps: map<byte, M.Assembly>, w: nat, sent: seq<seq<byte>>, i: nat)
    requires Numbered(sent) && i + 256 <= |sent|
    ensures AllKnown(sent, Copies(i + 256) + [Copy(i)])
    ensures HandedOn(Channel(START, maps), w, sent, Copies(i + 256) + [Copy(i)]) == UpTo(i + 256) + [i]
  {
    PerfectChannel(maps, w, sent, i + 256);
    LateCopy(maps, w, sent, Copies(i + 256), i);
  }

  lemma LateCopy(maps: map<byte, M.Assembly>, w: nat, sent: seq<seq<byte>>, front: seq<Arrival>, i: nat)
    requires AllKnown(sent, front) && Timely(Channel(START, maps), w, sent, front) && i + 256 <= |sent|
    requires var start := Channel(START, maps);
             |HandedOn(start, w, sent, front)| == i + 256 && Deliver(start, w, sent, front).farm.state.Open?
    ensures AllKnown(sent, front + [Copy(i)])
    ensures HandedOn(Channel(START, maps), w, sent, front + [Copy(i)])
            == HandedOn(Channel(START, maps), w, sent, front) + [i]
  {
    InOrderExactlyOnce(maps, w, sent, front);
    var c := Deliver(Channel(START, maps), w, sent, front);
    LateCopyPasses(c, w, sent, i);
    OneMore(Channel(START, maps), w, sent, front, i);
  }

  lemma OneMore(c: Channel, w: nat, sent: seq<seq<byte>>, front: seq<Arrival>, i: nat)
    requires AllKnown(sent, front) && Known(sent, Copy(i)) && Passes(Deliver(c, w, sent, front), w, sent, Copy(i))
    ensures AllKnown(sent, front + [Copy(i)])
    ensures HandedOn(c, w, sent, front + [Copy(i)]) == HandedOn(c, w, sent, front) + [i]
  {
    assert (front + [Copy(i)])[..|front|] == front;
  }

  lemma LateCopyPasses(c: Channel, w: nat, sent: seq<seq<byte>>, i: nat)
    requires Numbered(sent) && i < |sent| && c.farm.state.Open? && c.farm.vR == (i + 256) % 0x100
    ensures Passes(c, w, sent, Copy(i))
  {
    assert (i + 256) % 0x100 == i % 0x100;
  }

  // --- Packets ----------------------------------------------------------------------------------------------

  /** The segments on MAP channel `id`. */
  ghost function SegmentsFor(frames: seq<seq<byte>>, id: byte): seq<M.Segment>
    requires forall f :: f in frames ==> M.IsDelimited(f)
  {
    if frames == [] then []
    else
      var front, f := frames[..|frames| - 1], frames[|frames| - 1];
      assert f in frames && M.IsDelimited(f);
      SegmentsFor(front, id) + if F.GetMapId(f) == id then [M.SegmentOf(f)] else []
  }

  lemma {:induction false} ChannelSeesItsSegments(maps: map<byte, M.Assembly>, frames: seq<seq<byte>>, id: byte)
    requires (forall f :: f in frames ==> M.IsDelimited(f)) && id in maps
    ensures id in MapsAfter(maps, frames)
    ensures MapsAfter(maps, frames)[id] == S.Run(maps[id], SegmentsFor(frames, id))
    decreases |frames|
  {
    if frames != [] {
      var front, f := frames[..|frames| - 1], frames[|frames| - 1];
      assert f in frames && M.IsDelimited(f);
      ChannelSeesItsSegments(maps, front, id);
      var a, s := MapsAfter(maps, front)[id], M.SegmentOf(f);
      S.RunConcat(maps[id], SegmentsFor(front, id), [s]);
      S.RunHead(a, s, []);
      assert [s] + [] == [s] && S.Run(a, [s]) == M.Extract(a, s).0;
      if F.GetMapId(f) == id {
        assert SegmentsFor(frames, id) == SegmentsFor(front, id) + [s];
      } else {
        assert SegmentsFor(frames, id) == SegmentsFor(front, id);
      }
    }
  }

  lemma {:induction false} SegmentsForPrefix(frames: seq<seq<byte>>, n: nat, id: byte)
    requires (forall f :: f in frames ==> M.IsDelimited(f)) && n <= |frames|
    ensures SegmentsFor(frames[..n], id) <= SegmentsFor(frames, id)
    decreases |frames|
  {
    if n < |frames| {
      var front := frames[..|frames| - 1];
      assert front[..n] == frames[..n];
      SegmentsForPrefix(front, n, id);
    } else {
      assert frames[..n] == frames;
    }
  }

  /** Bypass data goes to other MAP channels. */
  ghost predicate BypassElsewhere(arrivals: seq<Arrival>, id: byte) {
    forall a :: a in arrivals && a.Other? && M.IsDelimited(a.frame) && EventOf(a.frame).Bd? ==>
          F.GetMapId(a.frame) != id
  }

  ghost predicate OnlySequencedFor(frames: seq<seq<byte>>, id: byte)
    requires AllDelimited(frames)
  {
    forall f :: f in frames ==> EventOf(f).Ad? || F.GetMapId(f) != id
  }

  lemma {:induction false} ForwardedElsewhere(c: Channel, w: nat, sent: seq<seq<byte>>, arrivals: seq<Arrival>,
                                              id: byte)
    requires AllKnown(sent, arrivals) && BypassElsewhere(arrivals, id)
    ensures AllDelimited(Forwarded(c, w, sent, arrivals)) && OnlySequencedFor(Forwarded(c, w, sent, arrivals), id)
    decreases |arrivals|
  {
    if arrivals != [] {
      var front, a := arrivals[..|arrivals| - 1], arrivals[|arrivals| - 1];
      assert a in arrivals;
      ForwardedElsewhere(c, w, sent, front, id);
      ArrivalStep(Deliver(c, w, sent, front), w, sent, a, 0);
    }
  }

  lemma {:induction false} SequencedSegments(frames: seq<seq<byte>>, id: byte)
    requires AllDelimited(frames) && OnlySequencedFor(frames, id)
    ensures AllDelimited(Sequenced(frames)) && SegmentsFor(frames, id) == SegmentsFor(Sequenced(frames), id)
    decreases |frames|
  {
    if frames != [] {
      var front, f := frames[..|frames| - 1], frames[|frames| - 1];
      assert f in frames;
      SequencedSegments(front, id);
      SegmentsOfMore(front, f, id);
      assert frames == front + [f];
      if EventOf(f).Ad? {
        SegmentsOfMore(Sequenced(front), f, id);
      } else {
        assert Sequenced(front) + [] == Sequenced(front);
      }
    }
  }

  lemma SegmentsOfMore(frames: seq<seq<byte>>, f: seq<byte>, id: byte)
    requires AllDelimited(frames) && M.IsDelimited(f)
    ensures AllDelimited(frames + [f])
    ensures SegmentsFor(frames + [f], id)
            == SegmentsFor(frames, id) + if F.GetMapId(f) == id then [M.SegmentOf(f)] else []
  {
    assert (frames + [f])[..|frames|] == frames;
  }

  /**
   The packets that leave MAP channel `id` are, for every run over such a channel, exactly the emissions of
   the units wholly contained in the frames handed on; when those units are clean, exactly their packets of
   at most 4096 bytes, in order and once each.
   */
  lemma PacketsExactlyOnce(maps: map<byte, M.Assembly>, w: nat, sent: seq<seq<byte>>, arrivals: seq<Arrival>,
                           id: byte, units: seq<S.Unit>)
    requires AllKnown(sent, arrivals) && Timely(Channel(START, maps), w, sent, arrivals)
    requires id in maps && maps[id] == M.START && S.AllValid(units) && BypassElsewhere(arrivals, id)
    requires Numbered(sent) && (forall f :: f in sent ==> M.IsDelimited(f)) && SegmentsFor(sent, id) == S.Stream(units)
    ensures var n := |HandedOn(Channel(START, maps), w, sent, arrivals)|;
            var c := Deliver(Channel(START, maps), w, sent, arrivals);
            && n <= |sent| && id in c.maps
            && var whole := S.Complete(units, |SegmentsFor(sent[..n], id)|);
               && c.maps[id].sent == S.Emissions(whole)
               && ((forall u :: u in whole ==> S.Clean(u)) ==> c.maps[id].sent == S.AllIntended(whole))
  {
    InOrderExactlyOnce(maps, w, sent, arrivals);
    var n := |HandedOn(Channel(START, maps), w, sent, arrivals)|;
    var forwarded := Forwarded(Channel(START, maps), w, sent, arrivals);
    ForwardedElsewhere(Channel(START, maps), w, sent, arrivals, id);
    SequencedSegments(forwarded, id);
    ChannelSeesItsSegments(maps, forwarded, id);
    SegmentsForPrefix(sent, n, id);
    var k := |SegmentsFor(sent[..n], id)|;
    assert S.Stream(units)[..k] == SegmentsFor(sent[..n], id);
    S.StreamEmits(M.START, units, k);
    var whole := S.Complete(units, k);
    if forall u :: u in whole ==> S.Clean(u) {
      S.CleanStream(whole);
    }
  }
}
