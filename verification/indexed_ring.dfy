/** A ring of fixed blocks in one memory: what its index describes, and what every operation does to it. */
module IndexedRing {
  import opened Words

  /** One entry of the index. */
  datatype Block = Block(start: word, size: word, packets: word)

  /** The whole index: the entries, where the ring writes, and how far it has been read. */
  datatype Ring = Ring(blocks: seq<Block>, total: word, write: nat, read: nat, readSize: word,
                       cached: word, last: nat, lastSize: word, overwriteOld: bool)

  function Next(n: nat, i: nat): (r: nat)
    requires i < n
    ensures r < n
  {
    if i == n - 1 then 0 else i + 1
  }

  /** Steps around the ring from i to j. */
  function Distance(n: nat, i: nat, j: nat): nat
    requires i < n && j < n
  {
    if i <= j then j - i else j - i + n
  }

  lemma DistanceNext(n: nat, i: nat, j: nat)
    requires i < n && j < n
    ensures i != j ==> Distance(n, Next(n, i), j) + 1 == Distance(n, i, j)
    ensures Next(n, j) != i ==> Distance(n, i, Next(n, j)) == Distance(n, i, j) + 1
  {
  }

  // --- Addresses ----------------------------------------------------------------------------------

  function Addresses(start: nat, size: nat): (r: seq<nat>)
    ensures |r| == size
    ensures forall k :: 0 <= k < size ==> r[k] == start + k
  {
    seq(size, k requires 0 <= k => start + k)
  }

  lemma AddressesSplit(start: nat, size: nat, k: nat)
    requires k <= size
    ensures Addresses(start, size)[..k] == Addresses(start, k)
    ensures Addresses(start, size)[k..] == Addresses(start + k, size - k)
    ensures Addresses(start, size) == Addresses(start, k) + Addresses(start + k, size - k)
  {
  }

  function Data(b: Block): seq<nat> { Addresses(b.start, b.size) }

  predicate Holds(b: Block, a: nat) { b.start <= a < b.start + b.size }

  function Total(blocks: seq<Block>): nat
    decreases |blocks|
  {
    if blocks == [] then 0 else Total(blocks[..|blocks| - 1]) + blocks[|blocks| - 1].size
  }

  /**
   The addresses of blocks i, i+1, ... around the ring up to and including the last one, of which only
   lastSize bytes are seen.
   */
  function Tail(blocks: seq<Block>, i: nat, last: nat, lastSize: nat): seq<nat>
    requires i < |blocks| && last < |blocks|
    decreases Distance(|blocks|, i, last)
  {
    if i == last then Addresses(blocks[last].start, lastSize)
    else Data(blocks[i]) + Tail(blocks, Next(|blocks|, i), last, lastSize)
  }

  /** All data, oldest block first: from the block after the write block around to the write block. */
  function OldestFirst(v: Ring): seq<nat>
    requires v.write < |v.blocks|
  {
    Tail(v.blocks, Next(|v.blocks|, v.write), v.write, v.blocks[v.write].size)
  }

  /** The first block from i on that holds data, or the last one. */
  function FirstNonEmpty(blocks: seq<Block>, i: nat, last: nat): (j: nat)
    requires i < |blocks| && last < |blocks|
    ensures j < |blocks|
    ensures j != last ==> blocks[j].size != 0
    decreases Distance(|blocks|, i, last)
  {
    if i == last || blocks[i].size != 0 then i else FirstNonEmpty(blocks, Next(|blocks|, i), last)
  }

  /** Nothing is skipped but empty blocks. */
  lemma {:induction false} SkipsNothing(blocks: seq<Block>, i: nat, last: nat, lastSize: nat)
    requires i < |blocks| && last < |blocks|
    ensures Tail(blocks, i, last, lastSize) == Tail(blocks, FirstNonEmpty(blocks, i, last), last, lastSize)
    decreases Distance(|blocks|, i, last)
  {
    if i != last && blocks[i].size == 0 { SkipsNothing(blocks, Next(|blocks|, i), last, lastSize); }
  }

  // --- Reading ------------------------------------------------------------------------------------

  predicate Readable(v: Ring) {
    && v.write < |v.blocks| && v.read < |v.blocks| && v.last < |v.blocks|
    && v.lastSize <= v.blocks[v.last].size
    && (if v.read == v.last then v.readSize <= v.lastSize
        else v.readSize <= v.cached == v.blocks[v.read].size)
  }

  function Remaining(v: Ring): nat
    requires Readable(v)
  {
    if v.read == v.last then v.lastSize - v.readSize else v.cached - v.readSize
  }

  function ReadAddress(v: Ring): nat
    requires Readable(v)
  {
    v.blocks[v.read].start + v.readSize
  }

  /** What a reader has still to see. */
  function Pending(v: Ring): seq<nat>
    requires Readable(v)
  {
    Addresses(ReadAddress(v), Remaining(v))
    + if v.read == v.last then [] else Tail(v.blocks, Next(|v.blocks|, v.read), v.last, v.lastSize)
  }

  function ReadOldest(v: Ring): Ring
    requires v.write < |v.blocks|
  {
    var first := FirstNonEmpty(v.blocks, Next(|v.blocks|, v.write), v.write);
    v.(read := first, readSize := 0, cached := v.blocks[first].size,
       last := v.write, lastSize := v.blocks[v.write].size)
  }

  function ReadNext(v: Ring): Ring
    requires v.read < |v.blocks|
  {
    var next := Next(|v.blocks|, v.read);
    v.(read := next, readSize := 0, cached := v.blocks[next].size)
  }

  /** The state after readSize more bytes were read, and whether there is more. */
  function Advance(v: Ring, size: word): (Ring, bool)
    requires v.read < |v.blocks| && v.last < |v.blocks|
  {
    var sum := (v.readSize + size) % WORD;
    if v.read == v.last then
      if sum < v.lastSize then (v.(readSize := sum), true) else (v.(readSize := v.lastSize), false)
    else if sum < v.cached then (v.(readSize := sum), true)
    else Leave(v)
  }

  /** On to the next block, or to the first one from there on that holds data. */
  function Leave(v: Ring): (Ring, bool)
    requires v.read < |v.blocks| && v.last < |v.blocks|
  {
    var w := ReadNext(v);
    if w.cached != 0 then (w, true)
    else
      var j := FirstNonEmpty(v.blocks, w.read, v.last);
      if j != v.last then (w.(read := j, cached := v.blocks[j].size), true)
      else if v.lastSize != 0 then (w.(read := v.last, cached := v.lastSize), true)
      else (w, false)
  }

  /** Starting to read puts the reader before all data, oldest first. */
  lemma {:induction false} ReadOldestSeesAll(v: Ring)
    requires v.write < |v.blocks|
    ensures Readable(ReadOldest(v)) && Pending(ReadOldest(v)) == OldestFirst(v)
    ensures Remaining(ReadOldest(v)) == 0 ==> OldestFirst(v) == []
  {
    var first := FirstNonEmpty(v.blocks, Next(|v.blocks|, v.write), v.write);
    SkipsNothing(v.blocks, Next(|v.blocks|, v.write), v.write, v.blocks[v.write].size);
    BeforeBlock(ReadOldest(v));
  }

  lemma DropWithin(a: seq<nat>, b: seq<nat>, k: nat)
    requires k <= |a|
    ensures (a + b)[k..] == a[k..] + b
  {
  }

  lemma StaysInBlock(v: Ring, size: word)
    requires Readable(v) && size < Remaining(v)
    ensures var w := v.(readSize := v.readSize + size);
            && Advance(v, size) == (w, true) && Readable(w) && Remaining(w) != 0
            && Pending(w) == Pending(v)[size..] && Pending(w) != []
  {
    var w := v.(readSize := v.readSize + size);
    var rest := if v.read == v.last then [] else Tail(v.blocks, Next(|v.blocks|, v.read), v.last, v.lastSize);
    AddressesSplit(ReadAddress(v), Remaining(v), size);
    DropWithin(Addresses(ReadAddress(v), Remaining(v)), rest, size);
    assert ReadAddress(w) == ReadAddress(v) + size;
    assert |Pending(w)| >= Remaining(w);
  }

  lemma LeavesBlock(v: Ring)
    requires Readable(v) && v.read != v.last
    ensures var w, more := Leave(v).0, Leave(v).1;
            && Readable(w) && w == v.(read := w.read, readSize := 0, cached := w.cached)
            && Pending(w) == Tail(v.blocks, Next(|v.blocks|, v.read), v.last, v.lastSize)
            && (Pending(w) != [] ==> more && Remaining(w) != 0)
            && ((more <==> Pending(w) != []) <==> !LateNext(v))
  {
    var w := ReadNext(v);
    BeforeBlock(w);
    if w.cached == 0 {
      var j := FirstNonEmpty(v.blocks, w.read, v.last);
      SkipsNothing(v.blocks, w.read, v.last, v.lastSize);
      if j != v.last {
        BeforeBlock(w.(read := j, cached := v.blocks[j].size));
      } else if v.lastSize != 0 {
        BeforeBlock(w.(read := v.last, cached := v.lastSize));
      } else {
        assert Pending(w) == [];
      }
    }
  }

  /** A reader that has seen nothing of its block has the ring from there on before it. */
  lemma BeforeBlock(w: Ring)
    requires Readable(w) && w.readSize == 0
    ensures Pending(w) == Tail(w.blocks, w.read, w.last, w.lastSize)
    ensures Remaining(w) != 0 ==> Pending(w) != []
  {
    if w.read == w.last { assert Pending(w) == Addresses(ReadAddress(w), Remaining(w)); }
    assert |Pending(w)| >= Remaining(w);
  }

  /** The last block is read to its end. */
  lemma EndsAtLast(v: Ring, size: word)
    requires Readable(v) && v.read == v.last && Remaining(v) <= size && v.readSize + size < WORD
    ensures var w := v.(readSize := v.lastSize);
            Advance(v, size) == (w, false) && Readable(w) && Pending(w) == [] && Pending(v)[Remaining(v)..] == []
  {
    var w := v.(readSize := v.lastSize);
    assert |Pending(v)| == Remaining(v);
  }

  /** The next block is the write block, which was empty when reading began and is not any more. */
  predicate LateNext(v: Ring)
    requires Readable(v)
  {
    Next(|v.blocks|, v.read) == v.last && v.lastSize == 0 && v.blocks[v.last].size != 0
  }

  /** A step that leaves the block in front of such a write block. */
  predicate Misleads(v: Ring, size: word)
    requires Readable(v)
  {
    v.read != v.last && Remaining(v) <= size && LateNext(v)
  }

  /** The state after a step, when k of the pending bytes were passed. */
  ghost predicate Passed(v: Ring, w: Ring, k: nat)
    requires Readable(v) && k <= |Pending(v)|
  {
    && Readable(w) && w == v.(read := w.read, readSize := w.readSize, cached := w.cached)
    && Pending(w) == Pending(v)[k..]
    && (Pending(w) != [] ==> Remaining(w) != 0)
  }

  function Least(a: nat, b: nat): nat { if a < b then a else b }

  /**
   The next bytes of the pending data are gone; the answer is whether any are left, if and only if the
   step does not mislead.
   */
  lemma AdvanceFollowsPending(v: Ring, size: word)
    requires Readable(v) && v.readSize + size < WORD
    ensures Remaining(v) <= |Pending(v)|
    ensures Passed(v, Advance(v, size).0, Least(size, Remaining(v)))
    ensures (Advance(v, size).1 <==> Pending(Advance(v, size).0) != []) <==> !Misleads(v, size)
  {
    if size < Remaining(v) {
      StaysInBlock(v, size);
    } else if v.read == v.last {
      EndsAtLast(v, size);
    } else {
      LeavesBlock(v);
      DropWithin(Addresses(ReadAddress(v), Remaining(v)),
                 Tail(v.blocks, Next(|v.blocks|, v.read), v.last, v.lastSize), Remaining(v));
      assert Advance(v, size) == Leave(v);
    }
  }

  /** A reader for whom nothing is left stops at the block behind the one it has finished. */
  lemma StopsBehind(v: Ring)
    requires Readable(v) && v.read != v.last && v.lastSize == 0
    requires Tail(v.blocks, Next(|v.blocks|, v.read), v.last, 0) == []
    ensures var w := Leave(v).0; w.read == Next(|v.blocks|, v.read) && w.readSize == 0
  {
    var next := Next(|v.blocks|, v.read);
    var j := FirstNonEmpty(v.blocks, next, v.last);
    SkipsNothing(v.blocks, next, v.last, 0);
    if j != v.last {
      assert false;
    }
  }

  /**
   A size whose 32-bit sum with the bytes already read wraps around puts the reader back and is
   answered as if all were well.
   */
  lemma WrappedReadGoesBack(v: Ring, size: word)
    requires Readable(v) && v.readSize + size >= WORD
    ensures var w := v.(readSize := v.readSize + size - WORD);
            Advance(v, size) == (w, true) && Readable(w) && w.readSize < v.readSize
  {
  }

  // --- Whole reads, with writing in between ---------------------------------------------------------

  datatype Step = Read(size: word) | Append(size: word, packets: word)

  /** Bytes that go to the write block. */
  function Add(v: Ring, size: word, packets: word): Ring
    requires v.write < |v.blocks|
  {
    var b := v.blocks[v.write];
    v.(blocks := v.blocks[v.write := b.(size := (b.size + size) % WORD, packets := (b.packets + packets) % WORD)])
  }

  /** The reader takes what is offered, some bytes at a time; block sizes stay 32-bit numbers. */
  predicate Legal(v: Ring, steps: seq<Step>)
    decreases |steps|
  {
    steps == [] ||
    (Readable(v) && v.last == v.write &&
     match steps[0]
     case Read(size) => 0 < size <= Remaining(v) && Legal(Advance(v, size).0, steps[1..])
     case Append(size, packets) =>
       v.blocks[v.write].size + size < WORD && Legal(Add(v, size, packets), steps[1..]))
  }

  /** The addresses read, in order. */
  function ReadBytes(v: Ring, steps: seq<Step>): seq<nat>
    requires Legal(v, steps)
    decreases |steps|
  {
    if steps == [] then []
    else match steps[0]
      case Read(size) => Addresses(ReadAddress(v), size) + ReadBytes(Advance(v, size).0, steps[1..])
      case Append(size, packets) => ReadBytes(Add(v, size, packets), steps[1..])
  }

  function AfterSteps(v: Ring, steps: seq<Step>): Ring
    requires Legal(v, steps)
    decreases |steps|
  {
    if steps == [] then v
    else match steps[0]
      case Read(size) => AfterSteps(Advance(v, size).0, steps[1..])
      case Append(size, packets) => AfterSteps(Add(v, size, packets), steps[1..])
  }

  lemma {:induction false} TailIgnoresLast(blocks: seq<Block>, other: seq<Block>, i: nat, last: nat, z: nat)
    requires |blocks| == |other| && i < |blocks| && last < |blocks|
    requires forall k :: 0 <= k < |blocks| && k != last ==> blocks[k] == other[k]
    requires blocks[last].start == other[last].start
    ensures Tail(blocks, i, last, z) == Tail(other, i, last, z)
    decreases Distance(|blocks|, i, last)
  {
    if i != last { TailIgnoresLast(blocks, other, Next(|blocks|, i), last, z); }
  }

  /** Bytes written behind a reader do not change what it sees. */
  lemma {:induction false} WritingKeepsPending(v: Ring, size: word, packets: word)
    requires Readable(v) && v.last == v.write && v.blocks[v.write].size + size < WORD
    ensures Readable(Add(v, size, packets)) && Pending(Add(v, size, packets)) == Pending(v)
  {
    if v.read != v.last {
      TailIgnoresLast(v.blocks, Add(v, size, packets).blocks, Next(|v.blocks|, v.read), v.last, v.lastSize);
    }
  }

  lemma TakesTheNext(v: Ring, size: word)
    requires Readable(v) && size <= Remaining(v)
    ensures Pending(v) == Addresses(ReadAddress(v), size) + Pending(v)[size..]
  {
    AddressesSplit(ReadAddress(v), Remaining(v), size);
    assert Pending(v)[..size] == Addresses(ReadAddress(v), size);
  }

  lemma {:induction false} ReadsInOrder(v: Ring, steps: seq<Step>)
    requires Readable(v) && v.last == v.write && Legal(v, steps)
    ensures Readable(AfterSteps(v, steps))
    ensures ReadBytes(v, steps) + Pending(AfterSteps(v, steps)) == Pending(v)
    ensures |ReadBytes(v, steps)| >= Reads(steps)
    decreases |steps|
  {
    if steps != [] {
      if steps[0].Read? {
        var size := steps[0].size;
        AdvanceFollowsPending(v, size);
        TakesTheNext(v, size);
        ReadsInOrder(Advance(v, size).0, steps[1..]);
      } else {
        WritingKeepsPending(v, steps[0].size, steps[0].packets);
        ReadsInOrder(Add(v, steps[0].size, steps[0].packets), steps[1..]);
      }
    }
  }

  function Reads(steps: seq<Step>): nat
    decreases |steps|
  {
    if steps == [] then 0 else (if steps[0].Read? then 1 else 0) + Reads(steps[1..])
  }

  /** The answer to the last read, or the one from before. */
  function LastAnswer(v: Ring, steps: seq<Step>, before: bool): bool
    requires Legal(v, steps)
    decreases |steps|
  {
    if steps == [] then before
    else match steps[0]
      case Read(size) => LastAnswer(Advance(v, size).0, steps[1..], Advance(v, size).1)
      case Append(size, packets) => LastAnswer(Add(v, size, packets), steps[1..], before)
  }

  /** Some read of the run leaves the block in front of a write block that was filled late. */
  predicate RunMisleads(v: Ring, steps: seq<Step>)
    requires Legal(v, steps)
    decreases |steps|
  {
    steps != [] &&
    match steps[0]
    case Read(size) => Misleads(v, size) || RunMisleads(Advance(v, size).0, steps[1..])
    case Append(size, packets) => RunMisleads(Add(v, size, packets), steps[1..])
  }

  /** A misled reader stands at the end: it is offered nothing and can only wait. */
  lemma {:induction false} MisledStays(v: Ring, steps: seq<Step>)
    requires Readable(v) && v.last == v.write && Legal(v, steps) && v.read == v.last && v.lastSize == 0
    ensures !RunMisleads(v, steps) && LastAnswer(v, steps, true) && Readable(AfterSteps(v, steps))
            && Pending(AfterSteps(v, steps)) == []
    decreases |steps|
  {
    if steps == [] {
      assert Pending(v) == [];
    } else {
      assert steps[0].Append?;
      MisledStays(Add(v, steps[0].size, steps[0].packets), steps[1..]);
    }
  }

  /** The last answer of a run is right if and only if no read of it misleads. */
  lemma {:induction false} LastAnswerIff(v: Ring, steps: seq<Step>, before: bool)
    requires Readable(v) && v.last == v.write && Legal(v, steps) && (before <==> Pending(v) != [])
    ensures Readable(AfterSteps(v, steps))
    ensures (LastAnswer(v, steps, before) <==> Pending(AfterSteps(v, steps)) != []) <==> !RunMisleads(v, steps)
    decreases |steps|
  {
    if steps != [] {
      if steps[0].Append? {
        WritingKeepsPending(v, steps[0].size, steps[0].packets);
        LastAnswerIff(Add(v, steps[0].size, steps[0].packets), steps[1..], before);
      } else {
        var size := steps[0].size;
        var w := Advance(v, size).0;
        AdvanceFollowsPending(v, size);
        if Misleads(v, size) {
          assert w.read == w.last && w.lastSize == 0 && Advance(v, size).1;
          MisledStays(w, steps[1..]);
        } else {
          LastAnswerIff(w, steps[1..], Advance(v, size).1);
        }
      }
    }
  }

  predicate ReadsOnly(steps: seq<Step>) { forall i :: 0 <= i < |steps| ==> steps[i].Read? }

  /** Nobody is misled unless the write block was empty when reading began and something was appended since. */
  lemma {:induction false} NeverMisled(v: Ring, steps: seq<Step>)
    requires Readable(v) && v.last == v.write && Legal(v, steps)
    requires v.lastSize != 0 || (v.blocks[v.last].size == 0 && ReadsOnly(steps))
    ensures !RunMisleads(v, steps)
    decreases |steps|
  {
    if steps != [] {
      if steps[0].Append? {
        WritingKeepsPending(v, steps[0].size, steps[0].packets);
        NeverMisled(Add(v, steps[0].size, steps[0].packets), steps[1..]);
      } else {
        AdvanceFollowsPending(v, steps[0].size);
        NeverMisled(Advance(v, steps[0].size).0, steps[1..]);
      }
    }
  }

  /**
   * From readOldest on, whatever sizes the reader takes and whatever is appended meanwhile: the
   * bytes read are a prefix of the data stored at the start, oldest block first; in no more reads
   * than bytes; and the last answer is false exactly when all of it was read, if and only if no
   * read leaves the block in front of a write block filled late.
   */
  lemma ReadsOldestFirst(v: Ring, steps: seq<Step>)
    requires v.write < |v.blocks| && Legal(ReadOldest(v), steps)
    ensures ReadBytes(ReadOldest(v), steps) <= OldestFirst(v)
    ensures Reads(steps) <= |OldestFirst(v)| == Total(v.blocks)
    ensures (LastAnswer(ReadOldest(v), steps, OldestFirst(v) != [])
             <==> ReadBytes(ReadOldest(v), steps) != OldestFirst(v))
       <==> !RunMisleads(ReadOldest(v), steps)
  {
    ReadOldestSeesAll(v);
    ReadsInOrder(ReadOldest(v), steps);
    LastAnswerIff(ReadOldest(v), steps, OldestFirst(v) != []);
    OldestFirstHasAll(v);
    var read, left := ReadBytes(ReadOldest(v), steps), Pending(AfterSteps(ReadOldest(v), steps));
    assert |read + left| == |read| + |left|;
    assert left == [] ==> read + left == read;
  }

  /**
   Hence a reader of a ring that is not written to, or whose write block held data, stops exactly when
   it has read everything.
   */
  lemma StopsWhenAllIsRead(v: Ring, steps: seq<Step>)
    requires v.write < |v.blocks| && Legal(ReadOldest(v), steps)
    requires v.blocks[v.write].size != 0 || ReadsOnly(steps)
    ensures LastAnswer(ReadOldest(v), steps, OldestFirst(v) != [])
       <==> |ReadBytes(ReadOldest(v), steps)| < Total(v.blocks)
  {
    ReadOldestSeesAll(v);
    NeverMisled(ReadOldest(v), steps);
    ReadsOldestFirst(v, steps);
  }

  /** The number of bytes around the ring is the sum over the index. */
  lemma OldestFirstHasAll(v: Ring)
    requires v.write < |v.blocks|
    ensures |OldestFirst(v)| == Total(v.blocks)
  {
    var n, w := |v.blocks|, v.write;
    TailLength(v.blocks, w, w);
    assert v.blocks[..w + 1][..w] == v.blocks[..w];
    if w == n - 1 {
      UpTo(v.blocks, 0, w);
      assert v.blocks[..n] == v.blocks;
    } else {
      RoundEnd(v.blocks, w + 1, w);
      assert v.blocks[..n] == v.blocks;
    }
  }

  lemma TailLength(blocks: seq<Block>, i: nat, last: nat)
    requires i == last < |blocks|
    ensures |Tail(blocks, i, last, blocks[last].size)| == blocks[last].size
  {
  }

  /** Without passing the end of the index. */
  lemma {:induction false} UpTo(blocks: seq<Block>, i: nat, last: nat)
    requires i <= last < |blocks|
    ensures |Tail(blocks, i, last, blocks[last].size)| == Total(blocks[..last + 1]) - Total(blocks[..i])
    decreases last - i
  {
    assert blocks[..i + 1][..i] == blocks[..i];
    if i < last { UpTo(blocks, i + 1, last); }
  }

  /** Past the end of the index. */
  lemma {:induction false} RoundEnd(blocks: seq<Block>, i: nat, last: nat)
    requires last < i < |blocks|
    ensures |Tail(blocks, i, last, blocks[last].size)|
         == Total(blocks[..|blocks|]) - Total(blocks[..i]) + Total(blocks[..last + 1])
    decreases |blocks| - i
  {
    assert blocks[..i + 1][..i] == blocks[..i];
    if i < |blocks| - 1 { RoundEnd(blocks, i + 1, last); } else { UpTo(blocks, 0, last); }
  }

  /** A reader that leaves the block in front of a write block filled late is told to go on and offered nothing. */
  lemma LateBytesAnnounced(v: Ring, size: word)
    requires Readable(v) && v.readSize + size < WORD && Misleads(v, size)
    ensures var w := Advance(v, size);
            w.1 && Readable(w.0) && Remaining(w.0) == 0 && Pending(w.0) == []
  {
    AdvanceFollowsPending(v, size);
  }

  /** Three bytes are read from one block while two are appended to the next: the reader is misled. */
  lemma LateBytesExample()
    ensures var v := Ring([Block(0, 3, 1), Block(8, 0, 0)], 16, 1, 0, 0, 0, 1, 0, false);
            var steps := [Append(2, 1), Read(3)];
            Legal(ReadOldest(v), steps) && RunMisleads(ReadOldest(v), steps)
  {
    var v := Ring([Block(0, 3, 1), Block(8, 0, 0)], 16, 1, 0, 0, 0, 1, 0, false);
    assert FirstNonEmpty(v.blocks, 0, 1) == 0;
    var steps := [Append(2, 1), Read(3)];
    var u := Add(ReadOldest(v), 2, 1);
    assert u.blocks[1] == Block(8, 2, 1) && u.blocks[0] == Block(0, 3, 1);
    assert steps[1..] == [Read(3)] && [Read(3)][1..] == [];
    assert Misleads(u, 3);
  }
}
