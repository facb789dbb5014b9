/** Where the blocks lie, when they may be written, and the ring as a queue. */
module IndexedRingMemory {
  import opened Sequences
  import opened Stretches
  import opened Words
  import opened IndexedRing

  // --- Layout -------------------------------------------------------------------------------------

  /** Equal blocks from base on, as many as fit into the usable bytes; the last one has the rest too. */
  datatype Layout = Layout(base: nat, bytesPerBlock: nat)

  ghost predicate LaidOut(v: Ring, l: Layout) {
    && 0 < l.bytesPerBlock && v.write < |v.blocks|
    && Offset(|v.blocks|, l.bytesPerBlock) <= v.total < Offset(|v.blocks|, l.bytesPerBlock) + l.bytesPerBlock
    && l.base + v.total <= WORD
    && forall i {:trigger v.blocks[i]} :: 0 <= i < |v.blocks| ==>
          v.blocks[i].start == l.base + Offset(i, l.bytesPerBlock)
  }

  function Capacity(v: Ring, l: Layout, i: nat): int
    requires i < |v.blocks|
  {
    if i == |v.blocks| - 1 then v.total - Offset(i, l.bytesPerBlock) else l.bytesPerBlock
  }

  /** Every block keeps to its own bytes. */
  ghost predicate Fits(v: Ring, l: Layout) {
    forall i :: 0 <= i < |v.blocks| ==> v.blocks[i].size < Capacity(v, l, i)
  }

  /** No block is smaller than bytesPerBlock: the last one is never to be removed. */
  lemma LastBlockIsLarge(v: Ring, l: Layout)
    requires LaidOut(v, l)
    ensures var n := |v.blocks|;
            && l.bytesPerBlock <= (l.base + v.total) - v.blocks[n - 1].start < 2 * l.bytesPerBlock
            && Capacity(v, l, n - 1) == (l.base + v.total) - v.blocks[n - 1].start
    ensures forall i :: 0 <= i < |v.blocks| ==> l.bytesPerBlock <= Capacity(v, l, i) <= v.total
  {
    OffsetGrows(1, |v.blocks|, l.bytesPerBlock);
    assert Offset(1, l.bytesPerBlock) == l.bytesPerBlock;
  }

  /** The data of different blocks never overlap, and all of it lies in the usable bytes. */
  lemma DataDisjoint(v: Ring, l: Layout)
    requires LaidOut(v, l) && Fits(v, l)
    ensures Apart(v.blocks) && Inside(v.blocks, l.base, v.total)
  {
    LastBlockIsLarge(v, l);
    forall i: nat, j: nat, a: nat | 0 <= i < j < |v.blocks| && Holds(v.blocks[i], a)
      ensures !Holds(v.blocks[j], a)
    {
      OffsetGrows(i, j, l.bytesPerBlock);
    }
    forall i: nat, a: nat | 0 <= i < |v.blocks| && Holds(v.blocks[i], a)
      ensures l.base <= a < l.base + v.total
    {
      if i < |v.blocks| - 1 { OffsetGrows(i, |v.blocks|, l.bytesPerBlock); }
    }
  }

  ghost predicate Apart(blocks: seq<Block>) {
    forall i, j, a: nat :: 0 <= i < j < |blocks| && Holds(blocks[i], a) ==> !Holds(blocks[j], a)
  }

  ghost predicate Inside(blocks: seq<Block>, base: nat, total: nat) {
    forall i, a: nat :: 0 <= i < |blocks| && Holds(blocks[i], a) ==> base <= a < base + total
  }

  // --- Writing ------------------------------------------------------------------------------------

  /** In the code's unsigned 32-bit arithmetic. */
  function AvailableSize(v: Ring): nat
    requires v.write < |v.blocks| && 0 < v.total
  {
    var next := Next(|v.blocks|, v.write);
    var b := v.blocks[v.write];
    Wrapped((v.blocks[next].start + v.total) - (b.start + b.size), v.total)
  }

  predicate EnoughSpace(v: Ring, size: word)
    requires v.write < |v.blocks| && 0 < v.total
  {
    size < AvailableSize(v)
  }

  predicate NextWritable(v: Ring)
    requires v.write < |v.blocks|
  {
    v.blocks[Next(|v.blocks|, v.write)].size == 0 || v.overwriteOld
  }

  function WriteNext(v: Ring): Ring
    requires v.write < |v.blocks|
  {
    if !NextWritable(v) then v
    else
      var next := Next(|v.blocks|, v.write);
      v.(write := next, blocks := v.blocks[next := v.blocks[next].(size := 0, packets := 0)])
  }

  lemma Modulo(x: int, m: nat)
    requires 0 < m
    ensures 0 <= x < m ==> x % m == x
    ensures m <= x < 2 * m ==> x % m == x - m
  {
    if m <= x < 2 * m { assert x == m + (x - m); }
  }

  function Wrapped(x: int, m: nat): nat
    requires 0 < m
  {
    x % WORD % m
  }

  lemma WrappedMeans(room: nat, m: nat)
    requires 0 < room <= m < WORD
    ensures Wrapped(room, m) == if room == m then 0 else room
    ensures room < m ==> Wrapped(m + room, m) == if m + room < WORD then room else m + room - WORD
  {
    Modulo(room, m);
    if room < m {
      if m + room < WORD {
        Modulo(m + room, m);
      } else {
        Modulo(m + room, WORD);
        Modulo(m + room - WORD, m);
      }
    }
  }

  /** The difference as a number without wrap-around. */
  lemma RawDifference(v: Ring, l: Layout)
    requires LaidOut(v, l) && Fits(v, l)
    ensures var next := v.blocks[Next(|v.blocks|, v.write)].start;
            var room := Capacity(v, l, v.write) - v.blocks[v.write].size;
            (next + v.total) - (v.blocks[v.write].start + v.blocks[v.write].size)
            == if v.write == |v.blocks| - 1 then room else v.total + room
    ensures 2 <= |v.blocks| ==> 2 * l.bytesPerBlock <= v.total
    ensures 2 <= |v.blocks| && v.write == |v.blocks| - 1 ==> Capacity(v, l, v.write) < v.total
  {
    var n, w, b := |v.blocks|, v.write, l.bytesPerBlock;
    assert Offset(0, b) == 0 && Offset(2, b) == Offset(1, b) + b && Offset(1, b) == b;
    if 2 <= n { OffsetGrows(2, n, b); OffsetGrows(1, n - 1, b); }
  }

  /** In front of the last block, the sum of addresses does not fit into 32 bits. */
  predicate SumWraps(v: Ring, l: Layout)
    requires v.write < |v.blocks|
  {
    v.write < |v.blocks| - 1 && v.total + (Capacity(v, l, v.write) - v.blocks[v.write].size) >= WORD
  }

  /**
   What the check of free space says: the room left in the block, less what the sum of addresses loses;
   nothing in an empty single block.
   */
  lemma AvailableMeans(v: Ring, l: Layout)
    requires LaidOut(v, l) && Fits(v, l) && 0 < v.total
    ensures var room := Capacity(v, l, v.write) - v.blocks[v.write].size;
            && AvailableSize(v) == (if |v.blocks| == 1 && v.blocks[0].size == 0 then 0
                                    else if SumWraps(v, l) then room - (WORD - v.total) else room)
            && AvailableSize(v) <= room
  {
    var room := Capacity(v, l, v.write) - v.blocks[v.write].size;
    LastBlockIsLarge(v, l);
    RawDifference(v, l);
    assert Capacity(v, l, v.write) <= v.total;
    var raw := if v.write == |v.blocks| - 1 then room else v.total + room;
    assert AvailableSize(v) == Wrapped(raw, v.total);
    WrappedMeans(room, v.total);
  }

  /** A write that asked for space first stays in its block. */
  lemma GuardedAddFits(v: Ring, l: Layout, size: word, packets: word)
    requires LaidOut(v, l) && Fits(v, l) && 0 < v.total && EnoughSpace(v, size)
    ensures v.blocks[v.write].size + size < WORD
    ensures LaidOut(Add(v, size, packets), l) && Fits(Add(v, size, packets), l)
  {
    AvailableMeans(v, l);
    AddFits(v, l, size, packets);
  }

  /** Where the sum of addresses does not wrap, a write is granted exactly if it leaves a byte of its block free. */
  lemma GrantedIff(v: Ring, l: Layout, size: word)
    requires LaidOut(v, l) && Fits(v, l) && 1 < |v.blocks| && 0 < v.total && !SumWraps(v, l)
    ensures EnoughSpace(v, size) <==> v.blocks[v.write].size + size < Capacity(v, l, v.write)
  {
    AvailableMeans(v, l);
  }

  lemma AddFits(v: Ring, l: Layout, size: word, packets: word)
    requires LaidOut(v, l) && Fits(v, l) && v.blocks[v.write].size + size < Capacity(v, l, v.write)
    ensures v.blocks[v.write].size + size < WORD
    ensures LaidOut(Add(v, size, packets), l) && Fits(Add(v, size, packets), l)
  {
    LastBlockIsLarge(v, l);
    var b := v.blocks[v.write];
    var sum := b.size + size;
    assert sum < Capacity(v, l, v.write) <= v.total;
    var grown := b.(size := sum, packets := (b.packets + packets) % WORD);
    assert Add(v, size, packets) == v.(blocks := v.blocks[v.write := grown]);
  }

  lemma WriteNextFits(v: Ring, l: Layout)
    requires LaidOut(v, l) && Fits(v, l)
    ensures LaidOut(WriteNext(v), l) && Fits(WriteNext(v), l)
  {
    LastBlockIsLarge(v, l);
  }

  // --- The ring as a queue --------------------------------------------------------------------------

  lemma {:induction false} TailAppends(blocks: seq<Block>, i: nat, last: nat, z: nat, k: nat)
    requires i < |blocks| && last < |blocks|
    ensures Tail(blocks, i, last, z + k) == Tail(blocks, i, last, z) + Addresses(blocks[last].start + z, k)
    decreases Distance(|blocks|, i, last)
  {
    if i == last {
      AddressesSplit(blocks[last].start, z + k, z);
    } else {
      TailAppends(blocks, Next(|blocks|, i), last, z, k);
    }
  }

  /** What is added comes last. */
  lemma AddAppends(v: Ring, size: word, packets: word)
    requires v.write < |v.blocks| && v.blocks[v.write].size + size < WORD
    ensures var b := v.blocks[v.write];
            OldestFirst(Add(v, size, packets)) == OldestFirst(v) + Addresses(b.start + b.size, size)
  {
    var b := v.blocks[v.write];
    var i := Next(|v.blocks|, v.write);
    TailIgnoresLast(v.blocks, Add(v, size, packets).blocks, i, v.write, b.size + size);
    TailAppends(v.blocks, i, v.write, b.size, size);
  }

  lemma {:induction false} TailExtends(blocks: seq<Block>, i: nat, last: nat)
    requires i < |blocks| && last < |blocks| && Next(|blocks|, last) != i
    ensures Tail(blocks, i, Next(|blocks|, last), 0) == Tail(blocks, i, last, blocks[last].size)
    decreases Distance(|blocks|, i, last)
  {
    var n := |blocks|;
    DistanceNext(n, i, last);
    if i == last {
      assert Tail(blocks, i, Next(n, last), 0) == Data(blocks[i]) + Tail(blocks, Next(n, i), Next(n, last), 0);
    } else {
      TailExtends(blocks, Next(n, i), last);
    }
  }

  /** Going on to the next block drops that block's data, the oldest; nothing is dropped when it was empty. */
  lemma WriteNextDropsOldest(v: Ring)
    requires v.write < |v.blocks|
    ensures var dropped := if NextWritable(v) then v.blocks[Next(|v.blocks|, v.write)].size else 0;
            dropped <= |OldestFirst(v)| && OldestFirst(WriteNext(v)) == OldestFirst(v)[dropped..]
  {
    var n, w := |v.blocks|, v.write;
    var next := Next(n, w);
    if NextWritable(v) {
      var u := WriteNext(v);
      if n == 1 {
        assert OldestFirst(u) == [];
      } else {
        TailIgnoresLast(v.blocks, u.blocks, Next(n, next), next, 0);
        TailExtends(v.blocks, Next(n, next), w);
        assert OldestFirst(v) == Data(v.blocks[next]) + OldestFirst(u);
      }
    }
  }

  /** Block k lies on the way from i to last and holds a. */
  ghost predicate OnTheWay(blocks: seq<Block>, i: nat, last: nat, k: nat, a: nat)
    requires i < |blocks| && last < |blocks|
  {
    k < |blocks| && Distance(|blocks|, i, k) <= Distance(|blocks|, i, last) && Holds(blocks[k], a)
  }

  lemma {:induction false} TailHolds(blocks: seq<Block>, i: nat, last: nat, a: nat) returns (k: nat)
    requires i < |blocks| && last < |blocks| && a in Tail(blocks, i, last, blocks[last].size)
    ensures OnTheWay(blocks, i, last, k, a)
    decreases Distance(|blocks|, i, last)
  {
    if i == last || a in Data(blocks[i]) {
      k := i;
    } else {
      k := TailHolds(blocks, Next(|blocks|, i), last, a);
    }
  }

  lemma {:induction false} TailHasAll(blocks: seq<Block>, i: nat, last: nat, k: nat, a: nat)
    requires i < |blocks| && last < |blocks| && OnTheWay(blocks, i, last, k, a)
    ensures a in Tail(blocks, i, last, blocks[last].size)
    decreases Distance(|blocks|, i, last)
  {
    if i == k {
      assert Data(blocks[i])[a - blocks[i].start] == a;
    } else {
      TailHasAll(blocks, Next(|blocks|, i), last, k, a);
    }
  }

  lemma DistinctJoin(a: seq<nat>, b: seq<nat>)
    requires Distinct(a) && Distinct(b) && forall x :: x in b ==> x !in a
    ensures Distinct(a + b)
  {
    forall i, j | 0 <= i < j < |a + b| ensures (a + b)[i] != (a + b)[j] {
      if i < |a| <= j { assert b[j - |a|] in b && a[i] in a; }
    }
  }

  lemma {:induction false} TailDistinct(blocks: seq<Block>, i: nat, last: nat)
    requires i < |blocks| && last < |blocks| && Apart(blocks)
    ensures Distinct(Tail(blocks, i, last, blocks[last].size))
    decreases Distance(|blocks|, i, last)
  {
    if i != last {
      var n := |blocks|;
      var rest := Tail(blocks, Next(n, i), last, blocks[last].size);
      TailDistinct(blocks, Next(n, i), last);
      forall a | a in rest ensures a !in Data(blocks[i]) {
        var k := TailHolds(blocks, Next(n, i), last, a);
        assert k != i;
        assert Holds(blocks[k], a);
        if a in Data(blocks[i]) { assert Holds(blocks[i], a); }
      }
      DistinctJoin(Data(blocks[i]), rest);
    }
  }

  /** A reader of the whole ring meets every stored byte, exactly once. */
  lemma EveryByteOnce(v: Ring, l: Layout)
    requires LaidOut(v, l) && Fits(v, l)
    ensures Distinct(OldestFirst(v))
    ensures forall a: nat :: a in OldestFirst(v) <==> exists k :: 0 <= k < |v.blocks| && Holds(v.blocks[k], a)
  {
    DataDisjoint(v, l);
    var n := |v.blocks|;
    var i := Next(n, v.write);
    TailDistinct(v.blocks, i, v.write);
    forall a: nat | a in OldestFirst(v) ensures exists k :: 0 <= k < n && Holds(v.blocks[k], a) {
      var k := TailHolds(v.blocks, i, v.write, a);
    }
    forall a: nat, k: nat | k < n && Holds(v.blocks[k], a) ensures a in OldestFirst(v) {
      TailHasAll(v.blocks, i, v.write, k, a);
    }
  }

  // --- Runs ---------------------------------------------------------------------------------------

  datatype Op = Write(size: word, packets: word) | StartNext

  /** Writers ask for space before they write. */
  function Do(v: Ring, op: Op): Ring
    requires v.write < |v.blocks| && 0 < v.total
  {
    match op
    case Write(size, packets) => if EnoughSpace(v, size) then Add(v, size, packets) else v
    case StartNext => WriteNext(v)
  }

  function DoAll(v: Ring, ops: seq<Op>): (r: Ring)
    requires v.write < |v.blocks| && 0 < v.total
    ensures r.write < |r.blocks| == |v.blocks| && r.total == v.total
    decreases |ops|
  {
    if ops == [] then v else DoAll(Do(v, ops[0]), ops[1..])
  }

  /** The addresses an operation writes. */
  function WrittenBy(v: Ring, op: Op): seq<nat>
    requires v.write < |v.blocks| && 0 < v.total
  {
    if op.Write? && EnoughSpace(v, op.size)
    then Addresses(v.blocks[v.write].start + v.blocks[v.write].size, op.size) else []
  }

  /** The bytes given up by going on to a block that was not empty. */
  function DroppedBy(v: Ring, op: Op): nat
    requires v.write < |v.blocks|
  {
    if op.StartNext? && NextWritable(v) then v.blocks[Next(|v.blocks|, v.write)].size else 0
  }

  function Written(v: Ring, ops: seq<Op>): seq<nat>
    requires v.write < |v.blocks| && 0 < v.total
    decreases |ops|
  {
    if ops == [] then [] else WrittenBy(v, ops[0]) + Written(Do(v, ops[0]), ops[1..])
  }

  function Dropped(v: Ring, ops: seq<Op>): nat
    requires v.write < |v.blocks| && 0 < v.total
    decreases |ops|
  {
    if ops == [] then 0 else DroppedBy(v, ops[0]) + Dropped(Do(v, ops[0]), ops[1..])
  }

  /** One step: still laid out, still fitting, and the queue moved by what was written and dropped. */
  lemma StepQueues(v: Ring, l: Layout, op: Op)
    requires LaidOut(v, l) && Fits(v, l) && 0 < v.total
    ensures var w := Do(v, op);
            && LaidOut(w, l) && Fits(w, l) && w.total == v.total && w.overwriteOld == v.overwriteOld
            && DroppedBy(v, op) <= |OldestFirst(v)|
            && OldestFirst(w) == (OldestFirst(v) + WrittenBy(v, op))[DroppedBy(v, op)..]
            && (!v.overwriteOld ==> DroppedBy(v, op) == 0)
  {
    if op.StartNext? {
      WriteNextFits(v, l);
      WriteNextDropsOldest(v);
      assert OldestFirst(v) + [] == OldestFirst(v);
    } else if EnoughSpace(v, op.size) {
      GuardedAddFits(v, l, op.size, op.packets);
      AddAppends(v, op.size, op.packets);
    }
  }

  lemma DropTwice(q: seq<nat>, a: seq<nat>, b: seq<nat>, k: nat, m: nat)
    requires k <= |q| && k + m <= |q| + |a| + |b|
    ensures k <= |q + a| && m <= |(q + a)[k..] + b|
    ensures ((q + a)[k..] + b)[m..] == (q + (a + b))[k + m..]
  {
    assert (q + a)[k..] + b == (q + (a + b))[k..];
  }

  /**
   * On every run of guarded writes and steps to the next block, the stored data are the queue of
   * everything written, less what was dropped at its front; without overwriting, nothing ever is.
   */
  lemma {:induction false} RunQueues(v: Ring, l: Layout, ops: seq<Op>)
    requires LaidOut(v, l) && Fits(v, l) && 0 < v.total
    ensures var w := DoAll(v, ops);
            && LaidOut(w, l) && Fits(w, l)
            && Dropped(v, ops) <= |OldestFirst(v)| + |Written(v, ops)|
            && OldestFirst(w) == (OldestFirst(v) + Written(v, ops))[Dropped(v, ops)..]
            && (!v.overwriteOld ==> Dropped(v, ops) == 0)
    decreases |ops|
  {
    if ops != [] {
      var op, rest := ops[0], ops[1..];
      var w := Do(v, op);
      StepQueues(v, l, op);
      RunQueues(w, l, rest);
      DropTwice(OldestFirst(v), WrittenBy(v, op), Written(w, rest), DroppedBy(v, op), Dropped(w, rest));
    }
  }

  /** A step to the next block is refused only if it would drop data that are to be kept; then nothing changes. */
  lemma GoesOnIff(v: Ring)
    requires 1 < |v.blocks| && v.write < |v.blocks|
    ensures var w := WriteNext(v);
            var next := (v.write + 1) % |v.blocks|;
            if v.overwriteOld || v.blocks[next].size == 0 then
              w.write == next && w.blocks[next].size == w.blocks[next].packets == 0 && |w.blocks| == |v.blocks|
                && forall i :: 0 <= i < |v.blocks| && i != next ==> w.blocks[i] == v.blocks[i]
            else w == v
  {
    if v.write == |v.blocks| - 1 { assert (v.write + 1) % |v.blocks| == 0; }
  }

  function Steps(ops: seq<Op>): nat {
    if ops == [] then 0 else (if ops[0].StartNext? then 1 else 0) + Steps(ops[1..])
  }

  /** The block so many places on around the ring. */
  function Further(n: nat, i: nat, steps: nat): nat
    requires i < n
    decreases steps
  {
    if steps == 0 then i else Further(n, Next(n, i), steps - 1)
  }

  /** A ring set to overwrite never refuses: on every run the write block goes on by as many blocks as asked for. */
  lemma {:induction false} OverwritingGoesOn(v: Ring, ops: seq<Op>)
    requires v.write < |v.blocks| && 0 < v.total && v.overwriteOld
    ensures DoAll(v, ops).write == Further(|v.blocks|, v.write, Steps(ops))
    decreases |ops|
  {
    if ops != [] {
      OverwritingGoesOn(Do(v, ops[0]), ops[1..]);
    }
  }

  /** The packets written to the block that is being written, since it was entered. */
  function PacketsSince(v: Ring, n: nat, ops: seq<Op>): nat
    requires v.write < |v.blocks| && 0 < v.total
    decreases |ops|
  {
    if ops == [] then n
    else
      var m := match ops[0]
        case Write(size, packets) => if EnoughSpace(v, size) then n + packets else n
        case StartNext => if NextWritable(v) then 0 else n;
      PacketsSince(Do(v, ops[0]), m, ops[1..])
  }

  lemma {:induction false} PacketsCounted(v: Ring, n: nat, ops: seq<Op>)
    requires v.write < |v.blocks| && 0 < v.total && v.blocks[v.write].packets == n % WORD
    ensures var w := DoAll(v, ops); w.blocks[w.write].packets == PacketsSince(v, n, ops) % WORD
    decreases |ops|
  {
    if ops != [] {
      var m := match ops[0]
        case Write(size, packets) => if EnoughSpace(v, size) then n + packets else n
        case StartNext => if NextWritable(v) then 0 else n;
      if ops[0].Write? { SumOfWords(n, ops[0].packets); }
      PacketsCounted(Do(v, ops[0]), m, ops[1..]);
    }
  }

  lemma SumOfWords(n: nat, k: nat)
    ensures (n % WORD + k) % WORD == (n + k) % WORD
  {
  }

  /** The whole run from an empty ring: data of different blocks stay apart, and conservation of bytes. */
  lemma RunKeepsApart(v: Ring, l: Layout, ops: seq<Op>)
    requires LaidOut(v, l) && Fits(v, l) && 0 < v.total && OldestFirst(v) == []
    ensures var w := DoAll(v, ops);
            && Apart(w.blocks) && Inside(w.blocks, l.base, w.total)
            && Total(w.blocks) + Dropped(v, ops) == |Written(v, ops)|
  {
    RunQueues(v, l, ops);
    DataDisjoint(DoAll(v, ops), l);
    OldestFirstHasAll(DoAll(v, ops));
  }

  /** A ring of one block never takes a byte. */
  lemma {:induction false} OneBlockStaysEmpty(v: Ring, l: Layout, ops: seq<Op>)
    requires LaidOut(v, l) && Fits(v, l) && 0 < v.total && |v.blocks| == 1 && v.blocks[0].size == 0
    ensures Written(v, ops) == [] && DoAll(v, ops).blocks[0].size == 0
    decreases |ops|
  {
    if ops != [] {
      AvailableMeans(v, l);
      StepQueues(v, l, ops[0]);
      OneBlockStaysEmpty(Do(v, ops[0]), l, ops[1..]);
    }
  }
}
