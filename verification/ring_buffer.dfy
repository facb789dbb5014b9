/** The byte queue a ring buffer stands for. */
module ByteQueue {
  import opened Checksum

  datatype Op =
    | Write(data: seq<byte>)
    | Read(amount: nat, increment: bool, remaining: bool)
    | Delete(amount: nat, remaining: bool)

  /** How many bytes a read or delete of this size takes; None when it fails. */
  datatype Taken = None | Some(count: nat)

  function Takes(q: seq<byte>, amount: nat, remaining: bool): Taken {
    if amount <= |q| then Some(amount) else if remaining then Some(|q|) else None
  }

  /** The queue, and the bytes removed from its front. */
  function Drop(q: seq<byte>, t: Taken): (seq<byte>, seq<byte>)
    requires t.Some? ==> t.count <= |q|
  {
    if t.Some? then (q[t.count..], q[..t.count]) else (q, [])
  }

  function Accepts(q: seq<byte>, capacity: nat, data: seq<byte>): bool { |q| + |data| <= capacity }

  /** One operation: the new queue, what it took in, what it gave out for good. */
  function Step(q: seq<byte>, capacity: nat, op: Op): (seq<byte>, seq<byte>, seq<byte>) {
    match op
    case Write(data) => if Accepts(q, capacity, data) then (q + data, data, []) else (q, [], [])
    case Read(amount, increment, remaining) =>
      if increment then var d := Drop(q, Takes(q, amount, remaining)); (d.0, [], d.1) else (q, [], [])
    case Delete(amount, remaining) => var d := Drop(q, Takes(q, amount, remaining)); (d.0, [], d.1)
  }

  /** The queue after some operations, everything accepted, everything consumed. */
  function Run(q: seq<byte>, capacity: nat, ops: seq<Op>): (seq<byte>, seq<byte>, seq<byte>)
    decreases |ops|
  {
    if ops == [] then (q, [], [])
    else
      var s := Step(q, capacity, ops[0]);
      var r := Run(s.0, capacity, ops[1..]);
      (r.0, s.1 + r.1, s.2 + r.2)
  }

  /** Bytes leave in the order in which they were accepted, and none is lost or invented. */
  lemma {:induction false} RunConserves(q: seq<byte>, capacity: nat, ops: seq<Op>)
    requires |q| <= capacity
    ensures var r := Run(q, capacity, ops);
            |r.0| <= capacity && q + r.1 == r.2 + r.0
    decreases |ops|
  {
    if ops != [] {
      var s := Step(q, capacity, ops[0]);
      RunConserves(s.0, capacity, ops[1..]);
      var r := Run(s.0, capacity, ops[1..]);
      assert q + s.1 == s.2 + s.0;
      Regroup(q, s.1, r.1, s.2, s.0, r.2, r.0);
    }
  }

  lemma Regroup(q: seq<byte>, in1: seq<byte>, in2: seq<byte>, out1: seq<byte>, mid: seq<byte>, out2: seq<byte>,
                rest: seq<byte>)
    requires q + in1 == out1 + mid && mid + in2 == out2 + rest
    ensures q + (in1 + in2) == (out1 + out2) + rest
  {
    assert q + (in1 + in2) == (q + in1) + in2;
    assert (out1 + mid) + in2 == out1 + (mid + in2);
    assert out1 + (out2 + rest) == (out1 + out2) + rest;
  }

  /** From an empty queue: what was consumed is a prefix of what was accepted. */
  lemma ConsumedIsPrefix(capacity: nat, ops: seq<Op>)
    ensures var r := Run([], capacity, ops);
            r.2 <= r.1 && r.1[|r.2|..] == r.0 && |r.0| <= capacity
  {
    RunConserves([], capacity, ops);
    var r := Run([], capacity, ops);
    assert [] + r.1 == r.1;
  }

  // --- Peeks ---------------------------------------------------------------------------------------------

  /** A read that leaves the read position alone. */
  predicate Peeks(op: Op) { op.Read? && !op.increment }

  function WithoutPeeks(ops: seq<Op>): seq<Op> {
    if ops == [] then [] else (if Peeks(ops[0]) then [] else [ops[0]]) + WithoutPeeks(ops[1..])
  }

  /** Peeks may be left out of any run: queue, accepted and consumed bytes stay the same. */
  lemma {:induction false} PeeksChangeNothing(q: seq<byte>, capacity: nat, ops: seq<Op>)
    ensures Run(q, capacity, WithoutPeeks(ops)) == Run(q, capacity, ops)
    decreases |ops|
  {
    if ops != [] {
      var s := Step(q, capacity, ops[0]);
      PeeksChangeNothing(s.0, capacity, ops[1..]);
      var rest := WithoutPeeks(ops[1..]);
      if Peeks(ops[0]) {
        assert [] + rest == rest;
        var r := Run(q, capacity, rest);
        assert [] + r.1 == r.1 && [] + r.2 == r.2;
      } else {
        assert ([ops[0]] + rest)[1..] == rest;
      }
    }
  }

  /** The bytes that a read puts into its caller's buffer. */
  function HandedOut(q: seq<byte>, op: Op): seq<byte>
    requires op.Read?
  {
    if op.amount <= |q| then q[..op.amount] else if op.remaining then q else []
  }

  /** A read that moves on consumes what it hands out, and nothing else. */
  lemma ReadConsumes(q: seq<byte>, capacity: nat, op: Op)
    requires op.Read? && op.increment
    ensures var s := Step(q, capacity, op); s.2 == HandedOut(q, op) && s.1 == [] && s.2 + s.0 == q
  {
  }

  /** What was looked at is what a read of that many bytes hands out later, whatever was written in between. */
  lemma {:induction false} PeekedComesNext(q: seq<byte>, capacity: nat, peek: Op, between: seq<Op>, increment: bool,
                                           remaining: bool)
    requires Peeks(peek) && forall op :: op in between ==> op.Write? || Peeks(op)
    ensures var later := Run(Step(q, capacity, peek).0, capacity, between).0;
            q <= later
            && HandedOut(later, Read(|HandedOut(q, peek)|, increment, remaining)) == HandedOut(q, peek)
    decreases |between|
  {
    if between != [] {
      var s := Step(q, capacity, between[0]).0;
      PeekedComesNext(s, capacity, peek, between[1..], increment, remaining);
    }
  }
}

/** A ring of size bytes, one of them always free, with room behind it for contiguous writes. */
module SimpleRingBuffer {
  import opened Words
  import opened Checksum
  import Q = ByteQueue
  import opened Copying

  function Wrap(x: nat, size: nat): nat { if x < size then x else x - size }

  lemma WrapIsModulo(x: nat, size: nat)
    requires 0 < size && x < 2 * size
    ensures x % size == Wrap(x, size)
  {
    if size <= x { assert x == size + (x - size); }
  }

  /** Bytes between two positions of the ring. */
  function Between(from: nat, to: nat, size: nat): nat
    requires from < size
  {
    if from <= to then to - from else to + size - from
  }

  /** The k-th byte of the ring from a position on. */
  function At(bytes: seq<byte>, size: nat, from: nat, k: nat): byte
    requires from < size <= |bytes| && k < size
  {
    bytes[Wrap(from + k, size)]
  }

  /** count bytes of the ring from a position on. */
  function Ring(bytes: seq<byte>, size: nat, from: nat, count: nat): (r: seq<byte>)
    requires from < size <= |bytes| && count <= size
    ensures |r| == count
    ensures forall k :: 0 <= k < count ==> r[k] == At(bytes, size, from, k)
  {
    seq(count, k requires 0 <= k < count => At(bytes, size, from, k))
  }

  /** Writing behind the unread bytes appends. */
  lemma RingAppends(was: seq<byte>, now: seq<byte>, size: nat, from: nat, count: nat, data: seq<byte>)
    requires from < size <= |was| && size <= |now| && count + |data| <= size
    requires forall k :: 0 <= k < count ==> At(now, size, from, k) == At(was, size, from, k)
    requires forall k :: 0 <= k < |data| ==> At(now, size, from, count + k) == data[k]
    ensures Ring(now, size, from, count + |data|) == Ring(was, size, from, count) + data
  {
    var r := Ring(now, size, from, count + |data|);
    forall j | 0 <= j < |r| ensures r[j] == (Ring(was, size, from, count) + data)[j] {
      if count <= j {
        var k := j - count;
        assert At(now, size, from, count + k) == data[k];
      }
    }
  }

  /** Moving the read position drops from the front. */
  lemma RingDrops(bytes: seq<byte>, size: nat, from: nat, count: nat, k: nat)
    requires from < size <= |bytes| && k <= count < size
    ensures Ring(bytes, size, Wrap(from + k, size), count - k) == Ring(bytes, size, from, count)[k..]
  {
    var r := Ring(bytes, size, Wrap(from + k, size), count - k);
    forall j | 0 <= j < |r| ensures r[j] == Ring(bytes, size, from, count)[k..][j] {
      assert At(bytes, size, Wrap(from + k, size), j) == At(bytes, size, from, k + j);
    }
  }

  /** The bytes of a ring are one or two stretches of memory. */
  lemma RingPieces(bytes: seq<byte>, size: nat, from: nat, count: nat)
    requires from < size <= |bytes| && count <= size
    ensures from + count <= size ==> Ring(bytes, size, from, count) == bytes[from..from + count]
    ensures size < from + count ==> Ring(bytes, size, from, count) == bytes[from..size] + bytes[..count - (size - from)]
  {
  }

  lemma RingPrefix(bytes: seq<byte>, size: nat, from: nat, count: nat, n: nat)
    requires from < size <= |bytes| && n <= count <= size
    ensures Ring(bytes, size, from, n) == Ring(bytes, size, from, count)[..n]
  {
  }

  lemma CopiedStraight(was: seq<byte>, now: seq<byte>, size: nat, from: nat, count: nat, write: nat, data: seq<byte>)
    requires from < size <= |was| && count + |data| < size && write == Wrap(from + count, size)
             && write + |data| <= size
    requires now == was[..write] + data + was[write + |data|..]
    ensures Ring(now, size, from, count + |data|) == Ring(was, size, from, count) + data
  {
    RingAppends(was, now, size, from, count, data);
  }

  lemma CopiedAround(was: seq<byte>, half: seq<byte>, now: seq<byte>, size: nat, from: nat, count: nat, write: nat,
                     first: seq<byte>, second: seq<byte>)
    requires from < size <= |was| && count + |first| + |second| < size && write == Wrap(from + count, size)
    requires write + |first| == size && half == was[..write] + first + was[size..] && now == second + half[|second|..]
    ensures Ring(now, size, from, count + (|first| + |second|)) == Ring(was, size, from, count) + (first + second)
  {
    var data := first + second;
    forall k | 0 <= k < count ensures At(now, size, from, k) == At(was, size, from, k) {
      assert |second| <= Wrap(from + k, size) < write;
    }
    forall k | 0 <= k < |data| ensures At(now, size, from, count + k) == data[k] {
      var i := Wrap(from + (count + k), size);
      if k < |first| {
        assert i == write + k && now[i] == half[i];
      } else {
        assert i == k - |first|;
      }
    }
    RingAppends(was, now, size, from, count, data);
  }

  /** The memory after the excess bytes were moved to the start of the ring. */
  function Moved(bytes: seq<byte>, size: nat, excess: nat): (r: seq<byte>)
    requires size + excess <= |bytes|
    ensures |r| == |bytes|
    ensures forall k {:trigger r[k]} :: 0 <= k < |r| ==> r[k] == if k < excess then bytes[size + k] else bytes[k]
  {
    seq(|bytes|, k requires 0 <= k < |bytes| => if k < excess then bytes[size + k] else bytes[k])
  }

  /** The memory after bytes were filled in at a position. */
  function Filled(bytes: seq<byte>, at: nat, data: seq<byte>): (r: seq<byte>)
    requires at + |data| <= |bytes|
    ensures |r| == |bytes|
  {
    bytes[..at] + data + bytes[at + |data|..]
  }

  /** A position of the ring and its image behind the end hold the same byte. */
  predicate Agrees(bytes: seq<byte>, size: nat, i: nat) { size + i < |bytes| && bytes[i] == bytes[size + i] }

  /** Is the byte k places behind a position where it belongs after the move, if it was written contiguously? */
  predicate Stays(bytes: seq<byte>, size: nat, from: nat, excess: nat, k: nat) {
    if from + k < size then from + k < excess ==> Agrees(bytes, size, from + k)
    else from + k - size < excess || Agrees(bytes, size, from + k - size)
  }

  /** An unread byte stays what it is. */
  predicate Survives(bytes: seq<byte>, size: nat, from: nat, excess: nat, k: nat) {
    Wrap(from + k, size) < excess ==> Agrees(bytes, size, Wrap(from + k, size))
  }

  /** The excess bytes spoil neither unread nor newly written bytes, and no newly written one is left behind. */
  predicate Unspoiled(bytes: seq<byte>, size: nat, from: nat, count: nat, write: nat, excess: nat, amount: nat) {
    && (forall k :: 0 <= k < count ==> Survives(bytes, size, from, excess, k))
    && (forall k :: 0 <= k < amount ==> Stays(bytes, size, write, excess, k))
  }

  /** Confirming appends the bytes written contiguously if and only if the excess bytes spoil nothing. */
  lemma ConfirmIff(was: seq<byte>, size: nat, from: nat, count: nat, write: nat, excess: nat, amount: nat)
    requires from < size && count + amount < size && write == Wrap(from + count, size) < size
    requires size + excess <= |was| && write + amount <= |was|
    ensures Ring(Moved(was, size, excess), size, from, count + amount)
            == Ring(was, size, from, count) + was[write..write + amount]
       <==> Unspoiled(was, size, from, count, write, excess, amount)
  {
    var now, data := Moved(was, size, excess), was[write..write + amount];
    var r, wanted := Ring(now, size, from, count + amount), Ring(was, size, from, count) + data;
    forall k | 0 <= k < count ensures r[k] == wanted[k] <==> Survives(was, size, from, excess, k) {
      assert r[k] == now[Wrap(from + k, size)] && wanted[k] == was[Wrap(from + k, size)];
    }
    forall k | 0 <= k < amount ensures r[count + k] == wanted[count + k] <==> Stays(was, size, write, excess, k) {
      assert Wrap(from + (count + k), size) == if write + k < size then write + k else write + k - size;
      assert r[count + k] == now[Wrap(from + (count + k), size)] && wanted[count + k] == was[write + k];
    }
    if r == wanted {
      forall k | 0 <= k < amount ensures Stays(was, size, write, excess, k) {
        assert r[count + k] == wanted[count + k];
      }
    } else if Unspoiled(was, size, from, count, write, excess, amount) {
      forall j | 0 <= j < |r| ensures r[j] == wanted[j] {
        if j < count {
          assert Survives(was, size, from, excess, j);
        } else {
          assert Stays(was, size, write, excess, j - count);
          assert r[count + (j - count)] == wanted[count + (j - count)];
        }
      }
      assert false;
    }
  }

  /** A reservation in force spoils nothing, whatever the memory holds. */
  lemma ReservationSpoilsNothing(was: seq<byte>, size: nat, from: nat, count: nat, write: nat, excess: nat, amount: nat)
    requires from < size && count + amount < size && write == Wrap(from + count, size) < size
    requires size + excess <= |was| && amount <= size - write + excess
    requires excess == 0 || size - write + excess + count < size
    ensures Unspoiled(was, size, from, count, write, excess, amount)
  {
  }

  /** The queue after confirming, read off memory and positions. */
  lemma ConfirmedQueue(was: seq<byte>, size: nat, from: nat, write: nat, excess: nat, amount: nat, newWrite: nat)
    requires from < size && write < size && Between(from, write, size) + amount < size && size + excess <= |was|
    requires write + amount <= |was| && newWrite == Wrap(write + amount, size)
    ensures Between(from, newWrite, size) == Between(from, write, size) + amount
    ensures Ring(Moved(was, size, excess), size, from, Between(from, newWrite, size))
            == Ring(was, size, from, Between(from, write, size)) + was[write..write + amount]
       <==> Unspoiled(was, size, from, Between(from, write, size), write, excess, amount)
    ensures (excess == 0 || size - write + excess + Between(from, write, size) < size)
            && amount <= size - write + excess ==>
            Unspoiled(was, size, from, Between(from, write, size), write, excess, amount)
  {
    var count := Between(from, write, size);
    ConfirmIff(was, size, from, count, write, excess, amount);
    if (excess == 0 || size - write + excess + count < size) && amount <= size - write + excess {
      ReservationSpoilsNothing(was, size, from, count, write, excess, amount);
    }
  }

  method CopyTwice(data: array<byte>, first: seq<byte>, second: seq<byte>)
    requires |first| + |second| <= data.Length
    modifies data
    ensures data[..] == (first + second) + old(data[|first| + |second|..])
  {
    ghost var was := data[..];
    Memcpy(data, 0, first);
    ghost var half := data[..];
    assert half == first + was[|first|..];
    Memcpy(data, |first|, second);
    assert half[..|first|] == first && half[|first| + |second|..] == was[|first| + |second|..];
  }

  class SimpleRingBuffer {
    const buffer: array<byte>
    const size: nat
    const maxExcessBytes: nat
    var write: nat
    var read: nat
    var excessBytes: nat

    ghost predicate Valid()
      reads this
    {
      && 0 < size < WORD && write < size && read < size
      && excessBytes <= maxExcessBytes <= size && size + maxExcessBytes <= buffer.Length
    }

    ghost function Unread(): nat
      reads this
      requires Valid()
    {
      Between(read, write, size)
    }

    ghost function Queue(): (r: seq<byte>)
      reads this, buffer
      requires Valid()
      ensures |r| == Unread() < size
    {
      Ring(buffer[..], size, read, Unread())
    }

    ghost function Capacity(): nat
      reads this
      requires Valid()
    {
      size - 1
    }

    /** The excess bytes wait for the start of the ring, which is free. */
    ghost predicate Reserved()
      reads this
      requires Valid()
    {
      excessBytes == 0 || (size - write) + excessBytes + Unread() <= Capacity()
    }

    constructor (size: nat, maxExcessBytes: nat)
      requires 0 < size < WORD
      ensures Valid() && fresh(buffer) && this.size == size && Queue() == [] && Reserved()
              && write == read == excessBytes == 0
      ensures this.maxExcessBytes == if maxExcessBytes > size then size else maxExcessBytes
    {
      this.size := size;
      this.maxExcessBytes := if maxExcessBytes > size then size else maxExcessBytes;
      buffer := new byte[size + maxExcessBytes];
      write, read, excessBytes := 0, 0, 0;
    }

    method GetAvailableReadData() returns (r: nat)
      requires Valid()
      ensures r == |Queue()|
    {
      WrapIsModulo((write + size) - read, size);
      r := ((write + size) - read) % size;
    }

    /** Readable and writable bytes are all but one, always. */
    method AvailableWriteSpace() returns (r: nat)
      requires Valid()
      ensures r + |Queue()| == Capacity()
    {
      WrapIsModulo((read + size) - write - 1, size);
      r := ((read + size) - write - 1) % size;
    }

    /** The amount is taken as a number of 32 bits. */
    method IncrementWrite(amount: nat)
      requires Valid()
      modifies this`write
      ensures Valid() && write == (old(write) + amount % WORD) % size
      ensures amount <= size ==> write == Wrap(old(write) + amount, size)
    {
      if amount <= size { WrapIsModulo(write + amount, size); }
      write := (write + amount % WORD) % size;
    }

    method IncrementRead(amount: nat)
      requires Valid() && amount <= Unread()
      modifies this`read
      ensures Valid() && Queue() == old(Queue())[amount..] && read == Wrap(old(read) + amount, size)
    {
      WrapIsModulo(read + amount, size);
      RingDrops(buffer[..], size, read, Unread(), amount);
      read := (read + amount) % size;
    }

    /** The copying part of writeData, around the end of the ring where needed. */
    method CopyIn(data: seq<byte>)
      requires Valid() && |data| + Unread() <= Capacity()
      modifies buffer
      ensures Ring(buffer[..], size, read, Unread() + |data|) == old(Queue()) + data
      ensures buffer[size..] == old(buffer[size..])
    {
      var amountTillWrap := size - write;
      if amountTillWrap >= |data| {
        ghost var was := buffer[..];
        Memcpy(buffer, write, data);
        CopiedStraight(was, buffer[..], size, read, Unread(), write, data);
      } else {
        CopyInTwice(data[..amountTillWrap], data[amountTillWrap..]);
        assert data[..amountTillWrap] + data[amountTillWrap..] == data;
      }
    }

    method CopyInTwice(first: seq<byte>, second: seq<byte>)
      requires Valid() && |first| + |second| + Unread() <= Capacity() && write + |first| == size
      modifies buffer
      ensures Ring(buffer[..], size, read, Unread() + (|first| + |second|)) == old(Queue()) + (first + second)
      ensures buffer[size..] == old(buffer[size..])
    {
      ghost var was := buffer[..];
      Memcpy(buffer, write, first);
      ghost var half := buffer[..];
      Memcpy(buffer, 0, second);
      assert half[..0] + second == second;
      CopiedAround(was, half, buffer[..], size, read, Unread(), write, first, second);
    }

    method WriteData(data: seq<byte>) returns (ok: bool)
      requires Valid()
      modifies this`write, buffer
      ensures Valid() && ok == (|old(Queue())| + |data| <= Capacity())
      ensures Queue() == if ok then old(Queue()) + data else old(Queue())
      ensures Queue() == Q.Step(old(Queue()), Capacity(), Q.Write(data)).0
      ensures write == (if ok then Wrap(old(write) + |data|, size) else old(write))
              && buffer[size..] == old(buffer[size..])
      ensures !ok ==> buffer[..] == old(buffer[..])
    {
      var space := AvailableWriteSpace();
      if space < |data| { return false; }
      CopyIn(data);
      IncrementWrite(|data|);
      return true;
    }

    /** A position from which amount bytes in a row may be filled without touching unread bytes. */
    method GetFreeElement(amount: nat) returns (ok: bool, writePointer: nat)
      requires Valid()
      modifies this`excessBytes
      ensures Valid() && Queue() == old(Queue())
      ensures ok == (amount + Unread() <= Capacity()
                     && (amount <= size - write || (amount - (size - write)) + old(excessBytes) <= maxExcessBytes))
      ensures ok ==> writePointer == write && write + amount <= buffer.Length && amount <= (size - write) + excessBytes
      ensures excessBytes == if ok && amount > size - write then amount - (size - write) else old(excessBytes)
      ensures old(Reserved()) || (ok && amount > size - write) ==> Reserved()
    {
      writePointer := 0;
      var space := AvailableWriteSpace();
      if space < amount { return false, 0; }
      var amountTillWrap := size - write;
      if amountTillWrap < amount {
        if (amount - amountTillWrap) + excessBytes > maxExcessBytes { return false, 0; }
        excessBytes := amount - amountTillWrap;
      }
      return true, write;
    }

    /** Bytes filled in behind the write position, even beyond the ring, leave the queue alone. */
    method Fill(data: seq<byte>)
      requires Valid() && |data| + Unread() <= Capacity() && write + |data| <= buffer.Length
      modifies buffer
      ensures Queue() == old(Queue()) && buffer[..] == Filled(old(buffer[..]), write, data)
    {
      ghost var was := buffer[..];
      Memcpy(buffer, write, data);
      RingAppends(was, buffer[..], size, read, Unread(), []);
    }

    method MoveExcessBytesToStart()
      requires Valid()
      modifies this`excessBytes, buffer
      ensures excessBytes == 0 && buffer[..] == Moved(old(buffer[..]), size, old(excessBytes))
    {
      if excessBytes > 0 {
        Memcpy(buffer, 0, buffer[size..size + excessBytes]);
        excessBytes := 0;
      }
    }

    /**
     The bytes filled in contiguously become part of the queue, if and only if the excess bytes spoil
     nothing. They spoil nothing while the reservation is in force.
     */
    method ConfirmBytesWritten(amount: nat)
      requires Valid()
      modifies this`excessBytes, this`write, buffer
      ensures Valid() && excessBytes == 0 && write == (old(write) + amount % WORD) % size
      ensures buffer[..] == Moved(old(buffer[..]), size, old(excessBytes))
      ensures amount + old(Unread()) <= Capacity() && old(write) + amount <= buffer.Length ==>
                (Queue() == old(Queue()) + old(buffer[..])[old(write)..old(write) + amount]
                 <==> Unspoiled(old(buffer[..]), size, read, old(Unread()), old(write), old(excessBytes), amount))
      ensures old(Reserved()) && amount + old(Unread()) <= Capacity()
              && amount <= (size - old(write)) + old(excessBytes) ==>
                Queue() == old(Queue()) + old(buffer[..])[old(write)..old(write) + amount]
    {
      ghost var was, excess, at, unread := buffer[..], excessBytes, write, Unread();
      if excessBytes > 0 { MoveExcessBytesToStart(); }
      assert buffer[..] == Moved(was, size, excess);
      IncrementWrite(amount);
      if amount + unread < size && at + amount <= |was| {
        ConfirmedQueue(was, size, read, at, excess, amount, write);
      }
    }

    /**
     What a caller of getFreeElement does. While no stale excess bytes are left the queue ends up as after
     an ordinary write; in any state, exactly if they spoil nothing.
     */
    method WriteContiguously(data: seq<byte>) returns (ok: bool)
      requires Valid()
      modifies this`excessBytes, this`write, buffer
      ensures Valid() && excessBytes == if ok then 0 else old(excessBytes)
      ensures ok == (Q.Accepts(old(Queue()), Capacity(), data)
                     && (|data| <= size - old(write)
                         || |data| - (size - old(write)) + old(excessBytes) <= maxExcessBytes))
      ensures !ok ==> Queue() == old(Queue())
      ensures ok && (old(Reserved()) || |data| > size - old(write)) ==> Queue() == old(Queue()) + data
      ensures ok && |data| <= size - old(write) ==>
                (Queue() == old(Queue()) + data
                 <==> Unspoiled(Filled(old(buffer[..]), old(write), data), size, read, old(Unread()), old(write),
                                old(excessBytes), |data|))
    {
      var writePointer;
      ok, writePointer := GetFreeElement(|data|);
      if ok {
        Fill(data);
        assert buffer[..][write..write + |data|] == data;
        ConfirmBytesWritten(|data|);
      }
    }

    /** The copying part of readData, around the end of the ring where needed. */
    method CopyOut(data: array<byte>, amount: nat)
      requires Valid() && data != buffer && amount <= data.Length && amount <= Unread()
      modifies data
      ensures data[..] == Queue()[..amount] + old(data[amount..])
    {
      RingPrefix(buffer[..], size, read, Unread(), amount);
      RingPieces(buffer[..], size, read, amount);
      var amountTillWrap := size - read;
      if amountTillWrap >= amount {
        Memcpy(data, 0, buffer[read..read + amount]);
      } else {
        CopyTwice(data, buffer[read..size], buffer[..amount - amountTillWrap]);
      }
    }

    method ReadData(data: array<byte>, amount: nat, incrementReadPtr: bool, readRemaining: bool)
      returns (ok: bool, trueAmount: nat)
      requires Valid() && data != buffer && amount <= data.Length
      modifies this`read, data
      ensures Valid()
      ensures ok <==> amount <= |old(Queue())| || readRemaining
      ensures ok ==> trueAmount == (if amount <= |old(Queue())| then amount else |old(Queue())|)
                     && data[..] == old(Queue())[..trueAmount] + old(data[trueAmount..])
                     && old(Queue())[..trueAmount]
                        == Q.HandedOut(old(Queue()), Q.Read(amount, incrementReadPtr, readRemaining))
      ensures !ok ==> data[..] == old(data[..])
      ensures Queue() == if ok && incrementReadPtr then old(Queue())[trueAmount..] else old(Queue())
      ensures Queue() == Q.Step(old(Queue()), Capacity(), Q.Read(amount, incrementReadPtr, readRemaining)).0
    {
      var availableData := GetAvailableReadData();
      trueAmount := amount;
      if availableData < amount {
        if !readRemaining { return false, 0; }
        trueAmount := availableData;
      }
      CopyOut(data, trueAmount);
      if incrementReadPtr {
        var deleted, count := DeleteData(trueAmount, readRemaining);
      }
      return true, trueAmount;
    }

    method DeleteData(amount: nat, deleteRemaining: bool) returns (ok: bool, trueAmount: nat)
      requires Valid()
      modifies this`read
      ensures Valid()
      ensures ok <==> amount <= |old(Queue())| || deleteRemaining
      ensures ok ==> trueAmount == if amount <= |old(Queue())| then amount else |old(Queue())|
      ensures Queue() == if ok then old(Queue())[trueAmount..] else old(Queue())
      ensures Queue() == Q.Step(old(Queue()), Capacity(), Q.Delete(amount, deleteRemaining)).0
      ensures read == if ok then Wrap(old(read) + trueAmount, size) else old(read)
    {
      var availableData := GetAvailableReadData();
      trueAmount := amount;
      if availableData < amount {
        if !deleteRemaining { return false, 0; }
        trueAmount := availableData;
      }
      IncrementRead(trueAmount);
      return true, trueAmount;
    }
  }

  /** A reservation of four bytes, two of them behind the end, is filled and not confirmed. */
  method Abandon() returns (b: SimpleRingBuffer)
    ensures fresh(b) && fresh(b.buffer) && b.Valid() && b.size == 8 && b.maxExcessBytes == 8
    ensures b.write == 6 && b.read == 4 && b.excessBytes == 2 && b.buffer[8] == b.buffer[9] == 9
  {
    b := new SimpleRingBuffer(8, 8);
    var ok := b.WriteData([1, 1, 1, 1, 1, 1]);
    var deleted, n := b.DeleteData(4, false);
    var granted, at := b.GetFreeElement(4);
    ghost var was := b.buffer[..];
    b.Fill([9, 9, 9, 9]);
    assert b.buffer[..] == was[..6] + [9, 9, 9, 9] + was[10..];
    assert b.buffer[8] == b.buffer[..][8] && b.buffer[9] == b.buffer[..][9];
  }

  /** Ordinary writes go on meanwhile and reach the start of the ring. */
  method WriteOn(b: SimpleRingBuffer)
    requires b.Valid() && b.size == 8 && b.write == 6 && b.read == 4
    modifies b`write, b`read, b.buffer
    ensures b.Valid() && b.Queue() == [2, 2, 2] && b.read == 0 && b.write == 3 && b.buffer[8..] == old(b.buffer[8..])
  {
    var ok := b.WriteData([2, 2, 2, 2, 2]);
    var deleted, n := b.DeleteData(4, false);
  }

  method AbandonAndWriteOn() returns (b: SimpleRingBuffer)
    ensures fresh(b) && fresh(b.buffer) && b.Valid() && b.size == 8 && b.maxExcessBytes == 8 && b.Queue() == [2, 2, 2]
    ensures b.write == 3 && b.read == 0 && b.excessBytes == 2 && b.buffer[8] == b.buffer[9] == 9
  {
    b := Abandon();
    ghost var tail := b.buffer[8..];
    assert tail[0] == 9 && tail[1] == 9;
    WriteOn(b);
    assert b.buffer[8] == b.buffer[8..][0] && b.buffer[9] == b.buffer[8..][1];
  }

  lemma StaleBytes(was: seq<byte>)
    requires 10 <= |was| && was[2] == 2 && was[8] == was[9] == 9
    ensures Ring(Moved(Filled(was, 3, [3, 3]), 8, 2), 8, 0, 5) == [9, 9, 2, 3, 3]
  {
    var filled := was[..3] + [3, 3] + was[5..];
    var moved := Moved(filled, 8, 2);
    assert moved[0] == 9 && moved[1] == 9 && moved[2] == 2 && moved[3] == 3 && moved[4] == 3;
  }

  /**
   The next contiguous write, the bytes 3 and 3 behind a queue of three times 2, moves the abandoned
   bytes over the first two of them.
   */
  method StaleExcessOverwrites() returns (b: SimpleRingBuffer)
    ensures fresh(b) && b.Valid() && b.Queue() == [9, 9, 2, 3, 3]
  {
    b := AbandonAndWriteOn();
    var granted, at := b.GetFreeElement(2);
    ghost var was := b.buffer[..];
    assert was[2] == b.Queue()[2];
    b.Fill([3, 3]);
    b.ConfirmBytesWritten(2);
    StaleBytes(was);
  }
}
