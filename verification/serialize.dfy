/** Numbers as bytes in either order, on either kind of machine. */
module EndianConverter {
  import opened Checksum

  /** Byte order of a stream; Machine is whatever the machine has. */
  datatype Endianness = Big | Little | Machine

  type width = x: int | 0 < x witness 1

  function Power(n: nat): (r: nat)
    ensures 0 < r
  {
    if n == 0 then 1 else 256 * Power(n - 1)
  }

  /** The last n base-256 digits of a number, most significant first. */
  function Digits(value: nat, n: nat): (r: seq<byte>)
    ensures |r| == n
  {
    if n == 0 then [] else Digits(value / 256, n - 1) + [value % 256]
  }

  function ValueOf(s: seq<byte>): (v: nat)
    ensures v < Power(|s|)
    decreases |s|
  {
    if s == [] then 0 else 256 * ValueOf(s[..|s| - 1]) + s[|s| - 1]
  }

  lemma {:induction false} ValueOfDigits(value: nat, n: nat)
    requires value < Power(n)
    ensures ValueOf(Digits(value, n)) == value
  {
    if n != 0 {
      ValueOfDigits(value / 256, n - 1);
      assert Digits(value, n)[..n - 1] == Digits(value / 256, n - 1);
    }
  }

  lemma {:induction false} DigitsOfValue(s: seq<byte>)
    ensures Digits(ValueOf(s), |s|) == s
    decreases |s|
  {
    if s != [] {
      DigitsOfValue(s[..|s| - 1]);
      assert (256 * ValueOf(s[..|s| - 1]) + s[|s| - 1]) / 256 == ValueOf(s[..|s| - 1]);
    }
  }

  function Reverse(s: seq<byte>): (r: seq<byte>)
    ensures |r| == |s|
    ensures forall i :: 0 <= i < |s| ==> r[i] == s[|s| - 1 - i]
  {
    seq(|s|, i requires 0 <= i < |s| => s[|s| - 1 - i])
  }

  lemma ReverseTwice(s: seq<byte>)
    ensures Reverse(Reverse(s)) == s
  {
  }

  /** A number in a machine's memory. */
  function Memory(bigMachine: bool, value: nat, n: nat): (r: seq<byte>)
    ensures |r| == n
  {
    if bigMachine then Digits(value, n) else Reverse(Digits(value, n))
  }

  function FromMemory(bigMachine: bool, s: seq<byte>): nat {
    ValueOf(if bigMachine then s else Reverse(s))
  }

  /** Between machine order and stream order: the order is kept or turned around. */
  function Converted(bigMachine: bool, order: Endianness, s: seq<byte>): (r: seq<byte>)
    ensures |r| == |s|
  {
    if order == Machine || bigMachine == (order == Big) then s else Reverse(s)
  }

  /** Is the most significant byte first in the stream? */
  predicate BigFirst(bigMachine: bool, order: Endianness) { order == Big || (order == Machine && bigMachine) }

  /** A number in a stream. */
  function Number(value: nat, n: nat, bigFirst: bool): (r: seq<byte>)
    ensures |r| == n
  {
    if bigFirst then Digits(value, n) else Reverse(Digits(value, n))
  }

  function NumberValue(s: seq<byte>, bigFirst: bool): (r: nat)
    ensures r < Power(|s|)
  {
    ValueOf(if bigFirst then s else Reverse(s))
  }

  /** What goes out does not depend on the machine, when the order is given; and the conversion is its own inverse. */
  lemma StreamOfMemory(bigMachine: bool, order: Endianness, value: nat, n: nat, s: seq<byte>)
    ensures Converted(bigMachine, order, Memory(bigMachine, value, n)) == Number(value, n, BigFirst(bigMachine, order))
    ensures FromMemory(bigMachine, Converted(bigMachine, order, s)) == NumberValue(s, BigFirst(bigMachine, order))
    ensures Converted(bigMachine, order, Converted(bigMachine, order, s)) == s
  {
    ReverseTwice(s);
    ReverseTwice(Digits(value, n));
  }

  /** A number and its bytes determine each other. */
  lemma NumberRoundTrip(value: nat, n: nat, bigFirst: bool)
    requires value < Power(n)
    ensures NumberValue(Number(value, n, bigFirst), bigFirst) == value
  {
    ValueOfDigits(value, n);
    ReverseTwice(Digits(value, n));
  }

  lemma BytesRoundTrip(s: seq<byte>, n: nat, value: nat, bigFirst: bool)
    requires |s| == n && value == NumberValue(s, bigFirst)
    ensures Number(value, n, bigFirst) == s && value < Power(n)
  {
    DigitsOfValue(if bigFirst then s else Reverse(s));
    ReverseTwice(s);
  }

  /** Bytes taken for a number in memory and sent: as they are or turned around. */
  lemma MemoryRoundTrip(bigMachine: bool, order: Endianness, s: seq<byte>, n: nat, value: nat)
    requires |s| == n && value == FromMemory(bigMachine, s)
    ensures Number(value, n, BigFirst(bigMachine, order)) == Converted(bigMachine, order, s)
  {
    DigitsOfValue(if bigMachine then s else Reverse(s));
    ReverseTwice(s);
  }

  /** The loop that turns the bytes of a variable around, or the copy. */
  method ConvertBigEndian(bigMachine: bool, bytes: seq<byte>) returns (r: seq<byte>)
    ensures r == Converted(bigMachine, Big, bytes)
  {
    if bigMachine { return bytes; }
    r := TurnAround(bytes);
  }

  method ConvertLittleEndian(bigMachine: bool, bytes: seq<byte>) returns (r: seq<byte>)
    ensures r == Converted(bigMachine, Little, bytes)
  {
    if !bigMachine { return bytes; }
    r := TurnAround(bytes);
  }

  method TurnAround(bytes: seq<byte>) returns (r: seq<byte>)
    ensures r == Reverse(bytes)
  {
    var tmp := new byte[|bytes|];
    var count := 0;
    while count < |bytes|
      invariant count <= |bytes|
      invariant forall i :: 0 <= i < count ==> tmp[|bytes| - 1 - i] == bytes[i]
    {
      tmp[|bytes| - count - 1] := bytes[count];
      count := count + 1;
    }
    forall j | 0 <= j < |bytes| ensures tmp[j] == Reverse(bytes)[j] {
      var i := |bytes| - 1 - j;
      assert tmp[|bytes| - 1 - i] == bytes[i];
    }
    r := tmp[..];
  }
}

/** Trees of numbers, raw buffers, array lists and linked elements, and their bytes. */
module Serialization {
  import opened Checksum
  import opened EndianConverter

  datatype Value =
    | Scalar(size: width, value: nat)
    | Buffer(data: seq<byte>, withLength: bool, countSize: width)
    | ArrayList(items: Values, countSize: width)
    | Linked(elements: Values)

  datatype Values = Nil | Cons(head: Value, tail: Values)

  function Length(vs: Values): nat { if vs.Nil? then 0 else 1 + Length(vs.tail) }

  /** The bytes of a value in a stream. */
  function Bytes(v: Value, bigFirst: bool): seq<byte> {
    match v
    case Scalar(size, value) => Number(value, size, bigFirst)
    case Buffer(data, withLength, countSize) =>
      (if withLength then Number(|data|, countSize, bigFirst) else []) + data
    case ArrayList(items, countSize) => Number(Length(items), countSize, bigFirst) + AllBytes(items, bigFirst)
    case Linked(elements) => AllBytes(elements, bigFirst)
  }

  function AllBytes(vs: Values, bigFirst: bool): seq<byte> {
    if vs.Nil? then [] else Bytes(vs.head, bigFirst) + AllBytes(vs.tail, bigFirst)
  }

  lemma SizeOfOrder(v: Value)
    ensures |Bytes(v, true)| == |Bytes(v, false)|
  {
    match v
    case Scalar(_, _) =>
    case Buffer(_, _, _) =>
    case ArrayList(items, _) => AllSizeOfOrder(items);
    case Linked(elements) => AllSizeOfOrder(elements);
  }

  lemma AllSizeOfOrder(vs: Values)
    ensures |AllBytes(vs, true)| == |AllBytes(vs, false)|
  {
    if vs.Cons? {
      SizeOfOrder(vs.head);
      AllSizeOfOrder(vs.tail);
    }
  }

  // --- Reading ------------------------------------------------------------------------------------

  /** The object that is read into: its numbers' sizes, its buffers' lengths, its lists' entries. */
  datatype Shape =
    | ScalarShape(size: width)
    | BufferShape(length: nat, withLength: bool, countSize: width)
    | ListShape(entries: Shapes, countSize: width)
    | LinkedShape(elements: Shapes)

  datatype Shapes = NoShape | MoreShapes(head: Shape, tail: Shapes)

  function Count(shapes: Shapes): nat { if shapes.NoShape? then 0 else 1 + Count(shapes.tail) }

  datatype Read<T> = Got(value: T, rest: seq<byte>) | StreamTooShort | TooManyElements

  function ReadNumber(n: width, s: seq<byte>, bigFirst: bool): Read<nat> {
    if |s| < n then StreamTooShort else Got(NumberValue(s[..n], bigFirst), s[n..])
  }

  function ReadValue(shape: Shape, s: seq<byte>, bigFirst: bool): Read<Value>
    decreases shape, 0
  {
    match shape
    case ScalarShape(size) =>
      (match ReadNumber(size, s, bigFirst)
       case Got(value, rest) => Got(Scalar(size, value), rest)
       case StreamTooShort => StreamTooShort
       case TooManyElements => TooManyElements)
    case BufferShape(length, withLength, countSize) => ReadBuffer(length, withLength, countSize, s, bigFirst)
    case ListShape(entries, countSize) =>
      (match ReadNumber(countSize, s, bigFirst)
       case Got(n, rest) =>
         if n > Count(entries) then TooManyElements
         else (match ReadAll(entries, n, rest, bigFirst)
               case Got(items, end) => Got(ArrayList(items, countSize), end)
               case StreamTooShort => StreamTooShort
               case TooManyElements => TooManyElements)
       case StreamTooShort => StreamTooShort
       case TooManyElements => TooManyElements)
    case LinkedShape(elements) =>
      (match ReadAll(elements, Count(elements), s, bigFirst)
       case Got(items, end) => Got(Linked(items), end)
       case StreamTooShort => StreamTooShort
       case TooManyElements => TooManyElements)
  }

  function ReadBuffer(length: nat, withLength: bool, countSize: width, s: seq<byte>, bigFirst: bool): Read<Value> {
    if !withLength then
      if |s| < length then StreamTooShort else Got(Buffer(s[..length], false, countSize), s[length..])
    else
      match ReadNumber(countSize, s, bigFirst)
      case Got(n, rest) =>
        if n > length then TooManyElements
        else if |rest| < n then StreamTooShort
        else Got(Buffer(rest[..n], true, countSize), rest[n..])
      case StreamTooShort => StreamTooShort
      case TooManyElements => TooManyElements
  }

  /** The first n elements. */
  function ReadAll(shapes: Shapes, n: nat, s: seq<byte>, bigFirst: bool): Read<Values>
    requires n <= Count(shapes)
    decreases shapes, 1
  {
    if n == 0 then Got(Nil, s)
    else
      match ReadValue(shapes.head, s, bigFirst)
      case Got(v, rest) =>
        (match ReadAll(shapes.tail, n - 1, rest, bigFirst)
         case Got(vs, end) => Got(Cons(v, vs), end)
         case StreamTooShort => StreamTooShort
         case TooManyElements => TooManyElements)
      case StreamTooShort => StreamTooShort
      case TooManyElements => TooManyElements
  }

  // --- Round trips --------------------------------------------------------------------------------

  /** The value can be held by such an object, and its counts by their counters. */
  predicate Holds(shape: Shape, v: Value) {
    match shape
    case ScalarShape(size) => v.Scalar? && v.size == size && v.value < Power(size)
    case BufferShape(length, withLength, countSize) =>
      v.Buffer? && v.withLength == withLength && v.countSize == countSize
      && (if withLength then |v.data| <= length && |v.data| < Power(countSize) else |v.data| == length)
    case ListShape(entries, countSize) =>
      v.ArrayList? && v.countSize == countSize && Length(v.items) < Power(countSize) && HoldAll(entries, v.items)
    case LinkedShape(elements) =>
      v.Linked? && Length(v.elements) == Count(elements) && HoldAll(elements, v.elements)
  }

  predicate HoldAll(shapes: Shapes, vs: Values) {
    vs.Nil? || (shapes.MoreShapes? && Holds(shapes.head, vs.head) && HoldAll(shapes.tail, vs.tail))
  }

  lemma {:induction false} HoldAllCount(shapes: Shapes, vs: Values)
    requires HoldAll(shapes, vs)
    ensures Length(vs) <= Count(shapes)
  {
    if vs.Cons? { HoldAllCount(shapes.tail, vs.tail); }
  }

  lemma ReadsNumber(value: nat, n: width, rest: seq<byte>, bigFirst: bool)
    requires value < Power(n)
    ensures ReadNumber(n, Number(value, n, bigFirst) + rest, bigFirst) == Got(value, rest)
  {
    var s := Number(value, n, bigFirst) + rest;
    assert s[..n] == Number(value, n, bigFirst) && s[n..] == rest;
    NumberRoundTrip(value, n, bigFirst);
  }

  lemma NumberRead(n: width, s: seq<byte>, bigFirst: bool)
    requires ReadNumber(n, s, bigFirst).Got?
    ensures var r := ReadNumber(n, s, bigFirst);
            r.value < Power(n) && s == Number(r.value, n, bigFirst) + r.rest
  {
    var r := ReadNumber(n, s, bigFirst);
    var t := s[..n];
    assert r.value == NumberValue(t, bigFirst);
    BytesRoundTrip(t, n, r.value, bigFirst);
    Joined(t, r.rest, Number(r.value, n, bigFirst), s);
  }

  lemma Joined(t: seq<byte>, rest: seq<byte>, number: seq<byte>, s: seq<byte>)
    requires t == number && |t| <= |s| && t == s[..|t|] && rest == s[|t|..]
    ensures s == number + rest
  {
  }

  /** What is written and followed by anything is read back, and the rest is left. */
  lemma {:induction false} ReadsBack(shape: Shape, v: Value, suffix: seq<byte>, bigFirst: bool)
    requires Holds(shape, v)
    ensures ReadValue(shape, Bytes(v, bigFirst) + suffix, bigFirst) == Got(v, suffix)
    decreases v
  {
    match v
    case Scalar(size, value) =>
      ReadsNumber(value, size, suffix, bigFirst);
    case Buffer(data, withLength, countSize) =>
      BufferReadsBack(shape, v, suffix, bigFirst);
    case ArrayList(items, countSize) =>
      var rest := AllBytes(items, bigFirst) + suffix;
      assert Bytes(v, bigFirst) + suffix == Number(Length(items), countSize, bigFirst) + rest;
      ReadsNumber(Length(items), countSize, rest, bigFirst);
      HoldAllCount(shape.entries, items);
      AllReadBack(shape.entries, items, suffix, bigFirst);
    case Linked(elements) =>
      AllReadBack(shape.elements, elements, suffix, bigFirst);
  }

  lemma BufferReadsBack(shape: Shape, v: Value, suffix: seq<byte>, bigFirst: bool)
    requires v.Buffer? && Holds(shape, v)
    ensures ReadValue(shape, Bytes(v, bigFirst) + suffix, bigFirst) == Got(v, suffix)
  {
    var all := v.data + suffix;
    assert all[..|v.data|] == v.data && all[|v.data|..] == suffix;
    if v.withLength {
      assert Bytes(v, bigFirst) + suffix == Number(|v.data|, v.countSize, bigFirst) + all;
      ReadsNumber(|v.data|, v.countSize, all, bigFirst);
    } else {
      assert Bytes(v, bigFirst) + suffix == all;
    }
  }

  lemma {:induction false} AllReadBack(shapes: Shapes, vs: Values, suffix: seq<byte>, bigFirst: bool)
    requires HoldAll(shapes, vs)
    ensures Length(vs) <= Count(shapes)
    ensures ReadAll(shapes, Length(vs), AllBytes(vs, bigFirst) + suffix, bigFirst) == Got(vs, suffix)
    decreases vs
  {
    HoldAllCount(shapes, vs);
    if vs.Nil? {
      assert AllBytes(vs, bigFirst) + suffix == suffix;
    } else {
      var rest := AllBytes(vs.tail, bigFirst) + suffix;
      assert AllBytes(vs, bigFirst) + suffix == Bytes(vs.head, bigFirst) + rest;
      ReadsBack(shapes.head, vs.head, rest, bigFirst);
      AllReadBack(shapes.tail, vs.tail, suffix, bigFirst);
      ReadsOneMore(shapes, vs, AllBytes(vs, bigFirst) + suffix, rest, suffix, bigFirst);
    }
  }

  lemma ReadsOneMore(shapes: Shapes, vs: Values, s: seq<byte>, rest: seq<byte>, end: seq<byte>, bigFirst: bool)
    requires vs.Cons? && Length(vs) <= Count(shapes) && ReadValue(shapes.head, s, bigFirst) == Got(vs.head, rest)
    requires ReadAll(shapes.tail, Length(vs.tail), rest, bigFirst) == Got(vs.tail, end)
    ensures ReadAll(shapes, Length(vs), s, bigFirst) == Got(vs, end)
  {
  }

  /** Whatever is read is held by the object and is what would have been written. */
  lemma {:induction false} ReadIsWritten(shape: Shape, s: seq<byte>, bigFirst: bool)
    requires ReadValue(shape, s, bigFirst).Got?
    ensures var r := ReadValue(shape, s, bigFirst);
            Holds(shape, r.value) && s == Bytes(r.value, bigFirst) + r.rest
    decreases shape, 0
  {
    match shape
    case ScalarShape(size) =>
      NumberRead(size, s, bigFirst);
    case BufferShape(length, withLength, countSize) =>
      BufferIsWritten(shape, s, bigFirst);
    case ListShape(entries, countSize) =>
      NumberRead(countSize, s, bigFirst);
      var n := ReadNumber(countSize, s, bigFirst);
      AllReadIsWritten(entries, n.value, n.rest, bigFirst);
      ListBytes(entries, countSize, s, bigFirst);
    case LinkedShape(elements) =>
      AllReadIsWritten(elements, Count(elements), s, bigFirst);
  }

  lemma ListBytes(entries: Shapes, countSize: width, s: seq<byte>, bigFirst: bool)
    requires ReadNumber(countSize, s, bigFirst).Got?
    requires var n := ReadNumber(countSize, s, bigFirst);
             n.value < Power(countSize) && s == Number(n.value, countSize, bigFirst) + n.rest
                 && n.value <= Count(entries)
    requires var n := ReadNumber(countSize, s, bigFirst);
             var r := ReadAll(entries, n.value, n.rest, bigFirst);
             r.Got? && Length(r.value) == n.value && HoldAll(entries, r.value)
                 && n.rest == AllBytes(r.value, bigFirst) + r.rest
    ensures var r := ReadValue(ListShape(entries, countSize), s, bigFirst);
            r.Got? && Holds(ListShape(entries, countSize), r.value) && s == Bytes(r.value, bigFirst) + r.rest
  {
    var n := ReadNumber(countSize, s, bigFirst);
    var r := ReadAll(entries, n.value, n.rest, bigFirst);
    ReadsList(entries, countSize, s, bigFirst, n.value, n.rest, r.value, r.rest);
    WholeList(Number(n.value, countSize, bigFirst), AllBytes(r.value, bigFirst), r.rest, n.rest, s,
              Bytes(ArrayList(r.value, countSize), bigFirst));
  }

  lemma ReadsList(entries: Shapes, countSize: width, s: seq<byte>, bigFirst: bool, n: nat, rest: seq<byte>,
                  items: Values, end: seq<byte>)
    requires n <= Count(entries) && ReadNumber(countSize, s, bigFirst) == Got(n, rest)
    requires ReadAll(entries, n, rest, bigFirst) == Got(items, end)
    ensures ReadValue(ListShape(entries, countSize), s, bigFirst) == Got(ArrayList(items, countSize), end)
  {
  }

  lemma WholeList(count: seq<byte>, items: seq<byte>, end: seq<byte>, rest: seq<byte>, s: seq<byte>, all: seq<byte>)
    requires s == count + rest && rest == items + end && all == count + items
    ensures s == all + end
  {
  }

  lemma Regroup(a: seq<byte>, b: seq<byte>, c: seq<byte>)
    ensures a + (b + c) == (a + b) + c
  {
  }

  lemma BufferIsWritten(shape: Shape, s: seq<byte>, bigFirst: bool)
    requires shape.BufferShape? && ReadValue(shape, s, bigFirst).Got?
    ensures var r := ReadValue(shape, s, bigFirst);
            Holds(shape, r.value) && s == Bytes(r.value, bigFirst) + r.rest
  {
    if shape.withLength {
      NumberRead(shape.countSize, s, bigFirst);
      var n := ReadNumber(shape.countSize, s, bigFirst);
      assert n.rest == n.rest[..n.value] + n.rest[n.value..];
      Regroup(Number(n.value, shape.countSize, bigFirst), n.rest[..n.value], n.rest[n.value..]);
    } else {
      assert s == ([] + s[..shape.length]) + s[shape.length..];
    }
  }

  lemma {:induction false} AllReadIsWritten(shapes: Shapes, n: nat, s: seq<byte>, bigFirst: bool)
    requires n <= Count(shapes) && ReadAll(shapes, n, s, bigFirst).Got?
    ensures var r := ReadAll(shapes, n, s, bigFirst);
            Length(r.value) == n && HoldAll(shapes, r.value) && s == AllBytes(r.value, bigFirst) + r.rest
    decreases shapes, 1
  {
    if n != 0 {
      var head := ReadValue(shapes.head, s, bigFirst);
      ReadIsWritten(shapes.head, s, bigFirst);
      AllReadIsWritten(shapes.tail, n - 1, head.rest, bigFirst);
      var tail := ReadAll(shapes.tail, n - 1, head.rest, bigFirst);
      Regroup(Bytes(head.value, bigFirst), AllBytes(tail.value, bigFirst), tail.rest);
    }
  }

  /**
   Reading and writing are exact inverses: no other stream gives the value, and no other value comes of
   the stream.
   */
  lemma ReadIffWritten(shape: Shape, v: Value, s: seq<byte>, suffix: seq<byte>, bigFirst: bool)
    ensures ReadValue(shape, s, bigFirst) == Got(v, suffix) <==> Holds(shape, v) && s == Bytes(v, bigFirst) + suffix
  {
    if Holds(shape, v) && s == Bytes(v, bigFirst) + suffix { ReadsBack(shape, v, suffix, bigFirst); }
    if ReadValue(shape, s, bigFirst) == Got(v, suffix) { ReadIsWritten(shape, s, bigFirst); }
  }

  // --- Streams that are too short, and lists that are too long -------------------------------------------

  /** Whatever is missing at the end of a value, its stream is too short, and is not taken for anything else. */
  lemma {:induction false} TruncatedIsTooShort(shape: Shape, v: Value, k: nat, bigFirst: bool)
    requires Holds(shape, v) && k < |Bytes(v, bigFirst)|
    ensures ReadValue(shape, Bytes(v, bigFirst)[..k], bigFirst) == StreamTooShort
    decreases v
  {
    match v
    case Scalar(_, _) =>
    case Buffer(data, withLength, countSize) =>
      if withLength { CountIsRead(|data|, countSize, data, k, bigFirst); }
    case ArrayList(items, countSize) =>
      CountIsRead(Length(items), countSize, AllBytes(items, bigFirst), k, bigFirst);
      HoldAllCount(shape.entries, items);
      if k >= countSize { AllTooShort(shape.entries, items, k - countSize, bigFirst); }
    case Linked(elements) =>
      AllTooShort(shape.elements, elements, k, bigFirst);
  }

  lemma CutBehind(a: seq<byte>, b: seq<byte>, k: nat)
    requires |a| <= k <= |a| + |b|
    ensures (a + b)[..k] == a + b[..k - |a|]
  {
  }

  /** The counter in front of a truncated stream is truncated itself, or whole. */
  lemma CountIsRead(n: nat, countSize: width, rest: seq<byte>, k: nat, bigFirst: bool)
    requires n < Power(countSize) && k < countSize + |rest|
    ensures var s := (Number(n, countSize, bigFirst) + rest)[..k];
            ReadNumber(countSize, s, bigFirst)
              == if k < countSize then StreamTooShort else Got(n, rest[..k - countSize])
  {
    if k >= countSize {
      CutBehind(Number(n, countSize, bigFirst), rest, k);
      ReadsNumber(n, countSize, rest[..k - countSize], bigFirst);
    }
  }

  lemma {:induction false} AllTooShort(shapes: Shapes, vs: Values, k: nat, bigFirst: bool)
    requires HoldAll(shapes, vs) && k < |AllBytes(vs, bigFirst)|
    ensures Length(vs) <= Count(shapes)
    ensures ReadAll(shapes, Length(vs), AllBytes(vs, bigFirst)[..k], bigFirst) == StreamTooShort
    decreases vs
  {
    HoldAllCount(shapes, vs);
    var head, tail := Bytes(vs.head, bigFirst), AllBytes(vs.tail, bigFirst);
    if k < |head| {
      assert (head + tail)[..k] == head[..k];
      TruncatedIsTooShort(shapes.head, vs.head, k, bigFirst);
    } else {
      CutBehind(head, tail, k);
      ReadsBack(shapes.head, vs.head, tail[..k - |head|], bigFirst);
      AllTooShort(shapes.tail, vs.tail, k - |head|, bigFirst);
    }
  }

  /** A list with more items than there are entries is refused, whatever they are and whatever follows. */
  lemma LongerListRefused(entries: Shapes, items: Values, countSize: width, suffix: seq<byte>, bigFirst: bool)
    requires Count(entries) < Length(items) < Power(countSize)
    ensures ReadValue(ListShape(entries, countSize), Bytes(ArrayList(items, countSize), bigFirst) + suffix, bigFirst)
         == TooManyElements
  {
    var rest := AllBytes(items, bigFirst) + suffix;
    assert Bytes(ArrayList(items, countSize), bigFirst) + suffix == Number(Length(items), countSize, bigFirst) + rest;
    ReadsNumber(Length(items), countSize, rest, bigFirst);
  }

  /** The object a buffer was read into: it keeps the shorter length. */
  function BufferAfter(shape: Shape, v: Value): Shape
    requires shape.BufferShape? && Holds(shape, v)
  {
    BufferShape(|v.data|, shape.withLength, shape.countSize)
  }

  /** After a shorter buffer was read, a longer one is refused, though there is room for it. */
  lemma ShorterBufferShrinks(shape: Shape, short: Value, long: Value, bigFirst: bool)
    requires shape.BufferShape? && shape.withLength && Holds(shape, short) && Holds(shape, long)
    ensures (ReadValue(BufferAfter(shape, short), Bytes(long, bigFirst), bigFirst) == TooManyElements)
         <==> |short.data| < |long.data|
  {
    ReadsNumber(|long.data|, long.countSize, long.data, bigFirst);
  }

  /** A byte is read into a buffer of two, and then two bytes are refused. */
  lemma ShorterBufferExample(bigFirst: bool)
    ensures var shape, short, long := BufferShape(2, true, 1), Buffer([7], true, 1), Buffer([8, 9], true, 1);
            && ReadValue(shape, Bytes(short, bigFirst), bigFirst) == Got(short, [])
            && ReadValue(shape, Bytes(long, bigFirst), bigFirst) == Got(long, [])
            && ReadValue(BufferShape(1, true, 1), Bytes(long, bigFirst), bigFirst) == TooManyElements
  {
    var shape, short, long := BufferShape(2, true, 1), Buffer([7], true, 1), Buffer([8, 9], true, 1);
    assert Power(1) == 256 * Power(0);
    ReadsBack(shape, short, [], bigFirst);
    ReadsBack(shape, long, [], bigFirst);
    assert Bytes(short, bigFirst) + [] == Bytes(short, bigFirst) && Bytes(long, bigFirst) + [] == Bytes(long, bigFirst);
    ShorterBufferShrinks(shape, short, long, bigFirst);
  }
}
