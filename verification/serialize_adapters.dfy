/** The adapters that write values into a buffer and read them out of one, element by element. */
module SerializeAdapters {
  import opened Checksum
  import opened EndianConverter
  import opened Serialization
  import opened Copying

  /** Nothing in front of the position or behind the limit was touched. */
  ghost predicate KeptOutside(was: seq<byte>, now: seq<byte>, at: nat, limit: nat) {
    && |was| == |now| && at <= limit <= |was| && now[..at] == was[..at] && now[limit..] == was[limit..]
  }

  lemma PlacedNothing(s: seq<byte>, at: nat)
    requires at <= |s|
    ensures Placed(s, s, at, [])
  {
  }

  lemma PlacedTwice(was: seq<byte>, now: seq<byte>, end: seq<byte>, at: nat, first: seq<byte>, second: seq<byte>)
    requires Placed(was, now, at, first) && Placed(now, end, at + |first|, second)
    ensures Placed(was, end, at, first + second)
  {
    assert end[..at] == end[..at + |first|][..at];
    assert now[..at] == now[..at + |first|][..at];
    assert end[at..at + |first|] == end[..at + |first|][at..];
    assert now[at..at + |first|] == now[..at + |first|][at..];
    assert end[at..at + |first| + |second|] == end[at..at + |first|] + end[at + |first|..at + |first| + |second|];
    assert now[at + |first| + |second|..] == now[at + |first|..][|second|..];
    assert was[at + |first| + |second|..] == was[at + |first|..][|second|..];
  }

  lemma PlacedWithin(was: seq<byte>, now: seq<byte>, at: nat, bytes: seq<byte>, limit: nat)
    requires Placed(was, now, at, bytes) && at + |bytes| <= limit <= |was|
    ensures KeptOutside(was, now, at, limit)
  {
    assert now[limit..] == now[at + |bytes|..][limit - at - |bytes|..];
    assert was[limit..] == was[at + |bytes|..][limit - at - |bytes|..];
  }

  lemma KeptFurther(was: seq<byte>, now: seq<byte>, end: seq<byte>, at: nat, further: nat, limit: nat)
    requires KeptOutside(was, now, at, limit) && KeptOutside(now, end, further, limit) && at <= further
    ensures KeptOutside(was, end, at, limit)
  {
    assert end[..at] == end[..further][..at];
    assert now[..at] == now[..further][..at];
  }

  // --- Numbers ------------------------------------------------------------------------------------

  method SerializeNumber(value: nat, n: width, bigMachine: bool, order: Endianness,
                         buffer: array<byte>, size: nat, maxSize: nat) returns (ok: bool, newSize: nat)
    requires size <= maxSize <= buffer.Length
    modifies buffer
    ensures ok <==> size + n <= maxSize
    ensures ok ==> newSize == size + n && Placed(old(buffer[..]), buffer[..], size,
                                                 Number(value, n, BigFirst(bigMachine, order)))
    ensures !ok ==> newSize == size && buffer[..] == old(buffer[..])
  {
    newSize := n + size;
    if newSize <= maxSize && newSize > size {
      var cell := Memory(bigMachine, value, n);
      StreamOfMemory(bigMachine, order, value, n, []);
      var tmp;
      if order == Big {
        tmp := ConvertBigEndian(bigMachine, cell);
      } else if order == Little {
        tmp := ConvertLittleEndian(bigMachine, cell);
      } else {
        tmp := cell;
      }
      CopiedIsPlaced(buffer[..], buffer[..size] + tmp + buffer[size + n..], size, tmp);
      Memcpy(buffer, size, tmp);
      return true, newSize;
    }
    return false, size;
  }

  method DeserializeNumber(n: width, bigMachine: bool, order: Endianness, stream: array<byte>, at: nat, size: nat)
    returns (r: Read<nat>)
    requires at + size <= stream.Length
    ensures r == ReadNumber(n, stream[at..at + size], BigFirst(bigMachine, order))
  {
    if size < n { return StreamTooShort; }
    var tmp := stream[at..at + n];
    var value := FromStream(tmp, bigMachine, order);
    ghost var s := stream[at..at + size];
    assert s[..n] == tmp;
    assert s[n..] == stream[at + n..at + size];
    return Got(value, stream[at + n..at + size]);
  }

  /** The conversion part of deSerialize. */
  method FromStream(tmp: seq<byte>, bigMachine: bool, order: Endianness) returns (value: nat)
    ensures value == NumberValue(tmp, BigFirst(bigMachine, order))
  {
    StreamOfMemory(bigMachine, order, 0, 1, tmp);
    var cell;
    if order == Big {
      cell := ConvertBigEndian(bigMachine, tmp);
    } else if order == Little {
      cell := ConvertLittleEndian(bigMachine, tmp);
    } else {
      cell := tmp;
    }
    value := FromMemory(bigMachine, cell);
  }

  // --- Writing ------------------------------------------------------------------------------------

  /** Succeeds exactly when the bytes fit behind those already there, and then writes exactly those. */
  method SerializeValue(v: Value, bigMachine: bool, order: Endianness, buffer: array<byte>, size: nat, maxSize: nat)
    returns (ok: bool, newSize: nat)
    requires size <= maxSize <= buffer.Length
    modifies buffer
    ensures ok <==> size + |Bytes(v, BigFirst(bigMachine, order))| <= maxSize
    ensures ok ==> newSize == size + |Bytes(v, BigFirst(bigMachine, order))|
                   && Placed(old(buffer[..]), buffer[..], size, Bytes(v, BigFirst(bigMachine, order)))
    ensures KeptOutside(old(buffer[..]), buffer[..], size, maxSize)
    decreases v
  {
    match v {
      case Scalar(n, value) =>
        ghost var was := buffer[..];
        ok, newSize := SerializeNumber(value, n, bigMachine, order, buffer, size, maxSize);
        if ok { PlacedWithin(was, buffer[..], size, Number(value, n, BigFirst(bigMachine, order)), maxSize); }
      case Buffer(data, withLength, countSize) =>
        ok, newSize := SerializeBuffer(v, bigMachine, order, buffer, size, maxSize);
      case ArrayList(items, countSize) =>
        ok, newSize := SerializeList(v, bigMachine, order, buffer, size, maxSize);
      case Linked(elements) =>
        ok, newSize := SerializeElements(elements, bigMachine, order, buffer, size, maxSize);
    }
  }

  method SerializeBuffer(v: Value, bigMachine: bool, order: Endianness, buffer: array<byte>, size: nat, maxSize: nat)
    returns (ok: bool, newSize: nat)
    requires size <= maxSize <= buffer.Length && v.Buffer?
    modifies buffer
    ensures ok <==> size + |Bytes(v, BigFirst(bigMachine, order))| <= maxSize
    ensures ok ==> newSize == size + |Bytes(v, BigFirst(bigMachine, order))|
                   && Placed(old(buffer[..]), buffer[..], size, Bytes(v, BigFirst(bigMachine, order)))
    ensures KeptOutside(old(buffer[..]), buffer[..], size, maxSize)
  {
    newSize := size;
    ghost var was, first := buffer[..], [];
    PlacedNothing(was, size);
    if v.withLength {
      first := Number(|v.data|, v.countSize, BigFirst(bigMachine, order));
      ok, newSize := SerializeNumber(|v.data|, v.countSize, bigMachine, order, buffer, newSize, maxSize);
      if !ok { return false, newSize; }
    }
    ghost var now := buffer[..];
    PlacedWithin(was, now, size, first, maxSize);
    if newSize + |v.data| > maxSize { return false, newSize; }
    CopiedIsPlaced(now, now[..newSize] + v.data + now[newSize + |v.data|..], newSize, v.data);
    Memcpy(buffer, newSize, v.data);
    PlacedTwice(was, now, buffer[..], size, first, v.data);
    PlacedWithin(was, buffer[..], size, first + v.data, maxSize);
    return true, newSize + |v.data|;
  }

  method SerializeList(v: Value, bigMachine: bool, order: Endianness, buffer: array<byte>, size: nat, maxSize: nat)
    returns (ok: bool, newSize: nat)
    requires size <= maxSize <= buffer.Length && v.ArrayList?
    modifies buffer
    ensures ok <==> size + |Bytes(v, BigFirst(bigMachine, order))| <= maxSize
    ensures ok ==> newSize == size + |Bytes(v, BigFirst(bigMachine, order))|
                   && Placed(old(buffer[..]), buffer[..], size, Bytes(v, BigFirst(bigMachine, order)))
    ensures KeptOutside(old(buffer[..]), buffer[..], size, maxSize)
    decreases v, 0
  {
    ghost var was, first := buffer[..], Number(Length(v.items), v.countSize, BigFirst(bigMachine, order));
    ok, newSize := SerializeNumber(Length(v.items), v.countSize, bigMachine, order, buffer, size, maxSize);
    if !ok { return false, newSize; }
    ghost var now, at := buffer[..], newSize;
    PlacedWithin(was, now, size, first, maxSize);
    ok, newSize := SerializeElements(v.items, bigMachine, order, buffer, newSize, maxSize);
    KeptFurther(was, now, buffer[..], size, at, maxSize);
    if ok { PlacedTwice(was, now, buffer[..], size, first, AllBytes(v.items, BigFirst(bigMachine, order))); }
  }

  /** The loop over the entries of a list or along the links of a chain. */
  method SerializeElements(vs: Values, bigMachine: bool, order: Endianness, buffer: array<byte>, size: nat,
                           maxSize: nat)
    returns (ok: bool, newSize: nat)
    requires size <= maxSize <= buffer.Length
    modifies buffer
    ensures ok <==> size + |AllBytes(vs, BigFirst(bigMachine, order))| <= maxSize
    ensures ok ==> newSize == size + |AllBytes(vs, BigFirst(bigMachine, order))|
                   && Placed(old(buffer[..]), buffer[..], size, AllBytes(vs, BigFirst(bigMachine, order)))
    ensures KeptOutside(old(buffer[..]), buffer[..], size, maxSize)
    decreases vs
  {
    ghost var bigFirst := BigFirst(bigMachine, order);
    ghost var was, all := buffer[..], AllBytes(vs, bigFirst);
    ghost var done: seq<byte> := [];
    PlacedNothing(was, size);
    var element := vs;
    ok, newSize := true, size;
    while ok && element.Cons?
      invariant element == vs || element < vs
      invariant size <= newSize <= maxSize
      invariant KeptOutside(was, buffer[..], size, maxSize)
      invariant ok ==> newSize == size + |done| && Placed(was, buffer[..], size, done)
      invariant ok ==> done + AllBytes(element, bigFirst) == all
      invariant !ok ==> size + |all| > maxSize
      decreases element, ok
    {
      ghost var now, bytes, rest := buffer[..], Bytes(element.head, bigFirst), AllBytes(element.tail, bigFirst);
      Regroup(done, bytes, rest);
      var next;
      ok, next := SerializeValue(element.head, bigMachine, order, buffer, newSize, maxSize);
      KeptFurther(was, now, buffer[..], size, newSize, maxSize);
      if ok {
        PlacedTwice(was, now, buffer[..], size, done, bytes);
        newSize := next;
        done := done + bytes;
      }
      element := element.tail;
    }
    assert ok ==> done + [] == all;
  }

  // --- Sizes --------------------------------------------------------------------------------------

  /** The size announced is the number of bytes written, in any order. */
  method GetSerializedSize(v: Value) returns (size: nat)
    ensures size == |Bytes(v, true)| == |Bytes(v, false)|
    decreases v
  {
    SizeOfOrder(v);
    match v {
      case Scalar(n, _) => size := n;
      case Buffer(data, withLength, countSize) => size := if withLength then |data| + countSize else |data|;
      case ArrayList(items, countSize) =>
        size := GetElementsSize(items);
        size := countSize + size;
      case Linked(elements) => size := GetElementsSize(elements);
    }
  }

  method GetElementsSize(vs: Values) returns (size: nat)
    ensures size == |AllBytes(vs, true)|
    decreases vs
  {
    size := 0;
    var element := vs;
    while element.Cons?
      invariant element == vs || element < vs
      invariant size + |AllBytes(element, true)| == |AllBytes(vs, true)|
      decreases element
    {
      var more := GetSerializedSize(element.head);
      size := size + more;
      element := element.tail;
    }
  }

  // --- Reading ------------------------------------------------------------------------------------

  /** Reading from the middle of a stream; the rest tells how far it went. */
  method DeserializeValue(shape: Shape, bigMachine: bool, order: Endianness, stream: array<byte>, at: nat, size: nat)
    returns (r: Read<Value>, next: nat)
    requires at + size <= stream.Length
    ensures r == ReadValue(shape, stream[at..at + size], BigFirst(bigMachine, order))
    ensures r.Got? ==> at <= next <= at + size && r.rest == stream[next..at + size]
    decreases shape
  {
    next := at;
    match shape {
      case ScalarShape(n) =>
        var number := DeserializeNumber(n, bigMachine, order, stream, at, size);
        if number.Got? { return Got(Scalar(n, number.value), number.rest), at + n; }
        r := StreamTooShort;
      case BufferShape(length, withLength, countSize) =>
        var newLength;
        r, next, newLength := DeserializeBuffer(length, withLength, countSize, bigMachine, order, stream, at, size);
      case ListShape(entries, countSize) =>
        var count := DeserializeNumber(countSize, bigMachine, order, stream, at, size);
        if !count.Got? { return StreamTooShort, at; }
        if count.value > Count(entries) { return TooManyElements, at; }
        var items;
        items, next := DeserializeElements(entries, count.value, bigMachine, order, stream, at + countSize,
                                           size - countSize);
        if items.Got? { return Got(ArrayList(items.value, countSize), items.rest), next; }
        r := if items.StreamTooShort? then StreamTooShort else TooManyElements;
      case LinkedShape(elements) =>
        var items;
        items, next := DeserializeElements(elements, Count(elements), bigMachine, order, stream, at, size);
        if items.Got? { return Got(Linked(items.value), items.rest), next; }
        r := if items.StreamTooShort? then StreamTooShort else TooManyElements;
    }
  }

  lemma SliceTwice(s: seq<byte>, from: nat, n: nat, to: nat)
    requires from + n <= to <= |s|
    ensures s[from..to][..n] == s[from..from + n] && s[from..to][n..] == s[from + n..to]
  {
  }

  /** The adapter takes over a length that it can hold, even if its bytes are then missing. */
  function LengthAfter(length: nat, withLength: bool, countSize: width, s: seq<byte>, bigFirst: bool): (r: nat)
    ensures r <= length
  {
    var n := ReadNumber(countSize, s, bigFirst);
    if withLength && n.Got? && n.value <= length then n.value else length
  }

  /** After a successful read the adapter's length is that of the bytes read. */
  lemma LengthIsRead(length: nat, withLength: bool, countSize: width, s: seq<byte>, bigFirst: bool)
    requires ReadBuffer(length, withLength, countSize, s, bigFirst).Got?
    ensures LengthAfter(length, withLength, countSize, s, bigFirst)
            == |ReadBuffer(length, withLength, countSize, s, bigFirst).value.data|
  {
  }

  method DeserializeBuffer(length: nat, withLength: bool, countSize: width, bigMachine: bool, order: Endianness,
                           stream: array<byte>, at: nat, size: nat)
    returns (r: Read<Value>, next: nat, bufferLength: nat)
    requires at + size <= stream.Length
    ensures r == ReadBuffer(length, withLength, countSize, stream[at..at + size], BigFirst(bigMachine, order))
    ensures r.Got? ==> at <= next <= at + size && r.rest == stream[next..at + size]
    ensures bufferLength == LengthAfter(length, withLength, countSize, stream[at..at + size],
                                        BigFirst(bigMachine, order))
  {
    var left := size;
    bufferLength := length;
    next := at;
    if withLength {
      var lengthField := DeserializeNumber(countSize, bigMachine, order, stream, at, size);
      if !lengthField.Got? { return StreamTooShort, next, length; }
      if lengthField.value > length { return TooManyElements, next, length; }
      bufferLength := lengthField.value;
      next, left := at + countSize, size - countSize;
      assert lengthField.rest == stream[next..at + size];
    }
    assert stream[..][next..at + size] == stream[next..at + size];
    if bufferLength > left { return StreamTooShort, next, bufferLength; }
    SliceTwice(stream[..], next, bufferLength, at + size);
    assert stream[..][next..next + bufferLength] == stream[next..next + bufferLength];
    assert stream[..][next + bufferLength..at + size] == stream[next + bufferLength..at + size];
    r := Got(Buffer(stream[next..next + bufferLength], withLength, countSize), stream[next + bufferLength..at + size]);
    next := next + bufferLength;
  }

  /** Values read one after the other, then a list of further ones. */
  function Prepend(done: seq<Value>, vs: Values): Values {
    if done == [] then vs else Cons(done[0], Prepend(done[1..], vs))
  }

  lemma {:induction false} PrependNext(done: seq<Value>, v: Value, vs: Values)
    ensures Prepend(done + [v], vs) == Prepend(done, Cons(v, vs))
  {
    if done != [] {
      assert (done + [v])[1..] == done[1..] + [v];
      PrependNext(done[1..], v, vs);
    }
  }

  function After(done: seq<Value>, r: Read<Values>): Read<Values> {
    if r.Got? then Got(Prepend(done, r.value), r.rest) else r
  }

  lemma ReadNext(shapes: Shapes, n: nat, s: seq<byte>, bigFirst: bool, done: seq<Value>)
    requires 0 < n <= Count(shapes)
    ensures var head := ReadValue(shapes.head, s, bigFirst);
            After(done, ReadAll(shapes, n, s, bigFirst))
            == if head.Got? then After(done + [head.value], ReadAll(shapes.tail, n - 1, head.rest, bigFirst))
               else if head.StreamTooShort? then StreamTooShort else TooManyElements
  {
    var head := ReadValue(shapes.head, s, bigFirst);
    if head.Got? {
      var tail := ReadAll(shapes.tail, n - 1, head.rest, bigFirst);
      if tail.Got? { PrependNext(done, head.value, tail.value); }
    }
  }

  /** The loop over the entries of a list or along the links of a chain. */
  method DeserializeElements(shapes: Shapes, n: nat, bigMachine: bool, order: Endianness, stream: array<byte>,
                             at: nat, size: nat)
    returns (r: Read<Values>, next: nat)
    requires at + size <= stream.Length && n <= Count(shapes)
    ensures r == ReadAll(shapes, n, stream[at..at + size], BigFirst(bigMachine, order))
    ensures r.Got? ==> at <= next <= at + size && r.rest == stream[next..at + size]
    decreases shapes
  {
    ghost var bigFirst := BigFirst(bigMachine, order);
    ghost var whole := ReadAll(shapes, n, stream[at..at + size], bigFirst);
    var done: seq<Value>, element, i := [], shapes, 0;
    next := at;
    assert whole == After([], whole);
    while i < n
      invariant i <= n && n - i <= Count(element) && at <= next <= at + size
      invariant element == shapes || element < shapes
      invariant whole == After(done, ReadAll(element, n - i, stream[next..at + size], bigFirst))
    {
      ReadNext(element, n - i, stream[next..at + size], bigFirst, done);
      var v, end := DeserializeValue(element.head, bigMachine, order, stream, next, at + size - next);
      if !v.Got? { return (if v.StreamTooShort? then StreamTooShort else TooManyElements), next; }
      done := done + [v.value];
      next := end;
      element := element.tail;
      i := i + 1;
    }
    r := Got(Prepend(done, Nil), stream[next..at + size]);
  }

  /** A value written on one machine is read back on another, whatever follows it, if the stream's order is given. */
  lemma AcrossMachines(shape: Shape, v: Value, writerBig: bool, readerBig: bool, order: Endianness, suffix: seq<byte>)
    requires Holds(shape, v) && (order != Machine || writerBig == readerBig)
    ensures ReadValue(shape, Bytes(v, BigFirst(writerBig, order)) + suffix, BigFirst(readerBig, order))
            == Got(v, suffix)
  {
    ReadsBack(shape, v, suffix, BigFirst(writerBig, order));
  }
}
