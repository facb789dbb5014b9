/** A typed view on a matrix in memory, or on one in a stream. */
module ParameterWrapper {
  import opened Stretches
  import opened Checksum
  import opened EndianConverter
  import opened ParameterMatrix
  import opened Copying
  import opened SerializeAdapters

  class ParameterWrapper {
    var kind: Kind
    var rows: byte
    var columns: byte
    /** The matrix, if it may be written. */
    var data: array?<nat>
    /** The matrix, if it lies in memory. */
    var readonlyCells: array?<nat>
    var stream: seq<byte>
    var pointsToStream: bool

    /** A matrix in memory has its cells, each of the type's size; a stream has just its elements. */
    ghost predicate Valid()
      reads this, readonlyCells
    {
      && (data != null ==> data == readonlyCells)
      && (readonlyCells != null ==> readonlyCells.Length == Offset(rows, columns) && !pointsToStream)
      && (readonlyCells != null ==> forall i :: 0 <= i < readonlyCells.Length ==> readonlyCells[i] < Power(Size(kind)))
      && (pointsToStream ==> |stream| == Offset(Offset(rows, columns), Size(kind)))
    }

    predicate IsSet()
      reads this
    {
      readonlyCells != null || pointsToStream
    }

    constructor (kind: Kind, rows: byte, columns: byte, data: array<nat>)
      requires data.Length == Offset(rows, columns)
      requires forall i :: 0 <= i < data.Length ==> data[i] < Power(Size(kind))
      ensures Valid() && this.kind == kind && this.rows == rows && this.columns == columns
      ensures this.data == readonlyCells == data
    {
      this.kind, this.rows, this.columns, this.data, readonlyCells := kind, rows, columns, data, data;
      stream, pointsToStream := [], false;
    }

    constructor Constant(kind: Kind, rows: byte, columns: byte, cells: array<nat>)
      requires cells.Length == Offset(rows, columns)
      requires forall i :: 0 <= i < cells.Length ==> cells[i] < Power(Size(kind))
      ensures Valid() && this.kind == kind && this.rows == rows && this.columns == columns
      ensures data == null && readonlyCells == cells
    {
      this.kind, this.rows, this.columns, data, readonlyCells := kind, rows, columns, null, cells;
      stream, pointsToStream := [], false;
    }

    constructor Empty()
      ensures Valid() && data == null && !IsSet() && kind == Unknown
    {
      kind, rows, columns, data, readonlyCells := Unknown, 0, 0, null, null;
      stream, pointsToStream := [], false;
    }

    /** What a stream describes; the stream itself stays where it is. */
    method Set(s: seq<byte>) returns (ok: bool, remaining: seq<byte>)
      modifies this
      ensures ok == Describe(s).Described?
      ensures ok ==> Valid() && Describe(s) == Described(kind, rows, columns, stream, remaining)
      ensures ok ==> pointsToStream && data == readonlyCells == null
    {
      remaining := [];
      if |s| < 2 { return false, s; }
      kind := KindOf(s[0], s[1]);
      if |s| < 3 { return false, s; }
      columns := s[2];
      if |s| < 4 { return false, s; }
      rows := s[3];
      var dataSize := Size(kind) * rows * columns;
      if |s| - 4 < dataSize { return false, s; }
      ProductOfThree(Size(kind), rows, columns);
      data, readonlyCells := null, null;
      stream, pointsToStream := s[4..4 + dataSize], true;
      return true, s[4 + dataSize..];
    }

    /** One element, the most significant byte first whatever the machine. */
    method DeserializeElement(from: seq<byte>, at: nat, cell: nat, bigMachine: bool,
                              ghost was: seq<nat>, ghost p: Part, ghost row: nat, ghost column: nat)
      requires data != null && |was| == data.Length == Offset(rows, columns) && Fits(p, rows, columns)
      requires p.size == Size(kind) && p.stream == from && row < p.rows && column < p.columns
      requires at == Offset(Offset(row, p.columns) + column, p.size)
      requires cell == Offset(p.row + row, columns) + (p.column + column)
      requires LoadedUpTo(was, data[..], rows, columns, p, row, column)
      requires forall i :: 0 <= i < data.Length ==> data[i] < Power(p.size)
      modifies data
      ensures LoadedUpTo(was, data[..], rows, columns, p, row, column + 1)
      ensures forall i :: 0 <= i < data.Length ==> data[i] < Power(p.size)
    {
      ghost var now := data[..];
      ElementInside(from, p.size, p.rows, p.columns, row, column);
      OffsetGrows(p.row + row, rows, columns);
      var value := FromStream(from[at..at + Size(kind)], bigMachine, Big);
      data[cell] := value;
      LoadOne(was, now, data[..], rows, columns, p, row, column);
    }

    /** The elements of one row. */
    method DeserializeRow(from: seq<byte>, rowAt: nat, start: nat, fromRow: nat, fromColumns: nat, bigMachine: bool,
                          ghost was: seq<nat>, ghost p: Part)
      requires data != null && |was| == data.Length == Offset(rows, columns) && Fits(p, rows, columns)
      requires p.size == Size(kind) && p.stream == from && p.columns == fromColumns && fromRow < p.rows
      requires rowAt == Offset(Offset(fromRow, p.columns), p.size)
               && start == Offset(p.row + fromRow, columns) + p.column
      requires LoadedUpTo(was, data[..], rows, columns, p, fromRow, 0)
      requires forall i :: 0 <= i < data.Length ==> data[i] < Power(p.size)
      modifies data
      ensures LoadedUpTo(was, data[..], rows, columns, p, fromRow + 1, 0)
      ensures forall i :: 0 <= i < data.Length ==> data[i] < Power(p.size)
    {
      var at, size, fromColumn := rowAt, Size(kind), 0;
      while fromColumn < fromColumns
        invariant fromColumn <= fromColumns && at == Offset(Offset(fromRow, fromColumns) + fromColumn, size)
        invariant LoadedUpTo(was, data[..], rows, columns, p, fromRow, fromColumn)
        invariant forall i :: 0 <= i < data.Length ==> data[i] < Power(size)
      {
        DeserializeElement(from, at, start + fromColumn, bigMachine, was, p, fromRow, fromColumn);
        at := at + size;
        fromColumn := fromColumn + 1;
      }
      RowLoaded(was, data[..], rows, columns, p, fromRow);
    }

    /** Row by row, element by element, always the most significant byte first. */
    method DeserializeData(startingRow: byte, startingColumn: byte, from: seq<byte>, fromRows: byte,
                           fromColumns: byte, bigMachine: bool)
      requires Valid() && data != null
      requires Fits(Part(startingRow, startingColumn, fromRows, fromColumns, Size(kind), from), rows, columns)
      modifies data
      ensures Replaced(old(data[..]), data[..], rows, columns,
                       Part(startingRow, startingColumn, fromRows, fromColumns, Size(kind), from))
      ensures Valid()
    {
      ghost var was := data[..];
      ghost var p := Part(startingRow, startingColumn, fromRows, fromColumns, Size(kind), from);
      var at, size := 0, Size(kind);
      LoadNothing(was, rows, columns, p);
      var fromRow := 0;
      while fromRow < fromRows
        invariant fromRow <= fromRows && at == Offset(Offset(fromRow, fromColumns), size) && size == Size(kind)
        invariant LoadedUpTo(was, data[..], rows, columns, p, fromRow, 0)
        invariant forall i :: 0 <= i < data.Length ==> data[i] < Power(size)
      {
        var start := Product(startingRow + fromRow, columns);
        start := start + startingColumn;
        DeserializeRow(from, at, start, fromRow, fromColumns, bigMachine, was, p);
        var rowBytes := Product(fromColumns, size);
        OffsetSum(Offset(fromRow, fromColumns), fromColumns, size);
        at := at + rowBytes;
        fromRow := fromRow + 1;
      }
    }

    function RequestOf(from: ParameterWrapper, index: nat): Request
      reads this, from
    {
      Request(kind, rows, columns, from.kind, from.rows, from.columns, index)
    }

    /** The result of copyFrom for a matrix that can be written: a copy within memory reports failure in any case. */
    function Result(from: ParameterWrapper, index: nat): Outcome
      requires columns != 0
      reads this, from
    {
      var v := Verdict(RequestOf(from, index));
      if !from.IsSet() then SourceNotSet
      else if from.pointsToStream || v == DatatypeMismatch || v == TooBig then v
      else Failed
    }

    /** The rectangle that is written. */
    function Target(from: ParameterWrapper, index: nat): Part
      requires columns != 0
      reads this, from
    {
      Part(StartingRow(index, columns), index % columns, from.rows, from.columns, Size(kind), from.stream)
    }

    /** The cells that a copy within memory puts into every row: those of the source's first one. */
    ghost function FirstRow(from: ParameterWrapper): seq<nat>
      reads this, from, from.readonlyCells
    {
      if kind == Unknown || from.rows == 0 || from.readonlyCells == null then []
      else if from.readonlyCells.Length < from.columns then []
      else from.readonlyCells[..from.columns]
    }

    /** Copies the first row of a matrix in memory into every row of the rectangle. */
    method CopyRows(from: ParameterWrapper, startingRow: byte, startingColumn: byte)
      requires Valid() && from.Valid() && data != null && from.readonlyCells != null && from.readonlyCells != data
      requires kind == from.kind && startingRow + from.rows <= rows && startingColumn + from.columns <= columns
      modifies data
      ensures Valid()
      ensures Repeated(old(data[..]), data[..], rows, columns, startingRow, startingColumn, from.rows, FirstRow(from))
    {
      ghost var was := data[..];
      var fromRow := 0;
      if kind != Unknown && from.rows > 0 {
        FirstRowFits(from.rows, from.columns);
        var first := from.readonlyCells[..from.columns];
        while fromRow < from.rows
          invariant fromRow <= from.rows
          invariant Repeated(was, data[..], rows, columns, startingRow, startingColumn, fromRow, first)
          invariant forall i :: 0 <= i < data.Length ==> data[i] < Power(Size(kind))
        {
          ghost var now := data[..];
          OffsetGrows(startingRow + fromRow, rows, columns);
          var start := Product(startingRow + fromRow, columns);
          PutCells(data, start + startingColumn, first, Power(Size(kind)));
          RepeatOne(was, now, data[..], rows, columns, startingRow, startingColumn, fromRow, first);
          fromRow := fromRow + 1;
        }
      }
    }

    /** Loads another matrix at an index, which is taken apart in eight bits. */
    method CopyFrom(from: ParameterWrapper, startWritingAtIndex: nat, bigMachine: bool) returns (r: Outcome)
      requires Valid() && from.Valid() && startWritingAtIndex < 0x10000 && columns != 0
      requires data != null ==> from.readonlyCells != data
      modifies data
      ensures Valid()
      ensures r == ReadOnly <==> data == null
      ensures data != null ==> r == Result(from, startWritingAtIndex)
      ensures data != null && !from.IsSet() ==> r == SourceNotSet
      ensures data != null && from.IsSet() && kind != from.kind ==> r == DatatypeMismatch
      ensures r == Copied ==> Fits(Target(from, startWritingAtIndex), rows, columns)
                              && Replaced(old(data[..]), data[..], rows, columns, Target(from, startWritingAtIndex))
      ensures r == Failed ==>
        Repeated(old(data[..]), data[..], rows, columns,
                 StartingRow(startWritingAtIndex, columns), startWritingAtIndex % columns,
                 from.rows, old(FirstRow(from)))
      ensures r != Copied && r != Failed && data != null ==> data[..] == old(data[..])
    {
      if data == null { return ReadOnly; }
      if from.readonlyCells == null && !from.pointsToStream { return SourceNotSet; }
      if kind != from.kind { return DatatypeMismatch; }
      var startingRow: byte := startWritingAtIndex / columns % 256;
      var startingColumn: byte := startWritingAtIndex % columns;
      if from.rows > rows - startingRow || from.columns > columns - startingColumn { return TooBig; }
      if !from.pointsToStream {
        CopyRows(from, startingRow, startingColumn);
        return Failed;
      }
      if kind == Unknown { return UnknownDatatype; }
      DeserializeData(startingRow, startingColumn, from.stream, from.rows, from.columns, bigMachine);
      return Copied;
    }

    /** Takes the description off a stream and loads what it describes. The order asked for is not used. */
    method Deserialize(s: seq<byte>, order: Endianness, startWritingAtIndex: nat, bigMachine: bool)
      returns (r: Outcome, remaining: seq<byte>)
      requires Valid() && startWritingAtIndex < 0x10000 && columns != 0
      modifies data
      ensures Valid()
      ensures Describe(s).TooShort? ==> r == StreamTooShort && (data != null ==> data[..] == old(data[..]))
      ensures Describe(s).Described? ==>
        var d := Describe(s);
        && remaining == d.rest && (r == ReadOnly <==> data == null)
        && (data != null ==> r == Verdict(Request(kind, rows, columns, d.kind, d.rows, d.columns, startWritingAtIndex)))
        && (r == Copied ==>
              var p := Part(StartingRow(startWritingAtIndex, columns), startWritingAtIndex % columns, d.rows,
                            d.columns, Size(kind), d.data);
              Fits(p, rows, columns) && Replaced(old(data[..]), data[..], rows, columns, p))
        && (r != Copied && data != null ==> data[..] == old(data[..]))
    {
      var streamDescription := new ParameterWrapper.Empty();
      var ok;
      ok, remaining := streamDescription.Set(s);
      if !ok { return StreamTooShort, remaining; }
      r := CopyFrom(streamDescription, startWritingAtIndex, bigMachine);
    }

    /** What is dumped: the cells in memory, or the bytes of a stream taken for them. */
    ghost function Seen(bigMachine: bool): (r: seq<nat>)
      requires Valid() && IsSet()
      reads this, readonlyCells
      ensures |r| == Offset(rows, columns)
    {
      if pointsToStream then StreamCells(stream, Offset(rows, columns), Size(kind), bigMachine) else readonlyCells[..]
    }

    /** The dump: type, columns, rows, then every cell. */
    method Serialize(buffer: array<byte>, size: nat, maxSize: nat, bigMachine: bool, order: Endianness)
      returns (ok: bool, newSize: nat)
      requires Valid() && size <= maxSize <= buffer.Length
      modifies buffer
      ensures ok ==> IsSet() && kind != Unknown
      ensures IsSet() && kind != Unknown ==>
                (ok <==> size + |Dump(kind, rows, columns, Seen(bigMachine), BigFirst(bigMachine, order))| <= maxSize)
      ensures ok ==> newSize == size + |Dump(kind, rows, columns, Seen(bigMachine), BigFirst(bigMachine, order))|
      ensures ok ==> Placed(old(buffer[..]), buffer[..], size,
                            Dump(kind, rows, columns, Seen(bigMachine), BigFirst(bigMachine, order)))
    {
      ghost var was := buffer[..];
      newSize := size;
      if kind == Unknown { return false, size; }
      ok, newSize := SerializeHead(buffer, size, maxSize, bigMachine, order);
      if !ok { return false, newSize; }
      if readonlyCells == null && !pointsToStream { return false, newSize; }
      ok, newSize := SerializeCells(buffer, newSize, maxSize, bigMachine, order, was, size,
                                    Code(kind) + [columns, rows]);
    }

    /** The cells behind what has been written from a position on. */
    method SerializeCells(buffer: array<byte>, size: nat, maxSize: nat, bigMachine: bool, order: Endianness,
                          ghost was: seq<byte>, ghost from: nat, ghost head: seq<byte>) returns (ok: bool, newSize: nat)
      requires Valid() && IsSet() && size <= maxSize <= buffer.Length && kind != Unknown
      requires size == from + |head| && Placed(was, buffer[..], from, head)
      modifies buffer
      ensures ok <==> size + |DataBytes(Seen(bigMachine), Size(kind), BigFirst(bigMachine, order))| <= maxSize
      ensures ok ==> newSize == size + |DataBytes(Seen(bigMachine), Size(kind), BigFirst(bigMachine, order))|
      ensures ok ==>
        Placed(was, buffer[..], from, head + DataBytes(Seen(bigMachine), Size(kind), BigFirst(bigMachine, order)))
    {
      ghost var now := buffer[..];
      ok, newSize := SerializeData(buffer, size, maxSize, bigMachine, order);
      if ok {
        PlacedTwice(was, now, buffer[..], from, head,
                    DataBytes(Seen(bigMachine), Size(kind), BigFirst(bigMachine, order)));
      }
    }

    method SerializeByte(value: byte, buffer: array<byte>, size: nat, maxSize: nat, bigMachine: bool, order: Endianness,
                         ghost was: seq<byte>, ghost from: nat, ghost before: seq<byte>)
      returns (ok: bool, newSize: nat)
      requires size <= maxSize <= buffer.Length && size == from + |before| && Placed(was, buffer[..], from, before)
      modifies buffer
      ensures ok <==> size < maxSize
      ensures ok ==> newSize == size + 1 && Placed(was, buffer[..], from, before + [value])
    {
      ghost var now := buffer[..];
      ok, newSize := SerializeNumber(value, 1, bigMachine, order, buffer, size, maxSize);
      if ok {
        OneByte(value, BigFirst(bigMachine, order));
        PlacedTwice(was, now, buffer[..], from, before, [value]);
      }
    }

    method SerializeHead(buffer: array<byte>, size: nat, maxSize: nat, bigMachine: bool, order: Endianness)
      returns (ok: bool, newSize: nat)
      requires size <= maxSize <= buffer.Length && kind != Unknown
      modifies buffer
      ensures ok <==> size + 4 <= maxSize
      ensures ok ==> newSize == size + 4 && Placed(old(buffer[..]), buffer[..], size, Code(kind) + [columns, rows])
    {
      ghost var was := buffer[..];
      PlacedNothing(was, size);
      var ptc, pfc := Code(kind)[0], Code(kind)[1];
      ok, newSize := SerializeByte(ptc, buffer, size, maxSize, bigMachine, order, was, size, []);
      if !ok { return false, newSize; }
      ok, newSize := SerializeByte(pfc, buffer, newSize, maxSize, bigMachine, order, was, size, [] + [ptc]);
      if !ok { return false, newSize; }
      ok, newSize := SerializeByte(columns, buffer, newSize, maxSize, bigMachine, order, was, size, [] + [ptc] + [pfc]);
      if !ok { return false, newSize; }
      ok, newSize := SerializeByte(rows, buffer, newSize, maxSize, bigMachine, order, was, size,
                                   [] + [ptc] + [pfc] + [columns]);
      assert [] + [ptc] + [pfc] + [columns] + [rows] == Code(kind) + [columns, rows];
    }

    method CellAt(element: nat, bigMachine: bool) returns (value: nat)
      requires Valid() && IsSet() && element < Offset(rows, columns)
      ensures value == Seen(bigMachine)[element]
    {
      if pointsToStream {
        value := StreamCellAt(stream, Offset(rows, columns), Size(kind), element, bigMachine);
      } else {
        value := readonlyCells[element];
      }
    }

    /** One more cell behind those already written from a position on. */
    method SerializeCell(element: nat, buffer: array<byte>, size: nat, maxSize: nat, bigMachine: bool,
                         order: Endianness,
                         ghost was: seq<byte>, ghost from: nat, ghost pieces: seq<seq<byte>>)
      returns (ok: bool, newSize: nat)
      requires Valid() && IsSet() && element < Offset(rows, columns) && size <= maxSize <= buffer.Length
               && kind != Unknown
      requires pieces == Pieces(Seen(bigMachine), Size(kind), BigFirst(bigMachine, order))
      requires size == from + |Joined(pieces[..element])| && Placed(was, buffer[..], from, Joined(pieces[..element]))
      modifies buffer
      ensures ok ==> newSize <= maxSize && newSize == from + |Joined(pieces[..element + 1])|
                     && Placed(was, buffer[..], from, Joined(pieces[..element + 1]))
      ensures !ok ==> from + |Joined(pieces)| > maxSize
    {
      var value := CellAt(element, bigMachine);
      PieceOfCell(Seen(bigMachine), Size(kind), BigFirst(bigMachine, order), element);
      ok, newSize := SerializePiece(value, Size(kind), element, buffer, size, maxSize, bigMachine, order, was, from,
                                    pieces);
    }

    method SerializeData(buffer: array<byte>, size: nat, maxSize: nat, bigMachine: bool, order: Endianness)
      returns (ok: bool, newSize: nat)
      requires Valid() && IsSet() && size <= maxSize <= buffer.Length && kind != Unknown
      modifies buffer
      ensures ok <==> size + |DataBytes(Seen(bigMachine), Size(kind), BigFirst(bigMachine, order))| <= maxSize
      ensures ok ==> newSize == size + |DataBytes(Seen(bigMachine), Size(kind), BigFirst(bigMachine, order))|
      ensures ok ==> Placed(old(buffer[..]), buffer[..], size,
                            DataBytes(Seen(bigMachine), Size(kind), BigFirst(bigMachine, order)))
    {
      ghost var was := buffer[..];
      ghost var pieces := Pieces(Seen(bigMachine), Size(kind), BigFirst(bigMachine, order));
      PlacedNothing(was, size);
      var element: nat := 0;
      var dataSize := Product(rows, columns);
      ok, newSize := true, size;
      while dataSize != 0
        invariant element + dataSize == |pieces| && newSize <= maxSize && ok
        invariant newSize == size + |Joined(pieces[..element])|
        invariant Placed(was, buffer[..], size, Joined(pieces[..element]))
      {
        ok, newSize := SerializeCell(element, buffer, newSize, maxSize, bigMachine, order, was, size, pieces);
        if !ok { return false, newSize; }
        element := element + 1;
        dataSize := dataSize - 1;
      }
      assert pieces[..element] == pieces;
    }
  }

  method PutCells(data: array<nat>, at: nat, cells: seq<nat>, ghost limit: nat)
    requires at + |cells| <= data.Length
    requires forall i :: 0 <= i < |cells| ==> cells[i] < limit
    requires forall i :: 0 <= i < data.Length ==> data[i] < limit
    modifies data
    ensures data[..] == old(data[..at]) + cells + old(data[at + |cells|..])
    ensures forall i :: 0 <= i < data.Length ==> data[i] < limit
  {
    forall k | 0 <= k < |cells| { data[at + k] := cells[k]; }
  }

  method StreamCellAt(stream: seq<byte>, ghost n: nat, size: nat, element: nat, bigMachine: bool) returns (value: nat)
    requires |stream| == Offset(n, size) && element < n
    ensures value == StreamCells(stream, n, size, bigMachine)[element]
  {
    OffsetGrows(element, n, size);
    var at := Product(element, size);
    assert stream[at..at + size] == Piece(stream, n, size, element);
    value := FromMemory(bigMachine, stream[at..at + size]);
  }

  method SerializePiece(value: nat, n: width, element: nat, buffer: array<byte>, size: nat, maxSize: nat,
                        bigMachine: bool, order: Endianness,
                        ghost was: seq<byte>, ghost from: nat, ghost pieces: seq<seq<byte>>)
    returns (ok: bool, newSize: nat)
    requires element < |pieces| && pieces[element] == Number(value, n, BigFirst(bigMachine, order))
             && size <= maxSize <= buffer.Length
    requires size == from + |Joined(pieces[..element])| && Placed(was, buffer[..], from, Joined(pieces[..element]))
    modifies buffer
    ensures ok ==> newSize <= maxSize && newSize == from + |Joined(pieces[..element + 1])|
                   && Placed(was, buffer[..], from, Joined(pieces[..element + 1]))
    ensures !ok ==> from + |Joined(pieces)| > maxSize
  {
    ghost var now := buffer[..];
    JoinedNext(pieces, element);
    ok, newSize := SerializeNumber(value, n, bigMachine, order, buffer, size, maxSize);
    if ok { PlacedTwice(was, now, buffer[..], from, Joined(pieces[..element]), pieces[element]); }
  }

  lemma FirstRowFits(rows: nat, columns: nat)
    requires rows > 0
    ensures columns <= Offset(rows, columns)
  {
    OffsetGrows(1, rows, columns);
    assert Offset(1, columns) == Offset(0, columns) + columns;
  }

  /** A copy from a matrix in memory never succeeds. */
  lemma MemoryIsNeverCopied(target: ParameterWrapper, from: ParameterWrapper, index: nat)
    requires target.columns != 0 && !from.pointsToStream
    ensures target.Result(from, index) != Copied
  {
  }

  /** A column of the cells 1 and 2, copied into one of zeros: the result is failure, and the cells are 1 and 1. */
  method CopyTwoRows() returns (r: Outcome, cells: seq<nat>)
    ensures r == Failed && cells == [1, 1]
  {
    var data, other := new nat[2][0, 0], new nat[2][1, 2];
    assert Offset(2, 1) == Offset(1, 1) + 1 && Offset(1, 1) == Offset(0, 1) + 1 && Offset(0, 1) == 0;
    assert Power(1) == 256 * Power(0);
    var target := new ParameterWrapper(Uint8, 2, 1, data);
    var source := new ParameterWrapper.Constant(Uint8, 2, 1, other);
    assert other[..1] == [1];
    r := target.CopyFrom(source, 0, true);
    cells := data[..];
    assert Cell(cells, 2, 1, 0, 0) == 1 && Cell(cells, 2, 1, 1, 0) == 1;
  }

  method Product(n: nat, width: nat) returns (r: nat)
    ensures r == Offset(n, width)
  {
    OffsetIsProduct(n, width);
    r := n * width;
  }

  lemma JoinedNext(pieces: seq<seq<byte>>, k: nat)
    requires k < |pieces|
    ensures Joined(pieces[..k + 1]) == Joined(pieces[..k]) + pieces[k]
    ensures |Joined(pieces[..k + 1])| <= |Joined(pieces)|
  {
    assert pieces[..k + 1][..k] == pieces[..k];
    JoinedPrefix(pieces, k + 1);
  }

  lemma OneByte(value: byte, bigFirst: bool)
    ensures Number(value, 1, bigFirst) == [value]
  {
    assert Digits(value, 1) == Digits(value / 256, 0) + [value % 256];
  }

  lemma {:induction false} OffsetSum(n: nat, m: nat, width: nat)
    ensures Offset(n + m, width) == Offset(n, width) + Offset(m, width)
  {
    if m != 0 { OffsetSum(n, m - 1, width); }
  }

  lemma {:induction false} JoinedPrefix(pieces: seq<seq<byte>>, k: nat)
    requires k <= |pieces|
    ensures |Joined(pieces[..k])| <= |Joined(pieces)|
    decreases |pieces| - k
  {
    if k < |pieces| {
      assert pieces[..k + 1][..k] == pieces[..k];
      JoinedPrefix(pieces, k + 1);
    } else {
      assert pieces[..k] == pieces;
    }
  }
}
