/** Matrices of parameters: their dumps, and loading a smaller matrix into a larger one. */
module ParameterMatrix {
  import opened Stretches
  import opened Checksum
  import opened EndianConverter

  datatype Kind = Uint8 | Int8 | Uint16 | Int16 | Uint32 | Int32 | Float | Double | Unknown

  function Size(k: Kind): nat {
    match k
    case Uint8 => 1 case Int8 => 1 case Uint16 => 2 case Int16 => 2
    case Uint32 => 4 case Int32 => 4 case Float => 4 case Double => 8 case Unknown => 0
  }

  /** The two bytes that name a type in a stream. */
  function Code(k: Kind): seq<byte> {
    match k
    case Uint8 => [3, 4] case Int8 => [4, 4] case Uint16 => [3, 12] case Int16 => [4, 12]
    case Uint32 => [3, 14] case Int32 => [4, 14] case Float => [5, 1] case Double => [5, 2] case Unknown => []
  }

  function KindOf(ptc: byte, pfc: byte): Kind {
    if ptc == 3 then (if pfc == 4 then Uint8 else if pfc == 12 then Uint16 else if pfc == 14 then Uint32 else Unknown)
    else if ptc == 4 then (if pfc == 4 then Int8 else if pfc == 12 then Int16 else if pfc == 14 then Int32 else Unknown)
    else if ptc == 5 then (if pfc == 1 then Float else if pfc == 2 then Double else Unknown)
    else Unknown
  }

  lemma CodeNames(k: Kind)
    ensures k != Unknown ==> |Code(k)| == 2 && KindOf(Code(k)[0], Code(k)[1]) == k
  {
  }

  /** The first byte is 3 for unsigned, 4 for signed and 5 for real numbers, the second tells their size. */
  lemma CodeTells(k: Kind)
    requires k != Unknown
    ensures var ptc, pfc := Code(k)[0], Code(k)[1];
            && (ptc == 3 <==> k.Uint8? || k.Uint16? || k.Uint32?) && (ptc == 4 <==> k.Int8? || k.Int16? || k.Int32?)
            && (ptc == 5 <==> k.Float? || k.Double?)
            && (if ptc == 5 then pfc == Size(k) / 4
                else Size(k) == if pfc == 4 then 1 else if pfc == 12 then 2 else 4)
  {
  }

  // --- Places in a matrix -----------------------------------------------------------------------------

  /** Row-major. */
  function Cell(cells: seq<nat>, rows: nat, columns: nat, r: nat, c: nat): nat
    requires |cells| == Offset(rows, columns) && r < rows && c < columns
  {
    OffsetGrows(r, rows, columns);
    cells[Offset(r, columns) + c]
  }

  lemma CellsDiffer(columns: nat, r: nat, c: nat, q: nat, d: nat)
    requires c < columns && d < columns && (r != q || c != d)
    ensures Offset(r, columns) + c != Offset(q, columns) + d
  {
    if r < q { OffsetGrows(r, q, columns); }
    if q < r { OffsetGrows(q, r, columns); }
  }

  /** Element k of a stream of numbers, the most significant byte first. */
  function Element(stream: seq<byte>, size: nat, k: nat): nat
    requires Offset(k, size) + size <= |stream|
  {
    ValueOf(stream[Offset(k, size)..Offset(k, size) + size])
  }

  lemma ElementInside(stream: seq<byte>, size: nat, rows: nat, columns: nat, r: nat, c: nat)
    requires r < rows && c < columns && |stream| == Offset(Offset(rows, columns), size)
    ensures Offset(Offset(r, columns) + c, size) + size <= |stream|
  {
    OffsetGrows(r, rows, columns);
    OffsetGrows(Offset(r, columns) + c, Offset(rows, columns), size);
  }

  // --- Loading ------------------------------------------------------------------------------------

  /** A rectangle of the target, and the stream with its elements. */
  datatype Part = Part(row: nat, column: nat, rows: nat, columns: nat, size: nat, stream: seq<byte>)

  ghost predicate Fits(p: Part, rows: nat, columns: nat) {
    && p.row + p.rows <= rows && p.column + p.columns <= columns
    && |p.stream| == Offset(Offset(p.rows, p.columns), p.size)
  }

  /** Elements in front of the given one, row by row. */
  predicate Before(p: Part, r: nat, c: nat, row: nat, column: nat) {
    p.row <= r && p.column <= c < p.column + p.columns
    && (r - p.row < row || (r - p.row == row && c - p.column < column))
  }

  /** What a cell holds after the elements in front of (row, column) were loaded. */
  function Loaded(was: seq<nat>, rows: nat, columns: nat, p: Part, row: nat, column: nat, r: nat, c: nat): nat
    requires |was| == Offset(rows, columns) && Fits(p, rows, columns) && r < rows && c < columns
    requires row < p.rows || (row == p.rows && column == 0)
  {
    if Before(p, r, c, row, column) then
      ElementInside(p.stream, p.size, p.rows, p.columns, r - p.row, c - p.column);
      Element(p.stream, p.size, Offset(r - p.row, p.columns) + (c - p.column))
    else Cell(was, rows, columns, r, c)
  }

  ghost predicate LoadedUpTo(was: seq<nat>, now: seq<nat>, rows: nat, columns: nat, p: Part, row: nat, column: nat)
    requires |was| == Offset(rows, columns) && Fits(p, rows, columns)
    requires row < p.rows || (row == p.rows && column == 0)
  {
    |now| == |was|
    && forall r: nat, c: nat :: r < rows && c < columns ==>
         Cell(now, rows, columns, r, c) == Loaded(was, rows, columns, p, row, column, r, c)
  }

  /** Exactly the rectangle holds the stream's elements, in row-major order; every other cell is as it was. */
  ghost predicate Replaced(was: seq<nat>, now: seq<nat>, rows: nat, columns: nat, p: Part)
    requires |was| == Offset(rows, columns) && Fits(p, rows, columns)
  {
    LoadedUpTo(was, now, rows, columns, p, p.rows, 0)
  }

  lemma LoadNothing(was: seq<nat>, rows: nat, columns: nat, p: Part)
    requires |was| == Offset(rows, columns) && Fits(p, rows, columns)
    ensures LoadedUpTo(was, was, rows, columns, p, 0, 0)
  {
  }

  /** A row is complete. */
  lemma RowLoaded(was: seq<nat>, now: seq<nat>, rows: nat, columns: nat, p: Part, row: nat)
    requires |was| == Offset(rows, columns) && Fits(p, rows, columns) && row < p.rows
    requires LoadedUpTo(was, now, rows, columns, p, row, p.columns)
    ensures LoadedUpTo(was, now, rows, columns, p, row + 1, 0)
  {
    forall r: nat, c: nat | r < rows && c < columns
      ensures Cell(now, rows, columns, r, c) == Loaded(was, rows, columns, p, row + 1, 0, r, c)
    {
      assert Before(p, r, c, row, p.columns) == Before(p, r, c, row + 1, 0);
      assert Cell(now, rows, columns, r, c) == Loaded(was, rows, columns, p, row, p.columns, r, c);
      assert Loaded(was, rows, columns, p, row, p.columns, r, c) == Loaded(was, rows, columns, p, row + 1, 0, r, c);
    }
  }

  /** One more element. */
  lemma LoadOne(was: seq<nat>, now: seq<nat>, next: seq<nat>, rows: nat, columns: nat, p: Part, row: nat, column: nat)
    requires |was| == Offset(rows, columns) && Fits(p, rows, columns) && row < p.rows && column < p.columns
    requires LoadedUpTo(was, now, rows, columns, p, row, column)
    requires Offset(p.row + row, columns) + (p.column + column) < |now|
    requires Offset(Offset(row, p.columns) + column, p.size) + p.size <= |p.stream|
    requires var at, k := Offset(p.row + row, columns) + (p.column + column), Offset(row, p.columns) + column;
             next == now[at := Element(p.stream, p.size, k)]
    ensures LoadedUpTo(was, next, rows, columns, p, row, column + 1)
  {
    forall r: nat, c: nat | r < rows && c < columns
      ensures Cell(next, rows, columns, r, c) == Loaded(was, rows, columns, p, row, column + 1, r, c)
    {
      assert Cell(now, rows, columns, r, c) == Loaded(was, rows, columns, p, row, column, r, c);
      if r == p.row + row && c == p.column + column {
        assert Before(p, r, c, row, column + 1);
        assert r - p.row == row && c - p.column == column;
        assert Cell(next, rows, columns, r, c) == Element(p.stream, p.size, Offset(row, p.columns) + column);
        assert Loaded(was, rows, columns, p, row, column + 1, r, c)
               == Element(p.stream, p.size, Offset(row, p.columns) + column);
      } else {
        CellsDiffer(columns, r, c, p.row + row, p.column + column);
        assert Before(p, r, c, row, column + 1) == Before(p, r, c, row, column);
        OffsetGrows(r, rows, columns);
        assert next[Offset(r, columns) + c] == now[Offset(r, columns) + c];
        assert Loaded(was, rows, columns, p, row, column + 1, r, c) == Loaded(was, rows, columns, p, row, column, r, c);
      }
    }
  }

  // --- Copies within memory ---------------------------------------------------------------------------

  /** The first n rows of a rectangle all hold the given cells; every other cell is as it was. */
  ghost predicate Repeated(was: seq<nat>, now: seq<nat>, rows: nat, columns: nat, row: nat, column: nat, n: nat,
                           first: seq<nat>)
    requires |was| == Offset(rows, columns)
  {
    |now| == |was|
    && forall r: nat, c: nat :: r < rows && c < columns ==>
         Cell(now, rows, columns, r, c)
         == if row <= r < row + n && column <= c < column + |first| then first[c - column]
            else Cell(was, rows, columns, r, c)
  }

  lemma RepeatOne(was: seq<nat>, now: seq<nat>, next: seq<nat>, rows: nat, columns: nat, row: nat, column: nat,
                  n: nat, first: seq<nat>)
    requires |was| == Offset(rows, columns) && Repeated(was, now, rows, columns, row, column, n, first)
    requires row + n < rows && column + |first| <= columns && Offset(row + n, columns) + columns <= |now|
    requires var at := Offset(row + n, columns) + column;
             next == now[..at] + first + now[at + |first|..]
    ensures Repeated(was, next, rows, columns, row, column, n + 1, first)
  {
    var at := Offset(row + n, columns) + column;
    forall r: nat, c: nat | r < rows && c < columns
      ensures Cell(next, rows, columns, r, c)
           == if row <= r < row + n + 1 && column <= c < column + |first| then first[c - column]
              else Cell(was, rows, columns, r, c)
    {
      OffsetGrows(r, rows, columns);
      var i := Offset(r, columns) + c;
      assert Cell(now, rows, columns, r, c)
          == if row <= r < row + n && column <= c < column + |first| then first[c - column]
             else Cell(was, rows, columns, r, c);
      if r == row + n {
        assert next[i] == if column <= c < column + |first| then first[c - column] else now[i];
      } else {
        if r < row + n { OffsetGrows(r, row + n, columns); } else { OffsetGrows(row + n, r, columns); }
        assert next[i] == now[i];
      }
    }
  }

  /** All rows of a matrix are the same. */
  ghost predicate SameRows(source: seq<nat>, m: nat, n: nat)
    requires |source| == Offset(m, n) && 0 < m
  {
    forall r: nat, c: nat :: r < m && c < n ==> Cell(source, m, n, r, c) == Cell(source, m, n, 0, c)
  }

  /** A rectangle of the target holds a matrix. */
  ghost predicate HoldsAt(now: seq<nat>, rows: nat, columns: nat, row: nat, column: nat, source: seq<nat>, m: nat,
                          n: nat)
    requires |now| == Offset(rows, columns) && |source| == Offset(m, n) && row + m <= rows && column + n <= columns
  {
    forall r: nat, c: nat :: r < m && c < n ==>
      Cell(now, rows, columns, row + r, column + c) == Cell(source, m, n, r, c)
  }

  /** After a copy within memory the target holds the source's matrix if and only if all its rows are the same. */
  lemma RepeatedIff(was: seq<nat>, now: seq<nat>, rows: nat, columns: nat, row: nat, column: nat,
                    source: seq<nat>, m: nat, n: nat)
    requires |was| == Offset(rows, columns) && |source| == Offset(m, n) && 0 < m && n <= |source|
    requires row + m <= rows && column + n <= columns
    requires Repeated(was, now, rows, columns, row, column, m, source[..n])
    ensures HoldsAt(now, rows, columns, row, column, source, m, n) <==> SameRows(source, m, n)
  {
    if HoldsAt(now, rows, columns, row, column, source, m, n) {
      forall r: nat, c: nat | r < m && c < n ensures Cell(source, m, n, r, c) == Cell(source, m, n, 0, c) {
        assert Cell(now, rows, columns, row + r, column + c) == Cell(source, m, n, r, c);
        assert Cell(source, m, n, 0, c) == source[..n][c];
      }
    }
    if SameRows(source, m, n) {
      forall r: nat, c: nat | r < m && c < n
        ensures Cell(now, rows, columns, row + r, column + c) == Cell(source, m, n, r, c)
      {
        assert Cell(now, rows, columns, row + r, column + c) == source[..n][c];
        assert Cell(source, m, n, 0, c) == source[..n][c];
      }
    }
  }

  // --- Streams in place of memory -----------------------------------------------------------------------

  /** The bytes of element k. */
  function Piece(stream: seq<byte>, n: nat, size: nat, k: nat): (r: seq<byte>)
    requires |stream| == Offset(n, size) && k < n
    ensures |r| == size
  {
    OffsetGrows(k, n, size);
    stream[Offset(k, size)..Offset(k, size) + size]
  }

  /** The elements of a stream, taken for numbers in the machine's memory. */
  function StreamCells(stream: seq<byte>, n: nat, size: nat, bigMachine: bool): (r: seq<nat>)
    requires |stream| == Offset(n, size)
    ensures |r| == n
  {
    seq(n, k requires 0 <= k < n => FromMemory(bigMachine, Piece(stream, n, size, k)))
  }

  /** Dumped again, each of them comes out as it was, or turned around where order and machine differ. */
  lemma StreamPieces(stream: seq<byte>, n: nat, size: nat, bigMachine: bool, order: Endianness, k: nat)
    requires |stream| == Offset(n, size) && k < n
    ensures Pieces(StreamCells(stream, n, size, bigMachine), size, BigFirst(bigMachine, order))[k]
         == Converted(bigMachine, order, Piece(stream, n, size, k))
  {
    var cells := StreamCells(stream, n, size, bigMachine);
    PieceOfCell(cells, size, BigFirst(bigMachine, order), k);
    MemoryRoundTrip(bigMachine, order, Piece(stream, n, size, k), size, cells[k]);
  }

  lemma PieceOfCell(cells: seq<nat>, size: nat, bigFirst: bool, k: nat)
    requires k < |cells|
    ensures Pieces(cells, size, bigFirst)[k] == Number(cells[k], size, bigFirst)
  {
  }

  // --- Dumps --------------------------------------------------------------------------------------

  function Joined(pieces: seq<seq<byte>>): seq<byte>
    decreases |pieces|
  {
    if pieces == [] then [] else Joined(pieces[..|pieces| - 1]) + pieces[|pieces| - 1]
  }

  ghost predicate AllOf(pieces: seq<seq<byte>>, size: nat) { forall i :: 0 <= i < |pieces| ==> |pieces[i]| == size }

  lemma {:induction false} JoinedLength(pieces: seq<seq<byte>>, size: nat)
    requires AllOf(pieces, size)
    ensures |Joined(pieces)| == Offset(|pieces|, size)
    decreases |pieces|
  {
    if pieces != [] { JoinedLength(pieces[..|pieces| - 1], size); }
  }

  lemma {:induction false} PieceOfJoined(pieces: seq<seq<byte>>, size: nat, k: nat)
    requires AllOf(pieces, size) && k < |pieces|
    ensures Offset(k, size) + size <= |Joined(pieces)|
    ensures Joined(pieces)[Offset(k, size)..Offset(k, size) + size] == pieces[k]
    decreases |pieces|
  {
    var m := |pieces| - 1;
    JoinedLength(pieces[..m], size);
    if k < m {
      PieceOfJoined(pieces[..m], size, k);
      assert Joined(pieces)[Offset(k, size)..Offset(k, size) + size]
          == Joined(pieces[..m])[Offset(k, size)..Offset(k, size) + size];
    }
  }

  /** The elements one after the other, each in the stream's order. */
  function Pieces(cells: seq<nat>, size: nat, bigFirst: bool): (r: seq<seq<byte>>)
    ensures |r| == |cells| && AllOf(r, size)
  {
    seq(|cells|, i requires 0 <= i < |cells| => Number(cells[i], size, bigFirst))
  }

  function DataBytes(cells: seq<nat>, size: nat, bigFirst: bool): seq<byte> {
    Joined(Pieces(cells, size, bigFirst))
  }

  lemma DataLength(cells: seq<nat>, size: nat, bigFirst: bool)
    ensures |DataBytes(cells, size, bigFirst)| == Offset(|cells|, size)
  {
    JoinedLength(Pieces(cells, size, bigFirst), size);
  }

  lemma DataPiece(cells: seq<nat>, size: nat, bigFirst: bool, k: nat)
    requires k < |cells|
    ensures Offset(k, size) + size <= |DataBytes(cells, size, bigFirst)|
    ensures DataBytes(cells, size, bigFirst)[Offset(k, size)..Offset(k, size) + size]
            == Number(cells[k], size, bigFirst)
  {
    PieceOfJoined(Pieces(cells, size, bigFirst), size, k);
  }

  /** Every element of a dump reads back, when the most significant byte comes first. */
  lemma ElementOfDump(cells: seq<nat>, size: nat, k: nat)
    requires k < |cells| && cells[k] < Power(size)
    ensures Offset(k, size) + size <= |DataBytes(cells, size, true)|
    ensures Element(DataBytes(cells, size, true), size, k) == cells[k]
  {
    DataPiece(cells, size, true, k);
    ElementIs(DataBytes(cells, size, true), size, k, Digits(cells[k], size));
    ValueOfDigits(cells[k], size);
  }

  lemma ElementIs(stream: seq<byte>, size: nat, k: nat, digits: seq<byte>)
    requires Offset(k, size) + size <= |stream| && stream[Offset(k, size)..Offset(k, size) + size] == digits
    ensures Element(stream, size, k) == ValueOf(digits)
  {
  }

  /**
   Loading always expects the most significant byte first: a dump in the other order reads back only
   where the bytes are the same both ways.
   */
  lemma LittleEndianDumpIff(cells: seq<nat>, size: nat, k: nat)
    requires k < |cells| && cells[k] < Power(size)
    ensures Offset(k, size) + size <= |DataBytes(cells, size, false)|
    ensures Element(DataBytes(cells, size, false), size, k) == cells[k]
       <==> Digits(cells[k], size) == Reverse(Digits(cells[k], size))
  {
    DataPiece(cells, size, false, k);
    SameBothWays(cells[k], size, DataBytes(cells, size, false)[Offset(k, size)..Offset(k, size) + size]);
  }

  /** The number 1 in two bytes, dumped with the least significant byte first, is loaded as 256. */
  lemma LittleEndianExample()
    ensures |DataBytes([1], 2, false)| == 2 && Element(DataBytes([1], 2, false), 2, 0) == 256
  {
    DataPiece([1], 2, false, 0);
    DataLength([1], 2, false);
    assert Digits(1, 2) == Digits(0, 1) + [1] && Digits(0, 1) == Digits(0, 0) + [0];
    var turned := Reverse(Digits(1, 2));
    assert turned == [1, 0] && turned[..1] == [1] && [1][..0] == [];
    assert ValueOf([1]) == 1 && ValueOf(turned) == 256;
    assert Offset(0, 2) == 0 && Offset(1, 2) == 2;
  }

  lemma SameBothWays(value: nat, size: nat, bytes: seq<byte>)
    requires value < Power(size) && bytes == Reverse(Digits(value, size))
    ensures ValueOf(bytes) == value <==> Digits(value, size) == Reverse(Digits(value, size))
  {
    ValueOfDigits(value, size);
    DigitsOfValue(bytes);
    if ValueOf(bytes) == value { assert Digits(value, |bytes|) == bytes; }
  }

  function Dump(kind: Kind, rows: byte, columns: byte, cells: seq<nat>, bigFirst: bool): seq<byte> {
    Code(kind) + [columns, rows] + DataBytes(cells, Size(kind), bigFirst)
  }

  /** What a stream describes: type, size, its elements' bytes and what comes after them. */
  datatype Description = TooShort | Described(kind: Kind, rows: byte, columns: byte, data: seq<byte>, rest: seq<byte>)

  function Describe(s: seq<byte>): Description {
    if |s| < 4 then TooShort
    else
      var kind := KindOf(s[0], s[1]);
      var n := Size(kind) * s[3] * s[2];
      if |s| - 4 < n then TooShort else Described(kind, s[3], s[2], s[4..4 + n], s[4 + n..])
  }

  /** A dump describes itself, and what follows it is left. */
  lemma DumpDescribed(kind: Kind, rows: byte, columns: byte, cells: seq<nat>, bigFirst: bool, suffix: seq<byte>)
    requires kind != Unknown && |cells| == Offset(rows, columns)
    ensures Describe(Dump(kind, rows, columns, cells, bigFirst) + suffix)
         == Described(kind, rows, columns, DataBytes(cells, Size(kind), bigFirst), suffix)
  {
    var data := DataBytes(cells, Size(kind), bigFirst);
    var s := Dump(kind, rows, columns, cells, bigFirst) + suffix;
    CodeNames(kind);
    DataLength(cells, Size(kind), bigFirst);
    ProductOfThree(Size(kind), rows, columns);
    assert s == Code(kind) + [columns, rows] + (data + suffix);
    assert s[4..] == data + suffix;
    assert s[4..4 + |data|] == s[4..][..|data|] == data;
    assert s[4 + |data|..] == s[4..][|data|..] == suffix;
  }

  lemma ProductOfThree(size: nat, rows: nat, columns: nat)
    ensures size * rows * columns == Offset(Offset(rows, columns), size)
  {
    OffsetIsProduct(rows, columns);
    OffsetIsProduct(rows * columns, size);
    assert size * rows * columns == size * (rows * columns);
  }

  // --- Copying ------------------------------------------------------------------------------------

  datatype Outcome = Copied | ReadOnly | SourceNotSet | DatatypeMismatch | TooBig | UnknownDatatype | Failed
                   | StreamTooShort

  /** What is copied: type and size of the source, of a matrix of a type and size, at an index. */
  datatype Request = Request(kind: Kind, rows: byte, columns: byte, fromKind: Kind, fromRows: byte,
                             fromColumns: byte, index: nat)

  /** The checks of copyFrom for a stream, in their order. */
  function Verdict(q: Request): Outcome
    requires 0 < q.columns
  {
    if q.kind != q.fromKind then DatatypeMismatch
    else if StartingRow(q.index, q.columns) + q.fromRows > q.rows
        || q.index % q.columns + q.fromColumns > q.columns then TooBig
    else if q.kind == Unknown then UnknownDatatype
    else Copied
  }

  /** A copy is accepted exactly for equal, known types where it fits; what is wrong first is told. */
  lemma VerdictTells(q: Request)
    requires 0 < q.columns
    ensures var fits := StartingRow(q.index, q.columns) + q.fromRows <= q.rows
                        && q.index % q.columns + q.fromColumns <= q.columns;
            && (Verdict(q) == Copied <==> q.kind == q.fromKind != Unknown && fits)
            && (Verdict(q) == DatatypeMismatch <==> q.kind != q.fromKind)
            && (Verdict(q) == TooBig <==> q.kind == q.fromKind && !fits)
  {
  }

  /** Where an index leads: the row is kept in eight bits. */
  function StartingRow(index: nat, columns: nat): nat
    requires 0 < columns
  {
    index / columns % 256
  }

  /** The place written to is the place asked for if and only if the row number fits into eight bits. */
  lemma PlaceIff(index: nat, columns: nat)
    requires 0 < columns
    ensures Offset(StartingRow(index, columns), columns) + index % columns == index <==> index / columns < 256
  {
    var row := index / columns;
    OffsetIsProduct(row, columns);
    assert index == row * columns + index % columns;
    if row >= 256 { OffsetGrows(row % 256, row, columns); }
  }

  /**
   A copy that does not fit where it was asked to go succeeds if and only if the row number loses its
   upper bits and it fits where they lead.
   */
  lemma FarCopyIff(q: Request)
    requires 0 < q.columns && q.kind == q.fromKind != Unknown
    ensures Verdict(q) == Copied && q.index / q.columns + q.fromRows > q.rows
       <==> q.index / q.columns >= 256 && StartingRow(q.index, q.columns) + q.fromRows <= q.rows
            && q.index % q.columns + q.fromColumns <= q.columns
  {
  }

  /** One byte for index 256 of a matrix of one byte is accepted and goes to its only cell. */
  lemma FarIndexWritesFirstCell()
    ensures Verdict(Request(Uint8, 1, 1, Uint8, 1, 1, 256)) == Copied && StartingRow(256, 1) == 0
  {
  }

  /** Dump, describe, load at index 0: accepted, and the result is the same matrix, whatever the target held. */
  lemma DumpAndLoad(kind: Kind, rows: byte, columns: byte, cells: seq<nat>, was: seq<nat>, now: seq<nat>)
    requires kind != Unknown && |cells| == |was| == Offset(rows, columns) && 0 < columns
    requires forall i :: 0 <= i < |cells| ==> cells[i] < Power(Size(kind))
    ensures Verdict(Request(kind, rows, columns, kind, rows, columns, 0)) == Copied
    ensures var d := Describe(Dump(kind, rows, columns, cells, true));
            d.Described? && d.kind == kind && d.rows == rows && d.columns == columns && d.rest == []
            && var p := Part(0, 0, d.rows, d.columns, Size(kind), d.data);
            Fits(p, rows, columns) && (Replaced(was, now, rows, columns, p) <==> now == cells)
  {
    DumpDescribed(kind, rows, columns, cells, true, []);
    var s := Dump(kind, rows, columns, cells, true);
    assert s + [] == s;
    DataLength(cells, Size(kind), true);
    var p := Part(0, 0, rows, columns, Size(kind), DataBytes(cells, Size(kind), true));
    DumpLoads(cells, was, rows, columns, p);
    if Replaced(was, now, rows, columns, p) { SameCells(cells, was, now, rows, columns, p); }
  }

  lemma DumpLoads(cells: seq<nat>, was: seq<nat>, rows: nat, columns: nat, p: Part)
    requires |cells| == |was| == Offset(rows, columns) && Fits(p, rows, columns)
    requires p == Part(0, 0, rows, columns, p.size, DataBytes(cells, p.size, true))
    requires forall i :: 0 <= i < |cells| ==> cells[i] < Power(p.size)
    ensures Replaced(was, cells, rows, columns, p)
  {
    forall r: nat, c: nat | r < rows && c < columns
      ensures Cell(cells, rows, columns, r, c) == Loaded(was, rows, columns, p, p.rows, 0, r, c)
    {
      OffsetGrows(r, rows, columns);
      ElementOfDump(cells, p.size, Offset(r, columns) + c);
    }
  }

  lemma SameCells(cells: seq<nat>, was: seq<nat>, now: seq<nat>, rows: nat, columns: nat, p: Part)
    requires |cells| == |was| == Offset(rows, columns) && Fits(p, rows, columns)
    requires Replaced(was, now, rows, columns, p) && Replaced(was, cells, rows, columns, p)
    ensures now == cells
  {
    forall i | 0 <= i < |cells| ensures now[i] == cells[i] {
      var r := RowOf(i, rows, columns);
      assert Cell(now, rows, columns, r, i - Offset(r, columns))
             == Cell(cells, rows, columns, r, i - Offset(r, columns));
    }
  }

  lemma {:induction false} RowOf(i: nat, rows: nat, columns: nat) returns (r: nat)
    requires i < Offset(rows, columns)
    ensures r < rows && Offset(r, columns) <= i < Offset(r, columns) + columns
    decreases rows
  {
    if Offset(rows - 1, columns) <= i { r := rows - 1; } else { r := RowOf(i, rows - 1, columns); }
  }
}
