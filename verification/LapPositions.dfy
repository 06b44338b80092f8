/**
 The lap-positions packet of lib/f1_types/packet_15_lap_positions_data.py, the transpose of
 lib/f1_types/common.py that its consumers apply, and the fixed-stride array parser of
 lib/f1_types/base_pkt.py.
 */
module LapPositions {
  import opened Common

  const MAX_LAPS := 50

  datatype Error = StructError | CountError | ParsingError | ValueError

  type Row = seq<int>

  predicate InByte(v: int) { 0 <= v < 256 }

  predicate AllBytes(s: seq<int>) {
    forall i :: 0 <= i < |s| ==> InByte(s[i])
  }

  function Clamp(i: int, n: nat): (r: nat)
    ensures r <= n
  {
    if i < 0 then 0 else if i > n then n else i
  }

  /** Python's s[a:b] for nonnegative a <= b. */
  function Slice<T>(s: seq<T>, a: nat, b: nat): seq<T>
    requires a <= b
  {
    s[Clamp(a, |s|)..Clamp(b, |s|)]
  }

  /** Item i of a packed array that starts at offset, as far as the data goes. */
  function Item<T>(data: seq<T>, offset: nat, itemLen: nat, i: nat): seq<T> {
    Slice(data, offset + i * itemLen, offset + i * itemLen + itemLen)
  }

  function Zeros(n: int): seq<int> {
    seq(if n < 0 then 0 else n, i => 0)
  }

  // ---------------------------------------------------------------------
  // The packet
  // ---------------------------------------------------------------------

  datatype Packet = Packet(numLaps: int, lapStart: int, rows: seq<Row>)

  /** A row padded with zeros, or cut, to one entry per car. */
  function PadRow(row: Row, cars: nat): (r: Row)
    ensures |r| == cars
    ensures forall c :: 0 <= c < cars ==> r[c] == if c < |row| then row[c] else 0
  {
    (row + Zeros(cars - |row|))[..cars]
  }

  function FlatRows(rows: seq<Row>, cars: nat): seq<int> {
    if rows == [] then [] else FlatRows(rows[..|rows| - 1], cars) + PadRow(rows[|rows| - 1], cars)
  }

  /** The body bytes; struct.pack rejects values outside a byte and a wrong number of them. */
  function Serialise(p: Packet, cars: nat): Result<seq<int>, Error> {
    Pack(p.numLaps, p.lapStart, FlatRows(p.rows, cars) + Zeros(cars * (MAX_LAPS - p.numLaps)), cars * MAX_LAPS)
  }

  function Pack(numLaps: int, lapStart: int, flat: seq<int>, slots: nat): Result<seq<int>, Error> {
    if !InByte(numLaps) || !InByte(lapStart) || |flat| != slots || !AllBytes(flat) then Err(StructError)
    else Ok([numLaps, lapStart] + flat)
  }

  function RowsOf(flat: seq<int>, cars: nat, n: nat): (rows: seq<Row>)
    ensures |rows| == n
    ensures forall i :: 0 <= i < n ==> rows[i] == Item(flat, 0, cars, i)
  {
    seq(n, i requires 0 <= i < n => Item(flat, 0, cars, i))
  }

  /** The packet constructor on the bytes after the header. */
  function ParsePacket(data: seq<int>, cars: nat): Result<Packet, Error>
    requires AllBytes(data)
  {
    if |data| < 2 || |data| - 2 != cars * MAX_LAPS then Err(StructError)
    else Ok(Packet(data[0], data[1], RowsOf(data[2..], cars, data[0])))
  }

  /** from_values and to_bytes build the flat list in a loop over the rows. */
  method Flatten(rows: seq<Row>, numLaps: int, cars: nat) returns (flat: seq<int>)
    ensures flat == FlatRows(rows, cars) + Zeros(cars * (MAX_LAPS - numLaps))
  {
    flat := [];
    for i := 0 to |rows|
      invariant flat == FlatRows(rows[..i], cars)
    {
      var padded := rows[i] + Zeros(cars - |rows[i]|);
      assert rows[..i + 1][..i] == rows[..i];
      flat := flat + padded[..cars];
    }
    assert rows[..|rows|] == rows;
    flat := flat + Zeros(cars * (MAX_LAPS - numLaps));
  }

  lemma {:induction false} FlatLength(rows: seq<Row>, cars: nat)
    ensures |FlatRows(rows, cars)| == |rows| * cars
  {
    if rows == [] {
    } else {
      FlatLength(rows[..|rows| - 1], cars);
      assert |rows| * cars == (|rows| - 1) * cars + cars;
    }
  }

  lemma MulLe(a: nat, b: nat, c: nat)
    requires a <= b
    ensures a * c <= b * c
  {}

  /** Row i of the flattened rows is row i padded. */
  lemma {:induction false} FlatRowAt(rows: seq<Row>, cars: nat, i: nat)
    requires i < |rows|
    ensures i * cars + cars <= |FlatRows(rows, cars)|
    ensures FlatRows(rows, cars)[i * cars..i * cars + cars] == PadRow(rows[i], cars)
  {
    var init := rows[..|rows| - 1];
    var flat := FlatRows(init, cars);
    FlatLength(init, cars);
    if i == |rows| - 1 {
      assert (flat + PadRow(rows[i], cars))[|flat|..] == PadRow(rows[i], cars);
    } else {
      FlatRowAt(init, cars, i);
      assert FlatRows(rows, cars)[i * cars..i * cars + cars] == flat[i * cars..i * cars + cars];
    }
  }

  function PadRows(rows: seq<Row>, cars: nat): (ps: seq<Row>)
    ensures |ps| == |rows|
    ensures forall i :: 0 <= i < |rows| ==> ps[i] == PadRow(rows[i], cars)
  {
    seq(|rows|, i requires 0 <= i < |rows| => PadRow(rows[i], cars))
  }

  lemma FullWidthRowsUnpadded(rows: seq<Row>, cars: nat)
    requires forall i :: 0 <= i < |rows| ==> |rows[i]| == cars
    ensures PadRows(rows, cars) == rows
  {}

  lemma RowsOfFlat(rows: seq<Row>, cars: nat, tail: seq<int>)
    ensures RowsOf(FlatRows(rows, cars) + tail, cars, |rows|) == PadRows(rows, cars)
  {
    hide Item, FlatRows, PadRow;
    forall i | 0 <= i < |rows|
      ensures Item(FlatRows(rows, cars) + tail, 0, cars, i) == PadRow(rows[i], cars)
    {
      RowOfFlat(rows, cars, tail, i);
    }
  }

  lemma RowOfFlat(rows: seq<Row>, cars: nat, tail: seq<int>, i: nat)
    requires i < |rows|
    ensures Item(FlatRows(rows, cars) + tail, 0, cars, i) == PadRow(rows[i], cars)
  {
    hide Item, FlatRows, PadRow;
    var flat := FlatRows(rows, cars) + tail;
    FlatRowAt(rows, cars, i);
    ItemWithin(flat, cars, i);
    assert flat[i * cars..i * cars + cars] == FlatRows(rows, cars)[i * cars..i * cars + cars];
  }

  /**
   Round trip: with numLaps equal to the number of rows, at most 50, whatever serialises parses
   back to the same packet with its rows padded, so to the same matrix when the rows are full.
   */
  lemma SerialiseParse(p: Packet, cars: nat)
    requires p.numLaps == |p.rows| <= MAX_LAPS
    requires Serialise(p, cars).Ok?
    ensures AllBytes(Serialise(p, cars).value)
    ensures ParsePacket(Serialise(p, cars).value, cars) == Ok(p.(rows := PadRows(p.rows, cars)))
    ensures (forall i :: 0 <= i < |p.rows| ==> |p.rows[i]| == cars) ==>
              ParsePacket(Serialise(p, cars).value, cars) == Ok(p)
  {
    var tail := Zeros(cars * (MAX_LAPS - p.numLaps));
    var data := Serialise(p, cars).value;
    assert data[2..] == FlatRows(p.rows, cars) + tail;
    RowsOfFlat(p.rows, cars, tail);
    if forall i :: 0 <= i < |p.rows| ==> |p.rows[i]| == cars {
      FullWidthRowsUnpadded(p.rows, cars);
    }
  }

  /** Lap by lap there is one byte per car, 0 where the lap has no such car. */
  lemma SerialisedByte(p: Packet, cars: nat, l: nat, c: nat)
    requires p.numLaps == |p.rows| <= MAX_LAPS && l < |p.rows| && c < cars
    requires Serialise(p, cars).Ok?
    ensures 2 + l * cars + c < |Serialise(p, cars).value|
    ensures Serialise(p, cars).value[2 + l * cars + c] == if c < |p.rows[l]| then p.rows[l][c] else 0
  {
    SerialisedShape(p, cars);
    hide FlatRows, Serialise, Zeros;
    SerialisedCell(p.rows, cars, l, c);
    var at := l * cars + c;
    assert Serialise(p, cars).value[2 + at] == FlatRows(p.rows, cars)[at];
  }

  /** The two counts come first, the laps follow, and after them there are only zeros. */
  lemma SerialisedShape(p: Packet, cars: nat)
    requires p.numLaps == |p.rows| <= MAX_LAPS
    requires Serialise(p, cars).Ok?
    ensures var data, flat := Serialise(p, cars).value, FlatRows(p.rows, cars);
            && |data| == 2 + cars * 50 && data[0] == p.numLaps && data[1] == p.lapStart
            && |flat| == |p.rows| * cars && 2 + |flat| <= |data|
            && (forall k :: 0 <= k < |flat| ==> data[2 + k] == flat[k])
            && (forall i :: 2 + |flat| <= i < |data| ==> data[i] == 0)
  {
    var flat, tail := FlatRows(p.rows, cars), Zeros(cars * (MAX_LAPS - p.numLaps));
    FlatLength(p.rows, cars);
    hide FlatRows;
    assert Serialise(p, cars).value == [p.numLaps, p.lapStart] + (flat + tail);
  }

  lemma SerialisedCell(rows: seq<Row>, cars: nat, l: nat, c: nat)
    requires l < |rows| && c < cars
    ensures l * cars + c < |FlatRows(rows, cars)|
    ensures FlatRows(rows, cars)[l * cars + c] == if c < |rows[l]| then rows[l][c] else 0
  {
    hide FlatRows;
    FlatRowAt(rows, cars, l);
    var flat, at := FlatRows(rows, cars), l * cars;
    assert flat[at..at + cars][c] == flat[at + c];
  }

  lemma {:induction false} FlatBytesIff(rows: seq<Row>, cars: nat)
    ensures AllBytes(FlatRows(rows, cars)) <==> forall i :: 0 <= i < |rows| ==> AllBytes(PadRow(rows[i], cars))
  {
    if rows == [] {
    } else {
      var init, last := rows[..|rows| - 1], rows[|rows| - 1];
      FlatBytesIff(init, cars);
      BytesOfConcat(FlatRows(init, cars), PadRow(last, cars));
      hide FlatRows, PadRow, AllBytes;
      assert forall i :: 0 <= i < |init| ==> rows[i] == init[i];
    }
  }

  lemma BytesOfConcat(a: seq<int>, b: seq<int>)
    ensures AllBytes(a + b) <==> AllBytes(a) && AllBytes(b)
  {
    if AllBytes(a + b) {
      assert forall i :: 0 <= i < |a| ==> (a + b)[i] == a[i];
      assert forall i :: 0 <= i < |b| ==> (a + b)[|a| + i] == b[i];
    }
  }

  /** Every position that is written is a byte. */
  ghost predicate UsedCellsAreBytes(rows: seq<Row>, cars: nat) {
    forall l, c :: 0 <= l < |rows| && 0 <= c < |rows[l]| && c < cars ==> 0 <= rows[l][c] < 256
  }

  lemma PaddedBytes(row: Row, cars: nat)
    ensures AllBytes(PadRow(row, cars)) <==> forall c :: 0 <= c < |row| && c < cars ==> 0 <= row[c] < 256
  {
    if AllBytes(PadRow(row, cars)) {
      forall c | 0 <= c < |row| && c < cars
        ensures 0 <= row[c] < 256
      {
        assert InByte(PadRow(row, cars)[c]);
      }
    }
  }

  /**
   A packet can be serialised exactly when its counts and positions are bytes and its rows, with
   one empty row for each lap that numLaps leaves unused, make fifty; so a wrong row count raises.
   */
  lemma SerialiseIff(p: Packet, cars: nat)
    requires cars > 0
    ensures Serialise(p, cars).Ok? <==>
              && 0 <= p.numLaps < 256 && 0 <= p.lapStart < 256
              && |p.rows| + (if p.numLaps < 50 then 50 - p.numLaps else 0) == 50
              && UsedCellsAreBytes(p.rows, cars)
  {
    FlatLength(p.rows, cars);
    FlatBytesIff(p.rows, cars);
    forall i | 0 <= i < |p.rows|
      ensures AllBytes(PadRow(p.rows[i], cars)) <==>
              forall c :: 0 <= c < |p.rows[i]| && c < cars ==> 0 <= p.rows[i][c] < 256
    {
      PaddedBytes(p.rows[i], cars);
    }
    var unused := if p.numLaps < MAX_LAPS then MAX_LAPS - p.numLaps else 0;
    ZeroCount(cars, MAX_LAPS - p.numLaps, unused);
    SlotsFilled(|p.rows|, unused, cars);
    var tail := Zeros(cars * (MAX_LAPS - p.numLaps));
    BytesOfConcat(FlatRows(p.rows, cars), tail);
    hide FlatRows, PadRow;
    assert AllBytes(tail);
  }

  lemma ZeroCount(cars: nat, laps: int, unused: nat)
    requires unused == if laps > 0 then laps else 0
    ensures |Zeros(cars * laps)| == cars * unused
  {
    if laps <= 0 {
      assert cars * laps <= 0;
    } else {
      assert cars * laps >= 0;
    }
  }

  lemma SlotsFilled(n: nat, unused: nat, cars: nat)
    requires cars > 0
    ensures n * cars + cars * unused == cars * 50 <==> n + unused == 50
  {
    assert n * cars + cars * unused == (n + unused) * cars;
    if n + unused < 50 {
      MulLe(n + unused + 1, 50, cars);
    } else if n + unused > 50 {
      MulLe(51, n + unused, cars);
    }
  }

  lemma {:induction false} FlatBytes(rows: seq<Row>, cars: nat)
    requires forall i :: 0 <= i < |rows| ==> AllBytes(rows[i])
    ensures AllBytes(FlatRows(rows, cars))
  {
    if rows == [] {
    } else {
      FlatBytes(rows[..|rows| - 1], cars);
      assert AllBytes(rows[|rows| - 1]);
    }
  }

  /** A matrix of byte-sized positions with its own row count always serialises. */
  lemma SerialiseSucceeds(p: Packet, cars: nat)
    requires p.numLaps == |p.rows| <= MAX_LAPS && InByte(p.lapStart)
    requires forall i :: 0 <= i < |p.rows| ==> AllBytes(p.rows[i])
    ensures Serialise(p, cars).Ok?
  {
    FlatLength(p.rows, cars);
    FlatBytes(p.rows, cars);
    assert p.numLaps * cars + cars * (MAX_LAPS - p.numLaps) == cars * MAX_LAPS;
    MulLe(0, MAX_LAPS - p.numLaps, cars);
  }

  lemma ItemWithin(flat: seq<int>, cars: nat, i: nat)
    requires i * cars + cars <= |flat|
    ensures Item(flat, 0, cars, i) == flat[i * cars..i * cars + cars]
  {}

  lemma {:induction false} FlatOfRows(flat: seq<int>, cars: nat, n: nat)
    requires n * cars <= |flat|
    ensures FlatRows(RowsOf(flat, cars, n), cars) == flat[..n * cars]
  {
    hide Item;
    if n == 0 {
    } else {
      hide FlatRows;
      var rows := RowsOf(flat, cars, n);
      assert n * cars == (n - 1) * cars + cars;
      FlatOfRows(flat, cars, n - 1);
      assert rows[..n - 1] == RowsOf(flat, cars, n - 1);
      ItemWithin(flat, cars, n - 1);
      FlatRowsExtend(flat, cars, rows, (n - 1) * cars);
    }
  }

  lemma FlatRowsExtend(flat: seq<int>, cars: nat, rows: seq<Row>, at: nat)
    requires rows != [] && at + cars <= |flat|
    requires FlatRows(rows[..|rows| - 1], cars) == flat[..at]
    requires rows[|rows| - 1] == flat[at..at + cars]
    ensures FlatRows(rows, cars) == flat[..at + cars]
  {}

  /** Packing the first k bytes of a body with zeros after them rebuilds it iff zeros were there. */
  lemma PackZeroTail(data: seq<int>, k: nat)
    requires AllBytes(data) && 2 + k <= |data|
    ensures var flat := data[2..];
            Pack(data[0], data[1], flat[..k] + Zeros(|flat| - k), |flat|) == Ok(data)
            <==> forall i :: 2 + k <= i < |data| ==> data[i] == 0
  {
    var flat := data[2..];
    var out, head := flat[..k] + Zeros(|flat| - k), [data[0], data[1]];
    assert forall i :: 2 <= i < |data| ==> (head + out)[i] == if i < 2 + k then data[i] else 0;
    if forall i :: 2 + k <= i < |data| ==> data[i] == 0 {
      assert head + out == data;
      assert AllBytes(out) by {
        forall i | 0 <= i < |out| ensures InByte(out[i]) { assert out[i] == data[i + 2]; }
      }
    }
  }

  /** Nothing but zeros after the laps in use. */
  predicate UnusedLapsZero(data: seq<int>, cars: nat)
    requires |data| == 2 + cars * MAX_LAPS && AllBytes(data)
  {
    data[0] <= MAX_LAPS && forall i :: 2 + data[0] * cars <= i < |data| ==> data[i] == 0
  }

  /** Parsing bytes and serialising again gives them back exactly when the unused laps are zero. */
  lemma ParseSerialiseIff(data: seq<int>, cars: nat)
    requires cars > 0 && AllBytes(data) && |data| == 2 + cars * MAX_LAPS
    ensures ParsePacket(data, cars).Ok?
    ensures Serialise(ParsePacket(data, cars).value, cars) == Ok(data) <==> UnusedLapsZero(data, cars)
  {
    var p := ParsePacket(data, cars).value;
    if p.numLaps <= MAX_LAPS {
      ReserialisedBody(data, cars);
    } else {
      FlatLength(p.rows, cars);
      MulLe(MAX_LAPS + 1, p.numLaps, cars);
    }
  }

  lemma ReserialisedBody(data: seq<int>, cars: nat)
    requires AllBytes(data) && |data| == 2 + cars * MAX_LAPS && data[0] <= MAX_LAPS
    ensures Serialise(ParsePacket(data, cars).value, cars) == Ok(data) <==> UnusedLapsZero(data, cars)
  {
    var n := data[0];
    MulLe(n, MAX_LAPS, cars);
    assert cars * (MAX_LAPS - n) == cars * MAX_LAPS - n * cars;
    FlatOfRows(data[2..], cars, n);
    hide FlatRows, RowsOf, Zeros, Pack;
    PackZeroTail(data, n * cars);
  }

  // ---------------------------------------------------------------------
  // Transposing
  // ---------------------------------------------------------------------

  /** The length zip(*rows) stops at. */
  function Shortest(rows: seq<Row>): nat
    requires rows != []
  {
    if |rows| == 1 then |rows[0]|
    else
      var s := Shortest(rows[..|rows| - 1]);
      if |rows[|rows| - 1]| < s then |rows[|rows| - 1]| else s
  }

  lemma {:induction false} ShortestBounds(rows: seq<Row>)
    requires rows != []
    ensures forall i :: 0 <= i < |rows| ==> Shortest(rows) <= |rows[i]|
    ensures exists i :: 0 <= i < |rows| && |rows[i]| == Shortest(rows)
  {
    if |rows| == 1 {
      assert |rows[0]| == Shortest(rows);
    } else {
      ShortestBounds(rows[..|rows| - 1]);
      var i :| 0 <= i < |rows| - 1 && |rows[..|rows| - 1][i]| == Shortest(rows[..|rows| - 1]);
      assert |rows[i]| == Shortest(rows[..|rows| - 1]);
      assert |rows[i]| == Shortest(rows) || |rows[|rows| - 1]| == Shortest(rows);
    }
  }

  /** [list(column) for column in zip(*rows)]. */
  function Transpose(rows: seq<Row>): seq<Row> {
    if rows == [] then []
    else
      ShortestBounds(rows);
      seq(Shortest(rows), c requires 0 <= c < Shortest(rows) =>
        seq(|rows|, l requires 0 <= l < |rows| && c < |rows[l]| => rows[l][c]))
  }

  predicate Rectangular(rows: seq<Row>) {
    forall i :: 0 <= i < |rows| ==> |rows[i]| == |rows[0]|
  }

  /** Column c of lap l is lap l of column c. */
  lemma TransposeCells(rows: seq<Row>)
    requires rows != []
    ensures |Transpose(rows)| == Shortest(rows)
    ensures forall c :: 0 <= c < |Transpose(rows)| ==> |Transpose(rows)[c]| == |rows|
    ensures forall c, l :: 0 <= c < |Transpose(rows)| && 0 <= l < |rows| ==>
              c < |rows[l]| && Transpose(rows)[c][l] == rows[l][c]
  {
    ShortestBounds(rows);
  }

  lemma UniformShortest(rows: seq<Row>, n: nat)
    requires rows != [] && forall i :: 0 <= i < |rows| ==> |rows[i]| == n
    ensures Shortest(rows) == n
  {}

  /** Transposing twice is the identity exactly on no rows at all and on rectangles that have cells. */
  lemma TransposeTwiceIff(rows: seq<Row>)
    ensures Transpose(Transpose(rows)) == rows
            <==> rows == [] || (Rectangular(rows) && rows[0] != [])
  {
    if rows != [] {
      var t := Transpose(rows);
      TransposeCells(rows);
      ShortestBounds(rows);
      if t == [] {
        var i :| 0 <= i < |rows| && |rows[i]| == Shortest(rows);
        assert rows[i] == [];
        assert Rectangular(rows) ==> |rows[0]| == |rows[i]|;
      } else {
        UniformShortest(t, |rows|);
        TransposeCells(t);
        var tt := Transpose(t);
        assert forall l :: 0 <= l < |tt| ==> |tt[l]| == |t|;
        if Rectangular(rows) {
          UniformShortest(rows, |rows[0]|);
          forall l | 0 <= l < |rows|
            ensures tt[l] == rows[l]
          {
          }
          assert tt == rows;
        } else if tt == rows {
          assert Rectangular(tt);
          assert false;
        }
      }
    }
  }

  // ---------------------------------------------------------------------
  // Fixed-stride arrays
  // ---------------------------------------------------------------------

  /** The constructor of a sub-packet class: what it makes of a slice, or what it raises. */
  type Maker<!T, !U> = seq<T> -> Result<U, Error>

  /** The list comprehension over the first n items; the first item that raises ends it. */
  function MakeItems<T, U>(make: Maker<T, U>, raw: seq<T>, itemLen: nat, n: nat): Result<seq<U>, Error> {
    if n == 0 then Ok([])
    else
      var made := MakeItems(make, raw, itemLen, n - 1);
      if made.Err? then made
      else
        match make(Item(raw, 0, itemLen, n - 1))
        case Err(e) => Err(e)
        case Ok(u) => Ok(made.value + [u])
  }

  /** parse_array: the items and the new offset.  A stride of zero is rejected by range(). */
  function ParseArray<T, U>(make: Maker<T, U>, data: seq<T>, offset: nat, itemLen: nat, count: int, maxCount: nat)
    : Result<(seq<U>, nat), Error>
  {
    var totalRawLen := maxCount * itemLen;
    var raw := Slice(data, offset, offset + totalRawLen);
    var expectedLen := count * itemLen;
    if count > maxCount then Err(CountError)
    else if totalRawLen < expectedLen then Err(ParsingError)
    else if itemLen == 0 then Err(ValueError)
    else
      match MakeItems(make, raw, itemLen, if count < 0 then 0 else count)
      case Err(e) => Err(e)
      case Ok(items) => Ok((items, offset + totalRawLen))
  }

  lemma CountFits(count: int, maxCount: nat, itemLen: nat)
    requires count <= maxCount
    ensures count * itemLen <= maxCount * itemLen
  {
    assert (maxCount - count) * itemLen >= 0;
  }

  lemma ItemAt<T>(data: seq<T>, offset: nat, itemLen: nat, maxCount: nat, i: nat)
    requires i < maxCount
    ensures Item(Slice(data, offset, offset + maxCount * itemLen), 0, itemLen, i) == Item(data, offset, itemLen, i)
  {
    hide Slice;
    MulLe(i + 1, maxCount, itemLen);
    assert (i + 1) * itemLen == i * itemLen + itemLen;
    SliceOfSlice(data, offset, maxCount * itemLen, i * itemLen, itemLen);
  }

  /** The error is that of the first item that raises. */
  ghost predicate FirstToRaise<T, U>(make: Maker<T, U>, data: seq<T>, offset: nat, itemLen: nat, n: nat, e: Error) {
    exists i :: 0 <= i < n && make(Item(data, offset, itemLen, i)) == Err(e)
                && forall j :: 0 <= j < i ==> make(Item(data, offset, itemLen, j)).Ok?
  }

  /** What making the first n items comes to. */
  ghost predicate MakesItems<T, U>(make: Maker<T, U>, data: seq<T>, offset: nat, itemLen: nat, n: nat,
                                   r: Result<seq<U>, Error>) {
    && (r.Ok? <==> forall i :: 0 <= i < n ==> make(Item(data, offset, itemLen, i)).Ok?)
    && (r.Ok? ==> |r.value| == n && forall i :: 0 <= i < n ==> make(Item(data, offset, itemLen, i)) == Ok(r.value[i]))
    && (r.Err? ==> FirstToRaise(make, data, offset, itemLen, n, r.error))
  }

  lemma {:induction false} MakeItemsOf<T, U>(make: Maker<T, U>, data: seq<T>, offset: nat, itemLen: nat,
                                             maxCount: nat, n: nat)
    requires n <= maxCount
    ensures MakesItems(make, data, offset, itemLen, n,
                       MakeItems(make, Slice(data, offset, offset + maxCount * itemLen), itemLen, n))
  {
    hide Slice, Item;
    if n == 0 {
    } else {
      var raw := Slice(data, offset, offset + maxCount * itemLen);
      MakeItemsOf(make, data, offset, itemLen, maxCount, n - 1);
      ItemAt(data, offset, itemLen, maxCount, n - 1);
      var made := MakeItems(make, raw, itemLen, n - 1);
      if made.Err? {
        var i :| 0 <= i < n - 1 && make(Item(data, offset, itemLen, i)) == Err(made.error)
                 && forall j :: 0 <= j < i ==> make(Item(data, offset, itemLen, j)).Ok?;
        assert !make(Item(data, offset, itemLen, i)).Ok?;
      }
    }
  }

  /**
   The whole contract of parse_array, for any item class: it succeeds exactly when the count fits,
   the stride is positive and the class accepts every slice at its stride, as far as the data
   goes; the shortage test never decides; and the offset moves past all max_count slots whatever
   the count.
   */
  lemma ParseArrayItems<T, U>(make: Maker<T, U>, data: seq<T>, offset: nat, itemLen: nat, count: int, maxCount: nat)
    ensures count <= maxCount ==> count * itemLen <= maxCount * itemLen
    ensures var r := ParseArray(make, data, offset, itemLen, count, maxCount);
            && (r.Ok? <==>
                  && count <= maxCount && itemLen > 0
                  && forall i :: 0 <= i < count ==> make(Item(data, offset, itemLen, i)).Ok?)
            && (r.Ok? ==>
                  && |r.value.0| == (if count < 0 then 0 else count)
                  && r.value.1 == offset + maxCount * itemLen
                  && forall i :: 0 <= i < |r.value.0| ==> make(Item(data, offset, itemLen, i)) == Ok(r.value.0[i]))
            && (r.Err? ==>
                  if count > maxCount then r.error == CountError
                  else if itemLen == 0 then r.error == ValueError
                  else count > 0 && FirstToRaise(make, data, offset, itemLen, count, r.error))
  {
    hide Slice, Item, MakeItems, FirstToRaise;
    if count <= maxCount {
      CountFits(count, maxCount, itemLen);
      MakeItemsOf(make, data, offset, itemLen, maxCount, if count < 0 then 0 else count);
    }
  }

  // ---------------------------------------------------------------------
  // Short buffers
  // ---------------------------------------------------------------------

  /** The class accepts a slice of at most one stride exactly when its first `need` values are there. */
  ghost predicate Needs<T(!new), U>(make: Maker<T, U>, itemLen: nat, need: nat) {
    forall s: seq<T> | |s| <= itemLen :: make(s).Ok? <==> need <= |s|
  }

  /** The class unpacks its whole slice. */
  ghost predicate FixedSize<T(!new), U>(make: Maker<T, U>, itemLen: nat) {
    forall s: seq<T> :: make(s).Ok? <==> |s| == itemLen
  }

  lemma ItemLength<T>(data: seq<T>, offset: nat, itemLen: nat, i: nat, need: nat)
    requires 0 < need <= itemLen
    ensures |Item(data, offset, itemLen, i)| <= itemLen
    ensures need <= |Item(data, offset, itemLen, i)| <==> offset + i * itemLen + need <= |data|
  {}

  /**
   For a class that needs the first `need` values of each slice, parsing succeeds exactly when the
   data reaches that far into the last item.
   */
  lemma ParsesIffEnoughData<T(!new), U>(make: Maker<T, U>, data: seq<T>, offset: nat, itemLen: nat, count: int,
                                        maxCount: nat, need: nat)
    requires Needs(make, itemLen, need) && 0 < need <= itemLen && 0 < count <= maxCount
    ensures ParseArray(make, data, offset, itemLen, count, maxCount).Ok?
            <==> offset + (count - 1) * itemLen + need <= |data|
  {
    ParseArrayItems(make, data, offset, itemLen, count, maxCount);
    forall i: nat | i < count
      ensures make(Item(data, offset, itemLen, i)).Ok? <==> offset + i * itemLen + need <= |data|
      ensures i * itemLen <= (count - 1) * itemLen
    {
      ItemLength(data, offset, itemLen, i, need);
      MulLe(i, count - 1, itemLen);
    }
    hide ParseArray, Item;
    var last := count - 1;
    assert make(Item(data, offset, itemLen, last)).Ok? <==> offset + last * itemLen + need <= |data|;
  }

  /**
   For a class that unpacks its whole slice, parsing succeeds exactly when the data reaches to the
   end of the last item: a short buffer is rejected, only not by the shortage test.
   */
  lemma FixedSizeParsesIffEnoughData<T(!new), U>(make: Maker<T, U>, data: seq<T>, offset: nat, itemLen: nat,
                                                 count: int, maxCount: nat)
    requires FixedSize(make, itemLen) && itemLen > 0 && 0 < count <= maxCount
    ensures ParseArray(make, data, offset, itemLen, count, maxCount).Ok? <==> offset + count * itemLen <= |data|
  {
    assert Needs(make, itemLen, itemLen);
    ParsesIffEnoughData(make, data, offset, itemLen, count, maxCount, itemLen);
    assert (count - 1) * itemLen + itemLen == count * itemLen;
  }

  /** Three bytes parsed as two items of two bytes: the second unpack raises, not the shortage test. */
  lemma ShortBufferRaisesInItem<U>(make: Maker<int, U>)
    requires FixedSize(make, 2)
    requires forall s: seq<int> :: make(s).Err? ==> make(s).error == StructError
    ensures ParseArray(make, [10, 11, 12], 0, 2, 2, 2) == Err(StructError)
  {
    FixedSizeParsesIffEnoughData(make, [10, 11, 12], 0, 2, 2, 2);
    ParseArrayItems(make, [10, 11, 12], 0, 2, 2, 2);
  }

  // ---------------------------------------------------------------------
  // A class that reads a prefix: ParticipantData in formats 2025 and later
  // ---------------------------------------------------------------------

  const COLOUR_LEN := 3
  const MAX_COLOURS := 4

  /** LiveryColour: three bytes, no more and no fewer. */
  function MakeColour(s: seq<int>): Result<seq<int>, Error> {
    if |s| == COLOUR_LEN then Ok(s) else Err(StructError)
  }

  /** The base fields, of which the last byte counts the colours, and the colours after them. */
  datatype Participant = Participant(base: seq<int>, colours: seq<seq<int>>)

  function MakeParticipant(baseLen: nat, s: seq<int>): Result<Participant, Error>
    requires baseLen > 0
  {
    if |s| < baseLen then Err(StructError)
    else
      match ParseArray(MakeColour, s, baseLen, COLOUR_LEN, s[baseLen - 1], MAX_COLOURS)
      case Err(e) => Err(e)
      case Ok((colours, _)) => Ok(Participant(s[..baseLen], colours))
  }

  /** A participant can be made exactly when base and used colours are there: the unused may be missing. */
  lemma ParticipantIff(baseLen: nat, s: seq<int>)
    requires baseLen > 0 && forall i :: 0 <= i < |s| ==> 0 <= s[i]
    ensures MakeParticipant(baseLen, s).Ok? <==>
              && baseLen <= |s| && s[baseLen - 1] <= MAX_COLOURS
              && baseLen + s[baseLen - 1] * COLOUR_LEN <= |s|
  {
    if baseLen <= |s| {
      var n := s[baseLen - 1];
      ParseArrayItems(MakeColour, s, baseLen, COLOUR_LEN, n, MAX_COLOURS);
      if 0 < n <= MAX_COLOURS {
        FixedSizeParsesIffEnoughData(MakeColour, s, baseLen, COLOUR_LEN, n, MAX_COLOURS);
      }
    }
  }

  /** Its base is what precedes the colours, and each colour its own three bytes. */
  lemma ParticipantContents(baseLen: nat, s: seq<int>)
    requires baseLen > 0 && forall i :: 0 <= i < |s| ==> 0 <= s[i]
    requires MakeParticipant(baseLen, s).Ok?
    ensures baseLen <= |s| && baseLen + 3 * s[baseLen - 1] <= |s|
    ensures var p := MakeParticipant(baseLen, s).value;
            && p.base == s[..baseLen] && |p.colours| == s[baseLen - 1]
            && forall i :: 0 <= i < |p.colours| ==> p.colours[i] == s[baseLen + 3 * i..baseLen + 3 * i + 3]
  {
    ParticipantIff(baseLen, s);
    var n := s[baseLen - 1];
    ParseArrayItems(MakeColour, s, baseLen, COLOUR_LEN, n, MAX_COLOURS);
    hide ParseArray, Item;
    var colours := ParseArray(MakeColour, s, baseLen, COLOUR_LEN, n, MAX_COLOURS).value.0;
    forall i: nat | i < n
      ensures colours[i] == s[baseLen + 3 * i..baseLen + 3 * i + 3]
    {
      assert MakeColour(Item(s, baseLen, COLOUR_LEN, i)) == Ok(colours[i]);
      ColourAt(s, baseLen, i);
    }
  }

  lemma ColourAt(s: seq<int>, baseLen: nat, i: nat)
    requires baseLen + 3 * i + 3 <= |s|
    ensures Item(s, baseLen, COLOUR_LEN, i) == s[baseLen + 3 * i..baseLen + 3 * i + 3]
  {}

  /** A participant without colours in a buffer that ends right after its base fields is accepted. */
  lemma ShortParticipantAccepted(baseLen: nat) returns (data: seq<int>)
    requires baseLen > 0
    ensures |data| == baseLen < baseLen + MAX_COLOURS * COLOUR_LEN
    ensures ParseArray(s => MakeParticipant(baseLen, s), data, 0, baseLen + MAX_COLOURS * COLOUR_LEN, 1, 24)
            == Ok(([Participant(data, [])], 24 * (baseLen + MAX_COLOURS * COLOUR_LEN)))
  {
    data := Zeros(baseLen);
    var make: Maker<int, Participant> := s => MakeParticipant(baseLen, s);
    var stride := baseLen + MAX_COLOURS * COLOUR_LEN;
    ParseArrayItems(make, data, 0, stride, 1, 24);
    assert Item(data, 0, stride, 0) == data;
    ParseArrayItems(MakeColour, data, baseLen, COLOUR_LEN, 0, MAX_COLOURS);
    assert make(data) == Ok(Participant(data, [])) by {
      assert data[..baseLen] == data;
    }
    var r := ParseArray(make, data, 0, stride, 1, 24);
    assert r.value.0 == [Participant(data, [])];
  }

  lemma SliceOfSlice<T>(s: seq<T>, offset: nat, total: nat, at: nat, len: nat)
    requires at + len <= total
    ensures Slice(Slice(s, offset, offset + total), at, at + len) == Slice(s, offset + at, offset + at + len)
  {
    var start, inner := Clamp(offset, |s|), Slice(s, offset, offset + total);
    var a, b := Clamp(at, |inner|), Clamp(at + len, |inner|);
    SliceTwice(s, start, Clamp(offset + total, |s|), a, b);
    if offset + at <= |s| {
      assert start + a == Clamp(offset + at, |s|) && start + b == Clamp(offset + at + len, |s|);
    } else {
      assert inner[a..b] == [] == Slice(s, offset + at, offset + at + len);
    }
  }

  lemma SliceTwice<T>(s: seq<T>, x: nat, y: nat, a: nat, b: nat)
    requires x <= y <= |s| && a <= b <= y - x
    ensures s[x..y][a..b] == s[x + a..x + b]
  {
    var inner := s[x..y];
    assert forall i :: 0 <= i < |inner| ==> inner[i] == s[x + i];
    assert forall i :: 0 <= i < b - a ==> inner[a..b][i] == inner[a + i];
  }
}
