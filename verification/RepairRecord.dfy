/** The record loop at the end of sqliterkBtreeParsePayload (sqliterk_btree.c), against the record format of section 2.1
    of the SQLite Database File Format. */
module RepairRecord {
  import opened Options
  import opened Bytes
  import opened RepairBytes

  /** `Real` carries the eight raw bytes. `Unset` is an integer whose storage the C program never wrote: serial types
      below zero fall into the integer branch, where the decoder refuses their length and its answer is ignored. */
  datatype Value = Null | Integer(i: int) | Real(raw: Data) | Text(text: Data) | Blob(blob: Data) | Unset

  datatype Field = NoField(code: Code) | Field(value: Value)

  datatype Outcome = Failed(code: Code) | Accepted(values: seq<Value>)

  const FIXED_LENGTHS: seq<nat> := [0, 1, 2, 3, 4, 6, 8, 8, 0, 0, 0, 0]

  /** sqliterkBtreeGetLengthForSerialType */
  function TypeLength(t: int): nat {
    if t < 0 then 0
    else if t < 12 then FIXED_LENGTHS[t]
    else (t - 12 - t % 2) / 2
  }

  /** The bytes [offset, offset + n) of a buffer; reading no bytes touches nothing. */
  function Slice(p: Data, offset: int, n: nat): (s: Option<Data>)
    ensures s.Some? ==> |s.value| == n
  {
    if n == 0 then Some([])
    else if 0 <= offset && offset + n <= |p| then Some(p[offset..offset + n])
    else None
  }

  /** What a serial type makes of its bytes. */
  function Interpret(t: int, body: Data): Field {
    if t == 0 then Field(Null)
    else if t < 7 then Field(match ParseInt64(body) case Some(i) => Integer(i) case None => Unset)
    else if t == 7 then Field(Real(body))
    else if t == 8 then Field(Integer(0))
    else if t == 9 then Field(Integer(1))
    else if t >= 12 then Field(if t % 2 == 0 then Blob(body) else Text(body))
    else NoField(Damaged)
  }

  function ValueAt(p: Data, offset: int, t: int): Field {
    match Slice(p, offset, TypeLength(t))
    case Some(body) => Interpret(t, body)
    case None => NoField(Outside)
  }

  function Prepend(v: Value, rest: Outcome): Outcome {
    match rest
    case Accepted(values) => Accepted([v] + values)
    case Failed(code) => rest
  }

  /** One trip of the loop at header offset `s` and value offset `v`. */
  datatype Trip = Stop(code: Code) | Go(value: Value, s: nat, v: int)

  function OneTrip(p: Data, s: nat, v: int): (trip: Trip)
    ensures trip.Go? ==> s < trip.s <= |p| && v <= trip.v
  {
    var head := Decode(p, s);
    if head.NoVarint? then Stop(head.code)
    else
      var t := ToInt32(head.value);
      var field := ValueAt(p, v, t);
      if field.NoField? then Stop(field.code) else Go(field.value, s + head.length, v + TypeLength(t))
  }

  /** The loop from there on. */
  function Columns(p: Data, end: int, s: nat, v: int): Outcome
    decreases |p| - s
  {
    if v >= |p| && s >= end then
      if s == end && v == |p| then Accepted([]) else Failed(Damaged)
    else
      var trip := OneTrip(p, s, v);
      if trip.Stop? then Failed(trip.code) else Prepend(trip.value, Columns(p, end, trip.s, trip.v))
  }

  function ParseRecord(p: Data): Outcome {
    var head := Decode(p, 0);
    if head.NoVarint? then Failed(head.code)
    else Columns(p, ToInt32(head.value), head.length, ToInt32(head.value))
  }

  lemma {:induction false} ColumnFailures(p: Data, end: int, s: nat, v: int)
    ensures var r := Columns(p, end, s, v); r.Failed? ==> r.code == Damaged || r.code == Outside
    decreases |p| - s
  {
    hide Decode, TypeLength, ToInt32, Slice;
    if !(v >= |p| && s >= end) {
      var trip := OneTrip(p, s, v);
      if trip.Go? {
        ColumnFailures(p, end, trip.s, trip.v);
      }
    }
  }

  function Append(values: seq<Value>, rest: Outcome): Outcome {
    match rest
    case Accepted(more) => Accepted(values + more)
    case Failed(code) => rest
  }

  lemma {:induction false} Appended(values: seq<Value>, v: Value, rest: Outcome)
    ensures Append(values, Prepend(v, rest)) == Append(values + [v], rest)
  {
    if rest.Accepted? {
      assert values + ([v] + rest.values) == values + [v] + rest.values;
    }
  }

  /** The record part of sqliterkBtreeParsePayload. */
  method ParseColumns(payload: Data) returns (r: Outcome)
    ensures r == ParseRecord(payload)
  {
    hide Decode, Interpret, TypeLength, Slice, ToInt32;
    var header := ParseVarint64(payload, 0);
    if header.NoVarint? {
      return Failed(header.code);
    }
    var offsetSerialType: nat := header.length;
    var offsetValue: int := ToInt32(header.value);
    var endSerialType := offsetValue;
    var endValue := |payload|;
    var values: seq<Value> := [];
    while offsetValue < endValue || offsetSerialType < endSerialType
      invariant ParseRecord(payload) == Append(values, Columns(payload, endSerialType, offsetSerialType, offsetValue))
      decreases |payload| - offsetSerialType
    {
      ghost var trip := OneTrip(payload, offsetSerialType, offsetValue);
      var head := ParseVarint64(payload, offsetSerialType);
      if head.NoVarint? {
        return Failed(head.code);
      }
      var serialType: int := ToInt32(head.value);
      var valueLength: nat := TypeLength(serialType);
      var field := ValueAt(payload, offsetValue, serialType);
      if field.NoField? {
        return Failed(field.code);
      }
      assert trip == Go(field.value, offsetSerialType + head.length, offsetValue + valueLength);
      Appended(values, field.value, Columns(payload, endSerialType, trip.s, trip.v));
      values := values + [field.value];
      offsetValue := offsetValue + valueLength;
      offsetSerialType := offsetSerialType + head.length;
    }
    if offsetSerialType != endSerialType || offsetValue != endValue {
      return Failed(Damaged);
    }
    return Accepted(values);
  }

  // ----- what a record is

  /** The serial type table of section 2.1: how many bytes the value takes. Types 10 and 11 are reserved. */
  function FormatLength(t: nat): nat {
    match t
    case 0 => 0
    case 1 => 1
    case 2 => 2
    case 3 => 3
    case 4 => 4
    case 5 => 6
    case 6 => 8
    case 7 => 8
    case 8 => 0
    case 9 => 0
    case _ => if t < 12 then 0 else if t % 2 == 0 then (t - 12) / 2 else (t - 13) / 2
  }

  /** The same table: which value they are. A negative serial type, which the format does not have, is a value that was
      never written. */
  function FormatValue(t: int, body: Data): Value {
    if t < 0 then Unset
    else match t
      case 0 => Null
      case 7 => Real(body)
      case 8 => Integer(0)
      case 9 => Integer(1)
      case _ => if t < 7 then Integer(Signed(body)) else if t % 2 == 0 then Blob(body) else Text(body)
  }

  /** The reader has the table of the format, for every serial type. */
  lemma {:induction false} TypesAreFormat(t: int, body: Data)
    ensures TypeLength(t) == if t < 0 then 0 else FormatLength(t)
    ensures |body| == TypeLength(t) ==>
            Interpret(t, body) == if t == 10 || t == 11 then NoField(Damaged) else Field(FormatValue(t, body))
  {
    hide ParseInt64, Signed;
    IntIsBigEndian(body);
  }

  /** One column: the bytes of its serial type and of its value. */
  datatype Column = Column(code: Data, body: Data)

  function TypeOf(c: Column): int {
    var head := DecodeHead(c.code);
    if head.Varint? then ToInt32(head.value) else 0
  }

  ghost predicate WellFormed(c: Column) {
    DecodeHead(c.code).Varint? && DecodeHead(c.code).length == |c.code|
    && TypeOf(c) != 10 && TypeOf(c) != 11
    && |c.body| == if TypeOf(c) < 0 then 0 else FormatLength(TypeOf(c))
  }

  ghost predicate AllWellFormed(cols: seq<Column>) {
    forall i :: 0 <= i < |cols| ==> WellFormed(cols[i])
  }

  function Codes(cols: seq<Column>): Data {
    if cols == [] then [] else cols[0].code + Codes(cols[1..])
  }

  function Bodies(cols: seq<Column>): Data {
    if cols == [] then [] else cols[0].body + Bodies(cols[1..])
  }

  function ColumnValue(c: Column): Value {
    FormatValue(TypeOf(c), c.body)
  }

  function Values(cols: seq<Column>): (values: seq<Value>)
    ensures |values| == |cols|
  {
    if cols == [] then [] else [ColumnValue(cols[0])] + Values(cols[1..])
  }

  /** A record: its header size, then the serial types, then the values, with nothing before, between or after. */
  ghost predicate Tiles(p: Data, size: Data, cols: seq<Column>) {
    p == size + Codes(cols) + Bodies(cols)
    && AllWellFormed(cols)
    && DecodeHead(size).Varint? && DecodeHead(size).length == |size|
    && ToInt32(DecodeHead(size).value) == |size| + |Codes(cols)|
  }

  /** The loop never passes either end it accepts at. */
  lemma {:induction false} AcceptedEnds(p: Data, end: int, s: nat, v: int)
    requires Columns(p, end, s, v).Accepted?
    ensures s <= end && v <= |p|
    decreases |p| - s
  {
    hide OneTrip;
    if !(v >= |p| && s >= end) {
      var trip := OneTrip(p, s, v);
      AcceptedEnds(p, end, trip.s, trip.v);
    }
  }

  lemma {:induction false} SliceInside(p: Data, v: int, n: nat)
    requires 0 <= v && v + n <= |p|
    ensures Slice(p, v, n) == Some(p[v..v + n])
  {
    if n == 0 {
      assert p[v..v + n] == [];
    }
  }

  /** A trip that ends inside the payload took one well-formed column. */
  lemma {:induction false} TripIsColumn(p: Data, s: nat, v: nat)
    requires OneTrip(p, s, v).Go? && OneTrip(p, s, v).v <= |p|
    ensures v <= OneTrip(p, s, v).v
    ensures var trip := OneTrip(p, s, v);
            var c := Column(p[s..trip.s], p[v..trip.v]);
            WellFormed(c) && ColumnValue(c) == trip.value
  {
    hide Interpret, TypeLength, ToInt32, Decode, DecodeHead, FormatLength, FormatValue;
    var head := Decode(p, s);
    var t := ToInt32(head.value);
    SliceInside(p, v, TypeLength(t));
    var body := p[v..v + TypeLength(t)];
    ColumnOfBytes(p, s, body);
    TypesAreFormat(t, body);
  }

  lemma {:induction false} AcceptedTiles(p: Data, end: nat, s: nat, v: nat) returns (cols: seq<Column>)
    requires end <= |p| && Columns(p, end, s, v).Accepted?
    ensures s <= end && v <= |p| && AllWellFormed(cols)
    ensures p[s..end] == Codes(cols) && p[v..] == Bodies(cols)
    ensures Columns(p, end, s, v) == Accepted(Values(cols))
    decreases |p| - s
  {
    hide OneTrip, WellFormed, ColumnValue;
    AcceptedEnds(p, end, s, v);
    if v >= |p| && s >= end {
      cols := [];
    } else {
      hide Codes, Bodies, Values;
      var trip := OneTrip(p, s, v);
      AcceptedEnds(p, end, trip.s, trip.v);
      var rest := AcceptedTiles(p, end, trip.s, trip.v);
      var c := Column(p[s..trip.s], p[v..trip.v]);
      TripIsColumn(p, s, v);
      cols := [c] + rest;
      OneColumnMore(c, rest);
      assert p[s..end] == p[s..trip.s] + p[trip.s..end];
      assert p[v..] == p[v..trip.v] + p[trip.v..];
    }
  }

  lemma {:induction false} OneColumnMore(c: Column, rest: seq<Column>)
    ensures Codes([c] + rest) == c.code + Codes(rest) && Bodies([c] + rest) == c.body + Bodies(rest)
    ensures Values([c] + rest) == [ColumnValue(c)] + Values(rest)
  {
    hide ColumnValue;
    assert ([c] + rest)[1..] == rest;
  }

  /** A varint cut out of the payload reads the same alone. */
  lemma {:induction false} ColumnOfBytes(p: Data, s: nat, body: Data)
    requires Decode(p, s).Varint?
    ensures s + Decode(p, s).length <= |p|
    ensures DecodeHead(p[s..s + Decode(p, s).length]) == Decode(p, s)
    ensures TypeOf(Column(p[s..s + Decode(p, s).length], body)) == ToInt32(Decode(p, s).value)
  {
    hide DecodeHead, ToInt32;
    var n := Decode(p, s).length;
    assert p[s..][..n] == p[s..s + n];
    DecodeIsLocal(p[s..], p[s..s + n], n);
  }

  /** Where a well-formed column lies, a trip takes it. */
  lemma {:induction false} ColumnIsTrip(p: Data, s: nat, v: nat, c: Column)
    requires WellFormed(c)
    requires s + |c.code| <= |p| && p[s..s + |c.code|] == c.code
    requires v + |c.body| <= |p| && p[v..v + |c.body|] == c.body
    ensures OneTrip(p, s, v) == Go(ColumnValue(c), s + |c.code|, v + |c.body|)
  {
    hide Interpret, TypeLength, ToInt32, DecodeHead, FormatLength, FormatValue;
    assert p[s..][..|c.code|] == c.code;
    DecodeIsLocal(c.code, p[s..], |c.code|);
    SliceInside(p, v, |c.body|);
    TypesAreFormat(TypeOf(c), c.body);
  }

  lemma {:induction false} TilesAccepted(p: Data, end: nat, s: nat, v: nat, cols: seq<Column>)
    requires AllWellFormed(cols)
    requires s <= end <= |p| && v <= |p|
    requires p[s..end] == Codes(cols) && p[v..] == Bodies(cols)
    ensures Columns(p, end, s, v) == Accepted(Values(cols))
    decreases |cols|
  {
    hide OneTrip, WellFormed, ColumnValue;
    if cols != [] {
      var c := cols[0];
      var s': nat := s + |c.code|;
      var v': nat := v + |c.body|;
      assert p[s..s'] == p[s..end][..|c.code|] == c.code;
      assert p[v..v'] == p[v..][..|c.body|] == c.body;
      ColumnIsTrip(p, s, v, c);
      assert p[s'..end] == p[s..end][|c.code|..] == Codes(cols[1..]);
      assert p[v'..] == p[v..][|c.body|..] == Bodies(cols[1..]);
      TilesAccepted(p, end, s', v', cols[1..]);
    }
  }

  /** Acceptance is exact: the loop returns values precisely for the byte strings that are records of those values. */
  lemma {:induction false} AcceptanceIsExact(p: Data, values: seq<Value>)
    ensures ParseRecord(p) == Accepted(values) <==>
            exists size: Data, cols: seq<Column> :: Tiles(p, size, cols) && values == Values(cols)
  {
    if ParseRecord(p) == Accepted(values) {
      var size, cols := AcceptedIsRecord(p);
      assert Tiles(p, size, cols) && values == Values(cols);
    }
    forall size: Data, cols: seq<Column> | Tiles(p, size, cols) && values == Values(cols)
      ensures ParseRecord(p) == Accepted(values)
    {
      RecordIsAccepted(p, size, cols);
    }
  }

  lemma {:induction false} AcceptedIsRecord(p: Data) returns (size: Data, cols: seq<Column>)
    requires ParseRecord(p).Accepted?
    ensures Tiles(p, size, cols) && ParseRecord(p).values == Values(cols)
  {
    hide Columns, DecodeHead, ToInt32, AllWellFormed;
    var head := Decode(p, 0);
    var end := ToInt32(head.value);
    AcceptedEnds(p, end, head.length, end);
    cols := AcceptedTiles(p, end, head.length, end);
    size := p[0..head.length];
    ColumnOfBytes(p, 0, []);
    assert p[0..] == p;
    assert p == size + p[head.length..end] + p[end..];
  }

  lemma {:induction false} RecordIsAccepted(p: Data, size: Data, cols: seq<Column>)
    requires Tiles(p, size, cols)
    ensures ParseRecord(p) == Accepted(Values(cols))
  {
    hide Columns, DecodeHead, ToInt32, AllWellFormed, Values;
    var n := |size|;
    var end := n + |Codes(cols)|;
    assert p[0..] == p && p[..n] == size;
    DecodeIsLocal(size, p, n);
    assert p[n..end] == Codes(cols) && p[end..] == Bodies(cols);
    TilesAccepted(p, end, n, end, cols);
  }

  /** A record has one reading only. */
  lemma {:induction false} ReadingIsUnique(p: Data, size1: Data, cols1: seq<Column>, size2: Data, cols2: seq<Column>)
    requires Tiles(p, size1, cols1) && Tiles(p, size2, cols2)
    ensures Values(cols1) == Values(cols2)
  {
    RecordIsAccepted(p, size1, cols1);
    RecordIsAccepted(p, size2, cols2);
  }

  // ----- how a record fails

  /** Where the loop is after some trips, if it gets that far. */
  datatype Place = Place(s: nat, v: int)

  function PlaceAfter(p: Data, end: int, at: Place, trips: nat): Option<Place>
    decreases trips
  {
    if trips == 0 then Some(at)
    else if (at.v >= |p| && at.s >= end) || OneTrip(p, at.s, at.v).Stop? then None
    else PlaceAfter(p, end, Place(OneTrip(p, at.s, at.v).s, OneTrip(p, at.s, at.v).v), trips - 1)
  }

  /** The loop cannot go on: both offsets are at or past their ends, but not both at them; or the serial type has no end,
      or is reserved; or type or value lie outside of the payload. */
  predicate FailsThere(p: Data, end: int, at: Place, code: Code) {
    if at.v >= |p| && at.s >= end then code == Damaged && !(at.v == |p| && at.s == end)
    else
      var head := Decode(p, at.s);
      if head.NoVarint? then code == head.code
      else
        var t := ToInt32(head.value);
        var n: nat := if t < 0 then 0 else FormatLength(t);
        if n > 0 && !(0 <= at.v && at.v + n <= |p|) then code == Outside else (t == 10 || t == 11) && code == Damaged
  }

  lemma {:induction false} StopIsExact(p: Data, end: int, at: Place, code: Code)
    requires !(at.v >= |p| && at.s >= end)
    ensures OneTrip(p, at.s, at.v) == Stop(code) <==> FailsThere(p, end, at, code)
  {
    hide Decode, Interpret, TypeLength, FormatLength, ToInt32, FormatValue;
    var head := Decode(p, at.s);
    if head.Varint? {
      var t := ToInt32(head.value);
      TypesAreFormat(t, []);
      var body := Slice(p, at.v, TypeLength(t));
      if body.Some? {
        TypesAreFormat(t, body.value);
      }
    }
  }

  /** Exact for every payload and every code: the loop fails where it cannot go on, with the code for that. */
  lemma {:induction false} FailureIsExact(p: Data, end: int, at: Place, code: Code)
    ensures Columns(p, end, at.s, at.v) == Failed(code) <==> FailsFrom(p, end, at, code)
    decreases |p| - at.s
  {
    hide OneTrip, FailsThere;
    if at.v >= |p| && at.s >= end {
      EndFails(p, end, at, code);
    } else {
      StopIsExact(p, end, at, code);
      var trip := OneTrip(p, at.s, at.v);
      if trip.Go? {
        FailureIsExact(p, end, Place(trip.s, trip.v), code);
        OneTripOn(p, end, at, code);
      } else {
        StopFails(p, end, at, code);
      }
    }
  }

  ghost predicate FailsAfter(p: Data, end: int, at: Place, code: Code, trips: nat) {
    PlaceAfter(p, end, at, trips).Some? && FailsThere(p, end, PlaceAfter(p, end, at, trips).value, code)
  }

  ghost predicate FailsFrom(p: Data, end: int, at: Place, code: Code) {
    exists trips: nat :: FailsAfter(p, end, at, code, trips)
  }

  lemma {:induction false} EndFails(p: Data, end: int, at: Place, code: Code)
    requires at.v >= |p| && at.s >= end
    ensures FailsFrom(p, end, at, code) <==> code == Damaged && !(at.v == |p| && at.s == end)
  {
    assert FailsAfter(p, end, at, code, 0) <==> FailsThere(p, end, at, code);
    forall trips: nat ensures FailsAfter(p, end, at, code, trips) ==> trips == 0 {
    }
  }

  lemma {:induction false} StopFails(p: Data, end: int, at: Place, code: Code)
    requires !(at.v >= |p| && at.s >= end) && OneTrip(p, at.s, at.v).Stop?
    ensures FailsFrom(p, end, at, code) <==> FailsThere(p, end, at, code)
  {
    hide OneTrip, FailsThere;
    assert FailsAfter(p, end, at, code, 0) <==> FailsThere(p, end, at, code);
    forall trips: nat ensures FailsAfter(p, end, at, code, trips) ==> trips == 0 {
    }
  }

  lemma {:induction false} OneTripOn(p: Data, end: int, at: Place, code: Code)
    requires !(at.v >= |p| && at.s >= end) && OneTrip(p, at.s, at.v).Go?
    ensures FailsFrom(p, end, at, code)
            <==> FailsFrom(p, end, Place(OneTrip(p, at.s, at.v).s, OneTrip(p, at.s, at.v).v), code)
  {
    hide OneTrip, FailsThere;
    StopIsExact(p, end, at, code);
    var next := Place(OneTrip(p, at.s, at.v).s, OneTrip(p, at.s, at.v).v);
    assert !FailsAfter(p, end, at, code, 0);
    if trips: nat :| FailsAfter(p, end, at, code, trips) {
      assert FailsAfter(p, end, next, code, trips - 1);
    }
    if trips: nat :| FailsAfter(p, end, next, code, trips) {
      assert FailsAfter(p, end, at, code, trips + 1);
    }
  }

  // ----- writing a record

  /** A value and the serial type it is stored with. */
  datatype Stored = Stored(t: nat, value: Value)

  /** The serial type table of section 2.1, as a condition on what a writer may choose. */
  predicate MayStore(f: Stored) {
    match f.value
    case Null => f.t == 0
    case Integer(i) =>
      (1 <= f.t <= 6 && FitsBytes(i, FormatLength(f.t))) || (f.t == 8 && i == 0) || (f.t == 9 && i == 1)
    case Real(raw) => f.t == 7 && |raw| == 8
    case Blob(b) => f.t == 12 + 2 * |b|
    case Text(s) => f.t == 13 + 2 * |s|
    case Unset => false
  }

  function BodyOf(f: Stored): Data {
    match f.value
    case Null => []
    case Integer(i) => if f.t <= 6 then EncodeInt(i, FormatLength(f.t)) else []
    case Real(raw) => raw
    case Blob(b) => b
    case Text(s) => s
    case Unset => []
  }

  function ColumnsOf(fields: seq<Stored>): (cols: seq<Column>)
    ensures |cols| == |fields|
  {
    if fields == [] then [] else [Column(Encode(fields[0].t), BodyOf(fields[0]))] + ColumnsOf(fields[1..])
  }

  function StoredValues(fields: seq<Stored>): seq<Value> {
    if fields == [] then [] else [fields[0].value] + StoredValues(fields[1..])
  }

  /** The header size counts itself. */
  function HeaderSize(n: nat): nat {
    if n + 1 < 0x80 then n + 1 else if n + 2 < 0x4000 then n + 2 else if n + 3 < 0x20_0000 then n + 3 else n + 4
  }

  function WriteRecord(fields: seq<Stored>): Data {
    var cols := ColumnsOf(fields);
    Encode(HeaderSize(|Codes(cols)|)) + Codes(cols) + Bodies(cols)
  }

  const MAX_PAYLOAD: nat := 64 * 1024 * 1024

  lemma {:induction false} EncodeLength(v: nat)
    requires v < 0x1000_0000
    ensures |Encode(v)| == if v < 0x80 then 1 else if v < 0x4000 then 2 else if v < 0x20_0000 then 3 else 4
  {
    HighLength(v / 128);
  }

  lemma {:induction false} HighLength(v: nat)
    requires v < 0x20_0000
    ensures |High(v)| == if v == 0 then 0 else if v < 0x80 then 1 else if v < 0x4000 then 2 else 3
  {
    if v > 0 {
      HighLength(v / 128);
    }
  }

  /** The header size is the fixed point it has to be. */
  lemma {:induction false} HeaderSizeIsFixed(n: nat)
    requires n <= MAX_PAYLOAD
    ensures HeaderSize(n) == |Encode(HeaderSize(n))| + n && HeaderSize(n) < 0x1000_0000
  {
    EncodeLength(HeaderSize(n));
  }

  lemma {:induction false} EncodeReads(v: nat)
    requires v < 0x8000_0000
    ensures DecodeHead(Encode(v)) == Varint(v, |Encode(v)|) && ToInt32(v) == v
  {
    Power128();
    VarintRoundTrip(v, []);
    assert Encode(v) + [] == Encode(v);
  }

  lemma {:induction false} FieldIsColumn(f: Stored)
    requires MayStore(f) && f.t < 0x8000_0000
    ensures WellFormed(Column(Encode(f.t), BodyOf(f)))
    ensures ColumnValue(Column(Encode(f.t), BodyOf(f))) == f.value
  {
    hide DecodeHead, ToInt32, Encode;
    EncodeReads(f.t);
    assert TypeOf(Column(Encode(f.t), BodyOf(f))) == f.t;
    StoredIsRead(f);
  }

  lemma {:induction false} StoredIsRead(f: Stored)
    requires MayStore(f)
    ensures |BodyOf(f)| == FormatLength(f.t) && FormatValue(f.t, BodyOf(f)) == f.value
    ensures f.t != 10 && f.t != 11
  {
    hide EncodeInt, FitsBytes, Signed, ParseInt64;
    if f.value.Integer? && f.t <= 6 {
      IntRoundTrip(f.value.i, FormatLength(f.t));
      IntIsBigEndian(BodyOf(f));
    }
  }

  lemma {:induction false} BodiesBound(fields: seq<Stored>, limit: nat)
    requires forall i :: 0 <= i < |fields| ==> MayStore(fields[i])
    requires |Bodies(ColumnsOf(fields))| <= limit
    ensures forall i :: 0 <= i < |fields| ==> fields[i].t <= 13 + 2 * limit
  {
    if fields != [] {
      assert ColumnsOf(fields)[1..] == ColumnsOf(fields[1..]);
      BodiesBound(fields[1..], limit);
      forall i | 0 <= i < |fields| ensures fields[i].t <= 13 + 2 * limit {
        if i > 0 {
          assert fields[i] == fields[1..][i - 1];
        }
      }
    }
  }

  lemma {:induction false} FieldsAreColumns(fields: seq<Stored>)
    requires forall i :: 0 <= i < |fields| ==> MayStore(fields[i]) && fields[i].t < 0x8000_0000
    ensures AllWellFormed(ColumnsOf(fields)) && Values(ColumnsOf(fields)) == StoredValues(fields)
  {
    hide MayStore, WellFormed, ColumnValue, BodyOf;
    if fields != [] {
      var cols := ColumnsOf(fields);
      FieldIsColumn(fields[0]);
      assert cols[1..] == ColumnsOf(fields[1..]);
      FieldsAreColumns(fields[1..]);
      forall i | 0 <= i < |cols| ensures WellFormed(cols[i]) {
        if i > 0 {
          assert cols[i] == cols[1..][i - 1];
        }
      }
    }
  }

  /** Round trip: a record written by section 2.1, with any storage class that holds each value, reads back as those
      values. */
  lemma {:induction false} RecordRoundTrip(fields: seq<Stored>)
    requires forall i :: 0 <= i < |fields| ==> MayStore(fields[i])
    requires |WriteRecord(fields)| <= MAX_PAYLOAD
    ensures ParseRecord(WriteRecord(fields)) == Accepted(StoredValues(fields))
  {
    var cols := ColumnsOf(fields);
    var n := |Codes(cols)|;
    var size := Encode(HeaderSize(n));
    BodiesBound(fields, MAX_PAYLOAD);
    FieldsAreColumns(fields);
    HeaderSizeIsFixed(n);
    EncodeReads(HeaderSize(n));
    assert Tiles(WriteRecord(fields), size, cols);
    RecordIsAccepted(WriteRecord(fields), size, cols);
  }
}
