/** The backup of sqlite_master (sqliterk_save_master and sqliterk_load_master in sqliterk_output.cpp): which rows are
    kept, their layout, and reading them back. The compressed and encrypted stream is modelled as its plain bytes. */
module RepairMaster {
  import opened Options
  import opened Bytes
  import opened RepairBytes

  /** A row of sqlite_master; None is NULL. The texts come with their lengths and may hold NUL bytes. */
  datatype SchemaRow = SchemaRow(
    kind: Option<Data>, name: Option<Data>, tblName: Option<Data>, root: int, sql: Option<Data>)

  datatype Kind = Unknown | TableKind | IndexKind

  datatype Entity = Entity(kind: Kind, sql: Data, root: int)

  /** `stream`: what follows the header. */
  datatype MasterFile = MasterFile(magic: Data, version: int, entities: nat, stream: Data)

  const MAGIC: Data := [0, 100, 66, 109, 83, 116]
  const NO_MAGIC: Data := [0, 0, 0, 0, 0, 0]
  const VERSION := 1
  const TABLE_TEXT: Data := [116, 97, 98, 108, 101]
  const INDEX_TEXT: Data := [105, 110, 100, 101, 120]
  const SYSTEM_PREFIX: Data := [115, 113, 108, 105, 116, 101, 95]

  /** A C string: the bytes before the first NUL. */
  function CString(s: Data): Data {
    if s == [] || s[0] == 0 then [] else [s[0]] + CString(s[1..])
  }

  function KindOf(kind: Data): Kind {
    if CString(kind) == TABLE_TEXT then TableKind else if CString(kind) == INDEX_TEXT then IndexKind else Unknown
  }

  /** Rows worth saving: complete, of a known kind and not of the system's own. */
  predicate Kept(row: SchemaRow) {
    row.kind.Some? && row.name.Some? && row.tblName.Some? && row.sql.Some?
    && !(SYSTEM_PREFIX <= row.name.value) && KindOf(row.kind.value) != Unknown
  }

  predicate TooLong(row: SchemaRow)
    requires Kept(row)
  {
    |row.name.value| > 255 || |row.tblName.value| > 255 || |row.sql.value| > 65535
  }

  /** Header and names are put together in a buffer of 520 bytes. */
  const IN_BUF: nat := 512 + 8

  /** The two copies into the buffer, by offset and length, and the fields before them. */
  function Writes(row: SchemaRow): seq<(nat, nat)>
    requires Kept(row)
  {
    var name, tbl := |row.name.value|, |row.tblName.value|;
    [(0, ENTITY_HEADER), (ENTITY_HEADER, name + 1), (ENTITY_HEADER + name + 1, tbl + 1)]
  }

  predicate StaysInside(row: SchemaRow)
    requires Kept(row)
  {
    forall i :: 0 <= i < |Writes(row)| ==> Writes(row)[i].0 + Writes(row)[i].1 <= IN_BUF
  }

  /** The length test lets through rows that do not fit: every write stays inside the buffer if and only if the two
      names have at most 508 bytes together. */
  lemma {:induction false} InsideExactly(row: SchemaRow)
    requires Kept(row)
    ensures StaysInside(row) <==> |row.name.value| + |row.tblName.value| <= 508
  {
    var w := Writes(row);
    assert w[2].0 + w[2].1 == ENTITY_HEADER + |row.name.value| + |row.tblName.value| + 2;
  }

  // ----- layout of an entity

  /** Least significant byte first. */
  function LittleEndian(v: nat, n: nat): (s: Data)
    ensures |s| == n
  {
    if n == 0 then [] else [v % 256] + LittleEndian(v / 256, n - 1)
  }

  function FromLittleEndian(s: Data): (v: int)
    ensures v >= 0
  {
    if s == [] then 0 else s[0] + 256 * FromLittleEndian(s[1..])
  }

  function KindByte(k: Kind): Byte {
    match k
    case Unknown => 0
    case TableKind => 1
    case IndexKind => 2
  }

  function KindFrom(b: Byte): Kind {
    if b == 1 then TableKind else if b == 2 then IndexKind else Unknown
  }

  const ENTITY_HEADER: nat := 10

  function EntityHeader(row: SchemaRow): (s: Data)
    requires Kept(row) && !TooLong(row)
    ensures |s| == ENTITY_HEADER
  {
    LittleEndian(row.root % 0x1_0000_0000, 4)
    + [KindByte(KindOf(row.kind.value)), |row.name.value|, |row.tblName.value|, 0]
    + LittleEndian(|row.sql.value|, 2)
  }

  function EntityTexts(row: SchemaRow): Data
    requires Kept(row)
  {
    (row.name.value + [0]) + (row.tblName.value + [0]) + (row.sql.value + [0])
  }

  // ----- saving

  /** `Overrun`: a write past the end of the buffer, where the C program has no defined behaviour. */
  datatype Saved = Saved(stream: Data, entities: nat) | Bail | Overrun

  /** The row loop of sqliterk_save_master. */
  function SaveRows(rows: seq<SchemaRow>): Saved {
    if rows == [] then Saved([], 0)
    else if !Kept(rows[0]) then SaveRows(rows[1..])
    else if TooLong(rows[0]) then Bail
    else if !StaysInside(rows[0]) then Overrun
    else Prefixed(EntityHeader(rows[0]) + EntityTexts(rows[0]), 1, SaveRows(rows[1..]))
  }

  function Prefixed(stream: Data, entities: nat, rest: Saved): Saved {
    if rest.Saved? then Saved(stream + rest.stream, entities + rest.entities) else rest
  }

  /** The header and the two names of an entity. */
  method FillBuffer(inBuf: array<Byte>, row: SchemaRow) returns (length: nat)
    requires Kept(row) && !TooLong(row) && StaysInside(row) && inBuf.Length == IN_BUF
    modifies inBuf
    ensures length <= IN_BUF
    ensures inBuf[..length] == EntityHeader(row) + (row.name.value + [0]) + (row.tblName.value + [0])
  {
    hide EntityHeader, LittleEndian, StaysInside, CString;
    InsideExactly(row);
    var header, name, tbl := EntityHeader(row), row.name.value + [0], row.tblName.value + [0];
    CopyIn(inBuf, 0, header);
    assert inBuf[..|header|] == inBuf[0..|header|] == header;
    CopyIn(inBuf, |header|, name);
    var mid: nat := |header| + |name|;
    assert inBuf[..mid] == inBuf[..|header|] + inBuf[|header|..mid];
    CopyIn(inBuf, mid, tbl);
    length := mid + |tbl|;
    assert inBuf[..length] == inBuf[..mid] + inBuf[mid..length];
  }

  /** sqliterk_save_master: the real header replaces a cleared one only at the end. After an overrun nothing is said
      about the file. */
  method SaveMaster(rows: seq<SchemaRow>) returns (result: Saved, file: MasterFile)
    ensures result == SaveRows(rows)
    ensures result.Saved? ==> file == MasterFile(MAGIC, VERSION, result.entities, result.stream)
    ensures result.Bail? ==> file.magic == NO_MAGIC && forall tables :: LoadFile(file, tables) == Damage
  {
    hide EntityHeader, EntityTexts, Kept, StaysInside, TooLong, LoadEntities;
    var inBuf := new Byte[IN_BUF](_ => 0);
    var stream: Data := [];
    var entities: nat := 0;
    var i := 0;
    assert rows[0..] == rows;
    NothingPrefixed(SaveRows(rows));
    while i < |rows|
      invariant 0 <= i <= |rows|
      invariant SaveRows(rows) == Prefixed(stream, entities, SaveRows(rows[i..]))
    {
      var row := rows[i];
      assert rows[i..][0] == row && rows[i..][1..] == rows[i + 1..];
      if Kept(row) {
        if TooLong(row) {
          file := MasterFile(NO_MAGIC, 0, 0, stream);
          ClearedIsRefused(file);
          return Bail, file;
        }
        if !StaysInside(row) {
          return Overrun, MasterFile(NO_MAGIC, 0, 0, stream);
        }
        stream, entities := SaveOne(inBuf, row, stream, entities, SaveRows(rows[i + 1..]));
      }
      i := i + 1;
    }
    assert rows[i..] == [];
    assert stream + [] == stream;
    return Saved(stream, entities), MasterFile(MAGIC, VERSION, entities, stream);
  }

  /** A cleared header is not taken for a real one. */
  lemma {:induction false} ClearedIsRefused(file: MasterFile)
    requires file.magic == NO_MAGIC
    ensures forall tables :: LoadFile(file, tables) == Damage
  {
    assert file.magic[1] != MAGIC[1];
  }

  /** One entity, of which the SQL text goes to the stream without passing through the buffer. */
  method SaveOne(inBuf: array<Byte>, row: SchemaRow, stream: Data, entities: nat, ghost rest: Saved)
    returns (more: Data, count: nat)
    requires Kept(row) && !TooLong(row) && StaysInside(row) && inBuf.Length == IN_BUF
    modifies inBuf
    ensures Prefixed(more, count, rest) == Prefixed(stream, entities, Prefixed(EntityHeader(row) + EntityTexts(row), 1, rest))
  {
    hide EntityHeader, StaysInside, TooLong, CString;
    var length := FillBuffer(inBuf, row);
    var sql := row.sql.value + [0];
    more := stream + inBuf[..length] + sql;
    count := entities + 1;
    var name, tbl := row.name.value + [0], row.tblName.value + [0];
    assert inBuf[..length] + sql == EntityHeader(row) + (name + tbl + sql);
    MorePrefixed(stream, entities, inBuf[..length] + sql, rest);
    assert more == stream + (inBuf[..length] + sql);
  }

  lemma {:induction false} NothingPrefixed(rest: Saved)
    ensures Prefixed([], 0, rest) == rest
  {
    if rest.Saved? {
      assert [] + rest.stream == rest.stream;
    }
  }

  lemma {:induction false} MorePrefixed(stream: Data, entities: nat, entity: Data, rest: Saved)
    ensures Prefixed(stream, entities, Prefixed(entity, 1, rest)) == Prefixed(stream + entity, entities + 1, rest)
  {
    if rest.Saved? {
      assert stream + (entity + rest.stream) == stream + entity + rest.stream;
    }
  }

  // ----- loading

  type Master = map<Data, Entity>

  datatype Loaded = Loaded(master: Master) | Damage

  /** Read by its parts; None when the stream ends or a terminator is missing. */
  datatype Parsed = Parsed(name: Data, tblName: Data, entity: Entity, length: nat) | Unreadable

  function ParseEntity(s: Data): (p: Parsed)
    ensures p.Parsed? ==> 0 < p.length <= |s|
  {
    if |s| < ENTITY_HEADER then Unreadable
    else
      var nameLen, tblLen, sqlLen := s[5] as int, s[6] as int, FromLittleEndian(s[8..10]);
      var end := ENTITY_HEADER + nameLen + tblLen + sqlLen + 3;
      if |s| < end then Unreadable
      else
        var name := s[ENTITY_HEADER..ENTITY_HEADER + nameLen + 1];
        var tbl := s[ENTITY_HEADER + nameLen + 1..ENTITY_HEADER + nameLen + tblLen + 2];
        var sql := s[ENTITY_HEADER + nameLen + tblLen + 2..end];
        if name[nameLen] != 0 || tbl[tblLen] != 0 || sql[sqlLen] != 0 then Unreadable
        else
          Parsed(CString(name), CString(tbl),
                 Entity(KindFrom(s[4]), CString(sql), ToInt32(FromLittleEndian(s[..4]))), end)
  }

  /** An empty filter lets every table pass. */
  predicate Wanted(tables: seq<Data>, tblName: Data) {
    tables == [] || tblName in tables
  }

  function LoadEntities(s: Data, entities: nat, tables: seq<Data>, master: Master): Loaded
    decreases entities
  {
    if entities == 0 then Loaded(master)
    else
      var p := ParseEntity(s);
      if p.Unreadable? then Damage
      else LoadEntities(s[p.length..], entities - 1, tables, if Wanted(tables, p.tblName) then master[p.name := p.entity] else master)
  }

  /** sqliterk_make_master: the tables asked for, of unknown kind. */
  function Asked(tables: seq<Data>): Master {
    map t | t in tables :: Entity(Unknown, [], 0)
  }

  function LoadFile(file: MasterFile, tables: seq<Data>): Loaded {
    if file.magic != MAGIC || file.version != VERSION then Damage
    else LoadEntities(file.stream, file.entities, tables, Asked(tables))
  }

  /** sqliterk_load_master */
  method LoadMaster(file: MasterFile, tables: seq<Data>) returns (r: Loaded)
    ensures r == LoadFile(file, tables)
  {
    hide ParseEntity;
    var master := Asked(tables);
    if file.magic != MAGIC || file.version != VERSION {
      return Damage;
    }
    var stream := file.stream;
    var entities := file.entities;
    while entities > 0
      invariant LoadFile(file, tables) == LoadEntities(stream, entities, tables, master)
    {
      var p := ParseEntity(stream);
      if p.Unreadable? {
        return Damage;
      }
      if Wanted(tables, p.tblName) {
        master := master[p.name := p.entity];
      }
      stream := stream[p.length..];
      entities := entities - 1;
    }
    return Loaded(master);
  }

  /** What is left of the stream after some entries that can be read. */
  function RestAfter(s: Data, n: nat): Option<Data>
    decreases n
  {
    if n == 0 then Some(s)
    else if ParseEntity(s).Unreadable? then None
    else RestAfter(s[ParseEntity(s).length..], n - 1)
  }

  ghost predicate Breaks(s: Data, entities: nat, i: nat) {
    i < entities && RestAfter(s, i).Some? && ParseEntity(RestAfter(s, i).value).Unreadable?
  }

  /** One entry that cannot be read, among those the header counts, spoils the whole file. */
  lemma {:induction false} SpoiltExactly(s: Data, entities: nat, tables: seq<Data>, master: Master)
    ensures LoadEntities(s, entities, tables, master) == Damage <==> exists i :: Breaks(s, entities, i)
    decreases entities
  {
    hide ParseEntity;
    if entities > 0 {
      if ParseEntity(s).Unreadable? {
        assert Breaks(s, entities, 0);
      } else {
        var p := ParseEntity(s);
        var rest, left: nat := s[p.length..], entities - 1;
        SpoiltExactly(rest, left, tables, if Wanted(tables, p.tblName) then master[p.name := p.entity] else master);
        if i: nat :| Breaks(s, entities, i) {
          assert Breaks(rest, left, i - 1);
        }
        if i: nat :| Breaks(rest, left, i) {
          assert Breaks(s, entities, i + 1);
        }
      }
    }
  }

  // ----- round trip

  function EntityOf(row: SchemaRow): Entity
    requires Kept(row)
  {
    Entity(KindOf(row.kind.value), CString(row.sql.value), row.root)
  }

  lemma {:induction false} CStringEnds(s: Data, after: Data)
    ensures CString(s + [0] + after) == CString(s)
    decreases |s|
  {
    if s == [] {
      assert (s + [0] + after)[0] == 0;
    } else {
      CStringEnds(s[1..], after);
      assert (s + [0] + after)[1..] == s[1..] + [0] + after;
    }
  }

  lemma {:induction false} LittleEndianRoundTrip(v: nat, n: nat)
    requires v < Power(256, n)
    ensures FromLittleEndian(LittleEndian(v, n)) == v
    decreases n
  {
    if n > 0 {
      LittleEndianRoundTrip(v / 256, n - 1);
      assert LittleEndian(v, n)[1..] == LittleEndian(v / 256, n - 1);
    }
  }

  lemma {:induction false} RootRoundTrip(root: int)
    requires -0x8000_0000 <= root < 0x8000_0000
    ensures ToInt32(FromLittleEndian(LittleEndian(root % 0x1_0000_0000, 4))) == root
  {
    Power256();
    LittleEndianRoundTrip(root % 0x1_0000_0000, 4);
  }

  /** Where the texts of an entity lie. */
  lemma {:induction false} TextsLie(h: Data, a: Data, b: Data, c: Data, after: Data)
    ensures var s := h + ((a + [0]) + (b + [0]) + (c + [0])) + after;
            var i, j, k := |h| + |a| + 1, |h| + |a| + |b| + 2, |h| + |a| + |b| + |c| + 3;
            s[|h|..i] == a + [0] && s[i..j] == b + [0] && s[j..k] == c + [0] && s[k..] == after && s[..|h|] == h
  {
    var x, y, z := a + [0], b + [0], c + [0];
    var s := h + (x + y + z) + after;
    assert s == h + x + y + z + after;
    assert h + x + y + z + after == h + x + (y + z + after);
  }

  lemma {:induction false} HeaderFields(row: SchemaRow)
    requires Kept(row) && !TooLong(row)
    requires -0x8000_0000 <= row.root < 0x8000_0000
    ensures var h := EntityHeader(row);
            h[5] == |row.name.value| && h[6] == |row.tblName.value| && KindFrom(h[4]) == KindOf(row.kind.value)
            && FromLittleEndian(h[8..10]) == |row.sql.value| && ToInt32(FromLittleEndian(h[..4])) == row.root
  {
    hide FromLittleEndian, LittleEndian, ToInt32, KindOf;
    var h := EntityHeader(row);
    RootRoundTrip(row.root);
    Power256();
    LittleEndianRoundTrip(|row.sql.value|, 2);
    assert h[..4] == LittleEndian(row.root % 0x1_0000_0000, 4);
    assert h[8..10] == LittleEndian(|row.sql.value|, 2);
  }

  lemma {:induction false} EntityRoundTrip(row: SchemaRow, after: Data)
    requires Kept(row) && !TooLong(row)
    requires -0x8000_0000 <= row.root < 0x8000_0000
    ensures var s := EntityHeader(row) + EntityTexts(row) + after;
            ParseEntity(s) == Parsed(CString(row.name.value), CString(row.tblName.value), EntityOf(row),
                                     |EntityHeader(row) + EntityTexts(row)|)
            && s[|EntityHeader(row) + EntityTexts(row)|..] == after
  {
    hide FromLittleEndian, LittleEndian, ToInt32, KindOf, EntityHeader, CString, KindFrom;
    var h := EntityHeader(row);
    var a, b, c := row.name.value, row.tblName.value, row.sql.value;
    var s := h + EntityTexts(row) + after;
    HeaderFields(row);
    TextsLie(h, a, b, c, after);
    assert s[5] == h[5] && s[6] == h[6] && s[4] == h[4];
    assert s[8..10] == s[..10][8..10] == h[8..10];
    assert s[..4] == s[..10][..4] == h[..4];
    Terminated(a);
    Terminated(b);
    Terminated(c);
  }

  lemma {:induction false} Terminated(s: Data)
    ensures CString(s + [0]) == CString(s) && (s + [0])[|s|] == 0
  {
    CStringEnds(s, []);
    assert s + [0] + [] == s + [0];
  }

  /** The row is recorded under its name, if its table was asked for. */
  function RecordOne(row: SchemaRow, tables: seq<Data>, master: Master): Master {
    if Kept(row) && Wanted(tables, CString(row.tblName.value)) then master[CString(row.name.value) := EntityOf(row)]
    else master
  }

  /** The kept rows on tables asked for, under their names; a later row of the same name replaces an earlier one. */
  function Recorded(rows: seq<SchemaRow>, tables: seq<Data>, master: Master): Master
    decreases |rows|
  {
    if rows == [] then master else Recorded(rows[1..], tables, RecordOne(rows[0], tables, master))
  }

  lemma {:induction false} OneIsLoaded(row: SchemaRow, after: Data, entities: nat, tables: seq<Data>, master: Master)
    requires Kept(row) && !TooLong(row) && -0x8000_0000 <= row.root < 0x8000_0000
    ensures LoadEntities(EntityHeader(row) + EntityTexts(row) + after, entities + 1, tables, master)
         == LoadEntities(after, entities, tables, RecordOne(row, tables, master))
  {
    hide ParseEntity, EntityHeader, EntityTexts, EntityOf, CString, Wanted, Kept, TooLong;
    EntityRoundTrip(row, after);
  }

  /** Round trip: what was saved is what is loaded, for any rows, any filter and any previous content. */
  lemma {:induction false} RowsRoundTrip(rows: seq<SchemaRow>, tables: seq<Data>, master: Master)
    requires SaveRows(rows).Saved?
    requires forall i :: 0 <= i < |rows| ==> -0x8000_0000 <= rows[i].root < 0x8000_0000
    ensures LoadEntities(SaveRows(rows).stream, SaveRows(rows).entities, tables, master)
         == Loaded(Recorded(rows, tables, master))
    decreases |rows|
  {
    hide EntityHeader, EntityTexts, Kept, TooLong, StaysInside, RecordOne;
    if rows != [] {
      var row, rest := rows[0], rows[1..];
      RowsRoundTrip(rest, tables, RecordOne(row, tables, master));
      if Kept(row) {
        hide LoadEntities;
        OneIsLoaded(row, SaveRows(rest).stream, SaveRows(rest).entities, tables, master);
      } else {
        NotRecorded(row, tables, master);
      }
    }
  }

  lemma {:induction false} NotRecorded(row: SchemaRow, tables: seq<Data>, master: Master)
    requires !Kept(row)
    ensures RecordOne(row, tables, master) == master
  {
  }

  lemma {:induction false} MasterRoundTrip(rows: seq<SchemaRow>, tables: seq<Data>)
    requires SaveRows(rows).Saved?
    requires forall i :: 0 <= i < |rows| ==> -0x8000_0000 <= rows[i].root < 0x8000_0000
    ensures LoadFile(MasterFile(MAGIC, VERSION, SaveRows(rows).entities, SaveRows(rows).stream), tables)
         == Loaded(Recorded(rows, tables, Asked(tables)))
  {
    RowsRoundTrip(rows, tables, Asked(tables));
  }

  /** A row that can be saved, or is passed over. */
  predicate Saves(row: SchemaRow) {
    Kept(row) ==> !TooLong(row) && StaysInside(row)
  }

  /** Saving ends at the first row worth saving that is too long or does not fit the buffer, if there is one. */
  lemma {:induction false} SaveEndsExactly(rows: seq<SchemaRow>, i: nat)
    requires i <= |rows| && forall j :: 0 <= j < i ==> Saves(rows[j])
    ensures i == |rows| ==> SaveRows(rows).Saved?
    ensures i < |rows| && !Saves(rows[i]) ==> SaveRows(rows) == if TooLong(rows[i]) then Bail else Overrun
    decreases |rows|
  {
    hide EntityHeader, EntityTexts, Kept, TooLong, StaysInside;
    if i > 0 {
      forall j | 0 <= j < i - 1 ensures Saves(rows[1..][j]) {
        assert rows[1..][j] == rows[j + 1];
      }
      assert Saves(rows[0]);
      SaveEndsExactly(rows[1..], i - 1);
      assert i < |rows| ==> rows[1..][i - 1] == rows[i];
    }
  }

  /** A table whose name has the 255 bytes that the length test allows, with its own entry. */
  function LongNamed(): SchemaRow {
    var name: Data := seq(255, _ => 97);
    SchemaRow(Some(TABLE_TEXT), Some(name), Some(name), 2, Some([]))
  }

  lemma {:induction false} LongNamesOverrun()
    ensures Kept(LongNamed()) && !TooLong(LongNamed()) && SaveRows([LongNamed()]) == Overrun
  {
    var row := LongNamed();
    assert row.name.value[0] == 97;
    TextOfTable();
    InsideExactly(row);
  }

  lemma {:induction false} TextOfTable()
    ensures CString(TABLE_TEXT) == TABLE_TEXT
  {
    var s := TABLE_TEXT;
    assert s[1..][1..][1..][1..][1..] == [];
    assert CString(s[1..][1..][1..][1..]) == [101];
    assert CString(s[1..][1..][1..]) == [108] + [101];
    assert CString(s[1..][1..]) == [98] + ([108] + [101]);
    assert CString(s[1..]) == [97] + ([98] + ([108] + [101]));
  }

  // ----- the same, read off texts and bytes

  lemma {:induction false} TextsAre()
    ensures TABLE_TEXT == Ascii("table") && INDEX_TEXT == Ascii("index") && SYSTEM_PREFIX == Ascii("sqlite_")
    ensures MAGIC == [0] + Ascii("dBmSt")
  {
  }

  /** A C string ends before the first NUL, or with its buffer. */
  lemma {:induction false} CStringIs(s: Data)
    ensures var n := |CString(s)|; n <= |s| && s[..n] == CString(s) && 0 !in s[..n] && (n < |s| ==> s[n] == 0)
  {
    if s != [] && s[0] != 0 {
      CStringIs(s[1..]);
      var n := |CString(s[1..])|;
      assert s[..n + 1] == [s[0]] + s[1..][..n];
    }
  }

  /** The type of an entry that is kept. */
  predicate IsKind(row: SchemaRow, k: Kind) {
    row.kind.Some?
    && ((k == TableKind && CString(row.kind.value) == Ascii("table"))
        || (k == IndexKind && CString(row.kind.value) == Ascii("index")))
  }

  /** Which rows are saved, and which of them stop the saving. */
  lemma {:induction false} SavesExactly(row: SchemaRow)
    ensures Kept(row) <==>
            && row.name.Some? && row.tblName.Some? && row.sql.Some? && !(Ascii("sqlite_") <= row.name.value)
            && exists k :: IsKind(row, k)
    ensures Kept(row) ==> IsKind(row, KindOf(row.kind.value))
    ensures Saves(row) <==>
            (Kept(row) ==>
               && |row.name.value| <= 255 && |row.tblName.value| <= 255 && |row.sql.value| <= 65535
               && |row.name.value| + |row.tblName.value| <= 508)
  {
    TextsAre();
    hide StaysInside, CString, Ascii;
    if Kept(row) {
      assert IsKind(row, KindOf(row.kind.value));
      InsideExactly(row);
    }
  }

  /** The ten bytes before the texts of an entry. */
  lemma {:induction false} EntityBytes(row: SchemaRow)
    requires Kept(row) && !TooLong(row)
    ensures
      var h, root := EntityHeader(row), row.root % 0x1_0000_0000;
      && |h| == 10
      && h[0] == root % 256 && h[1] == root / 256 % 256 && h[2] == root / 0x1_0000 % 256 && h[3] == root / 0x100_0000
      && h[4] == (if CString(row.kind.value) == Ascii("table") then 1 else 2)
      && h[5] == |row.name.value| && h[6] == |row.tblName.value| && h[7] == 0
      && h[8] as int + 256 * h[9] as int == |row.sql.value|
  {
    TextsAre();
    hide CString, Ascii;
    var h, root := EntityHeader(row), row.root % 0x1_0000_0000;
    FourBytes(root);
    TwoBytes(|row.sql.value|);
    assert h[..4] == LittleEndian(root, 4) && h[8..] == LittleEndian(|row.sql.value|, 2);
    assert h[0] == h[..4][0] && h[1] == h[..4][1] && h[2] == h[..4][2] && h[3] == h[..4][3];
    assert h[8] == h[8..][0] && h[9] == h[8..][1];
  }

  lemma {:induction false} FourBytes(v: nat)
    requires v < 0x1_0000_0000
    ensures LittleEndian(v, 4) == [v % 256, v / 256 % 256, v / 0x1_0000 % 256, v / 0x100_0000]
  {
    assert LittleEndian(v / 0x100_0000, 1) == [v / 0x100_0000] + LittleEndian(0, 0);
    assert v / 256 / 256 == v / 0x1_0000 && v / 0x1_0000 / 256 == v / 0x100_0000;
    assert LittleEndian(v / 0x1_0000, 2) == [v / 0x1_0000 % 256] + LittleEndian(v / 0x100_0000, 1);
    assert LittleEndian(v / 256, 3) == [v / 256 % 256] + LittleEndian(v / 0x1_0000, 2);
  }

  lemma {:induction false} TwoBytes(v: nat)
    requires v < 0x1_0000
    ensures LittleEndian(v, 2) == [v % 256, v / 256]
  {
    assert LittleEndian(v / 256, 1) == [v / 256] + LittleEndian(0, 0);
  }

  /** When the next entry of a file cannot be read: it is cut short, or one of its texts is not terminated. */
  lemma {:induction false} UnreadableExactly(s: Data)
    ensures ParseEntity(s).Unreadable? <==>
            |s| < 10
            || var a, b, c := s[5] as int, s[6] as int, s[8] as int + 256 * s[9] as int;
               |s| < 13 + a + b + c || s[10 + a] != 0 || s[11 + a + b] != 0 || s[12 + a + b + c] != 0
  {
    hide CString, ToInt32;
    if |s| >= 10 {
      assert s[8..10][1..] == [s[9]] && s[8..10][0] == s[8];
      assert FromLittleEndian([s[9]]) == s[9] as int + 256 * FromLittleEndian([]);
      assert FromLittleEndian(s[8..10]) == s[8] as int + 256 * s[9] as int;
    }
  }

  /** The row is saved under this name, and asked for on loading. */
  predicate Records(row: SchemaRow, tables: seq<Data>, name: Data) {
    Kept(row) && CString(row.name.value) == name && (tables == [] || CString(row.tblName.value) in tables)
  }

  predicate NoneRecords(rows: seq<SchemaRow>, tables: seq<Data>, name: Data) {
    forall j :: 0 <= j < |rows| ==> !Records(rows[j], tables, name)
  }

  /** Row `i` is the last of that name. */
  predicate IsLastOf(rows: seq<SchemaRow>, tables: seq<Data>, name: Data, i: nat) {
    i < |rows| && Records(rows[i], tables, name) && NoneRecords(rows[i + 1..], tables, name)
  }

  /** The entry under the name is that of the row. */
  predicate IsEntry(master: Master, name: Data, row: SchemaRow) {
    && name in master && IsKind(row, master[name].kind) && row.sql.Some?
    && master[name].sql == CString(row.sql.value) && master[name].root == row.root
  }

  predicate SameAt(a: Master, b: Master, name: Data) {
    (name in a <==> name in b) && (name in a ==> a[name] == b[name])
  }

  lemma {:induction false} OneRecords(row: SchemaRow, tables: seq<Data>, master: Master, name: Data)
    ensures Records(row, tables, name) ==> IsEntry(RecordOne(row, tables, master), name, row)
    ensures !Records(row, tables, name) ==> SameAt(RecordOne(row, tables, master), master, name)
  {
    hide CString;
    SavesExactly(row);
  }

  lemma {:induction false} NothingRecorded(rows: seq<SchemaRow>, tables: seq<Data>, master: Master, name: Data)
    requires NoneRecords(rows, tables, name)
    ensures SameAt(Recorded(rows, tables, master), master, name)
    decreases |rows|
  {
    hide Records, RecordOne;
    if rows != [] {
      OneRecords(rows[0], tables, master, name);
      forall j | 0 <= j < |rows[1..]| ensures !Records(rows[1..][j], tables, name) {
        assert rows[1..][j] == rows[j + 1];
      }
      NothingRecorded(rows[1..], tables, RecordOne(rows[0], tables, master), name);
    }
  }

  lemma {:induction false} LastIsRecorded(
    rows: seq<SchemaRow>, tables: seq<Data>, master: Master, name: Data, i: nat)
    requires IsLastOf(rows, tables, name, i)
    ensures IsEntry(Recorded(rows, tables, master), name, rows[i])
    decreases |rows|
  {
    hide Records, RecordOne, NoneRecords;
    var first := RecordOne(rows[0], tables, master);
    if i == 0 {
      OneRecords(rows[0], tables, master, name);
      NothingRecorded(rows[1..], tables, first, name);
    } else {
      assert rows[1..][i - 1 + 1..] == rows[i + 1..];
      LastIsRecorded(rows[1..], tables, first, name, i - 1);
    }
  }

  /** What is loaded from a saved file under a name: the last row of that name that was saved and asked for; or, without
      one, an empty entry if the name itself was asked for; and nothing otherwise. */
  lemma {:induction false} LoadedExactly(rows: seq<SchemaRow>, tables: seq<Data>, name: Data)
    requires SaveRows(rows).Saved?
    requires forall i :: 0 <= i < |rows| ==> -0x8000_0000 <= rows[i].root < 0x8000_0000
    ensures
      var loaded := LoadFile(MasterFile(MAGIC, VERSION, SaveRows(rows).entities, SaveRows(rows).stream), tables);
      && loaded.Loaded?
      && (forall i: nat :: IsLastOf(rows, tables, name, i) ==> i < |rows| && IsEntry(loaded.master, name, rows[i]))
      && (NoneRecords(rows, tables, name) ==>
            && (name in loaded.master <==> name in tables)
            && (name in tables ==> loaded.master[name] == Entity(Unknown, [], 0)))
  {
    hide IsLastOf, IsEntry, NoneRecords, SaveRows, LoadFile, Recorded;
    MasterRoundTrip(rows, tables);
    if NoneRecords(rows, tables, name) {
      NothingRecorded(rows, tables, Asked(tables), name);
    }
    forall i: nat | IsLastOf(rows, tables, name, i)
      ensures i < |rows| && IsEntry(Recorded(rows, tables, Asked(tables)), name, rows[i])
    {
      LastIsRecorded(rows, tables, Asked(tables), name, i);
      LastIsInside(rows, tables, name, i);
    }
  }

  lemma {:induction false} LastIsInside(rows: seq<SchemaRow>, tables: seq<Data>, name: Data, i: nat)
    requires IsLastOf(rows, tables, name, i)
    ensures i < |rows|
  {
  }
}
