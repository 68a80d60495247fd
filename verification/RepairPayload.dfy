/** Cells of leaf table pages: sqliterkBtreeParseCell and sqliterkBtreeParsePayload as functions of the file, against
    sections 1.6 and 1.7 of the SQLite Database File Format. */
module RepairPayload {
  import opened Options
  import opened Bytes
  import opened RepairBytes
  import opened RepairRecord
  import opened RepairPages

  // ----- how much of a payload its leaf page holds

  function MaxLeaf(usable: int): int {
    usable - 35
  }

  function MinLocal(usable: int): int {
    (usable - 12) * 32 / 255 - 23
  }

  function Surplus(usable: int, size: int): int
    requires usable > 4
  {
    MinLocal(usable) + (size - MinLocal(usable)) % (usable - 4)
  }

  function LocalSize(usable: int, size: int): int
    requires usable > 4
  {
    if size <= MaxLeaf(usable) then size
    else if Surplus(usable, size) <= MaxLeaf(usable) then Surplus(usable, size)
    else MinLocal(usable)
  }

  /** What the functions below need of it. */
  lemma {:induction false} LocalFits(usable: int, size: int)
    requires usable >= 257 && size > 0
    ensures 0 < LocalSize(usable, size) <= size
  {
    hide Surplus, MinLocal;
    LocalSizeBounds(usable, size);
  }

  /** A local part of a spilled payload lies between the minimum and the maximum and is never the whole payload. In the
      surplus form the rest fills overflow pages exactly. */
  lemma {:induction false} LocalSizeBounds(usable: int, size: int)
    requires usable >= 257 && size > 0
    ensures 0 < LocalSize(usable, size) <= MaxLeaf(usable) && LocalSize(usable, size) <= size
    ensures size > MaxLeaf(usable) ==> MinLocal(usable) <= LocalSize(usable, size) < size
    ensures size > MaxLeaf(usable) && Surplus(usable, size) <= MaxLeaf(usable) ==>
            (size - LocalSize(usable, size)) % (usable - 4) == 0
  {
    MinLocalBounds(usable);
    if size > MaxLeaf(usable) {
      var m, d := size - MinLocal(usable), usable - 4;
      assert m - m % d == m / d * d;
      Multiples(m / d, d);
    }
  }

  lemma {:induction false} MinLocalBounds(usable: int)
    requires usable >= 257
    ensures 0 < MinLocal(usable) < MaxLeaf(usable)
  {
    var x := (usable - 12) * 32;
    assert x == x / 255 * 255 + x % 255;
  }

  lemma {:induction false} Multiples(q: int, d: int)
    requires d > 0
    ensures q * d % d == 0
  {
    QuotientOf(q * d, q, d);
  }

  lemma {:induction false} QuotientOf(v: int, q: int, d: int)
    requires d > 0 && v == q * d
    ensures v % d == 0
  {
    var e := v / d - q;
    Distribute(v / d, q, d);
    assert e * d == -(v % d);
    Multiple(e, d);
  }

  // ----- the overflow chain

  datatype Chain = Chain(touched: seq<int>, bytes: Data)

  /** What one overflow page carries. */
  function Room(db: Db): (n: int)
    ensures n >= 253
  {
    db.usable - 4
  }

  function Min(a: int, b: int): int {
    if a <= b then a else b
  }

  /** Bytes 0 to 3: the number of the next overflow page, zero in the last. */
  function NextPage(data: Data): int
    requires |data| >= 4
  {
    Int32(Int8(data[0]), data[1], data[2], data[3])
  }

  /** The chain loop, from page `n` on, with `rest` bytes still missing. */
  function Follow(db: Db, n: int, rest: int): Chain
    decreases if rest < 0 then 0 else rest
  {
    if !ValidNo(db, n) then Chain([], [])
    else
      var got := Acquire(db, n);
      if got.NoPage? || rest <= 0 then Chain([n], [])
      else
        var size := Min(rest, Room(db));
        var tail := Follow(db, NextPage(got.data), rest - size);
        Chain([n] + tail.touched, got.data[4..4 + size] + tail.bytes)
  }

  /** The least number of pages that hold `rest` bytes. */
  function PagesFor(rest: nat, room: nat): nat
    requires room > 0
  {
    (rest + room - 1) / room
  }

  lemma {:induction false} PagesForStep(rest: nat, room: nat)
    requires room > 0
    ensures rest == 0 ==> PagesFor(rest, room) == 0
    ensures 0 < rest <= room ==> PagesFor(rest, room) == 1
    ensures rest > room ==> PagesFor(rest, room) == PagesFor(rest - room, room) + 1
  {
    if rest > room {
      var a := rest - room + room - 1;
      var q, r := a / room, a % room;
      assert a + room == q * room + r + room == (q + 1) * room + r;
      QuotientIs(a + room, room, q + 1, r);
    } else if rest > 0 {
      QuotientIs(rest + room - 1, room, 1, rest - 1);
    } else {
      QuotientIs(room - 1, room, 0, room - 1);
    }
  }

  /** However the pages point to each other, cycles included, the loop touches at most one page more than the payload
      needs, all of them pages of the file, and never copies past the payload. */
  lemma {:induction false} FollowIsBounded(db: Db, n: int, rest: nat)
    ensures |Follow(db, n, rest).touched| <= PagesFor(rest, Room(db)) + 1
    ensures |Follow(db, n, rest).bytes| <= rest
    ensures forall k :: k in Follow(db, n, rest).touched ==> ValidNo(db, k)
    decreases rest
  {
    hide PagesFor, NextPage;
    PagesForStep(rest, Room(db));
    if ValidNo(db, n) && Acquire(db, n).Page? && rest > 0 {
      FollowIsBounded(db, NextPage(Acquire(db, n).data), rest - Min(rest, Room(db)));
    }
  }

  function Zeros(n: nat): (s: Data)
    ensures |s| == n
  {
    seq(n, _ => 0)
  }

  // ----- payloads and cells

  /** `touched`: the overflow pages recorded with the row. */
  datatype PayloadRead = NoPayload(code: Code) | Payload(touched: seq<int>, bytes: Data)

  /** The bytes of a payload of `size` bytes that starts at `offset`. The buffer is allocated cleared, so what the
      chain does not deliver stays zero. */
  function ReadPayload(db: Db, data: Data, offset: nat, size: int): (r: PayloadRead)
    requires |data| == db.pagesize
    ensures r.Payload? ==> |r.bytes| == size && size > 0
  {
    if size <= 0 then NoPayload(Misuse)
    else
      LocalFits(db.usable, size);
      var local := LocalSize(db.usable, size);
      if offset + local > db.pagesize then NoPayload(Damaged)
      else if local == size then Payload([], data[offset..offset + local])
      else
        var next := ReadInt(data, offset + local, 4);
        if next == None then NoPayload(Outside) else Assemble(db, data[offset..offset + local], next.value, size - local)
  }

  /** The local part, then what the chain from page `n` on delivers, then zeros. */
  function Assemble(db: Db, local: Data, n: int, rest: nat): (r: PayloadRead)
    ensures r.Payload? && |r.bytes| == |local| + rest
  {
    FollowFits(db, n, rest);
    var chain := Follow(db, n, rest);
    Payload(chain.touched, local + chain.bytes + Zeros(rest - |chain.bytes|))
  }

  lemma {:induction false} FollowFits(db: Db, n: int, rest: nat)
    ensures |Follow(db, n, rest).bytes| <= rest
  {
    hide PagesFor, Follow;
    FollowIsBounded(db, n, rest);
  }

  /** A cell that fails may have touched overflow pages all the same. */
  datatype CellRead = CellRead(touched: seq<int>, rowid: int, record: Outcome)

  /** One trip of the loop of sqliterkBtreeParseCell, up to the row callback. */
  function ReadCell(db: Db, data: Data, pointer: int): CellRead
    requires |data| == db.pagesize
  {
    var size := Decode(data, pointer);
    if size.NoVarint? then CellRead([], 0, Failed(size.code))
    else if size.value > MAX_PAYLOAD then CellRead([], 0, Failed(Damaged))
    else
      var rowid := Decode(data, pointer + size.length);
      if rowid.NoVarint? then CellRead([], 0, Failed(rowid.code))
      else
        var payload := ReadPayload(db, data, pointer + size.length + rowid.length, size.value);
        if payload.NoPayload? then CellRead([], rowid.value, Failed(payload.code))
        else CellRead(payload.touched, rowid.value, ParseRecord(payload.bytes))
  }

  /** What the file holds can make a cell fail, but never look like a success or a cancelled callback. */
  lemma {:induction false} FailuresAreErrors(db: Db, data: Data, pointer: int)
    requires |data| == db.pagesize
    ensures var record := ReadCell(db, data, pointer).record;
            record.Failed? ==> record.code == Damaged || record.code == Outside || record.code == Misuse
  {
    hide Decode, ReadInt, LocalSize, Assemble, Columns;
    var size := Decode(data, pointer);
    if size.Varint? && size.value <= MAX_PAYLOAD {
      var rowid := Decode(data, pointer + size.length);
      if rowid.Varint? {
        var payload := ReadPayload(db, data, pointer + size.length + rowid.length, size.value);
        if payload.Payload? && Decode(payload.bytes, 0).Varint? {
          var head := Decode(payload.bytes, 0);
          ColumnFailures(payload.bytes, ToInt32(head.value), head.length, ToInt32(head.value));
        }
      }
    }
  }

  // ----- the format: how a writer lays out a chain and a cell

  /** Section 1.7: each page holds the number of the next one, zero in the last, and as many payload bytes as fit. */
  ghost predicate Chained(db: Db, numbers: seq<int>, rest: Data)
    decreases |numbers|
  {
    if numbers == [] then rest == []
    else
      rest != [] && Acquire(db, numbers[0]).Page?
      && var data := Acquire(db, numbers[0]).data;
         var size := Min(|rest|, Room(db));
         Signed(data[..4]) == FirstOf(numbers[1..]) && data[4..4 + size] == rest[..size]
         && Chained(db, numbers[1..], rest[size..])
  }

  function FirstOf(numbers: seq<int>): int {
    if numbers == [] then 0 else numbers[0]
  }

  lemma {:induction false} NextPageIsSigned(data: Data)
    requires |data| >= 4
    ensures NextPage(data) == Signed(data[..4]) && ReadInt(data, 0, 4) == Some(NextPage(data))
  {
    var p := data[..4];
    IntIsBigEndian(p);
    assert data[0..4] == p;
    assert ParseInt64(p) == Some(Int32(Int8(p[0]), p[1], p[2], p[3]));
  }

  /** The chain loop reads back exactly what was chained, from exactly those pages. */
  lemma {:induction false} ChainRoundTrip(db: Db, numbers: seq<int>, rest: Data)
    requires Chained(db, numbers, rest)
    ensures Follow(db, FirstOf(numbers), |rest|) == Chain(numbers, rest)
    decreases |numbers|
  {
    hide NextPage, Signed, Acquire, Room;
    if numbers != [] {
      var data := Acquire(db, numbers[0]).data;
      var size := Min(|rest|, Room(db));
      NextPageIsSigned(data);
      ChainRoundTrip(db, numbers[1..], rest[size..]);
      assert rest[..size] + rest[size..] == rest;
      assert [numbers[0]] + numbers[1..] == numbers;
    }
  }

  /** A leaf cell (section 1.6): payload size, rowid, the local part, and the first overflow page if there is one. */
  function CellBytes(usable: int, rowid: nat, payload: Data, first: int): Data
    requires usable >= 257 && payload != []
  {
    LocalFits(usable, |payload|);
    var local := LocalSize(usable, |payload|);
    Encode(|payload|) + Encode(rowid) + payload[..local] + (if local < |payload| then EncodeInt(first, 4) else [])
  }

  /** The cell lies at `pointer` and the rest of its payload on the pages `numbers`. */
  ghost predicate CellStored(db: Db, data: Data, pointer: nat, rowid: nat, payload: Data, numbers: seq<int>)
    requires payload != []
  {
    LocalFits(db.usable, |payload|);
    var cell := CellBytes(db.usable, rowid, payload, FirstOf(numbers));
    pointer + |cell| <= |data| && data[pointer..pointer + |cell|] == cell
    && FitsBytes(FirstOf(numbers), 4)
    && Chained(db, numbers, payload[LocalSize(db.usable, |payload|)..])
  }

  /** A varint written at some place of a page reads back there. */
  lemma {:induction false} VarintAt(data: Data, offset: nat, v: nat)
    requires v < Power(128, 8) && offset + |Encode(v)| <= |data|
    requires data[offset..offset + |Encode(v)|] == Encode(v)
    ensures Decode(data, offset) == Varint(v, |Encode(v)|)
  {
    var e := Encode(v);
    VarintRoundTrip(v, data[offset + |e|..]);
    assert data[offset..] == e + data[offset + |e|..];
  }

  lemma {:induction false} Parts(data: Data, at: nat, a: Data, b: Data, c: Data, d: Data)
    requires at + |a + b + c + d| <= |data| && data[at..at + |a + b + c + d|] == a + b + c + d
    ensures data[at..at + |a|] == a
    ensures data[at + |a|..at + |a| + |b|] == b
    ensures data[at + |a| + |b|..at + |a| + |b| + |c|] == c
    ensures data[at + |a| + |b| + |c|..at + |a| + |b| + |c| + |d|] == d
  {
    var s := data[at..at + |a + b + c + d|];
    var i, j, k: nat := |a|, |a| + |b|, |a| + |b| + |c|;
    assert s[0..i] == a;
    assert s[i..j] == b;
    assert s[j..k] == c;
    assert s[k..k + |d|] == d;
    Cut(data, at, s, 0, i);
    Cut(data, at, s, i, j);
    Cut(data, at, s, j, k);
    Cut(data, at, s, k, k + |d|);
  }

  lemma {:induction false} Cut(data: Data, at: nat, s: Data, i: nat, j: nat)
    requires at + |s| <= |data| && data[at..at + |s|] == s && i <= j <= |s|
    ensures data[at + i..at + j] == s[i..j]
  {
    var part := data[at + i..at + j];
    assert |part| == j - i;
    forall k | 0 <= k < j - i ensures part[k] == s[i..j][k] {
      assert part[k] == data[at + i + k] == s[i + k];
    }
  }

  /** The payload comes back whole, and the recorded overflow pages are the chain. */
  lemma {:induction false} PayloadRoundTrip(db: Db, data: Data, offset: nat, payload: Data, numbers: seq<int>)
    requires |data| == db.pagesize && payload != []
    requires 0 < LocalSize(db.usable, |payload|) <= |payload|
    requires var local := LocalSize(db.usable, |payload|);
             offset + local <= |data| && data[offset..offset + local] == payload[..local]
             && Chained(db, numbers, payload[local..])
             && (local < |payload| ==> ReadInt(data, offset + local, 4) == Some(FirstOf(numbers)))
    ensures ReadPayload(db, data, offset, |payload|) == Payload(numbers, payload)
  {
    hide LocalSize, ReadInt, Assemble, Chained;
    var local := LocalSize(db.usable, |payload|);
    if local == |payload| {
      assert payload[..local] == payload;
      NoChain(db, numbers, payload[local..]);
    } else {
      AssembleRoundTrip(db, payload[..local], numbers, payload[local..]);
      assert payload[..local] + payload[local..] == payload;
    }
  }

  lemma {:induction false} NoChain(db: Db, numbers: seq<int>, rest: Data)
    requires Chained(db, numbers, rest) && |rest| == 0
    ensures numbers == []
  {
  }

  lemma {:induction false} AssembleRoundTrip(db: Db, local: Data, numbers: seq<int>, rest: Data)
    requires Chained(db, numbers, rest)
    ensures Assemble(db, local, FirstOf(numbers), |rest|) == Payload(numbers, local + rest)
  {
    hide Chained, Follow;
    ChainRoundTrip(db, numbers, rest);
    assert local + rest + Zeros(0) == local + rest;
  }

  /** Where the parts of a stored cell lie. */
  lemma {:induction false} CellPieces(db: Db, data: Data, pointer: nat, rowid: nat, payload: Data, numbers: seq<int>)
    requires payload != [] && CellStored(db, data, pointer, rowid, payload, numbers)
    ensures
      var local, a, b := LocalSize(db.usable, |payload|), |Encode(|payload|)|, |Encode(rowid)|;
      && 0 < local <= |payload| && pointer + a + b + local <= |data|
      && data[pointer..pointer + a] == Encode(|payload|) && data[pointer + a..pointer + a + b] == Encode(rowid)
      && data[pointer + a + b..pointer + a + b + local] == payload[..local]
      && Chained(db, numbers, payload[local..]) && FitsBytes(FirstOf(numbers), 4)
      && (local < |payload| ==>
            pointer + a + b + local + 4 <= |data|
            && data[pointer + a + b + local..pointer + a + b + local + 4] == EncodeInt(FirstOf(numbers), 4))
  {
    hide LocalSize, Chained, Encode, EncodeInt, FitsBytes;
    LocalFits(db.usable, |payload|);
    var local := LocalSize(db.usable, |payload|);
    var d := if local < |payload| then EncodeInt(FirstOf(numbers), 4) else [];
    Parts(data, pointer, Encode(|payload|), Encode(rowid), payload[..local], d);
  }

  lemma {:induction false} CellRoundTrip(db: Db, data: Data, pointer: nat, rowid: nat, payload: Data, numbers: seq<int>)
    requires |data| == db.pagesize && payload != [] && |payload| <= MAX_PAYLOAD && rowid < Power(128, 8)
    requires CellStored(db, data, pointer, rowid, payload, numbers)
    ensures ReadCell(db, data, pointer) == CellRead(numbers, rowid, ParseRecord(payload))
  {
    hide LocalSize, Chained, Decode, Encode, ParseRecord, EncodeInt, ReadPayload, FitsBytes, CellStored;
    CellPieces(db, data, pointer, rowid, payload, numbers);
    var local := LocalSize(db.usable, |payload|);
    var a: nat := |Encode(|payload|)|;
    var offset: nat := pointer + a + |Encode(rowid)|;
    Power128();
    VarintAt(data, pointer, |payload|);
    VarintAt(data, pointer + a, rowid);
    if local < |payload| {
      IntRoundTrip(FirstOf(numbers), 4);
    }
    PayloadRoundTrip(db, data, offset, payload, numbers);
  }

  /** Round trip of a leaf cell: any record whose payload is at most 64MB, any rowid of at most 56 bits. */
  lemma {:induction false} LeafCellRoundTrip(
      db: Db, data: Data, pointer: nat, rowid: nat, fields: seq<Stored>, numbers: seq<int>)
    requires |data| == db.pagesize && rowid < Power(128, 8)
    requires (forall i :: 0 <= i < |fields| ==> MayStore(fields[i])) && |WriteRecord(fields)| <= MAX_PAYLOAD
    requires CellStored(db, data, pointer, rowid, WriteRecord(fields), numbers)
    ensures ReadCell(db, data, pointer) == CellRead(numbers, rowid, Accepted(StoredValues(fields)))
  {
    RecordRoundTrip(fields);
    CellRoundTrip(db, data, pointer, rowid, WriteRecord(fields), numbers);
  }

  // ----- a writer of chains

  predicate Distinct(numbers: seq<int>) {
    forall i, j :: 0 <= i < j < |numbers| ==> numbers[i] != numbers[j]
  }

  /** Same shape, same whole pages, and nothing else changed but the pages `numbers`. */
  ghost predicate SameElsewhere(db: Db, other: Db, numbers: seq<int>) {
    |other.pages| == |db.pages| && other.pagesize == db.pagesize && other.usable == db.usable
    && (forall k :: Acquire(db, k).Page? ==> Acquire(other, k).Page?)
    && (forall k :: k !in numbers ==> Acquire(other, k) == Acquire(db, k))
  }

  /** A chain rests on its own pages only. */
  lemma {:induction false} ChainedFrame(db: Db, other: Db, numbers: seq<int>, rest: Data)
    requires Chained(db, numbers, rest) && other.usable == db.usable
    requires forall k :: k in numbers ==> Acquire(other, k) == Acquire(db, k)
    ensures Chained(other, numbers, rest)
    decreases |numbers|
  {
    if numbers != [] {
      var size := Min(|rest|, Room(db));
      assert numbers[0] in numbers;
      ChainedFrame(db, other, numbers[1..], rest[size..]);
    }
  }

  /** One page of a chain. */
  function LinkBytes(next: int, chunk: Data, before: Data): (data: Data)
    requires 4 + |chunk| <= |before|
    ensures |data| == |before|
  {
    EncodeInt(next, 4) + chunk + before[4 + |chunk|..]
  }

  lemma {:induction false} LinkReads(next: int, chunk: Data, before: Data)
    requires 4 + |chunk| <= |before| && FitsBytes(next, 4)
    ensures Signed(LinkBytes(next, chunk, before)[..4]) == next
    ensures LinkBytes(next, chunk, before)[4..4 + |chunk|] == chunk
  {
    var e := EncodeInt(next, 4);
    IntRoundTrip(next, 4);
    IntIsBigEndian(e);
    assert LinkBytes(next, chunk, before)[..4] == e;
  }

  /** Writes the overflow pages of a payload; the bytes of a page past its share stay as they were. */
  function Spill(db: Db, numbers: seq<int>, rest: Data): Db
    decreases |numbers|
  {
    if numbers == [] then db
    else
      var size := Min(|rest|, Room(db));
      var later := Spill(db, numbers[1..], rest[size..]);
      WriteLink(later, numbers[0], FirstOf(numbers[1..]), rest[..size])
  }

  function WriteLink(db: Db, n: int, next: int, chunk: Data): Db {
    var got := Acquire(db, n);
    if got.NoPage? || 4 + |chunk| > db.pagesize then db
    else
      var pages := db.pages[n - 1 := LinkBytes(next, chunk, got.data)];
      Image(pages, db.pagesize, db.usable)
  }

  lemma {:induction false} WriteLinkIs(db: Db, n: int, next: int, chunk: Data)
    requires Acquire(db, n).Page? && 4 + |chunk| <= db.pagesize
    ensures SameElsewhere(db, WriteLink(db, n, next, chunk), [n])
    ensures Acquire(WriteLink(db, n, next, chunk), n) == Page(LinkBytes(next, chunk, Acquire(db, n).data))
  {
    hide LinkBytes;
  }

  /** Every chain can be laid out: on any distinct whole pages of the file, as many as the bytes need. */
  lemma {:induction false} SpillChains(db: Db, numbers: seq<int>, rest: Data)
    requires Distinct(numbers) && |numbers| == PagesFor(|rest|, Room(db))
    requires forall k :: k in numbers ==> Acquire(db, k).Page? && k < 0x8000_0000
    ensures Chained(Spill(db, numbers, rest), numbers, rest)
    ensures SameElsewhere(db, Spill(db, numbers, rest), numbers)
    decreases |numbers|
  {
    hide PagesFor, WriteLink, LinkBytes, Signed, FitsBytes, Acquire;
    PagesForStep(|rest|, Room(db));
    if numbers != [] {
      var n, tail := numbers[0], numbers[1..];
      var size := Min(|rest|, Room(db));
      var later := Spill(db, tail, rest[size..]);
      assert n !in tail;
      PagesForStep(|rest| - size, Room(db));
      SpillChains(db, tail, rest[size..]);
      SpillStep(db, later, numbers, rest);
    }
  }

  lemma {:induction false} SpillStep(db: Db, later: Db, numbers: seq<int>, rest: Data)
    requires numbers != [] && rest != []
    requires forall k :: k in numbers ==> Acquire(db, k).Page? && k < 0x8000_0000
    requires numbers[0] !in numbers[1..]
    requires var size := Min(|rest|, Room(db));
             later == Spill(db, numbers[1..], rest[size..])
             && Chained(later, numbers[1..], rest[size..]) && SameElsewhere(db, later, numbers[1..])
    ensures Chained(Spill(db, numbers, rest), numbers, rest)
    ensures SameElsewhere(db, Spill(db, numbers, rest), numbers)
  {
    hide WriteLink, LinkBytes, Signed, FitsBytes, Acquire, Chained;
    var n, tail := numbers[0], numbers[1..];
    var size := Min(|rest|, Room(db));
    assert n in numbers && Acquire(db, n).Page?;
    WriteLinkIs(later, n, FirstOf(tail), rest[..size]);
    var out := Spill(db, numbers, rest);
    assert out == WriteLink(later, n, FirstOf(tail), rest[..size]);
    ChainedFrame(later, out, tail, rest[size..]);
    assert forall k :: k in tail ==> k in numbers;
    FirstFits(db, tail);
    LinkReads(FirstOf(tail), rest[..size], Acquire(later, n).data);
    OneLinkMore(out, numbers, rest, Acquire(out, n).data);
  }

  lemma {:induction false} OneLinkMore(db: Db, numbers: seq<int>, rest: Data, data: Data)
    requires numbers != [] && rest != [] && Acquire(db, numbers[0]) == Page(data)
    requires
      var size := Min(|rest|, Room(db));
      Signed(data[..4]) == FirstOf(numbers[1..]) && data[4..4 + size] == rest[..size]
      && Chained(db, numbers[1..], rest[size..])
    ensures Chained(db, numbers, rest)
  {
    hide Signed, Acquire;
  }

  lemma {:induction false} FirstFits(db: Db, numbers: seq<int>)
    requires forall k :: k in numbers ==> Acquire(db, k).Page? && k < 0x8000_0000
    ensures FitsBytes(FirstOf(numbers), 4)
  {
    Power256();
    assert numbers != [] ==> numbers[0] in numbers;
  }
}
