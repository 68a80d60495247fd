/** The pager's status array and the page walk in the form of the source: methods that fill buffers, append rows and
    write statuses, each proved equal to its function in RepairPages, RepairPayload or RepairWalk. */
module RepairParser {
  import opened Options
  import opened Bytes
  import opened RepairBytes
  import opened RepairRecord
  import opened RepairPages
  import opened RepairPayload
  import opened RepairWalk

  /** struct sqliterk_pager */
  class Pager {
    const db: Db
    const pagesStatus: array<Status>

    ghost predicate Valid() {
      pagesStatus.Length == |db.pages|
    }

    constructor (db: Db)
      ensures Valid() && this.db == db && fresh(pagesStatus)
      ensures forall k :: ValidNo(db, k) ==> Get(pagesStatus[..], k) == Unchecked
    {
      this.db := db;
      pagesStatus := new Status[|db.pages|](_ => Unchecked);
    }

    /** sqliterkPagerSetStatus */
    method SetStatus(n: int, s: Status)
      requires Valid()
      modifies pagesStatus
      ensures pagesStatus[..] == Put(old(pagesStatus[..]), n, s)
    {
      if ValidNo(db, n) {
        pagesStatus[n - 1] := s;
      }
    }

    /** sqliterkPagerGetStatus */
    method GetStatus(n: int) returns (s: Status)
      requires Valid()
      ensures s == Get(pagesStatus[..], n)
    {
      if !ValidNo(db, n) {
        return Invalid;
      }
      return pagesStatus[n - 1];
    }

    /** sqliterkPagerGetParsedPageCount */
    method GetParsedPageCount() returns (count: nat)
      requires Valid()
      ensures count == multiset(pagesStatus[..])[Checked]
    {
      count := 0;
      var i := 0;
      while i < pagesStatus.Length
        invariant 0 <= i <= pagesStatus.Length
        invariant count == multiset(pagesStatus[..i])[Checked]
      {
        assert pagesStatus[..i + 1] == pagesStatus[..i] + [pagesStatus[i]];
        if pagesStatus[i] == Checked {
          count := count + 1;
        }
        i := i + 1;
      }
      assert pagesStatus[..i] == pagesStatus[..];
    }
  }

  lemma {:induction false} ReadAllTake(data: Data, offsets: seq<int>, n: nat, i: nat)
    requires i < |offsets|
    ensures ReadAll(data, offsets[..i + 1], n) ==
            (var first := ReadAll(data, offsets[..i], n);
             var next := ReadInt(data, offsets[i], n);
             if first.Some? && next.Some? then Some(first.value + [next.value]) else None)
    decreases i
  {
    hide ReadInt;
    if i == 0 {
      var one := offsets[..1];
      assert one[1..] == [] && offsets[..0] == [];
      assert ReadAll(data, one[1..], n) == Some([]) && ReadAll(data, offsets[..0], n) == Some([]);
      var v := ReadInt(data, one[0], n);
      if v.Some? {
        var none: seq<int> := [];
        assert [v.value] + none == none + [v.value];
      }
      assert offsets[..i + 1] == one;
    } else {
      ReadAllTake(data, offsets[1..], n, i - 1);
      assert offsets[1..][..i] == offsets[..i + 1][1..];
      assert offsets[1..][..i - 1] == offsets[..i][1..];
      assert offsets[1..][i - 1] == offsets[i];
      var head, middle, next := ReadInt(data, offsets[0], n), ReadAll(data, offsets[..i][1..], n), ReadInt(data, offsets[i], n);
      if head.Some? && middle.Some? && next.Some? {
        assert [head.value] + (middle.value + [next.value]) == [head.value] + middle.value + [next.value];
      }
    }
  }

  lemma {:induction false} ReadAllFails(data: Data, offsets: seq<int>, n: nat, i: nat)
    requires i < |offsets| && ReadInt(data, offsets[i], n) == None
    ensures ReadAll(data, offsets, n) == None
    decreases i
  {
    hide ReadInt;
    if i > 0 {
      ReadAllFails(data, offsets[1..], n, i - 1);
    }
  }

  /** The loops that decode the cell pointer array and the child page numbers. */
  method ReadInts(data: Data, offsets: seq<int>, n: nat, into: array<int>) returns (ok: bool)
    requires |offsets| <= into.Length
    modifies into
    ensures ok <==> ReadAll(data, offsets, n).Some?
    ensures ok ==> into[..|offsets|] == ReadAll(data, offsets, n).value
  {
    var i := 0;
    while i < |offsets|
      invariant 0 <= i <= |offsets|
      invariant ReadAll(data, offsets[..i], n) == Some(into[..i])
    {
      var value := ReadInt(data, offsets[i], n);
      ReadAllTake(data, offsets, n, i);
      if value == None {
        ReadAllFails(data, offsets, n, i);
        return false;
      }
      into[i] := value.value;
      assert into[..i + 1] == into[..i] + [value.value];
      i := i + 1;
    }
    assert offsets[..i] == offsets;
    return true;
  }

  /** struct sqliterk with the b-tree it parses; `rows` records what the row callback was given. */
  class Parser {
    const env: Env
    const pager: Pager
    var rows: seq<Row>

    ghost predicate Valid() {
      pager.Valid() && pager.db == env.db
    }

    ghost function Contents(): (st: State)
      reads this, pager.pagesStatus
    {
      State(pager.pagesStatus[..], rows)
    }

    constructor (env: Env)
      ensures Valid() && this.env == env && fresh(pager) && fresh(pager.pagesStatus) && rows == []
      ensures forall k :: ValidNo(env.db, k) ==> Get(Contents().status, k) == Unchecked
    {
      this.env := env;
      pager := new Pager(env.db);
      rows := [];
    }

    /** sqliterkNotify_onBeginParsePage */
    method OnBeginParsePage(n: int) returns (code: Code)
      requires Valid()
      modifies pager.pagesStatus
      ensures code == BeginCode(old(pager.pagesStatus[..]), n)
      ensures pager.pagesStatus[..] == BeginStatus(old(pager.pagesStatus[..]), n)
    {
      var s := pager.GetStatus(n);
      if s == Checking {
        return Misuse;
      }
      pager.SetStatus(n, Checking);
      return Good;
    }

    /** sqliterkNotify_onEndParsePage */
    method OnEndParsePage(n: int, result: Code)
      requires Valid()
      modifies pager.pagesStatus
      ensures pager.pagesStatus[..] == EndStatus(old(pager.pagesStatus[..]), n, result)
    {
      match result
      case Good => pager.SetStatus(n, Checked);
      case Damaged => pager.SetStatus(n, Damage);
      case Cancelled =>
      case _ => pager.SetStatus(n, Invalid);
    }

    /** sqliterkNotify_onParseColumn */
    method OnParseColumn(row: Row) returns (code: Code)
      requires Valid()
      modifies this`rows, pager.pagesStatus
      ensures Walked(Contents(), code) == Deliver(env, old(Contents()), row)
    {
      code := env.reply(rows, row);
      rows := rows + [row];
      if code == Cancelled || code == Good {
        return;
      }
      pager.SetStatus(row.page, Discarded);
      ghost var all := DiscardAll(pager.pagesStatus[..], row.overflow);
      assert row.overflow[0..] == row.overflow;
      var i := 0;
      while i < |row.overflow|
        invariant 0 <= i <= |row.overflow|
        invariant rows == old(rows) + [row]
        invariant DiscardAll(pager.pagesStatus[..], row.overflow[i..]) == all
      {
        assert row.overflow[i..][1..] == row.overflow[i + 1..];
        pager.SetStatus(row.overflow[i], Discarded);
        i := i + 1;
      }
      assert row.overflow[i..] == [];
    }

    /** One overflow page of the chain, with its notifications. */
    method AcquireOverflow(n: int) returns (page: Acquired)
      requires Valid()
      modifies pager.pagesStatus
      ensures page == Acquire(env.db, n)
      ensures pager.pagesStatus[..] == Touch(env.db, old(pager.pagesStatus[..]), n)
    {
      var begun := OnBeginParsePage(n);
      page := Acquire(env.db, n);
      OnEndParsePage(n, if page.Page? then Good else page.code);
    }

    /** What one overflow page adds to the buffer. */
    method CopyChunk(payload: array<Byte>, start: nat, payloadPointer: nat, data: Data) returns (overflowSize: nat)
      requires start <= payloadPointer < payload.Length && |data| == env.db.pagesize
      modifies payload
      ensures overflowSize == Min(payload.Length - payloadPointer, Room(env.db))
      ensures payload[..start] == old(payload[..start])
      ensures payload[start..payloadPointer + overflowSize]
           == old(payload[start..payloadPointer]) + data[4..4 + overflowSize]
      ensures payload[payloadPointer + overflowSize..] == old(payload[payloadPointer + overflowSize..])
    {
      overflowSize := payload.Length - payloadPointer;
      var maxSize := env.db.usable - 4;
      if overflowSize > maxSize {
        overflowSize := maxSize;
      }
      ghost var front, got := payload[..start], payload[start..payloadPointer];
      assert payload[..payloadPointer] == front + got;
      CopyIn(payload, payloadPointer, data[4..4 + overflowSize]);
      Grown(payload[..], start, payloadPointer, payloadPointer + overflowSize, front, got, data[4..4 + overflowSize]);
    }

    /** The loop over the overflow chain: fills the buffer from `start` on. */
    method ReadChain(payload: array<Byte>, start: nat, first: int) returns (overflowPages: seq<int>, end: nat)
      requires Valid() && start <= payload.Length
      modifies payload, pager.pagesStatus
      ensures start <= end <= payload.Length
      ensures Chain(overflowPages, payload[start..end]) == Follow(env.db, first, payload.Length - start)
      ensures payload[..start] == old(payload[..start]) && payload[end..] == old(payload[end..])
      ensures pager.pagesStatus[..] == TouchAll(env.db, old(pager.pagesStatus[..]), overflowPages)
    {
      hide Follow, Touch, TouchAll, NextPage, Acquire, Joined;
      NothingTouched(env.db, pager.pagesStatus[..]);
      NothingBefore(Follow(env.db, first, payload.Length - start));
      overflowPages := [];
      var payloadPointer: nat := start;
      var overflowPageno := first;
      end := start;
      assert payload[start..end] == [];
      while ValidNo(env.db, overflowPageno)
        invariant payloadPointer == end && start <= end <= payload.Length
        invariant payload[..start] == old(payload[..start]) && payload[end..] == old(payload[end..])
        invariant pager.pagesStatus[..] == TouchAll(env.db, old(pager.pagesStatus[..]), overflowPages)
        invariant Follow(env.db, first, payload.Length - start)
               == Joined(Chain(overflowPages, payload[start..end]), Follow(env.db, overflowPageno, payload.Length - end))
        decreases payload.Length - payloadPointer
      {
        ghost var before := Chain(overflowPages, payload[start..end]);
        TouchAllAppends(env.db, old(pager.pagesStatus[..]), overflowPages, overflowPageno);
        overflowPages := overflowPages + [overflowPageno];
        var page := AcquireOverflow(overflowPageno);
        FollowStep(env.db, before, overflowPageno, payload.Length - end);
        if page.NoPage? {
          return;
        }
        if payload.Length - payloadPointer <= 0 {
          return;
        }
        assert payload[end..] == old(payload[end..]);
        ghost var now := payload[..];
        var overflowSize := CopyChunk(payload, start, payloadPointer, page.data);
        assert now[end..][overflowSize..] == now[end + overflowSize..];
        assert old(payload[end..])[overflowSize..] == old(payload[..])[end + overflowSize..];
        payloadPointer := payloadPointer + overflowSize;
        end := payloadPointer;
        overflowPageno := NextPage(page.data);
      }
      FollowEnds(env.db, overflowPageno, payload.Length - end);
    }

    /** How much of a payload is local. */
    method LocalPart(payloadSize: int) returns (local: int)
      requires payloadSize > 0
      ensures local == LocalSize(env.db.usable, payloadSize)
    {
      var usable := env.db.usable;
      if payloadSize <= usable - 35 {
        return payloadSize;
      }
      var maxPageLocal := usable - 35;
      var minPageLocal := (usable - 12) * 32 / 255 - 23;
      var surplus := minPageLocal + (payloadSize - minPageLocal) % (usable - 4);
      local := if surplus <= maxPageLocal then surplus else minPageLocal;
    }

    /** The local part goes to the start of a cleared buffer. */
    method StartsWith(payload: array<Byte>, chunk: Data)
      requires |chunk| <= payload.Length && payload[..] == Zeros(payload.Length)
      modifies payload
      ensures payload[..|chunk|] == chunk && payload[|chunk|..] == Zeros(payload.Length - |chunk|)
    {
      assert payload[|chunk|..] == payload[..][|chunk|..] == Zeros(payload.Length - |chunk|);
      CopyIn(payload, 0, chunk);
      assert payload[0..|chunk|] == payload[..|chunk|];
    }

    /** The payload buffer, filled from the page and from the overflow chain. */
    method LoadPayload(data: Data, offset: nat, payloadSize: int)
        returns (code: Code, payload: array<Byte>, overflowPages: seq<int>)
      requires Valid() && |data| == env.db.pagesize
      modifies pager.pagesStatus
      ensures fresh(payload)
      ensures Loaded(env.db, data, offset, payloadSize, code, payload[..], overflowPages)
      ensures pager.pagesStatus[..] == TouchAll(env.db, old(pager.pagesStatus[..]), overflowPages)
    {
      hide Follow, TouchAll, ReadInt, LocalSize;
      NothingTouched(env.db, pager.pagesStatus[..]);
      overflowPages := [];
      if payloadSize <= 0 {
        payload := new Byte[0];
        return Misuse, payload, overflowPages;
      }
      payload := new Byte[payloadSize](_ => 0);
      assert payload[..] == Zeros(payloadSize);
      LocalFits(env.db.usable, payloadSize);
      var local := LocalPart(payloadSize);
      if offset + local > env.db.pagesize {
        return Damaged, payload, overflowPages;
      }
      StartsWith(payload, data[offset..offset + local]);
      ghost var rest := payload[local..];
      var end: nat := local;
      if local < payloadSize {
        var first := ReadInt(data, offset + local, 4);
        if first == None {
          return Outside, payload, overflowPages;
        }
        overflowPages, end := ReadChain(payload, local, first.value);
        assert payload[..local] == data[offset..offset + local];
        assert payload[end..] == rest[end - local..];
      }
      code := Good;
      Assembled(payload[..], local, end);
    }

    /** sqliterkBtreeParsePayload */
    method ParsePayload(n: int, data: Data, offset: nat, payloadSize: int, rowid: int) returns (code: Code)
      requires Valid() && |data| == env.db.pagesize
      modifies this`rows, pager.pagesStatus
      ensures Walked(Contents(), code) == FinishCell(env, old(Contents()), n, rowid, ReadPayload(env.db, data, offset, payloadSize))
    {
      hide ReadPayload, ParseRecord, TouchAll, Deliver;
      NothingTouched(env.db, pager.pagesStatus[..]);
      var loaded, payload, overflowPages := LoadPayload(data, offset, payloadSize);
      if loaded != Good {
        return loaded;
      }
      var record := ParseColumns(payload[..]);
      if record.Failed? {
        return record.code;
      }
      code := OnParseColumn(Row(n, rowid, record.values, overflowPages));
    }

    /** sqliterkBtreeParseCell */
    method ParseCellArray(n: int, data: Data, cellPointerArray: array<int>, cellsCount: nat) returns (code: Code)
      requires Valid() && Acquire(env.db, n) == Page(data) && cellsCount <= cellPointerArray.Length
      modifies this`rows, pager.pagesStatus
      ensures Walked(Contents(), code) == ParseCells(env, old(Contents()), n, old(cellPointerArray[..cellsCount]))
    {
      hide Acquire, Decode, ReadPayload, FinishCell, ParseCell;
      code := Good;
      ghost var pointers := cellPointerArray[..cellsCount];
      assert pointers[0..] == pointers;
      var i := 0;
      while i < cellsCount
        invariant 0 <= i <= cellsCount && code == Good
        invariant cellPointerArray[..cellsCount] == pointers
        invariant ParseCells(env, old(Contents()), n, pointers) == ParseCells(env, Contents(), n, pointers[i..])
      {
        var offset := cellPointerArray[i];
        assert pointers[i..][0] == offset && pointers[i..][1..] == pointers[i + 1..];
        CellInSteps(env, Contents(), n, offset);
        var size := ParseVarint64(data, offset);
        if size.NoVarint? {
          return size.code;
        }
        if size.value > 64 * 1024 * 1024 {
          return Damaged;
        }
        var rowid := ParseVarint64(data, offset + size.length);
        if rowid.NoVarint? {
          return rowid.code;
        }
        code := ParsePayload(n, data, offset + size.length + rowid.length, size.value, rowid.value);
        if code != Good {
          return;
        }
        i := i + 1;
      }
      assert pointers[i..] == [];
    }

    /** The head of a page: its type and its cell pointer array. */
    method LoadCellPointers(n: int, data: Data) returns (code: Code, kind: int, cellPointerArray: array<int>)
      requires Acquire(env.db, n) == Page(data)
      ensures fresh(cellPointerArray)
      ensures PageView(env.db, n) == if code == Good then ViewWith(data, kind, cellPointerArray[..]) else Bad(code)
    {
      hide ReadInt, Children, Acquire;
      cellPointerArray := new int[0];
      var h := HeaderOffset(n);
      var pageType := ReadInt(data, h, 1);
      if pageType == None || pageType.value !in {INTERIOR_INDEX, INTERIOR_TABLE, LEAF_INDEX, LEAF_TABLE} {
        return Damaged, 0, cellPointerArray;
      }
      kind := pageType.value;
      var offsetCellPointerArray := if kind == INTERIOR_TABLE then 12 else 8;
      var cellsCount := ReadInt(data, 3 + h, 2);
      if cellsCount == None || cellsCount.value <= 0
         || cellsCount.value * 2 + offsetCellPointerArray > env.db.pagesize {
        return Damaged, kind, cellPointerArray;
      }
      cellPointerArray := new int[cellsCount.value];
      var offsets: seq<int> := seq(cellsCount.value, i => h + offsetCellPointerArray + 2 * i);
      var ok := ReadInts(data, offsets, 2, cellPointerArray);
      assert CellPointers(data, h + offsetCellPointerArray, cellsCount.value) == ReadAll(data, offsets, 2);
      if !ok {
        return Outside, kind, cellPointerArray;
      }
      assert cellPointerArray[..|offsets|] == cellPointerArray[..];
      code := Good;
    }

    /** The children of an interior page; the last one is read apart. */
    method LoadChildren(data: Data, cellPointerArray: array<int>, kind: int) returns (code: Code, pagenos: array<int>)
      ensures fresh(pagenos)
      ensures Children(data, cellPointerArray[..], kind) == if code == Good then Inner(pagenos[..]) else Bad(code)
    {
      hide ReadInt, ReadAll;
      var cellsCount := cellPointerArray.Length;
      var hasRightMostPageno := if kind == INTERIOR_TABLE then 1 else 0;
      pagenos := new int[cellsCount + hasRightMostPageno];
      var ok := ReadInts(data, cellPointerArray[..], 4, pagenos);
      if !ok {
        return Outside, pagenos;
      }
      if hasRightMostPageno == 1 {
        var last := ReadInt(data, 8, 4);
        if last == None {
          return Outside, pagenos;
        }
        pagenos[cellsCount] := last.value;
        assert pagenos[..] == pagenos[..cellsCount] + [last.value];
      } else {
        assert pagenos[..] == pagenos[..cellsCount];
      }
      code := Good;
    }

    /** sqliterkBtreeParsePage: for every run that ends, whatever the file. The ghost parameter is the depth of that
        run, which RepairEnds.WalkTerminates bounds. */
    method ParsePage(n: int, ghost fuel: nat) returns (code: Code)
      requires Valid() && RepairWalk.ParsePage(env, Contents(), n, fuel).Walked?
      modifies this`rows, pager.pagesStatus
      ensures Walked(Contents(), code) == RepairWalk.ParsePage(env, old(Contents()), n, fuel)
      decreases fuel, 1
    {
      hide RepairWalk.ParseBody, BeginCode, BeginStatus, EndStatus;
      if n > |env.db.pages| {
        return Misuse;
      }
      code := OnBeginParsePage(n);
      if code != Good {
        KeptWhenRefused(old(pager.pagesStatus[..]), n);
        return;
      }
      code := ParseBody(n, fuel);
      OnEndParsePage(n, code);
    }

    /** Between the two notifications. */
    method ParseBody(n: int, ghost fuel: nat) returns (code: Code)
      requires Valid() && RepairWalk.ParseBody(env, Contents(), n, fuel).Walked?
      modifies this`rows, pager.pagesStatus
      ensures Walked(Contents(), code) == RepairWalk.ParseBody(env, old(Contents()), n, fuel)
      decreases fuel, 0
    {
      hide Children, ParseCells, ParseChildren;
      var page := Acquire(env.db, n);
      if page.NoPage? {
        return page.code;
      }
      var data := page.data;
      var kind, cellPointerArray;
      code, kind, cellPointerArray := LoadCellPointers(n, data);
      if code != Good {
        return;
      }
      if kind == LEAF_TABLE {
        if env.skipRows {
          return;
        }
        assert cellPointerArray[..cellPointerArray.Length] == cellPointerArray[..];
        code := ParseCellArray(n, data, cellPointerArray, cellPointerArray.Length);
      } else if kind != LEAF_INDEX {
        var pagenos;
        code, pagenos := LoadChildren(data, cellPointerArray, kind);
        if code == Good {
          ChildrenAreGood(env, Contents(), pagenos[..], fuel - 1);
          ParseAll(pagenos, fuel - 1);
        }
      }
    }

    /** The loop over the children. */
    method ParseAll(pagenos: array<int>, ghost fuel: nat)
      requires Valid() && ParseChildren(env, Contents(), pagenos[..], fuel).Walked?
      modifies this`rows, pager.pagesStatus
      ensures Walked(Contents(), Good) == ParseChildren(env, old(Contents()), old(pagenos[..]), fuel)
      decreases fuel, 2
    {
      hide RepairWalk.ParsePage;
      ghost var kids := pagenos[..];
      assert kids[0..] == kids;
      var i := 0;
      while i < pagenos.Length
        invariant 0 <= i <= pagenos.Length && pagenos[..] == kids
        invariant ParseChildren(env, old(Contents()), kids, fuel) == ParseChildren(env, Contents(), kids[i..], fuel)
        decreases pagenos.Length - i
      {
        assert kids[i..][0] == pagenos[i] && kids[i..][1..] == kids[i + 1..];
        var code := ParsePage(pagenos[i], fuel);
        if code == Cancelled {
          return;
        }
        i := i + 1;
      }
      assert kids[i..] == [];
    }
  }

  /** A page of type `kind` with those cell pointers. */
  function ViewWith(data: Data, kind: int, pointers: seq<int>): View {
    if kind == LEAF_TABLE then Rows(pointers)
    else if kind == LEAF_INDEX then IndexLeaf
    else Children(data, pointers, kind)
  }

  lemma {:induction false} KeptWhenRefused(st: seq<Status>, n: int)
    requires BeginCode(st, n) != Good
    ensures BeginStatus(st, n) == st
  {
  }

  /** The buffer and the pages are those of `ReadPayload`. */
  ghost predicate Loaded(db: Db, data: Data, offset: nat, size: int, code: Code, bytes: Data, overflow: seq<int>)
    requires |data| == db.pagesize
  {
    ReadPayload(db, data, offset, size) == (if code == Good then Payload(overflow, bytes) else NoPayload(code))
    && (code != Good ==> overflow == [])
  }

  lemma {:induction false} Assembled(s: Data, local: nat, end: nat)
    requires local <= end <= |s| && s[end..] == Zeros(|s| - local)[end - local..]
    ensures s == s[..local] + s[local..end] + Zeros(|s| - end)
    ensures local == |s| ==> s[..local] == s
  {
    assert s[end..] == Zeros(|s| - end);
  }

  lemma {:induction false} NothingTouched(db: Db, st: seq<Status>)
    ensures TouchAll(db, st, []) == st
  {
  }

  /** A cell once its payload has been read. */
  function FinishCell(env: Env, st: State, n: int, rowid: int, payload: PayloadRead): Walked {
    if payload.NoPayload? then Walked(st, payload.code)
    else
      var touched := State(TouchAll(env.db, st.status, payload.touched), st.rows);
      var record := ParseRecord(payload.bytes);
      if record.Failed? then Walked(touched, record.code)
      else Deliver(env, touched, Row(n, rowid, record.values, payload.touched))
  }

  lemma {:induction false} CellInSteps(env: Env, st: State, n: int, pointer: int)
    requires Acquire(env.db, n).Page?
    ensures var data := Acquire(env.db, n).data;
            var size := Decode(data, pointer);
            var rowid := if size.Varint? then Decode(data, pointer + size.length) else size;
            ParseCell(env, st, n, pointer) ==
            if size.NoVarint? then Walked(st, size.code)
            else if size.value > MAX_PAYLOAD then Walked(st, Damaged)
            else if rowid.NoVarint? then Walked(st, rowid.code)
            else FinishCell(env, st, n, rowid.value, ReadPayload(env.db, data, pointer + size.length + rowid.length, size.value))
  {
    hide Acquire, Decode, ReadPayload, ParseRecord, Deliver;
    NothingTouched(env.db, st.status);
  }

  lemma {:induction false} NothingBefore(chain: Chain)
    ensures Joined(Chain([], []), chain) == chain
  {
    assert Chain([] + chain.touched, [] + chain.bytes) == chain;
  }

  function Joined(a: Chain, b: Chain): Chain {
    Chain(a.touched + b.touched, a.bytes + b.bytes)
  }

  /** One round of the chain loop, after the part `before`. */
  lemma {:induction false} FollowStep(db: Db, before: Chain, n: int, rest: nat)
    requires ValidNo(db, n)
    ensures Acquire(db, n).NoPage? || rest == 0 ==>
            Joined(before, Follow(db, n, rest)) == Chain(before.touched + [n], before.bytes)
    ensures Acquire(db, n).Page? && rest > 0 ==>
            Joined(before, Follow(db, n, rest)) ==
            Joined(Chain(before.touched + [n], before.bytes + Acquire(db, n).data[4..4 + Min(rest, Room(db))]),
                   Follow(db, NextPage(Acquire(db, n).data), rest - Min(rest, Room(db))))
  {
    hide NextPage, Acquire;
    if Acquire(db, n).NoPage? || rest == 0 {
      assert before.bytes + [] == before.bytes;
    } else {
      var data := Acquire(db, n).data;
      var tail := Follow(db, NextPage(data), rest - Min(rest, Room(db)));
      assert before.touched + ([n] + tail.touched) == before.touched + [n] + tail.touched;
      var chunk := data[4..4 + Min(rest, Room(db))];
      assert before.bytes + (chunk + tail.bytes) == before.bytes + chunk + tail.bytes;
    }
  }

  lemma {:induction false} FollowEnds(db: Db, n: int, rest: int)
    ensures !ValidNo(db, n) ==> forall a: Chain :: Joined(a, Follow(db, n, rest)) == a
  {
  }

  lemma {:induction false} Grown(s: Data, start: nat, end: nat, more: nat, front: Data, got: Data, chunk: Data)
    requires start <= end <= more <= |s| && more == end + |chunk|
    requires |front| == start && |got| == end - start && s[..end] == front + got && s[end..more] == chunk
    ensures s[start..more] == got + chunk && s[..start] == front
  {
    assert s[..end][..start] == s[..start];
    assert s[..end][start..] == s[start..end];
    assert s[start..more] == s[start..end] + s[end..more];
  }
}
