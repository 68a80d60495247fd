/** What is read of a payload on any file, intact or not: the numbers of section 1.6, the chain page by page, and the
    reasons for which a cell fails. */
module RepairChain {
  import opened Options
  import opened Bytes
  import opened RepairBytes
  import opened RepairRecord
  import opened RepairPages
  import opened RepairPayload

  // ----- how much a leaf page holds, as section 1.6 has it

  /** The minimum M: (U - 12) * 32 / 255 - 23, rounded down. */
  predicate IsLeast(usable: int, m: int) {
    255 * (m + 23) <= 32 * (usable - 12) < 255 * (m + 24)
  }

  /** K: what is left of the payload when the rest fills overflow pages, but not less than the minimum. */
  predicate IsSurplus(usable: int, size: int, m: int, k: int)
    requires usable > 4
  {
    m <= k < m + usable - 4 && (size - k) % (usable - 4) == 0
  }

  ghost predicate IsLocal(usable: int, size: int, local: int)
    requires usable > 4
  {
    if size <= usable - 35 then local == size
    else
      exists m, k :: IsLeast(usable, m) && IsSurplus(usable, size, m, k) && local == if k <= usable - 35 then k else m
  }

  /** The code stores the number of bytes that the format says. */
  lemma {:induction false} LocalIsFormat(usable: int, size: int, local: int)
    requires usable >= 257
    ensures local == LocalSize(usable, size) <==> IsLocal(usable, size, local)
  {
    if size > usable - 35 {
      var m := MinLocal(usable);
      var k := Surplus(usable, size);
      LeastIs(usable);
      SurplusIs(size, m, usable - 4);
      assert IsLeast(usable, m) && IsSurplus(usable, size, m, k);
      assert LocalSize(usable, size) == if k <= usable - 35 then k else m;
      hide MinLocal, Surplus;
      forall m', k' | IsLeast(usable, m') && IsSurplus(usable, size, m', k') ensures m' == m && k' == k {
        OneSurplus(usable, size, m, k, k');
      }
    }
  }

  lemma {:induction false} LeastIs(usable: int)
    ensures IsLeast(usable, MinLocal(usable))
  {
    var x := (usable - 12) * 32;
    assert x == x / 255 * 255 + x % 255;
  }

  lemma {:induction false} SurplusIs(size: int, m: int, d: int)
    requires d > 0
    ensures var k := m + (size - m) % d; m <= k < m + d && (size - k) % d == 0
  {
    var x := size - m;
    assert x - x % d == x / d * d;
    Multiples(x / d, d);
  }

  lemma {:induction false} OneSurplus(usable: int, size: int, m: int, a: int, b: int)
    requires usable > 4 && IsSurplus(usable, size, m, a) && IsSurplus(usable, size, m, b)
    ensures a == b
  {
    var d := usable - 4;
    var p, q := (size - a) / d, (size - b) / d;
    assert size - a == p * d && size - b == q * d;
    Distribute(p, q, d);
    Multiple(p - q, d);
  }

  // ----- the chain

  /** The number of the `i`th page of the chain from page `n` on: the first four bytes of a page name the next one. */
  function LinkAt(db: Db, n: int, i: nat): int
    decreases i
  {
    if i == 0 then n
    else if Acquire(db, n).Page? then LinkAt(db, Signed(Acquire(db, n).data[..4]), i - 1)
    else 0
  }

  /** The `i`th page is reached: it is one of the file, all before it can be read, and bytes were missing before the one
      in front of it. */
  ghost predicate IsReached(db: Db, n: int, rest: int, i: nat) {
    && (forall j :: 0 <= j <= i ==> ValidNo(db, LinkAt(db, n, j)))
    && (forall j :: 0 <= j < i ==> Acquire(db, LinkAt(db, n, j)).Page? && j * Room(db) < rest)
  }

  /** Whatever the pages hold, the loop goes through just the pages that are reached. */
  lemma {:induction false} FollowIsExact(db: Db, n: int, rest: int, i: nat)
    ensures i < |Follow(db, n, rest).touched| <==> IsReached(db, n, rest, i)
    ensures i < |Follow(db, n, rest).touched| ==> Follow(db, n, rest).touched[i] == LinkAt(db, n, i)
    decreases i
  {
    hide Signed, NextPage, Room;
    assert LinkAt(db, n, 0) == n;
    if i == 0 {
      assert ValidNo(db, n) ==> Follow(db, n, rest).touched[0] == n;
    } else if ValidNo(db, n) && Acquire(db, n).Page? && rest > 0 {
      var data := Acquire(db, n).data;
      NextPageIsSigned(data);
      var next, size := NextPage(data), Min(rest, Room(db));
      FollowIsExact(db, next, rest - size, i - 1);
      assert LinkAt(db, n, i) == LinkAt(db, next, i - 1);
      ReachedNext(db, n, rest, i);
    } else if IsReached(db, n, rest, i) {
      FirstIsReached(db, n, rest, i);
    }
  }

  lemma {:induction false} FirstIsReached(db: Db, n: int, rest: int, i: nat)
    requires i > 0 && IsReached(db, n, rest, i)
    ensures ValidNo(db, n) && Acquire(db, n).Page? && rest > 0
  {
    hide Acquire, Room, ValidNo;
    var zero := 0;
    assert LinkAt(db, n, zero) == n;
    assert zero * Room(db) == 0;
  }

  lemma {:induction false} ReachedNext(db: Db, n: int, rest: int, i: nat)
    requires i > 0 && ValidNo(db, n) && Acquire(db, n).Page? && rest > 0
    ensures
      var next := Signed(Acquire(db, n).data[..4]);
      IsReached(db, n, rest, i) <==> IsReached(db, next, rest - Min(rest, Room(db)), i - 1)
  {
    hide Signed, Acquire;
    var next, room := Signed(Acquire(db, n).data[..4]), Room(db);
    var left := rest - Min(rest, room);
    forall j: nat ensures LinkAt(db, n, j + 1) == LinkAt(db, next, j) {
    }
    forall j: nat ensures (j + 1) * room < rest <==> j * room < left {
      OneRoomMore(j, room, rest);
    }
    if IsReached(db, n, rest, i) {
      forall j | 0 <= j <= i - 1 ensures ValidNo(db, LinkAt(db, next, j)) {
        assert LinkAt(db, n, j + 1) == LinkAt(db, next, j);
      }
      forall j | 0 <= j < i - 1 ensures Acquire(db, LinkAt(db, next, j)).Page? && j * room < left {
        assert LinkAt(db, n, j + 1) == LinkAt(db, next, j);
        assert (j + 1) * room < rest;
      }
    }
    if IsReached(db, next, left, i - 1) {
      forall j | 0 <= j <= i ensures ValidNo(db, LinkAt(db, n, j)) {
        if j > 0 {
          assert LinkAt(db, n, j - 1 + 1) == LinkAt(db, next, j - 1);
        }
      }
      forall j | 0 <= j < i ensures Acquire(db, LinkAt(db, n, j)).Page? && j * room < rest {
        if j > 0 {
          assert LinkAt(db, n, j - 1 + 1) == LinkAt(db, next, j - 1);
          assert (j - 1) * room < left;
        }
      }
    }
  }

  lemma {:induction false} OneRoomMore(j: nat, room: int, rest: int)
    requires room > 0 && rest > 0
    ensures (j + 1) * room < rest <==> j * room < rest - Min(rest, room)
  {
    assert (j + 1) * room == j * room + room;
    assert j * room >= 0;
  }

  /** Byte `j` of the share of page `i` of the chain is where it belongs. */
  ghost predicate ByteLies(db: Db, chain: Chain, rest: int, i: nat, j: nat) {
    var at := i * Room(db) + j;
    && 0 <= at
    && (at < |chain.bytes| <==> at < rest && i < |chain.touched| && Acquire(db, chain.touched[i]).Page?)
    && (at < |chain.bytes| && j < Room(db) ==> chain.bytes[at] == Acquire(db, chain.touched[i]).data[4 + j])
  }

  /** Each byte of each page's share goes to its place; nothing else does. */
  lemma {:induction false} ChainBytesAreExact(db: Db, n: int, rest: nat, i: nat, j: nat)
    requires j < Room(db)
    ensures ByteLies(db, Follow(db, n, rest), rest, i, j)
    decreases i
  {
    hide NextPage, ByteLies;
    var room := Room(db);
    if ValidNo(db, n) && Acquire(db, n).Page? && rest > 0 {
      var data := Acquire(db, n).data;
      var size: nat := Min(rest, room);
      var tail := Follow(db, NextPage(data), rest - size);
      var share := data[4..4 + size];
      assert Follow(db, n, rest) == Chain([n] + tail.touched, share + tail.bytes);
      hide Follow, Room;
      if size < room {
        NoMoreBytes(db, NextPage(data));
      }
      if i > 0 {
        ChainBytesAreExact(db, NextPage(data), rest - size, i - 1, j);
        LaterByte(db, n, share, tail, rest, size, i, j);
      } else {
        FirstByte(db, n, data, size, tail, rest, j);
      }
    } else {
      NoByte(db, Follow(db, n, rest), rest, i, j);
    }
  }

  lemma {:induction false} NoByte(db: Db, chain: Chain, rest: nat, i: nat, j: nat)
    requires chain.bytes == [] && (rest == 0 || |chain.touched| == 0 || !Acquire(db, chain.touched[0]).Page?)
    requires rest > 0 ==> |chain.touched| <= 1
    ensures ByteLies(db, chain, rest, i, j)
  {
    hide Acquire, Room;
    assert i * Room(db) >= 0;
  }

  lemma {:induction false} FirstByte(db: Db, n: int, data: Data, size: nat, tail: Chain, rest: nat, j: nat)
    requires Acquire(db, n) == Page(data) && size == Min(rest, Room(db)) && j < Room(db)
    requires size < Room(db) ==> tail.bytes == []
    ensures ByteLies(db, Chain([n] + tail.touched, data[4..4 + size] + tail.bytes), rest, 0, j)
  {
    hide Acquire;
    assert 0 * Room(db) == 0;
  }

  lemma {:induction false} LaterByte(
    db: Db, n: int, share: Data, tail: Chain, rest: nat, size: nat, i: nat, j: nat)
    requires i > 0 && j < Room(db) && size == |share| == Min(rest, Room(db)) && rest > 0
    requires size < Room(db) ==> tail.bytes == []
    requires ByteLies(db, tail, rest - size, i - 1, j)
    ensures ByteLies(db, Chain([n] + tail.touched, share + tail.bytes), rest, i, j)
  {
    hide Acquire;
    var room := Room(db);
    hide Room;
    OneRoomOn(i, j, room);
    BehindShare(share, tail.bytes, (i - 1) * room + j, room);
  }

  lemma {:induction false} BehindShare(share: Data, tail: Data, at: nat, room: nat)
    requires |share| == room || (|share| < room && tail == [])
    ensures at < |tail| <==> at + room < |share + tail|
    ensures at < |tail| ==> (share + tail)[at + room] == tail[at]
  {
  }

  lemma {:induction false} OneRoomOn(i: nat, j: nat, room: nat)
    requires i > 0
    ensures i * room + j == (i - 1) * room + j + room && (i - 1) * room >= 0
  {
  }

  lemma {:induction false} NoMoreBytes(db: Db, n: int)
    ensures Follow(db, n, 0).bytes == []
  {
  }

  // ----- payloads and cells

  /** What a payload is made of: its local part, what the chain delivers, and zeros. */
  ghost predicate IsAssembled(db: Db, data: Data, offset: nat, size: nat, local: nat, bytes: Data, touched: seq<int>)
    requires offset + local <= |data| && local <= size
  {
    && |bytes| == size && bytes[..local] == data[offset..offset + local]
    && (local == size ==> touched == [])
    && (local < size ==>
          && offset + local + 4 <= |data|
          && var chain := Follow(db, Signed(data[offset + local..offset + local + 4]), size - local);
             && touched == chain.touched
             && forall k :: local <= k < size ==>
                  bytes[k] == if k - local < |chain.bytes| then chain.bytes[k - local] else 0)
  }

  /** On any file: when a payload is read, and what it is. A broken chain fails no cell. */
  lemma {:induction false} PayloadIsExact(db: Db, data: Data, offset: nat, size: int, local: int)
    requires |data| == db.pagesize && IsLocal(db.usable, size, local)
    ensures
      var r := ReadPayload(db, data, offset, size);
      if size <= 0 then r == NoPayload(Misuse)
      else if offset + local > db.pagesize then r == NoPayload(Damaged)
      else if local < size && offset + local + 4 > db.pagesize then r == NoPayload(Outside)
      else 0 < local <= size && r.Payload? && IsAssembled(db, data, offset, size, local, r.bytes, r.touched)
  {
    hide Follow, IsLocal, LocalSize, ParseInt64, Signed;
    if size > 0 {
      LocalIsFormat(db.usable, size, local);
      LocalFits(db.usable, size);
      if local < size && offset + local + 4 <= db.pagesize {
        IntIsBigEndian(data[offset + local..offset + local + 4]);
        var next := Signed(data[offset + local..offset + local + 4]);
        assert ReadInt(data, offset + local, 4) == Some(next);
        FollowFits(db, next, size - local);
      }
    }
  }

  /** Any cell, step by step. */
  lemma {:induction false} CellIsExact(db: Db, data: Data, pointer: int)
    requires |data| == db.pagesize
    ensures
      var cell, size := ReadCell(db, data, pointer), Decode(data, pointer);
      && (size.NoVarint? ==> cell == CellRead([], 0, Failed(size.code)))
      && (size.Varint? && size.value > 0x400_0000 ==> cell == CellRead([], 0, Failed(Damaged)))
      && (size.Varint? && size.value <= 0x400_0000 ==>
            var rowid := Decode(data, pointer + size.length);
            && (rowid.NoVarint? ==> cell == CellRead([], 0, Failed(rowid.code)))
            && (rowid.Varint? ==>
                  var payload := ReadPayload(db, data, pointer + size.length + rowid.length, size.value);
                  && cell.rowid == rowid.value
                  && (payload.NoPayload? ==> cell.touched == [] && cell.record == Failed(payload.code))
                  && (payload.Payload? ==>
                        cell.touched == payload.touched && cell.record == ParseRecord(payload.bytes))))
  {
    hide Decode, ReadPayload, ParseRecord;
  }

  /** The payload of `size` bytes at `offset` lies inside its page and is these bytes, which are a record of these values. */
  ghost predicate HoldsRecord(db: Db, data: Data, offset: nat, size: int, bytes: Data, values: seq<Value>) {
    && size > 0
    && (exists local: nat, touched ::
          && IsLocal(db.usable, size, local) && local <= size && offset + local <= |data|
          && IsAssembled(db, data, offset, size, local, bytes, touched))
    && exists head, columns :: Tiles(bytes, head, columns) && values == Values(columns)
  }

  ghost predicate Yields(db: Db, data: Data, offset: nat, size: int, values: seq<Value>) {
    exists bytes :: HoldsRecord(db, data, offset, size, bytes, values)
  }

  /** On any page of any file: a cell yields these values if and only if its two numbers can be read, its payload has at
      most 64MB and lies inside the page, and what is put together of it is a record of the values. */
  lemma {:induction false} CellYieldsExactly(db: Db, data: Data, pointer: int, values: seq<Value>)
    requires |data| == db.pagesize
    ensures
      var size := Decode(data, pointer);
      ReadCell(db, data, pointer).record == Accepted(values) <==>
        && size.Varint? && size.value <= 0x400_0000
        && var rowid := Decode(data, pointer + size.length);
           rowid.Varint? && Yields(db, data, pointer + size.length + rowid.length, size.value, values)
  {
    hide Decode, ReadPayload, ParseRecord, Yields;
    CellIsExact(db, data, pointer);
    var size := Decode(data, pointer);
    if size.Varint? && size.value <= 0x400_0000 {
      var rowid := Decode(data, pointer + size.length);
      if rowid.Varint? {
        PayloadYieldsExactly(db, data, pointer + size.length + rowid.length, size.value, values);
      }
    }
  }

  lemma {:induction false} PayloadYieldsExactly(db: Db, data: Data, offset: nat, size: int, values: seq<Value>)
    requires |data| == db.pagesize
    ensures
      var payload := ReadPayload(db, data, offset, size);
      payload.Payload? && ParseRecord(payload.bytes) == Accepted(values) <==> Yields(db, data, offset, size, values)
  {
    hide IsLocal, LocalSize, ReadPayload, ParseRecord, IsAssembled, Tiles, Values;
    var payload, local := ReadPayload(db, data, offset, size), LocalSize(db.usable, size);
    LocalIsFormat(db.usable, size, local);
    PayloadIsExact(db, data, offset, size, local);
    if payload.Payload? {
      AcceptanceIsExact(payload.bytes, values);
      if ParseRecord(payload.bytes) == Accepted(values) {
        assert IsAssembled(db, data, offset, size, local, payload.bytes, payload.touched);
        assert HoldsRecord(db, data, offset, size, payload.bytes, values);
      }
    }
    forall bytes | HoldsRecord(db, data, offset, size, bytes, values)
      ensures payload.Payload? && payload.bytes == bytes
    {
      var l: nat, touched :| IsLocal(db.usable, size, l) && l <= size && offset + l <= |data|
                             && IsAssembled(db, data, offset, size, l, bytes, touched);
      LocalIsFormat(db.usable, size, l);
      AssembledFits(db, data, offset, size, l, bytes, touched);
      OneAssembly(db, data, offset, size, l, bytes, touched, payload.bytes, payload.touched);
    }
  }

  lemma {:induction false} AssembledFits(
    db: Db, data: Data, offset: nat, size: nat, local: nat, bytes: Data, touched: seq<int>)
    requires offset + local <= |data| && local <= size && IsAssembled(db, data, offset, size, local, bytes, touched)
    ensures local < size ==> offset + local + 4 <= |data|
  {
  }

  lemma {:induction false} OneAssembly(
    db: Db, data: Data, offset: nat, size: nat, local: nat, a: Data, s: seq<int>, b: Data, t: seq<int>)
    requires offset + local <= |data| && local <= size
    requires IsAssembled(db, data, offset, size, local, a, s) && IsAssembled(db, data, offset, size, local, b, t)
    ensures a == b
  {
    hide Follow, Signed;
    forall k | 0 <= k < size ensures a[k] == b[k] {
      if k < local {
        assert a[k] == a[..local][k] == b[..local][k] == b[k];
      }
    }
  }
}
