/** Pages of a database file and their parse status (sqliterk_pager.c). */
module RepairPages {
  import opened Options
  import opened Bytes
  import opened RepairBytes

  /** A file cut into pages; the last one may be short. */
  datatype Image = Image(pages: seq<Data>, pagesize: nat, usable: nat)

  /** Page sizes start at 512 bytes, of which one byte in the header says how many are reserved. */
  type Db = d: Image | 512 <= d.pagesize && d.usable <= d.pagesize <= d.usable + 255
    witness Image([], 512, 512)

  // ----- how a file is cut

  const DEFAULT_PAGESIZE := 4096

  /** "SQLite format 3" and a NUL */
  const HEADER_MAGIC: Data := [83, 81, 76, 105, 116, 101, 32, 102, 111, 114, 109, 97, 116, 32, 51, 0]

  predicate IsPowerOfTwo(n: nat) {
    n == 1 || (n > 1 && n % 2 == 0 && IsPowerOfTwo(n / 2))
  }

  datatype Layout = Layout(pagesize: int, reserved: int)

  /** sqliterkPagerParseHeader, for a plain-text database without a page size given from outside: the layout that the
      first 100 bytes of the file are taken to ask for. */
  function ParseHeader(header: Data): Layout
    requires |header| >= 100
  {
    if header[..16] != HEADER_MAGIC then Layout(DEFAULT_PAGESIZE, 0)
    else
      var size, reserved := Int8(header[16]) * 256 + header[17], Int8(header[20]);
      Layout(
        if size < 512 || !IsPowerOfTwo(size) then DEFAULT_PAGESIZE else size,
        if reserved < 0 then 0 else reserved)
  }

  /** Whatever the header holds, the layout is that of a `Db`. */
  lemma {:induction false} LayoutIsSane(header: Data)
    requires |header| >= 100
    ensures
      var layout := ParseHeader(header);
      512 <= layout.pagesize && 0 <= layout.reserved <= 127
  {
    hide IsPowerOfTwo;
  }

  /** Section 1.3 of the file format: a big-endian number, of which 1 stands for 65536. */
  function FormatSize(header: Data): nat
    requires |header| >= 100
  {
    var size := Int32(0, 0, header[16], header[17]);
    if size == 1 then 65536 else size
  }

  /** The header is one that the format knows: page sizes are powers of two from 512 to 65536. */
  predicate IsFormat(header: Data)
    requires |header| >= 100
  {
    header[..16] == HEADER_MAGIC && FormatSize(header) >= 512 && IsPowerOfTwo(FormatSize(header))
  }

  /** Exactly the two largest page sizes of the format are misread, as 4096: 32768 reads as a negative number, and 65536 is
      written as 1. Exactly the numbers of reserved bytes from 128 on are misread, as none. */
  lemma {:induction false} LayoutIsFormatExactly(header: Data)
    requires |header| >= 100 && IsFormat(header)
    ensures
      var layout := ParseHeader(header);
      && (layout.pagesize == FormatSize(header) <==> FormatSize(header) <= 16384)
      && (layout.pagesize != FormatSize(header) ==> layout.pagesize == DEFAULT_PAGESIZE)
      && (layout.reserved == header[20] <==> header[20] < 128) && (header[20] >= 128 ==> layout.reserved == 0)
  {
    var size := FormatSize(header);
    if size > 16384 {
      assert IsPowerOfTwo(256);
      assert IsPowerOfTwo(16384);
      PowersApart(size, 16384);
      hide IsPowerOfTwo;
    }
  }

  lemma {:induction false} PowersApart(n: nat, m: nat)
    requires IsPowerOfTwo(n) && IsPowerOfTwo(m) && n > m
    ensures n >= 2 * m
  {
    if m > 1 {
      PowersApart(n / 2, m / 2);
    }
  }

  /** What every header is taken to ask for: without the magic text the defaults; with it the page size that the header
      names if that is one of six, and the reserved bytes if they are fewer than 128. */
  lemma {:induction false} LayoutIsExact(header: Data)
    requires |header| >= 100
    ensures
      var size := Int32(0, 0, header[16], header[17]);
      ParseHeader(header) ==
        if header[..16] != Ascii("SQLite format 3") + [0] then Layout(4096, 0)
        else Layout(if size in {512, 1024, 2048, 4096, 8192, 16384} then size else 4096,
                    if header[20] < 128 then header[20] else 0)
  {
    assert HEADER_MAGIC == Ascii("SQLite format 3") + [0];
    var size := Int32(0, 0, header[16], header[17]);
    if 512 <= size < 32768 {
      SixPowers(size);
    }
    hide IsPowerOfTwo;
  }

  lemma {:induction false} SixPowers(n: nat)
    requires 512 <= n < 32768
    ensures IsPowerOfTwo(n) <==> n in {512, 1024, 2048, 4096, 8192, 16384}
  {
    assert IsPowerOfTwo(8) && IsPowerOfTwo(64);
    assert IsPowerOfTwo(512) && IsPowerOfTwo(2048) && IsPowerOfTwo(16384);
    assert IsPowerOfTwo(1024) && IsPowerOfTwo(4096) && IsPowerOfTwo(8192);
    if IsPowerOfTwo(n) {
      var m := if n < 1024 then 512 else if n < 2048 then 1024 else if n < 4096 then 2048
               else if n < 8192 then 4096 else if n < 16384 then 8192 else 16384;
      if n > m {
        PowersApart(n, m);
      }
    }
  }

  /** The pager cuts a file that starts with this page as `db` says. */
  predicate CutAs(db: Db, first: Data) {
    && |first| >= 100 && db.pages != [] && db.pages[0] == first
    && ParseHeader(first) == Layout(db.pagesize, db.pagesize - db.usable)
  }

  /** The header of a database with pages of 512 bytes, none of them reserved; the rest of the page is clear. */
  function HeaderPage(): (data: Data)
    ensures |data| == 512
  {
    HEADER_MAGIC + [2, 0] + seq(494, _ => 0)
  }

  lemma {:induction false} HeaderPageSays512()
    ensures ParseHeader(HeaderPage()) == Layout(512, 0)
  {
    var data := HeaderPage();
    assert data[..16] == HEADER_MAGIC;
    assert data[16] == 2 && data[17] == 0 && data[20] == 0;
    assert IsPowerOfTwo(8) by {
      assert IsPowerOfTwo(2);
    }
    assert IsPowerOfTwo(64) by {
      assert IsPowerOfTwo(16);
    }
    assert IsPowerOfTwo(512) by {
      assert IsPowerOfTwo(128);
    }
  }

  // ----- pages

  /** sqliterkPagerIsPagenoValid */
  predicate ValidNo(db: Db, n: int) {
    1 <= n <= |db.pages|
  }

  const SHORT_READ := 5

  datatype Acquired = NoPage(code: Code) | Page(data: Data)

  /** sqliterkPageAcquireOne: a whole page or an error. */
  function Acquire(db: Db, n: int): (r: Acquired)
    ensures r.Page? ==> ValidNo(db, n) && |r.data| == db.pagesize
  {
    if !ValidNo(db, n) then NoPage(Misuse)
    else if |db.pages[n - 1]| != db.pagesize then NoPage(Refused(SHORT_READ))
    else Page(db.pages[n - 1])
  }

  /** The first page starts with the 100-byte file header. */
  function HeaderOffset(n: int): nat {
    if n == 1 then 100 else 0
  }

  /** sqliterkParseInt, when the bytes lie in the buffer. */
  function ReadInt(data: Data, offset: int, n: nat): Option<int> {
    if 0 <= offset && offset + n <= |data| then ParseInt64(data[offset..offset + n]) else None
  }

  datatype Status = Invalid | Unchecked | Checking | Damage | Discarded | Checked

  /** sqliterkPagerGetStatus */
  function Get(st: seq<Status>, n: int): Status {
    if 1 <= n <= |st| then st[n - 1] else Invalid
  }

  /** sqliterkPagerSetStatus */
  function Put(st: seq<Status>, n: int, s: Status): (r: seq<Status>)
    ensures |r| == |st|
    ensures forall k :: Get(r, k) == if k == n && 1 <= n <= |st| then s else Get(st, k)
  {
    if 1 <= n <= |st| then st[n - 1 := s] else st
  }

  /** sqliterkNotify_onBeginParsePage */
  function BeginCode(st: seq<Status>, n: int): Code {
    if Get(st, n) == Checking then Misuse else Good
  }

  function BeginStatus(st: seq<Status>, n: int): (r: seq<Status>)
    ensures |r| == |st|
  {
    if Get(st, n) == Checking then st else Put(st, n, Checking)
  }

  /** sqliterkNotify_onEndParsePage */
  function EndStatus(st: seq<Status>, n: int, result: Code): (r: seq<Status>)
    ensures |r| == |st|
  {
    match result
    case Good => Put(st, n, Checked)
    case Damaged => Put(st, n, Damage)
    case Cancelled => st
    case _ => Put(st, n, Invalid)
  }

  /** An overflow page is begun, whatever the answer, and ended with the result of reading it. */
  function Touch(db: Db, st: seq<Status>, n: int): (r: seq<Status>)
    ensures |r| == |st|
  {
    var got := Acquire(db, n);
    EndStatus(BeginStatus(st, n), n, if got.Page? then Good else got.code)
  }

  function TouchAll(db: Db, st: seq<Status>, ns: seq<int>): (r: seq<Status>)
    ensures |r| == |st|
    decreases |ns|
  {
    if ns == [] then st else TouchAll(db, Touch(db, st, ns[0]), ns[1..])
  }

  lemma {:induction false} TouchAllAppends(db: Db, st: seq<Status>, ns: seq<int>, n: int)
    ensures TouchAll(db, st, ns + [n]) == Touch(db, TouchAll(db, st, ns), n)
    decreases |ns|
  {
    if ns == [] {
      assert TouchAll(db, Touch(db, st, n), []) == Touch(db, st, n);
    } else {
      TouchAllAppends(db, Touch(db, st, ns[0]), ns[1..], n);
      assert (ns + [n])[1..] == ns[1..] + [n];
    }
  }

  /** Overflow pages change no other page, and are never left in status checking. */
  lemma {:induction false} TouchAllElsewhere(db: Db, st: seq<Status>, ns: seq<int>, k: int)
    ensures k !in ns ==> Get(TouchAll(db, st, ns), k) == Get(st, k)
    ensures k in ns ==> Get(TouchAll(db, st, ns), k) != Checking
    decreases |ns|
  {
    if ns != [] {
      TouchAllElsewhere(db, Touch(db, st, ns[0]), ns[1..], k);
    }
  }

  /** What is recorded for them: checked if the page could be read, and invalid if not. */
  lemma {:induction false} TouchAllIsExact(db: Db, st: seq<Status>, ns: seq<int>, k: int)
    requires k in ns && ValidNo(db, k) && |st| == |db.pages|
    ensures Get(TouchAll(db, st, ns), k) == if |db.pages[k - 1]| == db.pagesize then Checked else Invalid
    decreases |ns|
  {
    if k in ns[1..] {
      TouchAllIsExact(db, Touch(db, st, ns[0]), ns[1..], k);
    } else {
      TouchAllElsewhere(db, Touch(db, st, ns[0]), ns[1..], k);
    }
  }

  function DiscardAll(st: seq<Status>, ns: seq<int>): (r: seq<Status>)
    ensures |r| == |st|
    decreases |ns|
  {
    if ns == [] then st else DiscardAll(Put(st, ns[0], Discarded), ns[1..])
  }

  lemma {:induction false} DiscardAllElsewhere(st: seq<Status>, ns: seq<int>, k: int)
    ensures k !in ns ==> Get(DiscardAll(st, ns), k) == Get(st, k)
    ensures k in ns && 1 <= k <= |st| ==> Get(DiscardAll(st, ns), k) == Discarded
    decreases |ns|
  {
    if ns != [] {
      DiscardAllElsewhere(Put(st, ns[0], Discarded), ns[1..], k);
    }
  }
}
