/** Numbers in a database file, as sqliterk_util.c reads them: variable-length and big-endian integers. The writers
    are those of the SQLite Database File Format, sections 1.6 and 2.1. */
module RepairBytes {
  import opened Options
  import opened Bytes

  /** `Outside` marks a read past the end of a buffer, where the C program has no defined behaviour. */
  datatype Code = Good | Misuse | Damaged | Cancelled | Outside | Refused(code: int)

  datatype Varint = Varint(value: int, length: nat) | NoVarint(code: Code)

  const MAX_VARINT_LENGTH: nat := 9

  /** memcpy */
  method CopyIn(into: array<Byte>, at: nat, chunk: Data)
    requires at + |chunk| <= into.Length
    modifies into
    ensures into[..at] == old(into[..at]) && into[at..at + |chunk|] == chunk
    ensures into[at + |chunk|..] == old(into[at + |chunk|..])
  {
    forall i | 0 <= i < |chunk| {
      into[at + i] := chunk[i];
    }
  }

  // ----- variable-length integers

  /** The low seven bits of each byte, most significant first. */
  function Fold7(s: Data): (v: int)
    ensures v >= 0
  {
    if s == [] then 0 else Fold7(s[..|s| - 1]) * 128 + s[|s| - 1] % 128
  }

  /** How many bytes carry the continuation bit, from position `n` on and up to position nine. */
  function Continued(s: Data, n: nat): (m: nat)
    requires n <= |s| && n <= MAX_VARINT_LENGTH
    ensures n <= m <= MAX_VARINT_LENGTH && m <= |s|
    ensures forall i :: n <= i < m ==> s[i] >= 128
    ensures m < MAX_VARINT_LENGTH && m < |s| ==> s[m] < 128
    decreases MAX_VARINT_LENGTH - n
  {
    if n < MAX_VARINT_LENGTH && n < |s| && s[n] >= 128 then Continued(s, n + 1) else n
  }

  /** What sqliterkParseVarint64 makes of the bytes from some offset on. */
  function DecodeHead(s: Data): Varint {
    var n := Continued(s, 0);
    if n == MAX_VARINT_LENGTH then NoVarint(Damaged)
    else if n == |s| then NoVarint(Outside)
    else Varint(Fold7(s[..n + 1]), n + 1)
  }

  function Decode(data: Data, offset: int): (r: Varint)
    ensures r.Varint? ==> 0 <= offset && 0 < r.length && offset + r.length <= |data|
    ensures r.NoVarint? ==> r.code == Damaged || r.code == Outside
  {
    if 0 <= offset <= |data| then DecodeHead(data[offset..]) else NoVarint(Outside)
  }

  /** Which bytes are no varint: nine continuation bytes, or fewer up to the end of the buffer. */
  lemma {:induction false} NoVarintExactly(s: Data)
    ensures DecodeHead(s) == NoVarint(Damaged) <==> |s| >= 9 && forall i :: 0 <= i < 9 ==> s[i] >= 128
    ensures DecodeHead(s) == NoVarint(Outside) <==> |s| < 9 && forall i :: 0 <= i < |s| ==> s[i] >= 128
    ensures DecodeHead(s).NoVarint? ==> DecodeHead(s).code == Damaged || DecodeHead(s).code == Outside
  {
    var m := Continued(s, 0);
    assert forall i :: 0 <= i < m ==> s[i] >= 128;
  }

  lemma {:induction false} Fold7Last(s: Data, b: Byte)
    ensures Fold7(s + [b]) == Fold7(s) * 128 + b % 128
  {
    assert (s + [b])[..|s|] == s;
  }

  lemma {:induction false} Fold7Take(s: Data, k: nat)
    requires k < |s|
    ensures Fold7(s[..k + 1]) == Fold7(s[..k]) * 128 + s[k] % 128
  {
    assert s[..k + 1] == s[..k] + [s[k]];
    Fold7Last(s[..k], s[k]);
  }

  lemma {:induction false} NoGroups(s: Data)
    ensures Fold7(s[..0]) == 0
  {
  }

  lemma {:induction false} ContinuedNext(s: Data, n: nat)
    requires n < MAX_VARINT_LENGTH && n < |s|
    ensures Continued(s, n) == if s[n] >= 128 then Continued(s, n + 1) else n
  {
  }

  /** sqliterkParseVarint64. The C program builds the value by shifts and ors; an or with the low seven bits, all zero
      after the shift, is a sum. */
  method ParseVarint64(data: Data, offset: int) returns (r: Varint)
    ensures r == Decode(data, offset)
  {
    if !(0 <= offset < |data|) {
      return NoVarint(Outside);
    }
    hide Fold7, Continued;
    var begin := data[offset..];
    var out: int := 0;
    var i := 0;
    NoGroups(begin);
    while begin[i] >= 128 && i < MAX_VARINT_LENGTH
      invariant 0 <= i < MAX_VARINT_LENGTH && i < |begin|
      invariant Continued(begin, 0) == Continued(begin, i)
      invariant out == Fold7(begin[..i]) * 128
      decreases MAX_VARINT_LENGTH - i
    {
      Fold7Take(begin, i);
      ContinuedNext(begin, i);
      out := out + begin[i] % 128;
      out := out * 128;
      i := i + 1;
      if i >= MAX_VARINT_LENGTH {
        return NoVarint(Damaged);
      }
      if i == |begin| {
        return NoVarint(Outside);
      }
    }
    Fold7Take(begin, i);
    ContinuedNext(begin, i);
    return Varint(out + begin[i], i + 1);
  }

  /** The value fits the 64-bit accumulator, so no shift loses a bit. */
  lemma {:induction false} Fold7Bound(s: Data)
    ensures Fold7(s) < Power(128, |s|)
    decreases |s|
  {
    if s != [] {
      Fold7Bound(s[..|s| - 1]);
    }
  }

  function Power(b: nat, e: nat): (p: nat)
    ensures b > 0 ==> p > 0
  {
    if e == 0 then 1 else Power(b, e - 1) * b
  }

  lemma {:induction false} Power128()
    ensures Power(128, 9) == 0x8000_0000_0000_0000 && Power(128, 8) == 0x100_0000_0000_0000
  {
    assert Power(128, 1) == 128;
    assert Power(128, 2) == 16384;
    assert Power(128, 3) == Power(128, 2) * 128;
    assert Power(128, 4) == Power(128, 3) * 128;
    assert Power(128, 5) == Power(128, 4) * 128;
    assert Power(128, 6) == Power(128, 5) * 128;
    assert Power(128, 7) == Power(128, 6) * 128;
  }

  lemma {:induction false} DecodeFits(data: Data, offset: int)
    ensures Decode(data, offset).Varint? ==> 0 <= Decode(data, offset).value < 0x8000_0000_0000_0000
  {
    if Decode(data, offset).Varint? {
      var s := data[offset..];
      var n := DecodeHead(s).length;
      Fold7Bound(s[..n]);
      PowerGrows(n, 9);
      Power128();
    }
  }

  lemma {:induction false} PowerGrows(a: nat, b: nat)
    requires a <= b
    ensures 1 <= Power(128, a) <= Power(128, b)
    decreases b
  {
    if a < b {
      PowerGrows(a, b - 1);
    } else if a > 0 {
      PowerGrows(a - 1, b - 1);
    }
  }

  /** The bytes of a varint before the last one. */
  function High(v: nat): Data
    decreases v
  {
    if v == 0 then [] else High(v / 128) + [128 + v % 128]
  }

  /** The shortest varint of a value (section 1.6), for values of at most 56 bits. */
  function Encode(v: nat): (s: Data)
    ensures |s| > 0
  {
    High(v / 128) + [v % 128]
  }

  lemma {:induction false} HighFolds(v: nat, k: nat)
    requires v < Power(128, k)
    ensures Fold7(High(v)) == v && |High(v)| <= k && forall i :: 0 <= i < |High(v)| ==> High(v)[i] >= 128
    decreases v
  {
    if v > 0 {
      var h := High(v / 128);
      assert k > 0;
      Quotient(v, Power(128, k - 1));
      HighFolds(v / 128, k - 1);
      Fold7Last(h, 128 + v % 128);
      assert High(v) == h + [128 + v % 128];
      forall i | 0 <= i < |High(v)| ensures High(v)[i] >= 128 {
        assert i < |h| ==> High(v)[i] == h[i];
      }
    }
  }

  lemma {:induction false} Quotient(v: nat, p: nat)
    requires v < p * 128
    ensures v / 128 < p && v == v / 128 * 128 + v % 128 && (128 + v % 128) % 128 == v % 128
  {
  }

  /** A varint ends at its first byte without the continuation bit. */
  lemma {:induction false} ContinuedOver(s: Data, n: nat, m: nat)
    requires n <= m < MAX_VARINT_LENGTH && m < |s|
    requires (forall i :: n <= i < m ==> s[i] >= 128) && s[m] < 128
    ensures Continued(s, n) == m
    decreases m - n
  {
    if n < m {
      ContinuedOver(s, n + 1, m);
    }
  }

  /** Only the bytes of a varint matter. */
  lemma {:induction false} DecodeIsLocal(s: Data, other: Data, n: nat)
    requires DecodeHead(s).Varint? && DecodeHead(s).length == n
    requires n <= |other| && other[..n] == s[..n]
    ensures DecodeHead(other) == DecodeHead(s)
  {
    assert forall i :: 0 <= i < n ==> other[i] == other[..n][i] == s[i];
    ContinuedOver(other, 0, n - 1);
  }

  /** Round trip: every value of up to 56 bits, whatever follows. */
  lemma {:induction false} VarintRoundTrip(v: nat, after: Data)
    requires v < Power(128, 8)
    ensures |Encode(v)| <= 8
    ensures DecodeHead(Encode(v) + after) == Varint(v, |Encode(v)|)
  {
    HighFolds(v / 128, 7);
    var s := Encode(v) + after;
    assert s == High(v / 128) + [v % 128] + after;
    EndsThere(High(v / 128), v % 128, after);
  }

  lemma {:induction false} EndsThere(h: Data, b: Byte, after: Data)
    requires |h| < MAX_VARINT_LENGTH && (forall i :: 0 <= i < |h| ==> h[i] >= 128) && b < 128
    ensures DecodeHead(h + [b] + after) == Varint(Fold7(h) * 128 + b, |h| + 1)
  {
    var s := h + [b] + after;
    assert forall i :: 0 <= i < |h| ==> s[i] == h[i];
    ContinuedOver(s, 0, |h|);
    assert s[..|h| + 1] == h + [b];
    Fold7Last(h, b);
  }

  /** Section 1.6: after eight bytes with the continuation bit, the ninth contributes all its eight bits; the result
      is a twos-complement number. */
  function Standard(s: Data): Varint
    requires 9 <= |s|
  {
    if Continued(s, 0) < 8 then DecodeHead(s)
    else
      var v := Fold7(s[..8]) * 256 + s[8];
      Varint(if v < 0x8000_0000_0000_0000 then v else v - 0x1_0000_0000_0000_0000, 9)
  }

  /** The decoder departs from the standard on nine-byte varints: it agrees exactly on the shorter ones, and on those of
      nine bytes whose first eight carry only zeros and whose last has no continuation bit. */
  lemma {:induction false} StandardExactly(s: Data)
    requires 9 <= |s|
    ensures DecodeHead(s) == Standard(s) <==>
            (exists i :: 0 <= i < 8 && s[i] < 128) || (Fold7(s[..8]) == 0 && s[8] < 128)
  {
    Fold7Take(s, 8);
    Fold7Bound(s[..8]);
    if Continued(s, 0) < 8 {
      assert s[Continued(s, 0)] < 128;
    }
  }

  // ----- big-endian integers

  /** Unsigned, most significant byte first. */
  function Unsigned(s: Data): (v: int)
    ensures v >= 0
  {
    if s == [] then 0 else Unsigned(s[..|s| - 1]) * 256 + s[|s| - 1]
  }

  /** Twos-complement, as section 2.1 has it. */
  function Signed(s: Data): int {
    if s != [] && s[0] >= 128 then Unsigned(s) - Power(256, |s|) else Unsigned(s)
  }

  /** (int8_t) */
  function Int8(b: Byte): int {
    if b >= 128 then b - 256 else b
  }

  /** Four bytes as a signed and as an unsigned 32-bit number. */
  function Int32(a: int, b: int, c: int, d: int): int {
    a * 16777216 + b * 65536 + c * 256 + d
  }

  /** sqliterkParseInt64, case by case; an or of parts that share no bit is a sum. */
  function ParseInt64(p: Data): Option<int> {
    match |p|
    case 1 => Some(Int8(p[0]))
    case 2 => Some(Int8(p[0]) * 256 + p[1])
    case 3 => Some(Int32(0, Int8(p[0]), p[1], p[2]))
    case 4 => Some(Int32(Int8(p[0]), p[1], p[2], p[3]))
    case 6 => Some((Int8(p[0]) * 256 + p[1]) * 0x1_0000_0000 + Int32(p[2], p[3], p[4], p[5]))
    case 8 =>
      Some(Int32(Int8(p[0]), p[1], p[2], p[3]) * 0x1_0000_0000 + Int32(p[4], p[5], p[6], p[7]))
    case _ => None
  }

  predicate IntLength(n: nat) {
    n == 1 || n == 2 || n == 3 || n == 4 || n == 6 || n == 8
  }

  lemma {:induction false} UnsignedTake(s: Data, k: nat)
    requires k < |s|
    ensures Unsigned(s[..k + 1]) == Unsigned(s[..k]) * 256 + s[k]
  {
    assert s[..k + 1][..k] == s[..k];
  }

  lemma {:induction false} Unsigned4(s: Data)
    requires |s| >= 4
    ensures Unsigned(s[..1]) == s[0] && Unsigned(s[..2]) == s[0] * 256 + s[1] as int
    ensures Unsigned(s[..3]) == Int32(0, s[0], s[1], s[2]) && Unsigned(s[..4]) == Int32(s[0], s[1], s[2], s[3])
  {
    UnsignedTake(s, 0);
    UnsignedTake(s, 1);
    UnsignedTake(s, 2);
    UnsignedTake(s, 3);
  }

  lemma {:induction false} Power256()
    ensures Power(256, 1) == 0x100 && Power(256, 2) == 0x1_0000 && Power(256, 3) == 0x100_0000
    ensures Power(256, 4) == 0x1_0000_0000 && Power(256, 6) == 0x1_0000_0000_0000
    ensures Power(256, 8) == 0x1_0000_0000_0000_0000
  {
    assert Power(256, 1) == 0x100;
    assert Power(256, 2) == Power(256, 1) * 256;
    assert Power(256, 3) == Power(256, 2) * 256;
    assert Power(256, 4) == Power(256, 3) * 256;
    assert Power(256, 5) == Power(256, 4) * 256;
    assert Power(256, 6) == Power(256, 5) * 256;
    assert Power(256, 7) == Power(256, 6) * 256;
  }

  lemma {:induction false} Unsigned8(s: Data)
    requires |s| == 6 || |s| == 8
    ensures |s| == 6 ==> Unsigned(s) == (s[0] * 256 + s[1]) * 0x1_0000_0000 + Int32(s[2], s[3], s[4], s[5])
    ensures |s| == 8 ==>
            Unsigned(s) == Int32(s[0], s[1], s[2], s[3]) * 0x1_0000_0000 + Int32(s[4], s[5], s[6], s[7])
  {
    Unsigned4(s);
    UnsignedTake(s, 4);
    UnsignedTake(s, 5);
    assert s[..|s|] == s;
    if |s| == 8 {
      UnsignedTake(s, 6);
      UnsignedTake(s, 7);
    }
  }

  /** The six cases of the integer decoder are one definition, the big-endian twos-complement number; any other length
      is refused. */
  lemma {:induction false} IntIsBigEndian(p: Data)
    ensures ParseInt64(p) == if IntLength(|p|) then Some(Signed(p)) else None
  {
    if IntLength(|p|) {
      Power256();
      assert p[..|p|] == p;
      if |p| <= 4 {
        Unsigned4Prefix(p);
      } else {
        Unsigned8(p);
      }
    }
  }

  lemma {:induction false} Unsigned4Prefix(s: Data)
    requires 1 <= |s| <= 4
    ensures |s| == 1 ==> Unsigned(s) == s[0]
    ensures |s| == 2 ==> Unsigned(s) == s[0] * 256 + s[1] as int
    ensures |s| == 3 ==> Unsigned(s) == Int32(0, s[0], s[1], s[2])
    ensures |s| == 4 ==> Unsigned(s) == Int32(s[0], s[1], s[2], s[3])
  {
    assert s[..|s|] == s;
    UnsignedTake(s, 0);
    if |s| > 1 { UnsignedTake(s, 1); }
    if |s| > 2 { UnsignedTake(s, 2); }
    if |s| > 3 { UnsignedTake(s, 3); }
  }

  // ----- writing integers

  function BigEndian(v: nat, n: nat): (s: Data)
    ensures |s| == n
  {
    if n == 0 then [] else BigEndian(v / 256, n - 1) + [v % 256]
  }

  /** `v` as `n` bytes in twos-complement. */
  function EncodeInt(v: int, n: nat): (s: Data)
    ensures |s| == n
  {
    BigEndian(v % Power(256, n), n)
  }

  predicate FitsBytes(v: int, n: nat) {
    n > 0 && -128 * Power(256, n - 1) <= v < 128 * Power(256, n - 1)
  }

  lemma {:induction false} BytesFold(v: nat, n: nat)
    requires v < Power(256, n)
    ensures Unsigned(BigEndian(v, n)) == v
    ensures n > 0 ==> BigEndian(v, n)[0] == v / Power(256, n - 1)
    decreases n
  {
    if n > 0 {
      var p := Power(256, n - 1);
      assert v / 256 < p;
      BytesFold(v / 256, n - 1);
      var h := BigEndian(v / 256, n - 1);
      assert BigEndian(v, n)[..n - 1] == h;
      if n > 1 {
        assert BigEndian(v, n)[0] == h[0];
        DivideTwice(v, Power(256, n - 2));
      }
    }
  }

  lemma {:induction false} DivideTwice(v: nat, p: nat)
    requires p > 0
    ensures (v / 256) / p == v / (p * 256)
  {
    var q := (v / 256) / p;
    var r := (v / 256) % p;
    assert v / 256 == q * p + r;
    assert v == (q * p + r) * 256 + v % 256;
    assert (q * p + r) * 256 == q * (p * 256) + r * 256;
    assert 0 <= r * 256 + v % 256 < p * 256;
    QuotientIs(v, p * 256, q, r * 256 + v % 256);
  }

  lemma {:induction false} QuotientIs(v: nat, d: nat, q: int, r: int)
    requires d > 0 && v == q * d + r && 0 <= r < d
    ensures v / d == q
  {
    var e := v / d - q;
    assert v == (v / d) * d + v % d;
    assert e * d == r - v % d by { Distribute(v / d, q, d); }
    Multiple(e, d);
  }

  lemma {:induction false} Multiple(e: int, d: int)
    requires d > 0
    ensures e > 0 ==> e * d >= d
    ensures e < 0 ==> e * d <= -d
  {
    if e > 0 {
      assert (e - 1) * d >= 0;
    } else if e < 0 {
      assert (-1 - e) * d >= 0;
    }
  }

  lemma {:induction false} Distribute(a: int, b: int, d: int)
    ensures (a - b) * d == a * d - b * d
  {
  }

  /** Round trip over the whole signed range of every length the decoder knows. */
  lemma {:induction false} IntRoundTrip(v: int, n: nat)
    requires IntLength(n) && FitsBytes(v, n)
    ensures ParseInt64(EncodeInt(v, n)) == Some(v)
  {
    var p := Power(256, n - 1);
    var w := v % Power(256, n);
    assert w == if v < 0 then v + p * 256 else v by {
      WrapIs(v, p * 256);
    }
    BytesFold(w, n);
    TopBit(w, p);
    IntIsBigEndian(EncodeInt(v, n));
  }

  lemma {:induction false} WrapIs(v: int, d: int)
    requires d > 0 && -d <= v < d
    ensures v % d == if v < 0 then v + d else v
  {
    var q := v / d;
    assert v == q * d + v % d;
    Multiple(q, d);
    Multiple(q + 1, d);
  }

  /** The sign bit is the top bit of the first byte. */
  lemma {:induction false} TopBit(w: nat, p: nat)
    requires p > 0
    ensures w / p >= 128 <==> w >= p * 128
  {
    var e := w / p - 127;
    assert w == (w / p) * p + w % p;
    Distribute(w / p, 127, p);
    Multiple(e, p);
  }

  /** (int), from 64 bits to 32. */
  function ToInt32(v: int): (w: int)
    ensures -0x8000_0000 <= w < 0x8000_0000
    ensures (v - w) % 0x1_0000_0000 == 0
  {
    var m := v % 0x1_0000_0000;
    if m >= 0x8000_0000 then m - 0x1_0000_0000 else m
  }
}
