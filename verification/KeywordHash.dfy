/** The keyword look-up of keywordhash.h: a hash index over overlapping texts that must agree with a search through
    all keywords. The tables are parameters; what their generator promises of them is `Valid`. */
module KeywordHash {
  import opened Bytes

  const TK_ID: nat := 59

  /** Keywords are made of capitals and underscores. */
  predicate IsKeyChar(b: Byte) {
    65 <= b <= 90 || b == 95
  }

  predicate IsKeyText(word: Data) {
    forall j :: 0 <= j < |word| ==> IsKeyChar(word[j])
  }

  /** Links are one more than an index; 0 ends a chain. */
  datatype Tables = Tables(
    text: Data,
    hash: seq<nat>,
    next: seq<nat>,
    len: seq<nat>,
    offset: seq<nat>,
    code: seq<nat>)

  predicate IsUpper(b: Byte) {
    65 <= b <= 90
  }

  /** charMap on ASCII machines. */
  function CharMap(b: Byte): Byte {
    if IsUpper(b) then b + 32 else b
  }

  /** z & ~0x20 */
  function Mask(b: Byte): Byte {
    if b / 32 % 2 == 1 then b - 32 else b
  }

  /** The hash of the lower-case first and last characters and the length. */
  function Hash(first: Byte, last: Byte, n: nat): (slot: nat)
    requires n < 0x8000_0000
    ensures slot < 127
  {
    (((first * 4) as bv32 ^ (last * 3) as bv32 ^ n as bv32) as int) % 127
  }

  function Slot(z: Data): (slot: nat)
    requires 2 <= |z| < 0x8000_0000
    ensures slot < 127
  {
    Hash(CharMap(z[0]), CharMap(z[|z| - 1]), |z|)
  }

  function Keyword(t: Tables, k: nat): Data
    requires k < |t.len| == |t.offset| && t.offset[k] + t.len[k] <= |t.text|
  {
    t.text[t.offset[k]..t.offset[k] + t.len[k]]
  }

  /** Following the links from `link` one comes to keyword `k`. */
  predicate OnChain(t: Tables, link: nat, k: nat)
    requires Linked(t) && link <= |t.next|
    decreases link
  {
    link > 0 && (link - 1 == k || OnChain(t, t.next[link - 1], k))
  }

  /** Links point strictly backwards, so every chain ends. */
  predicate Linked(t: Tables) {
    forall i :: 0 <= i < |t.next| ==> t.next[i] <= i
  }

  ghost predicate Valid(t: Tables) {
    && Linked(t)
    && |t.hash| == 127 && (forall i :: 0 <= i < 127 ==> t.hash[i] <= |t.next|)
    && |t.len| == |t.offset| == |t.code| == |t.next|
    && (forall k :: 0 <= k < |t.len| ==> t.offset[k] + t.len[k] <= |t.text| && 2 <= t.len[k] < 0x8000_0000)
    && (forall k :: 0 <= k < |t.len| ==> WellPlaced(t, Keyword(t, k), k))
    && (forall k, m :: 0 <= k < m < |t.len| ==> Keyword(t, k) != Keyword(t, m))
  }

  /** A keyword is a text of capitals and underscores, begins and ends with a letter, and lies on the chain of its own slot. */
  ghost predicate WellPlaced(t: Tables, word: Data, k: nat)
    requires Linked(t) && |t.hash| == 127 && (forall i :: 0 <= i < 127 ==> t.hash[i] <= |t.next|)
    requires 2 <= |word| < 0x8000_0000
  {
    && IsKeyText(word) && IsUpper(word[0]) && IsUpper(word[|word| - 1])
    && OnChain(t, t.hash[Slot(word)], k)
  }

  /** The character is this one, or 32 above: a letter in lower case. */
  predicate IsCaseOf(b: Byte, key: Byte) {
    b == key || b == key + 32
  }

  /** The input is this word in any case. */
  predicate Spells(z: Data, word: Data) {
    |z| == |word| && forall j :: 0 <= j < |z| ==> IsCaseOf(z[j], word[j])
  }

  /** Clearing one bit tells whether a character is a letter of a keyword, in either case. */
  lemma {:induction false} MaskIsCase(b: Byte, key: Byte)
    requires IsKeyChar(key)
    ensures Mask(b) == key <==> IsCaseOf(b, key)
  {
  }

  lemma {:induction false} CaseOnly(b: Byte, letter: Byte)
    requires IsCaseOf(b, letter) && IsUpper(letter)
    ensures CharMap(b) == CharMap(letter)
  {
  }

  /** The case bit of the underscore makes it a DEL, which is taken for it. */
  lemma {:induction false} DeleteForUnderscore(word: Data, j: nat)
    requires j < |word| && word[j] == Ascii("_")[0]
    ensures Spells(word[j := 127], word)
  {
  }

  /** Where the hash function puts two of the keywords: s, t and 6 of SELECT; c, p and 17 of CURRENT_TIMESTAMP. */
  lemma {:induction false} SlotOfSelect()
    ensures Hash(115, 116, 6) == 23
  {
  }

  lemma {:induction false} AnyCaseOfSelect()
    ensures Slot(Ascii("SELECT")) == Slot(Ascii("sElect")) == 23
  {
    hide Hash;
    SlotOfSelect();
    assert CharMap(83) == 115 && CharMap(84) == 116;
  }

  lemma {:induction false} SlotOfCurrentTimestamp()
    ensures Hash(99, 112, 17) == 78
  {
  }

  /** An input that spells a keyword falls into the keyword's slot. */
  lemma {:induction false} SameSlot(t: Tables, z: Data, k: nat)
    requires Valid(t) && k < |t.len| && Spells(z, Keyword(t, k))
    ensures 2 <= |z| < 0x8000_0000 && OnChain(t, t.hash[Slot(z)], k)
  {
    var word := Keyword(t, k);
    assert WellPlaced(t, word, k);
    CaseOnly(z[0], word[0]);
    CaseOnly(z[|z| - 1], word[|word| - 1]);
    hide IsUpper, CharMap, OnChain, Hash, IsCaseOf;
    assert Slot(z) == Slot(word);
  }

  lemma {:induction false} OnlyOneSpelled(t: Tables, z: Data, k: nat, m: nat)
    requires Valid(t) && k < |t.len| && m < |t.len| && Spells(z, Keyword(t, k)) && Spells(z, Keyword(t, m))
    ensures k == m
  {
    var a, b := Keyword(t, k), Keyword(t, m);
    assert WellPlaced(t, a, k) && WellPlaced(t, b, m);
    hide OnChain, Slot, WellPlaced, Keyword;
    SameWord(z, a, b);
  }

  lemma {:induction false} SameWord(z: Data, a: Data, b: Data)
    requires Spells(z, a) && Spells(z, b) && IsKeyText(a) && IsKeyText(b)
    ensures a == b
  {
    forall j | 0 <= j < |z| ensures a[j] == b[j] {
      assert IsCaseOf(z[j], a[j]) && IsCaseOf(z[j], b[j]) && IsKeyChar(a[j]) && IsKeyChar(b[j]);
    }
  }

  lemma {:induction false} KeywordIsText(t: Tables, k: nat)
    requires Valid(t) && k < |t.len|
    ensures IsKeyText(Keyword(t, k))
  {
    assert WellPlaced(t, Keyword(t, k), k);
  }

  /** The inner loop: compare the input with keyword `i`. */
  method Compare(t: Tables, z: Data, i: nat) returns (same: bool)
    requires i < |t.len| == |t.offset| && t.offset[i] + t.len[i] <= |t.text| && IsKeyText(Keyword(t, i))
    ensures same <==> Spells(z, Keyword(t, i))
  {
    if t.len[i] != |z| {
      return false;
    }
    hide Mask, IsCaseOf;
    var j := 0;
    ghost var word := Keyword(t, i);
    while j < |z| && Mask(z[j]) == t.text[t.offset[i] + j]
      invariant 0 <= j <= |z| && forall m :: 0 <= m < j ==> IsCaseOf(z[m], word[m])
    {
      assert IsKeyChar(word[j]);
      MaskIsCase(z[j], word[j]);
      j := j + 1;
    }
    if j < |z| {
      assert IsKeyChar(word[j]);
      MaskIsCase(z[j], word[j]);
    }
    return j == |z|;
  }

  /** keywordCode: the look-up gives the code of the keyword that the input spells, and leaves `pType` alone if it
      spells none, for every input. */
  method KeywordCode(t: Tables, z: Data, pType: nat) returns (code: nat)
    requires Valid(t) && |z| < 0x8000_0000
    ensures forall k :: 0 <= k < |t.len| && Spells(z, Keyword(t, k)) ==> code == t.code[k]
    ensures (forall k :: 0 <= k < |t.len| ==> !Spells(z, Keyword(t, k))) ==> code == pType
  {
    hide Slot, Keyword, Spells;
    forall k | 0 <= k < |t.len| && Spells(z, Keyword(t, k))
      ensures |z| >= 2 && OnChain(t, t.hash[Slot(z)], k)
    {
      SameSlot(t, z, k);
    }
    if |z| >= 2 {
      var link: nat := t.hash[Slot(z)];
      while link > 0
        invariant link <= |t.next|
        invariant forall k :: 0 <= k < |t.len| && Spells(z, Keyword(t, k)) ==> OnChain(t, link, k)
        decreases link
      {
        var i := link - 1;
        KeywordIsText(t, i);
        var same := Compare(t, z, i);
        if same {
          forall k | 0 <= k < |t.len| && Spells(z, Keyword(t, k))
            ensures k == i
          {
            OnlyOneSpelled(t, z, k, i);
          }
          return t.code[i];
        }
        link := t.next[i];
      }
    }
    return pType;
  }

  /** sqlite3KeywordCode */
  method SqliteKeywordCode(t: Tables, z: Data) returns (id: nat)
    requires Valid(t) && |z| < 0x8000_0000
    ensures forall k :: 0 <= k < |t.len| && Spells(z, Keyword(t, k)) ==> id == t.code[k]
    ensures (forall k :: 0 <= k < |t.len| ==> !Spells(z, Keyword(t, k))) ==> id == TK_ID
  {
    id := KeywordCode(t, z, TK_ID);
  }
}
