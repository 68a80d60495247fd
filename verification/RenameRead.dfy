/** How the tokenizer (tokenize.c, util.c) reads the names that the edit of RenameText writes. */
module RenameRead {
  import opened Bytes
  import opened RenameText

  const APOSTROPHE: Byte := 39
  const BACKTICK: Byte := 96
  const BRACKET: Byte := 91
  const CLOSING: Byte := 93

  /** The classes of characters that an identifier can start with: letters, underscore and bytes from 0x80 up. */
  predicate StartsName(b: Byte) {
    65 <= b <= 90 || b == 95 || 97 <= b <= 122 || 128 <= b
  }

  datatype Scanned = Unclosed | Closed(value: Text, length: nat)

  function Grown(front: Text, length: nat, rest: Scanned): Scanned {
    if rest.Closed? then Closed(front + rest.value, length + rest.length) else Unclosed
  }

  /** From behind an opening quote to the closing one: a doubled quote is one of the name's own. */
  function Scan(text: Text, quote: Byte): Scanned {
    if text == [] then Unclosed
    else if text[0] != quote then Grown([text[0]], 1, Scan(text[1..], quote))
    else if |text| > 1 && text[1] == quote then Grown([quote], 2, Scan(text[2..], quote))
    else Closed([], 1)
  }

  /** From behind an opening bracket to the closing one. */
  function ScanBracket(text: Text): Scanned {
    if text == [] then Unclosed
    else if text[0] == CLOSING then Closed([], 1)
    else Grown([text[0]], 1, ScanBracket(text[1..]))
  }

  /** How many characters of an identifier there are. */
  function RunLength(text: Text): (n: nat)
    ensures n <= |text| && (forall i :: 0 <= i < n ==> IsIdChar(text[i])) && (n < |text| ==> !IsIdChar(text[n]))
  {
    if text == [] || !IsIdChar(text[0]) then 0 else 1 + RunLength(text[1..])
  }

  /** `length`: how much of the text the name takes. */
  datatype Name = NoName | Name(value: Text, length: nat)

  function Enclosed(s: Scanned): Name {
    if s.Closed? then Name(s.value, s.length + 1) else NoName
  }

  /** sqlite3GetToken and sqlite3Dequote: the name at the start of a text. An x with an apostrophe starts a blob. */
  function ReadName(text: Text): Name {
    if text == [] then NoName
    else if text[0] == QUOTE || text[0] == BACKTICK then Enclosed(Scan(text[1..], text[0]))
    else if text[0] == BRACKET then Enclosed(ScanBracket(text[1..]))
    else if !StartsName(text[0]) || StartsBlob(text) then NoName
    else Name(text[..RunLength(text)], RunLength(text))
  }

  predicate StartsBlob(text: Text) {
    |text| > 1 && (text[0] == 88 || text[0] == 120) && text[1] == APOSTROPHE
  }

  // ----- one name

  lemma {:induction false} ScanDoubled(name: Text, after: Text)
    ensures Scan(Doubled(name) + after, QUOTE) == Grown(name, |Doubled(name)|, Scan(after, QUOTE))
  {
    if name == [] {
      assert Doubled(name) + after == after;
    } else {
      var rest := Doubled(name[1..]) + after;
      ScanDoubled(name[1..], after);
      assert Doubled(name) + after == (if name[0] == QUOTE then [QUOTE, QUOTE] else [name[0]]) + rest;
      ScanOne(name[0], rest);
      assert name == [name[0]] + name[1..];
      GrownTwice(name[0], name[1..], |Doubled(name[1..])|, Scan(after, QUOTE));
    }
  }

  lemma {:induction false} ScanOne(b: Byte, rest: Text)
    ensures
      var front := if b == QUOTE then [QUOTE, QUOTE] else [b];
      Scan(front + rest, QUOTE) == Grown([b], |front|, Scan(rest, QUOTE))
  {
    var front := if b == QUOTE then [QUOTE, QUOTE] else [b];
    assert (front + rest)[|front|..] == rest;
  }

  lemma {:induction false} GrownTwice(b: Byte, front: Text, length: nat, rest: Scanned)
    ensures
      var more := if b == QUOTE then 2 else 1;
      Grown([b], more, Grown(front, length, rest)) == Grown([b] + front, more + length, rest)
  {
    if rest.Closed? {
      assert [b] + (front + rest.value) == [b] + front + rest.value;
    }
  }

  predicate StartsWith(text: Text, b: Byte) {
    text != [] && text[0] == b
  }

  /** A quoted name is read back exactly if no other quote follows. */
  lemma {:induction false} QuotedReadsBack(name: Text, after: Text)
    ensures ReadName(Quoted(name) + after) == Name(name, |Quoted(name)|) <==> !StartsWith(after, QUOTE)
  {
    hide Doubled, Scan;
    var text := Quoted(name) + after;
    var end := [QUOTE] + after;
    assert text[1..] == Doubled(name) + end;
    ScanDoubled(name, end);
    ScanEnd(after);
    assert name + [] == name;
  }

  lemma {:induction false} ScanEnd(after: Text)
    ensures StartsWith(after, QUOTE) ==>
              var s := Scan([QUOTE] + after, QUOTE); s.Closed? ==> s.length > 1
    ensures !StartsWith(after, QUOTE) ==> Scan([QUOTE] + after, QUOTE) == Closed([], 1)
  {
    var text := [QUOTE] + after;
    if StartsWith(after, QUOTE) {
      assert text[1] == QUOTE;
    }
  }

  /** The name needs no quotes. */
  predicate IsPlain(name: Text) {
    name != [] && StartsName(name[0]) && forall i :: 0 <= i < |name| ==> IsIdChar(name[i])
  }

  /** What follows a name runs on into it. */
  predicate RunsOn(name: Text, after: Text) {
    after != [] && (IsIdChar(after[0]) || StartsBlob(name + after[..1]))
  }

  /** A name written without quotes is read back exactly if it needs none and nothing runs on into it. */
  lemma {:induction false} PlainReadsBack(name: Text, after: Text)
    ensures ReadName(name + after) == Name(name, |name|) <==> IsPlain(name) && !RunsOn(name, after)
  {
    hide Scan, ScanBracket;
    var text := name + after;
    if name != [] {
      EnclosedIsShorter(text[1..], text[0]);
      if StartsName(name[0]) {
        RunOf(name, after);
        assert StartsBlob(text) <==> StartsBlob(name) || (after != [] && StartsBlob(name + after[..1])) by {
          assert after != [] ==> (name + after[..1])[|name|] == after[0] == text[|name|];
        }
        if StartsBlob(name) {
          assert !IsIdChar(name[1]);
        }
      }
    } else {
      assert text == after;
    }
  }

  lemma {:induction false} RunOf(name: Text, after: Text)
    ensures RunLength(name + after) == |name| <==>
            (forall i :: 0 <= i < |name| ==> IsIdChar(name[i])) && (after == [] || !IsIdChar(after[0]))
  {
    hide IsIdChar;
    var text := name + after;
    var n := RunLength(text);
    assert forall i :: 0 <= i < |name| ==> text[i] == name[i];
    if n < |name| {
      assert !IsIdChar(name[n]);
    } else if n > |name| {
      assert text[|name|] == after[0];
    }
  }

  /** A name loses its quotes. */
  lemma {:induction false} EnclosedIsShorter(text: Text, quote: Byte)
    ensures Scan(text, quote).Closed? ==> |Scan(text, quote).value| < Scan(text, quote).length
    ensures ScanBracket(text).Closed? ==> |ScanBracket(text).value| < ScanBracket(text).length
    decreases |text|
  {
    if text != [] {
      EnclosedIsShorter(text[1..], quote);
      if |text| > 1 {
        EnclosedIsShorter(text[2..], quote);
      }
    }
  }

  // ----- what replaces a token

  /** The token gets the quoted name. */
  predicate GetsQuotes(sql: Text, token: Token, quote: bool) {
    quote || !IsIdChar(ByteAt(sql, token.z))
  }

  lemma {:induction false} QuotedExactly(sql: Text, token: Token, name: Text, quote: bool)
    ensures Replacement(sql, token, name, quote) == Quoted(name) <==> GetsQuotes(sql, token, quote)
    ensures Replacement(sql, token, name, quote) == name <==> !GetsQuotes(sql, token, quote)
  {
  }

  /** Before this text what replaces the token is read as the new name. */
  predicate IsSafe(sql: Text, token: Token, name: Text, quote: bool, after: Text) {
    if GetsQuotes(sql, token, quote) then !StartsWith(after, QUOTE) else IsPlain(name) && !RunsOn(name, after)
  }

  lemma {:induction false} ReplacementReadsBack(sql: Text, token: Token, name: Text, quote: bool, after: Text)
    ensures
      var text := Replacement(sql, token, name, quote);
      ReadName(text + after) == Name(name, |text|) <==> IsSafe(sql, token, name, quote, after)
  {
    hide ReadName, Quoted;
    QuotedReadsBack(name, after);
    PlainReadsBack(name, after);
  }

  // ----- the edited statement

  /** Where the `i`th token lies in the statement edited from offset `from` on. */
  function Place(sql: Text, tokens: seq<Token>, from: nat, name: Text, quote: bool, i: nat): int
    requires i < |tokens|
  {
    tokens[i].z - from + Growth(sql, tokens[..i], name, quote)
  }

  /** What follows it there. */
  function Following(sql: Text, tokens: seq<Token>, name: Text, quote: bool, i: nat): Text
    requires i < |tokens| && Fits(tokens[i + 1..], tokens[i].End(), |sql|)
  {
    Substitute(sql, tokens[i + 1..], tokens[i].End(), name, quote)
  }

  lemma {:induction false} RestFitsAt(tokens: seq<Token>, from: nat, length: nat, i: nat)
    requires Fits(tokens, from, length) && i < |tokens|
    ensures Fits(tokens[i + 1..], tokens[i].End(), length) && from <= tokens[i].z
    decreases i
  {
    if i > 0 {
      RestFitsAt(tokens[1..], tokens[0].End(), length, i - 1);
      assert tokens[1..][i - 1 + 1..] == tokens[i + 1..];
    }
  }

  /** Each replacement lies at its place, and behind it what follows. */
  lemma {:induction false} ReplacementLies(sql: Text, tokens: seq<Token>, from: nat, name: Text, quote: bool, i: nat)
    requires Fits(tokens, from, |sql|) && i < |tokens|
    ensures Fits(tokens[i + 1..], tokens[i].End(), |sql|)
    ensures
      var result, p := Substitute(sql, tokens, from, name, quote), Place(sql, tokens, from, name, quote, i);
      && 0 <= p <= |result|
      && result[p..] == Replacement(sql, tokens[i], name, quote) + Following(sql, tokens, name, quote, i)
    decreases i
  {
    RestFitsAt(tokens, from, |sql|, i);
    FitsInside(tokens, from, |sql|);
    RestFits(tokens, from, |sql|);
    var first := tokens[0];
    var copied, text := sql[from..first.z], Replacement(sql, first, name, quote);
    var rest := Substitute(sql, tokens[1..], first.End(), name, quote);
    hide Replacement, Fits;
    var result := Substitute(sql, tokens, from, name, quote);
    assert result == copied + (text + rest);
    if i == 0 {
      assert tokens[..0] == [];
      Behind(copied, text + rest, 0);
    } else {
      hide Substitute, Place, Following;
      ReplacementLies(sql, tokens[1..], first.End(), name, quote, i - 1);
      OneTokenOn(sql, tokens, from, name, quote, i);
      Reassociate(copied, text, rest);
      Behind(copied + text, rest, Place(sql, tokens[1..], first.End(), name, quote, i - 1));
    }
  }

  lemma {:induction false} OneTokenOn(sql: Text, tokens: seq<Token>, from: nat, name: Text, quote: bool, i: nat)
    requires 0 < i < |tokens| && Fits(tokens[i + 1..], tokens[i].End(), |sql|)
    ensures tokens[1..][i - 1] == tokens[i] && Fits(tokens[1..][i - 1 + 1..], tokens[1..][i - 1].End(), |sql|)
    ensures Following(sql, tokens[1..], name, quote, i - 1) == Following(sql, tokens, name, quote, i)
    ensures Place(sql, tokens, from, name, quote, i)
         == tokens[0].z - from + |Replacement(sql, tokens[0], name, quote)|
            + Place(sql, tokens[1..], tokens[0].End(), name, quote, i - 1)
  {
    hide Replacement, Fits, Substitute;
    assert tokens[1..][i - 1 + 1..] == tokens[i + 1..];
    assert tokens[..i][0] == tokens[0] && tokens[..i][1..] == tokens[1..][..i - 1];
  }

  lemma {:induction false} Behind(front: Text, rest: Text, q: nat)
    requires q <= |rest|
    ensures (front + rest)[|front| + q..] == rest[q..]
  {
  }

  /** What the result has in the place of the `i`th token: the name, quoted if and only if that was asked for or the token
      does not start like an identifier; and it is read as the new name, and ends where it should, if and only if what
      follows does not run on into it. */
  ghost predicate ReadsBack(sql: Text, tokens: seq<Token>, name: Text, quote: bool, i: nat, result: Text)
    requires i < |tokens|
  {
    var text, p := if GetsQuotes(sql, tokens[i], quote) then Quoted(name) else name, Place(sql, tokens, 0, name, quote, i);
    && Fits(tokens[i + 1..], tokens[i].End(), |sql|) && 0 <= p <= |result|
    && text <= result[p..]
    && (ReadName(result[p..]) == Name(name, |text|)
        <==> IsSafe(sql, tokens[i], name, quote, Following(sql, tokens, name, quote, i)))
  }

  lemma {:induction false} TokenReadsBack(sql: Text, tokens: seq<Token>, name: Text, quote: bool, i: nat)
    requires Fits(tokens, 0, |sql|) && i < |tokens|
    ensures ReadsBack(sql, tokens, name, quote, i, Substitute(sql, tokens, 0, name, quote))
  {
    ReplacementLies(sql, tokens, 0, name, quote, i);
    QuotedExactly(sql, tokens[i], name, quote);
    hide ReadName, Replacement, Substitute, Fits, IsSafe;
    ReplacementReadsBack(sql, tokens[i], name, quote, Following(sql, tokens, name, quote, i));
  }

  /** The next token does not start right behind this one. */
  predicate StandsApart(tokens: seq<Token>, i: nat)
    requires i < |tokens|
  {
    i + 1 < |tokens| ==> tokens[i + 1].z != tokens[i].End()
  }

  /** Then it is safe exactly if it is before the text that follows the token in the source. */
  lemma {:induction false} SafeAsInSource(sql: Text, tokens: seq<Token>, name: Text, quote: bool, i: nat)
    requires Fits(tokens, 0, |sql|) && i < |tokens| && StandsApart(tokens, i)
    ensures tokens[i].End() <= |sql| && Fits(tokens[i + 1..], tokens[i].End(), |sql|)
    ensures IsSafe(sql, tokens[i], name, quote, Following(sql, tokens, name, quote, i))
            <==> IsSafe(sql, tokens[i], name, quote, sql[tokens[i].End()..])
  {
    RestFitsAt(tokens, 0, |sql|, i);
    var end, rest := tokens[i].End(), tokens[i + 1..];
    FitsInside(rest, end, |sql|);
    var after, source := Following(sql, tokens, name, quote, i), sql[end..];
    if rest != [] {
      assert rest[0] == tokens[i + 1];
      assert sql[end..rest[0].z][0] == sql[end];
      assert after != [] && after[0] == source[0];
    } else {
      assert after == source;
    }
    SafeByFirst(sql, tokens[i], name, quote, after, source);
  }

  /** Only the first character of what follows matters. */
  lemma {:induction false} SafeByFirst(sql: Text, token: Token, name: Text, quote: bool, a: Text, b: Text)
    requires (a == [] <==> b == []) && (a != [] ==> a[0] == b[0])
    ensures IsSafe(sql, token, name, quote, a) <==> IsSafe(sql, token, name, quote, b)
  {
    hide IsIdChar, StartsBlob, IsPlain;
    if a != [] {
      assert a[..1] == [a[0]] && b[..1] == [b[0]];
    }
  }

  /** A quoted alias right behind a renamed column is swallowed: with a as `b`, quoted, `a"x"` becomes the name b"x. */
  lemma {:induction false} AliasIsSwallowed()
    ensures
      var sql: Text := [97, QUOTE, 120, QUOTE];
      var result := Substitute(sql, [Token(0, 1)], 0, [98], true);
      Fits([Token(0, 1)], 0, |sql|) && ReadName(result) == Name([98, QUOTE, 120], 6)
  {
    var sql: Text := [97, QUOTE, 120, QUOTE];
    var tokens := [Token(0, 1)];
    assert tokens[1..] == [];
    var b: Text := [98];
    assert b[1..] == [] && Doubled(b) == [98] + Doubled([]);
    assert Replacement(sql, tokens[0], b, true) == [QUOTE, 98, QUOTE];
    assert Substitute(sql, [], 1, b, true) == [QUOTE, 120, QUOTE];
    var result := Substitute(sql, tokens, 0, [98], true);
    assert result == [QUOTE, 98, QUOTE, QUOTE, 120, QUOTE];
    assert result[1..] == [98, QUOTE, QUOTE, 120, QUOTE];
    var a: Text := [QUOTE, QUOTE, 120, QUOTE];
    assert result[1..][1..] == a;
    assert a[2..] == [120, QUOTE];
    assert a[2..][1..] == [QUOTE];
    assert Scan([QUOTE], QUOTE) == Closed([], 1);
    assert Scan([120, QUOTE], QUOTE) == Closed([120], 2);
    assert Scan(a, QUOTE) == Closed([QUOTE, 120], 4);
    assert Scan(result[1..], QUOTE) == Closed([98, QUOTE, 120], 5);
  }
}
