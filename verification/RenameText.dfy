/** The text that ALTER TABLE RENAME is meant to produce (alter.c): every token of a list replaced at once, all other
    bytes kept. */
module RenameText {
  import opened Bytes

  type Text = Data

  const QUOTE: Byte := 34

  /** A token of the statement: where it starts and how long it is. */
  datatype Token = Token(z: nat, n: nat) {
    function End(): nat { z + n }
  }

  /** sqlite3IsIdChar: letters, digits, underscore, dollar, and every byte from 0x80 up. */
  predicate IsIdChar(b: Byte) {
    b == 36 || 48 <= b <= 57 || 65 <= b <= 90 || b == 95 || 97 <= b <= 122 || 128 <= b
  }

  lemma {:induction false} IdCharsAre(c: char)
    requires c as int < 128
    ensures IsIdChar(c as int) <==>
            'A' <= c <= 'Z' || 'a' <= c <= 'z' || '0' <= c <= '9' || c == '_' || c == '$'
  {
  }

  /** The byte at an offset of a C string, whose end reads as NUL. */
  function ByteAt(text: Text, i: nat): Byte {
    if i < |text| then text[i] else 0
  }

  /** The conversion %w: double quotes doubled. */
  function Doubled(name: Text): (r: Text)
    ensures |r| >= |name|
  {
    if name == [] then []
    else (if name[0] == QUOTE then [QUOTE, QUOTE] else [name[0]]) + Doubled(name[1..])
  }

  function Quoted(name: Text): (r: Text)
    ensures |r| >= |name| + 2
  {
    [QUOTE] + Doubled(name) + [QUOTE]
  }

  /** The new spelling of a token: a bare token gets the bare name (quoted if asked), any other the quoted name. */
  function Replacement(sql: Text, token: Token, name: Text, quote: bool): (r: Text)
    ensures |r| <= |Quoted(name)|
  {
    if IsIdChar(ByteAt(sql, token.z)) && !quote then name else Quoted(name)
  }

  /** Non-empty tokens from left to right, without overlap, at or after offset `from` of a text of this length. */
  predicate Fits(tokens: seq<Token>, from: nat, length: nat) {
    if tokens == [] then from <= length
    else from <= tokens[0].z && tokens[0].n > 0 && Fits(tokens[1..], tokens[0].End(), length)
  }

  lemma {:induction false} FitsInside(tokens: seq<Token>, from: nat, length: nat)
    requires Fits(tokens, from, length)
    ensures from <= length && (tokens != [] ==> tokens[0].End() <= length)
  {
    if tokens != [] {
      FitsInside(tokens[1..], tokens[0].End(), length);
    }
  }

  /** Simultaneous substitution, copying the statement from left to right from offset `from`. */
  function Substitute(sql: Text, tokens: seq<Token>, from: nat, name: Text, quote: bool): Text
    requires Fits(tokens, from, |sql|)
  {
    if tokens == [] then sql[from..]
    else
      FitsInside(tokens, from, |sql|);
      sql[from..tokens[0].z]
      + (Replacement(sql, tokens[0], name, quote) + Substitute(sql, tokens[1..], tokens[0].End(), name, quote))
  }

  /** By how much the replacements lengthen the text. */
  function Growth(sql: Text, tokens: seq<Token>, name: Text, quote: bool): int {
    if tokens == [] then 0
    else |Replacement(sql, tokens[0], name, quote)| - tokens[0].n + Growth(sql, tokens[1..], name, quote)
  }

  lemma {:induction false} SubstituteLength(sql: Text, tokens: seq<Token>, from: nat, name: Text, quote: bool)
    requires Fits(tokens, from, |sql|)
    ensures |Substitute(sql, tokens, from, name, quote)| == |sql| - from + Growth(sql, tokens, name, quote)
    decreases |tokens|
  {
    if tokens != [] {
      FitsInside(tokens, from, |sql|);
      SubstituteLength(sql, tokens[1..], tokens[0].End(), name, quote);
    }
  }

  lemma {:induction false} Distribute(a: int, b: int, x: int)
    ensures (a + b) * x == a * x + b * x
  {
  }

  lemma {:induction false} GrowthBound(sql: Text, tokens: seq<Token>, name: Text, quote: bool, limit: nat)
    requires limit == |Quoted(name)|
    ensures Growth(sql, tokens, name, quote) <= |tokens| * limit
    decreases |tokens|
  {
    if tokens != [] {
      hide Quoted;
      GrowthBound(sql, tokens[1..], name, quote, limit);
      assert |Replacement(sql, tokens[0], name, quote)| <= limit;
      Distribute(1, |tokens[1..]|, limit);
    }
  }

  lemma {:induction false} SplitSlice(text: Text, a: nat, b: nat, c: nat)
    requires a <= b <= c <= |text|
    ensures text[a..c] == text[a..b] + text[b..c]
  {
  }

  lemma {:induction false} Reassociate(a: Text, b: Text, c: Text)
    ensures (a + b) + c == a + (b + c)
  {
  }

  /** The text before the first token is copied as it is. */
  lemma {:induction false} CopyPrefix(sql: Text, tokens: seq<Token>, from: nat, mid: nat, name: Text, quote: bool)
    requires from <= mid && Fits(tokens, from, |sql|) && Fits(tokens, mid, |sql|)
    ensures mid <= |sql|
    ensures Substitute(sql, tokens, from, name, quote) == sql[from..mid] + Substitute(sql, tokens, mid, name, quote)
  {
    FitsInside(tokens, mid, |sql|);
    if tokens == [] {
      SplitSlice(sql, from, mid, |sql|);
    } else {
      var tail := Replacement(sql, tokens[0], name, quote) + Substitute(sql, tokens[1..], tokens[0].End(), name, quote);
      SplitSlice(sql, from, mid, tokens[0].z);
      Reassociate(sql[from..mid], sql[mid..tokens[0].z], tail);
    }
  }

  lemma {:induction false} FitsFrom(tokens: seq<Token>, from: nat, length: nat, earlier: nat)
    requires Fits(tokens, from, length) && earlier <= from
    ensures Fits(tokens, earlier, length)
  {
    FitsInside(tokens, from, length);
  }

  /** One edit of the right-to-left loop: where everything right of a token is already replaced, overwriting the token
      at its original offset replaces it too, because nothing to its left has moved. */
  lemma {:induction false} EditOne(sql: Text, tokens: seq<Token>, name: Text, quote: bool, text: Text)
    requires tokens != [] && Fits(tokens, 0, |sql|) && Fits(tokens[1..], 0, |sql|)
    requires text == Substitute(sql, tokens[1..], 0, name, quote)
    ensures tokens[0].End() <= |text|
    ensures Substitute(sql, tokens, 0, name, quote)
         == text[..tokens[0].z] + Replacement(sql, tokens[0], name, quote) + text[tokens[0].End()..]
  {
    var first, rest := tokens[0], tokens[1..];
    CopyPrefix(sql, rest, 0, first.End(), name, quote);
    var tail := Substitute(sql, rest, first.End(), name, quote);
    assert text == sql[..first.End()] + tail;
    assert text[..first.z] == sql[0..first.z];
    assert text[first.End()..] == tail;
  }

  // ----- renaming back

  /** Where the tokens lie in the text after each was replaced by a name of this length; `at` is the place in the new
      text that corresponds to `from` in the old. */
  function Moved(tokens: seq<Token>, from: nat, at: nat, length: nat, end: nat): (moved: seq<Token>)
    requires Fits(tokens, from, end)
  {
    if tokens == [] then []
    else
      var z := at + (tokens[0].z - from);
      [Token(z, length)] + Moved(tokens[1..], tokens[0].End(), z + length, length, end)
  }

  /** The tokens are all spelled `name`. */
  predicate AllSpelled(sql: Text, tokens: seq<Token>, name: Text) {
    forall token :: token in tokens ==> token.End() <= |sql| && sql[token.z..token.End()] == name
  }

  predicate Bare(name: Text) {
    name != [] && IsIdChar(name[0])
  }

  lemma {:induction false} BareReplacement(sql: Text, token: Token, old_: Text, name: Text)
    requires token.End() <= |sql| && sql[token.z..token.End()] == old_ && old_ != []
    ensures ByteAt(sql, token.z) == old_[0]
    ensures Replacement(sql, token, name, false) == if Bare(old_) then name else Quoted(name)
  {
    assert sql[token.z] == sql[token.z..token.End()][0];
  }

  /** One more token in front. */
  lemma {:induction false} SubstituteOneMore(
    sql: Text, token: Token, tokens: seq<Token>, from: nat, name: Text, quote: bool)
    requires from <= token.z && token.n > 0 && Fits(tokens, token.End(), |sql|)
    ensures Fits([token] + tokens, from, |sql|) && token.End() <= |sql|
    ensures Substitute(sql, [token] + tokens, from, name, quote)
         == sql[from..token.z] + (Replacement(sql, token, name, quote) + Substitute(sql, tokens, token.End(), name, quote))
  {
    FitsInside(tokens, token.End(), |sql|);
    assert ([token] + tokens)[1..] == tokens;
  }

  /** The edit back of `edited` from offset `at` gives back the rest of the statement, if the new name is bare;
      otherwise every token stays quoted. */
  ghost predicate GivesBack(
    sql: Text, tokens: seq<Token>, from: nat, edited: Text, at: nat, old_: Text, new_: Text)
    requires Fits(tokens, from, |sql|)
  {
    var moved := Moved(tokens, from, at, |new_|, |sql|);
    && from <= |sql| && Fits(moved, at, |edited|)
    && var back := Substitute(edited, moved, at, old_, false);
       if Bare(new_) then back == sql[from..] else |back| >= |sql| - from + 2 * |tokens|
  }

  lemma {:induction false} EditBackStep(
    sql: Text, tokens: seq<Token>, from: nat, edited: Text, at: nat, old_: Text, new_: Text)
    requires tokens != [] && Fits(tokens, from, |sql|) && tokens[0].End() <= |sql| && new_ != []
    requires sql[tokens[0].z..tokens[0].End()] == old_
    requires var z := at + (tokens[0].z - from);
             && GivesBack(sql, tokens[1..], tokens[0].End(), edited, z + |new_|, old_, new_)
             && z + |new_| <= |edited|
             && edited[at..z] == sql[from..tokens[0].z] && edited[z..z + |new_|] == new_
    ensures GivesBack(sql, tokens, from, edited, at, old_, new_)
  {
    hide Replacement, Quoted, IsIdChar, Substitute, Fits, Moved, Bare, ByteAt;
    var first, rest := tokens[0], tokens[1..];
    RestFits(tokens, from, |sql|);
    var there := Token(at + (first.z - from), |new_|);
    var movedRest := Moved(rest, first.End(), there.End(), |new_|, |sql|);
    MovedFirst(tokens, from, at, |new_|, |sql|);
    BareReplacement(edited, there, new_, old_);
    SubstituteOneMore(edited, there, movedRest, at, old_, false);
    var backRest := Substitute(edited, movedRest, there.End(), old_, false);
    if Bare(new_) {
      WholeAgain(sql, from, first, old_);
    }
  }

  lemma {:induction false} RestFits(tokens: seq<Token>, from: nat, length: nat)
    requires tokens != [] && Fits(tokens, from, length)
    ensures Fits(tokens[1..], tokens[0].End(), length) && from <= tokens[0].z
  {
  }

  lemma {:induction false} MovedFirst(tokens: seq<Token>, from: nat, at: nat, length: nat, end: nat)
    requires tokens != [] && Fits(tokens, from, end) && Fits(tokens[1..], tokens[0].End(), end) && from <= tokens[0].z
    ensures
      var there := Token(at + (tokens[0].z - from), length);
      Moved(tokens, from, at, length, end) == [there] + Moved(tokens[1..], tokens[0].End(), there.End(), length, end)
  {
  }

  lemma {:induction false} WholeAgain(sql: Text, from: nat, token: Token, old_: Text)
    requires from <= token.z && token.End() <= |sql| && sql[token.z..token.End()] == old_
    ensures sql[from..token.z] + (old_ + sql[token.End()..]) == sql[from..]
  {
    SplitSlice(sql, from, token.z, token.End());
    SplitSlice(sql, from, token.End(), |sql|);
    Reassociate(sql[from..token.z], old_, sql[token.End()..]);
  }

  /** Where the first replacement lies in the edited text. */
  lemma {:induction false} EditedParts(
    sql: Text, tokens: seq<Token>, from: nat, at: nat, old_: Text, new_: Text, edited: Text)
    requires tokens != [] && Fits(tokens, from, |sql|) && AllSpelled(sql, tokens, old_) && Bare(old_)
    requires at <= |edited| && edited[at..] == Substitute(sql, tokens, from, new_, false)
    ensures from <= tokens[0].z && tokens[0].End() <= |sql| && sql[tokens[0].z..tokens[0].End()] == old_
    ensures Fits(tokens[1..], tokens[0].End(), |sql|) && AllSpelled(sql, tokens[1..], old_)
    ensures
      var z := at + (tokens[0].z - from);
      && z + |new_| <= |edited|
      && edited[at..z] == sql[from..tokens[0].z] && edited[z..z + |new_|] == new_
      && edited[z + |new_|..] == Substitute(sql, tokens[1..], tokens[0].End(), new_, false)
  {
    FitsInside(tokens, from, |sql|);
    hide Replacement, IsIdChar;
    var first, rest := tokens[0], tokens[1..];
    assert first in tokens;
    var copied, tail := sql[from..first.z], Substitute(sql, rest, first.End(), new_, false);
    BareReplacement(sql, first, old_, new_);
    assert edited[at..] == copied + (new_ + tail);
    ThreeParts(edited, at, copied, new_, tail);
  }

  lemma {:induction false} ThreeParts(text: Text, at: nat, a: Text, b: Text, c: Text)
    requires at <= |text| && text[at..] == a + (b + c)
    ensures at + |a| + |b| <= |text|
    ensures text[at..at + |a|] == a && text[at + |a|..at + |a| + |b|] == b && text[at + |a| + |b|..] == c
  {
    var s := text[at..];
    assert text[at..at + |a|] == s[..|a|] == a;
    assert text[at + |a|..at + |a| + |b|] == s[|a|..][..|b|] == b;
    assert text[at + |a| + |b|..] == s[|a|..][|b|..] == c;
  }

  /** What the edit back makes of the edited text, by how the new name starts. */
  lemma {:induction false} EditBack(
    sql: Text, tokens: seq<Token>, from: nat, at: nat, old_: Text, new_: Text, edited: Text)
    requires Fits(tokens, from, |sql|) && AllSpelled(sql, tokens, old_) && Bare(old_) && new_ != []
    requires at <= |edited| && edited[at..] == Substitute(sql, tokens, from, new_, false)
    ensures GivesBack(sql, tokens, from, edited, at, old_, new_)
    decreases |tokens|
  {
    hide GivesBack, Substitute, AllSpelled, Bare, Fits, Moved;
    if tokens == [] {
      NothingBack(sql, from, at, old_, new_, edited);
    } else {
      var first, rest := tokens[0], tokens[1..];
      EditedParts(sql, tokens, from, at, old_, new_, edited);
      EditBack(sql, rest, first.End(), at + (first.z - from) + |new_|, old_, new_, edited);
      EditBackStep(sql, tokens, from, edited, at, old_, new_);
    }
  }

  lemma {:induction false} NothingBack(sql: Text, from: nat, at: nat, old_: Text, new_: Text, edited: Text)
    requires Fits([], from, |sql|) && at <= |edited| && edited[at..] == Substitute(sql, [], from, new_, false)
    ensures GivesBack(sql, [], from, edited, at, old_, new_)
  {
  }

  /** Renaming bare tokens without quoting and renaming them back restores the statement, byte for byte, exactly when
      there is nothing to rename or the new name starts like an identifier. */
  lemma {:induction false} RenameRoundTrip(sql: Text, tokens: seq<Token>, old_: Text, new_: Text)
    requires Fits(tokens, 0, |sql|) && AllSpelled(sql, tokens, old_) && Bare(old_) && new_ != []
    ensures
      var edited := Substitute(sql, tokens, 0, new_, false);
      var moved := Moved(tokens, 0, 0, |new_|, |sql|);
      && Fits(moved, 0, |edited|)
      && (Substitute(edited, moved, 0, old_, false) == sql <==> tokens == [] || IsIdChar(new_[0]))
  {
    var edited := Substitute(sql, tokens, 0, new_, false);
    assert edited[0..] == edited;
    EditBack(sql, tokens, 0, 0, old_, new_, edited);
    assert sql[0..] == sql;
  }
}
