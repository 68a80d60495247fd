/** renameEditSql (alter.c): the statement is edited in place, from the right end to the left, inside a buffer whose
    size is fixed before the first edit. */
module RenameEdit {
  import opened Bytes
  import opened RenameText
  import opened RenameRead
  import opened RenameList
  import opened RenameHistory

  // ----- lists of tokens in source order

  lemma {:induction false} FitsParts(tokens: seq<Token>, from: nat, length: nat, k: nat)
    requires Fits(tokens, from, length) && k <= |tokens|
    ensures Fits(tokens[..k], from, length) && Fits(tokens[k..], from, length)
    decreases |tokens|
  {
    if tokens == [] {
    } else if k == 0 {
      assert tokens[0..] == tokens;
      FitsInside(tokens, from, length);
    } else {
      var rest := tokens[1..];
      FitsParts(rest, tokens[0].End(), length, k - 1);
      assert tokens[..k][1..] == rest[..k - 1];
      assert tokens[k..] == rest[k - 1..];
      FitsFrom(rest[k - 1..], tokens[0].End(), length, from);
    }
  }

  lemma {:induction false} FitsOrdered(tokens: seq<Token>, from: nat, length: nat, i: nat, j: nat)
    requires Fits(tokens, from, length) && i < j < |tokens|
    ensures tokens[i].z < tokens[j].z
    decreases |tokens|
  {
    if i > 0 {
      FitsOrdered(tokens[1..], tokens[0].End(), length, i - 1, j - 1);
    } else {
      FitsAfter(tokens[1..], tokens[0].End(), length, j - 1);
    }
  }

  lemma {:induction false} FitsAfter(tokens: seq<Token>, from: nat, length: nat, j: nat)
    requires Fits(tokens, from, length) && j < |tokens|
    ensures from <= tokens[j].z
    decreases |tokens|
  {
    if j > 0 {
      FitsAfter(tokens[1..], tokens[0].End(), length, j - 1);
    }
  }

  lemma {:induction false} Cancel(a: multiset<Token>, b: multiset<Token>, x: Token)
    requires a + multiset{x} == b + multiset{x}
    ensures a == b
  {
    assert a == (a + multiset{x}) - multiset{x};
  }

  /** The token that renameColumnTokenNext picks is the last in source order, whatever the order of the list. */
  lemma {:induction false} NextIsLast(list: List, order: seq<Token>, length: nat, k: nat)
    requires IsLast(list, k) && multiset(Spelled(list)) == multiset(order) && Fits(order, 0, length)
    ensures order != [] && list[k].1 == order[|order| - 1]
    ensures multiset(Spelled(Without(list, k))) == multiset(order[..|order| - 1])
  {
    assert Spelled(list)[k] in multiset(order);
    var i :| 0 <= i < |order| && order[i] == list[k].1;
    var last := order[|order| - 1];
    assert last in multiset(Spelled(list));
    if i < |order| - 1 {
      FitsOrdered(order, 0, length, i, |order| - 1);
    }
    TakeOne(list, k);
    assert order == order[..|order| - 1] + [last];
    Cancel(multiset(Spelled(Without(list, k))), multiset(order[..|order| - 1]), last);
  }

  // ----- C strings

  predicate NoNul(text: Text) {
    forall i :: 0 <= i < |text| ==> text[i] != 0
  }

  function UpToNul(text: Text): Text {
    if text == [] || text[0] == 0 then [] else [text[0]] + UpToNul(text[1..])
  }

  lemma {:induction false} UpToNulIs(text: Text, rest: Text)
    requires NoNul(text) && rest != [] && rest[0] == 0
    ensures UpToNul(text + rest) == text
    decreases |text|
  {
    if text == [] {
      assert text + rest == rest;
    } else {
      UpToNulIs(text[1..], rest);
      assert (text + rest)[1..] == text[1..] + rest;
    }
  }

  lemma {:induction false} QuotedNoNul(name: Text)
    requires NoNul(name)
    ensures NoNul(Quoted(name))
  {
    DoubledNoNul(name);
  }

  lemma {:induction false} DoubledNoNul(name: Text)
    requires NoNul(name)
    ensures NoNul(Doubled(name))
  {
    if name != [] {
      DoubledNoNul(name[1..]);
    }
  }

  lemma {:induction false} SubstituteNoNul(sql: Text, tokens: seq<Token>, from: nat, name: Text, quote: bool)
    requires Fits(tokens, from, |sql|) && NoNul(sql) && NoNul(name)
    ensures NoNul(Substitute(sql, tokens, from, name, quote))
    decreases |tokens|
  {
    if tokens != [] {
      FitsInside(tokens, from, |sql|);
      QuotedNoNul(name);
      SubstituteNoNul(sql, tokens[1..], tokens[0].End(), name, quote);
    }
  }

  // ----- the buffer

  /** memmove */
  method MemMove(a: array<Byte>, to: nat, from: nat, n: nat)
    requires to + n <= a.Length && from + n <= a.Length
    modifies a
    ensures a[..] == old(a[..to] + a[from..from + n] + a[to + n..])
  {
    forall i | 0 <= i < n {
      a[to + i] := a[from + i];
    }
  }

  /** memcpy from another object */
  method MemCpy(a: array<Byte>, to: nat, text: Text)
    requires to + |text| <= a.Length
    modifies a
    ensures a[..] == old(a[..to]) + text + old(a[to + |text|..])
  {
    forall i | 0 <= i < |text| {
      a[to + i] := text[i];
    }
  }

  /** The body of the edit loop after a token is chosen: everything stays inside the buffer if the longer text and its
      terminator fit. */
  method Overwrite(zOut: array<Byte>, nOut: nat, iOff: nat, n: nat, zReplace: Text) returns (newOut: nat)
    requires iOff + n <= nOut < zOut.Length && nOut - n + |zReplace| < zOut.Length && zOut[nOut] == 0
    modifies zOut
    ensures newOut == nOut - n + |zReplace| && zOut[newOut] == 0
    ensures zOut[..newOut] == old(zOut[..iOff]) + zReplace + old(zOut[iOff + n..nOut])
  {
    newOut := MakeRoom(zOut, nOut, iOff, n, |zReplace|);
    ghost var before := zOut[..];
    MemCpy(zOut, iOff, zReplace);
    Replaced(before, zOut[..], iOff, zReplace, newOut);
  }

  lemma {:induction false} Replaced(before: Text, after: Text, at: nat, text: Text, end: nat)
    requires at + |text| <= end < |before| && after == before[..at] + text + before[at + |text|..]
    ensures |after| == |before| && after[end] == before[end]
    ensures after[..end] == before[..at] + text + before[at + |text|..end]
  {
    var rest := before[at + |text|..];
    assert rest[..end - at - |text|] == before[at + |text|..end];
    assert after[..end] == before[..at] + text + rest[..end - at - |text|];
  }

  /** The bytes after the token move to where its replacement will end. */
  method MakeRoom(zOut: array<Byte>, nOut: nat, iOff: nat, n: nat, nReplace: nat) returns (newOut: nat)
    requires iOff + n <= nOut < zOut.Length && nOut - n + nReplace < zOut.Length && zOut[nOut] == 0
    modifies zOut
    ensures newOut == nOut - n + nReplace && zOut[newOut] == 0 && zOut[..iOff] == old(zOut[..iOff])
    ensures zOut[iOff + nReplace..newOut] == old(zOut[iOff + n..nOut])
  {
    newOut := nOut;
    if n != nReplace {
      MemMove(zOut, iOff + nReplace, iOff + n, nOut - (iOff + n));
      newOut := nOut + nReplace - n;
      zOut[newOut] := 0;
    }
  }

  /** What the loop has done when the first `k` tokens in source order are still to be replaced. */
  ghost predicate Edited(sql: Text, order: seq<Token>, k: nat, name: Text, quote: bool, zOut: Text, nOut: nat)
    requires k <= |order| && Fits(order[k..], 0, |sql|)
  {
    && nOut < |zOut| && zOut[nOut] == 0
    && zOut[..nOut] == Substitute(sql, order[k..], 0, name, quote)
  }

  ghost predicate EditedTo(sql: Text, order: seq<Token>, k: nat, name: Text, quote: bool, zOut: Text, nOut: nat) {
    k <= |order| && Fits(order[k..], 0, |sql|) && Edited(sql, order, k, name, quote, zOut, nOut)
  }

  /** The list holds the first `k` tokens in source order, in some order. */
  ghost predicate Remaining(list: List, order: seq<Token>, k: nat, length: nat) {
    k == |list| && k <= |order| && multiset(Spelled(list)) == multiset(order[..k]) && Fits(order, 0, length)
  }

  /** The size of the buffer. */
  ghost predicate Roomy(sql: Text, order: seq<Token>, name: Text, size: nat) {
    size > |sql| + |order| * |Quoted(name)|
  }

  /** The bound that the size of the buffer relies on. */
  lemma {:induction false} InsideBuffer(sql: Text, order: seq<Token>, k: nat, name: Text, quote: bool)
    requires k <= |order| && Fits(order, 0, |sql|)
    ensures Fits(order[k..], 0, |sql|)
    ensures |Substitute(sql, order[k..], 0, name, quote)| <= |sql| + |order| * |Quoted(name)|
  {
    FitsParts(order, 0, |sql|, k);
    SubstituteLength(sql, order[k..], 0, name, quote);
    var limit := |Quoted(name)|;
    hide Quoted, Fits, Growth, Substitute;
    GrowthBound(sql, order[k..], name, quote, limit);
    TimesLess(|order[k..]|, |order|, limit);
  }

  lemma {:induction false} TimesLess(a: nat, b: nat, x: nat)
    requires a <= b
    ensures a * x <= b * x
  {
    Distribute(a, b - a, x);
  }

  /** One round of the loop. */
  lemma {:induction false} RoundIsEdit(sql: Text, order: seq<Token>, k: nat, name: Text, quote: bool, text: Text)
    requires 0 < k <= |order| && Fits(order, 0, |sql|) && Fits(order[k..], 0, |sql|) && Fits(order[k - 1..], 0, |sql|)
    requires text == Substitute(sql, order[k..], 0, name, quote)
    ensures
      var token := order[k - 1];
      && token.End() <= |text|
      && Substitute(sql, order[k - 1..], 0, name, quote)
         == text[..token.z] + Replacement(sql, token, name, quote) + text[token.End()..]
  {
    assert order[k - 1..][1..] == order[k..];
    EditOne(sql, order[k - 1..], name, quote, text);
  }

  /** renameEditSql. The tokens of the list may come in any order; `order` is their order in the statement. The result
      is the statement with all of them replaced at once. Every write stays inside a buffer of the size computed from
      the counter of the list. */
  method EditSql(ctx: RenameCtx, zSql: Text, zNew: Text, bQuote: bool, ghost order: seq<Token>) returns (result: Text)
    requires ctx.Valid() && ctx.nList == |ctx.nodes|
    requires multiset(Spelled(ctx.Tokens())) == multiset(order) && Fits(order, 0, |zSql|)
    requires NoNul(zSql) && NoNul(zNew)
    modifies ctx, ctx.nodes
    ensures ctx.Valid() && ctx.Tokens() == []
    ensures result == Substitute(zSql, order, 0, zNew, bQuote)
    ensures forall i :: 0 <= i < |order| ==> ReadsBack(zSql, order, zNew, bQuote, i, result)
  {
    hide Linked, Fits, Spelled, EditedTo, NoNul, Quoted, ReadsBack;
    var zQuot := Quoted(zNew);
    SameSize(ctx.Tokens(), order);
    assert order[..|order|] == order;
    var zOut := new Byte[|zSql| + ctx.nList * |zQuot| + 1](_ => 0);
    MemCpy(zOut, 0, zSql);
    Unedited(zSql, order, zNew, bQuote, zOut[..]);
    var nOut := EditLoop(ctx, zSql, zNew, bQuote, order, zOut);
    Finished(zSql, order, zNew, bQuote, zOut[..], nOut);
    result := UpToNul(zOut[..]);
    forall i: nat | i < |order| ensures ReadsBack(zSql, order, zNew, bQuote, i, result) {
      TokenReadsBack(zSql, order, zNew, bQuote, i);
    }
  }

  /** The loop of renameEditSql. */
  method EditLoop(
    ctx: RenameCtx, zSql: Text, zNew: Text, bQuote: bool, ghost order: seq<Token>, zOut: array<Byte>)
    returns (nOut: nat)
    requires ctx.Valid() && |ctx.nodes| == |order| && Remaining(ctx.Tokens(), order, |order|, |zSql|)
    requires Roomy(zSql, order, zNew, zOut.Length) && EditedTo(zSql, order, |order|, zNew, bQuote, zOut[..], |zSql|)
    modifies ctx, ctx.nodes, zOut
    ensures ctx.Valid() && ctx.nodes == []
    ensures EditedTo(zSql, order, 0, zNew, bQuote, zOut[..], nOut)
  {
    hide Linked, Remaining, Roomy, EditedTo;
    nOut := |zSql|;
    ghost var k: nat := |order|;
    while ctx.pList != null
      invariant ctx.Valid() && k == |ctx.nodes|
      invariant Remaining(ctx.Tokens(), order, k, |zSql|)
      invariant forall i :: 0 <= i < |ctx.nodes| ==> ctx.nodes[i] in old(ctx.nodes)
      invariant EditedTo(zSql, order, k, zNew, bQuote, zOut[..], nOut)
      decreases k
    {
      nOut := EditNext(ctx, zSql, zNew, bQuote, order, k, zOut, nOut);
      k := k - 1;
    }
    ctx.EmptyOrNot();
  }

  lemma {:induction false} NoneRemaining(list: List, order: seq<Token>, k: nat, length: nat)
    requires Remaining(list, order, k, length)
    ensures list == [] <==> k == 0
  {
  }

  /** The body of the loop. */
  method EditNext(
    ctx: RenameCtx, zSql: Text, zNew: Text, bQuote: bool, ghost order: seq<Token>, ghost k: nat,
    zOut: array<Byte>, nOut: nat) returns (newOut: nat)
    requires ctx.Valid() && ctx.pList != null && Remaining(ctx.Tokens(), order, k, |zSql|)
    requires Roomy(zSql, order, zNew, zOut.Length) && EditedTo(zSql, order, k, zNew, bQuote, zOut[..], nOut)
    modifies ctx, ctx.nodes, zOut
    ensures ctx.Valid() && k > 0 && |ctx.nodes| == k - 1 && Remaining(ctx.Tokens(), order, k - 1, |zSql|)
    ensures forall i :: 0 <= i < |ctx.nodes| ==> ctx.nodes[i] in old(ctx.nodes)
    ensures EditedTo(zSql, order, k - 1, zNew, bQuote, zOut[..], newOut)
  {
    hide Linked, Remaining, Roomy, EditedTo, Entries;
    ctx.EmptyOrNot();
    NoneRemaining(ctx.Tokens(), order, k, |zSql|);
    var best := NextToken(ctx, order, k, |zSql|);
    newOut := Round(zSql, zNew, bQuote, order, k, best.t, zOut, nOut);
  }

  lemma {:induction false} Unedited(sql: Text, order: seq<Token>, name: Text, quote: bool, zOut: Text)
    requires |zOut| > |sql| && zOut[..|sql|] == sql && zOut[|sql|] == 0
    ensures EditedTo(sql, order, |order|, name, quote, zOut, |sql|)
  {
    assert sql[0..] == sql;
  }

  /** sqlite3_result_text reads up to the terminator. */
  lemma {:induction false} Finished(sql: Text, order: seq<Token>, name: Text, quote: bool, zOut: Text, nOut: nat)
    requires Fits(order, 0, |sql|) && NoNul(sql) && NoNul(name)
    requires EditedTo(sql, order, 0, name, quote, zOut, nOut)
    ensures UpToNul(zOut) == Substitute(sql, order, 0, name, quote)
  {
    assert order[0..] == order;
    assert zOut == zOut[..nOut] + zOut[nOut..];
    SubstituteNoNul(sql, order, 0, name, quote);
    UpToNulIs(zOut[..nOut], zOut[nOut..]);
  }

  /** renameColumnTokenNext, for a list that holds the first `k` tokens in source order. */
  method NextToken(ctx: RenameCtx, ghost order: seq<Token>, ghost k: nat, ghost length: nat) returns (best: RenameToken)
    requires ctx.Valid() && ctx.nodes != [] && Remaining(ctx.Tokens(), order, k, length)
    modifies ctx, ctx.nodes
    ensures ctx.Valid() && 0 < k <= |order| && |ctx.nodes| == k - 1
    ensures Remaining(ctx.Tokens(), order, k - 1, length)
    ensures best.t == order[k - 1] && Fits(order, 0, length)
    ensures forall i :: 0 <= i < |ctx.nodes| ==> ctx.nodes[i] in old(ctx.nodes)
  {
    hide Linked, IsLast, Fits, Spelled;
    ghost var list := ctx.Tokens();
    ghost var i;
    best, i := ctx.TokenNext();
    assert best.t == list[i].1;
    RestIsInside(old(ctx.nodes), i);
    FitsParts(order, 0, length, k);
    NextIsLast(list, order[..k], length, i);
    assert order[..k][..k - 1] == order[..k - 1];
  }

  lemma {:induction false} SameSize(list: List, order: seq<Token>)
    requires multiset(Spelled(list)) == multiset(order)
    ensures |list| == |order|
  {
    assert |multiset(Spelled(list))| == |list| && |multiset(order)| == |order|;
  }

  /** Choose the spelling of a token and overwrite it. */
  method Round(
    zSql: Text, zNew: Text, bQuote: bool, ghost order: seq<Token>, ghost k: nat,
    best: Token, zOut: array<Byte>, nOut: nat) returns (newOut: nat)
    requires 0 < k <= |order| && Fits(order, 0, |zSql|) && best == order[k - 1]
    requires Roomy(zSql, order, zNew, zOut.Length) && EditedTo(zSql, order, k, zNew, bQuote, zOut[..], nOut)
    modifies zOut
    ensures EditedTo(zSql, order, k - 1, zNew, bQuote, zOut[..], newOut)
  {
    hide Replacement, Quoted, Fits, EditedTo, Roomy;
    var zReplace := Spelling(zSql, zNew, bQuote, best);
    ghost var before := zOut[..];
    RoundFits(zSql, order, k, zNew, bQuote, before, nOut);
    newOut := Overwrite(zOut, nOut, best.z, best.n, zReplace);
    RoundDone(zSql, order, k, zNew, bQuote, before, nOut, zOut[..], newOut);
  }

  /** Before the round the token and its replacement fit. */
  lemma {:induction false} RoundFits(
    sql: Text, order: seq<Token>, k: nat, name: Text, quote: bool, zOut: Text, nOut: nat)
    requires 0 < k <= |order| && Fits(order, 0, |sql|)
    requires Roomy(sql, order, name, |zOut|) && EditedTo(sql, order, k, name, quote, zOut, nOut)
    ensures
      var best, length := order[k - 1], |Replacement(sql, order[k - 1], name, quote)|;
      best.End() <= nOut < |zOut| && nOut - best.n + length < |zOut| && zOut[nOut] == 0
  {
    hide Replacement, Quoted, Fits;
    InsideBuffer(sql, order, k - 1, name, quote);
    RoundIsEdit(sql, order, k, name, quote, zOut[..nOut]);
  }

  /** After it one token more is replaced. */
  lemma {:induction false} RoundDone(
    sql: Text, order: seq<Token>, k: nat, name: Text, quote: bool, before: Text, nOut: nat, after: Text, newOut: nat)
    requires 0 < k <= |order| && Fits(order, 0, |sql|) && EditedTo(sql, order, k, name, quote, before, nOut)
    requires order[k - 1].End() <= nOut < |before| && newOut < |after| && after[newOut] == 0
    requires
      var best := order[k - 1];
      after[..newOut] == before[..best.z] + Replacement(sql, best, name, quote) + before[best.End()..nOut]
    ensures EditedTo(sql, order, k - 1, name, quote, after, newOut)
  {
    hide Replacement, Quoted, Fits;
    InsideBuffer(sql, order, k - 1, name, quote);
    RoundIsEdit(sql, order, k, name, quote, before[..nOut]);
    var best := order[k - 1];
    assert before[..nOut][..best.z] == before[..best.z];
    assert before[..nOut][best.End()..] == before[best.End()..nOut];
  }

  /** The choice between the bare and the quoted name. */
  method Spelling(zSql: Text, zNew: Text, bQuote: bool, token: Token) returns (zReplace: Text)
    ensures zReplace == Replacement(zSql, token, zNew, bQuote)
  {
    var zQuot := Quoted(zNew);
    zReplace := if bQuote then zQuot else zNew;
    if !IsIdChar(ByteAt(zSql, token.z)) {
      zReplace := zQuot;
    }
  }
}
