/** Linking the terms of a compound SELECT both ways (parserDoubleLinkSelect in parse.c). */
module SelectLinks {
  /** struct Select: `pPrior` is the term to the left; `compound` and `multiValue` are two of its flags. */
  class Select {
    const pPrior: Select?
    const multiValue: bool
    var pNext: Select?
    var compound: bool

    constructor (pPrior: Select?, multiValue: bool)
      ensures this.pPrior == pPrior && this.multiValue == multiValue && pNext == null && !compound
    {
      this.pPrior, this.multiValue, pNext, compound := pPrior, multiValue, null, false;
    }
  }

  ghost function At(terms: seq<Select>, i: int): Select? {
    if 0 <= i < |terms| then terms[i] else null
  }

  /** The terms from `p` leftwards; a finite chain of `pPrior` pointers. */
  ghost predicate Terms(p: Select, terms: seq<Select>) {
    terms != [] && terms[0] == p && forall i :: 0 <= i < |terms| ==> terms[i].pPrior == At(terms, i + 1)
  }

  /** Following `pPrior` visits no term twice: the chain ends. */
  lemma {:induction false} TermsAreDistinct(p: Select, terms: seq<Select>)
    requires Terms(p, terms)
    ensures forall i, j :: 0 <= i < j < |terms| ==> terms[i] != terms[j]
  {
    forall i, j | 0 <= i < j < |terms| ensures terms[i] != terms[j] {
      if terms[i] == terms[j] {
        SameRest(p, terms, i, j);
      }
    }
  }

  lemma {:induction false} SameRest(p: Select, terms: seq<Select>, i: nat, j: nat)
    requires Terms(p, terms) && i < j < |terms| && terms[i] == terms[j]
    ensures false
    decreases |terms| - j
  {
    if j + 1 < |terms| {
      SameRest(p, terms, i + 1, j + 1);
    }
  }

  /** Answers whether the limit on the number of terms, if there is one, is exceeded. */
  method DoubleLinkSelect(p: Select, limit: int, ghost terms: seq<Select>) returns (tooMany: bool)
    requires Terms(p, terms)
    modifies terms
    ensures |terms| == 1 ==> p.pNext == old(p.pNext) && p.compound == old(p.compound)
    ensures |terms| > 1 ==>
            forall i :: 0 <= i < |terms| ==> terms[i].pNext == At(terms, i - 1) && terms[i].compound
    ensures tooMany <==> |terms| > 1 && !p.multiValue && 0 < limit < |terms|
  {
    tooMany := false;
    if p.pPrior != null {
      TermsAreDistinct(p, terms);
      var pNext: Select? := null;
      var pLoop: Select? := p;
      var cnt := 0;
      while pLoop != null
        invariant 0 <= cnt <= |terms| && pLoop == At(terms, cnt) && pNext == At(terms, cnt - 1)
        invariant forall i :: 0 <= i < cnt ==> terms[i].pNext == At(terms, i - 1) && terms[i].compound
        decreases |terms| - cnt
      {
        pLoop.pNext := pNext;
        pLoop.compound := true;
        pNext := pLoop;
        pLoop := pLoop.pPrior;
        cnt := cnt + 1;
      }
      if !p.multiValue && limit > 0 && cnt > limit {
        tooMany := true;
      }
    }
  }
}
