/** The search condition `question ILIKE '%term%'`: the term occurs anywhere in the
    question text, ignoring the case of ASCII letters. */
module TextMatch {

  function Lower(c: char): char {
    if 'A' <= c <= 'Z' then (c as int + 32) as char else c
  }

  function LowerStr(s: string): string {
    seq(|s|, i requires 0 <= i < |s| => Lower(s[i]))
  }

  /** `term` sits in `text` starting at position `i`. */
  ghost predicate OccursAt(text: string, term: string, i: int) {
    0 <= i && i + |term| <= |text| && text[i..i + |term|] == term
  }

  /** Substring search, scanning `text` from the left. */
  function Contains(text: string, term: string): bool
    decreases |text|
  {
    if |term| > |text| then false
    else if text[..|term|] == term then true
    else Contains(text[1..], term)
  }

  /** The scan finds the term exactly when it occurs somewhere. */
  lemma {:induction false} ContainsIff(text: string, term: string)
    ensures Contains(text, term) <==> exists i :: OccursAt(text, term, i)
  {
    if |term| > |text| {
    } else if text[..|term|] == term {
      assert OccursAt(text, term, 0);
    } else {
      ContainsIff(text[1..], term);
      if Contains(text[1..], term) {
        var i :| OccursAt(text[1..], term, i);
        assert text[i + 1..i + 1 + |term|] == text[1..][i..i + |term|];
        assert OccursAt(text, term, i + 1);
      }
      forall i | OccursAt(text, term, i) ensures OccursAt(text[1..], term, i - 1) {
        assert i != 0;
        assert text[1..][i - 1..i - 1 + |term|] == text[i..i + |term|];
      }
    }
  }

  /** `text ILIKE '%term%'`. */
  function MatchesTerm(text: string, term: string): (b: bool)
    ensures b <==> exists i :: OccursAt(LowerStr(text), LowerStr(term), i)
  {
    ContainsIff(LowerStr(text), LowerStr(term));
    Contains(LowerStr(text), LowerStr(term))
  }

  lemma LowerIdempotent(s: string)
    ensures LowerStr(LowerStr(s)) == LowerStr(s)
  {
  }

  /** The match ignores case on both sides: lower-casing the text or the term changes nothing. */
  lemma MatchIgnoresCase(text: string, term: string)
    ensures MatchesTerm(LowerStr(text), term) == MatchesTerm(text, term)
    ensures MatchesTerm(text, LowerStr(term)) == MatchesTerm(text, term)
  {
    LowerIdempotent(text);
    LowerIdempotent(term);
  }

  /** An empty term (the pattern `%%`) would match every question. The route
      `/questions/<searchTerm>` only accepts a non-empty path segment, so the search
      handler never receives this term; the fact bounds what the pattern means. */
  lemma {:induction false} EmptyTermMatchesAll(text: string)
    ensures MatchesTerm(text, "")
  {
    ContainsIff(LowerStr(text), LowerStr(""));
    assert OccursAt(LowerStr(text), LowerStr(""), 0);
  }

  /** A search for "title" finds a question whose text says "Title". */
  lemma TitleFindsCapitalised()
    ensures MatchesTerm("Book Title", "title")
  {
    var text := LowerStr("Book Title");
    assert text == "book title";
    assert LowerStr("title") == "title";
    assert OccursAt(text, "title", 5);
    ContainsIff(text, "title");
  }
}
