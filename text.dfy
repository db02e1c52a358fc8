/** The `ILIKE '%term%'` test of the search route, read as ASCII
    case-folded substring containment. */
module Text {

  function Lower(c: char): char {
    if 'A' <= c <= 'Z' then (c as int + 32) as char else c
  }

  /** `s` with every ASCII upper-case letter replaced by its lower case. */
  function Fold(s: string): (r: string)
    ensures |r| == |s|
  {
    seq(|s|, i requires 0 <= i < |s| => Lower(s[i]))
  }

  predicate IsPrefix(p: string, s: string) {
    |p| <= |s| && s[..|p|] == p
  }

  /** `p` occurs somewhere in `s`, tried position by position. */
  predicate Contains(s: string, p: string)
    decreases |s|
  {
    IsPrefix(p, s) || (|s| > 0 && Contains(s[1..], p))
  }

  /** `p` occurs in `s` starting at index `i`. */
  predicate OccursAt(s: string, p: string, i: int) {
    0 <= i <= |s| - |p| && s[i..i + |p|] == p
  }

  /** The position-by-position test agrees with the definition of a
      substring: some window of `s` equals `p`. */
  lemma {:induction false} ContainsIff(s: string, p: string)
    ensures Contains(s, p) <==> exists i :: OccursAt(s, p, i)
    decreases |s|
  {
    if IsPrefix(p, s) {
      assert OccursAt(s, p, 0);
    } else if |s| > 0 {
      ContainsIff(s[1..], p);
      if exists i :: OccursAt(s, p, i) {
        var i :| OccursAt(s, p, i);
        assert i > 0;
        assert OccursAt(s[1..], p, i - 1);
      }
      if Contains(s[1..], p) {
        var i :| OccursAt(s[1..], p, i);
        assert OccursAt(s, p, i + 1);
      }
    } else {
      assert forall i :: !OccursAt(s, p, i);
    }
  }

  /** Whether a question text matches a search term, ignoring ASCII case:
      some window of the folded text equals the folded term. */
  predicate MatchesTerm(text: string, term: string)
    ensures MatchesTerm(text, term) <==> exists i :: OccursAt(Fold(text), Fold(term), i)
  {
    ContainsIff(Fold(text), Fold(term));
    Contains(Fold(text), Fold(term))
  }

  /** Matching depends on the term only through its folded form, so terms
      that differ only in letter case match the same texts. */
  lemma MatchesIgnoreCase(text: string, term1: string, term2: string)
    requires Fold(term1) == Fold(term2)
    ensures MatchesTerm(text, term1) == MatchesTerm(text, term2)
  {
  }

  /** The empty term occurs in every text. */
  lemma EmptyTermMatches(text: string)
    ensures MatchesTerm(text, "")
  {
  }

  /** "how" and "HOW" are the same term to the search. */
  lemma HowIsHOW()
    ensures Fold("how") == Fold("HOW")
  {
  }
}
