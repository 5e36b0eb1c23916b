/**
  The contract shared by the three exact substring-search engines
  (Boyer-Moore-Horspool, Knuth-Morris-Pratt, Rabin-Karp): each returns the
  index of the leftmost occurrence of `pattern` in `text`, or -1.
 */
module Occurrence {

  /** `pattern` occurs in `text` starting at index `i`: `text[i:i+M] == pattern`. */
  predicate MatchAt(text: string, pattern: string, i: int)
  {
    0 <= i && i + |pattern| <= |text| && text[i..i + |pattern|] == pattern
  }

  /** The answer every engine must give: `r` is the leftmost match, and -1 exactly when there is none. */
  ghost predicate IsFirstOccurrence(text: string, pattern: string, r: int)
  {
    (r == -1 || MatchAt(text, pattern, r)) &&
    forall k :: 0 <= k && (r == -1 || k < r) ==> !MatchAt(text, pattern, k)
  }

  /** A match, read character by character. */
  lemma MatchAtPointwise(text: string, pattern: string, i: int)
    requires 0 <= i && i + |pattern| <= |text|
    ensures MatchAt(text, pattern, i) <==> forall k :: 0 <= k < |pattern| ==> text[i + k] == pattern[k]
  {
    if forall k :: 0 <= k < |pattern| ==> text[i + k] == pattern[k] {
      assert text[i..i + |pattern|] == pattern;
    }
  }

  /** Reference search: try every start from `i` on, left to right. */
  function FirstOccurrenceFrom(text: string, pattern: string, i: nat): int
    decreases |text| - i
  {
    if i + |pattern| > |text| then -1
    else if MatchAt(text, pattern, i) then i
    else FirstOccurrenceFrom(text, pattern, i + 1)
  }

  function FirstOccurrence(text: string, pattern: string): int
  {
    FirstOccurrenceFrom(text, pattern, 0)
  }

  lemma {:induction false} FirstOccurrenceFromCorrect(text: string, pattern: string, i: nat)
    requires forall k :: 0 <= k < i ==> !MatchAt(text, pattern, k)
    ensures IsFirstOccurrence(text, pattern, FirstOccurrenceFrom(text, pattern, i))
    decreases |text| - i
  {
    if i + |pattern| > |text| {
    } else if MatchAt(text, pattern, i) {
    } else {
      FirstOccurrenceFromCorrect(text, pattern, i + 1);
    }
  }

  /**
    The leftmost-match contract has exactly one solution, the reference search's
    answer; so any two engines meeting it return the same result.
   */
  lemma FirstOccurrenceUnique(text: string, pattern: string, r: int)
    ensures IsFirstOccurrence(text, pattern, r) <==> r == FirstOccurrence(text, pattern)
  {
    FirstOccurrenceFromCorrect(text, pattern, 0);
  }
}
