/**
  The three engines side by side: whatever the inputs (with a non-empty
  pattern), they return the same index, the reference leftmost match.
 */
module Engines {
  import opened Occurrence
  import BoyerMoore
  import Kmp
  import RabinKarp

  method SearchAll(text: string, pattern: string) returns (bm: int, kmp: int, rk: int)
    requires |pattern| >= 1
    ensures bm == kmp == rk == FirstOccurrence(text, pattern)
    ensures bm == -1 <==> forall k :: !MatchAt(text, pattern, k)
    ensures bm != -1 ==> MatchAt(text, pattern, bm)
  {
    bm := BoyerMoore.BoyerMooreSearch(text, pattern);
    kmp := Kmp.KmpSearch(text, pattern);
    rk := RabinKarp.RabinKarpSearch(text, pattern);
    FirstOccurrenceUnique(text, pattern, bm);
    FirstOccurrenceUnique(text, pattern, kmp);
    FirstOccurrenceUnique(text, pattern, rk);
  }

  /** A match in the middle of the text, after a near miss at 0. */
  lemma MatchInTheMiddle()
    ensures FirstOccurrence("ABABDABACDABABCABAB", "ABABCABAB") == 10
  {
    var t, p := "ABABDABACDABABCABAB", "ABABCABAB";
    assert t[4] != p[4];
    assert t[1] != p[0];
    assert t[4] != p[2];
    assert t[3] != p[0];
    assert t[4] != p[0];
    assert t[8] != p[3];
    assert t[6] != p[0];
    assert t[8] != p[1];
    assert t[8] != p[0];
    assert t[9] != p[0];
    assert t[10..19] == p;
    FirstOccurrenceUnique(t, p, 10);
  }

  /** A match at the very start. */
  lemma MatchAtStart()
    ensures FirstOccurrence("AAAAAAAAAA", "AAAA") == 0
  {
    var t, p := "AAAAAAAAAA", "AAAA";
    assert t[0..4] == p;
    FirstOccurrenceUnique(t, p, 0);
  }

  /** A match found only after several long partial matches. */
  lemma MatchAfterPartialMatches()
    ensures FirstOccurrence("abcxabcdabxabcdabcdabcy", "abcdabcy") == 15
  {
    var t, p := "abcxabcdabxabcdabcdabcy", "abcdabcy";
    assert t[3] != p[3];
    assert t[1] != p[0];
    assert t[2] != p[0];
    assert t[3] != p[0];
    assert t[10] != p[6];
    assert t[5] != p[0];
    assert t[6] != p[0];
    assert t[7] != p[0];
    assert t[10] != p[2];
    assert t[9] != p[0];
    assert t[10] != p[0];
    assert t[18] != p[7];
    assert t[12] != p[0];
    assert t[13] != p[0];
    assert t[14] != p[0];
    assert t[15..23] == p;
    FirstOccurrenceUnique(t, p, 15);
  }
}
