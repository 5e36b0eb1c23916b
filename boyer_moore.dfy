/**
  Boyer-Moore search in its Horspool form: a shift table keyed by character,
  and a right-to-left comparison whose skip is looked up from the text
  character under the pattern's LAST position.
 */
module BoyerMoore {
  import opened Occurrence

  /** The rightmost index `r < n` with `s[r] == c`, or -1 when `c` is not among `s[..n]`. */
  function RightmostBefore(s: string, n: nat, c: char): (r: int)
    requires n <= |s|
    ensures -1 <= r < n
    ensures r >= 0 ==> s[r] == c
    ensures forall k :: r < k < n ==> s[k] != c
  {
    if n == 0 then -1
    else if s[n - 1] == c then n - 1
    else RightmostBefore(s, n - 1, c)
  }

  /**
    The skip for text character `c`: `M - 1 - r` for the rightmost index `r`
    of `c` among the positions `0..M-2`, and `M` when `c` does not occur there
    (the last character's fallback and the default for absent keys alike).
   */
  function Shift(pattern: string, c: char): (d: int)
    requires |pattern| >= 1
    ensures 1 <= d <= |pattern|
  {
    var r := RightmostBefore(pattern, |pattern| - 1, c);
    if r >= 0 then |pattern| - 1 - r else |pattern|
  }

  /** The set of characters among `s[..n]`. */
  function CharsBefore(s: string, n: nat): set<char>
    requires n <= |s|
  {
    if n == 0 then {} else CharsBefore(s, n - 1) + {s[n - 1]}
  }

  /** The set of characters of `s`. */
  function Chars(s: string): set<char>
  {
    CharsBefore(s, |s|)
  }

  lemma {:induction false} CharsBeforeHaveRightmost(s: string, n: nat, c: char)
    requires n <= |s|
    ensures c in CharsBefore(s, n) <==> RightmostBefore(s, n, c) >= 0
  {
    if n > 0 {
      CharsBeforeHaveRightmost(s, n - 1, c);
    }
  }

  lemma CharsAreElements(s: string, c: char)
    ensures c in Chars(s) <==> c in s
  {
    CharsBeforeHaveRightmost(s, |s|, c);
  }

  /** `table` holds exactly the pattern's characters, each with its Horspool skip. */
  ghost predicate IsShiftTable(pattern: string, table: map<char, int>)
    requires |pattern| >= 1
  {
    table.Keys == Chars(pattern) &&
    forall c :: c in table ==> table[c] == Shift(pattern, c)
  }

  /** A lookup with default `M`, as `table.get(c, M)` does, yields the skip for `c`. */
  lemma ShiftTableLookup(pattern: string, table: map<char, int>, c: char)
    requires |pattern| >= 1 && IsShiftTable(pattern, table)
    ensures (if c in table then table[c] else |pattern|) == Shift(pattern, c)
  {
    var m := |pattern|;
    CharsBeforeHaveRightmost(pattern, m, c);
    assert RightmostBefore(pattern, m, c) == if pattern[m - 1] == c then m - 1 else RightmostBefore(pattern, m - 1, c);
  }

  /**
    The table that positions `0..M-2` leave behind becomes the shift table once
    the last character is given `M` unless it is already a key.
   */
  lemma SetDefaultCompletesTable(pattern: string, table: map<char, int>)
    requires |pattern| >= 1
    requires table.Keys == CharsBefore(pattern, |pattern| - 1)
    requires forall c :: c in table ==> table[c] == |pattern| - 1 - RightmostBefore(pattern, |pattern| - 1, c)
    ensures var last := pattern[|pattern| - 1];
      IsShiftTable(pattern, if last in table then table else table[last := |pattern|])
  {
    var m := |pattern|;
    var last := pattern[m - 1];
    var t := if last in table then table else table[last := m];
    assert t.Keys == CharsBefore(pattern, m);
    forall c | c in t
      ensures t[c] == Shift(pattern, c)
    {
      CharsBeforeHaveRightmost(pattern, m - 1, c);
      if c !in table {
        assert t[c] == m && RightmostBefore(pattern, m - 1, c) == -1;
      } else {
        assert t[c] == table[c] && RightmostBefore(pattern, m - 1, c) >= 0;
      }
    }
  }

  /**
    `build_shift_table`: positions `0..M-2` fill the table left to right, so
    the rightmost occurrence wins; the last character gets `M` only when it is
    not already a key.
   */
  method BuildShiftTable(pattern: string) returns (table: map<char, int>)
    requires |pattern| >= 1
    ensures IsShiftTable(pattern, table)
  {
    table := map[];
    var length := |pattern|;
    for index := 0 to length - 1
      invariant table.Keys == CharsBefore(pattern, index)
      invariant forall c :: c in table ==> table[c] == length - 1 - RightmostBefore(pattern, index, c)
    {
      table := table[pattern[index] := length - index - 1];
    }
    SetDefaultCompletesTable(pattern, table);
    if pattern[length - 1] !in table {
      table := table[pattern[length - 1] := length];
    }
  }

  /**
    The Horspool rule is sound: with `c` the text character under the
    pattern's last position, no occurrence starts strictly between `i` and
    `i + Shift(pattern, c)`.
   */
  lemma HorspoolSkipIsSafe(text: string, pattern: string, i: nat)
    requires |pattern| >= 1 && i + |pattern| <= |text|
    ensures forall k :: i < k < i + Shift(pattern, text[i + |pattern| - 1]) ==> !MatchAt(text, pattern, k)
  {
    var m := |pattern|;
    var c := text[i + m - 1];
    forall k | i < k < i + Shift(pattern, c)
      ensures !MatchAt(text, pattern, k)
    {
      var d := k - i;
      assert pattern[m - 1 - d] != c;
      if k + m <= |text| {
        MatchAtPointwise(text, pattern, k);
        assert text[k + (m - 1 - d)] == c;
      }
    }
  }

  /** One round of the scan: a mismatch at `i` and the Horspool skip rule out every start below the next `i`. */
  lemma HorspoolRoundIsSafe(text: string, pattern: string, i: nat, j: nat)
    requires j < |pattern| && i + |pattern| <= |text| && text[i + j] != pattern[j]
    requires forall k :: 0 <= k < i ==> !MatchAt(text, pattern, k)
    ensures forall k :: 0 <= k < i + Shift(pattern, text[i + |pattern| - 1]) ==> !MatchAt(text, pattern, k)
  {
    assert text[i..i + |pattern|][j] != pattern[j];
    HorspoolSkipIsSafe(text, pattern, i);
  }

  /**
    The inner loop of `boyer_moore_search`: compare right to left from the
    pattern's last position while the characters agree. It ends at -1 exactly
    when the whole window matches, and otherwise at the rightmost mismatch.
   */
  method CompareFromRight(text: string, pattern: string, i: nat) returns (j: int)
    requires |pattern| >= 1 && i + |pattern| <= |text|
    ensures -1 <= j < |pattern|
    ensures j < 0 <==> MatchAt(text, pattern, i)
    ensures j >= 0 ==> text[i + j] != pattern[j] && text[i + j + 1..i + |pattern|] == pattern[j + 1..]
  {
    var m := |pattern|;
    j := m - 1;
    while j >= 0 && text[i + j] == pattern[j]
      invariant -1 <= j < m
      invariant text[i + j + 1..i + m] == pattern[j + 1..]
    {
      j := j - 1;
    }
    if j >= 0 {
      assert text[i..i + m][j] != pattern[j];
    }
  }

  /** `boyer_moore_search`: the leftmost occurrence of `pattern` in `text`, or -1. */
  method BoyerMooreSearch(text: string, pattern: string) returns (r: int)
    requires |pattern| >= 1
    ensures IsFirstOccurrence(text, pattern, r)
  {
    var shiftTable := BuildShiftTable(pattern);
    var m := |pattern|;
    var i := 0;
    while i <= |text| - m
      invariant 0 <= i <= |text|
      invariant forall k :: 0 <= k < i ==> !MatchAt(text, pattern, k)
      decreases |text| - i
    {
      var j := CompareFromRight(text, pattern, i);
      if j < 0 {
        return i;
      }
      var c := text[i + m - 1];
      var skip := if c in shiftTable then shiftTable[c] else m;
      ShiftTableLookup(pattern, shiftTable, c);
      HorspoolRoundIsSafe(text, pattern, i, j);
      i := i + skip;
    }
    return -1;
  }
}
