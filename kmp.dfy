/**
  Knuth-Morris-Pratt search: a longest-proper-prefix-suffix ("lps") table,
  then a scan with a text cursor `i` that never moves back and a pattern
  cursor `j` that falls back through the table on a mismatch.
 */
module Kmp {
  import opened Occurrence

  /** `b` is a proper border of `s`: its first `b` characters are also its last `b`, and `b < |s|`. */
  predicate IsBorder(s: string, b: int)
  {
    0 <= b < |s| && s[..b] == s[|s| - b..]
  }

  /** The longest proper border of `s` of length at most `k`. */
  function LongestBorderUpTo(s: string, k: nat): (b: nat)
    requires k < |s|
    ensures b <= k && IsBorder(s, b)
    ensures forall b' :: b < b' <= k ==> !IsBorder(s, b')
  {
    if k == 0 || IsBorder(s, k) then k else LongestBorderUpTo(s, k - 1)
  }

  /** The lps value of a non-empty `s`: the length of its longest proper prefix that is also a suffix. */
  function Lps(s: string): (b: nat)
    requires |s| >= 1
    ensures IsBorder(s, b)
    ensures forall b' :: IsBorder(s, b') ==> b' <= b
  {
    LongestBorderUpTo(s, |s| - 1)
  }

  /** A border of a border is a border. */
  lemma BorderOfBorder(s: string, a: nat, b: nat)
    requires IsBorder(s, a) && IsBorder(s[..a], b)
    ensures IsBorder(s, b)
  {
    calc {
      s[..b];
      s[..a][..b];
      s[..a][a - b..];
      s[|s| - a..][a - b..];
      s[|s| - b..];
    }
  }

  /** A shorter border of `s` is a border of its longer border. */
  lemma BorderWithinBorder(s: string, a: nat, b: nat)
    requires IsBorder(s, a) && IsBorder(s, b) && b < a
    ensures IsBorder(s[..a], b)
  {
    calc {
      s[..a][..b];
      s[..b];
      s[|s| - b..];
      s[|s| - a..][a - b..];
      s[..a][a - b..];
    }
  }

  /** A border of `s + [c]` of length `b + 1` is a border `b` of `s` followed by `c`. */
  lemma BorderExtension(s: string, c: char, b: nat)
    requires b < |s|
    ensures IsBorder(s + [c], b + 1) <==> IsBorder(s, b) && s[b] == c
  {
    var t := s + [c];
    assert t[..b + 1] == s[..b] + [s[b]];
    assert t[|t| - (b + 1)..] == s[|s| - b..] + [c];
    if IsBorder(t, b + 1) {
      assert s[..b] == t[..b + 1][..b];
      assert s[|s| - b..] == t[|t| - (b + 1)..][..b];
    }
  }

  /**
    One step of `compute_lps`. Every border of `p[..i]` longer than `len` has
    been ruled out, so `p[..i+1]` has no border longer than `len + 1`; it has
    that one exactly when `p[len] == p[i]`, and when `len == 0` and the
    characters differ its lps is 0.
   */
  lemma LpsStep(p: string, i: nat, len: nat)
    requires len < i < |p|
    requires IsBorder(p[..i], len)
    requires forall b :: len < b && IsBorder(p[..i], b) ==> p[b] != p[i]
    ensures p[i] == p[len] ==> Lps(p[..i + 1]) == len + 1
    ensures p[i] != p[len] && len == 0 ==> Lps(p[..i + 1]) == 0
  {
    var s := p[..i];
    assert p[..i + 1] == s + [p[i]];
    var l := Lps(p[..i + 1]);
    if l > 0 {
      BorderExtension(s, p[i], l - 1);
      assert s[l - 1] == p[l - 1];
    }
    if p[i] == p[len] {
      BorderExtension(s, p[i], len);
    }
  }

  /**
    The fallback `len = lps[len - 1]` of `compute_lps` skips no candidate: the
    new `len` is again a border of `p[..i]`, and no border between it and the
    old `len` extends by `p[i]`.
   */
  lemma LpsFallback(p: string, i: nat, len: nat)
    requires 0 < len < i < |p|
    requires IsBorder(p[..i], len)
    requires forall b :: len < b && IsBorder(p[..i], b) ==> p[b] != p[i]
    requires p[i] != p[len]
    ensures IsBorder(p[..i], Lps(p[..len]))
    ensures forall b :: Lps(p[..len]) < b && IsBorder(p[..i], b) ==> p[b] != p[i]
  {
    var s := p[..i];
    assert s[..len] == p[..len];
    var l := Lps(p[..len]);
    BorderOfBorder(s, len, l);
    forall b | l < b && IsBorder(s, b)
      ensures p[b] != p[i]
    {
      if b < len {
        BorderWithinBorder(s, len, b);
      }
    }
  }

  /** `compute_lps`: entry `i` is the lps value of `pattern[..i+1]`. */
  method ComputeLps(pattern: string) returns (lps: seq<int>)
    ensures |lps| == |pattern|
    ensures forall i :: 0 <= i < |pattern| ==> lps[i] == Lps(pattern[..i + 1])
  {
    var table := new int[|pattern|](_ => 0);
    var length := 0;
    var i := 1;
    while i < |pattern|
      invariant |pattern| >= 1 ==> i <= |pattern|
      invariant 0 <= length < i
      invariant forall k :: 0 <= k < i && k < |pattern| ==> table[k] == Lps(pattern[..k + 1])
      invariant i < |pattern| ==> IsBorder(pattern[..i], length)
      invariant i < |pattern| ==> forall b :: length < b && IsBorder(pattern[..i], b) ==> pattern[b] != pattern[i]
      decreases |pattern| - i, length
    {
      if pattern[i] == pattern[length] {
        LpsStep(pattern, i, length);
        length := length + 1;
        table[i] := length;
        i := i + 1;
      } else {
        if length != 0 {
          LpsFallback(pattern, i, length);
          length := table[length - 1];
        } else {
          LpsStep(pattern, i, length);
          table[i] := 0;
          i := i + 1;
        }
      }
    }
    lps := table[..];
  }

  /**
    The scan's fallback `j = lps[j - 1]` skips no occurrence: after a
    mismatch of `pattern[j]` against `text[i]`, with `pattern[..j]` matched
    just before `i`, no occurrence starts in `[i - j, i - lps[j-1])`, and the
    new `j` again describes characters matched just before `i`.
   */
  lemma ScanFallback(text: string, pattern: string, i: nat, j: nat)
    requires 0 < j < |pattern| && j <= i < |text|
    requires text[i - j..i] == pattern[..j]
    requires pattern[j] != text[i]
    ensures var l := Lps(pattern[..j]);
      text[i - l..i] == pattern[..l] &&
      forall k :: i - j <= k < i - l ==> !MatchAt(text, pattern, k)
  {
    var s := pattern[..j];
    var l := Lps(s);
    assert text[i - l..i] == s[j - l..];
    assert s[..l] == pattern[..l];
    forall k | i - j <= k < i - l
      ensures !MatchAt(text, pattern, k)
    {
      var b := i - k;
      if k + |pattern| <= |text| {
        if k == i - j {
          assert text[k..k + |pattern|][j] != pattern[j];
        } else {
          assert !IsBorder(s, b);
          assert text[k..k + |pattern|][..b] == text[k..i] == s[j - b..];
          assert pattern[..b] == s[..b];
          assert text[k..k + |pattern|][..b] != pattern[..b];
        }
      }
    }
  }

  /** `kmp_search`: the leftmost occurrence of `pattern` in `mainString`, or -1. */
  method KmpSearch(mainString: string, pattern: string) returns (r: int)
    requires |pattern| >= 1
    ensures IsFirstOccurrence(mainString, pattern, r)
  {
    var m := |pattern|;
    var n := |mainString|;
    var lps := ComputeLps(pattern);
    var i, j := 0, 0;
    while i < n
      invariant 0 <= j <= i <= n && j < m
      invariant mainString[i - j..i] == pattern[..j]
      invariant forall k :: 0 <= k < i - j ==> !MatchAt(mainString, pattern, k)
      decreases n - i, j
    {
      if pattern[j] == mainString[i] {
        assert mainString[i - j..i + 1] == mainString[i - j..i] + [mainString[i]];
        assert pattern[..j + 1] == pattern[..j] + [pattern[j]];
        i, j := i + 1, j + 1;
      } else if j != 0 {
        ScanFallback(mainString, pattern, i, j);
        j := lps[j - 1];
      } else {
        assert !MatchAt(mainString, pattern, i) by {
          if i + m <= n {
            assert mainString[i..i + m][0] != pattern[0];
          }
        }
        i := i + 1;
      }
      if j == m {
        assert pattern[..j] == pattern;
        return i - j;
      }
    }
    return -1;
  }
}
