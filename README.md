# Verified model of the string-search, hash-table and binary-search exercises

This project models three small Python programs and proves their behaviour in Dafny.

**Exact substring search (`task_3/main.py`).** Three independent engines each return the index of the first occurrence of a pattern in a text, or -1:
- Boyer-Moore in its Horspool form (`build_shift_table`, `boyer_moore_search`).
- Knuth-Morris-Pratt (`compute_lps`, `kmp_search`).
- Rabin-Karp with a polynomial hash, base 256 and modulus 101, whose window hash is rolled forward one character at a time (`polynomial_hash`, `rabin_karp_search`).

Each engine is a method with its loops and invariants. Each is proved against one shared specification in `occurrence.dfy`: the result is a real match, no match lies to its left, and -1 comes back exactly when there is no match. The reference function `FirstOccurrence` is a plain left-to-right scan. `Engines.SearchAll` proves that all three engines return its value, so they agree on every input with a non-empty pattern.

**Bucket hash table (`task_1/main.py`).** A class with `size` buckets, each a list of `(key, value)` pairs. A key goes in bucket `hash(key) % size`. `insert` overwrites a key's pair in place or appends a new pair, `get` scans the bucket, and `delete` removes the pair. The class keeps a ghost map `Contents`, the map the table stands for. `Valid()` ties the buckets to that map:
- every pair sits in its key's bucket;
- no bucket holds a key twice;
- scanning a key's bucket yields exactly what the map holds.

The initialiser in the source is spelled `_init_` (one underscore on each side). Python therefore never runs it: `HashTable(10)` raises `TypeError`, and `HashTable()` has no `size` or `table`. The model treats it as the constructor the code evidently means.

**Binary search (`task_2/main.py`).** The search returns the pair the source prints: the number of loop passes, and either `x` itself, the smallest element above `x`, or nothing. Its result is proved equal to a reference `Ceiling`: the element at the first index holding a value at least `x`. That reference's meaning on sorted input is a separate lemma. The pass count is proved to lie between 1 and `floor(log2(n)) + 1`.

Characters are Dafny `char`, and Python's `ord` is `c as int`. Python's `%` with a positive modulus and Dafny's `%` agree: both are non-negative.

## Model

| member | source | states |
|---|---|---|
| Occurrence.FirstOccurrenceFromCorrect | task_3/main.py:30-170 | if nothing matches below `i`, the reference scan from `i` returns the leftmost match, or -1 exactly when the pattern occurs nowhere |
| Occurrence.FirstOccurrenceUnique | task_3/main.py:30-170 | an index is "the leftmost match, or -1 when there is none" if and only if it equals the reference result, so any two correct engines agree |
| BoyerMoore.RightmostBefore | task_3/main.py:24-25 | the rightmost index below `n` holding `c` (later positions overwrite earlier ones), or -1 when `c` does not occur there |
| BoyerMoore.Shift | task_3/main.py:20-27 | the skip for a text character always lies in `[1, M]`, so every round of the search advances |
| BoyerMoore.CharsBeforeHaveRightmost | task_3/main.py:24-25 | a character is among the first `n` pattern characters if and only if it has a rightmost index there |
| BoyerMoore.CharsAreElements | task_3/main.py:20-27 | the table's key set is exactly the set of characters occurring in the pattern |
| BoyerMoore.SetDefaultCompletesTable | task_3/main.py:26 | after the loop, `setdefault` gives the last character `M` only when it is not already a key, which completes the table |
| BoyerMoore.BuildShiftTable | task_3/main.py:20-27 | keys are exactly the pattern's characters; each maps to `M-1-r` with `r` its rightmost index among positions `0..M-2`, or to `M` for a last character that does not occur earlier |
| BoyerMoore.ShiftTableLookup | task_3/main.py:45 | `get(c, M)` on the table yields the Horspool skip for every character, key or not |
| BoyerMoore.HorspoolSkipIsSafe | task_3/main.py:45 | no occurrence starts strictly between `i` and `i` plus the skip looked up from the text character under the pattern's last position |
| BoyerMoore.HorspoolRoundIsSafe | task_3/main.py:39-45 | a mismatching window followed by the skip rules out every start below the next `i` |
| BoyerMoore.CompareFromRight | task_3/main.py:37-40 | the right-to-left comparison ends at -1 exactly when the window matches, and otherwise at the rightmost mismatching position, with all later positions matching |
| BoyerMoore.BoyerMooreSearch | task_3/main.py:30-47 | the result is the leftmost occurrence, and -1 exactly when the pattern does not occur; all text accesses are in bounds and the loop terminates |
| Kmp.LongestBorderUpTo | task_3/main.py:72-90 | the longest border of length at most `k`: a border, with no longer border up to `k` |
| Kmp.Lps | task_3/main.py:72-90 | the longest proper prefix that is also a suffix: a border, and no border is longer |
| Kmp.BorderOfBorder | task_3/main.py:84-85 | a border of a border is a border, so falling back to `lps[length-1]` keeps a valid candidate |
| Kmp.BorderWithinBorder | task_3/main.py:84-85 | a shorter border is a border of a longer one, so no candidate is skipped by the fallback |
| Kmp.BorderExtension | task_3/main.py:79-82 | a border extends by one character if and only if the next characters agree |
| Kmp.LpsStep | task_3/main.py:79-88 | on a character match the entry is `length + 1`; on a mismatch with `length == 0` it is 0 |
| Kmp.LpsFallback | task_3/main.py:84-85 | on a mismatch, falling back to `lps[length-1]` keeps a border with no longer extendable border skipped |
| Kmp.ComputeLps | task_3/main.py:72-90 | the array has length `M` and entry `i` is the longest proper border of `pattern[..i+1]`, so `lps[0] == 0` and `lps[i] <= i`; the loop terminates |
| Kmp.ScanFallback | task_3/main.py:107-108 | on a mismatch, falling back to `j = lps[j-1]` keeps the window invariant and skips no occurrence |
| Kmp.KmpSearch | task_3/main.py:93-115 | the result is the leftmost occurrence, and -1 exactly when the pattern does not occur |
| RabinKarp.WeightedSumAppend | task_3/main.py:132-139 | appending a character multiplies the polynomial by the base and adds the character's code |
| RabinKarp.PolynomialHashStep | task_3/main.py:136-138 | one pass of the hash loop turns the partial hash of `s[..i]` into that of `s[..i+1]`, modulo the modulus |
| RabinKarp.HornerStepMod | task_3/main.py:137-138 | the pass's arithmetic: reducing the power and the partial sum first leaves the remainder unchanged |
| RabinKarp.PolynomialHash | task_3/main.py:132-139 | the hash is `(Σ ord(s[k]) * base^(n-1-k)) mod modulus` and lies in `[0, modulus)`; the empty string hashes to 0 |
| RabinKarp.RollingHashStep | task_3/main.py:160-166 | removing `ord(text[i]) * h_multiplier`, multiplying by the base and adding `ord(text[i+M])` gives the hash of the window at `i + 1` |
| RabinKarp.RollMod | task_3/main.py:160-166 | the arithmetic of the roll: working on reduced values gives the same remainder as on the full polynomial |
| RabinKarp.HashesCollide | task_3/main.py:156-158 | two different one-character windows share a hash under base 256 and modulus 101, so a hash hit alone would not be a match |
| RabinKarp.RabinKarpSearch | task_3/main.py:142-170 | the result is the leftmost occurrence, and -1 exactly when the pattern does not occur, hash collisions notwithstanding; the window hash stays in `[0, 101)` and is already non-negative when the `< 0` test is reached, so the correction is never taken |
| Engines.SearchAll | task_3/main.py:30-170 | the three engines return the same index, the reference leftmost match, on every text and non-empty pattern |
| Engines.MatchInTheMiddle | task_3/main.py:30-170 | in `ABABDABACDABABCABAB` the pattern `ABABCABAB` first occurs at 10, which by `SearchAll` is what all three engines return |
| Engines.MatchAtStart | task_3/main.py:30-170 | in `AAAAAAAAAA` the pattern `AAAA` first occurs at 0, which by `SearchAll` is what all three engines return |
| Engines.MatchAfterPartialMatches | task_3/main.py:30-170 | in `abcxabcdabxabcdabcdabcy` the pattern `abcdabcy` first occurs at 15, after several partial matches, which by `SearchAll` is what all three engines return |
| BucketHashTable.Find | task_1/main.py:35-37 | the scan of a bucket finds nothing exactly when no pair has the key, and otherwise returns the value of a pair with that key |
| BucketHashTable.FindIsFirst | task_1/main.py:35-37 | the pair whose value the scan returns is the first pair with the key: every pair before it has another key |
| BucketHashTable.FindAt | task_1/main.py:35-37 | in a bucket with distinct keys, the scan for a pair's key returns that pair's value |
| BucketHashTable.FindAfterOverwrite | task_1/main.py:24-27 | overwriting a pair's value keeps the keys distinct and changes the scan's answer for that key only |
| BucketHashTable.FindAfterAppend | task_1/main.py:28 | appending a pair for an absent key keeps the keys distinct and changes the scan's answer for that key only |
| BucketHashTable.FindSkipsRemoved | task_1/main.py:44-47 | deleting a pair with a different key does not change what the scan for a key finds |
| BucketHashTable.RemoveKeepsDistinct | task_1/main.py:44-47 | deleting a pair keeps the bucket's keys distinct, and the scan for the deleted key then finds nothing |
| BucketHashTable.FindAfterRemove | task_1/main.py:44-47 | removing a pair keeps the keys distinct, makes its key absent and leaves every other key's answer unchanged |
| BucketHashTable.ReplaceBucket | task_1/main.py:17-28 | replacing one bucket keeps the table invariant when the new bucket fits it; every other bucket keeps its answers |
| BucketHashTable.OverwriteRepresents | task_1/main.py:24-27 | overwriting the value of a key's pair preserves the invariant, and the table then stands for the map updated at that key |
| BucketHashTable.AppendRepresents | task_1/main.py:28 | appending a pair for an absent key preserves the invariant, and the table then stands for the map extended by that key |
| BucketHashTable.RemoveRepresents | task_1/main.py:44-47 | removing a key's pair preserves the invariant, and the table then stands for the map without that key |
| BucketHashTable.HashTable.HashFunction | task_1/main.py:11-13 | the bucket index lies in `[0, size)` |
| BucketHashTable.HashTable.constructor | task_1/main.py:7-9 | `size` empty buckets, standing for the empty map |
| BucketHashTable.HashTable.Get | task_1/main.py:31-38 | the stored value when the key is present, otherwise nothing; so `get` after `insert(k, v)` gives `v` and after `delete(k)` gives nothing |
| BucketHashTable.HashTable.Insert | task_1/main.py:15-29 | always succeeds; the map is updated at the key; an existing pair is overwritten in place without growing the bucket, otherwise exactly one pair is appended; every other bucket is untouched and the invariant is kept |
| BucketHashTable.HashTable.Delete | task_1/main.py:40-48 | reports whether the key was present; the key is removed from the map by deleting its pair, nothing changes when it was absent, every other bucket is untouched and the invariant is kept |
| BinarySearch.LowerBound | task_2/main.py:24-31 | the first index whose element is at least `x`: every earlier element is below `x` |
| BinarySearch.LowerBoundIsFirst | task_2/main.py:24-31 | an index with only elements below `x` before it and an element at least `x` at it, or at the end of the list, is the reference index |
| BinarySearch.CeilingIsLeastAtLeast | task_2/main.py:15-31 | on a sorted list the reference answer is `x` when `x` occurs, otherwise the least element above `x`, and nothing exactly when every element is below `x` |
| BinarySearch.Log2FloorMonotonic | task_2/main.py:11-13 | `floor(log2)` is monotonic, the fact behind the bound on the pass count |
| BinarySearch.HalvingStep | task_2/main.py:11-18 | one pass leaves at most half of the range, so the pass count plus `floor(log2)` of the remaining range never exceeds `floor(log2(n))` |
| BinarySearch.RaiseLow | task_2/main.py:15-16 | on a sorted list, `low = mid + 1` after `arr[mid] < x` keeps every element left of the range below `x` |
| BinarySearch.LowerHigh | task_2/main.py:17-18 | on a sorted list, `high = mid - 1` after `arr[mid] > x` keeps every element right of the range above `x` |
| BinarySearch.ClosedBracket | task_2/main.py:24-31 | once the range is empty, the answer is the element at `low`, or nothing when `low` is past the end |
| BinarySearch.BinarySearch | task_2/main.py:4-31 | returns the reference answer, so `x` when it occurs, otherwise the least element above it or nothing; that answer is `arr[mid + 1]` after a last step up and `arr[mid]` after a last step down; it makes between 1 and `floor(log2(n)) + 1` passes, every index it reads is in bounds, and the loop terminates |

## Left out

- File reading, the `timeit` benchmarks and all `print` output in `task_3/main.py` are I/O and timing, not logic. The test data at the end of `task_2/main.py` is left out for the same reason.
- Empty patterns are excluded by `requires |pattern| >= 1` on all three engines. In the source, `build_shift_table` raises at `pattern[-1]` and `kmp_search` raises at `pattern[0]` when the text is non-empty (on an empty text it returns -1). `rabin_karp_search` computes `pow(256, -1)`, a float, before returning 0.
- BoyerMoore.CompareFromRight: the inner `while` loop of `boyer_moore_search` is its own method so that the outer loop's proof stays small; the behaviour is the same.
- RabinKarp.PolynomialHash: requires `modulus > 0`. The source only ever calls it with 101; with 0 Python raises, and with a negative modulus Python's floored `%` differs from Dafny's.
- RabinKarp.RabinKarpSearch: `range(N - M + 1)` is modelled as a `while` loop over the same indices.
- Python's built-in `hash` is salted per process for `str` and `bytes` keys, and is the identity on small non-negative `int` keys (`hash(-1)` is `-2`). It is a function `hash: K -> int` given to the constructor, and only the `% size` step is modelled.
- BucketHashTable.HashTable.constructor: requires `size > 0`. With `size == 0` every operation raises `ZeroDivisionError`. With a negative size the table is empty and every operation raises `IndexError`.
- BucketHashTable.HashTable.constructor: the misspelled `_init_` is modelled as the constructor it was meant to be, so the unusable class as written is not modelled.
- The `is None` and `is not None` tests on buckets (`task_1/main.py:20-22`, `34`, `43`) are not modelled. Buckets are sequences and can never be `None`, so the first branch is dead and the guards always pass.
- BucketHashTable.HashTable.Get: returns an option. It therefore tells a stored `None` apart from a missing key, which Python's `get` cannot do.
- Python lists are shared mutable objects. The model's pairs and buckets are values, so aliasing of a `[key, value]` list from outside the table is not modelled.
- Keys have equality and no heap identity (`K(==, !new)`), as hashable Python keys behave.
- BinarySearch.BinarySearch: requires a non-empty list sorted ascending. The source raises on an empty list at `arr[mid]`, and on unsorted input its answer has no meaning. Elements are `int`: the code only compares them, so no floating point is modelled.
