/**
  Rabin-Karp search: a polynomial hash of the pattern, compared against a
  hash of each text window that is rolled forward one character at a time;
  equal hashes are confirmed by comparing the characters.
 */
module RabinKarp {
  import opened Occurrence

  /** The fixed parameters `rabin_karp_search` uses. */
  const Base: int := 256
  const Modulus: int := 101

  /** Python's `ord`. */
  function Ord(c: char): int
  {
    c as int
  }

  function Pow(b: int, e: nat): int
  {
    if e == 0 then 1 else b * Pow(b, e - 1)
  }

  /** `Σ_k ord(s[k]) * base^(|s|-1-k)`, the polynomial before reduction. */
  function WeightedSum(s: string, base: int): int
  {
    if s == [] then 0 else Ord(s[0]) * Pow(base, |s| - 1) + WeightedSum(s[1..], base)
  }

  /** Appending a character multiplies the polynomial by the base and adds the character. */
  lemma {:induction false} WeightedSumAppend(s: string, c: char, base: int)
    ensures WeightedSum(s + [c], base) == WeightedSum(s, base) * base + Ord(c)
  {
    if s != [] {
      var t := s + [c];
      assert t[1..] == s[1..] + [c];
      WeightedSumAppend(s[1..], c, base);
      var x, p, w := Ord(s[0]), Pow(base, |s| - 1), WeightedSum(s[1..], base);
      assert Pow(base, |t| - 1) == base * p;
      calc {
        WeightedSum(t, base);
        x * (base * p) + WeightedSum(s[1..] + [c], base);
        x * (base * p) + (w * base + Ord(c));
        (x * p + w) * base + Ord(c);
      }
    }
  }

  /** Adding a multiple of the modulus does not change the remainder. */
  lemma ModAddMultiple(x: int, k: int, m: int)
    requires m > 0
    ensures (x + k * m) % m == x % m
  {
    var q := x / m;
    var r := x % m;
    assert x + k * m == (q + k) * m + r;
    var y := x + k * m;
    var q' := y / m;
    var r' := y % m;
    assert (q + k - q') * m == r' - r;
    if q + k - q' > 0 {
      MulAtLeast(q + k - q', m);
    } else if q + k - q' < 0 {
      MulAtLeast(q' - q - k, m);
    }
  }

  lemma MulAtLeast(d: int, m: int)
    requires d >= 1 && m > 0
    ensures d * m >= m
  {
  }

  /** Reducing one factor of a term first gives the same remainder. */
  lemma ModReduceTerm(x: int, c: int, p: int, m: int)
    requires m > 0
    ensures (x + c * (p % m)) % m == (x + c * p) % m
  {
    var q := p / m;
    assert p % m == p - q * m;
    calc {
      x + c * (p % m);
      x + c * (p - q * m);
      x + c * p + (-c * q) * m;
    }
    ModAddMultiple(x + c * p, -c * q, m);
  }

  /**
    Reducing the operands first gives the same remainder: the step that
    lets the hash loops work on reduced values.
   */
  lemma ModLinear(a: int, d: int, c: int, p: int, m: int)
    requires m > 0
    ensures (a % m * d + c * (p % m)) % m == (a * d + c * p) % m
  {
    ModReduceTerm(a % m * d, c, p, m);
    ModReduceTerm(c * p, d, a, m);
    assert a % m * d + c * p == c * p + d * (a % m);
    assert a * d + c * p == c * p + d * a;
  }

  /** One pass of `polynomial_hash`'s loop: adding `ord(s[i]) * base^(n-i-1)` to the partial hash. */
  lemma PolynomialHashStep(s: string, i: nat, base: int, m: int, h: int)
    requires i < |s| && m > 0
    requires h == (WeightedSum(s[..i], base) * Pow(base, |s| - i)) % m
    ensures (h + Ord(s[i]) * (Pow(base, |s| - i - 1) % m)) % m
            == (WeightedSum(s[..i + 1], base) * Pow(base, |s| - (i + 1))) % m
  {
    var x, c, p := WeightedSum(s[..i], base), Ord(s[i]), Pow(base, |s| - i - 1);
    assert s[..i + 1] == s[..i] + [s[i]];
    WeightedSumAppend(s[..i], s[i], base);
    assert Pow(base, |s| - i) == base * p;
    HornerStepMod(x, base, c, p, m);
  }

  /** The arithmetic of `PolynomialHashStep`, on plain integers. */
  lemma HornerStepMod(x: int, base: int, c: int, p: int, m: int)
    requires m > 0
    ensures ((x * (base * p)) % m + c * (p % m)) % m == ((x * base + c) * p) % m
  {
    ModLinear(x * (base * p), 1, c, p, m);
    assert (x * base + c) * p == x * (base * p) * 1 + c * p;
  }

  /**
    `polynomial_hash`: the polynomial `Σ_k ord(s[k]) * base^(n-1-k)` reduced
    modulo `modulus`, accumulated one character at a time.
   */
  method PolynomialHash(s: string, base: int, modulus: int) returns (hashValue: int)
    requires modulus > 0
    ensures hashValue == WeightedSum(s, base) % modulus
    ensures 0 <= hashValue < modulus
  {
    var n := |s|;
    hashValue := 0;
    for i := 0 to n
      invariant hashValue == (WeightedSum(s[..i], base) * Pow(base, n - i)) % modulus
    {
      PolynomialHashStep(s, i, base, modulus, hashValue);
      var powerOfBase := Pow(base, n - i - 1) % modulus;
      hashValue := (hashValue + Ord(s[i]) * powerOfBase) % modulus;
    }
    assert s[..n] == s;
  }

  /**
    The rolling update of `rabin_karp_search`: from the hash of the window at
    `i`, removing `ord(text[i]) * base^(M-1)`, multiplying by the base and
    adding `ord(text[i+M])` gives the hash of the window at `i + 1`.
   */
  lemma RollingHashStep(text: string, i: nat, m: nat, base: int, modulus: int, h: int, hMultiplier: int)
    requires m >= 1 && i + m < |text| && modulus > 0
    requires h == WeightedSum(text[i..i + m], base) % modulus
    requires hMultiplier == Pow(base, m - 1) % modulus
    ensures ((h - Ord(text[i]) * hMultiplier) % modulus * base + Ord(text[i + m])) % modulus
            == WeightedSum(text[i + 1..i + 1 + m], base) % modulus
  {
    var window, middle := text[i..i + m], text[i + 1..i + m];
    assert window[1..] == middle;
    assert WeightedSum(window, base) == Ord(text[i]) * Pow(base, m - 1) + WeightedSum(middle, base);
    assert text[i + 1..i + 1 + m] == middle + [text[i + m]];
    WeightedSumAppend(middle, text[i + m], base);
    RollMod(WeightedSum(middle, base), Ord(text[i]), Ord(text[i + m]), Pow(base, m - 1), base, modulus);
  }

  /** The arithmetic of `RollingHashStep`, on plain integers. */
  lemma RollMod(rest: int, c0: int, c1: int, p: int, base: int, m: int)
    requires m > 0
    ensures (((c0 * p + rest) % m - c0 * (p % m)) % m * base + c1) % m == (rest * base + c1) % m
  {
    MulModCongruent(c0, p, m);
    DropTerm(c0 * p, rest, c0 * (p % m), c0 * (p / m), m);
    ShiftInMod(rest, c1, base, m);
  }

  /** Reducing `p` changes `c0 * p` by a multiple of `m`. */
  lemma MulModCongruent(c0: int, p: int, m: int)
    requires m > 0
    ensures c0 * (p % m) == c0 * p - (c0 * (p / m)) * m
  {
    var qb := p / m;
    assert p % m == p - qb * m;
    assert c0 * (p - qb * m) == c0 * p - c0 * (qb * m);
    assert c0 * (qb * m) == (c0 * qb) * m;
  }

  /** Subtracting a value congruent to the term `t` undoes adding `t`, modulo `m`. */
  lemma DropTerm(t: int, rest: int, y: int, k: int, m: int)
    requires m > 0 && y == t - k * m
    ensures ((t + rest) % m - y) % m == rest % m
  {
    var qa := (t + rest) / m;
    assert (t + rest) % m == t + rest - qa * m;
    assert (t + rest) % m - y == rest + (k - qa) * m;
    ModAddMultiple(rest, k - qa, m);
  }

  /** Shifting a reduced hash by the base and adding the incoming character. */
  lemma ShiftInMod(rest: int, c1: int, base: int, m: int)
    requires m > 0
    ensures (rest % m * base + c1) % m == (rest * base + c1) % m
  {
    ModReduceTerm(c1, base, rest, m);
    assert rest % m * base + c1 == c1 + base * (rest % m);
    assert rest * base + c1 == c1 + base * rest;
  }

  /**
    Equal hashes do not imply equal windows: "e" (code 101) and "\0" share the
    hash 0, which is why a hash hit is confirmed by comparing the slice.
   */
  lemma HashesCollide()
    ensures "e" != "\0" && WeightedSum("e", Base) % Modulus == WeightedSum("\0", Base) % Modulus
  {
    assert WeightedSum("e", Base) == 101 by {
      assert "e"[1..] == [];
    }
    assert WeightedSum("\0", Base) == 0 by {
      assert "\0"[1..] == [];
    }
  }

  /** `rabin_karp_search`: the leftmost occurrence of `substring` in `mainString`, or -1. */
  method RabinKarpSearch(mainString: string, substring: string) returns (r: int)
    requires |substring| >= 1
    ensures IsFirstOccurrence(mainString, substring, r)
  {
    var m := |substring|;
    var n := |mainString|;
    var substringHash := PolynomialHash(substring, Base, Modulus);
    var currentSliceHash := PolynomialHash(mainString[..if m <= n then m else n], Base, Modulus);
    var hMultiplier := Pow(Base, m - 1) % Modulus;
    var i := 0;
    while i < n - m + 1
      invariant 0 <= i && (m <= n ==> i <= n - m + 1)
      invariant 0 <= currentSliceHash < Modulus
      invariant i <= n - m ==> currentSliceHash == WeightedSum(mainString[i..i + m], Base) % Modulus
      invariant forall k :: 0 <= k < i ==> !MatchAt(mainString, substring, k)
    {
      if substringHash == currentSliceHash {
        if mainString[i..i + m] == substring {
          return i;
        }
      }
      if i < n - m {
        RollingHashStep(mainString, i, m, Base, Modulus, currentSliceHash, hMultiplier);
        currentSliceHash := (currentSliceHash - Ord(mainString[i]) * hMultiplier) % Modulus;
        currentSliceHash := (currentSliceHash * Base + Ord(mainString[i + m])) % Modulus;
        assert 0 <= currentSliceHash;
        if currentSliceHash < 0 {
          currentSliceHash := currentSliceHash + Modulus;
        }
      }
      i := i + 1;
    }
    return -1;
  }
}
