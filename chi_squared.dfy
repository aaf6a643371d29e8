/** Chi-squared statistic against English letter frequencies,
    `calculate_chi_squared` of script.py. The table's decimals and Python's
    float arithmetic are modelled as exact rationals. */
module ChiSquared {
  import opened Alphabet

  /** `letter_frequency`: the expected share of each letter in English text. */
  const LetterFrequency: map<char, real> := map[
    'a' := 0.08167, 'b' := 0.01492, 'c' := 0.02782, 'd' := 0.04253, 'e' := 0.12702, 'f' := 0.02228,
    'g' := 0.02015, 'h' := 0.06094, 'i' := 0.06966, 'j' := 0.00153, 'k' := 0.00772, 'l' := 0.04025,
    'm' := 0.02406, 'n' := 0.06749, 'o' := 0.07507, 'p' := 0.01929, 'q' := 0.00095, 'r' := 0.05987,
    's' := 0.06327, 't' := 0.09056, 'u' := 0.02758, 'v' := 0.00978, 'w' := 0.02360, 'x' := 0.00150,
    'y' := 0.01974, 'z' := 0.00074]

  /** The most frequent letter, 'e', has share 0.12702. */
  const MaxFrequency: real := 0.12702

  /** The table has an entry for every letter a..z, and every entry is a positive
      share no larger than that of 'e'. */
  function Frequency(c: char): (f: real)
    requires IsLower(c)
    ensures c in LetterFrequency && f == LetterFrequency[c]
    ensures 0.0 < f <= MaxFrequency
  {
    LetterFrequency[c]
  }

  /** `expected_freq`: the count of `c` that English text of length |s| would have.
      It is positive for every letter once |s| > 0, so it can be divided by. */
  function Expected(s: string, c: char): (e: real)
    requires IsLower(c)
    ensures |s| > 0 ==> e > 0.0
    ensures e <= |s| as real * MaxFrequency
  {
    |s| as real * Frequency(c)
  }

  /** (observed - expected)^2 / expected */
  function Deviation(observed: nat, expected: real): (r: real)
    requires expected > 0.0
    ensures r >= 0.0
  {
    (observed as real - expected) * (observed as real - expected) / expected
  }

  /** The contribution of letter `c` to the statistic. */
  function ChiTerm(s: string, c: char): real
    requires IsLower(c) && |s| > 0
  {
    Deviation(Count(s, c), Expected(s, c))
  }

  /** `chi_squared` after the first `n` letters of the alphabet. */
  function ChiSum(s: string, n: nat): real
    requires n <= AlphabetSize && |s| > 0
  {
    if n == 0 then 0.0 else ChiSum(s, n - 1) + ChiTerm(s, Letter(n - 1))
  }

  /** The statistic; the empty string divides by zero in the source. */
  function ChiSquaredOf(s: string): real
    requires |s| > 0
  {
    ChiSum(s, AlphabetSize)
  }

  lemma ChiTermNonNegative(s: string, c: char)
    requires IsLower(c) && |s| > 0
    ensures ChiTerm(s, c) >= 0.0
  {
  }

  lemma {:induction false} ChiSumNonNegative(s: string, n: nat)
    requires n <= AlphabetSize && |s| > 0
    ensures ChiSum(s, n) >= 0.0
  {
    if n > 0 {
      ChiSumNonNegative(s, n - 1);
      ChiTermNonNegative(s, Letter(n - 1));
    }
  }

  /** A partial sum is at least the term of any letter already added. */
  lemma {:induction false} ChiSumAtLeastTerm(s: string, n: nat, m: nat)
    requires m < n <= AlphabetSize && |s| > 0
    ensures ChiSum(s, n) >= ChiTerm(s, Letter(m))
  {
    if m < n - 1 {
      ChiSumAtLeastTerm(s, n - 1, m);
      ChiTermNonNegative(s, Letter(n - 1));
    } else {
      ChiSumNonNegative(s, n - 1);
    }
  }

  /** The statistic is a sum of non-negative terms: it is non-negative and at
      least the term of any single letter. */
  lemma ChiSquaredBounds(s: string, c: char)
    requires IsLower(c) && |s| > 0
    ensures ChiSquaredOf(s) >= 0.0
    ensures ChiSquaredOf(s) >= ChiTerm(s, c)
  {
    ChiSumNonNegative(s, AlphabetSize);
    ChiSumAtLeastTerm(s, AlphabetSize, Index(c));
  }

  lemma {:induction false} ChiSumOfCounts(s: string, t: string, n: nat)
    requires n <= AlphabetSize && |s| > 0
    requires multiset(s) == multiset(t)
    ensures |t| == |s| && ChiSum(s, n) == ChiSum(t, n)
  {
    assert |multiset(s)| == |s| && |multiset(t)| == |t|;
    if n > 0 {
      ChiSumOfCounts(s, t, n - 1);
      var c := Letter(n - 1);
      assert Count(s, c) == Count(t, c);
      assert Expected(s, c) == Expected(t, c);
      assert ChiTerm(s, c) == ChiTerm(t, c);
    }
  }

  /** The statistic sees only letter counts: rearranging a text leaves it unchanged. */
  lemma ChiSquaredOfCounts(s: string, t: string)
    requires |s| > 0 && multiset(s) == multiset(t)
    ensures |t| > 0 && ChiSquaredOf(s) == ChiSquaredOf(t)
  {
    ChiSumOfCounts(s, t, AlphabetSize);
  }

  /** `calculate_chi_squared`: accumulate the term of each letter a..z. */
  method CalculateChiSquared(s: string) returns (chiSquared: real)
    requires |s| > 0
    ensures chiSquared == ChiSquaredOf(s)
  {
    chiSquared := 0.0;
    for m := 0 to AlphabetSize
      invariant chiSquared == ChiSum(s, m)
    {
      var c := Letter(m);
      var expectedFreq := Expected(s, c);
      chiSquared := chiSquared + Deviation(Count(s, c), expectedFreq);
    }
  }
}
