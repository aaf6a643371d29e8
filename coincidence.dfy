/** Index of coincidence, `calculate_ioc` of script.py:
    sum over a..z of count(c) * (count(c) - 1), divided by N * (N - 1).
    Python's true division is modelled as exact division on `real`. */
module Coincidence {
  import opened Alphabet
  import opened Arithmetic

  /** `frequency_sum` after the first `n` letters of the alphabet. */
  function CoincidenceSum(s: string, n: nat): int
    requires n <= AlphabetSize
  {
    if n == 0 then 0
    else CoincidenceSum(s, n - 1) + Count(s, Letter(n - 1)) * (Count(s, Letter(n - 1)) - 1)
  }

  /** How many characters of `s` are among the first `n` letters. */
  function LetterTotal(s: string, n: nat): nat
    requires n <= AlphabetSize
  {
    if n == 0 then 0 else LetterTotal(s, n - 1) + Count(s, Letter(n - 1))
  }

  /** The index of coincidence; N <= 1 is a division by zero in the source. */
  function Ioc(s: string): real
    requires |s| >= 2
  {
    PairsPositive(|s|);
    CoincidenceSum(s, AlphabetSize) as real / (|s| * (|s| - 1)) as real
  }

  /** Reference definition: the number of ordered pairs of distinct positions
      of `s` that hold the same character. The last position pairs, in both
      orders, with every earlier position holding its character. */
  function MatchingPairs(s: string): nat {
    if s == [] then 0
    else MatchingPairs(s[..|s| - 1]) + 2 * Count(s[..|s| - 1], s[|s| - 1])
  }

  lemma {:induction false} EmptyTotals(n: nat)
    requires n <= AlphabetSize
    ensures LetterTotal([], n) == 0 && CoincidenceSum([], n) == 0
  {
    if n > 0 {
      EmptyTotals(n - 1);
    }
  }

  lemma {:induction false} LetterTotalSnoc(s: string, x: char, n: nat)
    requires n <= AlphabetSize
    ensures LetterTotal(s + [x], n) ==
            LetterTotal(s, n) + (if IsLower(x) && Index(x) < n then 1 else 0)
  {
    if n > 0 {
      LetterTotalSnoc(s, x, n - 1);
      assert multiset(s + [x]) == multiset(s) + multiset{x};
    }
  }

  /** No more letters are counted than `s` has, and exactly |s| when `s` is a-z. */
  lemma {:induction false} LetterTotalBound(s: string)
    ensures LetterTotal(s, AlphabetSize) <= |s|
    ensures AllLower(s) ==> LetterTotal(s, AlphabetSize) == |s|
  {
    if s != [] {
      var t := s[..|s| - 1];
      assert s == t + [s[|s| - 1]];
      LetterTotalBound(t);
      LetterTotalSnoc(t, s[|s| - 1], AlphabetSize);
    } else {
      EmptyTotals(AlphabetSize);
    }
  }

  /** A sum of f * (f - 1) never exceeds A * (A - 1) where A is the sum of the f. */
  lemma {:induction false} CoincidenceWithinPairs(s: string, n: nat)
    requires n <= AlphabetSize
    ensures 0 <= CoincidenceSum(s, n) <= LetterTotal(s, n) * (LetterTotal(s, n) - 1)
  {
    if n > 0 {
      CoincidenceWithinPairs(s, n - 1);
      PairsSuperadditive(LetterTotal(s, n - 1), Count(s, Letter(n - 1)));
    }
  }

  /** For N >= 2 the index of coincidence lies in [0, 1]. */
  lemma IocBounds(s: string)
    requires |s| >= 2
    ensures 0.0 <= Ioc(s) <= 1.0
  {
    CoincidenceWithinPairs(s, AlphabetSize);
    LetterTotalBound(s);
    PairsMonotone(LetterTotal(s, AlphabetSize), |s|);
    PairsPositive(|s|);
    RatioWithinUnit(CoincidenceSum(s, AlphabetSize) as real, (|s| * (|s| - 1)) as real);
  }

  lemma {:induction false} CoincidenceSnoc(s: string, x: char, n: nat)
    requires n <= AlphabetSize && IsLower(x)
    ensures CoincidenceSum(s + [x], n) ==
            CoincidenceSum(s, n) + (if Index(x) < n then 2 * Count(s, x) else 0)
  {
    if n > 0 {
      CoincidenceSnoc(s, x, n - 1);
      var c := Letter(n - 1);
      CountSnoc(s, x, c);
      if c == x {
        PairsStep(Count(s, c));
      }
    }
  }

  /** On a-z text the numerator of the index of coincidence counts the ordered
      pairs of distinct positions that hold the same letter. */
  lemma {:induction false} CoincidenceCountsPairs(s: string)
    requires AllLower(s)
    ensures CoincidenceSum(s, AlphabetSize) == MatchingPairs(s)
  {
    if s != [] {
      var t := s[..|s| - 1];
      assert s == t + [s[|s| - 1]];
      CoincidenceCountsPairs(t);
      CoincidenceSnoc(t, s[|s| - 1], AlphabetSize);
    } else {
      EmptyTotals(AlphabetSize);
    }
  }

  /** A text made of one repeated letter has index of coincidence 1. */
  lemma {:induction false} CoincidenceOfConstant(s: string, c: char, n: nat)
    requires n <= AlphabetSize && IsLower(c)
    requires forall i :: 0 <= i < |s| ==> s[i] == c
    ensures CoincidenceSum(s, n) == if Index(c) < n then |s| * (|s| - 1) else 0
  {
    if n > 0 {
      CoincidenceOfConstant(s, c, n - 1);
      CountConstant(s, c, Letter(n - 1));
    }
  }

  lemma IocOfConstant(s: string, c: char)
    requires |s| >= 2 && IsLower(c)
    requires forall i :: 0 <= i < |s| ==> s[i] == c
    ensures Ioc(s) == 1.0
  {
    CoincidenceOfConstant(s, c, AlphabetSize);
    PairsPositive(|s|);
    var p: int := |s| * (|s| - 1);
    assert Ioc(s) == p as real / p as real;
    SelfRatio(p as real);
  }

  /** `calculate_ioc`: accumulate `frequency_sum` over a..z, then divide. */
  method CalculateIoc(s: string) returns (ioc: real)
    requires |s| >= 2
    ensures ioc == Ioc(s)
  {
    var frequencySum := 0;
    for m := 0 to AlphabetSize
      invariant frequencySum == CoincidenceSum(s, m)
    {
      var c := Letter(m);
      frequencySum := frequencySum + Count(s, c) * (Count(s, c) - 1);
    }
    PairsPositive(|s|);
    ioc := frequencySum as real / (|s| * (|s| - 1)) as real;
  }
}
