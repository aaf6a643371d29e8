/** The 26-letter lower-case Latin alphabet (Python's `string.ascii_lowercase`)
    and letter counting (Python's `str.count` on a one-character argument). */
module Alphabet {

  /** Number of letters in `string.ascii_lowercase`. */
  const AlphabetSize: nat := 26

  predicate IsLower(c: char) {
    'a' <= c <= 'z'
  }

  predicate AllLower(s: string) {
    forall i :: 0 <= i < |s| ==> IsLower(s[i])
  }

  /** `string.ascii_lowercase[n]` */
  function Letter(n: nat): (c: char)
    requires n < AlphabetSize
    ensures IsLower(c)
    ensures c as int - 'a' as int == n
  {
    (n + 'a' as int) as char
  }

  /** Position of a lower-case letter in the alphabet, the inverse of `Letter`. */
  function Index(c: char): (n: nat)
    requires IsLower(c)
    ensures n < AlphabetSize
    ensures Letter(n) == c
  {
    c as int - 'a' as int
  }

  lemma IndexOfLetter(n: nat)
    requires n < AlphabetSize
    ensures Index(Letter(n)) == n
  {
  }

  /** `s.count(c)`: the number of positions of `s` holding `c`. */
  function Count(s: string, c: char): nat {
    multiset(s)[c]
  }

  /** Every letter of a string made of one repeated character is counted at that character. */
  lemma {:induction false} CountConstant(s: string, c: char, d: char)
    requires forall i :: 0 <= i < |s| ==> s[i] == c
    ensures Count(s, d) == if d == c then |s| else 0
  {
    if s != [] {
      var t := s[..|s| - 1];
      assert s == t + [s[|s| - 1]];
      CountConstant(t, c, d);
    }
  }

  /** Appending `x` adds one occurrence of `x` and none of anything else. */
  lemma CountSnoc(s: string, x: char, c: char)
    ensures Count(s + [x], c) == Count(s, c) + (if c == x then 1 else 0)
  {
    assert multiset(s + [x]) == multiset(s) + multiset{x};
  }
}
