/** Text normalisation: `sanitize_string` of script.py, restricted to ASCII.
    `str.lower` maps A-Z to a-z and leaves every other character alone;
    `str.isalpha` keeps A-Z and a-z. */
module Normalizer {
  import opened Alphabet

  predicate IsUpper(c: char) {
    'A' <= c <= 'Z'
  }

  /** `str.isalpha` on an ASCII character. */
  predicate IsAlpha(c: char) {
    IsUpper(c) || IsLower(c)
  }

  /** `str.lower` on an ASCII character. */
  function ToLower(c: char): (r: char)
    ensures IsUpper(c) ==> IsLower(r) && r as int == c as int + 32
    ensures !IsUpper(c) ==> r == c
  {
    if IsUpper(c) then (c as int + 32) as char else c
  }

  /** `str.lower` on a string: character by character. */
  function Lower(s: string): (r: string)
    ensures |r| == |s|
  {
    seq(|s|, i requires 0 <= i < |s| => ToLower(s[i]))
  }

  /** `''.join(filter(str.isalpha, s))` */
  function KeepAlpha(s: string): string {
    if s == [] then []
    else (if IsAlpha(s[0]) then [s[0]] else []) + KeepAlpha(s[1..])
  }

  /** `sanitize_string`: lower-case, then keep only the letters. */
  function Sanitize(s: string): string {
    KeepAlpha(Lower(s))
  }

  /** `t` can be obtained from `s` by deleting characters. */
  ghost predicate IsSubsequence(t: string, s: string)
    decreases |s|
  {
    if t == [] then true
    else if s == [] then false
    else (t[0] == s[0] && IsSubsequence(t[1..], s[1..])) || IsSubsequence(t, s[1..])
  }

  lemma LowerTail(s: string)
    requires s != []
    ensures Lower(s)[0] == ToLower(s[0]) && Lower(s)[1..] == Lower(s[1..])
  {
  }

  /** A character `str.isalpha` keeps is, after lower-casing, in a-z. */
  lemma {:induction false} KeepAlphaOfLower(s: string)
    ensures AllLower(KeepAlpha(Lower(s)))
    ensures |KeepAlpha(Lower(s))| <= |s|
  {
    if s != [] {
      LowerTail(s);
      KeepAlphaOfLower(s[1..]);
    }
  }

  /** The normalised text holds only a-z and is no longer than the input. */
  lemma SanitizeLowerOnly(s: string)
    ensures AllLower(Sanitize(s))
    ensures |Sanitize(s)| <= |s|
  {
    KeepAlphaOfLower(s);
  }

  /** Filtering keeps the survivors in their original relative order. */
  lemma {:induction false} KeepAlphaSubsequence(s: string)
    ensures IsSubsequence(KeepAlpha(s), s)
  {
    if s != [] {
      KeepAlphaSubsequence(s[1..]);
      if IsAlpha(s[0]) {
        assert KeepAlpha(s) == [s[0]] + KeepAlpha(s[1..]);
        assert KeepAlpha(s)[1..] == KeepAlpha(s[1..]);
      } else {
        assert KeepAlpha(s) == KeepAlpha(s[1..]);
        if KeepAlpha(s) != [] {
          assert IsSubsequence(KeepAlpha(s), s[1..]);
        }
      }
    }
  }

  /** The normalised text is a subsequence of the lower-cased input. */
  lemma SanitizeSubsequence(s: string)
    ensures IsSubsequence(Sanitize(s), Lower(s))
  {
    KeepAlphaSubsequence(Lower(s));
  }

  /** No letter is lost: each a-z letter of the normalised text counts the
      input's occurrences of that letter in either case. */
  lemma {:induction false} SanitizeCounts(s: string, c: char)
    requires IsLower(c)
    ensures Count(Sanitize(s), c) == Count(s, c) + Count(s, (c as int - 32) as char)
  {
    if s != [] {
      LowerTail(s);
      SanitizeCounts(s[1..], c);
      assert s == [s[0]] + s[1..];
      assert Sanitize(s) == (if IsAlpha(ToLower(s[0])) then [ToLower(s[0])] else []) + Sanitize(s[1..]);
    }
  }

  /** Text that is already lower-case letters only is left unchanged. */
  lemma {:induction false} SanitizeFixesLowerText(s: string)
    requires AllLower(s)
    ensures Sanitize(s) == s
  {
    if s != [] {
      LowerTail(s);
      SanitizeFixesLowerText(s[1..]);
    }
  }

  /** Normalising twice is normalising once (`find_key` normalises and then
      `calculate_best_ioc` normalises the same text again). */
  lemma SanitizeIdempotent(s: string)
    ensures Sanitize(Sanitize(s)) == Sanitize(s)
  {
    SanitizeLowerOnly(s);
    SanitizeFixesLowerText(Sanitize(s));
  }
}
