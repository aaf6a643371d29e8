/** Two places where script.py does not do what it evidently means to, each
    shown on an input as written and paired with a corrected definition. */
module Findings {
  import opened Alphabet
  import opened Arithmetic
  import opened Normalizer
  import opened ColumnSplitter
  import opened Coincidence
  import opened KeyLength
  import opened ChiSquared
  import opened KeyRecovery

  // The 9999 sentinel of `running_chi_squared` (script.py:120-131)

  /** The linear part of the bound: d² >= x² = 0.87298² N², N² >= 2000 N
      and e <= 0.12702 N give d² >= 9999 e. */
  lemma SentinelChain(dd: real, xx: real, nn: real, n: real, e: real)
    requires dd >= xx && xx == (0.87298 * 0.87298) * nn
    requires n * 2000.0 <= nn && e <= n * MaxFrequency && n >= 0.0
    ensures dd >= InitialScore * e
  {
  }

  /** An observed count N >= 2000 against an expected count 0 < e <= 0.12702 N
      deviates by at least 9999. */
  lemma DeviationAtLeastSentinel(n: real, e: real)
    requires n >= 2000.0 && 0.0 < e <= n * MaxFrequency
    ensures (n - e) * (n - e) / e >= InitialScore
  {
    var x := n * 0.87298;
    SquareMonotone(x, n - e);
    ScaledSquare(n, 0.87298);
    ScaleMonotone(n, 2000.0, n);
    SentinelChain((n - e) * (n - e), x * x, n * n, n, e);
    QuotientAtLeast((n - e) * (n - e), e, InitialScore);
  }

  /** A stream of n >= 2000 copies of one letter with English share f: that
      letter's term alone is at least 9999. */
  lemma LoneLetterDeviation(n: nat, f: real)
    requires n >= 2000 && 0.0 < f <= MaxFrequency
    ensures Deviation(n, n as real * f) >= InitialScore
  {
    ScaleMonotone(n as real, f, MaxFrequency);
    DeviationAtLeastSentinel(n as real, n as real * f);
  }

  /** A text of at least 2000 copies of one letter scores at least 9999. */
  lemma ConstantTextScore(p: string, l: char)
    requires IsLower(l) && |p| >= 2000
    requires forall i :: 0 <= i < |p| ==> p[i] == l
    ensures ChiSquaredOf(p) >= InitialScore
  {
    CountConstant(p, l, l);
    ChiSquaredBounds(p, l);
    LoneLetterDeviation(|p|, Frequency(l));
  }

  /** Shift `m` of a stream of at least 2000 copies of one letter scores at
      least 9999: the deciphered stream is again one repeated letter. */
  lemma ConstantShiftScore(column: string, c: char, m: nat)
    requires IsLower(c) && |column| >= 2000 && m < AlphabetSize
    requires forall i :: 0 <= i < |column| ==> column[i] == c
    ensures AllLower(column) && Scores(column)[m] >= InitialScore
  {
    var p := Decipher(column, Letter(m));
    var l := DecipherLetter(c, Letter(m));
    assert forall i :: 0 <= i < |p| ==> p[i] == l;
    ConstantTextScore(p, l);
  }

  /** Every shift of a stream of at least 2000 copies of one letter scores
      at least 9999, so no shift beats the sentinel. */
  lemma ConstantStreamScores(column: string, c: char)
    requires IsLower(c) && |column| >= 2000
    requires forall i :: 0 <= i < |column| ==> column[i] == c
    ensures AllLower(column) && !BelowSentinel(column)
  {
    forall m | 0 <= m < AlphabetSize
      ensures Scores(column)[m] >= InitialScore
    {
      ConstantShiftScore(column, c, m);
    }
  }

  /** As written: such a stream contributes "" to the key, so the key comes
      out shorter than the key length and the later letters move left. */
  lemma ConstantStreamLosesKeyLetter(column: string, c: char)
    requires IsLower(c) && |column| >= 2000
    requires forall i :: 0 <= i < |column| ==> column[i] == c
    ensures AllLower(column) && KeyEntry(column) == ""
  {
    ConstantStreamScores(column, c);
    EntryShape(column);
  }

  /** Both streams of a text of 4000 or more copies of `c`, for key length 2,
      are at least 2000 copies of `c`. */
  lemma RepeatedLetterStreams(t: string, c: char)
    requires IsLower(c) && |t| >= 4000
    requires forall i :: 0 <= i < |t| ==> t[i] == c
    ensures forall j :: 0 <= j < 2 ==> |Columns(t, 2)[j]| >= 2000
    ensures forall j, n :: 0 <= j < 2 && 0 <= n < |Columns(t, 2)[j]| ==> Columns(t, 2)[j][n] == c
  {
    forall j | 0 <= j < 2
      ensures |Columns(t, 2)[j]| >= 2000
      ensures forall n :: 0 <= n < |Columns(t, 2)[j]| ==> Columns(t, 2)[j][n] == c
    {
      ColumnAt(t, 2, j);
    }
  }

  lemma RepeatedLetterKeyLength(t: string, c: char)
    requires IsLower(c) && |t| >= 4000
    requires forall i :: 0 <= i < |t| ==> t[i] == c
    ensures KeyLengthSearch(t) == Found(2)
  {
    LongEnoughIff(t, 2);
    RepeatedLetterStreams(t, c);
    var cols := Columns(t, 2);
    IocOfConstant(cols[0], c);
    IocOfConstant(cols[1], c);
    assert cols[..1][..0] == [];
    assert IocSum(cols[..1]) == Ioc(cols[0]);
    assert IocSum(cols) == IocSum(cols[..1]) + Ioc(cols[1]);
    assert AverageIoc(t, 2) == 1.0;
    assert Trials(t)[0] == TrialOf(t, 2);
  }

  /** The input that shows it: 4000 or more copies of one letter. Key length
      2 is found (each stream has index of coincidence 1) and `find_key`
      returns the empty key. */
  lemma RepeatedLetterGivesEmptyKey(t: string, c: char)
    requires IsLower(c) && |t| >= 4000
    requires forall i :: 0 <= i < |t| ==> t[i] == c
    ensures KeyLengthSearch(Sanitize(t)) == Found(2)
    ensures ScorableStreams(Columns(Sanitize(t), 2))
    ensures RecoveredKey(Columns(Sanitize(t), 2)) == ""
  {
    SanitizeFixesLowerText(t);
    RepeatedLetterKeyLength(t, c);
    RepeatedLetterStreams(t, c);
    var cols := Columns(t, 2);
    forall j | 0 <= j < 2
      ensures AllLower(cols[j]) && |cols[j]| > 0 && KeyEntry(cols[j]) == ""
    {
      ConstantStreamLosesKeyLetter(cols[j], c);
    }
    var entries := KeyEntries(cols);
    AllEmptyTotal(entries);
    JoinLength(entries);
  }

  /** Corrected scan: the index of the first smallest score, with no sentinel. */
  function FirstMinimumIndex(xs: seq<real>): (j: nat)
    requires |xs| > 0
    ensures IsFirstMinimum(xs, j)
  {
    if |xs| == 1 then 0
    else
      var j := FirstMinimumIndex(xs[..|xs| - 1]);
      if xs[|xs| - 1] < xs[j] then |xs| - 1 else j
  }

  /** Corrected `key[i]`: always the one letter whose shift scores least. */
  function KeyEntryNoSentinel(column: string): (entry: string)
    requires AllLower(column) && |column| > 0
    ensures |entry| == 1 && IsLower(entry[0])
    ensures IsFirstMinimum(Scores(column), Index(entry[0]))
  {
    IndexOfLetter(FirstMinimumIndex(Scores(column)));
    [Letter(FirstMinimumIndex(Scores(column)))]
  }

  /** Corrected key: one letter per stream, in stream order. */
  function RecoveredKeyNoSentinel(streams: seq<string>): (key: string)
    requires ScorableStreams(streams)
    ensures |key| == |streams| && AllLower(key)
    ensures forall i :: 0 <= i < |streams| ==> IsFirstMinimum(Scores(streams[i]), Index(key[i]))
  {
    var entries := seq(|streams|, i requires 0 <= i < |streams| => KeyEntryNoSentinel(streams[i]));
    JoinShort(entries);
    JoinLower(entries);
    Join(entries)
  }

  /** The sentinel only matters when it is never beaten: otherwise the
      source's entry is the corrected one. */
  lemma SentinelHarmlessBelow(column: string)
    requires AllLower(column) && |column| > 0 && BelowSentinel(column)
    ensures KeyEntry(column) == KeyEntryNoSentinel(column)
  {
    EntryShape(column);
    var xs := Scores(column);
    FirstMinimumUnique(xs, Index(KeyEntry(column)[0]), Index(KeyEntryNoSentinel(column)[0]));
  }

  lemma RecoveredKeysAgree(streams: seq<string>)
    requires ScorableStreams(streams)
    requires forall i :: 0 <= i < |streams| ==> BelowSentinel(streams[i])
    ensures RecoveredKey(streams) == RecoveredKeyNoSentinel(streams)
  {
    forall i | 0 <= i < |streams|
      ensures KeyEntries(streams)[i] == KeyEntryNoSentinel(streams[i])
    {
      SentinelHarmlessBelow(streams[i]);
    }
    assert KeyEntries(streams) ==
           seq(|streams|, i requires 0 <= i < |streams| => KeyEntryNoSentinel(streams[i]));
  }

  // The `ZeroDivisionError` of `calculate_ioc` (script.py:42, 66-68)

  /** As written: any text with fewer than four letters, "abc" for one,
      has a one-letter interval string at candidate 2 and divides by zero. */
  lemma ShortTextDividesByZero(s: string)
    requires |s| < 4
    ensures KeyLengthSearch(s) == ZeroDivision(2)
  {
    LongEnoughIff(s, 2);
    assert Trials(s)[0] == TrialOf(s, 2);
  }

  lemma AbcDividesByZero()
    ensures KeyLengthSearch(Sanitize("abc")) == ZeroDivision(2)
  {
    SanitizeFixesLowerText("abc");
    ShortTextDividesByZero("abc");
  }

  /** Corrected loop: a trial with a too-short interval string is skipped
      instead of ending the search. */
  function SkippingSearchTrials(ts: seq<Trial>, j: nat): Search
    decreases |ts| - j
  {
    if j >= |ts| then NotFound
    else if ts[j].Average? && ts[j].ioc > MinIocThreshold then Found(j + FirstCandidate)
    else SkippingSearchTrials(ts, j + 1)
  }

  function KeyLengthSearchSkipping(s: string): Search {
    SkippingSearchTrials(Trials(s), 0)
  }

  /** Candidate `i` can be scored and its average exceeds the threshold. */
  predicate Crosses(s: string, i: nat)
    requires i >= 1
  {
    ColumnsLongEnough(s, i) && AverageIoc(s, i) > MinIocThreshold
  }

  /** Every candidate in [lo, hi) is skipped or stays at or below the threshold. */
  predicate PassedOverFrom(s: string, lo: nat, hi: nat)
    requires lo >= 1
  {
    forall i :: lo <= i < hi ==> !Crosses(s, i)
  }

  /** No trial in [lo, hi) averaged above the threshold. */
  predicate TrialsPassedOver(ts: seq<Trial>, lo: nat, hi: nat)
    requires hi <= |ts|
  {
    forall j :: lo <= j < hi ==> !(ts[j].Average? && ts[j].ioc > MinIocThreshold)
  }

  lemma {:induction false} SkippingSearchTrialsMeaning(ts: seq<Trial>, j: nat)
    requires j <= |ts|
    ensures match SkippingSearchTrials(ts, j)
      case Found(k) =>
        j + FirstCandidate <= k < |ts| + FirstCandidate
        && ts[k - FirstCandidate].Average? && ts[k - FirstCandidate].ioc > MinIocThreshold
        && TrialsPassedOver(ts, j, k - FirstCandidate)
      case NotFound => TrialsPassedOver(ts, j, |ts|)
      case ZeroDivision(_) => false
    decreases |ts| - j
  {
    if j < |ts| && !(ts[j].Average? && ts[j].ioc > MinIocThreshold) {
      SkippingSearchTrialsMeaning(ts, j + 1);
    }
  }

  lemma PassedOverTrials(s: string, hi: nat)
    requires FirstCandidate <= hi <= MaxKeyLength
    requires TrialsPassedOver(Trials(s), 0, hi - FirstCandidate)
    ensures PassedOverFrom(s, FirstCandidate, hi)
  {
    var ts := Trials(s);
    forall i | FirstCandidate <= i < hi
      ensures !Crosses(s, i)
    {
      assert ts[i - FirstCandidate] == TrialOf(s, i);
    }
  }

  /** The corrected search never divides by zero: it finds the first usable
      candidate above the threshold, or reports that there is none. */
  lemma KeyLengthSearchSkippingMeaning(s: string)
    ensures match KeyLengthSearchSkipping(s)
      case Found(k) =>
        FirstCandidate <= k < MaxKeyLength && Crosses(s, k) && PassedOverFrom(s, FirstCandidate, k)
      case NotFound => PassedOverFrom(s, FirstCandidate, MaxKeyLength)
      case ZeroDivision(_) => false
  {
    var ts := Trials(s);
    SkippingSearchTrialsMeaning(ts, 0);
    match KeyLengthSearchSkipping(s)
    case Found(k) =>
      PassedOverTrials(s, k);
      assert ts[k - FirstCandidate] == TrialOf(s, k);
    case NotFound =>
      PassedOverTrials(s, MaxKeyLength);
    case ZeroDivision(_) =>
  }

  /** Skipping changes nothing from trial `j` on unless the source's loop
      stops there with a division by zero. */
  lemma {:induction false} SkippingAgreesFrom(ts: seq<Trial>, j: nat)
    requires !SearchTrials(ts, j).ZeroDivision?
    ensures SkippingSearchTrials(ts, j) == SearchTrials(ts, j)
    decreases |ts| - j
  {
    if j < |ts| && ts[j].Average? && ts[j].ioc <= MinIocThreshold {
      SkippingAgreesFrom(ts, j + 1);
    }
  }

  /** Wherever the source does not divide by zero, in particular on every
      text of at least 98 letters, the corrected search gives its answer. */
  lemma SkippingAgrees(s: string)
    ensures !KeyLengthSearch(s).ZeroDivision? ==> KeyLengthSearchSkipping(s) == KeyLengthSearch(s)
    ensures |s| >= 2 * (MaxKeyLength - 1) ==> KeyLengthSearchSkipping(s) == KeyLengthSearch(s)
  {
    KeyLengthSearchTextLength(s);
    if !KeyLengthSearch(s).ZeroDivision? {
      SkippingAgreesFrom(Trials(s), 0);
    }
  }

  lemma {:induction false} AllShortSkipped(ts: seq<Trial>, j: nat)
    requires forall m :: 0 <= m < |ts| ==> ts[m].ShortColumn?
    ensures SkippingSearchTrials(ts, j) == NotFound
    decreases |ts| - j
  {
    if j < |ts| {
      AllShortSkipped(ts, j + 1);
    }
  }

  /** Corrected: on a text of fewer than four letters, "abc" for one, every
      candidate is skipped and no key length is found. */
  lemma ShortTextFindsNoKeyLength(s: string)
    requires |s| < 4
    ensures KeyLengthSearchSkipping(s) == NotFound
  {
    var ts := Trials(s);
    forall m | 0 <= m < |ts|
      ensures ts[m].ShortColumn?
    {
      LongEnoughIff(s, m + FirstCandidate);
    }
    AllShortSkipped(ts, 0);
  }

  /** `find_key` with both corrections: never a division by zero, and a found
      key has one letter per stream. */
  function CorrectedKey(text: string): (r: KeyResult)
    ensures !r.DivisionByZero?
    ensures r.NoKeyLength? <==> KeyLengthSearchSkipping(Sanitize(text)).NotFound?
    ensures r.Key? ==> |r.key| == KeyLengthSearchSkipping(Sanitize(text)).keyLen
  {
    var s := Sanitize(text);
    KeyLengthSearchSkippingMeaning(s);
    SanitizeLowerOnly(text);
    match KeyLengthSearchSkipping(s)
    case Found(k) =>
      ColumnsScorable(s, k);
      Key(RecoveredKeyNoSentinel(Columns(s, k)))
    case _ => NoKeyLength
  }

  /** Where the source finds a length and every stream has a shift scoring
      below 9999, the corrected key finder returns the source's key. */
  lemma CorrectedKeyAgrees(text: string, k: nat)
    requires KeyLengthSearch(Sanitize(text)) == Found(k)
    requires k >= 1 && ScorableStreams(Columns(Sanitize(text), k))
    requires forall i :: 0 <= i < k ==> BelowSentinel(Columns(Sanitize(text), k)[i])
    ensures CorrectedKey(text) == Key(RecoveredKey(Columns(Sanitize(text), k)))
  {
    SkippingAgrees(Sanitize(text));
    RecoveredKeysAgree(Columns(Sanitize(text), k));
  }

  /** Where the source's search runs through every candidate without finding
      a length, the corrected key finder reports no key length too. */
  lemma CorrectedKeyNoLengthAgrees(text: string)
    requires KeyLengthSearch(Sanitize(text)) == NotFound
    ensures CorrectedKey(text) == NoKeyLength
  {
    SkippingAgrees(Sanitize(text));
  }
}
