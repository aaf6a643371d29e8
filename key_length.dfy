/** Key-length search, `calculate_best_ioc` of script.py: for k = 2 .. 49,
    split the normalised text into k interval strings, average their indices
    of coincidence, and return the first k whose average exceeds the
    threshold. A candidate with an interval string of at most one letter
    makes `calculate_ioc` divide by zero, which ends the search with an error. */
module KeyLength {
  import opened Alphabet
  import opened Arithmetic
  import opened Normalizer
  import opened ColumnSplitter
  import opened Coincidence

  /** `MAX_KEY_LENGTH`: candidates run over 2 .. MaxKeyLength - 1. */
  const MaxKeyLength: nat := 50
  /** `MIN_IOC_THRESHOLD`, as an exact rational. */
  const MinIocThreshold: real := 0.07

  /** Outcome of the search: a key length, falling off the end of the `for`
      loop (Python returns `None`), or the `ZeroDivisionError` raised by
      `calculate_ioc` on a short interval string of candidate `keyLen`. */
  datatype Search = Found(keyLen: nat) | NotFound | ZeroDivision(keyLen: nat)

  /** Every interval string for key length `k` has at least two letters,
      so `calculate_ioc` can be applied to each. */
  predicate ColumnsLongEnough(s: string, k: nat)
    requires k >= 1
  {
    forall j :: 0 <= j < k ==> |Column(s, k, j)| >= 2
  }

  /** Sum of the indices of coincidence of a list of strings (`total_ioc`). */
  function IocSum(xs: seq<string>): real
    requires forall i :: 0 <= i < |xs| ==> |xs[i]| >= 2
  {
    if xs == [] then 0.0 else IocSum(xs[..|xs| - 1]) + Ioc(xs[|xs| - 1])
  }

  lemma IocSumSnoc(xs: seq<string>, m: nat)
    requires m < |xs| && forall i :: 0 <= i <= m ==> |xs[i]| >= 2
    ensures IocSum(xs[..m + 1]) == IocSum(xs[..m]) + Ioc(xs[m])
  {
    assert xs[..m + 1][..m] == xs[..m];
  }

  /** `average_ioc` for candidate key length `k`. */
  function AverageIoc(s: string, k: nat): real
    requires k >= 1 && ColumnsLongEnough(s, k)
  {
    IocSum(Columns(s, k)) / k as real
  }

  /** The first candidate key length the `for` loop tries. */
  const FirstCandidate: nat := 2

  /** What trying one candidate key length yields: an interval string too short
      for `calculate_ioc`, or the average index of coincidence. */
  datatype Trial = ShortColumn | Average(ioc: real)

  function TrialOf(s: string, k: nat): (t: Trial)
    requires k >= 1
    ensures t.ShortColumn? <==> !ColumnsLongEnough(s, k)
    ensures t.Average? ==> t.ioc == AverageIoc(s, k)
  {
    if ColumnsLongEnough(s, k) then Average(AverageIoc(s, k)) else ShortColumn
  }

  /** The trials of candidates 2 .. 49 in the order the loop makes them:
      entry `j` is candidate `j + 2`. */
  function Trials(s: string): (ts: seq<Trial>)
    ensures |ts| == MaxKeyLength - FirstCandidate
    ensures forall j :: 0 <= j < |ts| ==> ts[j] == TrialOf(s, j + FirstCandidate)
  {
    seq(MaxKeyLength - FirstCandidate, j requires 0 <= j => TrialOf(s, j + FirstCandidate))
  }

  /** The loop from trial `j` on: stop with an error at a short interval
      string, with the candidate at the first average above the threshold,
      and with nothing after the last trial. */
  function SearchTrials(ts: seq<Trial>, j: nat): Search
    decreases |ts| - j
  {
    if j >= |ts| then NotFound
    else match ts[j]
      case ShortColumn => ZeroDivision(j + FirstCandidate)
      case Average(a) => if a > MinIocThreshold then Found(j + FirstCandidate) else SearchTrials(ts, j + 1)
  }

  /** The key length `calculate_best_ioc` settles on for normalised text `s`. */
  function KeyLengthSearch(s: string): Search {
    SearchTrials(Trials(s), 0)
  }

  /** Trials `lo .. hi - 1` all averaged at or below the threshold. */
  predicate TrialsPass(ts: seq<Trial>, lo: nat, hi: nat)
    requires hi <= |ts|
  {
    forall j :: lo <= j < hi ==> ts[j].Average? && ts[j].ioc <= MinIocThreshold
  }

  lemma {:induction false} SearchTrialsMeaning(ts: seq<Trial>, j: nat)
    requires j <= |ts|
    ensures match SearchTrials(ts, j)
      case Found(k) =>
        j + FirstCandidate <= k < |ts| + FirstCandidate
        && ts[k - FirstCandidate].Average? && ts[k - FirstCandidate].ioc > MinIocThreshold
        && TrialsPass(ts, j, k - FirstCandidate)
      case NotFound => TrialsPass(ts, j, |ts|)
      case ZeroDivision(k) =>
        j + FirstCandidate <= k < |ts| + FirstCandidate
        && ts[k - FirstCandidate].ShortColumn? && TrialsPass(ts, j, k - FirstCandidate)
    decreases |ts| - j
  {
    if j < |ts| && ts[j].Average? && ts[j].ioc <= MinIocThreshold {
      SearchTrialsMeaning(ts, j + 1);
    }
  }

  /** Candidate `i` passes through the loop without ending it. */
  predicate Rejected(s: string, i: nat)
    requires i >= 1
  {
    ColumnsLongEnough(s, i) && AverageIoc(s, i) <= MinIocThreshold
  }

  predicate AllRejectedFrom(s: string, lo: nat, hi: nat)
    requires lo >= 1
  {
    forall i :: lo <= i < hi ==> Rejected(s, i)
  }

  lemma RejectedTrials(s: string, hi: nat)
    requires FirstCandidate <= hi <= MaxKeyLength
    requires TrialsPass(Trials(s), 0, hi - FirstCandidate)
    ensures AllRejectedFrom(s, FirstCandidate, hi)
  {
    var ts := Trials(s);
    forall i | FirstCandidate <= i < hi
      ensures Rejected(s, i)
    {
      assert ts[i - FirstCandidate] == TrialOf(s, i);
    }
  }

  /** The interval strings for `k` all have two letters exactly when the text
      has at least 2k letters: the shortest column is the last one. */
  lemma LongEnoughIff(s: string, k: nat)
    requires k >= 1
    ensures ColumnsLongEnough(s, k) <==> |s| >= 2 * k
  {
    if ColumnsLongEnough(s, k) {
      var col := Column(s, k, k - 1);
      ColumnLength(s, k, k - 1);
      MulAtLeast(|col| - 1, k);
    }
    if |s| >= 2 * k {
      forall j | 0 <= j < k
        ensures |Column(s, k, j)| >= 2
      {
        assert Column(s, k, j) == [s[j]] + Column(s, k, j + k);
        assert Column(s, k, j + k) == [s[j + k]] + Column(s, k, j + 2 * k);
      }
    }
  }

  lemma {:induction false} IocSumBounds(xs: seq<string>)
    requires forall i :: 0 <= i < |xs| ==> |xs[i]| >= 2
    ensures 0.0 <= IocSum(xs) <= |xs| as real
  {
    if xs != [] {
      IocSumBounds(xs[..|xs| - 1]);
      IocBounds(xs[|xs| - 1]);
    }
  }

  /** The average index of coincidence of the columns lies in [0, 1]. */
  lemma AverageIocBounds(s: string, k: nat)
    requires k >= 1 && ColumnsLongEnough(s, k)
    ensures 0.0 <= AverageIoc(s, k) <= 1.0
  {
    IocSumBounds(Columns(s, k));
    RatioWithinUnit(IocSum(Columns(s, k)), k as real);
  }

  /** What `calculate_best_ioc` returns: the smallest candidate in [2, 50)
      whose average index of coincidence exceeds the threshold when every
      smaller candidate stays at or below it; nothing when all candidates stay
      at or below it; a division by zero at the first candidate with a column
      of fewer than two letters, before any candidate crosses. */
  lemma KeyLengthSearchMeaning(s: string)
    ensures match KeyLengthSearch(s)
      case Found(k) =>
        2 <= k < MaxKeyLength && ColumnsLongEnough(s, k) && AverageIoc(s, k) > MinIocThreshold
        && AllRejectedFrom(s, 2, k)
      case NotFound => AllRejectedFrom(s, 2, MaxKeyLength)
      case ZeroDivision(k) =>
        2 <= k < MaxKeyLength && !ColumnsLongEnough(s, k) && AllRejectedFrom(s, 2, k)
  {
    var ts := Trials(s);
    SearchTrialsMeaning(ts, 0);
    match KeyLengthSearch(s)
    case Found(k) =>
      RejectedTrials(s, k);
      assert ts[k - FirstCandidate] == TrialOf(s, k);
    case NotFound =>
      RejectedTrials(s, MaxKeyLength);
    case ZeroDivision(k) =>
      RejectedTrials(s, k);
      assert ts[k - FirstCandidate] == TrialOf(s, k);
  }

  /** A found key length leaves at least two letters per column, and the
      division by zero only happens on texts shorter than 2 * 49 letters. */
  lemma KeyLengthSearchTextLength(s: string)
    ensures KeyLengthSearch(s).Found? ==> |s| >= 2 * KeyLengthSearch(s).keyLen
    ensures KeyLengthSearch(s).ZeroDivision? ==> |s| < 2 * KeyLengthSearch(s).keyLen
    ensures |s| >= 2 * (MaxKeyLength - 1) ==> !KeyLengthSearch(s).ZeroDivision?
  {
    KeyLengthSearchMeaning(s);
    match KeyLengthSearch(s)
    case Found(k) => LongEnoughIff(s, k);
    case NotFound =>
    case ZeroDivision(k) => LongEnoughIff(s, k);
  }

  /** One candidate of `calculate_best_ioc` (script.py:54-70): build the
      interval strings, sum their indices of coincidence and average them.
      `ok` is false when an interval string is too short for `calculate_ioc`. */
  method CandidateAverage(s: string, i: nat) returns (ok: bool, averageIoc: real)
    requires i >= 1
    ensures ok == ColumnsLongEnough(s, i)
    ensures ok ==> averageIoc == AverageIoc(s, i)
  {
    var strings := IntervalStrings(s, i);
    var totalIoc: real := 0.0;
    for m := 0 to |strings|
      invariant forall p :: 0 <= p < m ==> |strings[p]| >= 2
      invariant totalIoc == IocSum(strings[..m])
    {
      if |strings[m]| < 2 {
        assert strings[m] == Column(s, i, m);
        return false, 0.0;
      }
      var ioc := CalculateIoc(strings[m]);
      IocSumSnoc(strings, m);
      totalIoc := totalIoc + ioc;
    }
    assert strings[..|strings|] == strings;
    forall j | 0 <= j < i
      ensures |Column(s, i, j)| >= 2
    {
      assert strings[j] == Column(s, i, j);
    }
    ok := true;
    averageIoc := totalIoc / |strings| as real;
  }

  /** `calculate_best_ioc`: normalise, then try candidates 2 .. 49, keeping the
      best average seen in `runningIoc`/`runningKey` and returning as soon as
      it exceeds the threshold. */
  method CalculateBestIoc(text: string) returns (r: Search)
    ensures r == KeyLengthSearch(Sanitize(text))
  {
    var inputSanitized := Sanitize(text);
    ghost var ts := Trials(inputSanitized);
    var runningIoc: real := 0.0;
    var runningKey: nat := 0;
    for i := FirstCandidate to MaxKeyLength
      invariant SearchTrials(ts, 0) == SearchTrials(ts, i - FirstCandidate)
      invariant runningIoc <= MinIocThreshold
    {
      var ok, averageIoc := CandidateAverage(inputSanitized, i);
      assert ts[i - FirstCandidate] == TrialOf(inputSanitized, i);
      if !ok {
        return ZeroDivision(i);
      }
      if averageIoc > runningIoc {
        runningIoc := averageIoc;
        runningKey := i;
      }
      if runningIoc > MinIocThreshold {
        return Found(runningKey);
      }
    }
    return NotFound;
  }
}
