# Vigenère key recovery, modelled in Dafny

`script.py` cracks a Vigenère cipher in four stages:

1. It normalises the text: `sanitize_string` lower-cases it and keeps only the letters.
2. It guesses the key length with `calculate_best_ioc`:
   - For each candidate length k = 2 .. 49, it splits the text into k interval strings. Interval string j holds characters j, j+k, j+2k, …
   - It averages their indices of coincidence (`calculate_ioc`).
   - It stops at the first k whose average exceeds 0.07.
3. It splits the text into the k Caesar streams (`format_into_ceasar`).
4. It recovers one key letter per stream (`find_key`):
   - It tries all 26 shifts.
   - It scores each deciphered stream by its chi-squared distance to English letter frequencies (`calculate_chi_squared`).
   - It keeps the first shift with the smallest score below the starting value 9999.

The model has one module per stage:

| file | module | contents |
|---|---|---|
| `normalizer.dfy` | `Normalizer` | `sanitize_string` and what it guarantees |
| `columns.dfy` | `ColumnSplitter` | the reference function `Columns` for the stream decomposition; the `while` loop of `calculate_best_ioc` and `format_into_ceasar` are methods proved equal to it |
| `coincidence.dfy` | `Coincidence` | the index of coincidence and the `calculate_ioc` loop |
| `key_length.dfy` | `KeyLength` | the key-length search: the outcome of each candidate length in the order tried, the loop over those outcomes as a specification function, a characterisation lemma and the `calculate_best_ioc` method |
| `chi_squared.dfy` | `ChiSquared` | the frequency table, the statistic and the `calculate_chi_squared` loop |
| `key_recovery.dfy` | `KeyRecovery` | the shift decipher, the per-stream minimum search with its 9999 start value, key assembly and `find_key` |
| `findings.dfy` | `Findings` | two defects of the source, each shown on an input and paired with a corrected definition |
| `alphabet.dfy`, `arithmetic.dfy`, `wrappers.dfy` | `Alphabet`, `Arithmetic`, `Wrappers` | helpers: letters and counts, integer and real arithmetic facts, `Option` |

Each loop of the source is a method whose `ensures` ties its result to a specification function. The properties are then proved about those functions.

Two things `script.py` ends in an exception become values of result types:
- The `ZeroDivisionError` that `calculate_ioc` raises on an interval string of at most one letter is `Search.ZeroDivision(k)` and `KeyResult.DivisionByZero(k)`.
- The `TypeError` that `find_key` raises when no key length is found is `KeyResult.NoKeyLength`. In that case the source passes `None` on to `format_into_ceasar`.

Three places where the code does not do what it evidently means:
- A candidate whose interval strings are too short to score ought to be skipped. The code divides by zero on it instead. That is finding 2 below.
- A missing key length ought to be a plain failure. The code raises `TypeError`. The model returns `NoKeyLength`.
- An accent-dropping normaliser and `str.isalpha` differ only outside ASCII. The model covers ASCII only, where they agree.

## Model

| member | source | states |
|---|---|---|
| Normalizer.Lower | script.py:30 | definition of `input_string.lower()`: `ToLower` on every character; the result has the input's length |
| Normalizer.KeepAlpha | script.py:31 | definition of `''.join(filter(str.isalpha, …))`: the ASCII letters of the text, in their order |
| Normalizer.Sanitize | script.py:28-31 | definition of `sanitize_string`: `KeepAlpha` of `Lower`; what it guarantees is stated by the `Sanitize…` lemmas below |
| Alphabet.Count | script.py:40 | definition of `str.count` for one character: how many positions hold it, i.e. its multiplicity in the multiset of the text |
| Normalizer.ToLower | script.py:30 | `str.lower` on ASCII: A–Z go to the letter 32 code points higher, in a–z; every other character is unchanged |
| Normalizer.SanitizeLowerOnly | script.py:28-31 | the normalised text holds only a–z and is no longer than the input |
| Normalizer.SanitizeSubsequence | script.py:28-31 | the normalised text is a subsequence of the lower-cased input: letters keep their relative order |
| Normalizer.SanitizeCounts | script.py:28-31 | each a–z letter occurs in the output as often as it occurs in the input in either case: nothing is lost or invented |
| Normalizer.SanitizeFixesLowerText | script.py:28-31 | text that is already a–z only is returned unchanged |
| Normalizer.SanitizeIdempotent | script.py:48 | normalising twice equals normalising once, so the second normalisation inside `calculate_best_ioc` changes nothing |
| ColumnSplitter.Column | script.py:57-62 | definition of interval string j: s[j], s[j+k], s[j+2k], … up to the end of the text; `ColumnAt` states its entries and length |
| ColumnSplitter.Columns | script.py:103 | there are exactly k streams |
| ColumnSplitter.ColumnAt | script.py:57-62 | entry n of stream j is character j + n·k, and the stream reaches the end of the text |
| ColumnSplitter.ColumnPosition | script.py:105-106 | character i of the text is entry i / k of stream i mod k |
| ColumnSplitter.ColumnsSnoc | script.py:105-106 | appending a character to the text extends only stream \|s\| mod k, by that character |
| ColumnSplitter.ColumnsPartition | script.py:105-106 | the stream lengths sum to the text length: every character lands in exactly one stream |
| ColumnSplitter.Interval | script.py:57-62 | the `while` loop from index j in steps of k builds exactly stream j |
| ColumnSplitter.IntervalStrings | script.py:54-64 | the `strings` list of `calculate_best_ioc` is the list of streams |
| ColumnSplitter.FormatIntoCaesar | script.py:99-108 | `format_into_ceasar` returns the same streams: it agrees with the interval strings |
| Coincidence.Ioc | script.py:34-42 | definition of `calculate_ioc`: Σ over a–z of f(f−1), divided by N(N−1); it requires N ≥ 2, the inputs on which the source does not divide by zero |
| Coincidence.LetterTotalBound | script.py:39-40 | the letter counts over a–z sum to at most \|s\|, and to exactly \|s\| on a–z text |
| Coincidence.CoincidenceWithinPairs | script.py:39-40 | the numerator Σ f(f−1) lies between 0 and A(A−1), where A is the sum of the counts |
| Coincidence.CoincidenceCountsPairs | script.py:39-40 | on a–z text the numerator is the number of ordered pairs of distinct positions holding the same letter (an independent reference definition) |
| Coincidence.IocBounds | script.py:34-42 | for N ≥ 2 the index of coincidence lies in [0, 1] |
| Coincidence.IocOfConstant | script.py:34-42 | a text of one repeated letter has index of coincidence 1 |
| Coincidence.CalculateIoc | script.py:34-42 | the `frequency_sum` loop and the division compute the index of coincidence; the caller must supply N ≥ 2, since N ≤ 1 divides by zero |
| KeyLength.AverageIoc | script.py:66-70 | definition of `average_ioc`: the sum of the interval strings' indices of coincidence divided by k, for a candidate whose strings all have two letters or more |
| KeyLength.SearchTrials | script.py:52-78 | definition of the candidate loop over the trials from j on: a division by zero at a short trial, the candidate at the first average above 0.07, nothing after the last one |
| KeyLength.KeyLengthSearch | script.py:52-78 | definition of the result of `calculate_best_ioc` on normalised text: `SearchTrials` over candidates 2 .. 49; `KeyLengthSearchMeaning` characterises it |
| KeyLength.LongEnoughIff | script.py:59-68 | every interval string for k has at least two letters exactly when the text has at least 2k letters |
| KeyLength.AverageIocBounds | script.py:66-70 | the average index of coincidence of a candidate lies in [0, 1] |
| KeyLength.SearchTrialsMeaning | script.py:52-78 | for any list of trials, the loop from trial j on stops at the first trial that is short or above the threshold, with that candidate's error or length; every trial before it was at or below the threshold; no such trial means no length |
| KeyLength.KeyLengthSearchMeaning | script.py:52-78 | Found(k): k is the smallest candidate in [2, 50) whose average exceeds 0.07, and every smaller one is scorable and at or below it. NotFound: every candidate is scorable and at or below 0.07. ZeroDivision(k): k is the first candidate with a stream of fewer than two letters, and every smaller candidate was rejected |
| KeyLength.KeyLengthSearchTextLength | script.py:52-78 | a found length leaves at least two letters per stream; the division by zero happens only on texts of fewer than 98 letters |
| KeyLength.CandidateAverage | script.py:54-70 | one candidate reports whether every interval string can be scored and, if so, their average index of coincidence |
| KeyLength.CalculateBestIoc | script.py:45-78 | the method returns the specification search on the normalised text. This relies on `running_ioc` staying at or below 0.07 until the return |
| ChiSquared.Frequency | script.py:84-88 | the table has all 26 letters, and each share is positive and at most 0.12702 |
| ChiSquared.Expected | script.py:93 | the expected count is positive for a non-empty text, so the division is defined, and it is at most 0.12702·\|s\| |
| ChiSquared.Deviation | script.py:94 | each term (observed − expected)² / expected is non-negative |
| ChiSquared.ChiSquaredOf | script.py:90-96 | definition of the statistic: Σ over a–z of (observed − expected)² / expected, for a non-empty string |
| ChiSquared.ChiSquaredBounds | script.py:90-96 | the statistic is non-negative and at least the term of any single letter |
| ChiSquared.ChiSquaredOfCounts | script.py:92-94 | the statistic depends only on the multiset of letters: rearranging a text leaves it unchanged |
| ChiSquared.CalculateChiSquared | script.py:81-96 | the accumulator loop over a–z computes the statistic |
| KeyRecovery.WrapIndex | script.py:125 | Python's negative indexing into `ascii_lowercase`, for differences in −26 .. 25, is that difference mod 26 |
| KeyRecovery.DecipherLetter | script.py:125 | the deciphered letter is in a–z, with index (letter − key) mod 26 |
| KeyRecovery.DecipherEncipher | script.py:125 | deciphering with a key undoes enciphering with it, and the reverse |
| KeyRecovery.Decipher | script.py:123-125 | a deciphered stream has the stream's length and is a–z |
| KeyRecovery.DecipherIdentity | script.py:123-125 | the shift 'a' leaves a stream unchanged |
| KeyRecovery.DecipherEncipherColumn | script.py:123-125 | deciphering a stream enciphered with the same key gives the plain stream back |
| KeyRecovery.DecipherColumn | script.py:123-125 | the `deciphered_string` loop builds the deciphered stream |
| KeyRecovery.Scores | script.py:122-126 | there is one score per shift a .. z |
| KeyRecovery.ScoreAtTrueShift | script.py:122-126 | the score of an enciphered stream at its own key letter is the chi-squared of the plain stream |
| KeyRecovery.Best | script.py:120-129 | definition of the scan: the running score starts at the bound, a strictly smaller score replaces it and its index becomes the choice; a choice is an index of the scores |
| KeyRecovery.BestMeaning | script.py:120-129 | the scan with strict `<` starting from 9999 keeps no choice exactly when every score is at least 9999. Otherwise it keeps the first minimal score, which is below 9999: ties go to the earlier letter |
| KeyRecovery.FirstMinimumUnique | script.py:127-129 | there is only one first minimum |
| KeyRecovery.KeyEntry | script.py:120-131 | definition of `key[i]` for one stream: "" or the letter of the scan's choice over the 26 scores from 9999 |
| KeyRecovery.KeyEntryMeaning | script.py:120-131 | a stream's key entry is "" exactly when every shift scores at least 9999; otherwise it is the single letter of the first minimal shift |
| KeyRecovery.EntryShape | script.py:120-131 | a key entry has at most one letter, and has one exactly when some shift scores below 9999 |
| KeyRecovery.RecoverColumn | script.py:120-131 | the middle loop, with `running_chi_squared` and `running_char`, computes the stream's key entry |
| KeyRecovery.Join | script.py:133 | definition of `"".join(key)`: the entries concatenated in order |
| KeyRecovery.RecoveredKey | script.py:117-133 | definition of the assembled key: `Join` of every stream's `KeyEntry`, in stream order |
| KeyRecovery.JoinShort | script.py:133 | joining entries of at most one letter gives at most one letter per entry. The result has one letter per entry exactly when no entry is empty, and entry i then sits at position i |
| KeyRecovery.RecoveredKeyShape | script.py:117-133 | the key is a–z, is no longer than the number of streams, and equals it exactly when every stream has a shift below 9999; letter i is then the first minimal shift of stream i |
| KeyRecovery.ColumnsScorable | script.py:116 | when the search found k, the streams of the normalised text are a–z and non-empty, so every chi-squared is defined |
| KeyRecovery.RecoverKey | script.py:117-133 | the list pre-filled with "a" and overwritten entry by entry, then joined, is the recovered key |
| KeyRecovery.FindKey | script.py:111-133 | if no length is found, the result is `NoKeyLength`; a division by zero at candidate k gives `DivisionByZero(k)`. Otherwise the result is the key recovered from the k streams of the normalised text |
| Findings.LoneLetterDeviation | script.py:93-94 | a stream of at least 2000 copies of one letter scores at least 9999 on that letter's term alone |
| Findings.ConstantStreamScores | script.py:120-129 | every shift of such a stream scores at least 9999 |
| Findings.ConstantStreamLosesKeyLetter | script.py:120-131 | such a stream contributes "" to the key |
| Findings.RepeatedLetterKeyLength | script.py:52-78 | a text of at least 4000 copies of one letter makes the search find length 2 |
| Findings.RepeatedLetterGivesEmptyKey | script.py:111-133 | for that text `find_key` finds length 2 but assembles the empty key |
| Findings.FirstMinimumIndex | script.py:120-129 | corrected scan without the 9999 start value: the result is the first minimal score |
| Findings.KeyEntryNoSentinel | script.py:120-131 | corrected key entry: always exactly one letter, the first minimal shift |
| Findings.RecoveredKeyNoSentinel | script.py:117-133 | corrected key: exactly one a–z letter per stream, letter i being the first minimal shift of stream i |
| Findings.SentinelHarmlessBelow | script.py:120-131 | when some shift scores below 9999, the source's entry equals the corrected one |
| Findings.RecoveredKeysAgree | script.py:117-133 | when every stream has a shift below 9999, the source's key equals the corrected key |
| Findings.ShortTextDividesByZero | script.py:42 | any text of fewer than four letters divides by zero at candidate 2 |
| Findings.AbcDividesByZero | script.py:66-68 | the text "abc" divides by zero at candidate 2 |
| Findings.SkippingSearchTrials | script.py:52-78 | definition of the corrected candidate loop: a short trial is skipped, the first average above 0.07 is found, nothing after the last one |
| Findings.KeyLengthSearchSkipping | script.py:52-78 | definition of the corrected search: `SkippingSearchTrials` over candidates 2 .. 49 |
| Findings.SkippingSearchTrialsMeaning | script.py:52-78 | corrected loop over any list of trials: never a division by zero; Found(k) is the first trial above the threshold; NotFound means that no trial is above it |
| Findings.SkippingAgreesFrom | script.py:52-78 | for any list of trials, skipping short ones changes nothing unless the source's loop stops at a short trial |
| Findings.KeyLengthSearchSkippingMeaning | script.py:52-78 | the same for the whole corrected search from candidate 2 |
| Findings.SkippingAgrees | script.py:52-78 | wherever the source does not divide by zero, and so on every text of at least 98 letters, the corrected search gives the source's answer |
| Findings.ShortTextFindsNoKeyLength | script.py:52-78 | corrected: on a text of fewer than four letters every candidate is skipped and no length is found |
| Findings.CorrectedKey | script.py:111-133 | `find_key` with both corrections: it never divides by zero, reports no length exactly when the corrected search finds none, and otherwise returns a key of the found length |
| Findings.CorrectedKeyAgrees | script.py:111-133 | where the source finds a length and every stream has a shift scoring below 9999, the corrected finder returns the source's key |
| Findings.CorrectedKeyNoLengthAgrees | script.py:111-117 | where the source's search finds no length, the corrected finder also reports no key length |

## Left out

- The hard-coded ciphertext and the `print(find_key(cipher_text))` call (script.py:21-26, 136). They are demo data and output.
- Python floats. The index of coincidence, its average, the table's decimals, the chi-squared terms and every comparison against 0.07 or 9999 are exact rationals (`real`). IEEE rounding could decide a near-tie differently.
- Characters outside ASCII. `str.lower` and `str.isalpha` are modelled on ASCII, and every non-ASCII character is dropped. Python would keep the non-ASCII letters.
- The exceptions themselves. The `ZeroDivisionError` of `calculate_ioc` and the `TypeError` of `find_key` on a missing key length are result values, not exceptions.
- `calculate_chi_squared` on an empty string, which divides by zero. `find_key` never reaches it, because a found length leaves every stream non-empty (`ColumnsScorable`), and `ChiSquaredOf` requires a non-empty string.
- Statistical claims, such as "English text has an index of coincidence near 0.065" or "the recovered key is the right one". They depend on properties of language, not of the program.
- `find_key` calls `format_into_ceasar` only with the found length. `FormatIntoCaesar` accepts any k ≥ 1. 0 and `None` do not reach it in the model.

## Findings

| source | as written | input that shows it | evidently intended | confidence | as-written member | corrected member |
|---|---|---|---|---|---|---|
| script.py:120-131 | `running_chi_squared` starts at 9999, and a stream none of whose shifts scores below it keeps `running_char = ""`, so the key comes out shorter than the key length and later letters move to wrong positions | a text of 4000 copies of "a" (length 2 is found; both streams score at least 9999 on every shift; the key is "") | 9999 stands for "no score yet"; every stream should get the letter of its smallest score | high; not executed | Findings.RepeatedLetterGivesEmptyKey | Findings.RecoveredKeyNoSentinel |
| script.py:42, 66-68 | a candidate length with an interval string of at most one letter makes `calculate_ioc` divide by zero, which ends the search with `ZeroDivisionError` | "abc" (candidate 2 has the interval string "b") | such a candidate is skipped, and a text too short for every candidate yields no key length | high; not executed | Findings.AbcDividesByZero | Findings.KeyLengthSearchSkippingMeaning |
