/** Per-column key recovery and the whole pipeline, `find_key` of script.py:
    for every Caesar stream try the 26 shifts a..z, score each deciphered
    stream by chi-squared, and keep the first shift whose score is strictly
    below the best so far, starting from the sentinel 9999. */
module KeyRecovery {
  import opened Wrappers
  import opened Alphabet
  import opened Normalizer
  import opened ColumnSplitter
  import opened KeyLength
  import opened ChiSquared

  /** `running_chi_squared = 9999`, the score a shift must beat. */
  const InitialScore: real := 9999.0

  /** Python indexing of `ascii_lowercase` with an index in [-26, 26):
      a negative index counts from the end. */
  function WrapIndex(d: int): (i: nat)
    requires -(AlphabetSize as int) <= d < AlphabetSize
    ensures i == d % AlphabetSize
  {
    if d < 0 then d + AlphabetSize else d
  }

  /** `ascii_lowercase[ord(letter) - ord(key)]`: shift `letter` back by `key`. */
  function DecipherLetter(letter: char, key: char): (p: char)
    requires IsLower(letter) && IsLower(key)
    ensures IsLower(p)
    ensures Index(p) == (Index(letter) - Index(key)) % AlphabetSize
  {
    Letter(WrapIndex(letter as int - key as int))
  }

  /** Vigenere (Caesar) encryption of one letter: add the key's position mod 26. */
  function EncipherLetter(p: char, key: char): (c: char)
    requires IsLower(p) && IsLower(key)
    ensures IsLower(c)
  {
    Letter((Index(p) + Index(key)) % AlphabetSize)
  }

  lemma ModShift(a: int, b: int)
    requires 0 <= a < AlphabetSize && 0 <= b < AlphabetSize
    ensures ((a + b) % AlphabetSize - b) % AlphabetSize == a
    ensures ((a - b) % AlphabetSize + b) % AlphabetSize == a
  {
  }

  /** Deciphering undoes enciphering with the same key letter, and vice versa. */
  lemma DecipherEncipher(p: char, key: char)
    requires IsLower(p) && IsLower(key)
    ensures DecipherLetter(EncipherLetter(p, key), key) == p
    ensures EncipherLetter(DecipherLetter(p, key), key) == p
  {
    ModShift(Index(p), Index(key));
  }

  /** The `deciphered_string` of a column under shift `key`. */
  function Decipher(column: string, key: char): (r: string)
    requires AllLower(column) && IsLower(key)
    ensures |r| == |column| && AllLower(r)
  {
    seq(|column|, i requires 0 <= i < |column| => DecipherLetter(column[i], key))
  }

  /** A stream enciphered with one key letter (the Caesar view of a column). */
  function Encipher(plain: string, key: char): (r: string)
    requires AllLower(plain) && IsLower(key)
    ensures |r| == |plain| && AllLower(r)
  {
    seq(|plain|, i requires 0 <= i < |plain| => EncipherLetter(plain[i], key))
  }

  /** Shift 'a' leaves a column unchanged. */
  lemma DecipherIdentity(column: string)
    requires AllLower(column)
    ensures Decipher(column, 'a') == column
  {
    forall i | 0 <= i < |column|
      ensures Decipher(column, 'a')[i] == column[i]
    {
      assert Index(Decipher(column, 'a')[i]) == Index(column[i]);
    }
  }

  /** Deciphering a Caesar-enciphered stream with its own key gives the plain stream back. */
  lemma DecipherEncipherColumn(plain: string, key: char)
    requires AllLower(plain) && IsLower(key)
    ensures Decipher(Encipher(plain, key), key) == plain
  {
    forall i | 0 <= i < |plain|
      ensures Decipher(Encipher(plain, key), key)[i] == plain[i]
    {
      DecipherEncipher(plain[i], key);
    }
  }

  /** The innermost loop of `find_key` (script.py:123-125). */
  method DecipherColumn(column: string, key: char) returns (decipheredString: string)
    requires AllLower(column) && IsLower(key)
    ensures decipheredString == Decipher(column, key)
  {
    decipheredString := "";
    for i := 0 to |column|
      invariant decipheredString == Decipher(column[..i], key)
    {
      assert AllLower(column[..i + 1]);
      decipheredString := decipheredString + [Letter(WrapIndex(column[i] as int - key as int))];
    }
    assert column[..|column|] == column;
  }

  /** Every key letter's score for a column: chi-squared of the column
      deciphered with shift a, b, ..., z. */
  function Scores(column: string): (xs: seq<real>)
    requires AllLower(column) && |column| > 0
    ensures |xs| == AlphabetSize
  {
    seq(AlphabetSize, m requires 0 <= m < AlphabetSize => ChiSquaredOf(Decipher(column, Letter(m))))
  }

  /** The scan of `find_key`'s middle loop over the scores seen so far:
      the running score and the index of the running choice, where a score
      replaces the running one only when it is strictly smaller. */
  function Best(xs: seq<real>, bound: real): (r: (real, Option<nat>))
    ensures r.1.Some? ==> r.1.value < |xs|
  {
    if xs == [] then (bound, None)
    else
      var prev := Best(xs[..|xs| - 1], bound);
      if xs[|xs| - 1] < prev.0 then (xs[|xs| - 1], Some(|xs| - 1)) else prev
  }

  /** Index `j` holds the smallest score in `xs` and every earlier index
      scores strictly more (ties go to the earliest). */
  predicate IsFirstMinimum(xs: seq<real>, j: nat) {
    && j < |xs|
    && (forall i :: 0 <= i < j ==> xs[i] > xs[j])
    && (forall i :: j < i < |xs| ==> xs[i] >= xs[j])
  }

  /** ... and that smallest score is strictly below `bound`. */
  predicate IsFirstMinimumBelow(xs: seq<real>, bound: real, j: nat) {
    IsFirstMinimum(xs, j) && xs[j] < bound
  }

  /** The running choice is the first minimal score below the bound, or there
      is none when no score is below it; the running score goes with it. */
  lemma {:induction false} BestMeaning(xs: seq<real>, bound: real)
    ensures Best(xs, bound).1.None? <==> forall i :: 0 <= i < |xs| ==> xs[i] >= bound
    ensures Best(xs, bound).1.None? ==> Best(xs, bound).0 == bound
    ensures Best(xs, bound).1.Some? ==>
              IsFirstMinimumBelow(xs, bound, Best(xs, bound).1.value)
              && Best(xs, bound).0 == xs[Best(xs, bound).1.value]
  {
    if xs != [] {
      var ys := xs[..|xs| - 1];
      BestMeaning(ys, bound);
      assert forall i :: 0 <= i < |ys| ==> ys[i] == xs[i];
    }
  }

  /** There is only one first minimum. */
  lemma FirstMinimumUnique(xs: seq<real>, j: nat, j': nat)
    requires IsFirstMinimum(xs, j) && IsFirstMinimum(xs, j')
    ensures j == j'
  {
    var a, b := xs[j], xs[j'];
    if j < j' {
      assert false;
    } else if j' < j {
      assert false;
    }
  }

  /** The string `running_char` for a running choice: "" or the chosen letter. */
  function Entry(choice: Option<nat>): string
    requires choice.Some? ==> choice.value < AlphabetSize
  {
    match choice
    case None => ""
    case Some(m) => [Letter(m)]
  }

  /** `key[i]` for a column: the letter `find_key` keeps for it. */
  function KeyEntry(column: string): string
    requires AllLower(column) && |column| > 0
  {
    Entry(Best(Scores(column), InitialScore).1)
  }

  /** A column gets no key letter exactly when every shift scores at least
      9999; otherwise it gets one letter, the first shift in a..z with the
      smallest score. */
  lemma KeyEntryMeaning(column: string)
    requires AllLower(column) && |column| > 0
    ensures KeyEntry(column) == [] <==>
              forall m :: 0 <= m < AlphabetSize ==> Scores(column)[m] >= InitialScore
    ensures KeyEntry(column) != [] ==>
              |KeyEntry(column)| == 1
              && IsFirstMinimumBelow(Scores(column), InitialScore, Index(KeyEntry(column)[0]))
  {
    BestMeaning(Scores(column), InitialScore);
    var choice := Best(Scores(column), InitialScore).1;
    if choice.Some? {
      IndexOfLetter(choice.value);
    }
  }

  /** The middle loop of `find_key` (script.py:120-131) for one column. */
  method RecoverColumn(column: string) returns (runningChar: string)
    requires AllLower(column) && |column| > 0
    ensures runningChar == KeyEntry(column)
  {
    ghost var xs := Scores(column);
    var runningChiSquared := InitialScore;
    runningChar := "";
    ghost var choice: Option<nat> := None;
    for m := 0 to AlphabetSize
      invariant Best(xs[..m], InitialScore) == (runningChiSquared, choice)
      invariant choice.Some? ==> choice.value < m
      invariant runningChar == Entry(choice)
    {
      var shift := Letter(m);
      var decipheredString := DecipherColumn(column, shift);
      var currentChiSquared := CalculateChiSquared(decipheredString);
      assert xs[..m + 1][..m] == xs[..m];
      if currentChiSquared < runningChiSquared {
        runningChiSquared := currentChiSquared;
        runningChar := [shift];
        choice := Some(m);
      }
    }
    assert xs[..AlphabetSize] == xs;
  }

  /** `"".join(key)` */
  function Join(entries: seq<string>): string {
    if entries == [] then "" else Join(entries[..|entries| - 1]) + entries[|entries| - 1]
  }

  /** Streams `find_key` can score: each is a-z and not empty. */
  predicate ScorableStreams(streams: seq<string>) {
    forall i :: 0 <= i < |streams| ==> AllLower(streams[i]) && |streams[i]| > 0
  }

  /** The key assembled from the streams, in column order. */
  function KeyEntries(streams: seq<string>): (entries: seq<string>)
    requires ScorableStreams(streams)
    ensures |entries| == |streams|
  {
    seq(|streams|, i requires 0 <= i < |streams| => KeyEntry(streams[i]))
  }

  function RecoveredKey(streams: seq<string>): string
    requires ScorableStreams(streams)
  {
    Join(KeyEntries(streams))
  }

  lemma {:induction false} JoinLength(entries: seq<string>)
    ensures |Join(entries)| == TotalLength(entries)
  {
    if entries != [] {
      JoinLength(entries[..|entries| - 1]);
    }
  }

  /** Joining entries of at most one letter gives at most one letter per entry,
      and one letter per entry exactly when no entry is empty; entry `i` then
      sits at position `i`. */
  lemma {:induction false} JoinShort(entries: seq<string>)
    requires forall i :: 0 <= i < |entries| ==> |entries[i]| <= 1
    ensures |Join(entries)| <= |entries|
    ensures |Join(entries)| == |entries| <==> forall i :: 0 <= i < |entries| ==> |entries[i]| == 1
    ensures |Join(entries)| == |entries| ==>
              forall i :: 0 <= i < |entries| ==> Join(entries)[i] == entries[i][0]
  {
    if entries != [] {
      var init := entries[..|entries| - 1];
      JoinShort(init);
      assert forall i :: 0 <= i < |init| ==> init[i] == entries[i];
      if |Join(entries)| == |entries| {
        assert |Join(init)| == |init|;
      }
    }
  }

  lemma {:induction false} JoinLower(entries: seq<string>)
    requires forall i :: 0 <= i < |entries| ==> AllLower(entries[i])
    ensures AllLower(Join(entries))
  {
    if entries != [] {
      JoinLower(entries[..|entries| - 1]);
    }
  }

  /** Some shift of the column scores below the 9999 sentinel. */
  predicate BelowSentinel(column: string)
    requires AllLower(column) && |column| > 0
  {
    exists m :: 0 <= m < AlphabetSize && Scores(column)[m] < InitialScore
  }

  lemma EntryShape(column: string)
    requires AllLower(column) && |column| > 0
    ensures |KeyEntry(column)| <= 1 && AllLower(KeyEntry(column))
    ensures |KeyEntry(column)| == 1 <==> BelowSentinel(column)
    ensures |KeyEntry(column)| == 1 ==>
              IsFirstMinimumBelow(Scores(column), InitialScore, Index(KeyEntry(column)[0]))
  {
    KeyEntryMeaning(column);
  }

  /** The recovered key is a-z and has at most one letter per stream; it has
      exactly one per stream, the stream's letter at the stream's position,
      precisely when every stream has a shift scoring below 9999. */
  lemma RecoveredKeyShape(streams: seq<string>)
    requires ScorableStreams(streams)
    ensures AllLower(RecoveredKey(streams))
    ensures |RecoveredKey(streams)| <= |streams|
    ensures |RecoveredKey(streams)| == |streams| <==>
              forall i :: 0 <= i < |streams| ==> BelowSentinel(streams[i])
    ensures |RecoveredKey(streams)| == |streams| ==>
              forall i :: 0 <= i < |streams| ==>
                IsFirstMinimumBelow(Scores(streams[i]), InitialScore, Index(RecoveredKey(streams)[i]))
  {
    var entries := KeyEntries(streams);
    forall i | 0 <= i < |streams|
      ensures |entries[i]| <= 1 && AllLower(entries[i])
      ensures |entries[i]| == 1 <==> BelowSentinel(streams[i])
      ensures |entries[i]| == 1 ==>
                IsFirstMinimumBelow(Scores(streams[i]), InitialScore, Index(entries[i][0]))
    {
      EntryShape(streams[i]);
    }
    JoinShort(entries);
    JoinLower(entries);
  }

  /** Once the shift is right, the deciphered stream is the plain stream: the
      score of a Caesar-enciphered stream at its own key letter is the
      chi-squared of the plain stream. */
  lemma ScoreAtTrueShift(plain: string, key: char)
    requires AllLower(plain) && |plain| > 0 && IsLower(key)
    ensures Scores(Encipher(plain, key))[Index(key)] == ChiSquaredOf(plain)
  {
    DecipherEncipherColumn(plain, key);
  }

  /** The outcome of `find_key`: a key, the `TypeError` of passing `None` on as
      a key length, or the `ZeroDivisionError` of the key-length search. */
  datatype KeyResult = Key(key: string) | NoKeyLength | DivisionByZero(keyLen: nat)

  /** The columns of long-enough a-z text are a-z and not empty. */
  lemma ColumnsScorable(s: string, k: nat)
    requires AllLower(s) && k >= 1 && ColumnsLongEnough(s, k)
    ensures ScorableStreams(Columns(s, k))
  {
    forall j | 0 <= j < k
      ensures AllLower(Column(s, k, j))
    {
      ColumnAt(s, k, j);
    }
  }

  /** The key-assembling part of `find_key` (script.py:117-133): a list
      pre-filled with "a", entry `i` overwritten by the recovery of stream `i`,
      then joined. */
  method RecoverKey(ceasaredStrings: seq<string>) returns (joined: string)
    requires ScorableStreams(ceasaredStrings)
    ensures joined == RecoveredKey(ceasaredStrings)
  {
    var keyLen := |ceasaredStrings|;
    var key := new string[keyLen](_ => "a");
    for i := 0 to keyLen
      invariant forall j :: 0 <= j < i ==> key[j] == KeyEntry(ceasaredStrings[j])
    {
      var entry := RecoverColumn(ceasaredStrings[i]);
      key[i] := entry;
    }
    assert key[..] == KeyEntries(ceasaredStrings);
    joined := Join(key[..]);
  }

  /** `find_key`: normalise, find the key length, split the text into
      streams and recover the key from them. */
  method FindKey(text: string) returns (r: KeyResult)
    ensures var s := Sanitize(text);
      match KeyLengthSearch(s)
      case NotFound => r == NoKeyLength
      case ZeroDivision(k) => r == DivisionByZero(k)
      case Found(k) =>
        k >= 1 && ScorableStreams(Columns(s, k)) && r == Key(RecoveredKey(Columns(s, k)))
  {
    var inputString := Sanitize(text);
    SanitizeIdempotent(text);
    SanitizeLowerOnly(text);
    var keyLen := CalculateBestIoc(inputString);
    KeyLengthSearchMeaning(inputString);
    match keyLen
    case NotFound =>
      return NoKeyLength;
    case ZeroDivision(k) =>
      return DivisionByZero(k);
    case Found(k) =>
      ColumnsScorable(inputString, k);
      var ceasaredStrings := FormatIntoCaesar(inputString, k);
      var key := RecoverKey(ceasaredStrings);
      return Key(key);
  }
}
