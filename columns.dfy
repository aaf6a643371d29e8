/** Column (Caesar-stream) decomposition. script.py does this twice: the
    `while` loop of `calculate_best_ioc` ("start at j, step k, stop at the
    length") and `format_into_ceasar` ("character i goes to list i mod k").
    Both are proved equal to the same function, `Columns`. */
module ColumnSplitter {
  import opened Arithmetic

  /** Column `j` of `s` for key length `k`: s[j], s[j+k], s[j+2k], ... */
  function Column(s: string, k: nat, j: nat): string
    requires k >= 1
    decreases |s| - j
  {
    if j >= |s| then [] else [s[j]] + Column(s, k, j + k)
  }

  /** The `k` streams of `s`, in column order. */
  function Columns(s: string, k: nat): (streams: seq<string>)
    requires k >= 1
    ensures |streams| == k
  {
    seq(k, j requires 0 <= j < k => Column(s, k, j))
  }

  /** Sum of the lengths of a list of strings. */
  function TotalLength(xs: seq<string>): nat {
    if xs == [] then 0 else TotalLength(xs[..|xs| - 1]) + |xs[|xs| - 1]|
  }

  /** Column `j` is no longer than the positions j, j+k, j+2k, ... below |s| allow,
      and reaches at least up to the end. */
  lemma {:induction false} ColumnLength(s: string, k: nat, j: nat)
    requires k >= 1
    ensures j + |Column(s, k, j)| * k >= |s|
    ensures |Column(s, k, j)| > 0 ==> j + (|Column(s, k, j)| - 1) * k < |s|
    decreases |s| - j
  {
    if j < |s| {
      ColumnLength(s, k, j + k);
      var n := |Column(s, k, j + k)|;
      MulSucc(n, k);
      if n > 0 {
        MulSucc(n - 1, k);
      }
    }
  }

  /** Entry `n` of column `j` is `s[j + n * k]`. */
  lemma {:induction false} ColumnIndex(s: string, k: nat, j: nat, n: nat)
    requires k >= 1 && n < |Column(s, k, j)|
    ensures j + n * k < |s| && Column(s, k, j)[n] == s[j + n * k]
    decreases n
  {
    if n > 0 {
      ColumnIndex(s, k, j + k, n - 1);
      MulSucc(n - 1, k);
    }
  }

  /** Column `j` holds exactly the characters at positions j, j+k, j+2k, ...
      below |s|, in that order. */
  lemma ColumnAt(s: string, k: nat, j: nat)
    requires k >= 1
    ensures forall n :: 0 <= n < |Column(s, k, j)| ==>
              j + n * k < |s| && Column(s, k, j)[n] == s[j + n * k]
    ensures j + |Column(s, k, j)| * k >= |s|
  {
    ColumnLength(s, k, j);
    forall n | 0 <= n < |Column(s, k, j)|
      ensures j + n * k < |s| && Column(s, k, j)[n] == s[j + n * k]
    {
      ColumnIndex(s, k, j, n);
    }
  }

  /** Character `i` of `s` is entry `i / k` of column `i % k`. */
  lemma ColumnPosition(s: string, k: nat, i: nat)
    requires k >= 1 && i < |s|
    ensures i / k < |Column(s, k, i % k)|
    ensures Column(s, k, i % k)[i / k] == s[i]
  {
    var r, q := i % k, i / k;
    assert i == r + q * k;
    var col := Column(s, k, r);
    ColumnLength(s, k, r);
    assert |col| * k > q * k;
    MulCancel(|col|, q, k);
    ColumnIndex(s, k, r, q);
  }

  /** Appending a character to `s` extends exactly the column it falls into. */
  lemma {:induction false} ColumnSnoc(s: string, c: char, k: nat, j: nat)
    requires k >= 1
    ensures Column(s + [c], k, j) ==
            Column(s, k, j) + (if j <= |s| && (|s| - j) % k == 0 then [c] else [])
    decreases |s| - j
  {
    if j < |s| {
      ColumnSnoc(s, c, k, j + k);
      assert (s + [c])[j] == s[j];
      if j + k <= |s| {
        ModMinusStride(|s| - j, k);
      } else {
        DivModUnique(|s| - j, k, 0, |s| - j);
      }
    } else if j == |s| {
      DivModUnique(0, k, 0, 0);
      assert Column(s + [c], k, j) == [c] + Column(s + [c], k, j + k);
    }
  }

  /** Appending the `i`-th character updates only stream `i % k`. */
  lemma ColumnsSnoc(s: string, c: char, k: nat)
    requires k >= 1
    ensures Columns(s + [c], k) ==
            Columns(s, k)[|s| % k := Columns(s, k)[|s| % k] + [c]]
  {
    forall j | 0 <= j < k
      ensures Columns(s + [c], k)[j] ==
              Columns(s, k)[|s| % k := Columns(s, k)[|s| % k] + [c]][j]
    {
      ColumnSnoc(s, c, k, j);
      ColumnOfLastIndex(|s|, k, j);
    }
  }

  lemma {:induction false} TotalLengthUpdate(xs: seq<string>, p: nat, c: char)
    requires p < |xs|
    ensures TotalLength(xs[p := xs[p] + [c]]) == TotalLength(xs) + 1
  {
    var ys := xs[p := xs[p] + [c]];
    if p < |xs| - 1 {
      assert ys[..|ys| - 1] == xs[..|xs| - 1][p := xs[p] + [c]];
      TotalLengthUpdate(xs[..|xs| - 1], p, c);
    } else {
      assert ys[..|ys| - 1] == xs[..|xs| - 1];
    }
  }

  lemma {:induction false} AllEmptyTotal(xs: seq<string>)
    requires forall i :: 0 <= i < |xs| ==> xs[i] == []
    ensures TotalLength(xs) == 0
  {
    if xs != [] {
      AllEmptyTotal(xs[..|xs| - 1]);
    }
  }

  /** Every character lands in exactly one stream: the stream lengths sum to |s|. */
  lemma {:induction false} ColumnsPartition(s: string, k: nat)
    requires k >= 1
    ensures TotalLength(Columns(s, k)) == |s|
    decreases |s|
  {
    if s == [] {
      AllEmptyTotal(Columns(s, k));
    } else {
      var t := s[..|s| - 1];
      assert s == t + [s[|s| - 1]];
      ColumnsPartition(t, k);
      ColumnsSnoc(t, s[|s| - 1], k);
      TotalLengthUpdate(Columns(t, k), |t| % k, s[|s| - 1]);
    }
  }

  /** The interval string of `calculate_best_ioc`: starting at index `j`,
      append `s[index]` and step by `k` until the index passes the end. */
  method Interval(s: string, k: nat, j: nat) returns (intervals: string)
    requires k >= 1
    ensures intervals == Column(s, k, j)
  {
    intervals := "";
    var index := j;
    while index < |s|
      invariant j <= index
      invariant intervals + Column(s, k, index) == Column(s, k, j)
      decreases |s| - index
    {
      assert Column(s, k, index) == [s[index]] + Column(s, k, index + k);
      intervals := intervals + [s[index]];
      index := index + k;
    }
  }

  /** The `strings` list of `calculate_best_ioc` (script.py:54-64): one
      interval string per column, in column order. */
  method IntervalStrings(s: string, k: nat) returns (strings: seq<string>)
    requires k >= 1
    ensures strings == Columns(s, k)
  {
    strings := [];
    for j := 0 to k
      invariant |strings| == j
      invariant forall m :: 0 <= m < j ==> strings[m] == Column(s, k, m)
    {
      var intervals := Interval(s, k, j);
      strings := strings + [intervals];
    }
  }

  /** `format_into_ceasar`: `k` pre-allocated lists, character `i` appended
      to list `i % k`. */
  method FormatIntoCaesar(s: string, k: nat) returns (returnStrings: seq<string>)
    requires k >= 1
    ensures returnStrings == Columns(s, k)
  {
    returnStrings := seq(k, _ => []);
    for i := 0 to |s|
      invariant |returnStrings| == k
      invariant forall j :: 0 <= j < k ==> returnStrings[j] == Column(s[..i], k, j)
    {
      assert s[..i + 1] == s[..i] + [s[i]];
      ColumnsSnoc(s[..i], s[i], k);
      assert Columns(s[..i], k) == returnStrings;
      returnStrings := returnStrings[i % k := returnStrings[i % k] + [s[i]]];
      assert Columns(s[..i + 1], k) == returnStrings;
    }
    assert s[..|s|] == s;
  }
}
