/**
 * The ranker: the entries of a map, sorted by the size of their sets,
 * largest first, and cut to the first N rows when N is positive.
 */
module Ranking {
  import opened Common

  /** One row of a report: a file and its set. */
  type Entry = (Path, set<Path>)

  /** Set sizes never increase along s. */
  predicate BySizeDescending(s: seq<Entry>)
  {
    forall i, j :: 0 <= i < j < |s| ==> |s[i].1| >= |s[j].1|
  }

  /**
   * Insert x after every row at least as large as x.
   */
  function Insert(x: Entry, s: seq<Entry>): (r: seq<Entry>)
    ensures |r| == |s| + 1
    ensures multiset(r) == multiset(s) + multiset{x}
  {
    if s == [] || |x.1| > |s[0].1| then [x] + s
    else
      MultisetSplit(s);
      [s[0]] + Insert(x, s[1..])
  }

  lemma MultisetSplit(s: seq<Entry>)
    requires s != []
    ensures multiset(s) == multiset{s[0]} + multiset(s[1..])
  {
    assert s == [s[0]] + s[1..];
  }

  /** No row of s is larger than b. */
  predicate AtMost(s: seq<Entry>, b: nat)
  {
    forall i :: 0 <= i < |s| ==> |s[i].1| <= b
  }

  lemma {:induction false} InsertAtMost(x: Entry, s: seq<Entry>, b: nat)
    requires AtMost(s, b) && |x.1| <= b
    ensures AtMost(Insert(x, s), b)
  {
    if s != [] && |x.1| <= |s[0].1| {
      InsertAtMost(x, s[1..], b);
      var r := Insert(x, s);
      assert forall i :: 1 <= i < |r| ==> r[i] == Insert(x, s[1..])[i - 1];
    }
  }

  lemma {:induction false} InsertKeepsOrder(x: Entry, s: seq<Entry>)
    requires BySizeDescending(s)
    ensures BySizeDescending(Insert(x, s))
  {
    if s == [] || |x.1| > |s[0].1| {
      var r := Insert(x, s);
      assert forall i :: 1 <= i < |r| ==> r[i] == s[i - 1];
    } else {
      var t := Insert(x, s[1..]);
      InsertKeepsOrder(x, s[1..]);
      InsertAtMost(x, s[1..], |s[0].1|);
      var r := Insert(x, s);
      assert forall i :: 1 <= i < |r| ==> r[i] == t[i - 1];
    }
  }

  /**
   * Sorting by set size, largest first. Rows of equal size come later
   * input first, which is the order a stable ascending sort followed by a
   * reversal gives.
   */
  function SortBySize(s: seq<Entry>): (r: seq<Entry>)
    ensures |r| == |s|
    ensures multiset(r) == multiset(s)
    ensures BySizeDescending(r)
  {
    if s == [] then []
    else
      var t := SortBySize(s[1..]);
      InsertKeepsOrder(s[0], t);
      MultisetSplit(s);
      Insert(s[0], t)
  }

  /**
   * The ranked report of a list of rows: all of them when n is zero, the
   * first n of the sorted order otherwise.
   */
  function Rank(entries: seq<Entry>, n: nat): (r: seq<Entry>)
    ensures |r| == if 0 < n < |entries| then n else |entries|
    ensures r == SortBySize(entries)[..|r|]
    ensures BySizeDescending(r)
    ensures multiset(r) <= multiset(entries)
    ensures n == 0 ==> multiset(r) == multiset(entries)
  {
    var sorted := SortBySize(entries);
    if 0 < n < |sorted| then
      assert sorted == sorted[..n] + sorted[n..];
      sorted[..n]
    else sorted
  }

  /**
   * What the cut drops is no larger than what it keeps: the report holds
   * the n largest rows.
   */
  lemma RankKeepsLargest(entries: seq<Entry>, n: nat)
    ensures forall e, k :: e in multiset(entries) - multiset(Rank(entries, n)) && k in Rank(entries, n) ==>
      |e.1| <= |k.1|
  {
    var sorted := SortBySize(entries);
    var r := Rank(entries, n);
    assert r == sorted[..|r|];
    CutKeepsLargest(sorted, |r|);
  }

  /** In a list sorted largest first, no row after position c is larger
      than a row before it. */
  lemma CutKeepsLargest(sorted: seq<Entry>, c: nat)
    requires c <= |sorted| && BySizeDescending(sorted)
    ensures forall e, k :: e in multiset(sorted) - multiset(sorted[..c]) && k in sorted[..c] ==>
      |e.1| <= |k.1|
  {
    SplitMultiset(sorted, c);
    forall e, k | e in multiset(sorted) - multiset(sorted[..c]) && k in sorted[..c]
      ensures |e.1| <= |k.1|
    {
      assert e in multiset(sorted[c..]);
      var j :| c <= j < |sorted| && sorted[j] == e;
      var i :| 0 <= i < c && sorted[i] == k;
    }
  }

  lemma SplitMultiset(s: seq<Entry>, c: nat)
    requires c <= |s|
    ensures multiset(s) == multiset(s[..c]) + multiset(s[c..])
  {
    assert s == s[..c] + s[c..];
  }
}
