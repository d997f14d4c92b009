/**
 * The analysis as a whole: build the direct map of the input files, close
 * it, invert it, and rank both maps. Printing the rows is not modelled.
 */
module Report {
  import opened Common
  import opened DirectDeps
  import opened Graph
  import opened Closure
  import opened Impacts
  import opened Ranking

  /** The (file, set) entries of m. */
  function EntrySet(m: DepMap): (s: set<Entry>)
    ensures forall e :: e in s <==> e.0 in m && e.1 == m[e.0]
  {
    set k | k in m :: (k, m[k])
  }

  /**
   * rows is a ranked report of m cut at n: no entry twice and nothing that
   * is not an entry; every entry when n is zero, otherwise min(n, |m|)
   * rows; largest first; and every entry left out is no larger than any
   * row kept.
   */
  ghost predicate IsReport(m: DepMap, n: nat, rows: seq<Entry>)
  {
    && |rows| == (if 0 < n < |m| then n else |m|)
    && multiset(rows) <= multiset(EntrySet(m))
    && (n == 0 ==> multiset(rows) == multiset(EntrySet(m)))
    && BySizeDescending(rows)
    && (forall e, i :: e in EntrySet(m) && e !in rows && 0 <= i < |rows| ==> |e.1| <= |rows[i].1|)
  }

  /** The (file, set) entries of m listed one by one: each entry once, in some order. */
  method EntriesOf(m: DepMap) returns (items: seq<Entry>)
    ensures |items| == |m|
    ensures multiset(items) == multiset(EntrySet(m))
  {
    items := [];
    var keys := m.Keys;
    while keys != {}
      invariant keys <= m.Keys
      invariant |items| + |keys| == |m|
      invariant multiset(items) == multiset(EntrySet(m - keys))
      decreases keys
    {
      var k :| k in keys;
      keys := keys - {k};
      items := items + [(k, m[k])];
    }
  }

  /** One ranked section of the output: sort the items by set size,
      largest first, and keep the first n when n is positive. */
  method RankMap(m: DepMap, n: nat) returns (rows: seq<Entry>)
    ensures IsReport(m, n, rows)
  {
    var items := EntriesOf(m);
    rows := Rank(items, n);
    RankKeepsLargest(items, n);
    forall e, i | e in EntrySet(m) && e !in rows && 0 <= i < |rows|
      ensures |e.1| <= |rows[i].1|
    {
      assert e in multiset(items) - multiset(rows);
      assert rows[i] in rows;
    }
  }

  /**
   * The whole analysis. The dependency rows rank the closure of the direct
   * map of the files, and the impact rows rank its inverse.
   */
  method Analyze(files: seq<Path>, prefixes: seq<Path>, host: Host, numDeps: nat, numImpacts: nat)
    returns (depRows: seq<Entry>, impactRows: seq<Entry>)
    ensures IsReport(ClosureOf(DirectMap(files, prefixes, host)), numDeps, depRows)
    ensures IsReport(Inverse(ClosureOf(DirectMap(files, prefixes, host))), numImpacts, impactRows)
  {
    var direct := BuildDirectDeps(files, prefixes, host);
    var closed, finished := EncloseDependencies(direct);
    var impacts := InvertDependencies(closed);
    depRows := RankMap(closed, numDeps);
    impactRows := RankMap(impacts, numImpacts);
  }

  /**
   * Every analysed file depends on itself after closure, so inverting the
   * impact map gives the dependency map back: a file's closed set is
   * exactly the set of files whose impact sets contain it.
   */
  lemma ImpactsInvertBack(files: seq<Path>, prefixes: seq<Path>, host: Host)
    ensures var closed := ClosureOf(DirectMap(files, prefixes, host));
      (forall f :: f in closed ==> f in closed[f]) && Inverse(Inverse(closed)) == closed
  {
    var direct := DirectMap(files, prefixes, host);
    ClosureKeepsSelf(direct);
    InverseTwice(ClosureOf(direct));
  }
}
