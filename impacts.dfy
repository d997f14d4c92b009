/**
 * The impact inverter: the reverse graph of a dependency map. The impact
 * set of a file d holds every source whose dependency set contains d, that
 * is, every source that must be rebuilt when d changes.
 */
module Impacts {
  import opened Common

  /** The reverse graph of m, as a reference definition. */
  function Inverse(m: DepMap): (r: DepMap)
    ensures r.Keys == Members(m)
    ensures forall d, f :: d in r ==> (f in r[d] <==> f in m && d in m[f])
  {
    map d | d in Members(m) :: set f | f in m && d in m[f]
  }

  /**
   * Inverting twice gives back a map whose every key is in its own set:
   * the impacts of the impact map are the dependencies.
   */
  lemma InverseTwice(m: DepMap)
    requires forall k :: k in m ==> k in m[k]
    ensures Inverse(Inverse(m)) == m
  {
    var r := Inverse(Inverse(m));
    InverseTwiceKeys(m);
    assert r.Keys == m.Keys;
    forall f | f in m
      ensures r[f] == m[f]
    {
      InverseTwiceAt(m, f);
    }
    SameEntries(r, m);
  }

  lemma SameEntries(a: DepMap, b: DepMap)
    requires a.Keys == b.Keys
    requires forall k :: k in a ==> a[k] == b[k]
    ensures a == b
  {
  }

  lemma InverseTwiceKeys(m: DepMap)
    requires forall k :: k in m ==> k in m[k]
    ensures Members(Inverse(m)) == m.Keys
  {
    var i := Inverse(m);
    forall f | f in m
      ensures f in Members(i)
    {
      assert f in i && f in i[f];
    }
    ImpactMembersAreKeys(m);
  }

  lemma ImpactMembersAreKeys(m: DepMap)
    ensures Members(Inverse(m)) <= m.Keys
  {
    ImpactsAreKeys(m);
    MembersWithin(Inverse(m), m.Keys);
  }

  lemma ImpactsAreKeys(m: DepMap)
    ensures forall d :: d in Inverse(m) ==> Inverse(m)[d] <= m.Keys
  {
  }

  lemma MembersWithin(m: DepMap, s: set<Path>)
    requires forall k :: k in m ==> m[k] <= s
    ensures Members(m) <= s
  {
  }

  lemma InverseTwiceAt(m: DepMap, f: Path)
    requires f in m && f in Inverse(Inverse(m))
    ensures Inverse(Inverse(m))[f] == m[f]
  {
    var i := Inverse(m);
    forall d | d in m[f]
      ensures d in Inverse(i)[f]
    {
      assert f in i[d];
    }
  }

  /** The (source, dependency) pairs of m. */
  ghost function Edges(m: DepMap): (r: set<(Path, Path)>)
    ensures forall f, d :: (f, d) in r <==> f in m && d in m[f]
  {
    set f, d | f in m && d in m[f] :: (f, d)
  }

  /** impacts is the reverse graph of exactly the pairs in `pairs`. */
  ghost predicate InvertedPairs(impacts: DepMap, pairs: set<(Path, Path)>)
  {
    && (forall d :: d in impacts ==> impacts[d] != {})
    && (forall d, f :: d in impacts && f in impacts[d] ==> (f, d) in pairs)
    && (forall f, d :: (f, d) in pairs ==> d in impacts && f in impacts[d])
  }

  lemma InvertedAdd(impacts: DepMap, pairs: set<(Path, Path)>, f: Path, d: Path)
    requires InvertedPairs(impacts, pairs)
    ensures InvertedPairs(impacts[d := (if d in impacts then impacts[d] else {}) + {f}], pairs + {(f, d)})
  {
  }

  lemma InvertedAll(deps: DepMap, impacts: DepMap)
    requires InvertedPairs(impacts, Edges(deps))
    ensures impacts == Inverse(deps)
  {
    var r := Inverse(deps);
    forall d | d in impacts
      ensures d in r
    {
      var f :| f in impacts[d];
      assert (f, d) in Edges(deps);
    }
    forall d | d in r
      ensures d in impacts && impacts[d] == r[d]
    {
      var f :| f in deps && d in deps[f];
      assert (f, d) in Edges(deps);
    }
    assert impacts.Keys == r.Keys;
  }

  /**
   * The nested loop that fills the impact dictionary: for every source and
   * every member of its set, the source is added to the member's impact
   * set, creating it on first use.
   */
  method InvertDependencies(deps: DepMap) returns (impacts: DepMap)
    ensures impacts == Inverse(deps)
  {
    impacts := map[];
    ghost var pairs: set<(Path, Path)> := {};
    var todo := deps.Keys;
    while todo != {}
      invariant todo <= deps.Keys
      invariant InvertedPairs(impacts, pairs)
      invariant pairs <= Edges(deps)
      invariant forall f, d :: f in deps && f !in todo && d in deps[f] ==> (f, d) in pairs
      decreases todo
    {
      var key :| key in todo;
      todo := todo - {key};
      var pending := deps[key];
      while pending != {}
        invariant pending <= deps[key]
        invariant InvertedPairs(impacts, pairs)
        invariant pairs <= Edges(deps)
        invariant forall f, d :: f in deps && f !in todo && f != key && d in deps[f] ==> (f, d) in pairs
        invariant forall d :: d in deps[key] && d !in pending ==> (key, d) in pairs
        decreases pending
      {
        var dep :| dep in pending;
        pending := pending - {dep};
        InvertedAdd(impacts, pairs, key, dep);
        impacts := impacts[dep := (if dep in impacts then impacts[dep] else {}) + {key}];
        pairs := pairs + {(key, dep)};
      }
    }
    assert pairs == Edges(deps);
    InvertedAll(deps, impacts);
  }
}
