/**
 * The closure engine: a chaotic fixed-point iteration that expands every
 * entry of the dependency map, in place, to everything reachable from it.
 * Passes are repeated over the entries not yet finished; an entry whose
 * set did not grow during its pass is finished and skipped from then on.
 */
module Closure {
  import opened Common
  import opened Graph

  /** The union of the sets of the members of s that are keys of m. */
  function Absorbed(m: DepMap, s: set<Path>): (r: set<Path>)
  {
    set d, e | d in s && d in m && e in m[d] :: e
  }

  /** A file is absorbed exactly when it lies in the set of some member of s
      that is a key; members that are not keys contribute nothing. */
  lemma AbsorbedMeaning(m: DepMap, s: set<Path>)
    ensures forall e :: e in Absorbed(m, s) <==> exists d :: d in s && d in m && e in m[d]
    ensures forall d :: d in s && d in m ==> m[d] <= Absorbed(m, s)
  {
  }

  lemma AbsorbedAdd(m: DepMap, s: set<Path>, x: Path)
    ensures Absorbed(m, s + {x}) == Absorbed(m, s) + (if x in m then m[x] else {})
  {
  }

  /** Absorbing from a map whose sets are larger absorbs at least as much. */
  lemma AbsorbedMono(m0: DepMap, m1: DepMap, s: set<Path>)
    requires m0.Keys == m1.Keys
    requires forall k :: k in m0 ==> m0[k] <= m1[k]
    ensures Absorbed(m0, s) <= Absorbed(m1, s)
  {
  }

  /** The (key, file) pairs of keys x universe that are not yet in the map. */
  ghost function Missing(m: DepMap, u: set<Path>): (r: set<(Path, Path)>)
    ensures forall k, d :: (k, d) in r <==> k in m && d in u && d !in m[k]
  {
    set k, d | k in m && d in u && d !in m[k] :: (k, d)
  }

  /**
   * What holds between passes. The map keeps the keys of the direct map and
   * extends its sets; every member of a set is reachable in the direct map
   * (and so lies in its universe); and every finished set is closed.
   */
  ghost predicate Inv(init: DepMap, deps: DepMap, finished: set<Path>)
  {
    && deps.Keys == init.Keys
    && finished <= deps.Keys
    && (forall k :: k in init ==> init[k] <= deps[k])
    && (forall k :: k in deps ==> deps[k] <= Members(init))
    && (forall k, d :: k in deps && d in deps[k] ==> Reaches(init, k, d))
    && (forall k :: k in finished ==> ClosedAt(deps, k))
  }

  lemma InvInit(init: DepMap)
    ensures Inv(init, init, {})
  {
    forall k, d | k in init && d in init[k]
      ensures Reaches(init, k, d)
    {
      ReachesStep(init, k, d);
    }
  }

  /** A pointwise growth inside the universe shrinks Missing, strictly when some set grew. */
  lemma MissingShrinks(m0: DepMap, m1: DepMap, u: set<Path>)
    requires m0.Keys == m1.Keys
    requires forall k :: k in m0 ==> m0[k] <= m1[k] <= u
    ensures Missing(m1, u) <= Missing(m0, u)
    ensures m1 != m0 ==> Missing(m1, u) < Missing(m0, u)
  {
    if m1 != m0 {
      var k :| k in m0 && m0[k] != m1[k];
      assert !(m1[k] <= m0[k]);
      var d :| d in m1[k] && d !in m0[k];
      assert (k, d) in Missing(m0, u) - Missing(m1, u);
    }
  }

  lemma {:induction false} SubsetSize(a: set<Path>, b: set<Path>)
    requires a <= b
    ensures |a| <= |b|
    decreases a
  {
    if a != {} {
      var x :| x in a;
      SubsetSize(a - {x}, b - {x});
    }
  }

  lemma SameSizeSubsetIsEqual(a: set<Path>, b: set<Path>)
    requires a <= b && |a| == |b|
    ensures a == b
  {
    if a != b {
      assert !(b <= a);
      var x :| x in b && x !in a;
      SubsetSize(a, b - {x});
    }
  }

  /**
   * One union step keeps the invariant: absorbing the sets of the key
   * members of an unfinished entry keeps every set reachable and every
   * finished set closed, since whatever enters a set that a finished set
   * contains is already in the finished set.
   */
  lemma ExpandKeepsInv(init: DepMap, deps: DepMap, finished: set<Path>, key: Path)
    requires Inv(init, deps, finished)
    requires key in deps && key !in finished
    ensures var after := deps[key := deps[key] + Absorbed(deps, deps[key])];
      Inv(init, after, finished)
  {
    var after := deps[key := deps[key] + Absorbed(deps, deps[key])];
    forall e | e in Absorbed(deps, deps[key])
      ensures Reaches(init, key, e) && e in Members(init)
    {
      var d :| d in deps[key] && d in deps && e in deps[d];
      ReachesTrans(init, key, d, e);
    }
    forall s | s in finished
      ensures ClosedAt(after, s)
    {
      assert ClosedAt(deps, s);
      if key in after[s] {
        forall d | d in deps[key] && d in deps
          ensures deps[d] <= deps[s]
        {
        }
      }
    }
  }

  /** An entry whose size the union step left unchanged absorbed nothing
      new, and it is closed. */
  lemma StableStep(init: DepMap, deps: DepMap, finished: set<Path>, key: Path)
    requires Inv(init, deps, finished)
    requires key in deps
    requires |deps[key] + Absorbed(deps, deps[key])| == |deps[key]|
    ensures deps[key := deps[key] + Absorbed(deps, deps[key])] == deps
    ensures Inv(init, deps, finished + {key})
  {
    var grown := deps[key] + Absorbed(deps, deps[key]);
    SameSizeSubsetIsEqual(deps[key], grown);
    UpdateSame(deps, key, grown);
    AbsorbedIsClosed(deps, key);
    InvAddFinished(init, deps, finished, key);
  }

  lemma UpdateSame(m: DepMap, k: Path, v: set<Path>)
    requires k in m && m[k] == v
    ensures m[k := v] == m
  {
  }

  lemma InvAddFinished(init: DepMap, deps: DepMap, finished: set<Path>, key: Path)
    requires Inv(init, deps, finished)
    requires key in deps && ClosedAt(deps, key)
    ensures Inv(init, deps, finished + {key})
  {
  }

  lemma AbsorbedIsClosed(deps: DepMap, key: Path)
    requires key in deps
    requires Absorbed(deps, deps[key]) <= deps[key]
    ensures ClosedAt(deps, key)
  {
  }

  /**
   * The inner loop over a snapshot of one entry's set: the set of every
   * member that is a key is unioned into the entry; members that are not
   * keys are left alone. No other entry changes.
   */
  method ExpandEntry(deps: DepMap, key: Path) returns (deps': DepMap)
    requires key in deps
    ensures deps' == deps[key := deps[key] + Absorbed(deps, deps[key])]
  {
    deps' := deps;
    var pending := deps[key];
    while pending != {}
      invariant pending <= deps[key]
      invariant Expanding(deps, key, deps[key] - pending, deps')
      decreases pending
    {
      var dep :| dep in pending;
      ExpandStep(deps, key, deps[key] - pending, deps', dep);
      assert deps[key] - (pending - {dep}) == (deps[key] - pending) + {dep};
      pending := pending - {dep};
      if dep in deps' {
        deps' := deps'[key := deps'[key] + deps'[dep]];
      }
    }
    assert deps[key] - pending == deps[key];
    ExpandDone(deps, key, deps');
  }

  /** Part way through the inner loop: the members in `done` have been absorbed. */
  ghost predicate Expanding(deps: DepMap, key: Path, done: set<Path>, cur: DepMap)
    requires key in deps
  {
    && cur.Keys == deps.Keys
    && (forall k :: k in deps && k != key ==> cur[k] == deps[k])
    && cur[key] == deps[key] + Absorbed(deps, done)
  }

  lemma ExpandStep(deps: DepMap, key: Path, done: set<Path>, cur: DepMap, dep: Path)
    requires key in deps && Expanding(deps, key, done, cur)
    ensures var next := if dep in cur then cur[key := cur[key] + cur[dep]] else cur;
      Expanding(deps, key, done + {dep}, next)
  {
    AbsorbedAdd(deps, done, dep);
  }

  lemma ExpandDone(deps: DepMap, key: Path, cur: DepMap)
    requires key in deps && Expanding(deps, key, deps[key], cur)
    ensures cur == deps[key := deps[key] + Absorbed(deps, deps[key])]
  {
    var want := deps[key := deps[key] + Absorbed(deps, deps[key])];
    assert forall k :: k in cur ==> cur[k] == want[k];
  }

  /**
   * The body of a pass for one entry. A finished entry is skipped; for the
   * others the size before the union step is recorded and the entry is
   * finished when the size is unchanged after it. Only this entry's set
   * changes, and it only grows.
   */
  method VisitEntry(ghost init: DepMap, deps: DepMap, finished: set<Path>, key: Path)
    returns (deps': DepMap, finished': set<Path>)
    requires Inv(init, deps, finished)
    requires key in deps
    ensures Inv(init, deps', finished')
    ensures deps'.Keys == deps.Keys
    ensures forall k :: k in deps && k != key ==> deps'[k] == deps[k]
    ensures deps[key] <= deps'[key]
    ensures key in finished ==> deps' == deps && finished' == finished
    ensures key !in finished ==> deps' == deps[key := deps[key] + Absorbed(deps, deps[key])]
    ensures key !in finished ==> (finished' == finished + {key} <==> deps' == deps)
    ensures finished <= finished' <= finished + {key}
    ensures deps' == deps ==> key in finished'
  {
    if key in finished {
      return deps, finished;
    }
    var lastLen := |deps[key]|;
    ExpandKeepsInv(init, deps, finished, key);
    deps' := ExpandEntry(deps, key);
    finished' := finished;
    if |deps'[key]| == lastLen {
      StableStep(init, deps, finished, key);
      finished' := finished' + {key};
    }
  }

  /**
   * The progress of a pass over `deps` with `todo` still to visit: the
   * entries still to visit are as they were, and each visited entry is
   * finished exactly when it was finished before the pass or its set did
   * not change when it was visited.
   */
  ghost predicate PassSoFar(deps: DepMap, finished: set<Path>, cur: DepMap, done: set<Path>, todo: set<Path>)
  {
    && cur.Keys == deps.Keys
    && todo <= deps.Keys
    && (forall k :: k in todo ==> cur[k] == deps[k] && (k in done <==> k in finished))
    && (forall k :: k in deps && k !in todo ==> (k in done <==> k in finished || cur[k] == deps[k]))
  }

  /** Visiting one entry of `todo` keeps the progress of the pass. */
  lemma PassStep(deps: DepMap, finished: set<Path>, d0: DepMap, f0: set<Path>, d1: DepMap, f1: set<Path>,
                 key: Path, todo: set<Path>)
    requires PassSoFar(deps, finished, d0, f0, todo)
    requires key in todo
    requires d1.Keys == d0.Keys
    requires forall k :: k in d0 && k != key ==> d1[k] == d0[k]
    requires key in f0 ==> d1 == d0 && f1 == f0
    requires key !in f0 ==> (f1 == f0 + {key} <==> d1 == d0)
    requires f0 <= f1 <= f0 + {key}
    ensures PassSoFar(deps, finished, d1, f1, todo - {key})
  {
    if d1[key] == d0[key] {
      assert forall k :: k in d1 ==> d1[k] == d0[k];
      assert d1 == d0;
    }
  }

  /**
   * One pass over all entries, in any order. Finished entries are skipped
   * and keep their sets; the others grow, and exactly those that did not
   * grow are added to the finished set. A pass that changes nothing
   * finishes every entry.
   */
  method Pass(ghost init: DepMap, deps: DepMap, finished: set<Path>)
    returns (deps': DepMap, finished': set<Path>)
    requires Inv(init, deps, finished)
    ensures Inv(init, deps', finished')
    ensures finished <= finished'
    ensures forall k :: k in deps ==> deps[k] <= deps'[k]
    ensures forall k :: k in finished ==> deps'[k] == deps[k]
    ensures forall k :: k in finished' - finished ==> deps'[k] == deps[k]
    ensures forall k :: k in deps ==> (k in finished' <==> k in finished || deps'[k] == deps[k])
    ensures forall k :: k in deps && k !in finished ==> deps[k] + Absorbed(deps, deps[k]) <= deps'[k]
    ensures deps' == deps ==> finished' == deps.Keys
  {
    deps', finished' := deps, finished;
    var todo := deps.Keys;
    while todo != {}
      invariant todo <= deps.Keys
      invariant Inv(init, deps', finished')
      invariant finished <= finished'
      invariant forall k :: k in deps ==> deps[k] <= deps'[k]
      invariant forall k :: k in finished ==> deps'[k] == deps[k]
      invariant PassSoFar(deps, finished, deps', finished', todo)
      invariant forall k :: k in deps && k !in finished && k !in todo ==> deps[k] + Absorbed(deps, deps[k]) <= deps'[k]
      decreases todo
    {
      var key :| key in todo;
      ghost var d0, f0 := deps', finished';
      AbsorbedMono(deps, deps', deps[key]);
      deps', finished' := VisitEntry(init, deps', finished', key);
      PassStep(deps, finished, d0, f0, deps', finished', key, todo);
      todo := todo - {key};
    }
  }

  /**
   * The closure loop. It terminates, with every entry finished; it never
   * adds or removes a key and never removes a member; and the resulting
   * set of every file is exactly what that file reaches in the direct map.
   */
  method EncloseDependencies(init: DepMap) returns (deps: DepMap, finished: set<Path>)
    ensures deps.Keys == init.Keys && finished == init.Keys
    ensures forall k :: k in init ==> init[k] <= deps[k]
    ensures Closed(deps)
    ensures deps == ClosureOf(init)
  {
    deps, finished := init, {};
    ghost var u := Members(init);
    InvInit(init);
    while |finished| != |deps|
      invariant Inv(init, deps, finished)
      decreases Missing(deps, u), deps.Keys - finished
    {
      ghost var deps0, finished0 := deps, finished;
      deps, finished := Pass(init, deps, finished);
      MissingShrinks(deps0, deps, u);
      if deps == deps0 {
        assert finished0 != deps.Keys;
      }
    }
    if finished != deps.Keys {
      SameSizeSubsetIsEqual(finished, deps.Keys);
    }
    FinishedIsClosure(init, deps);
  }

  /**
   * Once every entry is finished, the map is the closure: sound because
   * every member is reachable, complete because a closed extension of the
   * direct map holds everything reachable.
   */
  lemma FinishedIsClosure(init: DepMap, deps: DepMap)
    requires Inv(init, deps, deps.Keys)
    ensures Closed(deps)
    ensures deps == ClosureOf(init)
  {
    forall k, d | k in deps && Reaches(init, k, d)
      ensures d in deps[k]
    {
      ClosedCoversReach(init, deps, k, d);
    }
    var c := ClosureOf(init);
    assert forall k :: k in deps ==> deps[k] == c[k];
  }
}
