/**
 * Reachability in a dependency map: a file d is reachable from a key k
 * when a walk of at least one step leads from k to d, where a step goes
 * from a key to a member of its set. Files that are not keys have no
 * outgoing steps: they are leaves.
 */
module Graph {
  import opened Common

  /** Every step of p goes from a key to a member of that key's set. */
  ghost predicate IsWalk(m: DepMap, p: seq<Path>)
  {
    forall i :: 0 <= i < |p| - 1 ==> p[i] in m && p[i + 1] in m[p[i]]
  }

  /** b can be reached from a in one or more steps. */
  ghost predicate Reaches(m: DepMap, a: Path, b: Path)
  {
    exists p :: |p| >= 2 && p[0] == a && p[|p| - 1] == b && IsWalk(m, p)
  }

  /** The set of k contains the set of every key it contains. */
  predicate ClosedAt(m: DepMap, k: Path)
    requires k in m
  {
    forall d :: d in m[k] && d in m ==> m[d] <= m[k]
  }

  /** Every key's set is closed. */
  predicate Closed(m: DepMap)
  {
    forall k :: k in m ==> ClosedAt(m, k)
  }

  lemma ReachesStep(m: DepMap, a: Path, b: Path)
    requires a in m && b in m[a]
    ensures Reaches(m, a, b)
  {
    assert IsWalk(m, [a, b]);
  }

  /** Walks compose. */
  lemma ReachesTrans(m: DepMap, a: Path, b: Path, c: Path)
    requires Reaches(m, a, b) && Reaches(m, b, c)
    ensures Reaches(m, a, c)
  {
    var p :| |p| >= 2 && p[0] == a && p[|p| - 1] == b && IsWalk(m, p);
    var q :| |q| >= 2 && q[0] == b && q[|q| - 1] == c && IsWalk(m, q);
    var w := p + q[1..];
    forall i | 0 <= i < |w| - 1
      ensures w[i] in m && w[i + 1] in m[w[i]]
    {
      if i < |p| - 1 {
        assert w[i] == p[i] && w[i + 1] == p[i + 1];
      } else {
        assert w[i] == q[i - |p| + 1] && w[i + 1] == q[i - |p| + 2];
      }
    }
    assert |w| >= 2 && w[0] == a && w[|w| - 1] == c;
  }

  /** Whatever is reachable is mentioned in some set. */
  lemma ReachesMember(m: DepMap, a: Path, b: Path)
    requires Reaches(m, a, b)
    ensures b in Members(m)
  {
    var p :| |p| >= 2 && p[0] == a && p[|p| - 1] == b && IsWalk(m, p);
    assert p[|p| - 2] in m && b in m[p[|p| - 2]];
  }

  /** Along a walk from a, every later vertex lies in the closed set of a. */
  lemma {:induction false} WalkInside(init: DepMap, m: DepMap, p: seq<Path>, i: nat)
    requires m.Keys == init.Keys
    requires forall k :: k in init ==> init[k] <= m[k]
    requires Closed(m)
    requires IsWalk(init, p) && 1 <= i < |p|
    ensures p[i] in m[p[0]]
  {
    if i > 1 {
      WalkInside(init, m, p, i - 1);
      var x := p[i - 1];
      assert x in init && p[i] in init[x];
      assert ClosedAt(m, p[0]);
    } else {
      assert p[0] in init && p[1] in init[p[0]];
    }
  }

  /**
   * A closed map that extends init contains everything reachable in init:
   * the closure of a map is the least closed extension.
   */
  lemma ClosedCoversReach(init: DepMap, m: DepMap, a: Path, b: Path)
    requires m.Keys == init.Keys
    requires forall k :: k in init ==> init[k] <= m[k]
    requires Closed(m)
    requires Reaches(init, a, b)
    ensures b in m[a]
  {
    var p :| |p| >= 2 && p[0] == a && p[|p| - 1] == b && IsWalk(init, p);
    WalkInside(init, m, p, |p| - 1);
  }

  /**
   * A closed map is its own closure: closing it again changes no set
   * (the fixed-point property).
   */
  lemma ClosedIsFixedPoint(m: DepMap)
    requires Closed(m)
    ensures forall a, b :: a in m ==> (b in m[a] <==> Reaches(m, a, b))
  {
    forall a, b | a in m
      ensures b in m[a] <==> Reaches(m, a, b)
    {
      if b in m[a] {
        ReachesStep(m, a, b);
      }
      if Reaches(m, a, b) {
        ClosedCoversReach(m, m, a, b);
      }
    }
  }

  /** The transitive closure of m: every key mapped to what it reaches. */
  ghost function ClosureOf(m: DepMap): (c: DepMap)
    ensures c.Keys == m.Keys
    ensures forall k, d :: k in m ==> (d in c[k] <==> Reaches(m, k, d))
  {
    forall k, d | k in m && Reaches(m, k, d)
      ensures d in Members(m)
    {
      ReachesMember(m, k, d);
    }
    map k | k in m :: set d | d in Members(m) && Reaches(m, k, d)
  }

  /** The closure is closed. */
  lemma ClosureOfIsClosed(m: DepMap)
    ensures Closed(ClosureOf(m))
  {
    var c := ClosureOf(m);
    forall k, d | k in c && d in c[k] && d in c
      ensures c[d] <= c[k]
    {
      forall e | e in c[d]
        ensures e in c[k]
      {
        ReachesTrans(m, k, d, e);
      }
    }
  }

  /** A closed map is its own closure. */
  lemma ClosureOfClosed(m: DepMap)
    requires Closed(m)
    ensures ClosureOf(m) == m
  {
    ClosedIsFixedPoint(m);
    var c := ClosureOf(m);
    assert forall k :: k in m ==> c[k] == m[k];
  }

  /** Closing the closure again changes nothing. */
  lemma ClosureIdempotent(m: DepMap)
    ensures ClosureOf(ClosureOf(m)) == ClosureOf(m)
  {
    ClosureOfIsClosed(m);
    ClosureOfClosed(ClosureOf(m));
  }

  /** A file that is in its own direct set stays in its closed set. */
  lemma ClosureKeepsSelf(m: DepMap)
    ensures forall k :: k in m && k in m[k] ==> k in ClosureOf(m)[k]
  {
    forall k | k in m && k in m[k]
      ensures Reaches(m, k, k)
    {
      ReachesStep(m, k, k);
    }
  }
}
