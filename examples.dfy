/**
 * Worked cases of the analysis on small inputs.
 */
module Examples {
  import opened Common
  import opened Resolve
  import opened DirectDeps
  import opened Graph
  import opened Closure
  import opened Impacts
  import opened Ranking

  /** Two files that include each other both end up with both files. */
  method CycleExample() returns (deps: DepMap)
    ensures deps == map["A" := {"A", "B"}, "B" := {"A", "B"}]
  {
    var direct := map["A" := {"A", "B"}, "B" := {"B", "A"}];
    var finished;
    deps, finished := EncloseDependencies(direct);
    assert {"B", "A"} == {"A", "B"};
    UniformIsClosed(direct, {"A", "B"});
    ClosureOfClosed(direct);
  }

  lemma UniformIsClosed(m: DepMap, s: set<Path>)
    requires forall k :: k in m ==> m[k] == s
    ensures Closed(m)
  {
  }

  function LeafDirect(): (m: DepMap)
  {
    map["A" := {"A", "B"}, "B" := {"B", "x"}]
  }

  /**
   * A chain A -> B -> x where x is not an input file: A absorbs x through B,
   * and x stays a leaf without an entry of its own.
   */
  method LeafExample() returns (deps: DepMap)
    ensures deps == map["A" := {"A", "B", "x"}, "B" := {"B", "x"}]
  {
    var finished;
    deps, finished := EncloseDependencies(LeafDirect());
    LeafClosure();
  }

  lemma LeafClosure()
    ensures ClosureOf(LeafDirect()) == map["A" := {"A", "B", "x"}, "B" := {"B", "x"}]
  {
    var c := ClosureOf(LeafDirect());
    LeafClosureA();
    LeafClosureB();
    SameEntries(c, map["A" := {"A", "B", "x"}, "B" := {"B", "x"}]);
  }

  lemma LeafClosureA()
    ensures ClosureOf(LeafDirect())["A"] == {"A", "B", "x"}
  {
    var direct := LeafDirect();
    var c := ClosureOf(direct);
    ReachesStep(direct, "A", "A");
    ReachesStep(direct, "A", "B");
    ReachesStep(direct, "B", "x");
    ReachesTrans(direct, "A", "B", "x");
    forall d | d in c["A"]
      ensures d in {"A", "B", "x"}
    {
      ReachesMember(direct, "A", d);
      LeafMembers();
    }
  }

  lemma LeafMembers()
    ensures Members(LeafDirect()) == {"A", "B", "x"}
  {
    var m := LeafDirect();
    MembersWithin(m, {"A", "B", "x"});
    assert "A" in m["A"] && "B" in m["B"] && "x" in m["B"];
  }

  lemma LeafClosureB()
    ensures ClosureOf(LeafDirect())["B"] == {"B", "x"}
  {
    var direct := LeafDirect();
    var c := ClosureOf(direct);
    ReachesStep(direct, "B", "B");
    ReachesStep(direct, "B", "x");
    forall d | d in c["B"]
      ensures d in {"B", "x"}
    {
      BOnlyReachesBAndX(direct, d);
    }
  }

  lemma BOnlyReachesBAndX(direct: DepMap, d: Path)
    requires direct == map["A" := {"A", "B"}, "B" := {"B", "x"}]
    requires Reaches(direct, "B", d)
    ensures d == "B" || d == "x"
  {
    var p :| |p| >= 2 && p[0] == "B" && p[|p| - 1] == d && IsWalk(direct, p);
    WalkFromB(direct, p, |p| - 1);
  }

  lemma {:induction false} WalkFromB(direct: DepMap, p: seq<Path>, i: nat)
    requires direct == map["A" := {"A", "B"}, "B" := {"B", "x"}]
    requires |p| >= 1 && p[0] == "B" && IsWalk(direct, p) && i < |p|
    ensures p[i] == "B" || p[i] == "x"
  {
    if i > 0 {
      WalkFromB(direct, p, i - 1);
      assert p[i - 1] in direct && p[i] in direct[p[i - 1]];
    }
  }

  /**
   * The host of the two-file examples. ./a.cpp includes "b.hpp" and ./b.hpp
   * includes only <vector>, which does not exist. Paths are joined with a
   * separator, as `os.path.join(".", "b.hpp")` spells "./b.hpp" for a
   * relative token, and a path exists exactly when it is in `onDisk`.
   */
  function TwoFileHost(onDisk: set<Path>): (h: Host)
    ensures h.join(".", "b.hpp") == "./b.hpp"
  {
    Host(
      f => if f in {"a.cpp", "./a.cpp"} then Some(["b.hpp"])
           else if f in {"b.hpp", "./b.hpp"} then Some(["<vector>"]) else None,
      t => if t == "<vector>" then "vector" else t,
      (prefix, t) => prefix + "/" + t,
      p => p in onDisk)
  }

  /** The direct and the closed map of the two files named under ".". */
  function TwoFileDeps(): (m: DepMap)
    ensures m.Keys == {"./a.cpp", "./b.hpp"}
  {
    map["./a.cpp" := {"./a.cpp", "./b.hpp"}, "./b.hpp" := {"./b.hpp"}]
  }

  /**
   * The two-file example through the builder, the closure engine and the
   * inverter, with the files listed as ./a.cpp and ./b.hpp and the default
   * prefix ".": ./b.hpp impacts both files, ./a.cpp only itself.
   */
  method TwoFileExample() returns (deps: DepMap, impacts: DepMap)
    ensures deps == map["./a.cpp" := {"./a.cpp", "./b.hpp"}, "./b.hpp" := {"./b.hpp"}]
    ensures impacts == TwoFileImpactMap()
  {
    var direct := BuildDirectDeps(["./a.cpp", "./b.hpp"], ["."], TwoFileHost({"./a.cpp", "./b.hpp"}));
    TwoFileDirect();
    var finished;
    deps, finished := EncloseDependencies(direct);
    TwoFileClosed();
    ClosureOfClosed(direct);
    impacts := InvertDependencies(deps);
    TwoFileImpacts();
  }

  lemma TwoFileDirect()
    ensures DirectMap(["./a.cpp", "./b.hpp"], ["."], TwoFileHost({"./a.cpp", "./b.hpp"})) == TwoFileDeps()
  {
    var onDisk := {"./a.cpp", "./b.hpp"};
    TwoFileSetA("./a.cpp", onDisk);
    TwoFileSetB("./b.hpp", onDisk);
    NamesDiffer();
    DirectOfTwo("./a.cpp", "./b.hpp", ["b.hpp"], ["<vector>"], TwoFileHost(onDisk));
  }

  /** The direct map of two different files, given their include tokens. */
  lemma DirectOfTwo(a: Path, b: Path, ta: seq<string>, tb: seq<string>, host: Host)
    requires a != b
    requires host.parse(a) == Some(ta) && host.parse(b) == Some(tb)
    ensures DirectMap([a, b], ["."], host) ==
      map[a := DirectSet(a, ta, ["."], host), b := DirectSet(b, tb, ["."], host)]
  {
    var direct := DirectMap([a, b], ["."], host);
    assert direct.Keys == {a, b};
    SameTwoEntries(direct, a, b, DirectSet(a, ta, ["."], host), DirectSet(b, tb, ["."], host));
  }

  /** A map with keys a and b is the display of its two entries. */
  lemma SameTwoEntries(m: DepMap, a: Path, b: Path, sa: set<Path>, sb: set<Path>)
    requires a != b && m.Keys == {a, b} && m[a] == sa && m[b] == sb
    ensures m == map[a := sa, b := sb]
  {
    var want := map[a := sa, b := sb];
    assert forall k :: k in m ==> m[k] == want[k];
  }

  /** b.hpp resolves to ./b.hpp whenever that path is on disk. */
  lemma TwoFileSetA(f: Path, onDisk: set<Path>)
    requires "./b.hpp" in onDisk
    ensures DirectSet(f, ["b.hpp"], ["."], TwoFileHost(onDisk)) == {f, "./b.hpp"}
  {
    var host := TwoFileHost(onDisk);
    assert FirstHit(["."], "b.hpp", host) == 0;
    assert Resolved("b.hpp", ["."], host) == Some("./b.hpp");
    assert ResolvedIncludes(["b.hpp"], ["."], host) == {"./b.hpp"};
  }

  /** <vector> does not resolve when ./vector is not on disk. */
  lemma TwoFileSetB(f: Path, onDisk: set<Path>)
    requires "./vector" !in onDisk
    ensures DirectSet(f, ["<vector>"], ["."], TwoFileHost(onDisk)) == {f}
  {
    var host := TwoFileHost(onDisk);
    assert host.join(".", "vector") == "./vector";
    assert Resolved("<vector>", ["."], host).None?;
  }

  /** The example's file names are pairwise different. */
  lemma NamesDiffer()
    ensures "./a.cpp" != "./b.hpp" && "a.cpp" != "b.hpp"
  {
    assert "./a.cpp"[2] != "./b.hpp"[2];
    assert "a.cpp"[0] != "b.hpp"[0];
  }

  lemma TwoFileClosed()
    ensures Closed(TwoFileDeps())
  {
  }

  /** The impact map of the two-file example. */
  function TwoFileImpactMap(): (m: DepMap)
    ensures m.Keys == {"./a.cpp", "./b.hpp"}
  {
    map["./a.cpp" := {"./a.cpp"}, "./b.hpp" := {"./a.cpp", "./b.hpp"}]
  }

  lemma TwoFileImpacts()
    ensures Inverse(TwoFileDeps()) == TwoFileImpactMap()
  {
    TwoFileImpactsOf(TwoFileDeps());
  }

  lemma TwoFileImpactsOf(m: DepMap)
    requires m == map["./a.cpp" := {"./a.cpp", "./b.hpp"}, "./b.hpp" := {"./b.hpp"}]
    ensures Inverse(m) == TwoFileImpactMap()
  {
    TwoFileImpactA(m);
    TwoFileImpactB(m);
    var r := Inverse(m);
    var want := TwoFileImpactMap();
    assert r["./a.cpp"] == want["./a.cpp"];
    assert r["./b.hpp"] == want["./b.hpp"];
  }

  lemma TwoFileImpactKeys(m: DepMap)
    requires m == map["./a.cpp" := {"./a.cpp", "./b.hpp"}, "./b.hpp" := {"./b.hpp"}]
    ensures Inverse(m).Keys == {"./a.cpp", "./b.hpp"}
  {
    MembersWithin(m, {"./a.cpp", "./b.hpp"});
    assert "./a.cpp" in m["./a.cpp"] && "./b.hpp" in m["./b.hpp"];
  }

  lemma TwoFileImpactA(m: DepMap)
    requires m == map["./a.cpp" := {"./a.cpp", "./b.hpp"}, "./b.hpp" := {"./b.hpp"}]
    ensures Inverse(m).Keys == {"./a.cpp", "./b.hpp"}
    ensures Inverse(m)["./a.cpp"] == {"./a.cpp"}
  {
    TwoFileImpactKeys(m);
  }

  lemma TwoFileImpactB(m: DepMap)
    requires m == map["./a.cpp" := {"./a.cpp", "./b.hpp"}, "./b.hpp" := {"./b.hpp"}]
    ensures Inverse(m).Keys == {"./a.cpp", "./b.hpp"}
    ensures Inverse(m)["./b.hpp"] == {"./a.cpp", "./b.hpp"}
  {
    TwoFileImpactKeys(m);
  }

  /** The direct map of the same two files listed by their bare names. */
  function BareNameDeps(): (m: DepMap)
    ensures m.Keys == {"a.cpp", "b.hpp"}
  {
    map["a.cpp" := {"a.cpp", "./b.hpp"}, "b.hpp" := {"b.hpp"}]
  }

  /** The impact map of the bare-name example. */
  function BareNameImpactMap(): (m: DepMap)
    ensures m.Keys == {"a.cpp", "./b.hpp", "b.hpp"}
  {
    map["a.cpp" := {"a.cpp"}, "./b.hpp" := {"a.cpp"}, "b.hpp" := {"b.hpp"}]
  }

  /**
   * The same two files listed as a.cpp and b.hpp. Keys are the names as
   * listed and are never normalised, while a resolved include is spelled
   * under its prefix, so a.cpp depends on the leaf ./b.hpp, which is not
   * the key b.hpp. The closure adds nothing, ./b.hpp impacts a.cpp only,
   * and b.hpp impacts only itself.
   */
  lemma BareNameExample()
    ensures var direct := DirectMap(["a.cpp", "b.hpp"], ["."], TwoFileHost({"a.cpp", "b.hpp", "./a.cpp", "./b.hpp"}));
      && direct == BareNameDeps()
      && ClosureOf(direct) == BareNameDeps()
      && Inverse(ClosureOf(direct)) == BareNameImpactMap()
  {
    BareNameDirect();
    BareNameClosed();
    ClosureOfClosed(BareNameDeps());
    BareNameImpacts();
  }

  lemma BareNameDirect()
    ensures DirectMap(["a.cpp", "b.hpp"], ["."], TwoFileHost({"a.cpp", "b.hpp", "./a.cpp", "./b.hpp"})) == BareNameDeps()
  {
    var onDisk := {"a.cpp", "b.hpp", "./a.cpp", "./b.hpp"};
    TwoFileSetA("a.cpp", onDisk);
    TwoFileSetB("b.hpp", onDisk);
    NamesDiffer();
    DirectOfTwo("a.cpp", "b.hpp", ["b.hpp"], ["<vector>"], TwoFileHost(onDisk));
  }

  lemma BareNameClosed()
    ensures Closed(BareNameDeps())
  {
  }

  lemma BareNameImpacts()
    ensures Inverse(BareNameDeps()) == BareNameImpactMap()
  {
    var m := BareNameDeps();
    BareNameImpactEntries(m);
    var r := Inverse(m);
    var want := BareNameImpactMap();
    assert r["a.cpp"] == want["a.cpp"];
    assert r["./b.hpp"] == want["./b.hpp"];
    assert r["b.hpp"] == want["b.hpp"];
  }

  lemma BareNameImpactKeys(m: DepMap)
    requires m == map["a.cpp" := {"a.cpp", "./b.hpp"}, "b.hpp" := {"b.hpp"}]
    ensures Inverse(m).Keys == {"a.cpp", "./b.hpp", "b.hpp"}
  {
    MembersWithin(m, {"a.cpp", "./b.hpp", "b.hpp"});
    assert "a.cpp" in m["a.cpp"] && "./b.hpp" in m["a.cpp"] && "b.hpp" in m["b.hpp"];
  }

  lemma BareNameImpactEntries(m: DepMap)
    requires m == map["a.cpp" := {"a.cpp", "./b.hpp"}, "b.hpp" := {"b.hpp"}]
    ensures Inverse(m).Keys == {"a.cpp", "./b.hpp", "b.hpp"}
    ensures Inverse(m)["a.cpp"] == {"a.cpp"}
    ensures Inverse(m)["./b.hpp"] == {"a.cpp"}
    ensures Inverse(m)["b.hpp"] == {"b.hpp"}
  {
    BareNameImpactKeys(m);
  }

  /** The rows of the truncation example. */
  function Small(): (e: Entry) { ("s", {"s"}) }
  function Big(): (e: Entry) { ("b", {"b", "c", "d", "e", "f"}) }
  function Mid(): (e: Entry) { ("m", {"m", "n", "o"}) }

  /** With n = 1 and sets of sizes 1, 5 and 3, the report is the size-5 row. */
  lemma TruncationExample()
    ensures |Small().1| == 1 && |Big().1| == 5 && |Mid().1| == 3
    ensures Rank([Small(), Big(), Mid()], 1) == [Big()]
  {
  }
}
