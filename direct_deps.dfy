/**
 * The direct-dependency builder: every input file that parses is mapped
 * to itself plus every include token of it that resolves to a path.
 */
module DirectDeps {
  import opened Common
  import opened Resolve

  /** The paths that the tokens resolve to; unresolved tokens are dropped. */
  function ResolvedIncludes(tokens: seq<string>, prefixes: seq<Path>, host: Host): (r: set<Path>)
    ensures forall p :: p in r <==> exists t :: t in tokens && Resolved(t, prefixes, host) == Some(p)
  {
    set t | t in tokens && Resolved(t, prefixes, host).Some? :: Resolved(t, prefixes, host).value
  }

  /** The direct dependency set of file f whose include tokens are `tokens`. */
  function DirectSet(f: Path, tokens: seq<string>, prefixes: seq<Path>, host: Host): (s: set<Path>)
    ensures f in s
    ensures forall d :: d in s && d != f ==> exists t :: t in tokens && Resolved(t, prefixes, host) == Some(d)
    ensures forall t :: t in tokens && Resolved(t, prefixes, host).Some? ==> Resolved(t, prefixes, host).value in s
  {
    {f} + ResolvedIncludes(tokens, prefixes, host)
  }

  /** The direct dependency map of a list of files: files that fail to
      parse are absent, every other file is mapped to its direct set. */
  function DirectMap(files: seq<Path>, prefixes: seq<Path>, host: Host): (m: DepMap)
    ensures forall f :: f in m <==> f in files && host.parse(f).Some?
    ensures forall f :: f in m ==> f in m[f]
  {
    map f | f in files && host.parse(f).Some? :: DirectSet(f, host.parse(f).value, prefixes, host)
  }

  /** The loop that resolves each include token of one file in turn, drops
      those that do not resolve, and adds the file itself. */
  method DirectDependencies(f: Path, tokens: seq<string>, prefixes: seq<Path>, host: Host)
    returns (deps: set<Path>)
    ensures deps == DirectSet(f, tokens, prefixes, host)
  {
    deps := {};
    for i := 0 to |tokens|
      invariant deps == ResolvedIncludes(tokens[..i], prefixes, host)
    {
      var r := ResolveInclude(tokens[i], prefixes, host);
      assert tokens[..i + 1] == tokens[..i] + [tokens[i]];
      if r.Some? {
        deps := deps + {r.value};
      }
    }
    assert tokens[..|tokens|] == tokens;
    deps := deps + {f};
  }

  /** The loop that fills the direct dependency dictionary. */
  method BuildDirectDeps(files: seq<Path>, prefixes: seq<Path>, host: Host) returns (deps: DepMap)
    ensures deps == DirectMap(files, prefixes, host)
  {
    deps := map[];
    for i := 0 to |files|
      invariant deps == DirectMap(files[..i], prefixes, host)
    {
      var fn := files[i];
      assert files[..i + 1] == files[..i] + [fn];
      match host.parse(fn)
      case None =>
        assert DirectMap(files[..i + 1], prefixes, host) == deps;
        continue;
      case Some(tokens) =>
        var d := DirectDependencies(fn, tokens, prefixes, host);
        deps := deps[fn := d];
        assert DirectMap(files[..i + 1], prefixes, host) == deps;
    }
    assert files[..|files|] == files;
  }
}
