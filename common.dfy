/**
 * Shared vocabulary of the dependency analyser: file identifiers, the
 * dependency map, an Option type, and the external collaborators (the
 * header parser and the filesystem) as plain function values.
 */
module Common {

  /** A file identifier: a path string, compared by exact equality. */
  type Path = string

  /** A map from a source file to a set of files (dependencies or impacts). */
  type DepMap = map<Path, set<Path>>

  datatype Option<T> = None | Some(value: T)

  /**
   * What the analyser takes from outside, abstracted to functions:
   *  - parse(f): the raw include tokens of f, or None when the header
   *    parser raises its parse error for f;
   *  - strip(t): the token with its angle brackets removed;
   *  - join(prefix, t): the path of t under an include prefix;
   *  - pathExists(p): whether a file exists at path p.
   */
  datatype Host = Host(
    parse: Path -> Option<seq<string>>,
    strip: string -> string,
    join: (Path, string) -> Path,
    pathExists: Path -> bool)

  /** Every file mentioned in some set of m. */
  function Members(m: DepMap): (u: set<Path>)
    ensures forall k, d :: k in m && d in m[k] ==> d in u
    ensures forall d :: d in u ==> exists k :: k in m && d in m[k]
  {
    set k, d | k in m && d in m[k] :: d
  }
}
