# cpp-dep-info: verified model of the include-dependency closure

`cpp_dep_info.py` reads a list of C++ source files and reports, for each
file, how many files it transitively includes ("build dependencies"), and,
for each file, how many files must recompile when it changes ("impact
dependencies"). This project models the computational core of that script
in Dafny and proves what it computes:

- **Include resolution** (`Resolve`): a raw include token is stripped of its
  angle brackets and tried under each include prefix in order; the first
  joined path that exists is the result, and no match gives None.
- **Direct-dependency builder** (`DirectDeps`): each input file that parses
  is mapped to itself plus every include that resolves; unresolved includes
  are dropped and a file whose parse fails is absent from the map.
- **Closure engine** (`Closure`, specified in `Graph`): the in-place chaotic
  fixed-point loop. Passes repeat over the entries that are not finished;
  in a pass every entry absorbs the current sets of those of its members
  that are keys; an entry whose size did not change is finished and skipped
  from then on. Proved: the loop terminates (measure: the set of
  (key, file) pairs not yet present, ordered by strict inclusion, then the
  unfinished keys); keys never change and sets never shrink; finished
  entries are never modified again; every finished set contains the set of
  each key it contains, and this survives later unions; at the end every
  entry is finished and each set is exactly the set of files reachable from
  its file in the direct map, members that are not keys staying unexpanded
  leaves. Since the result is characterised exactly, it does not depend on
  the order in which entries are visited.
- **Impact inverter** (`Impacts`): the reverse graph; `f` is in the impact
  set of `d` exactly when `d` is in the set of `f`, and the keys are the
  files that occur in some set. Inverting twice gives back any map whose
  every key is in its own set, which holds after closure.
- **Ranker** (`Ranking`, `Report`): the entries sorted by set size, largest
  first, cut to the first N rows when N is positive and kept whole when N is
  zero; the rows are distinct entries, and every entry left out is no larger
  than any row kept.
- **The whole run** (`Report.Analyze`): the dependency report ranks the
  closure of the direct map and the impact report ranks its inverse.

The header parser, `os.path.join`, `os.path.exists` and the bracket-stripping
regular expression are fields of the `Host` datatype, so every result holds
for every parser and every filesystem. The iteration order of the
dictionary in each pass, and of each snapshot of a set, is a nondeterministic
choice (`:|`), which covers whatever order the interpreter uses.

A set can also hold included files that are not input files, so the number
of keys does not bound it; the termination bound used here is the set of all
files mentioned in the direct map.

File names are compared as the strings they are: a key is an input line with
the whitespace around it removed, and a resolved include is spelled as its prefix joined with the
token. Nothing normalises a path, so a file listed as `b.hpp` and the same
file resolved under the prefix `.` as `./b.hpp` are two different files
(`Examples.BareNameExample`).

## Model

| member | source | states |
|---|---|---|
| Resolve.FirstHit | cpp_dep_info.py:42-45 | the index of the first prefix under which the stripped token exists: no earlier prefix matches, and the index is either past the end or matches |
| Resolve.Resolved | cpp_dep_info.py:35-45 | a resolved path exists; None exactly when no prefix gives an existing path for the stripped token |
| Resolve.ResolvedMeaning | cpp_dep_info.py:41-45 | a resolved path is the join of some prefix with the stripped token, and every earlier prefix gives a path that does not exist |
| Resolve.ResolveInclude | cpp_dep_info.py:35-45 | the prefix loop with early return yields the first-match resolution |
| DirectDeps.ResolvedIncludes | cpp_dep_info.py:96-98 | a path is among the resolved includes exactly when some include token resolves to it; tokens that do not resolve contribute nothing |
| DirectDeps.DirectSet | cpp_dep_info.py:96-99 | a direct set holds the file itself, every resolved include, and nothing else than resolved includes besides the file |
| DirectDeps.DirectMap | cpp_dep_info.py:91-100 | the keys are exactly the input files that parse, and every key is in its own set |
| DirectDeps.DirectDependencies | cpp_dep_info.py:96-99 | the resolution loop over a file's includes builds its direct set |
| DirectDeps.BuildDirectDeps | cpp_dep_info.py:87-100 | the loop over the input files builds the direct map, skipping files whose parse fails |
| Graph.ClosureOf | cpp_dep_info.py:102-120 | the closure keeps the keys and maps each key to exactly the files it reaches in one or more steps |
| Graph.ClosedCoversReach | cpp_dep_info.py:112-120 | a closed map that extends the direct map contains everything reachable in it |
| Graph.ClosedIsFixedPoint | cpp_dep_info.py:118-120 | in a closed map each set is exactly what its key reaches in that map |
| Graph.ClosureOfIsClosed | cpp_dep_info.py:106-120 | the closure is closed: the set of every key contains the set of every key it contains |
| Graph.ClosureOfClosed | cpp_dep_info.py:118-120 | a map that is already closed is its own closure |
| Graph.ClosureIdempotent | cpp_dep_info.py:106-120 | closing the closure again changes nothing |
| Graph.ClosureKeepsSelf | cpp_dep_info.py:99-115 | a key in its own direct set is in its own closed set |
| Closure.InvInit | cpp_dep_info.py:100-106 | the direct map with no finished entry satisfies the loop invariant |
| Closure.MissingShrinks | cpp_dep_info.py:107-120 | growth of the sets inside the universe shrinks the termination measure, strictly when some set grew |
| Closure.SameSizeSubsetIsEqual | cpp_dep_info.py:119 | an unchanged size after a union means nothing was added |
| Closure.ExpandKeepsInv | cpp_dep_info.py:112-117 | a union step on an unfinished entry keeps every set reachable and within the universe and keeps every finished set closed |
| Closure.StableStep | cpp_dep_info.py:111-120 | an entry whose size the union step left unchanged is unchanged and may be marked finished |
| Closure.AbsorbedMeaning | cpp_dep_info.py:112-117 | a file is absorbed exactly when it is in the set of some member that is a key, and the whole set of every such member is absorbed |
| Closure.ExpandEntry | cpp_dep_info.py:111-117 | the loop over the snapshot unions into the entry the set of each member that is a key and changes no other entry |
| Closure.VisitEntry | cpp_dep_info.py:108-120 | a finished entry is skipped unchanged; otherwise the entry becomes its old set plus the sets of its members that are keys, no other entry changes, and the entry is marked finished exactly when the map did not change |
| Closure.Pass | cpp_dep_info.py:108-120 | a pass keeps the invariant, only grows sets and the finished set, and leaves entries finished before it untouched; every unfinished entry ends holding at least its old set plus the old sets of all its members that are keys; afterwards an entry is finished exactly when it was finished before or its set did not change, so a pass that changes nothing finishes every entry |
| Closure.EncloseDependencies | cpp_dep_info.py:102-120 | the loop terminates with every key finished, keys unchanged, no member removed, the map closed and equal to the closure of the direct map |
| Closure.FinishedIsClosure | cpp_dep_info.py:107-120 | when every entry is finished the map is closed and equals the closure of the direct map |
| Impacts.Inverse | cpp_dep_info.py:122-129 | the reverse graph: keys are the files occurring in some set, and f is in the impact set of d exactly when d is in the set of f |
| Impacts.InverseTwice | cpp_dep_info.py:126-129 | inverting twice gives back a map whose every key is in its own set |
| Impacts.InvertDependencies | cpp_dep_info.py:126-129 | the nested loop over every key and every member builds the reverse graph |
| Ranking.Insert | cpp_dep_info.py:131-132 | inserting adds exactly one row to the multiset of rows |
| Ranking.InsertKeepsOrder | cpp_dep_info.py:131-132 | inserting into a list sorted largest first keeps it sorted |
| Ranking.SortBySize | cpp_dep_info.py:131-132 | the sort is a permutation of its input, ordered by set size, largest first |
| Ranking.Rank | cpp_dep_info.py:131-134 | min(N, size) rows when N is positive and all rows when N is zero, the first rows of the sorted order, largest first, a sub-multiset of the input |
| Ranking.RankKeepsLargest | cpp_dep_info.py:131-134 | every row the cut drops is no larger than any row it keeps |
| Report.EntriesOf | cpp_dep_info.py:131 | the items of a map, each entry exactly once |
| Report.RankMap | cpp_dep_info.py:131-142 | one report section: distinct entries of the map, all of them when N is zero and min(N, size) otherwise, largest first, and nothing left out is larger than a kept row |
| Report.Analyze | cpp_dep_info.py:87-142 | the dependency rows rank the closure of the direct map of the files, and the impact rows rank its inverse |
| Report.ImpactsInvertBack | cpp_dep_info.py:99-129 | after closure every file is in its own set, so the impacts of the impact map are the dependencies |
| Examples.CycleExample | cpp_dep_info.py:106-120 | two files including each other both end with the set of both |
| Examples.LeafExample | cpp_dep_info.py:112-117 | a file outside the input is absorbed through a chain but gets no entry of its own |
| Examples.TwoFileExample | cpp_dep_info.py:87-129 | files listed as ./a.cpp and ./b.hpp under the prefix ".", ./a.cpp including b.hpp and ./b.hpp including only a missing header, give sets {./a.cpp, ./b.hpp} and {./b.hpp} and impacts {./a.cpp} and {./a.cpp, ./b.hpp} |
| Examples.BareNameExample | cpp_dep_info.py:43-100 | the same files listed as a.cpp and b.hpp give a.cpp the unexpanded leaf ./b.hpp instead of the key b.hpp: sets {a.cpp, ./b.hpp} and {b.hpp}, and impacts a.cpp, ./b.hpp and b.hpp with {a.cpp}, {a.cpp} and {b.hpp} |
| Examples.TruncationExample | cpp_dep_info.py:131-134 | with N = 1 and sets of sizes 1, 5 and 3 the report is the single row of size 5 |

## Left out

- `RedirectInputs` (cpp_dep_info.py:16-33): it swaps the process's standard streams around the parser; it has no effect on the computed maps.
- Option parsing, usage errors and reading the file list from standard input or a file (cpp_dep_info.py:48-81): command-line handling; the model starts from the list of file names and the include prefixes.
- The header parser (cpp_dep_info.py:93): a third-party library, modelled as the function `Host.parse`, which gives the include tokens or None for its parse error. Other exceptions it may raise (a missing file) end the script and are not modelled.
- `os.path.join` and `os.path.exists` (cpp_dep_info.py:43-44): the filesystem, modelled as the functions `Host.join` and `Host.pathExists`. The examples join a prefix and a token with a separator, which is what `os.path.join` does for a relative token; its other cases (an absolute token, a prefix already ending in a separator) are not modelled.
- The regular-expression substitution that strips angle brackets (cpp_dep_info.py:41): modelled as the function `Host.strip`; its exact pattern semantics are not modelled.
- Printing of the report lines (cpp_dep_info.py:135-146): only the rows are modelled.
- Ranking.SortBySize: the order of rows of equal size is not stated as a property; it depends on the dictionary's iteration order, which is unspecified.
- Negative row counts: N is a natural number here; a negative N would slice from the end in Python.
- The script's integers and sets are unbounded in the model as in Python; no resource limits are modelled.
