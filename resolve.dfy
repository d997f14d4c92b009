/**
 * Resolution of one raw include token against an ordered list of include
 * prefixes: the first prefix under which the stripped token names an
 * existing file wins.
 */
module Resolve {
  import opened Common

  /**
   * The position of the first prefix under which `name` exists, or
   * |prefixes| when there is none.
   */
  function FirstHit(prefixes: seq<Path>, name: string, host: Host): (i: nat)
    ensures i <= |prefixes|
    ensures forall j :: 0 <= j < i ==> !host.pathExists(host.join(prefixes[j], name))
    ensures i < |prefixes| ==> host.pathExists(host.join(prefixes[i], name))
    decreases |prefixes|
  {
    if |prefixes| == 0 then 0
    else if host.pathExists(host.join(prefixes[0], name)) then 0
    else 1 + FirstHit(prefixes[1..], name, host)
  }

  /**
   * The resolved path of `token`: the join of the first prefix under which
   * the stripped token names an existing path, or None when no prefix does.
   */
  function Resolved(token: string, prefixes: seq<Path>, host: Host): (r: Option<Path>)
    ensures r.Some? ==> host.pathExists(r.value)
    ensures r.None? <==> forall j :: 0 <= j < |prefixes| ==> !host.pathExists(host.join(prefixes[j], host.strip(token)))
  {
    var name := host.strip(token);
    var i := FirstHit(prefixes, name, host);
    if i < |prefixes| then Some(host.join(prefixes[i], name)) else None
  }

  /** A resolved path is the join of the first prefix under which the
      stripped token exists: every earlier prefix gives a missing path. */
  lemma ResolvedMeaning(token: string, prefixes: seq<Path>, host: Host)
    ensures var r := Resolved(token, prefixes, host);
      r.Some? ==> exists i :: 0 <= i < |prefixes| && r.value == host.join(prefixes[i], host.strip(token)) &&
                              (forall j :: 0 <= j < i ==> !host.pathExists(host.join(prefixes[j], host.strip(token))))
  {
  }

  /**
   * The resolver loop: try each prefix in order and return the first
   * joined path that exists; fall off the end with None.
   */
  method ResolveInclude(token: string, prefixes: seq<Path>, host: Host) returns (r: Option<Path>)
    ensures r == Resolved(token, prefixes, host)
  {
    var stripped := host.strip(token);
    for i := 0 to |prefixes|
      invariant forall j :: 0 <= j < i ==> !host.pathExists(host.join(prefixes[j], stripped))
    {
      var path := host.join(prefixes[i], stripped);
      if host.pathExists(path) {
        FirstHitIsFirst(prefixes, stripped, host, i);
        return Some(path);
      }
    }
    FirstHitIsFirst(prefixes, stripped, host, |prefixes|);
    return None;
  }

  /** Any index at or before which nothing earlier matches, and which
      matches or is the end, is the first hit. */
  lemma FirstHitIsFirst(prefixes: seq<Path>, name: string, host: Host, i: nat)
    requires i <= |prefixes|
    requires forall j :: 0 <= j < i ==> !host.pathExists(host.join(prefixes[j], name))
    requires i < |prefixes| ==> host.pathExists(host.join(prefixes[i], name))
    ensures FirstHit(prefixes, name, host) == i
  {
  }
}
