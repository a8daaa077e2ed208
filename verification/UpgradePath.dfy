/**
 Upgrade path validation: which moves between versions the global upgrade path
 allows. Reading the path object can fail; the result of the read is a parameter.
 */
module UpgradePath {
  import opened Wrappers

  datatype Edge = Edge(from: string, to: string, recommended: bool)
  datatype Block = Block(from: string, to: string)
  datatype Path = Path(edges: seq<Edge>, blocked: seq<Block>)
  datatype Update = Update(version: string, force: bool)

  /** A trailing star matches any suffix; empty patterns and versions match nothing. */
  predicate MatchVersion(pattern: string, version: string) {
    if pattern == "" || version == "" then false
    else if pattern[|pattern| - 1] == '*' then pattern[..|pattern| - 1] <= version
    else pattern == version
  }

  /** The match is equality, or any extension of what stands before a trailing star. */
  lemma MatchMeansPrefix(pattern: string, version: string)
    ensures MatchVersion(pattern, version) <==>
      && version != ""
      && (pattern == version || exists prefix, rest :: pattern == prefix + "*" && version == prefix + rest)
  {
    if MatchVersion(pattern, version) && pattern[|pattern| - 1] == '*' {
      var prefix := pattern[..|pattern| - 1];
      assert pattern == prefix + "*" && version == prefix + version[|prefix|..];
    }
    forall prefix, rest | pattern == prefix + "*" && version == prefix + rest && version != ""
      ensures MatchVersion(pattern, version)
    {
      assert pattern[..|pattern| - 1] == prefix;
    }
  }

  predicate EdgeMatches(e: Edge, from: string, to: string) {
    MatchVersion(e.from, from) && MatchVersion(e.to, to)
  }

  /** The first edge that matches the move exists and is recommended. */
  ghost predicate Recommends(path: Path, from: string, to: string) {
    exists i ::
      && 0 <= i < |path.edges|
      && EdgeMatches(path.edges[i], from, to)
      && path.edges[i].recommended
      && forall j :: 0 <= j < i ==> !EdgeMatches(path.edges[j], from, to)
  }

  ghost predicate Blocks(path: Path, from: string, to: string) {
    exists b :: b in path.blocked && MatchVersion(b.from, from) && MatchVersion(b.to, to)
  }

  /** The rule the path states for a move between two different versions. */
  ghost predicate Allows(path: Path, from: string, to: string, force: bool) {
    (force || Recommends(path, from, to)) && !Blocks(path, from, to)
  }

  /** What the validation accepts; an absent or empty target is never checked. */
  ghost predicate Accepts(path: Option<Path>, from: string, desired: Option<Update>) {
    || desired.None?
    || desired.value.version == ""
    || (path.Some?
        && (from == desired.value.version || Allows(path.value, from, desired.value.version, desired.value.force)))
  }

  method ValidateUpgradePath(path: Option<Path>, from: string, desired: Option<Update>) returns (accepted: bool)
    ensures accepted <==> Accepts(path, from, desired)
  {
    if desired.None? || desired.value.version == "" { return true; }
    if path.None? { return false; }
    var edges, blocked := path.value.edges, path.value.blocked;
    var to := desired.value.version;
    if from == to { return true; }

    var found := false;
    for i := 0 to |edges|
      invariant !found
      invariant forall j :: 0 <= j < i ==> !EdgeMatches(edges[j], from, to)
    {
      if EdgeMatches(edges[i], from, to) {
        found := true;
        if !edges[i].recommended && !desired.value.force {
          return false;
        }
        break;
      }
    }
    if !found && !desired.value.force { return false; }

    for i := 0 to |blocked|
      invariant forall j :: 0 <= j < i ==> !(MatchVersion(blocked[j].from, from) && MatchVersion(blocked[j].to, to))
    {
      if MatchVersion(blocked[i].from, from) && MatchVersion(blocked[i].to, to) {
        assert blocked[i] in blocked;
        return false;
      }
    }
    return true;
  }

  /** The first edge that matches a move decides about it, whatever later edges say. */
  lemma FirstEdgeDecides(path: Path, from: string, to: string, i: nat)
    requires i < |path.edges| && EdgeMatches(path.edges[i], from, to)
    requires forall j :: 0 <= j < i ==> !EdgeMatches(path.edges[j], from, to)
    ensures Recommends(path, from, to) <==> path.edges[i].recommended
  {
  }

  /** A matching block refuses the move even when it is forced; without one, force needs no edge. */
  lemma BlocksOverrideForce(path: Path, from: string, update: Update)
    requires update.version != "" && from != update.version && update.force
    ensures Accepts(Some(path), from, Some(update)) <==>
      forall b :: b in path.blocked ==> !(MatchVersion(b.from, from) && MatchVersion(b.to, update.version))
  {
  }

  /**
   A cluster that has recorded no version yet matches no edge and no block, so
   its first update is accepted exactly when it is forced, whatever the path says.
   */
  lemma FirstUpdateNeedsForce(path: Path, update: Update)
    requires update.version != ""
    ensures Accepts(Some(path), "", Some(update)) <==> update.force
  {
    assert !Recommends(path, "", update.version);
  }

  /** Validation differs from the path's own rule only where the target is empty and not forced. */
  lemma UncheckedExactlyWhenEmpty(path: Path, from: string, update: Update)
    requires from != update.version && Accepts(Some(path), from, Some(update))
    ensures Allows(path, from, update.version, update.force) <==> (update.version != "" || update.force)
  {
    if update.version == "" {
      assert !Recommends(path, from, "") && !Blocks(path, from, "");
    }
  }
}
