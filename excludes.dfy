/** The `-excludes` flag: comma-separated POM paths, relative to the
    repository's top level, that `BranchCompat` skips. */
module Excludes {
  import opened GoStrings

  /** The paths a flag value names: the pieces between its commas. */
  function ExcludedPaths(flag: string): (paths: set<string>)
    ensures forall p :: p in paths ==> ',' !in p
  {
    set p | p in Split(flag, ',')
  }

  /** The loop of `init` that fills `excludesMap`. */
  method ParseExcludes(flag: string) returns (excludes: map<string, string>)
    ensures excludes.Keys == ExcludedPaths(flag)
    ensures forall p :: p in excludes ==> excludes[p] == ""
  {
    var a := Split(flag, ',');
    excludes := map[];
    for i := 0 to |a|
      invariant excludes.Keys == set p | p in a[..i]
      invariant forall p :: p in excludes ==> excludes[p] == ""
    {
      excludes := excludes[a[i] := ""];
      assert a[..i + 1] == a[..i] + [a[i]];
    }
    assert a[..|a|] == a;
  }

  /** A flag listing comma-free paths excludes exactly those paths. */
  lemma ExcludedPathsOfList(paths: seq<string>)
    requires |paths| >= 1
    requires forall i :: 0 <= i < |paths| ==> ',' !in paths[i]
    ensures ExcludedPaths(Join(paths, ',')) == set p | p in paths
  {
    SplitJoin(paths, ',');
  }

  /** The default, an empty flag, excludes the empty path and nothing else. */
  lemma EmptyFlagExcludesEmptyPath()
    ensures ExcludedPaths("") == {""}
  {
    assert Split("", ',') == [""];
  }

  /** A trailing comma adds the empty path. */
  lemma TrailingCommaExcludesEmptyPath(flag: string)
    ensures "" in ExcludedPaths(flag + ",")
  {
    SplitEndingInSeparator(flag, ',');
    assert Split(flag + ",", ',')[|Split(flag, ',')|] == "";
  }
}
