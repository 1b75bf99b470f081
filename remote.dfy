/** `GetBranches`: the branch names in the output of `git ls-remote --heads`.
    The output comes in already cut into lines; each line is a commit id, white
    space and a ref name. */
module RemoteHeads {
  import opened Wrappers
  import opened Errors
  import opened GoStrings

  const HeadsPrefix := "refs/heads/"

  /** The second field of the line with every "refs/heads/" deleted. A line
      with fewer than two fields makes the Go index expression panic; here it
      is an error. */
  function ParseRefLine(line: string): (r: Result<string, Error>)
    ensures r.Failure? <==> |Fields(line)| < 2
    ensures r.Failure? ==> r.error == RefLinePanic(line)
  {
    var parts := Fields(line);
    if |parts| < 2 then Failure(RefLinePanic(line))
    else Success(ReplaceAll(parts[1], HeadsPrefix, ""))
  }

  /** The lines of the output, each parsed in turn; a failed command is its error. */
  method GetBranches(lsRemote: Result<seq<string>, string>) returns (r: Result<seq<string>, Error>)
    ensures lsRemote.Failure? ==> r == Failure(CommandFailed(lsRemote.error))
    ensures lsRemote.Success? ==> r == Traverse(lsRemote.value, ParseRefLine)
  {
    if lsRemote.Failure? {
      return Failure(CommandFailed(lsRemote.error));
    }
    var lines := lsRemote.value;
    var branches: seq<string> := [];
    for i := 0 to |lines|
      invariant Traverse(lines[..i], ParseRefLine) == Success(branches)
    {
      var parsed := ParseRefLine(lines[i]);
      if parsed.Failure? {
        TraverseStop(lines, i, ParseRefLine);
        return Failure(parsed.error);
      }
      TraverseExtend(lines, i, ParseRefLine, branches);
      branches := branches + [parsed.value];
    }
    assert lines[..|lines|] == lines;
    return Success(branches);
  }

  /** A branch name without white space in which "refs/heads/" does not occur. */
  predicate PlainBranchName(name: string) {
    NoSpace(name) && forall i :: 0 <= i <= |name| ==> !OccursAt(name, HeadsPrefix, i)
  }

  /** A line of `git ls-remote --heads` for a branch gives back the branch name. */
  lemma RefLineRoundTrip(commit: string, sep: char, name: string)
    requires commit != [] && NoSpace(commit) && IsSpace(sep)
    requires PlainBranchName(name)
    ensures ParseRefLine(commit + [sep] + HeadsPrefix + name) == Success(name)
  {
    var ref := HeadsPrefix + name;
    assert NoSpace(ref) by {
      assert forall k :: 0 <= k < |ref| ==> ref[k] == if k < |HeadsPrefix| then HeadsPrefix[k] else name[k - |HeadsPrefix|];
    }
    var line := commit + [sep] + HeadsPrefix + name;
    assert line == commit + [sep] + ref;
    FieldsJoin([commit, ref], sep);
    assert Join([commit, ref], sep) == line;
    assert Fields(line)[1] == ref;
    ReplaceAllLeading(HeadsPrefix, name, "");
    ReplaceAllAbsent(name, HeadsPrefix, "");
    assert ReplaceAll(ref, HeadsPrefix, "") == name;
    assert |Fields(line)| == 2;
  }

  /** The lines for a list of branches give back the list. */
  lemma {:induction false} BranchListRoundTrip(commits: seq<string>, names: seq<string>)
    requires |commits| == |names|
    requires forall k :: 0 <= k < |commits| ==> commits[k] != [] && NoSpace(commits[k])
    requires forall k :: 0 <= k < |names| ==> PlainBranchName(names[k])
    ensures Traverse(seq(|names|, k requires 0 <= k < |names| => commits[k] + "\t" + HeadsPrefix + names[k]),
                     ParseRefLine) == Success(names)
  {
    var lines := seq(|names|, k requires 0 <= k < |names| => commits[k] + "\t" + HeadsPrefix + names[k]);
    forall k | 0 <= k < |names| ensures ParseRefLine(lines[k]) == Success(names[k]) {
      RefLineRoundTrip(commits[k], '\t', names[k]);
    }
    TraverseSucceeds(lines, ParseRefLine);
    assert Traverse(lines, ParseRefLine).value == names;
  }
}
