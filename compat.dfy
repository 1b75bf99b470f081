/** `BranchCompat` and `CurrentBranch`: the order in which the branch name and
    the project's POMs are checked. The git process and the walk over the
    working tree are inputs: `revParse` is the outcome of
    `git rev-parse --abbrev-ref HEAD`, `found` that of `FindPoms(".")` with
    each file's decoded POM, and `excludes` the map built from the flag. */
module Compat {
  import opened Wrappers
  import opened Errors
  import opened GoStrings
  import opened Descriptor
  import opened FeatureVersion
  import opened DevelopVersion

  /** A file named pom.xml found under the working directory, with the
      outcome of reading and decoding it. */
  datatype PomFile = PomFile(path: string, decoded: Result<Pom, string>)

  /** The command's output without its last character, the newline git
      ends it with. Empty output makes the Go slice expression panic; here it
      is an error. */
  function CurrentBranch(revParse: Result<string, string>): (r: Result<string, Error>)
    ensures revParse.Failure? ==> r == Failure(CommandFailed(revParse.error))
    ensures revParse == Success([]) ==> r == Failure(EmptyCommandOutput)
    ensures revParse.Success? && revParse.value != [] <==> r.Success?
    ensures r.Success? ==> exists c :: revParse.value == r.value + [c]
  {
    match revParse
    case Failure(e) => Failure(CommandFailed(e))
    case Success(out) =>
      if out == [] then Failure(EmptyCommandOutput)
      else
        assert out == out[..|out| - 1] + [out[|out| - 1]];
        Success(out[..|out| - 1])
  }

  /** The branch printed on a line of its own is the current branch. */
  lemma CurrentBranchOfLine(branch: string)
    ensures CurrentBranch(Success(branch + "\n")) == Success(branch)
  {
    assert (branch + "\n")[..|branch|] == branch;
  }

  /** One iteration of the loop over the POMs: None to go on, Some to return. */
  function CheckPom(branch: string, excludes: map<string, string>, pom: PomFile): (r: Option<Error>)
    ensures r.Some? ==> pom.path !in excludes
    ensures pom.path !in excludes && pom.decoded.Failure? ==> r == Some(PomUnreadable(pom.decoded.error))
  {
    if pom.path in excludes then None
    else match PomVersion(pom.path, pom.decoded)
      case Failure(e) => Some(e)
      case Success(v) =>
        if HasPrefix(v, "$") then None
        else if branch == "develop" then
          (if IsValidDevelopVersion(v) then None else Some(InvalidDevelopVersion(v, pom.path)))
        else if FeatureCompatible(branch, v) then None
        else Some(InvalidFeatureVersion(branch, v, pom.path))
  }

  /** The loop over the POMs: the first error, or None. */
  function CheckPoms(branch: string, excludes: map<string, string>, poms: seq<PomFile>): Option<Error>
    decreases |poms|
  {
    if poms == [] then None
    else match CheckPom(branch, excludes, poms[0])
      case Some(e) => Some(e)
      case None => CheckPoms(branch, excludes, poms[1..])
  }

  /** What `BranchCompat` returns, as a function of its inputs. */
  function BranchCompatResult(revParse: Result<string, string>, found: Result<seq<PomFile>, string>,
                              excludes: map<string, string>): Option<Error>
  {
    match CurrentBranch(revParse)
    case Failure(e) => Some(CannotDetermineBranch(e))
    case Success(branch) =>
      if branch == "master" then Some(MasterNotAnalyzed)
      else if branch == "HEAD" then Some(NotOnBranch)
      else match found
        case Failure(e) => Some(FindPomsFailed(e))
        case Success(poms) =>
          if poms == [] then Some(NoPoms) else CheckPoms(branch, excludes, poms)
  }

  method BranchCompat(revParse: Result<string, string>, found: Result<seq<PomFile>, string>,
                      excludes: map<string, string>) returns (err: Option<Error>)
    ensures err == BranchCompatResult(revParse, found, excludes)
  {
    var current := CurrentBranch(revParse);
    if current.Failure? {
      return Some(CannotDetermineBranch(current.error));
    }
    var branch := current.value;
    if branch == "master" {
      return Some(MasterNotAnalyzed);
    }
    if branch == "HEAD" {
      return Some(NotOnBranch);
    }
    if found.Failure? {
      return Some(FindPomsFailed(found.error));
    }
    var poms := found.value;
    if |poms| == 0 {
      return Some(NoPoms);
    }
    for i := 0 to |poms|
      invariant CheckPoms(branch, excludes, poms) == CheckPoms(branch, excludes, poms[i..])
    {
      var pomFile := poms[i];
      assert poms[i..][1..] == poms[i + 1..];
      if pomFile.path in excludes {
        continue;
      }
      var effectiveVersion := PomVersion(pomFile.path, pomFile.decoded);
      if effectiveVersion.Failure? {
        return Some(effectiveVersion.error);
      }
      var v := effectiveVersion.value;
      if HasPrefix(v, "$") {
        continue;
      }
      if branch == "develop" {
        if !IsValidDevelopVersion(v) {
          return Some(InvalidDevelopVersion(v, pomFile.path));
        }
        continue;
      }
      var ok := IsValidFeatureVersion(branch, v);
      if !ok {
        return Some(InvalidFeatureVersion(branch, v, pomFile.path));
      }
    }
    return None;
  }

  // What the checks mean

  /** A POM that passes: excluded, a version that is an unresolved property,
      or a version valid for the branch. */
  ghost predicate PomAcceptable(branch: string, excludes: map<string, string>, pom: PomFile) {
    pom.path in excludes ||
    exists v :: PomVersion(pom.path, pom.decoded) == Success(v) &&
      (HasPrefix(v, "$") ||
       (branch == "develop" && IsValidDevelopVersion(v)) ||
       (branch != "develop" && FeatureCompatible(branch, v)))
  }

  lemma CheckPomAcceptable(branch: string, excludes: map<string, string>, pom: PomFile)
    ensures CheckPom(branch, excludes, pom).None? <==> PomAcceptable(branch, excludes, pom)
  {
  }

  /** The POMs pass exactly when every one of them is acceptable. */
  lemma {:induction false} CheckPomsAll(branch: string, excludes: map<string, string>, poms: seq<PomFile>)
    ensures CheckPoms(branch, excludes, poms).None? <==>
            forall i :: 0 <= i < |poms| ==> PomAcceptable(branch, excludes, poms[i])
    decreases |poms|
  {
    if poms != [] {
      CheckPomsAll(branch, excludes, poms[1..]);
      CheckPomAcceptable(branch, excludes, poms[0]);
      assert forall i :: 1 <= i < |poms| ==> poms[i] == poms[1..][i - 1];
    }
  }

  /** A failing check reports the first POM that is not acceptable. */
  lemma {:induction false} CheckPomsFirstError(branch: string, excludes: map<string, string>, poms: seq<PomFile>)
    requires CheckPoms(branch, excludes, poms).Some?
    ensures exists k :: 0 <= k < |poms| &&
              CheckPom(branch, excludes, poms[k]) == CheckPoms(branch, excludes, poms) &&
              forall i :: 0 <= i < k ==> PomAcceptable(branch, excludes, poms[i])
    decreases |poms|
  {
    if CheckPom(branch, excludes, poms[0]).None? {
      CheckPomsFirstError(branch, excludes, poms[1..]);
      var k :| 0 <= k < |poms[1..]| &&
                CheckPom(branch, excludes, poms[1..][k]) == CheckPoms(branch, excludes, poms[1..]) &&
                forall i :: 0 <= i < k ==> PomAcceptable(branch, excludes, poms[1..][i]);
      CheckPomAcceptable(branch, excludes, poms[0]);
      assert forall i :: 1 <= i < k + 1 ==> poms[i] == poms[1..][i - 1];
      assert CheckPom(branch, excludes, poms[k + 1]) == CheckPoms(branch, excludes, poms);
    }
  }

  lemma {:induction false} CheckPomsAppend(branch: string, excludes: map<string, string>, xs: seq<PomFile>, ys: seq<PomFile>)
    ensures CheckPoms(branch, excludes, xs + ys) ==
            if CheckPoms(branch, excludes, xs).Some? then CheckPoms(branch, excludes, xs)
            else CheckPoms(branch, excludes, ys)
    decreases |xs|
  {
    if xs != [] {
      assert (xs + ys)[1..] == xs[1..] + ys;
      CheckPomsAppend(branch, excludes, xs[1..], ys);
    } else {
      assert xs + ys == ys;
    }
  }

  /** An excluded POM is never read: it makes no difference where it stands,
      even when it cannot be decoded. */
  lemma ExcludedPomIgnored(branch: string, excludes: map<string, string>, xs: seq<PomFile>, pom: PomFile, ys: seq<PomFile>)
    requires pom.path in excludes
    ensures CheckPoms(branch, excludes, xs + [pom] + ys) == CheckPoms(branch, excludes, xs + ys)
  {
    CheckPomsAppend(branch, excludes, xs + [pom], ys);
    CheckPomsAppend(branch, excludes, xs, [pom]);
    CheckPomsAppend(branch, excludes, xs, ys);
    assert [pom][1..] == [];
  }

  /** master and HEAD are refused before the POMs are looked for. */
  lemma MasterAndHeadRefused(revParse: Result<string, string>, found: Result<seq<PomFile>, string>,
                             excludes: map<string, string>)
    requires revParse == Success("master\n") || revParse == Success("HEAD\n")
    ensures BranchCompatResult(revParse, found, excludes) ==
            if revParse == Success("master\n") then Some(MasterNotAnalyzed) else Some(NotOnBranch)
  {
    CurrentBranchOfLine("master");
    CurrentBranchOfLine("HEAD");
  }

  /** On any other branch, a project without POMs is an error, and otherwise
      the verdict is that of the POMs. */
  lemma OtherBranchChecksPoms(branch: string, poms: seq<PomFile>, excludes: map<string, string>)
    requires branch != "master" && branch != "HEAD"
    ensures BranchCompatResult(Success(branch + "\n"), Success(poms), excludes) ==
            if poms == [] then Some(NoPoms) else CheckPoms(branch, excludes, poms)
  {
    CurrentBranchOfLine(branch);
  }

  /** The branch-compatibility mode passes exactly when the current branch is
      known, is neither master nor HEAD, the POMs are found, there is at least
      one, and every one is acceptable. */
  lemma BranchCompatPasses(revParse: Result<string, string>, found: Result<seq<PomFile>, string>,
                           excludes: map<string, string>)
    ensures BranchCompatResult(revParse, found, excludes).None? <==>
            CurrentBranch(revParse).Success? &&
            CurrentBranch(revParse).value != "master" && CurrentBranch(revParse).value != "HEAD" &&
            found.Success? && found.value != [] &&
            forall i :: 0 <= i < |found.value| ==>
              PomAcceptable(CurrentBranch(revParse).value, excludes, found.value[i])
  {
    if CurrentBranch(revParse).Success? && found.Success? {
      CheckPomsAll(CurrentBranch(revParse).value, excludes, found.value);
    }
  }

  /** On develop the develop rule decides, and the feature rule is never
      applied; on any other branch it is the other way round. */
  lemma RuleFollowsBranch(branch: string, excludes: map<string, string>, path: string, v: string)
    requires path !in excludes && v != "" && !HasPrefix(v, "$")
    ensures CheckPom(branch, excludes, PomFile(path, Success(Pom(v, "")))).None? <==>
            if branch == "develop" then IsValidDevelopVersion(v) else FeatureCompatible(branch, v)
  {
  }
}
