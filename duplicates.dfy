/** `DupCheck` and the verdict `main` draws from it: every remote branch is
    checked out in turn and its top-level POM version read; branches sharing a
    version are a conflict. The git processes and the working tree are inputs:
    `fetch` is the error of `git fetch`, if any, `lsRemote` the lines of
    `git ls-remote --heads`, and `visit(b)` the outcomes of stashing, checking
    out `b` and decoding its pom.xml. */
module Duplicates {
  import opened Wrappers
  import opened Errors
  import opened Descriptor
  import opened RemoteHeads

  /** What happens on one branch: the errors of `git stash --include-untracked`
      and of `git checkout`, if any, and the decoded pom.xml. */
  datatype Visit = Visit(stash: Option<string>, checkout: Option<string>, pom: Result<Pom, string>)

  /** A branch and the effective version of its top-level POM. */
  datatype Entry = Entry(branch: string, version: string)

  /** One iteration of the loop over the branches, the update of the map aside. */
  function VisitBranch(branch: string, outcome: Visit): (r: Result<Entry, Error>)
    ensures outcome.stash.Some? ==> r == Failure(StashFailed(branch, outcome.stash.value))
    ensures outcome.stash.None? && outcome.checkout.Some? ==>
              r == Failure(CheckoutFailed(branch, outcome.checkout.value))
    ensures r.Success? <==>
              outcome.stash.None? && outcome.checkout.None? && PomVersion("pom.xml", outcome.pom).Success?
    ensures r.Success? ==> r.value == Entry(branch, PomVersion("pom.xml", outcome.pom).value)
  {
    if outcome.stash.Some? then Failure(StashFailed(branch, outcome.stash.value))
    else if outcome.checkout.Some? then Failure(CheckoutFailed(branch, outcome.checkout.value))
    else match PomVersion("pom.xml", outcome.pom)
      case Failure(e) => Failure(e)
      case Success(v) => Success(Entry(branch, v))
  }

  function StepOf(visit: string -> Visit): string -> Result<Entry, Error> {
    b => VisitBranch(b, visit(b))
  }

  // The map

  function Bucket(t: map<string, seq<string>>, version: string): seq<string> {
    if version in t then t[version] else []
  }

  /** The branch appended to the bucket of its version. */
  function Add(t: map<string, seq<string>>, e: Entry): map<string, seq<string>> {
    t[e.version := Bucket(t, e.version) + [e.branch]]
  }

  /** The map the loop builds from the entries, in order. */
  function Group(entries: seq<Entry>): (t: map<string, seq<string>>)
    ensures forall v :: v in t ==> t[v] != []
    decreases |entries|
  {
    if entries == [] then map[]
    else Add(Group(entries[..|entries| - 1]), entries[|entries| - 1])
  }

  /** The branches whose version is `version`, in the order of the entries. */
  function BranchesWith(entries: seq<Entry>, version: string): (bs: seq<string>)
    ensures |bs| <= |entries|
    decreases |entries|
  {
    if entries == [] then []
    else (if entries[0].version == version then [entries[0].branch] else []) + BranchesWith(entries[1..], version)
  }

  /** What `DupCheck` returns, as a function of its inputs. */
  function DupCheckResult(fetch: Option<string>, lsRemote: Result<seq<string>, string>,
                          visit: string -> Visit): Result<map<string, seq<string>>, Error>
  {
    if fetch.Some? then Failure(FetchFailed(fetch.value))
    else if lsRemote.Failure? then Failure(RemoteHeadsFailed(CommandFailed(lsRemote.error)))
    else match Traverse(lsRemote.value, ParseRefLine)
      case Failure(e) => Failure(RemoteHeadsFailed(e))
      case Success(branches) =>
        match Traverse(branches, StepOf(visit))
        case Failure(e) => Failure(e)
        case Success(entries) => Success(Group(entries))
  }

  method DupCheck(fetch: Option<string>, lsRemote: Result<seq<string>, string>, visit: string -> Visit)
    returns (r: Result<map<string, seq<string>>, Error>)
    ensures r == DupCheckResult(fetch, lsRemote, visit)
  {
    if fetch.Some? {
      return Failure(FetchFailed(fetch.value));
    }
    var heads := GetBranches(lsRemote);
    if heads.Failure? {
      return Failure(RemoteHeadsFailed(heads.error));
    }
    r := GroupByVersion(heads.value, visit);
  }

  /** The loop of `DupCheck` over the branches, filling the map `t`. */
  method GroupByVersion(branches: seq<string>, visit: string -> Visit)
    returns (r: Result<map<string, seq<string>>, Error>)
    ensures r == match Traverse(branches, StepOf(visit))
                 case Failure(e) => Failure(e)
                 case Success(entries) => Success(Group(entries))
  {
    var step := StepOf(visit);
    var t: map<string, seq<string>> := map[];
    ghost var entries: seq<Entry> := [];
    for i := 0 to |branches|
      invariant Traverse(branches[..i], step) == Success(entries)
      invariant t == Group(entries)
    {
      var branch := branches[i];
      var outcome := visit(branch);
      assert step(branch) == VisitBranch(branch, outcome);
      if outcome.stash.Some? {
        TraverseStop(branches, i, step);
        return Failure(StashFailed(branch, outcome.stash.value));
      }
      if outcome.checkout.Some? {
        TraverseStop(branches, i, step);
        return Failure(CheckoutFailed(branch, outcome.checkout.value));
      }
      var effectiveVersion := PomVersion("pom.xml", outcome.pom);
      if effectiveVersion.Failure? {
        TraverseStop(branches, i, step);
        return Failure(effectiveVersion.error);
      }
      var v := effectiveVersion.value;
      if v !in t {
        t := t[v := []];
      }
      t := t[v := t[v] + [branch]];
      TraverseExtend(branches, i, step, entries);
      ghost var before := entries;
      entries := entries + [Entry(branch, v)];
      assert entries[..|entries| - 1] == before;
    }
    assert branches[..|branches|] == branches;
    return Success(t);
  }

  /** A successful pass visits every branch, in order, and records the
      effective version of its pom.xml. */
  lemma EntriesFollowBranches(branches: seq<string>, visit: string -> Visit)
    requires Traverse(branches, StepOf(visit)).Success?
    ensures |Traverse(branches, StepOf(visit)).value| == |branches|
    ensures forall i :: 0 <= i < |branches| ==>
              var entry := Traverse(branches, StepOf(visit)).value[i];
              entry.branch == branches[i] &&
              visit(branches[i]).stash.None? && visit(branches[i]).checkout.None? &&
              PomVersion("pom.xml", visit(branches[i]).pom) == Success(entry.version)
  {
    TraverseSucceeds(branches, StepOf(visit));
  }

  /** A failed pass reports the first branch on which stashing, checking out
      or reading the POM fails. */
  lemma FirstFailingBranch(branches: seq<string>, visit: string -> Visit)
    requires Traverse(branches, StepOf(visit)).Failure?
    ensures exists k :: 0 <= k < |branches| &&
              VisitBranch(branches[k], visit(branches[k])) == Failure(Traverse(branches, StepOf(visit)).error) &&
              forall i :: 0 <= i < k ==> VisitBranch(branches[i], visit(branches[i])).Success?
  {
    TraverseFirstFailure(branches, StepOf(visit));
  }

  // What the map holds

  lemma {:induction false} BranchesWithAppend(entries: seq<Entry>, e: Entry, version: string)
    ensures BranchesWith(entries + [e], version) ==
            BranchesWith(entries, version) + (if e.version == version then [e.branch] else [])
    decreases |entries|
  {
    if entries == [] {
      assert ([] + [e])[1..] == [];
    } else {
      assert (entries + [e])[1..] == entries[1..] + [e];
      BranchesWithAppend(entries[1..], e, version);
    }
  }

  /** The keys are the versions met, and each bucket lists the branches with
      that version, each once, in the order they were enumerated. */
  lemma {:induction false} GroupBuckets(entries: seq<Entry>)
    ensures forall v :: v in Group(entries) <==> exists i :: 0 <= i < |entries| && entries[i].version == v
    ensures forall v :: v in Group(entries) ==> Group(entries)[v] == BranchesWith(entries, v)
    ensures forall v :: v !in Group(entries) ==> BranchesWith(entries, v) == []
    decreases |entries|
  {
    if entries != [] {
      var init, e := entries[..|entries| - 1], entries[|entries| - 1];
      assert entries == init + [e];
      GroupBuckets(init);
      forall v ensures BranchesWith(entries, v) == BranchesWith(init, v) + (if e.version == v then [e.branch] else []) {
        BranchesWithAppend(init, e, v);
      }
      assert forall i :: 0 <= i < |init| ==> init[i] == entries[i];
    }
  }

  /** No bucket is empty. */
  lemma {:induction false} BranchesWithNonEmpty(entries: seq<Entry>, v: string)
    ensures BranchesWith(entries, v) != [] <==> exists i :: 0 <= i < |entries| && entries[i].version == v
    decreases |entries|
  {
    if entries != [] {
      BranchesWithNonEmpty(entries[1..], v);
      assert forall i :: 1 <= i < |entries| ==> entries[i] == entries[1..][i - 1];
    }
  }

  /** Two entries have version v. */
  ghost predicate SharedBy(entries: seq<Entry>, v: string) {
    exists i, j :: 0 <= i < j < |entries| && entries[i].version == v && entries[j].version == v
  }

  lemma SharedByStep(entries: seq<Entry>, v: string)
    requires entries != []
    ensures SharedBy(entries, v) <==>
            (entries[0].version == v && exists j :: 0 <= j < |entries[1..]| && entries[1..][j].version == v) ||
            SharedBy(entries[1..], v)
  {
    var rest := entries[1..];
    if SharedBy(entries, v) {
      var i, j :| 0 <= i < j < |entries| && entries[i].version == v && entries[j].version == v;
      assert rest[j - 1] == entries[j];
      if i > 0 {
        assert rest[i - 1] == entries[i];
      }
    }
    if entries[0].version == v && exists j :: 0 <= j < |rest| && rest[j].version == v {
      var j :| 0 <= j < |rest| && rest[j].version == v;
      assert entries[j + 1] == rest[j];
    }
    if SharedBy(rest, v) {
      var i, j :| 0 <= i < j < |rest| && rest[i].version == v && rest[j].version == v;
      assert entries[i + 1] == rest[i] && entries[j + 1] == rest[j];
    }
  }

  /** A bucket has more than one branch exactly when two entries share its version. */
  lemma {:induction false} BranchesWithShared(entries: seq<Entry>, v: string)
    ensures |BranchesWith(entries, v)| > 1 <==> SharedBy(entries, v)
    decreases |entries|
  {
    if entries != [] {
      BranchesWithShared(entries[1..], v);
      BranchesWithNonEmpty(entries[1..], v);
      SharedByStep(entries, v);
    }
  }

  /** Some version has more than one branch. */
  ghost predicate SomeVersionShared(t: map<string, seq<string>>) {
    exists v :: v in t && |t[v]| > 1
  }

  /** The map has a shared version exactly when two branches have the same version. */
  lemma GroupSharedIff(entries: seq<Entry>)
    ensures SomeVersionShared(Group(entries)) <==>
            exists i, j :: 0 <= i < j < |entries| && entries[i].version == entries[j].version
  {
    GroupBuckets(entries);
    if SomeVersionShared(Group(entries)) {
      var v :| v in Group(entries) && |Group(entries)[v]| > 1;
      BranchesWithShared(entries, v);
    }
    if exists i, j :: 0 <= i < j < |entries| && entries[i].version == entries[j].version {
      var i, j :| 0 <= i < j < |entries| && entries[i].version == entries[j].version;
      var v := entries[i].version;
      BranchesWithShared(entries, v);
      assert v in Group(entries);
    }
  }

  /** The number of branches in all buckets together. */
  ghost function Total(t: map<string, seq<string>>): nat
    decreases |t.Keys|
  {
    if t == map[] then 0
    else
      var v :| v in t;
      |t[v]| + Total(t - {v})
  }

  lemma {:induction false} TotalAnyKey(t: map<string, seq<string>>, v: string)
    requires v in t
    ensures Total(t) == |t[v]| + Total(t - {v})
    decreases |t.Keys|
  {
    var w :| w in t && Total(t) == |t[w]| + Total(t - {w});
    if w != v {
      assert |(t - {w}).Keys| < |t.Keys| by {
        assert (t - {w}).Keys < t.Keys;
      }
      assert |(t - {v}).Keys| < |t.Keys| by {
        assert (t - {v}).Keys < t.Keys;
      }
      TotalAnyKey(t - {w}, v);
      TotalAnyKey(t - {v}, w);
      assert t - {w} - {v} == t - {v} - {w};
    }
  }

  lemma TotalAdd(t: map<string, seq<string>>, e: Entry)
    ensures Total(Add(t, e)) == Total(t) + 1
  {
    var t' := Add(t, e);
    TotalAnyKey(t', e.version);
    if e.version in t {
      TotalAnyKey(t, e.version);
      assert t' - {e.version} == t - {e.version};
    } else {
      assert t' - {e.version} == t;
    }
  }

  /** Every branch is counted once: the buckets together hold as many
      branches as were enumerated. */
  lemma {:induction false} GroupTotal(entries: seq<Entry>)
    ensures Total(Group(entries)) == |entries|
    decreases |entries|
  {
    if entries != [] {
      GroupTotal(entries[..|entries| - 1]);
      TotalAdd(Group(entries[..|entries| - 1]), entries[|entries| - 1]);
    }
  }

  // The verdict of main

  /** The loop of `main` over the map: is some version shared by several branches? */
  method SomeMultiples(t: map<string, seq<string>>) returns (someMultiples: bool)
    ensures someMultiples <==> SomeVersionShared(t)
  {
    someMultiples := false;
    var unseen := t.Keys;
    while unseen != {}
      invariant unseen <= t.Keys
      invariant someMultiples <==> exists v :: v in t.Keys - unseen && |t[v]| > 1
      decreases |unseen|
    {
      var k :| k in unseen;
      if |t[k]| > 1 {
        someMultiples := true;
      }
      unseen := unseen - {k};
    }
  }

  /** The exit status of the duplicate-version mode: 1 when `DupCheck` fails
      or some version is shared, 0 otherwise. */
  method DupModeStatus(result: Result<map<string, seq<string>>, Error>) returns (status: int)
    ensures status == if result.Failure? || SomeVersionShared(result.value) then 1 else 0
  {
    if result.Failure? {
      return 1;
    }
    var someMultiples := SomeMultiples(result.value);
    status := if someMultiples then 1 else 0;
  }

  /** The mode fails on a successful enumeration exactly when two branches
      carry the same POM version. */
  lemma DupModeFailsOnSharedVersion(fetch: Option<string>, lsRemote: Result<seq<string>, string>,
                                    visit: string -> Visit, entries: seq<Entry>)
    requires fetch.None? && lsRemote.Success?
    requires Traverse(lsRemote.value, ParseRefLine).Success?
    requires Traverse(Traverse(lsRemote.value, ParseRefLine).value, StepOf(visit)) == Success(entries)
    ensures DupCheckResult(fetch, lsRemote, visit) == Success(Group(entries))
    ensures SomeVersionShared(Group(entries)) <==>
            exists i, j :: 0 <= i < j < |entries| && entries[i].version == entries[j].version
  {
    GroupSharedIff(entries);
  }
}
