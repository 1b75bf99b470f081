# branchcheck, modelled in Dafny

branchcheck is a pre-merge gate for Maven projects that follow a
develop/feature-branch workflow. In its default mode it reads the current git
branch and the version of every `pom.xml` in the working tree. It fails when
they disagree:

- On `develop`, every version must contain a match of
  `[1-9]+(\.[0-9]+)+-SNAPSHOT`.
- On a branch `prefix/story`, every version must end, after normalising, with
  the normalised story and `snapshot`.

In its duplicate-version mode it checks out every remote branch in turn. It
groups the branches by the version of their top-level POM and fails when two
branches share a version.

This project models the decision logic of `branchcheck.go` and proves what it
decides. Every git process, the working-tree walk, file reading and XML
decoding become inputs:

- the output of `git rev-parse`;
- the outcome of `FindPoms` together with each file's decoded POM;
- the flag value of `-excludes`;
- the error of `git fetch`;
- the lines of `git ls-remote --heads`;
- a function giving, for each branch, the outcomes of `git stash`,
  `git checkout` and decoding its `pom.xml`.

Modules, one per file:

- `Wrappers` (wrappers.dfy): `Option`, `Result`, and `Traverse`, a
  first-failure loop over a sequence, with its lemmas.
- `GoStrings` (gostrings.dfy): the models of the Go library calls the code
  makes: `strings.Split`, `Fields`, `Replace`, `ToLower`, `HasPrefix`,
  `HasSuffix`, and `unicode.IsLetter` and `IsDigit`. Also `strings.Join`,
  which only the round-trip lemmas use, and `unicode.IsSpace`, the
  white-space test inside `strings.Fields`.
- `Errors` (errors.dfy): one constructor per error the code returns.
  `PomUnreadable` stands for both the `ReadFile` and the `Decode` error of
  `PomVersion` (branchcheck.go:310-319). `EmptyCommandOutput` and
  `RefLinePanic` stand for runtime panics, not returned errors.
- `Descriptor` (descriptor.dfy): how `PomVersion` selects the effective
  version of a decoded POM.
- `FeatureVersion` (feature.dfy) and `FeatureExamples` (feature_examples.dfy):
  `IsValidFeatureVersion`, its normalisation loops, and the test pairs.
- `DevelopVersion` (develop.dfy) and `DevelopExamples` (develop_examples.dfy):
  the regular expression of `IsValidDevelopVersion`, stated as a language. A
  scan is proved to accept exactly the versions with a substring in that
  language.
- `Excludes` (excludes.dfy): the loop of `init` that builds `excludesMap`.
- `Compat` (compat.dfy): `CurrentBranch` and `BranchCompat`.
- `RemoteHeads` (remote.dfy): the line parsing of `GetBranches`.
- `Duplicates` (duplicates.dfy): `DupCheck`, its version-to-branches map, and
  the verdict `main` draws from that map.

Each loop of the code is a `method` with a loop. The method is proved equal to
a specification function, and lemmas state what that function means:

- the normalisation in `IsValidFeatureVersion`;
- the POM loop in `BranchCompat`;
- the `excludesMap` fill in `init`;
- the line loop in `GetBranches`;
- the branch loop in `DupCheck`;
- the map scan in `main`.

`PomVersion`'s field selection and the regular expression are expressions in
the code, so they are modelled as functions.

Where a stricter reading of the tool and the code disagree, the model
follows the code:

- The develop check is an unanchored match of `[1-9]+(\.[0-9]+)+-SNAPSHOT`.
  So `10.0-SNAPSHOT` is rejected, because `[1-9]+` cannot take its `0`
  (`DevelopExamples.RejectedTenZero`). Text before or after a matching part
  is allowed (`DevelopExamples.AcceptedTrailingText`,
  `DevelopExamples.AcceptedLeadingText`).
- The tests in branchcheck_test.go:25-39 expect a literal `-SNAPSHOT`
  suffix, a `-`→`_` convention, a case-sensitive comparison and a check of
  known prefixes. They call `IsBranchVersionCompatible`, which
  branchcheck.go does not define. `IsValidFeatureVersion` does none of these:
  - It normalises the story and the whole version alike, lowercasing them and
    dropping everything but letters and digits.
  - It never looks at the branch prefix (`FeatureVersion.PrefixIgnored`).
  - So `feature/US-1922` accepts `1.1-US_1922-SNAPSHOT`
    (`FeatureExamples.PunctuationAndCaseTolerated`), and `a/b` accepts
    `1.2-b.snapshot` (`FeatureExamples.SnapshotMarkerNormalized`).
- A reader might expect the duplicate-version mode to check out the original
  branch again when it is done. `DupCheck` (branchcheck.go:258-287) does not,
  and the model has no restore step.
- A repository whose trunk is called `main` is not treated like one whose
  trunk is `master`: `BranchCompat` refuses only `master`
  (branchcheck.go:88-90).

## Model

| member | source | states |
|---|---|---|
| FeatureVersion.Normalize | branchcheck.go:158-172 | the append loop builds exactly `Normalized(s)`: the lowercased input with everything but letters and digits dropped |
| FeatureVersion.IsValidFeatureVersion | branchcheck.go:151-175 | the method's answer is `FeatureCompatible`: exactly two `/`-parts and the normalised version ends with the normalised story plus "snapshot" |
| FeatureVersion.KeepLettersAndDigits | branchcheck.go:160-163 | the filter keeps only letters and digits, each taken from the input, and never lengthens it |
| FeatureVersion.Normalized | branchcheck.go:158-172 | normalised text holds only lowercase letters and digits |
| FeatureVersion.NormalizedAppend | branchcheck.go:158-172 | normalisation distributes over concatenation |
| FeatureVersion.NormalizedOfNormal | branchcheck.go:158-172 | text of lowercase letters and digits is left unchanged |
| FeatureVersion.NormalizedIdempotent | branchcheck.go:158-172 | normalising twice equals normalising once |
| FeatureVersion.NormalizedDropsPunctuation | branchcheck.go:161 | a character that is neither a letter nor a digit is dropped wherever it stands |
| FeatureVersion.NormalizedIgnoresCase | branchcheck.go:160 | lowercasing first does not change the normal form |
| FeatureVersion.NormalizedSnapshot | branchcheck.go:168-174 | "-SNAPSHOT" normalises to the "snapshot" the suffix test appends |
| FeatureVersion.NormalizedMarker | branchcheck.go:168-174 | a character that is neither a letter nor a digit, followed by "snapshot" in any case, normalises to "snapshot" |
| FeatureVersion.MalformedBranchRejected | branchcheck.go:153-156 | a branch without exactly one `/` rejects every version |
| FeatureVersion.SplitBranch | branchcheck.go:153 | a `/`-free prefix and story split back into those two parts |
| FeatureVersion.AcceptanceRule | branchcheck.go:153-174 | on a well-formed branch: accepted iff the normalised version ends with the normalised story plus "snapshot" |
| FeatureVersion.PrefixIgnored | branchcheck.go:153-174 | two branches that differ only in their prefix decide alike |
| FeatureVersion.StoryUpToNormalization | branchcheck.go:158-174 | stories with the same normal form decide alike |
| FeatureVersion.MarkedStoryAccepted | branchcheck.go:174 | any text, the story, and a marker that normalises to "snapshot" is accepted |
| FeatureVersion.SnapshotOfStoryAccepted | branchcheck.go:174 | any text, the story, then "-SNAPSHOT" is accepted |
| FeatureVersion.RespelledStoryAccepted | branchcheck.go:158-174 | the story in another case or punctuation, then "-SNAPSHOT", is accepted |
| FeatureVersion.AcceptedIsSnapshot | branchcheck.go:174 | every accepted version normalises to something ending in "snapshot" |
| FeatureVersion.EmptyStoryAcceptsAnySnapshot | branchcheck.go:174 | `prefix/` with an empty story accepts exactly the versions whose normal form ends in "snapshot" |
| FeatureExamples.AcceptedPlainStory | branch_test.go:7 | `a/b` accepts `1.2-b-SNAPSHOT` |
| FeatureExamples.AcceptedUnderscoredStory | branch_test.go:8 | `feature/US1922` accepts `1.1-US_1922-SNAPSHOT` |
| FeatureExamples.AcceptedRepunctuatedStory | branch_test.go:9 | `feature/TRNK-12` accepts `14.6-TRNK_12-SNAPSHOT` |
| FeatureExamples.AcceptedDigitStory | branch_test.go:10 | `bug/123` accepts `1.2.3-123-SNAPSHOT` |
| FeatureExamples.AcceptedLongStory | branch_test.go:11 | `feature/PRJ-4385-tok-tik-tx-trailer` accepts `0.0-PRJ-4385-tok-tik-tx-trailer-SNAPSHOT` |
| FeatureExamples.RejectedNoSnapshot | branch_test.go:23 | `a/b` rejects `1.2-b` |
| FeatureExamples.RejectedOtherStory | branch_test.go:24 | `feature/US19222` rejects `1.1-us_1922-SNAPSHOT` |
| FeatureExamples.RejectedMalformedBranch | branch_test.go:25 | `somebranch` and `a/b/c` reject every version |
| FeatureExamples.AcceptedLowercasedStory | branchmatch_test.go:27 | `feature/US1355` accepts `1.0-us_1355-SNAPSHOT` |
| FeatureExamples.AcceptedBugStory | branchmatch_test.go:29 | `feature/Bug77` accepts `2.14-bug_77-SNAPSHOT` |
| FeatureExamples.PunctuationAndCaseTolerated | branchcheck.go:158-174 | `feature/US-1922` accepts `1.1-US_1922-SNAPSHOT` |
| FeatureExamples.SnapshotMarkerNormalized | branchcheck.go:168-174 | `a/b` accepts `1.2-b.snapshot` |
| DevelopVersion.IsValidDevelopVersion | branchcheck.go:177-180 | true iff some substring of the version is in `[1-9]+(\.[0-9]+)+-SNAPSHOT`, stated as a language |
| DevelopVersion.ScanCorrect | branchcheck.go:178 | the left-to-right scan accepts exactly the versions with a matching substring |
| DevelopVersion.RunEnd | branchcheck.go:178 | the end of the maximal run of one character class |
| DevelopVersion.GroupsFromSound | branchcheck.go:178 | groups the scan accepts are `(\.[0-9]+)+` followed by "-SNAPSHOT" |
| DevelopVersion.GroupsFromComplete | branchcheck.go:178 | `(\.[0-9]+)+` followed by "-SNAPSHOT" is found by the scan |
| DevelopVersion.MatchAtSound | branchcheck.go:178 | a scan hit at i is a word of the language starting at i |
| DevelopVersion.MatchAtComplete | branchcheck.go:178 | a word of the language starting at i is a scan hit at i |
| DevelopVersion.MatchAtIff | branchcheck.go:178 | a scan hit at i iff some word of the language starts at i |
| DevelopVersion.MatchFromIff | branchcheck.go:178 | the search from i succeeds iff some position from i on is a hit |
| DevelopVersion.DotGroupsAlphabet | branchcheck.go:178 | `(\.[0-9]+)+` holds only digits and dots |
| DevelopVersion.PatternShape | branchcheck.go:178 | a word of the language has at least 12 characters, a dot at the returned index, and the suffix "-SNAPSHOT" |
| DevelopVersion.PatternAlphabet | branchcheck.go:178 | every character of a word of the language is a digit, a dot or a letter of "-SNAPSHOT" |
| DevelopVersion.MatchShape | branchcheck.go:178 | a version with a matching substring has at least 12 characters, a dot and an occurrence of "-SNAPSHOT" |
| DevelopVersion.AcceptedShape | branchcheck.go:177-180 | an accepted version has at least 12 characters, a dot and an occurrence of "-SNAPSHOT" |
| DevelopVersion.MatchInContext | branchcheck.go:178 | a matching substring stays one when text is added before and after |
| DevelopVersion.AcceptedInContext | branchcheck.go:178 | the match is unanchored: text before and after an accepted version keeps it accepted |
| DevelopVersion.ForeignCharSplitsMatch | branchcheck.go:178 | a match never spans a character outside the language's alphabet |
| DevelopVersion.SeparatedByForeignChar | branchcheck.go:177-180 | a character outside the alphabet splits the question: accepted iff one side is |
| DevelopExamples.ShortRejected | branchcheck.go:177-180 | a version shorter than 12 characters is rejected |
| DevelopExamples.DotlessRejected | branchcheck.go:177-180 | a version without a dot is rejected |
| DevelopExamples.SplitRejected | branchcheck.go:177-180 | a character outside the alphabet with rejected text on both sides gives a rejected version |
| DevelopExamples.AcceptedOneDigitMinor | branchcheck_test.go:42 | `1.0-SNAPSHOT` is accepted |
| DevelopExamples.AcceptedTwoDigitMinor | branchcheck_test.go:42 | `2.14-SNAPSHOT` is accepted |
| DevelopExamples.AcceptedThreePart | branchcheck_test.go:42 | `2.14.15-SNAPSHOT` is accepted |
| DevelopExamples.RejectedFeatureText | branchcheck_test.go:52 | `1.0-us_feature-SNAPSHOT` is rejected |
| DevelopExamples.RejectedBugText | branchcheck_test.go:52 | `2.14-bug_77-SNAPSHOT` is rejected |
| DevelopExamples.RejectedRelease | branchcheck_test.go:52 | `1.0` is rejected |
| DevelopExamples.RejectedTenZero | branchcheck.go:178 | `10.0-SNAPSHOT` is rejected |
| DevelopExamples.AcceptedTrailingText | branchcheck.go:178 | `1.0-SNAPSHOT-20190101` is accepted |
| DevelopExamples.AcceptedLeadingText | branchcheck.go:178 | `us_feature-1.0-SNAPSHOT` is accepted |
| Descriptor.EffectiveVersion | branchcheck.go:321-333 | an error naming the file iff both versions are empty; otherwise the own version when non-empty, else the parent's; never empty |
| Descriptor.PomVersion | branchcheck.go:309-340 | a read or decode failure is returned; otherwise the effective version |
| Descriptor.PomExamples | pom_test.go:5-40 | the own version, the parent's, an override, and a missing file, whose failed read is an input here |
| Excludes.ParseExcludes | branchcheck.go:42-46 | the map's keys are exactly the comma-separated pieces of the flag, and every value is "" |
| Excludes.ExcludedPaths | branchcheck.go:42 | no excluded path contains a comma |
| Excludes.ExcludedPathsOfList | branchcheck.go:42-46 | a flag joining comma-free paths excludes exactly those paths |
| Excludes.EmptyFlagExcludesEmptyPath | branchcheck.go:30 | the default, empty flag excludes the empty path and nothing else |
| Excludes.TrailingCommaExcludesEmptyPath | branchcheck.go:42 | a trailing comma adds the empty path |
| Compat.CurrentBranch | branchcheck.go:143-149 | a command error is returned; empty output is an error; otherwise the output without its last character |
| Compat.CurrentBranchOfLine | branchcheck.go:147 | a branch name printed on its own line is the current branch |
| Compat.BranchCompat | branchcheck.go:82-141 | the method returns exactly `BranchCompatResult` of its inputs |
| Compat.CheckPomAcceptable | branchcheck.go:109-139 | one iteration goes on iff the POM is excluded, has an unresolved `$` version, or has a version valid for the branch |
| Compat.CheckPom | branchcheck.go:114-138 | one iteration of the POM loop: only a POM that is not excluded can fail it, and one that cannot be read fails it with the read error |
| Compat.CheckPomsAll | branchcheck.go:109-140 | the loop returns nil iff every POM is acceptable |
| Compat.CheckPomsFirstError | branchcheck.go:109-139 | a failing loop returns the error of the first POM that is not acceptable, every earlier one being acceptable |
| Compat.CheckPomsAppend | branchcheck.go:109-139 | the loop over a concatenation stops at the first part's error, else goes on with the rest |
| Compat.ExcludedPomIgnored | branchcheck.go:114-119 | an excluded POM, even one that cannot be decoded, makes no difference wherever it stands |
| Compat.MasterAndHeadRefused | branchcheck.go:88-94 | `master` and `HEAD` are refused before any POM is looked for |
| Compat.OtherBranchChecksPoms | branchcheck.go:100-140 | on other branches an empty POM list is an error, else the POM loop decides |
| Compat.BranchCompatPasses | branchcheck.go:82-141 | the check passes iff the branch is known and neither master nor HEAD, the POMs are found, there is one at least, and all are acceptable |
| Compat.RuleFollowsBranch | branchcheck.go:130-138 | on `develop` the develop rule decides; on any other branch the feature rule does |
| RemoteHeads.ParseRefLine | branchcheck.go:247-248 | an error iff the line has fewer than two fields |
| RemoteHeads.GetBranches | branchcheck.go:238-253 | a command error is returned; otherwise the lines are parsed in order, stopping at the first bad one |
| RemoteHeads.RefLineRoundTrip | branchcheck.go:247-248 | a line `commit<space>refs/heads/<name>` gives back the name |
| RemoteHeads.BranchListRoundTrip | branchcheck.go:246-250 | the lines for a list of branches give back the list |
| Duplicates.DupCheck | branchcheck.go:258-287 | the method returns exactly `DupCheckResult`: fetch error, then remote-heads error, then the branch loop |
| Duplicates.GroupByVersion | branchcheck.go:268-286 | the loop stops at the first failing branch, else returns the grouping of the entries |
| Duplicates.EntriesFollowBranches | branchcheck.go:269-284 | a successful pass has one entry per branch, in order, holding that branch and its effective version |
| Duplicates.VisitBranch | branchcheck.go:270-279 | a failed stash is reported first, then a failed checkout, then a failed POM read; otherwise the entry is the branch with its effective version |
| Duplicates.Group | branchcheck.go:280-284 | the map the loop fills has no empty bucket (GroupBuckets gives its keys and buckets) |
| Duplicates.FirstFailingBranch | branchcheck.go:269-279 | a failed pass reports the first branch whose stash, checkout or POM read fails |
| Duplicates.BranchesWithAppend | branchcheck.go:284 | appending an entry extends only the bucket of its version |
| Duplicates.GroupBuckets | branchcheck.go:280-284 | the keys are the versions met, and each bucket lists that version's branches in enumeration order |
| Duplicates.BranchesWithNonEmpty | branchcheck.go:280-284 | a version's bucket is non-empty iff some branch has it |
| Duplicates.BranchesWithShared | branchcheck.go:280-284 | a bucket holds more than one branch iff two entries share the version |
| Duplicates.GroupSharedIff | branchcheck.go:59-68 | some bucket has more than one branch iff two branches have the same version |
| Duplicates.TotalAnyKey | branchcheck.go:268-285 | the bucket total can be counted from any key |
| Duplicates.TotalAdd | branchcheck.go:280-284 | one append adds one branch to the total |
| Duplicates.GroupTotal | branchcheck.go:268-285 | the buckets together hold as many branches as were enumerated |
| Duplicates.SomeMultiples | branchcheck.go:59-65 | the loop over the map finds a bucket longer than one iff there is one |
| Duplicates.DupModeStatus | branchcheck.go:56-70 | the mode's exit status is 1 iff `DupCheck` fails or some version is shared, else 0 |
| Duplicates.DupModeFailsOnSharedVersion | branchcheck.go:55-70 | on a successful enumeration the mode fails iff two branches carry the same version |
| Wrappers.TraverseSucceeds | branchcheck.go:269-285 | a first-failure loop succeeds iff every element does, and then collects their results in order |
| Wrappers.TraverseFirstFailure | branchcheck.go:269-279 | a failed loop reports the first element that fails |
| Wrappers.TraversePrefixFailure | branchcheck.go:246-249 | once a prefix fails, the whole loop fails the same way |
| GoStrings.Split | branchcheck.go:153 | `strings.Split` gives at least one part, none containing the separator |
| GoStrings.SplitCount | branchcheck.go:153-154 | there is one more part than there are separators |
| GoStrings.JoinSplit | branchcheck.go:153 | joining the parts gives back the string |
| GoStrings.SplitJoin | branchcheck.go:42 | splitting a join of separator-free parts gives back the parts |
| GoStrings.SplitEndingInSeparator | branchcheck.go:42 | a trailing separator adds an empty last part |
| GoStrings.Fields | branchcheck.go:247 | `strings.Fields` gives non-empty fields without white space |
| GoStrings.FieldsJoin | branchcheck.go:247 | words joined by one space character are taken apart again |
| GoStrings.ReplaceAllAbsent | branchcheck.go:248 | a string without the pattern is left unchanged |
| GoStrings.ReplaceAllLeading | branchcheck.go:248 | a leading occurrence is replaced and the scan resumes after it |
| GoStrings.ToLower | branchcheck.go:160 | lowercasing works character by character and keeps the length |
| GoStrings.HasSuffixIff | branchcheck.go:174 | `HasSuffix` holds iff the string is some text followed by the suffix |
| GoStrings.ReplaceAll | branchcheck.go:248 | `strings.Replace` with count -1: every non-overlapping occurrence, found from the left, is replaced, the empty pattern excluded; deleting never lengthens the string, and a string shorter than the pattern is unchanged |
| GoStrings.HasPrefix | branchcheck.go:125 | `strings.HasPrefix`: the prefix fits and the string begins with it (no contract of its own; HasPrefixIff characterises it) |
| GoStrings.HasPrefixIff | branchcheck.go:125 | `HasPrefix` holds iff the string is the prefix followed by some text |
| GoStrings.HasSuffix | branchcheck.go:174 | `strings.HasSuffix`: the suffix fits and the string ends with it (no contract of its own; HasSuffixIff characterises it) |
| GoStrings.IsLetter | branchcheck.go:161 | `unicode.IsLetter` over ASCII: `a`-`z` and `A`-`Z` (a definition, with no contract of its own) |
| GoStrings.IsDigit | branchcheck.go:169 | `unicode.IsDigit` over ASCII: `0`-`9` (a definition, with no contract of its own) |
| GoStrings.IsSpace | branchcheck.go:247 | the Unicode White_Space set `strings.Fields` splits on (a definition, with no contract of its own) |

## Left out

- Running git (`Exec`, `GitFetch`, `GitStash`, `GitCheckoutBranch`, and the
  process parts of `CurrentBranch` and `GetBranches`). Their outcomes are
  inputs.
- `FindPoms`'s walk of the working tree, and reading and XML-decoding each
  POM. Their outcomes are inputs.
- `WalkToGitRoot`: it calls `os.Stat`, recurses without bound, and nothing
  calls it.
- Flag parsing, the `BRANCHCHECK_DEBUG` environment read, `-version`, all
  logging, and `os.Exit` in the compatibility mode: these are process side
  effects. Only the exit status of the duplicate-version mode is modelled.
- `bufio.Scanner`'s cutting of the `ls-remote` output into lines, and its
  token-size limit: the output comes in as lines.
- Go's runtime panics (an empty rev-parse output, an ls-remote line with
  fewer than two fields, such as a blank line) are modelled as error values (`EmptyCommandOutput`,
  `RefLinePanic`). The program would crash instead.
- The `fmt.Errorf` message texts: each error is a constructor carrying its
  parts.
- Duplicates.DupCheck: the visit outcome of a branch is a function of its name
  alone. State carried between checkouts, such as a stash that changes the
  next checkout, is not modelled. Nor is the order in which Go iterates the
  map when logging.
- Unicode: `unicode.IsLetter`, `unicode.IsDigit` and `strings.ToLower` are
  modelled over ASCII only. Non-ASCII letters and digits are dropped by the
  model, whereas Go keeps them. `unicode.IsSpace` is modelled in full.
- GoStrings.ReplaceAll: the empty-pattern case of `strings.Replace` is not
  modelled. The code always passes "refs/heads/".
- The functions that only the test files name (`IsBranchVersionCompatible`,
  `truncateVersion`, `normalizeStory`, `branchParts`, `IsFeatureBranch`).
  They are not defined in `branchcheck.go`.
