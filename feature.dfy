/** `IsValidFeatureVersion`: a branch `prefix/story` and a POM version agree
    when the normalised version ends with the normalised story followed by
    "snapshot". Normalising lowercases and keeps only letters and digits. */
module FeatureVersion {
  import opened GoStrings

  predicate IsKept(c: char) { IsDigit(c) || IsLetter(c) }

  /** The characters normalisation can produce. */
  predicate IsNormalChar(c: char) { IsDigit(c) || 'a' <= c <= 'z' }

  predicate IsNormal(s: string) { forall i :: 0 <= i < |s| ==> IsNormalChar(s[i]) }

  /** The letters and digits of s, in order. */
  function KeepLettersAndDigits(s: string): (r: string)
    ensures |r| <= |s|
    ensures forall i :: 0 <= i < |r| ==> IsKept(r[i]) && r[i] in s
    decreases |s|
  {
    if s == [] then []
    else
      var c := s[|s| - 1];
      KeepLettersAndDigits(s[..|s| - 1]) + (if IsKept(c) then [c] else [])
  }

  /** The normal form of a story or a version. */
  function Normalized(s: string): (r: string)
    ensures IsNormal(r)
  {
    KeepLettersAndDigits(ToLower(s))
  }

  /** The loop of branchcheck.go that builds `normalizedStory` or
      `normalizedVersion`, appending each kept character of the lowercased input. */
  method Normalize(s: string) returns (normalized: string)
    ensures normalized == Normalized(s)
  {
    var lowered := ToLower(s);
    normalized := "";
    for i := 0 to |lowered|
      invariant normalized == KeepLettersAndDigits(lowered[..i])
    {
      var v := lowered[i];
      if IsDigit(v) || IsLetter(v) {
        normalized := normalized + [v];
      }
      assert lowered[..i + 1][..i] == lowered[..i];
    }
    assert lowered[..|lowered|] == lowered;
  }

  /** The decision of `IsValidFeatureVersion`, as a function of its inputs. */
  predicate FeatureCompatible(branch: string, version: string) {
    var parts := Split(branch, '/');
    |parts| == 2 && HasSuffix(Normalized(version), Normalized(parts[1]) + "snapshot")
  }

  method IsValidFeatureVersion(branch: string, version: string) returns (ok: bool)
    ensures ok == FeatureCompatible(branch, version)
  {
    var parts := Split(branch, '/');
    if |parts| != 2 {
      return false;
    }
    var normalizedStory := Normalize(parts[1]);
    var normalizedVersion := Normalize(version);
    ok := HasSuffix(normalizedVersion, normalizedStory + "snapshot");
  }

  // Normalisation

  lemma {:induction false} KeepAppend(x: string, y: string)
    ensures KeepLettersAndDigits(x + y) == KeepLettersAndDigits(x) + KeepLettersAndDigits(y)
    decreases |y|
  {
    if y != [] {
      var y' := y[..|y| - 1];
      assert (x + y)[..|x + y| - 1] == x + y';
      KeepAppend(x, y');
    } else {
      assert x + y == x;
    }
  }

  /** Normalisation distributes over concatenation. */
  lemma NormalizedAppend(x: string, y: string)
    ensures Normalized(x + y) == Normalized(x) + Normalized(y)
  {
    ToLowerAppend(x, y);
    KeepAppend(ToLower(x), ToLower(y));
  }

  lemma {:induction false} KeepOfKept(s: string)
    requires forall i :: 0 <= i < |s| ==> IsKept(s[i])
    ensures KeepLettersAndDigits(s) == s
    decreases |s|
  {
    if s != [] {
      KeepOfKept(s[..|s| - 1]);
      assert s[..|s| - 1] + [s[|s| - 1]] == s;
    }
  }

  /** Normalised text is a fixed point of normalisation. */
  lemma NormalizedOfNormal(s: string)
    requires IsNormal(s)
    ensures Normalized(s) == s
  {
    assert ToLower(s) == s;
    KeepOfKept(s);
  }

  /** Normalising twice is normalising once. */
  lemma NormalizedIdempotent(s: string)
    ensures Normalized(Normalized(s)) == Normalized(s)
  {
    NormalizedOfNormal(Normalized(s));
  }

  /** A character that is neither a letter nor a digit is dropped wherever it stands. */
  lemma NormalizedDropsPunctuation(x: string, c: char, y: string)
    requires !IsKept(c)
    ensures Normalized(x + [c] + y) == Normalized(x + y)
  {
    NormalizedAppend(x + [c], y);
    NormalizedAppend(x, [c]);
    NormalizedAppend(x, y);
    assert Normalized([c]) == KeepLettersAndDigits([] + [ToLowerChar(c)]);
  }

  /** Upper and lower case normalise alike. */
  lemma NormalizedIgnoresCase(s: string)
    ensures Normalized(ToLower(s)) == Normalized(s)
  {
    assert ToLower(ToLower(s)) == ToLower(s);
  }

  /** A mark that is neither a letter nor a digit, followed by "snapshot" in
      any case, normalises to "snapshot". */
  lemma NormalizedMarker(c: char, m: string)
    requires !IsKept(c) && ToLower(m) == "snapshot"
    ensures Normalized([c] + m) == "snapshot"
  {
    ToLowerAppend([c], m);
    KeepAppend(ToLower([c]), "snapshot");
    assert ToLower([c]) == [] + [ToLowerChar(c)];
    KeepOfKept("snapshot");
  }

  lemma LowerSnapshot(m: string)
    requires m == "SNAPSHOT"
    ensures ToLower(m) == "snapshot"
  {
    var l := ToLower(m);
    assert l[0] == 's' && l[1] == 'n' && l[2] == 'a' && l[3] == 'p';
    assert l[4] == 's' && l[5] == 'h' && l[6] == 'o' && l[7] == 't';
  }

  lemma DashSnapshot()
    ensures ['-'] + "SNAPSHOT" == "-SNAPSHOT"
  {
  }

  lemma NormalizedSnapshot()
    ensures Normalized("-SNAPSHOT") == "snapshot"
  {
    LowerSnapshot("SNAPSHOT");
    NormalizedMarker('-', "SNAPSHOT");
    DashSnapshot();
  }

  // The decision

  /** The branch must have exactly one '/': any other branch rejects every version. */
  lemma MalformedBranchRejected(branch: string, version: string)
    requires Count(branch, '/') != 1
    ensures !FeatureCompatible(branch, version)
  {
    SplitCount(branch, '/');
  }

  lemma SplitBranch(prefix: string, story: string)
    requires '/' !in prefix && '/' !in story
    ensures Split(prefix + "/" + story, '/') == [prefix, story]
  {
    SplitJoin([prefix, story], '/');
    assert Join([prefix, story], '/') == prefix + "/" + story;
  }

  /** On a well-formed branch the rule is the suffix test on the story alone;
      the prefix is never looked at. */
  lemma AcceptanceRule(prefix: string, story: string, version: string)
    requires '/' !in prefix && '/' !in story
    ensures FeatureCompatible(prefix + "/" + story, version)
            <==> HasSuffix(Normalized(version), Normalized(story) + "snapshot")
  {
    SplitBranch(prefix, story);
  }

  /** Two branches with the same story and any prefixes are treated alike. */
  lemma PrefixIgnored(p: string, q: string, story: string, version: string)
    requires '/' !in p && '/' !in q && '/' !in story
    ensures FeatureCompatible(p + "/" + story, version) == FeatureCompatible(q + "/" + story, version)
  {
    AcceptanceRule(p, story, version);
    AcceptanceRule(q, story, version);
  }

  /** Stories that differ only in case and punctuation are treated alike. */
  lemma StoryUpToNormalization(prefix: string, s1: string, s2: string, version: string)
    requires '/' !in prefix && '/' !in s1 && '/' !in s2
    requires Normalized(s1) == Normalized(s2)
    ensures FeatureCompatible(prefix + "/" + s1, version) == FeatureCompatible(prefix + "/" + s2, version)
  {
    AcceptanceRule(prefix, s1, version);
    AcceptanceRule(prefix, s2, version);
  }

  lemma NormalizedEndsWithStory(x: string, story: string, marker: string)
    requires Normalized(marker) == "snapshot"
    ensures HasSuffix(Normalized(x + story + marker), Normalized(story) + "snapshot")
  {
    NormalizedAppend(x + story, marker);
    NormalizedAppend(x, story);
    var t := Normalized(story) + "snapshot";
    assert Normalized(x + story + marker) == Normalized(x) + t;
    HasSuffixOfAppend(Normalized(x), t);
  }

  /** Any text, then the story, then a marker that normalises to "snapshot"
      is an accepted version. */
  lemma MarkedStoryAccepted(prefix: string, story: string, x: string, marker: string)
    requires '/' !in prefix && '/' !in story
    requires Normalized(marker) == "snapshot"
    ensures FeatureCompatible(prefix + "/" + story, x + story + marker)
  {
    NormalizedEndsWithStory(x, story, marker);
    AcceptanceRule(prefix, story, x + story + marker);
  }

  /** Any text, then the story, then "-SNAPSHOT" is an accepted version. */
  lemma SnapshotOfStoryAccepted(prefix: string, story: string, x: string)
    requires '/' !in prefix && '/' !in story
    ensures FeatureCompatible(prefix + "/" + story, x + story + "-SNAPSHOT")
  {
    NormalizedSnapshot();
    MarkedStoryAccepted(prefix, story, x, "-SNAPSHOT");
  }

  /** A version carrying the story in another case or with other punctuation
      is accepted too. */
  lemma RespelledStoryAccepted(prefix: string, story: string, respelled: string, x: string)
    requires '/' !in prefix && '/' !in story && '/' !in respelled
    requires Normalized(respelled) == Normalized(story)
    ensures FeatureCompatible(prefix + "/" + story, x + respelled + "-SNAPSHOT")
  {
    SnapshotOfStoryAccepted(prefix, respelled, x);
    StoryUpToNormalization(prefix, respelled, story, x + respelled + "-SNAPSHOT");
  }

  /** Every accepted version normalises to something ending in "snapshot". */
  lemma AcceptedIsSnapshot(branch: string, version: string)
    requires FeatureCompatible(branch, version)
    ensures HasSuffix(Normalized(version), "snapshot")
  {
    var parts := Split(branch, '/');
    var n := Normalized(version);
    var t := Normalized(parts[1]) + "snapshot";
    assert n[|n| - 8..] == t[|t| - 8..];
  }

  /** The suffix test does not look for a boundary before the story: an empty
      story accepts every version that normalises to a snapshot. */
  lemma EmptyStoryAcceptsAnySnapshot(prefix: string, version: string)
    requires '/' !in prefix
    ensures FeatureCompatible(prefix + "/", version) <==> HasSuffix(Normalized(version), "snapshot")
  {
    AcceptanceRule(prefix, "", version);
    assert prefix + "/" + "" == prefix + "/";
  }
}
