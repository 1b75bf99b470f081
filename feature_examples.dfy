/** The branch/version pairs of the repository's feature-version tests, and a
    pair that a stricter reading would refuse. */
module FeatureExamples {
  import opened GoStrings
  import opened FeatureVersion

  lemma AcceptedPlainStory(branch: string, version: string)
    requires branch == "a/b" && version == "1.2-b-SNAPSHOT"
    ensures FeatureCompatible(branch, version)
  {
    SnapshotOfStoryAccepted("a", "b", "1.2-");
    assert "a" + "/" + "b" == branch;
    assert "1.2-" + "b" + "-SNAPSHOT" == version;
  }

  lemma AcceptedDigitStory(branch: string, version: string)
    requires branch == "bug/123" && version == "1.2.3-123-SNAPSHOT"
    ensures FeatureCompatible(branch, version)
  {
    SnapshotOfStoryAccepted("bug", "123", "1.2.3-");
    assert "bug" + "/" + "123" == branch;
    assert "1.2.3-" + "123" + "-SNAPSHOT" == version;
  }

  lemma LongStoryHasNoSlash()
    ensures '/' !in "PRJ-4385-tok-tik-tx-trailer"
  {
    assert '/' !in "PRJ-4385" && '/' !in "-tok-tik" && '/' !in "-tx-trailer";
    assert "PRJ-4385" + "-tok-tik" + "-tx-trailer" == "PRJ-4385-tok-tik-tx-trailer";
  }

  lemma AcceptedLongStory(branch: string, version: string, story: string)
    requires story == "PRJ-4385-tok-tik-tx-trailer"
    requires branch == "feature/" + story && version == "0.0-" + story + "-SNAPSHOT"
    ensures FeatureCompatible(branch, version)
  {
    LongStoryHasNoSlash();
    assert branch == "feature" + "/" + story;
    SnapshotOfStoryAccepted("feature", story, "0.0-");
  }

  lemma AcceptedUnderscoredStory(branch: string, version: string)
    requires branch == "feature/US1922" && version == "1.1-US_1922-SNAPSHOT"
    ensures FeatureCompatible(branch, version)
  {
    assert "US" + ['_'] + "1922" == "US_1922" && "US" + "1922" == "US1922";
    NormalizedDropsPunctuation("US", '_', "1922");
    RespelledStoryAccepted("feature", "US1922", "US_1922", "1.1-");
    assert "feature" + "/" + "US1922" == branch;
    assert "1.1-" + "US_1922" + "-SNAPSHOT" == version;
  }

  lemma AcceptedRepunctuatedStory(branch: string, version: string)
    requires branch == "feature/TRNK-12" && version == "14.6-TRNK_12-SNAPSHOT"
    ensures FeatureCompatible(branch, version)
  {
    assert "TRNK" + ['_'] + "12" == "TRNK_12" && "TRNK" + ['-'] + "12" == "TRNK-12";
    NormalizedDropsPunctuation("TRNK", '_', "12");
    NormalizedDropsPunctuation("TRNK", '-', "12");
    RespelledStoryAccepted("feature", "TRNK-12", "TRNK_12", "14.6-");
    assert "feature" + "/" + "TRNK-12" == branch;
    assert "14.6-" + "TRNK_12" + "-SNAPSHOT" == version;
  }

  lemma LowerUnderscored(upper: string, lowerPrefix: string, digits: string)
    requires ToLower(upper) == lowerPrefix + digits
    ensures Normalized(lowerPrefix + ['_'] + digits) == Normalized(upper)
  {
    NormalizedDropsPunctuation(lowerPrefix, '_', digits);
    NormalizedIgnoresCase(upper);
  }

  lemma LowercasedStoryNormalized()
    ensures Normalized("us_1355") == Normalized("US1355")
  {
    assert ToLower("US1355") == "us" + "1355";
    LowerUnderscored("US1355", "us", "1355");
    assert "us" + ['_'] + "1355" == "us_1355";
  }

  lemma AcceptedLowercasedStory(branch: string, version: string)
    requires branch == "feature/US1355" && version == "1.0-us_1355-SNAPSHOT"
    ensures FeatureCompatible(branch, version)
  {
    LowercasedStoryNormalized();
    RespelledStoryAccepted("feature", "US1355", "us_1355", "1.0-");
    assert "feature" + "/" + "US1355" == branch;
    assert "1.0-" + "us_1355" + "-SNAPSHOT" == version;
  }

  lemma BugStoryNormalized()
    ensures Normalized("bug_77") == Normalized("Bug77")
  {
    assert ToLower("Bug77") == "bug" + "77";
    LowerUnderscored("Bug77", "bug", "77");
    assert "bug" + ['_'] + "77" == "bug_77";
  }

  lemma AcceptedBugStory(branch: string, version: string)
    requires branch == "feature/Bug77" && version == "2.14-bug_77-SNAPSHOT"
    ensures FeatureCompatible(branch, version)
  {
    BugStoryNormalized();
    RespelledStoryAccepted("feature", "Bug77", "bug_77", "2.14-");
    assert "feature" + "/" + "Bug77" == branch;
    assert "2.14-" + "bug_77" + "-SNAPSHOT" == version;
  }

  lemma RejectedNoSnapshot(branch: string, version: string)
    requires branch == "a/b" && version == "1.2-b"
    ensures !FeatureCompatible(branch, version)
  {
    if FeatureCompatible(branch, version) {
      AcceptedIsSnapshot(branch, version);
      assert false;
    }
  }

  lemma NormalizedWrongStoryBody()
    ensures Normalized("1.1-us_1922") == "11us1922"
  {
    assert "1" + ['.'] + "1-us_1922" == "1.1-us_1922" && "1" + "1-us_1922" == "11-us_1922";
    NormalizedDropsPunctuation("1", '.', "1-us_1922");
    assert "11" + ['-'] + "us_1922" == "11-us_1922" && "11" + "us_1922" == "11us_1922";
    NormalizedDropsPunctuation("11", '-', "us_1922");
    assert "11us" + ['_'] + "1922" == "11us_1922" && "11us" + "1922" == "11us1922";
    NormalizedDropsPunctuation("11us", '_', "1922");
    NormalizedOfNormal("11us1922");
  }

  lemma NormalizedWrongStoryVersion()
    ensures Normalized("1.1-us_1922-SNAPSHOT") == "11us1922" + "snapshot"
  {
    assert "1.1-us_1922" + "-SNAPSHOT" == "1.1-us_1922-SNAPSHOT";
    NormalizedAppend("1.1-us_1922", "-SNAPSHOT");
    NormalizedSnapshot();
    NormalizedWrongStoryBody();
  }

  lemma NormalizedOtherStory()
    ensures Normalized("US19222") == "us19222"
  {
    assert ToLower("US19222") == "us19222";
    KeepOfKept("us19222");
  }

  lemma OtherStoryNotSuffix()
    ensures !HasSuffix("11us1922" + "snapshot", "us19222" + "snapshot")
  {
    var n, t := "11us1922" + "snapshot", "us19222" + "snapshot";
    assert |n| == 16 && |t| == 15;
    assert n[1] == '1' && t[0] == 'u';
    assert n[|n| - |t|..] != t;
  }

  lemma RejectedOtherStory(branch: string, version: string)
    requires branch == "feature/US19222" && version == "1.1-us_1922-SNAPSHOT"
    ensures !FeatureCompatible(branch, version)
  {
    assert "feature" + "/" + "US19222" == branch;
    AcceptanceRule("feature", "US19222", version);
    NormalizedWrongStoryVersion();
    NormalizedOtherStory();
    OtherStoryNotSuffix();
  }

  lemma RejectedMalformedBranch(branch: string, version: string)
    requires branch == "somebranch" || branch == "a/b/c"
    ensures !FeatureCompatible(branch, version)
  {
    assert Count("somebranch", '/') == 0;
    assert Count("a/b/c", '/') == 2;
    MalformedBranchRejected(branch, version);
  }

  /** A reading with a case-sensitive comparison and a `-`→`_` convention
      would refuse `1.1-US_1922-SNAPSHOT` on `feature/US-1922`; the code drops
      all punctuation and ignores case, so it accepts it. */
  lemma PunctuationAndCaseTolerated(branch: string, version: string)
    requires branch == "feature/US-1922" && version == "1.1-US_1922-SNAPSHOT"
    ensures FeatureCompatible(branch, version)
  {
    assert "US" + ['_'] + "1922" == "US_1922" && "US" + ['-'] + "1922" == "US-1922";
    NormalizedDropsPunctuation("US", '_', "1922");
    NormalizedDropsPunctuation("US", '-', "1922");
    RespelledStoryAccepted("feature", "US-1922", "US_1922", "1.1-");
    assert "feature" + "/" + "US-1922" == branch;
    assert "1.1-" + "US_1922" + "-SNAPSHOT" == version;
  }

  lemma DotSnapshotMarker()
    ensures Normalized(".snapshot") == "snapshot"
  {
    assert ToLower("snapshot") == "snapshot";
    NormalizedMarker('.', "snapshot");
    assert ['.'] + "snapshot" == ".snapshot";
  }

  /** The marker is compared after normalising too, so a lowercase
      "snapshot" after a dot passes where a stricter reading would require
      the literal suffix "-SNAPSHOT". */
  lemma SnapshotMarkerNormalized(branch: string, version: string)
    requires branch == "a/b" && version == "1.2-b.snapshot"
    ensures FeatureCompatible(branch, version)
  {
    DotSnapshotMarker();
    MarkedStoryAccepted("a", "b", "1.2-", ".snapshot");
    assert "a" + "/" + "b" == branch;
    assert "1.2-" + "b" + ".snapshot" == version;
  }
}
