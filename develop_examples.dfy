/** The develop versions of the repository's tests, and two inputs on which the
    regular expression decides otherwise than a reader of its intent might. */
module DevelopExamples {
  import opened GoStrings
  import opened DevelopVersion

  /** "-SNAPSHOT" at q, character by character. */
  lemma SnapshotAt(v: string, q: nat)
    requires q + 9 <= |v|
    requires v[q] == '-' && v[q + 1] == 'S' && v[q + 2] == 'N' && v[q + 3] == 'A' && v[q + 4] == 'P'
    requires v[q + 5] == 'S' && v[q + 6] == 'H' && v[q + 7] == 'O' && v[q + 8] == 'T'
    ensures OccursAt(v, "-SNAPSHOT", q)
  {
    assert v[q..q + 9] == "-SNAPSHOT";
  }

  lemma AcceptedOneDigitMinor(v: string)
    requires v == "1.0-SNAPSHOT"
    ensures IsValidDevelopVersion(v)
  {
    RunEndAt(v, 0, 1, IsNonZero);
    RunEndAt(v, 2, 3, IsDigit);
    SnapshotAt(v, 3);
    assert MatchAt(v, 0);
  }

  lemma AcceptedTwoDigitMinor(v: string)
    requires v == "2.14-SNAPSHOT"
    ensures IsValidDevelopVersion(v)
  {
    RunEndAt(v, 0, 1, IsNonZero);
    RunEndAt(v, 2, 4, IsDigit);
    SnapshotAt(v, 4);
    assert MatchAt(v, 0);
  }

  lemma AcceptedThreePart(v: string)
    requires v == "2.14.15-SNAPSHOT"
    ensures IsValidDevelopVersion(v)
  {
    RunEndAt(v, 0, 1, IsNonZero);
    RunEndAt(v, 2, 4, IsDigit);
    RunEndAt(v, 5, 7, IsDigit);
    SnapshotAt(v, 7);
    assert GroupsFrom(v, 4);
    assert MatchAt(v, 0);
  }

  lemma ShortRejected(v: string)
    requires |v| < 12
    ensures !IsValidDevelopVersion(v)
  {
    if IsValidDevelopVersion(v) {
      AcceptedShape(v);
    }
  }

  lemma DotlessRejected(v: string)
    requires '.' !in v
    ensures !IsValidDevelopVersion(v)
  {
    if IsValidDevelopVersion(v) {
      AcceptedShape(v);
    }
  }

  /** A character outside the alphabet with rejected text on both sides. */
  lemma SplitRejected(v: string, n: nat)
    requires n < |v| && !InAlphabet(v[n])
    requires !IsValidDevelopVersion(v[..n]) && !IsValidDevelopVersion(v[n + 1..])
    ensures !IsValidDevelopVersion(v)
  {
    assert v == v[..n] + [v[n]] + v[n + 1..];
    SeparatedByForeignChar(v[..n], v[n], v[n + 1..]);
  }

  lemma RejectedRelease(v: string)
    requires v == "1.0"
    ensures !IsValidDevelopVersion(v)
  {
    ShortRejected(v);
  }

  /** A story segment between the version and "-SNAPSHOT" is refused: '_' is
      outside the alphabet, the text before it is too short and the text
      after it has no dot. */
  lemma RejectedFeatureText(v: string)
    requires v == "1.0-us_feature-SNAPSHOT"
    ensures !IsValidDevelopVersion(v)
  {
    ShortRejected(v[..6]);
    assert '.' !in v[7..] by {
      assert v[7..] == "feature-SNAPSHOT";
    }
    DotlessRejected(v[7..]);
    SplitRejected(v, 6);
  }

  lemma RejectedBugText(v: string)
    requires v == "2.14-bug_77-SNAPSHOT"
    ensures !IsValidDevelopVersion(v)
  {
    ShortRejected(v[..8]);
    ShortRejected(v[9..]);
    SplitRejected(v, 8);
  }

  /** `[1-9]+` cannot take the 0 of "10", so no substring of "10.0-SNAPSHOT"
      is in the language. */
  lemma RejectedTenZero(v: string)
    requires v == "10.0-SNAPSHOT"
    ensures !IsValidDevelopVersion(v)
  {
    assert !MatchFrom(v, 12);
    assert !MatchFrom(v, 11);
    assert !MatchFrom(v, 10);
    assert !MatchFrom(v, 9);
    assert !MatchFrom(v, 8);
    assert !MatchFrom(v, 7);
    assert !MatchFrom(v, 6);
    assert !MatchFrom(v, 5);
    assert !MatchFrom(v, 4);
    assert !MatchFrom(v, 3) by {
      RunEndAt(v, 3, 3, IsNonZero);
    }
    assert !MatchFrom(v, 2);
    assert !MatchFrom(v, 1);
    assert !MatchAt(v, 0) by {
      RunEndAt(v, 0, 1, IsNonZero);
    }
  }

  /** The match is not anchored at the end: text after "-SNAPSHOT" is accepted. */
  lemma AcceptedTrailingText(v: string)
    requires v == "1.0-SNAPSHOT-20190101"
    ensures IsValidDevelopVersion(v)
  {
    var w := v[..12];
    assert w == "1.0-SNAPSHOT";
    AcceptedOneDigitMinor(w);
    AcceptedInContext([], w, v[12..]);
    assert [] + w + v[12..] == v;
  }

  /** Nor at the start: a story segment before a develop version does not
      make it invalid. */
  lemma AcceptedLeadingText(v: string)
    requires v == "us_feature-1.0-SNAPSHOT"
    ensures IsValidDevelopVersion(v)
  {
    var w := v[11..];
    assert w == "1.0-SNAPSHOT";
    AcceptedOneDigitMinor(w);
    AcceptedInContext(v[..11], w, []);
    assert v[..11] + w + [] == v;
  }
}
