/** `IsValidDevelopVersion`: an unanchored match of the regular expression
    `[1-9]+(\.[0-9]+)+-SNAPSHOT`. The language is stated as it is written;
    the check is a left-to-right scan, proved to accept exactly the versions
    that contain a word of the language. */
module DevelopVersion {
  import opened GoStrings

  predicate IsNonZero(c: char) { '1' <= c <= '9' }

  // The language, as written

  ghost predicate AllIn(w: string, inClass: char -> bool) {
    forall t :: 0 <= t < |w| ==> inClass(w[t])
  }

  /** `(\.[0-9]+)+`: one or more groups, each a dot and at least one digit. */
  ghost predicate DotGroups(w: string)
    decreases |w|
  {
    |w| >= 2 && w[0] == '.' &&
    exists k :: 2 <= k <= |w| && AllIn(w[1..k], IsDigit) && (k == |w| || DotGroups(w[k..]))
  }

  /** `[1-9]+(\.[0-9]+)+-SNAPSHOT`, matched against the whole of w. */
  ghost predicate InPattern(w: string) {
    exists k, m :: 0 < k < m && m + 9 == |w| &&
      AllIn(w[..k], IsNonZero) && DotGroups(w[k..m]) && w[m..] == "-SNAPSHOT"
  }

  /** What `regexp.MatchString` reports: some substring is in the language. */
  ghost predicate ContainsMatch(v: string) {
    exists i, j :: 0 <= i <= j <= |v| && InPattern(v[i..j])
  }

  // The scan

  /** The end of the run of characters of the class starting at i. */
  function RunEnd(v: string, i: nat, inClass: char -> bool): (e: nat)
    requires i <= |v|
    ensures i <= e <= |v|
    ensures forall t :: i <= t < e ==> inClass(v[t])
    ensures e == |v| || !inClass(v[e])
    decreases |v| - i
  {
    if i < |v| && inClass(v[i]) then RunEnd(v, i + 1, inClass) else i
  }

  /** Groups start at p and are followed by "-SNAPSHOT". A group's digits are
      a maximal run, since neither '.' nor '-' is a digit. */
  function GroupsFrom(v: string, p: nat): bool
    requires p <= |v|
    decreases |v| - p
  {
    p < |v| && v[p] == '.' &&
    var q := RunEnd(v, p + 1, IsDigit);
    q > p + 1 && (OccursAt(v, "-SNAPSHOT", q) || GroupsFrom(v, q))
  }

  /** A word of the language starts at i. The leading run is maximal, since
      '.' is not in `[1-9]`. */
  function MatchAt(v: string, i: nat): bool
    requires i <= |v|
  {
    var e := RunEnd(v, i, IsNonZero);
    e > i && GroupsFrom(v, e)
  }

  /** A word of the language starts at i or later. */
  function MatchFrom(v: string, i: nat): bool
    requires i <= |v|
    decreases |v| - i
  {
    i < |v| && (MatchAt(v, i) || MatchFrom(v, i + 1))
  }

  function IsValidDevelopVersion(version: string): (r: bool)
    ensures r <==> ContainsMatch(version)
  {
    ScanCorrect(version);
    MatchFrom(version, 0)
  }

  // The scan against the language

  ghost predicate StartsMatch(v: string, i: nat)
    requires i <= |v|
  {
    exists j :: i <= j <= |v| && InPattern(v[i..j])
  }

  lemma RunEndAt(v: string, i: nat, e: nat, inClass: char -> bool)
    requires i <= e <= |v|
    requires forall t :: i <= t < e ==> inClass(v[t])
    requires e == |v| || !inClass(v[e])
    ensures RunEnd(v, i, inClass) == e
  {
  }

  lemma RunEndOfSlice(v: string, i: nat, e: nat, inClass: char -> bool)
    requires i <= e <= |v| && AllIn(v[i..e], inClass)
    requires e == |v| || !inClass(v[e])
    ensures RunEnd(v, i, inClass) == e
  {
    forall t | i <= t < e ensures inClass(v[t]) {
      assert v[t] == v[i..e][t - i];
    }
    RunEndAt(v, i, e, inClass);
  }

  lemma SliceOfSlice(v: string, i: nat, j: nat, a: nat, b: nat)
    requires i <= j <= |v| && a <= b <= j - i
    ensures v[i..j][a..b] == v[i + a..i + b]
    ensures a == 0 ==> v[i..j][..b] == v[i..i + b]
    ensures b == j - i ==> v[i..j][a..] == v[i + a..j]
  {
    forall t | 0 <= t < b - a ensures v[i..j][a..b][t] == v[i + a..i + b][t] {
    }
  }

  lemma DotGroupsIntro(w: string, k: nat)
    requires |w| >= 2 && w[0] == '.' && 2 <= k <= |w| && AllIn(w[1..k], IsDigit)
    requires k == |w| || DotGroups(w[k..])
    ensures DotGroups(w)
  {
  }

  /** The groups the scan accepts at p, up to the "-SNAPSHOT" after them. */
  lemma {:induction false} GroupsFromSound(v: string, p: nat) returns (q: nat)
    requires p <= |v| && GroupsFrom(v, p)
    ensures p < q <= |v| && DotGroups(v[p..q]) && OccursAt(v, "-SNAPSHOT", q)
    decreases |v| - p
  {
    var r := RunEnd(v, p + 1, IsDigit);
    assert AllIn(v[p + 1..r], IsDigit);
    if OccursAt(v, "-SNAPSHOT", r) {
      q := r;
      assert v[p..q][1..r - p] == v[p + 1..r];
      DotGroupsIntro(v[p..q], r - p);
    } else {
      q := GroupsFromSound(v, r);
      var w := v[p..q];
      var digits := w[1..r - p];
      forall t | 0 <= t < |digits| ensures IsDigit(digits[t]) {
        assert digits[t] == v[p + 1 + t];
      }
      assert w[r - p..] == v[r..q];
      DotGroupsIntro(w, r - p);
    }
  }

  lemma SnapshotStartsWithDash(v: string, q: nat)
    requires OccursAt(v, "-SNAPSHOT", q)
    ensures q < |v| && v[q] == '-'
  {
    assert v[q] == v[q..q + 9][0];
  }

  lemma GroupsFromIntro(v: string, p: nat, r: nat)
    requires p < |v| && v[p] == '.' && p + 1 < r <= |v| && RunEnd(v, p + 1, IsDigit) == r
    requires OccursAt(v, "-SNAPSHOT", r) || GroupsFrom(v, r)
    ensures GroupsFrom(v, p)
  {
  }

  /** The first group of a word of `(\.[0-9]+)+`, and what follows it. */
  lemma DotGroupsFirst(w: string) returns (k: nat)
    requires DotGroups(w)
    ensures 2 <= k <= |w| && w[0] == '.' && AllIn(w[1..k], IsDigit)
    ensures k == |w| || DotGroups(w[k..])
  {
    k :| 2 <= k <= |w| && AllIn(w[1..k], IsDigit) && (k == |w| || DotGroups(w[k..]));
  }

  lemma {:induction false} GroupsFromComplete(v: string, p: nat, q: nat)
    requires p <= q <= |v| && DotGroups(v[p..q]) && OccursAt(v, "-SNAPSHOT", q)
    ensures GroupsFrom(v, p)
    decreases q - p
  {
    var w := v[p..q];
    var k := DotGroupsFirst(w);
    assert v[p] == w[0];
    SliceOfSlice(v, p, q, 1, k);
    if k == |w| {
      SnapshotStartsWithDash(v, q);
      RunEndOfSlice(v, p + 1, q, IsDigit);
      GroupsFromIntro(v, p, q);
    } else {
      SliceOfSlice(v, p, q, k, q - p);
      var rest := v[p + k..q];
      assert v[p + k] == rest[0];
      RunEndOfSlice(v, p + 1, p + k, IsDigit);
      GroupsFromComplete(v, p + k, q);
      GroupsFromIntro(v, p, p + k);
    }
  }

  lemma MatchAtSound(v: string, i: nat)
    requires i <= |v| && MatchAt(v, i)
    ensures StartsMatch(v, i)
  {
    var e := RunEnd(v, i, IsNonZero);
    var q := GroupsFromSound(v, e);
    var w := v[i..q + 9];
    assert w[..e - i] == v[i..e];
    assert w[e - i..q - i] == v[e..q];
    assert w[q - i..] == v[q..q + 9];
    assert InPattern(w);
  }

  /** The split of a word of the language into its three parts. */
  lemma InPatternParts(w: string) returns (k: nat, m: nat)
    requires InPattern(w)
    ensures 0 < k < m && m + 9 == |w|
    ensures AllIn(w[..k], IsNonZero) && DotGroups(w[k..m]) && w[m..] == "-SNAPSHOT"
  {
    k, m :| 0 < k < m && m + 9 == |w| &&
      AllIn(w[..k], IsNonZero) && DotGroups(w[k..m]) && w[m..] == "-SNAPSHOT";
  }

  lemma MatchAtComplete(v: string, i: nat, j: nat)
    requires i <= j <= |v| && InPattern(v[i..j])
    ensures MatchAt(v, i)
  {
    var k, m := InPatternParts(v[i..j]);
    SliceOfSlice(v, i, j, 0, k);
    SliceOfSlice(v, i, j, k, m);
    SliceOfSlice(v, i, j, m, j - i);
    assert OccursAt(v, "-SNAPSHOT", i + m);
    RunEndOfSlice(v, i, i + k, IsNonZero);
    GroupsFromComplete(v, i + k, i + m);
  }

  lemma MatchAtIff(v: string, i: nat)
    requires i <= |v|
    ensures MatchAt(v, i) <==> StartsMatch(v, i)
  {
    if MatchAt(v, i) {
      MatchAtSound(v, i);
    }
    if StartsMatch(v, i) {
      var j :| i <= j <= |v| && InPattern(v[i..j]);
      MatchAtComplete(v, i, j);
    }
  }

  lemma {:induction false} MatchFromIff(v: string, i: nat)
    requires i <= |v|
    ensures MatchFrom(v, i) <==> exists s :: i <= s < |v| && MatchAt(v, s)
    decreases |v| - i
  {
    if i < |v| {
      MatchFromIff(v, i + 1);
    }
  }

  /** The scan accepts exactly the versions containing a word of the language. */
  lemma ScanCorrect(v: string)
    ensures MatchFrom(v, 0) <==> ContainsMatch(v)
  {
    MatchFromIff(v, 0);
    forall i | 0 <= i <= |v| ensures MatchAt(v, i) <==> StartsMatch(v, i) {
      MatchAtIff(v, i);
    }
    if MatchFrom(v, 0) {
      var s :| 0 <= s < |v| && MatchAt(v, s);
      var j :| s <= j <= |v| && InPattern(v[s..j]);
    }
    if ContainsMatch(v) {
      var i, j :| 0 <= i <= j <= |v| && InPattern(v[i..j]);
      assert StartsMatch(v, i);
    }
  }

  // What an accepted version looks like

  /** The characters a word of the language can contain. */
  predicate InAlphabet(c: char) {
    IsDigit(c) || c == '.' || c == '-' ||
    c == 'S' || c == 'N' || c == 'A' || c == 'P' || c == 'H' || c == 'O' || c == 'T'
  }

  lemma {:induction false} DotGroupsAlphabet(w: string)
    requires DotGroups(w)
    ensures forall t :: 0 <= t < |w| ==> IsDigit(w[t]) || w[t] == '.'
    decreases |w|
  {
    var k :| 2 <= k <= |w| && AllIn(w[1..k], IsDigit) && (k == |w| || DotGroups(w[k..]));
    if k < |w| {
      DotGroupsAlphabet(w[k..]);
      assert forall t :: k <= t < |w| ==> w[t] == w[k..][t - k];
    }
    assert forall t :: 1 <= t < k ==> w[t] == w[1..k][t - 1];
  }

  lemma SnapshotAlphabet(s: string)
    requires s == "-SNAPSHOT"
    ensures forall t :: 0 <= t < |s| ==> InAlphabet(s[t])
  {
  }

  /** Every character of a word of the language is in the alphabet. */
  lemma PatternAlphabet(w: string)
    requires InPattern(w)
    ensures forall t :: 0 <= t < |w| ==> InAlphabet(w[t])
  {
    var k, m := InPatternParts(w);
    var lead, groups, tail := w[..k], w[k..m], w[m..];
    DotGroupsAlphabet(groups);
    SnapshotAlphabet(tail);
    forall t | 0 <= t < |w| ensures InAlphabet(w[t]) {
      if t < k {
        assert w[t] == lead[t];
      } else if t < m {
        assert w[t] == groups[t - k];
      } else {
        assert w[t] == tail[t - m];
      }
    }
  }

  /** Every word of the language has a dot, ends in "-SNAPSHOT", and is at
      least as long as "1.0-SNAPSHOT". */
  lemma PatternShape(w: string) returns (d: nat)
    requires InPattern(w)
    ensures |w| >= 12 && d < |w| && w[d] == '.' && w[|w| - 9..] == "-SNAPSHOT"
  {
    var k, m := InPatternParts(w);
    var groups := w[k..m];
    assert groups[0] == w[k];
    d := k;
  }

  /** A version containing a word of the language contains "-SNAPSHOT" and a
      dot, and is at least 12 characters long. */
  lemma MatchShape(v: string)
    requires ContainsMatch(v)
    ensures |v| >= 12 && '.' in v && exists q :: OccursAt(v, "-SNAPSHOT", q)
  {
    var i, j :| 0 <= i <= j <= |v| && InPattern(v[i..j]);
    var w := v[i..j];
    var d := PatternShape(w);
    assert v[i + d] == w[d];
    assert v[j - 9..j] == w[|w| - 9..];
    assert OccursAt(v, "-SNAPSHOT", j - 9);
  }

  /** Every accepted version contains "-SNAPSHOT" and a dot, and is at least
      as long as "1.0-SNAPSHOT". */
  lemma AcceptedShape(v: string)
    requires IsValidDevelopVersion(v)
    ensures |v| >= 12 && '.' in v && exists q :: OccursAt(v, "-SNAPSHOT", q)
  {
    MatchShape(v);
  }

  lemma MatchInContext(x: string, v: string, y: string)
    requires ContainsMatch(v)
    ensures ContainsMatch(x + v + y)
  {
    var i, j :| 0 <= i <= j <= |v| && InPattern(v[i..j]);
    assert (x + v + y)[|x| + i..|x| + j] == v[i..j];
  }

  /** The match is unanchored: text before and after an accepted version
      keeps it accepted. */
  lemma AcceptedInContext(x: string, v: string, y: string)
    requires IsValidDevelopVersion(v)
    ensures IsValidDevelopVersion(x + v + y)
  {
    MatchInContext(x, v, y);
  }

  lemma SliceOfLeft(a: string, c: char, b: string, i: nat, j: nat)
    requires i <= j <= |a|
    ensures (a + [c] + b)[i..j] == a[i..j]
  {
    forall t | 0 <= t < j - i ensures (a + [c] + b)[i..j][t] == a[i..j][t] {
    }
  }

  lemma SliceOfRight(a: string, c: char, b: string, i: nat, j: nat)
    requires |a| < i <= j <= |a| + 1 + |b|
    ensures (a + [c] + b)[i..j] == b[i - |a| - 1..j - |a| - 1]
  {
    forall t | 0 <= t < j - i ensures (a + [c] + b)[i..j][t] == b[i - |a| - 1..j - |a| - 1][t] {
    }
  }

  lemma {:induction false} ForeignCharSplitsMatch(a: string, c: char, b: string)
    requires !InAlphabet(c) && ContainsMatch(a + [c] + b)
    ensures ContainsMatch(a) || ContainsMatch(b)
  {
    var v := a + [c] + b;
    var i, j :| 0 <= i <= j <= |v| && InPattern(v[i..j]);
    var w := v[i..j];
    PatternAlphabet(w);
    forall t | i <= t < j ensures v[t] != c {
      assert v[t] == w[t - i];
    }
    assert v[|a|] == c;
    if j <= |a| {
      SliceOfLeft(a, c, b, i, j);
    } else {
      SliceOfRight(a, c, b, i, j);
    }
  }

  /** No match reaches across a character outside the language's alphabet. */
  lemma SeparatedByForeignChar(a: string, c: char, b: string)
    requires !InAlphabet(c)
    ensures IsValidDevelopVersion(a + [c] + b) <==> IsValidDevelopVersion(a) || IsValidDevelopVersion(b)
  {
    var v := a + [c] + b;
    if ContainsMatch(v) {
      ForeignCharSplitsMatch(a, c, b);
    }
    if ContainsMatch(a) {
      assert [] + a + ([c] + b) == v;
      MatchInContext([], a, [c] + b);
    }
    if ContainsMatch(b) {
      assert a + [c] + b + [] == v;
      MatchInContext(a + [c], b, []);
    }
  }
}
