/** The version codec of the manifest module: matching `S1.S2.MAJOR.MINOR.PATCH`,
    bumping one of the three counters, and reading the two-number release series
    off a version or a branch name. */
module Version {
  import opened Wrappers
  import opened Errors
  import opened Text

  /** The five digit groups matched by the version pattern, kept as the text
      that was matched (so leading zeros survive). The first two form the series. */
  datatype VersionParts = VersionParts(
    seriesMajor: string,
    seriesMinor: string,
    major: string,
    minor: string,
    patch: string)
  {
    predicate Wellformed() {
      IsDigits(seriesMajor) && IsDigits(seriesMinor) &&
      IsDigits(major) && IsDigits(minor) && IsDigits(patch)
    }

    /** The `series` group of the pattern. */
    function Series(): string {
      seriesMajor + "." + seriesMinor
    }
  }

  /** The text `series.major.minor.patch`. */
  function Format(p: VersionParts): string {
    p.Series() + "." + p.major + "." + p.minor + "." + p.patch
  }

  /** The part of a text that a pattern anchored by `^` and `$` must match in
      Python: `$` also matches just before one final newline. */
  function AnchoredBody(s: string): string {
    if |s| > 0 && s[|s| - 1] == '\n' then s[..|s| - 1] else s
  }

  /** `VERSION_RE.match(s)`: five groups of digits separated by dots, spanning
      the whole text. A group of digits never contains a dot, so the groups are
      exactly the pieces of the text split on dots. */
  function MatchVersion(s: string): (r: Option<VersionParts>)
    ensures r.Some? ==> r.value.Wellformed()
  {
    var parts := Split(AnchoredBody(s), '.');
    if |parts| == 5 && forall i :: 0 <= i < 5 ==> IsDigits(parts[i])
    then Some(VersionParts(parts[0], parts[1], parts[2], parts[3], parts[4]))
    else None
  }

  /** `BRANCH_RE.match(s)`: two groups of digits separated by a dot, spanning the
      whole text; the result is the two groups. */
  function MatchBranch(s: string): (r: Option<(string, string)>)
    ensures r.Some? ==> IsDigits(r.value.0) && IsDigits(r.value.1)
  {
    var parts := Split(AnchoredBody(s), '.');
    if |parts| == 2 && IsDigits(parts[0]) && IsDigits(parts[1])
    then Some((parts[0], parts[1]))
    else None
  }

  lemma DigitsHaveNoDot(s: string)
    requires AllDigits(s)
    ensures '.' !in s
  {
    forall i | 0 <= i < |s| ensures s[i] != '.' {
      assert IsDigit(s[i]);
    }
  }

  /** A match yields well-formed groups that spell out the matched text. */
  lemma {:induction false} MatchVersionSound(s: string)
    requires MatchVersion(s).Some?
    ensures MatchVersion(s).value.Wellformed()
    ensures Format(MatchVersion(s).value) == AnchoredBody(s)
  {
    var body := AnchoredBody(s);
    var parts := Split(body, '.');
    JoinSplit(body, '.');
    var p1 := parts[1..];
    var p2 := p1[1..];
    var p3 := p2[1..];
    var p4 := p3[1..];
    assert Join(p4, '.') == parts[4];
    assert Join(p3, '.') == parts[3] + "." + parts[4];
    assert Join(p2, '.') == parts[2] + "." + (parts[3] + "." + parts[4]);
    assert Join(p1, '.') == parts[1] + "." + (parts[2] + "." + (parts[3] + "." + parts[4]));
    assert Join(parts, '.') == parts[0] + "." + (parts[1] + "." + (parts[2] + "." + (parts[3] + "." + parts[4])));
  }

  /** Every well-formed version text is matched, also with one final newline,
      and the match gives back its groups. */
  lemma {:induction false} MatchVersionComplete(p: VersionParts)
    requires p.Wellformed()
    ensures MatchVersion(Format(p)) == Some(p)
    ensures MatchVersion(Format(p) + "\n") == Some(p)
  {
    var s := Format(p);
    assert AnchoredBody(s) == s by {
      assert s[|s| - 1] == p.patch[|p.patch| - 1];
    }
    assert AnchoredBody(s + "\n") == s by {
      assert (s + "\n")[..|s|] == s;
    }
    SplitFormat(p);
  }

  lemma {:induction false} SplitFormat(p: VersionParts)
    requires p.Wellformed()
    ensures Split(Format(p), '.') == [p.seriesMajor, p.seriesMinor, p.major, p.minor, p.patch]
  {
    DigitsHaveNoDot(p.seriesMajor);
    DigitsHaveNoDot(p.seriesMinor);
    DigitsHaveNoDot(p.major);
    DigitsHaveNoDot(p.minor);
    DigitsHaveNoDot(p.patch);
    var t4 := p.minor + "." + p.patch;
    var t3 := p.major + "." + t4;
    var t2 := p.seriesMinor + "." + t3;
    var t1 := p.seriesMajor + "." + t2;
    SplitWithoutSeparator(p.patch, '.');
    SplitAtFirstSeparator(p.minor, p.patch, '.');
    assert Split(t4, '.') == [p.minor, p.patch];
    SplitAtFirstSeparator(p.major, t4, '.');
    assert Split(t3, '.') == [p.major, p.minor, p.patch];
    SplitAtFirstSeparator(p.seriesMinor, t3, '.');
    assert Split(t2, '.') == [p.seriesMinor, p.major, p.minor, p.patch];
    SplitAtFirstSeparator(p.seriesMajor, t2, '.');
    assert Format(p) == t1;
  }

  // ---------------------------------------------------------------------------
  // bump_version
  // ---------------------------------------------------------------------------

  /** `bump_version(version, mode)`. The version must match the pattern (checked
      first), then the mode must be one of the three; the groups that are not
      changed are copied as matched, the changed ones are written by `str(int)`. */
  function BumpVersion(version: string, mode: string): (r: Result<string, Error>)
    ensures r.Success? ==> MatchVersion(version).Some? && mode in {"major", "minor", "patch"}
    ensures r.Failure? ==> r.error == InvalidVersion(version) || r.error == InvalidBumpMode(mode)
  {
    match MatchVersion(version)
    case None => Failure(InvalidVersion(version))
    case Some(p) =>
      if mode == "major" then
        Success(Format(p.(major := NatToDigits(DigitsValue(p.major) + 1), minor := "0", patch := "0")))
      else if mode == "minor" then
        Success(Format(p.(minor := NatToDigits(DigitsValue(p.minor) + 1), patch := "0")))
      else if mode == "patch" then
        Success(Format(p.(patch := NatToDigits(DigitsValue(p.patch) + 1))))
      else
        Failure(InvalidBumpMode(mode))
  }

  /** Bumping fails exactly when the version does not match (reported first) or
      the mode is unknown. */
  lemma BumpVersionFailures(version: string, mode: string)
    ensures BumpVersion(version, mode).Failure? <==>
      MatchVersion(version).None? || mode !in {"major", "minor", "patch"}
    ensures MatchVersion(version).None? ==> BumpVersion(version, mode) == Failure(InvalidVersion(version))
    ensures MatchVersion(version).Some? && mode !in {"major", "minor", "patch"} ==>
      BumpVersion(version, mode) == Failure(InvalidBumpMode(mode))
  {
  }

  /** Mode "major": the result is again a version with the same series, MAJOR
      one higher, MINOR and PATCH zero. */
  lemma {:induction false} BumpMajor(version: string)
    requires MatchVersion(version).Some?
    ensures var p := MatchVersion(version).value;
      BumpVersion(version, "major").Success? &&
      var q := MatchVersion(BumpVersion(version, "major").value);
      q.Some? && q.value.Wellformed() &&
      q.value.seriesMajor == p.seriesMajor && q.value.seriesMinor == p.seriesMinor &&
      DigitsValue(q.value.major) == DigitsValue(p.major) + 1 &&
      DigitsValue(q.value.minor) == 0 && DigitsValue(q.value.patch) == 0
  {
    MatchVersionSound(version);
    var p := MatchVersion(version).value;
    var p' := p.(major := NatToDigits(DigitsValue(p.major) + 1), minor := "0", patch := "0");
    assert "0" == NatToDigits(0);
    MatchVersionComplete(p');
  }

  /** Mode "minor": same series and MAJOR (even its text), MINOR one higher, PATCH zero. */
  lemma {:induction false} BumpMinor(version: string)
    requires MatchVersion(version).Some?
    ensures var p := MatchVersion(version).value;
      BumpVersion(version, "minor").Success? &&
      var q := MatchVersion(BumpVersion(version, "minor").value);
      q.Some? && q.value.Wellformed() &&
      q.value.seriesMajor == p.seriesMajor && q.value.seriesMinor == p.seriesMinor &&
      q.value.major == p.major &&
      DigitsValue(q.value.minor) == DigitsValue(p.minor) + 1 &&
      DigitsValue(q.value.patch) == 0
  {
    MatchVersionSound(version);
    var p := MatchVersion(version).value;
    var p' := p.(minor := NatToDigits(DigitsValue(p.minor) + 1), patch := "0");
    assert "0" == NatToDigits(0);
    MatchVersionComplete(p');
  }

  /** Mode "patch": everything but PATCH is kept verbatim, PATCH is one higher. */
  lemma {:induction false} BumpPatch(version: string)
    requires MatchVersion(version).Some?
    ensures var p := MatchVersion(version).value;
      BumpVersion(version, "patch").Success? &&
      var q := MatchVersion(BumpVersion(version, "patch").value);
      q.Some? && q.value.Wellformed() &&
      q.value.seriesMajor == p.seriesMajor && q.value.seriesMinor == p.seriesMinor &&
      q.value.major == p.major && q.value.minor == p.minor &&
      DigitsValue(q.value.patch) == DigitsValue(p.patch) + 1
  {
    MatchVersionSound(version);
    var p := MatchVersion(version).value;
    var p' := p.(patch := NatToDigits(DigitsValue(p.patch) + 1));
    MatchVersionComplete(p');
  }

  /** A bump never changes the release series. */
  lemma {:induction false} BumpKeepsSeries(version: string, mode: string)
    requires BumpVersion(version, mode).Success?
    ensures SeriesFromVersion(BumpVersion(version, mode).value) == SeriesFromVersion(version)
  {
    if mode == "major" {
      BumpMajor(version);
    } else if mode == "minor" {
      BumpMinor(version);
    } else {
      BumpPatch(version);
    }
  }

  /** A patch bump of a well-formed version text rewrites only its last group. */
  lemma BumpPatchOf(p: VersionParts)
    requires p.Wellformed()
    ensures BumpVersion(Format(p), "patch") == Success(Format(p.(patch := NatToDigits(DigitsValue(p.patch) + 1))))
  {
    MatchVersionComplete(p);
  }

  /** A major bump of a well-formed version text rewrites its last three groups. */
  lemma BumpMajorOf(p: VersionParts)
    requires p.Wellformed()
    ensures BumpVersion(Format(p), "major") ==
      Success(Format(p.(major := NatToDigits(DigitsValue(p.major) + 1), minor := "0", patch := "0")))
  {
    MatchVersionComplete(p);
  }

  /** A minor bump of a well-formed version text keeps its first three groups. */
  lemma BumpMinorOf(p: VersionParts)
    requires p.Wellformed()
    ensures BumpVersion(Format(p), "minor") ==
      Success(Format(p.(minor := NatToDigits(DigitsValue(p.minor) + 1), patch := "0")))
  {
    MatchVersionComplete(p);
  }

  /** A patch bump of 14.0.1.2.3. */
  lemma BumpPatchExample()
    ensures BumpVersion("14.0.1.2.3", "patch") == Success("14.0.1.2.4")
  {
    var p := VersionParts("14", "0", "1", "2", "3");
    assert p.Wellformed();
    BumpPatchOf(p);
    assert DigitsValue("3") == 3 by {
      assert "3"[..0] == "";
    }
    assert NatToDigits(4) == "4";
    ExampleTexts();
  }

  /** The texts of the two versions of the example. */
  lemma ExampleTexts()
    ensures Format(VersionParts("14", "0", "1", "2", "3")) == "14.0.1.2.3"
    ensures Format(VersionParts("14", "0", "1", "2", "4")) == "14.0.1.2.4"
  {
    assert "14" + "." + "0" == "14.0";
    assert "14.0" + "." + "1" == "14.0.1";
    assert "14.0.1" + "." + "2" == "14.0.1.2";
    assert "14.0.1.2" + "." + "3" == "14.0.1.2.3";
    assert "14.0.1.2" + "." + "4" == "14.0.1.2.4";
  }

  // ---------------------------------------------------------------------------
  // Release series
  // ---------------------------------------------------------------------------

  /** `get_odoo_series_from_version`: the integers of the two series groups. */
  function SeriesFromVersion(version: string): (r: Result<(nat, nat), Error>)
    ensures r.Success? <==> MatchVersion(version).Some?
    ensures r.Failure? ==> r.error == SeriesNotDetected
  {
    match MatchVersion(version)
    case None => Failure(SeriesNotDetected)
    case Some(p) => Success((DigitsValue(p.seriesMajor), DigitsValue(p.seriesMinor)))
  }

  /** `get_odoo_series_from_branch`: the integers of a branch named exactly `D+.D+`. */
  function SeriesFromBranch(branch: string): (r: Result<(nat, nat), Error>)
    ensures r.Success? <==> MatchBranch(branch).Some?
    ensures r.Failure? ==> r.error == SeriesNotDetected
  {
    match MatchBranch(branch)
    case None => Failure(SeriesNotDetected)
    case Some((a, b)) => Success((DigitsValue(a), DigitsValue(b)))
  }

  /** The series of a well-formed version is read off exactly its first two groups. */
  lemma {:induction false} SeriesFromVersionSpec(p: VersionParts)
    requires p.Wellformed()
    ensures SeriesFromVersion(Format(p)) == Success((DigitsValue(p.seriesMajor), DigitsValue(p.seriesMinor)))
  {
    MatchVersionComplete(p);
  }

  lemma SeriesFromVersionRejectsText()
    ensures SeriesFromVersion("abc") == Failure(SeriesNotDetected)
  {
    assert Split("abc", '.') == ["abc"] by {
      SplitWithoutSeparator("abc", '.');
    }
  }

  /** A branch has a series only when its whole name (up to one final newline)
      is two digit groups around a dot, and then the series is their integers. */
  lemma {:induction false} SeriesFromBranchSound(branch: string)
    requires SeriesFromBranch(branch).Success?
    ensures exists x, y ::
      && IsDigits(x) && IsDigits(y) && AnchoredBody(branch) == x + "." + y
      && SeriesFromBranch(branch).value == (DigitsValue(x), DigitsValue(y))
  {
    var body := AnchoredBody(branch);
    var parts := Split(body, '.');
    JoinSplit(body, '.');
    assert Join(parts, '.') == parts[0] + "." + parts[1];
  }

  lemma {:induction false} SeriesFromBranchComplete(x: string, y: string)
    requires IsDigits(x) && IsDigits(y)
    ensures SeriesFromBranch(x + "." + y) == Success((DigitsValue(x), DigitsValue(y)))
  {
    DigitsHaveNoDot(x);
    DigitsHaveNoDot(y);
    var s := x + "." + y;
    assert AnchoredBody(s) == s by {
      assert s[|s| - 1] == y[|y| - 1];
    }
    SplitWithoutSeparator(y, '.');
    SplitAtFirstSeparator(x, y, '.');
  }

  /** A release branch name has a series. */
  lemma SeriesFromReleaseBranch()
    ensures SeriesFromBranch("16.0") == Success((16, 0))
  {
    SeriesFromBranchComplete("16", "0");
    assert "16" + "." + "0" == "16.0";
    assert DigitsValue("16") == 16 by {
      assert "16"[..1] == "1";
    }
  }

  /** A bare major version is not a branch series. */
  lemma SeriesFromMajorOnlyBranch()
    ensures SeriesFromBranch("16").Failure?
  {
    SplitWithoutSeparator("16", '.');
  }

  /** Python's ordering of two-element tuples. */
  predicate SeriesBelow(s: (nat, nat), t: (nat, nat)) {
    s.0 < t.0 || (s.0 == t.0 && s.1 < t.1)
  }
}
