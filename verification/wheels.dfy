/** The decisions of the wheel publisher: whether an addon gets a wheel and for
    which Python, and which package name a directory of built wheels holds. */
module Wheels {
  import opened Wrappers
  import opened Errors
  import opened Text
  import opened Addons
  import opened Version

  // ---------------------------------------------------------------------------
  // _find_pkgname
  // ---------------------------------------------------------------------------

  /** `f.endswith(".whl")` */
  predicate IsWheelFile(f: string) {
    EndsWith(f, ".whl")
  }

  /** `f.split("-")[0].replace("_", "-")`: the text before the first `-`, with
      every `_` turned into `-`. */
  function PackageNameOf(f: string): (name: string)
    ensures |name| <= |f|
    ensures |name| == |f| || f[|name|] == '-'
    ensures forall i :: 0 <= i < |name| ==> f[i] != '-' && name[i] == if f[i] == '_' then '-' else f[i]
  {
    SplitHead(f, '-');
    ReplaceChar(Split(f, '-')[0], '_', '-')
  }

  /** The package names of the wheels of a listing, in listing order. */
  function WheelNames(listing: seq<string>): (names: seq<string>)
    ensures |names| <= |listing|
  {
    if |listing| == 0 then []
    else
      var last := listing[|listing| - 1];
      WheelNames(listing[..|listing| - 1]) + if IsWheelFile(last) then [PackageNameOf(last)] else []
  }

  /** A listing yields no name exactly when it holds no wheel file. */
  lemma {:induction false} NoWheelsNoNames(listing: seq<string>)
    ensures |WheelNames(listing)| == 0 <==> forall j :: 0 <= j < |listing| ==> !IsWheelFile(listing[j])
  {
    if |listing| > 0 {
      var front := listing[..|listing| - 1];
      NoWheelsNoNames(front);
      assert forall j :: 0 <= j < |front| ==> front[j] == listing[j];
    }
  }

  /** Some wheel's name differs from a non-empty name just before it: the loop of
      `_find_pkgname` only compares with the latest name, and an empty name does
      not count as one. */
  predicate Conflict(names: seq<string>) {
    exists k :: 0 < k < |names| && names[k - 1] != "" && names[k] != names[k - 1]
  }

  /** Without a conflict, every name from the first non-empty one on is that name. */
  lemma {:induction false} NoConflictKeepsName(names: seq<string>, j: nat, k: nat)
    requires !Conflict(names)
    requires j <= k < |names| && names[j] != ""
    ensures names[k] == names[j]
    decreases k - j
  {
    if j < k {
      NoConflictKeepsName(names, j, k - 1);
      assert names[k - 1] != "" && 0 < k;
    }
  }

  /** A conflict among the first names is a conflict among all of them. */
  lemma ConflictPrefix(names: seq<string>, n: nat)
    requires n <= |names| && Conflict(names[..n])
    ensures Conflict(names)
  {
    var k :| 0 < k < n && names[..n][k - 1] != "" && names[..n][k] != names[..n][k - 1];
    assert names[k - 1] == names[..n][k - 1] && names[k] == names[..n][k];
  }

  /** One more name extends the conflicts exactly by a clash with the latest name. */
  lemma ConflictAppend(names: seq<string>, n: string)
    ensures Conflict(names + [n]) <==>
      Conflict(names) || (|names| > 0 && names[|names| - 1] != "" && n != names[|names| - 1])
  {
    var ext := names + [n];
    if Conflict(names) {
      var k :| 0 < k < |names| && names[k - 1] != "" && names[k] != names[k - 1];
      assert ext[k - 1] == names[k - 1] && ext[k] == names[k];
    }
    if Conflict(ext) {
      var k :| 0 < k < |ext| && ext[k - 1] != "" && ext[k] != ext[k - 1];
      if k < |names| {
        assert ext[k - 1] == names[k - 1] && ext[k] == names[k];
      }
    }
    if |names| > 0 && names[|names| - 1] != "" && n != names[|names| - 1] {
      assert ext[|names|] == n && ext[|names| - 1] == names[|names| - 1];
    }
  }

  /** The names of a longer prefix of the listing extend those of a shorter one. */
  lemma {:induction false} WheelNamesPrefix(listing: seq<string>, i: nat)
    requires i <= |listing|
    ensures |WheelNames(listing[..i])| <= |WheelNames(listing)|
    ensures WheelNames(listing)[..|WheelNames(listing[..i])|] == WheelNames(listing[..i])
    decreases |listing| - i
  {
    if i < |listing| {
      var shorter := listing[..|listing| - 1];
      assert shorter[..i] == listing[..i];
      WheelNamesPrefix(shorter, i);
    } else {
      assert listing[..i] == listing;
    }
  }

  /** `_find_pkgname`: the package name shared by the wheels of the listing. */
  method FindPackageName(listing: seq<string>) returns (r: Result<string, Error>)
    ensures r == Failure(MultiplePackageNames) <==> Conflict(WheelNames(listing))
    ensures r == Failure(PackageNameNotFound) <==>
      !Conflict(WheelNames(listing)) && forall k :: 0 <= k < |WheelNames(listing)| ==> WheelNames(listing)[k] == ""
    ensures r.Success? ==>
      && r.value != ""
      && r.value in WheelNames(listing)
      && forall k :: 0 <= k < |WheelNames(listing)| ==> WheelNames(listing)[k] in {"", r.value}
    ensures r.Success? || r == Failure(MultiplePackageNames) || r == Failure(PackageNameNotFound)
    ensures (!Conflict(WheelNames(listing)) &&
             exists k :: 0 <= k < |WheelNames(listing)| && WheelNames(listing)[k] != "") ==> r.Success?
  {
    var pkgname: Option<string> := None;
    for i := 0 to |listing|
      invariant !Conflict(WheelNames(listing[..i]))
      invariant pkgname == if |WheelNames(listing[..i])| == 0 then None
        else Some(WheelNames(listing[..i])[|WheelNames(listing[..i])| - 1])
    {
      var f := listing[i];
      ghost var before := WheelNames(listing[..i]);
      assert listing[..i + 1][..i] == listing[..i];
      assert WheelNames(listing[..i + 1]) == before + if IsWheelFile(f) then [PackageNameOf(f)] else [];
      if IsWheelFile(f) {
        var newPkgname := PackageNameOf(f);
        ConflictAppend(before, newPkgname);
        if pkgname.Some? && pkgname.value != "" && newPkgname != pkgname.value {
          WheelNamesPrefix(listing, i + 1);
          ConflictPrefix(WheelNames(listing), |WheelNames(listing[..i + 1])|);
          return Failure(MultiplePackageNames);
        }
        pkgname := Some(newPkgname);
      }
    }
    assert listing[..|listing|] == listing;
    var names := WheelNames(listing);
    if pkgname.None? || pkgname.value == "" {
      forall k | 0 <= k < |names| ensures names[k] == "" {
        if names[k] != "" {
          NoConflictKeepsName(names, k, |names| - 1);
        }
      }
      return Failure(PackageNameNotFound);
    }
    forall k | 0 <= k < |names| ensures names[k] in {"", pkgname.value} {
      if names[k] != "" {
        NoConflictKeepsName(names, k, |names| - 1);
      }
    }
    return Success(pkgname.value);
  }

  // ---------------------------------------------------------------------------
  // _build_and_check_wheel
  // ---------------------------------------------------------------------------

  /** Whether to build a wheel, and with which `--python-tag`. */
  datatype BuildDecision = Skip | Build(pythonTag: string)

  /** The decision part of `_build_and_check_wheel`. Whether the setup file of
      the addon exists is given. */
  function WheelBuildPlan(tree: Tree, addonDir: string, setupFileExists: bool): (r: Result<BuildDecision, Error>)
    ensures GetManifest(tree, addonDir).Failure? ==> r == Failure(GetManifest(tree, addonDir).error)
    ensures GetManifest(tree, addonDir).Success? && !Installable(GetManifest(tree, addonDir).value) ==>
      r == Success(Skip)
    ensures r.Success? && r.value.Build? ==>
      && GetManifest(tree, addonDir).Success?
      && Installable(GetManifest(tree, addonDir).value)
      && setupFileExists
      && var series := SeriesFromVersion(GetManifest(tree, addonDir).value.version.GetOr(""));
      && series.Success?
      && !SeriesBelow(series.value, (8, 0))
      && (r.value.pythonTag == "py2" <==> SeriesBelow(series.value, (11, 0)))
      && (r.value.pythonTag == "py3" <==> !SeriesBelow(series.value, (11, 0)))
    ensures (&& GetManifest(tree, addonDir).Success?
             && Installable(GetManifest(tree, addonDir).value)
             && SeriesFromVersion(GetManifest(tree, addonDir).value.version.GetOr("")).Failure?) ==>
      r == Failure(SeriesNotDetected)
  {
    var manifest :- GetManifest(tree, addonDir);
    if !Installable(manifest) then Success(Skip)
    else
      var series :- SeriesFromVersion(manifest.version.GetOr(""));
      if SeriesBelow(series, (8, 0)) then Success(Skip)
      else if !setupFileExists then Success(Skip)
      else Success(Build(if SeriesBelow(series, (11, 0)) then "py2" else "py3"))
  }

  /** An installable addon without a version has no series, which is an error. */
  lemma MissingVersionFails(tree: Tree, addonDir: string, setupFileExists: bool)
    requires GetManifest(tree, addonDir).Success?
    requires Installable(GetManifest(tree, addonDir).value)
    requires GetManifest(tree, addonDir).value.version.None?
    ensures WheelBuildPlan(tree, addonDir, setupFileExists) == Failure(SeriesNotDetected)
  {
    assert Split("", '.') == [""];
  }

  /** For an installable addon whose version is well formed, the series groups of
      the version decide: series 8.0 to 10.x build for Python 2, 11.0 and later
      for Python 3, earlier ones and addons without a setup file not at all. */
  lemma BuildForVersion(tree: Tree, addonDir: string, setupFileExists: bool, p: VersionParts)
    requires GetManifest(tree, addonDir).Success?
    requires Installable(GetManifest(tree, addonDir).value)
    requires GetManifest(tree, addonDir).value.version == Some(Format(p)) && p.Wellformed()
    ensures var major := DigitsValue(p.seriesMajor);
      WheelBuildPlan(tree, addonDir, setupFileExists) ==
        if major < 8 || !setupFileExists then Success(Skip)
        else if major < 11 then Success(Build("py2"))
        else Success(Build("py3"))
  {
    SeriesFromVersionSpec(p);
  }
}
