# oca-github-bot: manifests, modified addons, maintainers and wheels

A Dafny model of the part of the OCA GitHub bot that reads and writes Odoo addon
manifests and decides what a pull request touches and who may merge it:

- **Version codec** (`version.dfy`): matching a manifest version
  `S1.S2.MAJOR.MINOR.PATCH` and a release branch `S1.S2`, bumping one of the three
  counters, and reading the release series off a version or a branch name.
- **Manifest text rewrite** (`manifest_text.dfy`): `set_manifest_version` as a
  left-to-right, non-overlapping substitution of the version literal in the
  manifest's text, as Python's `re.sub` performs it.
- **Addon directories** (`addons.dfy`): a working tree reduced to its manifest
  files. A directory is an addon when it holds `__manifest__.py`, `__openerp__.py`
  or `__terp__.py`, looked up in that order. A manifest either parses to its
  `version`, `installable` and `maintainers` keys or fails to parse.
- **Diff classifier** (`classifier.dfy`): the loop of `git_modified_addons`. It
  turns the changed paths into a set of addon names and an "other changes" flag.
  It includes the two `setup/<name>/...` packaging layouts.
- **Maintainers** (`maintainers.dfy`): the per-branch reading of the
  `maintainers` keys, and their union per addon across branches.
- **The clone** (`clone.dfy`): a class holding the checked-out branch and the
  working tree of every branch. Its methods are `git checkout`,
  `git checkout -B` and `git merge`. On top of these sit `git_modified_addons`,
  `git_modified_addon_dirs`, `get_maintainers`, `is_maintainer` and
  `user_can_push`.
- **Wheels** (`wheels.dfy`): `_find_pkgname` over a directory listing, and the
  build decision of `_build_and_check_wheel`: skip or build, and with which
  Python tag.

Errors the Python code raises become `Failure` values of a `Result`
(`wrappers.dfy`), one constructor per exception class. Python's `RuntimeError` is
split by raise site: two in `bump_version` (manifest.py:115, 130) and two in
`_find_pkgname` (build_wheels.py:98, 101). Every failing `check_call` becomes
`VcsCommandFailed`.

Three things the bot gets from outside are inputs to the model:
- what a `git merge` produces, with the diff it leads to;
- whether the user may push on GitHub;
- whether an addon's `setup.py` exists.

## Model

| member | source | states |
|---|---|---|
| Text.Split | src/oca_github_bot/manifest.py:170-177 | `str.split` always yields at least one piece, also for the empty text |
| Text.DigitsValue | src/oca_github_bot/manifest.py:121-128 | `int()` of a digit group: a group of zeros only, such as `00`, reads as 0 |
| Text.NatToDigits | src/oca_github_bot/manifest.py:121-131 | `str()` of a number gives digits without leading zeros, and `int()` reads them back as the number |
| Text.ReplaceChar | src/oca_github_bot/build_wheels.py:96 | `str.replace` of one character keeps the length and changes exactly the occurrences of that character |
| Addons.ManifestPath | src/oca_github_bot/manifest.py:71-78 | the path found is a file of the tree; none is found exactly when no manifest name exists in the directory |
| Addons.IsAddonDir | src/oca_github_bot/manifest.py:39-42 | a directory is an addon exactly when it holds a file under one of the manifest names |
| Addons.FirstManifestPath | src/oca_github_bot/manifest.py:71-78 | the path found is a file of the tree; none is found exactly when no manifest name exists in the directory |
| Addons.ManifestPathPrefers | src/oca_github_bot/manifest.py:14 | the lookup returns the first manifest name, in `MANIFEST_NAMES` order, that exists |
| Addons.ManifestFileWins | src/oca_github_bot/manifest.py:14 | a `__manifest__.py` is chosen over the older names |
| Addons.GetManifest | src/oca_github_bot/manifest.py:85-90 | `NoManifestFound` exactly when the directory is not an addon; a parse error names the manifest path that fails to parse; success returns that file's manifest |
| Addons.IsInstallableAddonDir | src/oca_github_bot/manifest.py:39-47 | a directory without a manifest is not installable; the result is an error exactly when the manifest does not parse; it is true exactly when the manifest parses and `installable` is true or absent |
| Version.MatchVersion | src/oca_github_bot/manifest.py:15-17 | a match yields five groups of digits |
| Version.MatchBranch | src/oca_github_bot/manifest.py:18 | a match yields two groups of digits |
| Version.MatchVersionSound | src/oca_github_bot/manifest.py:15-17 | a match yields five digit groups that spell out the whole text, up to one final newline |
| Version.MatchVersionComplete | src/oca_github_bot/manifest.py:15-17 | every text of five digit groups joined by dots is matched, also with one final newline, and gives back its groups |
| Version.BumpVersion | src/oca_github_bot/manifest.py:112-131 | a bump succeeds only on a matching version with mode major, minor or patch, and fails only with the error for a bad version or the one for a bad mode |
| Version.BumpVersionFailures | src/oca_github_bot/manifest.py:112-131 | bumping fails exactly when the version does not match, which is reported first, or when the mode is not major, minor or patch |
| Version.BumpMajor | src/oca_github_bot/manifest.py:120-131 | the result is a version with the same series, MAJOR one higher and MINOR and PATCH zero |
| Version.BumpMinor | src/oca_github_bot/manifest.py:124-131 | the result keeps the series and the MAJOR text; MINOR is one higher and PATCH zero |
| Version.BumpPatch | src/oca_github_bot/manifest.py:127-131 | the result keeps every group but PATCH verbatim; PATCH is one higher |
| Version.BumpMajorOf | src/oca_github_bot/manifest.py:120-131 | a major bump of a well-formed version keeps the series text, writes MAJOR as `str(int(major) + 1)` and MINOR and PATCH as `0` |
| Version.BumpMinorOf | src/oca_github_bot/manifest.py:124-131 | a minor bump of a well-formed version keeps the series and MAJOR text, writes MINOR as `str(int(minor) + 1)` and PATCH as `0` |
| Version.BumpPatchOf | src/oca_github_bot/manifest.py:127-131 | a patch bump of a well-formed version rewrites only its last group, as `str(int(patch) + 1)` |
| Version.BumpKeepsSeries | src/oca_github_bot/manifest.py:112-131 | a successful bump never changes the release series |
| Version.BumpPatchExample | src/oca_github_bot/manifest.py:112-131 | a patch bump of `14.0.1.2.3` gives `14.0.1.2.4` |
| Version.SeriesFromVersion | src/oca_github_bot/manifest.py:208-215 | a version has a series exactly when it matches the version pattern; otherwise the error is `OdooSeriesNotDetected` |
| Version.SeriesFromBranch | src/oca_github_bot/manifest.py:218-225 | a branch has a series exactly when its name matches the branch pattern; otherwise the error is `OdooSeriesNotDetected` |
| Version.SeriesFromVersionSpec | src/oca_github_bot/manifest.py:208-215 | the series of a well-formed version is the integer pair of its first two groups |
| Version.SeriesFromVersionRejectsText | src/oca_github_bot/manifest.py:208-211 | the text `abc` raises `OdooSeriesNotDetected` |
| Version.SeriesFromBranchSound | src/oca_github_bot/manifest.py:218-225 | a branch has a series only when its whole name is two digit groups around a dot, and the series is their integers |
| Version.SeriesFromBranchComplete | src/oca_github_bot/manifest.py:218-225 | every name made of two digit groups around a dot has the series of those groups |
| Version.SeriesFromReleaseBranch | src/oca_github_bot/manifest.py:218-225 | branch `16.0` has series (16, 0) |
| Version.SeriesFromMajorOnlyBranch | src/oca_github_bot/manifest.py:218-221 | branch `16` has no series |
| ManifestText.BumpedIsVersionText | src/oca_github_bot/manifest.py:112-131 | a bumped version is digits and dots only, so it is a valid version field |
| ManifestText.NoMatchNoChange | src/oca_github_bot/manifest.py:93-99 | a text in which the scan finds no occurrence is left as it is |
| ManifestText.RewriteBeforeFirstMatch | src/oca_github_bot/manifest.py:93-99 | the text before the first occurrence is copied unchanged |
| ManifestText.NoMatchStaysNoMatch | src/oca_github_bot/manifest.py:93-99 | where no occurrence starts, none starts after the rest of the text has been rewritten, so the rewrite creates no new occurrence |
| ManifestText.RewrittenOccurrenceMatches | src/oca_github_bot/manifest.py:19-21 | a rewritten occurrence keeps its `pre` and `post` groups and is matched again, with the new version as its group |
| ManifestText.RewrittenFieldsHoldNewVersion | src/oca_github_bot/manifest.py:93-99 | after the rewrite the pattern finds as many version fields as before, and each holds the new version |
| ManifestText.NoFieldNoChange | src/oca_github_bot/manifest.py:93-99 | a manifest without a version field is unchanged |
| ManifestText.SameVersionNoChange | src/oca_github_bot/manifest.py:93-99 | writing the version that every field already holds leaves the manifest unchanged, so the rewrite is idempotent |
| ManifestText.RewriteTwice | src/oca_github_bot/manifest.py:93-99 | rewriting a rewritten manifest gives the same text as rewriting the original, so the first rewrite changes nothing but the version groups |
| ManifestText.WriteBackRestores | src/oca_github_bot/manifest.py:93-99 | writing a version and then the version every field held before gives back the original manifest, character for character |
| ManifestText.BumpThenWrite | src/oca_github_bot/manifest.py:134-137 | bumping a version and writing it leaves every version field holding the bumped version |
| Classifier.LineEffect | src/oca_github_bot/manifest.py:171-195 | an empty line is skipped, and only an empty line is; a path without `/` is another change; a reported addon has no `/` in its name and qualifies on the tree |
| Classifier.AffectedAddons | src/oca_github_bot/manifest.py:153-160 | every reported addon still qualifies on the working tree, so deleted addons are not returned |
| Classifier.ClassifyLines | src/oca_github_bot/manifest.py:169-196 | the loop returns exactly the addons the lines touch, and the flag is set exactly when some line is another change |
| Classifier.AppendLine | src/oca_github_bot/manifest.py:170-195 | one more line adds at most its own addon to the set and sets the flag only if it is another change |
| Classifier.RootPathEffect | src/oca_github_bot/manifest.py:190-195 | `name/...` outside `setup` touches `name` if it is an addon directory, and is another change otherwise |
| Classifier.SetupPathEffect | src/oca_github_bot/manifest.py:178-189 | `setup/name[/...]` touches `name` exactly when `setup/name/odoo_addons/name` or `setup/name/odoo/addons/name` is an addon |
| Classifier.ConfinedChange | src/oca_github_bot/manifest.py:169-196 | a diff confined to one addon directory reports that addon alone and no other change |
| Maintainers.DeclaredMaintainers | src/oca_github_bot/manifest.py:262-267 | reading one directory fails exactly when its manifest exists and does not parse, with the parse error of that file; a directory without a manifest has no maintainers |
| Maintainers.MaintainersCurrentBranch | src/oca_github_bot/manifest.py:255-269 | it succeeds exactly when every manifest parses, and then maps every directory to its declared maintainers; otherwise it returns the error of the first directory that fails |
| Maintainers.NoManifestNoMaintainers | src/oca_github_bot/manifest.py:262-266 | a directory without a manifest, or a manifest without the key, has no maintainers |
| Maintainers.BranchMaintainers | src/oca_github_bot/manifest.py:260-269 | the map has exactly the given directories as keys |
| Maintainers.MergeBranch | src/oca_github_bot/manifest.py:313-315 | `setdefault` and `update` add one branch's lists to the map addon by addon, leaving other addons unchanged |
| Maintainers.MergeStep | src/oca_github_bot/manifest.py:312-315 | merging one more branch into the union of some branches gives the union of all of them |
| Maintainers.UnionPerAddon | src/oca_github_bot/manifest.py:311-316 | the fold computes the per-addon union over all branches |
| Maintainers.UnionDescribes | src/oca_github_bot/manifest.py:311-316 | the union has an entry for exactly the addons some branch lists, holding everyone some branch declares for it |
| Maintainers.UnionUnique | src/oca_github_bot/manifest.py:311-316 | any map with that description is the union |
| Maintainers.ResolvedMaintainersSpec | src/oca_github_bot/manifest.py:272-316 | with no branch the result is empty; otherwise every directory has an entry, holding exactly the maintainers some branch declares for it |
| Maintainers.BranchOrderIrrelevant | src/oca_github_bot/manifest.py:280-316 | the order of the branches, and repetitions among them, do not change the result |
| Maintainers.MaintainerOnSomeBranch | src/oca_github_bot/manifest.py:102-109 | `is_maintainer` holds exactly when, for every directory, some branch declares the user a maintainer |
| Maintainers.NoBranchesNoMaintainers | src/oca_github_bot/manifest.py:102-109 | with an empty branch list every user passes `is_maintainer` |
| Repository.SetToSeq | src/oca_github_bot/manifest.py:201-202 | the list of modified addon directories holds each modified addon exactly once |
| Repository.Clone.Checkout | src/oca_github_bot/manifest.py:164 | a checkout of an existing branch switches to it; one of a missing branch fails and changes nothing |
| Repository.Clone.CheckoutNewBranch | src/oca_github_bot/manifest.py:165 | `checkout -B` points the branch at the current tree and switches to it |
| Repository.Clone.Merge | src/oca_github_bot/manifest.py:166-167 | a conflict fails the command; otherwise the branch gets the merged tree |
| Repository.Clone.ModifiedAddons | src/oca_github_bot/manifest.py:153-196 | on success the clone is back on its branch, the temporary branch holds the merge, and the result is the classification of the diff on the current branch's tree; a missing ref changes nothing; a conflict leaves the clone on the temporary branch |
| Repository.Clone.ModifiedAddonDirs | src/oca_github_bot/manifest.py:199-205 | the same outcomes, with the modified addons also listed as a sequence of distinct directories |
| Repository.Clone.GetMaintainers | src/oca_github_bot/manifest.py:272-316 | the clone ends on the branch and trees it started with on every path; without a branch list only the current branch is read; the result is a success exactly when every branch exists and every manifest parses on it, and is then the per-addon union; a failure comes from the first branch that cannot be read, and is the failed checkout when that branch does not exist and otherwise the error of its first manifest that does not parse |
| Repository.Clone.IsMaintainer | src/oca_github_bot/manifest.py:102-109 | the clone is unchanged; the result is a success exactly when `get_maintainers` succeeds, and is then whether the user is in every addon's set; a failure is the error `get_maintainers` raises, from the first branch that cannot be read |
| Repository.Clone.UserCanPush | src/oca_github_bot/manifest.py:228-252 | a user the platform lets push can push; otherwise other changes or no modified addon mean no; otherwise the user must be a maintainer of each modified addon on the target branch or an extra release; a missing target fails its checkout and changes nothing, and a conflict fails the merge and leaves the clone on the temporary branch made from the target; when the maintainers cannot be read, the error is the failed checkout of the first missing branch, or the parse error of a modified addon's manifest on the first branch that has one |
| Wheels.WheelNames | src/oca_github_bot/build_wheels.py:94-96 | a listing yields at most one package name per file |
| Wheels.NoWheelsNoNames | src/oca_github_bot/build_wheels.py:94-96 | a listing yields no name exactly when it holds no wheel file |
| Wheels.PackageNameOf | src/oca_github_bot/build_wheels.py:96 | the name is the text before the first `-`, with every `_` turned into `-` |
| Wheels.FindPackageName | src/oca_github_bot/build_wheels.py:91-102 | "multiple package names" exactly when a wheel's name differs from a non-empty name just before it; "not found" exactly when there is no conflict and no wheel yields a non-empty name; otherwise the result is the one non-empty name every wheel yields; no other error occurs, and a listing without a conflict in which some wheel yields a non-empty name succeeds |
| Wheels.NoConflictKeepsName | src/oca_github_bot/build_wheels.py:94-99 | without a conflict, every wheel after the first with a non-empty name yields that same name |
| Wheels.ConflictAppend | src/oca_github_bot/build_wheels.py:97-99 | one more wheel causes a conflict exactly when its name differs from the latest, non-empty, name |
| Wheels.WheelBuildPlan | src/oca_github_bot/build_wheels.py:34-47 | an unreadable manifest is an error and a non-installable addon is skipped; a build needs an installable addon, a series of at least (8, 0) and a setup file, and its tag is `py2` exactly below (11, 0) and `py3` otherwise; an installable addon whose version is missing or does not match has no series, which is an error |
| Wheels.MissingVersionFails | src/oca_github_bot/build_wheels.py:38 | an installable addon without a version has no series, which is an error |
| Wheels.BuildForVersion | src/oca_github_bot/build_wheels.py:36-46 | for a well-formed version the series decides: below 8 or without a setup file skip, 8 to 10 build for Python 2, 11 and up for Python 3 |

## Left out

- The git subprocesses are not run. `checkout`, `checkout -B` and `merge` change the clone's state. The outcome of a merge, with the output of `git diff --name-only`, is an input.
- The tree a conflicting merge leaves on disk is not modelled; the model keeps the tree from before the merge.
- Failures of `git checkout` back to the original branch are not modelled: that branch always exists.
- The GitHub API (`github_user_can_push`) is a boolean input of `Repository.Clone.UserCanPush`, and `config.MAINTAINER_CHECK_ODOO_RELEASES` is its `extraReleases` parameter.
- Parsing manifests with `ast.literal_eval` and reading and writing files are not modelled. A manifest file either parses to its three keys or fails to parse, and `set_manifest_version` works on the text.
- The value of `maintainers` is taken to be a list of strings. Other Python values are not modelled.
- `\d` in the version patterns matches the ASCII digits only; Python also accepts other Unicode decimal digits.
- Paths are relative to the root of the clone, which is taken to be the addons directory. `os.path.join` with absolute or empty segments, and the `cwd` argument, are not modelled.
- `is_addons_dir` and `addon_dirs_in` enumerate a directory in an unspecified order. They are not part of this model. Neither is `build_and_publish_wheels`, which iterates over them.
- `get_addon_name`, `get_manifest_file_name` and the `git commit` of `bump_manifest_version` are not modelled. `ManifestText.BumpThenWrite` covers that function's bump and write.
- The replacement text of `set_manifest_version` is taken to be a version (digits and dots), as `bump_version` produces. Backslashes or group references in it would be interpreted by `re.sub`; this is not modelled.
- Building, checking and publishing wheels are not modelled: the temporary directories, `setup.py bdist_wheel`, `twine check` and `rsync`. The existence of `setup.py` is an input of `Wheels.WheelBuildPlan`. The directory listing of `_find_pkgname` is its input.
- Logging is not modelled.
- A merge conflict in `git_modified_addons` is not followed by a checkout of the original branch: the function has no `try`/`finally`, so the clone stays on `tmp-git-modified-addons`. The model follows the code here. `get_maintainers`, by contrast, checks the original branch out again in a `finally` (src/oca_github_bot/manifest.py:287-288).
