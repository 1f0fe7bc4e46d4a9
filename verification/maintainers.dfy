/** Who maintains which addon: `get_maintainers_current_branch` reads the
    `maintainers` key of each addon's manifest on one branch, and `get_maintainers`
    unions these lists, addon by addon, over several branches. */
module Maintainers {
  import opened Wrappers
  import opened Errors
  import opened Addons

  /** The maintainers one tree declares for one addon directory: none when the
      directory has no manifest, the manifest's `maintainers` key (none when it is
      absent) otherwise, and an error when the manifest does not parse. */
  function DeclaredMaintainers(tree: Tree, dir: string): (r: Result<seq<string>, Error>)
    ensures r.Failure? <==> IsAddonDir(tree, dir) && tree[ManifestPath(tree, dir).value] == Malformed
    ensures r.Failure? ==> r.error == ManifestParseError(ManifestPath(tree, dir).value)
    ensures !IsAddonDir(tree, dir) ==> r == Success([])
  {
    match GetManifest(tree, dir)
    case Failure(NoManifestFound(_)) => Success([])
    case Failure(e) => Failure(e)
    case Success(m) => Success(m.maintainers.GetOr([]))
  }

  /** Every directory's manifest can be read on this tree. */
  predicate Readable(tree: Tree, dirs: seq<string>) {
    forall d :: d in dirs ==> DeclaredMaintainers(tree, d).Success?
  }

  /** What `get_maintainers_current_branch` returns on a readable tree. */
  function BranchMaintainers(tree: Tree, dirs: seq<string>): (r: map<string, seq<string>>)
    requires Readable(tree, dirs)
    ensures r.Keys == set d | d in dirs
  {
    map d | d in dirs :: DeclaredMaintainers(tree, d).value
  }

  /** A directory without a manifest has no maintainers; a manifest without the
      key has none either. */
  lemma NoManifestNoMaintainers(tree: Tree, dir: string)
    requires !IsAddonDir(tree, dir) || (GetManifest(tree, dir).Success? && GetManifest(tree, dir).value.maintainers.None?)
    ensures DeclaredMaintainers(tree, dir) == Success([])
  {
  }

  /** `e` is the error of the first directory, in list order, whose manifest
      cannot be read on this tree. */
  predicate FirstReadError(tree: Tree, dirs: seq<string>, e: Error) {
    exists i ::
      && 0 <= i < |dirs|
      && DeclaredMaintainers(tree, dirs[i]) == Failure(e)
      && forall k :: 0 <= k < i ==> DeclaredMaintainers(tree, dirs[k]).Success?
  }

  /** `get_maintainers_current_branch`: the first manifest that does not parse
      aborts the loop; otherwise every directory maps to its declared maintainers. */
  method MaintainersCurrentBranch(tree: Tree, dirs: seq<string>) returns (r: Result<map<string, seq<string>>, Error>)
    ensures r.Success? <==> Readable(tree, dirs)
    ensures r.Success? ==> r.value == BranchMaintainers(tree, dirs)
    ensures r.Failure? ==> FirstReadError(tree, dirs, r.error)
  {
    var addonToMaintainers: map<string, seq<string>> := map[];
    var i := 0;
    while i < |dirs|
      invariant 0 <= i <= |dirs|
      invariant forall d :: d in addonToMaintainers <==> d in dirs[..i]
      invariant forall d :: d in addonToMaintainers ==>
        DeclaredMaintainers(tree, d).Success? && addonToMaintainers[d] == DeclaredMaintainers(tree, d).value
    {
      var addonDir := dirs[i];
      var manifest := GetManifest(tree, addonDir);
      var maintainers: seq<string>;
      if manifest.Failure? {
        if manifest.error.NoManifestFound? {
          maintainers := [];
        } else {
          assert DeclaredMaintainers(tree, dirs[i]) == Failure(manifest.error);
          assert dirs[i] in dirs;
          assert forall k :: 0 <= k < i ==> dirs[k] in dirs[..i];
          return Failure(manifest.error);
        }
      } else {
        maintainers := manifest.value.maintainers.GetOr([]);
      }
      assert dirs[..i + 1] == dirs[..i] + [addonDir];
      addonToMaintainers := addonToMaintainers[addonDir := maintainers];
      i := i + 1;
    }
    assert dirs[..|dirs|] == dirs;
    return Success(addonToMaintainers);
  }

  // ---------------------------------------------------------------------------
  // The union over branches
  // ---------------------------------------------------------------------------

  /** For each branch, for each addon directory, the maintainers it declares. */
  type PerBranch = map<string, map<string, seq<string>>>

  /** One of the branches in `among` has an entry for the addon. */
  ghost predicate HasEntry(perBranch: PerBranch, among: set<string>, addon: string) {
    exists b :: b in among && b in perBranch && addon in perBranch[b]
  }

  /** One of the branches in `among` lists `m` as a maintainer of the addon. */
  ghost predicate Lists(perBranch: PerBranch, among: set<string>, addon: string, m: string) {
    exists b :: b in among && b in perBranch && addon in perBranch[b] && m in perBranch[b][addon]
  }

  /** `r` maps exactly the addons that one of the branches in `among` has an entry
      for, each to everyone those branches list for it. */
  ghost predicate Describes(r: map<string, set<string>>, perBranch: PerBranch, among: set<string>) {
    && (forall a :: a in r <==> HasEntry(perBranch, among, a))
    && (forall a, m :: a in r ==> (m in r[a] <==> Lists(perBranch, among, a, m)))
  }

  /** `{addon: union of its maintainers over all branches}` */
  function Union(perBranch: PerBranch): map<string, set<string>> {
    var addons := set b, a | b in perBranch && a in perBranch[b] :: a;
    map a | a in addons :: set b, m | b in perBranch && a in perBranch[b] && m in perBranch[b][a] :: m
  }

  /** The union maps every addon some branch has an entry for, and nothing else,
      to everyone some branch lists for it. */
  lemma UnionDescribes(perBranch: PerBranch)
    ensures Describes(Union(perBranch), perBranch, perBranch.Keys)
  {
  }

  /** The union is the only map with that description. */
  lemma UnionUnique(r: map<string, set<string>>, perBranch: PerBranch)
    requires Describes(r, perBranch, perBranch.Keys)
    ensures r == Union(perBranch)
  {
    var u := Union(perBranch);
    UnionDescribes(perBranch);
    assert r.Keys == u.Keys;
    forall a | a in r ensures r[a] == u[a] {
      assert forall m :: m in r[a] <==> m in u[a];
    }
  }

  /** The elements of a list, as `set.update` takes them. */
  function Elems(s: seq<string>): set<string> {
    set m | m in s
  }

  /** `r[a]`, or the empty set when `r` has no entry for `a`, as `setdefault` gives. */
  function Get(r: map<string, set<string>>, a: string): set<string> {
    if a in r then r[a] else {}
  }

  /** The inner loop of the fold: `result.setdefault(addon, set()).update(maintainers)`
      for every addon of one branch. */
  method MergeBranch(result: map<string, set<string>>, addonToMaintainers: map<string, seq<string>>)
    returns (merged: map<string, set<string>>)
    ensures forall a :: a in merged <==> a in result || a in addonToMaintainers
    ensures forall a :: a in merged && a !in addonToMaintainers ==> merged[a] == result[a]
    ensures forall a :: a in addonToMaintainers ==> merged[a] == Get(result, a) + Elems(addonToMaintainers[a])
  {
    merged := result;
    var addons := addonToMaintainers.Keys;
    while addons != {}
      invariant addons <= addonToMaintainers.Keys
      invariant forall a :: a in merged <==> a in result || (a in addonToMaintainers && a !in addons)
      invariant forall a :: a in merged && (a !in addonToMaintainers || a in addons) ==> merged[a] == result[a]
      invariant forall a :: a in addonToMaintainers && a !in addons ==>
        merged[a] == Get(result, a) + Elems(addonToMaintainers[a])
      decreases |addons|
    {
      var addon :| addon in addons;
      var addonMaintainers := if addon in merged then merged[addon] else {};
      merged := merged[addon := addonMaintainers + Elems(addonToMaintainers[addon])];
      addons := addons - {addon};
    }
  }

  /** Merging one more branch into the union of some branches gives the union
      of all of them. */
  lemma MergeStep(perBranch: PerBranch, among: set<string>, b: string,
                  result: map<string, set<string>>, merged: map<string, set<string>>)
    requires b in perBranch
    requires Describes(result, perBranch, among)
    requires forall a :: a in merged <==> a in result || a in perBranch[b]
    requires forall a :: a in merged && a !in perBranch[b] ==> merged[a] == result[a]
    requires forall a :: a in perBranch[b] ==> merged[a] == Get(result, a) + Elems(perBranch[b][a])
    ensures Describes(merged, perBranch, among + {b})
  {
    var ext := among + {b};
    forall a ensures a in merged <==> HasEntry(perBranch, ext, a) {
      MergeStepKey(perBranch, among, b, result, merged, a);
    }
    forall a, m | a in merged ensures m in merged[a] <==> Lists(perBranch, ext, a, m) {
      MergeStepList(perBranch, among, b, result, merged, a, m);
    }
  }

  lemma MergeStepKey(perBranch: PerBranch, among: set<string>, b: string,
                     result: map<string, set<string>>, merged: map<string, set<string>>, a: string)
    requires b in perBranch
    requires a in result <==> HasEntry(perBranch, among, a)
    requires a in merged <==> a in result || a in perBranch[b]
    ensures a in merged <==> HasEntry(perBranch, among + {b}, a)
  {
    var ext := among + {b};
    if a in perBranch[b] {
      assert b in ext;
    }
    if HasEntry(perBranch, among, a) {
      var c :| c in among && c in perBranch && a in perBranch[c];
      assert c in ext;
    }
    if HasEntry(perBranch, ext, a) && a !in perBranch[b] {
      var c :| c in ext && c in perBranch && a in perBranch[c];
      assert c in among;
    }
  }

  lemma MergeStepList(perBranch: PerBranch, among: set<string>, b: string,
                      result: map<string, set<string>>, merged: map<string, set<string>>, a: string, m: string)
    requires b in perBranch && a in merged
    requires a in result ==> (m in result[a] <==> Lists(perBranch, among, a, m))
    requires a !in result ==> !Lists(perBranch, among, a, m)
    requires a !in perBranch[b] ==> a in result && merged[a] == result[a]
    requires a in perBranch[b] ==> merged[a] == Get(result, a) + Elems(perBranch[b][a])
    ensures m in merged[a] <==> Lists(perBranch, among + {b}, a, m)
  {
    var ext := among + {b};
    if a in perBranch[b] && m in perBranch[b][a] {
      assert b in ext && m in Elems(perBranch[b][a]);
    }
    if Lists(perBranch, among, a, m) {
      var c :| c in among && c in perBranch && a in perBranch[c] && m in perBranch[c][a];
      assert c in ext;
    }
    if Lists(perBranch, ext, a, m) && !(a in perBranch[b] && m in perBranch[b][a]) {
      var c :| c in ext && c in perBranch && a in perBranch[c] && m in perBranch[c][a];
      assert c in among;
    }
  }

  /** The nested loop of `get_maintainers` that folds the per-branch maps into
      one map from addon to maintainers. */
  method UnionPerAddon(perBranch: PerBranch) returns (result: map<string, set<string>>)
    ensures result == Union(perBranch)
  {
    result := map[];
    var branches := perBranch.Keys;
    while branches != {}
      invariant branches <= perBranch.Keys
      invariant Describes(result, perBranch, perBranch.Keys - branches)
      decreases |branches|
    {
      var b :| b in branches;
      var merged := MergeBranch(result, perBranch[b]);
      MergeStep(perBranch, perBranch.Keys - branches, b, result, merged);
      assert perBranch.Keys - branches + {b} == perBranch.Keys - (branches - {b});
      result := merged;
      branches := branches - {b};
    }
    assert perBranch.Keys - branches == perBranch.Keys;
    UnionUnique(result, perBranch);
  }

  // ---------------------------------------------------------------------------
  // The maintainers of a list of branches
  // ---------------------------------------------------------------------------

  /** Every branch exists in the clone and every directory's manifest parses on it. */
  predicate Resolvable(trees: map<string, Tree>, branches: seq<string>, dirs: seq<string>) {
    forall b :: b in branches ==> b in trees && Readable(trees[b], dirs)
  }

  /** The result of `get_maintainers` for these branches. */
  function ResolvedMaintainers(trees: map<string, Tree>, branches: seq<string>, dirs: seq<string>): map<string, set<string>>
    requires Resolvable(trees, branches, dirs)
  {
    Union(map b | b in branches :: BranchMaintainers(trees[b], dirs))
  }

  /** With at least one branch every directory has an entry, and its entry holds
      exactly the maintainers some branch declares for it. */
  lemma ResolvedMaintainersSpec(trees: map<string, Tree>, branches: seq<string>, dirs: seq<string>)
    requires Resolvable(trees, branches, dirs)
    ensures |branches| == 0 ==> ResolvedMaintainers(trees, branches, dirs) == map[]
    ensures |branches| > 0 ==> ResolvedMaintainers(trees, branches, dirs).Keys == set d | d in dirs
    ensures forall d, m :: d in ResolvedMaintainers(trees, branches, dirs) ==>
      (m in ResolvedMaintainers(trees, branches, dirs)[d] <==>
       exists b :: b in branches && m in DeclaredMaintainers(trees[b], d).value)
  {
    var perBranch := map b | b in branches :: BranchMaintainers(trees[b], dirs);
    var r := ResolvedMaintainers(trees, branches, dirs);
    forall d ensures d in r <==> d in dirs && |branches| > 0 {
      if d in dirs && |branches| > 0 {
        assert branches[0] in perBranch && d in perBranch[branches[0]];
      }
    }
    forall d, m | d in r
      ensures m in r[d] <==> exists b :: b in branches && m in DeclaredMaintainers(trees[b], d).value
    {
      if exists b :: b in branches && m in DeclaredMaintainers(trees[b], d).value {
        var b :| b in branches && m in DeclaredMaintainers(trees[b], d).value;
        assert b in perBranch && d in perBranch[b] && m in perBranch[b][d];
      }
    }
  }

  /** The order of the branches, and repetitions among them, do not matter. */
  lemma BranchOrderIrrelevant(trees: map<string, Tree>, branches: seq<string>, others: seq<string>, dirs: seq<string>)
    requires Resolvable(trees, branches, dirs)
    requires forall b :: b in branches <==> b in others
    ensures Resolvable(trees, others, dirs)
    ensures ResolvedMaintainers(trees, branches, dirs) == ResolvedMaintainers(trees, others, dirs)
  {
    var p := map b | b in branches :: BranchMaintainers(trees[b], dirs);
    var q := map b | b in others :: BranchMaintainers(trees[b], dirs);
    assert p == q;
  }

  /** `is_maintainer`: the user is among the maintainers of every addon of the map. */
  predicate MaintainsAll(user: string, addonToMaintainers: map<string, set<string>>) {
    forall a :: a in addonToMaintainers ==> user in addonToMaintainers[a]
  }

  /** Every branch exists and declares readable maintainers for every addon. */
  predicate Covered(trees: map<string, Tree>, branches: seq<string>, addons: set<string>) {
    forall b :: b in branches ==> b in trees && forall d :: d in addons ==> DeclaredMaintainers(trees[b], d).Success?
  }

  /** For every addon, one of the branches declares the user as a maintainer. */
  predicate MaintainedOnSomeBranch(trees: map<string, Tree>, branches: seq<string>, addons: set<string>, user: string)
    requires Covered(trees, branches, addons)
  {
    forall d :: d in addons ==> exists b :: b in branches && user in DeclaredMaintainers(trees[b], d).value
  }

  /** `is_maintainer` holds exactly when, for every directory, the user is a
      maintainer on at least one of the branches, not necessarily the same one
      for every directory. */
  lemma MaintainerOnSomeBranch(trees: map<string, Tree>, branches: seq<string>, dirs: seq<string>, user: string)
    requires Resolvable(trees, branches, dirs) && |branches| > 0
    ensures Covered(trees, branches, Elems(dirs))
    ensures MaintainsAll(user, ResolvedMaintainers(trees, branches, dirs)) <==>
      MaintainedOnSomeBranch(trees, branches, Elems(dirs), user)
  {
    var r := ResolvedMaintainers(trees, branches, dirs);
    ResolvedMaintainersSpec(trees, branches, dirs);
    if MaintainsAll(user, r) {
      forall d | d in Elems(dirs)
        ensures exists b :: b in branches && user in DeclaredMaintainers(trees[b], d).value
      {
        assert d in r.Keys;
        assert user in r[d];
      }
    }
    if MaintainedOnSomeBranch(trees, branches, Elems(dirs), user) {
      forall a | a in r ensures user in r[a] {
        assert a in r.Keys;
        assert a in Elems(dirs);
      }
    }
  }

  /** Without branches there is nothing to maintain, and every user passes. */
  lemma NoBranchesNoMaintainers(trees: map<string, Tree>, dirs: seq<string>, user: string)
    ensures Resolvable(trees, [], dirs)
    ensures MaintainsAll(user, ResolvedMaintainers(trees, [], dirs))
  {
    ResolvedMaintainersSpec(trees, [], dirs);
  }
}
