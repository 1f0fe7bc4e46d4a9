/** The local clone of an addons repository on which the bot works: the branch
    checked out and, for each branch, its working tree. The git commands the bot
    runs (`checkout`, `checkout -B`, `merge`, `diff --name-only`) become methods
    that change this state; what a merge produces is given to the model. */
module Repository {
  import opened Wrappers
  import opened Errors
  import opened Text
  import opened Addons
  import opened Classifier
  import opened Maintainers

  /** What `git merge` of the branch under review into the temporary branch gives:
      a conflict, or the merged tree together with the output of
      `git diff --name-only <ref> --` against it. */
  datatype MergeOutcome = Conflict | Merged(tree: Tree, diff: string)

  /** The branch `git_modified_addons` merges into. */
  const TmpBranch: string := "tmp-git-modified-addons"

  /** The branches `get_maintainers` reads: the given ones, or the current one. */
  function BranchesToRead(mainBranches: Option<seq<string>>, current: string): seq<string> {
    mainBranches.GetOr([current])
  }

  /** The lines of the diff output. */
  function DiffLines(diff: string): seq<string> {
    Split(diff, '\n')
  }

  /** `e` is the error with which reading the maintainers of one branch fails:
      the checkout of a branch that does not exist, or else the first manifest
      of the branch that does not parse. */
  predicate BranchReadError(trees: map<string, Tree>, branch: string, dirs: seq<string>, e: Error) {
    if branch in trees then FirstReadError(trees[branch], dirs, e)
    else e == VcsCommandFailed("git checkout " + branch)
  }

  /** `e` is the error with which reading the maintainers of the addons fails
      on these branches: the branches before some `i`-th one are readable, and
      that branch does not exist, so its checkout fails, or holds an addon
      whose manifest does not parse. The addons form a set, since the order in
      which their directories are read is not fixed. */
  predicate CoveredReadError(trees: map<string, Tree>, branches: seq<string>, addons: set<string>, e: Error) {
    exists i ::
      && 0 <= i < |branches|
      && Covered(trees, branches[..i], addons)
      && if branches[i] in trees then
           exists d :: d in addons && DeclaredMaintainers(trees[branches[i]], d) == Failure(e)
         else e == VcsCommandFailed("git checkout " + branches[i])
  }

  class Clone {
    /** The branch checked out. */
    var current: string
    /** The working tree of every local branch. */
    var trees: map<string, Tree>

    /** The checked-out branch exists. */
    predicate Valid()
      reads this
    {
      current in trees
    }

    /** The working tree, as the files on disk show it. */
    function WorkingTree(): Tree
      reads this
      requires Valid()
    {
      trees[current]
    }

    constructor (branch: string, branchTrees: map<string, Tree>)
      requires branch in branchTrees
      ensures Valid()
      ensures current == branch && trees == branchTrees
    {
      current := branch;
      trees := branchTrees;
    }

    /** `git checkout <ref>`: fails, leaving everything as it was, when the branch
        does not exist. */
    method Checkout(ref: string) returns (r: Result<(), Error>)
      requires Valid()
      modifies this
      ensures Valid()
      ensures trees == old(trees)
      ensures ref in trees ==> r.Success? && current == ref
      ensures ref !in trees ==> r == Failure(VcsCommandFailed("git checkout " + ref)) && current == old(current)
    {
      if ref in trees {
        current := ref;
        r := Success(());
      } else {
        r := Failure(VcsCommandFailed("git checkout " + ref));
      }
    }

    /** `git checkout -B <name>`: (re)creates the branch at the current commit
        and checks it out. */
    method CheckoutNewBranch(name: string)
      requires Valid()
      modifies this
      ensures Valid()
      ensures trees == old(trees)[name := old(trees)[old(current)]]
      ensures current == name
    {
      trees := trees[name := trees[current]];
      current := name;
    }

    /** `git merge <branch>` into the checked-out branch, whose result is given. A
        conflict fails the command; the conflicted working tree is not modelled. */
    method Merge(branch: string, outcome: MergeOutcome) returns (r: Result<(), Error>)
      requires Valid()
      modifies this
      ensures Valid()
      ensures current == old(current)
      ensures outcome.Conflict? ==> r == Failure(VcsCommandFailed("git merge " + branch)) && trees == old(trees)
      ensures outcome.Merged? ==> r.Success? && trees == old(trees)[current := outcome.tree]
    {
      if outcome.Conflict? {
        r := Failure(VcsCommandFailed("git merge " + branch));
      } else {
        trees := trees[current := outcome.tree];
        r := Success(());
      }
    }

    /** `git_modified_addons`: merge the checked-out branch into a fresh branch
        made from `ref`, list the changed paths, check the original branch out
        again, and classify the paths on its working tree. A failing git command
        ends the operation where it stands: after a conflict the clone stays on
        the temporary branch. */
    method ModifiedAddons(ref: string, merge: MergeOutcome) returns (r: Result<(set<string>, bool), Error>)
      requires Valid()
      modifies this
      ensures Valid()
      ensures ref !in old(trees) ==>
        r == Failure(VcsCommandFailed("git checkout " + ref)) && current == old(current) && trees == old(trees)
      ensures ref in old(trees) && merge.Conflict? ==>
        && r == Failure(VcsCommandFailed("git merge " + old(current)))
        && current == TmpBranch
        && trees == old(trees)[TmpBranch := old(trees)[ref]]
      ensures ref in old(trees) && merge.Merged? ==>
        && current == old(current)
        && trees == old(trees)[TmpBranch := merge.tree]
        && r == Success((AffectedAddons(trees[current], DiffLines(merge.diff)),
                         HasOtherChanges(trees[current], DiffLines(merge.diff))))
    {
      var currentBranch := current;
      var c := Checkout(ref);
      if c.Failure? {
        return Failure(c.error);
      }
      CheckoutNewBranch(TmpBranch);
      var m := Merge(currentBranch, merge);
      if m.Failure? {
        return Failure(m.error);
      }
      var diffs := merge.diff;
      c := Checkout(currentBranch);
      var modified, otherChanges := ClassifyLines(WorkingTree(), Split(diffs, '\n'));
      return Success((modified, otherChanges));
    }

    /** `git_modified_addon_dirs`: the modified addons as a list of directories,
        in no particular order, with the flag and the set. */
    method ModifiedAddonDirs(ref: string, merge: MergeOutcome)
      returns (r: Result<(seq<string>, bool, set<string>), Error>)
      requires Valid()
      modifies this
      ensures Valid()
      ensures ref !in old(trees) ==>
        r == Failure(VcsCommandFailed("git checkout " + ref)) && current == old(current) && trees == old(trees)
      ensures ref in old(trees) && merge.Conflict? ==>
        && r == Failure(VcsCommandFailed("git merge " + old(current)))
        && current == TmpBranch
        && trees == old(trees)[TmpBranch := old(trees)[ref]]
      ensures ref in old(trees) && merge.Merged? ==>
        && current == old(current)
        && trees == old(trees)[TmpBranch := merge.tree]
        && r.Success?
        && r.value.2 == AffectedAddons(trees[current], DiffLines(merge.diff))
        && r.value.1 == HasOtherChanges(trees[current], DiffLines(merge.diff))
        && Elems(r.value.0) == r.value.2
        && |r.value.0| == |r.value.2|
    {
      var m := ModifiedAddons(ref, merge);
      if m.Failure? {
        return Failure(m.error);
      }
      var (modifiedAddons, otherChanges) := m.value;
      var dirs := SetToSeq(modifiedAddons);
      return Success((dirs, otherChanges, modifiedAddons));
    }

    /** `get_maintainers`: for each branch, check it out, read the maintainers of
        every directory, and check the original branch out again, also when the
        checkout or a manifest fails; then union the maintainers addon by addon.
        The first failure is the result; the clone ends as it started either way. */
    method GetMaintainers(dirs: seq<string>, mainBranches: Option<seq<string>>)
      returns (r: Result<map<string, set<string>>, Error>)
      requires Valid()
      modifies this
      ensures current == old(current) && trees == old(trees)
      ensures r.Success? <==> Resolvable(trees, BranchesToRead(mainBranches, current), dirs)
      ensures mainBranches.None? ==> (r.Success? <==> Resolvable(trees, [current], dirs))
      ensures r.Success? ==> r.value == ResolvedMaintainers(trees, BranchesToRead(mainBranches, current), dirs)
      ensures r.Failure? ==> exists i ::
        && 0 <= i < |BranchesToRead(mainBranches, current)|
        && Resolvable(trees, BranchesToRead(mainBranches, current)[..i], dirs)
        && !Resolvable(trees, [BranchesToRead(mainBranches, current)[i]], dirs)
        && BranchReadError(trees, BranchesToRead(mainBranches, current)[i], dirs, r.error)
    {
      var currentBranch := current;
      var branches := BranchesToRead(mainBranches, currentBranch);
      var perBranch: PerBranch := map[];
      var i := 0;
      while i < |branches|
        invariant 0 <= i <= |branches|
        invariant Valid() && current == currentBranch && trees == old(trees)
        invariant Resolvable(trees, branches[..i], dirs)
        invariant forall b :: b in perBranch <==> b in branches[..i]
        invariant forall b :: b in perBranch ==>
          b in trees && Readable(trees[b], dirs) && perBranch[b] == BranchMaintainers(trees[b], dirs)
      {
        var branch := branches[i];
        var c := Checkout(branch);
        if c.Failure? {
          var restored := Checkout(currentBranch);  // finally
          BranchFails(trees, branches, i, dirs);
          return Failure(c.error);
        }
        var addonToMaintainers := MaintainersCurrentBranch(WorkingTree(), dirs);
        var restored := Checkout(currentBranch);  // finally
        if addonToMaintainers.Failure? {
          BranchFails(trees, branches, i, dirs);
          return Failure(addonToMaintainers.error);
        }
        ResolvableExtend(trees, branches, i, dirs);
        perBranch := perBranch[branch := addonToMaintainers.value];
        i := i + 1;
      }
      assert branches[..i] == branches;
      var result := UnionPerAddon(perBranch);
      assert perBranch == map b | b in branches :: BranchMaintainers(trees[b], dirs);
      return Success(result);
    }

    /** `is_maintainer`: the user maintains every addon of the union. */
    method IsMaintainer(user: string, dirs: seq<string>, mainBranches: Option<seq<string>>)
      returns (r: Result<bool, Error>)
      requires Valid()
      modifies this
      ensures current == old(current) && trees == old(trees)
      ensures r.Success? <==> Resolvable(trees, BranchesToRead(mainBranches, current), dirs)
      ensures r.Success? ==>
        r.value == MaintainsAll(user, ResolvedMaintainers(trees, BranchesToRead(mainBranches, current), dirs))
      ensures r.Failure? ==> exists i ::
        && 0 <= i < |BranchesToRead(mainBranches, current)|
        && Resolvable(trees, BranchesToRead(mainBranches, current)[..i], dirs)
        && BranchReadError(trees, BranchesToRead(mainBranches, current)[i], dirs, r.error)
    {
      var addonToMaintainers := GetMaintainers(dirs, mainBranches);
      if addonToMaintainers.Failure? {
        return Failure(addonToMaintainers.error);
      }
      return Success(MaintainsAll(user, addonToMaintainers.value));
    }

    /** `user_can_push`: a user who may push on the hosting platform can; otherwise
        the change must touch addons only, at least one, and the user must
        maintain each of them on the target branch or one of the extra releases. */
    method UserCanPush(platformCanPush: bool, user: string, target: string, merge: MergeOutcome,
                       extraReleases: seq<string>)
      returns (r: Result<bool, Error>)
      requires Valid()
      modifies this
      ensures Valid()
      ensures platformCanPush ==> r == Success(true) && current == old(current) && trees == old(trees)
      ensures !platformCanPush && target !in old(trees) ==>
        && r == Failure(VcsCommandFailed("git checkout " + target))
        && current == old(current)
        && trees == old(trees)
      ensures !platformCanPush && target in old(trees) && merge.Conflict? ==>
        && r == Failure(VcsCommandFailed("git merge " + old(current)))
        && current == TmpBranch
        && trees == old(trees)[TmpBranch := old(trees)[target]]
      ensures !platformCanPush && target in old(trees) && merge.Merged? ==>
        var after := old(trees)[TmpBranch := merge.tree];
        var tree := after[old(current)];
        var addons := AffectedAddons(tree, DiffLines(merge.diff));
        var branches := [target] + extraReleases;
        && current == old(current)
        && trees == after
        && (HasOtherChanges(tree, DiffLines(merge.diff)) || addons == {} ==> r == Success(false))
        && (!HasOtherChanges(tree, DiffLines(merge.diff)) && addons != {} ==>
              && (r.Success? <==> Covered(after, branches, addons))
              && (r.Success? ==> r.value == MaintainedOnSomeBranch(after, branches, addons, user))
              && (r.Failure? ==> CoveredReadError(after, branches, addons, r.error)))
    {
      if platformCanPush {
        return Success(true);
      }
      var m := ModifiedAddonDirs(target, merge);
      if m.Failure? {
        return Failure(m.error);
      }
      var (modifiedAddonDirs, otherChanges, modifiedAddons) := m.value;
      if otherChanges || |modifiedAddonDirs| == 0 {
        return Success(false);
      }
      var mainBranches := [target] + extraReleases;
      r := IsMaintainer(user, modifiedAddonDirs, Some(mainBranches));
      ghost var after := trees;
      CoveredIsResolvable(after, mainBranches, modifiedAddonDirs);
      if r.Success? {
        MaintainerOnSomeBranch(after, mainBranches, modifiedAddonDirs, user);
      } else {
        ghost var i :| && 0 <= i < |mainBranches|
                 && Resolvable(after, mainBranches[..i], modifiedAddonDirs)
                 && BranchReadError(after, mainBranches[i], modifiedAddonDirs, r.error);
        BranchReadErrorCovered(after, mainBranches, modifiedAddonDirs, i, r.error);
      }
    }
  }

  /** The elements of a set, each once, in some order. */
  method SetToSeq(s: set<string>) returns (r: seq<string>)
    ensures Elems(r) == s
    ensures |r| == |s|
  {
    r := [];
    var rest := s;
    while rest != {}
      invariant rest <= s
      invariant forall y :: y in s <==> y in r || y in rest
      invariant |r| + |rest| == |s|
      decreases |rest|
    {
      var x :| x in rest;
      r := r + [x];
      rest := rest - {x};
    }
    assert Elems(r) == s;
  }

  /** The loop of `get_maintainers` reads one more branch. */
  lemma ResolvableExtend(trees: map<string, Tree>, branches: seq<string>, i: nat, dirs: seq<string>)
    requires i < |branches|
    requires Resolvable(trees, branches[..i], dirs)
    requires branches[i] in trees && Readable(trees[branches[i]], dirs)
    ensures Resolvable(trees, branches[..i + 1], dirs)
  {
    assert branches[..i + 1] == branches[..i] + [branches[i]];
  }

  /** The loop of `get_maintainers` stops at the first branch it cannot read. */
  lemma BranchFails(trees: map<string, Tree>, branches: seq<string>, i: nat, dirs: seq<string>)
    requires i < |branches|
    requires !(branches[i] in trees && Readable(trees[branches[i]], dirs))
    ensures !Resolvable(trees, branches, dirs)
    ensures !Resolvable(trees, [branches[i]], dirs)
  {
    assert branches[i] in branches;
    assert branches[i] in [branches[i]];
  }

  /** The error of the first unreadable branch, stated over the directory list,
      is an error of reading the set of those directories. */
  lemma BranchReadErrorCovered(trees: map<string, Tree>, branches: seq<string>, dirs: seq<string>, i: nat, e: Error)
    requires i < |branches| && Resolvable(trees, branches[..i], dirs)
    requires BranchReadError(trees, branches[i], dirs, e)
    ensures CoveredReadError(trees, branches, Elems(dirs), e)
  {
    CoveredIsResolvable(trees, branches[..i], dirs);
    if branches[i] in trees {
      var j :| 0 <= j < |dirs| && DeclaredMaintainers(trees[branches[i]], dirs[j]) == Failure(e);
      assert dirs[j] in Elems(dirs);
    }
  }

  lemma CoveredIsResolvable(trees: map<string, Tree>, branches: seq<string>, dirs: seq<string>)
    ensures Covered(trees, branches, Elems(dirs)) <==> Resolvable(trees, branches, dirs)
  {
  }
}
