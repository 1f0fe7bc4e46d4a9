/** The classification of `git diff --name-only` output in `git_modified_addons`:
    each changed path either touches an addon, named by the path's first segment
    or, under `setup/`, by its second one, or it is some other change. Whether a
    name is an addon is decided on the working tree of the branch under review. */
module Classifier {
  import opened Text
  import opened Addons

  /** What one line of the diff output does to the result. */
  datatype Effect =
    | Skip                    // an empty line
    | Touches(addon: string)  // the line's path lies in this addon
    | Other                   // the line's path lies outside every addon

  /** `setup/<name>` holds an addon in one of the two layouts of setuptools-odoo. */
  predicate SetupQualifies(tree: Tree, name: string) {
    IsAddonDir(tree, "setup/" + name + "/odoo_addons/" + name) ||
    IsAddonDir(tree, "setup/" + name + "/odoo/addons/" + name)
  }

  /** A name the classifier may report: an addon directory at the root, or one
      packaged under `setup/`. */
  predicate Qualifies(tree: Tree, name: string) {
    IsAddonDir(tree, name) || SetupQualifies(tree, name)
  }

  /** The effect of one path. */
  function LineEffect(tree: Tree, line: string): (e: Effect)
    ensures e == Skip <==> line == ""
    ensures line != "" && '/' !in line ==> e == Other
    ensures e.Touches? ==> '/' !in e.addon && Qualifies(tree, e.addon)
  {
    if line == "" then Skip
    else if '/' !in line then Other
    else
      var parts := Split(line, '/');
      SplitPiecesHaveNoSeparator(line, '/');
      if parts[0] == "setup" && |parts| > 1 then
        if SetupQualifies(tree, parts[1]) then Touches(parts[1]) else Other
      else if IsAddonDir(tree, parts[0]) then Touches(parts[0])
      else Other
  }

  /** The addons the diff touches. None of them is an addon that the branch under
      review has deleted: each one still qualifies on its working tree. */
  function AffectedAddons(tree: Tree, lines: seq<string>): (r: set<string>)
    ensures forall n :: n in r ==> '/' !in n && Qualifies(tree, n)
  {
    set i | 0 <= i < |lines| && LineEffect(tree, lines[i]).Touches? :: LineEffect(tree, lines[i]).addon
  }

  /** Some path of the diff lies outside every addon. */
  predicate HasOtherChanges(tree: Tree, lines: seq<string>) {
    exists i :: 0 <= i < |lines| && LineEffect(tree, lines[i]).Other?
  }

  /** The loop of `git_modified_addons`, which folds the lines into a set of
      addon names and a flag. */
  method ClassifyLines(tree: Tree, lines: seq<string>) returns (modified: set<string>, otherChanges: bool)
    ensures modified == AffectedAddons(tree, lines)
    ensures otherChanges == HasOtherChanges(tree, lines)
  {
    modified := {};
    otherChanges := false;
    var i := 0;
    while i < |lines|
      invariant 0 <= i <= |lines|
      invariant modified == AffectedAddons(tree, lines[..i])
      invariant otherChanges == HasOtherChanges(tree, lines[..i])
    {
      var line := lines[i];
      ghost var before := lines[..i];
      assert lines[..i + 1] == before + [line];
      if line == "" {
        // skipped
      } else if '/' !in line {
        otherChanges := true;
      } else {
        var parts := Split(line, '/');
        if parts[0] == "setup" && |parts| > 1 {
          var addonName := parts[1];
          if SetupQualifies(tree, addonName) {
            modified := modified + {addonName};
          } else {
            otherChanges := true;
          }
        } else {
          var addonName := parts[0];
          if IsAddonDir(tree, addonName) {
            modified := modified + {addonName};
          } else {
            otherChanges := true;
          }
        }
      }
      AppendLine(tree, before, line);
      i := i + 1;
    }
    assert lines[..|lines|] == lines;
  }

  /** How one more line changes the result. */
  lemma AppendLine(tree: Tree, lines: seq<string>, line: string)
    ensures AffectedAddons(tree, lines + [line]) ==
      AffectedAddons(tree, lines) + (if LineEffect(tree, line).Touches? then {LineEffect(tree, line).addon} else {})
    ensures HasOtherChanges(tree, lines + [line]) <==> HasOtherChanges(tree, lines) || LineEffect(tree, line).Other?
  {
    var ext := lines + [line];
    assert forall i :: 0 <= i < |lines| ==> ext[i] == lines[i];
    assert ext[|lines|] == line;
    if HasOtherChanges(tree, lines) {
      var i :| 0 <= i < |lines| && LineEffect(tree, lines[i]).Other?;
      assert LineEffect(tree, ext[i]).Other?;
    }
  }

  /** A path `name/...` under a root directory other than `setup` touches that
      addon when the directory is an addon, and is another change otherwise. */
  lemma RootPathEffect(tree: Tree, name: string, rest: string)
    requires '/' !in name && name != "setup"
    ensures LineEffect(tree, name + "/" + rest) == if IsAddonDir(tree, name) then Touches(name) else Other
  {
    var line := name + "/" + rest;
    assert line[|name|] == '/';
    SplitAtFirstSeparator(name, rest, '/');
    assert Split(line, '/')[0] == name;
  }

  /** A path `setup/name` or `setup/name/...` touches `name` exactly when
      `setup/name` holds an addon in one of the two packaging layouts. */
  lemma SetupPathEffect(tree: Tree, name: string, rest: string)
    requires '/' !in name
    requires rest == "" || rest[0] == '/'
    ensures LineEffect(tree, "setup/" + name + rest) == if SetupQualifies(tree, name) then Touches(name) else Other
  {
    var line := "setup/" + name + rest;
    var tail := name + rest;
    assert line == "setup" + "/" + tail;
    assert line[5] == '/';
    SplitAtFirstSeparator("setup", tail, '/');
    FirstPiece(name, rest);
    var parts := Split(line, '/');
    assert parts == ["setup"] + Split(tail, '/');
    assert parts[0] == "setup" && |parts| > 1 && parts[1] == name;
  }

  /** The first piece of `name` followed by a separator, or by nothing, is `name`. */
  lemma FirstPiece(name: string, rest: string)
    requires '/' !in name
    requires rest == "" || rest[0] == '/'
    ensures Split(name + rest, '/')[0] == name
  {
    if rest == "" {
      assert name + rest == name;
      SplitWithoutSeparator(name, '/');
    } else {
      assert name + rest == name + "/" + rest[1..];
      SplitAtFirstSeparator(name, rest[1..], '/');
    }
  }

  /** A diff confined to one addon directory reports that addon and nothing else. */
  lemma ConfinedChange(tree: Tree, name: string, lines: seq<string>)
    requires '/' !in name && name != "setup" && IsAddonDir(tree, name)
    requires forall i :: 0 <= i < |lines| ==>
      lines[i] == "" || (|name| < |lines[i]| && lines[i][..|name| + 1] == name + "/")
    ensures !HasOtherChanges(tree, lines)
    ensures AffectedAddons(tree, lines) == if forall i :: 0 <= i < |lines| ==> lines[i] == "" then {} else {name}
  {
    forall i | 0 <= i < |lines| && lines[i] != ""
      ensures LineEffect(tree, lines[i]) == Touches(name)
    {
      var rest := lines[i][|name| + 1..];
      assert lines[i] == lines[i][..|name| + 1] + rest;
      RootPathEffect(tree, name, rest);
    }
    if exists i :: 0 <= i < |lines| && lines[i] != "" {
      var i :| 0 <= i < |lines| && lines[i] != "";
      assert name == LineEffect(tree, lines[i]).addon;
    }
  }
}
