/** What the bot sees of an addons repository's working tree: the manifest files
    it contains, and whether each of them parses. An addon directory is one that
    holds a manifest file under one of three names, looked up in priority order. */
module Addons {
  import opened Wrappers
  import opened Errors

  /** The manifest keys the bot reads; each may be absent. */
  datatype Manifest = Manifest(
    version: Option<string>,
    installable: Option<bool>,
    maintainers: Option<seq<string>>)

  /** A manifest file is a Python literal, which may fail to evaluate. */
  datatype ManifestFile = Parsed(manifest: Manifest) | Malformed

  /** A working tree, reduced to its manifest files, keyed by their path
      (directory, `/`, file name) relative to the root of the clone. */
  type Tree = map<string, ManifestFile>

  /** `MANIFEST_NAMES`, in the order they are tried. */
  const ManifestNames: seq<string> := ["__manifest__.py", "__openerp__.py", "__terp__.py"]

  function ManifestFilePath(dir: string, name: string): string {
    dir + "/" + name
  }

  /** The first of `names` under which `dir` holds a file. */
  function FirstManifestPath(tree: Tree, dir: string, names: seq<string>): (r: Option<string>)
    ensures r.Some? ==> r.value in tree
    ensures r.None? <==> forall i :: 0 <= i < |names| ==> ManifestFilePath(dir, names[i]) !in tree
    decreases |names|
  {
    if |names| == 0 then None
    else if ManifestFilePath(dir, names[0]) in tree then Some(ManifestFilePath(dir, names[0]))
    else FirstManifestPath(tree, dir, names[1..])
  }

  /** `get_manifest_path`: the path of the directory's manifest file, if any. */
  function ManifestPath(tree: Tree, dir: string): (r: Option<string>)
    ensures r.Some? ==> r.value in tree
    ensures r.None? <==> forall i :: 0 <= i < |ManifestNames| ==> ManifestFilePath(dir, ManifestNames[i]) !in tree
  {
    FirstManifestPath(tree, dir, ManifestNames)
  }

  /** The lookup prefers the earlier names: a directory holding the file of the
      `i`-th name and none of the earlier ones has that file as its manifest. */
  lemma {:induction false} FirstManifestPathPrefers(tree: Tree, dir: string, names: seq<string>, i: nat)
    requires i < |names| && ManifestFilePath(dir, names[i]) in tree
    requires forall k :: 0 <= k < i ==> ManifestFilePath(dir, names[k]) !in tree
    ensures FirstManifestPath(tree, dir, names) == Some(ManifestFilePath(dir, names[i]))
    decreases i
  {
    if i > 0 {
      assert ManifestFilePath(dir, names[0]) !in tree;
      FirstManifestPathPrefers(tree, dir, names[1..], i - 1);
    }
  }

  lemma ManifestPathPrefers(tree: Tree, dir: string, i: nat)
    requires i < |ManifestNames| && ManifestFilePath(dir, ManifestNames[i]) in tree
    requires forall k :: 0 <= k < i ==> ManifestFilePath(dir, ManifestNames[k]) !in tree
    ensures ManifestPath(tree, dir) == Some(ManifestFilePath(dir, ManifestNames[i]))
  {
    FirstManifestPathPrefers(tree, dir, ManifestNames, i);
  }

  /** A `__manifest__.py` wins over the older names. */
  lemma ManifestFileWins(tree: Tree, dir: string)
    requires ManifestFilePath(dir, "__manifest__.py") in tree
    ensures ManifestPath(tree, dir) == Some(ManifestFilePath(dir, "__manifest__.py"))
  {
    ManifestPathPrefers(tree, dir, 0);
  }

  /** `is_addon_dir(addon_dir)`: a manifest file exists, whether or not it parses. */
  predicate IsAddonDir(tree: Tree, dir: string)
    ensures IsAddonDir(tree, dir) <==>
      exists i :: 0 <= i < |ManifestNames| && ManifestFilePath(dir, ManifestNames[i]) in tree
  {
    ManifestPath(tree, dir).Some?
  }

  /** `get_manifest`: the parsed manifest of the directory. */
  function GetManifest(tree: Tree, dir: string): (r: Result<Manifest, Error>)
    ensures r == Failure(NoManifestFound(dir)) <==> !IsAddonDir(tree, dir)
    ensures r.Failure? && IsAddonDir(tree, dir) ==>
      tree[ManifestPath(tree, dir).value] == Malformed && r.error == ManifestParseError(ManifestPath(tree, dir).value)
    ensures r.Success? ==> IsAddonDir(tree, dir) && tree[ManifestPath(tree, dir).value] == Parsed(r.value)
  {
    match ManifestPath(tree, dir)
    case None => Failure(NoManifestFound(dir))
    case Some(path) =>
      match tree[path]
      case Parsed(m) => Success(m)
      case Malformed => Failure(ManifestParseError(path))
  }

  /** `manifest.get("installable", True)` */
  predicate Installable(m: Manifest) {
    m.installable.GetOr(true)
  }

  /** `is_addon_dir(addon_dir, installable_only=True)`: a directory without a
      manifest is not an addon, a manifest that does not parse is an error, and
      otherwise the manifest's `installable` key decides, defaulting to true. */
  function IsInstallableAddonDir(tree: Tree, dir: string): (r: Result<bool, Error>)
    ensures !IsAddonDir(tree, dir) ==> r == Success(false)
    ensures r.Failure? <==> IsAddonDir(tree, dir) && GetManifest(tree, dir).Failure?
    ensures r == Success(true) <==> GetManifest(tree, dir).Success? && Installable(GetManifest(tree, dir).value)
  {
    match GetManifest(tree, dir)
    case Failure(NoManifestFound(_)) => Success(false)
    case Failure(e) => Failure(e)
    case Success(m) => Success(Installable(m))
  }
}
