/**
 * `findPackageFolder` (packages/core/utils/src/findPackageFolder.js): the
 * nearest directory holding a `package.json`, searched upwards from a start
 * directory without leaving the current `node_modules` folder.
 */
module PackageFolder {
  import opened Wrappers
  import opened Paths
  import opened FileSystems

  const PackageJson := "package.json"
  const NodeModules := "node_modules"

  /** `package.json` exists directly inside `dir`. */
  predicate HasManifest(fs: FileSystem, dir: Path) {
    Exists(fs, Join(dir, PackageJson))
  }

  /**
   * The walk from `start` probes `d`: `d` is `start` or one of its ancestors,
   * it is not the root, and neither `d` nor any directory between `d` and
   * `start` is called `node_modules`.
   */
  predicate Probed(start: Path, d: Path) {
    d <= start && d != Root &&
    forall k :: |d| - 1 <= k < |start| ==> start[k] != NodeModules
  }

  /**
   * The walk itself. `probes` lists, in order, the directories whose
   * `package.json` was looked for: `start`, then its parent, and so on.
   * A found directory is the last probe and is the nearest probed directory
   * with a manifest; nothing is found only when no probed directory has one.
   */
  method FindPackageFolder(fs: FileSystem, start: Path) returns (found: Option<Path>, ghost probes: seq<Path>)
    ensures |probes| <= |start|
    ensures forall i :: 0 <= i < |probes| ==> probes[i] == start[..|start| - i]
    ensures forall d :: d in probes <==> Probed(start, d) && (found.Some? ==> |d| >= |found.value|)
    ensures forall i :: 0 <= i < |probes| ==> (HasManifest(fs, probes[i]) <==> found.Some? && i == |probes| - 1)
    ensures found.Some? ==> Probed(start, found.value) && HasManifest(fs, found.value)
    ensures found.Some? ==> forall d :: Probed(start, d) && |d| > |found.value| ==> !HasManifest(fs, d)
    ensures found.None? <==> forall d :: Probed(start, d) ==> !HasManifest(fs, d)
  {
    var dir := start;
    probes := [];
    while dir != Root && Basename(dir) != NodeModules
      invariant dir <= start
      invariant |probes| == |start| - |dir|
      invariant forall i :: 0 <= i < |probes| ==> probes[i] == start[..|start| - i]
      invariant forall k :: |dir| <= k < |start| ==> start[k] != NodeModules
      invariant forall i :: 0 <= i < |probes| ==> !HasManifest(fs, probes[i])
      decreases |dir|
    {
      assert start[|dir| - 1] == dir[|dir| - 1] == Basename(dir);
      assert forall k :: |dir| - 1 <= k < |start| ==> start[k] != NodeModules by {
        forall k | |dir| - 1 <= k < |start| ensures start[k] != NodeModules {
          if k == |dir| - 1 { assert start[k] == Basename(dir); }
        }
      }
      probes := probes + [dir];
      if Exists(fs, Join(dir, PackageJson)) {
        found := Some(dir);
        FoundOutcome(fs, start, dir, probes);
        return;
      }
      dir := Dirname(dir);
    }
    found := None;
    NotFoundOutcome(fs, start, dir, probes);
  }

  /** The walk's outcome when it stops at `dir` because `dir` has a manifest. */
  lemma FoundOutcome(fs: FileSystem, start: Path, dir: Path, probes: seq<Path>)
    requires dir <= start && dir != Root && |probes| == |start| - |dir| + 1
    requires forall i :: 0 <= i < |probes| ==> probes[i] == start[..|start| - i]
    requires forall k :: |dir| - 1 <= k < |start| ==> start[k] != NodeModules
    requires forall i :: 0 <= i < |probes| - 1 ==> !HasManifest(fs, probes[i])
    requires HasManifest(fs, dir)
    ensures |probes| <= |start|
    ensures forall d :: d in probes <==> Probed(start, d) && |d| >= |dir|
    ensures forall i :: 0 <= i < |probes| ==> (HasManifest(fs, probes[i]) <==> i == |probes| - 1)
    ensures Probed(start, dir)
    ensures forall d :: Probed(start, d) && |d| > |dir| ==> !HasManifest(fs, d)
  {
    ProbesAreAncestors(start, probes, |dir| - 1);
    ProbedBelow(start, |dir| - 1);
    assert probes[|probes| - 1] == dir;
  }

  /** The walk's outcome when it stops at `dir` because `dir` is the root or is called `node_modules`. */
  lemma NotFoundOutcome(fs: FileSystem, start: Path, dir: Path, probes: seq<Path>)
    requires dir <= start && |probes| == |start| - |dir|
    requires dir == Root || Basename(dir) == NodeModules
    requires forall i :: 0 <= i < |probes| ==> probes[i] == start[..|start| - i]
    requires forall k :: |dir| <= k < |start| ==> start[k] != NodeModules
    requires forall i :: 0 <= i < |probes| ==> !HasManifest(fs, probes[i])
    ensures forall d :: d in probes <==> Probed(start, d)
    ensures forall d :: Probed(start, d) ==> !HasManifest(fs, d)
  {
    ProbesAreAncestors(start, probes, |dir|);
    ProbedBelow(start, |dir|);
    if dir != Root {
      assert start[|dir| - 1] == dir[|dir| - 1];
    }
  }

  /** Consecutive ancestors of `start` down to length `lo + 1` are exactly the ancestors longer than `lo`. */
  lemma ProbesAreAncestors(start: Path, probes: seq<Path>, lo: nat)
    requires lo <= |start| && |probes| == |start| - lo
    requires forall i :: 0 <= i < |probes| ==> probes[i] == start[..|start| - i]
    ensures forall d :: d in probes <==> d <= start && |d| > lo
  {
    forall d | d <= start && |d| > lo
      ensures d in probes
    {
      assert probes[|start| - |d|] == d;
    }
  }

  /** With no `node_modules` at or below index `lo`, an ancestor longer than `lo` is probed exactly when it is not the root. */
  lemma ProbedBelow(start: Path, lo: nat)
    requires lo <= |start|
    requires forall k :: lo <= k < |start| ==> start[k] != NodeModules
    ensures forall d :: d <= start && |d| > lo ==> Probed(start, d)
    ensures lo > 0 && start[lo - 1] == NodeModules ==> forall d :: Probed(start, d) ==> |d| > lo
  {
  }
}
