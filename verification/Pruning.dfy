/** Pruning the execution tree before sealing (cmd/deus-aws-bootstrap/seal_inventory_linux.go). */
module Pruning {
  import opened Wrappers
  import opened FileTree

  /** The runtime output directories that stay although they are empty. */
  const SEALED_EMPTY_DIRECTORIES := ["artifacts/pulumi-plans", "artifacts/runtime-output"]

  /** A directory that is not kept and has nothing below it but directories that are not kept either. */
  ghost predicate IsUnneeded(tree: Tree, path: string) {
    && path in tree && tree[path].Directory? && path !in SEALED_EMPTY_DIRECTORIES
    && forall p :: p in tree && Under(path, p) ==> tree[p].Directory? && p !in SEALED_EMPTY_DIRECTORIES
  }

  ghost function Unneeded(tree: Tree): set<string> {
    set p | p in tree && IsUnneeded(tree, p)
  }

  lemma BelowUnneeded(tree: Tree, path: string, p: string)
    requires IsUnneeded(tree, path) && p in tree && Under(path, p)
    ensures IsUnneeded(tree, p)
  {
    forall q | q in tree && Under(p, q)
      ensures Under(path, q)
    {
      UnderIsTransitive(path, p, q);
    }
  }

  // ---------------------------------------------------------------- longest paths first

  ghost predicate LongestFirst(paths: seq<string>) {
    forall i, j :: 0 <= i < j < |paths| ==> |paths[i]| >= |paths[j]|
  }

  function InsertByLength(path: string, paths: seq<string>): (r: seq<string>)
    ensures forall p :: p in r <==> p == path || p in paths
    ensures |r| == |paths| + 1
    ensures LongestFirst(paths) ==> LongestFirst(r)
    ensures Distinct(paths) && path !in paths ==> Distinct(r)
  {
    if paths == [] then
      [path]
    else if |paths[0]| > |path| then
      var rest := InsertByLength(path, paths[1..]);
      assert paths == [paths[0]] + paths[1..];
      assert forall i :: 0 <= i < |rest| ==> rest[i] in rest;
      [paths[0]] + rest
    else
      [path] + paths
  }

  /** The unneeded ones among the first n directories. */
  ghost function Gone(before: Tree, directories: seq<string>, n: nat): set<string>
    requires n <= |directories|
  {
    if n == 0 then {}
    else Gone(before, directories, n - 1)
          + if IsUnneeded(before, directories[n - 1]) then {directories[n - 1]} else {}
  }

  lemma {:induction false} GoneMembers(before: Tree, directories: seq<string>, n: nat)
    requires n <= |directories|
    ensures forall p :: p in Gone(before, directories, n) <==> IsUnneeded(before, p) && p in directories[..n]
  {
    if n > 0 {
      GoneMembers(before, directories, n - 1);
      assert directories[..n] == directories[..n - 1] + [directories[n - 1]];
    }
  }

  lemma NothingGone(before: Tree, directories: seq<string>)
    ensures before - Gone(before, directories, 0) == before
  {}

  lemma GoneStep(before: Tree, directories: seq<string>, i: nat)
    requires i < |directories|
    ensures before - Gone(before, directories, i + 1) ==
            if IsUnneeded(before, directories[i]) then before - Gone(before, directories, i) - {directories[i]}
            else before - Gone(before, directories, i)
  {
    hide IsUnneeded;
  }

  lemma OnlyUnneededGone(before: Tree, directories: seq<string>, n: nat)
    requires n <= |directories|
    ensures Gone(before, directories, n) <= Unneeded(before)
  {
    GoneMembers(before, directories, n);
  }

  lemma AllGone(before: Tree, directories: seq<string>)
    requires forall d :: d in directories <==> d in before && before[d].Directory?
    ensures Gone(before, directories, |directories|) == Unneeded(before)
  {
    GoneMembers(before, directories, |directories|);
    assert directories[..|directories|] == directories;
  }

  /** One pass over the directory tree, deleting as it goes. */
  class ExecutionTree {
    var tree: Tree

    /** All directories but the root, the longest paths first. */
    method ListDirectories() returns (directories: seq<string>)
      ensures forall d :: d in directories <==> d in tree && tree[d].Directory?
      ensures LongestFirst(directories) && Distinct(directories)
    {
      directories := [];
      var left := tree.Keys;
      while left != {}
        invariant left <= tree.Keys
        invariant forall d :: d in directories <==> d in tree && d !in left && tree[d].Directory?
        invariant LongestFirst(directories) && Distinct(directories)
      {
        var path :| path in left;
        if tree[path].Directory? {
          directories := InsertByLength(path, directories);
        }
        left := left - {path};
      }
    }

    /**
     One pass in descending path length removes exactly the unneeded directories; a file system fault stops it early,
     having removed nothing else.
     */
    method RemoveUnneededEmptyDirectories() returns (ok: bool)
      requires IsTree(tree)
      modifies this
      ensures ok ==> tree == old(tree) - Unneeded(old(tree))
      ensures tree.Keys <= old(tree).Keys && IsTree(tree)
      ensures forall p :: p in old(tree) && p !in tree ==> p in Unneeded(old(tree))
    {
      hide IsTree, Unneeded, IsUnneeded, Children, IsChild, Under, Gone, AtTurn, LongestFirst;
      ghost var before := tree;
      var directories := ListDirectories();
      NothingGone(before, directories);
      for i := 0 to |directories|
        invariant IsTree(tree)
        invariant tree == before - Gone(before, directories, i)
      {
        var value := directories[i];
        assert value in directories;
        GoneStep(before, directories, i);
        if value in SEALED_EMPTY_DIRECTORIES {
          KeptIsNeeded(before, value);
          continue;
        }
        var fault: bool := *;
        OnlyUnneededGone(before, directories, i);
        if fault {
          return false;
        }
        var entries := Children(tree, value);
        TurnComes(before, tree, directories, i);
        EmptyMeansUnneeded(before, tree, value);
        if |entries| == 0 {
          RemovingALeaf(tree, value);
          tree := tree - {value};
        }
      }
      AllGone(before, directories);
      ok := true;
    }
  }

  lemma RemovingALeaf(tree: Tree, path: string)
    requires IsTree(tree) && Children(tree, path) == {}
    ensures IsTree(tree - {path})
  {
    var after := tree - {path};
    forall p | p in after
      ensures exists d :: IsChild(d, p) && (d == "" || (d in after && after[d].Directory?))
    {
      var d :| IsChild(d, p) && (d == "" || (d in tree && tree[d].Directory?));
      assert d == path ==> p in Children(tree, path);
    }
  }

  lemma KeptIsNeeded(tree: Tree, path: string)
    requires path in SEALED_EMPTY_DIRECTORIES
    ensures !IsUnneeded(tree, path)
  {}

  /** The state of the loop when the turn of a directory comes: longer paths are dealt with. */
  ghost predicate AtTurn(before: Tree, tree: Tree, value: string) {
    && value in before && before[value].Directory? && value !in SEALED_EMPTY_DIRECTORIES && value in tree
    && (forall p :: p in tree ==> p in before)
    && (forall p :: p in before && p !in tree ==> IsUnneeded(before, p))
    && (forall p :: p in before && |p| > |value| && IsUnneeded(before, p) ==> p !in tree)
  }

  lemma TurnComes(before: Tree, tree: Tree, directories: seq<string>, i: nat)
    requires LongestFirst(directories) && Distinct(directories) && i < |directories|
    requires forall d :: d in directories <==> d in before && before[d].Directory?
    requires tree == before - Gone(before, directories, i)
    requires directories[i] !in SEALED_EMPTY_DIRECTORIES
    ensures AtTurn(before, tree, directories[i])
  {
    var value := directories[i];
    GoneMembers(before, directories, i);
    assert value in directories;
    forall p | p in before && |p| > |value| && IsUnneeded(before, p)
      ensures p !in tree
    {
      assert p in directories;
      var k :| 0 <= k < |directories| && directories[k] == p;
      assert directories[..i][k] == p;
    }
  }

  /** A directory is then empty exactly if it was unneeded at the start. */
  lemma EmptyMeansUnneeded(before: Tree, tree: Tree, value: string)
    requires AtTurn(before, tree, value) && IsTree(tree)
    ensures |Children(tree, value)| == 0 <==> IsUnneeded(before, value)
  {
    if IsUnneeded(before, value) {
      forall p | p in tree
        ensures !Under(value, p)
      {
        if Under(value, p) {
          BelowUnneeded(before, value, p);
          UnderIsLonger(value, p);
        }
      }
      NothingUnder(tree, value);
    }
    if Children(tree, value) == {} {
      forall p | p in before && Under(value, p)
        ensures before[p].Directory? && p !in SEALED_EMPTY_DIRECTORIES
      {
        if p in tree {
          BelowIsSubtrees(tree, value, p);
        }
      }
    }
  }

  lemma NothingUnder(tree: Tree, value: string)
    requires forall p :: p in tree ==> !Under(value, p)
    ensures Children(tree, value) == {}
  {
    forall p | p in tree
      ensures !IsChild(value, p)
    {
      if IsChild(value, p) {
        ChildIsUnder(value, p);
      }
    }
  }

  /** Afterwards only kept directories are empty. */
  lemma NoEmptyDirectoryRemains(before: Tree, path: string)
    requires IsTree(before) && IsTree(before - Unneeded(before))
    requires path in before && path !in Unneeded(before) && before[path].Directory? && path !in SEALED_EMPTY_DIRECTORIES
    ensures Children(before - Unneeded(before), path) != {}
  {
    var after := before - Unneeded(before);
    var p :| p in before && Under(path, p) && (!before[p].Directory? || p in SEALED_EMPTY_DIRECTORIES);
    assert p in after;
    BelowIsSubtrees(after, path, p);
  }
}
