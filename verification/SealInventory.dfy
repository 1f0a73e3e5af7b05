/** The exact-inventory acceptor of the sealed execution tree (cmd/deus-aws-bootstrap/seal_inventory_linux.go). */
module SealInventory {
  import opened Wrappers
  import opened FileTree
  import Pruning
  import SealedCopy

  datatype ManifestFile = ManifestFile(path: string, executable: bool, sha256: string)

  datatype InventoryEntry = InventoryEntry(
    path: string, kind: string, size: int, executable: bool, sha256: string, target: string)

  datatype Inventory = Inventory(
    entryCount: int,
    totalFileBytes: int,
    maximumFileSize: int,
    entries: seq<InventoryEntry>,
    documentSha256: string,
    candidateSha256: string)

  datatype Budget = Budget(maximumEntries: int, maximumFileSize: int, maximumTreeSize: int)

  /** The digest function, the safe relative paths, and the links that resolve inside the dependency root. */
  datatype Inspector = Inspector(sha256: string -> string, isSafePath: string -> bool, linkStaysInside: string -> bool)

  const NODE_MODULES := "node_modules"

  const GENERATED_ROOTS := [
    "artifacts/" + "bootstrap-pulumi-home/plugins/resource-aws-v7.27.0",
    "dist-management-seed",
    "dist-management-seed-policy",
    NODE_MODULES]

  const CANDIDATE := "artifacts/bootstrap-candidate.json"
  const INVENTORY_DOCUMENT := "artifacts/bootstrap-seal-inventory.json"

  const GENERATED_FILES := [
    "Pulumi.management.yaml",
    CANDIDATE,
    INVENTORY_DOCUMENT,
    "artifacts/contract-schema-validation.json",
    "artifacts/deus-aws-bootstrap",
    "artifacts/local-gate-evidence.json",
    "artifacts/management-seed-access-bundle.json",
    "artifacts/management-seed-access.template.json",
    "artifacts/secure-saas-infra.spdx.json",
    "artifacts/security-contract-evidence.json",
    "onboarding.local.json"]

  function MatchingGeneratedRoot(path: string, n: nat := |GENERATED_ROOTS|): string
    requires n <= |GENERATED_ROOTS|
  {
    if n == 0 then ""
    else
      var earlier := MatchingGeneratedRoot(path, n - 1);
      var root := GENERATED_ROOTS[n - 1];
      if earlier != "" then earlier else if path == root || root + "/" <= path then root else ""
  }

  // ---------------------------------------------------------------- what is expected where

  datatype Origin = Source | Generated | GeneratedInventory

  /** What the seal is checked against. */
  datatype Expectation = Expectation(
    manifest: map<string, ManifestFile>,
    exact: map<string, Origin>,
    inventory: map<string, InventoryEntry>,
    documentSha256: string,
    candidateSha256: string)

  function ManifestByPath(files: seq<ManifestFile>): map<string, ManifestFile> {
    if files == [] then map[] else ManifestByPath(files[..|files| - 1])[files[|files| - 1].path := files[|files| - 1]]
  }

  function EntriesByPath(entries: seq<InventoryEntry>): map<string, InventoryEntry> {
    if entries == [] then map[]
    else EntriesByPath(entries[..|entries| - 1])[entries[|entries| - 1].path := entries[|entries| - 1]]
  }

  function ExactPaths(sources: seq<string>, entries: seq<InventoryEntry>): map<string, Origin> {
    map p | p in (set s | s in sources) + (set g | g in GENERATED_FILES) + (set e | e in entries :: e.path) ::
      if p in sources then Source else if p in GENERATED_FILES then Generated else GeneratedInventory
  }

  /** Sources are in the manifest, and neither generated files nor inventory entries overlap them or repeat. */
  ghost predicate IsConsistent(files: seq<ManifestFile>, sources: seq<string>, entries: seq<InventoryEntry>) {
    && (forall s :: s in sources ==> s in ManifestByPath(files))
    && (forall g :: g in GENERATED_FILES ==> g !in sources)
    && (forall k :: 0 <= k < |entries| ==> entries[k].path !in sources)
    && (forall j, k :: 0 <= j < k < |entries| && entries[j].path == entries[k].path ==>
          entries[k].path in GENERATED_FILES)
  }

  function ExpectationOf(files: seq<ManifestFile>, sources: seq<string>, inventory: Inventory): Expectation {
    Expectation(ManifestByPath(files), ExactPaths(sources, inventory.entries), EntriesByPath(inventory.entries),
                inventory.documentSha256, inventory.candidateSha256)
  }

  predicate IsSealAncestor(x: Expectation, path: string) {
    || (exists p :: p in x.exact && path + "/" <= p)
    || (exists e :: e in Pruning.SEALED_EMPTY_DIRECTORIES && path + "/" <= e)
  }

  predicate IsExpected(x: Expectation, path: string, node: Node) {
    || path in x.exact
    || path in Pruning.SEALED_EMPTY_DIRECTORIES
    || (node.Directory? && IsSealAncestor(x, path))
  }

  predicate MatchesEntry(i: Inspector, entry: InventoryEntry, path: string, node: Node) {
    if entry.kind == "directory" then
      node.Directory?
    else if entry.kind == "file" then
      && node.File? && |node.content| == entry.size && IsExecutable(node.perm) == entry.executable
      && i.sha256(node.content) == entry.sha256
    else if entry.kind == "symlink" then
      && node.Symlink? && MatchingGeneratedRoot(path) == NODE_MODULES
      && node.target == entry.target && i.linkStaysInside(path)
    else
      false
  }

  /** A source as the manifest says, the two documents by digest, another generated file by its type only. */
  predicate MatchesOrigin(i: Inspector, x: Expectation, path: string, node: Node)
    requires path in x.exact && (x.exact[path].Source? ==> path in x.manifest)
  {
    && node.File?
    && if x.exact[path].Source? then
         i.sha256(node.content) == x.manifest[path].sha256 && IsExecutable(node.perm) == x.manifest[path].executable
       else if path == CANDIDATE then i.sha256(node.content) == x.candidateSha256
       else if path == INVENTORY_DOCUMENT then i.sha256(node.content) == x.documentSha256
       else true
  }

  ghost predicate SourcesListed(x: Expectation) {
    forall p :: p in x.exact && x.exact[p].Source? ==> p in x.manifest
  }

  predicate IsEmptyDirectory(tree: Tree, path: string) {
    path in tree && tree[path].Directory? && Children(tree, path) == {}
  }

  /** What the walk requires of one entry. */
  predicate EntryAccepted(i: Inspector, x: Expectation, b: Budget, uid: int, tree: Tree, path: string)
    requires path in tree && (path in x.exact && x.exact[path].Source? ==> path in x.manifest)
  {
    var node := tree[path];
    && i.isSafePath(path)
    && IsExpected(x, path, node)
    && node.uid == uid
    && !node.Special?
    && (node.File? ==> |node.content| <= b.maximumFileSize)
    && (if path in x.inventory then MatchesEntry(i, x.inventory[path], path, node)
        else if node.Symlink? then false
        else path in x.exact ==> MatchesOrigin(i, x, path, node))
    && (path in Pruning.SEALED_EMPTY_DIRECTORIES && !node.Symlink? ==> IsEmptyDirectory(tree, path))
  }

  ghost predicate AllAccepted(i: Inspector, x: Expectation, b: Budget, uid: int, tree: Tree, paths: set<string>)
    requires SourcesListed(x) && paths <= tree.Keys
  {
    forall p :: p in paths ==> EntryAccepted(i, x, b, uid, tree, p)
  }

  /** The tree is exactly what is expected, owned by the identity and within the budgets. */
  ghost predicate IsAccepted(i: Inspector, x: Expectation, b: Budget, uid: int, mount: SealedCopy.Mount)
    requires SourcesListed(x)
  {
    && mount.root.Directory? && mount.root.uid == uid
    && AllAccepted(i, x, b, uid, mount.entries, mount.entries.Keys)
    && x.exact.Keys <= mount.entries.Keys
    && (forall e :: e in Pruning.SEALED_EMPTY_DIRECTORIES ==> IsEmptyDirectory(mount.entries, e))
    && |mount.entries| <= b.maximumEntries
    && TotalSize(mount.entries, mount.entries.Keys) <= b.maximumTreeSize
  }

  // ---------------------------------------------------------------- the acceptor as written

  /** The checks of the walk function on one entry; also tells whether it counts as a seen exact path. */
  method CheckEntry(i: Inspector, x: Expectation, b: Budget, uid: int, tree: Tree, path: string)
    returns (accepted: bool, exactSeen: bool)
    requires path in tree && SourcesListed(x)
    ensures accepted <==> EntryAccepted(i, x, b, uid, tree, path)
    ensures accepted && (forall p :: p in x.inventory ==> p in x.exact) ==> (exactSeen <==> path in x.exact)
  {
    exactSeen := false;
    var node := tree[path];
    if !i.isSafePath(path) {
      return false, exactSeen;
    }
    var exactPath := path in x.exact;
    var emptyPath := path in Pruning.SEALED_EMPTY_DIRECTORIES;
    var allowedDirectory := node.Directory? && (IsSealAncestor(x, path) || emptyPath);
    if !exactPath && !allowedDirectory && !emptyPath {
      return false, exactSeen;
    }
    if node.Symlink? {
      if path !in x.inventory || x.inventory[path].kind != "symlink" || MatchingGeneratedRoot(path) != NODE_MODULES {
        return false, exactSeen;
      }
      if node.target != x.inventory[path].target || !i.linkStaysInside(path) {
        return false, exactSeen;
      }
      return node.uid == uid, true;
    }
    if !node.Directory? && !node.File? {
      return false, exactSeen;
    }
    if node.uid != uid {
      return false, exactSeen;
    }
    if node.File? && |node.content| > b.maximumFileSize {
      return false, exactSeen;
    }
    if path in x.inventory {
      var wanted := x.inventory[path];
      if wanted.kind == "directory" {
        if !node.Directory? {
          return false, exactSeen;
        }
      } else if wanted.kind == "file" {
        if !node.File? || |node.content| != wanted.size || IsExecutable(node.perm) != wanted.executable {
          return false, exactSeen;
        }
        if i.sha256(node.content) != wanted.sha256 {
          return false, exactSeen;
        }
      } else {
        return false, exactSeen;
      }
      exactSeen := true;
    } else if exactPath {
      if !node.File? {
        return false, exactSeen;
      }
      exactSeen := true;
      var digest := i.sha256(node.content);
      if x.exact[path].Source? {
        if digest != x.manifest[path].sha256 || IsExecutable(node.perm) != x.manifest[path].executable {
          return false, exactSeen;
        }
      } else if path == CANDIDATE {
        if digest != x.candidateSha256 {
          return false, exactSeen;
        }
      } else if path == INVENTORY_DOCUMENT {
        if digest != x.documentSha256 {
          return false, exactSeen;
        }
      }
    }
    if emptyPath {
      if !node.Directory? || |Children(tree, path)| != 0 {
        return false, exactSeen;
      }
    }
    accepted := true;
  }

  lemma OneMoreAccepted(i: Inspector, x: Expectation, b: Budget, uid: int, tree: Tree, paths: set<string>, path: string)
    requires SourcesListed(x) && paths <= tree.Keys && path in tree
    ensures AllAccepted(i, x, b, uid, tree, paths + {path}) <==>
            AllAccepted(i, x, b, uid, tree, paths) && EntryAccepted(i, x, b, uid, tree, path)
    ensures AllAccepted(i, x, b, uid, tree, tree.Keys) ==> EntryAccepted(i, x, b, uid, tree, path)
  {
    hide EntryAccepted;
  }

  /** Building the maps the walk consults; fails exactly on an inconsistent release, scope or inventory. */
  method BuildExpectation(files: seq<ManifestFile>, sources: seq<string>, inventory: Inventory)
    returns (result: Option<Expectation>)
    ensures result.Some? <==> IsConsistent(files, sources, inventory.entries)
    ensures result.Some? ==> result.value == ExpectationOf(files, sources, inventory) && SourcesListed(result.value)
    ensures result.Some? ==> forall p :: p in result.value.inventory ==> p in result.value.exact
  {
    var manifest: map<string, ManifestFile> := map[];
    for k := 0 to |files|
      invariant manifest == ManifestByPath(files[..k])
    {
      assert files[..k + 1][..k] == files[..k];
      manifest := manifest[files[k].path := files[k]];
    }
    assert files[..|files|] == files;
    var ok, exact := ListExact(sources, manifest);
    if !ok {
      return None;
    }
    var byPath;
    ok, exact, byPath := AddEntries(sources, inventory.entries, exact);
    if !ok {
      return None;
    }
    EntriesAreExact(sources, inventory.entries);
    result := Some(Expectation(manifest, exact, byPath, inventory.documentSha256, inventory.candidateSha256));
  }

  lemma {:induction false} EntriesAreExact(sources: seq<string>, entries: seq<InventoryEntry>)
    ensures forall p :: p in EntriesByPath(entries) ==> p in ExactPaths(sources, entries)
  {
    if entries != [] {
      EntriesAreExact(sources, entries[..|entries| - 1]);
    }
  }

  /** The governed sources and the generated files. */
  method ListExact(sources: seq<string>, manifest: map<string, ManifestFile>)
    returns (ok: bool, exact: map<string, Origin>)
    ensures ok <==> (forall s :: s in sources ==> s in manifest) && (forall g :: g in GENERATED_FILES ==> g !in sources)
    ensures ok ==> exact == ExactPaths(sources, [])
  {
    exact := map[];
    for k := 0 to |sources|
      invariant exact == map p | p in sources[..k] :: Source
      invariant forall s :: s in sources[..k] ==> s in manifest
    {
      exact := exact[sources[k] := Source];
      assert sources[..k + 1] == sources[..k] + [sources[k]];
      if sources[k] !in manifest {
        assert sources[k] in sources;
        return false, exact;
      }
    }
    assert sources[..|sources|] == sources;
    ok, exact := AddGenerated(sources, exact);
  }

  method AddGenerated(sources: seq<string>, exactIn: map<string, Origin>) returns (ok: bool, exact: map<string, Origin>)
    requires exactIn == map p | p in sources :: Source
    ensures ok <==> forall g :: g in GENERATED_FILES ==> g !in sources
    ensures ok ==> exact == ExactPaths(sources, [])
  {
    hide ExactPaths;
    exact := exactIn;
    for k := 0 to |GENERATED_FILES|
      invariant exact == map p | p in sources + GENERATED_FILES[..k] :: if p in sources then Source else Generated
      invariant forall g :: g in GENERATED_FILES[..k] ==> g !in sources
    {
      assert GENERATED_FILES[..k + 1] == GENERATED_FILES[..k] + [GENERATED_FILES[k]];
      assert GENERATED_FILES[k] in GENERATED_FILES;
      assert GENERATED_FILES[k] !in GENERATED_FILES[..k];
      if GENERATED_FILES[k] in exact {
        return false, exact;
      }
      exact := exact[GENERATED_FILES[k] := Generated];
    }
    assert GENERATED_FILES[..|GENERATED_FILES|] == GENERATED_FILES;
    GeneratedSoFar(sources);
    ok := true;
  }

  /** The inventory entries: they overlap no source, and no other entry but one of a generated file. */
  method AddEntries(sources: seq<string>, entries: seq<InventoryEntry>, exactIn: map<string, Origin>)
    returns (ok: bool, exact: map<string, Origin>, byPath: map<string, InventoryEntry>)
    requires exactIn == ExactPaths(sources, [])
    ensures ok <==>
              && (forall k :: 0 <= k < |entries| ==> entries[k].path !in sources)
              && (forall j, k :: 0 <= j < k < |entries| && entries[j].path == entries[k].path ==>
                    entries[k].path in GENERATED_FILES)
    ensures ok ==> exact == ExactPaths(sources, entries) && byPath == EntriesByPath(entries)
  {
    hide ExactPaths;
    exact, byPath := exactIn, map[];
    for k := 0 to |entries|
      invariant exact == ExactPaths(sources, entries[..k]) && byPath == EntriesByPath(entries[..k])
      invariant forall j :: 0 <= j < k ==> entries[j].path !in sources
      invariant forall j, l :: 0 <= j < l < k && entries[j].path == entries[l].path ==>
                  entries[l].path in GENERATED_FILES
    {
      var entry := entries[k];
      OneMoreEntry(sources, entries, k);
      if entry.path in exact {
        if !exact[entry.path].Generated? {
          return false, exact, byPath;
        }
      } else {
        exact := exact[entry.path := GeneratedInventory];
      }
      byPath := byPath[entry.path := entry];
    }
    assert entries[..|entries|] == entries;
    ok := true;
  }

  lemma GeneratedSoFar(sources: seq<string>)
    ensures ExactPaths(sources, []) == map p | p in sources + GENERATED_FILES ::
              if p in sources then Source else Generated
  {}

  lemma OneMoreEntry(sources: seq<string>, entries: seq<InventoryEntry>, k: nat)
    requires k < |entries|
    ensures EntriesByPath(entries[..k + 1]) == EntriesByPath(entries[..k])[entries[k].path := entries[k]]
    ensures var before, path := ExactPaths(sources, entries[..k]), entries[k].path;
            && ExactPaths(sources, entries[..k + 1]) ==
                 (if path in before then before else before[path := GeneratedInventory])
            && (path in before && before[path].Source? <==> path in sources)
            && (path in before && before[path].GeneratedInventory? ==>
                  path !in GENERATED_FILES && exists j :: 0 <= j < k && entries[j].path == path)
            && (path in before && before[path].Generated? ==> path in GENERATED_FILES)
            && (path !in before ==> forall j :: 0 <= j < k ==> entries[j].path != path)
  {
    assert entries[..k + 1][..k] == entries[..k];
    assert entries[..k + 1] == entries[..k] + [entries[k]];
    var before, path := ExactPaths(sources, entries[..k]), entries[k].path;
    if path !in before {
      forall j | 0 <= j < k
        ensures entries[j].path != path
      {
        assert entries[j] in entries[..k];
      }
    }
    assert ExactPaths(sources, entries[..k + 1]).Keys == before.Keys + {path};
  }

  /** The acceptor accepts exactly the accepted trees of a consistent release, scope and inventory. */
  method ValidateSealInventory(i: Inspector, files: seq<ManifestFile>, sources: seq<string>, inventory: Inventory,
                               uid: int, b: Budget, mount: SealedCopy.Mount)
    returns (ok: bool)
    ensures ok <==> && b.maximumEntries > 0 && b.maximumFileSize > 0 && b.maximumTreeSize > 0
                    && IsConsistent(files, sources, inventory.entries)
                    && SourcesListed(ExpectationOf(files, sources, inventory))
                    && IsAccepted(i, ExpectationOf(files, sources, inventory), b, uid, mount)
  {
    hide IsConsistent, ExpectationOf, IsAccepted;
    if b.maximumEntries <= 0 || b.maximumFileSize <= 0 || b.maximumTreeSize <= 0 {
      return false;
    }
    var expectation := BuildExpectation(files, sources, inventory);
    if expectation.None? {
      return false;
    }
    ok := WalkTree(i, expectation.value, uid, b, mount);
  }

  /** What the walk knows when the entries of `left` are still to come. */
  ghost predicate WalkedTo(i: Inspector, x: Expectation, b: Budget, uid: int, tree: Tree, left: set<string>,
                           entries: int, totalBytes: int, seenExact: set<string>, seenEmpty: set<string>)
    requires SourcesListed(x)
  {
    && left <= tree.Keys
    && entries == |tree.Keys - left| && totalBytes == TotalSize(tree, tree.Keys - left)
    && entries <= b.maximumEntries && totalBytes <= b.maximumTreeSize
    && AllAccepted(i, x, b, uid, tree, tree.Keys - left)
    && seenExact == x.exact.Keys * (tree.Keys - left)
    && seenEmpty == EmptySeen(tree, tree.Keys - left)
  }

  function EmptySeen(tree: Tree, walked: set<string>): set<string> {
    set e | e in walked && e in Pruning.SEALED_EMPTY_DIRECTORIES && e in tree && !tree[e].Symlink?
  }

  lemma StepAccepted(i: Inspector, x: Expectation, b: Budget, uid: int, tree: Tree, left: set<string>,
                     entries: int, totalBytes: int, seenExact: set<string>, seenEmpty: set<string>, path: string)
    requires SourcesListed(x) && path in left
    requires WalkedTo(i, x, b, uid, tree, left, entries, totalBytes, seenExact, seenEmpty)
    requires EntryAccepted(i, x, b, uid, tree, path)
    requires entries + 1 <= b.maximumEntries && totalBytes + SizeOf(tree[path]) <= b.maximumTreeSize
    ensures WalkedTo(i, x, b, uid, tree, left - {path}, entries + 1, totalBytes + SizeOf(tree[path]),
                     if path in x.exact then seenExact + {path} else seenExact,
                     if path in Pruning.SEALED_EMPTY_DIRECTORIES && !tree[path].Symlink? then seenEmpty + {path}
                     else seenEmpty)
  {
    hide TotalSize, EntryAccepted, AllAccepted, EmptySeen;
    var walked := tree.Keys - left;
    assert tree.Keys - (left - {path}) == walked + {path};
    SealedCopy.CountOne(tree, walked, path);
    OneMoreAccepted(i, x, b, uid, tree, walked, path);
    OneMoreSeen(x, tree, walked, path);
  }

  lemma OneMoreSeen(x: Expectation, tree: Tree, walked: set<string>, path: string)
    requires path in tree
    ensures EmptySeen(tree, walked + {path}) ==
            if path in Pruning.SEALED_EMPTY_DIRECTORIES && !tree[path].Symlink?
            then EmptySeen(tree, walked) + {path} else EmptySeen(tree, walked)
    ensures x.exact.Keys * (walked + {path}) ==
            if path in x.exact then x.exact.Keys * walked + {path} else x.exact.Keys * walked
  {}

  /** An entry that fails its checks or the budgets makes the whole tree unacceptable. */
  lemma StepRejected(i: Inspector, x: Expectation, b: Budget, uid: int, mount: SealedCopy.Mount, left: set<string>,
                     entries: int, totalBytes: int, seenExact: set<string>, seenEmpty: set<string>, path: string)
    requires SourcesListed(x) && path in left
    requires WalkedTo(i, x, b, uid, mount.entries, left, entries, totalBytes, seenExact, seenEmpty)
    requires || !EntryAccepted(i, x, b, uid, mount.entries, path)
             || entries + 1 > b.maximumEntries || totalBytes + SizeOf(mount.entries[path]) > b.maximumTreeSize
    ensures !IsAccepted(i, x, b, uid, mount)
  {
    hide TotalSize, EntryAccepted, AllAccepted, IsEmptyDirectory, EmptySeen;
    var tree := mount.entries;
    var walked := tree.Keys - left;
    SealedCopy.CountOne(tree, walked, path);
    OneMoreAccepted(i, x, b, uid, tree, walked, path);
    assert |tree| == |tree.Keys|;
  }

  lemma BudgetKept(i: Inspector, x: Expectation, b: Budget, uid: int, tree: Tree, left: set<string>,
                   entries: int, totalBytes: int, seenExact: set<string>, seenEmpty: set<string>)
    requires SourcesListed(x) && WalkedTo(i, x, b, uid, tree, left, entries, totalBytes, seenExact, seenEmpty)
    ensures totalBytes <= b.maximumTreeSize
  {}

  lemma WalkBegins(i: Inspector, x: Expectation, b: Budget, uid: int, tree: Tree)
    requires SourcesListed(x) && b.maximumEntries > 0 && b.maximumTreeSize > 0
    ensures WalkedTo(i, x, b, uid, tree, tree.Keys, 0, 0, {}, {})
  {
    hide EntryAccepted;
    assert tree.Keys - tree.Keys == {};
  }

  /** The walk over the tree, in whatever order, and the final checks. */
  method WalkTree(i: Inspector, x: Expectation, uid: int, b: Budget, mount: SealedCopy.Mount) returns (ok: bool)
    requires SourcesListed(x) && forall p :: p in x.inventory ==> p in x.exact
    requires b.maximumEntries > 0 && b.maximumFileSize > 0 && b.maximumTreeSize > 0
    ensures ok <==> IsAccepted(i, x, b, uid, mount)
  {
    hide EntryAccepted, WalkedTo;
    if mount.root.uid != uid || !mount.root.Directory? {
      return false;
    }
    hide IsAccepted;
    var tree := mount.entries;
    var left, entries, totalBytes := tree.Keys, 0, 0;
    var seenExact, seenEmpty: set<string> := {}, {};
    WalkBegins(i, x, b, uid, tree);
    while left != {}
      invariant left <= tree.Keys
      invariant WalkedTo(i, x, b, uid, tree, left, entries, totalBytes, seenExact, seenEmpty)
    {
      var path :| path in left;
      var node := tree[path];
      ghost var e, t, se, sm := entries, totalBytes, seenExact, seenEmpty;
      entries := entries + 1;
      if entries > b.maximumEntries {
        StepRejected(i, x, b, uid, mount, left, e, t, se, sm, path);
        return false;
      }
      var accepted, inventoried := CheckEntry(i, x, b, uid, tree, path);
      if !accepted {
        StepRejected(i, x, b, uid, mount, left, e, t, se, sm, path);
        return false;
      }
      if node.File? {
        totalBytes := totalBytes + |node.content|;
        if totalBytes > b.maximumTreeSize {
          StepRejected(i, x, b, uid, mount, left, e, t, se, sm, path);
          return false;
        }
      }
      if inventoried {
        seenExact := seenExact + {path};
      }
      if path in Pruning.SEALED_EMPTY_DIRECTORIES && !node.Symlink? {
        seenEmpty := seenEmpty + {path};
      }
      BudgetKept(i, x, b, uid, tree, left, e, t, se, sm);
      StepAccepted(i, x, b, uid, tree, left, e, t, se, sm, path);
      left := left - {path};
    }
    Conclusion(i, x, b, uid, mount, entries, totalBytes, seenExact, seenEmpty);
    if |seenExact| != |x.exact| {
      return false;
    }
    ok := forall e | e in Pruning.SEALED_EMPTY_DIRECTORIES :: e in seenEmpty;
  }

  /** What is left to check after the walk. */
  lemma Conclusion(i: Inspector, x: Expectation, b: Budget, uid: int, mount: SealedCopy.Mount,
                   entries: int, totalBytes: int, seenExact: set<string>, seenEmpty: set<string>)
    requires SourcesListed(x) && mount.root.Directory? && mount.root.uid == uid
    requires WalkedTo(i, x, b, uid, mount.entries, {}, entries, totalBytes, seenExact, seenEmpty)
    ensures IsAccepted(i, x, b, uid, mount) <==>
            |seenExact| == |x.exact| && forall e :: e in Pruning.SEALED_EMPTY_DIRECTORIES ==> e in seenEmpty
  {
    hide TotalSize, IsExpected, MatchesEntry, MatchesOrigin, Children;
    var tree := mount.entries;
    assert tree.Keys - {} == tree.Keys;
    assert |x.exact| == |x.exact.Keys| && |tree| == |tree.Keys|;
    if |seenExact| == |x.exact| {
      SubsetOfSameSize(seenExact, x.exact.Keys);
    }
    assert x.exact.Keys <= tree.Keys ==> seenExact == x.exact.Keys;
    forall e | e in seenEmpty
      ensures IsEmptyDirectory(tree, e)
    {
      assert EntryAccepted(i, x, b, uid, tree, e);
    }
  }
}
