/**
 What the seal check of the execution tree means for the tree: its paths, its contents and its sealed copy
 (cmd/deus-aws-bootstrap/seal_inventory_linux.go, cmd/deus-aws-bootstrap/main.go).
 */
module ExecutionSeal {
  import opened FileTree
  import opened SealInventory
  import opened BootstrapInventory
  import Pruning
  import SealedCopy
  import Text

  ghost predicate IsInjective(sha256: string -> string) {
    forall a, b :: sha256(a) == sha256(b) ==> a == b
  }

  /** The listed paths, the kept empty directories, and the directories above them. */
  predicate IsExpectedPath(x: Expectation, path: string) {
    path in x.exact || path in Pruning.SEALED_EMPTY_DIRECTORIES || (path != "" && IsSealAncestor(x, path))
  }

  /** Everything above an entry of a tree is a directory of it. */
  lemma {:induction false} AncestorsArePresent(tree: Tree, above: string, path: string)
    requires IsTree(tree) && path in tree && above != "" && Under(above, path)
    ensures above in tree && tree[above].Directory?
    decreases |path|
  {
    var parent :| IsChild(parent, path) && (parent == "" || (parent in tree && tree[parent].Directory?));
    if parent != above {
      ParentStaysUnder(above, parent, path);
      ChildIsUnder(parent, path);
      UnderIsLonger(parent, path);
      AncestorsArePresent(tree, above, parent);
    }
  }

  /** An accepted tree has exactly the expected paths, and a path that is not listed is a directory. */
  lemma AcceptedTreeIsExact(i: Inspector, x: Expectation, b: Budget, uid: int, mount: SealedCopy.Mount, path: string)
    requires SourcesListed(x) && IsTree(mount.entries) && IsAccepted(i, x, b, uid, mount)
    requires forall p :: p in x.inventory ==> p in x.exact
    ensures path in mount.entries <==> IsExpectedPath(x, path)
    ensures path in mount.entries && path !in x.exact ==> mount.entries[path].Directory?
  {
    hide TotalSize, MatchesEntry, MatchesOrigin, Children, IsTree;
    var tree := mount.entries;
    if path in tree {
      SealedCopy.EverythingIsBelowTheRoot(tree);
      assert path in Below(tree, "");
      assert EntryAccepted(i, x, b, uid, tree, path);
    } else if IsExpectedPath(x, path) {
      if exists p :: p in x.exact && path + "/" <= p {
        var p :| p in x.exact && path + "/" <= p;
        AncestorsArePresent(tree, path, p);
      } else {
        var e :| e in Pruning.SEALED_EMPTY_DIRECTORIES && (e == path || path + "/" <= e);
        AncestorsArePresent(tree, path, e);
      }
    }
  }

  // ---------------------------------------------------------------- the contents

  /** Every listed path is a source, an inventory entry or one of the two documents. */
  ghost predicate IsPinned(x: Expectation) {
    forall p :: p in x.exact ==> x.exact[p].Source? || p in x.inventory || p == CANDIDATE || p == INVENTORY_DOCUMENT
  }

  lemma {:induction false} EntryOfPath(entries: seq<InventoryEntry>, path: string)
    ensures path in EntriesByPath(entries) <==> exists e :: e in entries && e.path == path
    ensures path in EntriesByPath(entries) ==>
              EntriesByPath(entries)[path] in entries && EntriesByPath(entries)[path].path == path
  {
    if entries != [] {
      var last := |entries| - 1;
      EntryOfPath(entries[..last], path);
      assert entries == entries[..last] + [entries[last]];
    }
  }

  /** The reader of the inventory document leaves no listed path without a description. */
  lemma InventoryPinsEverything(isSafePath: string -> bool, apiVersion: string, binding: Binding,
                                files: seq<ManifestFile>, sources: seq<string>, inventory: Inventory)
    requires IsInventory(isSafePath, apiVersion, inventory, binding)
    ensures IsPinned(ExpectationOf(files, sources, inventory))
    ensures forall p :: p in EntriesByPath(inventory.entries) ==> p != CANDIDATE && p != INVENTORY_DOCUMENT
  {
    hide SummaryAgrees, HasConsistentMetadata, MatchingGeneratedRoot, FileBytes, IsLargest, Text.StrictlySortedBy;
    forall p
      ensures p in EntriesByPath(inventory.entries) <==> exists e :: e in inventory.entries && e.path == p
      ensures p in EntriesByPath(inventory.entries) ==>
                EntriesByPath(inventory.entries)[p] in inventory.entries
                && EntriesByPath(inventory.entries)[p].path == p
    {
      EntryOfPath(inventory.entries, p);
    }
    forall p | p in ExactPaths(sources, inventory.entries) && p !in sources && p != CANDIDATE && p != INVENTORY_DOCUMENT
      ensures p in EntriesByPath(inventory.entries)
    {
      if p in GENERATED_FILES {
        assert Holds(inventory.entries, p, "file");
      }
    }
  }

  /** The same kind of node with the same content, target and, where the seal pins it, executable bits. */
  predicate SameEntry(a: Node, b: Node, executablePinned: bool) {
    && (a.Directory? <==> b.Directory?) && (a.File? <==> b.File?) && (a.Symlink? <==> b.Symlink?)
    && (a.File? && b.File? ==>
          a.content == b.content && (executablePinned ==> IsExecutable(a.perm) == IsExecutable(b.perm)))
    && (a.Symlink? && b.Symlink? ==> a.target == b.target)
  }

  /**
   The release, the scope and the signed documents determine the accepted tree: two trees accepted for them, for
   whatever owners and budgets, have the same paths, and at each path the same kind of entry, content and target.
   */
  lemma AcceptedTreeIsDetermined(i: Inspector, x: Expectation, b: Budget, uid: int, first: SealedCopy.Mount,
                                 c: Budget, vid: int, second: SealedCopy.Mount)
    requires SourcesListed(x) && IsPinned(x) && IsInjective(i.sha256)
    requires forall p :: p in x.inventory ==> p in x.exact
    requires IsTree(first.entries) && IsAccepted(i, x, b, uid, first)
    requires IsTree(second.entries) && IsAccepted(i, x, c, vid, second)
    ensures first.entries.Keys == second.entries.Keys
    ensures forall p :: p in first.entries ==>
              SameEntry(first.entries[p], second.entries[p], p != CANDIDATE && p != INVENTORY_DOCUMENT)
  {
    hide IsTree, IsAccepted, EntryAccepted, IsExpectedPath, SameEntry;
    forall p
      ensures p in first.entries <==> p in second.entries
    {
      AcceptedTreeIsExact(i, x, b, uid, first, p);
      AcceptedTreeIsExact(i, x, c, vid, second, p);
    }
    forall p | p in first.entries
      ensures SameEntry(first.entries[p], second.entries[p], p != CANDIDATE && p != INVENTORY_DOCUMENT)
    {
      AcceptedTreeIsExact(i, x, b, uid, first, p);
      AcceptedTreeIsExact(i, x, c, vid, second, p);
      AcceptedEntry(i, x, b, uid, first, p);
      AcceptedEntry(i, x, c, vid, second, p);
      SameExpectation(i, x, b, uid, first.entries, c, vid, second.entries, p);
    }
  }

  lemma AcceptedEntry(i: Inspector, x: Expectation, b: Budget, uid: int, mount: SealedCopy.Mount, p: string)
    requires SourcesListed(x) && IsAccepted(i, x, b, uid, mount) && p in mount.entries
    ensures EntryAccepted(i, x, b, uid, mount.entries, p)
  {
    hide EntryAccepted, TotalSize;
  }

  lemma SameExpectation(i: Inspector, x: Expectation, b: Budget, uid: int, first: Tree, c: Budget, vid: int,
                        second: Tree, p: string)
    requires SourcesListed(x) && IsPinned(x) && IsInjective(i.sha256)
    requires p in first && EntryAccepted(i, x, b, uid, first, p) && (p !in x.exact ==> first[p].Directory?)
    requires p in second && EntryAccepted(i, x, c, vid, second, p) && (p !in x.exact ==> second[p].Directory?)
    ensures SameEntry(first[p], second[p], p != CANDIDATE && p != INVENTORY_DOCUMENT)
  {
    hide IsExpected, IsEmptyDirectory, MatchingGeneratedRoot;
    var f, s := first[p], second[p];
    if f.File? && s.File? && i.sha256(f.content) == i.sha256(s.content) {
      assert f.content == s.content;
    }
  }

  /** The bytes of an accepted tree at the inventoried paths are the total the signed inventory claims. */
  lemma InventoryBytesAreInTheTree(isSafePath: string -> bool, apiVersion: string, binding: Binding, i: Inspector,
                                   files: seq<ManifestFile>, sources: seq<string>, inventory: Inventory,
                                   b: Budget, uid: int, mount: SealedCopy.Mount)
    requires IsInventory(isSafePath, apiVersion, inventory, binding)
    requires var x := ExpectationOf(files, sources, inventory);
             SourcesListed(x) && IsAccepted(i, x, b, uid, mount)
    ensures EntriesByPath(inventory.entries).Keys <= mount.entries.Keys
    ensures TotalSize(mount.entries, EntriesByPath(inventory.entries).Keys) == inventory.totalFileBytes
  {
    hide TotalSize, EntryAccepted, SummaryAgrees, IsLargest, HasConsistentMetadata, EntriesValid, ExactPaths,
         FileBytes, Holds;
    var entries := inventory.entries;
    var x := ExpectationOf(files, sources, inventory);
    EntriesAreExact(sources, entries);
    forall k | 0 <= k < |entries|
      ensures entries[k].path in mount.entries && SizeOf(mount.entries[entries[k].path]) == BytesOf(entries[k])
    {
      var path := entries[k].path;
      assert entries[k] in entries;
      EntryOfPath(entries, path);
      OneEntryPerPath(entries);
      assert x.inventory[path] == entries[k];
      AcceptedEntry(i, x, b, uid, mount, path);
      InventoriedSize(i, x, b, uid, mount.entries, path);
    }
    assert entries[..|entries|] == entries;
    BytesSoFar(mount.entries, entries, |entries|);
  }

  lemma InventoriedSize(i: Inspector, x: Expectation, b: Budget, uid: int, tree: Tree, path: string)
    requires SourcesListed(x) && path in tree && EntryAccepted(i, x, b, uid, tree, path) && path in x.inventory
    ensures SizeOf(tree[path]) == BytesOf(x.inventory[path])
  {
    hide IsExpected, IsEmptyDirectory, MatchesOrigin;
  }

  lemma {:induction false} BytesSoFar(tree: Tree, entries: seq<InventoryEntry>, n: nat)
    requires n <= |entries| && Text.StrictlySortedBy(entries, BootstrapInventory.PathOf)
    requires forall k :: 0 <= k < |entries| ==>
               entries[k].path in tree && SizeOf(tree[entries[k].path]) == BytesOf(entries[k])
    ensures EntriesByPath(entries[..n]).Keys <= tree.Keys
    ensures TotalSize(tree, EntriesByPath(entries[..n]).Keys) == FileBytes(entries[..n])
  {
    hide TotalSize, Text.StrictlySortedBy, BytesOf, SizeOf;
    if n == 0 {
      assert TotalSize(tree, {}) == 0 by {
        NoBytes(tree);
      }
    } else {
      var path := entries[n - 1].path;
      assert entries[..n][..n - 1] == entries[..n - 1];
      BytesSoFar(tree, entries, n - 1);
      EntryOfPath(entries[..n - 1], path);
      OneEntryPerPath(entries);
      NotEarlier(entries, n - 1);
      var before := EntriesByPath(entries[..n - 1]).Keys;
      assert EntriesByPath(entries[..n]).Keys == before + {path};
      SealedCopy.CountOne(tree, before, path);
    }
  }

  lemma NoBytes(tree: Tree)
    ensures TotalSize(tree, {}) == 0
  {}

  lemma NotEarlier(entries: seq<InventoryEntry>, n: nat)
    requires n < |entries| && Text.StrictlySortedBy(entries, BootstrapInventory.PathOf)
    ensures forall e :: e in entries[..n] ==> e.path != entries[n].path
  {
    hide Text.Less;
    forall e | e in entries[..n]
      ensures e.path != entries[n].path
    {
      var k :| 0 <= k < n && entries[k] == e;
      assert Text.Less(BootstrapInventory.PathOf(entries[k]), BootstrapInventory.PathOf(entries[n]));
      Text.LessIsTotal(e.path, e.path);
    }
  }

  // ---------------------------------------------------------------- the sealed copy

  /**
   The sealed copy of an accepted tree is accepted again for the sealing identity, so the check of the staged copy
   succeeds exactly for that owner.
   */
  lemma SealedCopyIsAccepted(i: Inspector, x: Expectation, b: Budget, s: SealedCopy.Settings, mount: SealedCopy.Mount,
                             expectedUid: int)
    requires SourcesListed(x) && IsAccepted(i, x, b, s.sourceUid, mount)
    ensures IsAccepted(i, x, b, expectedUid, SealedCopy.SealedMount(s, mount.entries)) <==> expectedUid == s.euid
  {
    hide TotalSize, EntryAccepted;
    var sealed := SealedCopy.SealedMount(s, mount.entries);
    assert sealed.entries.Keys == mount.entries.Keys;
    SealedCopy.SealingKeepsSizes(s, mount.entries, mount.entries.Keys);
    SealedSize(s, mount.entries);
    forall p | p in mount.entries
      ensures EntryAccepted(i, x, b, s.euid, sealed.entries, p)
    {
      assert EntryAccepted(i, x, b, s.sourceUid, mount.entries, p);
      SealedEntryIsAccepted(i, x, b, s, mount.entries, p);
    }
    forall e | e in Pruning.SEALED_EMPTY_DIRECTORIES
      ensures IsEmptyDirectory(sealed.entries, e)
    {
      SealingKeepsEmptiness(s, mount.entries, e);
    }
  }

  lemma SealedSize(s: SealedCopy.Settings, source: Tree)
    ensures |SealedCopy.SealedOn(s, source, source.Keys)| == |source|
  {
    var sealed := SealedCopy.SealedOn(s, source, source.Keys);
    assert |sealed.Keys| == |sealed| && sealed.Keys == source.Keys && |source.Keys| == |source|;
  }

  lemma SealingKeepsEmptiness(s: SealedCopy.Settings, source: Tree, path: string)
    ensures IsEmptyDirectory(SealedCopy.SealedOn(s, source, source.Keys), path) <==> IsEmptyDirectory(source, path)
  {
    hide IsChild;
    assert Children(SealedCopy.SealedOn(s, source, source.Keys), path) == Children(source, path);
  }

  lemma SealedEntryIsAccepted(i: Inspector, x: Expectation, b: Budget, s: SealedCopy.Settings, source: Tree,
                              path: string)
    requires SourcesListed(x) && path in source && EntryAccepted(i, x, b, s.sourceUid, source, path)
    ensures EntryAccepted(i, x, b, s.euid, SealedCopy.SealedOn(s, source, source.Keys), path)
  {
    hide IsEmptyDirectory, IsSealAncestor, MatchingGeneratedRoot, IsExecutable;
    SealedCopy.SealedBits();
    SealingKeepsEmptiness(s, source, path);
  }

  // ---------------------------------------------------------------- what acceptance means

  /** The record that counts for a path is the last one with it. */
  ghost predicate IsLastRecord(files: seq<ManifestFile>, k: int, path: string) {
    0 <= k < |files| && files[k].path == path && forall l :: k < l < |files| ==> files[l].path != path
  }

  ghost predicate IsLastEntry(entries: seq<InventoryEntry>, k: int, path: string) {
    0 <= k < |entries| && entries[k].path == path && forall l :: k < l < |entries| ==> entries[l].path != path
  }

  lemma {:induction false} ManifestHoldsLast(files: seq<ManifestFile>, path: string)
    ensures path in ManifestByPath(files) <==> exists k :: IsLastRecord(files, k, path)
    ensures forall k :: IsLastRecord(files, k, path) ==> ManifestByPath(files)[path] == files[k]
  {
    if files != [] {
      var n := |files| - 1;
      ManifestHoldsLast(files[..n], path);
      assert IsLastRecord(files, n, path) <==> files[n].path == path;
      forall k | 0 <= k < n
        ensures IsLastRecord(files, k, path) <==> IsLastRecord(files[..n], k, path) && files[n].path != path
      {
        assert forall l :: 0 <= l < n ==> files[..n][l] == files[l];
      }
    }
  }

  lemma {:induction false} InventoryHoldsLast(entries: seq<InventoryEntry>, path: string)
    ensures path in EntriesByPath(entries) <==> exists k :: IsLastEntry(entries, k, path)
    ensures forall k :: IsLastEntry(entries, k, path) ==> EntriesByPath(entries)[path] == entries[k]
  {
    if entries != [] {
      var n := |entries| - 1;
      InventoryHoldsLast(entries[..n], path);
      assert IsLastEntry(entries, n, path) <==> entries[n].path == path;
      forall k | 0 <= k < n
        ensures IsLastEntry(entries, k, path) <==> IsLastEntry(entries[..n], k, path) && entries[n].path != path
      {
        assert forall l :: 0 <= l < n ==> entries[..n][l] == entries[l];
      }
    }
  }

  /** A source has the content and the executable bit of its manifest record. */
  ghost predicate IsSourceAsRecorded(i: Inspector, files: seq<ManifestFile>, path: string, node: Node) {
    exists k :: IsLastRecord(files, k, path) && node.File?
      && i.sha256(node.content) == files[k].sha256 && IsExecutable(node.perm) == files[k].executable
  }

  /**
   A path of the inventory has the kind, and the size, bit, digest or target, of its entry; links are modules' only.
   */
  ghost predicate IsAsInventoried(i: Inspector, entries: seq<InventoryEntry>, path: string, node: Node) {
    exists k :: IsLastEntry(entries, k, path) &&
      match node
      case Directory(_, _, _) => entries[k].kind == "directory"
      case File(_, _, perm, content) =>
        && entries[k].kind == "file" && entries[k].size == |content| && entries[k].sha256 == i.sha256(content)
        && entries[k].executable == IsExecutable(perm)
      case Symlink(_, _, target) =>
        && entries[k].kind == "symlink" && entries[k].target == target && i.linkStaysInside(path)
        && (path == "node_modules" || "node_modules/" <= path)
      case Special(_, _) => false
  }

  /** A generated file outside the inventory: the candidate and the inventory document by their digests. */
  ghost predicate IsGeneratedFile(i: Inspector, inventory: Inventory, path: string, node: Node) {
    && node.File?
    && (path == "artifacts/bootstrap-candidate.json" ==> i.sha256(node.content) == inventory.candidateSha256)
    && (path == "artifacts/bootstrap-seal-inventory.json" ==> i.sha256(node.content) == inventory.documentSha256)
  }

  ghost predicate IsInventoried(entries: seq<InventoryEntry>, path: string) {
    exists e :: e in entries && e.path == path
  }

  ghost predicate IsListed(sources: seq<string>, entries: seq<InventoryEntry>, path: string) {
    path in sources || path in GENERATED_FILES || IsInventoried(entries, path)
  }

  ghost predicate IsKept(path: string) {
    path == "artifacts/pulumi-plans" || path == "artifacts/runtime-output"
  }

  /** Above something that is listed or kept. */
  ghost predicate IsAbove(sources: seq<string>, entries: seq<InventoryEntry>, path: string) {
    exists p :: (IsListed(sources, entries, p) || IsKept(p)) && path + "/" <= p
  }

  /** What the documents say of one path of the tree. */
  ghost predicate IsAsDocumented(i: Inspector, files: seq<ManifestFile>, sources: seq<string>, inventory: Inventory,
                                 path: string, node: Node) {
    if IsInventoried(inventory.entries, path) then IsAsInventoried(i, inventory.entries, path, node)
    else if path in sources then IsSourceAsRecorded(i, files, path, node)
    else if path in GENERATED_FILES then IsGeneratedFile(i, inventory, path, node)
    else node.Directory? && (IsKept(path) || IsAbove(sources, inventory.entries, path))
  }

  /**
   A tree as the documents say: nothing missing, nothing else, everything owned by the identity and within the budgets.
   */
  ghost predicate Conforms(i: Inspector, files: seq<ManifestFile>, sources: seq<string>, inventory: Inventory,
                           b: Budget, uid: int, mount: SealedCopy.Mount) {
    && mount.root.Directory? && mount.root.uid == uid
    && (forall p :: p in mount.entries ==>
          && i.isSafePath(p) && mount.entries[p].uid == uid
          && (mount.entries[p].File? ==> |mount.entries[p].content| <= b.maximumFileSize)
          && IsAsDocumented(i, files, sources, inventory, p, mount.entries[p]))
    && (forall p :: IsListed(sources, inventory.entries, p) ==> p in mount.entries)
    && (forall p :: IsKept(p) ==> p in mount.entries && mount.entries[p].Directory? && Children(mount.entries, p) == {})
    && |mount.entries| <= b.maximumEntries && TotalSize(mount.entries, mount.entries.Keys) <= b.maximumTreeSize
  }

  lemma ModulesRoot(path: string)
    ensures MatchingGeneratedRoot(path) == NODE_MODULES <==> path == "node_modules" || "node_modules/" <= path
  {
    var roots := GENERATED_ROOTS;
    assert |roots| == 4 && roots[1] == "dist-management-seed" && roots[2] == "dist-management-seed-policy";
    assert roots[3] == "node_modules"
           && roots[0] == "artifacts/" + "bootstrap-pulumi-home/plugins/resource-aws-v7.27.0";
    assert roots[0][0] == 'a' && roots[1][0] == 'd' && roots[2][0] == 'd' && roots[3][0] == 'n';
    RootsByPosition(path);
    var r := MatchingGeneratedRoot(path);
    assert "node_modules" + "/" == "node_modules/";
    if path == "node_modules" || "node_modules/" <= path {
      assert path[0] == 'n';
      assert roots[3] in roots && r != "";
      assert r in roots && (path == r || r + "/" <= path);
      var k :| 0 <= k < |roots| && roots[k] == r;
      assert r[0] == 'n';
      assert k == 3;
    }
  }

  lemma RootsByPosition(path: string)
    ensures var roots := GENERATED_ROOTS;
            forall r :: MatchingGeneratedRoot(path) == r && r != "" ==>
              r in roots && (path == r || r + "/" <= path)
    ensures forall r :: r in GENERATED_ROOTS && (path == r || r + "/" <= path) ==> MatchingGeneratedRoot(path) != ""
  {
    MatchingUpTo(path, |GENERATED_ROOTS|);
    assert GENERATED_ROOTS[..|GENERATED_ROOTS|] == GENERATED_ROOTS;
  }

  lemma {:induction false} MatchingUpTo(path: string, n: nat)
    requires n <= |GENERATED_ROOTS|
    ensures forall r :: MatchingGeneratedRoot(path, n) == r && r != "" ==>
              r in GENERATED_ROOTS[..n] && (path == r || r + "/" <= path)
    ensures forall r :: r in GENERATED_ROOTS[..n] && (path == r || r + "/" <= path) ==>
              MatchingGeneratedRoot(path, n) != ""
  {
    if n > 0 {
      MatchingUpTo(path, n - 1);
      assert GENERATED_ROOTS[..n] == GENERATED_ROOTS[..n - 1] + [GENERATED_ROOTS[n - 1]];
      RootsAreNames(n - 1);
    }
  }

  lemma RootsAreNames(k: nat)
    requires k < |GENERATED_ROOTS|
    ensures GENERATED_ROOTS[k] != ""
  {}

  lemma ListedPaths(sources: seq<string>, inventory: Inventory, files: seq<ManifestFile>, path: string)
    ensures var x := ExpectationOf(files, sources, inventory);
            && (path in x.exact <==> IsListed(sources, inventory.entries, path))
            && (path in x.exact ==> (x.exact[path].Source? <==> path in sources))
            && (path in x.inventory <==> IsInventoried(inventory.entries, path))
            && (path in Pruning.SEALED_EMPTY_DIRECTORIES <==> IsKept(path))
  {
    hide MatchingGeneratedRoot;
    InventoryHoldsLast(inventory.entries, path);
    LastEntryExists(inventory.entries, path);
    var kept := Pruning.SEALED_EMPTY_DIRECTORIES;
    assert |kept| == 2 && kept[0] == "artifacts/pulumi-plans" && kept[1] == "artifacts/runtime-output";
  }

  lemma {:induction false} LastEntryExists(entries: seq<InventoryEntry>, path: string)
    ensures IsInventoried(entries, path) <==> exists k :: IsLastEntry(entries, k, path)
  {
    if k :| IsLastEntry(entries, k, path) {
      assert entries[k] in entries;
    }
    if entries != [] {
      var n := |entries| - 1;
      LastEntryExists(entries[..n], path);
      assert entries == entries[..n] + [entries[n]];
      if entries[n].path == path {
        assert IsLastEntry(entries, n, path);
      } else if k :| IsLastEntry(entries[..n], k, path) {
        assert forall l :: 0 <= l < n ==> entries[..n][l] == entries[l];
        assert IsLastEntry(entries, k, path);
      }
    }
  }

  lemma InventoriedMeans(i: Inspector, files: seq<ManifestFile>, sources: seq<string>, inventory: Inventory,
                         path: string, node: Node)
    requires IsInventoried(inventory.entries, path)
    ensures path in ExpectationOf(files, sources, inventory).inventory
    ensures MatchesEntry(i, ExpectationOf(files, sources, inventory).inventory[path], path, node) <==>
              IsAsInventoried(i, inventory.entries, path, node)
  {
    hide MatchingGeneratedRoot, IsExecutable;
    InventoryHoldsLast(inventory.entries, path);
    LastEntryExists(inventory.entries, path);
    ModulesRoot(path);
  }

  lemma OriginMeans(i: Inspector, files: seq<ManifestFile>, sources: seq<string>, inventory: Inventory, path: string,
                    node: Node)
    requires IsConsistent(files, sources, inventory.entries)
    requires (path in sources || path in GENERATED_FILES) && !IsInventoried(inventory.entries, path)
    ensures var x := ExpectationOf(files, sources, inventory);
            && path in x.exact && (x.exact[path].Source? ==> path in x.manifest)
            && (MatchesOrigin(i, x, path, node) <==>
                  if path in sources then IsSourceAsRecorded(i, files, path, node)
                      else IsGeneratedFile(i, inventory, path, node))
  {
    hide MatchingGeneratedRoot, IsExecutable;
    ManifestHoldsLast(files, path);
  }

  lemma AboveMeans(files: seq<ManifestFile>, sources: seq<string>, inventory: Inventory, path: string)
    ensures IsSealAncestor(ExpectationOf(files, sources, inventory), path) <==>
              IsAbove(sources, inventory.entries, path)
  {
    hide IsListed, IsKept, ExpectationOf;
    var x := ExpectationOf(files, sources, inventory);
    forall p
      ensures p in x.exact <==> IsListed(sources, inventory.entries, p)
      ensures p in Pruning.SEALED_EMPTY_DIRECTORIES <==> IsKept(p)
    {
      ListedPaths(sources, inventory, files, p);
    }
  }

  lemma ConsistentSources(files: seq<ManifestFile>, sources: seq<string>, inventory: Inventory)
    requires IsConsistent(files, sources, inventory.entries)
    ensures SourcesListed(ExpectationOf(files, sources, inventory))
    ensures forall s :: s in sources ==> !IsInventoried(inventory.entries, s) && s !in GENERATED_FILES
  {}

  /** What the walk requires of one entry, when the kept directories are empty. */
  lemma EntryMeans(i: Inspector, files: seq<ManifestFile>, sources: seq<string>, inventory: Inventory, b: Budget,
                   uid: int, tree: Tree, path: string)
    requires IsConsistent(files, sources, inventory.entries) && path in tree
    requires forall p :: IsKept(p) ==> IsEmptyDirectory(tree, p)
    ensures SourcesListed(ExpectationOf(files, sources, inventory))
    ensures EntryAccepted(i, ExpectationOf(files, sources, inventory), b, uid, tree, path) <==>
              && i.isSafePath(path) && tree[path].uid == uid
              && (tree[path].File? ==> |tree[path].content| <= b.maximumFileSize)
              && IsAsDocumented(i, files, sources, inventory, path, tree[path])
  {
    hide IsInventoried, IsKept, IsAbove, IsSealAncestor, MatchesEntry, MatchesOrigin, IsAsInventoried,
         IsSourceAsRecorded, IsGeneratedFile, ExpectationOf, IsConsistent, IsEmptyDirectory;
    var node := tree[path];
    ConsistentSources(files, sources, inventory);
    ListedPaths(sources, inventory, files, path);
    AboveMeans(files, sources, inventory, path);
    if IsInventoried(inventory.entries, path) {
      InventoriedMeans(i, files, sources, inventory, path, node);
      InventoriedKind(i, inventory.entries, path, node);
    } else if path in sources || path in GENERATED_FILES {
      OriginMeans(i, files, sources, inventory, path, node);
      DocumentedKind(i, files, inventory, path, node);
      var x := ExpectationOf(files, sources, inventory);
      assert IsAsDocumented(i, files, sources, inventory, path, node) <==> MatchesOrigin(i, x, path, node);
      ListedEntry(i, x, b, uid, tree, path);
    } else {
      EmptyIsDirectory(tree, path);
    }
  }

  lemma EmptyIsDirectory(tree: Tree, path: string)
    ensures IsEmptyDirectory(tree, path) ==> path in tree && tree[path].Directory?
  {}

  lemma ListedEntry(i: Inspector, x: Expectation, b: Budget, uid: int, tree: Tree, path: string)
    requires path in tree && SourcesListed(x) && path in x.exact && path !in x.inventory
    requires path in Pruning.SEALED_EMPTY_DIRECTORIES ==> IsEmptyDirectory(tree, path)
    requires MatchesOrigin(i, x, path, tree[path]) ==> tree[path].File?
    ensures EntryAccepted(i, x, b, uid, tree, path) <==>
              && i.isSafePath(path) && tree[path].uid == uid
              && (tree[path].File? ==> |tree[path].content| <= b.maximumFileSize)
              && MatchesOrigin(i, x, path, tree[path])
  {
    hide MatchesOrigin, IsEmptyDirectory, IsSealAncestor, MatchesEntry;
  }

  lemma InventoriedKind(i: Inspector, entries: seq<InventoryEntry>, path: string, node: Node)
    ensures IsAsInventoried(i, entries, path, node) ==> !node.Special?
  {}

  lemma DocumentedKind(i: Inspector, files: seq<ManifestFile>, inventory: Inventory, path: string, node: Node)
    ensures IsSourceAsRecorded(i, files, path, node) || IsGeneratedFile(i, inventory, path, node) ==> node.File?
  {}

  /** The acceptor accepts exactly the trees that conform to the documents. */
  lemma AcceptanceMeans(i: Inspector, files: seq<ManifestFile>, sources: seq<string>, inventory: Inventory, b: Budget,
                        uid: int, mount: SealedCopy.Mount)
    requires IsConsistent(files, sources, inventory.entries)
    ensures SourcesListed(ExpectationOf(files, sources, inventory))
    ensures IsAccepted(i, ExpectationOf(files, sources, inventory), b, uid, mount) <==>
              Conforms(i, files, sources, inventory, b, uid, mount)
  {
    hide EntryAccepted, IsAsDocumented, IsConsistent, ExpectationOf, IsListed, Children, TotalSize, IsKept;
    var x := ExpectationOf(files, sources, inventory);
    ConsistentSources(files, sources, inventory);
    forall p
      ensures p in x.exact <==> IsListed(sources, inventory.entries, p)
      ensures p in Pruning.SEALED_EMPTY_DIRECTORIES <==> IsKept(p)
    {
      ListedPaths(sources, inventory, files, p);
    }
    if forall p :: IsKept(p) ==> IsEmptyDirectory(mount.entries, p) {
      forall p | p in mount.entries
        ensures EntryAccepted(i, x, b, uid, mount.entries, p) <==>
                  && i.isSafePath(p) && mount.entries[p].uid == uid
                  && (mount.entries[p].File? ==> |mount.entries[p].content| <= b.maximumFileSize)
                  && IsAsDocumented(i, files, sources, inventory, p, mount.entries[p])
      {
        EntryMeans(i, files, sources, inventory, b, uid, mount.entries, p);
      }
    }
  }

  /** Which documents are consistent, in terms of their records. */
  lemma ConsistencyMeans(files: seq<ManifestFile>, sources: seq<string>, entries: seq<InventoryEntry>)
    ensures IsConsistent(files, sources, entries) <==>
              && (forall s :: s in sources ==> (exists f :: f in files && f.path == s) && s !in GENERATED_FILES)
              && (forall e :: e in entries ==> e.path !in sources)
              && (forall j, k :: 0 <= j < k < |entries| && entries[j].path == entries[k].path ==>
                    entries[k].path in GENERATED_FILES)
  {
    forall s
      ensures s in ManifestByPath(files) <==> exists f :: f in files && f.path == s
    {
      RecordExists(files, s);
    }
  }

  lemma {:induction false} RecordExists(files: seq<ManifestFile>, path: string)
    ensures path in ManifestByPath(files) <==> exists f :: f in files && f.path == path
  {
    if files != [] {
      var n := |files| - 1;
      RecordExists(files[..n], path);
      assert files == files[..n] + [files[n]];
    }
  }

  // ---------------------------------------------------------------- an instance

  function ExampleInspector(): Inspector {
    Inspector(content => content, path => true, path => true)
  }

  function ExampleGenerated(): seq<string> {
    ["Pulumi.management.yaml", "artifacts/bootstrap-candidate.json", "artifacts/bootstrap-seal-inventory.json",
     "artifacts/contract-schema-validation.json", "artifacts/deus-aws-bootstrap", "artifacts/local-gate-evidence.json",
     "artifacts/management-seed-access-bundle.json", "artifacts/management-seed-access.template.json",
     "artifacts/secure-saas-infra.spdx.json", "artifacts/security-contract-evidence.json", "onboarding.local.json"]
  }

  function ExampleDirectories(): seq<string> {
    ["artifacts", "artifacts/pulumi-plans", "artifacts/runtime-output", "node_modules"]
  }

  function ExampleInventory(): Inventory {
    Inventory(2, 0, 0,
              [InventoryEntry("node_modules", "directory", 0, false, "", ""),
               InventoryEntry("node_modules/m", "symlink", 0, false, "", "../a")],
              "document", "candidate")
  }

  function ExampleManifest(): seq<ManifestFile> {
    [ManifestFile("a", false, "old"), ManifestFile("a", true, "source")]
  }

  function ExampleNode(path: string): Node {
    if path in ExampleDirectories() then Directory(0, 0, 0x16d)
    else if path == "node_modules/m" then Symlink(0, 0, "../a")
    else if path == "a" then File(0, 0, 0x16d, "source")
    else if path == "artifacts/bootstrap-candidate.json" then File(0, 0, 0x124, "candidate")
    else if path == "artifacts/bootstrap-seal-inventory.json" then File(0, 0, 0x124, "document")
    else File(0, 0, 0x124, "generated")
  }

  ghost function ExampleTree(): Tree {
    map p | p in ExampleGenerated() + ExampleDirectories() + ["node_modules/m", "a"] :: ExampleNode(p)
  }

  ghost function ExampleMount(): SealedCopy.Mount {
    SealedCopy.Mount(Directory(0, 0, 0x16d), ExampleTree())
  }

  ghost function ExampleBudget(): Budget {
    Budget(|ExampleTree()| + 1, 16, TotalSize(ExampleTree(), ExampleTree().Keys) + 1)
  }

  predicate EndsIn(path: string, letters: string) {
    path != "" && path[|path| - 1] in letters
  }

  /** The last letters tell the generated files from the directories, the link and the source. */
  lemma ExampleEndings(p: string)
    ensures p in ExampleGenerated() ==> EndsIn(p, "lnp")
    ensures p in ExampleDirectories() + ["node_modules/m", "a"] ==> !EndsIn(p, "lnp")
    ensures p in ExampleGenerated() <==> p in GENERATED_FILES
  {
    var generated, directories := ExampleGenerated(), ExampleDirectories();
    forall k | 0 <= k < |generated|
      ensures EndsIn(generated[k], "lnp") && generated[k] == GENERATED_FILES[k]
    {
      if k < 4 {
        assert k == 0 || k == 1 || k == 2 || k == 3;
      } else if k < 8 {
        assert k == 4 || k == 5 || k == 6 || k == 7;
      } else {
        assert k == 8 || k == 9 || k == 10;
      }
    }
    forall k | 0 <= k < |directories|
      ensures !EndsIn(directories[k], "lnp")
    {
      assert k == 0 || k == 1 || k == 2 || k == 3;
    }
    assert |GENERATED_FILES| == |generated|;
  }

  lemma ExampleNodes(p: string)
    ensures p in ExampleDirectories() ==> ExampleNode(p).Directory?
    ensures ExampleNode("node_modules/m") == Symlink(0, 0, "../a") && ExampleNode("a") == File(0, 0, 0x16d, "source")
    ensures p in ExampleGenerated() ==>
              ExampleNode(p).File? && IsGeneratedFile(ExampleInspector(), ExampleInventory(), p, ExampleNode(p))
    ensures ExampleNode(p).uid == 0 && (ExampleNode(p).File? ==> |ExampleNode(p).content| <= 16)
  {
    hide ExampleGenerated, ExampleDirectories;
    ExampleEndings(p);
    ExampleEndings("node_modules/m");
    ExampleEndings("a");
    assert "node_modules/m" in ExampleDirectories() + ["node_modules/m", "a"];
    OtherPlaces();
    var candidate, document := "artifacts/bootstrap-candidate.json", "artifacts/bootstrap-seal-inventory.json";
    assert candidate[|candidate| - 6] == 'e' && document[|document| - 6] == 'y';
    assert |candidate| > 1 && |document| > 1;
  }

  lemma OtherPlaces()
    ensures "node_modules/m" !in ExampleDirectories() && "a" !in ExampleDirectories()
  {}

  lemma NothingBelowKept(p: string, kept: string)
    requires p in ExampleGenerated() + ExampleDirectories() + ["node_modules/m", "a"] && IsKept(kept)
    ensures !IsChild(kept, p)
  {
    var generated, directories := ExampleGenerated(), ExampleDirectories();
    assert kept[10] == 'p' || kept[10] == 'r';
    if IsChild(kept, p) {
      assert |kept| < |p| && p[10] == kept[10];
    }
    if p in generated {
      var k :| 0 <= k < |generated| && generated[k] == p;
      TenthLetter(k);
    } else if p in directories {
      var k :| 0 <= k < |directories| && directories[k] == p;
      assert k == 0 || k == 1 || k == 2 || k == 3;
    }
  }

  lemma TenthLetter(k: nat)
    requires k < |ExampleGenerated()|
    ensures |ExampleGenerated()[k]| > 10 && ExampleGenerated()[k][10] != 'p' && ExampleGenerated()[k][10] != 'r'
  {
    var generated := ExampleGenerated();
    if k < 4 {
      assert k == 0 || k == 1 || k == 2 || k == 3;
    } else if k < 8 {
      assert k == 4 || k == 5 || k == 6 || k == 7;
    } else {
      assert k == 8 || k == 9 || k == 10;
    }
  }

  lemma ExampleDocuments()
    ensures IsConsistent(ExampleManifest(), ["a"], ExampleInventory().entries)
    ensures forall p :: IsInventoried(ExampleInventory().entries, p) <==> p == "node_modules" || p == "node_modules/m"
    ensures IsLastRecord(ExampleManifest(), 1, "a")
    ensures IsLastEntry(ExampleInventory().entries, 0, "node_modules")
            && IsLastEntry(ExampleInventory().entries, 1, "node_modules/m")
  {
    hide ExampleGenerated, ExampleDirectories;
    ExampleEndings("a");
    var entries := ExampleInventory().entries;
    assert entries[0] in entries && entries[1] in entries;
    assert "a" in ExampleDirectories() + ["node_modules/m", "a"];
    ConsistencyMeans(ExampleManifest(), ["a"], entries);
    assert ExampleManifest()[1] in ExampleManifest();
  }

  /** What the documents say of each path of the example. */
  lemma ExampleIsDocumented(p: string)
    requires p in ExampleTree()
    ensures IsAsDocumented(ExampleInspector(), ExampleManifest(), ["a"], ExampleInventory(), p, ExampleNode(p))
  {
    hide ExampleGenerated, ExampleNode, IsExecutable, IsGeneratedFile, IsInventoried, IsLastRecord, IsLastEntry,
         IsListed, IsAbove;
    ExampleDocuments();
    ExampleNodes(p);
    ExampleEndings(p);
    if p == "node_modules/m" || p == "node_modules" {
      InventoriedExample(p);
    } else if p == "a" {
      SourceExample();
    } else if p in GENERATED_FILES {
    } else {
      assert p in ExampleDirectories();
      var k :| 0 <= k < 4 && ExampleDirectories()[k] == p;
      assert k == 0 || k == 1 || k == 2 || k == 3;
      ArtifactsAreAbove();
    }
  }

  lemma InventoriedExample(p: string)
    requires p == "node_modules/m" || p == "node_modules"
    ensures IsAsInventoried(ExampleInspector(), ExampleInventory().entries, p, ExampleNode(p))
  {
    hide ExampleNode;
    ExampleDocuments();
    ExampleNodes(p);
    assert ExampleDirectories()[3] in ExampleDirectories();
    assert "node_modules/m" == "node_modules/" + "m";
  }

  lemma SourceExample()
    ensures IsSourceAsRecorded(ExampleInspector(), ExampleManifest(), "a", ExampleNode("a"))
  {
    hide ExampleNode;
    ExampleDocuments();
    ExampleNodes("a");
    assert 0x16d as bv9 & 0x49 == 0x49;
  }

  lemma ArtifactsAreAbove()
    ensures IsAbove(["a"], ExampleInventory().entries, "artifacts")
  {
    hide IsListed;
    var kept := "artifacts/pulumi-plans";
    assert IsKept(kept) && "artifacts" + "/" <= kept;
  }

  /** A tree that the acceptor accepts. */
  lemma ExampleConforms()
    ensures Conforms(ExampleInspector(), ExampleManifest(), ["a"], ExampleInventory(), ExampleBudget(), 0,
                     ExampleMount())
  {
    hide IsAsDocumented, ExampleGenerated, ExampleDirectories, ExampleNode, TotalSize, IsInventoried, IsChild;
    ExampleDocuments();
    forall p | p in ExampleTree()
      ensures IsAsDocumented(ExampleInspector(), ExampleManifest(), ["a"], ExampleInventory(), p, ExampleNode(p))
      ensures ExampleNode(p).uid == 0 && (ExampleNode(p).File? ==> |ExampleNode(p).content| <= 16)
    {
      ExampleIsDocumented(p);
      ExampleNodes(p);
    }
    KeptInExample();
    forall p | IsListed(["a"], ExampleInventory().entries, p)
      ensures p in ExampleTree()
    {
      ExampleEndings(p);
      ModulesInExample();
    }
    forall kept | IsKept(kept)
      ensures Children(ExampleTree(), kept) == {}
    {
      forall p | p in ExampleTree()
        ensures !IsChild(kept, p)
      {
        NothingBelowKept(p, kept);
      }
    }
  }

  lemma ModulesInExample()
    ensures "node_modules" in ExampleTree() && "node_modules/m" in ExampleTree()
  {
    assert ExampleDirectories()[3] in ExampleDirectories();
  }

  lemma KeptInExample()
    ensures forall kept :: IsKept(kept) ==> kept in ExampleTree() && ExampleNode(kept).Directory?
  {
    hide ExampleNode;
    assert ExampleDirectories()[1] in ExampleDirectories() && ExampleDirectories()[2] in ExampleDirectories();
    ExampleNodes("artifacts/pulumi-plans");
    ExampleNodes("artifacts/runtime-output");
  }

  /** The documents and the tree of the example are accepted. */
  lemma ExampleIsAccepted()
    ensures IsConsistent(ExampleManifest(), ["a"], ExampleInventory().entries)
    ensures var x := ExpectationOf(ExampleManifest(), ["a"], ExampleInventory());
            SourcesListed(x) && IsAccepted(ExampleInspector(), x, ExampleBudget(), 0, ExampleMount())
    ensures ExampleBudget().maximumEntries > 0 && ExampleBudget().maximumFileSize > 0
            && ExampleBudget().maximumTreeSize > 0
  {
    hide Conforms, IsConsistent, IsAccepted, ExampleTree, TotalSize, ExpectationOf;
    ExampleDocuments();
    ExampleConforms();
    AcceptanceMeans(ExampleInspector(), ExampleManifest(), ["a"], ExampleInventory(), ExampleBudget(), 0,
                    ExampleMount());
  }
}
