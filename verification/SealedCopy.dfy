/**
 The sealed copy of a snapshot (cmd/deus-aws-bootstrap/main.go, copySealedTree) and the captured inventory it is
 validated against (cmd/deus-aws-bootstrap/signer_tree_linux.go).
 */
module SealedCopy {
  import opened Wrappers
  import opened FileTree
  import Text

  const MAX_ENTRIES := 300000
  const MAX_FILE_SIZE := 2 * 1024 * 1024 * 1024
  const MAX_TREE_SIZE := 8 * 1024 * 1024 * 1024

  const REVIEW_BUNDLE := "artifacts/bootstrap-signing-review-bundle.json"

  /** Permissions 0o700, 0o550, 0o440 and 0o400. */
  const PRIVATE_DIRECTORY: bv9 := 0x1c0
  const SEALED_EXECUTABLE: bv9 := 0x168
  const SEALED_FILE: bv9 := 0x120
  const PRIVATE_FILE: bv9 := 0x100

  /** Who copies, whose files are copied, and which links stay inside the root and resolve. */
  datatype Settings = Settings(sourceUid: int, euid: int, sealedGid: int, linkIsSafe: (string, string) -> bool)

  // ---------------------------------------------------------------- what a copy is

  /** An entry the copy accepts: owned by the source identity, of a supported type, within the limits. */
  predicate IsCopyable(s: Settings, path: string, node: Node) {
    && path != REVIEW_BUNDLE
    && node.uid == s.sourceUid
    && match node
       case File(_, _, _, content) => |content| <= MAX_FILE_SIZE
       case Symlink(_, _, target) => s.linkIsSafe(path, target)
       case Directory(_, _, _) => true
       case Special(_, _) => false
  }

  /** The sealed form of an entry: owner and group of the seal, no write permission, the same content. */
  function Sealed(s: Settings, node: Node): Node {
    match node
    case Directory(_, _, _) => Directory(s.euid, s.sealedGid, SEALED_EXECUTABLE)
    case File(_, _, perm, content) =>
      File(s.euid, s.sealedGid, if IsExecutable(perm) then SEALED_EXECUTABLE else SEALED_FILE, content)
    case Symlink(_, _, target) => Symlink(s.euid, s.sealedGid, target)
    case Special(_, _) => node
  }

  ghost function SealedOn(s: Settings, source: Tree, paths: set<string>): Tree
    requires paths <= source.Keys
  {
    map p | p in paths :: Sealed(s, source[p])
  }

  ghost predicate AllCopyable(s: Settings, source: Tree, paths: set<string>)
    requires paths <= source.Keys
  {
    forall p :: p in paths ==> IsCopyable(s, p, source[p])
  }

  /** What of a directory is copied when some of its entries are left. */
  ghost function Done(source: Tree, directory: string, left: set<string>): (paths: set<string>)
    ensures paths <= source.Keys
  {
    set p | p in Below(source, directory) && forall c :: c in left ==> p !in Subtree(source, c)
  }

  /** Copying one more entry adds exactly its subtree. */
  lemma DoneGrows(source: Tree, directory: string, left: set<string>, c: string)
    requires IsTree(source) && left <= Children(source, directory) && c in left
    ensures Done(source, directory, left - {c}) == Done(source, directory, left) + Subtree(source, c)
    ensures Done(source, directory, left) !! Subtree(source, c)
    ensures Done(source, directory, left - {c}) <= Below(source, directory)
    ensures c != ""
  {
    forall p | p in source
      ensures p in Done(source, directory, left - {c}) <==>
                p in Done(source, directory, left) || p in Subtree(source, c)
    {
      if p in Subtree(source, c) {
        BelowIsSubtrees(source, directory, p);
        forall other | other in left - {c}
          ensures p !in Subtree(source, other)
        {
          SiblingsAreApart(directory, c, other, p);
        }
      }
    }
  }

  lemma DoneAtFirst(source: Tree, directory: string)
    requires IsTree(source)
    ensures Done(source, directory, Children(source, directory)) == {}
    ensures Done(source, directory, {}) == Below(source, directory)
  {
    forall p | p in Below(source, directory)
      ensures p !in Done(source, directory, Children(source, directory))
    {
      BelowIsSubtrees(source, directory, p);
    }
  }

  lemma SizeOfOne(source: Tree, c: string)
    requires c in source
    ensures TotalSize(source, {c}) == SizeOf(source[c])
  {
    TotalSizePick(source, {c}, c);
    assert {c} - {c} == {};
  }

  /** All of the entries are acceptable, and there is room for them in the budgets. */
  ghost predicate Fits(s: Settings, source: Tree, paths: set<string>, entriesBefore: nat, bytesBefore: nat)
    requires paths <= source.Keys
  {
    && AllCopyable(s, source, paths)
    && entriesBefore + |paths| <= MAX_ENTRIES
    && bytesBefore + TotalSize(source, paths) <= MAX_TREE_SIZE
  }

  lemma FitsPartwise(s: Settings, source: Tree, a: set<string>, b: set<string>, all: set<string>, entriesBefore: nat,
                     bytesBefore: nat)
    requires a + b <= all <= source.Keys && a !! b
    ensures Fits(s, source, all, entriesBefore, bytesBefore) ==>
              Fits(s, source, b, entriesBefore + |a|, bytesBefore + TotalSize(source, a))
    ensures AllCopyable(s, source, a) && AllCopyable(s, source, b) ==> AllCopyable(s, source, a + b)
  {
    hide TotalSize;
    TotalSizeUnion(source, a, b);
    TotalSizeMonotone(source, a + b, all);
  }

  lemma SealedPartwise(s: Settings, source: Tree, a: set<string>, b: set<string>, before: Tree)
    requires a + b <= source.Keys
    ensures before + SealedOn(s, source, a) + SealedOn(s, source, b) == before + SealedOn(s, source, a + b)
  {}

  // ---------------------------------------------------------------- the copy as written

  class Copier {
    const settings: Settings
    var destination: Tree
    var copiedEntries: nat
    var copiedBytes: nat

    constructor (settings: Settings)
      ensures this.settings == settings && destination == map[] && copiedEntries == 0 && copiedBytes == 0
    {
      this.settings := settings;
      destination, copiedEntries, copiedBytes := map[], 0, 0;
    }

    /** What is copied so far of one directory, and what the counters say of it. */
    ghost predicate Copied(source: Tree, paths: set<string>, before: Tree, entriesBefore: nat, bytesBefore: nat)
      requires paths <= source.Keys
      reads this
    {
      && destination == before + SealedOn(settings, source, paths)
      && copiedEntries == entriesBefore + |paths| <= MAX_ENTRIES
      && copiedBytes == bytesBefore + TotalSize(source, paths) <= MAX_TREE_SIZE
      && AllCopyable(settings, source, paths)
    }

    /**
     Copies everything below a directory. Succeeds exactly when every entry there is acceptable and the entry and
     byte budgets of the whole copy are not exceeded.
     */
    method CopyDirectory(source: Tree, directory: string) returns (ok: bool)
      requires IsTree(source) && copiedEntries <= MAX_ENTRIES && copiedBytes <= MAX_TREE_SIZE
      modifies this`destination, this`copiedEntries, this`copiedBytes
      ensures ok <==> Fits(settings, source, Below(source, directory), old(copiedEntries), old(copiedBytes))
      ensures ok ==> Copied(source, Below(source, directory), old(destination), old(copiedEntries), old(copiedBytes))
      decreases Below(source, directory), 1
    {
      hide TotalSize, Done, Subtree, Below, Sealed, Under, AllCopyable, SealedOn, IsTree, IsCopyable;
      ghost var before, entriesBefore, bytesBefore := destination, copiedEntries, copiedBytes;
      var left := Children(source, directory);
      DoneAtFirst(source, directory);
      NothingCopied(settings, source, before);
      while left != {}
        invariant left <= Children(source, directory)
        invariant Copied(source, Done(source, directory, left), before, entriesBefore, bytesBefore)
        decreases left
      {
        var path :| path in left;
        ghost var done := Done(source, directory, left);
        ghost var soFar, entriesSoFar, bytesSoFar := destination, copiedEntries, copiedBytes;
        DoneGrows(source, directory, left, path);
        TotalSizeUnion(source, done, Subtree(source, path));
        FitsPartwise(settings, source, done, Subtree(source, path), Below(source, directory), entriesBefore,
                     bytesBefore);
        ok := CopyEntry(source, path);
        if !ok {
          return;
        }
        SealedPartwise(settings, source, done, Subtree(source, path), before);
        left := left - {path};
      }
      ok := true;
    }

    /** The body of the loop over the entries of a directory: one entry, and all below it. */
    method CopyEntry(source: Tree, path: string) returns (ok: bool)
      requires IsTree(source) && path in source && path != ""
      requires copiedEntries <= MAX_ENTRIES && copiedBytes <= MAX_TREE_SIZE
      modifies this`destination, this`copiedEntries, this`copiedBytes
      ensures ok <==> Fits(settings, source, Subtree(source, path), old(copiedEntries), old(copiedBytes))
      ensures ok ==> Copied(source, Subtree(source, path), old(destination), old(copiedEntries), old(copiedBytes))
      decreases Subtree(source, path), 0
    {
      hide TotalSize, Subtree, Below, Under, AllCopyable, SealedOn;
      ghost var before := destination;
      EntryAndBelow(settings, source, path);
      SealedEntry(settings, source, path, before);
      copiedEntries := copiedEntries + 1;
      if copiedEntries > MAX_ENTRIES {
        return false;
      }
      if path == REVIEW_BUNDLE {
        return false;
      }
      var node := source[path];
      if node.uid != settings.sourceUid {
        return false;
      }
      match node {
        case Symlink(_, _, target) =>
          if !settings.linkIsSafe(path, target) {
            return false;
          }
          destination := destination[path := Symlink(settings.euid, settings.sealedGid, target)];
          ok := true;
        case Directory(_, _, _) =>
          destination := destination[path := Directory(settings.euid, settings.sealedGid, PRIVATE_DIRECTORY)];
          ok := CopyDirectory(source, path);
          if !ok {
            return;
          }
          destination := destination[path := Directory(settings.euid, settings.sealedGid, SEALED_EXECUTABLE)];
        case File(_, _, _, content) =>
          if |content| > MAX_FILE_SIZE {
            return false;
          }
          ok := CopyFile(path, node);
        case Special(_, _) =>
          ok := false;
      }
    }

    /** Copies one regular file: created private and exclusive, then given its sealed mode. */
    method CopyFile(path: string, node: Node) returns (ok: bool)
      requires node.File? && node.uid == settings.sourceUid && |node.content| <= MAX_FILE_SIZE
      requires copiedBytes <= MAX_TREE_SIZE
      modifies this`destination, this`copiedBytes
      ensures ok <==> old(copiedBytes) + SizeOf(node) <= MAX_TREE_SIZE
      ensures ok ==> copiedBytes == old(copiedBytes) + SizeOf(node)
      ensures ok ==> destination == old(destination)[path := Sealed(settings, node)]
    {
      if copiedBytes > MAX_TREE_SIZE - |node.content| {
        return false;
      }
      copiedBytes := copiedBytes + |node.content|;
      destination := destination[path := File(settings.euid, settings.sealedGid, PRIVATE_FILE, node.content)];
      var mode := if IsExecutable(node.perm) then SEALED_EXECUTABLE else SEALED_FILE;
      destination := destination[path := File(settings.euid, settings.sealedGid, mode, node.content)];
      ok := true;
    }
  }

  lemma NothingCopied(s: Settings, source: Tree, before: Tree)
    ensures TotalSize(source, {}) == 0 && AllCopyable(s, source, {}) && before + SealedOn(s, source, {}) == before
  {}

  /** What an entry and what is below it count for together. */
  lemma EntryAndBelow(s: Settings, source: Tree, path: string)
    requires IsTree(source) && path in source && path != ""
    ensures Below(source, path) < Subtree(source, path)
    ensures |Subtree(source, path)| == 1 + |Below(source, path)|
    ensures TotalSize(source, Subtree(source, path)) == SizeOf(source[path]) + TotalSize(source, Below(source, path))
    ensures AllCopyable(s, source, Subtree(source, path)) <==>
            IsCopyable(s, path, source[path]) && AllCopyable(s, source, Below(source, path))
  {
    hide TotalSize, Sealed, IsCopyable, Subtree, Below;
    SubtreeIsTopAndBelow(source, path);
    TotalSizeUnion(source, {path}, Below(source, path));
    SizeOfOne(source, path);
  }

  /** Copying an entry and then what is below it copies the subtree. */
  lemma SealedEntry(s: Settings, source: Tree, path: string, before: Tree)
    requires IsTree(source) && path in source && path != ""
    ensures var made := before[path := Directory(s.euid, s.sealedGid, PRIVATE_DIRECTORY)];
            (made + SealedOn(s, source, Below(source, path)))[path := Sealed(s, source[path])] ==
            before + SealedOn(s, source, Subtree(source, path))
    ensures !source[path].Directory? ==>
              && Below(source, path) == {} && TotalSize(source, {}) == 0 && AllCopyable(s, source, {})
              && before[path := Sealed(s, source[path])] == before + SealedOn(s, source, Subtree(source, path))
  {
    hide TotalSize, Sealed, IsCopyable, Subtree, Below, Under, IsTree;
    SubtreeIsTopAndBelow(source, path);
    NothingCopied(s, source, before);
    if !source[path].Directory? {
      LeavesAreEmpty(source, path);
    }
  }

  // ---------------------------------------------------------------- snapshots

  datatype EntryType = DirectoryEntry | FileEntry | SymlinkEntry

  datatype SnapshotEntry = SnapshotEntry(
    path: string, kind: EntryType, size: nat, executable: bool, sha256: string, target: string)

  /** The digest function and the relative paths a snapshot may hold. */
  datatype Inspector = Inspector(sha256: string -> string, isSafePath: string -> bool)

  function PathOf(e: SnapshotEntry): string {
    e.path
  }

  function Describe(i: Inspector, path: string, node: Node): SnapshotEntry {
    match node
    case Symlink(_, _, target) => SnapshotEntry(path, SymlinkEntry, 0, false, "", target)
    case File(_, _, perm, content) =>
      SnapshotEntry(path, FileEntry, |content|, IsExecutable(perm), i.sha256(content), "")
    case _ => SnapshotEntry(path, DirectoryEntry, 0, false, "", "")
  }

  /** A directory with its own node and everything below it. */
  datatype Mount = Mount(root: Node, entries: Tree)

  predicate OwnedBy(node: Node, uid: int, gid: int) {
    node.uid == uid && node.gid == gid
  }

  ghost predicate EntriesCapturable(i: Inspector, tree: Tree, paths: set<string>, uid: int, gid: int)
    requires paths <= tree.Keys
  {
    forall p :: p in paths ==> EntryCapturable(i, p, tree[p], uid, gid)
  }

  predicate EntryCapturable(i: Inspector, path: string, node: Node, uid: int, gid: int) {
    && OwnedBy(node, uid, gid) && i.isSafePath(path) && !node.Special?
    && (node.File? ==> |node.content| <= MAX_FILE_SIZE)
  }

  /** The tree can be inventoried for an owner: the conditions the walk checks. */
  ghost predicate IsCapturable(i: Inspector, mount: Mount, uid: int, gid: int) {
    && mount.root.Directory? && OwnedBy(mount.root, uid, gid)
    && EntriesCapturable(i, mount.entries, mount.entries.Keys, uid, gid)
    && |mount.entries| <= MAX_ENTRIES && TotalSize(mount.entries, mount.entries.Keys) <= MAX_TREE_SIZE
  }

  /** Exactly one entry per path, strictly sorted by path. */
  ghost predicate IsSnapshot(i: Inspector, tree: Tree, snapshot: seq<SnapshotEntry>) {
    && Text.StrictlySortedBy(snapshot, PathOf)
    && (forall k :: 0 <= k < |snapshot| ==>
          snapshot[k].path in tree && snapshot[k] == Describe(i, snapshot[k].path, tree[snapshot[k].path]))
    && forall p :: p in tree ==> exists k :: 0 <= k < |snapshot| && snapshot[k].path == p
  }

  /** The walk of captureSignerReviewSnapshot, in whatever order it visits the entries, then the sort. */
  method CaptureSnapshot(i: Inspector, mount: Mount, uid: int, gid: int) returns (result: Option<seq<SnapshotEntry>>)
    ensures result.Some? <==> IsCapturable(i, mount, uid, gid)
    ensures result.Some? ==> IsSnapshot(i, mount.entries, result.value)
  {
    hide TotalSize, Listed, Describe, IsSnapshot, EntriesCapturable, Text.Sort, Text.StrictlySortedBy, OwnedBy;
    if !OwnedBy(mount.root, uid, gid) || !mount.root.Directory? {
      return None;
    }
    var tree := mount.entries;
    var left, entries: seq<SnapshotEntry>, total := tree.Keys, [], 0;
    ghost var done: set<string> := {};
    NothingListed(i, tree);
    while left != {}
      invariant left !! done && left + done == tree.Keys
      invariant EntriesCapturable(i, tree, done, uid, gid)
      invariant |entries| == |done| <= MAX_ENTRIES
      invariant total == TotalSize(tree, done) <= MAX_TREE_SIZE
      invariant Listed(i, tree, done, entries)
    {
      var path :| path in left;
      var node := tree[path];
      CountOne(tree, done, path);
      ListedGrows(i, tree, done, entries, path);
      CapturableGrows(i, tree, done, path, uid, gid);
      if !OwnedBy(node, uid, gid) {
        return None;
      }
      if |entries| >= MAX_ENTRIES {
        return None;
      }
      if !i.isSafePath(path) {
        return None;
      }
      if node.Special? {
        return None;
      }
      if node.File? {
        if |node.content| > MAX_FILE_SIZE || total > MAX_TREE_SIZE - |node.content| {
          return None;
        }
        total := total + |node.content|;
      }
      assert EntryCapturable(i, path, node, uid, gid) && total == TotalSize(tree, done + {path}) <= MAX_TREE_SIZE;
      entries := entries + [Describe(i, path, node)];
      left, done := left - {path}, done + {path};
    }
    assert done == tree.Keys;
    SortedListing(i, tree, entries);
    result := Some(Text.Sort(entries, PathOf));
  }

  lemma CountOne(tree: Tree, paths: set<string>, path: string)
    requires paths <= tree.Keys && path in tree && path !in paths
    ensures |paths + {path}| == |paths| + 1 <= |tree|
    ensures TotalSize(tree, paths + {path}) == TotalSize(tree, paths) + SizeOf(tree[path]) <= TotalSize(tree, tree.Keys)
  {
    hide TotalSize;
    TotalSizeUnion(tree, paths, {path});
    SizeOfOne(tree, path);
    TotalSizeMonotone(tree, paths + {path}, tree.Keys);
    assert |tree.Keys| == |tree|;
  }

  lemma CapturableGrows(i: Inspector, tree: Tree, paths: set<string>, path: string, uid: int, gid: int)
    requires paths <= tree.Keys && path in tree
    ensures EntriesCapturable(i, tree, paths + {path}, uid, gid) <==>
            EntriesCapturable(i, tree, paths, uid, gid) && EntryCapturable(i, path, tree[path], uid, gid)
    ensures EntriesCapturable(i, tree, tree.Keys, uid, gid) ==> EntryCapturable(i, path, tree[path], uid, gid)
  {}

  lemma NothingListed(i: Inspector, tree: Tree)
    ensures forall uid, gid :: EntriesCapturable(i, tree, {}, uid, gid)
    ensures TotalSize(tree, {}) == 0 && Listed(i, tree, {}, [])
  {}

  ghost predicate Listed(i: Inspector, tree: Tree, paths: set<string>, entries: seq<SnapshotEntry>)
    requires paths <= tree.Keys
  {
    && Text.DistinctBy(entries, PathOf)
    && (forall k :: 0 <= k < |entries| ==>
          entries[k].path in paths && entries[k] == Describe(i, entries[k].path, tree[entries[k].path]))
    && forall p :: p in paths ==> exists k :: 0 <= k < |entries| && entries[k].path == p
  }

  lemma ListedGrows(i: Inspector, tree: Tree, paths: set<string>, entries: seq<SnapshotEntry>, path: string)
    requires paths <= tree.Keys && path in tree && path !in paths && Listed(i, tree, paths, entries)
    ensures Listed(i, tree, paths + {path}, entries + [Describe(i, path, tree[path])])
  {
    var after := entries + [Describe(i, path, tree[path])];
    forall p | p in paths + {path}
      ensures exists k :: 0 <= k < |after| && after[k].path == p
    {
      if p == path {
        assert after[|entries|].path == p;
      } else {
        var k :| 0 <= k < |entries| && entries[k].path == p;
        assert after[k].path == p;
      }
    }
  }

  lemma SortedListing(i: Inspector, tree: Tree, entries: seq<SnapshotEntry>)
    requires Listed(i, tree, tree.Keys, entries)
    ensures IsSnapshot(i, tree, Text.Sort(entries, PathOf))
  {
    var sorted := Text.Sort(entries, PathOf);
    Text.SortIsStrict(entries, PathOf);
    forall k | 0 <= k < |sorted|
      ensures sorted[k].path in tree && sorted[k] == Describe(i, sorted[k].path, tree[sorted[k].path])
    {
      var a := Text.PositionIn(entries, sorted, k);
    }
    forall p | p in tree
      ensures exists k :: 0 <= k < |sorted| && sorted[k].path == p
    {
      var k :| 0 <= k < |entries| && entries[k].path == p;
      var a := Text.PositionIn(sorted, entries, k);
      assert sorted[a].path == p;
    }
  }

  /** A tree has one snapshot. */
  lemma SnapshotIsUnique(i: Inspector, tree: Tree, a: seq<SnapshotEntry>, b: seq<SnapshotEntry>)
    requires IsSnapshot(i, tree, a) && IsSnapshot(i, tree, b)
    ensures a == b
  {
    hide Describe, Text.Less;
    var pathsA := seq(|a|, k requires 0 <= k < |a| => a[k].path);
    var pathsB := seq(|b|, k requires 0 <= k < |b| => b[k].path);
    forall p
      ensures p in pathsA <==> p in tree
      ensures p in pathsB <==> p in tree
    {
      if p in tree {
        var k :| 0 <= k < |a| && a[k].path == p;
        var j :| 0 <= j < |b| && b[j].path == p;
        assert pathsA[k] == p && pathsB[j] == p;
      }
    }
    Text.SortedListingIsUnique(pathsA, pathsB);
    forall k | 0 <= k < |a|
      ensures a[k] == b[k]
    {
      assert pathsA[k] == pathsB[k];
    }
  }

  /** Accepts a tree exactly when it can be captured for the owner and its snapshot is the expected one. */
  method ValidateSnapshot(i: Inspector, mount: Mount, expected: seq<SnapshotEntry>, uid: int, gid: int)
    returns (ok: bool)
    ensures ok <==> IsCapturable(i, mount, uid, gid) && IsSnapshot(i, mount.entries, expected)
  {
    var actual := CaptureSnapshot(i, mount, uid, gid);
    if actual.None? {
      return false;
    }
    if IsCapturable(i, mount, uid, gid) && IsSnapshot(i, mount.entries, expected) {
      SnapshotIsUnique(i, mount.entries, actual.value, expected);
    }
    if |actual.value| != |expected| {
      return false;
    }
    for index := 0 to |expected|
      invariant actual.value[..index] == expected[..index]
    {
      if actual.value[index] != expected[index] {
        return false;
      }
    }
    assert actual.value[..|expected|] == actual.value && expected[..|expected|] == expected;
    ok := true;
  }

  /** Every node, the root included, has the given owner, and only links have write bits. */
  predicate IsFrozen(mount: Mount, uid: int, gid: int) {
    && NodeIsFrozen(mount.root, uid, gid)
    && forall p :: p in mount.entries ==> NodeIsFrozen(mount.entries[p], uid, gid)
  }

  predicate NodeIsFrozen(node: Node, uid: int, gid: int) {
    OwnedBy(node, uid, gid) && ((node.Directory? || node.File?) ==> !IsWritable(node.perm))
  }

  // ---------------------------------------------------------------- the copy of a whole tree

  function SealedRoot(s: Settings): Node {
    Directory(s.euid, s.sealedGid, SEALED_EXECUTABLE)
  }

  ghost function SealedMount(s: Settings, source: Tree): Mount {
    Mount(SealedRoot(s), SealedOn(s, source, source.Keys))
  }

  /** A tree the copy accepts: its root and every entry are the source identity's, and it fits into the budgets. */
  ghost predicate IsSealable(s: Settings, source: Mount) {
    source.root.Directory? && source.root.uid == s.sourceUid && Fits(s, source.entries, source.entries.Keys, 0, 0)
  }

  /** A fresh copy of a stable tree; succeeds exactly when the tree is acceptable and within the budgets. */
  method CopySealedTree(s: Settings, source: Mount) returns (result: Option<Mount>)
    requires IsTree(source.entries)
    ensures result.Some? <==> IsSealable(s, source)
    ensures result.Some? ==> result.value == SealedMount(s, source.entries)
  {
    hide TotalSize;
    if !source.root.Directory? || source.root.uid != s.sourceUid {
      return None;
    }
    var copier := new Copier(s);
    var ok := copier.CopyDirectory(source.entries, "");
    EverythingIsBelowTheRoot(source.entries);
    if !ok {
      return None;
    }
    result := Some(Mount(Directory(s.euid, s.sealedGid, SEALED_EXECUTABLE), copier.destination));
  }

  lemma EverythingIsBelowTheRoot(tree: Tree)
    requires IsTree(tree)
    ensures Below(tree, "") == tree.Keys
  {
    forall p | p in tree
      ensures p != ""
    {
      var d :| IsChild(d, p) && (d == "" || (d in tree && tree[d].Directory?));
    }
  }

  lemma {:induction false} SealingKeepsSizes(s: Settings, source: Tree, paths: set<string>)
    requires paths <= source.Keys
    ensures TotalSize(SealedOn(s, source, source.Keys), paths) == TotalSize(source, paths)
  {
    if paths != {} {
      var p :| p in paths;
      SealingKeepsSizes(s, source, paths - {p});
      TotalSizePick(source, paths, p);
      TotalSizePick(SealedOn(s, source, source.Keys), paths, p);
    }
  }

  lemma SealedBits()
    ensures IsExecutable(SEALED_EXECUTABLE) && !IsExecutable(SEALED_FILE)
    ensures !IsWritable(SEALED_EXECUTABLE) && !IsWritable(SEALED_FILE)
  {}

  /** The sealed copy has the snapshot of its source and passes the frozen check. */
  lemma SealingKeepsTheSnapshot(i: Inspector, s: Settings, source: Mount, sourceGid: int, snapshot: seq<SnapshotEntry>)
    requires IsCapturable(i, source, s.sourceUid, sourceGid) && IsSnapshot(i, source.entries, snapshot)
    ensures IsSnapshot(i, SealedMount(s, source.entries).entries, snapshot)
    ensures IsCapturable(i, SealedMount(s, source.entries), s.euid, s.sealedGid)
    ensures IsFrozen(SealedMount(s, source.entries), s.euid, s.sealedGid)
  {
    hide TotalSize, IsExecutable, IsWritable, Text.Less;
    SealedBits();
    SealingKeepsSizes(s, source.entries, source.entries.Keys);
    var sealed_ := SealedMount(s, source.entries).entries;
    assert sealed_.Keys == source.entries.Keys;
    forall p | p in source.entries
      ensures Describe(i, p, sealed_[p]) == Describe(i, p, source.entries[p])
    {
      SealingKeepsTheDescription(i, s, p, source.entries[p]);
    }
    assert |sealed_.Keys| == |sealed_| && |source.entries.Keys| == |source.entries|;
  }

  lemma SealingKeepsTheDescription(i: Inspector, s: Settings, path: string, node: Node)
    ensures Describe(i, path, Sealed(s, node)) == Describe(i, path, node)
  {
    SealedBits();
  }

  /** After copying, validation against the captured snapshot fails for no owner but a wrong one. */
  lemma ValidationAfterCopying(i: Inspector, s: Settings, source: Mount, sourceGid: int, snapshot: seq<SnapshotEntry>,
                               sealedUid: int)
    requires IsCapturable(i, source, s.sourceUid, sourceGid) && IsSnapshot(i, source.entries, snapshot)
    ensures IsCapturable(i, SealedMount(s, source.entries), sealedUid, s.sealedGid)
            && IsSnapshot(i, SealedMount(s, source.entries).entries, snapshot)
            && IsFrozen(SealedMount(s, source.entries), sealedUid, s.sealedGid)
            <==> sealedUid == s.euid
  {
    SealingKeepsTheSnapshot(i, s, source, sourceGid, snapshot);
  }

  // ---------------------------------------------------------------- what a snapshot and a seal say

  /** The same kind of entry, with the same content and executable bit, or the same link. */
  ghost predicate IsSameEntry(a: Node, b: Node) {
    match (a, b)
    case (Directory(_, _, _), Directory(_, _, _)) => true
    case (File(_, _, p, x), File(_, _, q, y)) => x == y && (IsExecutable(p) <==> IsExecutable(q))
    case (Symlink(_, _, x), Symlink(_, _, y)) => x == y
    case _ => false
  }

  /** Two trees have the same snapshot exactly if they have the same paths with the same entries. */
  lemma SameSnapshotSameTree(i: Inspector, a: Tree, b: Tree, snapshot: seq<SnapshotEntry>)
    requires forall x, y :: i.sha256(x) == i.sha256(y) ==> x == y
    requires (forall p :: p in a ==> !a[p].Special?) && forall p :: p in b ==> !b[p].Special?
    requires IsSnapshot(i, a, snapshot)
    ensures IsSnapshot(i, b, snapshot) <==> a.Keys == b.Keys && forall p :: p in a ==> IsSameEntry(a[p], b[p])
  {
    hide Text.StrictlySortedBy, IsExecutable, IsSameEntry;
    forall p | p in a && p in b
      ensures Describe(i, p, a[p]) == Describe(i, p, b[p]) <==> IsSameEntry(a[p], b[p])
    {
      SameDescription(i, p, a[p], b[p]);
    }
    if IsSnapshot(i, b, snapshot) {
      forall p
        ensures p in a <==> p in b
        ensures p in a ==> IsSameEntry(a[p], b[p])
      {
        if p in a || p in b {
          var k :| 0 <= k < |snapshot| && snapshot[k].path == p;
        }
      }
    }
    if a.Keys == b.Keys && forall p :: p in a ==> IsSameEntry(a[p], b[p]) {
      assert forall k :: 0 <= k < |snapshot| ==> snapshot[k].path in b;
      assert forall p :: p in b ==> p in a;
    }
  }

  lemma SameDescription(i: Inspector, path: string, a: Node, b: Node)
    requires (i.sha256(if a.File? then a.content else "") == i.sha256(if b.File? then b.content else "")) ==>
               (if a.File? then a.content else "") == if b.File? then b.content else ""
    requires !a.Special? && !b.Special?
    ensures Describe(i, path, a) == Describe(i, path, b) <==> IsSameEntry(a, b)
  {
    hide IsExecutable;
  }

  /** The sealed form of a tree: every entry the same, owned by the seal, and with the read-only mode of its kind. */
  lemma SealedTree(s: Settings, source: Mount, path: string)
    requires path in source.entries && !source.entries[path].Special?
    ensures var node := SealedMount(s, source.entries).entries[path];
            && path in SealedMount(s, source.entries).entries
            && node.uid == s.euid && node.gid == s.sealedGid
            && (match source.entries[path]
                case Directory(_, _, _) => node.Directory? && node.perm == 0x168
                case File(_, _, perm, content) =>
                  node.File? && node.content == content && node.perm == if IsExecutable(perm) then 0x168 else 0x120
                case Symlink(_, _, target) => node.Symlink? && node.target == target
                case Special(_, _) => true)
    ensures SealedMount(s, source.entries).entries.Keys == source.entries.Keys
  {
    hide IsExecutable;
  }

  /**
   Which trees are sealed: everything is the source identity's, supported and small enough, and the review bundle is
   absent.
   */
  lemma SealableMeans(s: Settings, source: Mount)
    ensures IsSealable(s, source) <==>
              && source.root.Directory? && source.root.uid == s.sourceUid
              && "artifacts/bootstrap-signing-review-bundle.json" !in source.entries
              && (forall p :: p in source.entries ==>
                    source.entries[p].uid == s.sourceUid && !source.entries[p].Special?)
              && (forall p :: p in source.entries && source.entries[p].File? ==>
                    |source.entries[p].content| <= 2147483648)
              && (forall p :: p in source.entries && source.entries[p].Symlink? ==>
                    s.linkIsSafe(p, source.entries[p].target))
              && |source.entries| <= 300000 && TotalSize(source.entries, source.entries.Keys) <= 8589934592
  {
    hide TotalSize;
    assert |source.entries.Keys| == |source.entries|;
  }

  /** Which trees are captured for an owner. */
  lemma CapturableMeans(i: Inspector, mount: Mount, uid: int, gid: int)
    ensures IsCapturable(i, mount, uid, gid) <==>
              && mount.root.Directory? && mount.root.uid == uid && mount.root.gid == gid
              && (forall p :: p in mount.entries ==>
                    && i.isSafePath(p) && mount.entries[p].uid == uid && mount.entries[p].gid == gid
                    && !mount.entries[p].Special?)
              && (forall p :: p in mount.entries && mount.entries[p].File? ==> |mount.entries[p].content| <= 2147483648)
              && |mount.entries| <= 300000 && TotalSize(mount.entries, mount.entries.Keys) <= 8589934592
  {
    hide TotalSize;
  }

  /** A tree with one program, which can be captured and sealed. */
  function ExampleSource(): Mount {
    Mount(Directory(1, 1, 0x1c0), map["a" := File(1, 1, 0x1c0, "program")])
  }

  lemma ExampleIsSealable()
    ensures IsTree(ExampleSource().entries)
    ensures IsSealable(Settings(1, 0, 0, (p, t) => true), ExampleSource())
    ensures IsCapturable(Inspector(content => content, path => true), ExampleSource(), 1, 1)
  {
    hide TotalSize;
    var tree := ExampleSource().entries;
    assert tree.Keys == {"a"};
    SizeOfOne(tree, "a");
    assert |tree.Keys| == |tree|;
    assert IsChild("", "a");
    SealableMeans(Settings(1, 0, 0, (p, t) => true), ExampleSource());
  }

  /** Frozen: everything has the owner, and nothing but links has any of the three write permissions. */
  lemma FrozenMeans(mount: Mount, uid: int, gid: int)
    ensures IsFrozen(mount, uid, gid) <==>
              forall node :: node == mount.root || (exists p :: p in mount.entries && mount.entries[p] == node) ==>
                && node.uid == uid && node.gid == gid
                && ((node.Directory? || node.File?) ==> node.perm & 0x92 == 0)
  {}
}
