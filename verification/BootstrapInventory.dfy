/**
 The signed inventory document of the generated files, and what it pins together with the acceptor of the execution
 tree (cmd/deus-aws-bootstrap/seal_inventory_linux.go).
 */
module BootstrapInventory {
  import opened Wrappers
  import opened FileTree
  import opened SealInventory
  import SealedCopy
  import Text

  const API_VERSION := "security.deus.dev/bootstrap-seal-inventory/v1"

  /** The summary the signed candidate binds. */
  datatype Binding = Binding(path: string, entryCount: int, totalFileBytes: int, maximumFileSize: int)

  function PathOf(e: InventoryEntry): string {
    e.path
  }

  predicate IsAllowedPath(isSafePath: string -> bool, path: string) {
    && isSafePath(path) && path != "" && path != INVENTORY_DOCUMENT && path != CANDIDATE
    && (MatchingGeneratedRoot(path) != "" || path in GENERATED_FILES)
  }

  predicate HasConsistentMetadata(e: InventoryEntry) {
    if e.kind == "directory" then
      e.size == 0 && e.sha256 == "" && e.target == "" && !e.executable
    else if e.kind == "file" then
      0 <= e.size <= SealedCopy.MAX_FILE_SIZE && Text.IsSha256(e.sha256) && e.target == ""
    else if e.kind == "symlink" then
      && MatchingGeneratedRoot(e.path) == NODE_MODULES && e.target != "" && e.target[0] != '/'
      && e.size == 0 && e.sha256 == "" && !e.executable
    else
      false
  }

  ghost predicate EntriesValid(isSafePath: string -> bool, entries: seq<InventoryEntry>) {
    forall e :: e in entries ==> IsAllowedPath(isSafePath, e.path) && HasConsistentMetadata(e)
  }

  function BytesOf(e: InventoryEntry): int {
    if e.kind == "file" then e.size else 0
  }

  function FileBytes(entries: seq<InventoryEntry>): int {
    if entries == [] then 0 else FileBytes(entries[..|entries| - 1]) + BytesOf(entries[|entries| - 1])
  }

  ghost predicate IsLargest(entries: seq<InventoryEntry>, maximum: int) {
    && (forall e :: e in entries ==> BytesOf(e) <= maximum)
    && (maximum == 0 || exists e :: e in entries && BytesOf(e) == maximum)
  }

  ghost predicate Holds(entries: seq<InventoryEntry>, path: string, kind: string) {
    exists e :: e in entries && e.path == path && e.kind == kind
  }

  predicate SummaryAgrees(apiVersion: string, inventory: Inventory, binding: Binding) {
    && apiVersion == API_VERSION
    && inventory.entryCount == |inventory.entries| && inventory.entryCount == binding.entryCount
    && inventory.totalFileBytes == binding.totalFileBytes && inventory.maximumFileSize == binding.maximumFileSize
    && 0 < inventory.entryCount <= SealedCopy.MAX_ENTRIES
    && 0 < inventory.totalFileBytes <= SealedCopy.MAX_TREE_SIZE
    && 0 < inventory.maximumFileSize <= SealedCopy.MAX_FILE_SIZE
  }

  /** The documents the reader accepts. */
  ghost predicate IsInventory(isSafePath: string -> bool, apiVersion: string, inventory: Inventory, binding: Binding) {
    && binding.path == INVENTORY_DOCUMENT
    && SummaryAgrees(apiVersion, inventory, binding)
    && EntriesValid(isSafePath, inventory.entries)
    && Text.StrictlySortedBy(inventory.entries, PathOf)
    && (forall r :: r in GENERATED_ROOTS ==> Holds(inventory.entries, r, "directory"))
    && (forall g :: g in GENERATED_FILES && g != CANDIDATE && g != INVENTORY_DOCUMENT ==>
          Holds(inventory.entries, g, "file"))
    && FileBytes(inventory.entries) == inventory.totalFileBytes
    && IsLargest(inventory.entries, inventory.maximumFileSize)
  }

  // ---------------------------------------------------------------- the reader as written

  /** The binary search of sort.Search finds the entry of a path, if there is one. */
  method FindEntry(entries: seq<InventoryEntry>, wanted: string) returns (found: Option<InventoryEntry>)
    requires Text.StrictlySortedBy(entries, PathOf)
    ensures found.Some? ==> found.value in entries && found.value.path == wanted
    ensures found.None? ==> forall e :: e in entries ==> e.path != wanted
  {
    var low, high := 0, |entries|;
    while low < high
      invariant 0 <= low <= high <= |entries|
      invariant forall k :: 0 <= k < low ==> Text.Less(entries[k].path, wanted)
      invariant forall k :: high <= k < |entries| ==> !Text.Less(entries[k].path, wanted)
    {
      var middle := (low + high) / 2;
      OrderAround(entries, middle, wanted);
      if Text.Less(entries[middle].path, wanted) {
        low := middle + 1;
      } else {
        high := middle;
      }
    }
    if low < |entries| && entries[low].path == wanted {
      return Some(entries[low]);
    }
    Text.LessIsTotal(wanted, wanted);
    if low < |entries| {
      OrderAround(entries, low, wanted);
    }
    found := None;
  }

  lemma OrderAround(entries: seq<InventoryEntry>, middle: nat, wanted: string)
    requires Text.StrictlySortedBy(entries, PathOf) && middle < |entries|
    ensures Text.Less(entries[middle].path, wanted) ==>
              forall k :: 0 <= k <= middle ==> Text.Less(entries[k].path, wanted)
    ensures !Text.Less(entries[middle].path, wanted) ==>
              forall k :: middle <= k < |entries| ==> !Text.Less(entries[k].path, wanted)
    ensures !Text.Less(entries[middle].path, wanted) && entries[middle].path != wanted ==>
              forall k :: middle <= k < |entries| ==> entries[k].path != wanted
  {
    hide Text.Less;
    var pivot := entries[middle].path;
    Text.LessIsTotal(pivot, wanted);
    forall k | 0 <= k < |entries|
      ensures k < middle && Text.Less(pivot, wanted) ==> Text.Less(entries[k].path, wanted)
      ensures k > middle && Text.Less(entries[k].path, wanted) ==> Text.Less(pivot, wanted)
      ensures k > middle && entries[k].path == wanted ==> Text.Less(pivot, wanted)
    {
      assert k < middle ==> Text.Less(PathOf(entries[k]), PathOf(entries[middle]));
      assert k > middle ==> Text.Less(PathOf(entries[middle]), PathOf(entries[k]));
      if k < middle && Text.Less(pivot, wanted) {
        Text.LessIsTransitive(entries[k].path, pivot, wanted);
      }
      if k > middle && Text.Less(entries[k].path, wanted) {
        Text.LessIsTransitive(pivot, entries[k].path, wanted);
      }
    }
  }

  /** The pass over the entries: paths in order, metadata, and the byte totals. */
  method CheckEntries(isSafePath: string -> bool, entries: seq<InventoryEntry>)
    returns (ok: bool, total: int, maximum: int)
    ensures ok <==> EntriesValid(isSafePath, entries) && Text.StrictlySortedBy(entries, PathOf)
    ensures ok ==> total == FileBytes(entries) && maximum >= 0 && IsLargest(entries, maximum)
  {
    hide HasConsistentMetadata, IsAllowedPath, Text.Less;
    var previous := "";
    total, maximum := 0, 0;
    for k := 0 to |entries|
      invariant EntriesValid(isSafePath, entries[..k]) && Text.StrictlySortedBy(entries[..k], PathOf)
      invariant previous == if k == 0 then "" else entries[k - 1].path
      invariant total == FileBytes(entries[..k]) && maximum >= 0 && IsLargest(entries[..k], maximum)
    {
      var entry := entries[k];
      OneMoreChecked(isSafePath, entries, k, previous, maximum);
      if !IsAllowedPath(isSafePath, entry.path) || !Text.Less(previous, entry.path) {
        return false, total, maximum;
      }
      if !HasConsistentMetadata(entry) {
        return false, total, maximum;
      }
      if entry.kind == "file" {
        total := total + entry.size;
        if entry.size > maximum {
          maximum := entry.size;
        }
      }
      previous := entry.path;
    }
    assert entries[..|entries|] == entries;
    ok := true;
  }

  lemma OneMoreChecked(isSafePath: string -> bool, entries: seq<InventoryEntry>, k: nat, previous: string, maximum: int)
    requires k < |entries|
    requires EntriesValid(isSafePath, entries[..k]) && Text.StrictlySortedBy(entries[..k], PathOf)
    requires previous == if k == 0 then "" else entries[k - 1].path
    requires maximum >= 0 && IsLargest(entries[..k], maximum)
    ensures !IsAllowedPath(isSafePath, entries[k].path) || !HasConsistentMetadata(entries[k]) ==>
              !EntriesValid(isSafePath, entries)
    ensures IsAllowedPath(isSafePath, entries[k].path) && HasConsistentMetadata(entries[k]) ==>
              EntriesValid(isSafePath, entries[..k + 1])
    ensures IsAllowedPath(isSafePath, entries[k].path) && !Text.Less(previous, entries[k].path) ==>
              !Text.StrictlySortedBy(entries, PathOf)
    ensures Text.Less(previous, entries[k].path) ==> Text.StrictlySortedBy(entries[..k + 1], PathOf)
    ensures FileBytes(entries[..k + 1]) == FileBytes(entries[..k]) + BytesOf(entries[k])
    ensures IsLargest(entries[..k + 1], if BytesOf(entries[k]) > maximum then BytesOf(entries[k]) else maximum)
  {
    hide HasConsistentMetadata, IsLargest, BytesOf, Text.Less, MatchingGeneratedRoot;
    var last := entries[k];
    assert entries[..k + 1] == entries[..k] + [last] && entries[..k + 1][..k] == entries[..k];
    assert last in entries && last in entries[..k + 1];
    if Text.Less(previous, last.path) {
      SortedStep(entries, k);
    }
    FirstInOrder(last.path);
    if k > 0 && Text.StrictlySortedBy(entries, PathOf) {
      assert Text.Less(PathOf(entries[k - 1]), PathOf(last));
    }
    LargestStep(entries, k, maximum);
  }

  lemma FirstInOrder(path: string)
    ensures Text.Less("", path) <==> path != ""
  {}

  lemma LargestStep(entries: seq<InventoryEntry>, k: nat, maximum: int)
    requires k < |entries| && maximum >= 0 && IsLargest(entries[..k], maximum)
    ensures IsLargest(entries[..k + 1], if BytesOf(entries[k]) > maximum then BytesOf(entries[k]) else maximum)
  {
    assert entries[..k + 1] == entries[..k] + [entries[k]];
    assert entries[k] in entries[..k + 1];
    if maximum > 0 {
      var e :| e in entries[..k] && BytesOf(e) == maximum;
      assert e in entries[..k + 1];
    }
  }

  lemma SortedStep(entries: seq<InventoryEntry>, k: nat)
    requires k < |entries| && Text.StrictlySortedBy(entries[..k], PathOf)
    requires k > 0 ==> Text.Less(entries[k - 1].path, entries[k].path)
    ensures Text.StrictlySortedBy(entries[..k + 1], PathOf)
  {
    hide Text.Less;
    var upTo := entries[..k + 1];
    forall i, j | 0 <= i < j < k + 1
      ensures Text.Less(PathOf(upTo[i]), PathOf(upTo[j]))
    {
      if j < k {
        assert upTo[i] == entries[..k][i] && upTo[j] == entries[..k][j];
      } else if i < k - 1 {
        assert Text.Less(PathOf(entries[..k][i]), PathOf(entries[..k][k - 1]));
        Text.LessIsTransitive(PathOf(upTo[i]), PathOf(upTo[k - 1]), PathOf(upTo[k]));
      }
    }
  }

  method HasDirectory(entries: seq<InventoryEntry>, path: string) returns (found: bool)
    ensures found <==> Holds(entries, path, "directory")
  {
    for k := 0 to |entries|
      invariant forall e :: e in entries[..k] ==> !(e.path == path && e.kind == "directory")
    {
      assert entries[..k + 1] == entries[..k] + [entries[k]];
      if entries[k].path == path && entries[k].kind == "directory" {
        assert entries[k] in entries;
        return true;
      }
    }
    assert entries[..|entries|] == entries;
    found := false;
  }

  /** The checks on a decoded inventory document: it is accepted exactly when it is one the reader promises. */
  method ReadInventory(isSafePath: string -> bool, apiVersion: string, inventory: Inventory, binding: Binding)
    returns (ok: bool)
    ensures ok <==> IsInventory(isSafePath, apiVersion, inventory, binding)
  {
    hide EntriesValid, FileBytes, HasConsistentMetadata;
    if binding.path != INVENTORY_DOCUMENT || !SummaryAgrees(apiVersion, inventory, binding) {
      return false;
    }
    var checked, total, maximum := CheckEntries(isSafePath, inventory.entries);
    if !checked {
      return false;
    }
    for k := 0 to |GENERATED_ROOTS|
      invariant forall r :: r in GENERATED_ROOTS[..k] ==> Holds(inventory.entries, r, "directory")
    {
      assert GENERATED_ROOTS[..k + 1] == GENERATED_ROOTS[..k] + [GENERATED_ROOTS[k]];
      var found := HasDirectory(inventory.entries, GENERATED_ROOTS[k]);
      if !found {
        return false;
      }
    }
    for k := 0 to |GENERATED_FILES|
      invariant forall g :: g in GENERATED_FILES[..k] && g != CANDIDATE && g != INVENTORY_DOCUMENT ==>
                  Holds(inventory.entries, g, "file")
    {
      assert GENERATED_FILES[..k + 1] == GENERATED_FILES[..k] + [GENERATED_FILES[k]];
      var value := GENERATED_FILES[k];
      if value != CANDIDATE && value != INVENTORY_DOCUMENT {
        var entry := FindEntry(inventory.entries, value);
        if entry.None? || entry.value.kind != "file" {
          OneEntryPerPath(inventory.entries);
          assert value in GENERATED_FILES;
          return false;
        }
      }
    }
    assert GENERATED_ROOTS[..|GENERATED_ROOTS|] == GENERATED_ROOTS;
    assert GENERATED_FILES[..|GENERATED_FILES|] == GENERATED_FILES;
    LargestIsUnique(inventory.entries, maximum, inventory.maximumFileSize);
    ok := total == inventory.totalFileBytes && maximum == inventory.maximumFileSize;
  }

  lemma InOrder(entries: seq<InventoryEntry>, i: nat, j: nat)
    requires Text.StrictlySortedBy(entries, PathOf) && i < |entries| && j < |entries|
    ensures i < j ==> Text.Less(entries[i].path, entries[j].path)
  {
    hide Text.Less;
    if i < j {
      assert Text.Less(PathOf(entries[i]), PathOf(entries[j]));
    }
  }

  lemma OneEntryPerPath(entries: seq<InventoryEntry>)
    requires Text.StrictlySortedBy(entries, PathOf)
    ensures forall d, e :: d in entries && e in entries && d.path == e.path ==> d == e
  {
    hide Text.Less;
    forall d, e | d in entries && e in entries && d.path == e.path
      ensures d == e
    {
      var i :| 0 <= i < |entries| && entries[i] == d;
      var j :| 0 <= j < |entries| && entries[j] == e;
      Text.LessIsTotal(d.path, d.path);
      InOrder(entries, i, j);
      InOrder(entries, j, i);
    }
  }

  lemma LargestIsUnique(entries: seq<InventoryEntry>, a: int, b: int)
    requires IsLargest(entries, a) && b > 0 && a >= 0
    ensures IsLargest(entries, b) ==> a == b
  {}

  // ---------------------------------------------------------------- what a document may list

  /** A directory without any detail, a file with size and digest, or a link of the modules with a relative target. */
  ghost predicate IsPlainEntry(e: InventoryEntry) {
    match e
    case InventoryEntry(path, kind, size, executable, sha256, target) =>
      || (kind == "directory" && size == 0 && !executable && sha256 == "" && target == "")
      || (kind == "file" && 0 <= size <= 2147483648 && Text.IsSha256(sha256) && target == "")
      || (kind == "symlink" && size == 0 && !executable && sha256 == "" && target != "" && target[0] != '/'
          && MatchingGeneratedRoot(path) == "node_modules")
  }

  lemma PlainEntryMeans(e: InventoryEntry)
    ensures HasConsistentMetadata(e) <==> IsPlainEntry(e)
  {
    hide MatchingGeneratedRoot;
  }

  /** What the summary and the binding of a document say of each other, with the limits in numbers. */
  lemma SummaryMeans(apiVersion: string, inventory: Inventory, binding: Binding)
    ensures SummaryAgrees(apiVersion, inventory, binding) <==>
              && apiVersion == "security.deus.dev/bootstrap-seal-inventory/v1"
              && binding ==
                   Binding(binding.path, |inventory.entries|, inventory.totalFileBytes, inventory.maximumFileSize)
              && inventory.entryCount == |inventory.entries|
              && 1 <= |inventory.entries| <= 300000 && 1 <= inventory.totalFileBytes <= 8589934592
              && 1 <= inventory.maximumFileSize <= 2147483648
  {}
}
