/**
 Publication of a sealed snapshot by two renames, any file system call of which may fail
 (cmd/deus-aws-bootstrap/signer_tree_linux.go, cmd/deus-aws-bootstrap/main.go).
 */
module Publication {
  import opened Wrappers
  import opened FileTree
  import opened SealedCopy

  /** The three paths involved; an absent path is None. */
  datatype Layout = Layout(root: Option<Mount>, staging: Option<Mount>, unsealed: Option<Mount>)

  datatype PublishError =
    | NotPrepared | NotCaptured | StagingNotCleared | NotCopied | SnapshotDiffers | NotFrozen | CheckFailed
    | NotRetired
    | NotPublished(restored: bool)
    | NotCleanedUp
    | NotPersisted

  /**
   The root path has what it may have at any moment: all of the old tree, or nothing while that is aside, or the new
   one.
   */
  ghost predicate Safe(l: Layout, prepared: Mount, sealed_: Option<Mount>) {
    || l.root == Some(prepared)
    || (l.root.None? && l.unsealed == Some(prepared))
    || (sealed_.Some? && l.root == sealed_)
  }

  ghost predicate AlwaysSafe(history: seq<Layout>, prepared: Mount, sealed_: Option<Mount>) {
    forall k :: 0 <= k < |history| ==> Safe(history[k], prepared, sealed_)
  }

  /**
   The part of the file system that publication changes; `history` records every state, crash points included, and
   `faulted` whether any call has failed although nothing stood in its way.
   */
  class Disk {
    var layout: Layout
    ghost var history: seq<Layout>
    ghost var faulted: bool

    constructor (layout: Layout)
      ensures this.layout == layout && history == [layout] && !faulted
    {
      this.layout, history, faulted := layout, [layout], false;
    }

    /** A call that may fail. */
    method Call() returns (fault: bool)
      modifies this`faulted
      ensures faulted <==> old(faulted) || fault
    {
      fault := *;
      faulted := faulted || fault;
    }

    /** Removes the staging tree; a failed removal may leave any part of it. */
    method RemoveStaging() returns (ok: bool)
      modifies this
      ensures layout.root == old(layout).root && layout.unsealed == old(layout).unsealed
      ensures history == old(history) + [layout]
      ensures ok ==> layout.staging.None?
      ensures faulted <==> old(faulted) || !ok
    {
      var fault := Call();
      ok := !fault;
      var remains: Option<Mount> := *;
      layout := layout.(staging := if ok then None else remains);
      history := history + [layout];
    }

    /** Removes the tree moved aside; a failed removal may leave any part of it. */
    method RemoveUnsealed() returns (ok: bool)
      modifies this
      ensures layout.root == old(layout).root && layout.staging == old(layout).staging
      ensures history == old(history) + [layout]
      ensures ok ==> layout.unsealed.None?
      ensures faulted <==> old(faulted) || !ok
    {
      var fault := Call();
      ok := !fault;
      var remains: Option<Mount> := *;
      layout := layout.(unsealed := if ok then None else remains);
      history := history + [layout];
    }

    /** Copies the root to the staging path; a failed copy leaves part of a copy there. */
    method CopyToStaging(s: Settings) returns (ok: bool)
      requires layout.root.Some? && IsTree(layout.root.value.entries)
      modifies this
      ensures layout.root == old(layout).root && layout.unsealed == old(layout).unsealed
      ensures history == old(history) + [layout]
      ensures ok ==> old(layout).staging.None?
      ensures ok ==> layout.staging == Some(SealedMount(s, layout.root.value.entries))
      ensures old(faulted) ==> faulted
      ensures !faulted ==> (ok <==> old(layout).staging.None? && IsSealable(s, layout.root.value))
    {
      var fault := Call();
      var remains: Option<Mount> := *;
      var copied := CopySealedTree(s, layout.root.value);
      ok := !fault && layout.staging.None? && copied.Some?;
      layout := layout.(staging := if ok then copied else remains);
      history := history + [layout];
    }

    /**
     A directory renamed onto a path replaces nothing but an empty directory there; a failed rename changes nothing.
     */
    predicate CanReplace(target: Option<Mount>) {
      target.None? || target.value.entries == map[]
    }

    method RenameRootToUnsealed() returns (ok: bool)
      modifies this
      ensures ok ==> old(layout).root.Some? && layout == Layout(None, old(layout).staging, old(layout).root)
      ensures !ok ==> layout == old(layout)
      ensures history == old(history) + [layout]
      ensures old(faulted) ==> faulted
      ensures !faulted ==> (ok <==> old(layout).root.Some? && CanReplace(old(layout).unsealed))
    {
      var fault := Call();
      ok := !fault && layout.root.Some? && CanReplace(layout.unsealed);
      if ok {
        layout := Layout(None, layout.staging, layout.root);
      }
      history := history + [layout];
    }

    method RenameStagingToRoot() returns (ok: bool)
      modifies this
      ensures ok ==> old(layout).staging.Some? && layout == Layout(old(layout).staging, None, old(layout).unsealed)
      ensures !ok ==> layout == old(layout)
      ensures history == old(history) + [layout]
      ensures old(faulted) ==> faulted
      ensures !faulted ==> (ok <==> old(layout).staging.Some? && CanReplace(old(layout).root))
    {
      var fault := Call();
      ok := !fault && layout.staging.Some? && CanReplace(layout.root);
      if ok {
        layout := Layout(layout.staging, None, layout.unsealed);
      }
      history := history + [layout];
    }

    method RenameUnsealedToRoot() returns (ok: bool)
      modifies this
      ensures ok ==> old(layout).unsealed.Some? && layout == Layout(old(layout).unsealed, old(layout).staging, None)
      ensures !ok ==> layout == old(layout)
      ensures history == old(history) + [layout]
      ensures old(faulted) ==> faulted
      ensures !faulted ==> (ok <==> old(layout).unsealed.Some? && CanReplace(old(layout).root))
    {
      var fault := Call();
      ok := !fault && layout.unsealed.Some? && CanReplace(layout.root);
      if ok {
        layout := Layout(layout.unsealed, layout.staging, None);
      }
      history := history + [layout];
    }

    /** The two renames, and the second thoughts when the second of them fails. */
    method Swap(ghost prepared: Mount, ghost sealed_: Mount) returns (error: Option<PublishError>)
      requires layout.root == Some(prepared) && layout.staging == Some(sealed_)
      requires AlwaysSafe(history, prepared, Some(sealed_))
      modifies this
      ensures AlwaysSafe(history, prepared, Some(sealed_))
      ensures error.None? ==> layout == Layout(Some(sealed_), None, Some(prepared))
      ensures error.Some? ==> error.value in {NotRetired, NotPublished(true), NotPublished(false)}
      ensures error == Some(NotRetired) ==> layout == old(layout)
      ensures error == Some(NotPublished(true)) ==> layout == Layout(Some(prepared), Some(sealed_), None)
      ensures error == Some(NotPublished(false)) ==> layout == Layout(None, Some(sealed_), Some(prepared))
      ensures old(faulted) ==> faulted
      ensures !faulted ==> error == if CanReplace(old(layout).unsealed) then None else Some(NotRetired)
    {
      var ok := RenameRootToUnsealed();
      if !ok {
        return Some(NotRetired);
      }
      ok := RenameStagingToRoot();
      if !ok {
        var restored := RenameUnsealedToRoot();
        return Some(NotPublished(restored));
      }
      error := None;
    }
  }

  /** What the root holds after an outcome. */
  ghost predicate EndsAs(error: Option<PublishError>, l: Layout, prepared: Mount, sealed_: Mount) {
    match error
    case None => l.root == Some(sealed_) && l.unsealed.None?
    case Some(NotPublished(false)) => l.root.None? && l.unsealed == Some(prepared)
    case Some(NotCleanedUp) => l.root == Some(sealed_)
    case Some(NotPersisted) => l.root == Some(sealed_)
    case Some(_) => l.root == Some(prepared)
  }

  /** What stands in the way of a publication although no call fails; nothing, and the sealed copy is published. */
  ghost function Obstacle(i: Inspector, s: Settings, l: Layout, sourceGid: int, sealedUid: int,
                          isPrepared: Mount -> bool)
    : (error: Option<PublishError>)
    requires l.root.Some?
  {
    var prepared := l.root.value;
    if !isPrepared(prepared) then Some(NotPrepared)
    else if !IsCapturable(i, prepared, s.sourceUid, sourceGid) then Some(NotCaptured)
    else if !IsSealable(s, prepared) then Some(NotCopied)
    else if sealedUid != s.euid then Some(SnapshotDiffers)
    else if !(l.unsealed.None? || l.unsealed.value.entries == map[]) then Some(NotRetired)
    else None
  }

  /**
   replaceSignerReviewTreeWithSnapshotAs. Whatever fails, at every moment the root path holds the intact prepared tree,
   or nothing while that tree is intact aside, or the complete sealed copy; success means the last. The sealed copy has
   the snapshot of the prepared tree and is frozen.
   */
  method ReplaceSignerReviewTree(disk: Disk, i: Inspector, s: Settings, sourceGid: int, sealedUid: int,
                                 isPrepared: Mount -> bool)
    returns (error: Option<PublishError>)
    requires disk.layout.root.Some? && IsTree(disk.layout.root.value.entries) && disk.history == [disk.layout]
    modifies disk
    ensures var prepared := old(disk.layout).root.value; var sealed_ := SealedMount(s, prepared.entries);
            && AlwaysSafe(disk.history, prepared, Some(sealed_))
            && EndsAs(error, disk.layout, prepared, sealed_)
    ensures error == Some(SnapshotDiffers) ==> sealedUid != s.euid
    ensures error != Some(NotFrozen)
    ensures error.None? || error.value in {NotCleanedUp, NotPersisted} ==>
              var prepared := old(disk.layout).root.value; var sealed_ := SealedMount(s, prepared.entries);
              && isPrepared(prepared) && IsFrozen(sealed_, sealedUid, s.sealedGid)
              && exists snapshot ::
                   IsSnapshot(i, prepared.entries, snapshot) && IsSnapshot(i, sealed_.entries, snapshot)
    ensures !disk.faulted ==>
              error == Obstacle(i, s, old(disk.layout), sourceGid, sealedUid, isPrepared)
  {
    var prepared := disk.layout.root.value;
    ghost var sealed_ := SealedMount(s, prepared.entries);
    if !isPrepared(prepared) {
      return Some(NotPrepared);
    }
    var inventory := CaptureSnapshot(i, prepared, s.sourceUid, sourceGid);
    if inventory.None? {
      return Some(NotCaptured);
    }
    var ok := disk.RemoveStaging();
    if !ok {
      return Some(StagingNotCleared);
    }
    ok := disk.CopyToStaging(s);
    if !ok {
      var _ := disk.RemoveStaging();
      return Some(NotCopied);
    }
    ValidationAfterCopying(i, s, prepared, sourceGid, inventory.value, sealedUid);
    SealingKeepsTheSnapshot(i, s, prepared, sourceGid, inventory.value);
    ok := ValidateSnapshot(i, disk.layout.staging.value, inventory.value, sealedUid, s.sealedGid);
    var frozen := IsFrozen(disk.layout.staging.value, sealedUid, s.sealedGid);
    if !ok || !frozen {
      var _ := disk.RemoveStaging();
      return Some(if !ok then SnapshotDiffers else NotFrozen);
    }
    error := disk.Swap(prepared, sealed_);
    if error.Some? {
      var _ := disk.RemoveStaging();
      return;
    }
    ok := disk.RemoveUnsealed();
    if !ok {
      var _ := disk.RemoveStaging();
      return Some(NotCleanedUp);
    }
    var fault := disk.Call();
    var _ := disk.RemoveStaging();
    error := if fault then Some(NotPersisted) else None;
  }

  /**
   The staging and renaming part of sealExecution: the same two renames, after the copy passed the inventory check of
   the sealed root and the remaining installation steps. A failed restore is not reported apart.
   */
  method SealExecution(disk: Disk, s: Settings, isSealedCopy: Mount -> bool) returns (error: Option<PublishError>)
    requires disk.layout.root.Some? && IsTree(disk.layout.root.value.entries) && disk.history == [disk.layout]
    modifies disk
    ensures var prepared := old(disk.layout).root.value; var sealed_ := SealedMount(s, prepared.entries);
            && AlwaysSafe(disk.history, prepared, Some(sealed_))
            && EndsAs(error, disk.layout, prepared, sealed_)
    ensures error.None? || error == Some(NotCleanedUp) ==>
              isSealedCopy(SealedMount(s, old(disk.layout).root.value.entries))
    ensures !disk.faulted ==>
              (error.None? <==>
                 && IsSealable(s, old(disk.layout).root.value)
                 && isSealedCopy(SealedMount(s, old(disk.layout).root.value.entries))
                 && (old(disk.layout).unsealed.None? || old(disk.layout).unsealed.value.entries == map[]))
  {
    var prepared := disk.layout.root.value;
    ghost var sealed_ := SealedMount(s, prepared.entries);
    var ok := disk.RemoveStaging();
    if !ok {
      var _ := disk.RemoveStaging();
      return Some(StagingNotCleared);
    }
    ok := disk.CopyToStaging(s);
    if !ok {
      var _ := disk.RemoveStaging();
      return Some(NotCopied);
    }
    if !isSealedCopy(disk.layout.staging.value) {
      var _ := disk.RemoveStaging();
      return Some(SnapshotDiffers);
    }
    var fault := disk.Call();
    if fault {
      var _ := disk.RemoveStaging();
      return Some(CheckFailed);
    }
    error := disk.Swap(prepared, sealed_);
    if error.Some? {
      var _ := disk.RemoveStaging();
      return;
    }
    ok := disk.RemoveUnsealed();
    error := if ok then None else Some(NotCleanedUp);
  }

  /** The example tree is published when no call fails. */
  lemma ExampleIsPublished(i: Inspector)
    requires i == Inspector(content => content, path => true)
    ensures IsTree(ExampleSource().entries)
    ensures Obstacle(i, Settings(1, 0, 0, (p, t) => true), Layout(Some(ExampleSource()), None, None), 1, 0,
                     m => true) == None
  {
    ExampleIsSealable();
    hide IsCapturable, IsSealable;
  }
}
