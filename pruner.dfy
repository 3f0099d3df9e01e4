/**
 * `pruneExcessSnapshots`: the retention job. Three phases run one after the
 * other over the snapshot table:
 *   1. live, non-reserved folders, in batches of folder ids;
 *   2. every folder that has a folder version (including deleted folders),
 *      in batches of distinct folder ids;
 *   3. one delete of the snapshots whose folder is neither a live folder nor
 *      recorded by any folder version.
 * In phases 1 and 2 each batch is one ranked delete: a snapshot goes when its
 * row number within its folder exceeds the `pitVersionLimit` of the project
 * its folder (phase 1) or one of its folder's versions (phase 2) belongs to.
 * A batch whose delete fails is skipped and the cursor moves on.
 */
module Pruner {
  import opened Schema
  import opened Ordered
  import opened Ranking
  import opened Cursor
  import opened Lookups

  const PruneFolderBatchSize: nat := 10000

  datatype Phase = CurrentFolders | VersionedFolders

  /** The `pitVersionLimit` reached from an environment through its project, if both rows exist. */
  function ProjectLimit(db: Db, envId: Id): Option<nat>
  {
    if envId in db.environments && db.environments[envId].projectId in db.projects
    then Some(db.projects[db.environments[envId].projectId].pitVersionLimit)
    else None
  }

  /** The distinct folder ids of the folder-version table. */
  function VersionedFolderIds(db: Db): set<Id>
  {
    set v | v in db.folderVersions :: db.folderVersions[v].folderId
  }

  /** The folder ids a phase pages through. */
  function Candidates(db: Db, phase: Phase): set<Id>
  {
    match phase
    case CurrentFolders => set f | f in db.folders && !db.folders[f].isReserved
    case VersionedFolders => VersionedFolderIds(db)
  }

  /** The limits the folder's versions resolve to through their environments. */
  function VersionLimits(db: Db, folderId: Id): set<nat>
  {
    set v | v in db.folderVersions && db.folderVersions[v].folderId == folderId
            && ProjectLimit(db, db.folderVersions[v].envId).Some?
      :: ProjectLimit(db, db.folderVersions[v].envId).value
  }

  /**
   * The limit each folder is pruned to in a phase. Phase 1 joins the live
   * folder's environment and project. Phase 2 joins every version of the
   * folder, so a row goes when it exceeds any of their limits: the smallest
   * one decides.
   */
  function Limits(db: Db, phase: Phase): map<Id, nat>
  {
    match phase
    case CurrentFolders =>
      map f | f in db.folders && ProjectLimit(db, db.folders[f].envId).Some?
        :: ProjectLimit(db, db.folders[f].envId).value
    case VersionedFolders =>
      map f | f in VersionedFolderIds(db) && VersionLimits(db, f) != {} :: MinOf(VersionLimits(db, f))
  }

  /**
   * Phase 2's delete with the smallest limit is the join as written: a row
   * goes exactly when some version of its folder resolves to a limit the
   * row's number exceeds.
   */
  lemma VersionedJoin(db: Db, s: map<Id, Snapshot>, batch: set<Id>, k: Id)
    requires k in s && s[k].folderId in batch
    ensures Excess(s, k, batch, Limits(db, VersionedFolders)) <==>
      exists v | v in db.folderVersions ::
        && db.folderVersions[v].folderId == s[k].folderId
        && ProjectLimit(db, db.folderVersions[v].envId).Some?
        && RowNumber(s, k) > ProjectLimit(db, db.folderVersions[v].envId).value
  {
    var f := s[k].folderId;
    var limits := Limits(db, VersionedFolders);
    if Excess(s, k, batch, limits) {
      var m := MinOf(VersionLimits(db, f));
      var v :| v in db.folderVersions && db.folderVersions[v].folderId == f
               && ProjectLimit(db, db.folderVersions[v].envId).Some?
               && ProjectLimit(db, db.folderVersions[v].envId).value == m;
      assert RowNumber(s, k) > ProjectLimit(db, db.folderVersions[v].envId).value;
    }
    if exists v | v in db.folderVersions ::
        && db.folderVersions[v].folderId == f
        && ProjectLimit(db, db.folderVersions[v].envId).Some?
        && RowNumber(s, k) > ProjectLimit(db, db.folderVersions[v].envId).value
    {
      var v :| v in db.folderVersions
        && db.folderVersions[v].folderId == f
        && ProjectLimit(db, db.folderVersions[v].envId).Some?
        && RowNumber(s, k) > ProjectLimit(db, db.folderVersions[v].envId).value;
      assert ProjectLimit(db, db.folderVersions[v].envId).value in VersionLimits(db, f);
      assert f in VersionedFolderIds(db);
      assert f in limits;
    }
  }

  /** A folder some live folder or folder version still refers to. */
  predicate KnownFolder(db: Db, folderId: Id)
  {
    folderId in db.folders || folderId in VersionedFolderIds(db)
  }

  /** The snapshot table after phase 3's delete of orphaned snapshots. */
  function WithoutOrphans(db: Db): map<Id, Snapshot>
  {
    map k | k in db.snapshots && KnownFolder(db, db.snapshots[k].folderId) :: db.snapshots[k]
  }

  /**
   * The snapshot table after the three phases, when phase 1 pruned the
   * folders `current` and phase 2 the folders `versioned`.
   */
  function PruneRun(db: Db, current: set<Id>, versioned: set<Id>): map<Id, Snapshot>
  {
    var afterCurrent := PruneFolders(db.snapshots, current, Limits(db, CurrentFolders));
    var afterVersioned := PruneFolders(afterCurrent, versioned, Limits(db, VersionedFolders));
    WithoutOrphans(db.(snapshots := afterVersioned))
  }

  /** Candidates and limits are read from the folder, version, environment and project tables only. */
  lemma TablesOnly(db: Db, s: map<Id, Snapshot>, phase: Phase)
    ensures Candidates(db.(snapshots := s), phase) == Candidates(db, phase)
    ensures Limits(db.(snapshots := s), phase) == Limits(db, phase)
  {
    var db' := db.(snapshots := s);
    assert VersionedFolderIds(db') == VersionedFolderIds(db);
    forall f
      ensures VersionLimits(db', f) == VersionLimits(db, f)
    {
    }
  }

  /** With no failed batch a phase prunes every candidate above the nil UUID. */
  lemma EveryCandidateCovered(db: Db, phase: Phase, size: nat)
    requires size > 0
    ensures Covered(Batches(Candidates(db, phase), NilUuid, size), {}) == Above(Candidates(db, phase), NilUuid)
  {
    CoveredAll(Batches(Candidates(db, phase), NilUuid, size));
    BatchesCover(Candidates(db, phase), NilUuid, size);
  }

  /**
   * Phase 1 pages only through live folders that are not reserved, phase 2
   * only through folder ids some folder version records.
   */
  lemma BatchedFolders(db: Db, phase: Phase, size: nat, i: nat, f: Id)
    requires size > 0
    requires i < |Batches(Candidates(db, phase), NilUuid, size)|
    requires f in Batches(Candidates(db, phase), NilUuid, size)[i]
    ensures f != NilUuid
    ensures phase == CurrentFolders ==> f in db.folders && !db.folders[f].isReserved
    ensures phase == VersionedFolders ==> exists v | v in db.folderVersions :: db.folderVersions[v].folderId == f
  {
    BatchAboveCursor(Candidates(db, phase), NilUuid, size, i, f);
  }

  /** The table after phases 1 and 2. */
  function AfterPhases(db: Db, current: set<Id>, versioned: set<Id>): map<Id, Snapshot>
  {
    PruneFolders(PruneFolders(db.snapshots, current, Limits(db, CurrentFolders)), versioned, Limits(db, VersionedFolders))
  }

  /** Phase 3 keeps every snapshot of a known folder that phases 1 and 2 left. */
  lemma RunRows(db: Db, current: set<Id>, versioned: set<Id>, f: Id)
    requires KnownFolder(db, f)
    ensures FolderRows(PruneRun(db, current, versioned), f) == FolderRows(AfterPhases(db, current, versioned), f)
  {
    var sB := AfterPhases(db, current, versioned);
    TablesOnly(db, sB, CurrentFolders);
    TablesOnly(db, sB, VersionedFolders);
    assert KnownFolder(db.(snapshots := sB), f);
  }

  /**
   * A folder pruned in phase 1 ends with its min(N, L) newest snapshots,
   * provided no version of it resolves to a smaller limit in phase 2; the
   * count query then reports min(N, L).
   */
  lemma RunKeepsNewest(db: Db, current: set<Id>, versioned: set<Id>, f: Id)
    requires f in current && f in Limits(db, CurrentFolders)
    requires f in Limits(db, VersionedFolders) ==>
      Limits(db, CurrentFolders)[f] <= Limits(db, VersionedFolders)[f]
    ensures var limit := Limits(db, CurrentFolders)[f];
      var after := db.(snapshots := PruneRun(db, current, versioned));
      && FolderRows(after.snapshots, f) == Kept(db.snapshots, f, limit)
      && CountOfSnapshotsByFolderId(after, f) == Min(CountOfSnapshotsByFolderId(db, f), limit)
  {
    var limitsA := Limits(db, CurrentFolders);
    var limitsB := Limits(db, VersionedFolders);
    var sA := PruneFolders(db.snapshots, current, limitsA);
    var sB := PruneFolders(sA, versioned, limitsB);
    Retention(db.snapshots, current, limitsA, f);
    forall k | k in FolderRows(sA, f)
      ensures k in sB
    {
      if f in versioned && f in limitsB {
        WithinLimit(db.snapshots, current, limitsA, k);
        assert !Excess(sA, k, versioned, limitsB);
      }
    }
    assert FolderRows(sB, f) == FolderRows(sA, f);
    var r := PruneRun(db, current, versioned);
    assert KnownFolder(db.(snapshots := sB), f);
    assert FolderRows(r, f) == FolderRows(sB, f);
  }

  /**
   * A folder pruned by both phases ends with its newest min(N, L1, L2)
   * snapshots, where L1 and L2 are its limits in phases 1 and 2.
   */
  lemma RunKeepsNewestOfBoth(db: Db, current: set<Id>, versioned: set<Id>, f: Id)
    requires f in current && f in Limits(db, CurrentFolders)
    requires f in versioned && f in Limits(db, VersionedFolders)
    ensures var limit := Min(Limits(db, CurrentFolders)[f], Limits(db, VersionedFolders)[f]);
      var after := db.(snapshots := PruneRun(db, current, versioned));
      && FolderRows(after.snapshots, f) == Kept(db.snapshots, f, limit)
      && CountOfSnapshotsByFolderId(after, f) == Min(CountOfSnapshotsByFolderId(db, f), limit)
  {
    var limitsA := Limits(db, CurrentFolders);
    var limitsB := Limits(db, VersionedFolders);
    var limit := Min(limitsA[f], limitsB[f]);
    PruneTwice(db.snapshots, current, limitsA, versioned, limitsB, f);
    KeptCount(db.snapshots, f, limit);
    assert f in VersionedFolderIds(db);
    RunRows(db, current, versioned, f);
  }

  /**
   * A deleted folder that still has versions is pruned by phase 2 alone and
   * ends with its min(N, L) newest snapshots.
   */
  lemma RunKeepsNewestOfDeletedFolder(db: Db, current: set<Id>, versioned: set<Id>, f: Id)
    requires f !in db.folders
    requires f in versioned && f in Limits(db, VersionedFolders)
    ensures var limit := Limits(db, VersionedFolders)[f];
      var after := db.(snapshots := PruneRun(db, current, versioned));
      && FolderRows(after.snapshots, f) == Kept(db.snapshots, f, limit)
      && CountOfSnapshotsByFolderId(after, f) == Min(CountOfSnapshotsByFolderId(db, f), limit)
  {
    PhaseTwoAlone(db, current, versioned, f);
  }

  /**
   * Phase 1 skips reserved folders, but phase 2 does not: a reserved folder
   * with versions ends with its min(N, L) newest snapshots like any other.
   */
  lemma RunPrunesReservedFolder(db: Db, current: set<Id>, versioned: set<Id>, f: Id)
    requires current <= Candidates(db, CurrentFolders)
    requires f in db.folders && db.folders[f].isReserved
    requires f in versioned && f in Limits(db, VersionedFolders)
    ensures var limit := Limits(db, VersionedFolders)[f];
      var after := db.(snapshots := PruneRun(db, current, versioned));
      && FolderRows(after.snapshots, f) == Kept(db.snapshots, f, limit)
      && CountOfSnapshotsByFolderId(after, f) == Min(CountOfSnapshotsByFolderId(db, f), limit)
  {
    assert f !in Candidates(db, CurrentFolders);
    PhaseTwoAlone(db, current, versioned, f);
  }

  /** A folder phase 1 leaves alone and phase 2 prunes keeps its min(N, L) newest snapshots. */
  lemma PhaseTwoAlone(db: Db, current: set<Id>, versioned: set<Id>, f: Id)
    requires f !in current || f !in Limits(db, CurrentFolders)
    requires f in versioned && f in Limits(db, VersionedFolders)
    ensures var limit := Limits(db, VersionedFolders)[f];
      var after := db.(snapshots := PruneRun(db, current, versioned));
      && FolderRows(after.snapshots, f) == Kept(db.snapshots, f, limit)
      && CountOfSnapshotsByFolderId(after, f) == Min(CountOfSnapshotsByFolderId(db, f), limit)
  {
    var limitsA := Limits(db, CurrentFolders);
    var limitsB := Limits(db, VersionedFolders);
    var limit := limitsB[f];
    var sA := PruneFolders(db.snapshots, current, limitsA);
    Untouched(db.snapshots, current, limitsA, f);
    forall k | k in FolderRows(sA, f)
      ensures RowNumber(sA, k) == RowNumber(db.snapshots, k)
    {
      RowNumberLocal(db.snapshots, current, limitsA, k);
    }
    assert Kept(sA, f, limit) == Kept(db.snapshots, f, limit);
    Retention(sA, versioned, limitsB, f);
    KeptCount(db.snapshots, f, limit);
    assert f in VersionedFolderIds(db);
    RunRows(db, current, versioned, f);
  }

  /**
   * Phase 3 leaves no snapshot of an unknown folder, and a known folder
   * outside both phases keeps every snapshot.
   */
  lemma RunFrame(db: Db, current: set<Id>, versioned: set<Id>, f: Id)
    ensures forall k | k in PruneRun(db, current, versioned) ::
      k in db.snapshots && KnownFolder(db, db.snapshots[k].folderId)
    ensures !KnownFolder(db, f) ==> FolderRows(PruneRun(db, current, versioned), f) == {}
    ensures KnownFolder(db, f) && f !in current && f !in versioned ==>
      FolderRows(PruneRun(db, current, versioned), f) == FolderRows(db.snapshots, f)
  {
    var limitsA := Limits(db, CurrentFolders);
    var limitsB := Limits(db, VersionedFolders);
    var sA := PruneFolders(db.snapshots, current, limitsA);
    var sB := PruneFolders(sA, versioned, limitsB);
    TablesOnly(db, sB, CurrentFolders);
    assert forall k | k in PruneRun(db, current, versioned) :: k in sB;
    if KnownFolder(db, f) && f !in current && f !in versioned {
      Untouched(db.snapshots, current, limitsA, f);
      Untouched(sA, versioned, limitsB, f);
      assert KnownFolder(db.(snapshots := sB), f);
    }
  }

  /** No row of a pruned table exceeds the limit of a folder the ranked delete covered. */
  lemma StaysWithin(s: map<Id, Snapshot>, folders: set<Id>, limits: map<Id, nat>,
                    r: map<Id, Snapshot>, k: Id)
    requires forall j | j in r :: j in PruneFolders(s, folders, limits) && r[j] == s[j]
    requires k in r && r[k].folderId in folders && r[k].folderId in limits
    ensures !Excess(r, k, folders, limits)
  {
    var pruned := PruneFolders(s, folders, limits);
    RowNumberShrinks(r, pruned, k);
    WithinLimit(s, folders, limits, k);
  }

  /** Running the job a second time over the same batches deletes nothing more. */
  lemma RunIdempotent(db: Db, current: set<Id>, versioned: set<Id>)
    ensures PruneRun(db.(snapshots := PruneRun(db, current, versioned)), current, versioned)
         == PruneRun(db, current, versioned)
  {
    var limitsA := Limits(db, CurrentFolders);
    var limitsB := Limits(db, VersionedFolders);
    var sA := PruneFolders(db.snapshots, current, limitsA);
    var r := PruneRun(db, current, versioned);
    RunIsKnown(db, current, versioned);
    forall k | k in r && r[k].folderId in current && r[k].folderId in limitsA
      ensures !Excess(r, k, current, limitsA)
    {
      StaysWithin(db.snapshots, current, limitsA, r, k);
    }
    PruneNoop(r, current, limitsA);
    forall k | k in r && r[k].folderId in versioned && r[k].folderId in limitsB
      ensures !Excess(r, k, versioned, limitsB)
    {
      StaysWithin(sA, versioned, limitsB, r, k);
    }
    PruneNoop(r, versioned, limitsB);
    var db' := db.(snapshots := r);
    TablesOnly(db, r, CurrentFolders);
    TablesOnly(db, r, VersionedFolders);
    assert AfterPhases(db', current, versioned) == r;
    OrphansNoop(db, r);
  }

  /** Every snapshot the job leaves was left by phases 1 and 2 and belongs to a known folder. */
  lemma RunIsKnown(db: Db, current: set<Id>, versioned: set<Id>)
    ensures forall k | k in PruneRun(db, current, versioned) ::
      && k in PruneFolders(db.snapshots, current, Limits(db, CurrentFolders))
      && k in AfterPhases(db, current, versioned)
      && PruneRun(db, current, versioned)[k] == db.snapshots[k]
      && KnownFolder(db, db.snapshots[k].folderId)
  {
    var sB := AfterPhases(db, current, versioned);
    TablesOnly(db, sB, CurrentFolders);
  }

  /** Phase 3 deletes nothing from a table whose every snapshot belongs to a known folder. */
  lemma OrphansNoop(db: Db, s: map<Id, Snapshot>)
    requires forall k | k in s :: KnownFolder(db, s[k].folderId)
    ensures WithoutOrphans(db.(snapshots := s)) == s
  {
    TablesOnly(db, s, CurrentFolders);
    assert forall k | k in s :: KnownFolder(db.(snapshots := s), s[k].folderId);
  }

  /**
   * With no failed batch, a live non-reserved folder whose versions allow at
   * least its own limit ends the job with min(N, L) snapshots, its newest.
   */
  lemma PruneKeepsLimit(db: Db, f: Id)
    requires f in db.folders && !db.folders[f].isReserved && f != NilUuid
    requires f in Limits(db, CurrentFolders)
    requires f in Limits(db, VersionedFolders) ==>
      Limits(db, CurrentFolders)[f] <= Limits(db, VersionedFolders)[f]
    ensures var current := Covered(Batches(Candidates(db, CurrentFolders), NilUuid, PruneFolderBatchSize), {});
      var versioned := Covered(Batches(Candidates(db, VersionedFolders), NilUuid, PruneFolderBatchSize), {});
      var after := db.(snapshots := PruneRun(db, current, versioned));
      && FolderRows(after.snapshots, f) == Kept(db.snapshots, f, Limits(db, CurrentFolders)[f])
      && CountOfSnapshotsByFolderId(after, f) == Min(CountOfSnapshotsByFolderId(db, f), Limits(db, CurrentFolders)[f])
  {
    var current := Covered(Batches(Candidates(db, CurrentFolders), NilUuid, PruneFolderBatchSize), {});
    var versioned := Covered(Batches(Candidates(db, VersionedFolders), NilUuid, PruneFolderBatchSize), {});
    EveryCandidateCovered(db, CurrentFolders, PruneFolderBatchSize);
    assert f in current;
    RunKeepsNewest(db, current, versioned, f);
  }

  /**
   * One round of a pruning loop on the table: a batch whose delete succeeds
   * adds a ranked delete over its folders, one whose delete fails adds nothing.
   */
  lemma CoveredRound(start: map<Id, Snapshot>, limits: map<Id, nat>, batches: seq<seq<Id>>, batch: seq<Id>,
                     failing: set<nat>)
    requires Elems(batch) !! Flat(batches)
    ensures |batches| in failing ==>
      PruneFolders(start, Covered(batches + [batch], failing), limits) == PruneFolders(start, Covered(batches, failing), limits)
    ensures |batches| !in failing ==>
      PruneFolders(start, Covered(batches + [batch], failing), limits)
      == PruneFolders(PruneFolders(start, Covered(batches, failing), limits), Elems(batch), limits)
  {
    CoveredStep(batches, batch, failing);
    if |batches| !in failing {
      PruneCompose(start, Covered(batches, failing), Elems(batch), limits);
    }
  }

  /** The data-access layer's handle on the tables. */
  class SnapshotDal {
    var db: Db

    constructor (tables: Db)
      ensures db == tables
    {
      db := tables;
    }

    /**
     * Phases 1 and 2: page through the phase's folder ids with the cursor
     * and run one ranked delete per batch; batch number `i` (from 0) fails
     * when `i` is in `failing`, which is logged and leaves the table as it
     * was. The loop stops at the first empty batch.
     */
    method PruneInBatches(phase: Phase, size: nat, failing: set<nat>) returns (ghost batches: seq<seq<Id>>)
      requires size > 0
      modifies this
      ensures batches == Batches(Candidates(old(db), phase), NilUuid, size)
      ensures db == old(db).(snapshots := PruneFolders(old(db).snapshots, Covered(batches, failing), Limits(old(db), phase)))
    {
      ghost var candidates := Candidates(db, phase);
      ghost var limits := Limits(db, phase);
      ghost var start := db.snapshots;
      var offset := NilUuid;
      var count: nat := 0;
      batches := [];
      assert PruneFolders(start, {}, limits) == start;
      while true
        invariant db == old(db).(snapshots := PruneFolders(start, Covered(batches, failing), limits))
        invariant Candidates(db, phase) == candidates && Limits(db, phase) == limits
        invariant batches + Batches(candidates, offset, size) == Batches(candidates, NilUuid, size)
        invariant count == |batches|
        invariant Flat(batches) == Above(candidates, NilUuid) - Above(candidates, offset)
        decreases |Above(candidates, offset)|
      {
        var batch := Batch(Candidates(db, phase), offset, size);
        if batch == [] {
          CursorDone(candidates, offset, size, batches);
          break;
        }
        CursorStep(candidates, offset, size, batches);
        CursorFlat(candidates, offset, size, batches);
        CoveredRound(start, limits, batches, batch, failing);
        var deleteFailed := count in failing;
        if !deleteFailed {
          db := db.(snapshots := PruneFolders(db.snapshots, Elems(batch), Limits(db, phase)));
          TablesOnly(old(db), db.snapshots, phase);
        }
        offset := Last(batch);
        batches := batches + [batch];
        count := count + 1;
      }
    }

    /** Phase 3: delete every snapshot whose folder no live folder or folder version refers to. */
    method PruneOrphans()
      modifies this
      ensures db == old(db).(snapshots := WithoutOrphans(old(db)))
    {
      db := db.(snapshots := WithoutOrphans(db));
    }

    /**
     * The whole job, with the batches of each phase whose delete fails given
     * by number; the ghost results are the batches each phase walked.
     */
    method PruneExcessSnapshots(failingCurrent: set<nat>, failingVersioned: set<nat>)
      returns (ghost current: seq<seq<Id>>, ghost versioned: seq<seq<Id>>)
      modifies this
      ensures current == Batches(Candidates(old(db), CurrentFolders), NilUuid, PruneFolderBatchSize)
      ensures versioned == Batches(Candidates(old(db), VersionedFolders), NilUuid, PruneFolderBatchSize)
      ensures db == old(db).(snapshots := PruneRun(old(db), Covered(current, failingCurrent), Covered(versioned, failingVersioned)))
    {
      current := PruneInBatches(CurrentFolders, PruneFolderBatchSize, failingCurrent);
      TablesOnly(old(db), db.snapshots, CurrentFolders);
      TablesOnly(old(db), db.snapshots, VersionedFolders);
      versioned := PruneInBatches(VersionedFolders, PruneFolderBatchSize, failingVersioned);
      TablesOnly(old(db), db.snapshots, VersionedFolders);
      ghost var beforeOrphans := db;
      PruneOrphans();
      assert WithoutOrphans(beforeOrphans) == WithoutOrphans(old(db).(snapshots := beforeOrphans.snapshots));
    }
  }
}
