# Secret snapshots: the data-access layer, modelled in Dafny

A secret snapshot captures one folder of a project environment at one moment.
It links to the secret versions that were current in the folder
(`SnapshotSecret`). It also links to the folder versions of the folder's
children (`SnapshotFolder`). The snapshot data-access layer answers four
lookups over these tables:

- a snapshot with its environment;
- how many snapshots a folder has;
- a folder's latest snapshot;
- one snapshot's secret versions, tags and child folders.

It also answers the recursive read behind rollback: from one snapshot, it
descends into the snapshots of the child folders, level by level, and
returns each snapshot reached with its secrets and child folders. Finally it
runs the retention job, which deletes every snapshot beyond a project's
`pitVersionLimit` per folder and then removes orphaned snapshots.

The model has seven modules:

- `Schema` holds the tables. Each table with a primary key is a map from row
  id to row. The two link tables are sequences of rows. UUIDs are the
  unsigned numbers PostgreSQL orders them by, so the nil UUID is 0.
- `Ordered` covers `max(...)`, `ORDER BY id ASC LIMIT n`, and the ascending
  listing the model uses for grouped rows.
- `Lookups` has the four read queries as functions over the tables.
- `Reconstruction` has the recursive query. Depth `d` is a set of snapshot
  ids, and the seed snapshot is at depth 1. A worklist method computes the
  depths until one is empty. The recursive step joins the `latestVersion`
  subquery on `createdAt` alone, so the model does the same. A snapshot of
  a child folder is descended into when its `createdAt` is the latest of
  *any* folder. `StaleSnapshotDescended` shows a stale snapshot reached this
  way. `IntendedStep` is the step the query's comment describes, and
  `IntendedStepIsLatest` relates it to the step as written.
- `Cursor` models the keyset pagination both pruning loops use. Each batch
  holds the next `size` candidate ids above the cursor, and the cursor moves
  to the batch's last id.
- `Ranking` models `ROW_NUMBER() OVER (PARTITION BY folderId ORDER BY
  createdAt DESC)` and the ranked delete it drives.
- `Pruner` has the class `SnapshotDal`, which holds the tables. Its methods
  change them in place: the two cursor loops (one method, given the phase)
  and the orphan delete.

Some points follow the code rather than its comments:

- A pruning loop stops only when a batch comes back empty. A short batch
  does not stop it (`BatchesShape`, `ShortBatchIsLast`).
- In phase 2, a folder with several folder versions is joined once per
  version. A snapshot therefore goes when it exceeds the limit of *any*
  version's project, which is the smallest of those limits
  (`VersionedJoin`).
- Phase 1 skips reserved folders, but phase 2 takes every folder id a
  folder version records and never looks at `isReserved`. A reserved folder
  with versions is therefore pruned like any other
  (`RunPrunesReservedFolder`).
- In `findRecursivelySnapshots`, every child folder of a snapshot carries
  the latest version number of the snapshot's *own* folder. That is the
  folder the `latestFolderVersion` side query is joined on.
- `findSecretSnapshotDataById` does not select the snapshot's own
  `folderId`. The field comes from the secret-version columns, so it is the
  folder of a linked secret version, or absent when there is none.

The database leaves some orders open:

- the order among rows of equal `createdAt` for the row number;
- the row `.first()` returns among ties;
- the order of grouped entries.

Here the model chooses: lower id first, lowest id, and ascending id. The
retention results (a folder keeps min(N, L) rows, and none of them is older
than a deleted row) are proved for this choice of row numbering, not for
every order the database could pick among equal `createdAt`.

Some definitions state the queries themselves. They carry no contract of
their own; they are specified through the members of the table below that
use them:

- `Lookups.TagLinks` and `Lookups.TagViewOf` (backend/src/ee/services/secret-snapshot/snapshot-dal.ts:68-72, backend/src/ee/services/secret-snapshot/snapshot-dal.ts:126-137): the version-tag rows of a secret version, and the tag view built from one row and its tag;
- `Reconstruction.MaxCreatedAts` (backend/src/ee/services/secret-snapshot/snapshot-dal.ts:191): the `max(createdAt)` of every folder, the `latestVersion` subquery;
- `Reconstruction.Children` and `Reconstruction.Step` (backend/src/ee/services/secret-snapshot/snapshot-dal.ts:180-206): the recursive step, child folders of a snapshot and their snapshots joined on `createdAt`;
- `Reconstruction.Level` (backend/src/ee/services/secret-snapshot/snapshot-dal.ts:160-206): the snapshots at depth d;
- `Reconstruction.Listing` (backend/src/ee/services/secret-snapshot/snapshot-dal.ts:208): the snapshots of the first d depths, shallower first, each once;
- `Reconstruction.NodeOf` (backend/src/ee/services/secret-snapshot/snapshot-dal.ts:260-298): the node built for one snapshot;
- `Cursor.Batches` (backend/src/ee/services/secret-snapshot/snapshot-dal.ts:355-399): the sequence of batches a pruning loop walks;
- `Ranking.Excess` (backend/src/ee/services/secret-snapshot/snapshot-dal.ts:384-385): the row number lies above the folder's limit;
- `Pruner.ProjectLimit` (backend/src/ee/services/secret-snapshot/snapshot-dal.ts:382-385): the `pitVersionLimit` a folder's environment resolves to;
- `Pruner.Candidates` (backend/src/ee/services/secret-snapshot/snapshot-dal.ts:356-361): the ids a phase pages over;
- `Pruner.Limits` (backend/src/ee/services/secret-snapshot/snapshot-dal.ts:381-385): the limit of each candidate folder, per phase;
- `Pruner.WithoutOrphans` (backend/src/ee/services/secret-snapshot/snapshot-dal.ts:455-462): the snapshot table without orphans;
- `Pruner.PruneRun` (backend/src/ee/services/secret-snapshot/snapshot-dal.ts:348-466): the three phases over the batches whose deletes succeed.

## Model

All source paths are relative to the repository root.

| member | source | states |
|---|---|---|
| Lookups.FindById | backend/src/ee/services/secret-snapshot/snapshot-dal.ts:22-42 | Nothing exactly when the snapshot or its environment is missing. Otherwise the snapshot's columns are unchanged, and `envId` and `enviroment.id` are both the environment's id, with that environment's project, name and slug. |
| Lookups.CountOfSnapshotsByFolderId | backend/src/ee/services/secret-snapshot/snapshot-dal.ts:44-55 | The count is the number of snapshot rows of the folder. It is 0 exactly when no snapshot has that folder. |
| Lookups.FindLatestSnapshotByFolderId | backend/src/ee/services/secret-snapshot/snapshot-dal.ts:310-328 | Nothing exactly when the folder has no snapshots. Otherwise the result is an existing snapshot of that folder, with its stored columns, and no snapshot of the folder is newer. |
| Lookups.LinkedSecretVersions | backend/src/ee/services/secret-snapshot/snapshot-dal.ts:62-67 | The secret versions of a snapshot are exactly the existing versions a link row connects to it. |
| Lookups.TagsOf | backend/src/ee/services/secret-snapshot/snapshot-dal.ts:126-137 | A secret version's tags are one entry per version-tag row (`tagVersionId`), each row once, by ascending id. Each entry carries that row's tag id, name, slug and colour, or none when the tag is missing. |
| Lookups.SecretVersionsOf | backend/src/ee/services/secret-snapshot/snapshot-dal.ts:121-139 | A snapshot's secret versions are one entry per linked version, each once, by ascending id. Each carries its stored row and all of its tags. |
| Lookups.ChildFolderIds | backend/src/ee/services/secret-snapshot/snapshot-dal.ts:78-83 | A snapshot's child folders are the folders of the existing folder versions it links. |
| Lookups.LinkedVersionsOf | backend/src/ee/services/secret-snapshot/snapshot-dal.ts:78-83 | The linked versions of one child folder are the existing folder versions of that folder that the snapshot links. |
| Lookups.ChildFolderName | backend/src/ee/services/secret-snapshot/snapshot-dal.ts:140-144 | A child folder's name is the name one of its linked versions records. |
| Lookups.ChildFolderLinked | backend/src/ee/services/secret-snapshot/snapshot-dal.ts:78-83 | A folder is a child of the snapshot exactly when the snapshot links a version of it. |
| Lookups.ChildFoldersOf | backend/src/ee/services/secret-snapshot/snapshot-dal.ts:140-144 | A snapshot's folder versions are one entry per child folder (`folderVerId`), each once, by ascending id, named after a linked version. |
| Lookups.DataFolderId | backend/src/ee/services/secret-snapshot/snapshot-dal.ts:104-120 | The `folderId` returned is absent exactly when the snapshot links no secret version. Otherwise it is the folder of one of those versions. |
| Lookups.FindSecretSnapshotDataById | backend/src/ee/services/secret-snapshot/snapshot-dal.ts:57-150 | Nothing exactly when the snapshot or its environment is missing. Otherwise: the snapshot's id and timestamps, the environment and project, the grouped secret versions, and the grouped child folders. |
| Lookups.LatestSnapshotData | backend/src/ee/services/secret-snapshot/snapshot-dal.ts:307-324 | Reading the data of a folder's latest snapshot gives exactly the secret versions linked to it, each once. |
| Lookups.DataFolderOfConsistentSnapshot | backend/src/ee/services/secret-snapshot/snapshot-dal.ts:104-116 | When all linked secret versions lie in the snapshot's folder, `folderId` is that folder exactly when the snapshot has secrets. |
| Reconstruction.LatestCreatedAtIsMax | backend/src/ee/services/secret-snapshot/snapshot-dal.ts:191 | A folder's `max(createdAt)` is the timestamp of one of its snapshots, and no snapshot of the folder is newer. |
| Reconstruction.StepFrom | backend/src/ee/services/secret-snapshot/snapshot-dal.ts:180-205 | Every snapshot at depth d+1 belongs to a child folder of a snapshot at depth d. Its `createdAt` equals some folder's greatest `createdAt`. |
| Reconstruction.LatestChildReached | backend/src/ee/services/secret-snapshot/snapshot-dal.ts:190-205 | The latest snapshot of every child folder of a depth-d snapshot is at depth d+1. |
| Reconstruction.StaleSnapshotDescended | backend/src/ee/services/secret-snapshot/snapshot-dal.ts:190-194 | With the join on `createdAt` alone, two snapshots of one child folder with different timestamps are both at depth 2. |
| Reconstruction.IntendedStepIsLatest | backend/src/ee/services/secret-snapshot/snapshot-dal.ts:152-154 | The step the comment describes takes exactly the snapshots of child folders with no newer snapshot in their folder. Every snapshot it takes, the step as written takes too. |
| Reconstruction.EmptyStaysEmpty | backend/src/ee/services/secret-snapshot/snapshot-dal.ts:180-206 | Once a depth is empty, every later depth is empty: the recursion has ended. |
| Reconstruction.LevelHeight | backend/src/ee/services/secret-snapshot/snapshot-dal.ts:180-206 | With a height that drops along every step, a snapshot at depth d lies at least d-1 below the seed's height. |
| Reconstruction.HeightBound | backend/src/ee/services/secret-snapshot/snapshot-dal.ts:180-206 | With such a height (an acyclic snapshot graph), every depth past the seed's height plus one is empty, so the recursion ends. |
| Reconstruction.NextLevel | backend/src/ee/services/secret-snapshot/snapshot-dal.ts:180-208 | If the loop state describes depth d (the depth, the snapshots before it, and the listing before it), the state after one round describes depth d+1. |
| Reconstruction.Descend | backend/src/ee/services/secret-snapshot/snapshot-dal.ts:180-208 | One round of the worklist loop: from the state of depth d it computes the state of depth d+1. |
| Reconstruction.ListingFacts | backend/src/ee/services/secret-snapshot/snapshot-dal.ts:208-262 | The listing holds every snapshot reached, each once, with shallower depths first (`orderBy depth asc`, grouped by `snapshotId`). |
| Reconstruction.SeedFirst | backend/src/ee/services/secret-snapshot/snapshot-dal.ts:173-179 | The listing starts with the seed (depth 1). It is empty when the seed does not exist. |
| Reconstruction.ListingSettles | backend/src/ee/services/secret-snapshot/snapshot-dal.ts:180-206 | After an empty depth the listing grows no more. |
| Reconstruction.ListingPrefix | backend/src/ee/services/secret-snapshot/snapshot-dal.ts:208 | A listing over fewer depths is a prefix of one over more. |
| Reconstruction.ReachedSnapshots | backend/src/ee/services/secret-snapshot/snapshot-dal.ts:157-209 | The worklist loop returns the listing of every depth up to the first empty one. |
| Reconstruction.LatestSecretVersion | backend/src/ee/services/secret-snapshot/snapshot-dal.ts:226-234 | `latestSecretVersion` is the version of some version of the same secret, and no version of that secret is higher. |
| Reconstruction.LatestFolderVersion | backend/src/ee/services/secret-snapshot/snapshot-dal.ts:235-243 | `latestFolderVersion` is absent exactly when the folder has no versions. Otherwise it is the highest version number of the folder. |
| Reconstruction.NodeColumns | backend/src/ee/services/secret-snapshot/snapshot-dal.ts:263-267 | A node keeps the snapshot's id, folder and parent folder. |
| Reconstruction.NodeSecrets | backend/src/ee/services/secret-snapshot/snapshot-dal.ts:268-289 | A node's secret versions are the snapshot's, in the same order, with their stored rows and tags. Each has as `latestSecretVersion` the highest version of the same secret. |
| Reconstruction.NodeFolders | backend/src/ee/services/secret-snapshot/snapshot-dal.ts:290-298 | A node's folder versions are the snapshot's child folders, in the same order, each with its name. Each carries the latest version number of the snapshot's own folder. |
| Reconstruction.FindRecursivelySnapshots | backend/src/ee/services/secret-snapshot/snapshot-dal.ts:157-305 | The result lists the nodes of exactly the snapshots in the listing, in its order. Each node is that snapshot's node. |
| Cursor.Batch | backend/src/ee/services/secret-snapshot/snapshot-dal.ts:356-361 | A batch holds min(size, remaining) candidate ids, all above the cursor, strictly ascending. |
| Cursor.Advance | backend/src/ee/services/secret-snapshot/snapshot-dal.ts:394 | Moving the cursor to a nonempty batch's last id moves it strictly up. It leaves exactly the candidates above the old cursor that are not in the batch, so fewer remain. |
| Cursor.BatchesUnfold | backend/src/ee/services/secret-snapshot/snapshot-dal.ts:355-399 | The walk is empty exactly when the first batch is. Otherwise the walk is that batch followed by the walk from its last id. |
| Cursor.BatchesCover | backend/src/ee/services/secret-snapshot/snapshot-dal.ts:355-399 | Together the batches hold every candidate above the starting cursor, and nothing else. |
| Cursor.BatchesShape | backend/src/ee/services/secret-snapshot/snapshot-dal.ts:360-397 | Every batch is nonempty and at most `size` long, and every batch but the last is full. |
| Cursor.ShortBatchIsLast | backend/src/ee/services/secret-snapshot/snapshot-dal.ts:365-397 | After a short batch nothing is left above the cursor. The loop's next query comes back empty and only then does the loop stop. |
| Cursor.BatchesAscend | backend/src/ee/services/secret-snapshot/snapshot-dal.ts:357-394 | Every id of a batch is above the cursor and above every id of every earlier batch. |
| Cursor.OneBatchEach | backend/src/ee/services/secret-snapshot/snapshot-dal.ts:355-399 | Every candidate above the starting cursor is in exactly one batch. |
| Cursor.CursorStep | backend/src/ee/services/secret-snapshot/snapshot-dal.ts:365-395 | The batch at the cursor is the next batch of the walk, and the cursor's move shrinks what is left. |
| Cursor.CursorFlat | backend/src/ee/services/secret-snapshot/snapshot-dal.ts:365-395 | The batch at the cursor is disjoint from the batches before it. Afterwards the batches so far hold every candidate up to its last id. |
| Cursor.CursorDone | backend/src/ee/services/secret-snapshot/snapshot-dal.ts:396-397 | An empty batch at the cursor means the walk is complete. |
| Cursor.CoveredStep | backend/src/ee/services/secret-snapshot/snapshot-dal.ts:366-395 | A batch adds its ids to the pruned folders unless its delete fails. |
| Ranking.RowNumber | backend/src/ee/services/secret-snapshot/snapshot-dal.ts:377 | A row number lies between 1 and the number of rows of the folder. |
| Ranking.RowNumberOrder | backend/src/ee/services/secret-snapshot/snapshot-dal.ts:377 | A newer row of the same folder gets a strictly smaller row number, so no two rows share one. |
| Ranking.KeptStep | backend/src/ee/services/secret-snapshot/snapshot-dal.ts:377-385 | For a folder's oldest row: the rows kept within L are those kept without it, plus the row itself exactly when the folder has at most L rows. |
| Ranking.KeptCount | backend/src/ee/services/secret-snapshot/snapshot-dal.ts:377-385 | Exactly min(N, L) rows of a folder with N rows have a number of at most L. |
| Ranking.KeptAreNewest | backend/src/ee/services/secret-snapshot/snapshot-dal.ts:377-385 | A row numbered within the limit is at least as new as any row of its folder numbered beyond it. |
| Ranking.PruneFolders | backend/src/ee/services/secret-snapshot/snapshot-dal.ts:368-386 | A ranked delete only removes rows and changes no row that stays. |
| Ranking.Retention | backend/src/ee/services/secret-snapshot/snapshot-dal.ts:368-386 | A pruned folder keeps exactly the rows numbered 1..L, that is min(N, L) rows. None of them is older than a deleted row. |
| Ranking.Untouched | backend/src/ee/services/secret-snapshot/snapshot-dal.ts:372 | Folders outside the batch, or without a resolved limit, keep every row. |
| Ranking.RowNumberLocal | backend/src/ee/services/secret-snapshot/snapshot-dal.ts:372-377 | Deleting rows of other folders does not renumber a folder. |
| Ranking.RowNumberShrinks | backend/src/ee/services/secret-snapshot/snapshot-dal.ts:377 | A row's number in a table with rows deleted is at most its number in the full table. |
| Ranking.PrunedKeepsNumbers | backend/src/ee/services/secret-snapshot/snapshot-dal.ts:372-385 | A row that survives a ranked delete keeps its row number. |
| Ranking.PruneTwice | backend/src/ee/services/secret-snapshot/snapshot-dal.ts:368-438 | Two ranked deletes over a folder leave exactly its rows numbered within the smaller of the two limits. |
| Ranking.PruneCompose | backend/src/ee/services/secret-snapshot/snapshot-dal.ts:355-399 | Deletes over disjoint batches compose: batch after batch equals one delete over all their folders. |
| Ranking.WithinLimit | backend/src/ee/services/secret-snapshot/snapshot-dal.ts:385 | After a ranked delete no row of a pruned folder is numbered above its limit. |
| Ranking.PruneIdempotent | backend/src/ee/services/secret-snapshot/snapshot-dal.ts:368-386 | Running the same ranked delete again deletes nothing more. |
| Ranking.PruneNoop | backend/src/ee/services/secret-snapshot/snapshot-dal.ts:385 | A delete that finds no row above its limit leaves the table as it was. |
| Pruner.VersionedJoin | backend/src/ee/services/secret-snapshot/snapshot-dal.ts:430-438 | In phase 2, a row goes exactly when some version of its folder resolves to a project limit that the row's number exceeds. |
| Pruner.TablesOnly | backend/src/ee/services/secret-snapshot/snapshot-dal.ts:356-361 | The candidates and limits of a phase do not depend on the snapshot table. |
| Pruner.BatchedFolders | backend/src/ee/services/secret-snapshot/snapshot-dal.ts:356-410 | No batch holds the nil UUID. Phase 1 batches only live, non-reserved folders; phase 2 only folder ids some folder version records. |
| Pruner.CoveredRound | backend/src/ee/services/secret-snapshot/snapshot-dal.ts:366-395 | One more batch leaves the table unchanged when its delete fails, and otherwise adds one ranked delete over its folders. |
| Pruner.EveryCandidateCovered | backend/src/ee/services/secret-snapshot/snapshot-dal.ts:352-399 | With no failed delete, a phase prunes every candidate above the nil UUID. |
| Pruner.RunRows | backend/src/ee/services/secret-snapshot/snapshot-dal.ts:455-462 | Phase 3 keeps every row of a known folder that phases 1 and 2 left. |
| Pruner.RunKeepsNewest | backend/src/ee/services/secret-snapshot/snapshot-dal.ts:352-462 | A folder pruned in phase 1 ends with its newest min(N, L) snapshots, and the count query reports min(N, L). This holds unless a version of the folder resolves to a smaller limit. |
| Pruner.RunKeepsNewestOfBoth | backend/src/ee/services/secret-snapshot/snapshot-dal.ts:352-462 | A folder pruned in both phases ends with its newest min(N, L1, L2) snapshots, and the count query reports that number. |
| Pruner.RunKeepsNewestOfDeletedFolder | backend/src/ee/services/secret-snapshot/snapshot-dal.ts:402-462 | A deleted folder with versions is pruned by phase 2 alone. It ends with its newest min(N, L) snapshots. |
| Pruner.PhaseTwoAlone | backend/src/ee/services/secret-snapshot/snapshot-dal.ts:402-462 | A folder that phase 1 leaves alone and phase 2 prunes ends with its newest min(N, L) snapshots, and the count query reports that number. |
| Pruner.RunPrunesReservedFolder | backend/src/ee/services/secret-snapshot/snapshot-dal.ts:356-438 | A reserved folder with versions, skipped by phase 1, is still pruned by phase 2 to its newest min(N, L) snapshots. |
| Pruner.RunFrame | backend/src/ee/services/secret-snapshot/snapshot-dal.ts:455-462 | After the job every snapshot belongs to a live folder or to a folder some folder version records. A known folder outside both phases keeps all its snapshots. |
| Pruner.RunIdempotent | backend/src/ee/services/secret-snapshot/snapshot-dal.ts:348-466 | Running the job a second time over the same batches deletes nothing more. |
| Pruner.RunIsKnown | backend/src/ee/services/secret-snapshot/snapshot-dal.ts:455-462 | Every snapshot left is unchanged, survived phases 1 and 2, and belongs to a known folder. |
| Pruner.OrphansNoop | backend/src/ee/services/secret-snapshot/snapshot-dal.ts:455-462 | The orphan delete removes nothing when every snapshot belongs to a known folder. |
| Pruner.PruneKeepsLimit | backend/src/ee/services/secret-snapshot/snapshot-dal.ts:352-399 | With no failed delete, a live non-reserved folder ends with its newest min(N, L) snapshots. This holds unless its versions resolve to a smaller limit. |
| Pruner.SnapshotDal.constructor | backend/src/ee/services/secret-snapshot/snapshot-dal.ts:19 | The handle starts on the given tables. |
| Pruner.SnapshotDal.PruneInBatches | backend/src/ee/services/secret-snapshot/snapshot-dal.ts:352-399 | The loop walks exactly the cursor's batches and stops at the first empty one. The table afterwards is one ranked delete over the folders of every batch whose delete did not fail. No other table changes. |
| Pruner.SnapshotDal.PruneOrphans | backend/src/ee/services/secret-snapshot/snapshot-dal.ts:455-462 | Only the snapshots of folders that no live folder or folder version refers to are deleted. |
| Pruner.SnapshotDal.PruneExcessSnapshots | backend/src/ee/services/secret-snapshot/snapshot-dal.ts:348-466 | The job runs phase 1, then phase 2, then phase 3. The table afterwards is the run over the batches whose deletes succeeded. |

## Left out

- The Knex client, the read replica, the optional transaction and the generic CRUD helpers mixed into the layer are not modelled. The queries act directly on the table values.
- Wrapping of database errors is not modelled. A failing query has no counterpart, except a failing ranked delete in a pruning loop: it is caught and logged, and it is modelled by the set of failing batch numbers.
- A failure while fetching a batch, or in the orphan delete, aborts the job in the source. The model does not represent it.
- Logging is not modelled. Neither is concurrency with writers during the job: the model is single-threaded.
- The grouping helper that nests joined rows is not part of this model. Its result is modelled as one entry per key, by ascending id.
- The secret-version schema parser is not part of this model. A secret version keeps its secret, folder, version and key; its value-bearing columns are left out.
- Lookups.FindLatestSnapshotByFolderId: among snapshots with equal latest `createdAt` it returns the lowest id, where the query returns whichever row comes first.
- Ranking.RowNumber: among equal `createdAt` it numbers the lower id first, where the database leaves the order open.
- Lookups.ChildFolderName: when a snapshot links several versions of one folder, it takes the lowest version id, where the grouping keeps whichever row comes first. It returns the empty string for a folder the snapshot does not link, which the query never asks for.
- Pruner.SnapshotDal.PruneOrphans: `NOT IN` over a subquery that yields a NULL `folderId` deletes nothing in SQL. Folder ids here are never NULL, so the model does not represent that case.
- Reconstruction.FindRecursivelySnapshots: it takes a ghost depth at which the recursion is empty. The query itself runs until the recursion ends. `HeightBound` gives such a depth when the snapshot graph is acyclic; on a cyclic graph the query does not end.
- Reconstruction.ReachedSnapshots: same ghost depth as `FindRecursivelySnapshots`.
- The environment join of phases 1 and 2 and the project's other columns are reduced to the one value the delete reads, the `pitVersionLimit`.
