/**
 * The tables the snapshot data-access layer reads and writes, as in-memory values.
 *
 * Every table with a primary key is a map from the row id to the row's other
 * columns; the two snapshot link tables are sequences of rows. Row ids are
 * UUIDs. PostgreSQL orders UUIDs as unsigned 128-bit numbers, so an id is
 * modelled by the number it stands for, and the all-zero UUID is 0.
 */
module Schema {

  type Id = nat

  /** The all-zero UUID, the pruner's initial cursor. */
  const NilUuid: Id := 0

  datatype Option<+T> = None | Some(value: T)

  /** A point-in-time capture of one folder. */
  datatype Snapshot = Snapshot(
    folderId: Id,
    envId: Id,
    parentFolderId: Option<Id>,
    createdAt: nat,
    updatedAt: nat)

  /**
   * A live folder. Phase 1 of the retention job skips reserved folders;
   * phase 2 prunes every folder a folder version records, reserved or not.
   */
  datatype Folder = Folder(envId: Id, parentId: Option<Id>, name: string, isReserved: bool)

  /** An immutable record of a folder's name at one version. */
  datatype FolderVersion = FolderVersion(folderId: Id, envId: Id, name: string, version: nat)

  datatype Environment = Environment(projectId: Id, name: string, slug: string)

  /** `pitVersionLimit` bounds the snapshots kept per folder of the project. */
  datatype Project = Project(pitVersionLimit: nat)

  /** An immutable version of a secret in a folder; the value-bearing columns are reduced to the key. */
  datatype SecretVersion = SecretVersion(secretId: Id, folderId: Id, version: nat, key: string)

  /** Attaches a tag to a secret version. */
  datatype SecretVersionTag = SecretVersionTag(secretVersionId: Id, tagId: Id)

  datatype SecretTag = SecretTag(name: string, slug: string, color: string)

  /** Link row: the secret version was current in the snapshot's folder. */
  datatype SnapshotSecret = SnapshotSecret(snapshotId: Id, secretVersionId: Id)

  /** Link row: the folder version was current for a child folder of the snapshot's folder. */
  datatype SnapshotFolder = SnapshotFolder(snapshotId: Id, folderVersionId: Id)

  datatype Db = Db(
    snapshots: map<Id, Snapshot>,
    folders: map<Id, Folder>,
    folderVersions: map<Id, FolderVersion>,
    environments: map<Id, Environment>,
    projects: map<Id, Project>,
    secretVersions: map<Id, SecretVersion>,
    secretVersionTags: map<Id, SecretVersionTag>,
    secretTags: map<Id, SecretTag>,
    snapshotSecrets: seq<SnapshotSecret>,
    snapshotFolders: seq<SnapshotFolder>)

  /** The ids of the snapshot rows of one folder. */
  function FolderRows(snapshots: map<Id, Snapshot>, folderId: Id): (rows: set<Id>)
    ensures forall k :: k in rows <==> k in snapshots && snapshots[k].folderId == folderId
  {
    set k | k in snapshots && snapshots[k].folderId == folderId
  }

  function Min(a: nat, b: nat): nat
  {
    if a < b then a else b
  }
}
