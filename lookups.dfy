/**
 * The read-only lookups of the snapshot data-access layer
 * (`findById`, `countOfSnapshotsByFolderId`, `findLatestSnapshotByFolderId`,
 * `findSecretSnapshotDataById`) as functions over the tables.
 *
 * Joined rows are grouped by key into one entry per key; the order in which
 * the database returns the groups is not specified, and this model lists
 * them by ascending id.
 */
module Lookups {
  import opened Schema
  import opened Ordered

  datatype EnvironmentRef = EnvironmentRef(id: Id, name: string, slug: string)

  /**
   * A snapshot row joined with its environment, as `findById` returns it.
   * `enviroment` keeps the field name the data-access layer returns.
   */
  datatype SnapshotWithEnvironment = SnapshotWithEnvironment(
    id: Id,
    columns: Snapshot,
    envId: Id,
    projectId: Id,
    envName: string,
    envSlug: string,
    enviroment: EnvironmentRef)

  /** A snapshot row with its id, as the Snapshot table stores it. */
  datatype SnapshotRow = SnapshotRow(id: Id, snapshot: Snapshot)

  datatype TagRef = TagRef(id: Id, name: string, slug: string, color: string)

  /** One version-tag link of a secret version; `tag` is absent when the tag row is missing. */
  datatype TagView = TagView(vId: Id, tag: Option<TagRef>)

  datatype SecretVersionView = SecretVersionView(id: Id, version: SecretVersion, tags: seq<TagView>)

  /** A child folder of a snapshot: the id of the folder and the name its linked version records. */
  datatype FolderVersionRef = FolderVersionRef(id: Id, name: string)

  /**
   * The data of one snapshot. The query does not select the snapshot's own
   * `folderId`: the field comes from the secret-version columns, so it is the
   * folder of a linked secret version, and absent when there is none.
   */
  datatype SnapshotData = SnapshotData(
    id: Id,
    folderId: Option<Id>,
    projectId: Id,
    createdAt: nat,
    updatedAt: nat,
    environment: EnvironmentRef,
    secretVersions: seq<SecretVersionView>,
    folderVersion: seq<FolderVersionRef>)

  /** `findById`: the snapshot joined with its environment; nothing for an unknown id. */
  function FindById(db: Db, id: Id): (r: Option<SnapshotWithEnvironment>)
    ensures r.None? <==> id !in db.snapshots || db.snapshots[id].envId !in db.environments
    ensures r.Some? ==>
      && r.value.id == id
      && r.value.columns == db.snapshots[id]
      && r.value.envId == r.value.enviroment.id == db.snapshots[id].envId
      && r.value.projectId == db.environments[r.value.envId].projectId
      && r.value.envName == r.value.enviroment.name == db.environments[r.value.envId].name
      && r.value.envSlug == r.value.enviroment.slug == db.environments[r.value.envId].slug
  {
    if id in db.snapshots && db.snapshots[id].envId in db.environments then
      var snapshot := db.snapshots[id];
      var env := db.environments[snapshot.envId];
      Some(SnapshotWithEnvironment(
        id, snapshot, snapshot.envId, env.projectId, env.name, env.slug,
        EnvironmentRef(snapshot.envId, env.name, env.slug)))
    else
      None
  }

  /**
   * `countOfSnapshotsByFolderId`: the grouped count query returns no row for
   * a folder without snapshots, which the caller reads as 0.
   */
  function CountOfSnapshotsByFolderId(db: Db, folderId: Id): (n: nat)
    ensures n == |FolderRows(db.snapshots, folderId)|
    ensures n == 0 <==> forall k | k in db.snapshots :: db.snapshots[k].folderId != folderId
  {
    var rows := FolderRows(db.snapshots, folderId);
    if rows == {} then 0 else |rows|
  }

  /**
   * `findLatestSnapshotByFolderId`: a snapshot of the folder whose `createdAt`
   * equals the folder's greatest. Among equal timestamps the query returns
   * whichever row comes first; this model takes the lowest id.
   */
  function FindLatestSnapshotByFolderId(db: Db, folderId: Id): (r: Option<SnapshotRow>)
    ensures r.None? <==> FolderRows(db.snapshots, folderId) == {}
    ensures r.Some? ==>
      && r.value.id in db.snapshots
      && db.snapshots[r.value.id] == r.value.snapshot
      && r.value.snapshot.folderId == folderId
      && forall k | k in FolderRows(db.snapshots, folderId) :: db.snapshots[k].createdAt <= r.value.snapshot.createdAt
  {
    var rows := FolderRows(db.snapshots, folderId);
    if rows == {} then None
    else
      var some :| some in rows;
      var times := set k | k in rows :: db.snapshots[k].createdAt;
      assert db.snapshots[some].createdAt in times;
      assert forall k | k in rows :: db.snapshots[k].createdAt in times;
      var newest := MaxOf(times);
      var w :| w in rows && db.snapshots[w].createdAt == newest;
      var ties := set k | k in rows && db.snapshots[k].createdAt == newest;
      assert w in ties;
      var id := MinOf(ties);
      Some(SnapshotRow(id, db.snapshots[id]))
  }

  /** The ids of the existing secret versions a snapshot links to. */
  function LinkedSecretVersions(db: Db, snapshotId: Id): (ids: set<Id>)
    ensures ids <= db.secretVersions.Keys
    ensures forall x :: x in ids <==>
      x in db.secretVersions && SnapshotSecret(snapshotId, x) in db.snapshotSecrets
  {
    set l | l in db.snapshotSecrets && l.snapshotId == snapshotId && l.secretVersionId in db.secretVersions
      :: l.secretVersionId
  }

  /** The version-tag rows of a secret version. */
  function TagLinks(db: Db, secretVersionId: Id): set<Id>
  {
    set t | t in db.secretVersionTags && db.secretVersionTags[t].secretVersionId == secretVersionId
  }

  function TagViewOf(db: Db, tagVersionId: Id): TagView
    requires tagVersionId in db.secretVersionTags
  {
    var tagId := db.secretVersionTags[tagVersionId].tagId;
    if tagId in db.secretTags then
      var tag := db.secretTags[tagId];
      TagView(tagVersionId, Some(TagRef(tagId, tag.name, tag.slug, tag.color)))
    else
      TagView(tagVersionId, None)
  }

  /**
   * The tags of a secret version, one per version-tag row, by ascending id,
   * each with its tag's id, name, slug and colour, or none when the tag row
   * is missing.
   */
  function TagsOf(db: Db, secretVersionId: Id): (tags: seq<TagView>)
    ensures |tags| == |Sorted(TagLinks(db, secretVersionId))| && forall i | 0 <= i < |tags| ::
      tags[i] == TagViewOf(db, Sorted(TagLinks(db, secretVersionId))[i])
  {
    TagViews(db, Sorted(TagLinks(db, secretVersionId)))
  }

  function TagViews(db: Db, ids: seq<Id>): (tags: seq<TagView>)
    requires forall i | 0 <= i < |ids| :: ids[i] in db.secretVersionTags
    ensures |tags| == |ids| && forall i | 0 <= i < |tags| :: tags[i] == TagViewOf(db, ids[i])
  {
    if ids == [] then [] else [TagViewOf(db, ids[0])] + TagViews(db, ids[1..])
  }

  /** The ids of a list of secret versions. */
  function VersionIds(vs: seq<SecretVersionView>): (ids: seq<Id>)
    ensures |ids| == |vs| && forall i | 0 <= i < |ids| :: ids[i] == vs[i].id
  {
    if vs == [] then [] else [vs[0].id] + VersionIds(vs[1..])
  }

  /** The secret versions of a snapshot, one entry per secret version, each with all its tags. */
  function SecretVersionsOf(db: Db, snapshotId: Id): (vs: seq<SecretVersionView>)
    ensures VersionIds(vs) == Sorted(LinkedSecretVersions(db, snapshotId))
    ensures forall i | 0 <= i < |vs| ::
      && vs[i].id in db.secretVersions
      && vs[i].version == db.secretVersions[vs[i].id]
      && vs[i].tags == TagsOf(db, vs[i].id)
  {
    var ids := Sorted(LinkedSecretVersions(db, snapshotId));
    var vs := VersionViews(db, ids);
    assert VersionIds(vs) == ids;
    vs
  }

  function VersionViews(db: Db, ids: seq<Id>): (vs: seq<SecretVersionView>)
    requires forall i | 0 <= i < |ids| :: ids[i] in db.secretVersions
    ensures |vs| == |ids| && forall i | 0 <= i < |vs| ::
      vs[i] == SecretVersionView(ids[i], db.secretVersions[ids[i]], TagsOf(db, ids[i]))
  {
    if ids == [] then []
    else [SecretVersionView(ids[0], db.secretVersions[ids[0]], TagsOf(db, ids[0]))] + VersionViews(db, ids[1..])
  }

  /** The folders a snapshot records as its children, through existing folder versions. */
  function ChildFolderIds(db: Db, snapshotId: Id): (ids: set<Id>)
    ensures forall f :: f in ids <==> exists l | l in db.snapshotFolders ::
      l.snapshotId == snapshotId && l.folderVersionId in db.folderVersions
      && db.folderVersions[l.folderVersionId].folderId == f
  {
    set l | l in db.snapshotFolders && l.snapshotId == snapshotId && l.folderVersionId in db.folderVersions
      :: db.folderVersions[l.folderVersionId].folderId
  }

  /** The linked versions of one child folder. */
  function LinkedVersionsOf(db: Db, snapshotId: Id, folderId: Id): (vs: set<Id>)
    ensures forall v :: v in vs <==>
      v in db.folderVersions && SnapshotFolder(snapshotId, v) in db.snapshotFolders
      && db.folderVersions[v].folderId == folderId
  {
    set l | l in db.snapshotFolders && l.snapshotId == snapshotId && l.folderVersionId in db.folderVersions
      && db.folderVersions[l.folderVersionId].folderId == folderId :: l.folderVersionId
  }

  /**
   * The name recorded for a child folder. When a snapshot links several
   * versions of one folder, the group keeps one of them; this model takes the
   * version with the lowest id. A folder the snapshot does not record has no
   * name (the empty string).
   */
  function ChildFolderName(db: Db, snapshotId: Id, folderId: Id): (name: string)
    ensures LinkedVersionsOf(db, snapshotId, folderId) != {} ==>
      exists v | v in LinkedVersionsOf(db, snapshotId, folderId) :: db.folderVersions[v].name == name
    ensures LinkedVersionsOf(db, snapshotId, folderId) == {} ==> name == ""
  {
    var linked := LinkedVersionsOf(db, snapshotId, folderId);
    if linked == {} then "" else db.folderVersions[MinOf(linked)].name
  }

  /** A folder is a child of a snapshot exactly when the snapshot links a version of it. */
  lemma ChildFolderLinked(db: Db, snapshotId: Id, folderId: Id)
    ensures folderId in ChildFolderIds(db, snapshotId) <==> LinkedVersionsOf(db, snapshotId, folderId) != {}
  {
    if folderId in ChildFolderIds(db, snapshotId) {
      var l :| l in db.snapshotFolders && l.snapshotId == snapshotId && l.folderVersionId in db.folderVersions
        && db.folderVersions[l.folderVersionId].folderId == folderId;
      assert l == SnapshotFolder(snapshotId, l.folderVersionId);
      assert l.folderVersionId in LinkedVersionsOf(db, snapshotId, folderId);
    }
  }

  /** The child folders of a snapshot, one entry per folder. */
  function ChildFoldersOf(db: Db, snapshotId: Id): (fs: seq<FolderVersionRef>)
    ensures |fs| == |Sorted(ChildFolderIds(db, snapshotId))|
    ensures forall i | 0 <= i < |fs| :: fs[i].id == Sorted(ChildFolderIds(db, snapshotId))[i]
    ensures forall i | 0 <= i < |fs| :: fs[i].name == ChildFolderName(db, snapshotId, fs[i].id)
  {
    FolderRefs(db, snapshotId, Sorted(ChildFolderIds(db, snapshotId)))
  }

  function FolderRefs(db: Db, snapshotId: Id, ids: seq<Id>): (fs: seq<FolderVersionRef>)
    ensures |fs| == |ids| && forall i | 0 <= i < |fs| ::
      fs[i] == FolderVersionRef(ids[i], ChildFolderName(db, snapshotId, ids[i]))
  {
    if ids == [] then []
    else [FolderVersionRef(ids[0], ChildFolderName(db, snapshotId, ids[0]))] + FolderRefs(db, snapshotId, ids[1..])
  }

  /**
   * The `folderId` the grouped rows carry: that of the secret version on the
   * group's first row (this model takes the lowest id), or none.
   */
  function DataFolderId(db: Db, snapshotId: Id): (f: Option<Id>)
    ensures f.None? <==> LinkedSecretVersions(db, snapshotId) == {}
    ensures f.Some? ==> exists x | x in LinkedSecretVersions(db, snapshotId) :: db.secretVersions[x].folderId == f.value
  {
    var linked := LinkedSecretVersions(db, snapshotId);
    if linked == {} then None else Some(db.secretVersions[MinOf(linked)].folderId)
  }

  /**
   * `findSecretSnapshotDataById`: one snapshot with its environment, its
   * secret versions (each with its tags) and its child folders; nothing when
   * the snapshot or its environment is missing.
   */
  function FindSecretSnapshotDataById(db: Db, snapshotId: Id): (r: Option<SnapshotData>)
    ensures r.None? <==> snapshotId !in db.snapshots || db.snapshots[snapshotId].envId !in db.environments
    ensures r.Some? ==>
      var s := db.snapshots[snapshotId];
      var env := db.environments[s.envId];
      && r.value.id == snapshotId
      && r.value.folderId == DataFolderId(db, snapshotId)
      && r.value.createdAt == s.createdAt
      && r.value.updatedAt == s.updatedAt
      && r.value.projectId == env.projectId
      && r.value.environment == EnvironmentRef(s.envId, env.name, env.slug)
      && r.value.secretVersions == SecretVersionsOf(db, snapshotId)
      && r.value.folderVersion == ChildFoldersOf(db, snapshotId)
  {
    if snapshotId in db.snapshots && db.snapshots[snapshotId].envId in db.environments then
      var s := db.snapshots[snapshotId];
      var env := db.environments[s.envId];
      Some(SnapshotData(
        snapshotId, DataFolderId(db, snapshotId), env.projectId, s.createdAt, s.updatedAt,
        EnvironmentRef(s.envId, env.name, env.slug),
        SecretVersionsOf(db, snapshotId), ChildFoldersOf(db, snapshotId)))
    else
      None
  }

  /**
   * Reading the data of a folder's latest snapshot gives back exactly the
   * secret versions linked to that snapshot, each once, however many tags
   * each carries.
   */
  lemma LatestSnapshotData(db: Db, folderId: Id)
    requires FindLatestSnapshotByFolderId(db, folderId).Some?
    requires FindLatestSnapshotByFolderId(db, folderId).value.snapshot.envId in db.environments
    ensures var latest := FindLatestSnapshotByFolderId(db, folderId).value;
      var data := FindSecretSnapshotDataById(db, latest.id);
      && data.Some?
      && (forall x :: x in VersionIds(data.value.secretVersions)
                      <==> x in db.secretVersions && SnapshotSecret(latest.id, x) in db.snapshotSecrets)
      && (forall i, j | 0 <= i < j < |data.value.secretVersions| ::
            data.value.secretVersions[i].id != data.value.secretVersions[j].id)
  {
  }

  /**
   * When every secret version a snapshot links lies in the snapshot's folder,
   * the `folderId` returned is that folder exactly when the snapshot has
   * secrets.
   */
  lemma DataFolderOfConsistentSnapshot(db: Db, snapshotId: Id)
    requires snapshotId in db.snapshots && db.snapshots[snapshotId].envId in db.environments
    requires forall x | x in LinkedSecretVersions(db, snapshotId) ::
      db.secretVersions[x].folderId == db.snapshots[snapshotId].folderId
    ensures var data := FindSecretSnapshotDataById(db, snapshotId).value;
      && (LinkedSecretVersions(db, snapshotId) != {} ==> data.folderId == Some(db.snapshots[snapshotId].folderId))
      && (LinkedSecretVersions(db, snapshotId) == {} ==> data.folderId == None)
  {
  }
}
