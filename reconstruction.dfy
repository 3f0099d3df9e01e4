/**
 * `findRecursivelySnapshots`, the read behind rollback: starting from one
 * snapshot (depth 1), the recursive query descends level by level into the
 * snapshots of the child folders each level records, and then attaches to
 * every snapshot reached its secret versions (with tags and the secret's
 * latest version number) and its child folders.
 *
 * The recursive step joins the `latestVersion` subquery (each folder's
 * greatest `createdAt`) on `createdAt` alone: a snapshot of a child folder is
 * descended into when its `createdAt` equals the greatest `createdAt` of any
 * folder, not necessarily of its own.
 */
module Reconstruction {
  import opened Schema
  import opened Ordered
  import opened Lookups

  /** The greatest `createdAt` among the snapshots of a folder. */
  function LatestCreatedAt(s: map<Id, Snapshot>, folderId: Id): nat
    requires FolderRows(s, folderId) != {}
  {
    var some :| some in FolderRows(s, folderId);
    var times := set k | k in FolderRows(s, folderId) :: s[k].createdAt;
    assert s[some].createdAt in times;
    MaxOf(times)
  }

  /** The latest timestamp of a folder is that of one of its snapshots, and no snapshot of it is newer. */
  lemma LatestCreatedAtIsMax(s: map<Id, Snapshot>, folderId: Id)
    requires FolderRows(s, folderId) != {}
    ensures exists k | k in FolderRows(s, folderId) :: s[k].createdAt == LatestCreatedAt(s, folderId)
    ensures forall k | k in FolderRows(s, folderId) :: s[k].createdAt <= LatestCreatedAt(s, folderId)
  {
    var times := set k | k in FolderRows(s, folderId) :: s[k].createdAt;
    var some :| some in FolderRows(s, folderId);
    assert s[some].createdAt in times;
    assert forall k | k in FolderRows(s, folderId) :: s[k].createdAt in times;
  }

  /** The `max` column of the `latestVersion` subquery: one value per folder with snapshots. */
  function MaxCreatedAts(db: Db): set<nat>
  {
    set k | k in db.snapshots :: LatestCreatedAt(db.snapshots, db.snapshots[k].folderId)
  }

  /** The child folders the snapshots of one level record. */
  function Children(db: Db, level: set<Id>): set<Id>
  {
    set p, f | p in level && f in ChildFolderIds(db, p) :: f
  }

  /** One round of the recursive query: the snapshots of the next depth. */
  function Step(db: Db, level: set<Id>): set<Id>
  {
    set s | s in db.snapshots
      && db.snapshots[s].folderId in Children(db, level)
      && db.snapshots[s].createdAt in MaxCreatedAts(db)
  }

  /** The snapshots at depth `d`; the starting snapshot is at depth 1. */
  function Level(db: Db, seed: Id, d: nat): (level: set<Id>)
    requires d >= 1
    ensures level <= db.snapshots.Keys
    decreases d
  {
    if d == 1 then (if seed in db.snapshots then {seed} else {})
    else Step(db, Level(db, seed, d - 1))
  }

  /** The snapshots at depths 1 to `n`. */
  function Reached(db: Db, seed: Id, n: nat): (r: set<Id>)
    ensures r <= db.snapshots.Keys
  {
    if n == 0 then {} else Reached(db, seed, n - 1) + Level(db, seed, n)
  }

  /** Once a depth is empty, every later depth is empty too: the recursion has ended. */
  lemma {:induction false} EmptyStaysEmpty(db: Db, seed: Id, d: nat, e: nat)
    requires 1 <= d <= e && Level(db, seed, d) == {}
    ensures Level(db, seed, e) == {}
    decreases e
  {
    if e > d {
      EmptyStaysEmpty(db, seed, d, e - 1);
      assert Children(db, {}) == {};
    }
  }

  lemma {:induction false} ReachedGrows(db: Db, seed: Id, m: nat, n: nat)
    requires m <= n
    ensures Reached(db, seed, m) <= Reached(db, seed, n)
    decreases n
  {
    if m < n {
      ReachedGrows(db, seed, m, n - 1);
    }
  }

  /** After an empty depth nothing more is reached. */
  lemma {:induction false} ReachedSettles(db: Db, seed: Id, d: nat, n: nat)
    requires 1 <= d <= n && Level(db, seed, d) == {}
    ensures Reached(db, seed, n) == Reached(db, seed, d - 1)
    decreases n
  {
    if n > d {
      ReachedSettles(db, seed, d, n - 1);
      EmptyStaysEmpty(db, seed, d, n);
    }
    UnionEmpty(Reached(db, seed, n - 1), Level(db, seed, n));
  }

  lemma UnionEmpty(a: set<Id>, b: set<Id>)
    requires b == {}
    ensures a + b == a
  {
  }

  /** The recursive step descends from snapshot `p` to snapshot `t`. */
  predicate Descends(db: Db, p: Id, t: Id)
    requires t in db.snapshots
  {
    && db.snapshots[t].folderId in ChildFolderIds(db, p)
    && db.snapshots[t].createdAt in MaxCreatedAts(db)
  }

  /**
   * A height that strictly drops along every step of the recursion: then the
   * recursion cannot revisit a snapshot and ends.
   */
  ghost predicate Descending(db: Db, height: map<Id, nat>)
  {
    && db.snapshots.Keys <= height.Keys
    && forall p, t | p in db.snapshots && t in db.snapshots && Descends(db, p, t) :: height[t] < height[p]
  }

  /** A snapshot at a depth past the first is descended into from one at the depth before. */
  lemma StepFrom(db: Db, seed: Id, d: nat, x: Id) returns (p: Id)
    requires d > 1 && x in Level(db, seed, d)
    ensures p in Level(db, seed, d - 1) && x in db.snapshots && Descends(db, p, x)
  {
    var level := Level(db, seed, d - 1);
    assert x in Step(db, level);
    assert db.snapshots[x].folderId in Children(db, level);
    p :| p in level && db.snapshots[x].folderId in ChildFolderIds(db, p);
  }

  lemma {:induction false} LevelHeight(db: Db, seed: Id, height: map<Id, nat>, d: nat, x: Id)
    requires Descending(db, height) && seed in db.snapshots && d >= 1
    requires x in Level(db, seed, d)
    ensures height[x] + d - 1 <= height[seed]
    decreases d
  {
    if d > 1 {
      var p := StepFrom(db, seed, d, x);
      LevelHeight(db, seed, height, d - 1, p);
      assert height[x] < height[p];
    }
  }

  /** With a descending height every depth past `height[seed] + 1` is empty. */
  lemma HeightBound(db: Db, seed: Id, height: map<Id, nat>, n: nat)
    requires Descending(db, height) && seed in db.snapshots && n >= height[seed] + 2
    ensures Level(db, seed, n) == {}
  {
    forall x
      ensures x !in Level(db, seed, n)
    {
      if x in Level(db, seed, n) {
        LevelHeight(db, seed, height, n, x);
      }
    }
  }

  /**
   * Every child folder's latest snapshot (as `findLatestSnapshotByFolderId`
   * finds it) is at the next depth.
   */
  lemma LatestChildReached(db: Db, seed: Id, d: nat, p: Id, f: Id)
    requires d >= 1 && p in Level(db, seed, d) && f in ChildFolderIds(db, p)
    requires FindLatestSnapshotByFolderId(db, f).Some?
    ensures FindLatestSnapshotByFolderId(db, f).value.id in Level(db, seed, d + 1)
  {
    var latest := FindLatestSnapshotByFolderId(db, f).value.id;
    assert latest in FolderRows(db.snapshots, f);
    LatestCreatedAtIsMax(db.snapshots, f);
    assert db.snapshots[latest].createdAt == LatestCreatedAt(db.snapshots, f);
    assert f in Children(db, Level(db, seed, d));
  }

  /**
   * Because the step compares `createdAt` with every folder's latest
   * timestamp, an older snapshot of a child folder is descended into when its
   * `createdAt` happens to be another folder's latest. Here the child folder 2
   * has snapshots 11 (time 1) and 12 (time 2); folder 3's only snapshot 13 is
   * at time 1; so both 11 and 12 are at depth 2.
   */
  lemma StaleSnapshotDescended()
    ensures var db := StaleExample();
      && 11 in Level(db, 10, 2) && 12 in Level(db, 10, 2)
      && db.snapshots[11].folderId == db.snapshots[12].folderId
      && db.snapshots[11].createdAt < db.snapshots[12].createdAt
  {
    var db := StaleExample();
    assert SnapshotFolder(10, 20) == db.snapshotFolders[0];
    assert 2 in ChildFolderIds(db, 10);
    assert 2 in Children(db, {10});
    assert FolderRows(db.snapshots, 2) == {11, 12};
    assert FolderRows(db.snapshots, 3) == {13};
    LatestCreatedAtIsMax(db.snapshots, 3);
    LatestCreatedAtIsMax(db.snapshots, 2);
    assert LatestCreatedAt(db.snapshots, 3) == 1;
    assert LatestCreatedAt(db.snapshots, 2) == 2;
    assert 1 in MaxCreatedAts(db) && 2 in MaxCreatedAts(db);
  }

  /** Folder 1's snapshot 10 records child folder 2 through folder version 20. */
  function StaleExample(): Db
  {
    Db(
      map[10 := Snapshot(1, 100, None, 5, 5),
          11 := Snapshot(2, 100, Some(1), 1, 1),
          12 := Snapshot(2, 100, Some(1), 2, 2),
          13 := Snapshot(3, 100, Some(1), 1, 1)],
      map[], map[20 := FolderVersion(2, 100, "child", 1)], map[], map[], map[], map[], map[],
      [], [SnapshotFolder(10, 20)])
  }

  /** The step as the comment above the query describes it: only each child folder's latest snapshots. */
  function IntendedStep(db: Db, level: set<Id>): set<Id>
  {
    set s | s in db.snapshots
      && db.snapshots[s].folderId in Children(db, level)
      && db.snapshots[s].createdAt == LatestCreatedAt(db.snapshots, db.snapshots[s].folderId)
  }

  /**
   * The intended step reaches exactly the snapshots of child folders that no
   * snapshot of the same folder is newer than, and it is part of the step as
   * written.
   */
  lemma IntendedStepIsLatest(db: Db, level: set<Id>, s: Id)
    ensures s in IntendedStep(db, level) <==>
      && s in db.snapshots
      && db.snapshots[s].folderId in Children(db, level)
      && forall k | k in db.snapshots && db.snapshots[k].folderId == db.snapshots[s].folderId ::
           db.snapshots[k].createdAt <= db.snapshots[s].createdAt
    ensures s in IntendedStep(db, level) ==> s in Step(db, level)
  {
    if s in db.snapshots {
      var f := db.snapshots[s].folderId;
      assert s in FolderRows(db.snapshots, f);
      var t := LatestCreatedAt(db.snapshots, f);
      LatestCreatedAtIsMax(db.snapshots, f);
      if forall k | k in db.snapshots && db.snapshots[k].folderId == f :: db.snapshots[k].createdAt <= db.snapshots[s].createdAt {
        var w :| w in FolderRows(db.snapshots, f) && db.snapshots[w].createdAt == t;
        assert db.snapshots[w].createdAt <= db.snapshots[s].createdAt;
      }
    }
  }

  /** The highest version number among all versions of a secret. */
  function LatestSecretVersion(db: Db, secretVersionId: Id): (n: nat)
    requires secretVersionId in db.secretVersions
    ensures n >= db.secretVersions[secretVersionId].version
    ensures forall x | x in db.secretVersions && db.secretVersions[x].secretId == db.secretVersions[secretVersionId].secretId ::
      db.secretVersions[x].version <= n
    ensures exists x | x in db.secretVersions ::
      db.secretVersions[x].secretId == db.secretVersions[secretVersionId].secretId && db.secretVersions[x].version == n
  {
    var secretId := db.secretVersions[secretVersionId].secretId;
    var versions := set x | x in db.secretVersions && db.secretVersions[x].secretId == secretId :: db.secretVersions[x].version;
    assert db.secretVersions[secretVersionId].version in versions;
    assert forall x | x in db.secretVersions && db.secretVersions[x].secretId == secretId :: db.secretVersions[x].version in versions;
    MaxOf(versions)
  }

  /** The highest version number among the versions of a folder, if it has any. */
  function LatestFolderVersion(db: Db, folderId: Id): (n: Option<nat>)
    ensures n.None? <==> forall v | v in db.folderVersions :: db.folderVersions[v].folderId != folderId
    ensures n.Some? ==>
      && (forall v | v in db.folderVersions && db.folderVersions[v].folderId == folderId :: db.folderVersions[v].version <= n.value)
      && exists v | v in db.folderVersions :: db.folderVersions[v].folderId == folderId && db.folderVersions[v].version == n.value
  {
    var versions := set v | v in db.folderVersions && db.folderVersions[v].folderId == folderId :: db.folderVersions[v].version;
    assert forall v | v in db.folderVersions && db.folderVersions[v].folderId == folderId :: db.folderVersions[v].version in versions;
    if versions == {} then None else Some(MaxOf(versions))
  }

  /** A secret version of a reconstructed snapshot, with the secret's latest version number. */
  datatype LatestSecret = LatestSecret(id: Id, version: SecretVersion, tags: seq<TagView>, latestSecretVersion: nat)

  /**
   * A child folder of a reconstructed snapshot. The `latestFolderVersion` join
   * is on the snapshot's own folder, so every child of one snapshot carries
   * the latest version number of the snapshot's folder.
   */
  datatype ChildFolder = ChildFolder(id: Id, name: string, latestFolderVersion: Option<nat>)

  /** One snapshot of the reconstruction. */
  datatype SnapshotNode = SnapshotNode(
    id: Id,
    folderId: Id,
    parentFolderId: Option<Id>,
    secretVersions: seq<LatestSecret>,
    folderVersion: seq<ChildFolder>)

  function WithLatest(db: Db, vs: seq<SecretVersionView>): (r: seq<LatestSecret>)
    requires forall i | 0 <= i < |vs| :: vs[i].id in db.secretVersions
    ensures |r| == |vs|
    ensures forall i | 0 <= i < |r| ::
      r[i] == LatestSecret(vs[i].id, vs[i].version, vs[i].tags, LatestSecretVersion(db, vs[i].id))
  {
    if vs == [] then []
    else [LatestSecret(vs[0].id, vs[0].version, vs[0].tags, LatestSecretVersion(db, vs[0].id))] + WithLatest(db, vs[1..])
  }

  function WithFolderLatest(fs: seq<FolderVersionRef>, latest: Option<nat>): (r: seq<ChildFolder>)
    ensures |r| == |fs|
    ensures forall i | 0 <= i < |r| :: r[i] == ChildFolder(fs[i].id, fs[i].name, latest)
  {
    if fs == [] then [] else [ChildFolder(fs[0].id, fs[0].name, latest)] + WithFolderLatest(fs[1..], latest)
  }

  /** The node of one reached snapshot: its secret versions and its child folders. */
  function NodeOf(db: Db, s: Id): SnapshotNode
    requires s in db.snapshots
  {
    var snapshot := db.snapshots[s];
    SnapshotNode(s, snapshot.folderId, snapshot.parentFolderId,
      WithLatest(db, SecretVersionsOf(db, s)),
      WithFolderLatest(ChildFoldersOf(db, s), LatestFolderVersion(db, snapshot.folderId)))
  }

  /** A node keeps the snapshot's id, folder and parent folder. */
  lemma NodeColumns(db: Db, s: Id)
    requires s in db.snapshots
    ensures NodeOf(db, s).id == s && NodeOf(db, s).folderId == db.snapshots[s].folderId
    ensures NodeOf(db, s).parentFolderId == db.snapshots[s].parentFolderId
  {
  }

  /**
   * A node lists the secret versions the snapshot links, by ascending id,
   * each with a latest version number that no version of the same secret
   * exceeds.
   */
  lemma NodeSecrets(db: Db, s: Id, i: nat)
    requires s in db.snapshots && i < |NodeOf(db, s).secretVersions|
    ensures |NodeOf(db, s).secretVersions| == |SecretVersionsOf(db, s)|
    ensures var v := NodeOf(db, s).secretVersions[i];
      && v.id == SecretVersionsOf(db, s)[i].id
      && v.id in db.secretVersions && v.version == db.secretVersions[v.id]
      && v.tags == SecretVersionsOf(db, s)[i].tags
      && v.latestSecretVersion == LatestSecretVersion(db, v.id)
      && v.version.version <= v.latestSecretVersion
      && forall x | x in db.secretVersions && db.secretVersions[x].secretId == v.version.secretId ::
           db.secretVersions[x].version <= v.latestSecretVersion
  {
    var vs := SecretVersionsOf(db, s);
    assert NodeOf(db, s).secretVersions == WithLatest(db, vs);
    var v := NodeOf(db, s).secretVersions[i];
    assert v == LatestSecret(vs[i].id, vs[i].version, vs[i].tags, LatestSecretVersion(db, vs[i].id));
  }

  /**
   * A node lists the snapshot's child folders by ascending id, each with the
   * latest version number of the snapshot's own folder.
   */
  lemma NodeFolders(db: Db, s: Id, i: nat)
    requires s in db.snapshots && i < |NodeOf(db, s).folderVersion|
    ensures |NodeOf(db, s).folderVersion| == |ChildFoldersOf(db, s)|
    ensures NodeOf(db, s).folderVersion[i].id == ChildFoldersOf(db, s)[i].id
    ensures NodeOf(db, s).folderVersion[i].name == ChildFoldersOf(db, s)[i].name
    ensures NodeOf(db, s).folderVersion[i].latestFolderVersion == LatestFolderVersion(db, db.snapshots[s].folderId)
  {
    assert NodeOf(db, s).folderVersion
        == WithFolderLatest(ChildFoldersOf(db, s), LatestFolderVersion(db, db.snapshots[s].folderId));
  }

  /** `f` applied to every id, in order. */
  function MapIds<T>(ids: seq<Id>, f: Id --> T): (r: seq<T>)
    requires forall i | 0 <= i < |ids| :: f.requires(ids[i])
    ensures |r| == |ids| && forall i | 0 <= i < |r| :: r[i] == f(ids[i])
  {
    if ids == [] then [] else [f(ids[0])] + MapIds(ids[1..], f)
  }

  /** The nodes of a list of snapshots, in order. */
  function Nodes(db: Db, ids: seq<Id>): (nodes: seq<SnapshotNode>)
    requires forall i | 0 <= i < |ids| :: ids[i] in db.snapshots
    ensures |nodes| == |ids| && forall i | 0 <= i < |nodes| :: nodes[i] == NodeOf(db, ids[i])
  {
    MapIds(ids, (s: Id) requires s in db.snapshots => NodeOf(db, s))
  }

  predicate Distinct(ids: seq<Id>)
  {
    forall i, j | 0 <= i < j < |ids| :: ids[i] != ids[j]
  }

  /** Every id is reached no later than any id after it (the result is ordered by depth). */
  ghost predicate ByDepth(db: Db, seed: Id, ids: seq<Id>)
  {
    forall i, j, e: nat | 0 <= i < j < |ids| && ids[j] in Reached(db, seed, e) :: ids[i] in Reached(db, seed, e)
  }

  /** Appending the new snapshots of depth `d` keeps the listing distinct and ordered by depth. */
  lemma AppendLevel(db: Db, seed: Id, d: nat, order: seq<Id>, newIds: seq<Id>)
    requires d >= 1
    requires forall x :: x in order <==> x in Reached(db, seed, d - 1)
    requires Distinct(order) && ByDepth(db, seed, order)
    requires forall x :: x in newIds <==> x in Level(db, seed, d) - Reached(db, seed, d - 1)
    requires Distinct(newIds)
    ensures forall x :: x in order + newIds <==> x in Reached(db, seed, d)
    ensures Distinct(order + newIds) && ByDepth(db, seed, order + newIds)
  {
    var all := order + newIds;
    forall i, j, e: nat | 0 <= i < j < |all| && all[j] in Reached(db, seed, e)
      ensures all[i] in Reached(db, seed, e)
    {
      if j >= |order| {
        assert all[j] in newIds;
        if e < d {
          ReachedGrows(db, seed, e, d - 1);
        }
        ReachedGrows(db, seed, d, e);
        assert all[i] in order || all[i] in newIds;
      }
    }
    forall i, j | 0 <= i < j < |all|
      ensures all[i] != all[j]
    {
      if i < |order| && j >= |order| {
        assert all[i] in order && all[j] in newIds;
      }
    }
  }

  /** A nonempty depth is not the empty depth `bound`, so the loop has not run past it. */
  lemma NotLast(db: Db, seed: Id, bound: nat, d: nat)
    requires 1 <= d <= bound && Level(db, seed, bound) == {} && Level(db, seed, d) != {}
    ensures d < bound
  {
  }

  /** The loop's state after `d - 1` rounds: depth `d`, the snapshots reached before it, and their listing. */
  ghost predicate Round(db: Db, seed: Id, d: nat, level: set<Id>, seen: set<Id>, order: seq<Id>)
  {
    d >= 1 && level == Level(db, seed, d) && seen == Reached(db, seed, d - 1) && order == Listing(db, seed, d - 1)
  }

  /** One round of the loop: the next depth is the step of this one, and the listing grows by the new snapshots. */
  lemma NextLevel(db: Db, seed: Id, d: nat, level: set<Id>, seen: set<Id>, order: seq<Id>)
    requires Round(db, seed, d, level, seen, order)
    ensures Round(db, seed, d + 1, Step(db, level), seen + level, order + Sorted(level - seen))
  {
    assert Level(db, seed, d + 1) == Step(db, Level(db, seed, d));
    assert Reached(db, seed, d) == Reached(db, seed, d - 1) + Level(db, seed, d);
    assert Listing(db, seed, d) == Listing(db, seed, d - 1) + Sorted(Level(db, seed, d) - Reached(db, seed, d - 1));
  }

  /**
   * The ids the recursion lists after `n` depths: each depth contributes the
   * snapshots it reaches first, by ascending id.
   */
  function Listing(db: Db, seed: Id, n: nat): seq<Id>
  {
    if n == 0 then [] else Listing(db, seed, n - 1) + Sorted(Level(db, seed, n) - Reached(db, seed, n - 1))
  }

  /** The listing holds every snapshot reached, once each, shallower depths first. */
  lemma {:induction false} ListingFacts(db: Db, seed: Id, n: nat)
    ensures forall x :: x in Listing(db, seed, n) <==> x in Reached(db, seed, n)
    ensures Distinct(Listing(db, seed, n)) && ByDepth(db, seed, Listing(db, seed, n))
  {
    if n > 0 {
      ListingFacts(db, seed, n - 1);
      AppendLevel(db, seed, n, Listing(db, seed, n - 1), Sorted(Level(db, seed, n) - Reached(db, seed, n - 1)));
    }
  }

  /** After an empty depth the listing grows no more. */
  lemma {:induction false} ListingSettles(db: Db, seed: Id, d: nat, n: nat)
    requires 1 <= d <= n && Level(db, seed, d) == {}
    ensures Listing(db, seed, n) == Listing(db, seed, d - 1)
    decreases n
  {
    if n > d {
      ListingSettles(db, seed, d, n - 1);
    }
    EmptyStaysEmpty(db, seed, d, n);
    assert Sorted(Level(db, seed, n) - Reached(db, seed, n - 1)) == [];
  }

  /** A listing over fewer depths is a prefix of one over more. */
  lemma {:induction false} ListingPrefix(db: Db, seed: Id, m: nat, n: nat)
    requires m <= n
    ensures Listing(db, seed, m) <= Listing(db, seed, n)
    decreases n
  {
    if m < n {
      ListingPrefix(db, seed, m, n - 1);
    }
  }

  /** The full listing starts with the seed, and is empty when the seed does not exist. */
  lemma SeedFirst(db: Db, seed: Id, n: nat)
    requires n >= 1
    ensures seed in db.snapshots ==> Listing(db, seed, n) != [] && Listing(db, seed, n)[0] == seed
    ensures seed !in db.snapshots ==> Listing(db, seed, n) == []
  {
    var order := Listing(db, seed, n);
    if seed in db.snapshots {
      ListingPrefix(db, seed, 1, n);
      var one := Sorted(Level(db, seed, 1) - Reached(db, seed, 0));
      assert Level(db, seed, 1) - Reached(db, seed, 0) == {seed};
      assert one == [seed] by {
        assert |one| == 1 && seed in one;
      }
      assert Listing(db, seed, 1) == [] + one;
    } else {
      ListingFacts(db, seed, n);
      ReachedSettles(db, seed, 1, n);
      assert Reached(db, seed, n) == Reached(db, seed, 0) == {};
      assert Elems(order) == {};
      ElemsOfNonEmpty(order);
    }
  }

  /** One round of the recursion: list the snapshots first reached at this depth, then step to the next. */
  method Descend(db: Db, seed: Id, ghost d: nat, level: set<Id>, seen: set<Id>, order: seq<Id>)
    returns (level': set<Id>, seen': set<Id>, order': seq<Id>)
    requires Round(db, seed, d, level, seen, order)
    ensures Round(db, seed, d + 1, level', seen', order')
  {
    NextLevel(db, seed, d, level, seen, order);
    order' := order + Sorted(level - seen);
    seen' := seen + level;
    level' := Step(db, level);
  }

  /**
   * The recursive part of the read: each depth is the step applied to the
   * previous one until a depth comes back empty, and each round lists the
   * snapshots first reached at that depth. The ghost `bound` is a depth the
   * recursion does not reach (see `HeightBound`); without one the query does
   * not end.
   */
  method ReachedSnapshots(db: Db, seed: Id, ghost bound: nat) returns (order: seq<Id>)
    requires bound >= 1 && Level(db, seed, bound) == {}
    ensures order == Listing(db, seed, bound)
  {
    var level: set<Id> := if seed in db.snapshots then {seed} else {};
    ghost var d: nat := 1;
    var seen: set<Id> := {};
    order := [];
    assert Round(db, seed, d, level, seen, order);
    while level != {}
      invariant 1 <= d <= bound
      invariant Round(db, seed, d, level, seen, order)
      decreases bound - d
    {
      NotLast(db, seed, bound, d);
      level, seen, order := Descend(db, seed, d, level, seen, order);
      d := d + 1;
    }
    ListingSettles(db, seed, d, bound);
  }

  /**
   * `findRecursivelySnapshots`: the snapshots of the listing, each with its
   * node attached. By `ListingFacts` and `SeedFirst` these are every snapshot
   * the recursion reaches, once, at the first depth it is reached, shallower
   * depths first (within one depth by ascending id), starting with the seed.
   */
  method FindRecursivelySnapshots(db: Db, seed: Id, ghost bound: nat) returns (nodes: seq<SnapshotNode>)
    requires bound >= 1 && Level(db, seed, bound) == {}
    ensures |nodes| == |Listing(db, seed, bound)|
    ensures forall i | 0 <= i < |nodes| :: nodes[i].id == Listing(db, seed, bound)[i]
    ensures forall i | 0 <= i < |nodes| :: nodes[i].id in db.snapshots && nodes[i] == NodeOf(db, nodes[i].id)
  {
    var order := ReachedSnapshots(db, seed, bound);
    ListedAreSnapshots(db, seed, bound);
    nodes := Nodes(db, order);
    NodesOfIds(db, order);
  }

  /** Every listed id is a snapshot. */
  lemma ListedAreSnapshots(db: Db, seed: Id, n: nat)
    ensures forall i | 0 <= i < |Listing(db, seed, n)| :: Listing(db, seed, n)[i] in db.snapshots
  {
    var order := Listing(db, seed, n);
    forall i | 0 <= i < |order|
      ensures order[i] in db.snapshots
    {
      ListingFacts(db, seed, n);
      assert order[i] in order;
    }
  }

  /** The nodes built for a list of snapshot ids carry those ids, in order. */
  lemma NodesOfIds(db: Db, ids: seq<Id>)
    requires forall i | 0 <= i < |ids| :: ids[i] in db.snapshots
    ensures |Nodes(db, ids)| == |ids| && forall i | 0 <= i < |ids| :: Nodes(db, ids)[i].id == ids[i]
    ensures forall i | 0 <= i < |Nodes(db, ids)| ::
      Nodes(db, ids)[i].id in db.snapshots && Nodes(db, ids)[i] == NodeOf(db, Nodes(db, ids)[i].id)
  {
    var nodes := Nodes(db, ids);
    forall i | 0 <= i < |nodes|
      ensures nodes[i].id == ids[i]
    {
      assert nodes[i] == NodeOf(db, ids[i]);
    }
  }
}
