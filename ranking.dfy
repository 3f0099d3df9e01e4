/**
 * The pruner's window ranking and the deletion it drives.
 *
 * `ROW_NUMBER() OVER (PARTITION BY folderId ORDER BY createdAt DESC)` numbers
 * the snapshots of each folder from 1, newest first. The database leaves the
 * order among equal `createdAt` values open; this model numbers the lower id
 * first, and the results below are proved for that order.
 */
module Ranking {
  import opened Schema
  import opened Ordered

  /** Row `j` gets a smaller row number than row `i` (same folder, newer, or equally new and lower id). */
  predicate NumberedBefore(s: map<Id, Snapshot>, j: Id, i: Id)
    requires j in s && i in s
  {
    && s[j].folderId == s[i].folderId
    && (s[j].createdAt > s[i].createdAt || (s[j].createdAt == s[i].createdAt && j < i))
  }

  /** The rows of the same folder numbered before `i`. */
  function Ahead(s: map<Id, Snapshot>, i: Id): set<Id>
    requires i in s
  {
    set j | j in s && NumberedBefore(s, j, i)
  }

  /** The row number the window function gives row `i`. */
  function RowNumber(s: map<Id, Snapshot>, i: Id): (r: nat)
    requires i in s
    ensures 1 <= r <= |FolderRows(s, s[i].folderId)|
  {
    assert Ahead(s, i) <= FolderRows(s, s[i].folderId) - {i};
    SubsetSize(Ahead(s, i), FolderRows(s, s[i].folderId) - {i});
    1 + |Ahead(s, i)|
  }

  /** Row numbers follow the window order strictly: no two rows of a folder share one. */
  lemma RowNumberOrder(s: map<Id, Snapshot>, j: Id, i: Id)
    requires j in s && i in s && NumberedBefore(s, j, i)
    ensures RowNumber(s, j) < RowNumber(s, i)
  {
    assert Ahead(s, j) + {j} <= Ahead(s, i);
    assert j !in Ahead(s, j);
    SubsetSize(Ahead(s, j) + {j}, Ahead(s, i));
  }

  /** The rows of `folderId` whose row number is at most `limit`. */
  function Kept(s: map<Id, Snapshot>, folderId: Id, limit: nat): set<Id>
  {
    set k | k in s && s[k].folderId == folderId && RowNumber(s, k) <= limit
  }

  /** The oldest row of a folder: every other row of the folder is numbered before it. */
  lemma Oldest(s: map<Id, Snapshot>, folderId: Id) returns (last: Id)
    requires FolderRows(s, folderId) != {}
    ensures last in FolderRows(s, folderId)
    ensures forall k | k in FolderRows(s, folderId) && k != last :: NumberedBefore(s, k, last)
  {
    var rows := FolderRows(s, folderId);
    var some :| some in rows;
    var times := set k | k in rows :: s[k].createdAt;
    assert s[some].createdAt in times;
    var oldest := MinOf(times);
    var ties := set k | k in rows && s[k].createdAt == oldest;
    var w :| w in rows && s[w].createdAt == oldest;
    assert w in ties;
    last := MaxOf(ties);
    forall k | k in rows && k != last
      ensures NumberedBefore(s, k, last)
    {
      assert s[k].createdAt in times;
      if s[k].createdAt == oldest {
        assert k in ties;
      }
    }
  }

  /** Removing a row leaves the row numbers of the rows numbered before it as they were. */
  lemma RemoveLast(s: map<Id, Snapshot>, last: Id, k: Id)
    requires last in s && k in s && k != last && NumberedBefore(s, k, last)
    ensures k in s - {last} && RowNumber(s - {last}, k) == RowNumber(s, k)
  {
    var s' := s - {last};
    assert Ahead(s', k) == Ahead(s, k);
  }

  /**
   * Exactly min(N, limit) rows of a folder with N rows have a row number at
   * most `limit`.
   */
  lemma {:induction false} KeptCount(s: map<Id, Snapshot>, folderId: Id, limit: nat)
    ensures |Kept(s, folderId, limit)| == Min(|FolderRows(s, folderId)|, limit)
    decreases |FolderRows(s, folderId)|
  {
    var rows := FolderRows(s, folderId);
    if rows == {} {
      assert Kept(s, folderId, limit) == {};
    } else {
      var last := Oldest(s, folderId);
      var s' := s - {last};
      assert FolderRows(s', folderId) == rows - {last};
      KeptCount(s', folderId, limit);
      KeptStep(s, folderId, limit, last);
    }
  }

  /** Removing a folder's oldest row removes it from the kept rows, and keeps the rest as they were. */
  lemma KeptStep(s: map<Id, Snapshot>, folderId: Id, limit: nat, last: Id)
    requires last in FolderRows(s, folderId)
    requires forall k | k in FolderRows(s, folderId) && k != last :: NumberedBefore(s, k, last)
    ensures |FolderRows(s, folderId)| <= limit ==>
      Kept(s, folderId, limit) == Kept(s - {last}, folderId, limit) + {last}
    ensures |FolderRows(s, folderId)| > limit ==>
      Kept(s, folderId, limit) == Kept(s - {last}, folderId, limit)
  {
    var rows := FolderRows(s, folderId);
    var s' := s - {last};
    assert RowNumber(s, last) == |rows| by {
      assert Ahead(s, last) == rows - {last};
    }
    forall k | k in rows && k != last
      ensures k in s' && RowNumber(s', k) == RowNumber(s, k)
    {
      RemoveLast(s, last, k);
    }
  }

  /** A kept row is at least as new as any row of its folder that is not kept. */
  lemma KeptAreNewest(s: map<Id, Snapshot>, folderId: Id, limit: nat, k: Id, j: Id)
    requires k in Kept(s, folderId, limit)
    requires j in FolderRows(s, folderId) && j !in Kept(s, folderId, limit)
    ensures s[k].createdAt >= s[j].createdAt
  {
    if s[j].createdAt > s[k].createdAt {
      RowNumberOrder(s, j, k);
    }
  }

  /**
   * One ranked delete: a row goes when its folder is among `folders`, the
   * folder has a resolved limit and the row's number exceeds it.
   */
  predicate Excess(s: map<Id, Snapshot>, k: Id, folders: set<Id>, limits: map<Id, nat>)
    requires k in s
  {
    var f := s[k].folderId;
    f in folders && f in limits && RowNumber(s, k) > limits[f]
  }

  /** The snapshot table after one ranked delete over `folders`. */
  function PruneFolders(s: map<Id, Snapshot>, folders: set<Id>, limits: map<Id, nat>): (r: map<Id, Snapshot>)
    ensures forall k | k in r :: k in s && r[k] == s[k]
  {
    map k | k in s && !Excess(s, k, folders, limits) :: s[k]
  }

  /**
   * Top-L retention: a pruned folder keeps min(N, L) rows, namely those
   * numbered 1..L, and none of them is older than a deleted row.
   */
  lemma Retention(s: map<Id, Snapshot>, folders: set<Id>, limits: map<Id, nat>, f: Id)
    requires f in folders && f in limits
    ensures FolderRows(PruneFolders(s, folders, limits), f) == Kept(s, f, limits[f])
    ensures |FolderRows(PruneFolders(s, folders, limits), f)| == Min(|FolderRows(s, f)|, limits[f])
    ensures forall k, j | k in FolderRows(PruneFolders(s, folders, limits), f)
                        && j in FolderRows(s, f) - FolderRows(PruneFolders(s, folders, limits), f)
              :: s[k].createdAt >= s[j].createdAt
  {
    var r := PruneFolders(s, folders, limits);
    assert FolderRows(r, f) == Kept(s, f, limits[f]);
    KeptCount(s, f, limits[f]);
    forall k, j | k in FolderRows(r, f) && j in FolderRows(s, f) - FolderRows(r, f)
      ensures s[k].createdAt >= s[j].createdAt
    {
      KeptAreNewest(s, f, limits[f], k, j);
    }
  }

  /** Folders outside the batch, or without a resolved limit, lose nothing. */
  lemma Untouched(s: map<Id, Snapshot>, folders: set<Id>, limits: map<Id, nat>, f: Id)
    requires f !in folders || f !in limits
    ensures FolderRows(PruneFolders(s, folders, limits), f) == FolderRows(s, f)
  {
  }

  /** Deleting rows of other folders does not renumber a folder. */
  lemma RowNumberLocal(s: map<Id, Snapshot>, folders: set<Id>, limits: map<Id, nat>, k: Id)
    requires k in s && (s[k].folderId !in folders || s[k].folderId !in limits)
    ensures k in PruneFolders(s, folders, limits)
    ensures RowNumber(PruneFolders(s, folders, limits), k) == RowNumber(s, k)
  {
    var r := PruneFolders(s, folders, limits);
    assert Ahead(r, k) == Ahead(s, k);
  }

  /**
   * A row that survives a ranked delete keeps its row number: every row
   * numbered before it survives too.
   */
  lemma PrunedKeepsNumbers(s: map<Id, Snapshot>, folders: set<Id>, limits: map<Id, nat>, k: Id)
    requires k in PruneFolders(s, folders, limits)
    ensures RowNumber(PruneFolders(s, folders, limits), k) == RowNumber(s, k)
  {
    var r := PruneFolders(s, folders, limits);
    forall j | j in Ahead(s, k)
      ensures j in r
    {
      RowNumberOrder(s, j, k);
    }
    assert Ahead(r, k) == Ahead(s, k);
  }

  /** Two ranked deletes over one folder keep its rows numbered within the smaller limit. */
  lemma PruneTwice(s: map<Id, Snapshot>, a: set<Id>, limitsA: map<Id, nat>, b: set<Id>, limitsB: map<Id, nat>, f: Id)
    requires f in a && f in limitsA && f in b && f in limitsB
    ensures FolderRows(PruneFolders(PruneFolders(s, a, limitsA), b, limitsB), f) == Kept(s, f, Min(limitsA[f], limitsB[f]))
  {
    var once := PruneFolders(s, a, limitsA);
    forall k | k in once
      ensures RowNumber(once, k) == RowNumber(s, k)
    {
      PrunedKeepsNumbers(s, a, limitsA, k);
    }
  }

  /** Deleting rows never raises a row number. */
  lemma RowNumberShrinks(small: map<Id, Snapshot>, large: map<Id, Snapshot>, k: Id)
    requires k in small
    requires forall j | j in small :: j in large && small[j] == large[j]
    ensures RowNumber(small, k) <= RowNumber(large, k)
  {
    assert Ahead(small, k) <= Ahead(large, k);
    SubsetSize(Ahead(small, k), Ahead(large, k));
  }

  /**
   * Ranked deletes over disjoint folder sets compose into one: pruning batch
   * after batch is the same as pruning all their folders at once.
   */
  lemma {:induction false} PruneCompose(s: map<Id, Snapshot>, a: set<Id>, b: set<Id>, limits: map<Id, nat>)
    requires a !! b
    ensures PruneFolders(PruneFolders(s, a, limits), b, limits) == PruneFolders(s, a + b, limits)
  {
    var once := PruneFolders(s, a, limits);
    var twice := PruneFolders(once, b, limits);
    var both := PruneFolders(s, a + b, limits);
    forall k | k in s
      ensures k in twice <==> k in both
    {
      var f := s[k].folderId;
      if f !in a {
        RowNumberLocal(s, a, limits, k);
      }
    }
    assert twice.Keys == both.Keys;
  }

  /** After a ranked delete no row of a pruned folder is numbered above its limit. */
  lemma WithinLimit(s: map<Id, Snapshot>, folders: set<Id>, limits: map<Id, nat>, k: Id)
    requires k in PruneFolders(s, folders, limits)
    requires PruneFolders(s, folders, limits)[k].folderId in folders
    requires PruneFolders(s, folders, limits)[k].folderId in limits
    ensures RowNumber(PruneFolders(s, folders, limits), k) <= limits[s[k].folderId]
  {
    RowNumberShrinks(PruneFolders(s, folders, limits), s, k);
  }

  /** Pruning again with the same limits deletes nothing more. */
  lemma PruneIdempotent(s: map<Id, Snapshot>, folders: set<Id>, limits: map<Id, nat>)
    ensures PruneFolders(PruneFolders(s, folders, limits), folders, limits) == PruneFolders(s, folders, limits)
  {
    var once := PruneFolders(s, folders, limits);
    forall k | k in once
      ensures !Excess(once, k, folders, limits)
    {
      if once[k].folderId in folders && once[k].folderId in limits {
        WithinLimit(s, folders, limits, k);
      }
    }
    assert PruneFolders(once, folders, limits).Keys == once.Keys;
  }

  /** A ranked delete that finds no row above its limit leaves the table as it was. */
  lemma PruneNoop(s: map<Id, Snapshot>, folders: set<Id>, limits: map<Id, nat>)
    requires forall k | k in s :: !Excess(s, k, folders, limits)
    ensures PruneFolders(s, folders, limits) == s
  {
  }
}
