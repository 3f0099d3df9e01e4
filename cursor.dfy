/**
 * Keyset pagination with an exclusive lower-bound cursor, as both pruning
 * loops use it: each batch is the first `size` candidate ids above the
 * cursor in ascending order, and the cursor then moves to the batch's last id.
 */
module Cursor {
  import opened Schema
  import opened Ordered

  /** The candidates strictly above the cursor (`where id > uuidOffset`). */
  function Above(candidates: set<Id>, offset: Id): (r: set<Id>)
    ensures forall x :: x in r <==> x in candidates && x > offset
  {
    set x | x in candidates && x > offset
  }

  /** The batch the query returns for a cursor. */
  function Batch(candidates: set<Id>, offset: Id, size: nat): (b: seq<Id>)
    ensures |b| == Min(size, |Above(candidates, offset)|)
    ensures forall i | 0 <= i < |b| :: b[i] in candidates && b[i] > offset
    ensures forall i, j | 0 <= i < j < |b| :: b[i] < b[j]
  {
    Ascending(Above(candidates, offset), size)
  }

  function Last(b: seq<Id>): Id
    requires b != []
  {
    b[|b| - 1]
  }

  /**
   * Moving the cursor to the end of a nonempty batch leaves exactly the
   * candidates that were above the cursor and not in the batch.
   */
  lemma {:induction false} Advance(candidates: set<Id>, offset: Id, size: nat)
    requires Batch(candidates, offset, size) != []
    ensures Last(Batch(candidates, offset, size)) > offset
    ensures Above(candidates, Last(Batch(candidates, offset, size)))
         == Above(candidates, offset) - Elems(Batch(candidates, offset, size))
    ensures |Above(candidates, Last(Batch(candidates, offset, size)))| < |Above(candidates, offset)|
  {
    var b := Batch(candidates, offset, size);
    var above := Above(candidates, offset);
    var next := Above(candidates, Last(b));
    assert Last(b) > offset by {
      assert b[|b| - 1] in b;
    }
    forall x | x in above - Elems(b)
      ensures x in next
    {
      if x <= Last(b) {
        AscendingIsPrefix(above, size, x);
      }
    }
    forall x | x in next
      ensures x in above - Elems(b)
    {
      if x in b {
        UpToLast(b, x);
      }
    }
    assert next == above - Elems(b);
    assert b[0] in above - next by {
      assert b[0] in b;
    }
    SubsetSize(next, above - {b[0]});
  }

  /** A nonempty batch is the first of the walk, which goes on from its last id. */
  lemma BatchesUnfold(candidates: set<Id>, offset: Id, size: nat)
    requires size > 0
    ensures Batches(candidates, offset, size) != [] <==> Batch(candidates, offset, size) != []
    ensures Batch(candidates, offset, size) != [] ==>
      && Last(Batch(candidates, offset, size)) > offset
      && Batches(candidates, offset, size)
         == [Batch(candidates, offset, size)] + Batches(candidates, Last(Batch(candidates, offset, size)), size)
  {
    if Batch(candidates, offset, size) != [] {
      Advance(candidates, offset, size);
    }
  }

  /** The batches the loop processes, in order, starting from a cursor. */
  function Batches(candidates: set<Id>, offset: Id, size: nat): seq<seq<Id>>
    requires size > 0
    decreases |Above(candidates, offset)|
  {
    var b := Batch(candidates, offset, size);
    if b == [] then []
    else
      Advance(candidates, offset, size);
      [b] + Batches(candidates, Last(b), size)
  }

  /** The ids of all the given batches. */
  function Flat(bs: seq<seq<Id>>): set<Id>
  {
    if bs == [] then {} else Flat(bs[..|bs| - 1]) + Elems(bs[|bs| - 1])
  }

  /**
   * The ids of the batches whose delete succeeded: batch number `i` (from 0)
   * is skipped when `i` is in `failing`.
   */
  function Covered(bs: seq<seq<Id>>, failing: set<nat>): (c: set<Id>)
    ensures c <= Flat(bs)
  {
    if bs == [] then {}
    else
      Covered(bs[..|bs| - 1], failing)
      + (if |bs| - 1 in failing then {} else Elems(bs[|bs| - 1]))
  }

  lemma {:induction false} CoveredAll(bs: seq<seq<Id>>)
    ensures Covered(bs, {}) == Flat(bs)
  {
    if bs != [] {
      CoveredAll(bs[..|bs| - 1]);
    }
  }

  lemma {:induction false} FlatAppend(bs: seq<seq<Id>>, cs: seq<seq<Id>>)
    ensures Flat(bs + cs) == Flat(bs) + Flat(cs)
    decreases |cs|
  {
    if cs == [] {
      assert bs + cs == bs;
    } else {
      var front := cs[..|cs| - 1];
      assert (bs + cs)[..|bs + cs| - 1] == bs + front;
      assert (bs + cs)[|bs + cs| - 1] == cs[|cs| - 1];
      FlatAppend(bs, front);
    }
  }

  /** Together the batches hold every candidate above the starting cursor. */
  lemma {:induction false} BatchesCover(candidates: set<Id>, offset: Id, size: nat)
    requires size > 0
    ensures Flat(Batches(candidates, offset, size)) == Above(candidates, offset)
    decreases |Above(candidates, offset)|
  {
    var b := Batch(candidates, offset, size);
    BatchesUnfold(candidates, offset, size);
    if b == [] {
      assert Above(candidates, offset) == {};
    } else {
      Advance(candidates, offset, size);
      var rest := Batches(candidates, Last(b), size);
      BatchesCover(candidates, Last(b), size);
      FlatAppend([b], rest);
      FlatSingle(b);
    }
  }

  lemma FlatSingle(b: seq<Id>)
    ensures Flat([b]) == Elems(b)
  {
    var single: seq<seq<Id>> := [b];
    assert single[..0] == [];
  }

  /**
   * Every batch is nonempty and at most `size` long, and every batch but the
   * last is full: a short batch is the last one with ids, and the query after
   * it returns nothing.
   */
  lemma BatchesShape(candidates: set<Id>, offset: Id, size: nat)
    requires size > 0
    ensures var bs := Batches(candidates, offset, size);
      && (forall i | 0 <= i < |bs| :: 0 < |bs[i]| <= size)
      && (forall i | 0 <= i < |bs| - 1 :: |bs[i]| == size)
  {
    forall i | 0 <= i < |Batches(candidates, offset, size)|
      ensures 0 < |Batches(candidates, offset, size)[i]| <= size
      ensures i < |Batches(candidates, offset, size)| - 1 ==> |Batches(candidates, offset, size)[i]| == size
    {
      BatchSize(candidates, offset, size, i);
    }
  }

  lemma {:induction false} BatchSize(candidates: set<Id>, offset: Id, size: nat, i: nat)
    requires size > 0 && i < |Batches(candidates, offset, size)|
    ensures 0 < |Batches(candidates, offset, size)[i]| <= size
    ensures i < |Batches(candidates, offset, size)| - 1 ==> |Batches(candidates, offset, size)[i]| == size
    decreases i
  {
    var b := Batch(candidates, offset, size);
    BatchesUnfold(candidates, offset, size);
    var rest := Batches(candidates, Last(b), size);
    Behead(Batches(candidates, offset, size), b, rest, i);
    if i == 0 {
      if |b| < size {
        ShortBatchIsLast(candidates, offset, size);
        BatchesUnfold(candidates, Last(b), size);
      }
    } else {
      BatchSize(candidates, Last(b), size, i - 1);
    }
  }

  /** After a batch shorter than `size` no candidate is left above the cursor. */
  lemma ShortBatchIsLast(candidates: set<Id>, offset: Id, size: nat)
    requires Batch(candidates, offset, size) != [] && |Batch(candidates, offset, size)| < size
    ensures Above(candidates, Last(Batch(candidates, offset, size))) == {}
  {
    var b := Batch(candidates, offset, size);
    Advance(candidates, offset, size);
    forall x | x in Above(candidates, offset)
      ensures x in Elems(b)
    {
      AscendingIsComplete(Above(candidates, offset), size, x);
    }
  }

  /**
   * Each batch lies wholly above the cursor and above every earlier batch:
   * the cursor strictly increases and no id is in two batches.
   */
  lemma BatchesAscend(candidates: set<Id>, offset: Id, size: nat)
    requires size > 0
    ensures var bs := Batches(candidates, offset, size);
      forall i, x | 0 <= i < |bs| && x in bs[i] :: offset < x
    ensures var bs := Batches(candidates, offset, size);
      forall i, j | 0 <= i < j < |bs| :: forall x, y | x in bs[i] && y in bs[j] :: offset < x < y
  {
    var bs := Batches(candidates, offset, size);
    forall k | 0 <= k < |bs|
      ensures bs[k] != []
      ensures forall i, j | 0 <= i < j < |bs[k]| :: bs[k][i] < bs[k][j]
      ensures Follows(bs, offset, k)
    {
      BatchSize(candidates, offset, size, k);
      BatchAscends(candidates, offset, size, k);
      forall y | y in bs[k]
        ensures k == 0 ==> y > offset
        ensures k > 0 ==> bs[k - 1] != [] && y > Last(bs[k - 1])
      {
        BatchFollows(candidates, offset, size, k, y);
      }
    }
    forall i, x | 0 <= i < |bs| && x in bs[i]
      ensures offset < x
    {
      BatchAboveCursor(candidates, offset, size, i, x);
    }
    forall i, j, x, y | 0 <= i < j < |bs| && x in bs[i] && y in bs[j]
      ensures offset < x < y
    {
      ChainAscends(bs, offset, i, j, x, y);
    }
  }

  /** Every batch of the walk is strictly ascending. */
  lemma {:induction false} BatchAscends(candidates: set<Id>, offset: Id, size: nat, k: nat)
    requires size > 0 && k < |Batches(candidates, offset, size)|
    ensures forall i, j | 0 <= i < j < |Batches(candidates, offset, size)[k]| ::
      Batches(candidates, offset, size)[k][i] < Batches(candidates, offset, size)[k][j]
    decreases k
  {
    var b := Batch(candidates, offset, size);
    BatchesUnfold(candidates, offset, size);
    var rest := Batches(candidates, Last(b), size);
    Behead(Batches(candidates, offset, size), b, rest, k);
    if k > 0 {
      BatchAscends(candidates, Last(b), size, k - 1);
    }
  }

  /** Every id of a batch lies above the previous batch's last id, or above the starting cursor. */
  lemma {:induction false} BatchFollows(candidates: set<Id>, offset: Id, size: nat, k: nat, y: Id)
    requires size > 0 && k < |Batches(candidates, offset, size)|
    requires y in Batches(candidates, offset, size)[k]
    ensures k == 0 ==> y > offset
    ensures k > 0 ==>
      Batches(candidates, offset, size)[k - 1] != [] && y > Last(Batches(candidates, offset, size)[k - 1])
    decreases k
  {
    var b := Batch(candidates, offset, size);
    BatchesUnfold(candidates, offset, size);
    var rest := Batches(candidates, Last(b), size);
    Behead(Batches(candidates, offset, size), b, rest, k);
    if k == 0 {
      assert y in b;
    } else if k == 1 {
      BatchAboveCursor(candidates, Last(b), size, 0, y);
    } else {
      Behead(Batches(candidates, offset, size), b, rest, k - 1);
      BatchFollows(candidates, Last(b), size, k - 1, y);
    }
  }

  /** Every id of batch `k` lies above the previous batch's last id, or above the starting cursor. */
  predicate Follows(bs: seq<seq<Id>>, offset: Id, k: nat)
    requires k < |bs|
  {
    forall z | z in bs[k] :: if k == 0 then z > offset else bs[k - 1] != [] && z > Last(bs[k - 1])
  }

  /**
   * In a chain of nonempty ascending batches, each above the previous one's
   * last id, every id of an earlier batch is below every id of a later one.
   */
  lemma {:induction false} ChainAscends(bs: seq<seq<Id>>, offset: Id, i: nat, j: nat, x: Id, y: Id)
    requires forall k | 0 <= k < |bs| :: bs[k] != []
    requires forall k | 0 <= k < |bs| :: forall p, q | 0 <= p < q < |bs[k]| :: bs[k][p] < bs[k][q]
    requires forall k | 0 <= k < |bs| :: Follows(bs, offset, k)
    requires i < j < |bs| && x in bs[i] && y in bs[j]
    ensures offset < x < y
    decreases j
  {
    assert Follows(bs, offset, j);
    var last := Last(bs[j - 1]);
    assert y > last;
    if i == j - 1 {
      UpToLast(bs[i], x);
    } else {
      assert last in bs[j - 1];
      ChainAscends(bs, offset, i, j - 1, x, last);
    }
    if i == 0 {
      assert Follows(bs, offset, 0);
    } else {
      assert bs[0][0] in bs[0];
      ChainAscends(bs, offset, 0, i, bs[0][0], x);
    }
  }

  /** Every candidate above the starting cursor lands in exactly one batch. */
  lemma OneBatchEach(candidates: set<Id>, offset: Id, size: nat, x: Id)
    requires size > 0 && x in candidates && x > offset
    ensures exists i | 0 <= i < |Batches(candidates, offset, size)| :: x in Batches(candidates, offset, size)[i]
    ensures forall i, j | 0 <= i < |Batches(candidates, offset, size)| && 0 <= j < |Batches(candidates, offset, size)|
                        && x in Batches(candidates, offset, size)[i] && x in Batches(candidates, offset, size)[j] :: i == j
  {
    var bs := Batches(candidates, offset, size);
    BatchesCover(candidates, offset, size);
    var k := FlatIndex(bs, x);
    BatchesAscend(candidates, offset, size);
  }

  /** The batch an id of the flattened batches comes from. */
  lemma {:induction false} FlatIndex(bs: seq<seq<Id>>, x: Id) returns (i: nat)
    requires x in Flat(bs)
    ensures i < |bs| && x in bs[i]
    decreases |bs|
  {
    var front := bs[..|bs| - 1];
    if x in Flat(front) {
      i := FlatIndex(front, x);
      assert front[i] == bs[i];
    } else {
      i := |bs| - 1;
    }
  }

  /** Index `k` of a sequence with head `b` and tail `rest`. */
  lemma Behead(bs: seq<seq<Id>>, b: seq<Id>, rest: seq<seq<Id>>, k: nat)
    requires bs == [b] + rest && k < |bs|
    ensures |rest| == |bs| - 1 && bs[k] == if k == 0 then b else rest[k - 1]
  {
  }

  /** Every id of every batch lies above the cursor the walk started from. */
  lemma {:induction false} BatchAboveCursor(candidates: set<Id>, offset: Id, size: nat, i: nat, y: Id)
    requires size > 0
    requires i < |Batches(candidates, offset, size)| && y in Batches(candidates, offset, size)[i]
    ensures y in candidates && offset < y
  {
    BatchesCover(candidates, offset, size);
    FlatContains(Batches(candidates, offset, size), i, y);
  }

  lemma {:induction false} FlatContains(bs: seq<seq<Id>>, i: nat, y: Id)
    requires i < |bs| && y in bs[i]
    ensures y in Flat(bs)
    decreases |bs|
  {
    if i < |bs| - 1 {
      assert bs[..|bs| - 1][i] == bs[i];
      FlatContains(bs[..|bs| - 1], i, y);
    }
  }

  /**
   * One round of a pruning loop: the batch at the cursor is the next batch
   * of the walk, and moving the cursor to its last id shrinks what is left.
   */
  lemma CursorStep(candidates: set<Id>, offset: Id, size: nat, done: seq<seq<Id>>)
    requires size > 0
    requires done + Batches(candidates, offset, size) == Batches(candidates, NilUuid, size)
    requires Batch(candidates, offset, size) != []
    ensures (done + [Batch(candidates, offset, size)]) + Batches(candidates, Last(Batch(candidates, offset, size)), size)
         == Batches(candidates, NilUuid, size)
    ensures |Above(candidates, Last(Batch(candidates, offset, size)))| < |Above(candidates, offset)|
  {
    var batch := Batch(candidates, offset, size);
    var rest := Batches(candidates, Last(batch), size);
    assert Batches(candidates, offset, size) == [batch] + rest by {
      BatchesUnfold(candidates, offset, size);
    }
    assert done + [batch] + rest == done + ([batch] + rest);
    Advance(candidates, offset, size);
  }

  /**
   * The batch at the cursor shares no id with the batches before it, and
   * after it the batches so far hold every candidate up to its last id.
   */
  lemma CursorFlat(candidates: set<Id>, offset: Id, size: nat, done: seq<seq<Id>>)
    requires Flat(done) == Above(candidates, NilUuid) - Above(candidates, offset)
    requires Batch(candidates, offset, size) != []
    ensures Flat(done + [Batch(candidates, offset, size)])
         == Above(candidates, NilUuid) - Above(candidates, Last(Batch(candidates, offset, size)))
    ensures Elems(Batch(candidates, offset, size)) !! Flat(done)
  {
    var batch := Batch(candidates, offset, size);
    assert Flat(done + [batch]) == Flat(done) + Elems(batch) by {
      assert (done + [batch])[..|done|] == done;
    }
    Advance(candidates, offset, size);
    SetStep(Above(candidates, NilUuid), Above(candidates, offset), Elems(batch), Above(candidates, Last(batch)));
  }

  /** Taking `batch` out of what is left adds it to what is done, and it was not done before. */
  lemma SetStep(all: set<Id>, left: set<Id>, batch: set<Id>, after: set<Id>)
    requires batch <= left <= all && after == left - batch
    ensures (all - left) + batch == all - after
    ensures batch !! (all - left)
  {
  }

  /** An empty batch at the cursor ends the walk. */
  lemma CursorDone(candidates: set<Id>, offset: Id, size: nat, done: seq<seq<Id>>)
    requires size > 0
    requires done + Batches(candidates, offset, size) == Batches(candidates, NilUuid, size)
    requires Batch(candidates, offset, size) == []
    ensures done == Batches(candidates, NilUuid, size)
  {
    assert Batches(candidates, offset, size) == [];
    assert done + [] == done;
  }

  /** Appending a batch adds its ids to the covered set unless its delete failed. */
  lemma CoveredStep(done: seq<seq<Id>>, batch: seq<Id>, failing: set<nat>)
    ensures Covered(done + [batch], failing)
         == Covered(done, failing) + (if |done| in failing then {} else Elems(batch))
  {
    assert (done + [batch])[..|done|] == done;
  }
}
