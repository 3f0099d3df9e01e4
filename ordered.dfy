/**
 * Extremes of finite sets of numbers and the ascending listing of a set of
 * ids. The database evaluates `max(...)`, `ORDER BY id ASC LIMIT n` and the
 * grouping of joined rows by key; these functions are what those mean.
 */
module Ordered {
  import opened Schema

  /** A nonempty finite set of numbers has a least element. */
  lemma {:induction false} Least(s: set<nat>) returns (least: nat)
    requires s != {}
    ensures least in s && forall x | x in s :: least <= x
    decreases |s|
  {
    var y :| y in s;
    var rest := s - {y};
    if rest == {} {
      least := y;
      forall x | x in s
        ensures least <= x
      {
        assert x in rest || x == y;
      }
    } else {
      var m := Least(rest);
      least := if m <= y then m else y;
      forall x | x in s
        ensures least <= x
      {
        if x != y {
          assert x in rest;
        }
      }
    }
  }

  /** A nonempty finite set of numbers has a greatest element. */
  lemma {:induction false} Greatest(s: set<nat>) returns (greatest: nat)
    requires s != {}
    ensures greatest in s && forall x | x in s :: x <= greatest
    decreases |s|
  {
    var y :| y in s;
    var rest := s - {y};
    if rest == {} {
      greatest := y;
      forall x | x in s
        ensures x <= greatest
      {
        assert x in rest || x == y;
      }
    } else {
      var m := Greatest(rest);
      greatest := if y <= m then m else y;
      forall x | x in s
        ensures x <= greatest
      {
        if x != y {
          assert x in rest;
        }
      }
    }
  }

  lemma HasLeast(s: set<nat>)
    requires s != {}
    ensures exists m :: m in s && forall x | x in s :: m <= x
  {
    var m := Least(s);
  }

  lemma HasGreatest(s: set<nat>)
    requires s != {}
    ensures exists m :: m in s && forall x | x in s :: x <= m
  {
    var m := Greatest(s);
  }

  /** The least element of a nonempty finite set. */
  function MinOf(s: set<nat>): (m: nat)
    requires s != {}
    ensures m in s && forall x | x in s :: m <= x
  {
    HasLeast(s);
    var m :| m in s && forall x | x in s :: m <= x; m
  }

  /** The greatest element of a nonempty finite set. */
  function MaxOf(s: set<nat>): (m: nat)
    requires s != {}
    ensures m in s && forall x | x in s :: x <= m
  {
    HasGreatest(s);
    var m :| m in s && forall x | x in s :: x <= m; m
  }

  /**
   * The `n` smallest elements of `s`, in ascending order: what
   * `ORDER BY id ASC LIMIT n` returns.
   */
  function Ascending(s: set<Id>, n: nat): (r: seq<Id>)
    ensures |r| == Min(n, |s|)
    ensures forall i | 0 <= i < |r| :: r[i] in s
    ensures forall i, j | 0 <= i < j < |r| :: r[i] < r[j]
    decreases n
  {
    if n == 0 || s == {} then []
    else
      var m := MinOf(s);
      var rest := Ascending(s - {m}, n - 1);
      assert |s - {m}| == |s| - 1;
      assert forall j | 0 <= j < |rest| :: m < rest[j] by {
        forall j | 0 <= j < |rest| ensures m < rest[j] {
          assert rest[j] in s - {m};
        }
      }
      [m] + rest
  }

  /** Nothing of `s` up to the last element listed is left out. */
  lemma {:induction false} AscendingIsPrefix(s: set<Id>, n: nat, x: Id)
    requires x in s && |Ascending(s, n)| > 0
    requires x <= Ascending(s, n)[|Ascending(s, n)| - 1]
    ensures x in Ascending(s, n)
    decreases n
  {
    var m := MinOf(s);
    var rest := Ascending(s - {m}, n - 1);
    assert Ascending(s, n) == [m] + rest;
    if x != m {
      if |rest| == 0 {
        assert false;
      }
      assert Ascending(s, n)[|Ascending(s, n)| - 1] == rest[|rest| - 1];
      AscendingIsPrefix(s - {m}, n - 1, x);
    }
  }

  /** A listing shorter than the limit holds all of `s`. */
  lemma {:induction false} AscendingIsComplete(s: set<Id>, n: nat, x: Id)
    requires x in s && |Ascending(s, n)| < n
    ensures x in Ascending(s, n)
  {
    var r := Ascending(s, n);
    if x !in r {
      var listed := Elems(r);
      assert |r| == |s|;
      assert listed <= s - {x};
      SortedSeqSize(r);
      SubsetSize(listed, s - {x});
      assert false;
    }
  }

  /** A strictly ascending sequence has as many distinct elements as entries. */
  lemma {:induction false} SortedSeqSize(r: seq<Id>)
    requires forall i, j | 0 <= i < j < |r| :: r[i] < r[j]
    ensures |Elems(r)| == |r|
  {
    if r != [] {
      var t := r[1..];
      SortedSeqSize(t);
      assert r[0] !in Elems(t);
      assert Elems(r) == {r[0]} + Elems(t);
    }
  }

  lemma {:induction false} SubsetSize(a: set<Id>, b: set<Id>)
    requires a <= b
    ensures |a| <= |b|
  {
    if a != {} {
      var x :| x in a;
      SubsetSize(a - {x}, b - {x});
    }
  }

  /** The elements of `s`, each once, in ascending order. */
  function Sorted(s: set<Id>): (r: seq<Id>)
    ensures |r| == |s|
    ensures forall x :: x in r <==> x in s
    ensures forall i, j | 0 <= i < j < |r| :: r[i] < r[j]
  {
    var r := Ascending(s, |s|);
    assert forall x | x in s :: x in r by {
      forall x | x in s ensures x in r {
        if |r| > 0 {
          if x > r[|r| - 1] {
            SortedSeqSize(r);
            SubsetSize(Elems(r), s - {x});
            assert false;
          }
          AscendingIsPrefix(s, |s|, x);
        }
      }
    }
    r
  }

  function Elems(r: seq<Id>): (e: set<Id>)
    ensures forall x :: x in e <==> x in r
  {
    set x | x in r
  }

  lemma ElemsOfNonEmpty(r: seq<Id>)
    ensures r != [] ==> r[0] in Elems(r)
  {
  }

  /** No element of a strictly ascending sequence is above its last one. */
  lemma UpToLast(r: seq<Id>, x: Id)
    requires forall i, j | 0 <= i < j < |r| :: r[i] < r[j]
    requires x in r
    ensures x <= r[|r| - 1]
  {
    var k :| 0 <= k < |r| && r[k] == x;
    if k < |r| - 1 {
      assert r[k] < r[|r| - 1];
    }
  }
}
