/**
 The order in which the front page lists posts: every id of the store once,
 largest first (`ORDER BY id desc`).
 */
module Listing {

  predicate StrictlyDescending(r: seq<int>) {
    forall i, j :: 0 <= i < j < |r| ==> r[i] > r[j]
  }

  lemma {:induction false} MaxExists(ks: set<int>)
    requires ks != {}
    ensures exists m :: m in ks && forall k :: k in ks ==> k <= m
  {
    if forall k :: k !in ks {
      assert false;
    }
    var x :| x in ks;
    var rest := ks - {x};
    if rest == {} {
      forall k | k in ks
        ensures k <= x
      {
        assert k !in rest;
      }
    } else {
      MaxExists(rest);
      var m :| m in rest && forall k :: k in rest ==> k <= m;
      var top := if x > m then x else m;
      forall k | k in ks
        ensures k <= top
      {
        if k != x {
          assert k in rest;
        }
      }
      assert top in ks;
    }
  }

  /** The largest element of a non-empty set of ids. */
  function Max(ks: set<int>): (m: int)
    requires ks != {}
    ensures m in ks
    ensures forall k :: k in ks ==> k <= m
  {
    MaxExists(ks);
    var m :| m in ks && forall k :: k in ks ==> k <= m;
    m
  }

  /** The ids of `ks`, largest first. */
  function Descending(ks: set<int>): (r: seq<int>)
    ensures StrictlyDescending(r)
    ensures forall k :: k in ks <==> k in r
    ensures |r| == |ks|
    decreases |ks|
  {
    if ks == {} then []
    else
      var m := Max(ks);
      [m] + Descending(ks - {m})
  }

  lemma HeadIsLargest(r: seq<int>, k: int)
    requires StrictlyDescending(r) && k in r
    ensures k <= r[0]
  {
    var i :| 0 <= i < |r| && r[i] == k;
    if i > 0 {
      assert r[0] > r[i];
    }
  }

  lemma FirstIsIn(b: seq<int>)
    ensures b != [] ==> b[0] in b
  {
  }

  /**
   A strictly descending sequence is determined by its elements: any two
   that hold the same ids are equal, so the listing order is unique.
   */
  lemma {:induction false} DescendingUnique(a: seq<int>, b: seq<int>)
    requires StrictlyDescending(a) && StrictlyDescending(b)
    requires forall k :: k in a <==> k in b
    ensures a == b
    decreases |a|
  {
    if a == [] {
      FirstIsIn(b);
    } else {
      assert a[0] in a && b != [];
      assert b[0] in b;
      HeadIsLargest(b, a[0]);
      HeadIsLargest(a, b[0]);
      assert a[0] == b[0];
      var ta, tb := a[1..], b[1..];
      forall k
        ensures k in ta <==> k in tb
      {
        if k in ta {
          var i :| 0 <= i < |ta| && ta[i] == k;
          assert a[i + 1] == k && a[0] > a[i + 1];
          assert k in b;
        }
        if k in tb {
          var i :| 0 <= i < |tb| && tb[i] == k;
          assert b[i + 1] == k && b[0] > b[i + 1];
          assert k in a;
        }
      }
      DescendingUnique(ta, tb);
      assert a == [a[0]] + ta && b == [b[0]] + tb;
    }
  }
}
