/** Listing the keys of a table in ascending order: the order in which the
    model lets a query without ORDER BY return its rows. */
module Ordering {

  /** Every non-empty finite set of naturals has a least element. */
  lemma {:induction false} HasLeast(ks: set<nat>)
    requires ks != {}
    ensures exists m :: m in ks && forall k :: k in ks ==> m <= k
  {
    var x :| x in ks;
    var rest := ks - {x};
    var low: nat := x;
    if rest != {} {
      HasLeast(rest);
      var m :| m in rest && forall k :: k in rest ==> m <= k;
      low := if x <= m then x else m;
    }
    forall k | k in ks
      ensures low <= k
    {
      if k != x {
        assert k in rest;
      }
    }
    assert low in ks;
  }

  function Least(ks: set<nat>): (m: nat)
    requires ks != {}
    ensures m in ks
    ensures forall k :: k in ks ==> m <= k
  {
    HasLeast(ks);
    var m :| m in ks && forall k :: k in ks ==> m <= k;
    m
  }

  /** The elements of `ks`, each once, in strictly ascending order. */
  function Ascending(ks: set<nat>): (r: seq<nat>)
    ensures |r| == |ks|
    ensures forall k :: k in ks <==> k in r
    ensures forall i, j :: 0 <= i < j < |r| ==> r[i] < r[j]
    decreases |ks|
  {
    if ks == {} then []
    else
      var m := Least(ks);
      [m] + Ascending(ks - {m})
  }
}
