/**
 Claiming rows of a table: `SELECT ... ORDER BY ... LIMIT ... FOR UPDATE SKIP
 LOCKED` and the update that leases the rows selected.
 */
module Claims {

  predicate Eligible<K(==,!new), R>(rows: map<K, R>, locked: set<K>, claimable: R -> bool, id: K) {
    id in rows && id !in locked && claimable(rows[id])
  }

  /** All rows that may be claimed, in the query's order. */
  function Filter<K(==,!new), R>(rows: map<K, R>, order: seq<K>, locked: set<K>, claimable: R -> bool): (ids: seq<K>)
    ensures forall id :: id in ids <==> id in order && Eligible(rows, locked, claimable, id)
  {
    if |order| == 0 then [] else
      var front, id := Filter(rows, order[..|order| - 1], locked, claimable), order[|order| - 1];
      if Eligible(rows, locked, claimable, id) then front + [id] else front
  }

  /** The first `limit` of them. */
  function Candidates<K(==,!new), R>(rows: map<K, R>, order: seq<K>, locked: set<K>, claimable: R -> bool, limit: nat): seq<K> {
    var ids := Filter(rows, order, locked, claimable);
    if |ids| <= limit then ids else ids[..limit]
  }

  /** `a` comes before `b` in the query's order. */
  predicate Before<K(==)>(order: seq<K>, a: K, b: K) {
    exists i, j :: 0 <= i < j < |order| && order[i] == a && order[j] == b
  }

  lemma BeforeInPrefix<K>(order: seq<K>, n: nat, a: K, b: K)
    requires n <= |order| && Before(order[..n], a, b)
    ensures Before(order, a, b)
  {
    var i, j :| 0 <= i < j < n && order[..n][i] == a && order[..n][j] == b;
    assert order[i] == a && order[j] == b;
  }

  /** The IDs follow the query's order. */
  predicate InOrder<K(==)>(order: seq<K>, ids: seq<K>) {
    forall i, j :: 0 <= i < j < |ids| ==> Before(order, ids[i], ids[j])
  }

  lemma {:induction false} FilterKeepsOrder<K(!new), R>(rows: map<K, R>, order: seq<K>, locked: set<K>, claimable: R -> bool)
    ensures InOrder(order, Filter(rows, order, locked, claimable))
  {
    if |order| == 0 {
    } else {
      var last := |order| - 1;
      var front, ids := Filter(rows, order[..last], locked, claimable), Filter(rows, order, locked, claimable);
      FilterKeepsOrder(rows, order[..last], locked, claimable);
      forall i, j | 0 <= i < j < |ids|
        ensures Before(order, ids[i], ids[j])
      {
        assert ids[i] == front[i];
        if j < |front| {
          assert ids[j] == front[j];
          BeforeInPrefix(order, last, ids[i], ids[j]);
        } else {
          assert front[i] in front;
          var k :| 0 <= k < last && order[k] == front[i];
          assert order[last] == ids[j];
        }
      }
    }
  }

  /**
   What a claim takes: at most `limit` eligible rows, in the query's order, and
   an eligible row is passed over only when the limit is used up by rows before it.
   */
  lemma TakesTheFirst<K(!new), R>(rows: map<K, R>, order: seq<K>, locked: set<K>, claimable: R -> bool, limit: nat)
    ensures var ids := Candidates(rows, order, locked, claimable, limit);
            && |ids| <= limit
            && (forall id :: id in ids ==> id in order && id in rows && id !in locked && claimable(rows[id]))
            && InOrder(order, ids)
            && (forall id :: id in order && id in rows && id !in locked && claimable(rows[id]) && id !in ids ==>
                  |ids| == limit && forall i :: 0 <= i < |ids| ==> Before(order, ids[i], id))
  {
    var all, ids := Filter(rows, order, locked, claimable), Candidates(rows, order, locked, claimable, limit);
    FilterKeepsOrder(rows, order, locked, claimable);
    forall id | id in ids
      ensures id in order && Eligible(rows, locked, claimable, id)
    {
      assert id in all;
    }
    forall id | id in order && id in rows && id !in locked && claimable(rows[id]) && id !in ids
      ensures |ids| == limit && forall i :: 0 <= i < |ids| ==> Before(order, ids[i], id)
    {
      assert Eligible(rows, locked, claimable, id);
      var m :| 0 <= m < |all| && all[m] == id;
      assert m >= |ids|;
      forall i | 0 <= i < |ids|
        ensures Before(order, ids[i], id)
      {
        assert ids[i] == all[i];
      }
    }
  }

  /** One pass over the rows in order, leasing until the limit is reached. */
  method ClaimRows<K(==,!new), R>(rows: map<K, R>, order: seq<K>, locked: set<K>, claimable: R -> bool, lease: R -> R, limit: nat)
    returns (taken: seq<K>, leased: map<K, R>)
    requires forall i, j :: 0 <= i < j < |order| ==> order[i] != order[j]
    ensures taken == Candidates(rows, order, locked, claimable, limit)
    ensures forall id :: id in taken ==> Eligible(rows, locked, claimable, id)
    ensures leased == map id | id in rows :: if id in taken then lease(rows[id]) else rows[id]
  {
    taken, leased := [], rows;
    for n := 0 to |order|
      invariant taken == Candidates(rows, order[..n], locked, claimable, limit)
      invariant forall id :: id in taken ==> id in order[..n] && Eligible(rows, locked, claimable, id)
      invariant leased.Keys == rows.Keys
      invariant forall id :: id in rows ==> leased[id] == if id in taken then lease(rows[id]) else rows[id]
    {
      var id := order[n];
      assert order[..n + 1][..n] == order[..n] && id !in order[..n];
      if |taken| < limit && id in leased && id !in locked && claimable(leased[id]) {
        taken := taken + [id];
        leased := leased[id := lease(leased[id])];
      }
    }
    assert order[..|order|] == order;
  }
}
