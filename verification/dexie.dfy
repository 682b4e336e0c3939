/**
  The two bulk writes the browser store uses, on one table keyed by the
  rows' ids. `bulkPut` is an upsert: the last row with a key wins. `bulkAdd`
  refuses a row whose key is already taken (by the table or by an earlier
  row of the same call) and reports failure; the rows that did not collide
  stay written, since the calls run outside an explicit transaction.
 */
module Dexie {

  import opened Common

  /** No later row has the same key as row i. */
  ghost predicate LastWithId<V>(rows: seq<V>, id: V -> Id, i: int)
    requires 0 <= i < |rows|
  {
    forall j :: i < j < |rows| ==> id(rows[j]) != id(rows[i])
  }

  /** No earlier row has the same key as row i. */
  ghost predicate FirstWithId<V>(rows: seq<V>, id: V -> Id, i: int)
    requires 0 <= i < |rows|
  {
    forall j :: 0 <= j < i ==> id(rows[j]) != id(rows[i])
  }

  ghost predicate Mentions<V>(rows: seq<V>, id: V -> Id, k: Id)
  {
    exists i :: 0 <= i < |rows| && id(rows[i]) == k
  }

  lemma MentionsSnoc<V>(rows: seq<V>, id: V -> Id)
    requires rows != []
    ensures forall k :: Mentions(rows, id, k) <==> Mentions(rows[..|rows| - 1], id, k) || id(rows[|rows| - 1]) == k
  {
    var init := rows[..|rows| - 1];
    forall k ensures Mentions(rows, id, k) <==> Mentions(init, id, k) || id(rows[|rows| - 1]) == k {
      if Mentions(rows, id, k) {
        var i :| 0 <= i < |rows| && id(rows[i]) == k;
        if i < |init| { assert init[i] == rows[i]; }
      }
      if Mentions(init, id, k) {
        var i :| 0 <= i < |init| && id(init[i]) == k;
        assert rows[i] == init[i];
      }
    }
  }

  lemma LastWithIdSnoc<V>(rows: seq<V>, id: V -> Id)
    requires rows != []
    ensures forall i :: 0 <= i < |rows| - 1 && LastWithId(rows, id, i) ==>
      LastWithId(rows[..|rows| - 1], id, i) && id(rows[i]) != id(rows[|rows| - 1])
  {
    var init := rows[..|rows| - 1];
    forall i | 0 <= i < |rows| - 1 && LastWithId(rows, id, i) ensures LastWithId(init, id, i) {
      forall j | i < j < |init| ensures id(init[j]) != id(init[i]) {
        assert init[j] == rows[j] && init[i] == rows[i];
      }
    }
  }

  lemma FirstWithIdSnoc<V>(rows: seq<V>, id: V -> Id)
    requires rows != []
    ensures forall i :: 0 <= i < |rows| - 1 ==> (FirstWithId(rows, id, i) <==> FirstWithId(rows[..|rows| - 1], id, i))
  {
    var init := rows[..|rows| - 1];
    forall i | 0 <= i < |rows| - 1 ensures FirstWithId(rows, id, i) <==> FirstWithId(init, id, i) {
      assert forall j :: 0 <= j <= i ==> rows[j] == init[j];
    }
  }

  /** `table.bulkPut(rows)`: every row is written under its key, in order. */
  function BulkPut<V>(t: map<Id, V>, rows: seq<V>, id: V -> Id): (r: map<Id, V>)
    ensures forall k :: k in r <==> k in t || Mentions(rows, id, k)
    ensures forall k :: k in t && !Mentions(rows, id, k) ==> r[k] == t[k]
    ensures forall i :: 0 <= i < |rows| && LastWithId(rows, id, i) ==> id(rows[i]) in r && r[id(rows[i])] == rows[i]
  {
    if rows == [] then t
    else
      var init := rows[..|rows| - 1];
      var last := rows[|rows| - 1];
      var r0 := BulkPut(t, init, id);
      var r := r0[id(last) := last];
      MentionsSnoc(rows, id);
      LastWithIdSnoc(rows, id);
      r
  }

  /**
    `table.bulkAdd(rows)`: a row is written when its key is free at that
    point; the flag says whether some row was refused.
   */
  function BulkAdd<V>(t: map<Id, V>, rows: seq<V>, id: V -> Id): (r: (map<Id, V>, bool))
    ensures forall k :: k in r.0 <==> k in t || Mentions(rows, id, k)
    ensures forall k :: k in t ==> r.0[k] == t[k]
    ensures forall i :: 0 <= i < |rows| && id(rows[i]) !in t && FirstWithId(rows, id, i) ==>
      id(rows[i]) in r.0 && r.0[id(rows[i])] == rows[i]
    ensures r.1 <==> exists i :: 0 <= i < |rows| && (id(rows[i]) in t || !FirstWithId(rows, id, i))
  {
    if rows == [] then (t, false)
    else
      var last := rows[|rows| - 1];
      var (r0, failed0) := BulkAdd(t, rows[..|rows| - 1], id);
      BulkAddSnoc(t, rows, id, r0, failed0);
      BulkAddSnocFlag(t, rows, id, r0, failed0);
      AddOne(r0, failed0, last, id)
  }

  /** One row offered to bulkAdd after the others. */
  function AddOne<V>(r0: map<Id, V>, failed0: bool, v: V, id: V -> Id): (map<Id, V>, bool)
  {
    if id(v) in r0 then (r0, true) else (r0[id(v) := v], failed0)
  }

  /** One more row for bulkAdd: refused when its key is taken, written otherwise. */
  lemma BulkAddSnoc<V>(t: map<Id, V>, rows: seq<V>, id: V -> Id, r0: map<Id, V>, failed0: bool)
    requires rows != []
    requires forall k :: k in r0 <==> k in t || Mentions(rows[..|rows| - 1], id, k)
    requires forall k :: k in t ==> r0[k] == t[k]
    requires forall i :: 0 <= i < |rows| - 1 && id(rows[i]) !in t && FirstWithId(rows[..|rows| - 1], id, i) ==>
      id(rows[i]) in r0 && r0[id(rows[i])] == rows[i]
    ensures id(rows[|rows| - 1]) in r0 <==> id(rows[|rows| - 1]) in t || !FirstWithId(rows, id, |rows| - 1)
    ensures forall k :: k in AddOne(r0, failed0, rows[|rows| - 1], id).0 <==> k in t || Mentions(rows, id, k)
    ensures forall k :: k in t ==> AddOne(r0, failed0, rows[|rows| - 1], id).0[k] == t[k]
    ensures forall i :: 0 <= i < |rows| && id(rows[i]) !in t && FirstWithId(rows, id, i) ==>
      id(rows[i]) in AddOne(r0, failed0, rows[|rows| - 1], id).0 && AddOne(r0, failed0, rows[|rows| - 1], id).0[id(rows[i])] == rows[i]
  {
    var init := rows[..|rows| - 1];
    var n := |rows| - 1;
    var last := rows[n];
    assert forall i :: 0 <= i < n ==> init[i] == rows[i];
    MentionsSnoc(rows, id);
    FirstWithIdSnoc(rows, id);
    // The last row collides exactly when its key is taken after the earlier rows.
    assert id(last) in r0 <==> id(last) in t || !FirstWithId(rows, id, n) by {
      if !FirstWithId(rows, id, n) {
        var j :| 0 <= j < n && id(rows[j]) == id(last);
        assert init[j] == rows[j];
      }
      if id(last) in r0 && id(last) !in t {
        var j :| 0 <= j < |init| && id(init[j]) == id(last);
        assert rows[j] == init[j];
      }
    }
    if id(last) !in r0 {
      assert forall i :: 0 <= i < n && id(rows[i]) !in t && FirstWithId(rows, id, i) ==> id(rows[i]) != id(last);
    }
  }

  /** The flag after one more row: a refusal among the earlier rows, or the last one. */
  lemma BulkAddSnocFlag<V>(t: map<Id, V>, rows: seq<V>, id: V -> Id, r0: map<Id, V>, failed0: bool)
    requires rows != []
    requires failed0 <==> exists i :: 0 <= i < |rows| - 1 && (id(rows[i]) in t || !FirstWithId(rows[..|rows| - 1], id, i))
    requires id(rows[|rows| - 1]) in r0 <==> id(rows[|rows| - 1]) in t || !FirstWithId(rows, id, |rows| - 1)
    ensures AddOne(r0, failed0, rows[|rows| - 1], id).1 <==> exists i :: 0 <= i < |rows| && (id(rows[i]) in t || !FirstWithId(rows, id, i))
  {
    var init := rows[..|rows| - 1];
    var n := |rows| - 1;
    FirstWithIdSnoc(rows, id);
    if failed0 {
      var i :| 0 <= i < n && (id(rows[i]) in t || !FirstWithId(init, id, i));
      assert init[i] == rows[i];
      assert id(rows[i]) in t || !FirstWithId(rows, id, i);
    }
    if exists i :: 0 <= i < |rows| && (id(rows[i]) in t || !FirstWithId(rows, id, i)) {
      var i :| 0 <= i < |rows| && (id(rows[i]) in t || !FirstWithId(rows, id, i));
      if i < n {
        assert init[i] == rows[i];
        assert id(rows[i]) in t || !FirstWithId(init, id, i);
      }
    }
  }

  /** Without a refused row, bulkAdd writes what bulkPut would. */
  lemma BulkAddAgreesWithBulkPut<V>(t: map<Id, V>, rows: seq<V>, id: V -> Id)
    requires !BulkAdd(t, rows, id).1
    ensures BulkAdd(t, rows, id).0 == BulkPut(t, rows, id)
  {
    var a := BulkAdd(t, rows, id).0;
    var p := BulkPut(t, rows, id);
    forall k | k in a
      ensures a[k] == p[k]
    {
      if Mentions(rows, id, k) {
        var i :| 0 <= i < |rows| && id(rows[i]) == k;
        assert FirstWithId(rows, id, i) && id(rows[i]) !in t;
        assert LastWithId(rows, id, i) by {
          forall j | i < j < |rows| ensures id(rows[j]) != id(rows[i]) {
            assert FirstWithId(rows, id, j);
          }
        }
      }
    }
    assert a.Keys == p.Keys;
  }

  /**
    Adding, into an empty table, rows with pairwise distinct keys that are
    exactly the rows of m refuses nothing and rebuilds m.
   */
  lemma BulkAddDistinctRows<V>(m: map<Id, V>, rows: seq<V>, id: V -> Id)
    requires forall i, j :: 0 <= i < j < |rows| ==> id(rows[i]) != id(rows[j])
    requires forall i :: 0 <= i < |rows| ==> id(rows[i]) in m && m[id(rows[i])] == rows[i]
    requires forall k :: k in m ==> Mentions(rows, id, k)
    ensures BulkAdd(map[], rows, id) == (m, false)
  {
    var (a, failed) := BulkAdd(map[], rows, id);
    assert forall i :: 0 <= i < |rows| ==> FirstWithId(rows, id, i);
    forall k | k in a ensures k in m && a[k] == m[k] {
      var i :| 0 <= i < |rows| && id(rows[i]) == k;
    }
    assert a == m;
  }

  /** Writing a table's own rows back over it changes nothing. */
  lemma BulkPutOwnRows<V>(t: map<Id, V>, rows: seq<V>, id: V -> Id)
    requires forall k :: k in t ==> id(t[k]) == k
    requires forall i :: 0 <= i < |rows| ==> id(rows[i]) in t && t[id(rows[i])] == rows[i]
    ensures BulkPut(t, rows, id) == t
  {
    var r := BulkPut(t, rows, id);
    forall k | k in r
      ensures k in t && r[k] == t[k]
    {
      if Mentions(rows, id, k) {
        var i :| 0 <= i < |rows| && id(rows[i]) == k;
        var last := LastIndexWithId(rows, id, i);
        assert id(rows[last]) == k;
      }
    }
    assert r.Keys == t.Keys;
  }

  /** The position of the last row sharing row i's key. */
  lemma LastIndexWithId<V>(rows: seq<V>, id: V -> Id, i: int) returns (l: int)
    requires 0 <= i < |rows|
    ensures i <= l < |rows| && id(rows[l]) == id(rows[i]) && LastWithId(rows, id, l)
    decreases |rows| - i
  {
    if LastWithId(rows, id, i) {
      l := i;
    } else {
      var j :| i < j < |rows| && id(rows[j]) == id(rows[i]);
      l := LastIndexWithId(rows, id, j);
    }
  }
}
