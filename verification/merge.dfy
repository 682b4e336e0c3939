/**
  The last-write-wins merge the sync engine applies when local data exists:
  incoming rows are visited in order, and a row replaces the local row with
  its id only when there is none or the incoming row is strictly newer by the
  table's timestamp (`createdAt` for projects, `startTime` for entries).
 */
module Merge {

  import opened Common
  import opened Dexie

  /** One visit: keep the newer of the current row and the incoming one; ties keep the current row. */
  function MergeRow<V>(m: map<Id, V>, v: V, id: V -> Id, key: V -> int): (r: map<Id, V>)
    ensures r.Keys == m.Keys + {id(v)}
    ensures forall k :: k in m ==> key(r[k]) >= key(m[k])
    ensures key(r[id(v)]) >= key(v)
    ensures forall k :: k in r ==> (k in m && r[k] == m[k]) || (k == id(v) && r[k] == v)
  {
    if id(v) !in m || key(v) > key(m[id(v)]) then m[id(v) := v] else m
  }

  /** Every row of r is either m's row under the same key or one of the incoming rows, filed under its id. */
  ghost predicate Provenance<V>(m: map<Id, V>, s: seq<V>, r: map<Id, V>, id: V -> Id)
  {
    forall k :: k in r ==> (k in m && r[k] == m[k]) || exists i :: 0 <= i < |s| && s[i] == r[k] && id(s[i]) == k
  }

  lemma ProvenanceSnoc<V>(m: map<Id, V>, s: seq<V>, r0: map<Id, V>, r: map<Id, V>, id: V -> Id)
    requires s != []
    requires Provenance(m, s[..|s| - 1], r0, id)
    requires forall k :: k in r ==> (k in r0 && r[k] == r0[k]) || (k == id(s[|s| - 1]) && r[k] == s[|s| - 1])
    ensures Provenance(m, s, r, id)
  {
    var init := s[..|s| - 1];
    forall k | k in r ensures (k in m && r[k] == m[k]) || exists i :: 0 <= i < |s| && s[i] == r[k] && id(s[i]) == k {
      if !(k in r0 && r[k] == r0[k]) {
        assert s[|s| - 1] == r[k];
      } else if !(k in m && r0[k] == m[k]) {
        var i :| 0 <= i < |init| && init[i] == r0[k] && id(init[i]) == k;
        assert s[i] == r[k];
      }
    }
  }

  /**
    The merged table after visiting every incoming row in order: the fold
    from the left, written as "merge all but the last row, then the last".
   */
  function MergeRows<V>(m: map<Id, V>, s: seq<V>, id: V -> Id, key: V -> int): (r: map<Id, V>)
    ensures MergedFrom(m, s, r, id, key)
  {
    if s == [] then m
    else
      var r0 := MergeRows(m, s[..|s| - 1], id, key);
      MergeRowsSnoc(m, s, id, key, r0);
      MergeRow(r0, s[|s| - 1], id, key)
  }

  /**
    What the merged table r owes the local table m and the incoming rows s:
    it holds m's keys and every incoming id; a key no incoming row mentions
    keeps its local row; no row gets older than the local one or than any
    incoming row with its id; and every row came from m or from s.
   */
  ghost predicate MergedFrom<V>(m: map<Id, V>, s: seq<V>, r: map<Id, V>, id: V -> Id, key: V -> int)
  {
    && (forall k :: k in r <==> k in m || Mentions(s, id, k))
    && (forall k :: k in m && !Mentions(s, id, k) ==> r[k] == m[k])
    && (forall k :: k in m ==> key(r[k]) >= key(m[k]))
    && (forall i :: 0 <= i < |s| ==> id(s[i]) in r && key(r[id(s[i])]) >= key(s[i]))
    && Provenance(m, s, r, id)
  }

  /** The fold's facts carry over one more visit. */
  lemma MergeRowsSnoc<V>(m: map<Id, V>, s: seq<V>, id: V -> Id, key: V -> int, r0: map<Id, V>)
    requires s != []
    requires MergedFrom(m, s[..|s| - 1], r0, id, key)
    ensures MergedFrom(m, s, MergeRow(r0, s[|s| - 1], id, key), id, key)
  {
    var init := s[..|s| - 1];
    var r := MergeRow(r0, s[|s| - 1], id, key);
    MentionsSnoc(s, id);
    assert forall i :: 0 <= i < |init| ==> init[i] == s[i];
    ProvenanceSnoc(m, s, r0, r, id);
  }

  /** Merging rows that are none of them newer than the table's rows changes nothing. */
  lemma {:induction false} MergeNothingNewer<V>(m: map<Id, V>, s: seq<V>, id: V -> Id, key: V -> int)
    requires forall i :: 0 <= i < |s| ==> id(s[i]) in m && key(m[id(s[i])]) >= key(s[i])
    ensures MergeRows(m, s, id, key) == m
  {
    if s != [] {
      var init := s[..|s| - 1];
      assert forall i :: 0 <= i < |init| ==> init[i] == s[i];
      MergeNothingNewer(m, init, id, key);
      assert MergeRow(m, s[|s| - 1], id, key) == m;
    }
  }

  /** Applying the same snapshot twice is the same as applying it once. */
  lemma MergeIdempotent<V>(m: map<Id, V>, s: seq<V>, id: V -> Id, key: V -> int)
    ensures MergeRows(MergeRows(m, s, id, key), s, id, key) == MergeRows(m, s, id, key)
  {
    MergeNothingNewer(MergeRows(m, s, id, key), s, id, key);
  }

  /** Ids are pairwise distinct among the incoming rows. */
  ghost predicate DistinctIds<V>(s: seq<V>, id: V -> Id)
  {
    forall i, j :: 0 <= i < j < |s| ==> id(s[i]) != id(s[j])
  }

  /**
    With distinct incoming ids, each incoming row ends up in the table exactly
    when its id is new or it is strictly newer than the local row; otherwise
    the local row stays.
   */
  lemma {:induction false} MergeWinner<V>(m: map<Id, V>, s: seq<V>, id: V -> Id, key: V -> int, i: int)
    requires DistinctIds(s, id)
    requires 0 <= i < |s|
    ensures id(s[i]) !in m || key(s[i]) > key(m[id(s[i])]) ==> MergeRows(m, s, id, key)[id(s[i])] == s[i]
    ensures id(s[i]) in m && key(s[i]) <= key(m[id(s[i])]) ==> MergeRows(m, s, id, key)[id(s[i])] == m[id(s[i])]
  {
    var n := |s| - 1;
    if i == n {
      MergeLastRow(m, s, id, key);
    } else {
      var init := s[..n];
      assert init[i] == s[i];
      assert DistinctIds(init, id);
      MergeWinner(m, init, id, key, i);
      MergeEarlierRow(m, s, id, key, i);
    }
  }

  /** The last incoming row, its id new to the earlier rows, meets the local row alone. */
  lemma MergeLastRow<V>(m: map<Id, V>, s: seq<V>, id: V -> Id, key: V -> int)
    requires DistinctIds(s, id) && s != []
    ensures var v := s[|s| - 1];
      && (id(v) !in m || key(v) > key(m[id(v)]) ==> MergeRows(m, s, id, key)[id(v)] == v)
      && (id(v) in m && key(v) <= key(m[id(v)]) ==> MergeRows(m, s, id, key)[id(v)] == m[id(v)])
  {
    var init := s[..|s| - 1];
    var k := id(s[|s| - 1]);
    assert forall j :: 0 <= j < |init| ==> init[j] == s[j];
    assert !Mentions(init, id, k);
  }

  /** An earlier row's entry is untouched by a last row with a different id. */
  lemma MergeEarlierRow<V>(m: map<Id, V>, s: seq<V>, id: V -> Id, key: V -> int, i: int)
    requires DistinctIds(s, id) && 0 <= i < |s| - 1
    ensures id(s[i]) in MergeRows(m, s[..|s| - 1], id, key)
    ensures MergeRows(m, s, id, key)[id(s[i])] == MergeRows(m, s[..|s| - 1], id, key)[id(s[i])]
  {
    assert s[..|s| - 1][i] == s[i];
    assert id(s[|s| - 1]) != id(s[i]);
  }

  /** A table whose keys are its rows' ids. */
  ghost predicate KeyedById<V>(m: map<Id, V>, id: V -> Id)
  {
    forall k :: k in m ==> id(m[k]) == k
  }

  /** The merged table is still keyed by its rows' ids, as the rebuilt store requires. */
  lemma MergeKeepsKeys<V>(m: map<Id, V>, s: seq<V>, id: V -> Id, key: V -> int)
    requires KeyedById(m, id)
    ensures KeyedById(MergeRows(m, s, id, key), id)
  {
  }
}
