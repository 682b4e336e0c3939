/**
  Orders used when a table is read: the primary-key order in which a local
  object store returns its rows (strings compared character by character), and
  `ORDER BY <column> DESC` on an integer column.
 */
module Ordering {

  /** Lexicographic order on strings, character by character; a proper prefix comes first. */
  predicate StrLess(a: string, b: string)
  {
    if a == [] then b != []
    else if b == [] then false
    else if a[0] != b[0] then a[0] < b[0]
    else StrLess(a[1..], b[1..])
  }

  lemma {:induction false} StrLessIrreflexive(a: string)
    ensures !StrLess(a, a)
  {
    if a != [] {
      StrLessIrreflexive(a[1..]);
    }
  }

  lemma {:induction false} StrLessAsymmetric(a: string, b: string)
    requires StrLess(a, b)
    ensures !StrLess(b, a)
  {
    if a != [] && b != [] && a[0] == b[0] {
      StrLessAsymmetric(a[1..], b[1..]);
    }
  }

  lemma {:induction false} StrLessTransitive(a: string, b: string, c: string)
    requires StrLess(a, b) && StrLess(b, c)
    ensures StrLess(a, c)
  {
    if a != [] && b != [] && c != [] && a[0] == b[0] && b[0] == c[0] {
      StrLessTransitive(a[1..], b[1..], c[1..]);
    }
  }

  lemma {:induction false} StrLessTotal(a: string, b: string)
    requires a != b
    ensures StrLess(a, b) || StrLess(b, a)
  {
    if a != [] && b != [] && a[0] == b[0] {
      assert a == [a[0]] + a[1..];
      assert b == [b[0]] + b[1..];
      StrLessTotal(a[1..], b[1..]);
    }
  }

  /** k is below every other member of s. */
  predicate IsLeast(k: string, s: set<string>)
  {
    k in s && forall k' :: k' in s && k' != k ==> StrLess(k, k')
  }

  /** Every non-empty finite set of strings has a least member. */
  lemma {:induction false} LeastExists(s: set<string>)
    requires s != {}
    ensures exists k :: IsLeast(k, s)
    decreases |s|
  {
    var x :| x in s;
    if s == {x} {
      assert IsLeast(x, s);
    } else {
      var rest := s - {x};
      LeastExists(rest);
      var k :| IsLeast(k, rest);
      if StrLess(x, k) {
        forall k' | k' in s && k' != x
          ensures StrLess(x, k')
        {
          if k' != k {
            StrLessTransitive(x, k, k');
          }
        }
        assert IsLeast(x, s);
      } else {
        assert x != k;
        StrLessTotal(x, k);
        assert IsLeast(k, s);
      }
    }
  }

  lemma LeastUnique(k1: string, k2: string, s: set<string>)
    requires IsLeast(k1, s) && IsLeast(k2, s)
    ensures k1 == k2
  {
    if k1 != k2 {
      StrLessAsymmetric(k1, k2);
    }
  }

  function Least(s: set<string>): (k: string)
    requires s != {}
    ensures IsLeast(k, s)
  {
    LeastExists(s);
    assert forall k1, k2 :: IsLeast(k1, s) && IsLeast(k2, s) ==> k1 == k2 by {
      forall k1, k2 | IsLeast(k1, s) && IsLeast(k2, s) ensures k1 == k2 {
        LeastUnique(k1, k2, s);
      }
    }
    var k :| IsLeast(k, s);
    k
  }

  predicate StrictlyIncreasing(ks: seq<string>)
  {
    forall i, j :: 0 <= i < j < |ks| ==> StrLess(ks[i], ks[j])
  }

  /** The keys of a set in increasing order: the order a key-ordered store enumerates them in. */
  function SortedKeys(s: set<string>): (ks: seq<string>)
    ensures |ks| == |s|
    ensures forall k :: k in ks <==> k in s
    ensures StrictlyIncreasing(ks)
    decreases |s|
  {
    if s == {} then []
    else
      var k := Least(s);
      var rest := SortedKeys(s - {k});
      [k] + rest
  }

  /** The values of a table in primary-key order (`table.toArray()`). */
  function Rows<V>(m: map<string, V>): (rows: seq<V>)
    ensures |rows| == |m|
    ensures forall i :: 0 <= i < |rows| ==> exists k :: k in m && rows[i] == m[k]
    ensures forall k :: k in m ==> m[k] in rows
  {
    var ks := SortedKeys(m.Keys);
    var rows := seq(|ks|, i requires 0 <= i < |ks| => m[ks[i]]);
    assert forall k :: k in m ==> m[k] in rows by {
      forall k | k in m ensures m[k] in rows {
        var i :| 0 <= i < |ks| && ks[i] == k;
        assert rows[i] == m[k];
      }
    }
    rows
  }

  /** Ordered by a key, largest first. */
  predicate SortedDesc<T>(s: seq<T>, key: T -> int)
  {
    forall i, j :: 0 <= i < j < |s| ==> key(s[i]) >= key(s[j])
  }

  function InsertDesc<T>(x: T, s: seq<T>, key: T -> int): (r: seq<T>)
    requires SortedDesc(s, key)
    ensures SortedDesc(r, key)
    ensures multiset(r) == multiset(s) + multiset{x}
  {
    if s == [] || key(x) >= key(s[0]) then
      ConsSorted(x, s, key);
      [x] + s
    else
      var rest := InsertDesc(x, s[1..], key);
      InsertDescBelowHead(x, s, rest, key);
      ConsSorted(s[0], rest, key);
      [s[0]] + rest
  }

  /** Putting in front an element at least as large as every other keeps the order. */
  lemma ConsSorted<T>(h: T, s: seq<T>, key: T -> int)
    requires SortedDesc(s, key)
    requires s == [] || key(h) >= key(s[0])
    ensures SortedDesc([h] + s, key)
  {
  }

  /** Inserting below the head of a sorted list: the head bounds the result and the multiset grows by x. */
  lemma InsertDescBelowHead<T>(x: T, s: seq<T>, rest: seq<T>, key: T -> int)
    requires SortedDesc(s, key) && s != [] && key(x) < key(s[0])
    requires multiset(rest) == multiset(s[1..]) + multiset{x}
    ensures rest == [] || key(s[0]) >= key(rest[0])
    ensures multiset([s[0]] + rest) == multiset(s) + multiset{x}
  {
    assert s == [s[0]] + s[1..];
    if rest != [] {
      assert rest[0] in multiset(rest);
      if rest[0] != x {
        assert rest[0] in multiset(s[1..]);
        var i :| 0 <= i < |s[1..]| && s[1..][i] == rest[0];
        assert s[i + 1] == rest[0];
      }
    }
  }

  /** Sorts by a key, largest first (`ORDER BY key DESC`). */
  function SortDesc<T>(s: seq<T>, key: T -> int): (r: seq<T>)
    ensures SortedDesc(r, key)
    ensures multiset(r) == multiset(s)
  {
    if s == [] then []
    else
      assert s == [s[0]] + s[1..];
      InsertDesc(s[0], SortDesc(s[1..], key), key)
  }

  /** The elements of s that satisfy f, in their original order (`Array.prototype.filter`). */
  function Filter<T>(s: seq<T>, f: T -> bool): (r: seq<T>)
    ensures |r| <= |s|
    ensures forall i :: 0 <= i < |r| ==> f(r[i]) && r[i] in s
    ensures forall i :: 0 <= i < |s| && f(s[i]) ==> s[i] in r
    ensures multiset(r) <= multiset(s)
  {
    if s == [] then []
    else
      assert s == [s[0]] + s[1..];
      var rest := Filter(s[1..], f);
      if f(s[0]) then [s[0]] + rest else rest
  }

  /** Filter keeps each satisfying element as often as the input holds it, and drops the rest. */
  lemma {:induction false} FilterCount<T>(s: seq<T>, f: T -> bool, x: T)
    ensures multiset(Filter(s, f))[x] == if f(x) then multiset(s)[x] else 0
  {
    if s != [] {
      assert s == [s[0]] + s[1..];
      FilterCount(s[1..], f, x);
    }
  }

  /** A sequence without repeats holds each of its elements once. */
  lemma {:induction false} DistinctOnce<T>(s: seq<T>, x: T)
    requires forall i, j :: 0 <= i < j < |s| ==> s[i] != s[j]
    ensures multiset(s)[x] == if x in s then 1 else 0
  {
    if s != [] {
      assert s == [s[0]] + s[1..];
      DistinctOnce(s[1..], x);
      if x == s[0] {
        assert x !in s[1..] by {
          forall j | 0 <= j < |s[1..]| ensures s[1..][j] != x {
            assert s[1..][j] == s[j + 1];
          }
        }
      }
    }
  }

  /** Filtering distributes over concatenation, so the original order is kept. */
  lemma {:induction false} FilterConcat<T>(a: seq<T>, b: seq<T>, f: T -> bool)
    ensures Filter(a + b, f) == Filter(a, f) + Filter(b, f)
  {
    if a == [] {
      assert a + b == b;
    } else {
      assert (a + b)[0] == a[0];
      assert (a + b)[1..] == a[1..] + b;
      FilterConcat(a[1..], b, f);
    }
  }

  lemma FilterMember<T>(s: seq<T>, f: T -> bool, x: T)
    ensures x in Filter(s, f) <==> x in s && f(x)
  {
    var r := Filter(s, f);
    if x in r {
      var i :| 0 <= i < |r| && r[i] == x;
    }
    if x in s && f(x) {
      var i :| 0 <= i < |s| && s[i] == x;
    }
  }

  lemma SortDescMember<T>(s: seq<T>, key: T -> int, x: T)
    ensures x in SortDesc(s, key) <==> x in s
  {
    assert x in SortDesc(s, key) <==> x in multiset(SortDesc(s, key));
    assert x in s <==> x in multiset(s);
  }

  lemma RowsMember<V>(m: map<string, V>, v: V)
    ensures v in Rows(m) <==> v in m.Values
  {
    if v in Rows(m) {
      var i :| 0 <= i < |Rows(m)| && Rows(m)[i] == v;
    }
  }

  /** Rows lists the row under the i-th smallest key at position i. */
  lemma RowsAt<V>(m: map<string, V>, i: int)
    requires 0 <= i < |Rows(m)|
    ensures SortedKeys(m.Keys)[i] in m && Rows(m)[i] == m[SortedKeys(m.Keys)[i]]
  {
  }

  /**
    In a table whose rows are stored under their own keys, the rows Rows
    lists carry pairwise distinct keys, and every key of the table is listed.
   */
  lemma RowsDistinctKeys<V>(m: map<string, V>, key: V -> string)
    requires forall k :: k in m ==> key(m[k]) == k
    ensures forall i, j :: 0 <= i < j < |Rows(m)| ==> key(Rows(m)[i]) != key(Rows(m)[j])
    ensures forall k :: k in m ==> exists i :: 0 <= i < |Rows(m)| && key(Rows(m)[i]) == k
  {
    var rows := Rows(m);
    var ks := SortedKeys(m.Keys);
    forall i, j | 0 <= i < j < |rows| ensures key(rows[i]) != key(rows[j]) {
      RowsAt(m, i);
      RowsAt(m, j);
      StrLessIrreflexive(ks[i]);
    }
    forall k | k in m ensures exists i :: 0 <= i < |rows| && key(rows[i]) == k {
      var i :| 0 <= i < |rows| && rows[i] == m[k];
    }
  }

  /** In a table whose rows are stored under their own keys, Rows lists each row exactly once. */
  lemma RowsOnce<V>(m: map<string, V>, key: V -> string, v: V)
    requires forall k :: k in m ==> key(m[k]) == k
    ensures multiset(Rows(m))[v] == if v in m.Values then 1 else 0
  {
    var rows := Rows(m);
    RowsDistinctKeys(m, key);
    assert forall i, j :: 0 <= i < j < |rows| ==> rows[i] != rows[j] by {
      forall i, j | 0 <= i < j < |rows| ensures rows[i] != rows[j] {
        assert key(rows[i]) != key(rows[j]);
      }
    }
    DistinctOnce(rows, v);
    RowsMember(m, v);
  }
}
