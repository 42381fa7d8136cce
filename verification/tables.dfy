/** Row-level operations on one table, the vocabulary the entity writes and
    deletes are phrased in: finding a row by key, `save()` as an update of the
    row with the same key or else an insert, and how both interact with
    UNIQUE columns and key sets. */
module Tables {
  import opened Common

  /** The first row of `rows` whose `key` is `k`. */
  function Lookup<T, K(==)>(rows: seq<T>, key: T -> K, k: K): (r: Option<T>)
    ensures r.Some? ==> r.value in rows && key(r.value) == k
    ensures r.None? <==> k !in KeySet(rows, key)
  {
    if |rows| == 0 then None
    else if key(rows[0]) == k then Some(rows[0])
    else
      assert KeySet(rows, key) == {key(rows[0])} + KeySet(rows[1..], key) by {
        assert rows == [rows[0]] + rows[1..];
      }
      Lookup(rows[1..], key, k)
  }

  /** Under a unique key, looking a key up finds the one row that carries it. */
  lemma LookupFindsUnique<T, K>(rows: seq<T>, key: T -> K, x: T)
    requires UniqueBy(rows, key) && x in rows
    ensures Lookup(rows, key, key(x)) == Some(x)
  {
    var r := Lookup(rows, key, key(x));
    assert key(x) in KeySet(rows, key);
    UniqueKeyDeterminesRow(rows, key, r.value, x);
  }

  /** Django's `save()`: UPDATE the row stored under the same key when there
      is one, INSERT `x` at the end otherwise. */
  function Upsert<T(!new), K(==)>(rows: seq<T>, x: T, key: T -> K): (r: seq<T>)
    ensures x in r
    ensures forall y :: y in r ==> y == x || (y in rows && key(y) != key(x))
    ensures forall y :: y in rows && key(y) != key(x) ==> y in r
    ensures key(x) in KeySet(rows, key) ==>
              |r| == |rows| && forall i :: 0 <= i < |rows| ==> r[i] == (if key(rows[i]) == key(x) then x else rows[i])
    ensures key(x) !in KeySet(rows, key) ==> r == rows + [x]
  {
    if Lookup(rows, key, key(x)).Some? then
      var r := Map(rows, y => if key(y) == key(x) then x else y);
      assert x in r by {
        var i :| 0 <= i < |rows| && rows[i] == Lookup(rows, key, key(x)).value;
        assert r[i] == x;
      }
      assert forall y :: y in r ==> y == x || (y in rows && key(y) != key(x)) by {
        forall y | y in r ensures y == x || (y in rows && key(y) != key(x)) {
          var j :| 0 <= j < |r| && r[j] == y;
        }
      }
      assert forall y :: y in rows && key(y) != key(x) ==> y in r by {
        forall y | y in rows && key(y) != key(x) ensures y in r {
          var j :| 0 <= j < |rows| && rows[j] == y;
          assert r[j] == y;
        }
      }
      r
    else
      rows + [x]
  }

  /** After a save the table carries exactly the keys it had plus the key of
      the saved row. */
  lemma UpsertKeySet<T(!new), K>(rows: seq<T>, x: T, key: T -> K)
    ensures KeySet(Upsert(rows, x, key), key) == KeySet(rows, key) + {key(x)}
  {
    var r := Upsert(rows, x, key);
    forall k | k in KeySet(rows, key) ensures k in KeySet(r, key) {
      var y :| y in rows && key(y) == k;
      if k != key(x) {
        assert y in r;
      }
    }
  }

  /** A save keeps a column unique when no row stored under another key
      already holds the saved row's value; with `col == key` this says that a
      save keeps the primary key unique. */
  lemma {:induction false} UpsertKeepsUnique<T(!new), K, C>(rows: seq<T>, x: T, key: T -> K, col: T -> C)
    requires UniqueBy(rows, key) && UniqueBy(rows, col)
    requires forall y :: y in rows && key(y) != key(x) ==> col(y) != col(x)
    ensures UniqueBy(Upsert(rows, x, key), col)
  {
    var r := Upsert(rows, x, key);
    if key(x) in KeySet(rows, key) {
      forall i, j | 0 <= i < j < |r| ensures col(r[i]) != col(r[j]) {
        assert rows[i] in rows && rows[j] in rows;
        assert key(rows[i]) != key(rows[j]);
      }
    } else {
      forall i | 0 <= i < |rows| ensures col(rows[i]) != col(x) {
        assert rows[i] in rows;
        assert key(rows[i]) in KeySet(rows, key);
      }
      forall i, j | 0 <= i < j < |r| ensures col(r[i]) != col(r[j]) {
        if j == |rows| {
          assert r[i] == rows[i] && r[j] == x;
        } else {
          assert r[i] == rows[i] && r[j] == rows[j];
        }
      }
    }
  }

  /** Rewriting rows with a function that keeps their key keeps the key unique. */
  lemma MapKeepsUnique<T, K>(s: seq<T>, f: T -> T, key: T -> K)
    requires UniqueBy(s, key)
    requires forall x :: key(f(x)) == key(x)
    ensures UniqueBy(Map(s, f), key)
  {
    var r := Map(s, f);
    forall i, j | 0 <= i < j < |r| ensures key(r[i]) != key(r[j]) {
      assert key(r[i]) == key(s[i]) && key(r[j]) == key(s[j]);
    }
  }

  /** ... and keeps the set of keys the table holds. */
  lemma MapKeepsKeySet<T, K>(s: seq<T>, f: T -> T, key: T -> K)
    requires forall x :: key(f(x)) == key(x)
    ensures KeySet(Map(s, f), key) == KeySet(s, key)
  {
    var r := Map(s, f);
    forall k | k in KeySet(s, key) ensures k in KeySet(r, key) {
      var i :| 0 <= i < |s| && key(s[i]) == k;
      assert r[i] in r;
    }
    forall k | k in KeySet(r, key) ensures k in KeySet(s, key) {
      var i :| 0 <= i < |r| && key(r[i]) == k;
      assert s[i] in s;
    }
  }

  /** A row that survives a filter keeps its key in the filtered table. */
  lemma FilterKeepsKey<T(!new), K>(s: seq<T>, f: T -> bool, key: T -> K, y: T)
    requires y in s && f(y)
    ensures key(y) in KeySet(Filter(s, f), key)
  {
    assert y in Filter(s, f);
  }

  /** The rows whose `key` lies outside `ids`: what a DELETE of the keys in
      `ids`, or a CASCADE from them, leaves behind. */
  function Outside<T(!new), K(==)>(ids: set<K>, key: T -> K): (f: T -> bool)
    ensures forall x :: f(x) <==> key(x) !in ids
  {
    x => key(x) !in ids
  }

  /** Whether a row stored under another key already holds `x`'s value in
      column `col`: the condition under which a UNIQUE constraint refuses to
      save `x`. */
  predicate Clashes<T(==), K(==), C(==)>(rows: seq<T>, x: T, key: T -> K, col: T -> C) {
    exists y :: y in rows && key(y) != key(x) && col(y) == col(x)
  }

  /** A key outside `ids` that a table held is still held after the rows
      with keys in `ids` are deleted. */
  lemma KeySurvivesDelete<T(!new), K>(rows: seq<T>, key: T -> K, ids: set<K>, k: K)
    requires k in KeySet(rows, key) && k !in ids
    ensures k in KeySet(Filter(rows, Outside(ids, key)), key)
  {
    var y :| y in rows && key(y) == k;
    FilterKeepsKey(rows, Outside(ids, key), key, y);
  }
}
