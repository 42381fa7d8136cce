/** Ordering and paging: multi-column sort keys compared the way SQL's
    ORDER BY compares them, a stable sort on such keys, Python's
    `sorted(set(...))` on strings, and the page slicing of Django's paginator. */
module Ordering {
  import opened Common

  /** A sort key: integer columns compared left to right. A descending column
      is stored negated. */
  type Key = seq<int>

  predicate KeyLe(a: Key, b: Key)
    decreases |a|
  {
    |a| == 0 || (|b| > 0 && (a[0] < b[0] || (a[0] == b[0] && KeyLe(a[1..], b[1..]))))
  }

  lemma {:induction false} KeyLeReflexive(a: Key)
    ensures KeyLe(a, a)
    decreases |a|
  {
    if |a| > 0 {
      KeyLeReflexive(a[1..]);
    }
  }

  lemma {:induction false} KeyLeTotal(a: Key, b: Key)
    ensures KeyLe(a, b) || KeyLe(b, a)
    decreases |a|
  {
    if |a| > 0 && |b| > 0 {
      KeyLeTotal(a[1..], b[1..]);
    }
  }

  lemma {:induction false} KeyLeTransitive(a: Key, b: Key, c: Key)
    requires KeyLe(a, b) && KeyLe(b, c)
    ensures KeyLe(a, c)
    decreases |a|
  {
    if |a| > 0 && a[0] == b[0] && b[0] == c[0] {
      KeyLeTransitive(a[1..], b[1..], c[1..]);
    }
  }

  lemma {:induction false} KeyLeAntisymmetric(a: Key, b: Key)
    requires KeyLe(a, b) && KeyLe(b, a)
    ensures a == b
    decreases |a|
  {
    if |a| > 0 {
      KeyLeAntisymmetric(a[1..], b[1..]);
      assert a == [a[0]] + a[1..] && b == [b[0]] + b[1..];
    }
  }

  /** `s` is in ascending `key` order. */
  predicate SortedBy<T>(s: seq<T>, key: T -> Key) {
    forall i, j :: 0 <= i < j < |s| ==> KeyLe(key(s[i]), key(s[j]))
  }

  /** Inserts `x` before the first element whose key is not below it. */
  function InsertBy<T>(x: T, s: seq<T>, key: T -> Key): (r: seq<T>)
    requires SortedBy(s, key)
    ensures SortedBy(r, key)
    ensures multiset(r) == multiset(s) + multiset{x}
    decreases |s|
  {
    if |s| == 0 then [x]
    else if KeyLe(key(x), key(s[0])) then
      InsertFront(x, s, key);
      [x] + s
    else
      var rest := InsertBy(x, s[1..], key);
      InsertLater(x, s, rest, key);
      assert s == [s[0]] + s[1..];
      [s[0]] + rest
  }

  /** An element no greater than the head of a sorted sequence may lead it. */
  lemma InsertFront<T>(x: T, s: seq<T>, key: T -> Key)
    requires SortedBy(s, key) && |s| > 0 && KeyLe(key(x), key(s[0]))
    ensures SortedBy([x] + s, key)
  {
    var r := [x] + s;
    forall i, j | 0 <= i < j < |r| ensures KeyLe(key(r[i]), key(r[j])) {
      if i == 0 {
        if j > 1 {
          KeyLeTransitive(key(x), key(s[0]), key(s[j - 1]));
        }
      } else {
        assert r[i] == s[i - 1] && r[j] == s[j - 1];
      }
    }
  }

  /** An element above the head of a sorted sequence, once inserted into
      its tail, leaves the head in front. */
  lemma InsertLater<T>(x: T, s: seq<T>, rest: seq<T>, key: T -> Key)
    requires SortedBy(s, key) && |s| > 0 && !KeyLe(key(x), key(s[0]))
    requires SortedBy(rest, key) && multiset(rest) == multiset(s[1..]) + multiset{x}
    ensures SortedBy([s[0]] + rest, key)
  {
    forall y | y in rest ensures KeyLe(key(s[0]), key(y)) {
      assert y in multiset(rest);
      if y == x {
        KeyLeTotal(key(x), key(s[0]));
      } else {
        assert y in multiset(s[1..]);
        var j :| 0 <= j < |s[1..]| && s[1..][j] == y;
        assert s[j + 1] == y;
      }
    }
    var r := [s[0]] + rest;
    forall i, j | 0 <= i < j < |r| ensures KeyLe(key(r[i]), key(r[j])) {
      if i == 0 {
        assert r[j] in rest;
      } else {
        assert r[i] == rest[i - 1] && r[j] == rest[j - 1];
      }
    }
  }

  /** Insertion sort on `key`: the elements of `s`, rearranged into ascending
      key order. Elements with equal keys keep their relative order. */
  function SortBy<T>(s: seq<T>, key: T -> Key): (r: seq<T>)
    ensures SortedBy(r, key)
    ensures multiset(r) == multiset(s)
    ensures |r| == |s|
  {
    if |s| == 0 then []
    else
      assert s == [s[0]] + s[1..];
      var r := InsertBy(s[0], SortBy(s[1..], key), key);
      assert |r| == |multiset(r)|;
      r
  }

  /** A prefix of a sorted sequence is sorted. */
  lemma TakeSorted<T>(s: seq<T>, n: nat, key: T -> Key)
    requires SortedBy(s, key)
    ensures SortedBy(Take(s, n), key)
  {
  }

  /** The elements of a prefix come from the sequence. */
  lemma TakeMembers<T>(s: seq<T>, n: nat, x: T)
    requires x in Take(s, n)
    ensures x in s
  {
    var t := Take(s, n);
    var i :| 0 <= i < |t| && t[i] == x;
    assert s[i] == x;
  }

  // ---------------------------------------------------------- selections

  /** The rows that pass `keep`, in ascending `key` order: a filtered
      queryset with an `order_by`. */
  function Select<T(!new)>(rows: seq<T>, keep: T -> bool, key: T -> Key): (r: seq<T>)
    ensures SortedBy(r, key)
    ensures forall x :: x in r <==> x in rows && keep(x)
    ensures multiset(r) == multiset(Filter(rows, keep))
  {
    var r := SortBy(Filter(rows, keep), key);
    assert forall x :: x in r <==> x in Filter(rows, keep) by {
      forall x ensures x in r <==> x in Filter(rows, keep) {
        assert x in r <==> x in multiset(r);
      }
    }
    r
  }

  /** The first `n` rows of a selection: a sliced queryset `[:n]`. */
  function Top<T(!new)>(rows: seq<T>, keep: T -> bool, key: T -> Key, n: nat): (r: seq<T>)
    ensures |r| <= n
    ensures r <= Select(rows, keep, key)
    ensures |r| == Min(n, |Filter(rows, keep)|)
    ensures forall x :: x in r ==> x in rows && keep(x)
    ensures SortedBy(r, key)
    ensures |r| < n ==> forall x :: x in rows && keep(x) ==> x in r
  {
    var all := Select(rows, keep, key);
    var r := Take(all, n);
    assert |all| == |Filter(rows, keep)| by {
      assert |all| == |multiset(all)| == |multiset(Filter(rows, keep))|;
    }
    assert forall x :: x in r ==> x in all by {
      forall x | x in r ensures x in all {
        TakeMembers(all, n, x);
      }
    }
    TakeSorted(all, n, key);
    r
  }

  /** What a slice leaves out sorts no earlier than anything it shows. */
  lemma TopFirst<T(!new)>(rows: seq<T>, keep: T -> bool, key: T -> Key, n: nat, x: T, y: T)
    requires x in Top(rows, keep, key, n)
    requires y in rows && keep(y) && y !in Top(rows, keep, key, n)
    ensures KeyLe(key(x), key(y))
  {
    var all := Select(rows, keep, key);
    var r := Top(rows, keep, key, n);
    var i :| 0 <= i < |r| && r[i] == x;
    var j :| 0 <= j < |all| && all[j] == y;
    assert forall k :: 0 <= k < |r| ==> r[k] == all[k];
    assert i < j;
  }

  /** Under a unique key no row occurs twice. */
  lemma {:induction false} UniqueOccursOnce<T, K>(s: seq<T>, key: T -> K, y: T)
    requires UniqueBy(s, key)
    ensures multiset(s)[y] <= 1
    decreases |s|
  {
    if |s| > 0 {
      assert s == [s[0]] + s[1..];
      UniqueOccursOnce(s[1..], key, y);
      if s[0] == y {
        forall j | 0 <= j < |s[1..]| ensures s[1..][j] != y {
          UniqueByAt(s, key, 0, j + 1);
        }
      }
    }
  }

  /** Reordering rows keeps a unique key unique. */
  lemma PermutationKeepsUnique<T, K>(a: seq<T>, b: seq<T>, key: T -> K)
    requires UniqueBy(a, key) && multiset(a) == multiset(b)
    ensures UniqueBy(b, key)
  {
    forall i, j | 0 <= i < j < |b| ensures key(b[i]) != key(b[j]) {
      if key(b[i]) == key(b[j]) {
        assert b[i] in multiset(b) && b[j] in multiset(b);
        assert b[i] in a && b[j] in a;
        UniqueKeyDeterminesRow(a, key, b[i], b[j]);
        assert b == b[..j] + b[j..];
        assert b[i] == b[..j][i] && b[j] == b[j..][0];
        assert multiset(b)[b[i]] == multiset(b[..j])[b[i]] + multiset(b[j..])[b[i]];
        UniqueOccursOnce(a, key, b[i]);
        assert false;
      }
    }
  }

  /** The code points of a string, the column Python's string comparison
      works on. */
  function Codes(s: string): (r: Key)
    ensures |r| == |s|
    ensures forall i :: 0 <= i < |s| ==> r[i] == s[i] as int
  {
    seq(|s|, i requires 0 <= i < |s| => s[i] as int)
  }

  lemma CodesInjective(a: string, b: string)
    requires Codes(a) == Codes(b)
    ensures a == b
  {
    assert |a| == |b|;
    forall i | 0 <= i < |a| ensures a[i] == b[i] {
      assert Codes(a)[i] == Codes(b)[i];
    }
  }

  /** Python's `a < b` on strings: code-point lexicographic order. */
  predicate StrLt(a: string, b: string) {
    a != b && KeyLe(Codes(a), Codes(b))
  }

  lemma StrLtTransitive(a: string, b: string, c: string)
    requires StrLt(a, b) && StrLt(b, c)
    ensures StrLt(a, c)
  {
    KeyLeTransitive(Codes(a), Codes(b), Codes(c));
    if a == c {
      KeyLeAntisymmetric(Codes(a), Codes(b));
      CodesInjective(a, b);
    }
  }

  lemma StrLtTotal(a: string, b: string)
    requires a != b
    ensures StrLt(a, b) || StrLt(b, a)
  {
    KeyLeTotal(Codes(a), Codes(b));
  }

  lemma StrLtIrreflexive(a: string, b: string)
    requires StrLt(a, b)
    ensures !StrLt(b, a)
  {
    if StrLt(b, a) {
      KeyLeAntisymmetric(Codes(a), Codes(b));
      CodesInjective(a, b);
    }
  }

  /** Strictly ascending, hence free of duplicates. */
  predicate StrictlySorted(s: seq<string>) {
    forall i, j :: 0 <= i < j < |s| ==> StrLt(s[i], s[j])
  }

  function InsertUnique(x: string, s: seq<string>): (r: seq<string>)
    requires StrictlySorted(s)
    ensures StrictlySorted(r)
    ensures forall y :: y in r <==> y == x || y in s
    decreases |s|
  {
    if |s| == 0 then [x]
    else if x == s[0] then s
    else if StrLt(x, s[0]) then
      UniqueFront(x, s);
      [x] + s
    else
      var rest := InsertUnique(x, s[1..]);
      UniqueLater(x, s, rest);
      [s[0]] + rest
  }

  /** A string below the head of a strictly sorted sequence may lead it. */
  lemma UniqueFront(x: string, s: seq<string>)
    requires StrictlySorted(s) && |s| > 0 && StrLt(x, s[0])
    ensures StrictlySorted([x] + s)
  {
    var r := [x] + s;
    forall i, j | 0 <= i < j < |r| ensures StrLt(r[i], r[j]) {
      if i == 0 {
        if j > 1 {
          StrLtTransitive(x, s[0], s[j - 1]);
        }
      } else {
        assert r[i] == s[i - 1] && r[j] == s[j - 1];
      }
    }
  }

  /** A string above the head of a strictly sorted sequence, once inserted
      into its tail, leaves the head in front. */
  lemma UniqueLater(x: string, s: seq<string>, rest: seq<string>)
    requires StrictlySorted(s) && |s| > 0 && x != s[0] && !StrLt(x, s[0])
    requires StrictlySorted(rest) && forall y :: y in rest <==> y == x || y in s[1..]
    ensures StrictlySorted([s[0]] + rest)
    ensures forall y :: y in [s[0]] + rest <==> y == x || y in s
  {
    assert forall y :: y in s <==> y == s[0] || y in s[1..] by {
      assert s == [s[0]] + s[1..];
    }
    forall y | y in rest ensures StrLt(s[0], y) {
      if y == x {
        StrLtTotal(x, s[0]);
      } else {
        var j :| 0 <= j < |s[1..]| && s[1..][j] == y;
        assert s[j + 1] == y;
      }
    }
    var r := [s[0]] + rest;
    forall i, j | 0 <= i < j < |r| ensures StrLt(r[i], r[j]) {
      if i == 0 {
        assert r[j] in rest;
      } else {
        assert r[i] == rest[i - 1] && r[j] == rest[j - 1];
      }
    }
  }

  /** Python's `sorted(set(xs))`: the distinct strings of `xs`, ascending. */
  function SortedSet(xs: seq<string>): (r: seq<string>)
    ensures StrictlySorted(r)
    ensures forall y :: y in r <==> y in xs
  {
    if |xs| == 0 then []
    else
      assert forall y :: y in xs <==> y == xs[0] || y in xs[1..] by {
        assert xs == [xs[0]] + xs[1..];
      }
      InsertUnique(xs[0], SortedSet(xs[1..]))
  }

  /** A strictly ascending list is determined by its elements: `SortedSet`
      returns the one sorted listing of a set of strings. */
  lemma {:induction false} StrictlySortedUnique(a: seq<string>, b: seq<string>)
    requires StrictlySorted(a) && StrictlySorted(b)
    requires forall y :: y in a <==> y in b
    ensures a == b
    decreases |a|
  {
    if |a| > 0 {
      assert a[0] in b;
    }
    if |b| > 0 {
      assert b[0] in a;
    }
    if |a| > 0 && |b| > 0 {
      if a[0] != b[0] {
        assert a[0] in a;
        var i :| 0 <= i < |b| && b[i] == a[0];
        assert StrLt(b[0], b[i]);
        assert b[0] in b;
        var j :| 0 <= j < |a| && a[j] == b[0];
        assert StrLt(a[0], a[j]);
        StrLtIrreflexive(a[0], b[0]);
      }
      assert a == [a[0]] + a[1..] && b == [b[0]] + b[1..];
      forall y ensures y in a[1..] <==> y in b[1..] {
        if y in a[1..] {
          var k :| 0 <= k < |a[1..]| && a[1..][k] == y;
          assert StrLt(a[0], a[k + 1]);
          assert y in b && y != b[0];
        }
        if y in b[1..] {
          var k :| 0 <= k < |b[1..]| && b[1..][k] == y;
          assert StrLt(b[0], b[k + 1]);
          assert y in a && y != a[0];
        }
      }
      StrictlySortedUnique(a[1..], b[1..]);
    }
  }

  /** Django's `Paginator.num_pages` with no orphans and an allowed empty first
      page: an empty listing still has page 1. */
  function NumPages(count: nat, size: nat): nat
    requires size > 0
  {
    var hits := if count > 1 then count else 1;
    (hits + size - 1) / size
  }

  /** The page numbered `number` (from 1) of `s` cut into pages of `size`, or
      None when Django's paginator would refuse the number. */
  function Page<T>(s: seq<T>, number: int, size: nat): (r: Option<seq<T>>)
    requires size > 0
    ensures r.Some? <==> 1 <= number <= NumPages(|s|, size)
    ensures r.Some? ==> |r.value| <= size
    ensures r.Some? ==> (number - 1) * size <= |s| && |r.value| == Min(size, |s| - (number - 1) * size)
    ensures r.Some? ==> forall k :: 0 <= k < |r.value| ==>
              (number - 1) * size + k < |s| && r.value[k] == s[(number - 1) * size + k]
    ensures r.Some? ==> forall x :: x in r.value ==> x in s
  {
    if 1 <= number <= NumPages(|s|, size) then
      PageStart(|s|, size, number);
      var bottom := (number - 1) * size;
      var top := Min(bottom + size, |s|);
      Some(s[bottom..top])
    else None
  }

  /** A page that exists starts inside the listing, or at 0 when the
      listing is empty. */
  lemma PageStart(count: nat, size: nat, number: int)
    requires size > 0 && 1 <= number <= NumPages(count, size)
    ensures (number - 1) * size < (if count > 1 then count else 1)
  {
    var hits := if count > 1 then count else 1;
    var m := (hits + size - 1) / size;
    assert m * size <= hits + size - 1;
    assert (number - 1) * size <= (m - 1) * size;
  }

  lemma DivisionBound(i: nat, n: nat, size: nat)
    requires size > 0 && i < n
    ensures i / size + 1 <= (n + size - 1) / size
  {
    var q := i / size;
    var m := (n + size - 1) / size;
    var rem := (n + size - 1) % size;
    assert q * size <= i;
    assert (q + 1) * size <= n + size - 1 == m * size + rem;
    assert (q + 1) * size < (m + 1) * size;
    assert (q - m) * size == (q + 1) * size - (m + 1) * size;
    assert (q - m) * size < 0;
  }

  /** Every element lies on exactly the page its position puts it on. */
  lemma PageCovers<T>(s: seq<T>, size: nat, i: nat)
    requires size > 0 && i < |s|
    ensures Page(s, i / size + 1, size).Some?
    ensures i % size < |Page(s, i / size + 1, size).value|
    ensures Page(s, i / size + 1, size).value[i % size] == s[i]
  {
    DivisionBound(i, |s|, size);
    var n := i / size + 1;
    assert (n - 1) * size + i % size == i;
    var bottom := (n - 1) * size;
    assert bottom <= i;
    var top := Min(bottom + size, |s|);
    assert i < top;
  }
}
