/** Generic building blocks of the portfolio model: optional values, the
    failure modes of a request or a write, and the sequence combinators the
    query layer is written with. */
module Common {

  datatype Option<+T> = None | Some(value: T)

  /** How a request or a write can fail. */
  datatype Error =
    | NotFound                       // Http404: no such row, an unpublished row, or a disabled feature
    | MultipleFound                  // a single-row lookup matched several rows
    | Integrity(constraint: string)  // a UNIQUE or FOREIGN KEY constraint refused the write
    | Invalid(fields: seq<string>)   // validation refused the named fields

  datatype Result<+T> = Ok(value: T) | Err(error: Error)

  function Min(a: int, b: int): int { if a <= b then a else b }

  /** The elements of `s` that satisfy `f`, in their original order and with
      their original multiplicities. */
  function Filter<T(!new)>(s: seq<T>, f: T -> bool): (r: seq<T>)
    ensures |r| <= |s|
    ensures forall i :: 0 <= i < |r| ==> f(r[i])
    ensures forall x :: x in r <==> x in s && f(x)
  {
    if |s| == 0 then []
    else
      assert s == [s[0]] + s[1..];
      (if f(s[0]) then [s[0]] else []) + Filter(s[1..], f)
  }

  lemma {:induction false} FilterAppend<T(!new)>(a: seq<T>, b: seq<T>, f: T -> bool)
    ensures Filter(a + b, f) == Filter(a, f) + Filter(b, f)
  {
    if |a| == 0 {
      assert a + b == b;
    } else {
      ConsAppend(a, b);
      FilterAppend(a[1..], b, f);
      var head := if f(a[0]) then [a[0]] else [];
      AppendAssoc(head, Filter(a[1..], f), Filter(b, f));
    }
  }

  /** The head and tail of a concatenation whose left part is not empty. */
  lemma ConsAppend<T>(xs: seq<T>, ys: seq<T>)
    requires |xs| > 0
    ensures (xs + ys)[0] == xs[0] && (xs + ys)[1..] == xs[1..] + ys
  {
  }

  /** A non-empty sequence is its head before its tail. */
  lemma HeadTail<T>(xs: seq<T>)
    requires |xs| > 0
    ensures xs == [xs[0]] + xs[1..]
  {
  }

  /** Concatenation is associative. */
  lemma AppendAssoc<T>(a: seq<T>, b: seq<T>, c: seq<T>)
    ensures a + (b + c) == (a + b) + c
  {
  }

  /** Filtering keeps each selected element exactly as often as it occurs. */
  lemma {:induction false} FilterMultiset<T(!new)>(s: seq<T>, f: T -> bool)
    ensures forall x :: multiset(Filter(s, f))[x] == if f(x) then multiset(s)[x] else 0
  {
    if |s| > 0 {
      FilterMultiset(s[1..], f);
      assert s == [s[0]] + s[1..];
      var head: seq<T> := if f(s[0]) then [s[0]] else [];
      assert Filter(s, f) == head + Filter(s[1..], f);
    }
  }

  lemma FilterSingleton<T(!new)>(x: T, f: T -> bool)
    ensures Filter([x], f) == if f(x) then [x] else []
  {
    assert [x][1..] == [];
  }

  /** Nothing passes a filter that no element satisfies. */
  lemma {:induction false} FilterNone<T(!new)>(s: seq<T>, f: T -> bool)
    requires forall x :: x in s ==> !f(x)
    ensures Filter(s, f) == []
  {
    if |s| > 0 {
      assert s[0] in s;
      assert forall x :: x in s[1..] ==> x in s;
      FilterNone(s[1..], f);
    }
  }

  /** `f` applied to every element of `s`. */
  function Map<T, U>(s: seq<T>, f: T -> U): (r: seq<U>)
    ensures |r| == |s|
    ensures forall i :: 0 <= i < |s| ==> r[i] == f(s[i])
  {
    seq(|s|, i requires 0 <= i < |s| => f(s[i]))
  }

  /** No element occurs twice. */
  ghost predicate Distinct<T>(s: seq<T>) {
    forall i, j :: 0 <= i < j < |s| ==> s[i] != s[j]
  }

  /** The elements of `s`, each once: SQL's `SELECT DISTINCT`. Which copy
      survives does not matter to the model, because callers sort the
      result. */
  function Dedup<T(==,!new)>(s: seq<T>): (r: seq<T>)
    ensures Distinct(r)
    ensures forall x :: x in r <==> x in s
  {
    if |s| == 0 then []
    else
      var rest := Dedup(s[1..]);
      assert forall x :: x in s <==> x == s[0] || x in s[1..] by { HeadTail(s); }
      if s[0] in rest then rest
      else
        var r := [s[0]] + rest;
        assert forall i, j :: 0 <= i < j < |r| ==> r[i] != r[j] by {
          forall i, j | 0 <= i < j < |r| ensures r[i] != r[j] {
            assert r[j] == rest[j - 1];
            if i > 0 { assert r[i] == rest[i - 1]; }
          }
        }
        r
  }

  /** The elements of `s` that `f` sends to `u`. */
  ghost function Preimage<T, U>(s: seq<T>, f: T -> U, u: U): set<T> {
    set x | x in s && f(x) == u
  }

  /** Mapping a sequence without repeats: a value occurs in the image once
      for every element that yields it. */
  lemma {:induction false} DistinctMapCount<T, U>(s: seq<T>, f: T -> U, u: U)
    requires Distinct(s)
    ensures multiset(Map(s, f))[u] == |Preimage(s, f, u)|
  {
    if |s| == 0 {
      assert Preimage(s, f, u) == {};
    } else {
      var tail := s[1..];
      DistinctTail(s);
      DistinctMapCount(tail, f, u);
      var image := Map(tail, f);
      assert Map(s, f) == [f(s[0])] + image;
      assert multiset(Map(s, f)) == multiset{f(s[0])} + multiset(image);
      PreimageStep(s, f, u);
    }
  }

  lemma DistinctTail<T>(s: seq<T>)
    requires Distinct(s) && |s| > 0
    ensures Distinct(s[1..]) && s[0] !in s[1..]
  {
    var tail := s[1..];
    forall i, j | 0 <= i < j < |tail| ensures tail[i] != tail[j] {
      assert tail[i] == s[i + 1] && tail[j] == s[j + 1];
    }
    forall j | 0 <= j < |tail| ensures tail[j] != s[0] {
      assert tail[j] == s[j + 1];
    }
  }

  /** The elements of `s` that `f` sends to `u`, counted head first. */
  lemma PreimageStep<T, U>(s: seq<T>, f: T -> U, u: U)
    requires |s| > 0 && s[0] !in s[1..]
    ensures |Preimage(s, f, u)| == |Preimage(s[1..], f, u)| + (if f(s[0]) == u then 1 else 0)
  {
    var tail := s[1..];
    HeadTail(s);
    assert forall x :: x in s <==> x == s[0] || x in tail;
    var rest := Preimage(tail, f, u);
    var all := Preimage(s, f, u);
    if f(s[0]) == u {
      assert all == rest + {s[0]} by {
        forall x ensures x in all <==> x in rest || x == s[0] { }
      }
      assert s[0] !in rest;
    } else {
      assert all == rest by {
        forall x ensures x in all <==> x in rest { }
      }
    }
  }

  /** The first `n` elements of `s`, or all of them when there are fewer:
      Python's `s[:n]` and a queryset's `[:n]`. */
  function Take<T>(s: seq<T>, n: nat): (r: seq<T>)
    ensures |r| == Min(n, |s|)
    ensures r <= s
  {
    if n <= |s| then s[..n] else s
  }

  /** No two rows of `s` share a `key`: the shape of a primary key or a
      UNIQUE constraint over a table. */
  ghost predicate UniqueBy<T, K>(s: seq<T>, key: T -> K) {
    forall i, j :: 0 <= i < j < |s| ==> key(s[i]) != key(s[j])
  }

  lemma UniqueByAt<T, K>(s: seq<T>, key: T -> K, i: nat, j: nat)
    requires UniqueBy(s, key) && i < j < |s|
    ensures key(s[i]) != key(s[j])
  {
  }

  /** The values `key` takes over the rows of `s`. */
  ghost function KeySet<T, K>(s: seq<T>, key: T -> K): set<K> {
    set x | x in s :: key(x)
  }

  lemma {:induction false} FilterKeepsUnique<T(!new), K>(s: seq<T>, key: T -> K, f: T -> bool)
    requires UniqueBy(s, key)
    ensures UniqueBy(Filter(s, f), key)
  {
    if |s| > 0 {
      FilterKeepsUnique(s[1..], key, f);
      var rest := Filter(s[1..], f);
      forall y | y in rest ensures key(y) != key(s[0]) {
        var j :| 0 <= j < |s[1..]| && s[1..][j] == y;
        assert s[j + 1] == y;
      }
    }
  }

  lemma AppendKeepsUnique<T, K>(s: seq<T>, x: T, key: T -> K)
    requires UniqueBy(s, key)
    requires key(x) !in KeySet(s, key)
    ensures UniqueBy(s + [x], key)
  {
    forall i | 0 <= i < |s| ensures key(s[i]) != key(x) {
      assert s[i] in s;
    }
  }

  /** Every row of `s` carries a distinct key exactly when no key value is
      shared by rows at two positions. */
  lemma UniqueKeyDeterminesRow<T, K>(s: seq<T>, key: T -> K, x: T, y: T)
    requires UniqueBy(s, key)
    requires x in s && y in s && key(x) == key(y)
    ensures x == y
  {
    var i :| 0 <= i < |s| && s[i] == x;
    var j :| 0 <= j < |s| && s[j] == y;
    assert key(s[i]) == key(s[j]);
  }

  /** The first position at or after `from` whose element satisfies `f`. */
  function FindFrom<T>(s: seq<T>, f: T -> bool, from: nat): (r: Option<nat>)
    requires from <= |s|
    ensures r.Some? ==> from <= r.value < |s| && f(s[r.value])
    ensures r.Some? ==> forall j :: from <= j < r.value ==> !f(s[j])
    ensures r.None? <==> forall j :: from <= j < |s| ==> !f(s[j])
    decreases |s| - from
  {
    if from == |s| then None
    else if f(s[from]) then Some(from)
    else FindFrom(s, f, from + 1)
  }

  /** The number of elements of `s` that satisfy `f`. */
  function Count<T(!new)>(s: seq<T>, f: T -> bool): nat {
    |Filter(s, f)|
  }

  /** Counting rows of two disjoint kinds that are both of a third kind never
      exceeds the number of rows of that third kind. */
  lemma {:induction false} CountDisjointSum<T(!new)>(s: seq<T>, a: T -> bool, b: T -> bool, c: T -> bool)
    requires forall x :: a(x) ==> c(x)
    requires forall x :: b(x) ==> c(x)
    requires forall x :: !(a(x) && b(x))
    ensures Count(s, a) + Count(s, b) <= Count(s, c)
  {
    if |s| > 0 {
      CountDisjointSum(s[1..], a, b, c);
    }
  }

  lemma {:induction false} CountSubsumed<T(!new)>(s: seq<T>, a: T -> bool, c: T -> bool)
    requires forall x :: a(x) ==> c(x)
    ensures Count(s, a) <= Count(s, c)
  {
    if |s| > 0 {
      CountSubsumed(s[1..], a, c);
    }
  }

  /** Collecting one value per element gives at most as many distinct values
      as there are elements. */
  ghost function Image<T, U>(s: seq<T>, f: T -> U): set<U> {
    set x | x in s :: f(x)
  }

  lemma {:induction false} ImageBound<T, U>(s: seq<T>, f: T -> U)
    ensures |Image(s, f)| <= |s|
  {
    if |s| > 0 {
      ImageBound(s[1..], f);
      var tail := Image(s[1..], f);
      assert Image(s, f) == tail + {f(s[0])} by {
        assert s[0] in s;
        forall y | y in tail ensures y in Image(s, f) {
          var x :| x in s[1..] && f(x) == y;
          assert x in s;
        }
        forall y | y in Image(s, f) ensures y in tail + {f(s[0])} {
          var x :| x in s && f(x) == y;
          var i :| 0 <= i < |s| && s[i] == x;
          if i > 0 {
            assert s[1..][i - 1] == x;
          }
        }
      }
    }
  }
}
