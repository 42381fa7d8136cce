/** The string handling the portfolio relies on: Python's `str.strip()`,
    `str.split(',')` and `','.join(...)`, the comma-delimited list parser
    behind `get_tags_list` / `get_technologies_list`, and the ASCII case
    fold the database applies for `icontains` and `iexact` lookups. */
module Text {
  import opened Common


  /** Python's `str.isspace()`: the characters `str.strip()` removes. */
  predicate IsWhitespace(c: char) {
    var n := c as int;
    || 9 <= n <= 13 || 28 <= n <= 32
    || n == 0x85 || n == 0xA0 || n == 0x1680
    || 0x2000 <= n <= 0x200A
    || n == 0x2028 || n == 0x2029 || n == 0x202F || n == 0x205F || n == 0x3000
  }

  /** Neither end of `s` is whitespace. */
  predicate IsStripped(s: string) {
    s == [] || (!IsWhitespace(s[0]) && !IsWhitespace(s[|s| - 1]))
  }

  function StripLeft(s: string): (r: string)
    ensures |r| <= |s| && r == s[|s| - |r|..]
    ensures forall i :: 0 <= i < |s| - |r| ==> IsWhitespace(s[i])
    ensures r == [] || !IsWhitespace(r[0])
    decreases |s|
  {
    if |s| > 0 && IsWhitespace(s[0]) then StripLeft(s[1..]) else s
  }

  function StripRight(s: string): (r: string)
    ensures |r| <= |s| && r == s[..|r|]
    ensures forall i :: |r| <= i < |s| ==> IsWhitespace(s[i])
    ensures r == [] || !IsWhitespace(r[|r| - 1])
    decreases |s|
  {
    if |s| > 0 && IsWhitespace(s[|s| - 1]) then StripRight(s[..|s| - 1]) else s
  }

  /** Every character of `s` is whitespace. */
  predicate AllWhitespace(s: string) {
    forall k :: 0 <= k < |s| ==> IsWhitespace(s[k])
  }

  /** `r` is the run of `s` starting at `i` once only whitespace is cut off
      either side of it. */
  predicate TrimmedAt(s: string, r: string, i: int) {
    && 0 <= i <= |s| - |r|
    && r == s[i..i + |r|]
    && (forall k :: 0 <= k < i ==> IsWhitespace(s[k]))
    && (forall k :: i + |r| <= k < |s| ==> IsWhitespace(s[k]))
  }

  /** Python's `s.strip()`: `s` without its leading and trailing whitespace
      (what is cut is stated by `StripTrims` and `StripBlank`). */
  function Strip(s: string): (r: string)
    ensures IsStripped(r)
  {
    StrippedEnds(s);
    StripRight(StripLeft(s))
  }

  lemma StrippedEnds(s: string)
    ensures IsStripped(StripRight(StripLeft(s)))
  {
    var left := StripLeft(s);
    var r := StripRight(left);
    if r != [] {
      assert r[0] == left[0];
    }
  }

  /** What `Strip` keeps is the run of `s` left once only whitespace is cut
      off either side. */
  lemma StripTrims(s: string)
    ensures exists i :: TrimmedAt(s, Strip(s), i)
  {
    var left := StripLeft(s);
    var r := StripRight(left);
    var i := |s| - |left|;
    SliceOfSuffix(s, i, |r|);
    forall k | i + |r| <= k < |s| ensures IsWhitespace(s[k]) {
      assert s[k] == left[k - i];
    }
    assert Strip(s) == r;
    assert TrimmedAt(s, Strip(s), i);
  }

  lemma SliceOfSuffix<T>(s: seq<T>, i: nat, n: nat)
    requires i + n <= |s|
    ensures s[i..][..n] == s[i..i + n]
  {
  }

  /** A string strips to nothing exactly when it is all whitespace. */
  lemma StripBlank(s: string)
    ensures Strip(s) == [] <==> AllWhitespace(s)
  {
    var left := StripLeft(s);
    if StripRight(left) != [] {
      assert !IsWhitespace(left[0]);
      assert s[|s| - |left|] == left[0];
    }
  }

  /** Stripping only removes characters, so it introduces none. */
  lemma StripChars(s: string, c: char)
    requires c in Strip(s)
    ensures c in s
  {
    var left := StripLeft(s);
    var r := StripRight(left);
    assert r == Strip(s);
    var k :| 0 <= k < |r| && r[k] == c;
    assert left[k] == c;
    assert s[|s| - |left| + k] == c;
  }

  lemma StripOfStripped(s: string)
    requires IsStripped(s)
    ensures Strip(s) == s
  {
  }

  /** Stripping twice is stripping once. */
  lemma StripIdempotent(s: string)
    ensures Strip(Strip(s)) == Strip(s)
  {
    StripOfStripped(Strip(s));
  }

  /** Python's `s.split(sep)` with an explicit separator: the pieces between
      separators, always at least one. */
  function Split(s: string, sep: char): (r: seq<string>)
    ensures |r| >= 1
    ensures forall i :: 0 <= i < |r| ==> sep !in r[i]
    decreases |s|
  {
    if |s| == 0 then [""]
    else
      var rest := Split(s[1..], sep);
      if s[0] == sep then [""] + rest
      else [[s[0]] + rest[0]] + rest[1..]
  }

  /** Joining the pieces with the separator gives the original text back. */
  lemma {:induction false} JoinSplit(s: string, sep: char)
    ensures Join(Split(s, sep), sep) == s
    decreases |s|
  {
    if |s| > 0 {
      JoinSplit(s[1..], sep);
      var rest := Split(s[1..], sep);
      var r := Split(s, sep);
      if s[0] == sep {
        assert r == [""] + rest;
        assert r[1..] == rest;
        assert [s[0]] + s[1..] == s;
      } else {
        assert r == [[s[0]] + rest[0]] + rest[1..];
        assert r[1..] == rest[1..];
        if |rest| == 1 {
          assert Join(r, sep) == [s[0]] + rest[0];
          assert [s[0]] + s[1..] == s;
        } else {
          assert Join(rest, sep) == rest[0] + [sep] + Join(rest[1..], sep);
          assert Join(r, sep) == [s[0]] + rest[0] + [sep] + Join(rest[1..], sep);
          assert [s[0]] + s[1..] == s;
        }
      }
    }
  }

  /** Python's `sep.join(xs)`. */
  function Join(xs: seq<string>, sep: char): string
  {
    if |xs| == 0 then ""
    else if |xs| == 1 then xs[0]
    else xs[0] + [sep] + Join(xs[1..], sep)
  }

  /** A string without the separator splits into itself. */
  lemma {:induction false} SplitWithoutSeparator(a: string, sep: char)
    requires sep !in a
    ensures Split(a, sep) == [a]
  {
    if |a| > 0 {
      assert sep !in a[1..];
      SplitWithoutSeparator(a[1..], sep);
      assert [a[0]] + a[1..] == a;
    }
  }

  /** Splitting at a separator that joins two strings splits each of them. */
  lemma {:induction false} SplitConcat(a: string, b: string, sep: char)
    ensures Split(a + [sep] + b, sep) == Split(a, sep) + Split(b, sep)
  {
    var s := a + [sep] + b;
    if |a| == 0 {
      assert s == [sep] + b;
    } else {
      AppendAssoc(a, [sep], b);
      ConsAppend(a, [sep] + b);
      AppendAssoc(a[1..], [sep], b);
      SplitConcat(a[1..], b, sep);
      var ra := Split(a[1..], sep);
      var rest := Split(s[1..], sep);
      if a[0] == sep {
        AppendAssoc([""], ra, Split(b, sep));
      } else {
        ConsAppend(ra, Split(b, sep));
        AppendAssoc([[a[0]] + ra[0]], ra[1..], Split(b, sep));
      }
    }
  }

  /** `Split` inverts `Join` on separator-free pieces. */
  lemma {:induction false} SplitJoin(xs: seq<string>, sep: char)
    requires |xs| >= 1
    requires forall i :: 0 <= i < |xs| ==> sep !in xs[i]
    ensures Split(Join(xs, sep), sep) == xs
  {
    if |xs| == 1 {
      SplitWithoutSeparator(xs[0], sep);
    } else {
      SplitJoin(xs[1..], sep);
      SplitConcat(xs[0], Join(xs[1..], sep), sep);
      SplitWithoutSeparator(xs[0], sep);
      HeadTail(xs);
    }
  }

  /** The first piece of a split is the text before the first separator. */
  lemma {:induction false} SplitHead(s: string, sep: char)
    ensures Split(s, sep)[0] <= s
    ensures |Split(s, sep)[0]| == |s| || s[|Split(s, sep)[0]|] == sep
    decreases |s|
  {
    if |s| > 0 {
      SplitHead(s[1..], sep);
    }
  }

  /** Keeps the stripped pieces that are not empty, in order. */
  function CleanPieces(pieces: seq<string>): (r: seq<string>)
    ensures |r| <= |pieces|
  {
    if |pieces| == 0 then []
    else
      var t := Strip(pieces[0]);
      (if t == "" then [] else [t]) + CleanPieces(pieces[1..])
  }

  /** An item is kept exactly when some piece strips to it and it is not
      empty. */
  lemma {:induction false} CleanPiecesMembers(pieces: seq<string>, x: string)
    ensures x in CleanPieces(pieces) <==> x != "" && exists p :: p in pieces && Strip(p) == x
  {
    if |pieces| > 0 {
      CleanPiecesMembers(pieces[1..], x);
      assert forall p :: p in pieces <==> p == pieces[0] || p in pieces[1..];
    }
  }

  /** `[t.strip() for t in s.split(',') if t.strip()]`, the parser of the
      comma-delimited `tags` and `technologies` fields. */
  function ParseList(s: string): (r: seq<string>)
    ensures forall i :: 0 <= i < |r| ==> r[i] != "" && IsStripped(r[i]) && ',' !in r[i]
  {
    var pieces := Split(s, ',');
    var r := CleanPieces(pieces);
    assert forall i :: 0 <= i < |r| ==> r[i] != "" && IsStripped(r[i]) && ',' !in r[i] by {
      forall i | 0 <= i < |r| ensures r[i] != "" && IsStripped(r[i]) && ',' !in r[i] {
        assert r[i] in r;
        CleanPiecesMembers(pieces, r[i]);
        var p :| p in pieces && Strip(p) == r[i];
        if ',' in r[i] {
          StripChars(p, ',');
        }
      }
    }
    r
  }

  /** A tag is listed exactly when some comma-separated piece strips to it. */
  lemma ParseListMembers(s: string, x: string)
    ensures x in ParseList(s) <==> x != "" && exists p :: p in Split(s, ',') && Strip(p) == x
  {
    CleanPiecesMembers(Split(s, ','), x);
  }

  /** A piece without commas parses to its stripped self, if anything. */
  lemma ParseListPiece(s: string)
    requires ',' !in s
    ensures ParseList(s) == if Strip(s) == "" then [] else [Strip(s)]
  {
    SplitWithoutSeparator(s, ',');
    assert [s][1..] == [];
    assert CleanPieces([s]) == (if Strip(s) == "" then [] else [Strip(s)]) + CleanPieces([]);
  }

  /** Parsing distributes over a comma: the items of `a,b` are the items of
      `a` followed by the items of `b`. */
  lemma {:induction false} ParseListConcat(a: string, b: string)
    ensures ParseList(a + "," + b) == ParseList(a) + ParseList(b)
  {
    SplitConcat(a, b, ',');
    CleanPiecesAppend(Split(a, ','), Split(b, ','));
  }

  lemma {:induction false} CleanPiecesAppend(xs: seq<string>, ys: seq<string>)
    ensures CleanPieces(xs + ys) == CleanPieces(xs) + CleanPieces(ys)
  {
    if |xs| == 0 {
      assert xs + ys == ys;
    } else {
      ConsAppend(xs, ys);
      CleanPiecesAppend(xs[1..], ys);
      var head := if Strip(xs[0]) == "" then [] else [Strip(xs[0])];
      AppendAssoc(head, CleanPieces(xs[1..]), CleanPieces(ys));
    }
  }

  /** Parsing the comma-join of a parsed list gives the list back, so a
      round trip through the stored text loses nothing. */
  lemma {:induction false} ParseListIdempotent(s: string)
    ensures ParseList(Join(ParseList(s), ',')) == ParseList(s)
  {
    ParseJoinOfItems(ParseList(s));
  }

  lemma {:induction false} ParseJoinOfItems(xs: seq<string>)
    requires forall i :: 0 <= i < |xs| ==> xs[i] != "" && IsStripped(xs[i]) && ',' !in xs[i]
    ensures ParseList(Join(xs, ',')) == xs
  {
    if |xs| == 0 {
      assert Split("", ',') == [""];
      assert Strip("") == "";
    } else if |xs| == 1 {
      ParseListPiece(xs[0]);
      StripOfStripped(xs[0]);
    } else {
      ParseJoinOfItems(xs[1..]);
      ParseListPiece(xs[0]);
      StripOfStripped(xs[0]);
      ParseListConcat(xs[0], Join(xs[1..], ','));
      assert xs[0] + [','] + Join(xs[1..], ',') == xs[0] + "," + Join(xs[1..], ',');
      HeadTail(xs);
    }
  }

  /** The ASCII lower-case form of `c`; other characters are left alone. */
  function LowerChar(c: char): char {
    if 'A' <= c <= 'Z' then (c as int + 32) as char else c
  }

  function Lower(s: string): (r: string)
    ensures |r| == |s|
    ensures forall i :: 0 <= i < |s| ==> r[i] == LowerChar(s[i])
  {
    seq(|s|, i requires 0 <= i < |s| => LowerChar(s[i]))
  }

  /** `needle` occurs in `hay` as a contiguous run. */
  predicate IsSubstring(needle: string, hay: string)
    decreases |hay|
  {
    needle <= hay || (|hay| > 0 && IsSubstring(needle, hay[1..]))
  }

  /** `needle` occurs in `hay` starting at position `i`. */
  predicate OccursAt(needle: string, hay: string, i: int) {
    0 <= i <= |hay| - |needle| && hay[i..i + |needle|] == needle
  }

  lemma {:induction false} IsSubstringAt(needle: string, hay: string)
    ensures IsSubstring(needle, hay) <==> exists i :: OccursAt(needle, hay, i)
    decreases |hay|
  {
    if |hay| > 0 {
      IsSubstringAt(needle, hay[1..]);
      if needle <= hay {
        assert OccursAt(needle, hay, 0);
      }
      if IsSubstring(needle, hay[1..]) {
        var i :| OccursAt(needle, hay[1..], i);
        assert hay[i + 1..i + 1 + |needle|] == hay[1..][i..i + |needle|];
        assert OccursAt(needle, hay, i + 1);
      }
      if exists i :: OccursAt(needle, hay, i) {
        var i :| OccursAt(needle, hay, i);
        if i > 0 {
          assert hay[1..][i - 1..i - 1 + |needle|] == hay[i..i + |needle|];
          assert OccursAt(needle, hay[1..], i - 1);
        } else {
          assert needle <= hay;
        }
      }
    } else {
      if needle <= hay {
        assert OccursAt(needle, hay, 0);
      }
      if exists i :: OccursAt(needle, hay, i) {
        var i :| OccursAt(needle, hay, i);
        assert needle == [];
      }
    }
  }

  /** The `icontains` lookup: `needle` occurs in `hay` ignoring ASCII case. */
  predicate ContainsFold(hay: string, needle: string) {
    IsSubstring(Lower(needle), Lower(hay))
  }

  /** The `iexact` lookup: equal ignoring ASCII case. */
  predicate EqualsFold(a: string, b: string) {
    Lower(a) == Lower(b)
  }

  /** A substring of the exact text is a substring ignoring case too. */
  lemma ContainsImpliesContainsFold(hay: string, needle: string)
    requires IsSubstring(needle, hay)
    ensures ContainsFold(hay, needle)
  {
    IsSubstringAt(needle, hay);
    var i :| OccursAt(needle, hay, i);
    assert Lower(hay)[i..i + |needle|] == Lower(needle);
    assert OccursAt(Lower(needle), Lower(hay), i);
    IsSubstringAt(Lower(needle), Lower(hay));
  }
}
