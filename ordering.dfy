/**
  The two orders the build sorts slugs by: JavaScript's default `sort()`
  comparison of strings (gulpfile.babel.js:266) and the newest-first
  comparator on submission dates (gulpfile.babel.js:329-331, 388-390),
  applied by a stable sort.
*/
module Ordering {

  /**
    Where a character's first UTF-16 code unit places it. JavaScript compares
    strings code unit by code unit, which agrees with code point order except
    that U+E000..U+FFFF sort after every supplementary character (whose first
    unit is a surrogate, 0xD800..0xDBFF); the rank moves that block past U+10FFFF.
  */
  function Utf16Rank(c: char): int {
    if '\U{E000}' <= c <= '\U{FFFF}' then c as int + 0x11_0000 else c as int
  }

  /** Different characters have different ranks. */
  lemma Utf16RankInjective(c: char, d: char)
    requires c != d
    ensures Utf16Rank(c) != Utf16Rank(d)
  {
  }

  /** `a < b` on JavaScript strings: the first differing character decides; a proper prefix comes first. */
  predicate Less(a: string, b: string) {
    if a == [] then b != []
    else if b == [] then false
    else if a[0] != b[0] then Utf16Rank(a[0]) < Utf16Rank(b[0])
    else Less(a[1..], b[1..])
  }

  lemma {:induction false} LessIrreflexive(a: string)
    ensures !Less(a, a)
  {
    if a != [] {
      LessIrreflexive(a[1..]);
    }
  }

  lemma {:induction false} LessTransitive(a: string, b: string, c: string)
    requires Less(a, b) && Less(b, c)
    ensures Less(a, c)
  {
    if a != [] && b != [] && c != [] && a[0] == b[0] && b[0] == c[0] {
      LessTransitive(a[1..], b[1..], c[1..]);
    }
  }

  lemma {:induction false} LessTotal(a: string, b: string)
    requires a != b
    ensures Less(a, b) || Less(b, a)
  {
    if a != [] && b != [] {
      if a[0] == b[0] {
        assert a == [a[0]] + a[1..] && b == [b[0]] + b[1..];
        LessTotal(a[1..], b[1..]);
      } else {
        Utf16RankInjective(a[0], b[0]);
      }
    }
  }

  lemma {:induction false} LessAsymmetric(a: string, b: string)
    requires Less(a, b)
    ensures !Less(b, a)
  {
    if a != [] && b != [] && a[0] == b[0] {
      LessAsymmetric(a[1..], b[1..]);
    }
  }

  /** Which order a sort uses. */
  datatype SlugOrder =
    | Alphabetical
      /**
        Newest submission first. The comparator returns 0 for equal dates and
        the sort is stable, so slugs with equal dates keep their order in
        `keys`, the array being sorted; strings outside `keys` fall back to
        the string order, which makes the order total.
      */
    | NewestFirst(dateOf: map<string, int>, keys: seq<string>)

  function DateOf(dates: map<string, int>, slug: string): int {
    if slug in dates then dates[slug] else 0
  }

  /** The index of the first `x` in `keys`, or `|keys|` when there is none. */
  function Position(keys: seq<string>, x: string): (r: nat)
    ensures r <= |keys|
    ensures r < |keys| <==> x in keys
    ensures r < |keys| ==> keys[r] == x
  {
    if keys == [] then 0
    else if keys[0] == x then 0
    else 1 + Position(keys[1..], x)
  }

  /** In a list without repeats, each element's position is its index. */
  lemma {:induction false} PositionOfDistinct(keys: seq<string>, p: int)
    requires Distinct(keys) && 0 <= p < |keys|
    ensures Position(keys, keys[p]) == p
  {
    if p > 0 {
      assert keys[0] != keys[p];
      assert Distinct(keys[1..]);
      assert keys[1..][p - 1] == keys[p];
      PositionOfDistinct(keys[1..], p - 1);
    }
  }

  /** `a` sorts strictly before `b`. */
  predicate Precedes(order: SlugOrder, a: string, b: string) {
    match order
    case Alphabetical => Less(a, b)
    case NewestFirst(dates, keys) =>
      || DateOf(dates, a) > DateOf(dates, b)
      || (&& DateOf(dates, a) == DateOf(dates, b)
          && (|| Position(keys, a) < Position(keys, b)
              || (Position(keys, a) == Position(keys, b) && Less(a, b))))
  }

  /** `Precedes` is a strict total order on strings. */
  lemma PrecedesStrictTotal(order: SlugOrder, a: string, b: string, c: string)
    ensures !Precedes(order, a, a)
    ensures Precedes(order, a, b) ==> !Precedes(order, b, a)
    ensures Precedes(order, a, b) && Precedes(order, b, c) ==> Precedes(order, a, c)
    ensures a != b ==> Precedes(order, a, b) || Precedes(order, b, a)
  {
    LessIrreflexive(a);
    if Less(a, b) { LessAsymmetric(a, b); }
    if Less(a, b) && Less(b, c) { LessTransitive(a, b, c); }
    if a != b { LessTotal(a, b); }
  }

  predicate Distinct(s: seq<string>) {
    forall i, j :: 0 <= i < j < |s| ==> s[i] != s[j]
  }

  predicate SortedBy(order: SlugOrder, s: seq<string>) {
    forall i, j :: 0 <= i < j < |s| ==> Precedes(order, s[i], s[j])
  }

  /** Insert `x` before the first element it precedes. */
  function Insert(order: SlugOrder, x: string, s: seq<string>): (r: seq<string>)
    ensures multiset(r) == multiset(s) + multiset{x}
  {
    if s == [] then [x]
    else if Precedes(order, x, s[0]) then [x] + s
    else
      assert s == [s[0]] + s[1..];
      [s[0]] + Insert(order, x, s[1..])
  }

  /** The sorted arrangement of `s` (JavaScript's built-in sort is not modelled; this is its result). */
  function Sort(order: SlugOrder, s: seq<string>): (r: seq<string>)
    ensures multiset(r) == multiset(s)
  {
    if s == [] then []
    else
      assert s == [s[0]] + s[1..];
      Insert(order, s[0], Sort(order, s[1..]))
  }

  lemma {:induction false} InsertSorted(order: SlugOrder, x: string, s: seq<string>)
    requires SortedBy(order, s) && x !in s
    ensures SortedBy(order, Insert(order, x, s))
  {
    if s == [] {
    } else if Precedes(order, x, s[0]) {
      forall j | 0 <= j < |s| ensures Precedes(order, x, s[j]) {
        PrecedesStrictTotal(order, x, s[0], s[j]);
      }
    } else {
      PrecedesStrictTotal(order, x, s[0], s[0]);
      assert Precedes(order, s[0], x);
      InsertSorted(order, x, s[1..]);
      var rest := Insert(order, x, s[1..]);
      forall k | 0 <= k < |rest| ensures Precedes(order, s[0], rest[k]) {
        assert rest[k] in multiset(rest);
        assert rest[k] == x || rest[k] in s[1..];
      }
    }
  }

  /** Sorting distinct strings yields them strictly ordered, each once. */
  lemma {:induction false} SortSorted(order: SlugOrder, s: seq<string>)
    requires Distinct(s)
    ensures SortedBy(order, Sort(order, s))
    ensures |Sort(order, s)| == |s|
  {
    assert |multiset(Sort(order, s))| == |multiset(s)|;
    if s != [] {
      assert Distinct(s[1..]);
      SortSorted(order, s[1..]);
      var rest := Sort(order, s[1..]);
      assert s[0] !in s[1..];
      assert s[0] !in multiset(rest);
      InsertSorted(order, s[0], rest);
    }
  }

  /** Sorting a list that is already strictly sorted leaves it as it is. */
  lemma {:induction false} SortOfSorted(order: SlugOrder, s: seq<string>)
    requires SortedBy(order, s)
    ensures Sort(order, s) == s
  {
    if s != [] {
      SortOfSorted(order, s[1..]);
      if |s| > 1 {
        assert Precedes(order, s[0], s[1]);
      }
      assert [s[0]] + s[1..] == s;
    }
  }

  /**
    In a list sorted by the string order, position order is string order: a
    stable date sort of that list orders equal dates alphabetically.
  */
  lemma PositionIsStringOrder(keys: seq<string>, a: string, b: string)
    requires SortedBy(Alphabetical, keys) && a in keys && b in keys
    ensures Position(keys, a) < Position(keys, b) <==> Less(a, b)
  {
    SortedDistinct(Alphabetical, keys);
    var p := Position(keys, a);
    var q := Position(keys, b);
    PositionOfDistinct(keys, p);
    PositionOfDistinct(keys, q);
    LessIrreflexive(a);
    if q < p {
      assert Less(b, a);
      LessAsymmetric(b, a);
    }
  }

  /** A strictly sorted sequence has no repeats. */
  lemma SortedDistinct(order: SlugOrder, s: seq<string>)
    requires SortedBy(order, s)
    ensures Distinct(s)
  {
    forall i, j | 0 <= i < j < |s| ensures s[i] != s[j] {
      PrecedesStrictTotal(order, s[i], s[j], s[j]);
    }
  }
}
