/**
  `Array.prototype.sort` as the source uses it.

  ECMAScript 2019 requires `sort` to be stable. The insertion sort below is
  proved to be a permutation (`SortBy`), sorted (`SortBySorted`) and stable
  (`SortByStable`): elements the comparator ranks equal keep their input
  order. With a consistent total preorder those three facts fix the result,
  so it stands for whatever algorithm the runtime runs. Two comparators occur:
  `a.name.localeCompare(b.name)` (left abstract as `le`, a total preorder) and
  the comparator-less default, which orders strings by their code units
  (`StrLe`).
 */
module Sorting {
  import opened ArrayMethods

  /** `le(a, b)` reads "a may come before b": every pair is comparable and `le` is transitive. */
  ghost predicate TotalPreorder<T(!new)>(le: (T, T) -> bool) {
    && (forall a, b :: le(a, b) || le(b, a))
    && (forall a, b, c :: le(a, b) && le(b, c) ==> le(a, c))
  }

  ghost predicate SortedBy<T>(s: seq<T>, le: (T, T) -> bool) {
    forall i, j :: 0 <= i < j < |s| ==> le(s[i], s[j])
  }

  /** Places `x` after every element of `s` that may precede it (this is what keeps the sort stable). */
  function Insert<T>(s: seq<T>, x: T, le: (T, T) -> bool): (r: seq<T>)
    ensures multiset(r) == multiset(s) + multiset{x}
  {
    if s == [] then [x]
    else if le(s[0], x) then
      assert s == [s[0]] + s[1..];
      [s[0]] + Insert(s[1..], x, le)
    else [x] + s
  }

  /** Stable sort: inserts the elements one by one, in their original order. */
  function SortBy<T>(s: seq<T>, le: (T, T) -> bool): (r: seq<T>)
    ensures multiset(r) == multiset(s)
  {
    if s == [] then []
    else
      assert s == s[..|s| - 1] + [s[|s| - 1]];
      Insert(SortBy(s[..|s| - 1], le), s[|s| - 1], le)
  }

  /** An element that may precede every element of a sorted sequence can be put in front of it. */
  lemma ConsSorted<T>(b: T, r: seq<T>, le: (T, T) -> bool)
    requires SortedBy(r, le) && forall y :: y in r ==> le(b, y)
    ensures SortedBy([b] + r, le)
  {
    var r' := [b] + r;
    forall i, j | 0 <= i < j < |r'| ensures le(r'[i], r'[j]) {
      assert r'[j] == r[j - 1] && r[j - 1] in r;
      if i > 0 {
        assert r'[i] == r[i - 1];
      }
    }
  }

  /** What may follow `b` still may after `x`, which may also follow `b`, is inserted. */
  lemma InsertAllAbove<T>(s: seq<T>, x: T, le: (T, T) -> bool, b: T)
    requires le(b, x) && forall y :: y in s ==> le(b, y)
    ensures forall y :: y in Insert(s, x, le) ==> le(b, y)
  {
    forall y | y in Insert(s, x, le) ensures le(b, y) {
      assert y in multiset(Insert(s, x, le));
      assert y in multiset(s) || y == x;
    }
  }

  lemma {:induction false} InsertSorted<T(!new)>(s: seq<T>, x: T, le: (T, T) -> bool)
    requires TotalPreorder(le) && SortedBy(s, le)
    ensures SortedBy(Insert(s, x, le), le)
  {
    if s != [] {
      var t := s[1..];
      assert forall y :: y in t ==> le(s[0], y) by {
        forall y | y in t ensures le(s[0], y) {
          var j :| 0 <= j < |t| && t[j] == y;
          assert t[j] == s[j + 1];
        }
      }
      if le(s[0], x) {
        assert SortedBy(t, le) by {
          forall i, j | 0 <= i < j < |t| ensures le(t[i], t[j]) { assert t[i] == s[i + 1] && t[j] == s[j + 1]; }
        }
        InsertSorted(t, x, le);
        InsertAllAbove(t, x, le, s[0]);
        ConsSorted(s[0], Insert(t, x, le), le);
      } else {
        assert le(x, s[0]);
        assert s == [s[0]] + t;
        assert forall y :: y in s ==> y == s[0] || y in t;
        ConsSorted(x, s, le);
      }
    }
  }

  /** With a total preorder, the result of `SortBy` is sorted. */
  lemma {:induction false} SortBySorted<T(!new)>(s: seq<T>, le: (T, T) -> bool)
    requires TotalPreorder(le)
    ensures SortedBy(SortBy(s, le), le)
  {
    if s != [] {
      SortBySorted(s[..|s| - 1], le);
      InsertSorted(SortBy(s[..|s| - 1], le), s[|s| - 1], le);
    }
  }

  /**
    The default order of `sort()` without a comparator: lexicographic on the
    characters (JavaScript compares UTF-16 code units; see README).
   */
  predicate StrLe(a: string, b: string) {
    a == [] || (b != [] && (a[0] < b[0] || (a[0] == b[0] && StrLe(a[1..], b[1..]))))
  }

  lemma {:induction false} StrLeTotal(a: string, b: string)
    ensures StrLe(a, b) || StrLe(b, a)
  {
    if a != [] && b != [] && a[0] == b[0] {
      StrLeTotal(a[1..], b[1..]);
    }
  }

  lemma {:induction false} StrLeTransitive(a: string, b: string, c: string)
    requires StrLe(a, b) && StrLe(b, c)
    ensures StrLe(a, c)
  {
    if a != [] && b != [] && c != [] && a[0] == b[0] && b[0] == c[0] {
      StrLeTransitive(a[1..], b[1..], c[1..]);
    }
  }

  lemma {:induction false} StrLeAntisymmetric(a: string, b: string)
    requires StrLe(a, b) && StrLe(b, a)
    ensures a == b
  {
    if a != [] && b != [] {
      StrLeAntisymmetric(a[1..], b[1..]);
      assert a == [a[0]] + a[1..] && b == [b[0]] + b[1..];
    }
  }

  /** The default string order is a total preorder (in fact a total order, by `StrLeAntisymmetric`). */
  lemma StrLeIsTotalPreorder()
    ensures TotalPreorder(StrLe)
  {
    forall a, b ensures StrLe(a, b) || StrLe(b, a) { StrLeTotal(a, b); }
    forall a, b, c | StrLe(a, b) && StrLe(b, c) ensures StrLe(a, c) { StrLeTransitive(a, b, c); }
  }

  /** The elements `le` ranks equal to `x`: each may come before the other. */
  function SameRank<T>(le: (T, T) -> bool, x: T): T -> bool {
    y => le(x, y) && le(y, x)
  }

  /**
    Inserting into a sorted sequence puts `x` after every element of its rank:
    within each rank, the order is the old one with `x` (if it has that rank) last.
   */
  lemma {:induction false} InsertKeepsRanks<T(!new)>(s: seq<T>, x: T, z: T, le: (T, T) -> bool)
    requires TotalPreorder(le) && SortedBy(s, le)
    ensures Filter(Insert(s, x, le), SameRank(le, z)) ==
      Filter(s, SameRank(le, z)) + (if SameRank(le, z)(x) then [x] else [])
  {
    var p := SameRank(le, z);
    if s == [] {
      assert [x][1..] == [];
    } else if le(s[0], x) {
      var t := s[1..];
      assert SortedBy(t, le) by {
        forall i, j | 0 <= i < j < |t| ensures le(t[i], t[j]) { assert t[i] == s[i + 1] && t[j] == s[j + 1]; }
      }
      InsertKeepsRanks(t, x, z, le);
      assert ([s[0]] + Insert(t, x, le))[1..] == Insert(t, x, le);
    } else {
      assert ([x] + s)[1..] == s;
      // `s[0]` may precede every element, so none of them can share the rank of `x`.
      assert le(s[0], s[0]);
      assert forall j :: 0 <= j < |s| ==> le(s[0], s[j]);
      if p(x) {
        FilterDropsAll(s, p);
      }
    }
  }

  /** Filtering a non-empty sequence: the filtered front, then the last element if it is kept. */
  lemma {:induction false} AppendFilter<T>(s: seq<T>, p: T -> bool)
    requires s != []
    ensures Filter(s, p) == Filter(s[..|s| - 1], p) + (if p(s[|s| - 1]) then [s[|s| - 1]] else [])
  {
    var last := s[|s| - 1];
    assert s == s[..|s| - 1] + [last];
    FilterConcat(s[..|s| - 1], [last], p);
    assert [last][1..] == [];
  }

  /** `SortBy` is stable: the elements of each rank come out in the order they went in. */
  lemma {:induction false} SortByStable<T(!new)>(s: seq<T>, z: T, le: (T, T) -> bool)
    requires TotalPreorder(le)
    ensures Filter(SortBy(s, le), SameRank(le, z)) == Filter(s, SameRank(le, z))
  {
    if s != [] {
      var p := SameRank(le, z);
      var init := s[..|s| - 1];
      var last := s[|s| - 1];
      var sorted := SortBy(init, le);
      SortByStable(init, z, le);
      SortBySorted(init, le);
      InsertKeepsRanks(sorted, last, z, le);
      AppendFilter(s, p);
    }
  }
}
