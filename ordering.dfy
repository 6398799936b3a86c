/** Sorted, duplicate-free listings: `np.unique` on file names (ordered by code point) and the
    listing of a set of small non-negative integers, which CPython yields in ascending order. */
module Ordering {
  import opened Common

  /** `lt` is a strict total order. */
  ghost predicate StrictTotalOrder<T(!new)>(lt: (T, T) -> bool) {
    && (forall x :: !lt(x, x))
    && (forall x, y, z :: lt(x, y) && lt(y, z) ==> lt(x, z))
    && (forall x, y :: x == y || lt(x, y) || lt(y, x))
  }

  /** Every element is below every later one. */
  ghost predicate StrictlySorted<T>(s: seq<T>, lt: (T, T) -> bool) {
    forall i, j :: 0 <= i < j < |s| ==> lt(s[i], s[j])
  }

  /** No element occurs twice. */
  ghost predicate NoDuplicates<T>(s: seq<T>) {
    forall i, j :: 0 <= i < j < |s| ==> s[i] != s[j]
  }

  /** Places `x` into a sorted list unless it is already there. */
  function Insert<T(==)>(s: seq<T>, x: T, lt: (T, T) -> bool): seq<T> {
    if s == [] then [x]
    else if s[0] == x then s
    else if lt(x, s[0]) then [x] + s
    else [s[0]] + Insert(s[1..], x, lt)
  }

  /** The distinct elements of `xs` in ascending order of `lt`. */
  function SortedUnique<T(==)>(xs: seq<T>, lt: (T, T) -> bool): seq<T> {
    if xs == [] then [] else Insert(SortedUnique(xs[..|xs| - 1], lt), xs[|xs| - 1], lt)
  }

  lemma {:induction false} InsertElems<T>(s: seq<T>, x: T, lt: (T, T) -> bool)
    ensures Elems(Insert(s, x, lt)) == Elems(s) + {x}
  {
    if s != [] {
      assert Elems(s) == {s[0]} + Elems(s[1..]) by { assert s == [s[0]] + s[1..]; }
      if s[0] != x && !lt(x, s[0]) {
        InsertElems(s[1..], x, lt);
        assert Elems([s[0]] + Insert(s[1..], x, lt)) == {s[0]} + Elems(Insert(s[1..], x, lt));
      } else if s[0] != x {
        assert Elems([x] + s) == {x} + Elems(s);
      }
    }
  }

  lemma {:induction false} InsertSorted<T(!new)>(s: seq<T>, x: T, lt: (T, T) -> bool)
    requires StrictTotalOrder(lt) && StrictlySorted(s, lt)
    ensures StrictlySorted(Insert(s, x, lt), lt)
  {
    if s != [] && s[0] != x && !lt(x, s[0]) {
      var rest := Insert(s[1..], x, lt);
      InsertSorted(s[1..], x, lt);
      InsertElems(s[1..], x, lt);
      assert lt(s[0], x);
      forall y | y in rest ensures lt(s[0], y) {
        if y != x {
          assert y in Elems(rest);
          assert y in Elems(s[1..]);
          var k :| 0 <= k < |s[1..]| && s[1..][k] == y;
          assert s[k + 1] == y;
        }
      }
      var r := [s[0]] + rest;
      forall i, j | 0 <= i < j < |r| ensures lt(r[i], r[j]) {
        if i == 0 { assert r[j] == rest[j - 1] && r[j] in rest; }
        else { assert r[i] == rest[i - 1] && r[j] == rest[j - 1]; }
      }
    } else if s != [] && s[0] != x {
      var r := [x] + s;
      forall i, j | 0 <= i < j < |r| ensures lt(r[i], r[j]) {
        if i == 0 && j > 1 { assert lt(s[0], s[j - 1]); }
      }
    }
  }

  /** np.unique / sorted(set(...)): the result holds exactly the elements of the input, in
      strictly ascending order, each once. */
  lemma {:induction false} SortedUniqueCorrect<T(!new)>(xs: seq<T>, lt: (T, T) -> bool)
    requires StrictTotalOrder(lt)
    ensures Elems(SortedUnique(xs, lt)) == Elems(xs)
    ensures StrictlySorted(SortedUnique(xs, lt), lt)
    ensures NoDuplicates(SortedUnique(xs, lt))
    ensures |SortedUnique(xs, lt)| == |Elems(xs)|
  {
    var r := SortedUnique(xs, lt);
    if xs != [] {
      var pre := xs[..|xs| - 1];
      SortedUniqueCorrect(pre, lt);
      InsertElems(SortedUnique(pre, lt), xs[|xs| - 1], lt);
      InsertSorted(SortedUnique(pre, lt), xs[|xs| - 1], lt);
      assert xs == pre + [xs[|xs| - 1]];
      assert Elems(xs) == Elems(pre) + {xs[|xs| - 1]};
    }
    SortedNoDuplicates(r, lt);
    DistinctCardinality(r);
  }

  lemma SortedNoDuplicates<T(!new)>(s: seq<T>, lt: (T, T) -> bool)
    requires StrictTotalOrder(lt) && StrictlySorted(s, lt)
    ensures NoDuplicates(s)
  {
    forall i, j | 0 <= i < j < |s| ensures s[i] != s[j] {
      assert lt(s[i], s[j]);
    }
  }

  lemma {:induction false} DistinctCardinality<T>(s: seq<T>)
    requires NoDuplicates(s)
    ensures |Elems(s)| == |s|
  {
    if s != [] {
      var pre := s[..|s| - 1];
      DistinctCardinality(pre);
      assert s == pre + [s[|s| - 1]];
      forall k | 0 <= k < |pre| ensures pre[k] != s[|s| - 1] {
        assert pre[k] == s[k];
      }
      assert s[|s| - 1] !in Elems(pre);
      assert Elems(s) == Elems(pre) + {s[|s| - 1]};
    }
  }

  /** Code-point lexicographic order on strings, as numpy sorts unicode arrays. */
  predicate LexLess(a: string, b: string) {
    if |b| == 0 then false
    else if |a| == 0 then true
    else if a[0] != b[0] then a[0] < b[0]
    else LexLess(a[1..], b[1..])
  }

  lemma {:induction false} LexIrreflexive(a: string)
    ensures !LexLess(a, a)
  {
    if |a| > 0 { LexIrreflexive(a[1..]); }
  }

  lemma {:induction false} LexTransitive(a: string, b: string, c: string)
    requires LexLess(a, b) && LexLess(b, c)
    ensures LexLess(a, c)
  {
    if |a| > 0 && a[0] == b[0] && b[0] == c[0] {
      LexTransitive(a[1..], b[1..], c[1..]);
    }
  }

  lemma {:induction false} LexTotal(a: string, b: string)
    ensures a == b || LexLess(a, b) || LexLess(b, a)
  {
    if |a| > 0 && |b| > 0 && a[0] == b[0] {
      LexTotal(a[1..], b[1..]);
      if a[1..] == b[1..] { assert a == [a[0]] + a[1..] && b == [b[0]] + b[1..]; }
    }
  }

  lemma LexIsStrictTotalOrder()
    ensures StrictTotalOrder(LexLess)
  {
    forall x ensures !LexLess(x, x) { LexIrreflexive(x); }
    forall x, y, z | LexLess(x, y) && LexLess(y, z) ensures LexLess(x, z) { LexTransitive(x, y, z); }
    forall x, y ensures x == y || LexLess(x, y) || LexLess(y, x) { LexTotal(x, y); }
  }

  predicate IntLess(a: int, b: int) { a < b }

  /** The listing of a set of integers: distinct and ascending. */
  function SetListing(xs: seq<int>): seq<int> { SortedUnique(xs, IntLess) }

  /** np.unique on a list of file names. */
  function UniqueNames(names: seq<string>): seq<string> { SortedUnique(names, LexLess) }

  lemma SetListingCorrect(xs: seq<int>)
    ensures Elems(SetListing(xs)) == Elems(xs)
    ensures forall i, j :: 0 <= i < j < |SetListing(xs)| ==> SetListing(xs)[i] < SetListing(xs)[j]
    ensures |SetListing(xs)| == |Elems(xs)|
  {
    assert StrictTotalOrder(IntLess);
    SortedUniqueCorrect(xs, IntLess);
    var r := SetListing(xs);
    forall i, j | 0 <= i < j < |r| ensures r[i] < r[j] { assert IntLess(r[i], r[j]); }
  }

  lemma UniqueNamesCorrect(names: seq<string>)
    ensures Elems(UniqueNames(names)) == Elems(names)
    ensures StrictlySorted(UniqueNames(names), LexLess)
    ensures NoDuplicates(UniqueNames(names))
  {
    LexIsStrictTotalOrder();
    SortedUniqueCorrect(names, LexLess);
  }
}
