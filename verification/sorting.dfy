/** Sorting by a "less" callback, as Go's sort.Slice does, specified as a
    permutation that is ordered whenever the callback is a strict weak order. */
module Sorting {

  /** The callback never says both `a < b` and `b < a`, and incomparability
      is transitive (if `a < c` then every `b` is above `a` or below `c`). */
  ghost predicate StrictWeakOrder<T(!new)>(less: (T, T) -> bool) {
    && (forall a, b :: less(a, b) ==> !less(b, a))
    && (forall a, b, c :: less(a, c) ==> less(a, b) || less(b, c))
  }

  /** No later element is less than an earlier one. */
  ghost predicate Sorted<T>(s: seq<T>, less: (T, T) -> bool) {
    forall i, j :: 0 <= i < j < |s| ==> !less(s[j], s[i])
  }

  /** Any two different elements of `s` are ordered one way or the other:
      no two rules or modules share a sort key. */
  ghost predicate Untied<T>(s: seq<T>, less: (T, T) -> bool) {
    forall x, y :: x in s && y in s && x != y ==> less(x, y) || less(y, x)
  }

  /** Puts `x` in front of the first element of `s` that is not less than it. */
  function Insert<T(!new)>(x: T, s: seq<T>, less: (T, T) -> bool): (r: seq<T>)
    ensures multiset(r) == multiset(s) + multiset{x}
    decreases |s|
  {
    if |s| == 0 || !less(s[0], x) then [x] + s
    else
      assert s == [s[0]] + s[1..];
      [s[0]] + Insert(x, s[1..], less)
  }

  /** Inserting into a sorted list keeps it sorted. */
  lemma {:induction false} InsertKeepsOrder<T(!new)>(x: T, s: seq<T>, less: (T, T) -> bool)
    ensures StrictWeakOrder(less) && Sorted(s, less) ==> Sorted(Insert(x, s, less), less)
    decreases |s|
  {
    if StrictWeakOrder(less) && Sorted(s, less) && |s| > 0 {
      var r := Insert(x, s, less);
      if !less(s[0], x) {
        forall j | 0 < j < |r| ensures !less(r[j], x) {
          if j > 1 {
            assert !less(s[j - 1], s[0]);
          }
        }
      } else {
        var rest := Insert(x, s[1..], less);
        TailSortedUntied(s, less);
        InsertKeepsOrder(x, s[1..], less);
        forall j | 0 < j < |r| ensures !less(r[j], s[0]) {
          assert r[j] == rest[j - 1];
          assert r[j] in multiset(rest);
          if r[j] != x {
            assert r[j] in multiset(s[1..]);
            var k :| 0 <= k < |s[1..]| && s[1..][k] == r[j];
            assert s[k + 1] == r[j];
          }
        }
      }
    }
  }

  /** Insertion sort: a permutation of `s`, sorted when `less` is a strict weak order. */
  function SortBy<T(!new)>(s: seq<T>, less: (T, T) -> bool): (r: seq<T>)
    ensures multiset(r) == multiset(s)
    ensures StrictWeakOrder(less) ==> Sorted(r, less)
    decreases |s|
  {
    if |s| == 0 then []
    else
      assert s == [s[0]] + s[1..];
      var rest := SortBy(s[1..], less);
      InsertKeepsOrder(s[0], rest, less);
      Insert(s[0], rest, less)
  }

  /** Two sorted permutations of the same untied list start with the same element. */
  lemma SortedHeadsAgree<T>(a: seq<T>, b: seq<T>, less: (T, T) -> bool)
    requires |a| > 0 && multiset(a) == multiset(b)
    requires Sorted(a, less) && Sorted(b, less) && Untied(a, less)
    ensures |b| > 0 && a[0] == b[0]
  {
    assert a[0] in multiset(b);
    var k :| 0 <= k < |b| && b[k] == a[0];
    assert b[0] in multiset(a);
    var m :| 0 <= m < |a| && a[m] == b[0];
    assert a[0] in a && a[m] in a;
    assert k > 0 ==> !less(b[k], b[0]);
    assert m > 0 ==> !less(a[m], a[0]);
  }

  /** Dropping the first element keeps a list sorted and untied. */
  lemma TailSortedUntied<T>(a: seq<T>, less: (T, T) -> bool)
    requires |a| > 0 && Sorted(a, less)
    ensures Sorted(a[1..], less)
    ensures Untied(a, less) ==> Untied(a[1..], less)
  {
    forall i, j | 0 <= i < j < |a[1..]| ensures !less(a[1..][j], a[1..][i]) {
      assert a[1..][j] == a[j + 1] && a[1..][i] == a[i + 1];
    }
    if Untied(a, less) {
      forall x, y | x in a[1..] && y in a[1..] && x != y ensures less(x, y) || less(y, x) {
        assert x in a && y in a;
      }
    }
  }

  /** Two sorted permutations of the same untied list are the same list: the
      sorted order is then independent of the order the input came in. */
  lemma {:induction false} SortedUnique<T>(a: seq<T>, b: seq<T>, less: (T, T) -> bool)
    requires multiset(a) == multiset(b)
    requires Sorted(a, less) && Sorted(b, less) && Untied(a, less)
    ensures a == b
    decreases |a|
  {
    if |a| == 0 {
      assert |multiset(b)| == 0;
    } else {
      SortedHeadsAgree(a, b, less);
      assert a == [a[0]] + a[1..] && b == [b[0]] + b[1..];
      assert multiset(a[1..]) == multiset(b[1..]) by {
        assert multiset(a[1..]) == multiset(a) - multiset([a[0]]);
        assert multiset(b[1..]) == multiset(b) - multiset([b[0]]);
      }
      TailSortedUntied(a, less);
      TailSortedUntied(b, less);
      SortedUnique(a[1..], b[1..], less);
    }
  }

  /** Sorting two permutations of one untied list gives the same result. */
  lemma SortByIgnoresInputOrder<T(!new)>(a: seq<T>, b: seq<T>, less: (T, T) -> bool)
    requires StrictWeakOrder(less)
    requires multiset(a) == multiset(b)
    requires Untied(a, less)
    ensures SortBy(a, less) == SortBy(b, less)
  {
    var sa, sb := SortBy(a, less), SortBy(b, less);
    assert Untied(sa, less) by {
      forall x, y | x in sa && y in sa && x != y ensures less(x, y) || less(y, x) {
        assert x in multiset(sa) && y in multiset(sa);
        assert x in a && y in a;
      }
    }
    SortedUnique(sa, sb, less);
  }
}
