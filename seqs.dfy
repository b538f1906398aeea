/** Sequence helpers: the shape of the store's tables and of query results. */
module Seqs {
  import opened Wrappers

  /** No row occurs twice (a uniqueness constraint over whole rows). */
  predicate Distinct<T(==)>(s: seq<T>) {
    forall i, j :: 0 <= i < j < |s| ==> s[i] != s[j]
  }

  /** The elements of `s` that satisfy `f`, in their original order (a SQL `WHERE`). */
  function Filter<T>(s: seq<T>, f: T -> bool): (r: seq<T>)
    ensures |r| <= |s|
    ensures forall i :: 0 <= i < |r| ==> r[i] in s && f(r[i])
    ensures forall i :: 0 <= i < |s| && f(s[i]) ==> s[i] in r
    ensures Distinct(s) ==> Distinct(r)
  {
    if s == [] then []
    else Filter(s[..|s| - 1], f) + (if f(s[|s| - 1]) then [s[|s| - 1]] else [])
  }

  lemma FilterAppend<T>(s: seq<T>, x: T, f: T -> bool)
    ensures Filter(s + [x], f) == Filter(s, f) + (if f(x) then [x] else [])
  {
    assert (s + [x])[..|s|] == s;
  }

  lemma {:induction false} FilterConcat<T>(s: seq<T>, t: seq<T>, f: T -> bool)
    ensures Filter(s + t, f) == Filter(s, f) + Filter(t, f)
    decreases |t|
  {
    if t != [] {
      var t' := t[..|t| - 1];
      assert s + t == (s + t') + [t[|t| - 1]];
      assert t == t' + [t[|t| - 1]];
      FilterAppend(s + t', t[|t| - 1], f);
      FilterAppend(t', t[|t| - 1], f);
      FilterConcat(s, t', f);
    } else {
      assert s + t == s;
    }
  }

  /** A filter that keeps every element changes nothing. */
  lemma {:induction false} FilterAll<T>(s: seq<T>, f: T -> bool)
    requires forall i :: 0 <= i < |s| ==> f(s[i])
    ensures Filter(s, f) == s
  {
    if s != [] {
      var p, y := s[..|s| - 1], s[|s| - 1];
      forall i | 0 <= i < |p| ensures f(p[i]) {
        assert p[i] == s[i];
      }
      FilterAll(p, f);
      assert s == p + [y];
      FilterAppend(p, y, f);
    }
  }

  /** `s` with every occurrence of `x` deleted (a SQL `DELETE` of one row). */
  function Remove<T(==)>(s: seq<T>, x: T): (r: seq<T>)
    ensures x !in r
    ensures forall i :: 0 <= i < |r| ==> r[i] in s
    ensures forall i :: 0 <= i < |s| && s[i] != x ==> s[i] in r
    ensures Distinct(s) ==> Distinct(r)
  {
    Filter(s, y => y != x)
  }

  lemma RemoveAppend<T>(s: seq<T>, y: T, x: T)
    ensures Remove(s + [y], x) == Remove(s, x) + (if y != x then [y] else [])
  {
    FilterAppend(s, y, z => z != x);
  }

  /** Deleting a row that was never there changes nothing. */
  lemma RemoveAbsent<T>(s: seq<T>, x: T)
    requires x !in s
    ensures Remove(s, x) == s
  {
    FilterAll(s, y => y != x);
  }

  /** Appending a new row and deleting it again restores the table. */
  lemma RemoveAppended<T>(s: seq<T>, x: T)
    requires x !in s
    ensures Remove(s + [x], x) == s
  {
    RemoveAppend(s, x, x);
    RemoveAbsent(s, x);
  }

  /** Deleting a row that is present exactly once lowers every count it took part in by one. */
  lemma {:induction false} RemoveCount<T>(s: seq<T>, x: T, f: T -> bool)
    requires Distinct(s) && x in s
    ensures |Filter(Remove(s, x), f)| == |Filter(s, f)| - (if f(x) then 1 else 0)
  {
    var p, y := s[..|s| - 1], s[|s| - 1];
    assert s == p + [y];
    RemoveAppend(p, y, x);
    FilterAppend(p, y, f);
    if y == x {
      assert x !in p by {
        forall k | 0 <= k < |p| ensures p[k] != x {
          assert p[k] == s[k];
        }
      }
      RemoveAbsent(p, x);
      assert Remove(s, x) == p;
    } else {
      assert Distinct(p) by {
        forall i, j | 0 <= i < j < |p| ensures p[i] != p[j] {
          assert p[i] == s[i] && p[j] == s[j];
        }
      }
      assert x in p;
      RemoveCount(p, x, f);
      assert Remove(s, x) == Remove(p, x) + [y];
      FilterAppend(Remove(p, x), y, f);
    }
  }

  /** The distinct `g`-values of the elements that satisfy `f`. */
  ghost function Image<T, U>(s: seq<T>, f: T -> bool, g: T -> U): set<U> {
    set x | x in s && f(x) :: g(x)
  }

  /** When `g` tells apart the distinct rows that satisfy `f`, the number of such rows is the
      number of distinct `g`-values they carry. */
  lemma {:induction false} FilterImageSize<T, U>(s: seq<T>, f: T -> bool, g: T -> U)
    requires Distinct(s)
    requires forall i, j :: 0 <= i < |s| && 0 <= j < |s| && f(s[i]) && f(s[j]) && g(s[i]) == g(s[j])
               ==> s[i] == s[j]
    ensures |Filter(s, f)| == |Image(s, f, g)|
  {
    if s == [] {
      assert Image(s, f, g) == {};
    } else {
      var p, y := s[..|s| - 1], s[|s| - 1];
      assert s == p + [y];
      assert Distinct(p);
      FilterImageSize(p, f, g);
      FilterAppend(p, y, f);
      var a := set x | x in p && f(x) :: g(x);
      var b := set x | x in s && f(x) :: g(x);
      if f(y) {
        assert b == a + {g(y)};
        assert g(y) !in a;
      } else {
        assert b == a;
      }
    }
  }

  /** The position of the first element satisfying `f` (a query's `.first()`). */
  function FirstIndex<T>(s: seq<T>, f: T -> bool): (r: Option<nat>)
    ensures r.Some? ==> r.value < |s| && f(s[r.value]) && forall j :: 0 <= j < r.value ==> !f(s[j])
    ensures r.None? ==> forall j :: 0 <= j < |s| ==> !f(s[j])
  {
    if s == [] then None
    else if f(s[0]) then Some(0)
    else match FirstIndex(s[1..], f)
      case Some(i) => Some(i + 1)
      case None => None
  }

  /** Sequence reversal: the query's `ORDER BY created_at DESC` over rows kept in creation order. */
  function Reverse<T>(s: seq<T>): (r: seq<T>)
    ensures |r| == |s|
    ensures forall i :: 0 <= i < |s| ==> r[i] == s[|s| - 1 - i]
  {
    if s == [] then [] else [s[|s| - 1]] + Reverse(s[..|s| - 1])
  }

  /** The index of the first element of page `page` (`paginate` reads a page below 1 as 1). */
  function PageStart(page: int, perPage: nat): nat {
    if page < 1 then 0 else (page - 1) * perPage
  }

  /** A page of a result: the at most `perPage` elements from `PageStart(page, perPage)` on;
      a page past the end is empty. */
  function Page<T>(s: seq<T>, page: int, perPage: nat): (r: seq<T>)
    requires perPage > 0
    ensures var start := PageStart(page, perPage);
            |r| == (if start >= |s| then 0 else if start + perPage <= |s| then perPage else |s| - start)
            && forall i :: 0 <= i < |r| ==> r[i] == s[start + i]
  {
    var start := PageStart(page, perPage);
    if start >= |s| then []
    else if start + perPage <= |s| then s[start..start + perPage]
    else s[start..]
  }

  /** Every element of a result appears on exactly one page: element `i` is at position
      `i % perPage` of page `i / perPage + 1`. */
  lemma PageHolds<T>(s: seq<T>, perPage: nat, i: nat)
    requires perPage > 0 && i < |s|
    ensures var q := Page(s, i / perPage + 1, perPage);
            i % perPage < |q| && q[i % perPage] == s[i]
  {
    var k := i / perPage;
    var m := i % perPage;
    var start := PageStart(k + 1, perPage);
    assert start == k * perPage;
    assert i == start + m;
    assert 0 <= m < perPage;
    assert start <= i < |s|;
    var q := Page(s, k + 1, perPage);
    assert m < |q|;
  }

  lemma ConcatAssoc<T>(x: seq<T>, y: seq<T>, z: seq<T>)
    ensures x + (y + z) == (x + y) + z
  {
  }

  /** `g` applied to every element (a list comprehension over a query result). */
  function Map<T, U>(s: seq<T>, g: T -> U): (r: seq<U>)
    ensures |r| == |s| && forall i :: 0 <= i < |s| ==> r[i] == g(s[i])
  {
    seq(|s|, i requires 0 <= i < |s| => g(s[i]))
  }

  /** At most the first `n` elements (a query's `.limit(n)`). */
  function Take<T>(s: seq<T>, n: nat): (r: seq<T>)
    ensures |r| == if |s| <= n then |s| else n
    ensures forall i :: 0 <= i < |r| ==> r[i] == s[i]
  {
    if |s| <= n then s else s[..n]
  }

  /** The keys strictly increase along `s` (rows kept in creation order), or strictly
      decrease (a result ordered newest first). */
  ghost predicate Increasing<T>(s: seq<T>, key: T -> int) {
    forall i, j :: 0 <= i < j < |s| ==> key(s[i]) < key(s[j])
  }

  ghost predicate Decreasing<T>(s: seq<T>, key: T -> int) {
    forall i, j :: 0 <= i < j < |s| ==> key(s[i]) > key(s[j])
  }

  /** A filter keeps the order of what it keeps. */
  lemma {:induction false} FilterIncreasing<T>(s: seq<T>, f: T -> bool, key: T -> int)
    requires Increasing(s, key)
    ensures Increasing(Filter(s, f), key)
  {
    if s != [] {
      var p, y := s[..|s| - 1], s[|s| - 1];
      FilterIncreasing(p, f, key);
      var q := Filter(p, f);
      forall i | 0 <= i < |q| ensures key(q[i]) < key(y) {
        var k :| 0 <= k < |p| && p[k] == q[i];
        assert s[k] == p[k];
      }
    }
  }

  /** Every element of a result ordered one way and then reversed is ordered the other way. */
  lemma ReverseDecreasing<T>(s: seq<T>, key: T -> int)
    requires Increasing(s, key)
    ensures Decreasing(Reverse(s), key)
  {
    var r := Reverse(s);
    forall i, j | 0 <= i < j < |r| ensures key(r[i]) > key(r[j]) {
      assert r[i] == s[|s| - 1 - i] && r[j] == s[|s| - 1 - j];
    }
  }

  /** `Filter(s, f)` newest first: exactly the elements of `s` that satisfy `f`, ordered by
      decreasing key. */
  lemma NewestFirst<T>(s: seq<T>, f: T -> bool, key: T -> int)
    requires Increasing(s, key)
    ensures var r := Reverse(Filter(s, f));
            Decreasing(r, key)
            && (forall i :: 0 <= i < |r| ==> r[i] in s && f(r[i]))
            && (forall i :: 0 <= i < |s| && f(s[i]) ==> s[i] in r)
  {
    var q := Filter(s, f);
    FilterIncreasing(s, f, key);
    ReverseDecreasing(q, key);
    ReverseMembers(q);
  }

  /** Reversal keeps the elements. */
  lemma ReverseMembers<T>(q: seq<T>)
    ensures forall x :: x in Reverse(q) <==> x in q
  {
    var r := Reverse(q);
    forall x ensures x in r <==> x in q {
      if x in r {
        var i :| 0 <= i < |r| && r[i] == x;
        assert q[|q| - 1 - i] == x;
      }
      if x in q {
        var k :| 0 <= k < |q| && q[k] == x;
        assert r[|q| - 1 - k] == x;
      }
    }
  }

  lemma InfixDecreasing<T>(s: seq<T>, lo: nat, r: seq<T>, key: T -> int)
    requires Decreasing(s, key) && lo + |r| <= |s|
    requires forall i :: 0 <= i < |r| ==> r[i] == s[lo + i]
    ensures Decreasing(r, key)
  {
    forall i, j | 0 <= i < j < |r| ensures key(r[i]) > key(r[j]) {
      assert r[i] == s[lo + i] && r[j] == s[lo + j];
    }
  }

  /** A page of an ordered result is ordered. */
  lemma PageDecreasing<T>(s: seq<T>, page: int, perPage: nat, key: T -> int)
    requires perPage > 0 && Decreasing(s, key)
    ensures Decreasing(Page(s, page, perPage), key)
  {
    var r := Page(s, page, perPage);
    var start := PageStart(page, perPage);
    assert |r| == 0 || start + |r| <= |s|;
    if |r| > 0 {
      InfixDecreasing(s, start, r, key);
    }
  }

  /** Two sequences that agree wherever `f` holds of either, and where `f` holds of the same
      positions, have the same `f`-elements. */
  lemma {:induction false} FilterPointwise<T>(s: seq<T>, t: seq<T>, f: T -> bool)
    requires |s| == |t|
    requires forall i :: 0 <= i < |s| ==> (f(s[i]) <==> f(t[i]))
    requires forall i :: 0 <= i < |s| && f(s[i]) ==> s[i] == t[i]
    ensures Filter(s, f) == Filter(t, f)
  {
    if s != [] {
      FilterPointwise(s[..|s| - 1], t[..|t| - 1], f);
    }
  }

  /** Deleting a row that occurs once shortens the table by one. */
  lemma RemoveLength<T>(s: seq<T>, x: T)
    requires Distinct(s) && x in s
    ensures |Remove(s, x)| == |s| - 1
  {
    var all := (y: T) => true;
    RemoveCount(s, x, all);
    FilterAll(s, all);
    FilterAll(Remove(s, x), all);
  }

  /** Two sequences whose elements satisfy `f` at the same positions have equally many. */
  lemma {:induction false} FilterSameLength<T, U>(s: seq<T>, t: seq<U>, f: T -> bool, g: U -> bool)
    requires |s| == |t|
    requires forall i :: 0 <= i < |s| ==> (f(s[i]) <==> g(t[i]))
    ensures |Filter(s, f)| == |Filter(t, g)|
  {
    if s != [] {
      FilterSameLength(s[..|s| - 1], t[..|t| - 1], f, g);
    }
  }

  /** A filter that keeps nothing gives the empty result. */
  lemma {:induction false} FilterNone<T>(s: seq<T>, f: T -> bool)
    requires forall i :: 0 <= i < |s| ==> !f(s[i])
    ensures Filter(s, f) == []
  {
    if s != [] {
      FilterNone(s[..|s| - 1], f);
    }
  }

  /** Every element of a page is an element of the result. */
  lemma PageIn<T>(s: seq<T>, page: int, perPage: nat)
    requires perPage > 0
    ensures var r := Page(s, page, perPage); forall i :: 0 <= i < |r| ==> r[i] in s
  {
    var r := Page(s, page, perPage);
    var start := PageStart(page, perPage);
    assert |r| == 0 || start + |r| <= |s|;
    forall i | 0 <= i < |r| ensures r[i] in s {
      assert r[i] == s[start + i];
    }
  }

  /** `x` is on one of the pages of `s`. */
  ghost predicate OnSomePage<T>(s: seq<T>, perPage: nat, x: T) {
    perPage > 0 && exists pg :: x in Page(s, pg, perPage)
  }

  /** Every element of a result is on some page of it. */
  lemma PagesCover<T>(s: seq<T>, perPage: nat, x: T)
    requires perPage > 0 && x in s
    ensures OnSomePage(s, perPage, x)
  {
    var i :| 0 <= i < |s| && s[i] == x;
    PageHolds(s, perPage, i);
    assert Page(s, i / perPage + 1, perPage)[i % perPage] == x;
  }

  /** `Filter(s, f)` newest first holds exactly the elements of `s` that satisfy `f`, in
      decreasing key order. */
  lemma NewestIs<T>(s: seq<T>, f: T -> bool, key: T -> int)
    requires Increasing(s, key)
    ensures var r := Reverse(Filter(s, f));
            Decreasing(r, key) && forall x :: x in r <==> x in s && f(x)
  {
    var r := Reverse(Filter(s, f));
    NewestFirst(s, f, key);
    forall x ensures x in r <==> x in s && f(x) {
      if x in r {
        var i :| 0 <= i < |r| && r[i] == x;
      }
      if x in s && f(x) {
        var k :| 0 <= k < |s| && s[k] == x;
      }
    }
  }

  /** A page of a result ordered by decreasing key is ordered the same way, no longer than
      the page size, and made of elements of the result; every element of the result is on
      some page. */
  lemma PagedResult<T>(s: seq<T>, page: int, perPage: nat, key: T -> int)
    requires perPage > 0 && Decreasing(s, key)
    ensures var r := Page(s, page, perPage);
            Decreasing(r, key) && |r| <= perPage && forall i :: 0 <= i < |r| ==> r[i] in s
    ensures forall x :: x in s ==> OnSomePage(s, perPage, x)
  {
    PageDecreasing(s, page, perPage, key);
    PageIn(s, page, perPage);
    forall x | x in s ensures OnSomePage(s, perPage, x) {
      PagesCover(s, perPage, x);
    }
  }
}
