/** A stable insertion sort by a caller-supplied "ranks at least as high"
    relation; it stands for the pandas sorts of the analytics. */
module Sorting {

  ghost predicate TotalPreorder<T(!new)>(ge: (T, T) -> bool) {
    && (forall a, b :: ge(a, b) || ge(b, a))
    && (forall a, b, c :: ge(a, b) && ge(b, c) ==> ge(a, c))
  }

  ghost predicate SortedBy<T>(s: seq<T>, ge: (T, T) -> bool) {
    forall i, j :: 0 <= i < j < |s| ==> ge(s[i], s[j])
  }

  /** Places `x` before the first element it ranks at least as high as. */
  function Insert<T>(x: T, s: seq<T>, ge: (T, T) -> bool): (r: seq<T>)
    ensures multiset(r) == multiset(s) + multiset{x}
  {
    if s == [] then [x]
    else if ge(x, s[0]) then [x] + s
    else
      assert s == [s[0]] + s[1..];
      [s[0]] + Insert(x, s[1..], ge)
  }

  function SortBy<T>(s: seq<T>, ge: (T, T) -> bool): (r: seq<T>)
    ensures multiset(r) == multiset(s)
  {
    if s == [] then []
    else
      assert s == [s[0]] + s[1..];
      Insert(s[0], SortBy(s[1..], ge), ge)
  }

  lemma {:induction false} InsertSorted<T(!new)>(x: T, s: seq<T>, ge: (T, T) -> bool)
    requires TotalPreorder(ge) && SortedBy(s, ge)
    ensures SortedBy(Insert(x, s, ge), ge)
  {
    if s == [] {
    } else if ge(x, s[0]) {
      var r := [x] + s;
      forall i, j | 0 <= i < j < |r| ensures ge(r[i], r[j]) {
        if i == 0 && j > 1 {
          assert ge(s[0], s[j - 1]);
        }
      }
    } else {
      var rest := Insert(x, s[1..], ge);
      InsertSorted(x, s[1..], ge);
      var r := [s[0]] + rest;
      forall j | 0 <= j < |rest| ensures ge(s[0], rest[j]) {
        assert rest[j] in multiset(rest);
        assert rest[j] == x || rest[j] in multiset(s[1..]);
        if rest[j] != x {
          var k :| 0 <= k < |s[1..]| && s[1..][k] == rest[j];
          assert ge(s[0], s[k + 1]);
        }
      }
      forall i, j | 0 <= i < j < |r| ensures ge(r[i], r[j]) {
        if i == 0 {
          assert r[j] == rest[j - 1];
        } else {
          assert r[i] == rest[i - 1] && r[j] == rest[j - 1];
        }
      }
    }
  }

  lemma {:induction false} SortBySorted<T(!new)>(s: seq<T>, ge: (T, T) -> bool)
    requires TotalPreorder(ge)
    ensures SortedBy(SortBy(s, ge), ge)
  {
    if s != [] {
      SortBySorted(s[1..], ge);
      InsertSorted(s[0], SortBy(s[1..], ge), ge);
    }
  }

  predicate Distinct<T(==)>(s: seq<T>) {
    forall i, j :: 0 <= i < j < |s| ==> s[i] != s[j]
  }

  lemma {:induction false} DistinctMultiplicity<T>(s: seq<T>, x: T)
    requires Distinct(s)
    ensures multiset(s)[x] <= 1
  {
    if s != [] {
      assert s == [s[0]] + s[1..];
      DistinctMultiplicity(s[1..], x);
      if x == s[0] {
        assert x !in s[1..];
      }
    }
  }

  lemma DuplicateMultiplicity<T>(s: seq<T>, i: nat, j: nat)
    requires i < j < |s| && s[i] == s[j]
    ensures multiset(s)[s[i]] >= 2
  {
    assert s == s[..j] + [s[j]] + s[j + 1..];
    assert s[..j][i] == s[i];
    assert s[i] in multiset(s[..j]);
  }

  /** A permutation of a sequence without repetitions has none either. */
  lemma DistinctPermutation<T>(s: seq<T>, t: seq<T>)
    requires Distinct(s) && multiset(s) == multiset(t)
    ensures Distinct(t)
  {
    forall i, j | 0 <= i < j < |t| ensures t[i] != t[j] {
      if t[i] == t[j] {
        DuplicateMultiplicity(t, i, j);
        DistinctMultiplicity(s, t[i]);
      }
    }
  }

  /** A permutation has the same elements. */
  lemma SameElements<T>(s: seq<T>, t: seq<T>)
    requires multiset(s) == multiset(t)
    ensures forall x :: x in s <==> x in t
  {
    forall x ensures x in s <==> x in t {
      assert x in s <==> x in multiset(s);
      assert x in t <==> x in multiset(t);
    }
  }
}
