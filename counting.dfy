/** Counting the elements of a sequence that satisfy a predicate: the
    `.sum()` of a boolean mask, or the `len` of a filtered frame. */
module Counting {

  function CountWhere<T>(s: seq<T>, p: T -> bool): (n: nat)
    ensures n <= |s|
  {
    if s == [] then 0 else (if p(s[0]) then 1 else 0) + CountWhere(s[1..], p)
  }

  lemma {:induction false} CountAppend<T>(a: seq<T>, b: seq<T>, p: T -> bool)
    ensures CountWhere(a + b, p) == CountWhere(a, p) + CountWhere(b, p)
  {
    if a == [] {
      assert a + b == b;
    } else {
      assert (a + b)[1..] == a[1..] + b;
      CountAppend(a[1..], b, p);
    }
  }

  /** The count over three elements, spelled out. */
  lemma CountThree<T>(s: seq<T>, p: T -> bool)
    requires |s| == 3
    ensures CountWhere(s, p) == (if p(s[0]) then 1 else 0) + (if p(s[1]) then 1 else 0) + (if p(s[2]) then 1 else 0)
  {
    var t := s[1..];
    var u := t[1..];
    assert u[1..] == [];
    assert CountWhere(u, p) == if p(s[2]) then 1 else 0;
    assert CountWhere(t, p) == (if p(s[1]) then 1 else 0) + CountWhere(u, p);
  }

  /** A weaker predicate never counts fewer elements. */
  lemma {:induction false} CountMono<T>(s: seq<T>, p: T -> bool, q: T -> bool)
    requires forall x :: x in s && p(x) ==> q(x)
    ensures CountWhere(s, p) <= CountWhere(s, q)
  {
    if s != [] {
      CountMono(s[1..], p, q);
    }
  }

  /** Counting a union never exceeds the sum of the counts of its parts. */
  lemma {:induction false} CountUnionBound<T>(s: seq<T>, u: T -> bool, p: T -> bool, q: T -> bool)
    requires forall x :: x in s && u(x) ==> p(x) || q(x)
    ensures CountWhere(s, u) <= CountWhere(s, p) + CountWhere(s, q)
  {
    if s != [] {
      CountUnionBound(s[1..], u, p, q);
    }
  }

  /** Counting a disjoint union is the sum of the counts of its parts. */
  lemma {:induction false} CountDisjointUnion<T>(s: seq<T>, u: T -> bool, p: T -> bool, q: T -> bool)
    requires forall x :: x in s ==> (u(x) <==> p(x) || q(x)) && !(p(x) && q(x))
    ensures CountWhere(s, u) == CountWhere(s, p) + CountWhere(s, q)
  {
    if s != [] {
      CountDisjointUnion(s[1..], u, p, q);
    }
  }

  /** Some element is counted exactly when some element satisfies the predicate. */
  lemma {:induction false} CountPositive<T>(s: seq<T>, p: T -> bool)
    ensures CountWhere(s, p) > 0 <==> exists x :: x in s && p(x)
  {
    if s != [] {
      CountPositive(s[1..], p);
      assert forall x :: x in s[1..] ==> x in s;
      assert s[0] in s;
      assert forall x :: x in s ==> x == s[0] || x in s[1..];
    }
  }

  /** Every element is counted exactly when every element satisfies the predicate. */
  lemma {:induction false} CountAll<T>(s: seq<T>, p: T -> bool)
    ensures CountWhere(s, p) == |s| <==> forall x :: x in s ==> p(x)
  {
    if s != [] {
      CountAll(s[1..], p);
      assert forall x :: x in s ==> x == s[0] || x in s[1..];
    }
  }

  /** The multiplicities in `m` of the elements of `keys`, added up. */
  function SumMultiplicities<T>(keys: seq<T>, m: multiset<T>): nat {
    if keys == [] then 0 else m[keys[0]] + SumMultiplicities(keys[1..], m)
  }

  lemma {:induction false} SumMultiplicitiesAppend<T>(a: seq<T>, b: seq<T>, m: multiset<T>)
    ensures SumMultiplicities(a + b, m) == SumMultiplicities(a, m) + SumMultiplicities(b, m)
  {
    if a == [] {
      assert a + b == b;
    } else {
      assert (a + b)[1..] == a[1..] + b;
      SumMultiplicitiesAppend(a[1..], b, m);
    }
  }

  lemma {:induction false} SumMultiplicitiesAddOne<T>(keys: seq<T>, m: multiset<T>, x: T)
    requires forall i, j :: 0 <= i < j < |keys| ==> keys[i] != keys[j]
    ensures SumMultiplicities(keys, m + multiset{x}) == SumMultiplicities(keys, m) + (if x in keys then 1 else 0)
  {
    if keys != [] {
      SumMultiplicitiesAddOne(keys[1..], m, x);
      assert forall y :: y in keys <==> y == keys[0] || y in keys[1..] by {
        assert keys == [keys[0]] + keys[1..];
      }
      if x == keys[0] {
        assert x !in keys[1..] by {
          forall j | 0 <= j < |keys[1..]| ensures keys[1..][j] != x {
            assert keys[1..][j] == keys[j + 1];
          }
        }
      }
    }
  }

  /** Over keys without repetitions that cover a multiset, its
      multiplicities add up to its size. */
  lemma {:induction false} SumMultiplicitiesCover<T>(keys: seq<T>, m: multiset<T>)
    requires forall i, j :: 0 <= i < j < |keys| ==> keys[i] != keys[j]
    requires forall x :: x in m ==> x in keys
    ensures SumMultiplicities(keys, m) == |m|
    decreases |m|
  {
    if |m| == 0 {
      assert m == multiset{};
      SumMultiplicitiesEmpty(keys, m);
    } else {
      var x :| x in m;
      var m0 := m - multiset{x};
      assert m == m0 + multiset{x};
      SumMultiplicitiesCover(keys, m0);
      SumMultiplicitiesAddOne(keys, m0, x);
    }
  }

  lemma {:induction false} SumMultiplicitiesEmpty<T>(keys: seq<T>, m: multiset<T>)
    requires m == multiset{}
    ensures SumMultiplicities(keys, m) == 0
  {
    if keys != [] {
      SumMultiplicitiesEmpty(keys[1..], m);
    }
  }
}
