/** The randomised selection helpers `shuffle` and `pickN`. `Math.random` becomes a nondeterministic choice. */
module Sampling {
  import opened Wrappers

  /** `arr.filter(x => !excludeSet.has(x))`: the elements of `s` that are not in `ex`, in order. */
  function Filter<T(==,!new)>(s: seq<T>, ex: set<T>): (r: seq<T>)
    ensures |r| <= |s|
    ensures forall x :: multiset(r)[x] == if x in ex then 0 else multiset(s)[x]
  {
    if s == [] then []
    else
      assert s == [s[0]] + s[1..];
      if s[0] in ex then Filter(s[1..], ex) else [s[0]] + Filter(s[1..], ex)
  }

  /** No value occurs twice. */
  predicate NoDup<T(==)>(s: seq<T>) {
    forall x :: x in s ==> multiset(s)[x] <= 1
  }

  /** No two positions hold the same value. */
  predicate Distinct<T(==)>(s: seq<T>) {
    forall i, j :: 0 <= i < j < |s| ==> s[i] != s[j]
  }

  /** The two ways of saying "no duplicates" agree. */
  lemma {:induction false} DistinctNoDup<T(!new)>(s: seq<T>)
    ensures Distinct(s) <==> NoDup(s)
  {
    if s != [] {
      DistinctNoDup(s[1..]);
      assert s == [s[0]] + s[1..];
      if Distinct(s) {
        assert Distinct(s[1..]);
        assert s[0] !in s[1..];
        assert NoDup(s);
      }
      if NoDup(s) {
        assert NoDup(s[1..]) by {
          forall x ensures multiset(s[1..])[x] <= 1 {
            assert multiset(s)[x] == multiset([s[0]])[x] + multiset(s[1..])[x];
          }
        }
        forall i, j | 0 <= i < j < |s| ensures s[i] != s[j] {
          if i == 0 {
            assert s[j] in s[1..];
            assert multiset(s)[s[0]] == 1 + multiset(s[1..])[s[0]];
          } else {
            assert s[i] == s[1..][i - 1] && s[j] == s[1..][j - 1];
          }
        }
      }
    }
  }

  /** Taking one value that occurs once out of a sequence shortens it by exactly one. */
  lemma {:induction false} FilterOne<T(!new)>(s: seq<T>, x: T)
    requires NoDup(s) && x in s
    ensures |Filter(s, {x})| == |s| - 1
  {
    assert s == [s[0]] + s[1..];
    assert multiset(s)[s[0]] == 1 + multiset(s[1..])[s[0]];
    assert NoDup(s[1..]) by {
      forall y ensures multiset(s[1..])[y] <= 1 {
        assert multiset(s)[y] == multiset([s[0]])[y] + multiset(s[1..])[y];
      }
    }
    if s[0] == x {
      assert x !in s[1..];
      assert multiset(Filter(s[1..], {x})) == multiset(s[1..]);
      assert |Filter(s[1..], {x})| == |s[1..]|;
    } else {
      FilterOne(s[1..], x);
    }
  }

  /** `shuffle(arr)`: Fisher–Yates on a copy `a` of `arr`, swapping `a[i]` with an arbitrary `a[j]`, `0 <= j <= i`. */
  method Shuffle<T(==)>(arr: seq<T>) returns (r: seq<T>)
    ensures |r| == |arr|
    ensures multiset(r) == multiset(arr)
  {
    var a := new T[|arr|](k requires 0 <= k < |arr| => arr[k]);
    assert a[..] == arr;
    var i := a.Length - 1;
    while i > 0
      invariant -1 <= i < a.Length
      invariant multiset(a[..]) == multiset(arr)
    {
      var j :| 0 <= j <= i;
      a[i], a[j] := a[j], a[i];
      i := i - 1;
    }
    r := a[..];
  }

  /** `pickN(arr, n, ex)`: shuffle the values not excluded, then keep the first `n`. */
  method PickN<T(==,!new)>(arr: seq<T>, n: nat, ex: set<T>) returns (r: seq<T>)
    ensures |r| == Min(n, |Filter(arr, ex)|)
    ensures multiset(r) <= multiset(Filter(arr, ex))
    ensures multiset(r) <= multiset(arr)
    ensures forall x :: x in r ==> x in arr && x !in ex
    ensures n >= |Filter(arr, ex)| ==> multiset(r) == multiset(Filter(arr, ex))
  {
    var pool := Filter(arr, ex);
    var mixed := Shuffle(pool);
    var k := Min(n, |mixed|);
    r := mixed[..k];
    assert mixed == r + mixed[k..];
    assert multiset(mixed) == multiset(r) + multiset(mixed[k..]);
    forall x | x in r ensures x in arr && x !in ex {
      assert multiset(r)[x] > 0;
      assert multiset(pool)[x] > 0;
      assert multiset(arr)[x] > 0;
    }
    if n >= |pool| {
      assert r == mixed;
    }
  }

  /** `[...Array(n).keys()]`: the indices `0 .. n-1`. */
  function Range(n: nat): (r: seq<nat>)
    ensures |r| == n && forall i :: 0 <= i < n ==> r[i] == i
  {
    seq(n, i => i)
  }

  /** `order` lists every index below `n` exactly once. */
  predicate IsPermutation(order: seq<nat>, n: nat) {
    multiset(order) == multiset(Range(n))
  }

  /** A permutation of the indices has length `n`, holds each index below `n` and nothing else, and no index twice. */
  lemma PermutationIndices(order: seq<nat>, n: nat)
    requires IsPermutation(order, n)
    ensures |order| == n
    ensures forall k: nat :: k in order <==> k < n
    ensures Distinct(order)
  {
    assert |multiset(order)| == |multiset(Range(n))|;
    forall k: nat ensures k in order <==> k < n {
      assert k in order <==> k in multiset(order);
      if k < n {
        assert Range(n)[k] == k;
      }
    }
    assert Distinct(Range(n));
    DistinctNoDup(Range(n));
    DistinctNoDup(order);
  }
}
