/** Sequence helpers standing in for the JavaScript array methods the session
    handlers use: `filter`, `map` (as `Project`) and counting. */
module Seqs {

  /** `sub` is obtained from `xs` by dropping elements, keeping the rest in order. */
  ghost predicate SubsequenceOf<T>(sub: seq<T>, xs: seq<T>)
    decreases |xs|
  {
    if |sub| == 0 then true
    else if |xs| == 0 then false
    else (sub[0] == xs[0] && SubsequenceOf(sub[1..], xs[1..])) || SubsequenceOf(sub, xs[1..])
  }

  /** `Array.prototype.filter`: the elements satisfying `keep`, in their original order. */
  function Filter<T>(xs: seq<T>, keep: T -> bool): (r: seq<T>)
    ensures |r| <= |xs|
    ensures forall i :: 0 <= i < |r| ==> keep(r[i]) && r[i] in xs
    ensures forall i :: 0 <= i < |xs| && keep(xs[i]) ==> xs[i] in r
    ensures SubsequenceOf(r, xs)
  {
    if |xs| == 0 then []
    else if keep(xs[0]) then [xs[0]] + Filter(xs[1..], keep)
    else Filter(xs[1..], keep)
  }

  /** Filtering distributes over concatenation: `filter` decides each element on
      its own, independently of its neighbours. */
  lemma {:induction false} FilterAppend<T>(a: seq<T>, b: seq<T>, keep: T -> bool)
    ensures Filter(a + b, keep) == Filter(a, keep) + Filter(b, keep)
  {
    if |a| == 0 {
      assert a + b == b;
    } else {
      assert (a + b)[1..] == a[1..] + b;
      FilterAppend(a[1..], b, keep);
    }
  }

  /** `filter` keeps every passing element as often as it occurs, repeats
      included, and never adds an element. */
  lemma {:induction false} FilterKeepsMultiplicity<T>(xs: seq<T>, keep: T -> bool)
    ensures multiset(Filter(xs, keep)) <= multiset(xs)
    ensures forall i :: 0 <= i < |xs| && keep(xs[i]) ==>
              multiset(Filter(xs, keep))[xs[i]] == multiset(xs)[xs[i]]
  {
    if |xs| > 0 {
      var rest := xs[1..];
      assert xs == [xs[0]] + rest;
      FilterAppend([xs[0]], rest, keep);
      FilterKeepsMultiplicity(rest, keep);
      forall i | 1 <= i < |xs| && keep(xs[i])
        ensures multiset(Filter(rest, keep))[xs[i]] == multiset(rest)[xs[i]]
      {
        assert rest[i - 1] == xs[i];
      }
    }
  }

  /** `Array.prototype.map`. */
  function Project<T, U>(xs: seq<T>, f: T -> U): (r: seq<U>)
    ensures |r| == |xs|
    ensures forall i :: 0 <= i < |xs| ==> r[i] == f(xs[i])
  {
    if |xs| == 0 then [] else [f(xs[0])] + Project(xs[1..], f)
  }

  /** Number of occurrences of `x` in `xs`. */
  function Count<T(==)>(xs: seq<T>, x: T): nat
  {
    if |xs| == 0 then 0 else (if xs[0] == x then 1 else 0) + Count(xs[1..], x)
  }

  /** No two elements of `xs` share a key. */
  ghost predicate KeysUnique<T, K>(xs: seq<T>, key: T -> K)
  {
    forall i, j :: 0 <= i < j < |xs| ==> key(xs[i]) != key(xs[j])
  }

  /** When keys are unique, listing the keys of the kept elements mentions each key
      exactly once if an element with that key is kept, and never otherwise. */
  lemma {:induction false} KeysOfFilterCountedOnce<T, K>(xs: seq<T>, keep: T -> bool, key: T -> K, k: K)
    requires KeysUnique(xs, key)
    ensures Count(Project(Filter(xs, keep), key), k)
            == (if exists i :: 0 <= i < |xs| && key(xs[i]) == k && keep(xs[i]) then 1 else 0)
  {
    if |xs| == 0 {
    } else {
      var rest := xs[1..];
      assert KeysUnique(rest, key) by {
        forall i, j | 0 <= i < j < |rest|
          ensures key(rest[i]) != key(rest[j])
        {
          assert rest[i] == xs[i + 1] && rest[j] == xs[j + 1];
        }
      }
      KeysOfFilterCountedOnce(rest, keep, key, k);
      var inRest := exists i :: 0 <= i < |rest| && key(rest[i]) == k && keep(rest[i]);
      var inAll := exists i :: 0 <= i < |xs| && key(xs[i]) == k && keep(xs[i]);
      assert inRest ==> inAll by {
        if inRest {
          var i :| 0 <= i < |rest| && key(rest[i]) == k && keep(rest[i]);
          assert xs[i + 1] == rest[i];
        }
      }
      assert inAll ==> (key(xs[0]) == k && keep(xs[0])) || inRest by {
        if inAll {
          var i :| 0 <= i < |xs| && key(xs[i]) == k && keep(xs[i]);
          if i > 0 {
            assert rest[i - 1] == xs[i];
          }
        }
      }
      if key(xs[0]) == k {
        assert !inRest by {
          forall i | 0 <= i < |rest|
            ensures key(rest[i]) != k
          {
            assert rest[i] == xs[i + 1];
          }
        }
      }
      if keep(xs[0]) {
        var fr := Filter(rest, keep);
        assert Filter(xs, keep) == [xs[0]] + fr;
        assert Project([xs[0]] + fr, key) == [key(xs[0])] + Project(fr, key) by {
          assert ([xs[0]] + fr)[1..] == fr;
        }
        assert ([key(xs[0])] + Project(fr, key))[1..] == Project(fr, key);
      }
    }
  }

  /** Filtering commutes with a projection that preserves the filter condition. */
  lemma {:induction false} FilterThenProject<T, U>(xs: seq<T>, f: T -> U, keepT: T -> bool, keepU: U -> bool)
    requires forall x :: keepT(x) == keepU(f(x))
    ensures Project(Filter(xs, keepT), f) == Filter(Project(xs, f), keepU)
  {
    if |xs| > 0 {
      FilterThenProject(xs[1..], f, keepT, keepU);
      var px := Project(xs, f);
      assert px[0] == f(xs[0]);
      assert px[1..] == Project(xs[1..], f);
      if keepT(xs[0]) {
        var ft := Filter(xs[1..], keepT);
        assert Project([xs[0]] + ft, f) == [f(xs[0])] + Project(ft, f) by {
          assert ([xs[0]] + ft)[1..] == ft;
        }
      }
    }
  }
}
