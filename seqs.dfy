/** Order-preserving filters, running totals and first-occurrence deduplication over sequences. */
module Seqs {

  predicate NoDup<T(==)>(s: seq<T>) {
    forall i, j :: 0 <= i < j < |s| ==> s[i] != s[j]
  }

  /** The elements of `s` that satisfy `p`, in their original order (`Array.prototype.filter`, `$match`). */
  function Filter<T(!new,==)>(s: seq<T>, p: T -> bool): (r: seq<T>)
    ensures |r| <= |s|
    ensures forall x :: x in r <==> x in s && p(x)
  {
    if |s| == 0 then []
    else
      var init := s[..|s| - 1];
      assert s == init + [s[|s| - 1]];
      Filter(init, p) + (if p(s[|s| - 1]) then [s[|s| - 1]] else [])
  }

  /** Filtering keeps every occurrence of a satisfying element and drops all others. */
  lemma {:induction false} FilterMultiset<T(!new)>(s: seq<T>, p: T -> bool)
    ensures forall x :: multiset(Filter(s, p))[x] == if p(x) then multiset(s)[x] else 0
  {
    if |s| > 0 {
      var init := s[..|s| - 1];
      assert s == init + [s[|s| - 1]];
      FilterMultiset(init, p);
    }
  }

  /** Filtering two arrangements of the same elements yields arrangements of the same elements. */
  lemma FilterPermutation<T(!new)>(a: seq<T>, b: seq<T>, p: T -> bool)
    requires multiset(a) == multiset(b)
    ensures multiset(Filter(a, p)) == multiset(Filter(b, p))
  {
    FilterMultiset(a, p);
    FilterMultiset(b, p);
  }

  /** A prefix one longer is the prefix with the next element appended. */
  lemma TakeSnoc<T>(s: seq<T>, i: nat)
    requires i < |s|
    ensures s[..i + 1] == s[..i] + [s[i]]
  {
  }

  /** `f` applied to each element, in order. */
  function Apply<T, U>(s: seq<T>, f: T --> U): (r: seq<U>)
    requires forall i :: 0 <= i < |s| ==> f.requires(s[i])
    ensures |r| == |s|
  {
    if |s| == 0 then [] else Apply(s[..|s| - 1], f) + [f(s[|s| - 1])]
  }

  lemma {:induction false} ApplyAt<T, U>(s: seq<T>, f: T --> U, i: nat)
    requires forall j :: 0 <= j < |s| ==> f.requires(s[j])
    requires i < |s|
    ensures Apply(s, f)[i] == f(s[i])
  {
    var init := s[..|s| - 1];
    if i < |init| {
      assert init[i] == s[i];
      ApplyAt(init, f, i);
    }
  }

  lemma ApplySnoc<T, U>(s: seq<T>, x: T, f: T --> U)
    requires forall j :: 0 <= j < |s| ==> f.requires(s[j])
    requires f.requires(x)
    ensures Apply(s + [x], f) == Apply(s, f) + [f(x)]
  {
    assert (s + [x])[..|s|] == s;
  }

  /** The elements of `s` whose key is `k`, in their original order. */
  function WithKey<T(!new,==), K(==)>(s: seq<T>, key: T -> K, k: K): seq<T> {
    Filter(s, x => key(x) == k)
  }

  /** Appending an element extends exactly the group of its own key. */
  lemma WithKeySnoc<T(!new), K>(init: seq<T>, x: T, key: T -> K, k: K)
    ensures WithKey(init + [x], key, k) == WithKey(init, key, k) + (if key(x) == k then [x] else [])
  {
    assert (init + [x])[..|init + [x]| - 1] == init;
  }

  /** Every element of a group has the group's key and comes from `s`. */
  lemma WithKeyMember<T(!new), K>(s: seq<T>, key: T -> K, k: K, x: T)
    requires x in WithKey(s, key, k)
    ensures x in s && key(x) == k
  {
  }

  /** A key has a non-empty group exactly when some element has it. */
  lemma WithKeyNonEmpty<T(!new), K>(s: seq<T>, key: T -> K, k: K)
    ensures |WithKey(s, key, k)| > 0 <==> exists x :: x in s && key(x) == k
  {
    var w := WithKey(s, key, k);
    if |w| > 0 {
      assert w[0] in w;
    }
  }

  /** Lodash's `groupBy`: for every key present, the elements with that key in their original order. */
  function GroupBy<T(!new,==), K(!new,==)>(s: seq<T>, key: T -> K): (m: map<K, seq<T>>)
    ensures forall k :: k in m <==> |WithKey(s, key, k)| > 0
    ensures forall k :: k in m ==> m[k] == WithKey(s, key, k)
  {
    if |s| == 0 then map[]
    else
      var init := s[..|s| - 1];
      var x := s[|s| - 1];
      var m := GroupBy(init, key);
      GroupByStep(init, x, key, m);
      TakeSnoc(s, |s| - 1);
      m[key(x) := (if key(x) in m then m[key(x)] else []) + [x]]
  }

  /** Filing one more element under its key keeps a grouping exact. */
  lemma GroupByStep<T(!new), K(!new)>(init: seq<T>, x: T, key: T -> K, m: map<K, seq<T>>)
    requires forall k :: k in m <==> |WithKey(init, key, k)| > 0
    requires forall k :: k in m ==> m[k] == WithKey(init, key, k)
    ensures var m' := m[key(x) := (if key(x) in m then m[key(x)] else []) + [x]];
      && (forall k :: k in m' <==> |WithKey(init + [x], key, k)| > 0)
      && (forall k :: k in m' ==> m'[k] == WithKey(init + [x], key, k))
  {
    var m' := m[key(x) := (if key(x) in m then m[key(x)] else []) + [x]];
    forall k ensures k in m' <==> |WithKey(init + [x], key, k)| > 0
      ensures k in m' ==> m'[k] == WithKey(init + [x], key, k)
    {
      WithKeySnoc(init, x, key, k);
    }
  }

  /** The sum of `f` over the elements of `s`. */
  function Total<T>(s: seq<T>, f: T -> real): real {
    if |s| == 0 then 0.0 else f(s[0]) + Total(s[1..], f)
  }

  lemma {:induction false} TotalConcat<T>(a: seq<T>, b: seq<T>, f: T -> real)
    ensures Total(a + b, f) == Total(a, f) + Total(b, f)
  {
    if |a| > 0 {
      assert (a + b)[1..] == a[1..] + b;
      TotalConcat(a[1..], b, f);
    } else {
      assert a + b == b;
    }
  }

  /** Taking out the element at `i` takes its value out of the total. */
  lemma TotalRemove<T>(s: seq<T>, i: nat, f: T -> real)
    requires i < |s|
    ensures Total(s, f) == f(s[i]) + Total(s[..i] + s[i + 1..], f)
  {
    var before, after := s[..i], s[i + 1..];
    var rest := [s[i]] + after;
    assert rest[0] == s[i] && rest[1..] == after;
    assert Total(rest, f) == f(s[i]) + Total(after, f);
    assert s == before + rest;
    TotalConcat(before, rest, f);
    TotalConcat(before, after, f);
  }

  /** Removing one occurrence of `x` removes it from the multiset. */
  lemma MultisetRemove<T>(s: seq<T>, i: nat)
    requires i < |s|
    ensures multiset(s[..i] + s[i + 1..]) == multiset(s) - multiset{s[i]}
  {
    assert s == s[..i] + [s[i]] + s[i + 1..];
  }

  lemma MultisetTail<T>(s: seq<T>)
    requires |s| > 0
    ensures multiset(s[1..]) == multiset(s) - multiset{s[0]}
  {
    assert s == [s[0]] + s[1..];
  }

  /** Sequences with the same multiset have the same members. */
  lemma MultisetMembers<T>(a: seq<T>, b: seq<T>)
    requires multiset(a) == multiset(b)
    ensures forall x :: x in a <==> x in b
  {
    forall x ensures x in a <==> x in b {
      assert x in a <==> x in multiset(a);
      assert x in b <==> x in multiset(b);
    }
  }

  /** A total does not depend on the order of the summands. */
  lemma {:induction false} TotalPermutation<T>(a: seq<T>, b: seq<T>, f: T -> real)
    requires multiset(a) == multiset(b)
    ensures Total(a, f) == Total(b, f)
  {
    if |a| == 0 {
      assert |multiset(b)| == 0;
    } else {
      var x := a[0];
      assert x in multiset(b);
      assert x in b;
      var i :| 0 <= i < |b| && b[i] == x;
      var rest := b[..i] + b[i + 1..];
      TotalRemove(b, i, f);
      MultisetRemove(b, i);
      MultisetTail(a);
      assert multiset(rest) == multiset(b) - multiset{x};
      TotalPermutation(a[1..], rest, f);
      assert Total(a, f) == f(x) + Total(a[1..], f);
    }
  }

  /** A total of values that all lie in [lo, hi] lies in [lo * n, hi * n]. */
  lemma {:induction false} TotalBounds<T>(s: seq<T>, f: T -> real, lo: real, hi: real)
    requires forall i :: 0 <= i < |s| ==> lo <= f(s[i]) <= hi
    ensures lo * |s| as real <= Total(s, f) <= hi * |s| as real
  {
    if |s| > 0 {
      TotalBounds(s[1..], f, lo, hi);
      assert f(s[0]) + Total(s[1..], f) == Total(s, f);
    }
  }

  /** `s` with every occurrence of `a` removed. */
  function Without<T(!new,==)>(s: seq<T>, a: T): (r: seq<T>)
    ensures |r| <= |s|
    ensures forall x :: x in r <==> x in s && x != a
  {
    if |s| == 0 then [] else (if s[0] == a then [] else [s[0]]) + Without(s[1..], a)
  }

  /**
   * Each distinct element of `s` once, in the order of its first occurrence:
   * the first element, then the first-seen order of the rest with it removed.
   */
  function FirstSeen<T(!new,==)>(s: seq<T>): (r: seq<T>)
    ensures NoDup(r)
    ensures forall x :: x in r <==> x in s
    decreases |s|
  {
    if |s| == 0 then []
    else
      var rest := FirstSeen(Without(s[1..], s[0]));
      assert forall k :: 0 <= k < |rest| ==> rest[k] != s[0] by {
        forall k | 0 <= k < |rest| ensures rest[k] != s[0] {
          assert rest[k] in rest;
        }
      }
      assert forall x :: x in s <==> x == s[0] || x in s[1..] by {
        assert s == [s[0]] + s[1..];
      }
      [s[0]] + rest
  }

  lemma {:induction false} WithoutSnoc<T(!new)>(s: seq<T>, a: T, x: T)
    ensures Without(s + [x], a) == Without(s, a) + (if x == a then [] else [x])
  {
    if |s| == 0 {
      assert [] + [x] == [x];
      assert Without([x], a) == (if x == a then [] else [x]) + Without([], a);
    } else {
      assert (s + [x])[1..] == s[1..] + [x];
      WithoutSnoc(s[1..], a, x);
    }
  }

  /** Appending an element extends the first-seen list exactly when the element is new. */
  lemma {:induction false} FirstSeenSnoc<T(!new)>(s: seq<T>, x: T)
    ensures FirstSeen(s + [x]) == if x in s then FirstSeen(s) else FirstSeen(s) + [x]
    decreases |s|
  {
    if |s| == 0 {
      assert [] + [x] == [x];
      assert Without([x][1..], x) == [];
    } else {
      var a := s[0];
      assert (s + [x])[0] == a && (s + [x])[1..] == s[1..] + [x];
      WithoutSnoc(s[1..], a, x);
      assert s == [a] + s[1..];
      if x == a {
        assert Without(s[1..] + [x], a) == Without(s[1..], a);
      } else {
        var w := Without(s[1..], a);
        assert Without(s[1..] + [x], a) == w + [x];
        FirstSeenSnoc(w, x);
        assert x in w <==> x in s;
      }
    }
  }
}
