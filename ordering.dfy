/**
 * Strict total orders and the sorted, duplicate-free sequences they induce.
 * Both the database's `$sort` on group ids and the client's `Array.prototype.sort`
 * over bucket keys are described with these.
 */
module Ordering {
  import Seqs

  /** `lt` is irreflexive, transitive and relates any two distinct values. */
  ghost predicate StrictTotal<T(!new)>(lt: (T, T) -> bool) {
    && (forall a :: !lt(a, a))
    && (forall a, b, c :: lt(a, b) && lt(b, c) ==> lt(a, c))
    && (forall a, b :: a != b ==> lt(a, b) || lt(b, a))
  }

  /** Every earlier element is strictly below every later one (so there are no duplicates). */
  predicate Ascending<T>(s: seq<T>, lt: (T, T) -> bool) {
    forall i, j :: 0 <= i < j < |s| ==> lt(s[i], s[j])
  }

  /** Inserts `x` at its place in an ascending sequence, unless it is already there. */
  function Insert<T(!new,==)>(s: seq<T>, x: T, lt: (T, T) -> bool): (r: seq<T>)
    requires StrictTotal(lt) && Ascending(s, lt)
    ensures Ascending(r, lt)
    ensures forall y :: y in r <==> y in s || y == x
    ensures |r| == if x in s then |s| else |s| + 1
  {
    if |s| == 0 then [x]
    else if s[0] == x then s
    else if lt(x, s[0]) then
      assert forall j :: 0 <= j < |s| ==> lt(x, s[j]) by {
        forall j | 0 <= j < |s| ensures lt(x, s[j]) {
          if j > 0 { assert lt(s[0], s[j]); }
        }
      }
      [x] + s
    else
      var rest := Insert(s[1..], x, lt);
      assert lt(s[0], x);
      assert forall y :: y in rest ==> lt(s[0], y) by {
        forall y | y in rest ensures lt(s[0], y) {
          if y != x {
            var j :| 1 <= j < |s| && s[j] == y;
          }
        }
      }
      [s[0]] + rest
  }

  /** The distinct elements of `xs` in ascending order. */
  function SortUnique<T(!new,==)>(xs: seq<T>, lt: (T, T) -> bool): (r: seq<T>)
    requires StrictTotal(lt)
    ensures Ascending(r, lt)
    ensures forall y :: y in r <==> y in xs
  {
    if |xs| == 0 then []
    else Insert(SortUnique(xs[..|xs| - 1], lt), xs[|xs| - 1], lt)
  }

  /** Sorting a duplicate-free sequence keeps every element: JavaScript's `sort` on distinct keys. */
  lemma {:induction false} SortUniqueLength<T(!new)>(xs: seq<T>, lt: (T, T) -> bool)
    requires StrictTotal(lt) && Seqs.NoDup(xs)
    ensures |SortUnique(xs, lt)| == |xs|
  {
    if |xs| > 0 {
      var init := xs[..|xs| - 1];
      assert Seqs.NoDup(init) by {
        forall i, j | 0 <= i < j < |init| ensures init[i] != init[j] {
          assert init[i] == xs[i] && init[j] == xs[j];
        }
      }
      SortUniqueLength(init, lt);
      assert xs[|xs| - 1] !in init by {
        forall k | 0 <= k < |init| ensures init[k] != xs[|xs| - 1] {
          assert init[k] == xs[k];
        }
      }
    }
  }

  /** An ascending sequence is determined by its elements. */
  lemma {:induction false} AscendingUnique<T(!new)>(a: seq<T>, b: seq<T>, lt: (T, T) -> bool)
    requires StrictTotal(lt) && Ascending(a, lt) && Ascending(b, lt)
    requires forall x :: x in a <==> x in b
    ensures a == b
  {
    assert |b| > 0 ==> b[0] in a;
    assert |a| > 0 ==> a[0] in b;
    if |a| > 0 && |b| > 0 {
      var i :| 0 <= i < |a| && a[i] == b[0];
      var j :| 0 <= j < |b| && b[j] == a[0];
      assert a[0] == b[0];
      forall x ensures x in a[1..] <==> x in b[1..] {
        if x in a[1..] {
          var i :| 1 <= i < |a| && a[i] == x;
          assert lt(a[0], x) && x != b[0];
          assert x in b;
          var j :| 0 <= j < |b| && b[j] == x;
          assert j != 0;
        }
        if x in b[1..] {
          var j :| 1 <= j < |b| && b[j] == x;
          assert lt(b[0], x) && x != a[0];
          assert x in a;
          var i :| 0 <= i < |a| && a[i] == x;
          assert i != 0;
        }
      }
      AscendingUnique(a[1..], b[1..], lt);
      assert a == [a[0]] + a[1..] && b == [b[0]] + b[1..];
    }
  }

  /** An ascending sequence holds each of its elements once. */
  lemma AscendingDistinct<T(!new)>(s: seq<T>, lt: (T, T) -> bool, i: nat, j: nat)
    requires StrictTotal(lt) && Ascending(s, lt)
    requires i < |s| && j < |s| && i != j
    ensures s[i] != s[j]
  {
    if i < j { assert lt(s[i], s[j]); } else { assert lt(s[j], s[i]); }
  }
}
