/**
 * `sorted(set(xs))` for any element type with a strict total order:
 * the distinct elements of a sequence in increasing order.
 */
module Sorted {

  /** `lt` is a strict total order. */
  ghost predicate StrictOrder<T(!new)>(lt: (T, T) -> bool) {
    && (forall a :: !lt(a, a))
    && (forall a, b, c :: lt(a, b) && lt(b, c) ==> lt(a, c))
    && (forall a, b :: a != b ==> lt(a, b) || lt(b, a))
  }

  ghost predicate Increasing<T>(s: seq<T>, lt: (T, T) -> bool) {
    forall i, j | 0 <= i < j < |s| :: lt(s[i], s[j])
  }

  /** Inserts `x` at its place in an increasing sequence, unless it is already there. */
  function Insert<T(==,!new)>(s: seq<T>, x: T, lt: (T, T) -> bool): (r: seq<T>)
    requires StrictOrder(lt) && Increasing(s, lt)
    ensures Increasing(r, lt)
    ensures forall y :: y in r <==> y in s || y == x
  {
    if s == [] then [x]
    else if lt(x, s[0]) then [x] + s
    else if x == s[0] then s
    else
      var rest := Insert(s[1..], x, lt);
      assert forall y :: y in rest ==> lt(s[0], y) by {
        forall y | y in rest ensures lt(s[0], y) {
          if y != x {
            var k :| 1 <= k < |s| && s[k] == y;
          }
        }
      }
      [s[0]] + rest
  }

  /** The distinct elements of `xs`, sorted: Python's `sorted(set(xs))`. */
  function SortedDistinct<T(==,!new)>(xs: seq<T>, lt: (T, T) -> bool): (r: seq<T>)
    requires StrictOrder(lt)
    ensures Increasing(r, lt)
    ensures forall y :: y in r <==> y in xs
  {
    if xs == [] then []
    else Insert(SortedDistinct(xs[..|xs| - 1], lt), xs[|xs| - 1], lt)
  }

  /** An increasing sequence is determined by its elements. */
  lemma {:induction false} IncreasingUnique<T(!new)>(a: seq<T>, b: seq<T>, lt: (T, T) -> bool)
    requires StrictOrder(lt) && Increasing(a, lt) && Increasing(b, lt)
    requires forall y :: y in a <==> y in b
    ensures a == b
  {
    assert a != [] ==> a[0] in b;
    assert b != [] ==> b[0] in a;
    if a != [] && b != [] {
      // each head is below every other element of its own sequence, so the heads agree
      assert a[0] == b[0] by {
        assert a[0] in b && b[0] in a;
        var m :| 0 <= m < |b| && b[m] == a[0];
        var k :| 0 <= k < |a| && a[k] == b[0];
      }
      forall y ensures y in a[1..] <==> y in b[1..] {
        if y in a[1..] {
          var k :| 1 <= k < |a| && a[k] == y;
          assert y in b;
          var m :| 0 <= m < |b| && b[m] == y;
          assert m != 0 && b[1..][m - 1] == y;
        }
        if y in b[1..] {
          var k :| 1 <= k < |b| && b[k] == y;
          assert y in a;
          var m :| 0 <= m < |a| && a[m] == y;
          assert m != 0 && a[1..][m - 1] == y;
        }
      }
      IncreasingUnique(a[1..], b[1..], lt);
      assert a == [a[0]] + a[1..] && b == [b[0]] + b[1..];
    }
  }

  /** The elements of an increasing sequence are all distinct, so there are as many as its length. */
  lemma {:induction false} IncreasingCard<T(!new)>(s: seq<T>, lt: (T, T) -> bool)
    requires StrictOrder(lt) && Increasing(s, lt)
    ensures |set y | y in s| == |s|
  {
    if s != [] {
      IncreasingCard(s[1..], lt);
      var tail := set y | y in s[1..];
      assert s[0] !in tail;
      assert (set y | y in s) == {s[0]} + tail;
    }
  }

  /** The position of an element in a sequence that contains it. */
  function IndexOf<T(==)>(s: seq<T>, x: T): (i: nat)
    requires x in s
    ensures i < |s| && s[i] == x
    ensures forall j | 0 <= j < i :: s[j] != x
  {
    if s[0] == x then 0 else 1 + IndexOf(s[1..], x)
  }
}
