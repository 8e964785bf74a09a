/** Facts about sequences that the tables and listings rely on. */
module Seqs {

  /** No element occurs twice. */
  predicate Distinct<T(==)>(xs: seq<T>) {
    forall i, j :: 0 <= i < j < |xs| ==> xs[i] != xs[j]
  }

  /** The set of elements of a sequence. */
  function Elems<T>(xs: seq<T>): set<T> {
    set x | x in xs
  }

  /** A sequence has at least as many positions as distinct elements, and
      exactly as many precisely when no element repeats. */
  lemma {:induction false} ElemsCard<T>(xs: seq<T>)
    ensures |Elems(xs)| <= |xs|
    ensures |Elems(xs)| == |xs| <==> Distinct(xs)
  {
    if xs == [] {
      assert Elems(xs) == {};
    } else {
      var rest := xs[1..];
      ElemsCard(rest);
      assert Elems(xs) == Elems(rest) + {xs[0]} by {
        forall x ensures x in Elems(xs) <==> x in Elems(rest) + {xs[0]} {
          if x in xs && x != xs[0] {
            var k :| 0 <= k < |xs| && xs[k] == x;
            assert rest[k - 1] == x;
          }
        }
      }
      if xs[0] in rest {
        var k :| 0 <= k < |rest| && rest[k] == xs[0];
        assert xs[0] == xs[k + 1];
        assert !Distinct(xs);
      } else {
        assert Distinct(xs) <==> Distinct(rest) by {
          if Distinct(rest) {
            forall i, j | 0 <= i < j < |xs| ensures xs[i] != xs[j] {
              if i == 0 {
                assert xs[j] == rest[j - 1];
              } else {
                assert xs[i] == rest[i - 1] && xs[j] == rest[j - 1];
              }
            }
          }
          if Distinct(xs) {
            forall i, j | 0 <= i < j < |rest| ensures rest[i] != rest[j] {
              assert rest[i] == xs[i + 1] && rest[j] == xs[j + 1];
            }
          }
        }
      }
    }
  }

  /** Every occurrence of `x` removed, the rest kept in order. */
  function Without<T(==, !new)>(xs: seq<T>, x: T): (r: seq<T>)
    ensures |r| <= |xs|
    ensures forall y :: y in r <==> y in xs && y != x
    ensures Distinct(xs) ==> Distinct(r)
    ensures x !in xs ==> r == xs
    ensures x in xs ==> |r| < |xs|
  {
    if xs == [] then []
    else
      var tail := Without(xs[1..], x);
      assert forall y :: y in xs <==> y == xs[0] || y in xs[1..];
      if xs[0] == x then tail
      else
        var r := [xs[0]] + tail;
        assert Distinct(xs) ==> Distinct(r) by {
          if Distinct(xs) {
            assert Distinct(xs[1..]);
            assert xs[0] !in xs[1..];
          }
        }
        r
  }

  /** Removing an element just appended to a sequence that did not hold it
      gives the sequence back. */
  lemma {:induction false} WithoutAppended<T(!new)>(xs: seq<T>, x: T)
    requires x !in xs
    ensures Without(xs + [x], x) == xs
  {
    if xs == [] {
      assert Without([x], x) == Without([x][1..], x);
    } else {
      assert (xs + [x])[1..] == xs[1..] + [x];
      WithoutAppended(xs[1..], x);
    }
  }

  /** The elements satisfying `p`, in their original order. */
  function Filter<T(!new)>(xs: seq<T>, p: T -> bool): (r: seq<T>)
    ensures |r| <= |xs|
    ensures forall x :: x in r <==> x in xs && p(x)
    ensures Distinct(xs) ==> Distinct(r)
  {
    if xs == [] then []
    else
      var tail := Filter(xs[1..], p);
      assert forall x :: x in xs <==> x == xs[0] || x in xs[1..];
      if !p(xs[0]) then tail
      else
        assert Distinct(xs) ==> Distinct([xs[0]] + tail) by {
          if Distinct(xs) {
            assert Distinct(xs[1..]);
            assert xs[0] !in xs[1..];
          }
        }
        [xs[0]] + tail
  }

  /** Filtering works piecewise: it keeps the relative order of what it
      keeps. */
  lemma {:induction false} FilterAppend<T(!new)>(xs: seq<T>, ys: seq<T>, p: T -> bool)
    ensures Filter(xs + ys, p) == Filter(xs, p) + Filter(ys, p)
  {
    if xs == [] {
      assert xs + ys == ys;
    } else {
      assert (xs + ys)[0] == xs[0];
      assert (xs + ys)[1..] == xs[1..] + ys;
      FilterAppend(xs[1..], ys, p);
    }
  }

  /** Filtering twice by the same test changes nothing more. */
  lemma {:induction false} FilterIdempotent<T(!new)>(xs: seq<T>, p: T -> bool)
    ensures Filter(Filter(xs, p), p) == Filter(xs, p)
  {
    if xs != [] {
      FilterIdempotent(xs[1..], p);
      if p(xs[0]) {
        assert ([xs[0]] + Filter(xs[1..], p))[1..] == Filter(xs[1..], p);
      }
    }
  }

  /** A subset is no larger than its superset, and as large only when equal. */
  lemma {:induction false} SubsetCard<T>(a: set<T>, b: set<T>)
    requires a <= b
    ensures |a| <= |b|
    ensures |a| == |b| ==> a == b
    decreases b
  {
    if b != {} {
      var x :| x in b;
      SubsetCard(a - {x}, b - {x});
      assert |b - {x}| == |b| - 1;
      if x in a {
        assert |a - {x}| == |a| - 1;
        assert a == (a - {x}) + {x} && b == (b - {x}) + {x};
      } else {
        assert a - {x} == a;
      }
    } else {
      assert a == {};
    }
  }

  /** `a` is `b` with some elements left out, the rest in the same order. */
  predicate Subsequence<T(==)>(a: seq<T>, b: seq<T>)
    decreases |b|
  {
    if a == [] then true
    else if b == [] then false
    else (a[0] == b[0] && Subsequence(a[1..], b[1..])) || Subsequence(a, b[1..])
  }

  /** What a filter keeps is a subsequence of its input. */
  lemma {:induction false} FilterIsSubsequence<T(!new)>(xs: seq<T>, p: T -> bool)
    ensures Subsequence(Filter(xs, p), xs)
  {
    if xs != [] {
      FilterIsSubsequence(xs[1..], p);
      var r := Filter(xs, p);
      if p(xs[0]) {
        assert r[0] == xs[0] && r[1..] == Filter(xs[1..], p);
      }
    }
  }

  /** The elements of `xs` without repeats, each where it first occurs
      (what `Array.from(new Set(xs))` yields). */
  function Dedup<T(==, !new)>(xs: seq<T>): (r: seq<T>)
    ensures Distinct(r)
    ensures forall y :: y in r <==> y in xs
    decreases |xs|
  {
    if xs == [] then []
    else
      var init := Dedup(xs[..|xs| - 1]);
      var last := xs[|xs| - 1];
      assert forall y :: y in xs <==> y in xs[..|xs| - 1] || y == last by {
        assert xs == xs[..|xs| - 1] + [last];
      }
      if last in init then init else init + [last]
  }
}
