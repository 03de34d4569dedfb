/** Sequence helpers shared by the quiz session and the question routes:
    duplicate-freedom, the element set of a sequence, and an
    order-preserving filter with the same meaning as `Array.prototype.filter`. */
module Seqs {

  /** No element occurs twice. */
  predicate NoDup<T(==)>(s: seq<T>) {
    forall i, j :: 0 <= i < j < |s| ==> s[i] != s[j]
  }

  /** The elements of `s` as a set. */
  function ToSet<T>(s: seq<T>): set<T> {
    set x | x in s
  }

  /** A duplicate-free sequence has as many distinct elements as positions. */
  lemma {:induction false} NoDupCard<T>(s: seq<T>)
    requires NoDup(s)
    ensures |ToSet(s)| == |s|
  {
    if |s| > 0 {
      var init := s[..|s| - 1];
      var last := s[|s| - 1];
      assert NoDup(init);
      NoDupCard(init);
      assert last !in init by {
        forall i | 0 <= i < |init| ensures init[i] != last {
          assert s[i] == init[i];
        }
      }
      assert s == init + [last];
      assert ToSet(s) == ToSet(init) + {last};
      assert last !in ToSet(init);
    }
  }

  /** Two duplicate-free sequences of equal length, one drawing all its
      elements from the other, hold the same elements. */
  lemma SameSizeSubsetSame<T>(a: seq<T>, b: seq<T>)
    requires NoDup(a) && NoDup(b) && |a| == |b|
    requires ToSet(a) <= ToSet(b)
    ensures ToSet(a) == ToSet(b)
  {
    NoDupCard(a);
    NoDupCard(b);
    var d := ToSet(b) - ToSet(a);
    assert ToSet(b) == ToSet(a) + d;
    assert |ToSet(b)| == |ToSet(a)| + |d|;
    assert |d| == 0;
  }

  /** The elements of `s` satisfying `p`, in their order in `s`. */
  function Filter<T(!new)>(s: seq<T>, p: T -> bool): (r: seq<T>)
    ensures forall x :: x in r <==> x in s && p(x)
    ensures |r| <= |s|
    decreases |s|
  {
    if |s| == 0 then []
    else Filter(s[..|s| - 1], p) + (if p(s[|s| - 1]) then [s[|s| - 1]] else [])
  }

  /** Filtering distributes over concatenation: the filter keeps the
      relative order of the elements it retains. */
  lemma {:induction false} FilterConcat<T(!new)>(a: seq<T>, b: seq<T>, p: T -> bool)
    ensures Filter(a + b, p) == Filter(a, p) + Filter(b, p)
    decreases |b|
  {
    if |b| > 0 {
      var b' := b[..|b| - 1];
      assert (a + b)[..|a + b| - 1] == a + b';
      FilterConcat(a, b', p);
    } else {
      assert a + b == a;
    }
  }

  /** Filtering with a weaker predicate first and a stronger one second is
      the same as filtering with the stronger one alone. */
  lemma {:induction false} FilterFilter<T(!new)>(s: seq<T>, p: T -> bool, q: T -> bool)
    requires forall x :: p(x) ==> q(x)
    ensures Filter(Filter(s, q), p) == Filter(s, p)
    decreases |s|
  {
    if |s| > 0 {
      var init := s[..|s| - 1];
      var last := s[|s| - 1];
      FilterFilter(init, p, q);
      var tail := if q(last) then [last] else [];
      FilterConcat(Filter(init, q), tail, p);
      if q(last) {
        assert tail[..0] == [];
      }
    }
  }

  /** Filtering keeps a sequence whole exactly when every element passes. */
  lemma {:induction false} FilterKeepsAll<T(!new)>(s: seq<T>, p: T -> bool)
    requires forall i :: 0 <= i < |s| ==> p(s[i])
    ensures Filter(s, p) == s
    decreases |s|
  {
    if |s| > 0 {
      FilterKeepsAll(s[..|s| - 1], p);
      assert s == s[..|s| - 1] + [s[|s| - 1]];
    }
  }
}
