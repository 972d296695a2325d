/** Model of detail/detail.hpp: sequence_impl, the loop behind sequence, map
    and zip, at both variants, and zip_iterator.

    sequence_impl(f, first, last) applies f to each position of the range; here
    the range is a sequence `xs` and f is applied to its elements. */
module SequenceEngine {
  import opened MaybeMonad
  import ListMonad

  // ---------------------------------------------------------------------
  // Maybe

  /** sequence_impl at Maybe. An empty range gives the default monad (absent,
      empty list). Otherwise the accumulator starts as a success holding the
      empty list and each step is
        retval = m >>= x => retval >>= list => {list + [x]}. */
  method SequenceMaybe<A, T>(xs: seq<A>, f: A -> Maybe<T>) returns (r: Maybe<seq<T>>)
    ensures xs == [] ==> r == Maybe([], false)
    ensures xs != [] ==> (r.nonempty <==> forall i :: 0 <= i < |xs| ==> f(xs[i]).nonempty)
    ensures r.nonempty ==> |r.value| == |xs| && forall i :: 0 <= i < |xs| ==> r.value[i] == f(xs[i]).value
    ensures !r.nonempty ==> r.value == []
  {
    if |xs| == 0 {
      return Default([]);
    }
    r := FromValue([]);
    var i := 0;
    while i < |xs|
      invariant 0 <= i <= |xs|
      invariant r.nonempty <==> forall k :: 0 <= k < i ==> f(xs[k]).nonempty
      invariant r.nonempty ==> |r.value| == i && forall k :: 0 <= k < i ==> r.value[k] == f(xs[k]).value
      invariant !r.nonempty ==> r.value == []
    {
      var m := f(xs[i]);
      var acc := r;
      r := BindAs(m, (x: T) => Bind(acc, (list: seq<T>) => FromValue(list + [x])), []);
      i := i + 1;
    }
  }

  // ---------------------------------------------------------------------
  // List

  /** One step of the loop at List: every accumulated list is extended by
      every alternative of m; the alternatives of m vary slowest. */
  function Extend<T>(acc: seq<seq<T>>, m: seq<T>): seq<seq<T>>
  {
    ListMonad.ConcatMap(m, (x: T) => ListMonad.ConcatMap(acc, (list: seq<T>) => [list + [x]]))
  }

  /** The accumulator after processing the inputs ms (non-empty range). */
  function Combos<T>(ms: seq<seq<T>>): seq<seq<T>>
  {
    if ms == [] then [[]] else Extend(Combos(ms[..|ms| - 1]), ms[|ms| - 1])
  }

  /** c picks one alternative from each input, in input order. */
  ghost predicate IsCombination<T>(c: seq<T>, ms: seq<seq<T>>)
  {
    |c| == |ms| && forall i :: 0 <= i < |ms| ==> c[i] in ms[i]
  }

  /** sequence_impl at List: an empty range gives the empty list; otherwise
      the accumulator starts as [[]] and is extended by each input in turn. */
  method SequenceList<A, T>(xs: seq<A>, f: A -> seq<T>) returns (r: seq<seq<T>>)
    ensures xs == [] ==> r == []
    ensures xs != [] ==> r == Combos(ListMonad.Map(xs, f))
  {
    if |xs| == 0 {
      return ListMonad.Empty();
    }
    r := [[]];
    var i := 0;
    while i < |xs|
      invariant 0 <= i <= |xs|
      invariant r == Combos(ListMonad.Map(xs[..i], f))
    {
      var m := f(xs[i]);
      var acc := r;
      ghost var applied;
      r, applied := ListMonad.Bind(m, (x: T) => ListMonad.ConcatMap(acc, (list: seq<T>) => [list + [x]]));
      ghost var done := ListMonad.Map(xs[..i + 1], f);
      assert done[..i] == ListMonad.Map(xs[..i], f);
      assert done[i] == m;
      i := i + 1;
    }
    assert xs[..i] == xs;
  }

  lemma ExtendLength<T>(acc: seq<seq<T>>, m: seq<T>)
    ensures |Extend(acc, m)| == |m| * |acc|
  {
    var inner := (x: T) => ListMonad.ConcatMap(acc, (list: seq<T>) => [list + [x]]);
    forall j | 0 <= j < |m|
      ensures |inner(m[j])| == |acc|
    {
      ListMonad.BindLengthUniform(acc, (list: seq<T>) => [list + [m[j]]], 1);
    }
    ListMonad.BindLengthUniform(m, inner, |acc|);
  }

  /** Order of one step: the combination at position j * |acc| + k is the
      k-th accumulated list extended by the j-th alternative of m. */
  lemma ExtendIndex<T>(acc: seq<seq<T>>, m: seq<T>, j: nat, k: nat)
    requires j < |m| && k < |acc|
    ensures j * |acc| + k < |Extend(acc, m)|
    ensures Extend(acc, m)[j * |acc| + k] == acc[k] + [m[j]]
  {
    var inner := (x: T) => ListMonad.ConcatMap(acc, (list: seq<T>) => [list + [x]]);
    forall n | 0 <= n < |m|
      ensures |inner(m[n])| == |acc|
    {
      ListMonad.BindLengthUniform(acc, (list: seq<T>) => [list + [m[n]]], 1);
    }
    ListMonad.BindIndex(m, inner, |acc|, j, k);
    ListMonad.BindIndex(acc, (list: seq<T>) => [list + [m[j]]], 1, k, 0);
  }

  lemma ExtendMember<T>(acc: seq<seq<T>>, m: seq<T>, c: seq<T>)
    ensures c in Extend(acc, m) <==> |c| > 0 && c[..|c| - 1] in acc && c[|c| - 1] in m
  {
    var inner := (x: T) => ListMonad.ConcatMap(acc, (list: seq<T>) => [list + [x]]);
    ListMonad.BindMember(m, inner, c);
    if c in Extend(acc, m) {
      var j :| 0 <= j < |m| && c in inner(m[j]);
      ListMonad.BindMember(acc, (list: seq<T>) => [list + [m[j]]], c);
      var n :| 0 <= n < |acc| && c in [acc[n] + [m[j]]];
      assert c == acc[n] + [m[j]];
      assert c[..|c| - 1] == acc[n];
    }
    if |c| > 0 && c[..|c| - 1] in acc && c[|c| - 1] in m {
      var j :| 0 <= j < |m| && m[j] == c[|c| - 1];
      var n :| 0 <= n < |acc| && acc[n] == c[..|c| - 1];
      assert c == acc[n] + [m[j]];
      ListMonad.BindMember(acc, (list: seq<T>) => [list + [m[j]]], c);
      assert c in inner(m[j]);
    }
  }

  /** The sequence of a list of lists has one entry per combination: its size
      is the product of the input sizes. */
  lemma {:induction false} CombosLength<T>(ms: seq<seq<T>>)
    ensures |Combos(ms)| == ListMonad.Product(ms)
  {
    if ms != [] {
      var init := ms[..|ms| - 1];
      var last := ms[|ms| - 1];
      var n := |Combos(init)|;
      CombosLength(init);
      assert Combos(ms) == Extend(Combos(init), last);
      ExtendLength(Combos(init), last);
      assert init + [last] == ms;
      ListMonad.ProductSnoc(init, last);
      assert |last| * n == n * |last|;
    }
  }

  /** Its entries are exactly the combinations: length n, entry i drawn from
      input i. */
  lemma {:induction false} CombosMember<T>(ms: seq<seq<T>>, c: seq<T>)
    ensures c in Combos(ms) <==> IsCombination(c, ms)
  {
    if ms == [] {
      assert c in Combos(ms) <==> c == [];
    } else {
      var init := ms[..|ms| - 1];
      var last := ms[|ms| - 1];
      ExtendMember(Combos(init), last, c);
      if |c| > 0 {
        var front := c[..|c| - 1];
        CombosMember(init, front);
        if IsCombination(c, ms) {
          assert IsCombination(front, init) by {
            forall i | 0 <= i < |init|
              ensures front[i] in init[i]
            {
              assert c[i] in ms[i];
            }
          }
        }
        if IsCombination(front, init) && c[|c| - 1] in last {
          forall i | 0 <= i < |ms|
            ensures c[i] in ms[i]
          {
            if i < |ms| - 1 {
              assert front[i] in init[i];
            }
          }
        }
      }
    }
  }

  /** Order: the most recently processed input varies slowest. */
  lemma CombosOrder<T>(ms: seq<seq<T>>, m: seq<T>, j: nat, k: nat)
    requires j < |m| && k < |Combos(ms)|
    ensures j * |Combos(ms)| + k < |Combos(ms + [m])|
    ensures Combos(ms + [m])[j * |Combos(ms)| + k] == Combos(ms)[k] + [m[j]]
  {
    assert (ms + [m])[..|ms + [m]| - 1] == ms;
    ExtendIndex(Combos(ms), m, j, k);
  }

  /** Scenario: the sequence of [[1, 2], [3, 4]] at List. */
  lemma CombosScenario()
    ensures Combos([[1, 2], [3, 4]]) == [[1, 3], [2, 3], [1, 4], [2, 4]]
  {
    var e: seq<seq<int>> := [[]];
    assert [[1, 2]][..0] == [];
    assert Combos([[1, 2]]) == Extend(e, [1, 2]);
    ExtendLength(e, [1, 2]);
    ExtendIndex(e, [1, 2], 0, 0);
    ExtendIndex(e, [1, 2], 1, 0);
    var c1 := Combos([[1, 2]]);
    assert |c1| == 2;
    assert c1[0] == [1] && c1[1] == [2];
    assert c1 == [[1], [2]];
    assert [[1, 2], [3, 4]][..1] == [[1, 2]];
    assert Combos([[1, 2], [3, 4]]) == Extend(c1, [3, 4]);
    ExtendLength(c1, [3, 4]);
    ExtendIndex(c1, [3, 4], 0, 0);
    ExtendIndex(c1, [3, 4], 0, 1);
    ExtendIndex(c1, [3, 4], 1, 0);
    ExtendIndex(c1, [3, 4], 1, 1);
    var c2 := Combos([[1, 2], [3, 4]]);
    assert |c2| == 4;
    assert c2[0] == [1, 3] && c2[1] == [2, 3] && c2[2] == [1, 4] && c2[3] == [2, 4];
  }

  // ---------------------------------------------------------------------
  // zip_iterator

  /** A pair of positions advanced together. Comparison looks at the first
      position only. */
  class ZipIterator {
    var first: nat
    var second: nat

    constructor (first: nat, second: nat)
      ensures this.first == first && this.second == second
    {
      this.first := first;
      this.second := second;
    }

    /** operator++: advances both positions. */
    method Advance()
      modifies this
      ensures first == old(first) + 1 && second == old(second) + 1
    {
      first := first + 1;
      second := second + 1;
    }

    /** operator==: compares the first positions only. */
    predicate Equals(other: ZipIterator)
      reads this, other
    {
      first == other.first
    }

    /** operator!=: compares the first positions only. */
    predicate NotEquals(other: ZipIterator)
      reads this, other
    {
      first != other.first
    }
  }

  /** The comparisons are complementary and ignore the second position: two
      iterators whose first positions agree compare equal whatever their
      second positions are. */
  lemma ZipIteratorComparisons(a: ZipIterator, b: ZipIterator)
    ensures a.NotEquals(b) <==> !a.Equals(b)
    ensures a.Equals(b) <==> b.Equals(a)
    ensures a.first == b.first ==> a.Equals(b)
    ensures a.first != b.first ==> a.NotEquals(b)
  {
  }
}
