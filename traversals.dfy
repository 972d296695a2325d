/** Model of the traversals of monad.hpp over Maybe: sequence, map,
    map_unzip, filter, zip and fold, plus sequence and map over List.
    Each takes a range; here the range is a sequence. */
module Traversals {
  import opened MaybeMonad
  import ListMonad
  import SequenceEngine

  // ---------------------------------------------------------------------
  // sequence and map: wrappers around sequence_impl

  /** sequence at Maybe: sequence_impl with f dereferencing the position. */
  method Sequence<T>(ms: seq<Maybe<T>>) returns (r: Maybe<seq<T>>)
    ensures ms == [] ==> r == Maybe([], false)
    ensures ms != [] ==> (r.nonempty <==> AllPresent(ms))
    ensures r.nonempty ==> r.value == Values(ms)
    ensures !r.nonempty ==> r.value == []
  {
    r := SequenceEngine.SequenceMaybe(ms, (m: Maybe<T>) => m);
  }

  /** sequence at List: every combination of one element per input. */
  method SequenceOfLists<T>(ms: seq<seq<T>>) returns (r: seq<seq<T>>)
    ensures ms == [] ==> r == []
    ensures ms != [] ==> r == SequenceEngine.Combos(ms)
    ensures ms != [] ==> |r| == ListMonad.Product(ms)
    ensures ms != [] ==> forall c :: c in r <==> SequenceEngine.IsCombination(c, ms)
  {
    r := SequenceEngine.SequenceList(ms, (m: seq<T>) => m);
    assert ListMonad.Map(ms, (m: seq<T>) => m) == ms;
    if ms != [] {
      SequenceEngine.CombosLength(ms);
      forall c
        ensures c in r <==> SequenceEngine.IsCombination(c, ms)
      {
        SequenceEngine.CombosMember(ms, c);
      }
    }
  }

  /** map (mapM) at Maybe: sequence_impl with f applied at each position.
      Present iff the input is non-empty and every f(x) is present. */
  method Map<A, B>(f: A -> Maybe<B>, xs: seq<A>) returns (r: Maybe<seq<B>>)
    ensures r.nonempty <==> xs != [] && forall i :: 0 <= i < |xs| ==> f(xs[i]).nonempty
    ensures r.nonempty ==> |r.value| == |xs| && forall i :: 0 <= i < |xs| ==> r.value[i] == f(xs[i]).value
    ensures !r.nonempty ==> r.value == []
  {
    r := SequenceEngine.SequenceMaybe(xs, f);
  }

  /** map at List: the combinations of the lists f(x). */
  method MapOfLists<A, B>(f: A -> seq<B>, xs: seq<A>) returns (r: seq<seq<B>>)
    ensures xs == [] ==> r == []
    ensures xs != [] ==> r == SequenceEngine.Combos(ListMonad.Map(xs, f))
    ensures xs != [] ==> |r| == ListMonad.Product(ListMonad.Map(xs, f))
  {
    r := SequenceEngine.SequenceList(xs, f);
    if xs != [] {
      SequenceEngine.CombosLength(ListMonad.Map(xs, f));
    }
  }

  // ---------------------------------------------------------------------
  // zip

  /** zip (zipWithM): the end position is built from the end of the first
      range and the start of the second, and the zip iterator compares
      first positions only, so exactly |r1| pairs are visited; the second
      range must be at least as long. The pairs are then sequenced. */
  method Zip<A, B, C>(f: (A, B) -> Maybe<C>, r1: seq<A>, r2: seq<B>) returns (r: Maybe<seq<C>>)
    requires |r1| <= |r2|
    ensures r1 == [] ==> r == Maybe([], false)
    ensures r1 != [] ==> (r.nonempty <==> forall i :: 0 <= i < |r1| ==> f(r1[i], r2[i]).nonempty)
    ensures r.nonempty ==> |r.value| == |r1| && forall i :: 0 <= i < |r1| ==> r.value[i] == f(r1[i], r2[i]).value
  {
    var it := new SequenceEngine.ZipIterator(0, 0);
    var last := new SequenceEngine.ZipIterator(|r1|, 0);
    var pairs: seq<(A, B)> := [];
    while it.NotEquals(last)
      invariant it.first <= |r1| && it.second == it.first
      invariant last.first == |r1|
      invariant |pairs| == it.first
      invariant forall k :: 0 <= k < it.first ==> pairs[k] == (r1[k], r2[k])
      decreases |r1| - it.first
    {
      pairs := pairs + [(r1[it.first], r2[it.second])];
      it.Advance();
    }
    r := SequenceEngine.SequenceMaybe(pairs, (p: (A, B)) => f(p.0, p.1));
  }

  // ---------------------------------------------------------------------
  // map_unzip

  /** map_unzip (mapAndUnzipM). The components of every f(x) are pushed
      whether or not f(x) is present; the state is that of the chain
      prev >>= _ => m, i.e. present iff every f(x) is present. */
  method MapUnzip<A, B, C>(f: A -> Maybe<(B, C)>, xs: seq<A>) returns (r: Maybe<(seq<B>, seq<C>)>)
    ensures xs == [] ==> r == Maybe(([], []), false)
    ensures xs != [] ==> (r.nonempty <==> forall i :: 0 <= i < |xs| ==> f(xs[i]).nonempty)
    ensures |r.value.0| == |xs| && |r.value.1| == |xs|
    ensures forall i :: 0 <= i < |xs| ==> r.value.0[i] == f(xs[i]).value.0 && r.value.1[i] == f(xs[i]).value.1
  {
    r := Default(([], []));
    if |xs| == 0 {
      return;
    }
    var prev := f(xs[0]);
    r := r.(value := (r.value.0 + [prev.value.0], r.value.1 + [prev.value.1]));
    var i := 1;
    while i < |xs|
      invariant 1 <= i <= |xs|
      invariant |r.value.0| == i && |r.value.1| == i
      invariant forall k :: 0 <= k < i ==> r.value.0[k] == f(xs[k]).value.0 && r.value.1[k] == f(xs[k]).value.1
      invariant prev.nonempty <==> forall k :: 0 <= k < i ==> f(xs[k]).nonempty
    {
      var m := f(xs[i]);
      r := r.(value := (r.value.0 + [m.value.0], r.value.1 + [m.value.1]));
      prev := Bind(prev, (_: (B, C)) => m);
      i := i + 1;
    }
    r := r.(nonempty := prev.nonempty);
  }

  // ---------------------------------------------------------------------
  // filter

  /** The reference filter: the elements satisfying p, in order. */
  function Select<A>(xs: seq<A>, p: A -> bool): seq<A>
  {
    if xs == [] then [] else (if p(xs[0]) then [xs[0]] else []) + Select(xs[1..], p)
  }

  function Min(a: int, b: int): int
  {
    if a <= b then a else b
  }

  /** The elements filter has collected once n predicate results have been
      inspected: the selected ones before the first absent result. */
  ghost function Collected<A>(f: A -> Maybe<bool>, xs: seq<A>, n: nat): seq<A>
    requires n <= |xs|
  {
    Select(xs[..Min(n, FirstAbsent(ListMonad.Map(xs, f)))], (x: A) => f(x).value)
  }

  /** filter (filterM). Each element's predicate result is inspected by the
      closure of the next bind, which pushes the element when the result is
      true; the closure runs only while the chain is present. The result is
      present iff every predicate result is present; its list holds the
      selected elements before the first absent predicate result. */
  method Filter<A>(f: A -> Maybe<bool>, xs: seq<A>) returns (r: Maybe<seq<A>>)
    ensures xs == [] ==> r == Maybe([], false)
    ensures xs != [] ==> (r.nonempty <==> forall i :: 0 <= i < |xs| ==> f(xs[i]).nonempty)
    ensures r.value == Select(xs[..FirstAbsent(ListMonad.Map(xs, f))], (x: A) => f(x).value)
  {
    r := Default([]);
    if |xs| == 0 {
      return;
    }
    ghost var fa := FirstAbsent(ListMonad.Map(xs, f));
    var prevValue := xs[0];
    var prev := f(prevValue);
    FilterChain(f, xs, 0);
    var i := 1;
    while i < |xs|
      invariant 1 <= i <= |xs|
      invariant prevValue == xs[i - 1]
      invariant prev.nonempty <==> i <= fa
      invariant prev.nonempty ==> prev == f(xs[i - 1])
      invariant r.value == Collected(f, xs, i - 1)
    {
      var value := xs[i];
      var m := f(value);
      CollectedStep(f, xs, i);
      FilterChain(f, xs, i);
      if prev.nonempty && prev.value {
        r := r.(value := r.value + [prevValue]);
      }
      prev := Bind(prev, (b: bool) => m);
      prevValue := value;
      i := i + 1;
    }
    CollectedStep(f, xs, i);
    if prev.nonempty && prev.value {
      r := r.(value := r.value + [prevValue]);
    }
    FilterChain(f, xs, |xs|);
    r := r.(nonempty := prev.nonempty);
  }

  /** What the chain of binds sees at position i: the results before the
      first absent one are present, and that one is absent. */
  lemma FilterChain<A>(f: A -> Maybe<bool>, xs: seq<A>, i: nat)
    requires i <= |xs|
    ensures i < |xs| && i < FirstAbsent(ListMonad.Map(xs, f)) ==> f(xs[i]).nonempty
    ensures i < |xs| && i == FirstAbsent(ListMonad.Map(xs, f)) ==> !f(xs[i]).nonempty
    ensures i == |xs| ==> (FirstAbsent(ListMonad.Map(xs, f)) == |xs| <==> forall k :: 0 <= k < |xs| ==> f(xs[k]).nonempty)
  {
    var ms := ListMonad.Map(xs, f);
    if i < |xs| {
      assert ms[i] == f(xs[i]);
    }
    if i == |xs| && forall k :: 0 <= k < |xs| ==> f(xs[k]).nonempty {
      assert AllPresent(ms) by {
        forall k | 0 <= k < |ms|
          ensures ms[k].nonempty
        {
          assert ms[k] == f(xs[k]);
        }
      }
    }
  }

  /** Inspecting result i - 1 pushes xs[i - 1] exactly when the chain is
      still present there and the result is true. */
  lemma CollectedStep<A>(f: A -> Maybe<bool>, xs: seq<A>, i: nat)
    requires 1 <= i <= |xs|
    ensures Collected(f, xs, i) == Collected(f, xs, i - 1)
      + (if i <= FirstAbsent(ListMonad.Map(xs, f)) && f(xs[i - 1]).value then [xs[i - 1]] else [])
    ensures i == |xs| ==> Collected(f, xs, i) == Select(xs[..FirstAbsent(ListMonad.Map(xs, f))], (x: A) => f(x).value)
  {
    var fa := FirstAbsent(ListMonad.Map(xs, f));
    if i <= fa {
      SelectPush(xs, (x: A) => f(x).value, i);
    }
  }

  /** One more element of the prefix is inspected. */
  lemma SelectPush<A>(xs: seq<A>, p: A -> bool, i: nat)
    requires 1 <= i <= |xs|
    ensures Select(xs[..i], p) == Select(xs[..i - 1], p) + (if p(xs[i - 1]) then [xs[i - 1]] else [])
  {
    assert xs[..i] == xs[..i - 1] + [xs[i - 1]];
    SelectSnoc(xs[..i - 1], xs[i - 1], p);
  }

  lemma {:induction false} SelectSnoc<A>(xs: seq<A>, x: A, p: A -> bool)
    ensures Select(xs + [x], p) == Select(xs, p) + (if p(x) then [x] else [])
  {
    if xs == [] {
      assert [x][1..] == [];
    } else {
      assert (xs + [x])[1..] == xs[1..] + [x];
      SelectSnoc(xs[1..], x, p);
    }
  }

  /** The reference filter keeps exactly the elements satisfying p. */
  lemma {:induction false} SelectMember<A>(xs: seq<A>, p: A -> bool, y: A)
    ensures y in Select(xs, p) <==> y in xs && p(y)
  {
    if xs != [] {
      SelectMember(xs[1..], p, y);
      assert xs == [xs[0]] + xs[1..];
    }
  }

  /** A false predicate drops an element and a true one keeps it: all true
      keeps the list, all false empties it. */
  lemma {:induction false} SelectBounds<A>(xs: seq<A>, p: A -> bool)
    ensures |Select(xs, p)| <= |xs|
    ensures (forall i :: 0 <= i < |xs| ==> p(xs[i])) ==> Select(xs, p) == xs
    ensures (forall i :: 0 <= i < |xs| ==> !p(xs[i])) ==> Select(xs, p) == []
  {
    if xs != [] {
      SelectBounds(xs[1..], p);
      assert forall i :: 0 <= i < |xs[1..]| ==> xs[1..][i] == xs[i + 1];
    }
  }

  /** When every predicate result is present, filter's list is the reference
      filter of the whole input. */
  lemma FilterAllPresent<A>(f: A -> Maybe<bool>, xs: seq<A>)
    requires forall i :: 0 <= i < |xs| ==> f(xs[i]).nonempty
    ensures Select(xs[..FirstAbsent(ListMonad.Map(xs, f))], (x: A) => f(x).value)
         == Select(xs, (x: A) => f(x).value)
  {
    var ms := ListMonad.Map(xs, f);
    assert AllPresent(ms) by {
      forall i | 0 <= i < |ms|
        ensures ms[i].nonempty
      {
        assert ms[i] == f(xs[i]);
      }
    }
    assert xs[..|xs|] == xs;
  }

  /** C++ `a % b` for b > 0: the remainder truncates toward zero, so it takes
      the sign of a (Dafny's `%` is Euclidean and never negative). */
  function TruncRem(a: int, b: int): (r: int)
    requires b > 0
    ensures a >= 0 ==> 0 <= r < b
    ensures a < 0 ==> -b < r <= 0
  {
    if a >= 0 then a % b else -((-a) % b)
  }

  /** filter_odd of the scenarios, `x % 2 == 1` in C++: always present, and
      true only for positive odd x (for negative odd x the remainder is -1). */
  function FilterOdd(x: int): Maybe<bool>
  {
    FromValue(TruncRem(x, 2) == 1)
  }

  /** filter_odd flags a positive odd number, but not a negative one nor an
      even one. */
  lemma FilterOddSigns(x: int)
    ensures FilterOdd(x).nonempty
    ensures FilterOdd(x).value <==> x > 0 && x % 2 == 1
    ensures !FilterOdd(-1).value && FilterOdd(1).value
  {
  }

  /** filter_flag_zero of the scenarios: absent at 0, true otherwise. */
  function FilterFlagZero(x: int): Maybe<bool>
  {
    if x != 0 then FromValue(true) else FromNothing(false)
  }

  /** Scenario: filter_odd on [1, 2, 3] keeps [1, 3]. */
  lemma FilterOddScenario()
    ensures Select([1, 2, 3], (x: int) => FilterOdd(x).value) == [1, 3]
  {
    var odd := (x: int) => FilterOdd(x).value;
    assert [1, 2, 3][1..] == [2, 3] && [2, 3][1..] == [3] && [3][1..] == [];
    assert Select([3], odd) == [3];
    assert Select([2, 3], odd) == [3];
  }

  /** Scenario: filter_flag_zero on [2, 0, 4] stops at the 0. */
  lemma FilterFlagZeroStops()
    ensures FirstAbsent(ListMonad.Map([2, 0, 4], FilterFlagZero)) == 1
  {
    var ms := ListMonad.Map([2, 0, 4], FilterFlagZero);
    assert ms[0] == FilterFlagZero(2) && ms[1] == FilterFlagZero(0);
  }

  /** Scenario: filter_flag_zero on [2, 4, 0] stops at the 0 with [2, 4]
      collected. */
  lemma FilterFlagZeroCollects()
    ensures FirstAbsent(ListMonad.Map([2, 4, 0], FilterFlagZero)) == 2
    ensures Select([2, 4, 0][..2], (x: int) => FilterFlagZero(x).value) == [2, 4]
  {
    var ns := ListMonad.Map([2, 4, 0], FilterFlagZero);
    assert ns[0] == FilterFlagZero(2) && ns[1] == FilterFlagZero(4) && ns[2] == FilterFlagZero(0);
    var flag := (x: int) => FilterFlagZero(x).value;
    assert [2, 4, 0][..2] == [2, 4] && [2, 4][1..] == [4] && [4][1..] == [];
    assert Select([4], flag) == [4];
  }

  // ---------------------------------------------------------------------
  // fold

  /** The left monadic fold (foldM): present a is threaded through f. */
  function FoldM<Acc, B>(f: (Acc, B) -> Maybe<Acc>, a: Acc, xs: seq<B>): Maybe<Acc>
    decreases |xs|
  {
    if xs == [] then FromValue(a) else Bind(f(a, xs[0]), (a2: Acc) => FoldM(f, a2, xs[1..]))
  }

  /** The number of calls of f the fold makes: it stops after the first
      absent result. */
  function Steps<Acc, B>(f: (Acc, B) -> Maybe<Acc>, a: Acc, xs: seq<B>): nat
    decreases |xs|
  {
    if xs == [] then 0
    else 1 + (if f(a, xs[0]).nonempty then Steps(f, f(a, xs[0]).value, xs[1..]) else 0)
  }

  /** What remains of the fold from an accumulator that may be absent. */
  function FoldFrom<Acc, B>(f: (Acc, B) -> Maybe<Acc>, m: Maybe<Acc>, rest: seq<B>): Maybe<Acc>
  {
    if m.nonempty then FoldM(f, m.value, rest) else m
  }

  function StepsFrom<Acc, B>(f: (Acc, B) -> Maybe<Acc>, m: Maybe<Acc>, rest: seq<B>): nat
  {
    if m.nonempty then Steps(f, m.value, rest) else 0
  }

  /** fold. An empty range gives the default monad, not the initial value;
      otherwise retval = f(init, x0) and each further element is bound in:
      retval = retval >>= x => f(x, y). `calls` counts the calls of f. */
  method Fold<Acc, B>(f: (Acc, B) -> Maybe<Acc>, init: Acc, xs: seq<B>, blank: Acc)
    returns (r: Maybe<Acc>, ghost calls: nat)
    ensures xs == [] ==> r == Default(blank)
    ensures xs != [] ==> r == FoldM(f, init, xs)
    ensures calls == Steps(f, init, xs)
  {
    if |xs| == 0 {
      return Default(blank), 0;
    }
    r := f(init, xs[0]);
    calls := 1;
    var i := 1;
    while i < |xs|
      invariant 1 <= i <= |xs|
      invariant FoldFrom(f, r, xs[i..]) == FoldM(f, init, xs)
      invariant calls + StepsFrom(f, r, xs[i..]) == Steps(f, init, xs)
    {
      var y := xs[i];
      assert xs[i..][0] == y && xs[i..][1..] == xs[i + 1..];
      if r.nonempty {
        calls := calls + 1;
      }
      r := Bind(r, (x: Acc) => f(x, y));
      i := i + 1;
    }
  }

  /** Splitting the input: folding xs + ys is folding ys from the result of
      folding xs. */
  lemma {:induction false} FoldAppend<Acc, B>(f: (Acc, B) -> Maybe<Acc>, a: Acc, xs: seq<B>, ys: seq<B>)
    ensures FoldM(f, a, xs + ys) == FoldFrom(f, FoldM(f, a, xs), ys)
    decreases |xs|
  {
    if xs == [] {
      assert xs + ys == ys;
    } else {
      assert (xs + ys)[0] == xs[0] && (xs + ys)[1..] == xs[1..] + ys;
      var m := f(a, xs[0]);
      if m.nonempty {
        FoldAppend(f, m.value, xs[1..], ys);
      }
    }
  }

  /** Short circuit: the fold is absent iff some step is absent, f is called
      at most once per element, and all |xs| times when the fold is present. */
  lemma {:induction false} FoldCalls<Acc, B>(f: (Acc, B) -> Maybe<Acc>, a: Acc, xs: seq<B>)
    ensures Steps(f, a, xs) <= |xs|
    ensures FoldM(f, a, xs).nonempty ==> Steps(f, a, xs) == |xs|
    ensures xs != [] && !f(a, xs[0]).nonempty ==> Steps(f, a, xs) == 1 && FoldM(f, a, xs) == f(a, xs[0])
    decreases |xs|
  {
    if xs != [] && f(a, xs[0]).nonempty {
      FoldCalls(f, f(a, xs[0]).value, xs[1..]);
    }
  }

  /** fold_product of the scenarios. */
  function FoldProduct(a: int, b: int): Maybe<int>
  {
    FromValue(a * b)
  }

  /** fold_quotient of the scenarios, with integer division in place of
      floating-point division: absent when dividing by zero. */
  function FoldQuotient(a: int, b: int): Maybe<int>
  {
    if b != 0 then FromValue(a / b) else FromNothing(0)
  }

  /** Scenarios: the product of [1, 2, 3] from 1 is 6; the quotient
      1000 / 1 / 2 / 3 is 166; the quotient over [0, 2, 4] is absent after
      one call. */
  lemma FoldScenarios()
    ensures FoldM(FoldProduct, 1, [1, 2, 3]) == FromValue(6)
    ensures FoldM(FoldQuotient, 1000, [1, 2, 3]) == FromValue(166)
    ensures !FoldM(FoldQuotient, 1000, [0, 2, 4]).nonempty
    ensures Steps(FoldQuotient, 1000, [0, 2, 4]) == 1
  {
    assert [1, 2, 3][1..] == [2, 3] && [2, 3][1..] == [3] && [3][1..] == [];
    assert FoldM(FoldQuotient, 166, []) == FromValue(166);
    assert FoldM(FoldQuotient, 500, [3]) == FromValue(166);
    assert FoldM(FoldQuotient, 1000, [2, 3]) == FromValue(166);
    assert FoldM(FoldProduct, 6, []) == FromValue(6);
    assert FoldM(FoldProduct, 2, [3]) == FromValue(6);
    assert FoldM(FoldProduct, 1, [2, 3]) == FromValue(6);
    assert !FoldQuotient(1000, 0).nonempty;
    FoldCalls(FoldQuotient, 1000, [0, 2, 4]);
  }
}
