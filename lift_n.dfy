/** Model of detail/lift_n_impl.hpp: lift_n_impl<N, ...>::call, which the
    preprocessor generates for arities 1 to MONAD_LIFT_N_MAX_ARITY as nested
    binds
      m0 >>= _0 => m1 >>= _1 => ... => ReturnMonad{f(_0, _1, ...)}.
    The N arguments are a sequence and f takes the sequence of bound values;
    one recursive definition stands for the generated copies. */
module Lifting {
  import opened MaybeMonad
  import ListMonad
  import SequenceEngine
  import Combinators

  /** MONAD_LIFT_N_MAX_ARITY: the largest generated arity. */
  const MaxArity := 10

  // ---------------------------------------------------------------------
  // Maybe

  /** The nesting from argument |args| onwards; `args` holds the values
      bound by the enclosing closures. */
  function MaybeLiftFrom<T>(f: seq<T> -> T, ms: seq<Maybe<T>>, args: seq<T>): Maybe<T>
    decreases |ms|
  {
    if ms == [] then FromValue(f(args))
    else Bind(ms[0], (x: T) => MaybeLiftFrom(f, ms[1..], args + [x]))
  }

  /** lift_n at Maybe, for the generated arities 1 to MaxArity. */
  function MaybeLiftN<T>(f: seq<T> -> T, ms: seq<Maybe<T>>): Maybe<T>
    requires 1 <= |ms| <= MaxArity
  {
    MaybeLiftFrom(f, ms, [])
  }

  /** The nesting is present iff every argument is, with f applied to the
      bound values; otherwise it is the first absent argument, whatever f
      and the later arguments are. */
  lemma {:induction false} MaybeLiftFromCases<T>(f: seq<T> -> T, g: seq<T> -> T, ms: seq<Maybe<T>>, args: seq<T>)
    ensures MaybeLiftFrom(f, ms, args).nonempty <==> AllPresent(ms)
    ensures AllPresent(ms) ==> MaybeLiftFrom(f, ms, args) == FromValue(f(args + Values(ms)))
    ensures !AllPresent(ms) ==> MaybeLiftFrom(f, ms, args) == ms[FirstAbsent(ms)]
    ensures !AllPresent(ms) ==> MaybeLiftFrom(f, ms, args) == MaybeLiftFrom(g, ms, args)
    decreases |ms|
  {
    if ms == [] {
      assert args + Values(ms) == args;
    } else if ms[0].nonempty {
      var x := ms[0].value;
      MaybeLiftFromCases(f, g, ms[1..], args + [x]);
      assert AllPresent(ms) <==> AllPresent(ms[1..]) by {
        if AllPresent(ms[1..]) {
          forall i | 0 <= i < |ms|
            ensures ms[i].nonempty
          {
            if i > 0 {
              assert ms[1..][i - 1] == ms[i];
            }
          }
        }
      }
      if AllPresent(ms) {
        assert Values(ms) == [x] + Values(ms[1..]);
        assert args + Values(ms) == (args + [x]) + Values(ms[1..]);
      } else {
        var k := FirstAbsent(ms[1..]);
        FirstAbsentShift(ms);
        assert FirstAbsent(ms) == k + 1;
      }
    } else {
      assert FirstAbsent(ms) == 0;
    }
  }

  /** FirstAbsent skips a present head. */
  lemma FirstAbsentShift<T>(ms: seq<Maybe<T>>)
    requires ms != [] && ms[0].nonempty
    ensures FirstAbsent(ms) == FirstAbsent(ms[1..]) + 1
  {
    var k := FirstAbsent(ms[1..]);
    forall i | 0 <= i < k + 1
      ensures ms[i].nonempty
    {
      if i > 0 {
        assert ms[1..][i - 1] == ms[i];
      }
    }
    if k < |ms[1..]| {
      assert !ms[k + 1].nonempty by {
        assert ms[1..][k] == ms[k + 1];
      }
    }
    FirstAbsentUnique(ms, k + 1);
  }

  /** FirstAbsent is the only position with all earlier values present and
      itself absent or the end. */
  lemma FirstAbsentUnique<T>(ms: seq<Maybe<T>>, k: nat)
    requires k <= |ms|
    requires forall i :: 0 <= i < k ==> ms[i].nonempty
    requires k < |ms| ==> !ms[k].nonempty
    ensures FirstAbsent(ms) == k
  {
  }

  /** lift_n at Maybe is present iff every argument is present, with value
      f(x0, ..., x_{N-1}); when some argument is absent it is the first absent
      argument, so neither f nor the closures for later arguments matter. */
  lemma MaybeLiftNCases<T>(f: seq<T> -> T, g: seq<T> -> T, ms: seq<Maybe<T>>)
    requires 1 <= |ms| <= MaxArity
    ensures MaybeLiftN(f, ms).nonempty <==> AllPresent(ms)
    ensures AllPresent(ms) ==> MaybeLiftN(f, ms) == FromValue(f(Values(ms)))
    ensures !AllPresent(ms) ==> MaybeLiftN(f, ms) == ms[FirstAbsent(ms)]
    ensures !AllPresent(ms) ==> MaybeLiftN(f, ms) == MaybeLiftN(g, ms)
  {
    MaybeLiftFromCases(f, g, ms, []);
    assert [] + Values(ms) == Values(ms);
  }

  /** Arity 1 coincides with lift. */
  lemma MaybeLiftNArityOne<T>(f: seq<T> -> T, m: Maybe<T>)
    ensures MaybeLiftN(f, [m]) == Combinators.MaybeLift((x: T) => f([x]), m)
  {
    if m.nonempty {
      var ms := [m];
      assert ms[0] == m && ms[1..] == [];
      assert [] + [m.value] == [m.value];
      calc {
        MaybeLiftN(f, ms);
        MaybeLiftFrom(f, ms, []);
        MaybeLiftFrom(f, ms[1..], [] + [m.value]);
        FromValue(f([m.value]));
        Combinators.MaybeLift((x: T) => f([x]), m);
      }
    }
  }

  /** add3 and std::plus of the scenarios: the sum of the bound values. */
  function Sum(xs: seq<int>): int
  {
    if xs == [] then 0 else xs[0] + Sum(xs[1..])
  }

  /** Scenarios: lift_n(plus, 3, 3) is 6, lift_n(add3, 3, 3, 3) is 9, and an
      absent argument in any position makes the result absent. */
  lemma MaybeLiftNScenarios(blank: int)
    ensures MaybeLiftN(Sum, [FromValue(3), FromValue(3)]) == FromValue(6)
    ensures MaybeLiftN(Sum, [FromValue(3), FromValue(3), FromValue(3)]) == FromValue(9)
    ensures !MaybeLiftN(Sum, [FromNothing(blank), FromValue(3)]).nonempty
    ensures !MaybeLiftN(Sum, [FromValue(3), FromValue(3), FromNothing(blank)]).nonempty
  {
    var two := [FromValue(3), FromValue(3)];
    var three := [FromValue(3), FromValue(3), FromValue(3)];
    MaybeLiftNCases(Sum, Sum, two);
    MaybeLiftNCases(Sum, Sum, three);
    assert AllPresent(two) && AllPresent(three);
    assert Values(two) == [3, 3] && Values(three) == [3, 3, 3];
    assert [3, 3][1..] == [3] && [3][1..] == [] && [3, 3, 3][1..] == [3, 3];
    var bad1 := [FromNothing(blank), FromValue(3)];
    var bad3 := [FromValue(3), FromValue(3), FromNothing(blank)];
    MaybeLiftNCases(Sum, Sum, bad1);
    MaybeLiftNCases(Sum, Sum, bad3);
    assert !bad1[0].nonempty && !bad3[2].nonempty;
  }

  // ---------------------------------------------------------------------
  // List

  /** The nesting at List: each bind runs the inner closures once per
      alternative. */
  function ListLiftFrom<T, R>(f: seq<T> -> R, ms: seq<seq<T>>, args: seq<T>): seq<R>
    decreases |ms|
  {
    if ms == [] then ListMonad.Singleton(f(args))
    else ListMonad.ConcatMap(ms[0], (x: T) => ListLiftFrom(f, ms[1..], args + [x]))
  }

  /** lift_n at List, for the generated arities 1 to MaxArity. */
  function ListLiftN<T, R>(f: seq<T> -> R, ms: seq<seq<T>>): seq<R>
    requires 1 <= |ms| <= MaxArity
  {
    ListLiftFrom(f, ms, [])
  }

  /** The combinations in lexicographic order: the first input varies slowest. */
  function Lex<T>(ms: seq<seq<T>>): seq<seq<T>>
    decreases |ms|
  {
    if ms == [] then [[]]
    else ListMonad.ConcatMap(ms[0], (x: T) => ListMonad.Map(Lex(ms[1..]), (c: seq<T>) => [x] + c))
  }

  /** There is one combination per choice: the product of the input sizes. */
  lemma {:induction false} LexLength<T>(ms: seq<seq<T>>)
    ensures |Lex(ms)| == ListMonad.Product(ms)
    decreases |ms|
  {
    if ms != [] {
      var rest := Lex(ms[1..]);
      LexLength(ms[1..]);
      ListMonad.BindLengthUniform(ms[0], (x: T) => ListMonad.Map(rest, (c: seq<T>) => [x] + c), |rest|);
    }
  }

  /** Every entry is a combination. */
  lemma {:induction false} LexSound<T>(ms: seq<seq<T>>, c: seq<T>)
    requires c in Lex(ms)
    ensures SequenceEngine.IsCombination(c, ms)
    decreases |ms|
  {
    if ms == [] {
      assert c == [];
    } else {
      var rest := Lex(ms[1..]);
      var pieces := (x: T) => ListMonad.Map(rest, (d: seq<T>) => [x] + d);
      ListMonad.BindMember(ms[0], pieces, c);
      var j :| 0 <= j < |ms[0]| && c in pieces(ms[0][j]);
      var n :| 0 <= n < |rest| && c == pieces(ms[0][j])[n];
      assert c == [ms[0][j]] + rest[n];
      LexSound(ms[1..], rest[n]);
      forall i | 0 <= i < |ms|
        ensures c[i] in ms[i]
      {
        if i > 0 {
          assert c[i] == rest[n][i - 1] && ms[i] == ms[1..][i - 1];
        }
      }
    }
  }

  /** Every combination is an entry. */
  lemma {:induction false} LexComplete<T>(ms: seq<seq<T>>, c: seq<T>)
    requires SequenceEngine.IsCombination(c, ms)
    ensures c in Lex(ms)
    decreases |ms|
  {
    if ms == [] {
      assert c == [];
    } else {
      var rest := Lex(ms[1..]);
      var pieces := (x: T) => ListMonad.Map(rest, (d: seq<T>) => [x] + d);
      assert SequenceEngine.IsCombination(c[1..], ms[1..]) by {
        forall i | 0 <= i < |ms[1..]|
          ensures c[1..][i] in ms[1..][i]
        {
          assert c[i + 1] in ms[i + 1];
        }
      }
      LexComplete(ms[1..], c[1..]);
      var n :| 0 <= n < |rest| && rest[n] == c[1..];
      var j :| 0 <= j < |ms[0]| && ms[0][j] == c[0];
      assert c == [c[0]] + c[1..];
      assert pieces(ms[0][j])[n] == c;
      ListMonad.BindMember(ms[0], pieces, c);
    }
  }

  /** Its entries are exactly the combinations. */
  lemma LexMember<T>(ms: seq<seq<T>>, c: seq<T>)
    ensures c in Lex(ms) <==> SequenceEngine.IsCombination(c, ms)
  {
    if c in Lex(ms) {
      LexSound(ms, c);
    }
    if SequenceEngine.IsCombination(c, ms) {
      LexComplete(ms, c);
    }
  }

  /** Order: with the first input varying slowest, entry j * |Lex(rest)| + k
      is the j-th alternative of the first input in front of the k-th
      combination of the rest. */
  lemma LexOrder<T>(m: seq<T>, rest: seq<seq<T>>, j: nat, k: nat)
    requires j < |m| && k < |Lex(rest)|
    ensures j * |Lex(rest)| + k < |Lex([m] + rest)|
    ensures Lex([m] + rest)[j * |Lex(rest)| + k] == [m[j]] + Lex(rest)[k]
  {
    var ms := [m] + rest;
    assert ms[0] == m && ms[1..] == rest;
    var lr := Lex(rest);
    ListMonad.BindIndex(m, (x: T) => ListMonad.Map(lr, (c: seq<T>) => [x] + c), |lr|, j, k);
  }

  /** The nesting at List is f mapped over the combinations in lexicographic
      order, each prefixed by the values already bound. */
  lemma {:induction false} ListLiftFromIsMap<T, R>(f: seq<T> -> R, ms: seq<seq<T>>, args: seq<T>)
    ensures ListLiftFrom(f, ms, args) == ListMonad.Map(Lex(ms), (c: seq<T>) => f(args + c))
    decreases |ms|
  {
    if ms == [] {
      assert args + [] == args;
    } else {
      var rest := Lex(ms[1..]);
      var lhs := (x: T) => ListLiftFrom(f, ms[1..], args + [x]);
      var pieces := (x: T) => ListMonad.Map(rest, (d: seq<T>) => [x] + d);
      var g := (c: seq<T>) => f(args + c);
      forall i | 0 <= i < |ms[0]|
        ensures lhs(ms[0][i]) == ListMonad.Map(pieces(ms[0][i]), g)
      {
        var x := ms[0][i];
        ListLiftFromIsMap(f, ms[1..], args + [x]);
        var a := ListMonad.Map(rest, (d: seq<T>) => f((args + [x]) + d));
        var b := ListMonad.Map(ListMonad.Map(rest, (d: seq<T>) => [x] + d), g);
        assert |a| == |b|;
        forall n | 0 <= n < |a|
          ensures a[n] == b[n]
        {
          assert (args + [x]) + rest[n] == args + ([x] + rest[n]);
        }
      }
      ListMonad.BindCongruence(ms[0], lhs, (x: T) => ListMonad.Map(pieces(x), g));
      ListMonad.FmapOfBind(ms[0], pieces, g);
    }
  }

  /** lift_n at List has one result per combination of the arguments, m0
      varying slowest and the last argument fastest. */
  lemma ListLiftNShape<T, R>(f: seq<T> -> R, ms: seq<seq<T>>)
    requires 1 <= |ms| <= MaxArity
    ensures |ListLiftN(f, ms)| == ListMonad.Product(ms)
    ensures |Lex(ms)| == ListMonad.Product(ms)
    ensures forall i :: 0 <= i < |Lex(ms)| ==> ListLiftN(f, ms)[i] == f(Lex(ms)[i])
  {
    ListLiftFromIsMap(f, ms, []);
    LexLength(ms);
    forall i | 0 <= i < |Lex(ms)|
      ensures ListLiftN(f, ms)[i] == f(Lex(ms)[i])
    {
      assert [] + Lex(ms)[i] == Lex(ms)[i];
    }
  }

  /** Arity 1 coincides with lift. */
  lemma ListLiftNArityOne<T, R>(f: seq<T> -> R, m: seq<T>)
    ensures ListLiftN(f, [m]) == Combinators.ListLift((x: T) => f([x]), m)
  {
    var ms := [m];
    var g := (x: T) => f([x]);
    ListLiftNShape(f, ms);
    Combinators.ListLiftIsFmap(g, m);
    assert ms == [m] + [] && ms[1..] == [];
    assert |Lex(ms)| == |m| by {
      assert ListMonad.Product(ms) == |m| * ListMonad.Product(ms[1..]);
    }
    forall i | 0 <= i < |m|
      ensures ListLiftN(f, ms)[i] == ListMonad.Map(m, g)[i]
    {
      LexOrder(m, [], i, 0);
      assert Lex(ms)[i] == [m[i]];
    }
  }
}
