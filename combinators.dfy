/** Model of the bind-derived operators of monad.hpp (>>=, <<=, >>, lift),
    instantiated at Maybe and at List. The free fmap and join forward to the
    members MaybeMonad.Fmap / ListMonad.Map and MaybeMonad.Join / ListMonad.Join. */
module Combinators {
  import opened MaybeMonad
  import ListMonad

  // ---------------------------------------------------------------------
  // Maybe

  /** m >>= f */
  function MaybeBindOp<T>(m: Maybe<T>, f: T -> Maybe<T>): Maybe<T>
  {
    Bind(m, f)
  }

  /** f <<= m */
  function MaybeBindFlipped<T>(f: T -> Maybe<T>, m: Maybe<T>): Maybe<T>
  {
    Bind(m, f)
  }

  /** lhs >> rhs: bind with a continuation that ignores its argument. */
  function MaybeThen<T>(lhs: Maybe<T>, rhs: Maybe<T>): Maybe<T>
  {
    Bind(lhs, (x: T) => rhs)
  }

  /** lift(f, m): m >>= x => monad<T, State>{f(x)}. */
  function MaybeLift<T>(f: T -> T, m: Maybe<T>): Maybe<T>
  {
    Bind(m, (x: T) => FromValue(f(x)))
  }

  /** Both spellings of bind are the member bind. */
  lemma MaybeBindOperators<T>(m: Maybe<T>, f: T -> Maybe<T>)
    ensures MaybeBindOp(m, f) == Bind(m, f)
    ensures MaybeBindFlipped(f, m) == Bind(m, f)
  {
  }

  /** lhs >> rhs is lhs itself when lhs is absent and rhs otherwise. */
  lemma MaybeThenCases<T>(lhs: Maybe<T>, rhs: Maybe<T>)
    ensures !lhs.nonempty ==> MaybeThen(lhs, rhs) == lhs
    ensures lhs.nonempty ==> MaybeThen(lhs, rhs) == rhs
    ensures MaybeThen(lhs, rhs).nonempty <==> lhs.nonempty && rhs.nonempty
  {
  }

  /** lift agrees with fmap: absent stays absent, present v becomes f(v). */
  lemma MaybeLiftIsFmap<T>(f: T -> T, m: Maybe<T>)
    ensures MaybeLift(f, m) == Fmap(m, f)
    ensures !m.nonempty ==> MaybeLift(f, m) == m
    ensures m.nonempty ==> MaybeLift(f, m) == FromValue(f(m.value))
  {
  }

  /** Scenarios: nothing >> 3 is nothing, 3 >> nothing is nothing, 0 >> 3 is 3;
      lift(add_2) twice on 3 gives 7. */
  lemma MaybeScenarios(blank: int)
    ensures MaybeThen(FromNothing(blank), FromValue(3)) == FromNothing(blank)
    ensures MaybeThen(FromValue(3), FromNothing(blank)) == FromNothing(blank)
    ensures MaybeThen(FromValue(0), FromValue(3)) == FromValue(3)
    ensures MaybeLift((x: int) => x + 2, MaybeLift((x: int) => x + 2, FromValue(3))) == FromValue(7)
  {
    var add2 := (x: int) => x + 2;
    assert MaybeLift(add2, FromValue(3)) == FromValue(5);
  }

  // ---------------------------------------------------------------------
  // List

  /** m >>= f */
  function ListBindOp<A, B>(m: seq<A>, f: A -> seq<B>): seq<B>
  {
    ListMonad.ConcatMap(m, f)
  }

  /** f <<= m */
  function ListBindFlipped<A, B>(f: A -> seq<B>, m: seq<A>): seq<B>
  {
    ListMonad.ConcatMap(m, f)
  }

  /** lhs >> rhs: one copy of rhs per element of lhs. */
  function ListThen<T>(lhs: seq<T>, rhs: seq<T>): seq<T>
  {
    ListMonad.ConcatMap(lhs, (x: T) => rhs)
  }

  /** lift(f, m): `monad<T, State>{f(x)}` is brace-initialised, so each
      element gives a one-element list. */
  function ListLift<A, B>(f: A -> B, m: seq<A>): seq<B>
  {
    ListMonad.ConcatMap(m, (x: A) => ListMonad.Singleton(f(x)))
  }

  lemma ListBindOperators<A, B>(m: seq<A>, f: A -> seq<B>)
    ensures ListBindOp(m, f) == ListMonad.ConcatMap(m, f)
    ensures ListBindFlipped(f, m) == ListMonad.ConcatMap(m, f)
  {
  }

  /** lhs >> rhs has |lhs| * |rhs| elements (none when either is empty): rhs
      repeated once per element of lhs. */
  lemma ListThenShape<T>(lhs: seq<T>, rhs: seq<T>, j: nat, k: nat)
    ensures |ListThen(lhs, rhs)| == |lhs| * |rhs|
    ensures j < |lhs| && k < |rhs| ==> j * |rhs| + k < |ListThen(lhs, rhs)| && ListThen(lhs, rhs)[j * |rhs| + k] == rhs[k]
  {
    ListMonad.BindLengthUniform(lhs, (x: T) => rhs, |rhs|);
    if j < |lhs| && k < |rhs| {
      ListMonad.BindIndex(lhs, (x: T) => rhs, |rhs|, j, k);
    }
  }

  /** lift agrees with fmap: same length and order, element i mapped. */
  lemma ListLiftIsFmap<A, B>(f: A -> B, m: seq<A>)
    ensures ListLift(f, m) == ListMonad.Map(m, f)
    ensures |ListLift(f, m)| == |m|
  {
    ListMonad.FmapIsBind(m, f);
  }
}
