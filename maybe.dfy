/** Model of maybe/maybe.hpp: monad<T, maybe_state>, the optional-value monad
    whose state is a single presence flag.

    C++ value-initialisation (`T{}`) has no generic counterpart in Dafny, so the
    constructors that value-initialise the payload take that value as `blank`. */
module MaybeMonad {

  /** A payload and the presence flag maybe_state::nonempty_. An absent value
      still stores a payload: value() returns it and operator== ignores it. */
  datatype Maybe<T> = Maybe(value: T, nonempty: bool)

  /** monad(): payload value-initialised, flag false. */
  function Default<T>(blank: T): Maybe<T>
  {
    Maybe(blank, false)
  }

  /** monad(nothing_t): the same state as default construction. */
  function FromNothing<T>(blank: T): Maybe<T>
  {
    Maybe(blank, false)
  }

  /** monad(value_type t): present, holding t. */
  function FromValue<T>(t: T): Maybe<T>
  {
    Maybe(t, true)
  }

  /** bind: an absent value is returned unchanged (f is not applied); a
      present value's result is f(value). Declared as returning this_type, so
      f maps T to monad<T, maybe_state>. */
  function Bind<T>(m: Maybe<T>, f: T -> Maybe<T>): Maybe<T>
  {
    if !m.nonempty then m else f(m.value)
  }

  /** The value-type-changing bind the traversals rely on (Maybe<A> to
      Maybe<B>). The absent result cannot be *this, so it is an absent value
      whose payload is the value-initialised `blank`. */
  function BindAs<A, B>(m: Maybe<A>, f: A -> Maybe<B>, blank: B): Maybe<B>
  {
    if !m.nonempty then Maybe(blank, false) else f(m.value)
  }

  /** fmap: bind with `x => this_type{f(x)}`. */
  function Fmap<T>(m: Maybe<T>, f: T -> T): Maybe<T>
  {
    Bind(m, (x: T) => FromValue(f(x)))
  }

  /** join on maybe<maybe<T>>: `nothing` converted to the inner type when the
      outer value is absent, otherwise the stored inner value. */
  function Join<T>(mm: Maybe<Maybe<T>>, blank: T): Maybe<T>
  {
    if !mm.nonempty then FromNothing(blank) else mm.value
  }

  /** operator== on two maybes: same state and, if present, same value. */
  predicate Equal<T(==)>(lhs: Maybe<T>, rhs: Maybe<T>)
  {
    lhs.nonempty == rhs.nonempty && (!lhs.nonempty || lhs.value == rhs.value)
  }

  /** operator==(maybe, nothing_t). */
  predicate EqualsNothing<T>(m: Maybe<T>)
  {
    !m.nonempty
  }

  /** operator==(nothing_t, maybe): forwards to the other argument order. */
  predicate NothingEquals<T>(m: Maybe<T>)
  {
    EqualsNothing(m)
  }

  /** operator!=(maybe, nothing_t). */
  predicate NotEqualsNothing<T>(m: Maybe<T>)
  {
    !EqualsNothing(m)
  }

  /** operator!=(nothing_t, maybe). */
  predicate NothingNotEquals<T>(m: Maybe<T>)
  {
    !EqualsNothing(m)
  }

  // ---------------------------------------------------------------------
  // Sequences of maybes (used by the traversals and by lift_n)

  predicate AllPresent<T>(ms: seq<Maybe<T>>)
  {
    forall i :: 0 <= i < |ms| ==> ms[i].nonempty
  }

  /** The payloads, in order. */
  function Values<T>(ms: seq<Maybe<T>>): (r: seq<T>)
    ensures |r| == |ms|
    ensures forall i :: 0 <= i < |ms| ==> r[i] == ms[i].value
  {
    if ms == [] then [] else [ms[0].value] + Values(ms[1..])
  }

  /** Index of the first absent element, or |ms| when all are present. */
  function FirstAbsent<T>(ms: seq<Maybe<T>>): (k: nat)
    ensures k <= |ms|
    ensures forall i :: 0 <= i < k ==> ms[i].nonempty
    ensures k < |ms| ==> !ms[k].nonempty
    ensures k == |ms| <==> AllPresent(ms)
  {
    if ms == [] then 0
    else if !ms[0].nonempty then 0
    else 1 + FirstAbsent(ms[1..])
  }

  // ---------------------------------------------------------------------
  // Properties

  /** Default construction and construction from nothing give an absent
      value (equal to each other whatever their payloads); construction from
      a value gives a present value holding it. */
  lemma Constructors<T>(blank1: T, blank2: T, t: T)
    ensures !Default(blank1).nonempty && !FromNothing(blank2).nonempty
    ensures Equal(Default(blank1), FromNothing(blank2))
    ensures FromValue(t).nonempty && FromValue(t).value == t
    ensures EqualsNothing(Default(blank1)) && !EqualsNothing(FromValue(t))
  {
  }

  /** Bind on an absent value returns it unchanged, whatever f is: f is
      never consulted. */
  lemma BindShortCircuit<T>(m: Maybe<T>, f: T -> Maybe<T>, g: T -> Maybe<T>)
    requires !m.nonempty
    ensures Bind(m, f) == m
    ensures Bind(m, f) == Bind(m, g)
  {
  }

  /** Left identity: maybe(x).bind(f) == f(x). */
  lemma LeftIdentity<T>(x: T, f: T -> Maybe<T>)
    ensures Bind(FromValue(x), f) == f(x)
  {
  }

  /** Right identity, as an identity of representations (an absent value is
      returned as it is, payload and all). */
  lemma RightIdentity<T>(m: Maybe<T>)
    ensures Bind(m, (x: T) => FromValue(x)) == m
  {
  }

  /** Associativity of bind. */
  lemma Associativity<T>(m: Maybe<T>, f: T -> Maybe<T>, g: T -> Maybe<T>)
    ensures Bind(Bind(m, f), g) == Bind(m, (x: T) => Bind(f(x), g))
  {
  }

  /** The type-changing bind agrees with bind when the types coincide and the
      absent payload is kept. */
  lemma BindAsAgreesWithBind<T>(m: Maybe<T>, f: T -> Maybe<T>)
    ensures BindAs(m, f, m.value) == Bind(m, f)
    ensures m.nonempty ==> BindAs(m, f, m.value) == f(m.value)
  {
  }

  /** fmap keeps absent as absent and maps present v to present f(v). */
  lemma FmapCases<T>(m: Maybe<T>, f: T -> T)
    ensures !m.nonempty ==> Fmap(m, f) == m
    ensures m.nonempty ==> Fmap(m, f) == FromValue(f(m.value))
  {
  }

  /** fmap(g, fmap(f, m)) == fmap(g . f, m). */
  lemma FmapCompose<T>(m: Maybe<T>, f: T -> T, g: T -> T)
    ensures Fmap(Fmap(m, f), g) == Fmap(m, (x: T) => g(f(x)))
  {
    var h := (x: T) => g(f(x));
    if m.nonempty {
      calc {
        Fmap(Fmap(m, f), g);
        Fmap(FromValue(f(m.value)), g);
        FromValue(g(f(m.value)));
        FromValue(h(m.value));
        Fmap(m, h);
      }
    }
  }

  /** join: absent outer gives absent; present outer gives the inner value
      unchanged (absent or not). */
  lemma JoinCases<T>(mm: Maybe<Maybe<T>>, blank: T)
    ensures !mm.nonempty ==> !Join(mm, blank).nonempty
    ensures mm.nonempty ==> Join(mm, blank) == mm.value
    ensures Join(mm, blank).nonempty <==> mm.nonempty && mm.value.nonempty
  {
  }

  /** operator== ignores the payload of absent values and is an equivalence. */
  lemma EqualIsEquivalence<T>(a: Maybe<T>, b: Maybe<T>, c: Maybe<T>)
    ensures Equal(a, a)
    ensures Equal(a, b) ==> Equal(b, a)
    ensures Equal(a, b) && Equal(b, c) ==> Equal(a, c)
    ensures !a.nonempty && !b.nonempty ==> Equal(a, b)
    ensures a.nonempty ==> (Equal(a, b) <==> a == b)
  {
  }

  /** Bind respects operator==: equal inputs give equal results. */
  lemma BindRespectsEqual<T>(a: Maybe<T>, b: Maybe<T>, f: T -> Maybe<T>)
    requires Equal(a, b)
    ensures Equal(Bind(a, f), Bind(b, f))
  {
  }

  /** m == nothing holds iff m is absent, in both argument orders, it is the
      same as comparing with any value built from nothing, and != is its
      negation. */
  lemma NothingComparisons<T>(m: Maybe<T>, blank: T)
    ensures EqualsNothing(m) <==> !m.nonempty
    ensures NothingEquals(m) <==> EqualsNothing(m)
    ensures EqualsNothing(m) <==> Equal(m, FromNothing(blank))
    ensures NotEqualsNothing(m) <==> !EqualsNothing(m)
    ensures NothingNotEquals(m) <==> !NothingEquals(m)
  {
  }

  /** Scenarios: maybe(3).bind(x => maybe(x + 2)) is maybe(5); the same bind
      on nothing is nothing. */
  lemma BindScenarios(blank: int)
    ensures Bind(FromValue(3), (x: int) => FromValue(x + 2)) == FromValue(5)
    ensures Bind(FromNothing(blank), (x: int) => FromValue(x + 2)) == FromNothing(blank)
  {
  }
}
