/** Model of maybe.hpp: the older Maybe, monad<T, bool>, whose payload and
    boolean state are public fields. */
module BoolMaybe {
  import MaybeMonad

  /** The fields value_ and state_. */
  datatype BoolMaybe<T> = BoolMaybe(value: T, state: bool)

  /** monad(): `state_ {}` value-initialises the flag to false; the payload
      is value-initialised too (`blank`). */
  function Default<T>(blank: T): BoolMaybe<T>
  {
    BoolMaybe(blank, false)
  }

  /** monad(value_type value, state_type state): both stored verbatim. */
  function Make<T>(value: T, state: bool): BoolMaybe<T>
  {
    BoolMaybe(value, state)
  }

  /** monad(T t): present, holding t. */
  function FromValue<T>(t: T): BoolMaybe<T>
  {
    BoolMaybe(t, true)
  }

  /** monad(nothing_t): absent with a value-initialised payload. */
  function FromNothing<T>(blank: T): BoolMaybe<T>
  {
    BoolMaybe(blank, false)
  }

  /** bind: *this unchanged when the state is false, else f(value_). */
  function Bind<T>(m: BoolMaybe<T>, f: T -> BoolMaybe<T>): BoolMaybe<T>
  {
    if !m.state then m else f(m.value)
  }

  /** join: `value_type{nothing}` when absent, otherwise the stored inner value. */
  function Join<T>(mm: BoolMaybe<BoolMaybe<T>>, blank: T): BoolMaybe<T>
  {
    if !mm.state then FromNothing(blank) else mm.value
  }

  /** A write through mutable_value(). */
  function SetValue<T>(m: BoolMaybe<T>, v: T): BoolMaybe<T>
  {
    m.(value := v)
  }

  /** A write through mutable_state(). */
  function SetState<T>(m: BoolMaybe<T>, s: bool): BoolMaybe<T>
  {
    m.(state := s)
  }

  /** The same value seen as the newer Maybe of maybe/maybe.hpp. */
  function AsMaybe<T>(m: BoolMaybe<T>): MaybeMonad.Maybe<T>
  {
    MaybeMonad.Maybe(m.value, m.state)
  }

  // ---------------------------------------------------------------------
  // Properties

  /** Construction: default and nothing are absent, a value is present with
      that value, and the two-argument constructor keeps both arguments. */
  lemma Constructors<T>(blank: T, t: T, v: T, s: bool)
    ensures !Default(blank).state && !FromNothing(blank).state
    ensures FromValue(t).state && FromValue(t).value == t
    ensures Make(v, s).value == v && Make(v, s).state == s
  {
  }

  /** bind on an absent value returns *this and ignores f; on a present value
      it returns f(value_). */
  lemma BindCases<T>(m: BoolMaybe<T>, f: T -> BoolMaybe<T>, g: T -> BoolMaybe<T>)
    ensures !m.state ==> Bind(m, f) == m && Bind(m, f) == Bind(m, g)
    ensures m.state ==> Bind(m, f) == f(m.value)
  {
  }

  /** join: absent outer gives an absent inner; otherwise the stored inner value. */
  lemma JoinCases<T>(mm: BoolMaybe<BoolMaybe<T>>, blank: T)
    ensures !mm.state ==> !Join(mm, blank).state
    ensures mm.state ==> Join(mm, blank) == mm.value
  {
  }

  /** Writes through the mutable accessors are seen by value() and state(),
      and leave the other field alone. */
  lemma WriteThrough<T>(m: BoolMaybe<T>, v: T, s: bool)
    ensures SetValue(m, v).value == v && SetValue(m, v).state == m.state
    ensures SetState(m, s).state == s && SetState(m, s).value == m.value
    ensures SetState(SetValue(m, v), s) == Make(v, s)
  {
  }

  /** The two revisions agree: bind and join commute with the translation to
      the newer Maybe. */
  lemma AgreesWithMaybe<T>(m: BoolMaybe<T>, f: T -> BoolMaybe<T>, mm: BoolMaybe<BoolMaybe<T>>, blank: T)
    ensures AsMaybe(Bind(m, f)) == MaybeMonad.Bind(AsMaybe(m), (x: T) => AsMaybe(f(x)))
    ensures AsMaybe(Join(mm, blank))
         == MaybeMonad.Join(MaybeMonad.Maybe(AsMaybe(mm.value), mm.state), blank)
  {
  }
}
