/** Model of the primary template monad<T, State> of monad.hpp: a value and a
    state with read accessors and owned mutable accessors. Its bind and join
    are declared but never defined; each variant supplies its own. */
module GenericMonad {

  datatype Monad<T, S> = Monad(value: T, state: S)

  /** monad(value_type value, state_type state): both stored. */
  function Make<T, S>(value: T, state: S): Monad<T, S>
  {
    Monad(value, state)
  }

  /** A write through mutable_value(). */
  function SetValue<T, S>(m: Monad<T, S>, v: T): Monad<T, S>
  {
    m.(value := v)
  }

  /** A write through mutable_state(). */
  function SetState<T, S>(m: Monad<T, S>, s: S): Monad<T, S>
  {
    m.(state := s)
  }

  /** The accessors return what was stored or last written, and a write to
      one field leaves the other alone. */
  lemma Accessors<T, S>(v: T, s: S, v2: T, s2: S)
    ensures Make(v, s).value == v && Make(v, s).state == s
    ensures SetValue(Make(v, s), v2) == Make(v2, s)
    ensures SetState(Make(v, s), s2) == Make(v, s2)
  {
  }
}
