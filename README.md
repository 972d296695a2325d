# A verified model of the `monad` C++ library

The library provides one class template, `monad<T, State>`. It carries a value and a *state*, and it has two specialisations:

- **maybe**: the state is a presence flag;
- **list**: the state is empty, and the value is a vector of alternatives.

Generic combinators are written once, in terms of `>>=` (bind):

- `>>`, `<<=`, `lift`, `lift_n` (arity 1 to 10);
- `join` and `fmap`;
- `sequence`, `map` (mapM), `map_unzip` (mapAndUnzipM), `filter` (filterM), `zip` (zipWithM) and `fold` (foldM).

A set of macros declares binary operators on monad types.

The Dafny project models each of these pieces. The modules are:

- `MaybeMonad` (`maybe.dfy`): the maybe specialisation. An absent value keeps a payload. Bind is homogeneous, and on an absent value it returns that value unchanged. `BindAs` is the type-changing bind that the traversals need.
- `BoolMaybe` (`bool_maybe.dfy`): the older `monad<T, bool>` specialisation. It is related to `MaybeMonad` by `AgreesWithMaybe`.
- `GenericMonad` (`generic_monad.dfy`): the primary template, which stores a value and a state.
- `ListMonad` (`list.dfy`):
  - the list specialisation, over `seq<T>`;
  - bind and fmap are loop methods, proved equal to the recursive functions `ConcatMap` and `Map`;
  - those functions carry the monad laws.
- `Combinators` (`combinators.dfy`): `>>=`, `<<=`, `>>` and `lift` at both specialisations.
- `SequenceEngine` (`sequence_impl.dfy`):
  - `sequence_impl`, the accumulating loop behind `sequence`, `map` and `zip`, as a method at Maybe and at List;
  - `zip_iterator` as a class.
- `Traversals` (`traversals.dfy`):
  - `sequence`, `map`, `map_unzip`, `filter`, `zip` and `fold` as loop methods;
  - each is proved against a reference function: `Values`, `Combos`, `Select` and `FoldM`.
- `Lifting` (`lift_n.dfy`): `lift_n` for arity 1 to 10 at Maybe and at List.
- `Operators` (`operators.dfy`): the four operator-declaring macros and the functions they declare.

Modelling conventions:

- C++ value-initialisation (`T{}`) has no generic Dafny counterpart. Operations that value-initialise a payload take that value as a parameter named `blank`.
- Integers are unbounded.
- C++ `%` truncates toward zero, while Dafny's is Euclidean. Where the sign matters, in `filter_odd` of the scenarios, the C++ remainder is written out as `Traversals.TruncRem`, so `-1` is not flagged odd (`Traversals.FilterOddSigns`).
- The source's `double` arithmetic in the fold scenarios is replaced by integer arithmetic. Its division truncates toward zero, which agrees with Dafny's division for the non-negative operands used.

Enumeration order at List, compared with the Haskell signature in the comment at `monad.hpp:135` (`sequence :: Monad m => [m a] -> m [a]`):

- **Sequence at List.** Haskell's list `sequence` of `[[1,2],[3,4]]` is `[[1,3],[1,4],[2,3],[2,4]]`, with the first input varying slowest. The C++ loop enumerates in the opposite order: the most recently processed input varies slowest, so it gives `[[1,3],[2,3],[1,4],[2,4]]`. The model follows the code (`SequenceEngine.CombosOrder`, `SequenceEngine.CombosScenario`). The same order carries over to `map` at List.
- **lift_n at List.** `lift_n` nests the binds with the first argument outermost, so there the first input varies slowest, as in Haskell (`Lifting.LexOrder`).

## Model

| member | source | states |
|---|---|---|
| MaybeMonad.Constructors | maybe/maybe.hpp:32-50 | Default and nothing construction give absent values, which compare equal whatever their payloads; value construction gives a present value holding its argument |
| MaybeMonad.BindShortCircuit | maybe/maybe.hpp:61-68 | bind on an absent value returns that value unchanged and does not depend on the function |
| MaybeMonad.LeftIdentity | maybe/maybe.hpp:61-68 | binding a freshly constructed value applies the function to it |
| MaybeMonad.RightIdentity | maybe/maybe.hpp:61-68 | binding with the value constructor gives back the same maybe, payload included |
| MaybeMonad.Associativity | maybe/maybe.hpp:61-68 | nested binds regroup |
| MaybeMonad.BindAsAgreesWithBind | maybe/maybe.hpp:61-68 | the type-changing bind coincides with the member bind when the absent payload is kept |
| MaybeMonad.FmapCases | maybe/maybe.hpp:70-76 | fmap leaves an absent value as is and maps a present value to a present value holding f(value) |
| MaybeMonad.FmapCompose | maybe/maybe.hpp:70-76 | fmap of g after fmap of f is fmap of their composition |
| MaybeMonad.JoinCases | maybe/maybe.hpp:78-79 | join is present iff both layers are present; an absent outer layer gives an absent result; a present outer layer gives the inner value |
| MaybeMonad.EqualIsEquivalence | maybe/maybe.hpp:95-101 | equality is an equivalence; all absent values are equal; on present values it is structural equality |
| MaybeMonad.BindRespectsEqual | maybe/maybe.hpp:61-101 | bind maps equal maybes to equal maybes |
| MaybeMonad.NothingComparisons | maybe/maybe.hpp:103-117 | comparing with nothing tests absence, in either argument order, and agrees with equality to a nothing-constructed value; the two `!=` forms are negations |
| MaybeMonad.BindScenarios | maybe/maybe.hpp:61-68 | 3 bound to add-2 gives 5; nothing bound to add-2 stays nothing |
| BoolMaybe.Constructors | maybe.hpp:18-36 | default and nothing construction clear the flag; value construction sets it; the two-argument form stores both |
| BoolMaybe.BindCases | maybe.hpp:47-54 | an absent value is returned unchanged, independent of f; a present value gives f(value) |
| BoolMaybe.JoinCases | maybe.hpp:56-58 | an absent outer value gives an absent result; a present one gives the inner value |
| BoolMaybe.WriteThrough | maybe.hpp:60-64 | writing through the mutable accessors changes only the written part |
| BoolMaybe.AgreesWithMaybe | maybe.hpp:47-58 | bind and join commute with the translation to the maybe_state specialisation |
| GenericMonad.Accessors | monad.hpp:22-56 | the primary template stores and returns its value and state; the mutable accessors replace one part and keep the other |
| ListMonad.Bind | list/list.hpp:65-86 | the loop concatenates f(x) for every x in order (equal to ConcatMap) and applies f to exactly the elements of the input |
| ListMonad.Fmap | list/list.hpp:88-108 | the loop yields one f(x) per input element, in order |
| ListMonad.ConcatMapAppend | list/list.hpp:65-86 | bind distributes over concatenation of inputs |
| ListMonad.BindLength | list/list.hpp:65-86 | the result length is the sum of the lengths of the f(x) |
| ListMonad.BindLengthUniform | list/list.hpp:65-86 | when every f(x) has length k, the result has length k times the input length |
| ListMonad.BindIndex | list/list.hpp:65-86 | with uniform length k, position j*k+i holds element i of f(xs[j]) |
| ListMonad.BindMember | list/list.hpp:65-86 | y is in the result iff it is in f(x) for some input element x |
| ListMonad.LeftIdentity | list/list.hpp:65-86 | binding a singleton applies f |
| ListMonad.RightIdentity | list/list.hpp:65-86 | binding with the singleton constructor gives back the list |
| ListMonad.Associativity | list/list.hpp:65-86 | nested binds regroup |
| ListMonad.FmapIsBind | list/list.hpp:65-108 | fmap is bind with the singleton of f(x) |
| ListMonad.FmapCompose | list/list.hpp:88-108 | fmap of a composition is the composition of fmaps |
| ListMonad.BindIsJoinOfFmap | list/list.hpp:65-115 | bind is join after fmap |
| ListMonad.JoinAppend | list/list.hpp:110-115 | join of one more inner list appends that list |
| ListMonad.BindCongruence | list/list.hpp:65-86 | bind depends only on f's values at the input's elements |
| ListMonad.FmapOfBind | list/list.hpp:65-108 | fmap after bind is bind with an fmapped function |
| ListMonad.MapAppend | list/list.hpp:88-108 | fmap distributes over concatenation |
| ListMonad.StateCarriesNothing | list/list.hpp:13-41 | all list states are equal; the (storage, state) constructor keeps only the storage |
| ListMonad.Constructors | list/list.hpp:34-53 | the default list is empty; the vector, initializer-list and (storage, state) constructors keep the elements in order |
| ListMonad.SingleValueConstructorAsWritten | list/list.hpp:43-45 | the single-value constructor as written gives [1, 5] for the int 5, not a singleton |
| ListMonad.SingletonHoldsValue | list/list.hpp:43-45 | the intended single-value constructor holds exactly its argument |
| Combinators.MaybeBindOperators | monad.hpp:76-85 | `>>=` and the flipped `<<=` are bind |
| Combinators.MaybeThenCases | monad.hpp:91-97 | `>>` returns an absent lhs, else rhs; present iff both are present |
| Combinators.MaybeLiftIsFmap | monad.hpp:113-119 | lift is fmap: an absent value is kept, a present one becomes f(value) |
| Combinators.MaybeScenarios | test.cpp:78-130 | nothing >> 3 and 3 >> nothing are nothing, 0 >> 3 is 3, and lifting add-2 twice over 3 gives 7 |
| Combinators.ListBindOperators | monad.hpp:76-85 | `>>=` and `<<=` at List are ConcatMap |
| Combinators.ListThenShape | monad.hpp:91-97 | `>>` at List repeats rhs once per element of lhs: length \|lhs\|*\|rhs\| for all operands (empty when either is empty), and position j*\|rhs\|+k holds rhs[k] |
| Combinators.ListLiftIsFmap | monad.hpp:113-119 | lift at List is fmap and preserves length |
| SequenceEngine.SequenceMaybe | detail/detail.hpp:65-84 | an empty range gives the default (absent, empty list); otherwise present iff every f(x) is present, holding their values in order; an absent result holds the empty list |
| SequenceEngine.SequenceList | detail/detail.hpp:65-84 | an empty range gives the empty list; otherwise the result is the accumulated combinations Combos of the f(x) |
| SequenceEngine.ExtendLength | detail/detail.hpp:75-80 | one step multiplies the number of accumulated lists by the number of alternatives |
| SequenceEngine.ExtendIndex | detail/detail.hpp:75-80 | in one step, position j*\|acc\|+k is accumulated list k extended by alternative j |
| SequenceEngine.ExtendMember | detail/detail.hpp:75-80 | c is produced by a step iff its front was accumulated and its last element is an alternative |
| SequenceEngine.CombosLength | detail/detail.hpp:70-81 | the number of combinations is the product of the input sizes |
| SequenceEngine.CombosMember | detail/detail.hpp:70-81 | the entries are exactly the sequences taking element i from input i |
| SequenceEngine.CombosOrder | detail/detail.hpp:70-81 | the most recently processed input varies slowest |
| SequenceEngine.CombosScenario | detail/detail.hpp:65-84 | the sequence of [[1,2],[3,4]] is [[1,3],[2,3],[1,4],[2,4]] |
| SequenceEngine.ZipIterator.constructor | detail/detail.hpp:110-114 | an iterator holds the two given positions |
| SequenceEngine.ZipIterator.Advance | detail/detail.hpp:116-121 | increment advances both positions by one |
| SequenceEngine.ZipIteratorComparisons | detail/detail.hpp:123-126 | `==` and `!=` are complementary and symmetric, and look at the first position only |
| Traversals.Sequence | monad.hpp:134-154 | an empty range gives absent with an empty list; otherwise present iff all elements are present, holding their values |
| Traversals.SequenceOfLists | monad.hpp:134-154 | at List: empty for an empty range; otherwise the combinations, as many as the product of sizes, each taking entry i from input i |
| Traversals.Map | monad.hpp:156-181 | present iff the range is non-empty and f is present at every element; the values are f's values in order |
| Traversals.MapOfLists | monad.hpp:156-181 | at List: empty for an empty range, else the combinations of the f(x), as many as the product of their sizes |
| Traversals.MapUnzip | monad.hpp:183-235 | both output lists hold the components of every f(x), absent ones included; the state is present iff the range is non-empty and every f(x) is present |
| Traversals.Zip | monad.hpp:290-319 | an empty first range gives absent; otherwise present iff f is present at every pair of corresponding positions, holding those values in order |
| Traversals.Filter | monad.hpp:237-288 | an empty range gives absent with an empty list; otherwise present iff every f(x) is present; the kept elements are those before the first absent f(x) whose flag is true, in order |
| Traversals.SelectMember | monad.hpp:266-277 | the reference filter keeps exactly the elements satisfying the predicate |
| Traversals.SelectBounds | monad.hpp:266-277 | the reference filter never grows its input, keeps all when all pass, and keeps none when none pass |
| Traversals.FilterAllPresent | monad.hpp:237-283 | when every f(x) is present, filter keeps exactly the elements flagged true |
| Traversals.FilterOddSigns | test.cpp:271-273 | filter_odd is always present and flags x iff x is positive and odd, as C++'s truncating `%` gives; -1 is not flagged |
| Traversals.FilterOddScenario | test.cpp:271-282 | filtering [1,2,3] by oddness keeps [1,3] |
| Traversals.FilterFlagZeroStops | test.cpp:274-294 | with [2,0,4] the first absent flag is at position 1 |
| Traversals.FilterFlagZeroCollects | test.cpp:274-294 | with [2,4,0] the elements kept before the absent flag are [2,4] |
| Traversals.Fold | monad.hpp:321-348 | an empty range gives the default monad; otherwise the foldM reference result; f is called Steps times |
| Traversals.FoldAppend | monad.hpp:334-343 | folding a concatenation continues the fold of the prefix over the suffix |
| Traversals.FoldCalls | monad.hpp:334-343 | f is called at most once per element, once per element when the result is present, and only once when the first step fails |
| Traversals.FoldScenarios | test.cpp:245-266 | product fold over [1,2,3] gives 6; quotient fold of 1000 gives 166; a zero divisor first gives nothing after one call |
| Lifting.MaybeLiftFromCases | detail/lift_n_impl.hpp:28-53 | the nested binds are present iff all arguments are present, then holding f of the values; otherwise the first absent argument, independent of f |
| Lifting.MaybeLiftNCases | monad.hpp:121-132 | lift_n at Maybe, arity 1 to 10: present iff all arguments are present with value f(values); otherwise the first absent argument |
| Lifting.MaybeLiftNArityOne | monad.hpp:111-132 | lift_n of one argument is lift |
| Lifting.MaybeLiftNScenarios | test.cpp:133-154 | 3+3 is 6, 3+3+3 is 9, any nothing argument gives nothing |
| Lifting.LexLength | detail/lift_n_impl.hpp:28-53 | lift_n at List enumerates as many argument tuples as the product of the input sizes |
| Lifting.LexSound | detail/lift_n_impl.hpp:28-53 | every enumerated tuple takes entry i from input i |
| Lifting.LexComplete | detail/lift_n_impl.hpp:28-53 | every such tuple is enumerated |
| Lifting.LexMember | detail/lift_n_impl.hpp:28-53 | a tuple is enumerated iff it takes entry i from input i |
| Lifting.LexOrder | detail/lift_n_impl.hpp:28-53 | the first input varies slowest |
| Lifting.ListLiftFromIsMap | detail/lift_n_impl.hpp:28-53 | the nested binds at List are f mapped over the enumerated tuples |
| Lifting.ListLiftNShape | monad.hpp:121-132 | lift_n at List has product-of-sizes length, with entry i equal to f of tuple i |
| Lifting.ListLiftNArityOne | monad.hpp:111-132 | lift_n of one list is lift |
| Operators.OperatorIgnored | declare_operators.hpp:5-59 | every macro, whatever operator token or name it is given, declares a function computing x + y; the function declared as `operator*`, or under the name `times`, still adds |
| Operators.MaybeApplyCases | declare_operators.hpp:27-42 | at Maybe: present iff both operands are present, with their sum; an absent lhs is returned without looking at rhs; otherwise an absent rhs is returned |
| Operators.MaybeApplyAlgebra | declare_operators.hpp:27-42 | the declared operator is associative, and commutative up to maybe equality |
| Operators.MaybeScenarios | test.cpp:60-75 | nothing+3 and 3+nothing are absent, 0+3 and 0+3+0 are 3, and 0+3+nothing is absent |
| Operators.ListApplyShape | declare_operators.hpp:5-14 | at List: \|lhs\|*\|rhs\| sums for all operands (none when either is empty), where position i*\|rhs\|+j holds lhs[i]+rhs[j] |
| Operators.ListApplyMember | declare_operators.hpp:5-14 | z is in the result iff it is lhs[i]+rhs[j] for some i, j |

## Left out

- Stream output (`list/io.hpp`, `maybe/io.hpp`, the `operator<<` in `maybe.hpp` and in `test.cpp`): I/O, not part of this model.
- `monad.cpp` and the `main` driver of `test.cpp`: they are only consulted for scenarios.
- `detail::reserve` and the `iterator_traits` specialisation for `zip_iterator`: these are capacity hints and type computations, with no observable effect on values.
- Type-level helpers (`join_result_t`, `state_type_t`, `mapped_value_type_t`, `zip_value_type_t`, `monad_t_param_t`): C++ type computations. In the model, types are given by the Dafny signatures.
- The primary template's `bind` and `join` (`monad.hpp:38-39`, `monad.hpp:49-50`): they are declared but never defined for a general state, so there is nothing to model.
- The primary template's `fmap` (`monad.hpp:41-47`): it forwards to that undefined `bind`, so it is left out for the same reason. The specialisations' `fmap` is modelled (`MaybeMonad.FmapCases`, `ListMonad.Fmap`).
- The generic `operator==` and `operator!=` (`monad.hpp:63-71`): they are defined, but they compare `lhs.data()`, a member the primary template does not have, so they cannot be instantiated for it. The specialisations' equality is modelled (`MaybeMonad.EqualIsEquivalence`, `ListMonad.StateCarriesNothing`).
- Range overloads (`sequence(r)`, `map(f, r)` and so on): each one forwards to the iterator form, which the model takes as a sequence.
- MaybeMonad.Bind: C++ copies `*this` and lets the lambda capture by value. The model is value-level, so aliasing does not arise.
- Traversals.Filter: the lambda writes into `retval` through a reference capture. That effect is modelled as a push written beside the bind, not as a closure with a side effect.
- Traversals.Filter and Traversals.MapUnzip at List: `filter` and `map_unzip` use `value()` and `state()` of a single monad, which is meaningful only at Maybe. They are modelled at Maybe only.
- Traversals.Zip: requires `|r1| <= |r2|`. The source reads the second range without a bound, and a shorter second range is undefined behaviour there.
- Lifting.MaybeLiftN: takes all arguments at one element type `T` and returns a `Maybe<T>`. The source allows each argument and the result type to differ. The List form is heterogeneous in the result type only.
- Lifting.MaybeLiftN: the Boost preprocessor iteration over arities 1 to 10 is modelled as recursion over a sequence of 1 to 10 arguments. A call with zero or more than 10 arguments does not compile in the source, so it is excluded by the precondition.
- Operators: the macros are modelled at `Maybe<int>` and `List<int>` with unbounded integers. Overflow of `int` is not modelled.
- Traversals.FoldScenarios: the scenarios use integer arithmetic in place of `double`. Floating point is not modelled.
- C++ value-initialisation of payloads (`T{}`) is the explicit parameter `blank`.

## Findings

| source | as written | input that shows it | evidently intended | confidence | as-written member | corrected member |
|---|---|---|---|---|---|---|
| list/list.hpp:43-45 | `value_ {1, t}` brace-initialises the vector; for an arithmetic `T` this selects the initializer-list constructor, giving the two elements 1 and t | `list<int>(5)` holds [1, 5] | a list holding the single element t (the `(count, value)` constructor, `value_(1, t)`) | not executed | ListMonad.SingleValueConstructorAsWritten | ListMonad.SingletonHoldsValue |
