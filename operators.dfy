/** Model of declare_operators.hpp: four macros that declare a binary
    function on a monad type,
      lhs >>= x => rhs >>= y => monad_type{x + y}.
    The operator token `op` or the `name` only names the declared function:
    every expansion adds. Values are unbounded integers. */
module Operators {
  import opened MaybeMonad
  import ListMonad

  /** The macro invocations: MONAD_BINARY_OP(op, monad_type),
      MONAD_NAMED_BINARY_OP(name, op, monad_type),
      MONAD_TEMPLATE_BINARY_OP(op, monad_name, num_template_args) and
      MONAD_TEMPLATE_NAMED_BINARY_OP(name, op, monad_name, num_template_args). */
  datatype Macro =
    | BinaryOp(op: string)
    | NamedBinaryOp(name: string, op: string)
    | TemplateBinaryOp(op: string, templateArgs: nat)
    | TemplateNamedBinaryOp(name: string, op: string, templateArgs: nat)

  /** The name of the declared function: `operator op` or `name`. */
  function Declared(macro: Macro): string
  {
    match macro
    case BinaryOp(op) => "operator" + op
    case NamedBinaryOp(name, _) => name
    case TemplateBinaryOp(op, _) => "operator" + op
    case TemplateNamedBinaryOp(name, _, _) => name
  }

  /** The declared function at Maybe<int>. */
  function MaybeApply(macro: Macro, lhs: Maybe<int>, rhs: Maybe<int>): Maybe<int>
  {
    match macro
    case BinaryOp(_) => Bind(lhs, (x: int) => Bind(rhs, (y: int) => FromValue(x + y)))
    case NamedBinaryOp(_, _) => Bind(lhs, (x: int) => Bind(rhs, (y: int) => FromValue(x + y)))
    case TemplateBinaryOp(_, _) => Bind(lhs, (x: int) => Bind(rhs, (y: int) => FromValue(x + y)))
    case TemplateNamedBinaryOp(_, _, _) => Bind(lhs, (x: int) => Bind(rhs, (y: int) => FromValue(x + y)))
  }

  /** The declared function at List<int>. */
  function ListApply(macro: Macro, lhs: seq<int>, rhs: seq<int>): seq<int>
  {
    match macro
    case BinaryOp(_) => ListMonad.ConcatMap(lhs, (x: int) => ListMonad.ConcatMap(rhs, (y: int) => [x + y]))
    case NamedBinaryOp(_, _) => ListMonad.ConcatMap(lhs, (x: int) => ListMonad.ConcatMap(rhs, (y: int) => [x + y]))
    case TemplateBinaryOp(_, _) => ListMonad.ConcatMap(lhs, (x: int) => ListMonad.ConcatMap(rhs, (y: int) => [x + y]))
    case TemplateNamedBinaryOp(_, _, _) => ListMonad.ConcatMap(lhs, (x: int) => ListMonad.ConcatMap(rhs, (y: int) => [x + y]))
  }

  /** `+` as the scenarios declare it: MONAD_TEMPLATE_BINARY_OP(+, maybe, 1). */
  const Plus := TemplateBinaryOp("+", 1)

  /** `+` as MONAD_BINARY_OP(+, monad_type) declares it. */
  const Addition := BinaryOp("+")

  /** Whatever operator token or name is passed, the declared function adds:
      all four macros, with any arguments, compute the same result, so the
      function declared as `operator*` or under the name `times` adds too. */
  lemma OperatorIgnored(m1: Macro, m2: Macro, lhs: Maybe<int>, rhs: Maybe<int>, xs: seq<int>, ys: seq<int>)
    ensures MaybeApply(m1, lhs, rhs) == MaybeApply(m2, lhs, rhs)
    ensures ListApply(m1, xs, ys) == ListApply(m2, xs, ys)
    ensures Declared(BinaryOp("*")) == "operator*" && MaybeApply(BinaryOp("*"), FromValue(2), FromValue(3)) == FromValue(5)
    ensures Declared(NamedBinaryOp("times", "*")) == "times" && Declared(NamedBinaryOp("times", "*")) != Declared(BinaryOp("+"))
  {
  }

  /** At Maybe: present iff both operands are present, with value x + y. An
      absent lhs is returned as is, without looking at rhs; a present lhs
      with an absent rhs gives rhs. */
  lemma MaybeApplyCases(macro: Macro, lhs: Maybe<int>, rhs: Maybe<int>, other: Maybe<int>)
    ensures MaybeApply(macro, lhs, rhs).nonempty <==> lhs.nonempty && rhs.nonempty
    ensures lhs.nonempty && rhs.nonempty ==> MaybeApply(macro, lhs, rhs) == FromValue(lhs.value + rhs.value)
    ensures !lhs.nonempty ==> MaybeApply(macro, lhs, rhs) == lhs
    ensures !lhs.nonempty ==> MaybeApply(macro, lhs, rhs) == MaybeApply(macro, lhs, other)
    ensures lhs.nonempty && !rhs.nonempty ==> MaybeApply(macro, lhs, rhs) == rhs
  {
    if lhs.nonempty {
      var x := lhs.value;
      assert MaybeApply(macro, lhs, rhs) == Bind(rhs, (y: int) => FromValue(x + y));
      if rhs.nonempty {
        assert MaybeApply(macro, lhs, rhs) == FromValue(x + rhs.value);
      } else {
        assert MaybeApply(macro, lhs, rhs) == rhs;
      }
    }
  }

  /** Chains group to the left and are associative; swapping the operands
      gives an equal value (the payload of an absent result may differ). */
  lemma MaybeApplyAlgebra(macro: Macro, a: Maybe<int>, b: Maybe<int>, c: Maybe<int>)
    ensures MaybeApply(macro, MaybeApply(macro, a, b), c) == MaybeApply(macro, a, MaybeApply(macro, b, c))
    ensures Equal(MaybeApply(macro, a, b), MaybeApply(macro, b, a))
  {
    MaybeApplyCases(macro, a, b, c);
    MaybeApplyCases(macro, b, c, a);
    MaybeApplyCases(macro, b, a, c);
    MaybeApplyCases(macro, MaybeApply(macro, a, b), c, a);
    MaybeApplyCases(macro, a, MaybeApply(macro, b, c), a);
  }

  /** Scenarios: nothing + 3 and 3 + nothing are absent, 0 + 3 is 3,
      0 + 3 + 0 is 3 and 0 + 3 + nothing is absent. */
  lemma MaybeScenarios(blank: int)
    ensures !MaybeApply(Plus, FromNothing(blank), FromValue(3)).nonempty
    ensures !MaybeApply(Plus, FromValue(3), FromNothing(blank)).nonempty
    ensures MaybeApply(Plus, FromValue(0), FromValue(3)) == FromValue(3)
    ensures MaybeApply(Plus, MaybeApply(Plus, FromValue(0), FromValue(3)), FromValue(0)) == FromValue(3)
    ensures !MaybeApply(Plus, MaybeApply(Plus, FromValue(0), FromValue(3)), FromNothing(blank)).nonempty
  {
    MaybeApplyCases(Plus, FromValue(0), FromValue(3), FromValue(0));
    MaybeApplyCases(Plus, FromValue(3), FromValue(0), FromValue(0));
    MaybeApplyCases(Plus, FromValue(3), FromNothing(blank), FromValue(0));
  }

  /** At List: every sum x + y, lhs elements varying slowest; the result has
      |lhs| * |rhs| elements, none when either operand is empty. */
  lemma ListApplyShape(macro: Macro, lhs: seq<int>, rhs: seq<int>, i: nat, j: nat)
    ensures |ListApply(macro, lhs, rhs)| == |lhs| * |rhs|
    ensures i < |lhs| && j < |rhs| ==> i * |rhs| + j < |ListApply(macro, lhs, rhs)| && ListApply(macro, lhs, rhs)[i * |rhs| + j] == lhs[i] + rhs[j]
  {
    var inner := (x: int) => ListMonad.ConcatMap(rhs, (y: int) => [x + y]);
    forall n | 0 <= n < |lhs|
      ensures |inner(lhs[n])| == |rhs|
    {
      ListMonad.BindLengthUniform(rhs, (y: int) => [lhs[n] + y], 1);
    }
    ListMonad.BindLengthUniform(lhs, inner, |rhs|);
    if i < |lhs| && j < |rhs| {
      ListMonad.BindIndex(lhs, inner, |rhs|, i, j);
      ListMonad.BindIndex(rhs, (y: int) => [lhs[i] + y], 1, j, 0);
    }
    OperatorIgnored(macro, Addition, FromValue(0), FromValue(0), lhs, rhs);
  }

  lemma SumsSound(lhs: seq<int>, rhs: seq<int>, z: int)
    requires z in ListApply(Addition, lhs, rhs)
    ensures exists i, j :: 0 <= i < |lhs| && 0 <= j < |rhs| && z == lhs[i] + rhs[j]
  {
    var inner := (x: int) => ListMonad.ConcatMap(rhs, (y: int) => [x + y]);
    ListMonad.BindMember(lhs, inner, z);
    var i :| 0 <= i < |lhs| && z in inner(lhs[i]);
    ListMonad.BindMember(rhs, (y: int) => [lhs[i] + y], z);
    var j :| 0 <= j < |rhs| && z in [lhs[i] + rhs[j]];
    assert z == lhs[i] + rhs[j];
  }

  lemma SumsComplete(lhs: seq<int>, rhs: seq<int>, i: nat, j: nat)
    requires i < |lhs| && j < |rhs|
    ensures lhs[i] + rhs[j] in ListApply(Addition, lhs, rhs)
  {
    var z := lhs[i] + rhs[j];
    var inner := (x: int) => ListMonad.ConcatMap(rhs, (y: int) => [x + y]);
    ListMonad.BindMember(rhs, (y: int) => [lhs[i] + y], z);
    assert z in [lhs[i] + rhs[j]];
    assert z in inner(lhs[i]);
    ListMonad.BindMember(lhs, inner, z);
  }

  /** Membership at List: z is in the result iff it is x + y for some x of lhs
      and y of rhs. */
  lemma ListApplyMember(macro: Macro, lhs: seq<int>, rhs: seq<int>, z: int)
    ensures z in ListApply(macro, lhs, rhs) <==> exists i, j :: 0 <= i < |lhs| && 0 <= j < |rhs| && z == lhs[i] + rhs[j]
  {
    OperatorIgnored(macro, Addition, FromValue(0), FromValue(0), lhs, rhs);
    if z in ListApply(Addition, lhs, rhs) {
      SumsSound(lhs, rhs, z);
    }
    if exists i, j :: 0 <= i < |lhs| && 0 <= j < |rhs| && z == lhs[i] + rhs[j] {
      var i, j :| 0 <= i < |lhs| && 0 <= j < |rhs| && z == lhs[i] + rhs[j];
      SumsComplete(lhs, rhs, i, j);
    }
  }
}
