/** Model of list/list.hpp: monad<T, list_state>, the non-deterministic
    choice monad. Its value is a vector of alternatives (a `seq`), and its
    state carries no information. */
module ListMonad {

  /** list_state: an empty struct. */
  datatype ListState = ListState

  /** operator== on list_state: always true. */
  predicate StateEquals(lhs: ListState, rhs: ListState)
  {
    true
  }

  /** monad(): no elements. */
  function Empty<T>(): seq<T>
  {
    []
  }

  /** monad(storage_type, state_type): keeps the storage and discards the
      state argument. */
  function FromStorage<T>(storage: seq<T>, state: ListState): seq<T>
  {
    storage
  }

  /** monad(storage_type v) and monad(std::initializer_list<value_type> l):
      the elements, in order. */
  function FromElements<T>(v: seq<T>): seq<T>
  {
    v
  }

  /** monad(value_type t) as written: `value_ {1, t}`. For an element type
      that int converts to, brace initialisation picks the initializer-list
      constructor of std::vector, giving the two elements 1 and t. */
  function FromValueAsWritten(t: int): seq<int>
  {
    [1, t]
  }

  /** monad(value_type t) as intended: a one-element list. */
  function Singleton<T>(t: T): seq<T>
  {
    [t]
  }

  /** state(): the state of any list. */
  function State<T>(xs: seq<T>): ListState
  {
    ListState
  }

  /** The specification of bind: the results of f on the elements,
      concatenated in order. */
  function ConcatMap<A, B>(xs: seq<A>, f: A -> seq<B>): seq<B>
  {
    if xs == [] then [] else f(xs[0]) + ConcatMap(xs[1..], f)
  }

  /** The sum of the lengths of the pieces f(x). */
  function TotalLength<A, B>(xs: seq<A>, f: A -> seq<B>): nat
  {
    if xs == [] then 0 else |f(xs[0])| + TotalLength(xs[1..], f)
  }

  /** The specification of fmap: element-wise map. */
  function Map<A, B>(xs: seq<A>, f: A -> B): (r: seq<B>)
    ensures |r| == |xs|
    ensures forall i :: 0 <= i < |xs| ==> r[i] == f(xs[i])
  {
    if xs == [] then [] else [f(xs[0])] + Map(xs[1..], f)
  }

  /** join: bind with the identity, i.e. the inner lists concatenated. */
  function Join<T>(xss: seq<seq<T>>): seq<T>
  {
    ConcatMap(xss, (xs: seq<T>) => xs)
  }

  /** The number of combinations of one element from each list. */
  function Product<T>(ms: seq<seq<T>>): nat
  {
    if ms == [] then 1 else |ms[0]| * Product(ms[1..])
  }

  /** bind: a loop over the elements appending f(x) to the result.
      `applied` records the arguments f is called with, in order. */
  method Bind<A, B>(xs: seq<A>, f: A -> seq<B>) returns (r: seq<B>, ghost applied: seq<A>)
    ensures r == ConcatMap(xs, f)
    ensures applied == xs
  {
    r, applied := [], [];
    var i := 0;
    while i < |xs|
      invariant 0 <= i <= |xs|
      invariant r == ConcatMap(xs[..i], f)
      invariant applied == xs[..i]
    {
      var fx := f(xs[i]);
      applied := applied + [xs[i]];
      assert xs[..i + 1] == xs[..i] + [xs[i]];
      ConcatMapAppend(xs[..i], [xs[i]], f);
      assert ConcatMap([xs[i]], f) == fx by {
        assert [xs[i]][1..] == [];
      }
      r := r + fx;
      i := i + 1;
    }
    assert xs[..i] == xs;
  }

  /** fmap: a loop pushing f(x) for each element. */
  method Fmap<A, B>(xs: seq<A>, f: A -> B) returns (r: seq<B>)
    ensures r == Map(xs, f)
    ensures |r| == |xs|
    ensures forall i :: 0 <= i < |xs| ==> r[i] == f(xs[i])
  {
    r := [];
    var i := 0;
    while i < |xs|
      invariant 0 <= i <= |xs|
      invariant |r| == i
      invariant forall k :: 0 <= k < i ==> r[k] == f(xs[k])
    {
      r := r + [f(xs[i])];
      i := i + 1;
    }
  }

  // ---------------------------------------------------------------------
  // Properties of bind

  lemma {:induction false} ConcatMapAppend<A, B>(xs: seq<A>, ys: seq<A>, f: A -> seq<B>)
    ensures ConcatMap(xs + ys, f) == ConcatMap(xs, f) + ConcatMap(ys, f)
  {
    if xs == [] {
      assert xs + ys == ys;
    } else {
      assert (xs + ys)[0] == xs[0];
      assert (xs + ys)[1..] == xs[1..] + ys;
      ConcatMapAppend(xs[1..], ys, f);
    }
  }

  /** The result's length is the sum of the pieces' lengths. */
  lemma {:induction false} BindLength<A, B>(xs: seq<A>, f: A -> seq<B>)
    ensures |ConcatMap(xs, f)| == TotalLength(xs, f)
  {
    if xs != [] {
      BindLength(xs[1..], f);
    }
  }

  /** When every piece has length k, the result has |xs| * k elements. */
  lemma {:induction false} BindLengthUniform<A, B>(xs: seq<A>, f: A -> seq<B>, k: nat)
    requires forall j :: 0 <= j < |xs| ==> |f(xs[j])| == k
    ensures |ConcatMap(xs, f)| == |xs| * k
  {
    if xs != [] {
      BindLengthUniform(xs[1..], f, k);
      assert |xs| * k == k + (|xs| - 1) * k;
    }
  }

  /** Order: when every piece has length k, element i of the piece for xs[j]
      sits at position j * k + i. */
  lemma {:induction false} BindIndex<A, B>(xs: seq<A>, f: A -> seq<B>, k: nat, j: nat, i: nat)
    requires forall n :: 0 <= n < |xs| ==> |f(xs[n])| == k
    requires j < |xs| && i < k
    ensures j * k + i < |ConcatMap(xs, f)|
    ensures ConcatMap(xs, f)[j * k + i] == f(xs[j])[i]
  {
    BindLengthUniform(xs, f, k);
    if j == 0 {
      assert ConcatMap(xs, f) == f(xs[0]) + ConcatMap(xs[1..], f);
    } else {
      BindIndex(xs[1..], f, k, j - 1, i);
      assert j * k + i == k + ((j - 1) * k + i);
      assert ConcatMap(xs, f) == f(xs[0]) + ConcatMap(xs[1..], f);
    }
  }

  /** Membership: y is in the result iff it is in the piece of some element. */
  lemma {:induction false} BindMember<A, B>(xs: seq<A>, f: A -> seq<B>, y: B)
    ensures y in ConcatMap(xs, f) <==> exists j :: 0 <= j < |xs| && y in f(xs[j])
  {
    if xs != [] {
      BindMember(xs[1..], f, y);
      if y in ConcatMap(xs[1..], f) {
        var j :| 0 <= j < |xs[1..]| && y in f(xs[1..][j]);
        assert y in f(xs[j + 1]);
      }
      if exists j :: 0 <= j < |xs| && y in f(xs[j]) {
        var j :| 0 <= j < |xs| && y in f(xs[j]);
        if j > 0 {
          assert y in f(xs[1..][j - 1]);
        }
      }
    }
  }

  /** Left identity: bind of a one-element list is f of that element. */
  lemma LeftIdentity<A, B>(x: A, f: A -> seq<B>)
    ensures ConcatMap(Singleton(x), f) == f(x)
  {
    assert Singleton(x)[1..] == [];
  }

  /** Right identity: binding with the singleton constructor gives the list back. */
  lemma {:induction false} RightIdentity<T>(xs: seq<T>)
    ensures ConcatMap(xs, (x: T) => Singleton(x)) == xs
  {
    if xs != [] {
      RightIdentity(xs[1..]);
    }
  }

  /** Associativity of bind. */
  lemma {:induction false} Associativity<A, B, C>(xs: seq<A>, f: A -> seq<B>, g: B -> seq<C>)
    ensures ConcatMap(ConcatMap(xs, f), g) == ConcatMap(xs, (x: A) => ConcatMap(f(x), g))
  {
    if xs != [] {
      Associativity(xs[1..], f, g);
      ConcatMapAppend(f(xs[0]), ConcatMap(xs[1..], f), g);
    }
  }

  /** fmap is bind with a one-element continuation. */
  lemma {:induction false} FmapIsBind<A, B>(xs: seq<A>, f: A -> B)
    ensures Map(xs, f) == ConcatMap(xs, (x: A) => Singleton(f(x)))
  {
    if xs != [] {
      FmapIsBind(xs[1..], f);
    }
  }

  /** fmap(g, fmap(f, xs)) == fmap(g . f, xs). */
  lemma FmapCompose<A, B, C>(xs: seq<A>, f: A -> B, g: B -> C)
    ensures Map(Map(xs, f), g) == Map(xs, (x: A) => g(f(x)))
  {
  }

  /** bind is join after fmap. */
  lemma {:induction false} BindIsJoinOfFmap<A, B>(xs: seq<A>, f: A -> seq<B>)
    ensures ConcatMap(xs, f) == Join(Map(xs, f))
  {
    if xs != [] {
      BindIsJoinOfFmap(xs[1..], f);
      assert Map(xs, f)[1..] == Map(xs[1..], f);
    }
  }

  /** bind depends only on the results of f on the elements. */
  lemma {:induction false} BindCongruence<A, B>(xs: seq<A>, f: A -> seq<B>, g: A -> seq<B>)
    requires forall i :: 0 <= i < |xs| ==> f(xs[i]) == g(xs[i])
    ensures ConcatMap(xs, f) == ConcatMap(xs, g)
  {
    if xs != [] {
      BindCongruence(xs[1..], f, g);
    }
  }

  /** fmap distributes over bind. */
  lemma {:induction false} FmapOfBind<A, B, C>(xs: seq<A>, h: A -> seq<B>, g: B -> C)
    ensures Map(ConcatMap(xs, h), g) == ConcatMap(xs, (x: A) => Map(h(x), g))
  {
    if xs != [] {
      FmapOfBind(xs[1..], h, g);
      MapAppend(h(xs[0]), ConcatMap(xs[1..], h), g);
    }
  }

  lemma MapAppend<A, B>(xs: seq<A>, ys: seq<A>, g: A -> B)
    ensures Map(xs + ys, g) == Map(xs, g) + Map(ys, g)
  {
  }

  /** join concatenates the inner lists in order. */
  lemma JoinAppend<T>(xss: seq<seq<T>>, ys: seq<T>)
    ensures Join(xss + [ys]) == Join(xss) + ys
  {
    ConcatMapAppend(xss, [ys], (xs: seq<T>) => xs);
    assert [ys][1..] == [];
  }

  /** Appending one list multiplies the number of combinations by its length. */
  lemma {:induction false} ProductSnoc<T>(ms: seq<seq<T>>, m: seq<T>)
    ensures Product(ms + [m]) == Product(ms) * |m|
  {
    if ms == [] {
      assert (ms + [m])[1..] == [];
    } else {
      assert (ms + [m])[0] == ms[0];
      assert (ms + [m])[1..] == ms[1..] + [m];
      ProductSnoc(ms[1..], m);
      assert |ms[0]| * (Product(ms[1..]) * |m|) == (|ms[0]| * Product(ms[1..])) * |m|;
    }
  }

  // ---------------------------------------------------------------------
  // Constructors and state

  /** The state carries no information: all states are equal and the
      (storage, state) constructor keeps only the storage. */
  lemma StateCarriesNothing<T>(a: ListState, b: ListState, storage: seq<T>)
    ensures StateEquals(a, b) && a == b
    ensures FromStorage(storage, a) == storage
    ensures State(storage) == a
  {
  }

  /** Construction: the default list is empty; the element constructors keep
      the elements and their order. */
  lemma Constructors<T>(v: seq<T>, state: ListState)
    ensures Empty<T>() == []
    ensures |FromElements(v)| == |v| && forall i :: 0 <= i < |v| ==> FromElements(v)[i] == v[i]
    ensures FromStorage(v, state) == FromElements(v)
  {
  }

  /** The single-value constructor as written yields two elements for an
      int: `list<int>(5)` holds [1, 5], not [5]. */
  lemma SingleValueConstructorAsWritten()
    ensures FromValueAsWritten(5) == [1, 5]
    ensures |FromValueAsWritten(5)| != |Singleton(5)|
  {
  }

  /** The intended single-value constructor holds exactly its argument. */
  lemma SingletonHoldsValue<T>(t: T)
    ensures |Singleton(t)| == 1 && Singleton(t)[0] == t
    ensures Map(Singleton(t), (x: T) => x) == Singleton(t)
  {
  }
}
