/** The validation contract and its combinators (src/types.rs). */
module Types {
  import opened Errors

  /** `Result<(), Error>`: the outcome of one validation. */
  datatype Result = Ok | Err(error: Error)

  /** Rust's `Option`, used for present/absent values and for a decode that may fail. */
  datatype Option<T> = None | Some(value: T)

  /* `Validation<V>` is the single operation `validate : &V -> Result<(), Error>`.  A
     validator is modelled as the total function value `V -> Result`; a boxed validator
     (`Box<dyn Validation<V>>`) is the same value, and validating through the box is
     function application. */

  // ---------------------------------------------------------------------------
  // Closure validators: `ValidationFn` and `validation`
  // ---------------------------------------------------------------------------

  /** A validator built from a closure; validating calls the closure. */
  datatype ValidationFn<!T> = ValidationFn(f: T -> Result) {
    function Validate(value: T): Result {
      f(value)
    }
  }

  /** `validation(cb)`: wraps a closure as a validator that agrees with it everywhere. */
  function ValidationOf<S>(cb: S -> Result): S -> Result {
    x => ValidationFn(cb).Validate(x)
  }

  /** Validating through `validation(cb)` gives exactly the closure's result. */
  lemma ValidationDelegates<S>(cb: S -> Result, value: S)
    ensures ValidationOf(cb)(value) == cb(value)
  {
  }

  // ---------------------------------------------------------------------------
  // Aggregation of failures
  // ---------------------------------------------------------------------------

  /** The error of one result, as a list of zero or one entries. */
  function ErrorsOf(r: Result): seq<Error> {
    if r.Err? then [r.error] else []
  }

  /** The errors of the failing results, in order; successes contribute nothing. */
  function Failures(rs: seq<Result>): seq<Error> {
    if rs == [] then [] else ErrorsOf(rs[0]) + Failures(rs[1..])
  }

  /** Success when nothing failed, otherwise one `Multi` holding every failure. */
  function Aggregate(es: seq<Error>): Result {
    if es == [] then Ok else Err(Multi(es))
  }

  /** Collecting failures distributes over concatenation: the failures of an earlier run
      come first, and each run contributes exactly its own. */
  lemma {:induction false} FailuresAppend(a: seq<Result>, b: seq<Result>)
    ensures Failures(a + b) == Failures(a) + Failures(b)
  {
    if a == [] {
      assert a + b == b;
    } else {
      assert (a + b)[1..] == a[1..] + b;
      FailuresAppend(a[1..], b);
    }
  }

  /** Nothing is collected exactly when every result is a success. */
  lemma {:induction false} FailuresEmptyIff(rs: seq<Result>)
    ensures Failures(rs) == [] <==> forall i :: 0 <= i < |rs| ==> rs[i].Ok?
  {
    if rs != [] {
      FailuresEmptyIff(rs[1..]);
      assert forall i :: 1 <= i < |rs| ==> rs[i] == rs[1..][i - 1];
    }
  }

  /** An error is collected exactly when some result failed with it: nothing is added,
      dropped or wrapped with a position. */
  lemma {:induction false} FailuresMember(rs: seq<Result>, e: Error)
    ensures e in Failures(rs) <==> exists i :: 0 <= i < |rs| && rs[i] == Err(e)
  {
    if rs != [] {
      FailuresMember(rs[1..], e);
      if e in Failures(rs[1..]) {
        var i :| 0 <= i < |rs[1..]| && rs[1..][i] == Err(e);
        assert rs[i + 1] == Err(e);
      }
      if exists i :: 0 <= i < |rs| && rs[i] == Err(e) {
        var i :| 0 <= i < |rs| && rs[i] == Err(e);
        if i > 0 {
          assert rs[1..][i - 1] == Err(e);
        }
      }
    }
  }

  /** The aggregate of a run: `Ok` exactly when every result is `Ok`; otherwise a
      non-empty `Multi` of exactly the failures, with no entry for a success. */
  lemma AggregateFailures(rs: seq<Result>)
    ensures Aggregate(Failures(rs)).Ok? <==> forall i :: 0 <= i < |rs| ==> rs[i].Ok?
    ensures Aggregate(Failures(rs)).Err? ==>
      Aggregate(Failures(rs)) == Err(Multi(Failures(rs))) && |Failures(rs)| > 0
  {
    FailuresEmptyIff(rs);
  }

  /** If every failing result carries a well-formed error, so does their aggregate: the
      aggregate never contains an empty `Multi`. */
  lemma {:induction false} AggregateNoEmptyMulti(rs: seq<Result>)
    requires forall i :: 0 <= i < |rs| && rs[i].Err? ==> NoEmptyMulti(rs[i].error)
    ensures Aggregate(Failures(rs)).Err? ==> NoEmptyMulti(Aggregate(Failures(rs)).error)
  {
    forall e | e in Failures(rs)
      ensures NoEmptyMulti(e)
    {
      FailuresMember(rs, e);
    }
  }

  // ---------------------------------------------------------------------------
  // ValidationList: every validator runs, every failure is kept
  // ---------------------------------------------------------------------------

  /** The results of applying each validator to one value, in order. */
  function Apply<V>(vs: seq<V -> Result>, value: V): (rs: seq<Result>)
    ensures |rs| == |vs| && forall i :: 0 <= i < |vs| ==> rs[i] == vs[i](value)
  {
    seq(|vs|, i requires 0 <= i < |vs| => vs[i](value))
  }

  /** What validating a value against an ordered list of validators yields. */
  function ListValidate<V>(vs: seq<V -> Result>, value: V): Result {
    Aggregate(Failures(Apply(vs, value)))
  }

  /** The list passes exactly when every validator passes; otherwise it fails with a
      non-empty `Multi` whose entries are exactly the failing validators' errors. */
  lemma ListValidateSpec<V>(vs: seq<V -> Result>, value: V)
    ensures ListValidate(vs, value).Ok? <==> forall i :: 0 <= i < |vs| ==> vs[i](value).Ok?
    ensures ListValidate(vs, value).Err? ==>
      && ListValidate(vs, value) == Err(Multi(Failures(Apply(vs, value))))
      && |Failures(Apply(vs, value))| > 0
      && forall e :: e in Failures(Apply(vs, value)) <==>
           exists i :: 0 <= i < |vs| && vs[i](value) == Err(e)
  {
    var rs := Apply(vs, value);
    AggregateFailures(rs);
    forall e {
      FailuresMember(rs, e);
    }
  }

  /** Pushing a validator appends its failure, if any, after the earlier ones: the errors
      come out in push order. */
  lemma ListValidatePush<V>(vs: seq<V -> Result>, v: V -> Result, value: V)
    ensures Failures(Apply(vs + [v], value)) == Failures(Apply(vs, value)) + ErrorsOf(v(value))
  {
    assert Apply(vs + [v], value) == Apply(vs, value) + [v(value)];
    FailuresAppend(Apply(vs, value), [v(value)]);
  }

  /** `ValidationList<V>`: an append-only list of boxed validators over one value type. */
  class ValidationList<V> {
    var validators: seq<V -> Result>

    /** `ValidationList::default()`: the empty list. */
    constructor ()
      ensures validators == []
    {
      validators := [];
    }

    /** Appends one validator at the end; the earlier entries are unchanged. */
    method Push(v: V -> Result)
      modifies this
      ensures validators == old(validators) + [v]
    {
      validators := validators + [v];
    }

    /** Runs every validator on `value`, collecting each failure in order. */
    method Validate(value: V) returns (r: Result)
      ensures r == ListValidate(validators, value)
      ensures r.Ok? <==> forall i :: 0 <= i < |validators| ==> validators[i](value).Ok?
      ensures r.Err? ==> r.error.Multi? && |r.error.errors| > 0
    {
      var errors: seq<Error> := [];
      for i := 0 to |validators|
        invariant errors == Failures(Apply(validators[..i], value))
      {
        var res := validators[i](value);
        if res.Err? {
          errors := errors + [res.error];
        }
        assert validators[..i + 1] == validators[..i] + [validators[i]];
        ListValidatePush(validators[..i], validators[i], value);
      }
      assert validators[..|validators|] == validators;
      if errors == [] {
        r := Ok;
      } else {
        r := Err(Multi(errors));
      }
      ListValidateSpec(validators, value);
    }

    /** `impl Validation<V> for ValidationList<V>`: the list, as it stands now, as a
        validator in its own right. */
    function AsValidation(): V -> Result
      reads this
    {
      var vs := validators;
      x => ListValidate(vs, x)
    }
  }

  /** Validating through a list's view is validating against its current validators. */
  lemma ListView<V>(l: ValidationList<V>, value: V)
    ensures l.AsValidation()(value) == ListValidate(l.validators, value)
  {
  }

  /** A list's view nests inside another list: the nested list contributes one entry,
      its own `Multi`, after the outer errors, and the whole passes exactly when both
      lists pass. */
  lemma NestedList<V>(l: ValidationList<V>, outer: seq<V -> Result>, value: V)
    ensures Failures(Apply(outer + [l.AsValidation()], value))
         == Failures(Apply(outer, value)) + ErrorsOf(ListValidate(l.validators, value))
    ensures ListValidate(outer + [l.AsValidation()], value).Ok? <==>
      ListValidate(outer, value).Ok? && ListValidate(l.validators, value).Ok?
  {
    ListValidatePush(outer, l.AsValidation(), value);
    FailuresEmptyIff(Apply(outer, value));
    FailuresEmptyIff(Apply(outer + [l.AsValidation()], value));
  }

  // ---------------------------------------------------------------------------
  // And: stop at the first failure
  // ---------------------------------------------------------------------------

  /** `v1.and(v2)`: runs `v1`, and `v2` only when `v1` passes. */
  datatype And<!V> = And(v1: V -> Result, v2: V -> Result) {
    function Validate(value: V): Result {
      match v1(value)
      case Err(e) => Err(e)
      case Ok => v2(value)
    }

    /** The conjunction as a validator in its own right. */
    function AsValidation(): V -> Result {
      x => Validate(x)
    }
  }

  /** `ValidationExt::and`: the conjunction of two validators, as a validator. */
  function Conjoin<V>(v1: V -> Result, v2: V -> Result): V -> Result {
    And(v1, v2).AsValidation()
  }

  /** When `v1` fails with `e`, the conjunction fails with exactly `e`, whatever the
      second validator is. */
  lemma AndFailFast<V>(v1: V -> Result, value: V, e: Error)
    requires v1(value) == Err(e)
    ensures forall v2: V -> Result :: And(v1, v2).Validate(value) == Err(e)
  {
  }

  /** When `v1` passes, the conjunction is exactly `v2`'s result. */
  lemma AndPasses<V>(v1: V -> Result, v2: V -> Result, value: V)
    requires v1(value).Ok?
    ensures And(v1, v2).Validate(value) == v2(value)
  {
  }

  /** The conjunction passes exactly when both validators pass; when it fails, its
      error is the error of the first validator that failed. */
  lemma AndOkIff<V>(v1: V -> Result, v2: V -> Result, value: V)
    ensures And(v1, v2).Validate(value).Ok? <==> v1(value).Ok? && v2(value).Ok?
    ensures And(v1, v2).Validate(value).Err? ==>
      And(v1, v2).Validate(value) == (if v1(value).Err? then v1(value) else v2(value))
  {
  }

  /** Left-nested chains `a.and(b).and(c)` mean the same as `a.and(b.and(c))`. */
  lemma AndAssociative<V>(a: V -> Result, b: V -> Result, c: V -> Result, value: V)
    ensures And(And(a, b).AsValidation(), c).Validate(value)
         == And(a, And(b, c).AsValidation()).Validate(value)
  {
  }

  // ---------------------------------------------------------------------------
  // Container traversal: `Container::validate_inner`
  // ---------------------------------------------------------------------------

  /** The results of one validator on each element, in order. */
  function MapResults<E>(validator: E -> Result, xs: seq<E>): (rs: seq<Result>)
    ensures |rs| == |xs| && forall i :: 0 <= i < |xs| ==> rs[i] == validator(xs[i])
  {
    seq(|xs|, i requires 0 <= i < |xs| => validator(xs[i]))
  }

  /** What element-wise validation of a sequence of elements yields. */
  function InnerSpec<E>(validator: E -> Result, xs: seq<E>): Result {
    Aggregate(Failures(MapResults(validator, xs)))
  }

  /** Element-wise validation passes exactly when every element passes; otherwise it is
      a non-empty `Multi` of exactly the elements' errors, one per failing element, in
      element order, with no index or key attached. */
  lemma InnerSpecSpec<E>(validator: E -> Result, xs: seq<E>)
    ensures InnerSpec(validator, xs).Ok? <==> forall i :: 0 <= i < |xs| ==> validator(xs[i]).Ok?
    ensures InnerSpec(validator, xs).Err? ==>
      && InnerSpec(validator, xs) == Err(Multi(Failures(MapResults(validator, xs))))
      && |Failures(MapResults(validator, xs))| > 0
      && forall e :: e in Failures(MapResults(validator, xs)) <==>
           exists i :: 0 <= i < |xs| && validator(xs[i]) == Err(e)
  {
    var rs := MapResults(validator, xs);
    AggregateFailures(rs);
    forall e {
      FailuresMember(rs, e);
    }
  }

  /** Element failures are reported in element order: the failures of a prefix come
      before those of the rest. */
  lemma InnerSpecAppend<E>(validator: E -> Result, xs: seq<E>, ys: seq<E>)
    ensures Failures(MapResults(validator, xs + ys))
         == Failures(MapResults(validator, xs)) + Failures(MapResults(validator, ys))
  {
    assert MapResults(validator, xs + ys) == MapResults(validator, xs) + MapResults(validator, ys);
    FailuresAppend(MapResults(validator, xs), MapResults(validator, ys));
  }

  /** `Container for Vec<V>`: validates every element, in order, without stopping. */
  method ValidateInnerVec<E>(xs: seq<E>, validator: E -> Result) returns (r: Result)
    ensures r == InnerSpec(validator, xs)
    ensures r.Ok? <==> forall i :: 0 <= i < |xs| ==> validator(xs[i]).Ok?
    ensures r.Err? ==> r.error.Multi? && |r.error.errors| > 0
  {
    var errors: seq<Error> := [];
    for i := 0 to |xs|
      invariant errors == Failures(MapResults(validator, xs[..i]))
    {
      match validator(xs[i]) {
        case Ok =>
        case Err(err) =>
          errors := errors + [err];
      }
      assert xs[..i + 1] == xs[..i] + [xs[i]];
      InnerSpecAppend(validator, xs[..i], [xs[i]]);
    }
    assert xs[..|xs|] == xs;
    if errors == [] {
      r := Ok;
    } else {
      r := Err(Multi(errors));
    }
    InnerSpecSpec(validator, xs);
  }

  /** The smallest key of a non-empty key set. */
  function SetMin(s: set<int>): (k: int)
    requires s != {}
    ensures k in s && forall y :: y in s ==> k <= y
  {
    SetMinExists(s);
    var k :| k in s && forall y :: y in s ==> k <= y;
    k
  }

  /** A non-empty set of integers has a member.  Stated on its own because the verifier
      does not find a witness for `:|` over `set<int>` from `s != {}` alone. */
  lemma IntSetHasMember(s: set<int>)
    requires s != {}
    ensures exists x :: x in s
  {
    if forall x :: x !in s {
      assert false;
    }
  }

  lemma {:induction false} SetMinExists(s: set<int>)
    requires s != {}
    ensures exists k :: k in s && forall y :: y in s ==> k <= y
    decreases |s|
  {
    IntSetHasMember(s);
    var x :| x in s;
    if s != {x} {
      SetMinExists(s - {x});
      var m :| m in s - {x} && forall y :: y in s - {x} ==> m <= y;
      var k := if x < m then x else m;
      forall y | y in s
        ensures k <= y
      {
        if y != x {
          assert y in s - {x};
        }
      }
    }
  }

  /** The keys of a `BTreeMap`, in ascending order: each key exactly once. */
  function SortedKeys(s: set<int>): (ks: seq<int>)
    ensures |ks| == |s|
    ensures forall k :: k in ks <==> k in s
    decreases |s|
  {
    if s == {} then []
    else
      var k := SetMin(s);
      [k] + SortedKeys(s - {k})
  }

  /** `SortedKeys` lists the keys in strictly ascending order. */
  lemma {:induction false} SortedKeysAscending(s: set<int>)
    ensures forall i, j :: 0 <= i < j < |SortedKeys(s)| ==> SortedKeys(s)[i] < SortedKeys(s)[j]
    decreases |s|
  {
    if s != {} {
      var k := SetMin(s);
      var rest := SortedKeys(s - {k});
      SortedKeysAscending(s - {k});
      assert SortedKeys(s) == [k] + rest;
      forall i, j | 0 <= i < j < |SortedKeys(s)|
        ensures SortedKeys(s)[i] < SortedKeys(s)[j]
      {
        if i == 0 {
          assert rest[j - 1] in s - {k};
        } else {
          assert SortedKeys(s)[i] == rest[i - 1] && SortedKeys(s)[j] == rest[j - 1];
        }
      }
    }
  }

  /** The values bound to a list of keys, in that order. */
  function ValuesAt<K, E>(m: map<K, E>, order: seq<K>): (vs: seq<E>)
    requires forall k :: k in order ==> k in m
    ensures |vs| == |order| && forall i :: 0 <= i < |order| ==> vs[i] == m[order[i]]
  {
    seq(|order|, i requires 0 <= i < |order| => m[order[i]])
  }

  /** Over a listing of every key, the values all pass exactly when every value of the
      map passes. */
  lemma ValuesAtAllOk<K, E>(m: map<K, E>, order: seq<K>, validator: E -> Result)
    requires forall k :: k in order <==> k in m
    ensures (forall i :: 0 <= i < |order| ==> validator(ValuesAt(m, order)[i]).Ok?)
        <==> (forall k :: k in m ==> validator(m[k]).Ok?)
  {
    if forall i :: 0 <= i < |order| ==> validator(ValuesAt(m, order)[i]).Ok? {
      forall k | k in m
        ensures validator(m[k]).Ok?
      {
        var i :| 0 <= i < |order| && order[i] == k;
        assert ValuesAt(m, order)[i] == m[k];
      }
    }
  }

  /** Element-wise validation over a listing of every key of a map passes exactly when
      every value passes, and otherwise fails with a non-empty `Multi`. */
  lemma InnerSpecOverKeys<K, E>(m: map<K, E>, order: seq<K>, validator: E -> Result)
    requires forall k :: k in order <==> k in m
    ensures InnerSpec(validator, ValuesAt(m, order)).Ok? <==> forall k :: k in m ==> validator(m[k]).Ok?
    ensures InnerSpec(validator, ValuesAt(m, order)).Err? ==>
      InnerSpec(validator, ValuesAt(m, order)).error.Multi? &&
      |InnerSpec(validator, ValuesAt(m, order)).error.errors| > 0
  {
    InnerSpecSpec(validator, ValuesAt(m, order));
    ValuesAtAllOk(m, order, validator);
  }

  /** The values of a `BTreeMap` in its iteration order, that of ascending keys. */
  function ValuesInKeyOrder<E>(m: map<int, E>): seq<E> {
    ValuesAt(m, SortedKeys(m.Keys))
  }

  /** `Container for BTreeMap<K, V>`: validates every value, in ascending key order,
      without stopping; keys are not reported. */
  method ValidateInnerBTree<E>(m: map<int, E>, validator: E -> Result) returns (r: Result)
    ensures r == InnerSpec(validator, ValuesInKeyOrder(m))
    ensures r.Ok? <==> forall k :: k in m ==> validator(m[k]).Ok?
    ensures r.Err? ==> r.error.Multi? && |r.error.errors| > 0
  {
    var keys := SortedKeys(m.Keys);
    ghost var values := ValuesAt(m, keys);
    var errors: seq<Error> := [];
    for i := 0 to |keys|
      invariant errors == Failures(MapResults(validator, values[..i]))
    {
      assert keys[i] in m && values[i] == m[keys[i]];
      match validator(m[keys[i]]) {
        case Ok =>
        case Err(err) =>
          errors := errors + [err];
      }
      assert values[..i + 1] == values[..i] + [values[i]];
      InnerSpecAppend(validator, values[..i], [values[i]]);
    }
    assert values[..|keys|] == values;
    if errors == [] {
      r := Ok;
    } else {
      r := Err(Multi(errors));
    }
    InnerSpecOverKeys(m, keys, validator);
  }

  /** `Container for HashMap<K, V>`: validates every value, in the map's iteration order,
      without stopping.  That order is unspecified: it is chosen here arbitrarily and
      returned only as the ghost `order`, a listing of every key exactly once. */
  method ValidateInnerHash<K, E>(m: map<K, E>, validator: E -> Result)
    returns (r: Result, ghost order: seq<K>)
    ensures |order| == |m|
    ensures forall k :: k in order <==> k in m
    ensures forall i, j :: 0 <= i < j < |order| ==> order[i] != order[j]
    ensures r == InnerSpec(validator, ValuesAt(m, order))
    ensures r.Ok? <==> forall k :: k in m ==> validator(m[k]).Ok?
    ensures r.Err? ==> r.error.Multi? && |r.error.errors| > 0
  {
    var remaining := m.Keys;
    var errors: seq<Error> := [];
    order := [];
    while remaining != {}
      invariant remaining <= m.Keys
      invariant forall k :: k in order <==> k in m && k !in remaining
      invariant forall i, j :: 0 <= i < j < |order| ==> order[i] != order[j]
      invariant |order| + |remaining| == |m.Keys|
      invariant errors == Failures(MapResults(validator, ValuesAt(m, order)))
      decreases remaining
    {
      var k :| k in remaining;
      match validator(m[k]) {
        case Ok =>
        case Err(err) =>
          errors := errors + [err];
      }
      assert ValuesAt(m, order + [k]) == ValuesAt(m, order) + [m[k]];
      InnerSpecAppend(validator, ValuesAt(m, order), [m[k]]);
      order := order + [k];
      remaining := remaining - {k};
    }
    if errors == [] {
      r := Ok;
    } else {
      r := Err(Multi(errors));
    }
    InnerSpecOverKeys(m, order, validator);
  }

  // ---------------------------------------------------------------------------
  // ContainerValidator: whole container first, then every element
  // ---------------------------------------------------------------------------

  /** The `Container` capability of a collection type `C` with elements `E`: validate
      every element with a given validator. */
  type Traversal<!C, !E> = (C, E -> Result) -> Result

  /** `Container for Vec<V>` as a traversal. */
  function VecTraversal<E>(): Traversal<seq<E>, E> {
    (xs: seq<E>, v: E -> Result) => InnerSpec(v, xs)
  }

  /** `Container for BTreeMap<K, V>` as a traversal. */
  function BTreeTraversal<E>(): Traversal<map<int, E>, E> {
    (m: map<int, E>, v: E -> Result) => InnerSpec(v, ValuesInKeyOrder(m))
  }

  /** `ContainerValidator::new(v1, v2)` (also `v1.inner(v2)`): `v1` checks the whole
      container, `v2` each element. */
  datatype ContainerValidator<!C, !E> = ContainerValidator(v1: C -> Result, v2: E -> Result) {
    /** Validates `container`, whose element traversal is `traverse`. */
    function Validate(container: C, traverse: Traversal<C, E>): Result {
      match v1(container)
      case Err(e) => Err(e)
      case Ok =>
        match traverse(container, v2)
        case Err(e) => Err(e)
        case Ok => Ok
    }
  }

  /** A failing outer check is returned unchanged, and the element validator is never
      applied: the result is the same for every traversal and every element validator. */
  lemma ContainerOuterFails<C, E>(v1: C -> Result, container: C, e: Error)
    requires v1(container) == Err(e)
    ensures forall v2: E -> Result, t: Traversal<C, E> ::
      ContainerValidator(v1, v2).Validate(container, t) == Err(e)
  {
  }

  /** When the outer check passes, the result is the element traversal's. */
  lemma ContainerOuterPasses<C, E>(cv: ContainerValidator<C, E>, container: C, t: Traversal<C, E>)
    requires cv.v1(container).Ok?
    ensures cv.Validate(container, t) == t(container, cv.v2)
  {
  }

  /** Over a `Vec`: passes exactly when the outer check and every element pass; with a
      passing outer check, a failure is the non-empty `Multi` of the element errors. */
  lemma ContainerVec<E>(cv: ContainerValidator<seq<E>, E>, xs: seq<E>)
    ensures cv.Validate(xs, VecTraversal()).Ok? <==>
      cv.v1(xs).Ok? && forall i :: 0 <= i < |xs| ==> cv.v2(xs[i]).Ok?
    ensures cv.v1(xs).Ok? && cv.Validate(xs, VecTraversal()).Err? ==>
      cv.Validate(xs, VecTraversal()) == Err(Multi(Failures(MapResults(cv.v2, xs))))
  {
    InnerSpecSpec(cv.v2, xs);
  }

  // ---------------------------------------------------------------------------
  // Valid: the presence wrapper over an optional value
  // ---------------------------------------------------------------------------

  /** What `Valid` yields on an optional value: a present value is checked by the wrapped
      validator; an absent one fails with `Required` only when the flag is set. */
  function ValidOption<S>(validator: S -> Result, required: bool, value: Option<S>): Result {
    match value
    case Some(s) => validator(s)
    case None => if required then Err(Required) else Ok
  }

  /** The three cases of the presence wrapper. */
  lemma ValidOptionSpec<S>(validator: S -> Result, required: bool, value: Option<S>)
    ensures value.Some? ==> ValidOption(validator, required, value) == validator(value.value)
    ensures value.None? && required ==> ValidOption(validator, required, value) == Err(Required)
    ensures value.None? && !required ==> ValidOption(validator, required, value) == Ok
    ensures ValidOption(validator, required, value).Err? ==>
      value.Some? || ValidOption(validator, required, value) == Err(Required)
  {
  }

  /** `Valid<V, S>`: a validator of `S` lifted to `Option<S>`. */
  class Valid<S> {
    var validator: S -> Result
    var required: bool

    /** `Valid::new`: wraps `validator`, not required. */
    constructor (validator: S -> Result)
      ensures this.validator == validator && !required
    {
      this.validator := validator;
      required := false;
    }

    /** `Valid::required`: sets the flag and nothing else. */
    method Required()
      modifies this
      ensures required && validator == old(validator)
    {
      required := true;
    }

    /** `Valid::validate`. */
    function Validate(value: Option<S>): (r: Result)
      reads this
      ensures value.Some? ==> r == validator(value.value)
      ensures value.None? ==> r == if required then Err(Error.Required) else Ok
    {
      ValidOption(validator, required, value)
    }

    /** The wrapper as a validator of `Option<S>`, as it stands now. */
    function AsValidation(): Option<S> -> Result
      reads this
    {
      var validator, required := this.validator, this.required;
      o => ValidOption(validator, required, o)
    }

    /** `Valid::and`: a new wrapper with the same flag whose validator is the
        conjunction of the old one with `other`. */
    method And(other: S -> Result) returns (w: Valid<S>)
      ensures fresh(w)
      ensures w.required == required
      ensures forall s :: w.validator(s) == Conjoin(validator, other)(s)
      ensures forall s :: w.validator(s) == if validator(s).Err? then validator(s) else other(s)
    {
      w := new Valid(Conjoin(validator, other));
      w.required := required;
    }
  }

  /** Validating through a wrapper's view follows the three presence cases with the
      wrapper's current validator and flag. */
  lemma ValidView<S>(w: Valid<S>, value: Option<S>)
    ensures w.AsValidation()(value) == ValidOption(w.validator, w.required, value)
    ensures w.AsValidation()(value) == w.Validate(value)
  {
  }
}
