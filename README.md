# valid-rs combinator engine, in Dafny

This project models the core of the Rust validation library `valid`. It covers three parts:

- **Errors** (`error.dfy`): the closed `Error` enum. `Multi` holds an ordered, nestable list of errors. `MinLen` and `MaxLen` carry a `usize` bound, modelled as the newtype `Usize` with the range of a 64-bit target (bound 2^64). `Display` renders every error as the empty string.
- **Types** (`types.dfy`): the `Validation` contract and its combinators.
  - A validator is a total function value `V -> Result`. A `Box<dyn Validation<V>>` is the same value, and a closure validator (`ValidationFn`, `validation`) delegates by function application.
  - `And` stops at the first failure.
  - `ValidationList` is a class whose `Push` appends. Its `Validate` runs every validator in a loop and collects the failures into `Multi`.
  - There are three `Container::validate_inner` loops: `Vec` (a `seq`), `BTreeMap` (key order) and `HashMap` (unspecified order). Each visits every element and aggregates the failures into `Multi`.
  - `ContainerValidator` runs the whole-container check first, then the element traversal.
  - `Valid` is the presence wrapper over `Option<S>`. It is a class, because `required` sets a flag in place.
- **Objects** (`object.dfy`, with the JSON value type in `json.dfy`): the schema adapter.
  - `Object` is a class holding the registered `(name, validator)` fields, which `Add` appends.
  - Validation looks each field up, reading a missing field as `null`. It decodes the value into the field's type, falling back to the type's default when decoding fails, and returns the first failing field's error.

Each loop (`ValidationList::validate`, the three `validate_inner`, the field loop of `Object`) is proved equal to a pure specification function. Those functions are `ListValidate`, `InnerSpec` and `ValidateFields`. Their meaning is proved as lemmas:

- the result is `Ok` exactly when every part passes;
- on failure the error is a non-empty `Multi` holding exactly the failing parts' errors, in order;
- a fail-fast combinator returns the first error unchanged and never consults what follows.

The specification functions are also what the function-valued views of these objects use (`AsValidation` on `ValidationList`, `Valid` and `Object`), so objects compose: a list can be an entry of another list, a wrapper is a validator of `Option<S>`, and a schema is itself a validator of JSON values.

`Display` writes nothing for any variant, so `Errors.Display` yields `""`. The model does not add a descriptive rendering that joins the members of a `Multi`, because the code has none.

## Model

| member | source | states |
|---|---|---|
| `Errors.Display` | src/error.rs:14-18 | rendering any error, nested `Multi` included, writes nothing: the text is empty and formatting cannot fail |
| `Types.ValidationDelegates` | src/types.rs:45-61 | a closure wrapped by `validation` gives exactly the closure's result on every value |
| `Types.FailuresAppend` | src/types.rs:76-80 | collected failures distribute over concatenation, so the errors of earlier validators precede those of later ones |
| `Types.FailuresEmptyIff` | src/types.rs:76-83 | nothing is collected exactly when every validator passed |
| `Types.FailuresMember` | src/types.rs:76-80 | an error is collected exactly when some validator failed with it; no error is added, dropped or wrapped |
| `Types.AggregateFailures` | src/types.rs:82-86 | the aggregate is `Ok` exactly when all pass, else `Multi` of the collected errors, never empty |
| `Types.AggregateNoEmptyMulti` | src/types.rs:82-86 | if every reported error is free of empty `Multi` nodes, so is the aggregate |
| `Types.ListValidateSpec` | src/types.rs:74-87 | a validator list is `Ok` iff every validator passes; otherwise `Err(Multi(es))` with `es` non-empty and exactly the failing validators' errors |
| `Types.ListValidatePush` | src/types.rs:67-87 | after a push, the list's errors are the earlier list's errors followed by the new validator's error, if any (push order) |
| `Types.ValidationList.constructor` | src/types.rs:63-64 | the default list holds no validators |
| `Types.ValidationList.Push` | src/types.rs:67-70 | appends exactly one validator at the end, earlier entries unchanged |
| `Types.ValidationList.Validate` | src/types.rs:74-87 | the loop runs every validator and returns the list specification's result: `Ok` iff all pass, else a non-empty `Multi` |
| `Types.ListView` | src/types.rs:73-88 | a list used as a validator in its own right validates against its current validators, as the list's own `validate` does |
| `Types.NestedList` | src/types.rs:73-88 | a list nested in another list contributes its own `Multi` as one entry after the outer errors, and the whole passes iff both lists pass |
| `Types.AndFailFast` | src/types.rs:101-105 | if `v1` fails with `e`, `And` returns exactly `Err(e)` for every second validator |
| `Types.AndPasses` | src/types.rs:101-107 | if `v1` passes, `And` returns exactly `v2`'s result |
| `Types.AndOkIff` | src/types.rs:101-107 | `And` passes iff both pass; its error is the first failing validator's |
| `Types.AndAssociative` | src/types.rs:31-40 | chaining `a.and(b).and(c)` gives the same result as `a.and(b.and(c))` |
| `Types.InnerSpecSpec` | src/types.rs:156-173 | element-wise validation is `Ok` iff every element passes; otherwise a non-empty `Multi` of exactly the element errors, with no index attached |
| `Types.InnerSpecAppend` | src/types.rs:158-167 | element errors are reported in element order: a prefix's errors come before the rest's |
| `Types.ValidateInnerVec` | src/types.rs:156-173 | the `Vec` loop visits every element without stopping and equals the element-wise specification |
| `Types.SortedKeys` | src/types.rs:136-141 | a `BTreeMap` iteration lists each key exactly once |
| `Types.SortedKeysAscending` | src/types.rs:136-141 | a `BTreeMap` iteration lists keys in strictly ascending order |
| `Types.InnerSpecOverKeys` | src/types.rs:116-153 | over any listing of all keys, map traversal is `Ok` iff every value passes, else a non-empty `Multi` |
| `Types.ValidateInnerBTree` | src/types.rs:136-153 | the `BTreeMap` loop validates every value in key order and equals the element-wise specification of the values in that order |
| `Types.ValidateInnerHash` | src/types.rs:116-133 | the `HashMap` loop validates every value once, in some order listing every key once; `Ok` iff every value passes, else a non-empty `Multi` |
| `Types.ContainerOuterFails` | src/types.rs:232-233 | a failing whole-container check is returned unchanged, whatever the element validator and traversal |
| `Types.ContainerOuterPasses` | src/types.rs:232-236 | when the whole-container check passes, the result is the element traversal's |
| `Types.ContainerVec` | src/types.rs:226-236 | over a `Vec`: `Ok` iff the outer check and every element pass; after a passing outer check, the failure is the `Multi` of the element errors |
| `Types.ValidOptionSpec` | src/types.rs:267-279 | present: the wrapped validator's result; absent and required: `Err(Required)`; absent and optional: `Ok` |
| `Types.Valid.constructor` | src/types.rs:246-255 | `new` wraps the validator with `required` false |
| `Types.Valid.Required` | src/types.rs:257-260 | sets `required` and leaves the validator unchanged |
| `Types.Valid.Validate` | src/types.rs:267-279 | validating an optional value follows the three presence cases |
| `Types.ValidView` | src/types.rs:290-297 | a wrapper used as a validator of `Option<S>` delegates to its own `validate`: the three presence cases with its current validator and flag |
| `Types.Valid.And` | src/types.rs:281-287 | a new wrapper with the same flag whose validator is the conjunction of the old one and `other` |
| `Objects.DecodeOptionSpec` | src/object.rs:59 | decoding into `Option<V>`: `null` is `None`, a decodable value is `Some`, anything else fails |
| `Objects.ValueValidator.Validate` | src/object.rs:58-61 | a decoded value is validated; when decoding fails the default value is validated instead |
| `Objects.ValueValidatorNoDecodeError` | src/object.rs:58-61 | a decode failure is never reported: if the inner validator accepts every value, every JSON value passes |
| `Objects.FieldsOkIff` | src/object.rs:28-35 | the fields pass iff every registered field passes on its looked-up value |
| `Objects.FieldsConcat` | src/object.rs:29-33 | fields run in registration order; once a field fails, later fields are not consulted |
| `Objects.FieldsFirstFailure` | src/object.rs:29-33 | when the fields before `i` pass and field `i` fails, that field's error is the result, unchanged |
| `Objects.MissingKeyIsNull` | src/object.rs:30 | a missing key gives the same result as a key bound to `null` |
| `Objects.UnregisteredKeyIgnored` | src/object.rs:29-31 | members whose names are not registered do not affect the result |
| `Objects.ValidateValueSpec` | src/object.rs:38-45 | a non-object fails with `Required`; an object is checked by its fields; an object with no fields passes |
| `Objects.RequiredFieldMissing` | src/object.rs:16-31 | a field registered with a required presence wrapper fails with exactly `Required` when its key is missing |
| `Objects.Object.constructor` | src/object.rs:5-8 | the default schema has no fields |
| `Objects.Object.Add` | src/object.rs:11-24 | appends one field with the given name, whose validator decodes into `Option<V>` (default `None`) and applies `value`; earlier fields unchanged |
| `Objects.Object.ValidateMap` | src/object.rs:27-36 | the field loop with early exit equals the fields specification: `Ok` iff every field passes |
| `Objects.Object.Validate` | src/object.rs:38-46 | a non-object gives `Err(Required)`; an object is checked by the field loop |
| `Objects.Object.AsValidation` | src/object.rs:38-46 | the schema as a validator of JSON values gives, on every value, the result of the schema's specification over its current fields |

## Left out

- The leaf rules `Min`, `Max`, `MinLen`, `MaxLen` and `All` are not part of this model. src/validators.rs is not part of this model either. Leaves are arbitrary validator function values, so the concrete scenarios in the tests are not reproduced.
- serde_json deserialization is a foreign library. Decoding into a field's type is a parameter `decode: Value -> Option<V>` that may fail. Decoding into `Option<V>` follows serde's rule (`null` is `None`, anything else decodes into `V`). The default of `Option<V>` is `None`.
- `Error::Other` wraps a `Box<dyn std::error::Error>`. The model keeps only its description string.
- JSON numbers are integers. Floating-point numbers are not modelled.
- `Types.SortedKeys`: `BTreeMap` keys are integers ordered numerically. General `Ord` key types are not modelled.
- `Types.ValidateInnerHash`: the iteration order of a `HashMap` is unspecified. The model picks keys in an arbitrary order and states only that every key is visited once.
- `Types.ContainerValidator.Validate` takes the element traversal as a parameter. This stands in for the `Container` trait bound. Traversal functions exist for `Vec` and `BTreeMap`. None exists for `HashMap`, because its order is not a function of the map.
- `boxed()`, `PhantomData` and the `'static` bounds are type plumbing. A boxed validator is the validator itself.
- `Valid::validate` accepts anything convertible into `Option<&S>`. The model takes an `Option<S>`.
- Validators hold no mutable state, so building a combinator twice and validating twice trivially gives the same result. No lemma states this.
- The commented-out `Container` impls (src/types.rs:176-208) are dead code.
- Rust's `usize` has the platform's pointer width; the model fixes it at 64 bits.
- Concurrency (`Send`/`Sync`) does not apply to the code modelled.
