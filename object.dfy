/** The schema adapter: named fields of a JSON object, each decoded into its expected
    type and checked by its own validator (src/object.rs). */
module Objects {
  import opened Errors
  import opened Types
  import J = JsonValue

  // ---------------------------------------------------------------------------
  // Decoding a field: `serde_json::from_value(..).unwrap_or_default()`
  // ---------------------------------------------------------------------------

  /** Decoding into `Option<V>`: `null` is `None`, any other value is `Some` of its
      decoding into `V`, and the whole decode fails when that one does. */
  function DecodeOption<V>(decode: J.Value -> Option<V>): J.Value -> Option<Option<V>> {
    (j: J.Value) => if j.Null? then Some(None) else
         match decode(j)
         case Some(v) => Some(Some(v))
         case None => None
  }

  /** The three outcomes of decoding into `Option<V>`. */
  lemma DecodeOptionSpec<V>(decode: J.Value -> Option<V>, j: J.Value)
    ensures j.Null? ==> DecodeOption(decode)(j) == Some(None)
    ensures !j.Null? && decode(j).Some? ==> DecodeOption(decode)(j) == Some(Some(decode(j).value))
    ensures !j.Null? && decode(j).None? ==> DecodeOption(decode)(j) == None
  {
  }

  /** `ValueValidator<V, S>`: decodes a JSON value into `S` and validates the result;
      when decoding fails, the default value of `S` is validated instead. */
  datatype ValueValidator<!S> = ValueValidator(v: S -> Result, decode: J.Value -> Option<S>, defaultValue: S) {
    function Validate(val: J.Value): (r: Result)
      ensures decode(val).Some? ==> r == v(decode(val).value)
      ensures decode(val).None? ==> r == v(defaultValue)
    {
      v(match decode(val) case Some(s) => s case None => defaultValue)
    }

    /** The value validator as a validator of JSON values. */
    function AsValidation(): J.Value -> Result {
      j => Validate(j)
    }
  }

  /** A decode failure is never reported as such: a value validator whose inner
      validator accepts every value of `S` accepts every JSON value, even one that does
      not decode. */
  lemma ValueValidatorNoDecodeError<S(!new)>(vv: ValueValidator<S>, val: J.Value)
    requires forall s :: vv.v(s).Ok?
    ensures vv.Validate(val).Ok?
  {
    var s := if vv.decode(val).Some? then vv.decode(val).value else vv.defaultValue;
    assert vv.Validate(val) == vv.v(s);
  }

  // ---------------------------------------------------------------------------
  // Validating the fields of a JSON object
  // ---------------------------------------------------------------------------

  /** One registered field: its name and the validator of its (looked-up) value. */
  datatype Field = Field(key: string, validator: J.Value -> Result)

  /** Looks a field up by name; a missing field reads as `null`. */
  function Lookup(members: map<string, J.Value>, key: string): J.Value {
    if key in members then members[key] else J.Null
  }

  /** What the fields yield on an object's members: the first failing field's error, in
      registration order, or success when every field passes. */
  function ValidateFields(fields: seq<Field>, members: map<string, J.Value>): Result {
    if fields == [] then Ok
    else
      match fields[0].validator(Lookup(members, fields[0].key))
      case Err(e) => Err(e)
      case Ok => ValidateFields(fields[1..], members)
  }

  /** What the fields yield on any JSON value: a non-object fails with `Required`. */
  function ValidateValue(fields: seq<Field>, value: J.Value): Result {
    if value.Object? then ValidateFields(fields, value.members) else Err(Required)
  }

  /** The fields pass exactly when every registered field passes on its looked-up value. */
  lemma {:induction false} FieldsOkIff(fields: seq<Field>, members: map<string, J.Value>)
    ensures ValidateFields(fields, members).Ok? <==>
      forall i :: 0 <= i < |fields| ==> fields[i].validator(Lookup(members, fields[i].key)).Ok?
  {
    if fields != [] {
      FieldsOkIff(fields[1..], members);
      assert forall i :: 1 <= i < |fields| ==> fields[i] == fields[1..][i - 1];
    }
  }

  /** Fields are checked in order and the first failure stops the check: the fields
      registered after a failing group are never consulted. */
  lemma {:induction false} FieldsConcat(a: seq<Field>, b: seq<Field>, members: map<string, J.Value>)
    ensures ValidateFields(a + b, members) ==
      if ValidateFields(a, members).Err? then ValidateFields(a, members) else ValidateFields(b, members)
  {
    if a == [] {
      assert a + b == b;
    } else {
      assert (a + b)[0] == a[0];
      assert (a + b)[1..] == a[1..] + b;
      FieldsConcat(a[1..], b, members);
    }
  }

  /** When every field before `i` passes and field `i` fails, that field's error is the
      result, unchanged. */
  lemma FieldsFirstFailure(fields: seq<Field>, members: map<string, J.Value>, i: nat)
    requires i < |fields|
    requires forall j :: 0 <= j < i ==> fields[j].validator(Lookup(members, fields[j].key)).Ok?
    requires fields[i].validator(Lookup(members, fields[i].key)).Err?
    ensures ValidateFields(fields, members) == fields[i].validator(Lookup(members, fields[i].key))
  {
    FieldsConcat(fields[..i], fields[i..], members);
    assert fields[..i] + fields[i..] == fields;
    FieldsOkIff(fields[..i], members);
  }

  /** A missing key is treated exactly as a key bound to `null`. */
  lemma {:induction false} MissingKeyIsNull(fields: seq<Field>, members: map<string, J.Value>, key: string)
    requires key !in members
    ensures ValidateFields(fields, members) == ValidateFields(fields, members[key := J.Null])
  {
    if fields != [] {
      assert Lookup(members, fields[0].key) == Lookup(members[key := J.Null], fields[0].key);
      MissingKeyIsNull(fields[1..], members, key);
    }
  }

  /** Members whose names are not registered are ignored, whatever their values. */
  lemma {:induction false} UnregisteredKeyIgnored(fields: seq<Field>, members: map<string, J.Value>,
                                                   key: string, val: J.Value)
    requires forall i :: 0 <= i < |fields| ==> fields[i].key != key
    ensures ValidateFields(fields, members[key := val]) == ValidateFields(fields, members)
  {
    if fields != [] {
      assert Lookup(members, fields[0].key) == Lookup(members[key := val], fields[0].key);
      UnregisteredKeyIgnored(fields[1..], members, key, val);
    }
  }

  /** A value that is not an object fails with `Required`; an object with no registered
      fields passes, whatever its members. */
  lemma ValidateValueSpec(fields: seq<Field>, value: J.Value)
    ensures !value.Object? ==> ValidateValue(fields, value) == Err(Required)
    ensures value.Object? ==> ValidateValue(fields, value) == ValidateFields(fields, value.members)
    ensures value.Object? && fields == [] ==> ValidateValue(fields, value) == Ok
  {
  }

  /** A field registered with a required presence wrapper fails with exactly `Required`
      when the object has no member of that name, whatever follows it. */
  lemma RequiredFieldMissing<V>(key: string, v: V -> Result, decode: J.Value -> Option<V>,
                                rest: seq<Field>, members: map<string, J.Value>)
    requires key !in members
    ensures ValidateFields([Field(key, ValueValidator((o: Option<V>) => ValidOption(v, true, o),
                                                     DecodeOption(decode), None).AsValidation())] + rest,
                           members) == Err(Required)
  {
    var f := Field(key, ValueValidator((o: Option<V>) => ValidOption(v, true, o),
                                       DecodeOption(decode), None).AsValidation());
    assert ([f] + rest)[0] == f;
    assert Lookup(members, key) == J.Null;
  }

  /** `Object`: the registered fields of a schema, in registration order. */
  class Object {
    var validators: seq<Field>

    /** `Object::default()`: no fields. */
    constructor ()
      ensures validators == []
    {
      validators := [];
    }

    /** `Object::add`: registers `value`, a validator of `Option<V>`, for the field `key`;
        the field's JSON value is decoded into `Option<V>` and defaults to `None`.  The
        pair is appended at the end and the earlier pairs are unchanged. */
    method Add<V>(key: string, value: Option<V> -> Result, decode: J.Value -> Option<V>)
      modifies this
      ensures |validators| == |old(validators)| + 1
      ensures validators[..|old(validators)|] == old(validators)
      ensures validators[|old(validators)|].key == key
      ensures forall j :: validators[|old(validators)|].validator(j)
                       == ValueValidator(value, DecodeOption(decode), None).Validate(j)
    {
      validators := validators + [Field(key, ValueValidator(value, DecodeOption(decode), None).AsValidation())];
    }

    /** `Validation<Map<String, Value>>`: checks the fields in order and returns at the
        first failing one. */
    method ValidateMap(members: map<string, J.Value>) returns (r: Result)
      ensures r == ValidateFields(validators, members)
      ensures r.Ok? <==>
        forall i :: 0 <= i < |validators| ==> validators[i].validator(Lookup(members, validators[i].key)).Ok?
    {
      FieldsOkIff(validators, members);
      for i := 0 to |validators|
        invariant ValidateFields(validators, members) == ValidateFields(validators[i..], members)
      {
        var field := validators[i];
        var res := field.validator(Lookup(members, field.key));
        assert validators[i..][0] == field;
        assert validators[i..][1..] == validators[i + 1..];
        if res.Err? {
          return res;
        }
      }
      assert validators[|validators|..] == [];
      return Ok;
    }

    /** `Validation<Value>`: a non-object fails with `Required`; an object is checked
        field by field. */
    method Validate(value: J.Value) returns (r: Result)
      ensures r == ValidateValue(validators, value)
      ensures !value.Object? ==> r == Err(Required)
    {
      if value.Object? {
        r := ValidateMap(value.members);
      } else {
        r := Err(Required);
      }
    }

    /** The schema, as it stands now, as a validator of JSON values. */
    function AsValidation(): (r: J.Value -> Result)
      reads this
      ensures forall j :: r(j) == ValidateValue(validators, j)
    {
      var fields := validators;
      j => ValidateValue(fields, j)
    }
  }
}
