/** `schema(validators, messages)`: a validator per field key, run on that
    key's raw value, and a per-field catalog that turns each failure into a
    message. The returned function yields the map from every failing key to
    its message; keys whose validator passed are absent from it. */
module Schema {
  import opened Common
  import opened Validators

  /** A catalog entry: a literal string, or a function called with the raw
      value followed by the failure's arguments. */
  datatype Message = Literal(text: string) | Computed(f: (string, seq<Arg>) -> string)

  /** One entry of `Object.entries(validators)`. */
  datatype Field = Field(key: string, validator: Validator)

  /** Field key to error name to message. */
  type Messages = map<string, map<string, Message>>

  /** The raw values: a key may be missing, or present and undefined. */
  type Values = map<string, Option<string>>

  type Errors = map<string, string>

  /** Object keys are unique, so the entries list names each key once. */
  predicate DistinctKeys(fields: seq<Field>) {
    forall i, j :: 0 <= i < j < |fields| ==> fields[i].key != fields[j].key
  }

  /** `values[key] ?? ""`. */
  function RawValue(values: Values, key: string): string {
    if key in values && values[key].Some? then values[key].value else ""
  }

  /** `messages[key][name]`, `None` when either level lacks the entry. */
  function Lookup(messages: Messages, key: string, name: string): Option<Message> {
    if key in messages && name in messages[key] then Some(messages[key][name]) else None
  }

  /** `typeof message === "string" ? message : message(value, ...args)`. */
  function Resolve(m: Message, value: string, args: seq<Arg>): string {
    match m
    case Literal(text) => text
    case Computed(f) => f(value, args)
  }

  /** What the engine throws when a failure has no catalog entry: reading a
      property of an undefined catalog, or calling an undefined message. The
      texts are V8's. */
  function MissingMessage(messages: Messages, key: string, name: string): Exception {
    if key in messages then TypeError("message is not a function")
    else TypeError("Cannot read properties of undefined (reading '" + name + "')")
  }

  /** The failing fields of a round whose results are `rs`. */
  predicate Fails(rs: seq<ValidatorResult>, i: int) {
    0 <= i < |rs| && rs[i].Invalid?
  }

  /** A failing field whose message cannot be found. */
  predicate Unresolvable(fields: seq<Field>, rs: seq<ValidatorResult>, messages: Messages, i: int)
    requires |rs| == |fields|
  {
    Fails(rs, i) && Lookup(messages, fields[i].key, rs[i].name).None?
  }

  /** A key that belongs to a failing field. */
  ghost predicate FailingKey(fields: seq<Field>, rs: seq<ValidatorResult>, k: string)
    requires |rs| == |fields|
  {
    exists i :: Fails(rs, i) && fields[i].key == k
  }

  /** The `forEach` over the settled results: every failing field gets its
      resolved message under its key; the first failing field without a
      catalog entry aborts the whole call with a TypeError. */
  function Collect(fields: seq<Field>, rs: seq<ValidatorResult>, messages: Messages, values: Values): (r: Throws<Errors>)
    requires |rs| == |fields| && DistinctKeys(fields)
    ensures r.Thrown? <==> exists i :: Unresolvable(fields, rs, messages, i)
    ensures r.Returns? ==> forall k :: k in r.value <==> FailingKey(fields, rs, k)
    ensures r.Returns? ==> forall i :: Fails(rs, i) ==>
              && fields[i].key in r.value
              && Lookup(messages, fields[i].key, rs[i].name).Some?
              && r.value[fields[i].key] ==
                 Resolve(Lookup(messages, fields[i].key, rs[i].name).value, RawValue(values, fields[i].key), rs[i].args)
    decreases |fields|
  {
    if |fields| == 0 then Returns(map[])
    else
      var key := fields[0].key;
      var rest := Collect(fields[1..], rs[1..], messages, values);
      assert forall i :: 1 <= i < |fields| ==> fields[1..][i - 1] == fields[i] && rs[1..][i - 1] == rs[i];
      assert forall i :: 1 <= i < |fields| ==> Unresolvable(fields, rs, messages, i) ==
                                               Unresolvable(fields[1..], rs[1..], messages, i - 1);
      assert forall i :: 1 <= i < |fields| ==> Fails(rs, i) == Fails(rs[1..], i - 1);
      if rs[0].Valid? then
        assert rest.Thrown? <==> exists i :: Unresolvable(fields, rs, messages, i) by {
          if rest.Thrown? {
            var j :| Unresolvable(fields[1..], rs[1..], messages, j);
            assert Unresolvable(fields, rs, messages, j + 1);
          }
          if i :| Unresolvable(fields, rs, messages, i) {
            assert Unresolvable(fields[1..], rs[1..], messages, i - 1);
          }
        }
        assert forall k :: FailingKey(fields, rs, k) ==> FailingKey(fields[1..], rs[1..], k) by {
          forall k | FailingKey(fields, rs, k)
            ensures FailingKey(fields[1..], rs[1..], k)
          {
            var i :| Fails(rs, i) && fields[i].key == k;
            assert Fails(rs[1..], i - 1);
          }
        }
        rest
      else
        match Lookup(messages, key, rs[0].name)
        case None =>
          assert Unresolvable(fields, rs, messages, 0);
          Thrown(MissingMessage(messages, key, rs[0].name))
        case Some(m) =>
          if rest.Thrown? then
            var j :| Unresolvable(fields[1..], rs[1..], messages, j);
            assert Unresolvable(fields, rs, messages, j + 1);
            rest
          else
            assert forall k :: FailingKey(fields, rs, k) <==> k == key || FailingKey(fields[1..], rs[1..], k) by {
              forall k | FailingKey(fields, rs, k) && k != key
                ensures FailingKey(fields[1..], rs[1..], k)
              {
                var i :| Fails(rs, i) && fields[i].key == k;
                assert Fails(rs[1..], i - 1);
              }
              forall k | FailingKey(fields[1..], rs[1..], k)
                ensures FailingKey(fields, rs, k)
              {
                var i :| Fails(rs[1..], i) && fields[1..][i].key == k;
                assert Fails(rs, i + 1);
              }
              assert Fails(rs, 0);
            }
            Returns(rest.value[key := Resolve(m, RawValue(values, key), rs[0].args)])
  }

  /** `Promise.all` over the fields: each field's validator runs on its own
      raw value, independently of every other field. */
  function Results(fields: seq<Field>, values: Values): (rs: seq<ValidatorResult>)
    ensures |rs| == |fields|
  {
    seq(|fields|, i requires 0 <= i < |fields| => fields[i].validator(RawValue(values, fields[i].key)))
  }

  /** The function `schema` returns, applied to `values`. Every field is
      validated; the result names exactly the failing keys, each with the
      message its catalog gives for the failure's name, resolved on the raw
      value and the failure's arguments; it throws exactly when a failing
      field has no such message. */
  function Validate(fields: seq<Field>, messages: Messages, values: Values): (r: Throws<Errors>)
    requires DistinctKeys(fields)
    ensures r.Thrown? <==>
              exists i :: 0 <= i < |fields| && FieldResult(fields, values, i).Invalid?
                          && Lookup(messages, fields[i].key, FieldResult(fields, values, i).name).None?
    ensures r.Returns? ==> forall k :: k in r.value <==>
              exists i :: 0 <= i < |fields| && fields[i].key == k && FieldResult(fields, values, i).Invalid?
    ensures r.Returns? ==> forall i :: 0 <= i < |fields| && FieldResult(fields, values, i).Invalid? ==>
              && fields[i].key in r.value
              && Lookup(messages, fields[i].key, FieldResult(fields, values, i).name).Some?
              && r.value[fields[i].key] ==
              Resolve(Lookup(messages, fields[i].key, FieldResult(fields, values, i).name).value,
                      RawValue(values, fields[i].key), FieldResult(fields, values, i).args)
  {
    var rs := Results(fields, values);
    assert forall i :: 0 <= i < |fields| ==> rs[i] == FieldResult(fields, values, i);
    Collect(fields, rs, messages, values)
  }

  /** Field `i`'s verdict: its validator on its own raw value. */
  function FieldResult(fields: seq<Field>, values: Values, i: int): ValidatorResult
    requires 0 <= i < |fields|
  {
    fields[i].validator(RawValue(values, fields[i].key))
  }

  /** `schema(validators, messages)`: building the schema never fails; the
      work happens when the returned function is called. */
  function MakeSchema(fields: seq<Field>, messages: Messages): (s: Values -> Throws<Errors>)
    requires DistinctKeys(fields)
    ensures forall values :: s(values) == Validate(fields, messages, values)
  {
    values => Validate(fields, messages, values)
  }

  /** Every error name a field's validator can produce has a message: what
      the `MessagesRecord` typing of `schema` guarantees its callers. */
  ghost predicate CatalogComplete(fields: seq<Field>, messages: Messages) {
    forall i, v :: 0 <= i < |fields| && fields[i].validator(v).Invalid? ==>
      Lookup(messages, fields[i].key, fields[i].validator(v).name).Some?
  }

  /** A schema whose catalog is complete never throws. */
  lemma CompleteCatalogNeverThrows(fields: seq<Field>, messages: Messages, values: Values)
    requires DistinctKeys(fields) && CatalogComplete(fields, messages)
    ensures MakeSchema(fields, messages)(values).Returns?
  {
  }

  /** When every field passes the result is the empty map; in particular an
      empty schema yields the empty map. */
  lemma AllValidIsEmpty(fields: seq<Field>, messages: Messages, values: Values)
    requires DistinctKeys(fields)
    requires forall i :: 0 <= i < |fields| ==> FieldResult(fields, values, i).Valid?
    ensures MakeSchema(fields, messages)(values) == Returns(map[])
  {
    var r := Validate(fields, messages, values);
    assert r.Returns?;
    assert r.value.Keys == {};
  }

  /** Only the raw values of the schema's own keys are read: two value maps
      that agree on them give the same result, whatever else they hold. */
  lemma OnlySchemaKeysRead(fields: seq<Field>, messages: Messages, values: Values, values': Values)
    requires DistinctKeys(fields)
    requires forall i :: 0 <= i < |fields| ==> RawValue(values, fields[i].key) == RawValue(values', fields[i].key)
    ensures MakeSchema(fields, messages)(values) == MakeSchema(fields, messages)(values')
  {
    var rs := Results(fields, values);
    var rs' := Results(fields, values');
    assert rs == rs';
    CollectReadsOnlySchemaKeys(fields, rs, messages, values, values');
  }

  lemma {:induction false} CollectReadsOnlySchemaKeys(fields: seq<Field>, rs: seq<ValidatorResult>, messages: Messages, values: Values, values': Values)
    requires |rs| == |fields| && DistinctKeys(fields)
    requires forall i :: 0 <= i < |fields| ==> RawValue(values, fields[i].key) == RawValue(values', fields[i].key)
    ensures Collect(fields, rs, messages, values) == Collect(fields, rs, messages, values')
    decreases |fields|
  {
    if |fields| > 0 {
      assert forall i :: 1 <= i < |fields| ==> fields[1..][i - 1] == fields[i];
      CollectReadsOnlySchemaKeys(fields[1..], rs[1..], messages, values, values');
      assert RawValue(values, fields[0].key) == RawValue(values', fields[0].key);
    }
  }

  /** A key that is missing, or present but undefined, is validated, and its
      message resolved, exactly as the empty string. */
  lemma UnsetIsEmpty(fields: seq<Field>, messages: Messages, values: Values, key: string)
    requires DistinctKeys(fields)
    requires key !in values || values[key].None?
    ensures MakeSchema(fields, messages)(values) == MakeSchema(fields, messages)(values[key := Some("")])
  {
    OnlySchemaKeysRead(fields, messages, values, values[key := Some("")]);
  }

  /** A one-field schema with `required` and a literal message. */
  lemma RequiredExample()
    ensures var s := MakeSchema([Field("a", Required)], map["a" := map["required" := Literal("Required!")]]);
            && s(map["a" := Some("")]) == Returns(map["a" := "Required!"])
            && s(map["a" := Some("x")]) == Returns(map[])
  {
    var fields := [Field("a", Required)];
    var messages := map["a" := map["required" := Literal("Required!")]];
    var r := Validate(fields, messages, map["a" := Some("")]);
    assert FieldResult(fields, map["a" := Some("")], 0) == Invalid("required", []);
    assert r.Returns? && r.value.Keys == {"a"};
    var r' := Validate(fields, messages, map["a" := Some("x")]);
    assert FieldResult(fields, map["a" := Some("x")], 0).Valid?;
    assert r'.Returns? && r'.value.Keys == {};
  }
}
