/** `httpValidator`: validates the parts of a request (body, params, query)
    against the Joi schemas given for them and throws the first failure. */
module RequestValidation {
  import opened Common
  import opened Strings
  import opened HttpErrors

  /** The keys of the request data and of the schema object. */
  datatype Part = Body | Params | Query

  /** A Joi object schema, validated with `abortEarly: false`: the message of
      every violated constraint, none when the data is valid. */
  type Schema = Json -> seq<string>

  /** A Joi `ValidationError` carrying `details`; its own message joins them
      with ". ". */
  function ValidationError(details: seq<string>): (e: Error)
    ensures e.JoiValidation? && e.details == details
    ensures details != [] ==> details[0] <= e.text
  {
    JoiValidation(details, Join(details, ". "))
  }

  /** The inner `validate`: with no schema, a `ValidationError` with no details
      and an empty message; otherwise the schema's verdict. */
  function Validate(data: Json, schema: Option<Schema>): (r: Result<Json, Error>)
    ensures schema.None? ==> r == Failure(JoiValidation([], ""))
    ensures schema.Some? ==> (r.Success? <==> schema.value(data) == [])
    ensures schema.Some? && r.Success? ==> r.value == data
    ensures schema.Some? && r.Failure? ==> r.error.JoiValidation? && r.error.details == schema.value(data)
  {
    match schema
    case None => Failure(JoiValidation([], ""))
    case Some(s) =>
      var details := s(data);
      if details == [] then Success(data) else Failure(ValidationError(details))
  }

  /** A part is examined when both its data and a schema for it are present. */
  predicate Examined(part: (Part, Json), schemas: map<Part, Schema>) {
    Truthy(part.1) && part.0 in schemas
  }

  /** An examined part whose data the schema rejects. */
  predicate Fails(part: (Part, Json), schemas: map<Part, Schema>) {
    Examined(part, schemas) && schemas[part.0](part.1) != []
  }

  /** The error `httpValidator` throws for the request parts in key order, or
      `None` when it returns normally. */
  function FirstFailure(parts: seq<(Part, Json)>, schemas: map<Part, Schema>): (r: Option<Error>)
    ensures r.None? <==> forall i :: 0 <= i < |parts| ==> !Fails(parts[i], schemas)
    ensures r.Some? ==> exists i ::
      && 0 <= i < |parts| && Fails(parts[i], schemas)
      && (forall j :: 0 <= j < i ==> !Fails(parts[j], schemas))
      && r.value == ValidationError(schemas[parts[i].0](parts[i].1))
  {
    if parts == [] then None
    else
      var rest := FirstFailure(parts[1..], schemas);
      if Fails(parts[0], schemas) then Some(ValidationError(schemas[parts[0].0](parts[0].1)))
      else
        assert forall i :: 1 <= i < |parts| ==> parts[i] == parts[1..][i - 1];
        if rest.Some? then
          var k :|
            && 0 <= k < |parts[1..]| && Fails(parts[1..][k], schemas)
            && (forall j :: 0 <= j < k ==> !Fails(parts[1..][j], schemas))
            && rest.value == ValidationError(schemas[parts[1..][k].0](parts[1..][k].1));
          assert Fails(parts[k + 1], schemas);
          rest
        else rest
  }

  /** The parts after the first failing one are not examined: only a prefix
      that passes lets the rest of the parts speak. */
  lemma {:induction false} FirstFailureAppend(front: seq<(Part, Json)>, back: seq<(Part, Json)>, schemas: map<Part, Schema>)
    ensures FirstFailure(front, schemas).Some? ==> FirstFailure(front + back, schemas) == FirstFailure(front, schemas)
    ensures FirstFailure(front, schemas).None? ==> FirstFailure(front + back, schemas) == FirstFailure(back, schemas)
  {
    if front == [] {
      assert front + back == back;
    } else {
      assert (front + back)[1..] == front[1..] + back;
      FirstFailureAppend(front[1..], back, schemas);
    }
  }

  /** A part without data or without a schema changes nothing, wherever it is. */
  lemma SkippedPartIrrelevant(front: seq<(Part, Json)>, part: (Part, Json), back: seq<(Part, Json)>, schemas: map<Part, Schema>)
    requires !Examined(part, schemas)
    ensures FirstFailure(front + [part] + back, schemas) == FirstFailure(front + back, schemas)
  {
    FirstFailureAppend(front, [part] + back, schemas);
    FirstFailureAppend(front, back, schemas);
    assert front + [part] + back == front + ([part] + back);
    assert ([part] + back)[1..] == back;
  }

  /** One step of the walk: the first part of a suffix either fails or is
      passed over. */
  lemma FirstFailureStep(parts: seq<(Part, Json)>, i: nat, schemas: map<Part, Schema>)
    requires i < |parts|
    ensures Fails(parts[i], schemas) ==> FirstFailure(parts[i..], schemas) == Some(ValidationError(schemas[parts[i].0](parts[i].1)))
    ensures !Fails(parts[i], schemas) ==> FirstFailure(parts[i..], schemas) == FirstFailure(parts[i + 1..], schemas)
  {
  }

  /** `httpValidator`: walks the parts in key order and stops at the first
      failure; it changes nothing. */
  method HttpValidator(parts: seq<(Part, Json)>, schemas: map<Part, Schema>) returns (thrown: Option<Error>)
    ensures thrown == FirstFailure(parts, schemas)
  {
    var i := 0;
    assert parts[0..] == parts;
    while i < |parts|
      invariant 0 <= i <= |parts|
      invariant FirstFailure(parts, schemas) == FirstFailure(parts[i..], schemas)
    {
      FirstFailureStep(parts, i, schemas);
      var (key, data) := parts[i];
      if Truthy(data) && key in schemas {
        var result := Validate(data, Some(schemas[key]));
        if result.Failure? {
          return Some(result.error);
        }
      }
      i := i + 1;
    }
    return None;
  }
}
