/** `validate_entity` (app.py:150-216): check submitted data against an
    entity's schema, then run the simplified business-rule check, and report
    the outcome as a record of three flags, a list of messages and a summary.

    The JSON Schema validation itself belongs to the `jsonschema` library and
    is an input here: `SchemaCheck` is how `jsonschema.validate` ended. */
module EntityValidation {
  import opened JsonData
  import opened NameCodec
  import opened SchemaLoader

  /** How `jsonschema.validate(test_data, schema)` ended: the data conforms,
      a `ValidationError` with its text, or any other exception (such as a
      `SchemaError` for a malformed schema) with its text. */
  datatype SchemaCheck = Conforms | Violation(message: string) | BadSchema(message: string)

  /** The dictionary `validate_entity` returns. */
  datatype ValidationResult = ValidationResult(
    valid: bool,
    schemaValid: bool,
    businessRulesValid: bool,
    errors: seq<string>,
    message: string)

  const DisabledNote := "Note: Advanced business rule validation temporarily disabled"
  const CheckErrorPrefix := "Business rule check error: "

  /** The result of every failure path: all three flags false and one
      message. */
  function Failure(error: string, message: string): ValidationResult {
    ValidationResult(false, false, false, [error], message)
  }

  // ---------------------------------------------------------------------------
  // `schema.get('required', [])` and the iteration over it

  /** What `for field in schema.get('required', [])` iterates over, or the
      text of the exception that stops it before the first item. */
  datatype Required = Items(items: seq<Json>) | NotIterable(message: string)

  /** A `required` member holding an object: Python would iterate over its
      keys in insertion order, which a map does not keep. */
  predicate RequiredIsObject(schema: Json) {
    schema.Object? && "required" in schema.members && schema.members["required"].Object?
  }

  /** The characters of `s`, each as a one-character string. */
  function Chars(s: string): (r: seq<Json>)
    ensures |r| == |s|
    ensures forall i :: 0 <= i < |s| ==> r[i] == Str([s[i]])
  {
    seq(|s|, i requires 0 <= i < |s| => Str([s[i]]))
  }

  /** `schema.get('required', [])`, then the start of the iteration over it:
      a missing member gives no items, a list its items, a string its
      characters; any other value is not iterable, and a schema that is not
      an object has no `get`. */
  function RequiredFieldsOf(schema: Json): Required
    requires !RequiredIsObject(schema)
  {
    match schema
    case Object(m) =>
      if "required" !in m then Items([])
      else (
        var required := m["required"];
        match required
        case Array(a) => Items(a)
        case Str(s) => Items(Chars(s))
        case other => NotIterable("'" + TypeName(other) + "' object is not iterable"))
    case _ => NotIterable("'" + TypeName(schema) + "' object has no attribute 'get'")
  }

  /** Lists and dictionaries cannot be dictionary keys: testing one for
      membership raises `TypeError`. */
  predicate Unhashable(field: Json) {
    field.Array? || field.Object?
  }

  /** `field not in test_data or test_data[field] is None or
      test_data[field] == ""`. The keys of a JSON object are strings, so a
      field that is not a string is never among them. */
  predicate IsMissing(field: Json, data: map<string, Json>)
    requires !Unhashable(field)
  {
    match field
    case Str(k) => k !in data || data[k] == Null || data[k] == Str("")
    case _ => true
  }

  /** `str(field)` for the values that can be a field here. */
  function FieldText(field: Json): string
    requires !Unhashable(field)
  {
    match field
    case Null => "None"
    case Bool(b) => if b then "True" else "False"
    case Int(i) => IntToString(i)
    case Str(s) => s
  }

  function MissingMessage(field: Json): string
    requires !Unhashable(field)
  {
    "Required field '" + FieldText(field) + "' is missing or empty"
  }

  /** The message for the `TypeError` that an unhashable field raises. */
  function UnhashableError(field: Json): string
    requires Unhashable(field)
  {
    CheckErrorPrefix + "unhashable type: '" + TypeName(field) + "'"
  }

  /** The index of the first field at or after `k` that stops the loop, or
      the number of fields if none does. */
  function FirstUnhashableFrom(fields: seq<Json>, k: nat): (n: nat)
    requires k <= |fields|
    ensures k <= n <= |fields|
    ensures forall i :: k <= i < n ==> !Unhashable(fields[i])
    ensures n < |fields| ==> Unhashable(fields[n])
    decreases |fields| - k
  {
    if k == |fields| || Unhashable(fields[k]) then k else FirstUnhashableFrom(fields, k + 1)
  }

  function FirstUnhashable(fields: seq<Json>): (n: nat)
    ensures n <= |fields|
    ensures forall i :: 0 <= i < n ==> !Unhashable(fields[i])
    ensures n < |fields| ==> Unhashable(fields[n])
  {
    FirstUnhashableFrom(fields, 0)
  }

  /** The messages for the missing fields among `fields`, in order. */
  function MissingMessages(fields: seq<Json>, data: map<string, Json>): seq<string>
    requires forall i :: 0 <= i < |fields| ==> !Unhashable(fields[i])
    decreases |fields|
  {
    if |fields| == 0 then []
    else
      var last := fields[|fields| - 1];
      MissingMessages(fields[..|fields| - 1], data) + (if IsMissing(last, data) then [MissingMessage(last)] else [])
  }

  /** The business rules pass when no field that the loop reaches is
      missing. */
  predicate RulesHold(fields: seq<Json>, data: map<string, Json>) {
    forall i :: 0 <= i < FirstUnhashable(fields) ==> !IsMissing(fields[i], data)
  }

  /** What the loop over the required fields reports: a message per missing
      field it reaches, then either the note that advanced checks are off or,
      when a field stops it, that field's `TypeError`. */
  function RuleErrors(fields: seq<Json>, data: map<string, Json>): seq<string> {
    var n := FirstUnhashable(fields);
    MissingMessages(fields[..n], data) + [if n < |fields| then UnhashableError(fields[n]) else DisabledNote]
  }

  /** The required-field loop (app.py:172-181) and the exception handler
      around it. */
  method CheckRequiredFields(fields: seq<Json>, data: map<string, Json>)
    returns (rulesValid: bool, errors: seq<string>)
    ensures rulesValid == RulesHold(fields, data)
    ensures errors == RuleErrors(fields, data)
  {
    rulesValid := true;
    errors := [];
    ghost var n := FirstUnhashable(fields);
    RulesHoldIff(fields, data);
    for i := 0 to |fields|
      invariant i <= n
      invariant errors == MissingMessages(fields[..i], data)
      invariant rulesValid == (errors == [])
    {
      var field := fields[i];
      if field.Array? || field.Object? {
        assert i == n;
        errors := errors + [UnhashableError(field)];
        return;
      }
      assert i < n;
      MissingMessagesSnoc(fields, i, data);
      if IsMissing(field, data) {
        rulesValid := false;
        errors := errors + [MissingMessage(field)];
      }
    }
    assert fields[..|fields|] == fields;
    errors := errors + [DisabledNote];
  }

  lemma MissingMessagesSnoc(fields: seq<Json>, i: nat, data: map<string, Json>)
    requires i < |fields|
    requires forall j :: 0 <= j <= i ==> !Unhashable(fields[j])
    ensures MissingMessages(fields[..i + 1], data)
            == MissingMessages(fields[..i], data)
               + (if IsMissing(fields[i], data) then [MissingMessage(fields[i])] else [])
  {
    assert fields[..i + 1][..i] == fields[..i];
  }

  /** The whole business-rule check on a loaded schema: the iteration over
      `required`, or the exception that prevents it. */
  method CheckBusinessRules(schema: Json, data: map<string, Json>)
    returns (rulesValid: bool, errors: seq<string>)
    requires !RequiredIsObject(schema)
    ensures RequiredFieldsOf(schema).NotIterable? ==>
              rulesValid && errors == [CheckErrorPrefix + RequiredFieldsOf(schema).message]
    ensures RequiredFieldsOf(schema).Items? ==>
              rulesValid == RulesHold(RequiredFieldsOf(schema).items, data)
              && errors == RuleErrors(RequiredFieldsOf(schema).items, data)
  {
    match RequiredFieldsOf(schema)
    case NotIterable(message) =>
      rulesValid := true;
      errors := [CheckErrorPrefix + message];
    case Items(fields) =>
      rulesValid, errors := CheckRequiredFields(fields, data);
  }

  // ---------------------------------------------------------------------------
  // Properties of the required-field check

  /** Every missing field gets its message, and every message names a missing
      field. */
  lemma {:induction false} MissingMessagesExact(fields: seq<Json>, data: map<string, Json>)
    requires forall i :: 0 <= i < |fields| ==> !Unhashable(fields[i])
    ensures forall i :: 0 <= i < |fields| && IsMissing(fields[i], data) ==>
              MissingMessage(fields[i]) in MissingMessages(fields, data)
    ensures forall m :: m in MissingMessages(fields, data) ==>
              exists i :: 0 <= i < |fields| && IsMissing(fields[i], data) && m == MissingMessage(fields[i])
    decreases |fields|
  {
    if |fields| > 0 {
      var init := fields[..|fields| - 1];
      MissingMessagesExact(init, data);
      forall i | 0 <= i < |fields| - 1 ensures fields[i] == init[i] {}
    }
  }

  /** There are no missing-field messages exactly when no field is missing. */
  lemma {:induction false} MissingMessagesEmpty(fields: seq<Json>, data: map<string, Json>)
    requires forall i :: 0 <= i < |fields| ==> !Unhashable(fields[i])
    ensures MissingMessages(fields, data) == [] <==> forall i :: 0 <= i < |fields| ==> !IsMissing(fields[i], data)
    decreases |fields|
  {
    if |fields| > 0 {
      var init := fields[..|fields| - 1];
      MissingMessagesEmpty(init, data);
      forall i | 0 <= i < |fields| - 1 ensures fields[i] == init[i] {}
    }
  }

  /** The business rules pass exactly when the loop reports nothing but its
      last message: the note, or the error of the field that stopped it. */
  lemma RulesHoldIff(fields: seq<Json>, data: map<string, Json>)
    ensures RulesHold(fields, data) <==> |RuleErrors(fields, data)| == 1
  {
    var n := FirstUnhashable(fields);
    var reached := fields[..n];
    MissingMessagesEmpty(reached, data);
    assert forall i :: 0 <= i < n ==> reached[i] == fields[i];
  }

  /** Data that holds a non-empty value under every required name passes the
      business rules, and the only message is the note. */
  lemma CompleteDataPasses(names: seq<string>, data: map<string, Json>)
    requires forall k :: k in names ==> k in data && data[k] != Null && data[k] != Str("")
    ensures var fields := seq(|names|, i requires 0 <= i < |names| => Str(names[i]));
            RulesHold(fields, data) && RuleErrors(fields, data) == [DisabledNote]
  {
    var fields := seq(|names|, i requires 0 <= i < |names| => Str(names[i]));
    FirstUnhashableAll(fields, 0);
    assert fields[..|fields|] == fields;
    MissingMessagesEmpty(fields, data);
  }

  lemma {:induction false} FirstUnhashableAll(fields: seq<Json>, k: nat)
    requires k <= |fields|
    requires forall i :: k <= i < |fields| ==> !Unhashable(fields[i])
    ensures FirstUnhashableFrom(fields, k) == |fields|
    decreases |fields| - k
  {
    if k < |fields| {
      FirstUnhashableAll(fields, k + 1);
    }
  }

  // ---------------------------------------------------------------------------
  // validate_entity

  /** Validates `testData` against the schema of `entityName`. `files` holds
      the schema files by directory name, and `check` is how the JSON Schema
      validation of the data against the loaded schema ended. */
  method ValidateEntity(root: string, files: map<string, SchemaFile>, entityName: string,
                        testData: map<string, Json>, check: SchemaCheck)
    returns (r: ValidationResult)
    requires var loaded := LoadEntitySchema(root, files, entityName);
             loaded.Loaded? && check.Conforms? ==> !RequiredIsObject(loaded.schema)
    ensures r.valid == r.schemaValid
    ensures !r.valid ==> !r.businessRulesValid && |r.errors| == 1
    ensures r.message == "Validation successful" <==> r.valid && r.businessRulesValid
    ensures var loaded := LoadEntitySchema(root, files, entityName);
            && (loaded.NotFound? ==> r == Failure("Schema not found: " + loaded.message, "Schema file not found"))
            && (loaded.LoadError? ==> r == Failure("Validation error: " + loaded.message, "Validation error"))
            && (loaded.Loaded? && check.Violation? ==> r == Failure(check.message, "Schema validation failed"))
            && (loaded.Loaded? && check.BadSchema? ==> r == Failure("Validation error: " + check.message, "Validation error"))
            && (r.valid <==> loaded.Loaded? && check.Conforms?)
    ensures var loaded := LoadEntitySchema(root, files, entityName);
            loaded.Loaded? && check.Conforms? ==>
              var doc := files[ToDirectoryName(entityName)].doc;
              && (r.message == if r.businessRulesValid then "Validation successful"
                               else "Schema valid but business rules failed")
              && (!Truthy(Get(doc.members, "rules")) ==> r.businessRulesValid && r.errors == [])
              && (Truthy(Get(doc.members, "rules")) && RequiredFieldsOf(loaded.schema).Items? ==>
                    var fields := RequiredFieldsOf(loaded.schema).items;
                    r.businessRulesValid == RulesHold(fields, testData) && r.errors == RuleErrors(fields, testData))
              && (Truthy(Get(doc.members, "rules")) && RequiredFieldsOf(loaded.schema).NotIterable? ==>
                    r.businessRulesValid && r.errors == [CheckErrorPrefix + RequiredFieldsOf(loaded.schema).message])
  {
    var loaded := LoadEntitySchema(root, files, entityName);
    match loaded
    case NotFound(message) =>
      r := Failure("Schema not found: " + message, "Schema file not found");
    case LoadError(message) =>
      r := Failure("Validation error: " + message, "Validation error");
    case Loaded(schema) =>
      match check
      case Violation(message) =>
        r := Failure(message, "Schema validation failed");
      case BadSchema(message) =>
        r := Failure("Validation error: " + message, "Validation error");
      case Conforms =>
        var rulesValid := true;
        var errors: seq<string> := [];
        var fullSchema := files[ToDirectoryName(entityName)].doc;
        var rules := Get(fullSchema.members, "rules");
        if Truthy(rules) {
          rulesValid, errors := CheckBusinessRules(schema, testData);
        }
        r := ValidationResult(true, true, rulesValid, errors,
                              if rulesValid then "Validation successful" else "Schema valid but business rules failed");
  }
}
