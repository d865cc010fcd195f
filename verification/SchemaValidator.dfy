/** The recursive validator of broker configurations against a subset of JSON Schema. */
module SchemaValidator {
  import opened Wrappers

  /** A JSON document. Dictionaries keep their insertion order and have no repeated key. */
  datatype Json =
    | Null | Bool(b: bool) | Int(n: int) | Float(x: real) | Str(s: string) | Arr(elements: seq<Json>)
    | Obj(fields: seq<Field>)

  datatype Field = Field(key: string, value: Json)

  datatype Step = Key(key: string) | Index(i: nat)

  type Path = seq<Step>

  datatype Fault = TypeMismatch | NoBranchMatches | MissingProperty | AdditionalProperty

  datatype Violation = Violation(path: Path, fault: Fault)

  // ---------- dictionaries ----------

  function IndexOf(fields: seq<Field>, key: string): (k: int)
    ensures k == -1 || (0 <= k < |fields| && fields[k].key == key)
    ensures k == -1 <==> forall i | 0 <= i < |fields| :: fields[i].key != key
  {
    if fields == [] then -1
    else if fields[0].key == key then 0
    else
      var k := IndexOf(fields[1..], key);
      assert forall i | 0 < i < |fields| :: fields[i] == fields[1..][i - 1];
      if k == -1 then -1 else k + 1
  }

  function Get(doc: Json, key: string): (r: Option<Json>)
    ensures r.Some? ==> r.value < doc
  {
    if !doc.Obj? || IndexOf(doc.fields, key) == -1 then None else Some(doc.fields[IndexOf(doc.fields, key)].value)
  }

  predicate Has(doc: Json, key: string) {
    Get(doc, key).Some?
  }

  function Value(doc: Json, key: string): (r: Json)
    requires Has(doc, key)
    ensures r < doc
  {
    Get(doc, key).value
  }

  // ---------- what the validator reports ----------

  predicate TypeOk(value: Json, t: string) {
    if t == "null" then value.Null?
    else if t == "boolean" then value.Bool?
    else if t == "integer" then value.Int?
    else if t == "number" then value.Int? || value.Float?
    else if t == "string" then value.Str?
    else if t == "array" then value.Arr?
    else if t == "object" then value.Obj?
    else true
  }

  /** A list of types admits what one of its strings admits; a type that is neither is not looked at. */
  predicate TypeAdmits(value: Json, t: Option<Json>) {
    match t
    case Some(Arr(ts)) => exists i | 0 <= i < |ts| :: ts[i].Str? && TypeOk(value, ts[i].s)
    case Some(Str(s)) => TypeOk(value, s)
    case _ => true
  }

  function RequiredErrors(instance: Json, required: seq<Json>, path: Path): seq<Violation> {
    if required == [] then []
    else
      var k := required[|required| - 1];
      RequiredErrors(instance, required[..|required| - 1], path)
      + if k.Str? && Get(instance, k.s).None? then [Violation(path + [Key(k.s)], MissingProperty)] else []
  }

  function AdditionalErrors(fields: seq<Field>, properties: Json, path: Path): seq<Violation> {
    if fields == [] then []
    else
      var k := fields[|fields| - 1].key;
      AdditionalErrors(fields[..|fields| - 1], properties, path)
      + if Get(properties, k).None? then [Violation(path + [Key(k)], AdditionalProperty)] else []
  }

  /** The violations of an instance, in the order they are reported. */
  function Errors(instance: Json, schema: Json, path: Path): seq<Violation>
    decreases schema, 0
  {
    var anyOf := Get(schema, "anyOf");
    if !schema.Obj? then []
    else if anyOf.Some? && anyOf.value.Arr? then
      if exists i | 0 <= i < |anyOf.value.elements| :: Errors(instance, anyOf.value.elements[i], path) == [] then []
      else [Violation(path, NoBranchMatches)]
    else if !TypeAdmits(instance, Get(schema, "type")) then [Violation(path, TypeMismatch)]
    else if instance.Obj? then
      var required, properties := Get(schema, "required"), Get(schema, "properties");
      (if required.Some? && required.value.Arr? then RequiredErrors(instance, required.value.elements, path) else [])
      + (if properties.Some? && properties.value.Obj? then
           PropertyErrors(instance, properties.value, |properties.value.fields|, path)
           + if Get(schema, "additionalProperties") == Some(Bool(false))
               then AdditionalErrors(instance.fields, properties.value, path) else []
         else [])
    else if instance.Arr? then
      var items := Get(schema, "items");
      if items.Some? && items.value.Obj? then ItemErrors(instance.elements, items.value, |instance.elements|, path)
      else []
    else []
  }

  function PropertyErrors(instance: Json, properties: Json, n: nat, path: Path): seq<Violation>
    requires instance.Obj? && properties.Obj? && n <= |properties.fields|
    decreases properties, n
  {
    if n == 0 then []
    else
      var f := properties.fields[n - 1];
      var value := Get(instance, f.key);
      PropertyErrors(instance, properties, n - 1, path)
      + if value.Some? then Errors(value.value, f.value, path + [Key(f.key)]) else []
  }

  function ItemErrors(elements: seq<Json>, items: Json, n: nat, path: Path): seq<Violation>
    requires n <= |elements|
    decreases items, n
  {
    if n == 0 then []
    else ItemErrors(elements, items, n - 1, path) + Errors(elements[n - 1], items, path + [Index(n - 1)])
  }

  // ---------- the validator ----------

  method CheckRequired(instance: Json, required: seq<Json>, path: Path) returns (errs: seq<Violation>)
    ensures errs == RequiredErrors(instance, required, path)
  {
    errs := [];
    for i := 0 to |required|
      invariant errs == RequiredErrors(instance, required[..i], path)
    {
      assert required[..i + 1][..i] == required[..i];
      if required[i].Str? && Get(instance, required[i].s).None? {
        errs := errs + [Violation(path + [Key(required[i].s)], MissingProperty)];
      }
    }
    assert required[..|required|] == required;
  }

  method CheckAdditional(fields: seq<Field>, properties: Json, path: Path) returns (errs: seq<Violation>)
    ensures errs == AdditionalErrors(fields, properties, path)
  {
    errs := [];
    for i := 0 to |fields|
      invariant errs == AdditionalErrors(fields[..i], properties, path)
    {
      assert fields[..i + 1][..i] == fields[..i];
      if Get(properties, fields[i].key).None? {
        errs := errs + [Violation(path + [Key(fields[i].key)], AdditionalProperty)];
      }
    }
    assert fields[..|fields|] == fields;
  }

  /** Some branch reports nothing; later branches are not tried. */
  method TryBranches(instance: Json, branches: Json, path: Path) returns (matched: bool)
    requires branches.Arr?
    ensures matched <==> exists i | 0 <= i < |branches.elements| :: Errors(instance, branches.elements[i], path) == []
    decreases branches, 0
  {
    for i := 0 to |branches.elements|
      invariant forall j | 0 <= j < i :: Errors(instance, branches.elements[j], path) != []
    {
      var errs := Validate(instance, branches.elements[i], path);
      if errs == [] {
        return true;
      }
    }
    return false;
  }

  /** Terminates because every recursive call takes a part of the schema, whatever the instance. */
  method Validate(instance: Json, schema: Json, path: Path) returns (errs: seq<Violation>)
    ensures errs == Errors(instance, schema, path)
    decreases schema, 0
  {
    hide Get, TypeAdmits, RequiredErrors, AdditionalErrors, PropertyErrors, ItemErrors;
    errs := [];
    if !schema.Obj? {
      return;
    }
    var anyOf := Get(schema, "anyOf");
    if anyOf.Some? && anyOf.value.Arr? {
      var matched := TryBranches(instance, anyOf.value, path);
      if !matched {
        errs := [Violation(path, NoBranchMatches)];
      }
      return;
    }
    if !TypeAdmits(instance, Get(schema, "type")) {
      return [Violation(path, TypeMismatch)];
    }
    if instance.Obj? {
      var required := Get(schema, "required");
      if required.Some? && required.value.Arr? {
        errs := CheckRequired(instance, required.value.elements, path);
      }
      var properties := Get(schema, "properties");
      if properties.Some? && properties.value.Obj? {
        var inner := ValidateProperties(instance, properties.value, path);
        errs := errs + inner;
        if Get(schema, "additionalProperties") == Some(Bool(false)) {
          var extra := CheckAdditional(instance.fields, properties.value, path);
          errs := errs + extra;
        }
      }
    }
    if instance.Arr? {
      var items := Get(schema, "items");
      if items.Some? && items.value.Obj? {
        errs := ValidateItems(instance.elements, items.value, path);
      }
    }
  }

  method ValidateProperties(instance: Json, properties: Json, path: Path) returns (errs: seq<Violation>)
    requires instance.Obj? && properties.Obj?
    ensures errs == PropertyErrors(instance, properties, |properties.fields|, path)
    decreases properties, 1
  {
    errs := [];
    for n := 0 to |properties.fields|
      invariant errs == PropertyErrors(instance, properties, n, path)
    {
      var f := properties.fields[n];
      var value := Get(instance, f.key);
      if value.Some? {
        var inner := Validate(value.value, f.value, path + [Key(f.key)]);
        errs := errs + inner;
      }
    }
  }

  method ValidateItems(elements: seq<Json>, items: Json, path: Path) returns (errs: seq<Violation>)
    ensures errs == ItemErrors(elements, items, |elements|, path)
    decreases items, 1
  {
    errs := [];
    for n := 0 to |elements|
      invariant errs == ItemErrors(elements, items, n, path)
    {
      var inner := Validate(elements[n], items, path + [Index(n)]);
      errs := errs + inner;
    }
  }

  // ---------- what an error-free report means ----------

  /** The instance satisfies the schema as the validator reads it: a list of alternatives stands
      alone, and what is not a schema demands nothing. */
  ghost predicate Conforms(instance: Json, schema: Json)
    decreases schema
  {
    var anyOf, properties, items := Get(schema, "anyOf"), Get(schema, "properties"), Get(schema, "items");
    if !schema.Obj? then true
    else if anyOf.Some? && anyOf.value.Arr? then
      exists i | 0 <= i < |anyOf.value.elements| :: Conforms(instance, anyOf.value.elements[i])
    else
      && TypeMeets(instance, Get(schema, "type"), false)
      && (instance.Obj? ==>
            && RequiredPresent(instance, Get(schema, "required"))
            && (properties.Some? && properties.value.Obj? ==>
                  && (forall i | 0 <= i < |properties.value.fields| && Has(instance, properties.value.fields[i].key) ::
                        Conforms(Value(instance, properties.value.fields[i].key), properties.value.fields[i].value))
                  && (Get(schema, "additionalProperties") == Some(Bool(false)) ==>
                      NothingElse(instance, properties.value))))
      && (instance.Arr? && items.Some? && items.value.Obj? ==>
            forall i | 0 <= i < |instance.elements| :: Conforms(instance.elements[i], items.value))
  }

  /** Every string of the list names a key of the instance. */
  predicate RequiredPresent(instance: Json, required: Option<Json>) {
    required.Some? && required.value.Arr? ==>
      forall i | 0 <= i < |required.value.elements| && required.value.elements[i].Str? ::
        Get(instance, required.value.elements[i].s).Some?
  }

  predicate NothingElse(instance: Json, properties: Json)
    requires instance.Obj?
  {
    forall i | 0 <= i < |instance.fields| :: Get(properties, instance.fields[i].key).Some?
  }

  lemma {:induction false} RequiredMeans(instance: Json, required: seq<Json>, path: Path)
    ensures RequiredErrors(instance, required, path) == [] <==>
            forall i | 0 <= i < |required| && required[i].Str? :: Get(instance, required[i].s).Some?
  {
    hide Get;
    if required != [] {
      var n := |required| - 1;
      RequiredMeans(instance, required[..n], path);
      assert forall i | 0 <= i < n :: required[..n][i] == required[i];
    }
  }

  lemma {:induction false} AdditionalMeans(fields: seq<Field>, properties: Json, path: Path)
    ensures AdditionalErrors(fields, properties, path) == [] <==>
            forall i | 0 <= i < |fields| :: Get(properties, fields[i].key).Some?
  {
    hide Get;
    if fields != [] {
      var n := |fields| - 1;
      AdditionalMeans(fields[..n], properties, path);
      assert forall i | 0 <= i < n :: fields[..n][i] == fields[i];
    }
  }

  /** Nothing is reported exactly when the instance satisfies the schema. */
  lemma {:induction false} NoErrorsIffConforms(instance: Json, schema: Json, path: Path)
    ensures Errors(instance, schema, path) == [] <==> Conforms(instance, schema)
    decreases schema, 0
  {
    hide Get, TypeAdmits, TypeMeets, RequiredErrors, AdditionalErrors, PropertyErrors, ItemErrors;
    TypeAgrees(instance, Get(schema, "type"));
    var anyOf, required := Get(schema, "anyOf"), Get(schema, "required");
    var properties, items := Get(schema, "properties"), Get(schema, "items");
    if anyOf.Some? && anyOf.value.Arr? {
      forall i | 0 <= i < |anyOf.value.elements|
        ensures Errors(instance, anyOf.value.elements[i], path) == [] <==> Conforms(instance, anyOf.value.elements[i])
      {
        NoErrorsIffConforms(instance, anyOf.value.elements[i], path);
      }
    } else if instance.Obj? {
      if required.Some? && required.value.Arr? {
        RequiredMeans(instance, required.value.elements, path);
      }
      if properties.Some? && properties.value.Obj? {
        NoPropertyErrors(instance, properties.value, |properties.value.fields|, path);
        AdditionalMeans(instance.fields, properties.value, path);
      }
    } else if instance.Arr? && items.Some? && items.value.Obj? {
      NoItemErrors(instance.elements, items.value, |instance.elements|, path);
    }
  }

  lemma {:induction false} NoPropertyErrors(instance: Json, properties: Json, n: nat, path: Path)
    requires instance.Obj? && properties.Obj? && n <= |properties.fields|
    ensures PropertyErrors(instance, properties, n, path) == [] <==>
            forall i | 0 <= i < n && Has(instance, properties.fields[i].key) ::
              Conforms(Value(instance, properties.fields[i].key), properties.fields[i].value)
    decreases properties, n
  {
    hide Get, Errors, Conforms;
    if n > 0 {
      NoPropertyErrors(instance, properties, n - 1, path);
      var f := properties.fields[n - 1];
      var value := Get(instance, f.key);
      if value.Some? {
        NoErrorsIffConforms(value.value, f.value, path + [Key(f.key)]);
      }
    }
  }

  lemma {:induction false} NoItemErrors(elements: seq<Json>, items: Json, n: nat, path: Path)
    requires n <= |elements|
    ensures ItemErrors(elements, items, n, path) == [] <==> forall i | 0 <= i < n :: Conforms(elements[i], items)
    decreases items, n
  {
    hide Errors, Conforms;
    if n > 0 {
      NoItemErrors(elements, items, n - 1, path);
      NoErrorsIffConforms(elements[n - 1], items, path + [Index(n - 1)]);
    }
  }

  // ---------- the standard meaning ----------

  /** A float that stands for an integer: the standard counts it as one, the validator does not. */
  predicate Integral(value: Json) {
    value.Float? && value.x == value.x.Floor as real
  }

  /** The names of the types a document has. */
  function TypeNames(value: Json): set<string> {
    match value
    case Null => {"null"}
    case Bool(_) => {"boolean"}
    case Int(_) => {"integer", "number"}
    case Float(_) => {"number"}
    case Str(_) => {"string"}
    case Arr(_) => {"array"}
    case Obj(_) => {"object"}
  }

  const KNOWN_TYPES: set<string> := {"null", "boolean", "integer", "number", "string", "array", "object"}

  /** A name that is no type at all demands nothing. */
  predicate TypeMatches(value: Json, t: string, floats: bool) {
    t !in KNOWN_TYPES || t in TypeNames(value) || (floats && t == "integer" && Integral(value))
  }

  /** The validator's tests agree with the table of types. */
  lemma TypeOkIff(value: Json, t: string)
    ensures TypeOk(value, t) <==> TypeMatches(value, t, false)
  {
  }

  predicate TypeMeets(value: Json, t: Option<Json>, floats: bool) {
    match t
    case Some(Arr(ts)) => exists i | 0 <= i < |ts| :: ts[i].Str? && TypeMatches(value, ts[i].s, floats)
    case Some(Str(s)) => TypeMatches(value, s, floats)
    case _ => true
  }

  predicate Declared(properties: Option<Json>, key: string) {
    properties.Some? && Has(properties.value, key)
  }

  /** Every keyword of a schema applies, and `true` and `false` are schemas. Whether integral floats
      are integers is left to `floats`. */
  ghost predicate Meets(instance: Json, schema: Json, floats: bool)
    decreases schema
  {
    var anyOf, properties, items := Get(schema, "anyOf"), Get(schema, "properties"), Get(schema, "items");
    var additional := Get(schema, "additionalProperties");
    if schema.Bool? then schema.b
    else
      && (anyOf.Some? && anyOf.value.Arr? ==>
            exists i | 0 <= i < |anyOf.value.elements| :: Meets(instance, anyOf.value.elements[i], floats))
      && TypeMeets(instance, Get(schema, "type"), floats)
      && (instance.Obj? ==>
            && RequiredPresent(instance, Get(schema, "required"))
            && (properties.Some? && properties.value.Obj? ==>
                  forall i | 0 <= i < |properties.value.fields| && Has(instance, properties.value.fields[i].key) ::
                    Meets(Value(instance, properties.value.fields[i].key), properties.value.fields[i].value, floats))
            && (additional.Some? ==>
                  forall i | 0 <= i < |instance.fields| && !Declared(properties, instance.fields[i].key) ::
                    Meets(instance.fields[i].value, additional.value, floats)))
      && (instance.Arr? && items.Some? ==>
            forall i | 0 <= i < |instance.elements| :: Meets(instance.elements[i], items.value, floats))
  }

  /** The JSON Schema reading of the keywords the validator knows. */
  ghost predicate Standard(instance: Json, schema: Json) {
    Meets(instance, schema, true)
  }

  // ---------- integral floats ----------

  /** No part of a document is an integral float. */
  predicate NoIntegralFloat(doc: Json) {
    && !Integral(doc)
    && (doc.Arr? ==> forall i | 0 <= i < |doc.elements| :: NoIntegralFloat(doc.elements[i]))
    && (doc.Obj? ==> forall i | 0 <= i < |doc.fields| :: NoIntegralFloat(doc.fields[i].value))
  }

  predicate SpeaksOfIntegers(t: Option<Json>) {
    match t
    case Some(Arr(ts)) => Str("integer") in ts
    case Some(Str(s)) => s == "integer"
    case _ => false
  }

  /** No part of a schema asks for an integer. */
  predicate NoIntegerType(schema: Json)
    decreases schema
  {
    var anyOf, properties, items := Get(schema, "anyOf"), Get(schema, "properties"), Get(schema, "items");
    var additional := Get(schema, "additionalProperties");
    && !SpeaksOfIntegers(Get(schema, "type"))
    && (anyOf.Some? && anyOf.value.Arr? ==>
          forall i | 0 <= i < |anyOf.value.elements| :: NoIntegerType(anyOf.value.elements[i]))
    && (properties.Some? && properties.value.Obj? ==>
          forall i | 0 <= i < |properties.value.fields| :: NoIntegerType(properties.value.fields[i].value))
    && (additional.Some? ==> NoIntegerType(additional.value))
    && (items.Some? ==> NoIntegerType(items.value))
  }

  /** What a caller can look at beforehand: the two readings of integers cannot differ here. */
  predicate IntegersAgree(instance: Json, schema: Json) {
    NoIntegralFloat(instance) || NoIntegerType(schema)
  }

  lemma TypeAgrees(value: Json, t: Option<Json>)
    ensures TypeMeets(value, t, false) <==> TypeAdmits(value, t)
    ensures TypeMeets(value, t, false) ==> TypeMeets(value, t, true)
    ensures !Integral(value) || !SpeaksOfIntegers(t) ==> (TypeMeets(value, t, true) <==> TypeMeets(value, t, false))
  {
    if t.Some? && t.value.Str? {
      TypeOkIff(value, t.value.s);
    }
    hide TypeOk, Integral, TypeNames;
    if t.Some? && t.value.Arr? {
      var ts := t.value.elements;
      forall i | 0 <= i < |ts| && ts[i].Str?
        ensures TypeMatches(value, ts[i].s, false) <==> TypeOk(value, ts[i].s)
        ensures TypeMatches(value, ts[i].s, false) ==> TypeMatches(value, ts[i].s, true)
      {
        TypeOkIff(value, ts[i].s);
      }
      if TypeMeets(value, t, true) && (!Integral(value) || !SpeaksOfIntegers(t)) {
        var i :| 0 <= i < |ts| && ts[i].Str? && TypeMatches(value, ts[i].s, true);
        assert ts[i] in ts && ts[i] == Str(ts[i].s);
        assert TypeMatches(value, ts[i].s, false);
      }
    }
  }

  ghost predicate FloatsMatter(instance: Json, schema: Json, same: bool) {
    && (Meets(instance, schema, false) ==> Meets(instance, schema, true))
    && (same ==> (Meets(instance, schema, true) <==> Meets(instance, schema, false)))
  }

  lemma PartHasNoFloat(doc: Json, key: string)
    requires Has(doc, key) && NoIntegralFloat(doc)
    ensures NoIntegralFloat(Value(doc, key))
  {
  }

  /** The readings of all parts of an instance, by the parts of a schema. */
  ghost predicate PartsMatter(instance: Json, schema: Json, same: bool) {
    var anyOf, properties, items := Get(schema, "anyOf"), Get(schema, "properties"), Get(schema, "items");
    var additional := Get(schema, "additionalProperties");
    && (anyOf.Some? && anyOf.value.Arr? ==>
          forall i | 0 <= i < |anyOf.value.elements| :: FloatsMatter(instance, anyOf.value.elements[i], same))
    && (instance.Obj? && properties.Some? && properties.value.Obj? ==>
          forall i | 0 <= i < |properties.value.fields| && Has(instance, properties.value.fields[i].key) ::
            FloatsMatter(Value(instance, properties.value.fields[i].key), properties.value.fields[i].value, same))
    && (instance.Obj? && additional.Some? ==>
          forall i | 0 <= i < |instance.fields| :: FloatsMatter(instance.fields[i].value, additional.value, same))
    && (instance.Arr? && items.Some? ==>
          forall i | 0 <= i < |instance.elements| :: FloatsMatter(instance.elements[i], items.value, same))
  }

  lemma {:induction false} PartsDecide(instance: Json, schema: Json, same: bool)
    requires PartsMatter(instance, schema, same) && (same ==> IntegersAgree(instance, schema))
    ensures FloatsMatter(instance, schema, same)
  {
    hide Get, TypeMeets, SpeaksOfIntegers, RequiredPresent, Integral, Declared, Has, Value;
    TypeAgrees(instance, Get(schema, "type"));
    hide NoIntegralFloat, NoIntegerType;
    StricterImplies(instance, schema, same);
    if same && Meets(instance, schema, true) {
      StandardImplies(instance, schema);
    }
  }

  lemma {:induction false} StricterImplies(instance: Json, schema: Json, same: bool)
    requires PartsMatter(instance, schema, same)
    ensures Meets(instance, schema, false) ==> Meets(instance, schema, true)
  {
    TypeAgrees(instance, Get(schema, "type"));
    hide Get, TypeMeets, RequiredPresent, Declared, Has, Value;
  }

  lemma {:induction false} StandardImplies(instance: Json, schema: Json)
    requires PartsMatter(instance, schema, true) && IntegersAgree(instance, schema)
    requires Meets(instance, schema, true)
    ensures Meets(instance, schema, false)
  {
    TypesAgree(instance, schema);
    hide Get, TypeMeets, RequiredPresent, Declared, Has, Value, IntegersAgree;
  }

  lemma TypesAgree(instance: Json, schema: Json)
    requires IntegersAgree(instance, schema)
    ensures TypeMeets(instance, Get(schema, "type"), true) <==> TypeMeets(instance, Get(schema, "type"), false)
  {
    TypeAgrees(instance, Get(schema, "type"));
    hide Get, TypeMeets, SpeaksOfIntegers, Integral;
  }

  /** The stricter reading of integers implies the standard one, and equals it when no float of the
      instance is integral or the schema asks for no integer. */
  lemma {:induction false} FloatsAgree(instance: Json, schema: Json, same: bool)
    requires same ==> IntegersAgree(instance, schema)
    ensures FloatsMatter(instance, schema, same)
    decreases schema
  {
    hide Get, Meets, FloatsMatter, SpeaksOfIntegers, Integral, Has, Value;
    var anyOf, properties, items := Get(schema, "anyOf"), Get(schema, "properties"), Get(schema, "items");
    var additional := Get(schema, "additionalProperties");
    if anyOf.Some? && anyOf.value.Arr? {
      forall i | 0 <= i < |anyOf.value.elements|
        ensures FloatsMatter(instance, anyOf.value.elements[i], same)
      {
        FloatsAgree(instance, anyOf.value.elements[i], same);
      }
    }
    if instance.Obj? && properties.Some? && properties.value.Obj? {
      var fields := properties.value.fields;
      forall i | 0 <= i < |fields| && Has(instance, fields[i].key)
        ensures FloatsMatter(Value(instance, fields[i].key), fields[i].value, same)
      {
        if NoIntegralFloat(instance) {
          PartHasNoFloat(instance, fields[i].key);
        }
        FloatsAgree(Value(instance, fields[i].key), fields[i].value, same);
      }
    }
    if instance.Obj? && additional.Some? {
      forall i | 0 <= i < |instance.fields|
        ensures FloatsMatter(instance.fields[i].value, additional.value, same)
      {
        FloatsAgree(instance.fields[i].value, additional.value, same);
      }
    }
    if instance.Arr? && items.Some? {
      forall i | 0 <= i < |instance.elements|
        ensures FloatsMatter(instance.elements[i], items.value, same)
      {
        FloatsAgree(instance.elements[i], items.value, same);
      }
    }
    PartsDecide(instance, schema, same);
  }

  /** The validator refuses every integral float where an integer is asked for; the standard admits it. */
  lemma IntegralFloatRefused(x: real, path: Path)
    requires x == x.Floor as real
    ensures var schema := Obj([Field("type", Str("integer"))]);
            Errors(Float(x), schema, path) == [Violation(path, TypeMismatch)] && Standard(Float(x), schema)
  {
    var schema := Obj([Field("type", Str("integer"))]);
    assert schema.fields[1..] == [];
    assert Get(schema, "type") == Some(Str("integer")) && Get(schema, "anyOf") == None;
  }

  // ---------- what the validator passes over ----------

  function Kept(key: string, value: Option<Json>): seq<Field> {
    match value
    case Some(v) => [Field(key, v)]
    case None => []
  }

  /** A schema without what the validator passes over: alternatives stand alone, what is not a
      dictionary demands nothing, and closed properties count only with properties declared. */
  function Read(schema: Json): Json
    decreases schema
  {
    var anyOf, properties, items := Get(schema, "anyOf"), Get(schema, "properties"), Get(schema, "items");
    if !schema.Obj? then Bool(true)
    else if anyOf.Some? && anyOf.value.Arr? then
      var branches := anyOf.value.elements;
      Obj([Field("anyOf", Arr(seq(|branches|, i requires 0 <= i < |branches| => Read(branches[i]))))])
    else
      var declared := properties.Some? && properties.value.Obj?;
      var closed := declared && Get(schema, "additionalProperties") == Some(Bool(false));
      Obj(Kept("type", Get(schema, "type"))
          + Kept("required", Get(schema, "required"))
          + Kept("properties", if declared then Some(ReadFields(properties.value)) else None)
          + Kept("additionalProperties", if closed then Some(Bool(false)) else None)
          + Kept("items", if items.Some? && items.value.Obj? then Some(Read(items.value)) else None))
  }

  function ReadFields(properties: Json): (r: Json)
    requires properties.Obj?
    ensures r.Obj? && |r.fields| == |properties.fields|
    ensures forall i | 0 <= i < |r.fields| ::
              r.fields[i] == Field(properties.fields[i].key, Read(properties.fields[i].value))
    decreases properties, 0
  {
    var fs := properties.fields;
    Obj(seq(|fs|, i requires 0 <= i < |fs| => Field(fs[i].key, Read(fs[i].value))))
  }

  lemma GetKept(k: string, v: Option<Json>, rest: seq<Field>, key: string)
    ensures Get(Obj(Kept(k, v) + rest), key) == if key == k && v.Some? then v else Get(Obj(rest), key)
  {
    if v.Some? {
      assert ([Field(k, v.value)] + rest)[1..] == rest;
    } else {
      assert [] + rest == rest;
    }
  }

  lemma GetAfterRead(t: Option<Json>, r: Option<Json>, p: Option<Json>, a: Option<Json>, i: Option<Json>, key: string)
    ensures var fields := Kept("type", t) + Kept("required", r) + Kept("properties", p)
                          + Kept("additionalProperties", a) + Kept("items", i);
            Get(Obj(fields), key) ==
            if key == "type" then t
            else if key == "required" then r
            else if key == "properties" then p
            else if key == "additionalProperties" then a
            else if key == "items" then i
            else None
  {
    hide Get, Kept;
    var f5 := Kept("items", i);
    var f4 := Kept("additionalProperties", a) + f5;
    var f3 := Kept("properties", p) + f4;
    var f2 := Kept("required", r) + f3;
    GetKept("type", t, f2, key);
    GetKept("required", r, f3, key);
    GetKept("properties", p, f4, key);
    GetKept("additionalProperties", a, f5, key);
    GetKept("items", i, [], key);
    GetNothing(key);
    assert f5 + [] == f5;
    assert Kept("type", t) + Kept("required", r) + Kept("properties", p) + Kept("additionalProperties", a) + f5
        == Kept("type", t) + f2;
  }

  lemma GetNothing(key: string)
    ensures Get(Obj([]), key) == None
  {
  }

  /** The keywords of what is read of a schema without alternatives. */
  lemma ReadKeywords(schema: Json)
    requires schema.Obj? && !(Has(schema, "anyOf") && Value(schema, "anyOf").Arr?)
    ensures var r := Read(schema);
            var declared := Has(schema, "properties") && Value(schema, "properties").Obj?;
            && r.Obj? && Get(r, "anyOf") == None
            && Get(r, "type") == Get(schema, "type") && Get(r, "required") == Get(schema, "required")
            && Get(r, "properties") == (if declared then Some(ReadFields(Value(schema, "properties"))) else None)
            && Get(r, "additionalProperties") ==
               (if declared && Get(schema, "additionalProperties") == Some(Bool(false)) then Some(Bool(false))
                else None)
            && Get(r, "items") ==
               (if Has(schema, "items") && Value(schema, "items").Obj? then Some(Read(Value(schema, "items")))
                else None)
  {
    hide Get, Kept;
    var properties, items := Get(schema, "properties"), Get(schema, "items");
    var declared := properties.Some? && properties.value.Obj?;
    var p := if declared then Some(ReadFields(properties.value)) else None;
    var a := if declared && Get(schema, "additionalProperties") == Some(Bool(false)) then Some(Bool(false)) else None;
    var i := if items.Some? && items.value.Obj? then Some(Read(items.value)) else None;
    forall key
      ensures Get(Read(schema), key) ==
              if key == "type" then Get(schema, "type")
              else if key == "required" then Get(schema, "required")
              else if key == "properties" then p
              else if key == "additionalProperties" then a
              else if key == "items" then i
              else None
    {
      GetAfterRead(Get(schema, "type"), Get(schema, "required"), p, a, i, key);
    }
  }

  lemma {:induction false} SameKeys(a: seq<Field>, b: seq<Field>, key: string)
    requires |a| == |b| && forall i | 0 <= i < |a| :: a[i].key == b[i].key
    ensures IndexOf(a, key) == IndexOf(b, key)
  {
    if a != [] {
      SameKeys(a[1..], b[1..], key);
    }
  }

  lemma ReadBranches(schema: Json)
    requires schema.Obj? && Has(schema, "anyOf") && Value(schema, "anyOf").Arr?
    ensures var r := Read(schema);
            var branches := Value(schema, "anyOf").elements;
            && r.Obj? && Has(r, "anyOf") && Value(r, "anyOf").Arr? && |Value(r, "anyOf").elements| == |branches|
            && (forall i | 0 <= i < |branches| :: Value(r, "anyOf").elements[i] == Read(branches[i]))
            && Get(r, "type") == None && Get(r, "required") == None && Get(r, "properties") == None
            && Get(r, "additionalProperties") == None && Get(r, "items") == None
  {
    var r := Read(schema);
    assert r.fields[1..] == [];
  }

  lemma NoDemands(instance: Json)
    ensures TypeMeets(instance, None, false) && RequiredPresent(instance, None)
  {
  }

  /** With integers read as the validator reads them, its whole meaning is the standard meaning of
      what it reads of the schema. */
  lemma {:induction false} ConformsIsReading(instance: Json, schema: Json)
    ensures Conforms(instance, schema) <==> Meets(instance, Read(schema), false)
    decreases schema, 1
  {
    hide Conforms, Meets, Read;
    if !schema.Obj? {
      NothingRead(instance, schema);
    } else if Has(schema, "anyOf") && Value(schema, "anyOf").Arr? {
      BranchesReading(instance, schema);
    } else {
      KeywordsReading(instance, schema);
    }
  }

  lemma {:induction false} BranchesReading(instance: Json, schema: Json)
    requires schema.Obj? && Has(schema, "anyOf") && Value(schema, "anyOf").Arr?
    ensures Conforms(instance, schema) <==> Meets(instance, Read(schema), false)
    decreases schema, 0
  {
    ReadBranches(schema);
    NoDemands(instance);
    hide TypeMeets, RequiredPresent, Read;
    var branches, read := Value(schema, "anyOf").elements, Value(Read(schema), "anyOf").elements;
    forall i | 0 <= i < |branches|
      ensures Conforms(instance, branches[i]) <==> Meets(instance, read[i], false)
    {
      ConformsIsReading(instance, branches[i]);
    }
  }

  lemma NothingRead(instance: Json, schema: Json)
    requires !schema.Obj?
    ensures Conforms(instance, schema) && Meets(instance, Read(schema), false)
  {
  }

  lemma {:induction false} KeywordsReading(instance: Json, schema: Json)
    requires schema.Obj? && !(Has(schema, "anyOf") && Value(schema, "anyOf").Arr?)
    ensures Conforms(instance, schema) <==> Meets(instance, Read(schema), false)
    decreases schema, 0
  {
    ReadKeywords(schema);
    TypeAgrees(instance, Get(schema, "type"));
    hide TypeMeets, TypeAdmits, RequiredPresent, Read, Get, Kept;
    if instance.Obj? && Has(schema, "properties") && Value(schema, "properties").Obj? {
      PropertiesReading(instance, Value(schema, "properties"));
      ClosedReading(instance, Value(schema, "properties"));
    }
    if instance.Arr? && Has(schema, "items") && Value(schema, "items").Obj? {
      var items := Value(schema, "items");
      forall i | 0 <= i < |instance.elements|
        ensures Conforms(instance.elements[i], items) <==> Meets(instance.elements[i], Read(items), false)
      {
        ConformsIsReading(instance.elements[i], items);
      }
    }
  }

  lemma {:induction false} PropertiesReading(instance: Json, properties: Json)
    requires instance.Obj? && properties.Obj?
    ensures var read := ReadFields(properties);
            forall i | 0 <= i < |properties.fields| && Has(instance, properties.fields[i].key) ::
              Conforms(Value(instance, properties.fields[i].key), properties.fields[i].value)
              <==> Meets(Value(instance, read.fields[i].key), read.fields[i].value, false)
    decreases properties, 0
  {
    hide Conforms, Meets, Read, Has, Value;
    forall i | 0 <= i < |properties.fields| && Has(instance, properties.fields[i].key)
      ensures var v, f := Value(instance, properties.fields[i].key), properties.fields[i].value;
              Conforms(v, f) <==> Meets(v, Read(f), false)
    {
      ConformsIsReading(Value(instance, properties.fields[i].key), properties.fields[i].value);
    }
  }

  /** Closed properties stay closed to the same keys. */
  lemma ClosedReading(instance: Json, properties: Json)
    requires instance.Obj? && properties.Obj?
    ensures NothingElse(instance, properties) <==>
            forall i | 0 <= i < |instance.fields| && !Declared(Some(ReadFields(properties)), instance.fields[i].key) ::
              Meets(instance.fields[i].value, Bool(false), false)
  {
    forall i | 0 <= i < |instance.fields|
      ensures Declared(Some(ReadFields(properties)), instance.fields[i].key) <==>
                Has(properties, instance.fields[i].key)
      ensures !Meets(instance.fields[i].value, Bool(false), false)
    {
      SameKeys(properties.fields, ReadFields(properties).fields, instance.fields[i].key);
    }
  }

  // ---------- when the report agrees with the standard ----------

  /** Nothing is reported exactly when the instance meets what the validator reads of the schema, in
      the standard meaning, except that integral floats are not integers. */
  lemma {:induction false} ReportsNothingIffReading(instance: Json, schema: Json, path: Path)
    ensures Errors(instance, schema, path) == [] <==> Meets(instance, Read(schema), false)
    ensures Errors(instance, schema, path) == [] ==> Standard(instance, Read(schema))
    ensures IntegersAgree(instance, Read(schema)) ==>
              (Errors(instance, schema, path) == [] <==> Standard(instance, Read(schema)))
  {
    hide Errors, Conforms, Meets, Read, IntegersAgree;
    NoErrorsIffConforms(instance, schema, path);
    ConformsIsReading(instance, schema);
    FloatsAgree(instance, Read(schema), IntegersAgree(instance, Read(schema)));
  }

  /** What meets the schema with integers read strictly is not refused. */
  lemma {:induction false} MeetsConforms(instance: Json, schema: Json)
    requires Meets(instance, schema, false)
    ensures Conforms(instance, schema)
    decreases schema
  {
    TypeAgrees(instance, Get(schema, "type"));
    hide Get, TypeAdmits, TypeMeets, RequiredPresent, Has, Value;
    var anyOf, properties, items := Get(schema, "anyOf"), Get(schema, "properties"), Get(schema, "items");
    if schema.Obj? {
      if anyOf.Some? && anyOf.value.Arr? {
        var i :| 0 <= i < |anyOf.value.elements| && Meets(instance, anyOf.value.elements[i], false);
        MeetsConforms(instance, anyOf.value.elements[i]);
      } else {
        if instance.Obj? && properties.Some? && properties.value.Obj? {
          forall i | 0 <= i < |properties.value.fields| && Has(instance, properties.value.fields[i].key)
            ensures Conforms(Value(instance, properties.value.fields[i].key), properties.value.fields[i].value)
          {
            MeetsConforms(Value(instance, properties.value.fields[i].key), properties.value.fields[i].value);
          }
          if Get(schema, "additionalProperties") == Some(Bool(false)) {
            ClosedMeans(instance, properties.value);
          }
        }
        if instance.Arr? && items.Some? && items.value.Obj? {
          forall i | 0 <= i < |instance.elements|
            ensures Conforms(instance.elements[i], items.value)
          {
            MeetsConforms(instance.elements[i], items.value);
          }
        }
      }
    }
  }

  lemma ClosedMeans(instance: Json, properties: Json)
    requires instance.Obj?
    ensures NothingElse(instance, properties) <==>
            forall i | 0 <= i < |instance.fields| && !Declared(Some(properties), instance.fields[i].key) ::
              Meets(instance.fields[i].value, Bool(false), false)
  {
    forall i | 0 <= i < |instance.fields|
      ensures Declared(Some(properties), instance.fields[i].key) <==> Has(properties, instance.fields[i].key)
      ensures !Meets(instance.fields[i].value, Bool(false), false)
    {
    }
  }

  /** The validator refuses nothing the standard accepts, where the readings of integers agree. */
  lemma {:induction false} StandardConforms(instance: Json, schema: Json)
    requires Standard(instance, schema) && IntegersAgree(instance, schema)
    ensures Conforms(instance, schema)
  {
    hide Meets, Conforms, IntegersAgree;
    FloatsAgree(instance, schema, true);
    MeetsConforms(instance, schema);
  }

  /** No part of the schema uses what the validator passes over: alternatives beside another keyword,
      the schema `false`, a schema for additional properties, or closed properties without any declared. */
  ghost predicate Supported(schema: Json)
    decreases schema
  {
    var anyOf, properties, items := Get(schema, "anyOf"), Get(schema, "properties"), Get(schema, "items");
    var additional := Get(schema, "additionalProperties");
    && schema != Bool(false)
    && (anyOf.Some? && anyOf.value.Arr? ==>
          && Get(schema, "type").None? && Get(schema, "required").None? && properties.None? && items.None?
          && additional.None?
          && forall i | 0 <= i < |anyOf.value.elements| :: Supported(anyOf.value.elements[i]))
    && (additional.Some? ==> !additional.value.Obj?)
    && (additional == Some(Bool(false)) ==> properties.Some? && properties.value.Obj?)
    && (properties.Some? && properties.value.Obj? ==>
          forall i | 0 <= i < |properties.value.fields| :: Supported(properties.value.fields[i].value))
    && (items.Some? ==> Supported(items.value))
  }

  lemma OnlyObjectsDemand(instance: Json, schema: Json)
    requires !schema.Obj? && schema != Bool(false)
    ensures Meets(instance, schema, false)
  {
  }

  lemma OpenAddsNothing(instance: Json, additional: Json)
    requires instance.Obj? && !additional.Obj? && additional != Bool(false)
    ensures forall i | 0 <= i < |instance.fields| :: Meets(instance.fields[i].value, additional, false)
  {
    forall i | 0 <= i < |instance.fields|
      ensures Meets(instance.fields[i].value, additional, false)
    {
      OnlyObjectsDemand(instance.fields[i].value, additional);
    }
  }

  lemma {:induction false} SupportedAgrees(instance: Json, schema: Json)
    requires Supported(schema) && Conforms(instance, schema)
    ensures Meets(instance, schema, false)
    decreases schema
  {
    TypeAgrees(instance, Get(schema, "type"));
    NoDemands(instance);
    var anyOf, properties, items := Get(schema, "anyOf"), Get(schema, "properties"), Get(schema, "items");
    var additional := Get(schema, "additionalProperties");
    if !schema.Obj? {
      OnlyObjectsDemand(instance, schema);
    } else if anyOf.Some? && anyOf.value.Arr? {
      hide Get, TypeAdmits, TypeMeets, RequiredPresent, NothingElse, Declared, Has, Value;
      var i :| 0 <= i < |anyOf.value.elements| && Conforms(instance, anyOf.value.elements[i]);
      SupportedAgrees(instance, anyOf.value.elements[i]);
    } else {
      hide Get, TypeAdmits, TypeMeets, RequiredPresent, NothingElse, Declared, Has, Value;
      if instance.Obj? && properties.Some? && properties.value.Obj? {
        forall i | 0 <= i < |properties.value.fields| && Has(instance, properties.value.fields[i].key)
          ensures Meets(Value(instance, properties.value.fields[i].key), properties.value.fields[i].value, false)
        {
          SupportedAgrees(Value(instance, properties.value.fields[i].key), properties.value.fields[i].value);
        }
      }
      if instance.Obj? && additional.Some? {
        if additional.value == Bool(false) {
          ClosedMeans(instance, properties.value);
        } else {
          OpenAddsNothing(instance, additional.value);
        }
      }
      if instance.Arr? && items.Some? {
        forall i | 0 <= i < |instance.elements|
          ensures Meets(instance.elements[i], items.value, false)
        {
          NotASchema(instance.elements[i], items.value);
          SupportedAgrees(instance.elements[i], items.value);
        }
      }
    }
  }

  lemma NotASchema(instance: Json, schema: Json)
    ensures !schema.Obj? ==> Conforms(instance, schema)
  {
  }

  /** On a supported schema the report is empty exactly when the standard accepts the instance, where
      the readings of integers agree. */
  lemma {:induction false} ReportsNothingIffStandard(instance: Json, schema: Json, path: Path)
    requires Supported(schema) && IntegersAgree(instance, schema)
    ensures Errors(instance, schema, path) == [] <==> Standard(instance, schema)
  {
    hide Errors, Conforms, Meets, IntegersAgree, Supported;
    NoErrorsIffConforms(instance, schema, path);
    FloatsAgree(instance, schema, true);
    if Conforms(instance, schema) {
      SupportedAgrees(instance, schema);
    }
    if Standard(instance, schema) {
      StandardConforms(instance, schema);
    }
  }

  // ---------- the shipped schema ----------

  function OfType(name: string): Json {
    Obj([Field("type", Str(name))])
  }

  /** What a broker configuration declares. */
  const BROKER_PROPERTIES: Json := Obj([
    Field("broker", OfType("string")), Field("notes", OfType("string")), Field("provider", OfType("string")),
    Field("schema_version", OfType("integer"))])

  const BROKER_REQUIRED: Json := Arr([Str("broker"), Str("notes"), Str("provider"), Str("schema_version")])

  const BROKER_SCHEMA: Json := Obj([
    Field("$schema", Str("https://json-schema.org/draft/2020-12/schema")),
    Field("additionalProperties", Bool(false)),
    Field("properties", BROKER_PROPERTIES),
    Field("required", BROKER_REQUIRED),
    Field("title", Str("BIST_ELITE_CORE Broker Config")),
    Field("type", Str("object"))])

  lemma BrokerKeywords()
    ensures Get(BROKER_SCHEMA, "anyOf") == None && Get(BROKER_SCHEMA, "items") == None
    ensures Get(BROKER_SCHEMA, "type") == Some(Str("object")) && Get(BROKER_SCHEMA, "required") == Some(BROKER_REQUIRED)
    ensures Get(BROKER_SCHEMA, "properties") == Some(BROKER_PROPERTIES)
    ensures Get(BROKER_SCHEMA, "additionalProperties") == Some(Bool(false))
  {
    var fs := BROKER_SCHEMA.fields;
    KeyAt(fs, 1);
    KeyAt(fs, 2);
    KeyAt(fs, 3);
    KeyAt(fs, 5);
    assert fs[0].key == "$schema" && fs[4].key == "title";
    assert forall i | 0 <= i < 6 :: fs[i].key != "anyOf" && fs[i].key != "items";
  }

  lemma KeyAt(fields: seq<Field>, i: nat)
    requires i < |fields| && forall j | 0 <= j < |fields| && j != i :: fields[j].key != fields[i].key
    ensures Get(Obj(fields), fields[i].key) == Some(fields[i].value)
  {
  }

  lemma BrokerKeys(key: string)
    ensures Get(BROKER_PROPERTIES, key).Some? <==> key in {"broker", "notes", "provider", "schema_version"}
  {
    var fs := BROKER_PROPERTIES.fields;
    assert fs[0].key == "broker" && fs[1].key == "notes" && fs[2].key == "provider" && fs[3].key == "schema_version";
  }

  /** A schema that names one type asks for that type and nothing else. */
  lemma ConformsToType(value: Json, name: string)
    ensures Conforms(value, OfType(name)) <==> TypeMatches(value, name, false)
  {
    var schema := OfType(name);
    KeyAt(schema.fields, 0);
    assert Get(schema, "anyOf") == None && Get(schema, "properties") == None && Get(schema, "items") == None;
    assert Get(schema, "required") == None;
    hide Get;
  }

  lemma BrokerProperties(instance: Json)
    requires instance.Obj?
    ensures (forall i | 0 <= i < 4 && Has(instance, BROKER_PROPERTIES.fields[i].key) ::
               Conforms(Value(instance, BROKER_PROPERTIES.fields[i].key), BROKER_PROPERTIES.fields[i].value)) <==>
            && (Has(instance, "broker") ==> Value(instance, "broker").Str?)
            && (Has(instance, "notes") ==> Value(instance, "notes").Str?)
            && (Has(instance, "provider") ==> Value(instance, "provider").Str?)
            && (Has(instance, "schema_version") ==> Value(instance, "schema_version").Int?)
  {
    var fs := BROKER_PROPERTIES.fields;
    assert fs[0] == Field("broker", OfType("string")) && fs[1] == Field("notes", OfType("string"));
    assert fs[2] == Field("provider", OfType("string")) && fs[3] == Field("schema_version", OfType("integer"));
    forall v: Json
      ensures Conforms(v, OfType("string")) <==> v.Str?
      ensures Conforms(v, OfType("integer")) <==> v.Int?
    {
      ConformsToType(v, "string");
      ConformsToType(v, "integer");
    }
    hide Has, Value, Conforms, OfType, BROKER_PROPERTIES;
  }

  lemma BrokerRequired(instance: Json)
    ensures RequiredPresent(instance, Some(BROKER_REQUIRED)) <==>
            && Has(instance, "broker") && Has(instance, "notes") && Has(instance, "provider")
            && Has(instance, "schema_version")
  {
    var names := BROKER_REQUIRED.elements;
    assert names[0] == Str("broker") && names[1] == Str("notes") && names[2] == Str("provider");
    assert names[3] == Str("schema_version");
    hide Get;
  }

  lemma {:induction false} BrokerConforms(instance: Json)
    ensures Conforms(instance, BROKER_SCHEMA) <==>
            && instance.Obj? && RequiredPresent(instance, Some(BROKER_REQUIRED))
            && (forall i | 0 <= i < 4 && Has(instance, BROKER_PROPERTIES.fields[i].key) ::
                  Conforms(Value(instance, BROKER_PROPERTIES.fields[i].key), BROKER_PROPERTIES.fields[i].value))
            && NothingElse(instance, BROKER_PROPERTIES)
  {
    BrokerKeywords();
    assert BROKER_SCHEMA.Obj? && BROKER_PROPERTIES.Obj? && |BROKER_PROPERTIES.fields| == 4;
    ObjectType(instance);
    hide Get, BROKER_SCHEMA, BROKER_PROPERTIES, BROKER_REQUIRED, TypeMeets, RequiredPresent, NothingElse;
  }

  lemma ObjectType(instance: Json)
    ensures TypeMeets(instance, Some(Str("object")), false) <==> instance.Obj?
  {
  }

  lemma BrokerNothingElse(instance: Json)
    requires instance.Obj?
    ensures NothingElse(instance, BROKER_PROPERTIES) <==>
            forall i | 0 <= i < |instance.fields| ::
              instance.fields[i].key in {"broker", "notes", "provider", "schema_version"}
  {
    hide Get, BROKER_PROPERTIES;
    forall i | 0 <= i < |instance.fields|
      ensures Get(BROKER_PROPERTIES, instance.fields[i].key).Some? <==>
              instance.fields[i].key in {"broker", "notes", "provider", "schema_version"}
    {
      BrokerKeys(instance.fields[i].key);
    }
  }

  /** Against the shipped schema nothing is reported exactly for a dictionary of a broker, notes and a
      provider, all texts, and an integral schema version, with no other key. */
  lemma {:induction false} BrokerConfigAccepted(instance: Json, path: Path)
    ensures Errors(instance, BROKER_SCHEMA, path) == [] <==>
            && instance.Obj?
            && Has(instance, "broker") && Value(instance, "broker").Str?
            && Has(instance, "notes") && Value(instance, "notes").Str?
            && Has(instance, "provider") && Value(instance, "provider").Str?
            && Has(instance, "schema_version") && Value(instance, "schema_version").Int?
            && (forall i | 0 <= i < |instance.fields| ::
                  instance.fields[i].key in {"broker", "notes", "provider", "schema_version"})
  {
    hide Errors, Conforms, BROKER_SCHEMA, BROKER_REQUIRED, RequiredPresent, NothingElse, Has, Value;
    NoErrorsIffConforms(instance, BROKER_SCHEMA, path);
    BrokerConforms(instance);
    BrokerRequired(instance);
    if instance.Obj? {
      BrokerProperties(instance);
      BrokerNothingElse(instance);
    }
  }

  // ---------- where the two readings part ----------

  /** With a list of alternatives, nothing else in the schema matters. */
  lemma AlternativesStandAlone(instance: Json, a: Json, b: Json, path: Path)
    requires a.Obj? && b.Obj? && Get(a, "anyOf") == Get(b, "anyOf") && Has(a, "anyOf") && Value(a, "anyOf").Arr?
    ensures Errors(instance, a, path) == Errors(instance, b, path)
  {
    hide Get;
  }

  /** A number passes a schema of strings that has an alternative admitting everything. */
  lemma SiblingsIgnored()
    ensures var schema := Obj([Field("anyOf", Arr([Obj([])])), Field("type", Str("string"))]);
            Errors(Int(5), schema, []) == [] && !Standard(Int(5), schema)
  {
    var schema := Obj([Field("anyOf", Arr([Obj([])])), Field("type", Str("string"))]);
    assert Errors(Int(5), Obj([]), []) == [];
    assert schema.fields[1..] == [Field("type", Str("string"))];
    assert Get(schema, "anyOf") == Some(Arr([Obj([])]));
    assert Get(schema, "type") == Some(Str("string"));
    assert Arr([Obj([])]).elements[0] == Obj([]);
  }

  /** The schema `false` refuses everything, and the validator nothing. */
  lemma FalseAcceptsAll(instance: Json, path: Path)
    ensures Errors(instance, Bool(false), path) == [] && !Standard(instance, Bool(false))
  {
  }

  /** Without declared properties the validator leaves closed properties open. */
  lemma ClosedWithoutDeclared(path: Path)
    ensures var schema, instance := Obj([Field("additionalProperties", Bool(false))]), Obj([Field("a", Null)]);
            Errors(instance, schema, path) == [] && !Standard(instance, schema)
  {
    var schema, instance := Obj([Field("additionalProperties", Bool(false))]), Obj([Field("a", Null)]);
    assert schema.fields[1..] == [];
    assert Get(schema, "additionalProperties") == Some(Bool(false));
    assert Get(schema, "properties") == None && Get(schema, "anyOf") == None && Get(schema, "type") == None;
    assert !Declared(None, instance.fields[0].key) && !Meets(instance.fields[0].value, Bool(false), true);
  }

  // ---------- where violations point ----------

  function At(doc: Json, path: Path): Option<Json> {
    if path == [] then Some(doc)
    else
      match path[0]
      case Key(k) => if Get(doc, k).Some? then At(Get(doc, k).value, path[1..]) else None
      case Index(i) => if doc.Arr? && i < |doc.elements| then At(doc.elements[i], path[1..]) else None
  }

  /** A mismatch names a part of the document; a missing or an additional property names a key that
      an object of the document lacks or has. */
  predicate PointsAt(doc: Json, path: Path, fault: Fault) {
    if fault == TypeMismatch || fault == NoBranchMatches then At(doc, path).Some?
    else
      && path != [] && path[|path| - 1].Key?
      && var parent := At(doc, path[..|path| - 1]);
         parent.Some? && parent.value.Obj?
         && (Get(parent.value, path[|path| - 1].key).None? <==> fault == MissingProperty)
  }

  ghost predicate Located(errs: seq<Violation>, doc: Json, base: Path) {
    forall v | v in errs :: base <= v.path && PointsAt(doc, v.path[|base|..], v.fault)
  }

  lemma PointsBelow(doc: Json, step: Step, inner: Json, path: Path, fault: Fault)
    requires At(doc, [step]) == Some(inner) && PointsAt(inner, path, fault)
    ensures PointsAt(doc, [step] + path, fault)
  {
    StepThen(doc, step, inner, path);
    if path != [] {
      StepThen(doc, step, inner, path[..|path| - 1]);
      assert ([step] + path)[..|path|] == [step] + path[..|path| - 1];
    }
  }

  lemma StepThen(doc: Json, step: Step, inner: Json, path: Path)
    requires At(doc, [step]) == Some(inner)
    ensures At(doc, [step] + path) == At(inner, path)
  {
    assert ([step] + path)[1..] == path;
    assert [step][1..] == [];
  }

  lemma LocatedBelow(errs: seq<Violation>, doc: Json, step: Step, inner: Json, base: Path)
    requires At(doc, [step]) == Some(inner) && Located(errs, inner, base + [step])
    ensures Located(errs, doc, base)
  {
    hide At, PointsAt;
    forall v | v in errs
      ensures base <= v.path && PointsAt(doc, v.path[|base|..], v.fault)
    {
      var rest := v.path[|base| + 1..];
      assert v.path == base + [step] + rest;
      assert v.path[|base|..] == [step] + rest;
      assert v.path[|base + [step]|..] == rest;
      PointsBelow(doc, step, inner, rest, v.fault);
    }
  }

  lemma LastStep(base: Path, k: string)
    ensures (base + [Key(k)])[|base|..] == [Key(k)]
  {
  }

  lemma {:induction false} RequiredLocated(instance: Json, required: seq<Json>, path: Path)
    requires instance.Obj?
    ensures Located(RequiredErrors(instance, required, path), instance, path)
  {
    if required != [] {
      RequiredLocated(instance, required[..|required| - 1], path);
      if required[|required| - 1].Str? {
        LastStep(path, required[|required| - 1].s);
      }
    }
  }

  lemma {:induction false} AdditionalLocated(instance: Json, n: nat, properties: Json, path: Path)
    requires instance.Obj? && n <= |instance.fields|
    ensures Located(AdditionalErrors(instance.fields[..n], properties, path), instance, path)
  {
    if n > 0 {
      AdditionalLocated(instance, n - 1, properties, path);
      assert instance.fields[..n][..n - 1] == instance.fields[..n - 1];
      LastStep(path, instance.fields[n - 1].key);
      assert Get(instance, instance.fields[n - 1].key).Some?;
    }
  }

  /** Every reported path starts at the base and leads to what the report says. */
  lemma {:induction false} ViolationsLocated(instance: Json, schema: Json, path: Path)
    ensures Located(Errors(instance, schema, path), instance, path)
    decreases schema, 0
  {
    hide Get, TypeAdmits, RequiredErrors, AdditionalErrors, PropertyErrors, ItemErrors;
    var required, properties, items := Get(schema, "required"), Get(schema, "properties"), Get(schema, "items");
    assert path[|path|..] == [];
    if instance.Obj? {
      if required.Some? && required.value.Arr? {
        RequiredLocated(instance, required.value.elements, path);
      }
      if properties.Some? && properties.value.Obj? {
        PropertiesLocated(instance, properties.value, |properties.value.fields|, path);
        AdditionalLocated(instance, |instance.fields|, properties.value, path);
        assert instance.fields[..|instance.fields|] == instance.fields;
      }
    } else if instance.Arr? && items.Some? && items.value.Obj? {
      ItemsLocated(instance, items.value, |instance.elements|, path);
    }
  }

  lemma {:induction false} PropertiesLocated(instance: Json, properties: Json, n: nat, path: Path)
    requires instance.Obj? && properties.Obj? && n <= |properties.fields|
    ensures Located(PropertyErrors(instance, properties, n, path), instance, path)
    decreases properties, n
  {
    hide Errors, PointsAt;
    if n > 0 {
      PropertiesLocated(instance, properties, n - 1, path);
      var f := properties.fields[n - 1];
      var value := Get(instance, f.key);
      if value.Some? {
        ViolationsLocated(value.value, f.value, path + [Key(f.key)]);
        LocatedBelow(Errors(value.value, f.value, path + [Key(f.key)]), instance, Key(f.key), value.value, path);
      }
    }
  }

  lemma {:induction false} ItemsLocated(instance: Json, items: Json, n: nat, path: Path)
    requires instance.Arr? && n <= |instance.elements|
    ensures Located(ItemErrors(instance.elements, items, n, path), instance, path)
    decreases items, n
  {
    hide Errors, PointsAt;
    if n > 0 {
      ItemsLocated(instance, items, n - 1, path);
      ViolationsLocated(instance.elements[n - 1], items, path + [Index(n - 1)]);
      LocatedBelow(Errors(instance.elements[n - 1], items, path + [Index(n - 1)]), instance, Index(n - 1),
                   instance.elements[n - 1], path);
    }
  }
}
