/** `_parse_columns_definition`: the decoded `--columns` JSON object of the
    create-table command becomes, per column, the arguments handed to the
    storage engine's column constructor. */
module ColumnSpec {
  import opened Wrappers
  import opened Text

  /** A value as Python's `json.loads` returns it. An object keeps its members
      in document order; a float is kept as its text. */
  datatype Json =
    | JNull
    | JBool(b: bool)
    | JInt(i: int)
    | JFloat(text: string)
    | JString(s: string)
    | JArray(items: seq<Json>)
    | JObject(members: seq<(string, Json)>)

  /** The keys of a decoded object are distinct, as in the Python dict. */
  predicate DistinctKeys<V>(members: seq<(string, V)>) {
    forall i, j :: 0 <= i < j < |members| ==> members[i].0 != members[j].0
  }

  /** `d.get(key)` on a decoded object. */
  function Get(members: seq<(string, Json)>, key: string): (r: Option<Json>)
    ensures r.Some? <==> exists i :: 0 <= i < |members| && members[i].0 == key
    ensures r.Some? ==> exists i :: FirstWith(members, key, i) && r.value == members[i].1
  {
    if members == [] then None
    else if members[0].0 == key then
      assert FirstWith(members, key, 0);
      Some(members[0].1)
    else
      var r := Get(members[1..], key);
      FirstWithShift(members, key);
      r
  }

  /** Member `i` is the first one whose key is `key`. */
  predicate FirstWith(members: seq<(string, Json)>, key: string, i: int) {
    0 <= i < |members| && members[i].0 == key
    && forall j :: 0 <= j < i ==> members[j].0 != key
  }

  /** Past a first member with another key, the first match moves up by one. */
  lemma FirstWithShift(members: seq<(string, Json)>, key: string)
    requires members != [] && members[0].0 != key
    ensures forall i :: FirstWith(members[1..], key, i) ==> FirstWith(members, key, i + 1)
  {
    forall i | FirstWith(members[1..], key, i)
      ensures FirstWith(members, key, i + 1)
    {
      forall j | 0 <= j < i + 1
        ensures members[j].0 != key
      {
        if j > 0 {
          assert members[j] == members[1..][j - 1];
        }
      }
    }
  }

  /** `d.get(key, default)` */
  function GetOr(members: seq<(string, Json)>, key: string, default: Json): Json {
    match Get(members, key)
    case Some(v) => v
    case None => default
  }

  /** The Python types a column can be given. */
  datatype DataType = StringType | IntegerType | FloatType | BooleanType | NoneType

  /** `type_mapping`: lower-case type names to Python types. */
  const TypeMapping: map<string, DataType> := map[
    "string" := StringType, "str" := StringType,
    "integer" := IntegerType, "int" := IntegerType,
    "float" := FloatType,
    "boolean" := BooleanType, "bool" := BooleanType,
    "none" := NoneType
  ]

  /** `type_mapping.get(name.lower(), str)`: the names are matched without
      regard to case, and any other name means text. */
  function TypeFor(name: string): (t: DataType)
    ensures t == IntegerType <==> Lower(name) == "integer" || Lower(name) == "int"
    ensures t == FloatType <==> Lower(name) == "float"
    ensures t == BooleanType <==> Lower(name) == "boolean" || Lower(name) == "bool"
    ensures t == NoneType <==> Lower(name) == "none"
    ensures t == StringType <==> Lower(name) !in {"integer", "int", "float", "boolean", "bool", "none"}
  {
    var key := Lower(name);
    if key in TypeMapping then TypeMapping[key] else StringType
  }

  /** The arguments of one `Column(...)` call. A spec given as a type name
      passes only the name and the type, leaving the rest to the column's own
      defaults; a spec given as an object passes every argument. The lengths,
      the nullability and the default are passed on as decoded, unchecked. */
  datatype ColumnArgs =
    | Basic(name: string, dataType: DataType)
    | Advanced(name: string, dataType: DataType, minLength: Json, maxLength: Json,
               nullable: Json, defaultValue: Json)

  /** Why the definition is rejected: the decoded value is not an object (it
      has no `.items()`), or a spec's `type` member is not text (it has no
      `.lower()`). */
  datatype ColumnsError = NotAnObject | TypeNotText(column: string)

  /** A spec object whose `type` member exists and is not text. */
  predicate BadType(spec: Json) {
    spec.JObject? && Get(spec.members, "type").Some? && !Get(spec.members, "type").value.JString?
  }

  /** A spec that yields a column: a type name or an object. */
  predicate Kept(spec: Json) {
    spec.JString? || spec.JObject?
  }

  /** One loop step: the column a spec yields, none for a spec that is neither
      text nor an object, or the error. */
  function DecodeSpec(name: string, spec: Json): (r: Result<Option<ColumnArgs>, ColumnsError>)
    ensures r.Err? <==> BadType(spec)
    ensures r.Err? ==> r.error == TypeNotText(name)
    ensures r.Ok? ==> (r.value.Some? <==> Kept(spec))
    ensures r.Ok? && r.value.Some? ==> r.value.value.name == name
    ensures spec.JString? ==> r == Ok(Some(Basic(name, TypeFor(spec.s))))
    ensures r.Ok? && spec.JObject? ==>
              var m := spec.members;
              && r.value.value.Advanced?
              && r.value.value.dataType
                 == (if Get(m, "type").Some? then TypeFor(Get(m, "type").value.s) else StringType)
              && r.value.value.minLength == (if Get(m, "min_length").Some? then Get(m, "min_length").value else JInt(0))
              && r.value.value.maxLength == (if Get(m, "max_length").Some? then Get(m, "max_length").value else JInt(0))
              && r.value.value.nullable == (if Get(m, "nullable").Some? then Get(m, "nullable").value else JBool(true))
              && r.value.value.defaultValue == (if Get(m, "default_value").Some? then Get(m, "default_value").value else JNull)
  {
    match spec
    case JString(t) => Ok(Some(Basic(name, TypeFor(t))))
    case JObject(m) =>
      var ty := GetOr(m, "type", JString("string"));
      if !ty.JString? then Err(TypeNotText(name))
      else
        Ok(Some(Advanced(name, TypeFor(ty.s),
                         GetOr(m, "min_length", JInt(0)), GetOr(m, "max_length", JInt(0)),
                         GetOr(m, "nullable", JBool(true)), GetOr(m, "default_value", JNull))))
    case _ => Ok(None)
  }

  /** The columns dict the loop builds over the members in order, stopping at
      the first error. */
  function DecodeMembers(ms: seq<(string, Json)>): Result<seq<(string, ColumnArgs)>, ColumnsError> {
    if ms == [] then Ok([])
    else
      var last := ms[|ms| - 1];
      match DecodeMembers(ms[..|ms| - 1])
      case Err(e) => Err(e)
      case Ok(done) =>
        match DecodeSpec(last.0, last.1)
        case Err(e) => Err(e)
        case Ok(None) => Ok(done)
        case Ok(Some(c)) => Ok(done + [(last.0, c)])
  }

  /** What `_parse_columns_definition` returns for a decoded value. */
  function DecodeColumns(def: Json): Result<seq<(string, ColumnArgs)>, ColumnsError> {
    if def.JObject? then DecodeMembers(def.members) else Err(NotAnObject)
  }

  /** Once a prefix of the members fails, the whole definition fails with
      the same error. */
  lemma {:induction false} ErrorPersists(ms: seq<(string, Json)>, k: nat)
    requires k <= |ms| && DecodeMembers(ms[..k]).Err?
    ensures DecodeMembers(ms) == DecodeMembers(ms[..k])
    decreases |ms| - k
  {
    if k < |ms| {
      assert ms[..k + 1][..k] == ms[..k];
      ErrorPersists(ms, k + 1);
    } else {
      assert ms[..k] == ms;
    }
  }

  /** One more member extends the decoded prefix by what its spec decodes to. */
  lemma DecodeStep(ms: seq<(string, Json)>, k: nat, done: seq<(string, ColumnArgs)>)
    requires k < |ms| && DecodeMembers(ms[..k]) == Ok(done)
    ensures DecodeMembers(ms[..k + 1]) == match DecodeSpec(ms[k].0, ms[k].1)
                                         case Err(e) => Err(e)
                                         case Ok(None) => Ok(done)
                                         case Ok(Some(c)) => Ok(done + [(ms[k].0, c)])
  {
    assert ms[..k + 1][..k] == ms[..k] && ms[..k + 1][k] == ms[k];
  }

  /** `_parse_columns_definition` applied to the already decoded JSON value. */
  method ParseColumnsDefinition(def: Json) returns (r: Result<seq<(string, ColumnArgs)>, ColumnsError>)
    ensures r == DecodeColumns(def)
  {
    if !def.JObject? {
      return Err(NotAnObject);
    }
    var members := def.members;
    var columns: seq<(string, ColumnArgs)> := [];
    for k := 0 to |members|
      invariant DecodeMembers(members[..k]) == Ok(columns)
    {
      var (name, spec) := members[k];
      DecodeStep(members, k, columns);
      match spec {
        case JString(t) =>
          assert DecodeSpec(name, spec) == Ok(Some(Basic(name, TypeFor(t))));
          columns := columns + [(name, Basic(name, TypeFor(t)))];
        case JObject(m) =>
          var ty := GetOr(m, "type", JString("string"));
          if !ty.JString? {
            assert DecodeSpec(name, spec) == Err(TypeNotText(name));
            ErrorPersists(members, k + 1);
            return Err(TypeNotText(name));
          }
          var column := Advanced(name, TypeFor(ty.s),
                                 GetOr(m, "min_length", JInt(0)), GetOr(m, "max_length", JInt(0)),
                                 GetOr(m, "nullable", JBool(true)), GetOr(m, "default_value", JNull));
          assert DecodeSpec(name, spec) == Ok(Some(column));
          columns := columns + [(name, column)];
        case _ =>
          assert DecodeSpec(name, spec) == Ok(None);
      }
    }
    assert members[..|members|] == members;
    r := Ok(columns);
  }

  /** The keys of the members whose specs yield a column, in order. */
  function KeptKeys(ms: seq<(string, Json)>): seq<string> {
    if ms == [] then []
    else KeptKeys(ms[..|ms| - 1]) + (if Kept(ms[|ms| - 1].1) then [ms[|ms| - 1].0] else [])
  }

  /** The definition fails exactly when it is not an object or one of its
      spec objects has a `type` that is not text. */
  lemma {:induction false} DecodeMembersFails(ms: seq<(string, Json)>)
    ensures DecodeMembers(ms).Err? <==> exists j :: 0 <= j < |ms| && BadType(ms[j].1)
  {
    if ms != [] {
      var init := ms[..|ms| - 1];
      DecodeMembersFails(init);
      assert forall j :: 0 <= j < |init| ==> init[j] == ms[j];
    }
  }

  lemma DecodeColumnsFails(def: Json)
    ensures DecodeColumns(def).Err?
            <==> !def.JObject? || exists j :: 0 <= j < |def.members| && BadType(def.members[j].1)
  {
    if def.JObject? {
      DecodeMembersFails(def.members);
    }
  }

  /** The columns keep the input's order and are exactly the members whose
      spec is text or an object: every other spec is dropped silently. */
  lemma {:induction false} DecodedKeys(ms: seq<(string, Json)>)
    requires DecodeMembers(ms).Ok?
    ensures Keys(DecodeMembers(ms).value) == KeptKeys(ms)
    ensures forall i :: 0 <= i < |DecodeMembers(ms).value| ==>
              DecodeMembers(ms).value[i].1.name == DecodeMembers(ms).value[i].0
  {
    if ms != [] {
      var init := ms[..|ms| - 1];
      DecodedKeys(init);
      var done := DecodeMembers(init).value;
      var out := DecodeMembers(ms).value;
      if Kept(ms[|ms| - 1].1) {
        assert out == done + [(ms[|ms| - 1].0, DecodeSpec(ms[|ms| - 1].0, ms[|ms| - 1].1).value.value)];
        assert Keys(out) == Keys(done) + [ms[|ms| - 1].0];
      }
    }
  }

  /** The column dict looked up by name, as `columns[name]`. */
  function Find(cols: seq<(string, ColumnArgs)>, name: string): Option<ColumnArgs> {
    if cols == [] then None
    else if cols[|cols| - 1].0 == name then Some(cols[|cols| - 1].1)
    else Find(cols[..|cols| - 1], name)
  }

  /** Every member gets, under its own name, exactly the column its spec
      yields, and no column at all when the spec is neither text nor an
      object. */
  lemma {:induction false} DecodedEntry(ms: seq<(string, Json)>, j: nat)
    requires DistinctKeys(ms) && j < |ms|
    requires DecodeMembers(ms).Ok?
    ensures DecodeSpec(ms[j].0, ms[j].1).Ok?
    ensures Find(DecodeMembers(ms).value, ms[j].0) == DecodeSpec(ms[j].0, ms[j].1).value
  {
    var n := |ms| - 1;
    var init := ms[..n];
    assert DecodeMembers(init).Ok?;
    var done := DecodeMembers(init).value;
    assert ms[..n + 1] == ms;
    DecodeStep(ms, n, done);
    var step := DecodeSpec(ms[n].0, ms[n].1);
    var out := DecodeMembers(ms).value;
    assert out == if step.value.Some? then done + [(ms[n].0, step.value.value)] else done;
    if j == n {
      DecodedKeys(init);
      assert forall i :: 0 <= i < |init| ==> init[i].0 != ms[j].0;
      KeptKeysAbsent(init, ms[j].0);
      FindAbsent(done, ms[j].0);
      if step.value.Some? {
        FindSnoc(done, ms[n].0, step.value.value, ms[j].0);
      }
    } else {
      assert forall a, b :: 0 <= a < b < |init| ==> init[a] == ms[a] && init[b] == ms[b];
      assert init[j] == ms[j];
      DecodedEntry(init, j);
      if step.value.Some? {
        FindSnoc(done, ms[n].0, step.value.value, ms[j].0);
      }
    }
  }

  lemma FindSnoc(cols: seq<(string, ColumnArgs)>, key: string, c: ColumnArgs, name: string)
    ensures Find(cols + [(key, c)], name) == if key == name then Some(c) else Find(cols, name)
  {
    assert (cols + [(key, c)])[..|cols|] == cols;
  }

  lemma {:induction false} FindAbsent(cols: seq<(string, ColumnArgs)>, name: string)
    requires name !in Keys(cols)
    ensures Find(cols, name) == None
  {
    if cols != [] {
      assert Keys(cols)[|cols| - 1] == cols[|cols| - 1].0;
      assert Keys(cols[..|cols| - 1]) == Keys(cols)[..|cols| - 1];
      FindAbsent(cols[..|cols| - 1], name);
    }
  }

  lemma {:induction false} KeptKeysAbsent(ms: seq<(string, Json)>, key: string)
    requires forall i :: 0 <= i < |ms| ==> ms[i].0 != key
    ensures key !in KeptKeys(ms)
  {
    if ms != [] {
      var init := ms[..|ms| - 1];
      assert forall i :: 0 <= i < |init| ==> init[i] == ms[i];
      KeptKeysAbsent(init, key);
    }
  }
}
