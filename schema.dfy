/** What a tree of validators does with a value, as functions over a pure description of the
    tree: the meaning of `validateSafely` and `validate` for every kind of node, and of the
    `VInfer` type that a schema is given. */
module Schema {
  import opened JsValues
  import opened JsStrings
  import opened Patterns
  import opened Rules

  /** A validator, as it stands at the moment it validates. */
  datatype Node =
      /** a `StringValidator` or `NumberValidator`: its rule list and its optional flag */
    | Primitive(kind: Kind, rules: seq<Rule>, optional: bool)
      /** an `OptionalValidator` around `inner` */
    | OptionalOf(inner: Node)
      /** a `SelfRefValidator` */
    | SelfRef(propertyName: string, errorMsg: string, optional: bool)
      /** an `ObjectValidator`: the keys of its schema object in enumeration order */
    | ObjectOf(fields: seq<(string, Node)>)
      /** any other value found in a schema object */
    | NotAValidator(value: Value)

  /** What `validateSafely` returns: a list of messages from a string or number validator, a map
      from keys to what their validators returned from an object validator. */
  datatype SafeResult = Messages(messages: seq<string>) | Report(errors: map<string, SafeResult>)

  const ObjectTypeMessage := "An illegal type was passed, 'object' expected"

  const InvalidValidatorMessage := "Invalid validator object."

  /** The keys of a schema object are distinct. */
  ghost predicate UniqueKeys(fields: seq<(string, Node)>) {
    forall j, l | 0 <= j < l < |fields| :: fields[j].0 != fields[l].0
  }

  /** The node has `validateSafely` and `validate` methods. */
  predicate HasMethods(n: Node) {
    n.Primitive? || n.OptionalOf? || n.ObjectOf?
  }

  /** `(object as any)[key]` once `object` is known to be an object or null. */
  function Field(v: Value, key: string): Value {
    if v.Obj? then Get(v.fields, key) else Undefined
  }

  /** The checks an object validator makes on one key before calling the key's validator: that
      the schema value has the method (reading a property of undefined or null is itself a
      `TypeError`), and that the validated value is not null, whose key it then reads. */
  function Guard(node: Node, v: Value): Option<Exception> {
    if !HasMethods(node) then
      Some(if node.NotAValidator? && (node.value.Undefined? || node.value.Null?) then TypeError
           else Error(InvalidValidatorMessage))
    else if v.Null? then Some(TypeError)
    else None
  }

  // ---------------------------------------------------------------- validateSafely

  /** `node.validateSafely(value)`.  An optional wrapper calls its inner validator's method
      without any check of its own; a node without the method raises a `TypeError`. */
  function Safe(n: Node, v: Value, engine: Engine): Completion<SafeResult>
    decreases n, 2
  {
    match n
    case Primitive(k, rules, optional) => Normal(Messages(SafeErrors(k, rules, optional, v, engine)))
    case OptionalOf(inner) => Safe(inner, v, engine)
    case ObjectOf(_) => AsReport(ObjectSafe(n, v, engine))
    case SelfRef(_, _, _) => Throw(TypeError)
    case NotAValidator(_) => Throw(TypeError)
  }

  function AsReport(r: Completion<map<string, SafeResult>>): Completion<SafeResult> {
    match r
    case Normal(m) => Normal(Report(m))
    case Throw(e) => Throw(e)
  }

  /** `validateSafely` of an object validator. */
  function ObjectSafe(n: Node, v: Value, engine: Engine): Completion<map<string, SafeResult>>
    requires n.ObjectOf?
    decreases n, 1
  {
    if TypeOf(v) != "object" then Normal(map["error" := Messages([ObjectTypeMessage])])
    else FieldsSafe(n, |n.fields|, v, engine)
  }

  /** `errors.length > 0` for what a key's validator returned.  A list has its length.  An object
      validator's report is a plain object, so `length` is its own key of that name, if it has one,
      and `undefined > 0` is false; the value found there is compared with 0 as a number, which
      for a list of messages is the number its text (the messages joined by commas) denotes, and
      for a nested report the text "[object Object]", NaN. */
  predicate LengthIsPositive(r: SafeResult) {
    match r
    case Messages(msgs) => |msgs| > 0
    case Report(m) =>
      "length" in m && m["length"].Messages?
      && var x := StringToNumber(Join(m["length"].messages, ","));
         x.Some? && x.value > 0
  }

  /** What one key of the schema contributes: what its validator returned, recorded under the key
      when its `length` is positive. */
  function FieldSafe(key: string, node: Node, v: Value, engine: Engine): Completion<Option<SafeResult>>
    decreases node, 3
  {
    match Guard(node, v)
    case Some(e) => Throw(e)
    case None =>
      match Safe(node, Field(v, key), engine)
      case Throw(e) => Throw(e)
      case Normal(r) => Normal(if LengthIsPositive(r) then Some(r) else None)
  }

  /** The loop over the first `i` keys of the schema. */
  function FieldsSafe(n: Node, i: nat, v: Value, engine: Engine): Completion<map<string, SafeResult>>
    requires n.ObjectOf? && i <= |n.fields|
    decreases n, 0, i
  {
    if i == 0 then Normal(map[])
    else
      match FieldsSafe(n, i - 1, v, engine)
      case Throw(e) => Throw(e)
      case Normal(m) =>
        match FieldSafe(n.fields[i - 1].0, n.fields[i - 1].1, v, engine)
        case Throw(e) => Throw(e)
        case Normal(None) => Normal(m)
        case Normal(Some(r)) => Normal(m[n.fields[i - 1].0 := r])
  }

  // ---------------------------------------------------------------- validate

  /** `node.validate(value)`: `true` from a string or number validator, `undefined` from an
      optional wrapper and from an object validator, unless something is raised. */
  function Strict(n: Node, v: Value, engine: Engine): Completion<Value>
    decreases n, 2
  {
    match n
    case Primitive(k, rules, optional) => StrictResult(k, rules, optional, v, engine)
    case OptionalOf(inner) =>
      var r := Strict(inner, v, engine);
      if r.Throw? then r else Normal(Undefined)
    case ObjectOf(_) => ObjectStrict(n, v, engine)
    case SelfRef(_, _, _) => Throw(TypeError)
    case NotAValidator(_) => Throw(TypeError)
  }

  /** `validate` of an object validator. */
  function ObjectStrict(n: Node, v: Value, engine: Engine): Completion<Value>
    requires n.ObjectOf?
    decreases n, 1
  {
    if TypeOf(v) != "object" then Throw(Error(ObjectTypeMessage))
    else FieldsStrict(n, |n.fields|, v, engine)
  }

  function FieldStrict(key: string, node: Node, v: Value, engine: Engine): Completion<Value>
    decreases node, 3
  {
    match Guard(node, v)
    case Some(e) => Throw(e)
    case None => Strict(node, Field(v, key), engine)
  }

  /** The loop over the first `i` keys of the schema; it stops at the first key that raises. */
  function FieldsStrict(n: Node, i: nat, v: Value, engine: Engine): Completion<Value>
    requires n.ObjectOf? && i <= |n.fields|
    decreases n, 0, i
  {
    if i == 0 then Normal(Undefined)
    else
      match FieldsStrict(n, i - 1, v, engine)
      case Throw(e) => Throw(e)
      case Normal(_) =>
        match FieldStrict(n.fields[i - 1].0, n.fields[i - 1].1, v, engine)
        case Throw(e) => Throw(e)
        case Normal(_) => Normal(Undefined)
  }

  // ---------------------------------------------------------------- properties

  /** The loop over the keys completes exactly when every key completes. */
  lemma {:induction false} FieldsSafeNormalIff(n: Node, i: nat, v: Value, engine: Engine)
    requires n.ObjectOf? && i <= |n.fields|
    ensures FieldsSafe(n, i, v, engine).Normal? <==>
      forall j | 0 <= j < i :: FieldSafe(n.fields[j].0, n.fields[j].1, v, engine).Normal?
  {
    if i > 0 {
      FieldsSafeNormalIff(n, i - 1, v, engine);
    }
  }

  /** One step of the loop that completes: the keys before completed, and so did this one, whose
      contribution, if any, is added under its key. */
  lemma FieldsSafeStep(n: Node, i: nat, v: Value, engine: Engine)
    requires n.ObjectOf? && 0 < i <= |n.fields|
    requires FieldsSafe(n, i, v, engine).Normal?
    ensures FieldsSafe(n, i - 1, v, engine).Normal?
    ensures var fr := FieldSafe(n.fields[i - 1].0, n.fields[i - 1].1, v, engine);
      fr.Normal? && FieldsSafe(n, i, v, engine).value ==
        if fr.value.Some? then FieldsSafe(n, i - 1, v, engine).value[n.fields[i - 1].0 := fr.value.value]
        else FieldsSafe(n, i - 1, v, engine).value
  {
  }

  /** After the first `i` keys, the report holds an entry for exactly the keys that contribute
      one, and what they contribute. */
  lemma {:induction false} FieldsSafeReport(n: Node, i: nat, v: Value, engine: Engine)
    requires n.ObjectOf? && i <= |n.fields| && UniqueKeys(n.fields)
    requires FieldsSafe(n, i, v, engine).Normal?
    ensures var m := FieldsSafe(n, i, v, engine).value;
      (forall key | key in m :: exists j | 0 <= j < i :: n.fields[j].0 == key)
      && forall j | 0 <= j < i ::
           var fr := FieldSafe(n.fields[j].0, n.fields[j].1, v, engine);
           fr.Normal? && (n.fields[j].0 in m <==> fr.value.Some?)
           && (fr.value.Some? ==> m[n.fields[j].0] == fr.value.value)
  {
    if i > 0 {
      FieldsSafeStep(n, i, v, engine);
      FieldsSafeReport(n, i - 1, v, engine);
      var m0 := FieldsSafe(n, i - 1, v, engine).value;
      var key := n.fields[i - 1].0;
      var fr := FieldSafe(key, n.fields[i - 1].1, v, engine);
      var m := FieldsSafe(n, i, v, engine).value;
      forall j | 0 <= j < i - 1
        ensures n.fields[j].0 != key
      {
      }
    }
  }

  /** `validateSafely` of an object validator on an object or null: the report has an entry for
      exactly the keys whose validator returned something with a positive `length` (a non-empty
      list of messages, or a nested report with such a `length` key), holding what it returned;
      it completes exactly when every key passes the guard and its validator completes. */
  lemma ObjectSafeReport(n: Node, v: Value, engine: Engine)
    requires n.ObjectOf? && UniqueKeys(n.fields) && TypeOf(v) == "object"
    ensures ObjectSafe(n, v, engine).Normal? <==>
      forall j | 0 <= j < |n.fields| ::
        Guard(n.fields[j].1, v).None? && Safe(n.fields[j].1, Field(v, n.fields[j].0), engine).Normal?
    ensures ObjectSafe(n, v, engine).Normal? ==>
      var m := ObjectSafe(n, v, engine).value;
      (forall key | key in m :: exists j | 0 <= j < |n.fields| :: n.fields[j].0 == key)
      && forall j | 0 <= j < |n.fields| ::
           var r := Safe(n.fields[j].1, Field(v, n.fields[j].0), engine).value;
           (n.fields[j].0 in m <==> LengthIsPositive(r))
           && (n.fields[j].0 in m ==> m[n.fields[j].0] == r)
  {
    FieldsSafeNormalIff(n, |n.fields|, v, engine);
    if ObjectSafe(n, v, engine).Normal? {
      FieldsSafeReport(n, |n.fields|, v, engine);
    }
  }

  /** The keys of an object validator's report are keys of its schema, or the "error" of a value
      that is not an object. */
  lemma ReportKeys(n: Node, v: Value, engine: Engine)
    requires n.ObjectOf? && UniqueKeys(n.fields)
    requires ObjectSafe(n, v, engine).Normal?
    ensures forall key | key in ObjectSafe(n, v, engine).value ::
      key == "error" || exists j | 0 <= j < |n.fields| :: n.fields[j].0 == key
  {
    if TypeOf(v) == "object" {
      FieldsSafeReport(n, |n.fields|, v, engine);
    }
  }

  /** A nested object validator whose schema has no key `length` never gets an entry in its
      parent's report, whatever it finds: the report it returns has no `length` to compare. */
  lemma NestedObjectWithoutLengthNeverReported(n: Node, v: Value, engine: Engine, j: nat)
    requires n.ObjectOf? && UniqueKeys(n.fields) && TypeOf(v) == "object"
    requires j < |n.fields| && n.fields[j].1.ObjectOf? && UniqueKeys(n.fields[j].1.fields)
    requires forall l | 0 <= l < |n.fields[j].1.fields| :: n.fields[j].1.fields[l].0 != "length"
    requires ObjectSafe(n, v, engine).Normal?
    ensures n.fields[j].0 !in ObjectSafe(n, v, engine).value
  {
    ObjectSafeReport(n, v, engine);
    var inner := n.fields[j].1;
    var x := Field(v, n.fields[j].0);
    assert Safe(inner, x, engine) == AsReport(ObjectSafe(inner, x, engine));
    ReportKeys(inner, x, engine);
  }

  /** A nested report records only when its `length` key holds a single message: the text of two
      or more messages has a comma, which no number's text has. */
  lemma ReportLengthIsOneMessage(m: map<string, SafeResult>)
    requires LengthIsPositive(Report(m))
    ensures |m["length"].messages| == 1
  {
    var msgs := m["length"].messages;
    if |msgs| >= 2 {
      var text := Join(msgs, ",");
      assert text == msgs[0] + "," + Join(msgs[1..], ",");
      assert text[|msgs[0]|] == ',';
      NonNumericCharMakesNaN(text, |msgs[0]|);
    }
  }

  /** The loop over the keys raises the exception of the first key that raises, and ignores the
      keys after it. */
  lemma {:induction false} FieldsSafeStopsAtFirstThrow(n: Node, i: nat, k: nat, v: Value, engine: Engine)
    requires n.ObjectOf? && i < k <= |n.fields|
    requires forall j | 0 <= j < i :: FieldSafe(n.fields[j].0, n.fields[j].1, v, engine).Normal?
    requires FieldSafe(n.fields[i].0, n.fields[i].1, v, engine).Throw?
    ensures FieldsSafe(n, k, v, engine) == Throw(FieldSafe(n.fields[i].0, n.fields[i].1, v, engine).exception)
  {
    if k == i + 1 {
      FieldsSafeNormalIff(n, i, v, engine);
    } else {
      FieldsSafeStopsAtFirstThrow(n, i, k - 1, v, engine);
    }
  }

  /** Once the loop over the keys has raised, it stays raised with the same exception. */
  lemma {:induction false} FieldsSafeThrowPersists(n: Node, i: nat, k: nat, v: Value, engine: Engine)
    requires n.ObjectOf? && i <= k <= |n.fields|
    requires FieldsSafe(n, i, v, engine).Throw?
    ensures FieldsSafe(n, k, v, engine) == FieldsSafe(n, i, v, engine)
  {
    if k > i {
      FieldsSafeThrowPersists(n, i, k - 1, v, engine);
    }
  }

  lemma {:induction false} FieldsStrictThrowPersists(n: Node, i: nat, k: nat, v: Value, engine: Engine)
    requires n.ObjectOf? && i <= k <= |n.fields|
    requires FieldsStrict(n, i, v, engine).Throw?
    ensures FieldsStrict(n, k, v, engine) == FieldsStrict(n, i, v, engine)
  {
    if k > i {
      FieldsStrictThrowPersists(n, i, k - 1, v, engine);
    }
  }

  /** `validateSafely` of an object validator raises the exception of the first key that raises:
      "Invalid validator object." for a key whose schema value has no method (such as a bare
      self-reference), a `TypeError` when the schema value is undefined or null or when the
      validated value is null, or whatever the key's own validator raises. */
  lemma ObjectSafeStopsAtFirstThrow(n: Node, i: nat, v: Value, engine: Engine)
    requires n.ObjectOf? && TypeOf(v) == "object" && i < |n.fields|
    requires forall j | 0 <= j < i :: FieldSafe(n.fields[j].0, n.fields[j].1, v, engine).Normal?
    requires FieldSafe(n.fields[i].0, n.fields[i].1, v, engine).Throw?
    ensures ObjectSafe(n, v, engine) == Throw(FieldSafe(n.fields[i].0, n.fields[i].1, v, engine).exception)
    ensures n.fields[i].1.SelfRef? ==> ObjectSafe(n, v, engine) == Throw(Error(InvalidValidatorMessage))
  {
    FieldsSafeStopsAtFirstThrow(n, i, |n.fields|, v, engine);
  }

  /** The strict loop completes exactly when every key completes. */
  lemma {:induction false} FieldsStrictNormalIff(n: Node, i: nat, v: Value, engine: Engine)
    requires n.ObjectOf? && i <= |n.fields|
    ensures FieldsStrict(n, i, v, engine).Normal? <==>
      forall j | 0 <= j < i :: FieldStrict(n.fields[j].0, n.fields[j].1, v, engine).Normal?
  {
    if i > 0 {
      FieldsStrictNormalIff(n, i - 1, v, engine);
    }
  }

  lemma {:induction false} FieldsStrictStopsAtFirstThrow(n: Node, i: nat, k: nat, v: Value, engine: Engine)
    requires n.ObjectOf? && i < k <= |n.fields|
    requires forall j | 0 <= j < i :: FieldStrict(n.fields[j].0, n.fields[j].1, v, engine).Normal?
    requires FieldStrict(n.fields[i].0, n.fields[i].1, v, engine).Throw?
    ensures FieldsStrict(n, k, v, engine) == FieldStrict(n.fields[i].0, n.fields[i].1, v, engine)
  {
    if k == i + 1 {
      FieldsStrictNormalIff(n, i, v, engine);
    } else {
      FieldsStrictStopsAtFirstThrow(n, i, k - 1, v, engine);
    }
  }

  /** `validate` of an object validator raises, unchanged, the exception of the first key that
      raises (the keys after it are not looked at), and otherwise returns `undefined`. */
  lemma ObjectStrictStopsAtFirstThrow(n: Node, i: nat, v: Value, engine: Engine)
    requires n.ObjectOf? && TypeOf(v) == "object" && i < |n.fields|
    requires forall j | 0 <= j < i :: FieldStrict(n.fields[j].0, n.fields[j].1, v, engine).Normal?
    requires FieldStrict(n.fields[i].0, n.fields[i].1, v, engine).Throw?
    ensures ObjectStrict(n, v, engine) == FieldStrict(n.fields[i].0, n.fields[i].1, v, engine)
  {
    FieldsStrictStopsAtFirstThrow(n, i, |n.fields|, v, engine);
  }

  lemma ObjectStrictCompletes(n: Node, v: Value, engine: Engine)
    requires n.ObjectOf? && TypeOf(v) == "object"
    requires forall j | 0 <= j < |n.fields| :: FieldStrict(n.fields[j].0, n.fields[j].1, v, engine).Normal?
    ensures ObjectStrict(n, v, engine) == Normal(Undefined)
  {
    FieldsStrictNormalIff(n, |n.fields|, v, engine);
  }

  /** Keys of the validated object that the schema does not name are never read: two objects
      that agree on the schema's keys get the same results. */
  lemma {:induction false} FieldsIgnoreOtherKeys(n: Node, i: nat, a: Value, b: Value, engine: Engine)
    requires n.ObjectOf? && i <= |n.fields| && a.Obj? && b.Obj?
    requires forall j | 0 <= j < |n.fields| :: Get(a.fields, n.fields[j].0) == Get(b.fields, n.fields[j].0)
    ensures FieldsSafe(n, i, a, engine) == FieldsSafe(n, i, b, engine)
    ensures FieldsStrict(n, i, a, engine) == FieldsStrict(n, i, b, engine)
  {
    if i > 0 {
      FieldsIgnoreOtherKeys(n, i - 1, a, b, engine);
      assert Field(a, n.fields[i - 1].0) == Field(b, n.fields[i - 1].0);
    }
  }

  lemma OnlySchemaKeysAreRead(n: Node, a: Value, b: Value, engine: Engine)
    requires n.ObjectOf? && a.Obj? && b.Obj?
    requires forall j | 0 <= j < |n.fields| :: Get(a.fields, n.fields[j].0) == Get(b.fields, n.fields[j].0)
    ensures ObjectSafe(n, a, engine) == ObjectSafe(n, b, engine)
    ensures ObjectStrict(n, a, engine) == ObjectStrict(n, b, engine)
  {
    FieldsIgnoreOtherKeys(n, |n.fields|, a, b, engine);
  }

  // ---------------------------------------------------------------- flat schemas

  /** A node that is a string or number validator, possibly in an optional wrapper. */
  predicate IsFlatNode(node: Node) {
    node.Primitive? || (node.OptionalOf? && node.inner.Primitive?)
  }

  predicate IsFlat(n: Node)
    requires n.ObjectOf?
  {
    forall j | 0 <= j < |n.fields| :: IsFlatNode(n.fields[j].1)
  }

  /** For one string or number validator key, `validate` completes exactly when
      `validateSafely` records nothing. */
  lemma FlatFieldStrictIffSafe(key: string, node: Node, v: Value, engine: Engine)
    requires IsFlatNode(node)
    ensures FieldStrict(key, node, v, engine).Normal? <==> FieldSafe(key, node, v, engine) == Normal(None)
  {
    if Guard(node, v).None? {
      var x := Field(v, key);
      var p := if node.Primitive? then node else node.inner;
      assert Strict(node, x, engine).Normal? <==> StrictResult(p.kind, p.rules, p.optional, x, engine).Normal?;
      assert Safe(node, x, engine) == Normal(Messages(SafeErrors(p.kind, p.rules, p.optional, x, engine)));
    }
  }

  lemma {:induction false} FlatFieldsStrictIffSafeEmpty(n: Node, i: nat, v: Value, engine: Engine)
    requires n.ObjectOf? && IsFlat(n) && i <= |n.fields|
    ensures FieldsStrict(n, i, v, engine).Normal? <==> FieldsSafe(n, i, v, engine) == Normal(map[])
  {
    if i > 0 {
      FlatFieldsStrictIffSafeEmpty(n, i - 1, v, engine);
      FlatFieldStrictIffSafe(n.fields[i - 1].0, n.fields[i - 1].1, v, engine);
      var r := FieldsSafe(n, i - 1, v, engine);
      var key := n.fields[i - 1].0;
      var fr := FieldSafe(key, n.fields[i - 1].1, v, engine);
      if r.Normal? && fr.Normal? && fr.value.Some? {
        assert key in FieldsSafe(n, i, v, engine).value;
      }
      if r.Normal? && r.value != map[] && fr.Normal? {
        var k :| k in r.value;
        assert k in FieldsSafe(n, i, v, engine).value;
      }
    }
  }

  /** For a schema of string and number validators, `validate` completes exactly when
      `validateSafely` reports nothing, whatever the validated value. */
  lemma FlatStrictIffSafeEmpty(n: Node, v: Value, engine: Engine)
    requires n.ObjectOf? && IsFlat(n)
    ensures ObjectStrict(n, v, engine).Normal? <==> ObjectSafe(n, v, engine) == Normal(map[])
  {
    if TypeOf(v) == "object" {
      FlatFieldsStrictIffSafeEmpty(n, |n.fields|, v, engine);
    } else {
      assert "error" in ObjectSafe(n, v, engine).value;
    }
  }

  // ---------------------------------------------------------------- VInfer

  /** The type `VInfer` gives a validator. */
  datatype Shape =
    | StringShape
    | NumberShape
    | RecordShape(fields: seq<FieldShape>)
      /** any other validator is given its own type */
    | Unmapped(node: Node)

  /** One property of a record type: optional exactly when its validator is an optional wrapper. */
  datatype FieldShape = FieldShape(key: string, optional: bool, shape: Shape)

  function Infer(n: Node): Shape
    decreases n, 1
  {
    match n
    case Primitive(StringKind, _, _) => StringShape
    case Primitive(NumberKind, _, _) => NumberShape
    case ObjectOf(fields) => RecordShape(InferFields(n, |fields|))
    case _ => Unmapped(n)
  }

  function InferFields(n: Node, i: nat): (shapes: seq<FieldShape>)
    requires n.ObjectOf? && i <= |n.fields|
    decreases n, 0, i
    ensures |shapes| == i
    ensures forall j | 0 <= j < i :: shapes[j] == InferField(n.fields[j].0, n.fields[j].1)
  {
    if i == 0 then [] else InferFields(n, i - 1) + [InferField(n.fields[i - 1].0, n.fields[i - 1].1)]
  }

  /** A key whose validator is an optional wrapper becomes an optional property of the inner
      validator's type; any other key becomes a required property of its validator's type. */
  function InferField(key: string, node: Node): FieldShape
    decreases node, 2
  {
    match node
    case OptionalOf(inner) => FieldShape(key, true, Infer(inner))
    case _ => FieldShape(key, false, Infer(node))
  }

  /** A value has the type. */
  predicate Conforms(v: Value, s: Shape)
    decreases s
  {
    match s
    case StringShape => v.Str?
    case NumberShape => v.Num?
    case RecordShape(fs) => v.Obj? && forall j | 0 <= j < |fs| :: FieldConforms(v.fields, fs[j])
    case Unmapped(_) => true
  }

  /** An optional property may be absent or undefined. */
  predicate FieldConforms(fields: map<string, Value>, f: FieldShape)
    decreases f
  {
    var x := Get(fields, f.key);
    (f.optional && x == Undefined) || Conforms(x, f.shape)
  }

  /** The optional flag of the string or number validator of a key. */
  function PrimitiveFlag(node: Node): bool
    requires IsFlatNode(node)
  {
    if node.Primitive? then node.optional else node.inner.optional
  }

  /** What `validate` establishes about an object it accepts, for a schema of string and number
      validators: each key's value has the type `VInfer` gives it, unless that key's validator was
      marked optional and the value is falsy; those values (null, false, 0, "") pass without
      having the type. */
  lemma StrictAcceptanceConforms(n: Node, v: Value, engine: Engine)
    requires n.ObjectOf? && IsFlat(n) && v.Obj?
    requires ObjectStrict(n, v, engine).Normal?
    ensures forall j | 0 <= j < |n.fields| ::
      FieldConforms(v.fields, InferField(n.fields[j].0, n.fields[j].1))
      || (PrimitiveFlag(n.fields[j].1) && !Truthy(Get(v.fields, n.fields[j].0)))
  {
    FieldsStrictNormalIff(n, |n.fields|, v, engine);
    forall j | 0 <= j < |n.fields|
      ensures FieldConforms(v.fields, InferField(n.fields[j].0, n.fields[j].1))
        || (PrimitiveFlag(n.fields[j].1) && !Truthy(Get(v.fields, n.fields[j].0)))
    {
      assert FieldStrict(n.fields[j].0, n.fields[j].1, v, engine).Normal?;
      FlatFieldAcceptanceConforms(n.fields[j].0, n.fields[j].1, v.fields, engine);
    }
  }

  lemma FlatFieldAcceptanceConforms(key: string, node: Node, fields: map<string, Value>, engine: Engine)
    requires IsFlatNode(node) && FieldStrict(key, node, Obj(fields), engine).Normal?
    ensures FieldConforms(fields, InferField(key, node)) || (PrimitiveFlag(node) && !Truthy(Get(fields, key)))
  {
    var x := Get(fields, key);
    var p := if node.Primitive? then node else node.inner;
    assert Field(Obj(fields), key) == x;
    assert Strict(node, x, engine).Normal?;
    assert Strict(p, x, engine).Normal?;
    assert StrictResult(p.kind, p.rules, p.optional, x, engine).Normal?;
    assert InferField(key, node).shape == Infer(p);
    if !(p.optional && !Truthy(x)) {
      assert TypeOf(x) == TypeName(p.kind);
    }
  }

  /** The type `VInfer` gives is not always sound: an optional string key accepts null, and a key
      whose validator was marked optional but put in the schema without its wrapper is inferred
      as required yet accepts a missing value. */
  lemma InferredTypeCounterexamples(engine: Engine)
    ensures var wrapped := ObjectOf([("name", OptionalOf(Primitive(StringKind, [], true)))]);
      var v := Obj(map["name" := Null]);
      ObjectStrict(wrapped, v, engine).Normal? && !Conforms(v, Infer(wrapped))
    ensures var bare := ObjectOf([("name", Primitive(StringKind, [], true))]);
      var v := Obj(map[]);
      ObjectStrict(bare, v, engine).Normal? && !Conforms(v, Infer(bare))
  {
    var wrapped := ObjectOf([("name", OptionalOf(Primitive(StringKind, [], true)))]);
    assert InferFields(wrapped, 1)[0] == FieldShape("name", true, StringShape);
    var bare := ObjectOf([("name", Primitive(StringKind, [], true))]);
    assert InferFields(bare, 1)[0] == FieldShape("name", false, StringShape);
  }
}
