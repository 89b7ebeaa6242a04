/** The validator objects: the string and number validators with their chained builder methods,
    the optional wrapper, the self-reference placeholder, the object validator and the `Validator`
    factory.  Each object describes itself, as it stands at the moment, as a `Schema.Node`, and the
    methods that validate are proved to return what the schema semantics gives for that node. */
module Validators {
  import opened JsValues
  import opened JsStrings
  import opened Patterns
  import opened Rules
  import opened Schema

  // ---------------------------------------------------------------- the two rule loops

  /** The loop of `validateSafely`: every rule is tested and the messages of those that fail are
      collected in order. */
  method CollectFailures(rules: seq<Rule>, text: string, engine: Engine) returns (errors: seq<string>)
    ensures errors == FailedMessages(rules, text, engine)
  {
    errors := [];
    for i := 0 to |rules|
      invariant errors == FailedMessages(rules[..i], text, engine)
    {
      assert rules[..i + 1][..i] == rules[..i];
      if !Matches(rules[i].pattern, text, engine) {
        errors := errors + [rules[i].error];
      }
    }
    assert rules[..|rules|] == rules;
  }

  /** The loop of `validate`: the message of the first rule that fails, if one does. */
  method FirstFailure(rules: seq<Rule>, text: string, engine: Engine) returns (failed: Option<string>)
    ensures failed.None? <==> FailedMessages(rules, text, engine) == []
    ensures failed.Some? ==> failed.value == FailedMessages(rules, text, engine)[0]
  {
    for i := 0 to |rules|
      invariant FailedMessages(rules[..i], text, engine) == []
    {
      if !Matches(rules[i].pattern, text, engine) {
        FirstFailedMessage(rules, i, text, engine);
        return Some(rules[i].error);
      }
      assert rules[..i + 1][..i] == rules[..i];
    }
    assert rules[..|rules|] == rules;
    return None;
  }

  // ---------------------------------------------------------------- StringValidator

  class StringValidator {
    var rules: seq<Rule>
    var isOptional: bool

    constructor ()
      ensures rules == [] && !isOptional
    {
      rules := [];
      isOptional := false;
    }

    ghost function Snapshot(): Node
      reads this
    {
      Primitive(StringKind, rules, isOptional)
    }

    method Min(minimum: nat, error: string := MinMessage(StringKind, minimum)) returns (self: StringValidator)
      modifies this
      ensures self == this && isOptional == old(isOptional)
      ensures rules == old(rules) + [MinRule(StringKind, minimum, error)]
    {
      rules := rules + [MinRule(StringKind, minimum, error)];
      self := this;
    }

    method Max(maximum: nat, error: string := MaxMessage(StringKind, maximum)) returns (self: StringValidator)
      modifies this
      ensures self == this && isOptional == old(isOptional)
      ensures rules == old(rules) + [MaxRule(StringKind, maximum, error)]
    {
      rules := rules + [MaxRule(StringKind, maximum, error)];
      self := this;
    }

    method Length(length: nat, error: string := LengthMessage(StringKind, length)) returns (self: StringValidator)
      modifies this
      ensures self == this && isOptional == old(isOptional)
      ensures rules == old(rules) + [LengthRule(StringKind, length, error)]
    {
      rules := rules + [LengthRule(StringKind, length, error)];
      self := this;
    }

    method Email(error: string := EmailMessage) returns (self: StringValidator)
      modifies this
      ensures self == this && isOptional == old(isOptional)
      ensures rules == old(rules) + [Rule(EmailPattern, error)]
    {
      rules := rules + [Rule(EmailPattern, error)];
      self := this;
    }

    method Password(error: string := PasswordMessage) returns (self: StringValidator)
      modifies this
      ensures self == this && isOptional == old(isOptional)
      ensures rules == old(rules) + [Rule(PasswordPattern, error)]
    {
      rules := rules + [Rule(PasswordPattern, error)];
      self := this;
    }

    /** The pattern stored is the text between the first and the last slash of the expression's
        printed form; its flags are dropped. */
    method Regex(pattern: RegExp, error: string) returns (self: StringValidator)
      modifies this
      ensures self == this && isOptional == old(isOptional)
      ensures rules == old(rules) + [Rule(Source(StoredSource(pattern)), error)]
    {
      rules := rules + [Rule(Source(StoredSource(pattern)), error)];
      self := this;
    }

    /** Marks this validator optional and returns a wrapper around it (not a copy: rules added
        later are seen through the wrapper). */
    method Optional() returns (wrapper: OptionalValidator)
      modifies this
      ensures isOptional && rules == old(rules)
      ensures fresh(wrapper) && wrapper.inner == WrapString(this)
    {
      isOptional := true;
      wrapper := new OptionalValidator(WrapString(this));
    }

    method ValidateSafely(value: Value, engine: Engine) returns (errors: seq<string>)
      ensures errors == SafeErrors(StringKind, rules, isOptional, value, engine)
    {
      if isOptional && !Truthy(value) {
        return [];
      }
      if TypeOf(value) != "string" {
        return [TypeMessage(StringKind)];
      }
      errors := CollectFailures(rules, value.s, engine);
    }

    method Validate(value: Value, engine: Engine) returns (r: Completion<Value>)
      ensures r == StrictResult(StringKind, rules, isOptional, value, engine)
    {
      if isOptional && !Truthy(value) {
        return Normal(Bool(true));
      }
      if TypeOf(value) != "string" {
        return Throw(ValidationError(TypeMessage(StringKind)));
      }
      var failed := FirstFailure(rules, value.s, engine);
      match failed
      case None => r := Normal(Bool(true));
      case Some(m) => r := Throw(ValidationError(m));
    }
  }

  // ---------------------------------------------------------------- NumberValidator

  /** Its rules are tested against the number's decimal text. */
  class NumberValidator {
    var rules: seq<Rule>
    var isOptional: bool

    constructor ()
      ensures rules == [] && !isOptional
    {
      rules := [];
      isOptional := false;
    }

    ghost function Snapshot(): Node
      reads this
    {
      Primitive(NumberKind, rules, isOptional)
    }

    method Min(minimum: nat, error: string := MinMessage(NumberKind, minimum)) returns (self: NumberValidator)
      modifies this
      ensures self == this && isOptional == old(isOptional)
      ensures rules == old(rules) + [MinRule(NumberKind, minimum, error)]
    {
      rules := rules + [MinRule(NumberKind, minimum, error)];
      self := this;
    }

    method Max(maximum: nat, error: string := MaxMessage(NumberKind, maximum)) returns (self: NumberValidator)
      modifies this
      ensures self == this && isOptional == old(isOptional)
      ensures rules == old(rules) + [MaxRule(NumberKind, maximum, error)]
    {
      rules := rules + [MaxRule(NumberKind, maximum, error)];
      self := this;
    }

    method Length(length: nat, error: string := LengthMessage(NumberKind, length)) returns (self: NumberValidator)
      modifies this
      ensures self == this && isOptional == old(isOptional)
      ensures rules == old(rules) + [LengthRule(NumberKind, length, error)]
    {
      rules := rules + [LengthRule(NumberKind, length, error)];
      self := this;
    }

    /** Stores `pattern.toString()`, slashes and flags included, as the code is written; see
        `Rules.NumberRegexAsWrittenAlwaysReports` for what that rule then reports and
        `Rules.NumberRegexIntendedTestsSource` for the rule on the source that was meant. */
    method Regex(pattern: RegExp, error: string) returns (self: NumberValidator)
      modifies this
      ensures self == this && isOptional == old(isOptional)
      ensures rules == old(rules) + [Rule(Source(NumberStoredSourceAsWritten(pattern)), error)]
    {
      rules := rules + [Rule(Source(NumberStoredSourceAsWritten(pattern)), error)];
      self := this;
    }

    method Optional() returns (wrapper: OptionalValidator)
      modifies this
      ensures isOptional && rules == old(rules)
      ensures fresh(wrapper) && wrapper.inner == WrapNumber(this)
    {
      isOptional := true;
      wrapper := new OptionalValidator(WrapNumber(this));
    }

    method ValidateSafely(value: Value, engine: Engine) returns (errors: seq<string>)
      ensures errors == SafeErrors(NumberKind, rules, isOptional, value, engine)
    {
      if isOptional && !Truthy(value) {
        return [];
      }
      if TypeOf(value) != "number" {
        return [TypeMessage(NumberKind)];
      }
      errors := CollectFailures(rules, IntToString(value.n), engine);
    }

    method Validate(value: Value, engine: Engine) returns (r: Completion<Value>)
      ensures r == StrictResult(NumberKind, rules, isOptional, value, engine)
    {
      if isOptional && !Truthy(value) {
        return Normal(Bool(true));
      }
      if TypeOf(value) != "number" {
        return Throw(Error(TypeMessage(NumberKind)));
      }
      var failed := FirstFailure(rules, IntToString(value.n), engine);
      match failed
      case None => r := Normal(Bool(true));
      case Some(m) => r := Throw(Error(m));
    }
  }

  // ---------------------------------------------------------------- SelfRefValidator

  /** A placeholder for a property that refers back to the enclosing schema.  It has no
      validating methods of its own. */
  class SelfRefValidator {
    const propertyName: string
    const errorMsg: string
    var isOptional: bool

    constructor (propertyName: string, errorMsg: string)
      ensures this.propertyName == propertyName && this.errorMsg == errorMsg && !isOptional
    {
      this.errorMsg := errorMsg;
      this.propertyName := propertyName;
      isOptional := false;
    }

    ghost function Snapshot(): Node
      reads this
    {
      SelfRef(propertyName, errorMsg, isOptional)
    }

    method Optional() returns (wrapper: OptionalValidator)
      modifies this
      ensures isOptional
      ensures fresh(wrapper) && wrapper.inner == WrapSelfRef(this)
    {
      isOptional := true;
      wrapper := new OptionalValidator(WrapSelfRef(this));
    }

    function IsOptional(): bool
      reads this
    {
      isOptional
    }

    function GetErrorMsg(): string {
      errorMsg
    }

    function GetPropertyName(): string {
      propertyName
    }
  }

  /** The accessors give back what the constructor was given, and the flag reads false until
      `optional()` is called and true after. */
  method SelfRefAccessors(name: string, msg: string) returns (gotName: string, gotMsg: string, before: bool, after: bool)
    ensures gotName == name && gotMsg == msg
    ensures !before && after
  {
    var r := new SelfRefValidator(name, msg);
    before := r.IsOptional();
    var _ := r.Optional();
    after := r.IsOptional();
    gotName := r.GetPropertyName();
    gotMsg := r.GetErrorMsg();
  }

  // ---------------------------------------------------------------- OptionalValidator

  /** What `optional()` wraps. */
  datatype Wrappable = WrapString(s: StringValidator) | WrapNumber(num: NumberValidator) | WrapSelfRef(r: SelfRefValidator)

  function WrappedObject(w: Wrappable): object {
    match w
    case WrapString(s) => s
    case WrapNumber(num) => num
    case WrapSelfRef(r) => r
  }

  ghost function WrappedNode(w: Wrappable): Node
    reads WrappedObject(w)
  {
    match w
    case WrapString(s) => s.Snapshot()
    case WrapNumber(num) => num.Snapshot()
    case WrapSelfRef(r) => r.Snapshot()
  }

  /** Forwards both methods to the wrapped validator. */
  class OptionalValidator {
    const inner: Wrappable

    constructor (obj: Wrappable)
      ensures inner == obj
    {
      inner := obj;
    }

    ghost function Snapshot(): Node
      reads WrappedObject(inner)
    {
      OptionalOf(WrappedNode(inner))
    }

    /** Returns what the wrapped validator returns; a wrapped self-reference has no such method. */
    method ValidateSafely(value: Value, engine: Engine) returns (r: Completion<SafeResult>)
      ensures r == Safe(WrappedNode(inner), value, engine)
    {
      match inner
      case WrapString(s) =>
        var errors := s.ValidateSafely(value, engine);
        r := Normal(Messages(errors));
      case WrapNumber(num) =>
        var errors := num.ValidateSafely(value, engine);
        r := Normal(Messages(errors));
      case WrapSelfRef(_) =>
        r := Throw(TypeError);
    }

    /** Raises what the wrapped validator raises, and otherwise returns `undefined` (the wrapped
        validator's `true` is dropped). */
    method Validate(value: Value, engine: Engine) returns (r: Completion<Value>)
      ensures r.Throw? <==> Strict(WrappedNode(inner), value, engine).Throw?
      ensures r.Throw? ==> r == Strict(WrappedNode(inner), value, engine)
      ensures r.Normal? ==> r.value == Undefined
    {
      var res: Completion<Value>;
      match inner {
        case WrapString(s) =>
          res := s.Validate(value, engine);
        case WrapNumber(num) =>
          res := num.Validate(value, engine);
        case WrapSelfRef(_) =>
          res := Throw(TypeError);
      }
      r := if res.Throw? then res else Normal(Undefined);
    }
  }

  // ---------------------------------------------------------------- ObjectValidator

  /** A value found in a schema object. */
  datatype Entry =
    | StringEntry(s: StringValidator)
    | NumberEntry(num: NumberValidator)
    | OptionalEntry(o: OptionalValidator)
    | SelfRefEntry(r: SelfRefValidator)
    | ObjectEntry(ob: ObjectValidator)
    | ValueEntry(v: Value)

  ghost predicate UniqueEntryKeys(schema: seq<(string, Entry)>) {
    forall j, l | 0 <= j < l < |schema| :: schema[j].0 != schema[l].0
  }

  ghost function EntryDepth(e: Entry): nat {
    if e.ObjectEntry? then e.ob.depth else 0
  }

  /** The objects an entry's description depends on. */
  ghost function EntryRepr(e: Entry): set<object> {
    match e
    case StringEntry(s) => {s}
    case NumberEntry(num) => {num}
    case OptionalEntry(o) => {o, WrappedObject(o.inner)}
    case SelfRefEntry(r) => {r}
    case ObjectEntry(ob) => {ob} + ob.Repr
    case ValueEntry(_) => {}
  }

  ghost predicate EntryValid(e: Entry) {
    e.ObjectEntry? ==> e.ob.Valid()
  }

  ghost function EntryNode(e: Entry): Node
    requires EntryValid(e)
    reads EntryRepr(e)
    decreases EntryDepth(e), 1
  {
    match e
    case StringEntry(s) => s.Snapshot()
    case NumberEntry(num) => num.Snapshot()
    case OptionalEntry(o) => o.Snapshot()
    case SelfRefEntry(r) => r.Snapshot()
    case ObjectEntry(ob) => ObjectOf(SchemaNodes(ob, |ob.schema|))
    case ValueEntry(v) => NotAValidator(v)
  }

  /** The descriptions of the first `i` keys of an object validator's schema. */
  ghost function SchemaNodes(ob: ObjectValidator, i: nat): (fields: seq<(string, Node)>)
    requires ob.Valid() && i <= |ob.schema|
    reads ob.Repr
    decreases ob.depth, 0, i
    ensures |fields| == i
    ensures forall j | 0 <= j < i :: fields[j] == (ob.schema[j].0, EntryNode(ob.schema[j].1))
  {
    if i == 0 then []
    else SchemaNodes(ob, i - 1) + [(ob.schema[i - 1].0, EntryNode(ob.schema[i - 1].1))]
  }

  ghost function MaxEntryDepth(schema: seq<(string, Entry)>): (d: nat)
    ensures forall j | 0 <= j < |schema| :: EntryDepth(schema[j].1) <= d
  {
    if schema == [] then 0
    else
      var d0 := MaxEntryDepth(schema[..|schema| - 1]);
      var e := EntryDepth(schema[|schema| - 1].1);
      assert forall j | 0 <= j < |schema| - 1 :: schema[j] == schema[..|schema| - 1][j];
      if e > d0 then e else d0
  }

  ghost function SchemaRepr(schema: seq<(string, Entry)>): (repr: set<object>)
    ensures forall j | 0 <= j < |schema| :: EntryRepr(schema[j].1) <= repr
  {
    if schema == [] then {}
    else
      assert forall j | 0 <= j < |schema| - 1 :: schema[j] == schema[..|schema| - 1][j];
      SchemaRepr(schema[..|schema| - 1]) + EntryRepr(schema[|schema| - 1].1)
  }

  /** Built around a schema object whose keys are taken in enumeration order.  The entries are
      copied when the validator is built (the validators they hold are shared, not copied), so
      keys added to the schema object later, and schemas that reach their own object validator,
      are outside this model. */
  class ObjectValidator {
    const schema: seq<(string, Entry)>
    ghost const depth: nat
    ghost const Repr: set<object>

    /** The schema's keys are distinct, nested object validators are valid and shallower, and
        `Repr` covers everything the schema's validators hold. */
    ghost predicate Valid()
      decreases depth
    {
      UniqueEntryKeys(schema)
      && forall j | 0 <= j < |schema| ::
           EntryDepth(schema[j].1) < depth && EntryRepr(schema[j].1) <= Repr
           && (schema[j].1.ObjectEntry? ==> schema[j].1.ob.Valid())
    }

    constructor (schema: seq<(string, Entry)>)
      requires UniqueEntryKeys(schema)
      requires forall j | 0 <= j < |schema| :: EntryValid(schema[j].1)
      ensures this.schema == schema && Valid()
    {
      this.schema := schema;
      depth := MaxEntryDepth(schema) + 1;
      Repr := SchemaRepr(schema);
    }

    ghost function Snapshot(): (n: Node)
      requires Valid()
      reads Repr
      ensures n.ObjectOf? && UniqueKeys(n.fields)
      ensures |n.fields| == |schema|
      ensures forall j | 0 <= j < |schema| :: n.fields[j] == (schema[j].0, EntryNode(schema[j].1))
    {
      ObjectOf(SchemaNodes(this, |schema|))
    }

    method ValidateSafely(value: Value, engine: Engine) returns (r: Completion<map<string, SafeResult>>)
      requires Valid()
      decreases depth, 1
      ensures r == ObjectSafe(Snapshot(), value, engine)
    {
      if TypeOf(value) != "object" {
        return Normal(map["error" := Messages([ObjectTypeMessage])]);
      }
      ghost var n := Snapshot();
      var errorsMap: map<string, SafeResult> := map[];
      for i := 0 to |schema|
        invariant FieldsSafe(n, i, value, engine) == Normal(errorsMap)
      {
        var key := schema[i].0;
        var fr := EntrySafe(key, schema[i].1, value, engine);
        match fr
        case Throw(ex) =>
          FieldsSafeThrowPersists(n, i + 1, |schema|, value, engine);
          return Throw(ex);
        case Normal(None) =>
        case Normal(Some(errors)) =>
          errorsMap := errorsMap[key := errors];
      }
      return Normal(errorsMap);
    }

    method Validate(value: Value, engine: Engine) returns (r: Completion<Value>)
      requires Valid()
      decreases depth, 1
      ensures r == ObjectStrict(Snapshot(), value, engine)
    {
      if TypeOf(value) != "object" {
        return Throw(Error(ObjectTypeMessage));
      }
      ghost var n := Snapshot();
      for i := 0 to |schema|
        invariant FieldsStrict(n, i, value, engine) == Normal(Undefined)
      {
        var fr := EntryStrict(schema[i].0, schema[i].1, value, engine);
        if fr.Throw? {
          FieldsStrictThrowPersists(n, i + 1, |schema|, value, engine);
          return fr;
        }
      }
      return Normal(Undefined);
    }
  }

  /** `typeof value.validateSafely !== "function"` for a schema value that is not a validator with
      methods: reading a property of undefined or null raises a `TypeError` itself. */
  function MissingMethod(e: Entry): Exception
    requires e.SelfRefEntry? || e.ValueEntry?
  {
    if e.ValueEntry? && (e.v.Undefined? || e.v.Null?) then TypeError else Error(InvalidValidatorMessage)
  }

  /** One iteration of `validateSafely`'s loop over the schema. */
  method EntrySafe(key: string, e: Entry, value: Value, engine: Engine) returns (r: Completion<Option<SafeResult>>)
    requires EntryValid(e)
    decreases EntryDepth(e), 3
    ensures r == FieldSafe(key, EntryNode(e), value, engine)
  {
    if e.SelfRefEntry? || e.ValueEntry? {
      return Throw(MissingMethod(e));
    }
    if value.Null? {
      return Throw(TypeError);
    }
    var res := EntryValidateSafely(e, Field(value, key), engine);
    match res
    case Throw(ex) => r := Throw(ex);
    case Normal(errors) => r := Normal(if LengthIsPositive(errors) then Some(errors) else None);
  }

  /** `validateSafely` called on a schema value. */
  method EntryValidateSafely(e: Entry, value: Value, engine: Engine) returns (r: Completion<SafeResult>)
    requires EntryValid(e)
    decreases EntryDepth(e), 2
    ensures r == Safe(EntryNode(e), value, engine)
  {
    match e
    case StringEntry(s) =>
      var errors := s.ValidateSafely(value, engine);
      r := Normal(Messages(errors));
    case NumberEntry(num) =>
      var errors := num.ValidateSafely(value, engine);
      r := Normal(Messages(errors));
    case OptionalEntry(o) =>
      r := o.ValidateSafely(value, engine);
    case ObjectEntry(ob) =>
      var m := ob.ValidateSafely(value, engine);
      r := AsReport(m);
    case SelfRefEntry(_) =>
      r := Throw(TypeError);
    case ValueEntry(_) =>
      r := Throw(TypeError);
  }

  /** One iteration of `validate`'s loop over the schema. */
  method EntryStrict(key: string, e: Entry, value: Value, engine: Engine) returns (r: Completion<Value>)
    requires EntryValid(e)
    decreases EntryDepth(e), 3
    ensures r == FieldStrict(key, EntryNode(e), value, engine)
  {
    if e.SelfRefEntry? || e.ValueEntry? {
      return Throw(MissingMethod(e));
    }
    if value.Null? {
      return Throw(TypeError);
    }
    r := EntryValidate(e, Field(value, key), engine);
  }

  /** `validate` called on a schema value. */
  method EntryValidate(e: Entry, value: Value, engine: Engine) returns (r: Completion<Value>)
    requires EntryValid(e)
    decreases EntryDepth(e), 2
    ensures r == Strict(EntryNode(e), value, engine)
  {
    match e
    case StringEntry(s) =>
      r := s.Validate(value, engine);
    case NumberEntry(num) =>
      r := num.Validate(value, engine);
    case OptionalEntry(o) =>
      r := o.Validate(value, engine);
    case ObjectEntry(ob) =>
      r := ob.Validate(value, engine);
    case SelfRefEntry(_) =>
      r := Throw(TypeError);
    case ValueEntry(_) =>
      r := Throw(TypeError);
  }

  // ---------------------------------------------------------------- the factory

  class Validator {
    static method String() returns (v: StringValidator)
      ensures fresh(v) && v.rules == [] && !v.isOptional
    {
      v := new StringValidator();
    }

    static method Number() returns (v: NumberValidator)
      ensures fresh(v) && v.rules == [] && !v.isOptional
    {
      v := new NumberValidator();
    }

    static method Object(schema: seq<(string, Entry)>) returns (v: ObjectValidator)
      requires UniqueEntryKeys(schema)
      requires forall j | 0 <= j < |schema| :: EntryValid(schema[j].1)
      ensures fresh(v) && v.schema == schema && v.Valid()
    {
      v := new ObjectValidator(schema);
    }
  }
}
