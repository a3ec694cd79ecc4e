/** Variable and argument declarations and the literals they admit (app/pipelines/variables.py). */
module Variables {
  import opened Wrappers
  import opened Expressions

  const QUERY := "query"

  datatype VariableType = IntegerType | NumberType | StringType | BooleanType | EnumType | ModelType

  datatype Source = ValueSource | ExpressionSource | InputSource

  /** An untyped JSON value; lists and objects are told apart by an identifier only. */
  datatype Raw = Scalar(value: Value) | Structured(id: nat)

  /** Expression source text: whether it is empty, and what the parser makes of it. */
  datatype Text = Text(empty: bool, parsed: Option<Expr>)

  datatype Declaration = Declaration(
    ty: VariableType,
    minimum: Option<real>,
    maximum: Option<real>,
    choices: seq<string>)

  datatype Variable = Variable(
    name: string,
    decl: Declaration,
    source: Source,
    value: Option<Value>,
    expression: Option<Text>)

  datatype InputArgument = InputArgument(
    name: string,
    decl: Declaration,
    required: bool,
    default: Option<Value>)

  datatype Violation =
    | ExpectedModel | ExpectedBoolean | ExpectedString | ExpectedNumber | ExpectedWhole
    | NoChoices | NotAChoice | BelowMinimum | AboveMaximum

  function ExprTypeOf(t: VariableType): ExprType {
    match t
    case IntegerType => IntegerT
    case NumberType => NumberT
    case StringType => StringT
    case BooleanType => BooleanT
    case EnumType => StringT
    case ModelType => ModelT
  }

  /** A model-typed default has no scalar wire shape, so the argument becomes required. */
  function AsInputArgument(v: Variable): InputArgument {
    var default := if v.value.Some? && v.value.value.ModelV? then None else v.value;
    InputArgument(v.name, v.decl, default.None?, default)
  }

  function CoerceLiteral(d: Declaration, raw: Raw): Result<Value, Violation> {
    if d.ty == ModelType then
      if raw.Scalar? && raw.value.ModelV? then Ok(raw.value) else Err(ExpectedModel)
    else if d.ty == BooleanType then
      if raw.Scalar? && raw.value.BoolV? then Ok(raw.value) else Err(ExpectedBoolean)
    else if d.ty == StringType || d.ty == EnumType then
      CoerceText(d, raw)
    else
      var n := CoerceNumeric(d.ty, raw);
      if n.Err? then n
      else if d.minimum.Some? && AsReal(n.value) < d.minimum.value then Err(BelowMinimum)
      else if d.maximum.Some? && AsReal(n.value) > d.maximum.value then Err(AboveMaximum)
      else n
  }

  function CoerceText(d: Declaration, raw: Raw): Result<Value, Violation> {
    if !(raw.Scalar? && raw.value.StrV?) then Err(ExpectedString)
    else if d.ty == EnumType && d.choices == [] then Err(NoChoices)
    else if d.ty == EnumType && raw.value.s !in d.choices then Err(NotAChoice)
    else Ok(raw.value)
  }

  function CoerceNumeric(t: VariableType, raw: Raw): (r: Result<Value, Violation>)
    ensures r.Ok? ==> IsNumeric(r.value)
  {
    if !(raw.Scalar? && IsNumeric(raw.value)) then Err(ExpectedNumber)
    else if t == IntegerType && raw.value.NumV? then
      if raw.value.r == raw.value.r.Floor as real then Ok(IntV(raw.value.r.Floor)) else Err(ExpectedWhole)
    else Ok(raw.value)
  }

  /** What a declaration demands of a typed value. */
  predicate Satisfies(d: Declaration, v: Value) {
    && Conforms(v, ExprTypeOf(d.ty))
    && (d.ty == EnumType ==> v.StrV? && v.s in d.choices)
    && (d.ty == IntegerType || d.ty == NumberType ==>
          && IsNumeric(v)
          && (d.minimum.Some? ==> d.minimum.value <= AsReal(v))
          && (d.maximum.Some? ==> AsReal(v) <= d.maximum.value))
  }

  /** `v` denotes the raw value: itself, or for an integer declaration the equal whole number. */
  predicate Denotes(d: Declaration, raw: Raw, v: Value) {
    && raw.Scalar?
    && if d.ty == IntegerType && raw.value.NumV? then v.IntV? && v.i as real == raw.value.r
       else v == raw.value
  }

  /** Coercion accepts a raw value exactly when some value it denotes satisfies the declaration. */
  lemma CoercionIsExact(d: Declaration, raw: Raw)
    ensures CoerceLiteral(d, raw).Ok? <==> exists v :: Denotes(d, raw, v) && Satisfies(d, v)
    ensures CoerceLiteral(d, raw).Ok? ==>
              Denotes(d, raw, CoerceLiteral(d, raw).value) && Satisfies(d, CoerceLiteral(d, raw).value)
  {
    var r := CoerceLiteral(d, raw);
    if r.Ok? {
      assert Denotes(d, raw, r.value) && Satisfies(d, r.value);
    }
    if v :| Denotes(d, raw, v) && Satisfies(d, v) {
      if d.ty == IntegerType && raw.value.NumV? {
        assert (v.i as real).Floor == v.i;
      }
      assert r.Ok?;
    }
  }

  /** A coerced value passes its own declaration unchanged, so coercion may be repeated. */
  lemma CoercionIsIdempotent(d: Declaration, raw: Raw)
    requires CoerceLiteral(d, raw).Ok?
    ensures CoerceLiteral(d, Scalar(CoerceLiteral(d, raw).value)) == CoerceLiteral(d, raw)
  {
    CoercionIsExact(d, raw);
  }

  /** Python's `int` of a float drops the fraction. */
  function Truncate(x: real): int {
    if x >= 0.0 then x.Floor else -((-x).Floor)
  }

  function StaticPlaceholder(a: InputArgument): Value {
    if a.default.Some? && CoerceLiteral(a.decl, Scalar(a.default.value)).Ok? then
      CoerceLiteral(a.decl, Scalar(a.default.value)).value
    else
      match a.decl.ty
      case IntegerType => IntV(if a.decl.minimum.Some? then Truncate(a.decl.minimum.value) else 1)
      case NumberType => NumV(if a.decl.minimum.Some? then a.decl.minimum.value else 1.0)
      case BooleanType => BoolV(false)
      case EnumType => StrV(if a.decl.choices != [] then a.decl.choices[0] else "")
      case _ => StrV("")
  }

  /** Apart from model arguments, a placeholder always has the declared type. */
  lemma PlaceholderConforms(a: InputArgument)
    requires a.decl.ty != ModelType
    ensures Conforms(StaticPlaceholder(a), ExprTypeOf(a.decl.ty))
  {
    if a.default.Some? {
      CoercionIsExact(a.decl, Scalar(a.default.value));
    }
  }

  predicate Between(low: real, k: int, high: real) {
    low <= k as real <= high
  }

  /** Some whole number lies within the bounds. */
  ghost predicate WholeBetween(low: real, high: real) {
    exists k: int :: Between(low, k, high)
  }

  /**
   * The stand-in for an argument without a usable default is not always within the
   * declared constraints; these are the bounds for which it is. Dropping the fraction of a
   * minimum falls below it unless the minimum is whole or not positive.
   */
  ghost predicate PlaceholderFits(d: Declaration) {
    match d.ty
    case IntegerType =>
      if d.minimum.None? then d.maximum.Some? ==> 1.0 <= d.maximum.value
      else
        && (d.minimum.value <= 0.0 || d.minimum.value == d.minimum.value.Floor as real)
        && (d.maximum.Some? ==> WholeBetween(d.minimum.value, d.maximum.value))
    case NumberType =>
      d.maximum.Some? ==> if d.minimum.Some? then d.minimum.value <= d.maximum.value else 1.0 <= d.maximum.value
    case EnumType => d.choices != []
    case ModelType => false
    case _ => true
  }

  lemma PlaceholderRespectsConstraints(a: InputArgument)
    ensures Satisfies(a.decl, StaticPlaceholder(a)) <==>
              || (a.default.Some? && CoerceLiteral(a.decl, Scalar(a.default.value)).Ok?)
              || PlaceholderFits(a.decl)
  {
    if a.default.Some? {
      CoercionIsExact(a.decl, Scalar(a.default.value));
    }
    if a.decl.ty == IntegerType && a.decl.minimum.Some? {
      TruncationBounds(a.decl.minimum.value);
      if a.decl.maximum.Some? && a.decl.minimum.value <= Truncate(a.decl.minimum.value) as real {
        TruncationLeast(a.decl.minimum.value, a.decl.maximum.value);
      }
    }
  }

  /** Truncation does not fall below a number that is whole or not positive, and below no other. */
  lemma TruncationBounds(x: real)
    ensures x <= Truncate(x) as real <==> x <= 0.0 || x == x.Floor as real
  {
    if x >= 0.0 {
      assert x.Floor as real <= x;
    }
  }

  /** For such numbers it yields the least whole number that is not below. */
  lemma TruncationLeast(low: real, high: real)
    requires low <= 0.0 || low == low.Floor as real
    ensures Truncate(low) as real <= high <==> WholeBetween(low, high)
  {
    TruncationBounds(low);
    if Truncate(low) as real <= high {
      assert Between(low, Truncate(low), high);
    }
    if k: int :| Between(low, k, high) {
      assert Truncate(low) <= k;
    }
  }
}
