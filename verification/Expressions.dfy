/**
 * The expression language of pipeline configs: abstract syntax, static types,
 * references and evaluation (app/pipelines/expressions). The parser is not modelled;
 * floats are reals.
 */
module Expressions {
  import opened Wrappers

  datatype Value =
    | IntV(i: int)
    | NumV(r: real)
    | StrV(s: string)
    | BoolV(b: bool)
    | ModelV(connectionId: string, modelName: string)

  datatype ExprType = IntegerT | NumberT | StringT | BooleanT | ModelT

  datatype Op = Add | Sub | Mul | Div | FloorDiv | Mod

  datatype Expr =
    | Literal(value: Value)
    | Name(name: string)
    | Member(base: Expr, attribute: string)
    | Negate(operand: Expr)
    | Binary(op: Op, left: Expr, right: Expr)
    | Call(builtin: string, args: seq<Expr>)

  /** `TypeFault` covers every misuse the static checker is there to find, `Arithmetic` the rest. */
  datatype Fault = TypeFault | Arithmetic

  type Env = map<string, Value>

  function ValueType(v: Value): ExprType {
    match v
    case IntV(_) => IntegerT
    case NumV(_) => NumberT
    case StrV(_) => StringT
    case BoolV(_) => BooleanT
    case ModelV(_, _) => ModelT
  }

  predicate IsNumericType(t: ExprType) {
    t == IntegerT || t == NumberT
  }

  predicate IsNumeric(v: Value) {
    v.IntV? || v.NumV?
  }

  function AsReal(v: Value): real
    requires IsNumeric(v)
  {
    if v.IntV? then v.i as real else v.r
  }

  // ---- builtins ----------------------------------------------------------------

  datatype Builtin = Builtin(minArgs: nat, maxArgs: Option<nat>, alwaysInt: bool)

  function Catalog(name: string): Option<Builtin> {
    if name == "min" || name == "max" then Some(Builtin(2, None, false))
    else if name == "clamp" then Some(Builtin(3, Some(3), false))
    else if name == "floor" || name == "ceil" || name == "round" then Some(Builtin(1, Some(1), true))
    else None
  }

  predicate ArityAccepted(spec: Builtin, received: nat) {
    spec.minArgs <= received && (spec.maxArgs.Some? ==> received <= spec.maxArgs.value)
  }

  /** Python's `min`: a later argument replaces the current one only when strictly smaller. */
  function Least(a: Value, b: Value): Value
    requires IsNumeric(a) && IsNumeric(b)
  {
    if AsReal(b) < AsReal(a) then b else a
  }

  function Greatest(a: Value, b: Value): Value
    requires IsNumeric(a) && IsNumeric(b)
  {
    if AsReal(b) > AsReal(a) then b else a
  }

  function FoldLeast(args: seq<Value>): (v: Value)
    requires |args| >= 1 && forall a :: a in args ==> IsNumeric(a)
    ensures v in args
  {
    if |args| == 1 then args[0] else Least(FoldLeast(args[..|args| - 1]), args[|args| - 1])
  }

  function FoldGreatest(args: seq<Value>): (v: Value)
    requires |args| >= 1 && forall a :: a in args ==> IsNumeric(a)
    ensures v in args
  {
    if |args| == 1 then args[0] else Greatest(FoldGreatest(args[..|args| - 1]), args[|args| - 1])
  }

  function RoundHalfAway(x: real): int {
    if x >= 0.0 then (x + 0.5).Floor else -((-x + 0.5).Floor)
  }

  function ApplyBuiltin(name: string, args: seq<Value>): Result<Value, Fault>
    requires Catalog(name).Some? && ArityAccepted(Catalog(name).value, |args|)
    requires forall a :: a in args ==> IsNumeric(a)
  {
    if name == "min" then Ok(FoldLeast(args))
    else if name == "max" then Ok(FoldGreatest(args))
    else if name == "clamp" then
      if AsReal(args[1]) > AsReal(args[2]) then Err(Arithmetic)
      else Ok(Least(Greatest(args[0], args[1]), args[2]))
    else if name == "floor" then Ok(IntV(AsReal(args[0]).Floor))
    else if name == "ceil" then Ok(IntV(-((-AsReal(args[0])).Floor)))
    else Ok(IntV(RoundHalfAway(AsReal(args[0]))))
  }

  // ---- static types ------------------------------------------------------------

  function CheckType(e: Expr, types: map<string, ExprType>): Option<ExprType>
    decreases e, 1
  {
    match e
    case Literal(v) => if v.ModelV? then None else Some(ValueType(v))
    case Name(x) => if x in types then Some(types[x]) else None
    case Member(base, attribute) =>
      if CheckType(base, types) == Some(ModelT) && attribute in {"connection_id", "model_name"}
      then Some(StringT) else None
    case Negate(operand) =>
      var t := CheckType(operand, types);
      if t.Some? && IsNumericType(t.value) then t else None
    case Binary(op, left, right) =>
      var l, r := CheckType(left, types), CheckType(right, types);
      if l.None? || r.None? then None else CheckBinary(op, l.value, r.value)
    case Call(name, args) =>
      var spec := Catalog(name);
      if spec.None? || !ArityAccepted(spec.value, |args|) then None
      else
        var ts := CheckArgs(args, types);
        if ts.None? then None
        else if spec.value.alwaysInt || forall t :: t in ts.value ==> t == IntegerT then Some(IntegerT)
        else Some(NumberT)
  }

  function CheckBinary(op: Op, l: ExprType, r: ExprType): Option<ExprType> {
    if op == Add && l == StringT && r == StringT then Some(StringT)
    else if op == FloorDiv || op == Mod then
      if l == IntegerT && r == IntegerT then Some(IntegerT) else None
    else if !IsNumericType(l) || !IsNumericType(r) then None
    else if op == Div then Some(NumberT)
    else if l == IntegerT && r == IntegerT then Some(IntegerT)
    else Some(NumberT)
  }

  /** The types of builtin arguments, all of which must be numeric. */
  function CheckArgs(args: seq<Expr>, types: map<string, ExprType>): (ts: Option<seq<ExprType>>)
    ensures ts.Some? ==> |ts.value| == |args|
    decreases args, 0
  {
    if args == [] then Some([])
    else
      var t, rest := CheckType(args[0], types), CheckArgs(args[1..], types);
      if t.Some? && IsNumericType(t.value) && rest.Some? then Some([t.value] + rest.value) else None
  }

  // ---- references ----------------------------------------------------------------

  function References(e: Expr): set<string>
    decreases e, 1
  {
    match e
    case Literal(_) => {}
    case Name(x) => {x}
    case Member(base, _) => References(base)
    case Negate(operand) => References(operand)
    case Binary(_, left, right) => References(left) + References(right)
    case Call(_, args) => ReferencesOfArgs(args)
  }

  function ReferencesOfArgs(args: seq<Expr>): set<string>
    decreases args, 0
  {
    if args == [] then {} else References(args[0]) + ReferencesOfArgs(args[1..])
  }

  // ---- evaluation ----------------------------------------------------------------

  function Evaluate(e: Expr, env: Env): Result<Value, Fault>
    decreases e, 1
  {
    match e
    case Literal(v) => Ok(v)
    case Name(x) => if x in env then Ok(env[x]) else Err(TypeFault)
    case Member(base, attribute) =>
      var b := Evaluate(base, env);
      if b.Err? then b
      else if !b.value.ModelV? then Err(TypeFault)
      else if attribute == "connection_id" then Ok(StrV(b.value.connectionId))
      else if attribute == "model_name" then Ok(StrV(b.value.modelName))
      else Err(TypeFault)
    case Negate(operand) =>
      var v := Evaluate(operand, env);
      if v.Err? then v
      else if v.value.IntV? then Ok(IntV(-v.value.i))
      else if v.value.NumV? then Ok(NumV(-v.value.r))
      else Err(TypeFault)
    case Binary(op, left, right) =>
      var l := Evaluate(left, env);
      if l.Err? then l
      else
        var r := Evaluate(right, env);
        if r.Err? then r else EvaluateBinary(op, l.value, r.value)
    case Call(name, args) =>
      var spec := Catalog(name);
      if spec.None? || !ArityAccepted(spec.value, |args|) then Err(TypeFault)
      else
        var vs := EvaluateArgs(args, env);
        if vs.Err? then Err(vs.error) else ApplyBuiltin(name, vs.value)
  }

  function EvaluateArgs(args: seq<Expr>, env: Env): (vs: Result<seq<Value>, Fault>)
    ensures vs.Ok? ==> |vs.value| == |args| && forall v :: v in vs.value ==> IsNumeric(v)
    decreases args, 0
  {
    if args == [] then Ok([])
    else
      var v := Evaluate(args[0], env);
      if v.Err? then Err(v.error)
      else if !IsNumeric(v.value) then Err(TypeFault)
      else
        var rest := EvaluateArgs(args[1..], env);
        if rest.Err? then rest else Ok([v.value] + rest.value)
  }

  /** Python's `//` rounds towards minus infinity; Dafny's `/` rounds so that the remainder is not negative. */
  function FloorDivide(a: int, b: int): (q: int)
    requires b != 0
    ensures b > 0 ==> b * q <= a < b * (q + 1)
    ensures b < 0 ==> b * (q + 1) < a <= b * q
  {
    if b > 0 then a / b else (-a) / (-b)
  }

  function EvaluateBinary(op: Op, l: Value, r: Value): Result<Value, Fault> {
    if op == Add && l.StrV? && r.StrV? then Ok(StrV(l.s + r.s))
    else if op == FloorDiv || op == Mod then
      if !l.IntV? || !r.IntV? then Err(TypeFault)
      else if r.i == 0 then Err(Arithmetic)
      else if op == FloorDiv then Ok(IntV(FloorDivide(l.i, r.i)))
      else Ok(IntV(l.i - r.i * FloorDivide(l.i, r.i)))
    else if !IsNumeric(l) || !IsNumeric(r) then Err(TypeFault)
    else if op == Div then
      if AsReal(r) == 0.0 then Err(Arithmetic) else Ok(NumV(AsReal(l) / AsReal(r)))
    else if l.IntV? && r.IntV? then
      Ok(IntV(if op == Add then l.i + r.i else if op == Sub then l.i - r.i else l.i * r.i))
    else
      var a, b := AsReal(l), AsReal(r);
      Ok(NumV(if op == Add then a + b else if op == Sub then a - b else a * b))
  }

  // ---- coincidence ---------------------------------------------------------------

  /** Both environments bind `x` to the same value, or neither binds it. */
  ghost predicate SameOn(x: string, env: Env, env': Env) {
    (x in env <==> x in env') && (x in env ==> env[x] == env'[x])
  }

  /** An expression's outcome, value or fault, depends on its references only. */
  lemma {:induction false} Coincidence(e: Expr, env: Env, env': Env)
    requires forall x :: x in References(e) ==> SameOn(x, env, env')
    ensures Evaluate(e, env) == Evaluate(e, env')
    decreases e, 1
  {
    match e
    case Literal(_) =>
    case Name(x) => assert SameOn(x, env, env');
    case Member(base, _) => Coincidence(base, env, env');
    case Negate(operand) => Coincidence(operand, env, env');
    case Binary(_, left, right) =>
      Coincidence(left, env, env');
      Coincidence(right, env, env');
    case Call(_, args) => CoincidenceOfArgs(args, env, env');
  }

  lemma {:induction false} CoincidenceOfArgs(args: seq<Expr>, env: Env, env': Env)
    requires forall x :: x in ReferencesOfArgs(args) ==> SameOn(x, env, env')
    ensures EvaluateArgs(args, env) == EvaluateArgs(args, env')
    decreases args, 0
  {
    if args != [] {
      Coincidence(args[0], env, env');
      CoincidenceOfArgs(args[1..], env, env');
    }
  }

  // ---- type soundness --------------------------------------------------------------

  /** An integer is also a number; every other value has exactly one type. */
  predicate Conforms(v: Value, t: ExprType) {
    ValueType(v) == t || (v.IntV? && t == NumberT)
  }

  ghost predicate EnvConforms(env: Env, types: map<string, ExprType>) {
    forall x :: x in types ==> x in env && Conforms(env[x], types[x])
  }

  ghost predicate SoundOutcome(r: Result<Value, Fault>, t: ExprType) {
    match r
    case Ok(v) => Conforms(v, t)
    case Err(fault) => fault == Arithmetic
  }

  /** A builtin keeps integers when its catalog entry says so, and is numeric otherwise. */
  lemma BuiltinSoundness(name: string, vs: seq<Value>, ts: seq<ExprType>)
    requires Catalog(name).Some? && ArityAccepted(Catalog(name).value, |vs|)
    requires |vs| == |ts| && forall i :: 0 <= i < |vs| ==> IsNumeric(vs[i]) && Conforms(vs[i], ts[i])
    ensures match ApplyBuiltin(name, vs)
            case Ok(v) =>
              && IsNumeric(v)
              && (Catalog(name).value.alwaysInt || (forall t :: t in ts ==> t == IntegerT) ==> v.IntV?)
            case Err(fault) => fault == Arithmetic
  {
    if !Catalog(name).value.alwaysInt && forall t :: t in ts ==> t == IntegerT {
      forall v | v in vs ensures v.IntV? {
        var i :| 0 <= i < |vs| && vs[i] == v;
        assert ts[i] in ts;
      }
      if name == "clamp" {
        assert vs[0] in vs && vs[1] in vs && vs[2] in vs;
      }
    }
  }

  lemma BinarySoundness(op: Op, l: Value, r: Value, lt: ExprType, rt: ExprType)
    requires Conforms(l, lt) && Conforms(r, rt) && CheckBinary(op, lt, rt).Some?
    ensures SoundOutcome(EvaluateBinary(op, l, r), CheckBinary(op, lt, rt).value)
  {
    hide FloorDivide;
  }

  /**
   * A checked expression evaluated in a conforming environment yields a value of its
   * static type or an arithmetic fault: never an unknown name or a type error.
   */
  lemma {:induction false} TypeSoundness(e: Expr, types: map<string, ExprType>, env: Env)
    requires EnvConforms(env, types) && CheckType(e, types).Some?
    ensures SoundOutcome(Evaluate(e, env), CheckType(e, types).value)
    decreases e, 1
  {
    hide EvaluateBinary, CheckBinary, ApplyBuiltin;
    match e
    case Literal(_) =>
    case Name(_) =>
    case Member(base, _) => TypeSoundness(base, types, env);
    case Negate(operand) => TypeSoundness(operand, types, env);
    case Binary(op, left, right) =>
      TypeSoundness(left, types, env);
      TypeSoundness(right, types, env);
      var l, r := Evaluate(left, env), Evaluate(right, env);
      if l.Ok? && r.Ok? {
        BinarySoundness(op, l.value, r.value, CheckType(left, types).value, CheckType(right, types).value);
      }
    case Call(name, args) =>
      TypeSoundnessOfArgs(args, types, env);
      if EvaluateArgs(args, env).Ok? {
        BuiltinSoundness(name, EvaluateArgs(args, env).value, CheckArgs(args, types).value);
      }
  }

  lemma {:induction false} TypeSoundnessOfArgs(args: seq<Expr>, types: map<string, ExprType>, env: Env)
    requires EnvConforms(env, types) && CheckArgs(args, types).Some?
    ensures match EvaluateArgs(args, env)
            case Ok(vs) => forall i :: 0 <= i < |vs| ==> Conforms(vs[i], CheckArgs(args, types).value[i])
            case Err(fault) => fault == Arithmetic
    decreases args, 0
  {
    if args != [] {
      TypeSoundness(args[0], types, env);
      TypeSoundnessOfArgs(args[1..], types, env);
    }
  }

  /** A checked expression reads declared names only. */
  lemma {:induction false} CheckedReferences(e: Expr, types: map<string, ExprType>)
    requires CheckType(e, types).Some?
    ensures References(e) <= types.Keys
    decreases e, 1
  {
    match e
    case Literal(_) =>
    case Name(_) =>
    case Member(base, _) => CheckedReferences(base, types);
    case Negate(operand) => CheckedReferences(operand, types);
    case Binary(_, left, right) =>
      CheckedReferences(left, types);
      CheckedReferences(right, types);
    case Call(_, args) => CheckedReferencesOfArgs(args, types);
  }

  lemma {:induction false} CheckedReferencesOfArgs(args: seq<Expr>, types: map<string, ExprType>)
    requires CheckArgs(args, types).Some?
    ensures ReferencesOfArgs(args) <= types.Keys
    decreases args, 0
  {
    if args != [] {
      CheckedReferences(args[0], types);
      CheckedReferencesOfArgs(args[1..], types);
    }
  }

  // ---- what operators and builtins compute ---------------------------------------------------

  /** Integers and floats mix: on numbers the operators compute what they compute on the reals. */
  lemma SumMeaning(l: Value, r: Value)
    requires IsNumeric(l) && IsNumeric(r)
    ensures var (sum, difference) := (EvaluateBinary(Add, l, r), EvaluateBinary(Sub, l, r));
            && sum.Ok? && IsNumeric(sum.value) && AsReal(sum.value) == AsReal(l) + AsReal(r)
            && difference.Ok? && IsNumeric(difference.value) && AsReal(difference.value) + AsReal(r) == AsReal(l)
  {
  }

  lemma ProductMeaning(l: Value, r: Value)
    requires IsNumeric(l) && IsNumeric(r)
    ensures var product := EvaluateBinary(Mul, l, r);
            product.Ok? && IsNumeric(product.value) && AsReal(product.value) == AsReal(l) * AsReal(r)
  {
    if l.IntV? && r.IntV? {
      ProductCast(l.i, r.i);
    }
  }

  lemma QuotientMeaning(l: Value, r: Value)
    requires IsNumeric(l) && IsNumeric(r)
    ensures var quotient := EvaluateBinary(Div, l, r);
            && (quotient == Err(Arithmetic) <==> AsReal(r) == 0.0)
            && (quotient.Ok? <==> AsReal(r) != 0.0)
            && (quotient.Ok? ==> quotient.value.NumV? && quotient.value.r * AsReal(r) == AsReal(l))
  {
    if AsReal(r) != 0.0 {
      QuotientTimes(AsReal(l), AsReal(r));
    }
  }

  lemma ProductCast(a: int, b: int)
    ensures (a * b) as real == a as real * b as real
  {
  }

  lemma QuotientTimes(a: real, b: real)
    requires b != 0.0
    ensures a / b * b == a
  {
  }

  /** Quotient and remainder give the dividend back; the remainder has the sign of the divisor. */
  lemma DivisionMeaning(a: int, b: int)
    ensures var (q, m) := (EvaluateBinary(FloorDiv, IntV(a), IntV(b)), EvaluateBinary(Mod, IntV(a), IntV(b)));
            if b == 0 then q == m == Err(Arithmetic)
            else
              && q.Ok? && m.Ok? && q.value.IntV? && m.value.IntV? && q.value.i * b + m.value.i == a
              && if b > 0 then 0 <= m.value.i < b else b < m.value.i <= 0
  {
    if b != 0 {
      var q := FloorDivide(a, b);
      assert b * (q + 1) == b * q + b && q * b == b * q;
    }
  }

  /** On values of exactly these types the operator table is exact, in what it admits and in what it gives. */
  lemma BinaryExact(op: Op, l: Value, r: Value)
    ensures var (t, outcome) := (CheckBinary(op, ValueType(l), ValueType(r)), EvaluateBinary(op, l, r));
            && (t.None? <==> outcome == Err(TypeFault))
            && (outcome.Ok? ==> t == Some(ValueType(outcome.value)))
  {
    hide FloorDivide;
  }

  /** The checker accepts a call with at least two arguments, exactly three or exactly one. */
  lemma ArityMeaning(name: string, n: nat)
    ensures Catalog(name).Some? && ArityAccepted(Catalog(name).value, n) <==>
              || (name in {"min", "max"} && n >= 2) || (name == "clamp" && n == 3) || (name in {"floor", "ceil", "round"} && n == 1)
  {
  }

  // ---- the checker rejects no more than it must --------------------------------------------------

  /**
   * No model literals, which the parser does not make, and no `min`, `max` or `clamp` of integers
   * and floats together, of which the checker only knows that the result is a number.
   */
  predicate Uniform(e: Expr, types: map<string, ExprType>)
    decreases e, 1
  {
    match e
    case Literal(v) => !v.ModelV?
    case Name(_) => true
    case Member(base, _) => Uniform(base, types)
    case Negate(operand) => Uniform(operand, types)
    case Binary(_, left, right) => Uniform(left, types) && Uniform(right, types)
    case Call(name, args) =>
      && UniformArgs(args, types)
      && (name in {"min", "max", "clamp"} ==>
            forall i, j :: 0 <= i < |args| && 0 <= j < |args| ==> CheckType(args[i], types) == CheckType(args[j], types))
  }

  predicate UniformArgs(args: seq<Expr>, types: map<string, ExprType>)
    decreases args, 0
  {
    args == [] || (Uniform(args[0], types) && UniformArgs(args[1..], types))
  }

  /** Every name is bound to a value of exactly the declared type. */
  ghost predicate BoundExactly(env: Env, types: map<string, ExprType>) {
    env.Keys == types.Keys && forall x :: x in env ==> ValueType(env[x]) == types[x]
  }

  /** What evaluates is accepted by the checker, which names the type of the result. */
  lemma {:induction false} CheckerComplete(e: Expr, types: map<string, ExprType>, env: Env)
    requires Uniform(e, types) && BoundExactly(env, types) && Evaluate(e, env).Ok?
    ensures CheckType(e, types) == Some(ValueType(Evaluate(e, env).value))
    decreases e, 1
  {
    hide EvaluateBinary, CheckBinary, ApplyBuiltin;
    match e
    case Literal(_) =>
    case Name(_) =>
    case Member(base, _) => CheckerComplete(base, types, env);
    case Negate(operand) => CheckerComplete(operand, types, env);
    case Binary(op, left, right) =>
      CheckerComplete(left, types, env);
      CheckerComplete(right, types, env);
      BinaryExact(op, Evaluate(left, env).value, Evaluate(right, env).value);
    case Call(name, args) =>
      CheckerCompleteOfArgs(args, types, env);
      CallComplete(name, args, types, env);
  }

  lemma {:induction false} CheckerCompleteOfArgs(args: seq<Expr>, types: map<string, ExprType>, env: Env)
    requires UniformArgs(args, types) && BoundExactly(env, types) && EvaluateArgs(args, env).Ok?
    ensures CheckArgs(args, types).Some?
    ensures forall i :: 0 <= i < |args| ==>
              && CheckType(args[i], types) == Some(CheckArgs(args, types).value[i])
              && CheckArgs(args, types).value[i] == ValueType(EvaluateArgs(args, env).value[i])
    decreases args, 0
  {
    if args != [] {
      CheckerComplete(args[0], types, env);
      CheckerCompleteOfArgs(args[1..], types, env);
    }
  }

  lemma CallComplete(name: string, args: seq<Expr>, types: map<string, ExprType>, env: Env)
    requires Uniform(Call(name, args), types) && Evaluate(Call(name, args), env).Ok? && CheckArgs(args, types).Some?
    requires EvaluateArgs(args, env).Ok?
    requires forall i :: 0 <= i < |args| ==>
               && CheckType(args[i], types) == Some(CheckArgs(args, types).value[i])
               && CheckArgs(args, types).value[i] == ValueType(EvaluateArgs(args, env).value[i])
    ensures CheckType(Call(name, args), types) == Some(ValueType(Evaluate(Call(name, args), env).value))
  {
    hide CheckArgs, EvaluateArgs, Uniform;
    var vs, ts := EvaluateArgs(args, env).value, CheckArgs(args, types).value;
    if name in {"min", "max", "clamp"} {
      SameTypes(name, args, types, ts);
    }
    BuiltinExact(name, vs, ts);
  }

  lemma SameTypes(name: string, args: seq<Expr>, types: map<string, ExprType>, ts: seq<ExprType>)
    requires Uniform(Call(name, args), types) && name in {"min", "max", "clamp"} && |ts| == |args|
    requires forall i :: 0 <= i < |args| ==> CheckType(args[i], types) == Some(ts[i])
    ensures forall i, j :: 0 <= i < |args| && 0 <= j < |args| ==> ts[i] == ts[j]
  {
    hide CheckType;
  }

  lemma BuiltinExact(name: string, vs: seq<Value>, ts: seq<ExprType>)
    requires Catalog(name).Some? && ArityAccepted(Catalog(name).value, |vs|) && |ts| == |vs|
    requires forall i :: 0 <= i < |vs| ==> IsNumeric(vs[i]) && ts[i] == ValueType(vs[i])
    requires name in {"min", "max", "clamp"} ==> forall i, j :: 0 <= i < |ts| && 0 <= j < |ts| ==> ts[i] == ts[j]
    requires ApplyBuiltin(name, vs).Ok?
    ensures ValueType(ApplyBuiltin(name, vs).value) ==
            if Catalog(name).value.alwaysInt || forall t :: t in ts ==> t == IntegerT then IntegerT else NumberT
  {
    assert vs[0] in vs && ts[0] in ts;
    if name in {"min", "max"} {
      var v := ApplyBuiltin(name, vs).value;
      assert v in vs;
      var k :| 0 <= k < |vs| && vs[k] == v;
    }
  }

  /** Without that restriction it does reject more: `min(1, 2.5) // 2` evaluates to 0. */
  lemma CheckerStrict()
    ensures var e := Binary(FloorDiv, Call("min", [Literal(IntV(1)), Literal(NumV(2.5))]), Literal(IntV(2)));
            Evaluate(e, map[]) == Ok(IntV(0)) && CheckType(e, map[]).None?
  {
    hide ApplyBuiltin, Catalog, EvaluateArgs, CheckArgs;
    MixedMinimum();
    assert Evaluate(Literal(IntV(2)), map[]) == Ok(IntV(2)) && CheckType(Literal(IntV(2)), map[]) == Some(IntegerT);
    assert EvaluateBinary(FloorDiv, IntV(1), IntV(2)) == Ok(IntV(0));
  }

  lemma MixedMinimum()
    ensures var m := Call("min", [Literal(IntV(1)), Literal(NumV(2.5))]);
            Evaluate(m, map[]) == Ok(IntV(1)) && CheckType(m, map[]) == Some(NumberT)
  {
    var one, half := Literal(IntV(1)), Literal(NumV(2.5));
    var vs, ts := [IntV(1), NumV(2.5)], [IntegerT, NumberT];
    assert [one, half][1..] == [half] && [half][1..] == [];
    OneArg(half.value, NumberT);
    assert [IntV(1)] + [NumV(2.5)] == vs && [IntegerT] + [NumberT] == ts;
    assert EvaluateArgs([one, half], map[]) == Ok(vs) && CheckArgs([one, half], map[]) == Some(ts);
    assert vs[..1] == [IntV(1)];
    assert FoldLeast(vs) == IntV(1);
    assert ts[1] in ts;
  }

  lemma OneArg(v: Value, t: ExprType)
    requires IsNumeric(v) && t == ValueType(v)
    ensures EvaluateArgs([Literal(v)], map[]) == Ok([v]) && CheckArgs([Literal(v)], map[]) == Some([t])
  {
    assert [Literal(v)][1..] == [];
    assert [v] + [] == [v] && [t] + [] == [t];
    assert EvaluateArgs([], map[]) == Ok([]) && CheckArgs([], map[]) == Some([]);
  }

  lemma TextMeaning(a: string, b: string)
    ensures EvaluateBinary(Add, StrV(a), StrV(b)) == Ok(StrV(a + b))
    ensures forall op :: op != Add ==> EvaluateBinary(op, StrV(a), StrV(b)) == Err(TypeFault)
  {
  }

  /** `v` is the first of the arguments that no other one undercuts, or exceeds. */
  ghost predicate FirstExtreme(args: seq<Value>, v: Value, least: bool)
    requires IsNumeric(v) && forall a :: a in args ==> IsNumeric(a)
  {
    exists k: nat :: ExtremeAt(args, v, least, k)
  }

  ghost predicate ExtremeAt(args: seq<Value>, v: Value, least: bool, k: nat)
    requires IsNumeric(v) && forall a :: a in args ==> IsNumeric(a)
  {
    && k < |args| && args[k] == v
    && forall j :: 0 <= j < |args| ==>
         var d := if least then AsReal(args[j]) - AsReal(v) else AsReal(v) - AsReal(args[j]);
         if j < k then d > 0.0 else d >= 0.0
  }

  lemma {:induction false} FoldsMeaning(args: seq<Value>)
    requires |args| >= 1 && forall a :: a in args ==> IsNumeric(a)
    ensures FirstExtreme(args, FoldLeast(args), true) && FirstExtreme(args, FoldGreatest(args), false)
  {
    var n := |args| - 1;
    if n == 0 {
      assert ExtremeAt(args, args[0], true, 0) && ExtremeAt(args, args[0], false, 0);
    } else {
      FoldsMeaning(args[..n]);
      FoldMeaning(args, FoldLeast(args[..n]), true);
      FoldMeaning(args, FoldGreatest(args[..n]), false);
    }
  }

  lemma FoldMeaning(args: seq<Value>, before: Value, least: bool)
    requires |args| >= 2 && IsNumeric(before) && forall a :: a in args ==> IsNumeric(a)
    requires FirstExtreme(args[..|args| - 1], before, least)
    ensures var last := args[|args| - 1];
            FirstExtreme(args, if least then Least(before, last) else Greatest(before, last), least)
  {
    var n := |args| - 1;
    var v := if least then Least(before, args[n]) else Greatest(before, args[n]);
    var k: nat :| ExtremeAt(args[..n], before, least, k);
    assert forall j :: 0 <= j < n ==> args[..n][j] == args[j];
    assert ExtremeAt(args, v, least, if v == before then k else n);
  }

  /** What each builtin promises of its result. */
  lemma BuiltinMeaning(name: string, args: seq<Value>)
    requires Catalog(name).Some? && ArityAccepted(Catalog(name).value, |args|)
    requires forall a :: a in args ==> IsNumeric(a)
    ensures var outcome := ApplyBuiltin(name, args);
            && (name == "min" ==> outcome.Ok? && IsNumeric(outcome.value) && FirstExtreme(args, outcome.value, true))
            && (name == "max" ==> outcome.Ok? && IsNumeric(outcome.value) && FirstExtreme(args, outcome.value, false))
            && (name == "clamp" ==> ClampMeaning(AsReal(args[0]), AsReal(args[1]), AsReal(args[2]), outcome))
            && (name == "floor" ==> WholeOutcome(outcome) && outcome.value.i as real <= AsReal(args[0]) < outcome.value.i as real + 1.0)
            && (name == "ceil" ==> WholeOutcome(outcome) && outcome.value.i as real - 1.0 < AsReal(args[0]) <= outcome.value.i as real)
            && (name == "round" ==> WholeOutcome(outcome) && Nearest(AsReal(args[0]), outcome.value.i))
  {
    if name == "min" || name == "max" {
      FoldsMeaning(args);
    } else {
      assert args[0] in args;
      if name == "clamp" {
        assert args[1] in args && args[2] in args;
      }
    }
  }

  predicate WholeOutcome(outcome: Result<Value, Fault>) {
    outcome.Ok? && outcome.value.IntV?
  }

  /** Crossed bounds fail; otherwise the value itself if it is within them, else the bound it passed. */
  predicate ClampMeaning(x: real, low: real, high: real, outcome: Result<Value, Fault>) {
    && (outcome == Err(Arithmetic) <==> low > high)
    && (low <= high ==>
          && outcome.Ok? && IsNumeric(outcome.value)
          && AsReal(outcome.value) == if x < low then low else if x > high then high else x)
  }

  /** The nearest integer, halves away from zero. */
  predicate Nearest(x: real, k: int) {
    if x >= 0.0 then k as real - 0.5 <= x < k as real + 0.5 else k as real - 0.5 < x <= k as real + 0.5
  }

  /** Negation and the two attributes of a model value. */
  lemma UnaryMeaning(e: Expr, env: Env)
    ensures var (inner, outer) := (Evaluate(e, env), Evaluate(Negate(e), env));
            && (outer.Ok? <==> inner.Ok? && IsNumeric(inner.value))
            && (outer.Ok? ==> IsNumeric(outer.value) && AsReal(outer.value) + AsReal(inner.value) == 0.0)
    ensures forall id, name :: Evaluate(e, env) == Ok(ModelV(id, name)) ==>
              && Evaluate(Member(e, "connection_id"), env) == Ok(StrV(id))
              && Evaluate(Member(e, "model_name"), env) == Ok(StrV(name))
  {
  }
}
