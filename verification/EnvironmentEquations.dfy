/**
 * What the environment of a run is, without saying how it is computed: one value for every
 * variable, each in the relation that its declaration asks for. `build_environment` succeeds
 * exactly when all supplied arguments are known and such values exist; they are unique.
 */
module EnvironmentEquations {
  import opened Wrappers
  import opened Collections
  import opened EvaluationOrder
  import opened Expressions
  import opened Variables
  import opened Resolution
  import opened Validation
  import opened Environments
  import opened Noninterference

  // ---- one value --------------------------------------------------------------------------------

  /** The raw value denotes `w`, which satisfies the declaration. */
  predicate Meets(d: Declaration, raw: Raw, w: Value) {
    Denotes(d, raw, w) && Satisfies(d, w)
  }

  lemma MeetsOnce(d: Declaration, raw: Raw, w: Value, u: Value)
    requires Meets(d, raw, w) && Meets(d, raw, u)
    ensures w == u
  {
  }

  lemma CoercionMeets(d: Declaration, raw: Raw)
    ensures forall w :: Meets(d, raw, w) <==> CoerceLiteral(d, raw) == Ok(w)
  {
    CoercionIsExact(d, raw);
    forall w | Meets(d, raw, w) ensures CoerceLiteral(d, raw) == Ok(w) {
      assert Denotes(d, raw, w) && Satisfies(d, w);
      MeetsOnce(d, raw, w, CoerceLiteral(d, raw).value);
    }
  }

  predicate HasDefault(v: Variable) {
    v.value.Some? && !v.value.value.ModelV?
  }

  /** The raw value of an accepted input: what was supplied, else the requested depth, else the default. */
  predicate Given(v: Variable, caller: Caller, raw: Raw) {
    if v.name in caller.supplied then raw == caller.supplied[v.name]
    else if v.name == "result_limit" && caller.topK.Some? then raw == Scalar(IntV(caller.topK.value))
    else !caller.atDefaults && HasDefault(v) && raw == Scalar(v.value.value)
  }

  /** `k` is `x` without its fraction. */
  predicate WholePart(x: real, k: int) {
    if x >= 0.0 then k as real <= x < k as real + 1.0 else k as real - 1.0 < x <= k as real
  }

  /** The stand-in of a declaration: its minimum or first choice, or a neutral value. */
  predicate Neutral(d: Declaration, w: Value) {
    match d.ty
    case IntegerType => w.IntV? && if d.minimum.Some? then WholePart(d.minimum.value, w.i) else w.i == 1
    case NumberType => w.NumV? && w.r == if d.minimum.Some? then d.minimum.value else 1.0
    case BooleanType => w.BoolV? && !w.b
    case EnumType => w.StrV? && if d.choices == [] then w.s == "" else w.s == d.choices[0]
    case _ => w.StrV? && w.s == ""
  }

  /** A default stands in when it meets the declaration. */
  ghost predicate StandsIn(v: Variable, w: Value) {
    if HasDefault(v) && exists u :: Meets(v.decl, Scalar(v.value.value), u) then Meets(v.decl, Scalar(v.value.value), w)
    else Neutral(v.decl, w)
  }

  lemma PlaceholderStandsIn(v: Variable)
    ensures forall w :: StandsIn(v, w) <==> w == StaticPlaceholder(AsInputArgument(v))
  {
    var p := StaticPlaceholder(AsInputArgument(v));
    if HasDefault(v) {
      CoercionMeets(v.decl, Scalar(v.value.value));
    }
    if HasDefault(v) && exists u :: Meets(v.decl, Scalar(v.value.value), u) {
      assert Meets(v.decl, Scalar(v.value.value), p);
    } else {
      forall w ensures Neutral(v.decl, w) <==> w == p {
        NeutralOnce(v, w);
      }
    }
  }

  lemma NeutralOnce(v: Variable, w: Value)
    requires !HasDefault(v) || CoerceLiteral(v.decl, Scalar(v.value.value)).Err?
    ensures Neutral(v.decl, w) <==> w == StaticPlaceholder(AsInputArgument(v))
  {
    if v.decl.ty == IntegerType && v.decl.minimum.Some? {
      var x := v.decl.minimum.value;
      assert WholePart(x, Truncate(x));
      if w.IntV? && WholePart(x, w.i) {
        assert w.i == Truncate(x);
      }
    }
  }

  /**
   * The value of an input. At defaults, and for an input that no node accepts, something stands
   * in for what is not given; otherwise an accepted input that is not given has no value.
   */
  ghost predicate InputEquation(v: Variable, accepted: bool, caller: Caller, w: Value) {
    if accepted && exists raw :: Given(v, caller, raw)
    then exists raw :: Given(v, caller, raw) && Meets(v.decl, raw, w)
    else (accepted ==> caller.atDefaults) && StandsIn(v, w)
  }

  lemma InputOnce(v: Variable, accepted: bool, caller: Caller, w: Value, u: Value)
    requires InputEquation(v, accepted, caller, w) && InputEquation(v, accepted, caller, u)
    ensures w == u
  {
    if raw :| accepted && Given(v, caller, raw) {
      MeetsOnce(v.decl, raw, w, u);
    } else {
      PlaceholderStandsIn(v);
    }
  }

  // ---- the inputs -------------------------------------------------------------------------------

  /** `remaining` holds what was supplied under the name of the variable. */
  predicate StillThere(name: string, remaining: map<string, Raw>, caller: Caller) {
    && (name in remaining <==> name in caller.supplied)
    && (name in remaining ==> remaining[name] == caller.supplied[name])
  }

  lemma ArgumentSolves(v: Variable, remaining: map<string, Raw>, caller: Caller)
    requires StillThere(v.name, remaining, caller)
    ensures var (value, problems) := ArgumentValue(AsInputArgument(v), remaining, caller);
            && (problems == [] <==> value.Some?)
            && (value.Some? <==> exists w :: InputEquation(v, true, caller, w))
            && (value.Some? ==> InputEquation(v, true, caller, value.value))
            && (value.None? ==>
                  && |problems| == 1
                  && if exists raw :: Given(v, caller, raw) then problems[0].ArgumentViolation? && problems[0].name == v.name
                     else problems[0] == MissingArgument(v.name))
  {
    PlaceholderStandsIn(v);
    var (value, problems) := ArgumentValue(AsInputArgument(v), remaining, caller);
    if raw :| Given(v, caller, raw) {
      CoercionMeets(v.decl, raw);
      if w :| InputEquation(v, true, caller, w) {
        assert Meets(v.decl, raw, w);
      }
      if value.Some? {
        assert Given(v, caller, raw) && Meets(v.decl, raw, value.value);
        assert InputEquation(v, true, caller, value.value);
      }
    } else {
      NothingGiven(v, caller);
      assert caller.atDefaults <==> value.Some?;
      assert value.Some? ==> InputEquation(v, true, caller, value.value);
    }
  }

  lemma NothingGiven(v: Variable, caller: Caller)
    requires forall raw :: !Given(v, caller, raw)
    ensures v.name !in caller.supplied && (v.name == "result_limit" ==> caller.topK.None?)
    ensures caller.atDefaults || !HasDefault(v)
  {
    if v.name in caller.supplied {
      assert Given(v, caller, caller.supplied[v.name]);
    } else if v.name == "result_limit" && caller.topK.Some? {
      assert Given(v, caller, Scalar(IntV(caller.topK.value)));
    } else if !caller.atDefaults && HasDefault(v) {
      assert Given(v, caller, Scalar(v.value.value));
    }
  }

  /** The values that the input loop has entered are those of the equations. */
  ghost predicate Entered(ins: seq<Variable>, accepted: set<string>, caller: Caller, values: Env) {
    && values.Keys == {QUERY} + NamesOf(ins) && values[QUERY] == StrV(caller.query)
    && forall v :: v in ins ==> InputEquation(v, v.name in accepted, caller, values[v.name])
  }

  ghost predicate HasValue(v: Variable, accepted: bool, caller: Caller) {
    exists w :: InputEquation(v, accepted, caller, w)
  }

  ghost predicate Solvable(ins: seq<Variable>, accepted: set<string>, caller: Caller) {
    forall v :: v in ins ==> HasValue(v, v.name in accepted, caller)
  }

  lemma {:induction false} InputsSolve(caller: Caller, ins: seq<Variable>, accepted: set<string>)
    requires NamesApart(ins)
    ensures var b := AddInputs(Started(caller), ins, accepted, caller);
            && b.remaining == caller.supplied - (NamesOf(ins) * accepted) && b.values.Keys <= {QUERY} + NamesOf(ins)
            && (b.errors == [] <==> Solvable(ins, accepted, caller))
            && (b.errors == [] ==> Entered(ins, accepted, caller, b.values))
  {
    if ins != [] {
      var n := |ins| - 1;
      InputsSolve(caller, ins[..n], accepted);
      InputsEntered(caller, ins[..n], accepted);
      InputStepSolves(caller, ins, accepted, AddInputs(Started(caller), ins[..n], accepted, caller));
    }
  }

  lemma InputStepSolves(caller: Caller, ins: seq<Variable>, accepted: set<string>, b: Build)
    requires NamesApart(ins) && ins != [] && Declares(b.types, ins[..|ins| - 1])
    requires var before := ins[..|ins| - 1];
             && b.remaining == caller.supplied - (NamesOf(before) * accepted) && b.values.Keys <= {QUERY} + NamesOf(before)
             && (b.errors == [] <==> Solvable(before, accepted, caller))
             && (b.errors == [] ==> Entered(before, accepted, caller, b.values))
    ensures var r := InputStep(b, ins[|ins| - 1], accepted, caller);
            && r.remaining == caller.supplied - (NamesOf(ins) * accepted) && r.values.Keys <= {QUERY} + NamesOf(ins)
            && (r.errors == [] <==> Solvable(ins, accepted, caller))
            && (r.errors == [] ==> Entered(ins, accepted, caller, r.values))
  {
    hide InputEquation, InputStep, Declares, Entered, Solvable, NamesApart, NamesOf;
    var v := ins[|ins| - 1];
    DeclaresStep(b.types, ins);
    LastName(ins);
    SolvableMore(ins, accepted, caller);
    InputStepShape(b, v, accepted, caller);
    var r := InputStep(b, v, accepted, caller);
    if r.errors == [] {
      EnteredMore(ins, accepted, caller, b.values, r.values);
    }
  }

  lemma LastName(vs: seq<Variable>)
    requires NamesApart(vs) && vs != []
    ensures var n := |vs| - 1;
            && NamesApart(vs[..n]) && NamesOf(vs) == NamesOf(vs[..n]) + {vs[n].name} && vs[n].name !in NamesOf(vs[..n]) + {QUERY}
            && (forall u :: u in vs <==> u in vs[..n] || u == vs[n])
            && forall u :: u in vs[..n] ==> u.name in NamesOf(vs[..n])
  {
    var n := |vs| - 1;
    assert vs == vs[..n] + [vs[n]];
  }

  lemma SolvableMore(ins: seq<Variable>, accepted: set<string>, caller: Caller)
    requires ins != []
    ensures var v := ins[|ins| - 1];
            Solvable(ins, accepted, caller) <==>
              Solvable(ins[..|ins| - 1], accepted, caller) && HasValue(v, v.name in accepted, caller)
  {
    hide HasValue;
    assert ins == ins[..|ins| - 1] + [ins[|ins| - 1]];
  }

  lemma EnteredMore(ins: seq<Variable>, accepted: set<string>, caller: Caller, before: Env, values: Env)
    requires NamesApart(ins) && ins != [] && Entered(ins[..|ins| - 1], accepted, caller, before)
    requires var v := ins[|ins| - 1];
             && v.name in values && values == before[v.name := values[v.name]]
             && InputEquation(v, v.name in accepted, caller, values[v.name])
    ensures Entered(ins, accepted, caller, values)
  {
    hide InputEquation, NamesApart, NamesOf;
    LastName(ins);
  }

  lemma InputStepShape(b: Build, v: Variable, accepted: set<string>, caller: Caller)
    requires v.name !in b.types && StillThere(v.name, b.remaining, caller)
    ensures var r := InputStep(b, v, accepted, caller);
            && r.remaining == b.remaining - ({v.name} * accepted) && r.values.Keys <= b.values.Keys + {v.name}
            && (r.errors == [] <==> b.errors == [] && HasValue(v, v.name in accepted, caller))
            && (r.errors == [] ==> v.name in r.values && r.values == b.values[v.name := r.values[v.name]]
                                   && InputEquation(v, v.name in accepted, caller, r.values[v.name]))
  {
    hide InputEquation, ArgumentValue, StaticPlaceholder, StandsIn;
    if v.name in accepted {
      ArgumentSolves(v, b.remaining, caller);
    } else {
      UnacceptedSolves(v, caller);
    }
  }

  lemma UnacceptedSolves(v: Variable, caller: Caller)
    ensures InputEquation(v, false, caller, StaticPlaceholder(AsInputArgument(v)))
  {
    PlaceholderStandsIn(v);
  }

  // ---- constants and derived variables ------------------------------------------------------------

  ghost predicate ConstantEquation(v: Variable, w: Value) {
    v.value.Some? && Meets(v.decl, Scalar(v.value.value), w)
  }

  /** The expression evaluates, in these values, to what the variable's own value denotes. */
  ghost predicate DerivedEquation(d: Declaration, e: Expr, values: Env, w: Value) {
    exists raw :: Evaluate(e, values) == Ok(raw) && Meets(d, Scalar(raw), w)
  }

  /** A panel variable as the validator admits it. */
  predicate OnPanel(v: Variable) {
    match v.source
    case InputSource => false
    case ValueSource => v.expression.None? && v.value.Some?
    case ExpressionSource => Parses(v)
  }

  function ConstantNames(vs: seq<Variable>): set<string> {
    set v | v in vs && v.source == ValueSource :: v.name
  }

  ghost predicate ConstantsEntered(vs: seq<Variable>, before: Env, values: Env) {
    && values.Keys == before.Keys + ConstantNames(vs) && (forall x :: x in before ==> values[x] == before[x])
    && forall v :: v in vs && v.source == ValueSource ==> ConstantEquation(v, values[v.name])
  }

  ghost predicate ConstantsSolvable(vs: seq<Variable>) {
    forall v :: v in vs && v.source == ValueSource ==> exists w :: ConstantEquation(v, w)
  }

  lemma {:induction false} ConstantsSolve(b: Build, vs: seq<Variable>)
    requires NamesApart(vs) && NamesOf(vs) !! b.values.Keys && forall v :: v in vs ==> OnPanel(v)
    ensures var r := AddConstants(b, vs);
            && (r.errors == [] <==> b.errors == [] && ConstantsSolvable(vs))
            && (r.errors == [] ==> ConstantsEntered(vs, b.values, r.values))
  {
    hide ConstantEquation, ConstantStep, ConstantsEntered, ConstantsSolvable, NamesApart, NamesOf, OnPanel;
    if vs == [] {
      NoConstants(b.values);
    } else {
      var n := |vs| - 1;
      LastName(vs);
      ConstantsSolve(b, vs[..n]);
      var before, r := AddConstants(b, vs[..n]), AddConstants(b, vs);
      ConstantStepShape(before, vs[n]);
      ConstantsSolvableMore(vs);
      if r.errors == [] {
        ConstantsEnteredMore(vs, b.values, before.values, r.values);
      }
    }
  }

  lemma NoConstants(values: Env)
    ensures ConstantsSolvable([]) && ConstantsEntered([], values, values)
  {
  }

  lemma ConstantsSolvableMore(vs: seq<Variable>)
    requires vs != []
    ensures var v := vs[|vs| - 1];
            ConstantsSolvable(vs) <==>
              ConstantsSolvable(vs[..|vs| - 1]) && (v.source == ValueSource ==> exists w :: ConstantEquation(v, w))
  {
    hide ConstantEquation;
    assert vs == vs[..|vs| - 1] + [vs[|vs| - 1]];
  }

  lemma LastConstant(vs: seq<Variable>)
    requires vs != []
    ensures var n := |vs| - 1;
            ConstantNames(vs) == ConstantNames(vs[..n]) + if vs[n].source == ValueSource then {vs[n].name} else {}
  {
    var n := |vs| - 1;
    assert vs == vs[..n] + [vs[n]];
  }

  lemma ConstantsEnteredMore(vs: seq<Variable>, before: Env, mid: Env, values: Env)
    requires NamesApart(vs) && vs != [] && NamesOf(vs) !! before.Keys && ConstantsEntered(vs[..|vs| - 1], before, mid)
    requires var v := vs[|vs| - 1];
             if v.source == ValueSource
             then v.name in values && values == mid[v.name := values[v.name]] && ConstantEquation(v, values[v.name])
             else values == mid
    ensures ConstantsEntered(vs, before, values)
  {
    hide ConstantEquation, NamesApart, ConstantNames, NamesOf;
    LastName(vs);
    LastConstant(vs);
  }

  lemma ConstantStepShape(b: Build, v: Variable)
    requires OnPanel(v)
    ensures var r := ConstantStep(b, v);
            && (r.errors == [] <==> b.errors == [] && (v.source == ValueSource ==> exists w :: ConstantEquation(v, w)))
            && (r.errors == [] && v.source == ValueSource ==>
                  && v.name in r.values && r.values == b.values[v.name := r.values[v.name]]
                  && ConstantEquation(v, r.values[v.name]))
            && (v.source != ValueSource ==> r.values == b.values)
  {
    hide Meets, CoerceLiteral;
    if v.source == ValueSource {
      CoercionMeets(v.decl, Scalar(v.value.value));
      var coerced := CoerceLiteral(v.decl, Scalar(v.value.value));
      assert coerced.Ok? ==> ConstantEquation(v, coerced.value);
    }
  }

  /** Each derived variable is fed by names outside `parsed` and by derived ones before it. */
  ghost predicate InOrder(parsed: map<string, Derived>, order: seq<string>) {
    && Distinct(order) && (forall x :: x in order ==> x in parsed)
    && (forall x :: x in parsed ==> parsed[x].variable.name == x)
    && DependenciesFirst(Pairs(Dependencies(parsed)), order)
  }

  ghost predicate DerivedHolds(d: Derived, values: Env) {
    d.variable.name in values && DerivedEquation(d.variable.decl, d.expr, values, values[d.variable.name])
  }

  /** The last of an order is read by none before it, nor by itself. */
  lemma LastUnread(parsed: map<string, Derived>, order: seq<string>, x: string)
    requires InOrder(parsed, order) && order != [] && x in order
    ensures order[|order| - 1] !in References(parsed[x].expr)
    ensures InOrder(parsed, order[..|order| - 1])
  {
    hide References;
    var n := |order| - 1;
    var name := order[n];
    var i :| 0 <= i <= n && order[i] == x;
    assert name in References(parsed[x].expr) ==> (x, name) in Pairs(Dependencies(parsed));
    forall i, y | 0 <= i < n && (order[..n][i], y) in Pairs(Dependencies(parsed)) ensures y in order[..n][..i] {
      assert order[..n][i] == order[i] && order[..n][..i] == order[..i];
    }
  }

  lemma StepSolves(b: Build, d: Derived)
    ensures var r := EvaluateStep(b, d);
            r.errors == [] ==>
              && b.errors == [] && d.variable.name in r.values && r.values == b.values[d.variable.name := r.values[d.variable.name]]
              && DerivedEquation(d.variable.decl, d.expr, b.values, r.values[d.variable.name])
  {
    hide Evaluate, CheckType, References;
    var r := EvaluateStep(b, d);
    if r.errors == [] {
      var raw := Evaluate(d.expr, b.values).value;
      CoercionMeets(d.variable.decl, Scalar(raw));
    }
  }

  /** One more derived variable: it must check, evaluate, and come out within its declaration. */
  lemma DerivedStepExact(b: Build, d: Derived)
    ensures var r := EvaluateStep(b, d);
            && (r.errors == b.errors <==> CheckType(d.expr, b.types).Some? && exists w :: DerivedEquation(d.variable.decl, d.expr, b.values, w))
            && (r.errors != b.errors ==>
                  && |r.errors| == |b.errors| + 1 && r.errors[..|b.errors|] == b.errors && r.values == b.values
                  && (CheckType(d.expr, b.types).None? ==> r.errors[|b.errors|] == Untyped(d.variable.name)))
  {
    hide Evaluate, CheckType, References, CoerceLiteral;
    if Evaluate(d.expr, b.values).Ok? {
      CoercionMeets(d.variable.decl, Scalar(Evaluate(d.expr, b.values).value));
      var coerced := CoerceLiteral(d.variable.decl, Scalar(Evaluate(d.expr, b.values).value));
      assert coerced.Ok? ==> DerivedEquation(d.variable.decl, d.expr, b.values, coerced.value);
    }
  }

  /** Binding a name that an equation does not read leaves the equation as it is. */
  lemma EquationStays(d: Declaration, e: Expr, values: Env, name: string, u: Value, w: Value)
    requires DerivedEquation(d, e, values, w) && name !in References(e)
    ensures DerivedEquation(d, e, values[name := u], w)
  {
    Coincidence(e, values, values[name := u]);
  }

  lemma {:induction false} DerivedSolve(b: Build, parsed: map<string, Derived>, order: seq<string>)
    requires InOrder(parsed, order) && EvaluateAll(b, parsed, order).errors == []
    ensures b.errors == [] && DerivedEntered(parsed, order, b.values, EvaluateAll(b, parsed, order).values)
  {
    hide EvaluateStep, DerivedEquation, DerivedEntered, InOrder;
    if order == [] {
      NothingDerived(parsed, b.values);
    } else {
      var n := |order| - 1;
      LastIn(parsed, order);
      var before := EvaluateAll(b, parsed, order[..n]);
      LastUnread(parsed, order, order[n]);
      StepSolves(before, parsed[order[n]]);
      DerivedSolve(b, parsed, order[..n]);
      DerivedEnteredMore(parsed, order, b.values, before.values, EvaluateAll(b, parsed, order).values);
    }
  }

  /** The names of the order have been bound, and their equations hold. */
  ghost predicate DerivedEntered(parsed: map<string, Derived>, order: seq<string>, before: Env, values: Env)
    requires forall x :: x in order ==> x in parsed
  {
    && values.Keys == before.Keys + Elements(order)
    && (forall x :: x in before && x !in order ==> values[x] == before[x])
    && forall x :: x in order ==> DerivedHolds(parsed[x], values)
  }

  lemma NothingDerived(parsed: map<string, Derived>, values: Env)
    ensures DerivedEntered(parsed, [], values, values)
  {
  }

  lemma LastIn(parsed: map<string, Derived>, order: seq<string>)
    requires InOrder(parsed, order) && order != []
    ensures var name := order[|order| - 1]; name in order && name in parsed && parsed[name].variable.name == name
    ensures forall x :: x in order[..|order| - 1] ==> x in parsed
  {
  }

  lemma DerivedEnteredMore(parsed: map<string, Derived>, order: seq<string>, start: Env, before: Env, values: Env)
    requires InOrder(parsed, order) && order != []
    requires forall x :: x in order[..|order| - 1] ==> x in parsed
    requires DerivedEntered(parsed, order[..|order| - 1], start, before)
    requires var name := order[|order| - 1];
             && name in values && values == before[name := values[name]]
             && DerivedEquation(parsed[name].variable.decl, parsed[name].expr, before, values[name])
    ensures DerivedEntered(parsed, order, start, values)
  {
    hide DerivedHolds, DerivedEquation, InOrder, DependenciesFirst;
    var n := |order| - 1;
    assert order == order[..n] + [order[n]];
    forall x | x in order ensures x in parsed && DerivedHolds(parsed[x], values) {
      InParsed(parsed, order, x);
      HoldsStill(parsed, order, before, values, x);
    }
  }

  lemma InParsed(parsed: map<string, Derived>, order: seq<string>, x: string)
    requires InOrder(parsed, order) && x in order
    ensures x in parsed
  {
  }

  lemma HoldsStill(parsed: map<string, Derived>, order: seq<string>, before: Env, values: Env, x: string)
    requires InOrder(parsed, order) && order != [] && x in order
    requires var name := order[|order| - 1];
             && name in values && values == before[name := values[name]]
             && DerivedEquation(parsed[name].variable.decl, parsed[name].expr, before, values[name])
             && (x != name ==> DerivedHolds(parsed[x], before))
    ensures DerivedHolds(parsed[x], values)
  {
    hide DerivedEquation, References, Dependencies, DependenciesFirst;
    var name := order[|order| - 1];
    LastUnread(parsed, order, x);
    EquationStays(parsed[x].variable.decl, parsed[x].expr, before, name, values[name], values[x]);
  }

  /** All that is bound is bound as in `solution`. */
  ghost predicate Within(values: Env, solution: Env) {
    forall x :: x in values ==> x in solution && values[x] == solution[x]
  }

  lemma StepFound(b: Build, d: Derived, solution: Env)
    requires b.errors == [] && Within(b.values, solution) && CheckType(d.expr, b.types).Some?
    requires DerivedHolds(d, solution) && References(d.expr) <= b.values.Keys
    ensures var r := EvaluateStep(b, d);
            r.errors == [] && Within(r.values, solution) && r.values.Keys == b.values.Keys + {d.variable.name}
  {
    hide Evaluate, CheckType, References, CoerceLiteral, Meets;
    Coincidence(d.expr, b.values, solution);
    var raw :| Evaluate(d.expr, solution) == Ok(raw) && Meets(d.variable.decl, Scalar(raw), solution[d.variable.name]);
    CoercionMeets(d.variable.decl, Scalar(raw));
  }

  lemma {:induction false} DerivedFound(b: Build, parsed: map<string, Derived>, order: seq<string>, solution: Env)
    requires InOrder(parsed, order) && b.errors == [] && Within(b.values, solution)
    requires forall x :: x in order ==>
               && CheckType(parsed[x].expr, b.types).Some? && DerivedHolds(parsed[x], solution)
               && References(parsed[x].expr) <= b.values.Keys + parsed.Keys
    ensures var r := EvaluateAll(b, parsed, order);
            r.errors == [] && Within(r.values, solution) && r.values.Keys == b.values.Keys + Elements(order)
  {
    hide EvaluateStep, DerivedHolds, References, CheckType, InOrder, Within;
    if order != [] {
      var n := |order| - 1;
      var name := order[n];
      assert order == order[..n] + [name];
      LastUnread(parsed, order, name);
      LastIn(parsed, order);
      DerivedFound(b, parsed, order[..n], solution);
      EvaluationKeepsTypes(b, parsed, order[..n]);
      LastReads(parsed, order);
      StepFound(EvaluateAll(b, parsed, order[..n]), parsed[name], solution);
      assert Elements(order) == Elements(order[..n]) + {name};
    }
  }

  /** The last of an order reads derived names that stand before it. */
  lemma LastReads(parsed: map<string, Derived>, order: seq<string>)
    requires InOrder(parsed, order) && order != []
    ensures var n := |order| - 1; References(parsed[order[n]].expr) * parsed.Keys <= Elements(order[..n])
  {
    hide References;
    var n := |order| - 1;
    forall y | y in References(parsed[order[n]].expr) * parsed.Keys ensures y in Elements(order[..n]) {
      assert (order[n], y) in Pairs(Dependencies(parsed));
    }
  }

  // ---- the whole environment ------------------------------------------------------------------------

  /** Some input node lists the name among its arguments. */
  ghost predicate Accepts(def: Definition, name: string) {
    exists n :: n in def.nodes && n.ty == "retrieval.input" && n.accepts.Some? && name in n.accepts.value
  }

  /** The equation of a variable. */
  ghost predicate Holds(def: Definition, caller: Caller, values: Env, v: Variable) {
    && v.name in values
    && match v.source
       case InputSource => InputEquation(v, Accepts(def, v.name), caller, values[v.name])
       case ValueSource => ConstantEquation(v, values[v.name])
       case ExpressionSource => Parses(v) && DerivedEquation(v.decl, v.expression.value.parsed.value, values, values[v.name])
  }

  /** The query and one value for every variable, by which all equations hold. */
  ghost predicate Solves(def: Definition, caller: Caller, values: Env) {
    && values.Keys == {"query"} + NamesOf(def.variables) && values["query"] == StrV(caller.query)
    && forall v :: v in def.variables ==> Holds(def, caller, values, v)
  }

  /** Whatever was supplied is the name of an input that some node accepts. */
  ghost predicate ArgumentsKnown(def: Definition, caller: Caller) {
    forall x :: x in caller.supplied ==> Accepts(def, x) && exists v :: v in def.variables && v.source == InputSource && v.name == x
  }

  lemma AcceptedExactly(def: Definition)
    ensures forall x :: x in AcceptedArgumentNames(def.nodes) <==> Accepts(def, x)
  {
  }

  lemma InputsExactlySolve(def: Definition, caller: Caller)
    requires NamesApart(def.variables)
    ensures var b, ins := WithInputs(def, caller), InputVariables(def.variables);
            var accepted := AcceptedArgumentNames(def.nodes);
            && b.values.Keys <= b.types.Keys
            && (b.errors == [] <==> ArgumentsKnown(def, caller) && Solvable(ins, accepted, caller))
            && (b.errors == [] ==> Entered(ins, accepted, caller, b.values))
  {
    hide InputEquation, AddInputs;
    PanelExact(def, caller);
    var ins, accepted := InputVariables(def.variables), AcceptedArgumentNames(def.nodes);
    InputsExact(def.variables);
    InputsSolve(caller, ins, accepted);
    AcceptedExactly(def);
    var b := AddInputs(Started(caller), ins, accepted, caller);
    forall x | x in caller.supplied
      ensures x in b.remaining <==>
                !(Accepts(def, x) && exists v :: v in def.variables && v.source == InputSource && v.name == x)
    {
      if v :| v in def.variables && v.source == InputSource && v.name == x {
        assert v in ins;
      }
    }
    assert b.remaining == map[] <==> ArgumentsKnown(def, caller);
  }

  lemma PanelFine(def: Definition, caller: Caller)
    requires VariablesFine(def)
    ensures forall v :: v in Declared(def.variables, WithInputs(def, caller).types.Keys) ==> OnPanel(v)
  {
    hide WithInputs, Declared, CheckType, BuildEnvironment, StaticTypes;
    PanelExact(def, caller);
    forall v | v in Declared(def.variables, WithInputs(def, caller).types.Keys) ensures OnPanel(v) {
      assert DeclarationFine(v) && ExpressionFine(v, StaticTypes(def.variables));
    }
  }

  /** The build of a fine definition: inputs, constants, and derived variables in order. */
  ghost function Panel(def: Definition, caller: Caller): seq<Variable> {
    Declared(def.variables, WithInputs(def, caller).types.Keys)
  }

  ghost function Widened(def: Definition, caller: Caller): Build {
    WithInputs(def, caller).(types := TypesOf(WithInputs(def, caller).types, Panel(def, caller)))
  }

  ghost function Order(def: Definition, caller: Caller): seq<string> {
    var parsed := ParsedMap(Panel(def, caller));
    Rounds(ParsedNames(Panel(def, caller)), Dependencies(parsed), []).0
  }

  lemma OrderShape(def: Definition, caller: Caller)
    requires VariablesFine(def)
    ensures InOrder(ParsedMap(Panel(def, caller)), Order(def, caller))
    ensures Elements(Order(def, caller)) == ParsedMap(Panel(def, caller)).Keys
  {
    hide WithInputs, Declared, Rounds, VariablesFine, Dependencies, DependenciesFirst, Distinct;
    FineOrder(def, caller);
    assert forall x :: x in Order(def, caller) ==> x in Elements(Order(def, caller));
  }

  lemma BuildShape(def: Definition, caller: Caller)
    requires VariablesFine(def)
    ensures forall x :: x in Order(def, caller) ==> x in ParsedMap(Panel(def, caller))
    ensures var c := AddConstants(Widened(def, caller), Panel(def, caller));
            && Built(def, caller) == EvaluateAll(c, ParsedMap(Panel(def, caller)), Order(def, caller))
            && c.types == StaticTypes(def.variables)
  {
    hide WithInputs, Declared, ParsedMap, Rounds, AddConstants, EvaluateAll, VariablesFine, InputVariables, StaticTypes, Built,
      Dependencies, InOrder, TypesOf;
    OrderShape(def, caller);
    FineApart(def);
    PanelExact(def, caller);
    FineOrder(def, caller);
    BuiltUnfold(def, caller);
    ConstantsKeep(Widened(def, caller), Panel(def, caller));
    InEverywhere(Order(def, caller));
    var c := AddConstants(Widened(def, caller), Panel(def, caller));
    assert c.(errors := c.errors + []) == c;
  }

  lemma InEverywhere(order: seq<string>)
    ensures forall x :: x in order ==> x in Elements(order)
  {
  }

  lemma FineApart(def: Definition)
    requires VariablesFine(def)
    ensures NamesApart(def.variables)
  {
    hide BuildEnvironment, ExpressionFine, AcceptsFine;
  }

  lemma PanelApart(def: Definition, caller: Caller)
    requires VariablesFine(def)
    ensures var panel, b := Panel(def, caller), WithInputs(def, caller);
            && NamesApart(panel) && NamesOf(panel) !! b.values.Keys && (forall v :: v in panel ==> OnPanel(v))
            && (forall v :: v in panel <==> v in def.variables && v.source != InputSource)
            && ParsedMap(panel).Keys == set v | v in panel && v.source == ExpressionSource :: v.name
  {
    hide WithInputs, Declared, VariablesFine, StaticTypes, InputVariables, AddInputs;
    FineApart(def);
    PanelFine(def, caller);
    PanelExact(def, caller);
    InputsExactlySolve(def, caller);
    InputTypesOnly(def.variables, WithInputs(def, caller).types);
    ParsedExactly(Panel(def, caller));
  }

  lemma ParsedExactly(panel: seq<Variable>)
    requires DistinctNames(panel) && forall v :: v in panel ==> OnPanel(v)
    ensures ParsedMap(panel).Keys == set v | v in panel && v.source == ExpressionSource :: v.name
  {
    var parsed := ParsedMap(panel);
    forall x | x in parsed ensures exists v :: v in panel && v.source == ExpressionSource && v.name == x {
      assert OnPanel(parsed[x].variable);
    }
  }

  /** What the panel loop makes of the inputs' values: they stay, and the panel's equations hold. */
  ghost predicate PanelHolds(panel: seq<Variable>, before: Env, values: Env) {
    && values.Keys == before.Keys + NamesOf(panel) && (forall x :: x in before ==> values[x] == before[x])
    && forall v :: v in panel ==> PanelEquation(v, values)
  }

  ghost predicate PanelEquation(v: Variable, values: Env) {
    && v.name in values
    && (v.source == ValueSource ==> ConstantEquation(v, values[v.name]))
    && (v.source == ExpressionSource ==>
          Parses(v) && DerivedEquation(v.decl, v.expression.value.parsed.value, values, values[v.name]))
  }

  lemma PanelSolves(t: Build, panel: seq<Variable>, order: seq<string>)
    requires NamesApart(panel) && NamesOf(panel) !! t.values.Keys && forall v :: v in panel ==> OnPanel(v)
    requires var parsed := ParsedMap(panel);
             && parsed.Keys == (set v | v in panel && v.source == ExpressionSource :: v.name)
             && InOrder(parsed, order) && Elements(order) == parsed.Keys
             && EvaluateAll(AddConstants(t, panel), parsed, order).errors == []
    ensures t.errors == [] && PanelHolds(panel, t.values, EvaluateAll(AddConstants(t, panel), ParsedMap(panel), order).values)
  {
    hide AddConstants, EvaluateAll, ParsedMap, InOrder, NamesApart, ConstantsEntered, ConstantsSolvable, DerivedEntered, PanelEquation;
    var parsed, c := ParsedMap(panel), AddConstants(t, panel);
    var values := EvaluateAll(c, parsed, order).values;
    DerivedSolve(c, parsed, order);
    ConstantsSolve(t, panel);
    SameElements(order, parsed.Keys);
    PanelKeeps(t, panel, order, c.values, values);
    forall v | v in panel ensures PanelEquation(v, values) {
      PanelEach(t, panel, order, c.values, values, v);
    }
  }

  lemma SameElements(order: seq<string>, names: set<string>)
    requires Elements(order) == names
    ensures forall x :: x in order <==> x in names
  {
    forall x ensures x in order <==> x in names {
      assert x in Elements(order) <==> x in order;
    }
  }

  lemma PanelKeeps(t: Build, panel: seq<Variable>, order: seq<string>, middle: Env, values: Env)
    requires NamesOf(panel) !! t.values.Keys && forall v :: v in panel ==> OnPanel(v)
    requires ParsedMap(panel).Keys == (set v | v in panel && v.source == ExpressionSource :: v.name) == Elements(order)
    requires forall x :: x in order <==> x in ParsedMap(panel)
    requires ConstantsEntered(panel, t.values, middle) && DerivedEntered(ParsedMap(panel), order, middle, values)
    ensures values.Keys == t.values.Keys + NamesOf(panel) && forall x :: x in t.values ==> values[x] == t.values[x]
  {
    hide ParsedMap, DerivedHolds, ConstantEquation, ConstantNames, OnPanel, NamesOf;
    PanelNames(panel);
  }

  lemma PanelEach(t: Build, panel: seq<Variable>, order: seq<string>, middle: Env, values: Env, v: Variable)
    requires NamesApart(panel) && (forall u :: u in panel ==> OnPanel(u)) && v in panel
    requires ParsedMap(panel).Keys == (set u | u in panel && u.source == ExpressionSource :: u.name)
    requires forall x :: x in order <==> x in ParsedMap(panel)
    requires ConstantsEntered(panel, t.values, middle) && DerivedEntered(ParsedMap(panel), order, middle, values)
    ensures PanelEquation(v, values)
  {
    hide ParsedMap, ConstantEquation, DerivedEquation, NamesApart;
    FirstOf(panel);
    if v.source == ExpressionSource {
      ParsedAs(panel, v);
      assert DerivedHolds(ParsedMap(panel)[v.name], values);
    } else {
      NotParsed(panel, v);
      assert v.source == ValueSource && v.name in ConstantNames(panel);
    }
  }

  lemma FirstOf(panel: seq<Variable>)
    requires NamesApart(panel)
    ensures DistinctNames(panel)
  {
  }

  lemma NotParsed(panel: seq<Variable>, v: Variable)
    requires NamesApart(panel) && v in panel && OnPanel(v) && v.source != ExpressionSource
    requires ParsedMap(panel).Keys == set u | u in panel && u.source == ExpressionSource :: u.name
    ensures v.source == ValueSource && v.name !in ParsedMap(panel)
  {
    hide ParsedMap;
    if u :| u in panel && u.source == ExpressionSource && u.name == v.name {
      SameName(panel, u, v);
    }
  }

  /** A built environment solves the equations. */
  lemma BuiltSolves(def: Definition, caller: Caller)
    requires VariablesFine(def) && Built(def, caller).errors == []
    ensures ArgumentsKnown(def, caller) && Solves(def, caller, Built(def, caller).values)
  {
    hide VariablesFine, Built, WithInputs, Panel, Order, AddConstants, EvaluateAll, ParsedMap, InputEquation, ConstantEquation,
      DerivedEquation, ArgumentsKnown, Solvable, InOrder, TypesOf, Parses, OnPanel, InputVariables, PanelHolds, StaticTypes;
    FineApart(def);
    OrderShape(def, caller);
    BuildShape(def, caller);
    PanelApart(def, caller);
    PanelSolves(Widened(def, caller), Panel(def, caller), Order(def, caller));
    InputsExactlySolve(def, caller);
    EquationsHold(def, caller, Panel(def, caller), WithInputs(def, caller).values, Built(def, caller).values);
  }

  lemma AllNames(vs: seq<Variable>, panel: seq<Variable>)
    requires NamesApart(vs) && forall v :: v in panel <==> v in vs && v.source != InputSource
    ensures NamesOf(vs) == NamesOf(InputVariables(vs)) + NamesOf(panel)
    ensures forall v :: v in InputVariables(vs) <==> v in vs && v.source == InputSource
  {
    hide InputVariables;
    FirstOf(vs);
    InputsExact(vs);
  }

  lemma EquationsHold(def: Definition, caller: Caller, panel: seq<Variable>, before: Env, values: Env)
    requires NamesApart(def.variables) && forall v :: v in panel <==> v in def.variables && v.source != InputSource
    requires Entered(InputVariables(def.variables), AcceptedArgumentNames(def.nodes), caller, before)
    requires PanelHolds(panel, before, values)
    ensures Solves(def, caller, values)
  {
    hide InputEquation, ConstantEquation, DerivedEquation, Parses, InputVariables, NamesApart, Accepts, AcceptedArgumentNames;
    AllNames(def.variables, panel);
    AcceptedExactly(def);
    forall v | v in def.variables ensures Holds(def, caller, values, v) {
      assert v.source != InputSource ==> PanelEquation(v, values);
    }
  }

  lemma ParsedAs(panel: seq<Variable>, v: Variable)
    requires DistinctNames(panel) && v in panel && v.source == ExpressionSource && OnPanel(v)
    ensures var parsed := ParsedMap(panel);
            Parses(v) && v.name in parsed && parsed[v.name] == Derived(v, v.expression.value.parsed.value)
  {
    assert v.name in ParsedNames(panel);
    SameName(panel, v, ParsedMap(panel)[v.name].variable);
  }

  // ---- solutions are found ---------------------------------------------------------------------------

  lemma InputsFound(def: Definition, caller: Caller, solution: Env)
    requires NamesApart(def.variables) && ArgumentsKnown(def, caller) && Solves(def, caller, solution)
    ensures var b := WithInputs(def, caller);
            b.errors == [] && Within(b.values, solution) && b.values.Keys == {QUERY} + NamesOf(InputVariables(def.variables))
  {
    hide InputEquation, ArgumentsKnown, WithInputs, InputVariables;
    var ins, accepted := InputVariables(def.variables), AcceptedArgumentNames(def.nodes);
    InputsExact(def.variables);
    AcceptedExactly(def);
    forall v | v in ins ensures InputEquation(v, v.name in accepted, caller, solution[v.name]) {
      assert Holds(def, caller, solution, v);
    }
    InputsExactlySolve(def, caller);
    var values := WithInputs(def, caller).values;
    forall v | v in ins ensures v.name in values && values[v.name] == solution[v.name] {
      InputOnce(v, v.name in accepted, caller, values[v.name], solution[v.name]);
    }
  }

  lemma ConstantsFound(t: Build, panel: seq<Variable>, solution: Env)
    requires NamesApart(panel) && NamesOf(panel) !! t.values.Keys && forall v :: v in panel ==> OnPanel(v)
    requires t.errors == [] && Within(t.values, solution) && forall v :: v in panel ==> PanelEquation(v, solution)
    ensures var c := AddConstants(t, panel);
            c.errors == [] && Within(c.values, solution) && c.values.Keys == t.values.Keys + ConstantNames(panel)
  {
    hide Meets, AddConstants, DerivedEquation;
    ConstantsSolve(t, panel);
    var values := AddConstants(t, panel).values;
    forall v | v in panel && v.source == ValueSource
      ensures AddConstants(t, panel).errors == [] ==> v.name in values && values[v.name] == solution[v.name]
    {
      assert PanelEquation(v, solution);
      if AddConstants(t, panel).errors == [] {
        MeetsOnce(v.decl, Scalar(v.value.value), values[v.name], solution[v.name]);
      }
    }
  }

  /** A derived variable of a fine definition checks, and reads the query and variables only. */
  lemma DerivedChecks(def: Definition, v: Variable)
    requires VariablesFine(def) && v in def.variables && v.source == ExpressionSource && Parses(v)
    ensures var e := v.expression.value.parsed.value;
            CheckType(e, StaticTypes(def.variables)).Some? && References(e) <= {QUERY} + NamesOf(def.variables)
  {
    hide BuildEnvironment, CheckType, References, StaticTypes, AcceptsFine;
    FineApart(def);
    assert ExpressionFine(v, StaticTypes(def.variables));
    StaticTypesDeclare(def.variables);
    CheckedReferences(v.expression.value.parsed.value, StaticTypes(def.variables));
  }

  lemma PanelFound(t: Build, panel: seq<Variable>, order: seq<string>, solution: Env, types: map<string, ExprType>)
    requires NamesApart(panel) && NamesOf(panel) !! t.values.Keys && forall v :: v in panel ==> OnPanel(v)
    requires var parsed := ParsedMap(panel);
             && parsed.Keys == (set v | v in panel && v.source == ExpressionSource :: v.name)
             && InOrder(parsed, order) && Elements(order) == parsed.Keys
    requires t.errors == [] && Within(t.values, solution) && forall v :: v in panel ==> PanelEquation(v, solution)
    requires AddConstants(t, panel).types == types
    requires forall v :: v in panel && v.source == ExpressionSource && Parses(v) ==>
               var e := v.expression.value.parsed.value;
               CheckType(e, types).Some? && References(e) <= t.values.Keys + NamesOf(panel)
    ensures var r := EvaluateAll(AddConstants(t, panel), ParsedMap(panel), order);
            r.errors == [] && Within(r.values, solution) && r.values.Keys == t.values.Keys + NamesOf(panel)
  {
    hide AddConstants, EvaluateAll, ParsedMap, ConstantEquation, DerivedEquation, InOrder, CheckType, References;
    var parsed, c := ParsedMap(panel), AddConstants(t, panel);
    ConstantsFound(t, panel, solution);
    PanelNames(panel);
    InEverywhere(order);
    forall x | x in order
      ensures x in parsed && CheckType(parsed[x].expr, c.types).Some? && DerivedHolds(parsed[x], solution)
      ensures References(parsed[x].expr) <= c.values.Keys + parsed.Keys
    {
      var v :| v in panel && v.source == ExpressionSource && v.name == x;
      ParsedAs(panel, v);
      assert PanelEquation(v, solution);
    }
    assert forall x :: x in order ==> x in parsed;
    DerivedFound(c, parsed, order, solution);
  }

  lemma PanelNames(panel: seq<Variable>)
    requires forall v :: v in panel ==> OnPanel(v)
    ensures NamesOf(panel) == ConstantNames(panel) + set v | v in panel && v.source == ExpressionSource :: v.name
  {
  }

  /** Whatever solves the equations is what the build delivers. */
  lemma SolutionFound(def: Definition, caller: Caller, solution: Env)
    requires VariablesFine(def) && ArgumentsKnown(def, caller) && Solves(def, caller, solution)
    ensures Built(def, caller).errors == [] && Built(def, caller).values == solution
  {
    hide VariablesFine, Built, WithInputs, Panel, Order, AddConstants, EvaluateAll, ParsedMap, InputEquation, ConstantEquation,
      DerivedEquation, ArgumentsKnown, Solvable, InOrder, TypesOf, OnPanel, InputVariables, StaticTypes, CheckType, References,
      AcceptedArgumentNames, Accepts;
    FineApart(def);
    OrderShape(def, caller);
    BuildShape(def, caller);
    PanelApart(def, caller);
    InputsFound(def, caller, solution);
    var panel := Panel(def, caller);
    AllNames(def.variables, panel);
    forall v | v in panel
      ensures PanelEquation(v, solution)
      ensures v.source == ExpressionSource && Parses(v) ==>
                var e := v.expression.value.parsed.value;
                && CheckType(e, StaticTypes(def.variables)).Some?
                && References(e) <= WithInputs(def, caller).values.Keys + NamesOf(panel)
    {
      assert Holds(def, caller, solution, v);
      if v.source == ExpressionSource && Parses(v) {
        DerivedChecks(def, v);
      }
    }
    PanelFound(Widened(def, caller), panel, Order(def, caller), solution, StaticTypes(def.variables));
    assert Built(def, caller).values == solution;
  }

  /**
   * The environment of a fine definition: it builds exactly when every supplied argument is
   * known and the equations have a solution, and its values are the only solution.
   */
  lemma BuildIsSolution(def: Definition, caller: Caller)
    requires VariablesFine(def)
    ensures var r := BuildEnvironment(def, caller);
            && (r.Ok? <==> ArgumentsKnown(def, caller) && exists values :: Solves(def, caller, values))
            && (r.Ok? ==> forall values :: Solves(def, caller, values) <==> values == r.value.values)
  {
    hide VariablesFine, Built, Solves, ArgumentsKnown;
    if Built(def, caller).errors == [] {
      BuiltSolves(def, caller);
    }
    forall values | ArgumentsKnown(def, caller) && Solves(def, caller, values)
      ensures Built(def, caller).errors == [] && values == Built(def, caller).values
    {
      SolutionFound(def, caller, values);
    }
  }

  // ---- why a build fails ------------------------------------------------------------------------------

  ghost predicate UnknownArgument(def: Definition, caller: Caller) {
    exists x :: x in caller.supplied &&
      !(Accepts(def, x) && exists v :: v in def.variables && v.source == InputSource && v.name == x)
  }

  /** What is given for an accepted input denotes nothing that satisfies its declaration. */
  ghost predicate Refused(def: Definition, caller: Caller, v: Variable) {
    && v in def.variables && v.source == InputSource && Accepts(def, v.name)
    && exists raw :: Given(v, caller, raw) && forall w :: !Meets(v.decl, raw, w)
  }

  /** An accepted input without a default, for which nothing is given. */
  ghost predicate Missing(def: Definition, caller: Caller, v: Variable) {
    && v in def.variables && v.source == InputSource && Accepts(def, v.name) && !caller.atDefaults && !HasDefault(v)
    && v.name !in caller.supplied && !(v.name == "result_limit" && caller.topK.Some?)
  }

  lemma InputFailure(def: Definition, caller: Caller, v: Variable)
    requires v in def.variables && v.source == InputSource
    ensures (forall w :: !InputEquation(v, Accepts(def, v.name), caller, w)) <==>
              Refused(def, caller, v) || Missing(def, caller, v)
  {
    hide Accepts;
    PlaceholderStandsIn(v);
    var accepted := Accepts(def, v.name);
    assert StandsIn(v, StaticPlaceholder(AsInputArgument(v)));
    if accepted && exists raw :: Given(v, caller, raw) {
      var raw :| Given(v, caller, raw);
      forall w ensures InputEquation(v, accepted, caller, w) <==> Meets(v.decl, raw, w) {
      }
      assert !Missing(def, caller, v);
    } else {
      forall w ensures InputEquation(v, accepted, caller, w) <==> (accepted ==> caller.atDefaults) && StandsIn(v, w) {
      }
      if accepted {
        NothingGiven(v, caller);
      }
    }
  }

  /** A build fails for an unknown, a refused or a missing argument, or in the panel, and for no other reason. */
  lemma BuildFails(def: Definition, caller: Caller)
    requires VariablesFine(def)
    ensures BuildEnvironment(def, caller).Err? <==>
              || UnknownArgument(def, caller)
              || (exists v :: Refused(def, caller, v))
              || (exists v :: Missing(def, caller, v))
              || (WithInputs(def, caller).errors == [] && AddPanel(WithInputs(def, caller), def.variables).errors != [])
  {
    hide VariablesFine, WithInputs, AddPanel, InputEquation, Refused, Missing, InputVariables, Accepts, AcceptedArgumentNames;
    FineApart(def);
    InputsExact(def.variables);
    InputsExactlySolve(def, caller);
    AcceptedExactly(def);
    forall v | v in def.variables && v.source == InputSource
      ensures (forall w :: !InputEquation(v, Accepts(def, v.name), caller, w)) <==>
                Refused(def, caller, v) || Missing(def, caller, v)
    {
      InputFailure(def, caller, v);
    }
    FailuresAreInputs(def, caller);
    PanelKeepsErrors(def, caller);
  }

  lemma FailuresAreInputs(def: Definition, caller: Caller)
    ensures forall v :: Refused(def, caller, v) || Missing(def, caller, v) ==> v in def.variables && v.source == InputSource
  {
  }

  lemma PanelKeepsErrors(def: Definition, caller: Caller)
    requires VariablesFine(def)
    ensures Built(def, caller).errors == [] ==> WithInputs(def, caller).errors == []
  {
    hide VariablesFine, WithInputs, Panel, Order, AddConstants, EvaluateAll, ParsedMap, StaticTypes, Built, Parses, OnPanel;
    OrderShape(def, caller);
    BuildShape(def, caller);
    if Built(def, caller).errors == [] {
      PanelApart(def, caller);
      PanelSolves(Widened(def, caller), Panel(def, caller), Order(def, caller));
    }
  }
}
