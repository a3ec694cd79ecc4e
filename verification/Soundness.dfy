/**
 * Validated expressions do not go wrong: in every environment that builds without a
 * report, each name has a value of its declared type, so resolving a well-formed
 * definition can only meet arithmetic faults and bare model values.
 */
module Soundness {
  import opened Wrappers
  import opened Collections
  import opened EvaluationOrder
  import opened Expressions
  import opened Variables
  import opened Resolution
  import opened Validation
  import opened Environments
  import opened Noninterference

  ghost predicate Typed(b: Build, names: set<string>) {
    forall x :: x in names ==> x in b.types && x in b.values && Conforms(b.values[x], b.types[x])
  }

  lemma ArgumentTyped(a: InputArgument, remaining: map<string, Raw>, caller: Caller)
    requires a.decl.ty != ModelType
    ensures var (value, problems) := ArgumentValue(a, remaining, caller);
            problems == [] ==> value.Some? && Conforms(value.value, ExprTypeOf(a.decl.ty))
  {
    PlaceholderConforms(a);
    forall raw: Raw ensures CoerceLiteral(a.decl, raw).Ok? ==> Satisfies(a.decl, CoerceLiteral(a.decl, raw).value) {
      CoercionIsExact(a.decl, raw);
    }
  }

  lemma {:induction false} InputsTyped(caller: Caller, ins: seq<Variable>, accepted: set<string>)
    requires NamesApart(ins) && forall v :: v in ins ==> v.decl.ty != ModelType
    ensures var b := AddInputs(Started(caller), ins, accepted, caller);
            b.errors == [] ==> Typed(b, b.types.Keys)
  {
    if ins != [] {
      var n := |ins| - 1;
      var b := AddInputs(Started(caller), ins[..n], accepted, caller);
      InputsTyped(caller, ins[..n], accepted);
      InputsEntered(caller, ins[..n], accepted);
      DeclaresStep(b.types, ins);
      assert ins[n] in ins;
      ArgumentTyped(AsInputArgument(ins[n]), b.remaining, caller);
      PlaceholderConforms(AsInputArgument(ins[n]));
    }
  }

  lemma {:induction false} ConstantsTyped(b: Build, vs: seq<Variable>, names: set<string>)
    requires forall v :: v in vs ==> v.name in b.types && b.types[v.name] == ExprTypeOf(v.decl.ty)
    requires b.errors == [] ==> Typed(b, names)
    ensures var r := AddConstants(b, vs);
            r.errors == [] ==>
              && b.errors == [] && Typed(r, names)
              && forall v :: v in vs ==> Parses(v) || (v.name in r.values && Conforms(r.values[v.name], b.types[v.name]))
  {
    if vs != [] {
      var n := |vs| - 1;
      var v := vs[n];
      assert vs == vs[..n] + [v];
      ConstantsTyped(b, vs[..n], names);
      ConstantsKeep(b, vs[..n]);
      if v.value.Some? {
        CoercionIsExact(v.decl, Scalar(v.value.value));
      }
    }
  }

  lemma {:induction false} DerivedTyped(b: Build, parsed: map<string, Derived>, order: seq<string>, names: set<string>)
    requires forall x :: x in order ==> x in parsed
    requires forall x :: x in parsed ==>
               && parsed[x].variable.name == x && x in b.types
               && b.types[x] == ExprTypeOf(parsed[x].variable.decl.ty)
    requires b.errors == [] ==> Typed(b, names)
    ensures var r := EvaluateAll(b, parsed, order);
            r.errors == [] ==> Typed(r, names + Elements(order))
  {
    hide EvaluateStep, Typed;
    if order == [] {
      assert names + Elements(order) == names;
    } else {
      var n := |order| - 1;
      assert order == order[..n] + [order[n]];
      DerivedTyped(b, parsed, order[..n], names);
      EvaluationKeepsTypes(b, parsed, order[..n]);
      StepTyped(EvaluateAll(b, parsed, order[..n]), parsed[order[n]], names + Elements(order[..n]));
      assert names + Elements(order) == names + Elements(order[..n]) + {order[n]};
    }
  }

  lemma StepTyped(b: Build, d: Derived, names: set<string>)
    requires d.variable.name in b.types && b.types[d.variable.name] == ExprTypeOf(d.variable.decl.ty)
    requires b.errors == [] ==> Typed(b, names)
    ensures var r := EvaluateStep(b, d);
            r.errors == [] ==> b.errors == [] && Typed(r, names + {d.variable.name})
  {
    hide Evaluate, CheckType, References, CoerceLiteral;
    if Evaluate(d.expr, b.values).Ok? {
      CoercionIsExact(d.variable.decl, Scalar(Evaluate(d.expr, b.values).value));
    }
  }

  /** The panel loop, from inputs that are typed to an environment that is. */
  lemma PanelTyped(t: Build, declared: seq<Variable>, order: seq<string>, left: seq<string>, names: set<string>)
    requires DistinctNames(declared)
    requires forall v :: v in declared ==> v.name in t.types && t.types[v.name] == ExprTypeOf(v.decl.ty)
    requires t.errors == [] ==> Typed(t, names)
    requires Elements(order) == ParsedMap(declared).Keys
    ensures var c := AddConstants(t, declared);
            var r := EvaluateAll(c.(errors := c.errors + CycleErrors(left)), ParsedMap(declared), order);
            r.errors == [] ==> Typed(r, names + NamesOf(declared))
  {
    hide EvaluateAll, AddConstants, ParsedMap, CycleErrors;
    var parsed, c := ParsedMap(declared), AddConstants(t, declared);
    var d := c.(errors := c.errors + CycleErrors(left));
    assert forall x :: x in order ==> x in Elements(order);
    ConstantsKeep(t, declared);
    ConstantsTyped(t, declared, names);
    EvaluationKeepsErrors(d, parsed, order);
    var constants := set v | v in declared && !Parses(v) :: v.name;
    DerivedTyped(d, parsed, order, names + constants);
    forall x | x in NamesOf(declared) ensures x in constants || x in Elements(order) {
      var v :| v in declared && v.name == x;
    }
  }

  lemma PanelConforms(vs: seq<Variable>, b: Build, order: seq<string>, left: seq<string>)
    requires NamesApart(vs) && Declares(b.types, InputVariables(vs))
    requires b.errors == [] ==> Typed(b, b.types.Keys)
    requires var parsed := ParsedMap(Declared(vs, b.types.Keys));
             && (order, left) == Rounds(ParsedNames(Declared(vs, b.types.Keys)), Dependencies(parsed), [])
             && Elements(order) == parsed.Keys
    ensures var r := AddPanel(b, vs);
            r.errors == [] && r.types == StaticTypes(vs) ==> EnvConforms(r.values, StaticTypes(vs))
  {
    hide Rounds, Declared, ParsedMap, InputVariables, StaticTypes, EvaluateAll, AddConstants;
    var declared := Declared(vs, b.types.Keys);
    var t := b.(types := TypesOf(b.types, declared));
    PanelTypes(vs, b.types);
    StaticTypesDeclare(vs);
    InputTypesOnly(vs, b.types);
    WideningTyped(b, t.types);
    assert b.types.Keys + NamesOf(declared) == StaticTypes(vs).Keys;
    PanelTyped(t, declared, order, left, b.types.Keys);
  }

  /** Every name of an environment that builds has a value of its type. */
  lemma EnvironmentConforms(def: Definition, caller: Caller)
    requires VariablesFine(def) && Built(def, caller).errors == []
    ensures EnvConforms(Built(def, caller).values, StaticTypes(def.variables))
  {
    hide WithInputs, AddPanel;
    PanelExact(def, caller);
    BuiltTypes(def, caller);
    FineOrder(def, caller);
    FineInputsTyped(def, caller);
    var b := WithInputs(def, caller);
    var declared := Declared(def.variables, b.types.Keys);
    var (order, left) := Rounds(ParsedNames(declared), Dependencies(ParsedMap(declared)), []);
    PanelConforms(def.variables, b, order, left);
  }

  lemma FineInputsTyped(def: Definition, caller: Caller)
    requires VariablesFine(def)
    ensures var b := WithInputs(def, caller); b.errors == [] ==> Typed(b, b.types.Keys)
  {
    var ins := InputVariables(def.variables);
    InputsExact(def.variables);
    forall v | v in ins ensures v.decl.ty != ModelType {
      assert DeclarationFine(v);
    }
    InputsTyped(caller, ins, AcceptedArgumentNames(def.nodes));
  }

  /** Declaring more names leaves the typed ones as they are. */
  lemma WideningTyped(b: Build, types: map<string, ExprType>)
    requires b.types.Keys <= types.Keys && forall x :: x in b.types ==> types[x] == b.types[x]
    ensures Typed(b, b.types.Keys) ==> Typed(b.(types := types), b.types.Keys)
  {
  }

  /** What can still be reported when a validated definition is resolved for a caller. */
  predicate Unavoidable(p: Problem) {
    p.BareModel? || (p.FieldFault? && p.fault == Arithmetic)
  }

  lemma FieldsCannotGoWrong(def: Definition, reg: Registry, values: Env, p: Problem)
    requires forall n, f :: n in def.nodes && f in n.config ==> FieldFine(def, reg, n, f)
    requires EnvConforms(values, StaticTypes(def.variables)) && p in ResolveNodes(def.nodes, values).1
    ensures Unavoidable(p)
  {
    var i := NodeOfProblem(def.nodes, values, p);
    var n := def.nodes[i];
    var j := FieldOfProblem(n.id, n.config, values, p);
    assert n in def.nodes && n.config[j] in n.config;
    assert FieldFine(def, reg, n, n.config[j]);
    TypeSoundness(n.config[j].value.text.parsed.value, StaticTypes(def.variables), values);
  }

  lemma ResolutionCannotGoWrong(def: Definition, reg: Registry, caller: Caller)
    requires WellFormed(def, reg) && Built(def, caller).errors == []
    ensures var r := ResolveDefinition(def, Built(def, caller).values);
            r.Err? ==> forall p :: p in r.error ==> Unavoidable(p)
  {
    EnvironmentConforms(def, caller);
    forall p | p in ResolveNodes(def.nodes, Built(def, caller).values).1 ensures Unavoidable(p) {
      FieldsCannotGoWrong(def, reg, Built(def, caller).values, p);
    }
  }

  /** A resolved field holds a value of the type that the node catalog expects of it. */
  lemma ResolvedFieldTyped(def: Definition, reg: Registry, caller: Caller, i: nat, j: nat)
    requires WellFormed(def, reg) && Run(def, caller).Some? && i < |def.nodes| && j < |def.nodes[i].config|
    requires var (n, f) := (def.nodes[i], def.nodes[i].config[j]); f.value.Tagged? && (n.ty, f.key) in reg.expected
    ensures var run := Run(def, caller).value;
            && i < |run.nodes| && j < |run.nodes[i].config|
            && var f := run.nodes[i].config[j];
               && f.key == def.nodes[i].config[j].key && f.value.Plain? && f.value.raw.Scalar?
               && Conforms(f.value.raw.value, reg.expected[(def.nodes[i].ty, f.key)])
  {
    hide Built, ResolveDefinition, VariablesFine, Evaluate, CheckType, StaticTypes;
    var n, f := def.nodes[i], def.nodes[i].config[j];
    assert n in def.nodes && f in n.config;
    assert FieldFine(def, reg, n, f);
    RunValues(def, caller);
    ResolutionExact(def, Built(def, caller).values);
    EnvironmentConforms(def, caller);
    TypeSoundness(f.value.text.parsed.value, StaticTypes(def.variables), Built(def, caller).values);
  }
}
