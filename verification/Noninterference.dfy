/**
 * Taint and noninterference: identity fields do not depend on the caller, so the static
 * view of a definition agrees with its runs wherever it can be computed.
 */
module Noninterference {
  import opened Wrappers
  import opened Collections
  import opened EvaluationOrder
  import opened Expressions
  import opened Variables
  import opened Resolution
  import opened Validation
  import opened Environments

  // ---- taint agreement ------------------------------------------------------------------------

  /** One step of a chain of references. */
  lemma DependsUnfold(vs: seq<Variable>, x: string)
    ensures var refs := DerivedReferences(vs);
            DependsOnCaller(vs, x) <==>
              x in CallerNames(vs) || (x in refs && exists y :: y in refs[x] && DependsOnCaller(vs, y))
  {
    hide DerivedReferences, ParsedNames, References;
    var refs := DerivedReferences(vs);
    if x in CallerNames(vs) {
      assert ChainToCaller(vs, [x]);
    }
    if w :| ChainToCaller(vs, w) && w[0] == x && |w| > 1 {
      WalkSlice(Pairs(refs), w, 1, |w| - 1);
      assert w[1..|w| - 1 + 1] == w[1..];
      assert ChainToCaller(vs, w[1..]);
      assert (w[0], w[1]) in Pairs(refs);
      assert DependsOnCaller(vs, w[1]);
    }
    if x in refs && exists y :: y in refs[x] && DependsOnCaller(vs, y) {
      var y :| y in refs[x] && DependsOnCaller(vs, y);
      DependsStep(vs, x, y);
    }
  }

  /**
   * The single pass in dependency order taints exactly the names of `bound`, when `bound`
   * holds the caller's names and the derived variables with a reference inside it.
   */
  lemma {:induction false} TaintInOrder(base: set<string>, bound: iset<string>, b: Build, parsed: map<string, Derived>,
                                        order: seq<string>)
    requires forall x :: x in parsed ==> parsed[x].variable.name == x
    requires forall x :: x in bound <==>
               x in base || (x in parsed && exists y :: y in References(parsed[x].expr) && y in bound)
    requires b.tainted == base && base !! parsed.Keys && forall x :: x in order ==> x in parsed
    requires DependenciesFirst(Pairs(Dependencies(parsed)), order)
    ensures forall x :: x in EvaluateAll(b, parsed, order).tainted <==> x in bound && (x in base || x in order)
  {
    hide Evaluate, CoerceLiteral, References, EvaluateStep;
    if order != [] {
      var n := |order| - 1;
      StepShape(EvaluateAll(b, parsed, order[..n]), parsed[order[n]]);
      var name, before := order[n], order[..n];
      assert order == before + [name];
      forall i, y | 0 <= i < n && (before[i], y) in Pairs(Dependencies(parsed)) ensures y in before[..i] {
        assert order[..i] == before[..i];
      }
      TaintInOrder(base, bound, b, parsed, before);
      var tainted := EvaluateAll(b, parsed, before).tainted;
      forall y | y in References(parsed[name].expr) ensures y in tainted <==> y in bound {
        if y in parsed {
          assert (order[n], y) in Pairs(Dependencies(parsed));
          assert y in before;
        }
      }
    }
  }

  lemma {:induction false} ReferencesExact(vs: seq<Variable>)
    requires DistinctNames(vs)
    ensures forall v :: v in vs && Parses(v) ==>
              v.name in DerivedReferences(vs)
              && DerivedReferences(vs)[v.name] == References(v.expression.value.parsed.value)
    ensures forall x :: x in DerivedReferences(vs) ==> exists v :: v in vs && Parses(v) && v.name == x
  {
    hide References;
    if vs != [] {
      var n := |vs| - 1;
      ReferencesExact(vs[..n]);
      assert vs == vs[..n] + [vs[n]];
      forall v | v in vs[..n] ensures v.name != vs[n].name {
        var i :| 0 <= i < n && vs[i] == v;
      }
    }
  }

  /** The derived variables of the environment are those of the validator, with the same references. */
  lemma ParsedAgrees(vs: seq<Variable>, declared: seq<Variable>)
    requires DistinctNames(vs) && forall v :: v in vs && v.source == InputSource ==> v.expression.None?
    requires forall v :: v in declared <==> v in vs && v.source != InputSource
    ensures ParsedMap(declared).Keys == DerivedReferences(vs).Keys
    ensures forall x :: x in ParsedMap(declared) ==>
              References(ParsedMap(declared)[x].expr) == DerivedReferences(vs)[x]
  {
    hide References, Parses, ParsedMap, DerivedReferences;
    ReferencesExact(vs);
    assert forall v :: v in declared ==> v in vs;
    forall x ensures x in DerivedReferences(vs) <==> x in ParsedMap(declared) {
      ParsedName(vs, declared, x);
    }
    forall x | x in ParsedMap(declared) ensures References(ParsedMap(declared)[x].expr) == DerivedReferences(vs)[x] {
      ParsedVariable(declared, x);
    }
  }

  lemma ParsedName(vs: seq<Variable>, declared: seq<Variable>, x: string)
    requires forall v :: v in vs && v.source == InputSource ==> v.expression.None?
    requires forall v :: v in declared <==> v in vs && v.source != InputSource
    ensures x in DerivedReferences(vs) <==> x in ParsedMap(declared)
  {
    hide ParsedMap, DerivedReferences;
    if v :| v in vs && Parses(v) && v.name == x {
      assert v in declared;
    }
  }

  lemma ParsedVariable(declared: seq<Variable>, x: string)
    requires x in ParsedMap(declared)
    ensures var d := ParsedMap(declared)[x];
            d.variable in declared && Parses(d.variable) && d.variable.name == x && d.expr == d.variable.expression.value.parsed.value
  {
  }

  lemma ParsedApart(vs: seq<Variable>, declared: seq<Variable>)
    requires NamesApart(vs) && forall v :: v in declared <==> v in vs && v.source != InputSource
    ensures CallerNames(vs) !! ParsedMap(declared).Keys
  {
    hide References, Evaluate;
    forall x | x in ParsedMap(declared) ensures x !in CallerNames(vs) {
      var v := ParsedMap(declared)[x].variable;
      forall u | u in vs && u.source == InputSource ensures u.name != x {
        if u.name == x {
          SameName(vs, u, v);
        }
      }
    }
  }

  lemma {:induction false} EvaluationKeepsErrors(b: Build, parsed: map<string, Derived>, order: seq<string>)
    requires forall x :: x in order ==> x in parsed
    ensures EvaluateAll(b, parsed, order).errors == [] ==> b.errors == []
  {
    if order != [] {
      EvaluationKeepsErrors(b, parsed, order[..|order| - 1]);
    }
  }

  /** The order of a fine definition's derived variables, the same for every caller. */
  lemma FineOrder(def: Definition, caller: Caller)
    requires VariablesFine(def)
    ensures var declared := Declared(def.variables, WithInputs(def, caller).types.Keys);
            var parsed := ParsedMap(declared);
            var (order, left) := Rounds(ParsedNames(declared), Dependencies(parsed), []);
            && left == [] && Distinct(order) && Elements(order) == parsed.Keys
            && DependenciesFirst(Pairs(Dependencies(parsed)), order)
  {
    hide Rounds, ParsedMap, Declared, InputVariables, EvaluateAll, AddConstants, Evaluate, CoerceLiteral;
    PanelExact(def, caller);
    PanelExact(def, STATIC_CALLER);
    var b, s := WithInputs(def, caller), WithInputs(def, STATIC_CALLER);
    InputTypesOnly(def.variables, b.types);
    InputTypesOnly(def.variables, s.types);
    var declared := Declared(def.variables, b.types.Keys);
    var parsed := ParsedMap(declared);
    var (order, left) := Rounds(ParsedNames(declared), Dependencies(parsed), []);
    var c := WithConstants(s, declared);
    EvaluationKeepsErrors(c.(errors := c.errors + CycleErrors(left)), parsed, order);
    ParsedNamesDistinct(declared);
    OrderIsExact(ParsedNames(declared), Dependencies(parsed));
  }

  lemma BuiltUnfold(def: Definition, caller: Caller)
    ensures var b := WithInputs(def, caller);
            var declared := Declared(def.variables, b.types.Keys);
            var parsed := ParsedMap(declared);
            var (order, left) := Rounds(ParsedNames(declared), Dependencies(parsed), []);
            var c := WithConstants(b, declared);
            (forall x :: x in order ==> x in parsed) ==>
              Built(def, caller) == EvaluateAll(c.(errors := c.errors + CycleErrors(left)), parsed, order)
  {
    hide WithInputs, Declared, ParsedMap, Rounds, WithConstants, EvaluateAll;
  }

  /** Validator and environment agree on the tainted names, and both mean chains to the caller. */
  lemma TaintAgreement(def: Definition, caller: Caller)
    requires VariablesFine(def)
    ensures forall x :: x in Built(def, caller).tainted <==> DependsOnCaller(def.variables, x)
  {
    hide Rounds, Declared, ParsedMap, InputVariables, EvaluateAll, AddConstants, References, Evaluate, Built, AddPanel, WithInputs,
      DependsOnCaller, DerivedReferences;
    var vs := def.variables;
    PanelExact(def, caller);
    FineOrder(def, caller);
    var b := WithInputs(def, caller);
    var declared := Declared(vs, b.types.Keys);
    var parsed := ParsedMap(declared);
    var (order, left) := Rounds(ParsedNames(declared), Dependencies(parsed), []);
    var c := WithConstants(b, declared);
    ConstantsKeep(b.(types := TypesOf(b.types, declared)), declared);
    assert forall v :: v in vs ==> DeclarationFine(v);
    ParsedAgrees(vs, declared);
    ParsedApart(vs, declared);
    var bound := iset x | DependsOnCaller(vs, x);
    forall x
      ensures x in bound <==>
                x in CallerNames(vs) || (x in parsed && exists y :: y in References(parsed[x].expr) && y in bound)
    {
      DependsUnfold(vs, x);
    }
    TaintInOrder(CallerNames(vs), bound, c.(errors := c.errors + CycleErrors(left)), parsed, order);
    BuiltUnfold(def, caller);
    forall x ensures x in Built(def, caller).tainted <==> DependsOnCaller(vs, x) {
      assert x in parsed ==> x in Elements(order);
    }
  }

  // ---- two callers -----------------------------------------------------------------------------

  /** Two environments under construction that differ in tainted values only. */
  ghost predicate Low(b: Build, c: Build) {
    && b.types == c.types && b.tainted == c.tainted
    && forall x :: x !in b.tainted ==> SameOn(x, b.values, c.values)
  }

  lemma {:induction false} InputsLow(b: Build, c: Build, vs: seq<Variable>, accepted: set<string>, p: Caller, q: Caller)
    requires Low(b, c)
    ensures Low(AddInputs(b, vs, accepted, p), AddInputs(c, vs, accepted, q))
  {
    if vs != [] {
      InputsLow(b, c, vs[..|vs| - 1], accepted, p, q);
    }
  }

  lemma {:induction false} ConstantsLow(b: Build, c: Build, vs: seq<Variable>)
    requires Low(b, c)
    ensures Low(AddConstants(b, vs), AddConstants(c, vs))
  {
    hide CoerceLiteral;
    if vs != [] {
      ConstantsLow(b, c, vs[..|vs| - 1]);
    }
  }

  /** A step taints and binds no other name than its own. */
  lemma StepShape(b: Build, d: Derived)
    ensures var r := EvaluateStep(b, d);
            && r.types == b.types
            && r.tainted == (if References(d.expr) !! b.tainted then b.tainted else b.tainted + {d.variable.name})
            && forall x :: x != d.variable.name ==> SameOn(x, r.values, b.values)
  {
    hide Evaluate, CoerceLiteral, References, CheckType;
  }

  lemma SameStep(b: Build, c: Build, d: Derived)
    requires b.types == c.types && Evaluate(d.expr, b.values) == Evaluate(d.expr, c.values)
    requires SameOn(d.variable.name, b.values, c.values)
    ensures SameOn(d.variable.name, EvaluateStep(b, d).values, EvaluateStep(c, d).values)
  {
    hide Evaluate, CoerceLiteral, References, CheckType;
  }

  /** An untainted variable reads untainted names only, so it comes out the same. */
  lemma EvaluateStepLow(b: Build, c: Build, d: Derived)
    requires Low(b, c)
    ensures Low(EvaluateStep(b, d), EvaluateStep(c, d))
  {
    hide Evaluate, CoerceLiteral, References, CheckType, EvaluateStep;
    StepShape(b, d);
    StepShape(c, d);
    if References(d.expr) !! b.tainted {
      Coincidence(d.expr, b.values, c.values);
      if d.variable.name !in b.tainted {
        SameStep(b, c, d);
      }
    }
    var r, r' := EvaluateStep(b, d), EvaluateStep(c, d);
    forall x | x !in r.tainted ensures SameOn(x, r.values, r'.values) {
      if x != d.variable.name {
        assert SameOn(x, r.values, b.values) && SameOn(x, b.values, c.values) && SameOn(x, r'.values, c.values);
      }
    }
  }

  lemma {:induction false} EvaluationLow(b: Build, c: Build, parsed: map<string, Derived>, order: seq<string>)
    requires Low(b, c) && forall x :: x in order ==> x in parsed
    ensures Low(EvaluateAll(b, parsed, order), EvaluateAll(c, parsed, order))
  {
    if order != [] {
      var n := |order| - 1;
      EvaluationLow(b, c, parsed, order[..n]);
      EvaluateStepLow(EvaluateAll(b, parsed, order[..n]), EvaluateAll(c, parsed, order[..n]), parsed[order[n]]);
    }
  }

  /** For any definition, fine or not, two callers agree on every untainted name. */
  lemma BuiltLow(def: Definition, p: Caller, q: Caller)
    ensures Low(Built(def, p), Built(def, q))
  {
    hide CoerceLiteral, Evaluate, References, EvaluateAll, AddConstants, Rounds, ParsedMap, Declared;
    var vs := def.variables;
    InputsLow(Started(p), Started(q), InputVariables(vs), AcceptedArgumentNames(def.nodes), p, q);
    var b, c := WithInputs(def, p), WithInputs(def, q);
    var declared := Declared(vs, b.types.Keys);
    var types := TypesOf(b.types, declared);
    ConstantsLow(b.(types := types), c.(types := types), declared);
    var parsed := ParsedMap(declared);
    var (order, left) := Rounds(ParsedNames(declared), Dependencies(parsed), []);
    var b', c' := WithConstants(b, declared), WithConstants(c, declared);
    EvaluationLow(b'.(errors := b'.errors + CycleErrors(left)), c'.(errors := c'.errors + CycleErrors(left)), parsed, order);
  }

  // ---- identity fields ---------------------------------------------------------------------------

  /** A config field that identifies infrastructure and carries an expression. */
  ghost predicate IdentityField(def: Definition, reg: Registry, i: nat, j: nat) {
    && i < |def.nodes| && j < |def.nodes[i].config|
    && def.nodes[i].config[j].value.Tagged?
    && (def.nodes[i].ty, def.nodes[i].config[j].key) in reg.staticOnly
  }

  lemma OutcomeLow(b: Build, c: Build, e: Expr)
    requires Low(b, c) && References(e) !! b.tainted
    ensures Evaluate(e, b.values) == Evaluate(e, c.values)
  {
    forall x | x in References(e) ensures SameOn(x, b.values, c.values) {
      assert x !in b.tainted;
    }
    Coincidence(e, b.values, c.values);
  }

  lemma IdentityUntainted(def: Definition, reg: Registry, tainted: set<string>, i: nat, j: nat)
    requires forall n, f :: n in def.nodes && f in n.config ==> FieldFine(def, reg, n, f)
    requires forall x :: x in tainted <==> DependsOnCaller(def.variables, x)
    requires IdentityField(def, reg, i, j)
    ensures var text := def.nodes[i].config[j].value.text;
            text.parsed.Some? && References(text.parsed.value) !! tainted
  {
    var n := def.nodes[i];
    assert n in def.nodes && n.config[j] in n.config;
    assert FieldFine(def, reg, n, n.config[j]);
  }

  /** For every pair of callers an identity field has one and the same outcome, value or fault. */
  lemma IdentityOutcome(def: Definition, reg: Registry, p: Caller, q: Caller, i: nat, j: nat)
    requires WellFormed(def, reg) && IdentityField(def, reg, i, j)
    ensures var n := def.nodes[i];
            ResolveField(n.id, n.config[j], Built(def, p).values) == ResolveField(n.id, n.config[j], Built(def, q).values)
  {
    hide Built;
    BuiltLow(def, p, q);
    TaintAgreement(def, p);
    IdentityUntainted(def, reg, Built(def, p).tainted, i, j);
    OutcomeLow(Built(def, p), Built(def, q), def.nodes[i].config[j].value.text.parsed.value);
  }

  /** The definition a run executes, when neither its environment nor its resolution fails. */
  function Run(def: Definition, caller: Caller): Option<Definition> {
    match BuildEnvironment(def, caller)
    case Err(_) => None
    case Ok(env) =>
      match ResolveDefinition(def, env.values)
      case Err(_) => None
      case Ok(resolved) => Some(resolved)
  }

  lemma RunValues(def: Definition, caller: Caller)
    requires Run(def, caller).Some?
    ensures ResolveDefinition(def, Built(def, caller).values) == Ok(Run(def, caller).value)
  {
  }

  lemma ResolvedAt(def: Definition, values: Env, i: nat, j: nat)
    requires ResolveDefinition(def, values).Ok? && i < |def.nodes| && j < |def.nodes[i].config|
    ensures var run := ResolveDefinition(def, values).value;
            && |run.nodes| == |def.nodes| && |run.nodes[i].config| == |def.nodes[i].config|
            && (run.nodes[i].config[j], []) == ResolveField(def.nodes[i].id, def.nodes[i].config[j], values)
  {
    ResolvedNode(def.nodes, values, i);
    ResolvedField(def.nodes[i].id, def.nodes[i].config, values, j);
  }

  /** `r` and `s` agree on field `j` of node `i`, which holds a literal. */
  ghost predicate SameLiteral(r: Definition, s: Definition, i: nat, j: nat) {
    && i < |r.nodes| == |s.nodes|
    && j < |r.nodes[i].config| == |s.nodes[i].config|
    && r.nodes[i].config[j] == s.nodes[i].config[j]
    && r.nodes[i].config[j].value.Plain?
  }

  lemma SameResolved(def: Definition, v: Env, w: Env, i: nat, j: nat)
    requires ResolveDefinition(def, v).Ok? && ResolveDefinition(def, w).Ok?
    requires i < |def.nodes| && j < |def.nodes[i].config|
    requires var n := def.nodes[i]; ResolveField(n.id, n.config[j], v) == ResolveField(n.id, n.config[j], w)
    ensures SameLiteral(ResolveDefinition(def, v).value, ResolveDefinition(def, w).value, i, j)
  {
    ResolvedAt(def, v, i, j);
    ResolvedAt(def, w, i, j);
  }

  /**
   * Noninterference: in a well-formed definition an identity field has the same literal in
   * every two runs, whatever their callers supplied.
   */
  lemma Noninterference(def: Definition, reg: Registry, p: Caller, q: Caller, i: nat, j: nat)
    requires WellFormed(def, reg) && IdentityField(def, reg, i, j)
    requires Run(def, p).Some? && Run(def, q).Some?
    ensures SameLiteral(Run(def, p).value, Run(def, q).value, i, j)
  {
    IdentityOutcome(def, reg, p, q, i, j);
    RunValues(def, p);
    RunValues(def, q);
    SameResolved(def, Built(def, p).values, Built(def, q).values, i, j);
  }

  // ---- the static view ------------------------------------------------------------------------------

  /** Config dictionaries have one value per key. */
  ghost predicate DictionaryKeys(def: Definition) {
    forall n, j, k :: n in def.nodes && 0 <= j < k < |n.config| ==> n.config[j].key != n.config[k].key
  }

  /** `view` shows every identity field as the run has it. */
  ghost predicate ShowsIdentity(def: Definition, reg: Registry, run: Definition, view: Definition) {
    && |run.nodes| == |view.nodes| == |def.nodes|
    && forall i: nat, j: nat :: IdentityField(def, reg, i, j) ==>
         j < |run.nodes[i].config| && run.nodes[i].config[j] in view.nodes[i].config
  }

  ghost predicate HasIdentityFields(def: Definition, reg: Registry) {
    exists i: nat, j: nat :: IdentityField(def, reg, i, j)
  }

  /**
   * The static view shows the identity of every successful run exactly when resolving at the
   * defaults does not fail: if it fails, every expression is stripped, identity fields too.
   */
  lemma StaticViewExact(def: Definition, reg: Registry, caller: Caller)
    requires WellFormed(def, reg) && DictionaryKeys(def) && Run(def, caller).Some?
    ensures ShowsIdentity(def, reg, Run(def, caller).value, ResolveStatic(def)) <==>
              Run(def, STATIC_CALLER).Some? || !HasIdentityFields(def, reg)
  {
    hide Built, ResolveDefinition;
    RunShape(def, caller);
    if Run(def, STATIC_CALLER).Some? {
      SuccessShowsIdentity(def, reg, caller);
    } else if i: nat, j: nat :| IdentityField(def, reg, i, j) {
      hide Built;
      RunValues(def, caller);
      StripLosesIdentity(def, reg, Built(def, caller).values, i, j);
    }
  }

  lemma SuccessShowsIdentity(def: Definition, reg: Registry, caller: Caller)
    requires WellFormed(def, reg) && Run(def, caller).Some? && Run(def, STATIC_CALLER).Some?
    ensures ShowsIdentity(def, reg, Run(def, caller).value, ResolveStatic(def))
  {
    hide Built;
    var run, view := Run(def, caller).value, ResolveStatic(def);
    assert view == Run(def, STATIC_CALLER).value;
    RunShape(def, caller);
    RunShape(def, STATIC_CALLER);
    forall i: nat, j: nat | IdentityField(def, reg, i, j)
      ensures j < |run.nodes[i].config| && run.nodes[i].config[j] in view.nodes[i].config
    {
      Noninterference(def, reg, caller, STATIC_CALLER, i, j);
    }
  }

  lemma RunShape(def: Definition, caller: Caller)
    requires Run(def, caller).Some?
    ensures |Run(def, caller).value.nodes| == |def.nodes|
  {
    RunValues(def, caller);
    if def.nodes != [] {
      ResolvedNode(def.nodes, Built(def, caller).values, 0);
    }
  }

  lemma StripLosesIdentity(def: Definition, reg: Registry, values: Env, i: nat, j: nat)
    requires DictionaryKeys(def) && ResolveDefinition(def, values).Ok? && IdentityField(def, reg, i, j)
    ensures var run := ResolveDefinition(def, values).value;
            && |run.nodes| == |def.nodes| && |run.nodes[i].config| == |def.nodes[i].config|
            && run.nodes[i].config[j] !in StripExpressions(def).nodes[i].config
  {
    ResolvedAt(def, values, i, j);
    var f, config := ResolveDefinition(def, values).value.nodes[i].config[j], def.nodes[i].config;
    assert def.nodes[i] in def.nodes;
    forall k | 0 <= k < |config| ensures config[k] != f {
      assert k != j ==> config[k].key != config[j].key;
    }
    assert f !in StripFields(config);
  }
}
