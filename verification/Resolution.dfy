/** Environments and resolved definitions (app/pipelines/resolution.py). */
module Resolution {
  import opened Wrappers
  import opened Collections
  import opened EvaluationOrder
  import opened Expressions
  import opened Variables

  const RETRIEVAL_INPUT := "retrieval.input"

  /** A config value is plain JSON or a tagged expression `{"$expr": text}`. */
  datatype ConfigValue = Plain(raw: Raw) | Tagged(text: Text)

  datatype Field = Field(key: string, value: ConfigValue)

  /** A named expression that an output node returns beside the results. */
  datatype Output = Output(name: string, expression: Text)

  /**
   * `accepts` is the argument list the config of an input node parses to, and `outputs` what
   * the config of an output node parses to, if it parses.
   */
  datatype Node = Node(
    id: string,
    ty: string,
    config: seq<Field>,
    accepts: Option<seq<string>>,
    outputs: Option<seq<Output>>)

  datatype Definition = Definition(nodes: seq<Node>, variables: seq<Variable>)

  /** The part of `build_environment`'s arguments that comes from the caller. */
  datatype Caller = Caller(query: string, supplied: map<string, Raw>, topK: Option<int>, atDefaults: bool)

  const STATIC_CALLER := Caller("", map[], None, true)

  datatype Problem =
    | UnknownArguments(names: set<string>)
    | MissingArgument(name: string)
    | ArgumentViolation(name: string, violation: Violation)
    | NoValue(name: string)
    | ParseFailure(name: string)
    | Untyped(name: string)
    | EvaluationFault(name: string, fault: Fault)
    | VariableViolation(name: string, violation: Violation)
    | ReferenceCycle(names: set<string>)
    | FieldParseFailure(node: string, key: string)
    | FieldFault(node: string, key: string, fault: Fault)
    | BareModel(node: string, key: string)

  datatype Environment = Environment(types: map<string, ExprType>, values: Env, tainted: set<string>)

  /** The dictionaries and the error list that `build_environment` fills. */
  datatype Build = Build(
    types: map<string, ExprType>,
    values: Env,
    tainted: set<string>,
    remaining: map<string, Raw>,
    errors: seq<Problem>)

  // ---- input variables -----------------------------------------------------------

  function NamesOf(vs: seq<Variable>): set<string> {
    set v | v in vs :: v.name
  }

  /** The input variables in order of declaration; of two with one name the first wins. */
  function InputVariables(vs: seq<Variable>): (r: seq<Variable>)
    ensures forall v :: v in r ==> v in vs && v.source == InputSource
  {
    if vs == [] then []
    else
      var before, v := InputVariables(vs[..|vs| - 1]), vs[|vs| - 1];
      if v.source == InputSource && v.name !in NamesOf(before) then before + [v] else before
  }

  /** `r` holds the first of the chosen variables with each name, unless the name is taken. */
  ghost predicate FirstOfEach(vs: seq<Variable>, inputs: bool, taken: set<string>, r: seq<Variable>) {
    forall v :: v in r <==> v.name !in taken && FirstSomewhere(vs, inputs, v)
  }

  ghost predicate FirstSomewhere(vs: seq<Variable>, inputs: bool, v: Variable) {
    exists k: nat :: IsFirst(vs, inputs, v, k)
  }

  ghost predicate IsFirst(vs: seq<Variable>, inputs: bool, v: Variable, k: nat) {
    && k < |vs| && vs[k] == v && (v.source == InputSource <==> inputs)
    && forall j :: 0 <= j < k && vs[j].name == v.name ==> (vs[j].source == InputSource <==> !inputs)
  }

  lemma {:induction false} InputsAreFirst(vs: seq<Variable>)
    ensures FirstOfEach(vs, true, {}, InputVariables(vs))
  {
    if vs != [] {
      var n := |vs| - 1;
      InputsAreFirst(vs[..n]);
      FirstMore(vs, true, {}, InputVariables(vs[..n]));
    }
  }

  lemma FirstMore(vs: seq<Variable>, inputs: bool, taken: set<string>, before: seq<Variable>)
    requires vs != [] && FirstOfEach(vs[..|vs| - 1], inputs, taken, before)
    ensures var v := vs[|vs| - 1];
            FirstOfEach(vs, inputs, taken,
                        if (v.source == InputSource <==> inputs) && v.name !in taken && v.name !in NamesOf(before)
                        then before + [v] else before)
  {
    hide FirstSomewhere, IsFirst;
    var n := |vs| - 1;
    var v := vs[n];
    if v.name !in taken {
      NoneBefore(vs[..n], inputs, taken, before, v.name);
      LastIsFirst(vs, inputs);
    }
    forall u ensures FirstSomewhere(vs, inputs, u) <==> FirstSomewhere(vs[..n], inputs, u) || (u == v && IsFirst(vs, inputs, v, n)) {
      FirstShorter(vs, inputs, u);
    }
  }

  lemma LastIsFirst(vs: seq<Variable>, inputs: bool)
    requires vs != []
    ensures var (n, v) := (|vs| - 1, vs[|vs| - 1]);
            IsFirst(vs, inputs, v, n) <==>
              && (v.source == InputSource <==> inputs)
              && !exists j :: 0 <= j < n && vs[..n][j].name == v.name && (vs[..n][j].source == InputSource <==> inputs)
  {
    var n := |vs| - 1;
    assert forall j :: 0 <= j < n ==> vs[..n][j] == vs[j];
  }

  lemma FirstShorter(vs: seq<Variable>, inputs: bool, u: Variable)
    requires vs != []
    ensures var (n, v) := (|vs| - 1, vs[|vs| - 1]);
            FirstSomewhere(vs, inputs, u) <==> FirstSomewhere(vs[..n], inputs, u) || (u == v && IsFirst(vs, inputs, v, n))
  {
    var n := |vs| - 1;
    forall k: nat | k < n ensures IsFirst(vs, inputs, u, k) <==> IsFirst(vs[..n], inputs, u, k) {
      assert forall j :: 0 <= j < n ==> vs[..n][j] == vs[j];
    }
  }

  lemma NoneBefore(vs: seq<Variable>, inputs: bool, taken: set<string>, before: seq<Variable>, x: string)
    requires FirstOfEach(vs, inputs, taken, before) && x !in taken
    ensures x in NamesOf(before) <==> exists j :: 0 <= j < |vs| && vs[j].name == x && (vs[j].source == InputSource <==> inputs)
  {
    if j: nat :| j < |vs| && vs[j].name == x && (vs[j].source == InputSource <==> inputs) {
      var k := FirstIndex(vs, inputs, x, j);
      assert vs[k] in before;
    }
    if x in NamesOf(before) {
      var v :| v in before && v.name == x;
      var k: nat :| IsFirst(vs, inputs, v, k);
    }
  }

  lemma {:induction false} FirstIndex(vs: seq<Variable>, inputs: bool, x: string, j: nat) returns (k: nat)
    requires j < |vs| && vs[j].name == x && (vs[j].source == InputSource <==> inputs)
    ensures k < |vs| && vs[k].name == x && IsFirst(vs, inputs, vs[k], k)
    decreases j
  {
    if i: nat :| i < j && vs[i].name == x && (vs[i].source == InputSource <==> inputs) {
      k := FirstIndex(vs, inputs, x, i);
    } else {
      k := j;
    }
  }

  function AcceptedArgumentNames(nodes: seq<Node>): set<string> {
    set n, name | n in nodes && n.ty == RETRIEVAL_INPUT && n.accepts.Some? && name in n.accepts.value :: name
  }

  /** One argument's value, when there is one, and the problems met on the way. */
  function ArgumentValue(a: InputArgument, remaining: map<string, Raw>, caller: Caller): (Option<Value>, seq<Problem>) {
    if a.name in remaining then CoerceArgument(a, remaining[a.name])
    else if a.name == "result_limit" && caller.topK.Some? then CoerceArgument(a, Scalar(IntV(caller.topK.value)))
    else if caller.atDefaults then (Some(StaticPlaceholder(a)), [])
    else if a.default.Some? then CoerceArgument(a, Scalar(a.default.value))
    else if a.required then (None, [MissingArgument(a.name)])
    else (Some(StaticPlaceholder(a)), [])
  }

  function CoerceArgument(a: InputArgument, raw: Raw): (Option<Value>, seq<Problem>) {
    match CoerceLiteral(a.decl, raw)
    case Ok(v) => (Some(v), [])
    case Err(violation) => (None, [ArgumentViolation(a.name, violation)])
  }

  function InputStep(b: Build, v: Variable, accepted: set<string>, caller: Caller): Build {
    if v.name in b.types then b.(remaining := b.remaining - {v.name})
    else
      var a := AsInputArgument(v);
      var (value, problems) :=
        if v.name in accepted then ArgumentValue(a, b.remaining, caller) else (Some(StaticPlaceholder(a)), []);
      Build(
        b.types[v.name := ExprTypeOf(v.decl.ty)],
        if value.Some? then b.values[v.name := value.value] else b.values,
        b.tainted + {v.name},
        if v.name in accepted then b.remaining - {v.name} else b.remaining,
        b.errors + problems)
  }

  function AddInputs(b: Build, vs: seq<Variable>, accepted: set<string>, caller: Caller): Build {
    if vs == [] then b
    else InputStep(AddInputs(b, vs[..|vs| - 1], accepted, caller), vs[|vs| - 1], accepted, caller)
  }

  // ---- panel variables -------------------------------------------------------------

  /** The non-input variables whose names are still free; of two with one name the first wins. */
  function Declared(vs: seq<Variable>, taken: set<string>): (r: seq<Variable>)
    ensures forall v :: v in r ==> v in vs && v.source != InputSource
  {
    if vs == [] then []
    else
      var before, v := Declared(vs[..|vs| - 1], taken), vs[|vs| - 1];
      if v.source != InputSource && v.name !in taken && v.name !in NamesOf(before)
      then before + [v] else before
  }

  lemma {:induction false} DeclaredAreFirst(vs: seq<Variable>, taken: set<string>)
    ensures FirstOfEach(vs, false, taken, Declared(vs, taken))
  {
    if vs != [] {
      var n := |vs| - 1;
      DeclaredAreFirst(vs[..n], taken);
      FirstMore(vs, false, taken, Declared(vs[..n], taken));
    }
  }

  function TypesOf(types: map<string, ExprType>, vs: seq<Variable>): map<string, ExprType> {
    if vs == [] then types
    else TypesOf(types, vs[..|vs| - 1])[vs[|vs| - 1].name := ExprTypeOf(vs[|vs| - 1].decl.ty)]
  }

  /** Validates a constant; a derived variable that does not parse is reported instead. */
  function ConstantStep(b: Build, v: Variable): Build {
    if v.expression.Some? then
      if v.expression.value.parsed.Some? then b else b.(errors := b.errors + [ParseFailure(v.name)])
    else if v.value.None? then b.(errors := b.errors + [NoValue(v.name)])
    else
      match CoerceLiteral(v.decl, Scalar(v.value.value))
      case Ok(value) => b.(values := b.values[v.name := value])
      case Err(violation) => b.(errors := b.errors + [VariableViolation(v.name, violation)])
  }

  function AddConstants(b: Build, vs: seq<Variable>): Build {
    if vs == [] then b else ConstantStep(AddConstants(b, vs[..|vs| - 1]), vs[|vs| - 1])
  }

  /** A derived variable together with its parsed expression. */
  datatype Derived = Derived(variable: Variable, expr: Expr)

  predicate Parses(v: Variable) {
    v.expression.Some? && v.expression.value.parsed.Some?
  }

  function ParsedNames(vs: seq<Variable>): (names: seq<string>)
    ensures forall x :: x in names <==> exists v :: v in vs && Parses(v) && v.name == x
  {
    if vs == [] then []
    else
      var before, v := ParsedNames(vs[..|vs| - 1]), vs[|vs| - 1];
      assert vs == vs[..|vs| - 1] + [v];
      if Parses(v) then before + [v.name] else before
  }

  function ParsedMap(vs: seq<Variable>): (m: map<string, Derived>)
    ensures forall x :: x in m ==> m[x].variable in vs && Parses(m[x].variable) && m[x].variable.name == x
                                   && m[x].expr == m[x].variable.expression.value.parsed.value
    ensures forall x :: x in m <==> x in ParsedNames(vs)
  {
    if vs == [] then map[]
    else
      var before, v := ParsedMap(vs[..|vs| - 1]), vs[|vs| - 1];
      if Parses(v) then before[v.name := Derived(v, v.expression.value.parsed.value)] else before
  }

  /** The references among derived variables: the edges that order them. */
  function Dependencies(parsed: map<string, Derived>): map<string, set<string>> {
    map x | x in parsed :: References(parsed[x].expr) * parsed.Keys
  }

  function EvaluateStep(b: Build, d: Derived): Build {
    var name := d.variable.name;
    var marked := b.(tainted := if References(d.expr) !! b.tainted then b.tainted else b.tainted + {name});
    if CheckType(d.expr, b.types).None? then marked.(errors := b.errors + [Untyped(name)])
    else
      match Evaluate(d.expr, b.values)
      case Err(fault) => marked.(errors := b.errors + [EvaluationFault(name, fault)])
      case Ok(value) =>
        match CoerceLiteral(d.variable.decl, Scalar(value))
        case Err(violation) => marked.(errors := b.errors + [VariableViolation(name, violation)])
        case Ok(coerced) => marked.(values := b.values[name := coerced])
  }

  function EvaluateAll(b: Build, parsed: map<string, Derived>, order: seq<string>): Build
    requires forall x :: x in order ==> x in parsed
  {
    if order == [] then b
    else EvaluateStep(EvaluateAll(b, parsed, order[..|order| - 1]), parsed[order[|order| - 1]])
  }

  // ---- the whole environment -----------------------------------------------------

  function CycleErrors(left: seq<string>): seq<Problem> {
    if left == [] then [] else [ReferenceCycle(Elements(left))]
  }

  function Started(caller: Caller): Build {
    Build(map[QUERY := StringT], map[QUERY := StrV(caller.query)], {QUERY}, caller.supplied, [])
  }

  function WithInputs(def: Definition, caller: Caller): Build {
    var b := AddInputs(Started(caller), InputVariables(def.variables), AcceptedArgumentNames(def.nodes), caller);
    if b.remaining == map[] then b else b.(errors := b.errors + [UnknownArguments(b.remaining.Keys)])
  }

  function WithConstants(b: Build, declared: seq<Variable>): Build {
    AddConstants(b.(types := TypesOf(b.types, declared)), declared)
  }

  function AddPanel(b: Build, vs: seq<Variable>): Build {
    var declared := Declared(vs, b.types.Keys);
    var parsed := ParsedMap(declared);
    var (order, left) := Rounds(ParsedNames(declared), Dependencies(parsed), []);
    var c := WithConstants(b, declared);
    EvaluateAll(c.(errors := c.errors + CycleErrors(left)), parsed, order)
  }

  function Built(def: Definition, caller: Caller): Build {
    AddPanel(WithInputs(def, caller), def.variables)
  }

  function BuildEnvironment(def: Definition, caller: Caller): Result<Environment, seq<Problem>> {
    var b := Built(def, caller);
    if b.errors != [] then Err(b.errors) else Ok(Environment(b.types, b.values, b.tainted))
  }

  // ---- definitions -----------------------------------------------------------------

  /** One config field with its expression evaluated, or the problem that prevents it. */
  function ResolveField(node: string, f: Field, values: Env): (Field, seq<Problem>) {
    if f.value.Plain? then (f, [])
    else if f.value.text.parsed.None? then (f, [FieldParseFailure(node, f.key)])
    else
      match Evaluate(f.value.text.parsed.value, values)
      case Err(fault) => (f, [FieldFault(node, f.key, fault)])
      case Ok(v) => if v.ModelV? then (f, [BareModel(node, f.key)]) else (Field(f.key, Plain(Scalar(v))), [])
  }

  function ResolveFields(node: string, fields: seq<Field>, values: Env): (seq<Field>, seq<Problem>) {
    if fields == [] then ([], [])
    else
      var n := |fields| - 1;
      var before, last := ResolveFields(node, fields[..n], values), ResolveField(node, fields[n], values);
      (before.0 + [last.0], before.1 + last.1)
  }

  function ResolveNodes(nodes: seq<Node>, values: Env): (seq<Node>, seq<Problem>) {
    if nodes == [] then ([], [])
    else
      var n := |nodes| - 1;
      var before, last := ResolveNodes(nodes[..n], values), ResolveFields(nodes[n].id, nodes[n].config, values);
      (before.0 + [nodes[n].(config := last.0)], before.1 + last.1)
  }

  function ResolveDefinition(def: Definition, values: Env): Result<Definition, seq<Problem>> {
    var (nodes, problems) := ResolveNodes(def.nodes, values);
    if problems != [] then Err(problems) else Ok(def.(nodes := nodes))
  }

  /** `strip_expressions` tests the source text for truth, so an empty one is kept. */
  predicate Stripped(f: Field) {
    f.value.Tagged? && !f.value.text.empty
  }

  function StripFields(fields: seq<Field>): (r: seq<Field>)
    ensures forall f :: f in r <==> f in fields && (f.value.Plain? || f.value.text.empty)
  {
    if fields == [] then []
    else
      var n := |fields| - 1;
      assert fields == fields[..n] + [fields[n]];
      StripFields(fields[..n]) + if Stripped(fields[n]) then [] else [fields[n]]
  }

  lemma NothingStripped()
    ensures StripFields([]) == []
  {
  }

  lemma StripMore(a: seq<Field>, f: Field)
    ensures StripFields(a + [f]) == StripFields(a) + if Stripped(f) then [] else [f]
  {
    assert (a + [f])[..|a|] == a;
  }

  /** Stripping treats each part on its own, so what is kept stays in its order, as often as it stood there. */
  lemma {:induction false} StripInOrder(a: seq<Field>, b: seq<Field>)
    ensures StripFields(a + b) == StripFields(a) + StripFields(b)
    decreases |b|
  {
    hide Stripped, StripFields;
    if b == [] {
      NothingStripped();
      assert a + b == a;
    } else {
      var front, last := b[..|b| - 1], b[|b| - 1];
      assert b == front + [last] && a + b == (a + front) + [last];
      StripMore(a + front, last);
      StripMore(front, last);
      StripInOrder(a, front);
    }
  }

  function StripExpressions(def: Definition): Definition {
    def.(nodes := seq(|def.nodes|, i requires 0 <= i < |def.nodes| =>
                        def.nodes[i].(config := StripFields(def.nodes[i].config))))
  }

  /** The view of a definition that settings and purge targets are computed from. */
  function ResolveStatic(def: Definition): Definition {
    match BuildEnvironment(def, STATIC_CALLER)
    case Err(_) => StripExpressions(def)
    case Ok(env) =>
      match ResolveDefinition(def, env.values)
      case Err(_) => StripExpressions(def)
      case Ok(resolved) => resolved
  }

  // ---- the loops that compute them ---------------------------------------------------

  method ComputeEnvironment(def: Definition, caller: Caller) returns (r: Result<Environment, seq<Problem>>)
    ensures r == BuildEnvironment(def, caller)
  {
    var b := Started(caller);
    var inputs, accepted := InputVariables(def.variables), AcceptedArgumentNames(def.nodes);
    for i := 0 to |inputs|
      invariant b == AddInputs(Started(caller), inputs[..i], accepted, caller)
    {
      assert inputs[..i + 1][..i] == inputs[..i];
      b := InputStep(b, inputs[i], accepted, caller);
    }
    assert inputs[..|inputs|] == inputs;
    if b.remaining != map[] {
      b := b.(errors := b.errors + [UnknownArguments(b.remaining.Keys)]);
    }
    b := ComputePanel(b, def.variables);
    r := if b.errors != [] then Err(b.errors) else Ok(Environment(b.types, b.values, b.tainted));
  }

  method ComputePanel(start: Build, vs: seq<Variable>) returns (b: Build)
    ensures b == AddPanel(start, vs)
  {
    var declared := Declared(vs, start.types.Keys);
    b := ComputeConstants(start.(types := TypesOf(start.types, declared)), declared);
    var parsed := ParsedMap(declared);
    DeclaredNamesDistinct(vs, start.types.Keys);
    ParsedNamesDistinct(declared);
    var order, left := OrderNames(ParsedNames(declared), Dependencies(parsed));
    b := ComputeDerived(b.(errors := b.errors + CycleErrors(left)), parsed, order);
  }

  method ComputeConstants(start: Build, declared: seq<Variable>) returns (b: Build)
    ensures b == AddConstants(start, declared)
  {
    b := start;
    for i := 0 to |declared|
      invariant b == AddConstants(start, declared[..i])
    {
      assert declared[..i + 1][..i] == declared[..i];
      b := ConstantStep(b, declared[i]);
    }
    assert declared[..|declared|] == declared;
  }

  method ComputeDerived(start: Build, parsed: map<string, Derived>, order: seq<string>) returns (b: Build)
    requires forall x :: x in order ==> x in parsed
    ensures b == EvaluateAll(start, parsed, order)
  {
    b := start;
    for i := 0 to |order|
      invariant b == EvaluateAll(start, parsed, order[..i])
    {
      assert order[..i + 1][..i] == order[..i];
      b := EvaluateStep(b, parsed[order[i]]);
    }
    assert order[..|order|] == order;
  }

  method ComputeResolved(def: Definition, values: Env) returns (r: Result<Definition, seq<Problem>>)
    ensures r == ResolveDefinition(def, values)
  {
    var nodes: seq<Node>, errors: seq<Problem> := [], [];
    for i := 0 to |def.nodes|
      invariant (nodes, errors) == ResolveNodes(def.nodes[..i], values)
    {
      assert def.nodes[..i + 1][..i] == def.nodes[..i];
      var config, problems := ComputeFields(def.nodes[i].id, def.nodes[i].config, values);
      nodes, errors := nodes + [def.nodes[i].(config := config)], errors + problems;
    }
    assert def.nodes[..|def.nodes|] == def.nodes;
    r := if errors != [] then Err(errors) else Ok(def.(nodes := nodes));
  }

  method ComputeFields(node: string, fields: seq<Field>, values: Env)
    returns (config: seq<Field>, problems: seq<Problem>)
    ensures (config, problems) == ResolveFields(node, fields, values)
  {
    config, problems := [], [];
    for j := 0 to |fields|
      invariant (config, problems) == ResolveFields(node, fields[..j], values)
    {
      assert fields[..j + 1][..j] == fields[..j];
      var (field, found) := ResolveField(node, fields[j], values);
      config, problems := config + [field], problems + found;
    }
    assert fields[..|fields|] == fields;
  }

  // ---- resolution, field by field ------------------------------------------------------

  lemma {:induction false} ResolvedField(node: string, fields: seq<Field>, values: Env, j: nat)
    requires j < |fields|
    ensures var (config, problems) := ResolveFields(node, fields, values);
            && |config| == |fields| && config[j] == ResolveField(node, fields[j], values).0
            && (problems == [] ==> ResolveField(node, fields[j], values).1 == [])
    decreases |fields|
  {
    var n := |fields| - 1;
    if n > 0 {
      ResolvedField(node, fields[..n], values, if j < n then j else n - 1);
    }
  }

  lemma {:induction false} ResolvedNode(nodes: seq<Node>, values: Env, i: nat)
    requires i < |nodes|
    ensures var (resolved, problems) := ResolveNodes(nodes, values);
            var (config, found) := ResolveFields(nodes[i].id, nodes[i].config, values);
            && |resolved| == |nodes| && resolved[i] == nodes[i].(config := config)
            && (problems == [] ==> found == [])
    decreases |nodes|
  {
    var n := |nodes| - 1;
    if n > 0 {
      ResolvedNode(nodes[..n], values, if i < n then i else n - 1);
    }
  }

  /** A literal resolves to itself, an expression to the value it has in the environment, unless that is a model. */
  predicate ResolvesTo(f: Field, values: Env, f': Field) {
    if f.value.Plain? then f' == f
    else
      && f.value.text.parsed.Some? && f'.key == f.key && f'.value.Plain? && f'.value.raw.Scalar?
      && !f'.value.raw.value.ModelV? && Evaluate(f.value.text.parsed.value, values) == Ok(f'.value.raw.value)
  }

  ghost predicate FieldResolves(f: Field, values: Env) {
    exists f' :: ResolvesTo(f, values, f')
  }

  ghost predicate Resolvable(n: Node, values: Env) {
    forall j :: 0 <= j < |n.config| ==> FieldResolves(n.config[j], values)
  }

  /** Every field in its place resolves to what stands there; all else stays. */
  ghost predicate ResolvedAs(def: Definition, values: Env, r: Definition) {
    && r.variables == def.variables && |r.nodes| == |def.nodes|
    && forall i :: 0 <= i < |def.nodes| ==> NodeResolved(def.nodes[i], values, r.nodes[i])
  }

  ghost predicate NodeResolved(n: Node, values: Env, r: Node) {
    && r == n.(config := r.config) && |r.config| == |n.config|
    && forall j :: 0 <= j < |n.config| ==> ResolvesTo(n.config[j], values, r.config[j])
  }

  lemma FieldExact(node: string, f: Field, values: Env)
    ensures var (f', problems) := ResolveField(node, f, values);
            && (problems == [] <==> FieldResolves(f, values))
            && (problems == [] ==> ResolvesTo(f, values, f'))
  {
    hide Evaluate;
    var (f', problems) := ResolveField(node, f, values);
    if problems == [] {
      assert ResolvesTo(f, values, f');
    }
  }

  /** Resolution succeeds exactly when every field resolves, and puts each result in its place. */
  lemma ResolutionExact(def: Definition, values: Env)
    ensures var r := ResolveDefinition(def, values);
            (r.Ok? <==> forall i :: 0 <= i < |def.nodes| ==> Resolvable(def.nodes[i], values)) && (r.Ok? ==> ResolvedAs(def, values, r.value))
  {
    hide ResolveField, ResolveFields, ResolvesTo, FieldResolves;
    var r := ResolveDefinition(def, values);
    if r.Ok? {
      forall i | 0 <= i < |def.nodes|
        ensures |r.value.nodes| == |def.nodes| && NodeResolved(def.nodes[i], values, r.value.nodes[i])
        ensures Resolvable(def.nodes[i], values)
      {
        NodeExact(def, values, i);
      }
      NoNodes(def.nodes, values);
    } else {
      var p := r.error[0];
      var i := NodeOfProblem(def.nodes, values, p);
      var j := FieldOfProblem(def.nodes[i].id, def.nodes[i].config, values, p);
      FieldExact(def.nodes[i].id, def.nodes[i].config[j], values);
    }
  }

  lemma NodeExact(def: Definition, values: Env, i: nat)
    requires i < |def.nodes| && ResolveDefinition(def, values).Ok?
    ensures var r := ResolveDefinition(def, values).value;
            && |r.nodes| == |def.nodes| && NodeResolved(def.nodes[i], values, r.nodes[i])
            && Resolvable(def.nodes[i], values)
  {
    hide ResolveField, ResolveFields, ResolvesTo, FieldResolves;
    var r, n := ResolveDefinition(def, values).value, def.nodes[i];
    ResolvedNode(def.nodes, values, i);
    FieldsInPlace(n.id, n.config, values);
    forall j | 0 <= j < |n.config|
      ensures |r.nodes[i].config| == |n.config| && ResolvesTo(n.config[j], values, r.nodes[i].config[j])
      ensures FieldResolves(n.config[j], values)
    {
      ResolvedField(n.id, n.config, values, j);
      FieldExact(n.id, n.config[j], values);
    }
  }

  lemma {:induction false} FieldsInPlace(node: string, fields: seq<Field>, values: Env)
    ensures |ResolveFields(node, fields, values).0| == |fields|
  {
    if fields != [] {
      FieldsInPlace(node, fields[..|fields| - 1], values);
    }
  }

  lemma NoNodes(nodes: seq<Node>, values: Env)
    ensures nodes == [] ==> ResolveNodes(nodes, values) == ([], [])
  {
  }

  /** A problem comes from some field of some node. */
  lemma {:induction false} FieldOfProblem(node: string, fields: seq<Field>, values: Env, p: Problem) returns (j: nat)
    requires p in ResolveFields(node, fields, values).1
    ensures j < |fields| && p in ResolveField(node, fields[j], values).1
  {
    var n := |fields| - 1;
    if p in ResolveField(node, fields[n], values).1 {
      j := n;
    } else {
      j := FieldOfProblem(node, fields[..n], values, p);
    }
  }

  lemma {:induction false} NodeOfProblem(nodes: seq<Node>, values: Env, p: Problem) returns (i: nat)
    requires p in ResolveNodes(nodes, values).1
    ensures i < |nodes| && p in ResolveFields(nodes[i].id, nodes[i].config, values).1
  {
    var n := |nodes| - 1;
    if p in ResolveFields(nodes[n].id, nodes[n].config, values).1 {
      i := n;
    } else {
      i := NodeOfProblem(nodes[..n], values, p);
    }
  }

  // ---- names stay distinct ------------------------------------------------------------

  ghost predicate DistinctNames(vs: seq<Variable>) {
    forall i, j :: 0 <= i < j < |vs| ==> vs[i].name != vs[j].name
  }

  lemma {:induction false} DeclaredNamesDistinct(vs: seq<Variable>, taken: set<string>)
    ensures DistinctNames(Declared(vs, taken))
  {
    if vs != [] {
      DeclaredNamesDistinct(vs[..|vs| - 1], taken);
    }
  }

  lemma {:induction false} ParsedNamesDistinct(vs: seq<Variable>)
    requires DistinctNames(vs)
    ensures Distinct(ParsedNames(vs))
  {
    if vs != [] {
      var n := |vs| - 1;
      ParsedNamesDistinct(vs[..n]);
      assert forall v :: v in vs[..n] ==> v.name != vs[n].name;
      assert vs[n].name !in ParsedNames(vs[..n]);
    }
  }
}
