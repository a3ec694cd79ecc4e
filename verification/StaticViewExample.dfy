/**
 * A definition that validation accepts and whose static view loses its backend: the default
 * of an ordinary argument makes the depth of the result limit divide by zero, and the fallback
 * strips every expression. The nodes and edges that complete the pipeline hold no expressions.
 */
module StaticViewExample {
  import opened Wrappers
  import opened Expressions
  import opened Variables
  import opened Resolution
  import opened Validation
  import opened Noninterference

  const N := Variable("n", Declaration(IntegerType, None, None, []), InputSource, Some(IntV(0)), None)

  const INDEX_NAME := Field("index_name", Plain(Scalar(StrV("docs"))))

  const TOP_K := Field("top_k", Plain(Scalar(IntV(5))))

  const BACKEND := Field("backend", Tagged(Text(false, Some(Literal(StrV("pinecone"))))))

  const RESOLVED_BACKEND := Field("backend", Plain(Scalar(StrV("pinecone"))))

  const MAX_RESULTS := Field("max_results", Tagged(Text(false, Some(Binary(FloorDiv, Literal(IntV(10)), Name("n"))))))

  const INPUT := Node("in", RETRIEVAL_INPUT, [], Some(["n"]), None)

  const RETRIEVER := Node("ret", "retriever.vector", [INDEX_NAME, TOP_K, BACKEND], None, None)

  const LIMIT := Node("lim", "limit.results", [MAX_RESULTS], None, None)

  const EXAMPLE := Definition([INPUT, RETRIEVER, LIMIT], [N])

  const CATALOG := Registry(
    {("retriever.vector", "index_name"), ("retriever.vector", "namespace"), ("retriever.vector", "backend")},
    map[("retriever.vector", "backend") := StringT, ("limit.results", "max_results") := IntegerT])

  const ASKS_TWO := Caller("", map["n" := Scalar(IntV(2))], None, false)

  const TYPES := map[QUERY := StringT, "n" := IntegerT]

  lemma ExampleInputs(caller: Caller, n: int)
    requires (caller == ASKS_TWO && n == 2) || (caller == STATIC_CALLER && n == 0)
    ensures WithInputs(EXAMPLE, caller) == Build(TYPES, map[QUERY := StrV(""), "n" := IntV(n)], {QUERY, "n"}, map[], [])
  {
    hide Evaluate, References;
    assert EXAMPLE.variables[..0] == [];
    assert InputVariables(EXAMPLE.variables) == [N];
    assert "n" in INPUT.accepts.value && INPUT in EXAMPLE.nodes;
    var accepted := AcceptedArgumentNames(EXAMPLE.nodes);
    assert "n" in accepted;
    assert [N][..|[N]| - 1] == [];
    assert AddInputs(Started(caller), [], accepted, caller) == Started(caller);
    var b := AddInputs(Started(caller), [N], accepted, caller);
    assert b == InputStep(Started(caller), N, accepted, caller);
    assert b.remaining == map[];
  }

  lemma NothingOnPanel(b: Build)
    requires b.types == TYPES
    ensures AddPanel(b, EXAMPLE.variables) == b
  {
    hide Evaluate, References;
    assert EXAMPLE.variables[..0] == [];
    assert Declared(EXAMPLE.variables, b.types.Keys) == [];
  }

  lemma BuiltExample(caller: Caller, n: int)
    requires (caller == ASKS_TWO && n == 2) || (caller == STATIC_CALLER && n == 0)
    ensures Built(EXAMPLE, caller).errors == [] && Built(EXAMPLE, caller).types == TYPES
    ensures Built(EXAMPLE, caller).values == map[QUERY := StrV(""), "n" := IntV(n)]
  {
    hide WithInputs, AddPanel;
    ExampleInputs(caller, n);
    NothingOnPanel(WithInputs(EXAMPLE, caller));
  }

  lemma ExampleTypes()
    ensures StaticTypes(EXAMPLE.variables) == TYPES
  {
    assert EXAMPLE.variables[..0] == [];
  }

  lemma ExampleDeclarations()
    ensures NamesFine(EXAMPLE.variables) && forall v :: v in EXAMPLE.variables ==> DeclarationFine(v)
  {
    assert ValidName("n") && "n" !in RESERVED;
  }

  lemma ExampleFieldsFine(n: Node, f: Field)
    requires n in EXAMPLE.nodes && f in n.config
    ensures FieldFine(EXAMPLE, CATALOG, n, f)
  {
    ExampleTypes();
    assert f == INDEX_NAME || f == TOP_K || f == BACKEND || f == MAX_RESULTS;
  }

  lemma ExampleVariablesFine()
    ensures VariablesFine(EXAMPLE)
  {
    hide Built, CoerceLiteral, NamesFine, DeclarationFine, StaticTypes;
    BuiltExample(STATIC_CALLER, 0);
    ExampleDeclarations();
    ExampleTypes();
    assert N in EXAMPLE.variables && "n" in InputNames(EXAMPLE.variables);
    assert AcceptsFine(EXAMPLE, INPUT) && AcceptsFine(EXAMPLE, RETRIEVER) && AcceptsFine(EXAMPLE, LIMIT);
  }

  lemma ExampleIsWellFormed()
    ensures WellFormed(EXAMPLE, CATALOG) && DictionaryKeys(EXAMPLE)
  {
    ExampleVariablesFine();
    hide VariablesFine, FieldFine;
    forall n, f | n in EXAMPLE.nodes && f in n.config ensures FieldFine(EXAMPLE, CATALOG, n, f) {
      ExampleFieldsFine(n, f);
    }
    assert INDEX_NAME.key != TOP_K.key && BACKEND.key != TOP_K.key && BACKEND.key != INDEX_NAME.key;
  }

  lemma OneMoreField(node: string, fields: seq<Field>, f: Field, values: Env)
    ensures ResolveFields(node, [], values) == ([], [])
    ensures var (before, last) := (ResolveFields(node, fields, values), ResolveField(node, f, values));
            ResolveFields(node, fields + [f], values) == (before.0 + [last.0], before.1 + last.1)
  {
    assert (fields + [f])[..|fields|] == fields;
  }

  lemma OneMoreNode(nodes: seq<Node>, n: Node, values: Env)
    ensures ResolveNodes([], values) == ([], [])
    ensures var (before, last) := (ResolveNodes(nodes, values), ResolveFields(n.id, n.config, values));
            ResolveNodes(nodes + [n], values) == (before.0 + [n.(config := last.0)], before.1 + last.1)
  {
    assert (nodes + [n])[..|nodes|] == nodes;
  }

  /** The retriever resolves whatever `n` is; its literal fields stay and its backend is the constant. */
  lemma RetrieverResolves(values: Env)
    ensures ResolveFields("ret", RETRIEVER.config, values) == ([INDEX_NAME, TOP_K, RESOLVED_BACKEND], [])
  {
    hide ResolveFields;
    OneMoreField("ret", [], INDEX_NAME, values);
    OneMoreField("ret", [INDEX_NAME], TOP_K, values);
    OneMoreField("ret", [INDEX_NAME, TOP_K], BACKEND, values);
    assert [] + [INDEX_NAME] == [INDEX_NAME] && [INDEX_NAME] + [TOP_K] == [INDEX_NAME, TOP_K];
    assert [INDEX_NAME, TOP_K] + [BACKEND] == RETRIEVER.config;
    assert ResolveField("ret", INDEX_NAME, values) == (INDEX_NAME, []);
    assert ResolveFields("ret", [INDEX_NAME], values) == ([INDEX_NAME], []);
    assert ResolveField("ret", TOP_K, values) == (TOP_K, []);
    assert ResolveFields("ret", [INDEX_NAME, TOP_K], values) == ([INDEX_NAME, TOP_K], []);
    assert ResolveField("ret", BACKEND, values) == (RESOLVED_BACKEND, []);
    assert [INDEX_NAME, TOP_K] + [RESOLVED_BACKEND] == [INDEX_NAME, TOP_K, RESOLVED_BACKEND];
  }

  lemma LimitResolves(n: int)
    requires n == 2 || n == 0
    ensures ResolveFields("lim", LIMIT.config, map[QUERY := StrV(""), "n" := IntV(n)]).1 ==
            if n == 0 then [FieldFault("lim", "max_results", Arithmetic)] else []
  {
    assert LIMIT.config[..0] == [];
  }

  lemma ExampleFields(n: int)
    requires n == 2 || n == 0
    ensures var r := ResolveDefinition(EXAMPLE, map[QUERY := StrV(""), "n" := IntV(n)]);
            && (r.Ok? <==> n == 2)
            && (r.Ok? ==> |r.value.nodes| == 3 && r.value.nodes[1].config == [INDEX_NAME, TOP_K, RESOLVED_BACKEND])
  {
    hide ResolveFields, ResolveNodes, ResolveField;
    var values := map[QUERY := StrV(""), "n" := IntV(n)];
    OneMoreField("in", [], INDEX_NAME, values);
    RetrieverResolves(values);
    LimitResolves(n);
    OneMoreNode([], INPUT, values);
    OneMoreNode([INPUT], RETRIEVER, values);
    OneMoreNode([INPUT, RETRIEVER], LIMIT, values);
    assert [] + [INPUT] == [INPUT] && [INPUT] + [RETRIEVER] == [INPUT, RETRIEVER];
    assert [INPUT, RETRIEVER] + [LIMIT] == EXAMPLE.nodes;
  }

  /** What stripping leaves: an index and a depth for the retriever, and nothing for the limit. */
  lemma ExampleStripped()
    ensures var nodes := StripExpressions(EXAMPLE).nodes;
            && |nodes| == 3 && nodes[0] == INPUT
            && nodes[1].config == [INDEX_NAME, TOP_K] && nodes[2].config == []
  {
    hide StripFields;
    NothingStripped();
    StripMore([], INDEX_NAME);
    StripMore([INDEX_NAME], TOP_K);
    StripMore([INDEX_NAME, TOP_K], BACKEND);
    StripMore([], MAX_RESULTS);
    assert [] + [INDEX_NAME] == [INDEX_NAME] && [INDEX_NAME] + [TOP_K] == [INDEX_NAME, TOP_K];
    assert [INDEX_NAME, TOP_K] + [BACKEND] == RETRIEVER.config && [] + [MAX_RESULTS] == LIMIT.config;
  }

  /**
   * A run resolves with the backend of the definition. The static view has no backend: the
   * retriever keeps its index and depth, which its validation hook asks for, and the limit
   * goes back to its default, which needs no depth.
   */
  lemma StaticViewLosesIdentity()
    ensures WellFormed(EXAMPLE, CATALOG) && DictionaryKeys(EXAMPLE)
    ensures var run := Run(EXAMPLE, ASKS_TWO);
            && run.Some? && |run.value.nodes| == 3
            && run.value.nodes[1].config == [INDEX_NAME, TOP_K, RESOLVED_BACKEND]
            && !ShowsIdentity(EXAMPLE, CATALOG, run.value, ResolveStatic(EXAMPLE))
    ensures var view := ResolveStatic(EXAMPLE);
            && |view.nodes| == 3 && view.nodes[0] == INPUT
            && view.nodes[1].config == [INDEX_NAME, TOP_K] && view.nodes[2].config == []
  {
    hide Built, ResolveDefinition, WellFormed, StripExpressions;
    ExampleIsWellFormed();
    BuiltExample(ASKS_TWO, 2);
    BuiltExample(STATIC_CALLER, 0);
    ExampleFields(2);
    ExampleFields(0);
    ExampleStripped();
    assert IdentityField(EXAMPLE, CATALOG, 1, 2);
    StaticViewExact(EXAMPLE, CATALOG, ASKS_TWO);
  }
}
