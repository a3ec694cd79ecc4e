/** What `build_environment` computes for a definition whose variables are in order. */
module Environments {
  import opened EvaluationOrder
  import opened Expressions
  import opened Variables
  import opened Resolution
  import opened Validation

  // ---- which variables enter the environment ----------------------------------------------

  lemma {:induction false} InputsExact(vs: seq<Variable>)
    requires DistinctNames(vs)
    ensures DistinctNames(InputVariables(vs))
    ensures forall v :: v in InputVariables(vs) <==> v in vs && v.source == InputSource
  {
    if vs != [] {
      var n := |vs| - 1;
      InputsExact(vs[..n]);
      assert vs == vs[..n] + [vs[n]];
      forall v | v in InputVariables(vs[..n]) ensures v.name != vs[n].name {
        assert v in vs[..n];
      }
    }
  }

  lemma {:induction false} DeclaredExact(vs: seq<Variable>, taken: set<string>)
    requires DistinctNames(vs)
    ensures forall v :: v in Declared(vs, taken) <==> v in vs && v.source != InputSource && v.name !in taken
  {
    if vs != [] {
      var n := |vs| - 1;
      DeclaredExact(vs[..n], taken);
      assert vs == vs[..n] + [vs[n]];
      forall v | v in Declared(vs[..n], taken) ensures v.name != vs[n].name {
        assert v in vs[..n];
      }
    }
  }

  lemma SameName(vs: seq<Variable>, u: Variable, v: Variable)
    requires DistinctNames(vs) && u in vs && v in vs && u.name == v.name
    ensures u == v
  {
  }

  // ---- types ---------------------------------------------------------------------------------

  /** `types` declares `query` and exactly the variables of `vs`, each with its own type. */
  ghost predicate Declares(types: map<string, ExprType>, vs: seq<Variable>) {
    && types.Keys == {QUERY} + NamesOf(vs)
    && types[QUERY] == StringT
    && forall v :: v in vs ==> types[v.name] == ExprTypeOf(v.decl.ty)
  }

  ghost predicate NamesApart(vs: seq<Variable>) {
    DistinctNames(vs) && forall v :: v in vs ==> v.name != QUERY
  }

  lemma {:induction false} StaticTypesDeclare(vs: seq<Variable>)
    requires NamesApart(vs)
    ensures Declares(StaticTypes(vs), vs)
  {
    if vs != [] {
      var n := |vs| - 1;
      StaticTypesDeclare(vs[..n]);
      DeclaresStep(StaticTypes(vs[..n]), vs);
    }
  }

  lemma DeclaresStep(types: map<string, ExprType>, vs: seq<Variable>)
    requires NamesApart(vs) && vs != [] && Declares(types, vs[..|vs| - 1])
    ensures var v := vs[|vs| - 1];
            v.name !in types && Declares(types[v.name := ExprTypeOf(v.decl.ty)], vs)
  {
    var n := |vs| - 1;
    assert vs == vs[..n] + [vs[n]];
    forall u | u in vs[..n] ensures u.name != vs[n].name {
      var i :| 0 <= i < n && vs[i] == u;
    }
    assert NamesOf(vs) == NamesOf(vs[..n]) + {vs[n].name};
  }

  /** The input loop: types, taint and, as long as nothing is reported, values of the right type. */
  lemma {:induction false} InputsEntered(caller: Caller, ins: seq<Variable>, accepted: set<string>)
    requires NamesApart(ins)
    ensures var b := AddInputs(Started(caller), ins, accepted, caller);
            Declares(b.types, ins) && b.tainted == {QUERY} + NamesOf(ins)
  {
    if ins != [] {
      var n := |ins| - 1;
      InputsEntered(caller, ins[..n], accepted);
      DeclaresStep(AddInputs(Started(caller), ins[..n], accepted, caller).types, ins);
    }
  }

  lemma {:induction false} TypesOfDeclare(types: map<string, ExprType>, declared: seq<Variable>, vs: seq<Variable>)
    requires NamesApart(vs) && NamesApart(declared) && forall v :: v in declared ==> v in vs
    requires QUERY in types && types[QUERY] == StringT && types.Keys <= {QUERY} + NamesOf(vs)
    requires forall v :: v in vs && v.name in types ==> types[v.name] == ExprTypeOf(v.decl.ty)
    ensures var r := TypesOf(types, declared);
            && r.Keys == types.Keys + NamesOf(declared) && r[QUERY] == StringT
            && forall v :: v in vs && v.name in r ==> r[v.name] == ExprTypeOf(v.decl.ty)
  {
    if declared != [] {
      var n := |declared| - 1;
      assert declared == declared[..n] + [declared[n]];
      TypesOfDeclare(types, declared[..n], vs);
      forall v | v in vs && v.name == declared[n].name ensures v == declared[n] {
        SameName(vs, v, declared[n]);
      }
    }
  }

  lemma {:induction false} ConstantsKeep(b: Build, vs: seq<Variable>)
    ensures AddConstants(b, vs).types == b.types && AddConstants(b, vs).tainted == b.tainted
  {
    if vs != [] {
      ConstantsKeep(b, vs[..|vs| - 1]);
    }
  }

  lemma {:induction false} EvaluationKeepsTypes(b: Build, parsed: map<string, Derived>, order: seq<string>)
    requires forall x :: x in order ==> x in parsed
    ensures EvaluateAll(b, parsed, order).types == b.types
  {
    if order != [] {
      EvaluationKeepsTypes(b, parsed, order[..|order| - 1]);
    }
  }

  lemma InputTypesOnly(vs: seq<Variable>, types: map<string, ExprType>)
    requires NamesApart(vs) && Declares(types, InputVariables(vs))
    ensures types.Keys == CallerNames(vs)
    ensures forall v :: v in vs ==> (v.name in types <==> v.source == InputSource)
    ensures forall v :: v in vs && v.name in types ==> types[v.name] == ExprTypeOf(v.decl.ty)
  {
    var ins := InputVariables(vs);
    InputsExact(vs);
    assert NamesOf(ins) == InputNames(vs);
    forall v | v in vs && v.name in types ensures v in ins {
      var u :| u in ins && u.name == v.name;
      SameName(vs, u, v);
    }
  }

  lemma DeclaredEqual(r: map<string, ExprType>, t: map<string, ExprType>, vs: seq<Variable>)
    requires Declares(r, vs) && Declares(t, vs)
    ensures r == t
  {
    forall x | x in r ensures r[x] == t[x] {
      if x != QUERY {
        var v :| v in vs && v.name == x;
      }
    }
  }

  lemma PanelTypes(vs: seq<Variable>, types: map<string, ExprType>)
    requires NamesApart(vs) && Declares(types, InputVariables(vs))
    ensures var declared := Declared(vs, types.Keys);
            && NamesApart(declared)
            && (forall v :: v in declared <==> v in vs && v.source != InputSource)
            && TypesOf(types, declared) == StaticTypes(vs)
  {
    var declared := Declared(vs, types.Keys);
    InputTypesOnly(vs, types);
    DeclaredNamesDistinct(vs, types.Keys);
    DeclaredExact(vs, types.Keys);
    TypesOfDeclare(types, declared, vs);
    StaticTypesDeclare(vs);
    assert NamesOf(vs) == InputNames(vs) + NamesOf(declared);
    DeclaredEqual(TypesOf(types, declared), StaticTypes(vs), vs);
  }

  lemma PanelExact(def: Definition, caller: Caller)
    requires NamesApart(def.variables)
    ensures var b := WithInputs(def, caller);
            var declared := Declared(def.variables, b.types.Keys);
            && Declares(b.types, InputVariables(def.variables)) && b.tainted == CallerNames(def.variables)
            && NamesApart(declared)
            && (forall v :: v in declared <==> v in def.variables && v.source != InputSource)
            && TypesOf(b.types, declared) == StaticTypes(def.variables)
  {
    InputsExact(def.variables);
    InputsEntered(caller, InputVariables(def.variables), AcceptedArgumentNames(def.nodes));
    InputTypesOnly(def.variables, WithInputs(def, caller).types);
    PanelTypes(def.variables, WithInputs(def, caller).types);
  }

  /** Whoever calls, the environment has the types the validator checked against. */
  lemma BuiltTypes(def: Definition, caller: Caller)
    requires NamesApart(def.variables)
    ensures Built(def, caller).types == StaticTypes(def.variables)
  {
    PanelExact(def, caller);
    var b := WithInputs(def, caller);
    var declared := Declared(def.variables, b.types.Keys);
    var parsed := ParsedMap(declared);
    var (order, left) := Rounds(ParsedNames(declared), Dependencies(parsed), []);
    var c := WithConstants(b, declared);
    ConstantsKeep(b.(types := TypesOf(b.types, declared)), declared);
    EvaluationKeepsTypes(c.(errors := c.errors + CycleErrors(left)), parsed, order);
  }
}
