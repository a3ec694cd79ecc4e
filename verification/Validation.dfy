/**
 * Static validation of variables and config expressions
 * (app/pipelines/validation_variables.py, app/pipelines/validation_declarations.py).
 */
module Validation {
  import opened Wrappers
  import opened Collections
  import opened EvaluationOrder
  import opened Expressions
  import opened Variables
  import opened Resolution

  /** What the node catalog says of a config field, by node type and key. */
  datatype Registry = Registry(staticOnly: set<(string, string)>, expected: map<(string, string), ExprType>)

  datatype Issue =
    | InvalidName(name: string) | ReservedName(name: string) | DuplicateName(name: string)
    | BadDeclaration(name: string)
    | MalformedOutputs(node: string) | OutputInvalid(node: string, name: string)
    | MalformedArguments(node: string) | NotAnInput(node: string, name: string)
    | Unaccepted(name: string)
    | ExpressionInvalid(name: string) | ExpressionType(name: string)
    | EnvironmentBroken(problem: Problem)
    | FieldInvalid(node: string, key: string) | FieldType(node: string, key: string)
    | StaticOnly(node: string, key: string, via: set<string>)

  /** An input variable that nothing accepts is the one finding reported as a warning. */
  predicate IsError(i: Issue) {
    !i.Unaccepted?
  }

  ghost predicate NoErrors(issues: seq<Issue>) {
    forall i :: i in issues ==> !IsError(i)
  }

  lemma NoErrorsConcat(a: seq<Issue>, b: seq<Issue>)
    ensures NoErrors(a + b) <==> NoErrors(a) && NoErrors(b)
  {
    if NoErrors(a + b) {
      forall i | i in a || i in b ensures !IsError(i) {
        assert i in a + b;
      }
    }
  }

  // ---- what a well-formed definition is -------------------------------------------------

  predicate NameStart(c: char) {
    'a' <= c <= 'z' || c == '_'
  }

  predicate NameRest(s: string) {
    forall c :: c in s ==> NameStart(c) || '0' <= c <= '9'
  }

  /** `^[a-z_][a-z0-9_]*$`; in Python the `$` also matches before a final newline. */
  predicate ValidName(s: string) {
    |s| >= 1 && NameStart(s[0])
    && (NameRest(s[1..]) || (|s| >= 2 && s[|s| - 1] == '\n' && NameRest(s[1..|s| - 1])))
  }

  const LETTERS := "abcdefghijklmnopqrstuvwxyz_"

  const DIGITS := "0123456789"

  /** `s` is the name, or the name and a final newline; a name starts with a letter and holds letters and digits. */
  ghost predicate IsNameLine(s: string, name: string) {
    && (s == name || s == name + "\n") && name != "" && name[0] in LETTERS
    && forall c :: c in name ==> c in LETTERS || c in DIGITS
  }

  lemma ValidNameMeaning(s: string)
    ensures ValidName(s) <==> exists name :: IsNameLine(s, name)
  {
    hide ValidName, IsNameLine;
    if ValidName(s) {
      var name := NameOfLine(s);
    }
    if name :| IsNameLine(s, name) {
      LineIsValid(s, name);
    }
  }

  lemma NameOfLine(s: string) returns (name: string)
    requires ValidName(s)
    ensures IsNameLine(s, name)
  {
    hide LETTERS, DIGITS;
    CharacterClasses();
    name := if NameRest(s[1..]) then s else s[..|s| - 1];
    assert name == [s[0]] + name[1..];
    assert name[1..] == if name == s then s[1..] else s[1..|s| - 1];
    assert name != s ==> s == name + "\n";
    forall c | c in name ensures c in LETTERS || c in DIGITS {
      assert c == s[0] || c in name[1..];
    }
  }

  lemma LineIsValid(s: string, name: string)
    requires IsNameLine(s, name)
    ensures ValidName(s)
  {
    hide LETTERS, DIGITS;
    CharacterClasses();
    assert forall c :: c in name[1..] ==> c in name;
    if s == name + "\n" {
      assert s[1..|s| - 1] == name[1..];
    }
  }

  lemma CharacterClasses()
    ensures forall c :: c in LETTERS <==> NameStart(c)
    ensures forall c :: c in DIGITS <==> '0' <= c <= '9'
  {
    forall c ensures (c in LETTERS <==> NameStart(c)) && (c in DIGITS <==> '0' <= c <= '9') {
      if NameStart(c) && c != '_' {
        assert LETTERS[c as int - 'a' as int] == c;
      }
      if '0' <= c <= '9' {
        assert DIGITS[c as int - '0' as int] == c;
      }
      assert LETTERS[26] == '_';
    }
  }

  const RESERVED: set<string> :=
    {QUERY, "true", "false", "min", "max", "clamp", "floor", "ceil", "round"}

  /** Reserved are the query, the two literals and the builtins. */
  lemma ReservedExactly(x: string)
    ensures x in RESERVED <==> x in {"query", "true", "false"} || Catalog(x).Some?
  {
  }

  ghost predicate NamesFine(vs: seq<Variable>) {
    && DistinctNames(vs)
    && forall v :: v in vs ==> ValidName(v.name) && v.name !in RESERVED
  }

  predicate BoundsFine(d: Declaration) {
    d.minimum.Some? && d.maximum.Some? ==> d.minimum.value <= d.maximum.value
  }

  ghost predicate DeclarationFine(v: Variable) {
    && (v.decl.ty == EnumType ==> Distinct(v.decl.choices) && v.decl.choices != [])
    && BoundsFine(v.decl)
    && match v.source
       case InputSource =>
         && v.decl.ty != ModelType && v.expression.None?
         && (v.value.Some? ==> CoerceLiteral(v.decl, Scalar(v.value.value)).Ok?)
       case ExpressionSource => v.expression.Some? && v.decl.ty != ModelType
       case ValueSource => v.value.Some? && v.expression.None?
  }

  /** The validator accepts an input of at least 5/2 without a default; its placeholder is 2. */
  lemma PlaceholderBelowMinimum()
    ensures var v := Variable("n", Declaration(IntegerType, Some(2.5), None, []), InputSource, None, None);
            && DeclarationFine(v) && StaticPlaceholder(AsInputArgument(v)) == IntV(2)
            && !Satisfies(v.decl, StaticPlaceholder(AsInputArgument(v)))
  {
    assert Truncate(2.5) == 2;
  }

  function InputNames(vs: seq<Variable>): set<string> {
    set v | v in vs && v.source == InputSource :: v.name
  }

  ghost predicate AcceptsFine(def: Definition, n: Node) {
    n.ty == RETRIEVAL_INPUT ==> n.accepts.Some? && forall x :: x in n.accepts.value ==> x in InputNames(def.variables)
  }

  /** The declared types by name; of two declarations with one name the first counts. */
  function StaticTypes(vs: seq<Variable>): map<string, ExprType> {
    if vs == [] then map[QUERY := StringT]
    else
      var before, v := StaticTypes(vs[..|vs| - 1]), vs[|vs| - 1];
      if v.name in before then before else before[v.name := ExprTypeOf(v.decl.ty)]
  }

  /** Which declaration of a name counts. */
  lemma {:induction false} FirstDeclarationCounts(vs: seq<Variable>, k: nat)
    requires k < |vs| && vs[k].name != QUERY && forall j :: 0 <= j < k ==> vs[j].name != vs[k].name
    ensures vs[k].name in StaticTypes(vs) && StaticTypes(vs)[vs[k].name] == ExprTypeOf(vs[k].decl.ty)
    decreases |vs|
  {
    var n := |vs| - 1;
    if k < n {
      FirstDeclarationCounts(vs[..n], k);
    } else {
      NamesOfTypes(vs[..n], vs[k].name);
    }
  }

  lemma {:induction false} NamesOfTypes(vs: seq<Variable>, x: string)
    ensures x in StaticTypes(vs) <==> x == QUERY || exists v :: v in vs && v.name == x
  {
    if vs != [] {
      var n := |vs| - 1;
      assert vs == vs[..n] + [vs[n]];
      NamesOfTypes(vs[..n], x);
    }
  }

  predicate Assignable(result: ExprType, expected: ExprType) {
    result == expected || (result == IntegerT && expected == NumberT)
  }

  function TypeOfText(t: Text, types: map<string, ExprType>): Option<ExprType> {
    if t.parsed.None? then None else CheckType(t.parsed.value, types)
  }

  predicate ExpressionFine(v: Variable, types: map<string, ExprType>) {
    v.expression.Some? ==>
      var t := TypeOfText(v.expression.value, types);
      t.Some? && Assignable(t.value, ExprTypeOf(v.decl.ty))
  }

  /** The references of every variable that has an expression; the last declaration of a name counts. */
  function DerivedReferences(vs: seq<Variable>): (m: map<string, set<string>>)
    ensures forall x :: x in m <==> x in ParsedNames(vs)
  {
    if vs == [] then map[]
    else
      var before, v := DerivedReferences(vs[..|vs| - 1]), vs[|vs| - 1];
      if Parses(v) then before[v.name := References(v.expression.value.parsed.value)] else before
  }

  function CallerNames(vs: seq<Variable>): set<string> {
    InputNames(vs) + {QUERY}
  }

  /** A chain of references that ends at a name whose value the caller supplies. */
  ghost predicate ChainToCaller(vs: seq<Variable>, w: seq<string>) {
    IsWalk(Pairs(DerivedReferences(vs)), w) && w[|w| - 1] in CallerNames(vs)
  }

  ghost predicate DependsOnCaller(vs: seq<Variable>, x: string) {
    exists w :: ChainToCaller(vs, w) && w[0] == x
  }

  /** No reference of an identity field leads to caller input, through any number of variables. */
  ghost predicate FieldFine(def: Definition, reg: Registry, n: Node, f: Field) {
    f.value.Tagged? ==>
      var t := TypeOfText(f.value.text, StaticTypes(def.variables));
      && t.Some?
      && ((n.ty, f.key) in reg.expected ==> Assignable(t.value, reg.expected[(n.ty, f.key)]))
      && ((n.ty, f.key) in reg.staticOnly ==>
            forall x :: x in References(f.value.text.parsed.value) ==> !DependsOnCaller(def.variables, x))
  }

  ghost predicate VariablesFine(def: Definition) {
    && NamesFine(def.variables)
    && (forall v :: v in def.variables ==> DeclarationFine(v))
    && (forall n :: n in def.nodes ==> AcceptsFine(def, n))
    && (forall v :: v in def.variables ==> ExpressionFine(v, StaticTypes(def.variables)))
    && BuildEnvironment(def, STATIC_CALLER).Ok?
  }

  const RETRIEVAL_OUTPUT := "retrieval.output"

  predicate OutputFine(o: Output, types: map<string, ExprType>) {
    var t := TypeOfText(o.expression, types);
    ValidName(o.name) && t.Some? && t.value != ModelT
  }

  ghost predicate OutputListFine(outs: seq<Output>, types: map<string, ExprType>) {
    && (forall i, j :: 0 <= i < j < |outs| ==> outs[i].name != outs[j].name)
    && forall o :: o in outs ==> OutputFine(o, types)
  }

  /** An output node returns values of valid, different names, none of them a bare model. */
  ghost predicate OutputsFine(n: Node, types: map<string, ExprType>) {
    n.ty == RETRIEVAL_OUTPUT ==> n.outputs.Some? && OutputListFine(n.outputs.value, types)
  }

  ghost predicate WellFormed(def: Definition, reg: Registry) {
    && VariablesFine(def)
    && (forall n :: n in def.nodes ==> OutputsFine(n, StaticTypes(def.variables)))
    && forall n, f :: n in def.nodes && f in n.config ==> FieldFine(def, reg, n, f)
  }

  // ---- the validator ----------------------------------------------------------------------

  function NameIssues(name: string, seen: set<string>): seq<Issue> {
    if !ValidName(name) then [InvalidName(name)]
    else if name in RESERVED then [ReservedName(name)]
    else if name in seen then [DuplicateName(name)]
    else []
  }

  method DeclarationIssues(v: Variable) returns (issues: seq<Issue>)
    ensures NoErrors(issues) <==> DeclarationFine(v)
  {
    var bad := [BadDeclaration(v.name)];
    issues := [];
    var repeated := HasRepeats(v.decl.choices);
    if v.decl.ty == EnumType && repeated {
      issues := issues + bad;
    }
    if v.source == InputSource {
      if v.decl.ty == ModelType {
        assert BadDeclaration(v.name) in issues + bad;
        return issues + bad;
      }
      if v.expression.Some? {
        issues := issues + bad;
      }
      var missing := v.decl.ty == EnumType && v.decl.choices == [];
      if missing {
        issues := issues + bad;
      }
      if v.value.Some? && !missing && CoerceLiteral(v.decl, Scalar(v.value.value)).Err? {
        issues := issues + bad;
      }
    } else {
      if v.source == ExpressionSource {
        if v.expression.None? {
          issues := issues + bad;
        }
        if v.decl.ty == ModelType {
          issues := issues + bad;
        }
      } else if v.value.None? {
        issues := issues + bad;
      } else if v.expression.Some? {
        issues := issues + bad;
      }
      if v.decl.ty == EnumType && v.decl.choices == [] {
        issues := issues + bad;
      }
    }
    if v.decl.minimum.Some? && v.decl.maximum.Some? && v.decl.minimum.value > v.decl.maximum.value {
      issues := issues + bad;
    }
    assert issues != [] ==> issues[0] in issues && IsError(issues[0]);
  }

  method HasRepeats(s: seq<string>) returns (r: bool)
    ensures r <==> !Distinct(s)
  {
    for i := 0 to |s|
      invariant Distinct(s[..i])
    {
      if s[i] in s[..i] {
        return true;
      }
      assert s[..i + 1] == s[..i] + [s[i]];
    }
    assert s[..|s|] == s;
    return false;
  }

  method VariableNameIssues(vs: seq<Variable>) returns (issues: seq<Issue>)
    ensures NoErrors(issues) <==> NamesFine(vs)
  {
    issues := [];
    var seen := {QUERY};
    for i := 0 to |vs|
      invariant seen == {QUERY} + NamesOf(vs[..i])
      invariant NoErrors(issues) <==> NamesFine(vs[..i])
    {
      var found := NameIssues(vs[i].name, seen);
      assert found != [] ==> found[0] in found && IsError(found[0]);
      NamesFineStep(vs[..i], vs[i]);
      assert vs[..i + 1] == vs[..i] + [vs[i]];
      issues := issues + found;
      seen := seen + {vs[i].name};
    }
    assert vs[..|vs|] == vs;
  }

  lemma NamesFineStep(vs: seq<Variable>, v: Variable)
    ensures NamesFine(vs + [v]) <==> NamesFine(vs) && NameIssues(v.name, {QUERY} + NamesOf(vs)) == []
  {
    var all := vs + [v];
    if NamesFine(all) {
      assert all[|vs|] in all;
      forall i, j | 0 <= i < j < |vs| ensures vs[i].name != vs[j].name {
        assert all[i].name != all[j].name;
      }
      forall u | u in vs ensures ValidName(u.name) && u.name !in RESERVED && u.name != v.name {
        var i :| 0 <= i < |vs| && vs[i] == u;
        assert all[i] in all && all[i].name != all[|vs|].name;
      }
    }
    if NamesFine(vs) && NameIssues(v.name, {QUERY} + NamesOf(vs)) == [] {
      forall i | 0 <= i < |vs| ensures vs[i].name != v.name {
        assert vs[i] in vs;
      }
    }
  }

  method AllDeclarationIssues(vs: seq<Variable>) returns (issues: seq<Issue>)
    ensures NoErrors(issues) <==> forall v :: v in vs ==> DeclarationFine(v)
  {
    issues := [];
    for i := 0 to |vs|
      invariant NoErrors(issues) <==> forall v :: v in vs[..i] ==> DeclarationFine(v)
    {
      var found := DeclarationIssues(vs[i]);
      assert vs[..i + 1] == vs[..i] + [vs[i]];
      issues := issues + found;
    }
    assert vs[..|vs|] == vs;
  }

  method AcceptedArgumentIssues(def: Definition) returns (issues: seq<Issue>)
    ensures NoErrors(issues) <==> forall n :: n in def.nodes ==> AcceptsFine(def, n)
  {
    issues := [];
    var inputs := InputNames(def.variables);
    for i := 0 to |def.nodes|
      invariant NoErrors(issues) <==> forall n :: n in def.nodes[..i] ==> AcceptsFine(def, n)
    {
      var n := def.nodes[i];
      assert def.nodes[..i + 1] == def.nodes[..i] + [n];
      if n.ty == RETRIEVAL_INPUT {
        var found := NodeArgumentIssues(def, n);
        issues := issues + found;
      }
    }
    assert def.nodes[..|def.nodes|] == def.nodes;
    if exists n :: n in def.nodes && n.ty == RETRIEVAL_INPUT {
      var unaccepted := inputs - AcceptedArgumentNames(def.nodes);
      while unaccepted != {}
        invariant NoErrors(issues) <==> forall n :: n in def.nodes ==> AcceptsFine(def, n)
        decreases unaccepted
      {
        var x :| x in unaccepted;
        assert !IsError(Unaccepted(x));
        issues, unaccepted := issues + [Unaccepted(x)], unaccepted - {x};
      }
    }
  }

  method NodeArgumentIssues(def: Definition, n: Node) returns (issues: seq<Issue>)
    requires n.ty == RETRIEVAL_INPUT
    ensures NoErrors(issues) <==> AcceptsFine(def, n)
  {
    if n.accepts.None? {
      issues := [MalformedArguments(n.id)];
      assert issues[0] in issues;
      return;
    }
    issues := [];
    var names := n.accepts.value;
    for i := 0 to |names|
      invariant NoErrors(issues) <==> forall x :: x in names[..i] ==> x in InputNames(def.variables)
    {
      assert names[..i + 1] == names[..i] + [names[i]];
      if names[i] !in InputNames(def.variables) {
        issues := issues + [NotAnInput(n.id, names[i])];
        assert issues[|issues| - 1] in issues;
      }
    }
    assert names[..|names|] == names;
  }

  /** The tainted-name closure of `_static_types`, iterated until nothing changes. */
  method StaticTaint(vs: seq<Variable>) returns (tainted: set<string>)
    ensures forall x :: x in tainted <==> DependsOnCaller(vs, x)
  {
    var refs := DerivedReferences(vs);
    tainted := CallerNames(vs);
    forall x | x in tainted ensures DependsOnCaller(vs, x) {
      assert ChainToCaller(vs, [x]);
    }
    ghost var bound := iset x | DependsOnCaller(vs, x);
    forall x, y | x in refs && y in refs[x] && y in bound ensures x in bound {
      DependsStep(vs, x, y);
    }
    var changed := true;
    while changed
      invariant CallerNames(vs) <= tainted <= CallerNames(vs) + refs.Keys
      invariant forall x :: x in tainted ==> x in bound
      invariant !changed ==> forall x :: x in refs && !(refs[x] !! tainted) ==> x in tainted
      decreases CallerNames(vs) + refs.Keys - tainted, changed
    {
      tainted, changed := TaintPass(refs, ParsedNames(vs), tainted, bound);
    }
    forall x | DependsOnCaller(vs, x) ensures x in tainted {
      var w :| ChainToCaller(vs, w) && w[0] == x;
      ClosedUnderChains(vs, tainted, w);
    }
  }

  /** One pass over the derived variables; it adds nothing outside a set closed under the references. */
  method TaintPass(refs: map<string, set<string>>, names: seq<string>, before: set<string>, ghost bound: iset<string>)
    returns (tainted: set<string>, changed: bool)
    requires forall x :: x in names <==> x in refs
    requires forall x :: x in before ==> x in bound
    requires forall x, y :: x in refs && y in refs[x] && y in bound ==> x in bound
    ensures before <= tainted <= before + refs.Keys && (changed <==> before != tainted)
    ensures forall x :: x in tainted ==> x in bound
    ensures !changed ==> forall x :: x in refs && !(refs[x] !! tainted) ==> x in tainted
  {
    tainted, changed := before, false;
    for i := 0 to |names|
      invariant before <= tainted <= before + refs.Keys && (changed <==> before != tainted)
      invariant forall x :: x in tainted ==> x in bound
      invariant !changed ==> forall k :: 0 <= k < i && !(refs[names[k]] !! tainted) ==> names[k] in tainted
    {
      if names[i] !in tainted && !(refs[names[i]] !! tainted) {
        ghost var y :| y in refs[names[i]] && y in tainted;
        tainted := tainted + {names[i]};
        changed := true;
      }
    }
  }

  lemma DependsStep(vs: seq<Variable>, x: string, y: string)
    requires x in DerivedReferences(vs) && y in DerivedReferences(vs)[x] && DependsOnCaller(vs, y)
    ensures DependsOnCaller(vs, x)
  {
    var w :| ChainToCaller(vs, w) && w[0] == y;
    assert (x, y) in Pairs(DerivedReferences(vs));
    assert ChainToCaller(vs, [x] + w);
    assert ([x] + w)[0] == x;
  }

  lemma {:induction false} ClosedUnderChains(vs: seq<Variable>, closed: set<string>, w: seq<string>)
    requires CallerNames(vs) <= closed
    requires forall x :: x in DerivedReferences(vs) && !(DerivedReferences(vs)[x] !! closed) ==> x in closed
    requires ChainToCaller(vs, w)
    ensures w[0] in closed
    decreases |w|
  {
    if |w| > 1 {
      var r := Pairs(DerivedReferences(vs));
      WalkSlice(r, w, 1, |w| - 1);
      assert w[1..|w| - 1 + 1] == w[1..];
      ClosedUnderChains(vs, closed, w[1..]);
      assert (w[0], w[1]) in r;
    }
  }

  function ExpressionIssues(v: Variable, types: map<string, ExprType>): (found: seq<Issue>)
    ensures NoErrors(found) <==> ExpressionFine(v, types)
  {
    if v.expression.None? then []
    else
      var t := TypeOfText(v.expression.value, types);
      var found := if t.None? then [ExpressionInvalid(v.name)]
                   else if !Assignable(t.value, ExprTypeOf(v.decl.ty)) then [ExpressionType(v.name)]
                   else [];
      assert found != [] ==> found[0] in found && IsError(found[0]);
      found
  }

  method DerivedExpressionIssues(vs: seq<Variable>, types: map<string, ExprType>) returns (issues: seq<Issue>)
    ensures NoErrors(issues) <==> forall v :: v in vs ==> ExpressionFine(v, types)
  {
    issues := [];
    for i := 0 to |vs|
      invariant NoErrors(issues) <==> forall v :: v in vs[..i] ==> ExpressionFine(v, types)
    {
      assert vs[..i + 1] == vs[..i] + [vs[i]];
      NoErrorsConcat(issues, ExpressionIssues(vs[i], types));
      issues := issues + ExpressionIssues(vs[i], types);
    }
    assert vs[..|vs|] == vs;
  }

  method EnvironmentIssues(def: Definition) returns (issues: seq<Issue>)
    ensures NoErrors(issues) <==> BuildEnvironment(def, STATIC_CALLER).Ok?
  {
    var r := ComputeEnvironment(def, STATIC_CALLER);
    issues := [];
    if r.Err? {
      issues := seq(|r.error|, i requires 0 <= i < |r.error| => EnvironmentBroken(r.error[i]));
      assert r.error != [];
      assert issues[0] in issues && IsError(issues[0]);
    }
  }

  /** The checks of one `$expr` field: syntax and types, the expected type, the static-only rule. */
  function FieldIssues(n: Node, f: Field, reg: Registry, types: map<string, ExprType>, tainted: set<string>): seq<Issue>
  {
    if f.value.Plain? then []
    else
      var t := TypeOfText(f.value.text, types);
      if t.None? then [FieldInvalid(n.id, f.key)]
      else
        var via := References(f.value.text.parsed.value) * tainted;
        (if (n.ty, f.key) in reg.expected && !Assignable(t.value, reg.expected[(n.ty, f.key)])
         then [FieldType(n.id, f.key)] else [])
        + (if (n.ty, f.key) in reg.staticOnly && via != {} then [StaticOnly(n.id, f.key, via)] else [])
  }

  lemma FieldIssuesExact(def: Definition, reg: Registry, n: Node, f: Field, tainted: set<string>)
    requires forall x :: x in tainted <==> DependsOnCaller(def.variables, x)
    ensures NoErrors(FieldIssues(n, f, reg, StaticTypes(def.variables), tainted)) <==> FieldFine(def, reg, n, f)
  {
    var found := FieldIssues(n, f, reg, StaticTypes(def.variables), tainted);
    assert found != [] ==> found[0] in found && IsError(found[0]);
    if f.value.Tagged? && TypeOfText(f.value.text, StaticTypes(def.variables)).Some? {
      var refs := References(f.value.text.parsed.value);
      if refs * tainted != {} {
        var x :| x in refs * tainted;
        assert x in refs && DependsOnCaller(def.variables, x);
      } else {
        forall x | x in refs ensures !DependsOnCaller(def.variables, x) {
          assert x !in refs * tainted;
        }
      }
    }
  }

  method NodeFieldIssues(def: Definition, reg: Registry, n: Node, tainted: set<string>) returns (issues: seq<Issue>)
    requires forall x :: x in tainted <==> DependsOnCaller(def.variables, x)
    ensures NoErrors(issues) <==> forall f :: f in n.config ==> FieldFine(def, reg, n, f)
  {
    issues := [];
    var types := StaticTypes(def.variables);
    for j := 0 to |n.config|
      invariant NoErrors(issues) <==> forall f :: f in n.config[..j] ==> FieldFine(def, reg, n, f)
    {
      assert n.config[..j + 1] == n.config[..j] + [n.config[j]];
      FieldIssuesExact(def, reg, n, n.config[j], tainted);
      issues := issues + FieldIssues(n, n.config[j], reg, types, tainted);
    }
    assert n.config[..|n.config|] == n.config;
  }

  method ConfigIssues(def: Definition, reg: Registry, tainted: set<string>) returns (issues: seq<Issue>)
    requires forall x :: x in tainted <==> DependsOnCaller(def.variables, x)
    ensures NoErrors(issues) <==> forall n, f :: n in def.nodes && f in n.config ==> FieldFine(def, reg, n, f)
  {
    issues := [];
    for i := 0 to |def.nodes|
      invariant NoErrors(issues) <==> forall n, f :: n in def.nodes[..i] && f in n.config ==> FieldFine(def, reg, n, f)
    {
      assert def.nodes[..i + 1] == def.nodes[..i] + [def.nodes[i]];
      var found := NodeFieldIssues(def, reg, def.nodes[i], tainted);
      issues := issues + found;
    }
    assert def.nodes[..|def.nodes|] == def.nodes;
  }

  /** The loop over the declared outputs of one node; a bad or repeated name hides its expression. */
  method NodeOutputIssues(n: Node, types: map<string, ExprType>) returns (issues: seq<Issue>)
    requires n.ty == RETRIEVAL_OUTPUT
    ensures NoErrors(issues) <==> OutputsFine(n, types)
  {
    if n.outputs.None? {
      issues := [MalformedOutputs(n.id)];
      assert issues[0] in issues;
      return;
    }
    issues := [];
    var outs, seen: set<string> := n.outputs.value, {};
    for j := 0 to |outs|
      invariant NoErrors(issues) <==> OutputListFine(outs[..j], types)
      invariant NoErrors(issues) ==> seen == set o | o in outs[..j] :: o.name
    {
      var o := outs[j];
      assert outs[..j + 1] == outs[..j] + [o];
      OutputListMore(outs[..j], o, types);
      var valid := ValidName(o.name) && o.name !in seen;
      if valid {
        seen := seen + {o.name};
      }
      if !valid || TypeOfText(o.expression, types).None? || TypeOfText(o.expression, types).value == ModelT {
        issues := issues + [OutputInvalid(n.id, o.name)];
        assert issues[|issues| - 1] in issues;
      }
    }
    assert outs[..|outs|] == outs;
  }

  lemma OutputListMore(outs: seq<Output>, o: Output, types: map<string, ExprType>)
    ensures OutputListFine(outs + [o], types) <==>
              OutputListFine(outs, types) && OutputFine(o, types) && o.name !in set p | p in outs :: p.name
  {
    var all := outs + [o];
    if OutputListFine(all, types) {
      assert all[|outs|] in all;
      forall i, j | 0 <= i < j < |outs| ensures outs[i].name != outs[j].name {
        assert all[i].name != all[j].name;
      }
      forall p | p in outs ensures OutputFine(p, types) && p.name != o.name {
        var i :| 0 <= i < |outs| && outs[i] == p;
        assert all[i] in all && all[i].name != all[|outs|].name;
      }
    }
    if OutputListFine(outs, types) && o.name !in set p | p in outs :: p.name {
      forall i | 0 <= i < |outs| ensures outs[i].name != o.name {
        assert outs[i] in outs;
      }
    }
  }

  method OutputIssues(def: Definition, types: map<string, ExprType>) returns (issues: seq<Issue>)
    ensures NoErrors(issues) <==> forall n :: n in def.nodes ==> OutputsFine(n, types)
  {
    issues := [];
    for i := 0 to |def.nodes|
      invariant NoErrors(issues) <==> forall n :: n in def.nodes[..i] ==> OutputsFine(n, types)
    {
      assert def.nodes[..i + 1] == def.nodes[..i] + [def.nodes[i]];
      if def.nodes[i].ty == RETRIEVAL_OUTPUT {
        var found := NodeOutputIssues(def.nodes[i], types);
        NoErrorsConcat(issues, found);
        issues := issues + found;
      }
    }
    assert def.nodes[..|def.nodes|] == def.nodes;
  }

  /** The validator reports an error exactly when the definition is not well formed. */
  method CollectVariableIssues(def: Definition, reg: Registry) returns (issues: seq<Issue>)
    ensures NoErrors(issues) <==> WellFormed(def, reg)
  {
    issues := VariableNameIssues(def.variables);
    var found := AllDeclarationIssues(def.variables);
    NoErrorsConcat(issues, found);
    issues := issues + found;
    found := AcceptedArgumentIssues(def);
    NoErrorsConcat(issues, found);
    issues := issues + found;
    var types := StaticTypes(def.variables);
    var tainted := StaticTaint(def.variables);
    found := DerivedExpressionIssues(def.variables, types);
    NoErrorsConcat(issues, found);
    issues := issues + found;
    found := EnvironmentIssues(def);
    NoErrorsConcat(issues, found);
    issues := issues + found;
    assert NoErrors(issues) <==> VariablesFine(def);
    found := ConfigIssues(def, reg, tainted);
    NoErrorsConcat(issues, found);
    issues := issues + found;
    found := OutputIssues(def, types);
    NoErrorsConcat(issues, found);
    issues := issues + found;
  }
}
