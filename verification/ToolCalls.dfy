/** Tool calls out of provider payloads and reasoning traces (app/chat/tool_calls.py). */
module ToolCalls {
  import opened Wrappers
  import opened Collections
  import opened Payloads

  datatype ToolCall = ToolCall(id: string, name: string, arguments: string)

  type Segment = map<string, Value>

  const CANDIDATE_TYPES := {"tool_call", "tool_use", "tool_request", "call_tool", "function_call"}

  function ArgumentsString(rt: Runtime, arguments: Value): string {
    match arguments
    case Text(s) =>
      var stripped := rt.strip(s);
      if stripped == "" then "{}"
      else if rt.isJson(stripped) then stripped
      else rt.dumps(Dict(map["input" := Text(stripped)]))
    case Null => "{}"
    case _ => rt.dumps(arguments)
  }

  /** `_resolve_call_components`; `generated` is the id for a call that names none. */
  function Resolve(rt: Runtime, segment: Segment, generated: string): Option<ToolCall> {
    var ty := rt.lower(Str(rt, Or(Get(segment, "type"), Text(""))));
    var f, c := Get(segment, "function"), Get(segment, "call");
    if !(ty in CANDIDATE_TYPES || f.Dict? || c.Dict?) then None
    else
      var function', call := FieldsOf(f), FieldsOf(c);
      var name := Or(Get(function', "name"), Or(Get(call, "name"),
                  Or(Get(segment, "name"), Or(Get(segment, "tool_name"), Get(segment, "function_name")))));
      if !Truthy(name) then None
      else
        var arguments := Or(Get(function', "arguments"), Or(Get(call, "arguments"), Or(Get(call, "input"),
                         Or(Get(segment, "arguments"), Or(Get(segment, "input"),
                         Or(Get(segment, "params"), Get(segment, "parameters")))))));
        var id := Or(Get(segment, "id"), Or(Get(segment, "tool_call_id"), Or(Get(segment, "call_id"),
                  Or(Get(call, "id"), Or(Get(function', "id"), Text(generated))))));
        Some(ToolCall(Str(rt, id), Str(rt, name), ArgumentsString(rt, arguments)))
  }

  /** One entry of `normalize_tool_calls`; entries without a usable name are dropped. */
  function Normalize(rt: Runtime, call: Segment, generated: string): Option<ToolCall> {
    var f := Or(Get(call, "function"), Dict(map[]));
    if !f.Dict? || !Truthy(Get(f.fields, "name")) then None
    else Some(ToolCall(Str(rt, Or(Get(call, "id"), Text(generated))), Str(rt, Get(f.fields, "name")),
                       ArgumentsString(rt, Get(f.fields, "arguments"))))
  }

  // ---- what a call is made of ------------------------------------------------------------------------

  ghost predicate NoneOf(values: seq<Value>) {
    forall v :: v in values ==> !Truthy(v)
  }

  /** `v` is the first of the values that is not empty. */
  ghost predicate FirstOf(values: seq<Value>, v: Value) {
    exists k: nat :: FirstAt(values, v, k)
  }

  ghost predicate FirstAt(values: seq<Value>, v: Value, k: nat) {
    k < |values| && values[k] == v && Truthy(v) && forall j :: 0 <= j < k ==> !Truthy(values[j])
  }

  /** Providers put the parts of a call in many places; these are looked up in this order. */
  function NamePlaces(segment: Segment): seq<Value> {
    var f, c := FieldsOf(Get(segment, "function")), FieldsOf(Get(segment, "call"));
    [Get(f, "name"), Get(c, "name"), Get(segment, "name"), Get(segment, "tool_name"), Get(segment, "function_name")]
  }

  function ArgumentPlaces(segment: Segment): seq<Value> {
    var f, c := FieldsOf(Get(segment, "function")), FieldsOf(Get(segment, "call"));
    [Get(f, "arguments"), Get(c, "arguments"), Get(c, "input"), Get(segment, "arguments"), Get(segment, "input"),
     Get(segment, "params"), Get(segment, "parameters")]
  }

  function IdPlaces(segment: Segment): seq<Value> {
    var f, c := FieldsOf(Get(segment, "function")), FieldsOf(Get(segment, "call"));
    [Get(segment, "id"), Get(segment, "tool_call_id"), Get(segment, "call_id"), Get(c, "id"), Get(f, "id")]
  }

  /** A segment may make a call when its type says so or it has a function or call payload. */
  predicate LooksLikeCall(rt: Runtime, segment: Segment) {
    || Get(segment, "function").Dict? || Get(segment, "call").Dict?
    || rt.lower(Str(rt, Or(Get(segment, "type"), Text("")))) in
         {"tool_call", "tool_use", "tool_request", "call_tool", "function_call"}
  }

  lemma OrIsFirst(a: Value, rest: seq<Value>, b: Value)
    requires FirstOf(rest, b) || (NoneOf(rest) && (rest == [] || b == rest[|rest| - 1]))
    ensures FirstOf([a] + rest, Or(a, b)) || (NoneOf([a] + rest) && (rest == [] || Or(a, b) == rest[|rest| - 1]))
  {
    hide Truthy;
    var all := [a] + rest;
    if Truthy(a) {
      assert FirstAt(all, a, 0);
    } else if FirstOf(rest, b) {
      var k: nat :| FirstAt(rest, b, k);
      assert all[k + 1] == b && forall j :: 0 < j <= k ==> all[j] == rest[j - 1];
      assert FirstAt(all, b, k + 1);
    }
  }

  /** The value that a chain of `or` yields: the first that is not empty, else the last. */
  lemma ChainIsFirst(values: seq<Value>)
    requires values != []
    ensures FirstOf(values, Chain(values)) || (NoneOf(values) && Chain(values) == values[|values| - 1])
    decreases |values|
  {
    hide Truthy;
    if |values| == 1 {
      assert values[0] in values;
      assert Truthy(values[0]) ==> FirstAt(values, values[0], 0);
    } else {
      ChainIsFirst(values[1..]);
      OrIsFirst(values[0], values[1..], Chain(values[1..]));
      assert values == [values[0]] + values[1..];
    }
  }

  function Chain(values: seq<Value>): Value
    requires values != []
  {
    if |values| == 1 then values[0] else Or(values[0], Chain(values[1..]))
  }

  lemma ChainMore(a: Value, rest: seq<Value>)
    requires rest != []
    ensures Chain([a] + rest) == Or(a, Chain(rest))
  {
    assert ([a] + rest)[1..] == rest;
  }

  lemma ChainOfFive(a: Value, b: Value, c: Value, d: Value, e: Value)
    ensures Chain([a, b, c, d, e]) == Or(a, Or(b, Or(c, Or(d, e))))
  {
    hide Chain;
    assert Chain([e]) == e by { ChainOfOne(e); }
    ChainMore(d, [e]);
    ChainMore(c, [d] + [e]);
    ChainMore(b, [c] + ([d] + [e]));
    ChainMore(a, [b] + ([c] + ([d] + [e])));
    assert [a] + ([b] + ([c] + ([d] + [e]))) == [a, b, c, d, e];
  }

  lemma ChainOfOne(e: Value)
    ensures Chain([e]) == e
  {
  }

  /** Which segments make a call, and from which places its id, name and arguments come. */
  lemma ResolveExact(rt: Runtime, segment: Segment, generated: string)
    ensures var r := Resolve(rt, segment, generated);
            && (r.Some? <==> LooksLikeCall(rt, segment) && !NoneOf(NamePlaces(segment)))
            && (r.Some? ==>
                  && (exists name :: FirstOf(NamePlaces(segment), name) && r.value.name == Str(rt, name))
                  && (if NoneOf(IdPlaces(segment)) then r.value.id == generated
                      else exists id :: FirstOf(IdPlaces(segment), id) && r.value.id == Str(rt, id))
                  && (if NoneOf(ArgumentPlaces(segment)) then r.value.arguments == ArgumentsString(rt, Get(segment, "parameters"))
                      else exists a :: FirstOf(ArgumentPlaces(segment), a) && r.value.arguments == ArgumentsString(rt, a)))
  {
    hide ArgumentsString, FirstOf, NoneOf, Truthy;
    NameChain(segment);
    ArgumentChain(segment);
    IdChain(segment, generated);
  }

  lemma NameChain(segment: Segment)
    ensures var name := Or(Get(FieldsOf(Get(segment, "function")), "name"), Or(Get(FieldsOf(Get(segment, "call")), "name"),
                        Or(Get(segment, "name"), Or(Get(segment, "tool_name"), Get(segment, "function_name")))));
            if Truthy(name) then FirstOf(NamePlaces(segment), name) && !NoneOf(NamePlaces(segment)) else NoneOf(NamePlaces(segment))
  {
    var values := NamePlaces(segment);
    ChainIsFirst(values);
    FirstIsTruthy(values, Chain(values));
    ChainOfFive(values[0], values[1], values[2], values[3], values[4]);
  }

  lemma FirstIsTruthy(values: seq<Value>, v: Value)
    ensures FirstOf(values, v) ==> Truthy(v) && !NoneOf(values)
    ensures NoneOf(values) ==> forall u :: u in values ==> !Truthy(u)
  {
    if k: nat :| FirstAt(values, v, k) {
      assert values[k] in values;
    }
  }

  lemma ArgumentChain(segment: Segment)
    ensures var f, c := FieldsOf(Get(segment, "function")), FieldsOf(Get(segment, "call"));
            var a := Or(Get(f, "arguments"), Or(Get(c, "arguments"), Or(Get(c, "input"), Or(Get(segment, "arguments"),
                     Or(Get(segment, "input"), Or(Get(segment, "params"), Get(segment, "parameters")))))));
            if NoneOf(ArgumentPlaces(segment)) then a == Get(segment, "parameters") else FirstOf(ArgumentPlaces(segment), a)
  {
    var values := ArgumentPlaces(segment);
    ChainIsFirst(values);
    FirstIsTruthy(values, Chain(values));
    var last := values[2..];
    ChainOfFive(values[2], values[3], values[4], values[5], values[6]);
    assert last == [values[2], values[3], values[4], values[5], values[6]];
    ChainMore(values[1], last);
    ChainMore(values[0], [values[1]] + last);
    assert values == [values[0]] + ([values[1]] + last);
  }

  lemma IdChain(segment: Segment, generated: string)
    ensures var f, c := FieldsOf(Get(segment, "function")), FieldsOf(Get(segment, "call"));
            var id := Or(Get(segment, "id"), Or(Get(segment, "tool_call_id"), Or(Get(segment, "call_id"),
                      Or(Get(c, "id"), Or(Get(f, "id"), Text(generated))))));
            if NoneOf(IdPlaces(segment)) then id == Text(generated) else FirstOf(IdPlaces(segment), id)
  {
    var values := IdPlaces(segment);
    ChainIsFirst(values);
    FirstIsTruthy(values, Chain(values));
    ChainOfFive(values[0], values[1], values[2], values[3], values[4]);
    assert forall u :: u in values ==> u == values[0] || u == values[1] || u == values[2] || u == values[3] || u == values[4];
  }

  /** A structured call needs a function payload with a name; its parts come from there. */
  lemma NormalizeExact(rt: Runtime, call: Segment, generated: string)
    ensures var (r, f) := (Normalize(rt, call, generated), Get(call, "function"));
            && (r.Some? <==> f.Dict? && Truthy(Get(f.fields, "name")))
            && (r.Some? ==>
                  && r.value.name == Str(rt, Get(f.fields, "name"))
                  && r.value.id == (if Truthy(Get(call, "id")) then Str(rt, Get(call, "id")) else generated)
                  && r.value.arguments == ArgumentsString(rt, Get(f.fields, "arguments")))
  {
  }

  // ---- calls are regular -------------------------------------------------------------------------------

  /** What is used of Python's JSON codec, `strip` and `str`. */
  ghost predicate Lawful(rt: Runtime) {
    && (forall v :: rt.isJson(rt.dumps(v)) && rt.strip(rt.dumps(v)) == rt.dumps(v) && rt.dumps(v) != "")
    && rt.isJson("{}") && rt.strip("{}") == "{}"
    && (forall s :: rt.strip(rt.strip(s)) == rt.strip(s))
    && forall v :: Truthy(v) && !v.Text? ==> rt.render(v) != ""
  }

  /** Arguments always end up as JSON: texts that are JSON as they are, other texts as an input, nothing as `{}`. */
  lemma ArgumentsMeaning(rt: Runtime, a: Value)
    requires Lawful(rt)
    ensures var s := ArgumentsString(rt, a);
            && rt.isJson(s) && s != "" && ArgumentsString(rt, Text(s)) == s
            && (a == Null || (a.Text? && rt.strip(a.text) == "") ==> s == "{}")
            && (a.Text? && rt.strip(a.text) != "" && rt.isJson(rt.strip(a.text)) ==> s == rt.strip(a.text))
            && (a.Text? && rt.strip(a.text) != "" && !rt.isJson(rt.strip(a.text)) ==>
                  s == rt.dumps(Dict(map["input" := Text(rt.strip(a.text))])))
            && (a != Null && !a.Text? ==> s == rt.dumps(a))
  {
  }

  /** The shape in which a call is sent back to the provider. */
  function Wire(c: ToolCall): Segment {
    map["id" := Text(c.id), "type" := Text("function"),
        "function" := Dict(map["name" := Text(c.name), "arguments" := Text(c.arguments)])]
  }

  /** A call, from wherever it came, survives the way to the provider and back, on both paths. */
  lemma WireRoundTrip(rt: Runtime, payload: Segment, generated: string, c: ToolCall, other: string)
    requires Lawful(rt) && generated != ""
    requires Normalize(rt, payload, generated) == Some(c) || Resolve(rt, payload, generated) == Some(c)
    ensures Normalize(rt, Wire(c), other) == Some(c) && Resolve(rt, Wire(c), other) == Some(c)
  {
    hide ArgumentsString, Lawful;
    CallIsRegular(rt, payload, generated, c);
    WireResolves(rt, c, other);
  }

  lemma CallIsRegular(rt: Runtime, payload: Segment, generated: string, c: ToolCall)
    requires Lawful(rt) && generated != ""
    requires Normalize(rt, payload, generated) == Some(c) || Resolve(rt, payload, generated) == Some(c)
    ensures c.id != "" && c.name != "" && c.arguments != "" && ArgumentsString(rt, Text(c.arguments)) == c.arguments
  {
    hide ArgumentsString, Resolve, Normalize;
    forall a ensures ArgumentsString(rt, a) != "" && ArgumentsString(rt, Text(ArgumentsString(rt, a))) == ArgumentsString(rt, a) {
      ArgumentsMeaning(rt, a);
    }
    NormalizeExact(rt, payload, generated);
    ResolveExact(rt, payload, generated);
    forall values, v | FirstOf(values, v) ensures Truthy(v) {
      FirstIsTruthy(values, v);
    }
  }

  lemma WireResolves(rt: Runtime, c: ToolCall, other: string)
    requires c.id != "" && c.name != "" && c.arguments != "" && ArgumentsString(rt, Text(c.arguments)) == c.arguments
    ensures Normalize(rt, Wire(c), other) == Some(c) && Resolve(rt, Wire(c), other) == Some(c)
  {
    hide ArgumentsString;
  }

  /** The calls that the first `n` segments make; `uuid` supplies an id for each position. */
  function Made(rt: Runtime, segments: seq<Segment>, uuid: nat -> string, n: nat): seq<ToolCall>
    requires n <= |segments|
  {
    if n == 0 then []
    else
      var r := Resolve(rt, segments[n - 1], uuid(n - 1));
      Made(rt, segments, uuid, n - 1) + if r.Some? then [r.value] else []
  }

  function Ids(calls: seq<ToolCall>): seq<string> {
    seq(|calls|, i requires 0 <= i < |calls| => calls[i].id)
  }

  /** Of several calls with one id the first is kept, unless the id was processed before. */
  function FirstNew(calls: seq<ToolCall>, processed: set<string>): seq<ToolCall> {
    if calls == [] then []
    else
      var n := |calls| - 1;
      FirstNew(calls[..n], processed)
      + if calls[n].id in processed || calls[n].id in Ids(calls[..n]) then [] else [calls[n]]
  }

  /** The call to which a segment belongs: the next one that is made at or after it. */
  function Owner(rt: Runtime, segments: seq<Segment>, uuid: nat -> string, i: nat): Option<string>
    requires i <= |segments|
    decreases |segments| - i
  {
    if i == |segments| then None
    else
      var r := Resolve(rt, segments[i], uuid(i));
      if r.Some? then Some(r.value.id) else Owner(rt, segments, uuid, i + 1)
  }

  /** Of the first `n` segments those that belong to `owner`, in order. */
  function Owned(rt: Runtime, segments: seq<Segment>, uuid: nat -> string, owner: Option<string>, n: nat): seq<Segment>
    requires n <= |segments|
  {
    if n == 0 then []
    else
      Owned(rt, segments, uuid, owner, n - 1)
      + if Owner(rt, segments, uuid, n - 1) == owner then [segments[n - 1]] else []
  }

  /** Some of the first `n` segments belong to the call `c`. */
  ghost predicate Owns(rt: Runtime, segments: seq<Segment>, uuid: nat -> string, c: string, n: nat)
    requires n <= |segments|
  {
    exists i :: 0 <= i < n && Owner(rt, segments, uuid, i) == Some(c)
  }

  /** What has been recorded when the first `last` segments have found their calls. */
  ghost predicate Filed(rt: Runtime, segments: seq<Segment>, uuid: nat -> string, last: nat, context: map<string, seq<Segment>>)
    requires last <= |segments|
  {
    && (forall c :: c in context <==> Owns(rt, segments, uuid, c, last))
    && (forall c :: c in context ==> context[c] == Owned(rt, segments, uuid, Some(c), last))
    && forall i :: 0 <= i < last ==> Owner(rt, segments, uuid, i).Some?
  }

  lemma {:induction false} OwnerThrough(rt: Runtime, segments: seq<Segment>, uuid: nat -> string, i: nat, k: nat)
    requires i <= k < |segments| && forall j :: i <= j < k ==> Resolve(rt, segments[j], uuid(j)).None?
    ensures var r := Resolve(rt, segments[k], uuid(k));
            r.Some? ==> Owner(rt, segments, uuid, i) == Some(r.value.id)
    decreases k - i
  {
    hide Resolve;
    if i < k {
      OwnerThrough(rt, segments, uuid, i + 1, k);
    }
  }

  lemma {:induction false} NoOwner(rt: Runtime, segments: seq<Segment>, uuid: nat -> string, i: nat)
    requires i <= |segments| && forall j :: i <= j < |segments| ==> Resolve(rt, segments[j], uuid(j)).None?
    ensures Owner(rt, segments, uuid, i) == None
    decreases |segments| - i
  {
    if i < |segments| {
      NoOwner(rt, segments, uuid, i + 1);
    }
  }

  lemma {:induction false} OwnedStretch(rt: Runtime, segments: seq<Segment>, uuid: nat -> string, owner: Option<string>, m: nat, n: nat,
                                        same: bool)
    requires m <= n <= |segments| && forall i :: m <= i < n ==> (Owner(rt, segments, uuid, i) == owner <==> same)
    ensures Owned(rt, segments, uuid, owner, n) == Owned(rt, segments, uuid, owner, m) + if same then segments[m..n] else []
    decreases n
  {
    hide Resolve;
    if m < n {
      OwnedStretch(rt, segments, uuid, owner, m, n - 1, same);
      assert segments[m..n] == segments[m..n - 1] + [segments[n - 1]];
    }
  }

  /** A call files everything that was waiting for it. */
  lemma FiledMore(rt: Runtime, segments: seq<Segment>, uuid: nat -> string, last: nat, k: nat, id: string,
                  before: map<string, seq<Segment>>, after: map<string, seq<Segment>>)
    requires last <= k < |segments| && Filed(rt, segments, uuid, last, before)
    requires forall i :: last <= i <= k ==> Owner(rt, segments, uuid, i) == Some(id)
    requires after == before[id := (if id in before then before[id] else []) + segments[last..k + 1]]
    ensures Filed(rt, segments, uuid, k + 1, after)
  {
    hide Resolve, Owner, Owned, Owns;
    forall c ensures c in after <==> Owns(rt, segments, uuid, c, k + 1) {
      OwnsMore(rt, segments, uuid, last, k, id, c);
    }
    forall c | c in after ensures after[c] == Owned(rt, segments, uuid, Some(c), k + 1) {
      OwnedMore(rt, segments, uuid, last, k, id, before, c);
    }
  }

  lemma OwnsMore(rt: Runtime, segments: seq<Segment>, uuid: nat -> string, last: nat, k: nat, id: string, c: string)
    requires last <= k < |segments| && forall i :: last <= i <= k ==> Owner(rt, segments, uuid, i) == Some(id)
    ensures Owns(rt, segments, uuid, c, k + 1) <==> Owns(rt, segments, uuid, c, last) || c == id
  {
    hide Resolve, Owner;
    assert Owner(rt, segments, uuid, k) == Some(id);
  }

  lemma OwnedMore(rt: Runtime, segments: seq<Segment>, uuid: nat -> string, last: nat, k: nat, id: string,
                  before: map<string, seq<Segment>>, c: string)
    requires last <= k < |segments| && Filed(rt, segments, uuid, last, before) && (c in before || c == id)
    requires forall i :: last <= i <= k ==> Owner(rt, segments, uuid, i) == Some(id)
    ensures Owned(rt, segments, uuid, Some(c), k + 1) ==
            (if c in before then before[c] else []) + if c == id then segments[last..k + 1] else []
  {
    hide Resolve, Owner;
    OwnedStretch(rt, segments, uuid, Some(c), last, k + 1, c == id);
    if c !in before {
      NothingOwned(rt, segments, uuid, Some(c), last);
    }
  }

  lemma {:induction false} NothingOwned(rt: Runtime, segments: seq<Segment>, uuid: nat -> string, owner: Option<string>, n: nat)
    requires n <= |segments| && forall i :: 0 <= i < n ==> Owner(rt, segments, uuid, i) != owner
    ensures Owned(rt, segments, uuid, owner, n) == []
  {
    OwnedStretch(rt, segments, uuid, owner, 0, n, false);
  }

  lemma {:induction false} FirstNewExact(calls: seq<ToolCall>, processed: set<string>)
    ensures var r := FirstNew(calls, processed);
            && Distinct(Ids(r))
            && (forall id :: id in Ids(r) <==> id in Ids(calls) && id !in processed)
            && forall c :: c in r ==> exists k :: IsFirst(calls, c, k)
  {
    if calls != [] {
      var n := |calls| - 1;
      FirstNewExact(calls[..n], processed);
      var before, r := FirstNew(calls[..n], processed), FirstNew(calls, processed);
      IdsOfMore(calls[..n], calls[n]);
      assert calls == calls[..n] + [calls[n]];
      if r != before {
        IdsOfMore(before, calls[n]);
      }
      forall c | c in r ensures exists k :: IsFirst(calls, c, k) {
        if c in before {
          var k: nat :| IsFirst(calls[..n], c, k);
          assert calls[..n][..k] == calls[..k];
          assert IsFirst(calls, c, k);
        } else {
          assert IsFirst(calls, c, n);
        }
      }
    }
  }

  /** `c` is the first of the calls with its id. */
  ghost predicate IsFirst(calls: seq<ToolCall>, c: ToolCall, k: nat) {
    k < |calls| && calls[k] == c && c.id !in Ids(calls[..k])
  }

  lemma IdsOfMore(calls: seq<ToolCall>, c: ToolCall)
    ensures Ids(calls + [c]) == Ids(calls) + [c.id]
  {
  }

  /** Every segment is filed exactly once: with the call that owns it, or with what is left over. */
  lemma {:induction false} SegmentsConserved(rt: Runtime, segments: seq<Segment>, uuid: nat -> string, owners: seq<Option<string>>, n: nat,
                                             s: Segment)
    requires n <= |segments| && Distinct(owners) && forall i :: 0 <= i < n ==> Owner(rt, segments, uuid, i) in owners
    ensures multiset(segments[..n])[s] == Filings(rt, segments, uuid, owners, n, s)
  {
    hide Resolve, Owner, Owned, Filings;
    if n > 0 {
      SegmentsConserved(rt, segments, uuid, owners, n - 1, s);
      assert segments[..n] == segments[..n - 1] + [segments[n - 1]];
      FilingsStep(rt, segments, uuid, owners, n, s);
    } else {
      NoFilings(rt, segments, uuid, owners, s);
    }
  }

  /** How often the lists of these owners hold `s`, taken together. */
  ghost function Filings(rt: Runtime, segments: seq<Segment>, uuid: nat -> string, owners: seq<Option<string>>, n: nat, s: Segment): nat
    requires n <= |segments|
    decreases |owners|
  {
    if owners == [] then 0
    else multiset(Owned(rt, segments, uuid, owners[0], n))[s] + Filings(rt, segments, uuid, owners[1..], n, s)
  }

  lemma {:induction false} NoFilings(rt: Runtime, segments: seq<Segment>, uuid: nat -> string, owners: seq<Option<string>>, s: Segment)
    ensures Filings(rt, segments, uuid, owners, 0, s) == 0
    decreases |owners|
  {
    if owners != [] {
      NoFilings(rt, segments, uuid, owners[1..], s);
    }
  }

  lemma {:induction false} FilingsStep(rt: Runtime, segments: seq<Segment>, uuid: nat -> string, owners: seq<Option<string>>, n: nat, s: Segment)
    requires 1 <= n <= |segments| && Distinct(owners)
    ensures Filings(rt, segments, uuid, owners, n, s) == Filings(rt, segments, uuid, owners, n - 1, s)
            + if segments[n - 1] == s && Owner(rt, segments, uuid, n - 1) in owners then 1 else 0
    decreases |owners|
  {
    hide Resolve;
    if owners != [] {
      FilingsStep(rt, segments, uuid, owners[1..], n, s);
      var owner := Owner(rt, segments, uuid, n - 1);
      assert owner in owners <==> owner == owners[0] || owner in owners[1..];
      assert owner == owners[0] ==> owner !in owners[1..];
    }
  }

  /** The part of a chat run that the tool-call bookkeeping touches. */
  class RunState {
    var processed: set<string>
    /** The ids of all calls that reasoning has contributed so far. */
    ghost var emitted: seq<string>

    ghost predicate Valid()
      reads this
    {
      Distinct(emitted) && Elements(emitted) <= processed
    }

    constructor ()
      ensures Valid() && processed == {} && emitted == []
    {
      processed, emitted := {}, [];
    }

    /** `normalize_tool_calls`. */
    method NormalizeToolCalls(rt: Runtime, calls: seq<Segment>, uuid: nat -> string) returns (r: seq<ToolCall>)
      requires Valid()
      modifies this`processed
      ensures Valid() && emitted == old(emitted) && r == Normalized(rt, calls, uuid, |calls|) && processed == old(processed) + Elements(Ids(r))
    {
      r := [];
      for i := 0 to |calls|
        invariant r == Normalized(rt, calls, uuid, i) && processed == old(processed) + Elements(Ids(r))
      {
        var call := Normalize(rt, calls[i], uuid(i));
        if call.Some? {
          IdsOfMore(r, call.value);
          assert Elements(Ids(r) + [call.value.id]) == Elements(Ids(r)) + {call.value.id};
          processed := processed + {call.value.id};
          r := r + [call.value];
        }
      }
    }

    /** `extract_reasoning_tool_calls`: new calls, the segments of every call, and what is left over. */
    method ExtractReasoningToolCalls(rt: Runtime, segments: seq<Segment>, uuid: nat -> string)
      returns (calls: seq<ToolCall>, context: map<string, seq<Segment>>, residual: seq<Segment>)
      requires Valid()
      modifies this
      ensures Valid() && emitted == old(emitted) + Ids(calls)
      ensures calls == FirstNew(Made(rt, segments, uuid, |segments|), old(processed))
      ensures processed == old(processed) + Elements(Ids(Made(rt, segments, uuid, |segments|)))
      ensures forall c :: c in context <==> Owns(rt, segments, uuid, c, |segments|)
      ensures forall c :: c in context ==> context[c] == Owned(rt, segments, uuid, Some(c), |segments|)
      ensures residual == Owned(rt, segments, uuid, None, |segments|)
    {
      hide Resolve, Owner, Owned, Owns, Filed, FirstNew, Ids;
      NothingFiled(rt, segments, uuid);
      calls, context := [], map[];
      var pending: seq<Segment> := [];
      ghost var last := 0;
      ghost var made: seq<ToolCall> := [];
      for k := 0 to |segments|
        invariant last <= k && pending == segments[last..k] && Filed(rt, segments, uuid, last, context)
        invariant forall j :: last <= j < k ==> Resolve(rt, segments[j], uuid(j)).None?
        invariant made == Made(rt, segments, uuid, k) && calls == FirstNew(made, old(processed))
        invariant processed == old(processed) + Elements(Ids(made))
        invariant emitted == old(emitted)
      {
        pending := pending + [segments[k]];
        assert pending == segments[last..k + 1];
        var resolved := Resolve(rt, segments[k], uuid(k));
        if resolved.Some? {
          var call := resolved.value;
          NextMade(made, call, old(processed));
          if call.id !in processed {
            processed := processed + {call.id};
            calls := calls + [call];
          }
          made := made + [call];
          forall i | last <= i <= k ensures Owner(rt, segments, uuid, i) == Some(call.id) {
            OwnerThrough(rt, segments, uuid, i, k);
          }
          ghost var before := context;
          context := context[call.id := (if call.id in context then context[call.id] else []) + pending];
          FiledMore(rt, segments, uuid, last, k, call.id, before, context);
          pending, last := [], k + 1;
        }
      }
      residual := pending;
      Leftover(rt, segments, uuid, last, context);
      FirstNewExact(made, old(processed));
      EmittedGrow(old(emitted), Ids(calls), old(processed), processed);
      emitted := emitted + Ids(calls);
    }

    /**
     * One iteration of the run loop: the structured calls first, then those in the reasoning.
     * A call that reasoning contributes repeats no id that has been seen before.
     */
    method ResolveToolCalls(rt: Runtime, structured: seq<Segment>, segments: seq<Segment>, uuid: nat -> string, more: nat -> string,
                            combineReasoning: bool) returns (pending: seq<ToolCall>)
      requires Valid()
      modifies this
      ensures Valid() && old(processed) <= processed
      ensures var base := Normalized(rt, structured, uuid, |structured|);
              var made := Made(rt, segments, more, |segments|);
              var reasoned := FirstNew(made, old(processed) + Elements(Ids(base)));
              && emitted == old(emitted) + Ids(reasoned)
              && processed == old(processed) + Elements(Ids(base)) + Elements(Ids(made))
              && (forall id :: id in Ids(reasoned) ==> id !in old(processed) && id !in Ids(base))
              && pending == if combineReasoning then base + reasoned else if base != [] then base else reasoned
    {
      hide Resolve, Normalize, FirstNew, Ids;
      var base := NormalizeToolCalls(rt, structured, uuid);
      var reasoned, context, residual := ExtractReasoningToolCalls(rt, segments, more);
      NewToAll(base, Made(rt, segments, more, |segments|), old(processed));
      pending := if combineReasoning then base + reasoned else if base != [] then base else reasoned;
    }
  }

  lemma NewToAll(base: seq<ToolCall>, made: seq<ToolCall>, processed: set<string>)
    ensures forall id :: id in Ids(FirstNew(made, processed + Elements(Ids(base)))) ==> id !in processed && id !in Ids(base)
  {
    FirstNewExact(made, processed + Elements(Ids(base)));
  }

  function Normalized(rt: Runtime, calls: seq<Segment>, uuid: nat -> string, n: nat): seq<ToolCall>
    requires n <= |calls|
  {
    if n == 0 then []
    else
      var r := Normalize(rt, calls[n - 1], uuid(n - 1));
      Normalized(rt, calls, uuid, n - 1) + if r.Some? then [r.value] else []
  }

  lemma Leftover(rt: Runtime, segments: seq<Segment>, uuid: nat -> string, last: nat, context: map<string, seq<Segment>>)
    requires last <= |segments| && Filed(rt, segments, uuid, last, context)
    requires forall j :: last <= j < |segments| ==> Resolve(rt, segments[j], uuid(j)).None?
    ensures Filed(rt, segments, uuid, last, context)
    ensures Owned(rt, segments, uuid, None, |segments|) == segments[last..]
    ensures forall c :: c in context <==> Owns(rt, segments, uuid, c, |segments|)
    ensures forall c :: c in context ==> context[c] == Owned(rt, segments, uuid, Some(c), |segments|)
  {
    hide Resolve, Owner, Owned;
    forall i | last <= i < |segments| ensures Owner(rt, segments, uuid, i) == None {
      NoOwner(rt, segments, uuid, i);
    }
    NothingOwned(rt, segments, uuid, None, last);
    OwnedStretch(rt, segments, uuid, None, last, |segments|, true);
    forall c | c in context ensures context[c] == Owned(rt, segments, uuid, Some(c), |segments|) {
      OwnedStretch(rt, segments, uuid, Some(c), last, |segments|, false);
    }
  }

  lemma NothingFiled(rt: Runtime, segments: seq<Segment>, uuid: nat -> string)
    ensures Filed(rt, segments, uuid, 0, map[])
    ensures Ids([]) == [] && forall processed :: FirstNew([], processed) == []
  {
  }

  lemma NextMade(made: seq<ToolCall>, call: ToolCall, processed: set<string>)
    ensures FirstNew(made + [call], processed) ==
            FirstNew(made, processed) + if call.id in processed + Elements(Ids(made)) then [] else [call]
    ensures Elements(Ids(made + [call])) == Elements(Ids(made)) + {call.id}
  {
    assert (made + [call])[..|made|] == made;
    IdsOfMore(made, call);
    assert Elements(Ids(made) + [call.id]) == Elements(Ids(made)) + {call.id};
  }

  lemma EmittedGrow(emitted: seq<string>, more: seq<string>, before: set<string>, after: set<string>)
    requires Distinct(emitted) && Elements(emitted) <= before <= after && Distinct(more)
    requires forall id :: id in more ==> id !in before && id in after
    ensures Distinct(emitted + more) && Elements(emitted + more) <= after
  {
    forall id | id in emitted ensures id !in more {
      assert id in Elements(emitted);
    }
    DistinctBoth(emitted, more);
    forall id | id in Elements(emitted + more) ensures id in after {
      assert id in emitted ==> id in Elements(emitted);
    }
  }
}
