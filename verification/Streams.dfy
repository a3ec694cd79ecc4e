/** Reassembling tool calls from streamed fragments (app/chat/tool_calls.py, app/chat/streaming.py). */
module Streams {
  import opened Wrappers
  import opened Payloads

  /** A call under construction. `id` and `kind` are kept as the provider sent them. */
  datatype Entry = Entry(id: Value, kind: Value, name: Value, arguments: string)

  /** The position of a call in the message; `int()` lets providers send negative ones as well. */
  datatype Index = Index(n: int)

  type Fragments = map<Index, Entry>

  const FUNCTION := Text("function")

  /** The index of an update; none and anything `int()` refuses count as zero. */
  function IndexOf(rt: Runtime, update: map<string, Value>): Index {
    var v := Get(update, "index");
    if v == Null then Index(0)
    else
      match rt.toInt(v)
      case Some(n) => Index(n)
      case None => Index(0)
  }

  function Blank(update: map<string, Value>): Entry {
    Entry(Get(update, "id"), Or(Get(update, "type"), FUNCTION), Null, "")
  }

  /** What one update does to its entry. */
  function Apply(e: Entry, update: map<string, Value>): Entry {
    var f := FieldsOf(Get(update, "function"));
    Entry(Or(Get(update, "id"), e.id), Or(Get(update, "type"), e.kind), Or(Get(f, "name"), e.name),
          e.arguments + if Get(f, "arguments").Text? then Get(f, "arguments").text else "")
  }

  /** Updates that are no dictionaries are skipped. */
  function Step(rt: Runtime, fragments: Fragments, update: Value): Fragments {
    if !update.Dict? then fragments
    else
      var i := IndexOf(rt, update.fields);
      fragments[i := Apply(if i in fragments then fragments[i] else Blank(update.fields), update.fields)]
  }

  function Fold(rt: Runtime, fragments: Fragments, updates: seq<Value>): Fragments {
    if updates == [] then fragments else Step(rt, Fold(rt, fragments, updates[..|updates| - 1]), updates[|updates| - 1])
  }

  // ---- which update belongs where ---------------------------------------------------------------

  /** The payload of the update has an index, and `int()` makes `n` of it. */
  predicate Converts(rt: Runtime, update: map<string, Value>, n: int) {
    "index" in update && update["index"] != Null && rt.toInt(update["index"]) == Some(n)
  }

  /** The update is one for position `i`; without an index that converts it is one for position 0. */
  ghost predicate IsFor(rt: Runtime, u: Value, i: Index) {
    u.Dict? && (Converts(rt, u.fields, i.n) || (i.n == 0 && forall n :: !Converts(rt, u.fields, n)))
  }

  lemma IndexMeaning(rt: Runtime, u: Value)
    requires u.Dict?
    ensures forall i :: IsFor(rt, u, i) <==> i == IndexOf(rt, u.fields)
  {
    var index := IndexOf(rt, u.fields);
    assert forall n :: Converts(rt, u.fields, n) ==> n == index.n;
    if forall n :: !Converts(rt, u.fields, n) {
      assert "index" in u.fields && u.fields["index"] != Null && rt.toInt(u.fields["index"]).Some? ==>
               Converts(rt, u.fields, rt.toInt(u.fields["index"]).value);
    }
  }

  /** The updates for one index, in order. */
  ghost function Lane(rt: Runtime, updates: seq<Value>, i: Index): seq<map<string, Value>> {
    if updates == [] then []
    else
      var u := updates[|updates| - 1];
      Lane(rt, updates[..|updates| - 1], i) + if IsFor(rt, u, i) then [u.fields] else []
  }

  /** An update leaves all entries alone but the one for its position. */
  lemma StepChangesOne(rt: Runtime, fragments: Fragments, u: Value)
    ensures var now := Step(rt, fragments, u);
            forall i :: if IsFor(rt, u, i) then i in now
                        else (i in now <==> i in fragments) && (i in now ==> now[i] == fragments[i])
  {
    hide IndexOf, Apply, Blank;
    if u.Dict? {
      IndexMeaning(rt, u);
    }
  }

  /** Entries are made for exactly the positions that some update is for. */
  lemma {:induction false} EntriesExact(rt: Runtime, fragments: Fragments, updates: seq<Value>, i: Index)
    ensures i in Fold(rt, fragments, updates) <==> i in fragments || exists u :: u in updates && IsFor(rt, u, i)
  {
    hide IsFor, Step;
    if updates != [] {
      var n := |updates| - 1;
      assert updates == updates[..n] + [updates[n]];
      EntriesExact(rt, fragments, updates[..n], i);
      StepChangesOne(rt, Fold(rt, fragments, updates[..n]), updates[n]);
    }
  }

  // ---- what a lane amounts to -------------------------------------------------------------------

  /** The last value of the key that is not empty, or `other`. */
  function LastOf(lane: seq<map<string, Value>>, key: string, other: Value): Value {
    if lane == [] then other else Or(Get(lane[|lane| - 1], key), LastOf(lane[..|lane| - 1], key, other))
  }

  function LastName(lane: seq<map<string, Value>>): Value {
    if lane == [] then Null
    else Or(Get(FieldsOf(Get(lane[|lane| - 1], "function")), "name"), LastName(lane[..|lane| - 1]))
  }

  /** The fragments of the arguments, one after the other. */
  function Joined(lane: seq<map<string, Value>>): string {
    if lane == [] then ""
    else
      var v := Get(FieldsOf(Get(lane[|lane| - 1], "function")), "arguments");
      Joined(lane[..|lane| - 1]) + if v.Text? then v.text else ""
  }

  /** The call that a lane describes; an empty id that comes first stays until a better one arrives. */
  function Assembled(lane: seq<map<string, Value>>): Entry
    requires lane != []
  {
    Entry(LastOf(lane, "id", Get(lane[0], "id")), LastOf(lane, "type", FUNCTION), LastName(lane), Joined(lane))
  }

  lemma LaneMore(lane: seq<map<string, Value>>, u: map<string, Value>, key: string, other: Value)
    ensures LastOf(lane + [u], key, other) == Or(Get(u, key), LastOf(lane, key, other))
    ensures LastName(lane + [u]) == Or(Get(FieldsOf(Get(u, "function")), "name"), LastName(lane))
    ensures Joined(lane + [u]) == Joined(lane) + var v := Get(FieldsOf(Get(u, "function")), "arguments"); if v.Text? then v.text else ""
  {
    hide Truthy, FieldsOf;
    var more := lane + [u];
    assert more[..|more| - 1] == lane && more[|more| - 1] == u;
  }

  lemma AssembledMore(lane: seq<map<string, Value>>, u: map<string, Value>)
    ensures Assembled(lane + [u]) == Apply(if lane == [] then Blank(u) else Assembled(lane), u)
  {
    hide Truthy, FieldsOf, Get;
    var more := lane + [u];
    LaneMore(lane, u, "id", Get(more[0], "id"));
    LaneMore(lane, u, "type", FUNCTION);
    if lane != [] {
      assert more[0] == lane[0];
    }
  }

  /** The entry for `i` is what the lane describes; there is none for an empty lane. */
  ghost predicate EntryMatches(fragments: Fragments, i: Index, lane: seq<map<string, Value>>) {
    (i in fragments <==> lane != []) && (i in fragments ==> fragments[i] == Assembled(lane))
  }

  lemma StepMatches(rt: Runtime, fragments: Fragments, u: Value, i: Index, lane: seq<map<string, Value>>)
    requires EntryMatches(fragments, i, lane)
    ensures EntryMatches(Step(rt, fragments, u), i, lane + if IsFor(rt, u, i) then [u.fields] else [])
  {
    hide Assembled, IndexOf, Apply, Blank;
    if u.Dict? {
      IndexMeaning(rt, u);
    }
    if IsFor(rt, u, i) {
      AssembledMore(lane, u.fields);
    } else {
      assert lane + [] == lane;
    }
  }

  /** Every entry is what its own lane describes, and there is one for every lane that is not empty. */
  lemma {:induction false} FoldIsByLane(rt: Runtime, updates: seq<Value>, i: Index)
    ensures EntryMatches(Fold(rt, map[], updates), i, Lane(rt, updates, i))
  {
    hide Assembled, IndexOf, Apply, Blank;
    if updates != [] {
      var n := |updates| - 1;
      FoldIsByLane(rt, updates[..n], i);
      StepMatches(rt, Fold(rt, map[], updates[..n]), updates[n], i, Lane(rt, updates[..n], i));
    }
  }

  /** Interleaving does not matter: what counts is the order within each index. */
  lemma InterleavingIrrelevant(rt: Runtime, updates: seq<Value>, others: seq<Value>)
    requires forall i :: Lane(rt, updates, i) == Lane(rt, others, i)
    ensures Fold(rt, map[], updates) == Fold(rt, map[], others)
  {
    hide Assembled, Lane, Fold;
    var r, s := Fold(rt, map[], updates), Fold(rt, map[], others);
    forall i ensures (i in r <==> i in s) && (i in r ==> r[i] == s[i]) {
      assert Lane(rt, updates, i) == Lane(rt, others, i);
      FoldIsByLane(rt, updates, i);
      FoldIsByLane(rt, others, i);
    }
    assert r == s;
  }

  lemma {:induction false} FoldBatches(rt: Runtime, fragments: Fragments, a: seq<Value>, b: seq<Value>)
    ensures Fold(rt, fragments, a + b) == Fold(rt, Fold(rt, fragments, a), b)
    decreases |b|
  {
    if b == [] {
      assert a + b == a;
    } else {
      var n := |b| - 1;
      assert (a + b)[..|a| + n] == a + b[..n];
      FoldBatches(rt, fragments, a, b[..n]);
    }
  }

  // ---- the stream ---------------------------------------------------------------------------------

  datatype Delta = Delta(text: Option<string>, toolCalls: seq<Value>)

  datatype StreamedCall = StreamedCall(id: Value, kind: Value, name: Value, arguments: string)

  ghost predicate Ascending(s: seq<Index>) {
    forall i, j :: 0 <= i < j < |s| ==> s[i].n < s[j].n
  }

  function TextOf(d: Delta): string {
    if d.text.Some? then d.text.value else ""
  }

  function AllText(deltas: seq<Delta>): string {
    if deltas == [] then "" else AllText(deltas[..|deltas| - 1]) + TextOf(deltas[|deltas| - 1])
  }

  function AllUpdates(deltas: seq<Delta>): seq<Value> {
    if deltas == [] then [] else AllUpdates(deltas[..|deltas| - 1]) + deltas[|deltas| - 1].toolCalls
  }

  function CallOf(e: Entry, generated: string): StreamedCall {
    StreamedCall(Or(e.id, Text(generated)), Or(e.kind, FUNCTION), e.name, e.arguments)
  }

  /** The named entries of these indices, in their order. */
  function CallsAt(fragments: Fragments, indices: seq<Index>, uuid: Index -> string): seq<StreamedCall>
    requires forall i :: i in indices ==> i in fragments
  {
    if indices == [] then []
    else
      var n := |indices| - 1;
      var last := indices[n];
      assert last in indices;
      CallsAt(fragments, indices[..n], uuid) + if Truthy(fragments[last].name) then [CallOf(fragments[last], uuid(last))] else []
  }

  // ---- what a final call holds --------------------------------------------------------------------

  /** `v` is the last value that is not empty, if there is one, else `other`. */
  ghost predicate IsLast(values: seq<Value>, other: Value, v: Value) {
    if exists u :: u in values && Truthy(u) then exists k: nat :: LastAt(values, v, k) else v == other
  }

  ghost predicate LastAt(values: seq<Value>, v: Value, k: nat) {
    k < |values| && values[k] == v && Truthy(v) && forall j :: k < j < |values| ==> !Truthy(values[j])
  }

  /** What the updates of a lane hold under a key, and in their function payload. */
  function Column(lane: seq<map<string, Value>>, key: string): seq<Value> {
    seq(|lane|, k requires 0 <= k < |lane| => Get(lane[k], key))
  }

  function FunctionColumn(lane: seq<map<string, Value>>, key: string): seq<Value> {
    seq(|lane|, k requires 0 <= k < |lane| => Get(FieldsOf(Get(lane[k], "function")), key))
  }

  /** The texts among the values, one after the other. */
  function Texts(values: seq<Value>): string {
    if values == [] then "" else Texts(values[..|values| - 1]) + if values[|values| - 1].Text? then values[|values| - 1].text else ""
  }

  /**
   * The call of a lane: its last id, type and name that are not empty, and all fragments of its
   * arguments; a call without an id gets the generated one.
   */
  ghost predicate Describes(lane: seq<map<string, Value>>, generated: string, c: StreamedCall) {
    && IsLast(Column(lane, "id"), Text(generated), c.id)
    && IsLast(Column(lane, "type"), Text("function"), c.kind)
    && IsLast(FunctionColumn(lane, "name"), Null, c.name)
    && c.arguments == Texts(FunctionColumn(lane, "arguments"))
  }

  ghost predicate IsNamed(lane: seq<map<string, Value>>) {
    exists name :: name in FunctionColumn(lane, "name") && Truthy(name)
  }

  /** One call for each named lane of these indices, in their order. */
  ghost predicate ListsCalls(rt: Runtime, updates: seq<Value>, indices: seq<Index>, uuid: Index -> string, calls: seq<StreamedCall>)
    decreases |indices|
  {
    if indices == [] then calls == []
    else
      var n := |indices| - 1;
      var lane := Lane(rt, updates, indices[n]);
      if IsNamed(lane) then
        && calls != [] && Describes(lane, uuid(indices[n]), calls[|calls| - 1])
        && ListsCalls(rt, updates, indices[..n], uuid, calls[..|calls| - 1])
      else ListsCalls(rt, updates, indices[..n], uuid, calls)
  }

  lemma IsLastMore(values: seq<Value>, u: Value, other: Value, v: Value)
    requires IsLast(values, other, v)
    ensures IsLast(values + [u], other, Or(u, v))
  {
    var more := values + [u];
    if Truthy(u) {
      assert more[|values|] == u;
      assert LastAt(more, u, |values|);
    } else if x :| x in values && Truthy(x) {
      var k: nat :| LastAt(values, v, k);
      assert x in more;
      assert LastAt(more, v, k);
    } else {
      assert forall x :: x in more ==> x in values || x == u;
    }
  }

  lemma ColumnMore(lane: seq<map<string, Value>>, u: map<string, Value>, key: string)
    ensures Column(lane + [u], key) == Column(lane, key) + [Get(u, key)]
    ensures FunctionColumn(lane + [u], key) == FunctionColumn(lane, key) + [Get(FieldsOf(Get(u, "function")), key)]
  {
  }

  lemma {:induction false} LastOfMeaning(lane: seq<map<string, Value>>, key: string, other: Value)
    ensures IsLast(Column(lane, key), other, LastOf(lane, key, other))
  {
    hide Truthy, IsLast;
    if lane == [] {
      NothingLast(Column(lane, key), other);
    } else {
      var n := |lane| - 1;
      assert lane == lane[..n] + [lane[n]];
      LastOfMeaning(lane[..n], key, other);
      ColumnMore(lane[..n], lane[n], key);
      IsLastMore(Column(lane[..n], key), Get(lane[n], key), other, LastOf(lane[..n], key, other));
    }
  }

  lemma NothingLast(values: seq<Value>, other: Value)
    requires values == []
    ensures IsLast(values, other, other)
  {
  }

  lemma {:induction false} FunctionMeaning(lane: seq<map<string, Value>>)
    ensures IsLast(FunctionColumn(lane, "name"), Null, LastName(lane))
    ensures Joined(lane) == Texts(FunctionColumn(lane, "arguments"))
  {
    hide Truthy, IsLast, FieldsOf;
    if lane == [] {
      NothingLast(FunctionColumn(lane, "name"), Null);
    } else {
      var n := |lane| - 1;
      var f := FieldsOf(Get(lane[n], "function"));
      assert lane == lane[..n] + [lane[n]];
      FunctionMeaning(lane[..n]);
      ColumnMore(lane[..n], lane[n], "name");
      ColumnMore(lane[..n], lane[n], "arguments");
      IsLastMore(FunctionColumn(lane[..n], "name"), Get(f, "name"), Null, LastName(lane[..n]));
      var texts := FunctionColumn(lane[..n], "arguments");
      assert (texts + [Get(f, "arguments")])[..|texts|] == texts;
    }
  }

  lemma CallDescribes(lane: seq<map<string, Value>>, generated: string)
    requires lane != []
    ensures Describes(lane, generated, CallOf(Assembled(lane), generated))
    ensures Truthy(Assembled(lane).name) <==> IsNamed(lane)
  {
    hide LastOf, LastName, Joined, Texts;
    FunctionMeaning(lane);
    LastOfMeaning(lane, "id", Get(lane[0], "id"));
    LastOfMeaning(lane, "type", FUNCTION);
    var ids := Column(lane, "id");
    assert ids[0] in ids;
    OrOfLast(ids, Get(lane[0], "id"), Text(generated), LastOf(lane, "id", Get(lane[0], "id")));
    OrOfLast(Column(lane, "type"), FUNCTION, FUNCTION, LastOf(lane, "type", FUNCTION));
  }

  lemma OrOfLast(values: seq<Value>, other: Value, instead: Value, v: Value)
    requires IsLast(values, other, v) && (!Truthy(other) || other == instead || other in values)
    ensures IsLast(values, instead, Or(v, instead))
  {
    if u :| u in values && Truthy(u) {
      var k: nat :| LastAt(values, v, k);
    }
  }

  lemma {:induction false} CallsListed(rt: Runtime, updates: seq<Value>, fragments: Fragments, indices: seq<Index>, uuid: Index -> string)
    requires forall i :: EntryMatches(fragments, i, Lane(rt, updates, i))
    requires forall i :: i in indices ==> i in fragments
    ensures ListsCalls(rt, updates, indices, uuid, CallsAt(fragments, indices, uuid))
    decreases |indices|
  {
    hide Truthy, Describes, IsNamed, CallOf, Assembled, Lane;
    if indices != [] {
      var n := |indices| - 1;
      var last := indices[n];
      assert last in indices;
      assert EntryMatches(fragments, last, Lane(rt, updates, last));
      CallsListed(rt, updates, fragments, indices[..n], uuid);
      CallDescribes(Lane(rt, updates, last), uuid(last));
      var before, calls := CallsAt(fragments, indices[..n], uuid), CallsAt(fragments, indices, uuid);
      if Truthy(fragments[last].name) {
        assert calls == before + [CallOf(fragments[last], uuid(last))];
        assert calls[..|calls| - 1] == before;
      } else {
        assert calls == before;
      }
    }
  }

  function Inserted(x: Index, s: seq<Index>): (r: seq<Index>)
    requires Ascending(s) && x !in s
    ensures Ascending(r) && |r| == |s| + 1 && (forall y :: y in r <==> y == x || y in s)
  {
    if s == [] || s[|s| - 1].n < x.n then s + [x]
    else
      assert s == s[..|s| - 1] + [s[|s| - 1]];
      var r := Inserted(x, s[..|s| - 1]);
      assert forall i :: 0 <= i < |r| ==> r[i] in r;
      r + [s[|s| - 1]]
  }

  /** Python's `sorted` on the indices. */
  method SortedIndices(fragments: Fragments) returns (r: seq<Index>)
    ensures Ascending(r) && forall i :: i in r <==> i in fragments
  {
    r := [];
    var todo := fragments.Items;
    while todo != {}
      invariant Ascending(r) && todo <= fragments.Items
      invariant forall i :: i in r ==> i in fragments && (i, fragments[i]) !in todo
      invariant forall i :: i in fragments ==> i in r || (i, fragments[i]) in todo
      decreases |todo|
    {
      var item :| item in todo;
      r, todo := Inserted(item.0, r), todo - {item};
    }
  }

  /** There is one ascending order of the indices only. */
  lemma {:induction false} AscendingUnique(a: seq<Index>, b: seq<Index>)
    requires Ascending(a) && Ascending(b) && forall x :: x in a <==> x in b
    ensures a == b
  {
    if a != [] {
      NonEmptyToo(a, b);
    }
    if b != [] {
      NonEmptyToo(b, a);
      var m, n := |a| - 1, |b| - 1;
      SameLast(a, b);
      forall x ensures x in a[..m] <==> x in b[..n] {
        assert x in a[..m] <==> x in a && x != a[m];
        assert x in b[..n] <==> x in b && x != b[n];
      }
      AscendingUnique(a[..m], b[..n]);
      assert a == a[..m] + [a[m]] && b == b[..n] + [b[n]];
    }
  }

  lemma NonEmptyToo(a: seq<Index>, b: seq<Index>)
    requires a != [] && forall x :: x in a ==> x in b
    ensures b != []
  {
    assert a[0] in b;
  }

  lemma SameLast(a: seq<Index>, b: seq<Index>)
    requires Ascending(a) && Ascending(b) && a != [] && b != [] && forall x :: x in a <==> x in b
    ensures a[|a| - 1] == b[|b| - 1]
  {
    assert a[|a| - 1] in b && b[|b| - 1] in a;
  }

  /** Streams that agree within each index end in the same calls, whatever the interleaving and the chunking. */
  lemma SameCalls(rt: Runtime, a: seq<Delta>, b: seq<Delta>, order: seq<Index>, other: seq<Index>, uuid: Index -> string)
    requires forall i :: Lane(rt, AllUpdates(a), i) == Lane(rt, AllUpdates(b), i)
    requires Ascending(order) && forall i :: i in order <==> i in Fold(rt, map[], AllUpdates(a))
    requires Ascending(other) && forall i :: i in other <==> i in Fold(rt, map[], AllUpdates(b))
    ensures CallsAt(Fold(rt, map[], AllUpdates(a)), order, uuid) == CallsAt(Fold(rt, map[], AllUpdates(b)), other, uuid)
  {
    InterleavingIrrelevant(rt, AllUpdates(a), AllUpdates(b));
    AscendingUnique(order, other);
  }

  class StreamState {
    var contentParts: seq<string>
    var fragments: Fragments
    /** Everything that has been received. */
    ghost var received: seq<Delta>

    ghost predicate Valid(rt: Runtime)
      reads this
    {
      Concat(contentParts) == AllText(received) && fragments == Fold(rt, map[], AllUpdates(received))
    }

    constructor (rt: Runtime)
      ensures Valid(rt) && received == []
    {
      contentParts, fragments, received := [], map[], [];
    }

    /** `accumulate_stream_tool_calls`: each update in turn finds or opens its entry and is merged into it. */
    method Accumulate(rt: Runtime, updates: seq<Value>)
      modifies this`fragments
      ensures fragments == Fold(rt, old(fragments), updates)
      ensures forall i :: i in fragments <==> i in old(fragments) || exists u :: u in updates && IsFor(rt, u, i)
    {
      hide Apply, IndexOf, Blank;
      for k := 0 to |updates|
        invariant fragments == Fold(rt, old(fragments), updates[..k])
      {
        assert updates[..k + 1][..k] == updates[..k];
        var update := updates[k];
        if update.Dict? {
          var u := update.fields;
          var index := IndexOf(rt, u);
          var entry := Merge(if index in fragments then fragments[index] else Blank(u), u);
          fragments := fragments[index := entry];
        }
      }
      assert updates[..|updates|] == updates;
      forall i ensures i in fragments <==> i in old(fragments) || exists u :: u in updates && IsFor(rt, u, i) {
        EntriesExact(rt, old(fragments), updates, i);
      }
    }

    /** The assignments that merge one update into its entry. */
    static method Merge(found: Entry, u: map<string, Value>) returns (entry: Entry)
      ensures entry == Apply(found, u)
    {
      entry := found;
      if Truthy(Get(u, "id")) {
        entry := entry.(id := u["id"]);
      }
      if Truthy(Get(u, "type")) {
        entry := entry.(kind := u["type"]);
      }
      var f := Get(u, "function");
      if f.Dict? {
        if Truthy(Get(f.fields, "name")) {
          entry := entry.(name := f.fields["name"]);
        }
        var fragment := Get(f.fields, "arguments");
        if fragment.Text? {
          entry := entry.(arguments := entry.arguments + fragment.text);
        }
      }
    }

    /** `_handle_stream_delta`; the event that it yields is the new token, if there is one. */
    method HandleDelta(rt: Runtime, delta: Delta) returns (token: Option<string>)
      requires Valid(rt)
      modifies this
      ensures Valid(rt) && received == old(received) + [delta]
      ensures token == if delta.text.Some? && delta.text.value != "" then delta.text else None
    {
      token := None;
      if delta.text.Some? && delta.text.value != "" {
        ConcatMore(contentParts, delta.text.value);
        contentParts := contentParts + [delta.text.value];
        token := delta.text;
      }
      FoldBatches(rt, map[], AllUpdates(received), delta.toolCalls);
      if delta.toolCalls != [] {
        Accumulate(rt, delta.toolCalls);
      }
      assert (received + [delta])[..|received|] == received;
      received := received + [delta];
    }

    /** `_finalize_stream_message`: the whole text, and the named calls by ascending index. */
    method Finalize(rt: Runtime, uuid: Index -> string) returns (content: string, calls: seq<StreamedCall>, ghost indices: seq<Index>)
      requires Valid(rt)
      ensures content == AllText(received)
      ensures Ascending(indices) && forall i :: i in indices <==> Lane(rt, AllUpdates(received), i) != []
      ensures forall i :: i in indices ==> i in fragments && fragments[i] == Assembled(Lane(rt, AllUpdates(received), i))
      ensures ListsCalls(rt, AllUpdates(received), indices, uuid, calls)
    {
      var order := SortedIndices(fragments);
      calls := [];
      for k := 0 to |order|
        invariant calls == CallsAt(fragments, order[..k], uuid)
      {
        assert order[..k + 1][..k] == order[..k];
        var e := fragments[order[k]];
        if Truthy(e.name) {
          calls := calls + [CallOf(e, uuid(order[k]))];
        }
      }
      assert order[..|order|] == order;
      content := Concat(contentParts);
      forall i ensures EntryMatches(fragments, i, Lane(rt, AllUpdates(received), i)) {
        FoldIsByLane(rt, AllUpdates(received), i);
      }
      indices := order;
      CallsListed(rt, AllUpdates(received), fragments, order, uuid);
    }
  }

  /** Python's `"".join(parts)`. */
  function Concat(parts: seq<string>): string {
    if parts == [] then "" else parts[0] + Concat(parts[1..])
  }

  lemma {:induction false} ConcatMore(parts: seq<string>, s: string)
    ensures Concat(parts + [s]) == Concat(parts) + s
  {
    if parts != [] {
      assert (parts + [s])[1..] == parts[1..] + [s];
      ConcatMore(parts[1..], s);
    }
  }
}
