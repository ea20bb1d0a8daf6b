/** From a workspace to the testcase language: one HTTP step per workspace step. */
module Compiler {
  import opened Optional
  import opened Text
  import opened Workspaces
  import opened PathTemplates
  import D = Dictionaries
  import S = Steps
  import T = Templates

  function Location(step: Step, f: Field): string {
    if f.location.Some? then Fold(f.location.value)
    else if ContainsText(Fold(step.path), Fold(Hole(f.name))) then "path" else "body"
  }

  function Key(f: Field): string { if f.id.Some? then f.id.value else f.name }

  predicate UniqueKeys(fields: seq<Field>) {
    forall i, j :: 0 <= i < j < |fields| ==> Key(fields[i]) != Key(fields[j])
  }

  predicate Targets(b: Binding, step: string) { Fold(b.targetStep) == Fold(step) }

  predicate Into(b: Binding, step: string, key: string) { Targets(b, step) && b.targetFieldId == key }

  /** The source variable of the last binding into that field. */
  function BoundTo(bindings: seq<Binding>, step: string, key: string): (r: Option<string>)
    ensures r.Some? ==> exists b :: b in bindings && Targets(b, step) && b.sourceVariable == r.value
  {
    if bindings == [] then None
    else
      var last := bindings[|bindings| - 1];
      if Into(last, step, key) then Some(last.sourceVariable)
      else BoundTo(bindings[..|bindings| - 1], step, key)
  }

  predicate LastInto(bindings: seq<Binding>, step: string, key: string, i: nat) {
    i < |bindings| && Into(bindings[i], step, key) && forall j :: i < j < |bindings| ==> !Into(bindings[j], step, key)
  }

  lemma BoundNext(bindings: seq<Binding>, step: string, key: string)
    requires bindings != []
    ensures var n := |bindings| - 1;
            BoundTo(bindings, step, key) ==
            if Into(bindings[n], step, key) then Some(bindings[n].sourceVariable) else BoundTo(bindings[..n], step, key)
  {
    hide Into;
  }

  lemma LastIntoNext(bindings: seq<Binding>, step: string, key: string, i: nat)
    requires bindings != [] && !Into(bindings[|bindings| - 1], step, key)
    requires LastInto(bindings[..|bindings| - 1], step, key, i)
    ensures LastInto(bindings, step, key, i)
  {
    hide Into;
    var before := bindings[..|bindings| - 1];
    assert forall j :: 0 <= j < |before| ==> before[j] == bindings[j];
  }

  lemma NoneInto(bindings: seq<Binding>, step: string, key: string)
    requires bindings != [] && !Into(bindings[|bindings| - 1], step, key)
    requires forall b :: b in bindings[..|bindings| - 1] ==> !Into(b, step, key)
    ensures forall b :: b in bindings ==> !Into(b, step, key)
  {
    hide Into;
    assert bindings == bindings[..|bindings| - 1] + [bindings[|bindings| - 1]];
  }

  lemma NothingBoundTo(step: string, key: string)
    ensures BoundTo([], step, key) == None
  {
  }

  /** A field is bound when some binding goes into it, and then to the source of the last one. */
  lemma {:induction false} BoundToLast(bindings: seq<Binding>, step: string, key: string) returns (i: int)
    ensures i == -1 ==> BoundTo(bindings, step, key) == None && forall b :: b in bindings ==> !Into(b, step, key)
    ensures i != -1 ==> 0 <= i && LastInto(bindings, step, key, i) && BoundTo(bindings, step, key) == Some(bindings[i].sourceVariable)
  {
    hide Into, BoundTo;
    i := -1;
    if bindings == [] {
      NothingBoundTo(step, key);
    } else {
      var n := |bindings| - 1;
      BoundNext(bindings, step, key);
      if Into(bindings[n], step, key) {
        i := n;
      } else {
        i := BoundToLast(bindings[..n], step, key);
        if i == -1 { NoneInto(bindings, step, key); } else { LastIntoNext(bindings, step, key, i); }
      }
    }
  }

  /** The text that goes where the field goes. */
  function ValueOf(ws: Workspace, step: Step, f: Field): string {
    var source := BoundTo(ws.bindings, step.name, Key(f));
    if source.Some? then T.Placeholder(source.value) else f.value
  }

  // ---- routes ----

  function FieldsAt(step: Step, fields: seq<Field>, location: string): (r: seq<Field>)
    ensures forall f :: f in r <==> f in fields && Location(step, f) == location
  {
    if fields == [] then []
    else
      var rest := FieldsAt(step, fields[1..], location);
      if Location(step, fields[0]) == location then [fields[0]] + rest else rest
  }

  function Texts(ws: Workspace, step: Step, fields: seq<Field>): (r: Fields)
    ensures |r| == |fields| && forall i :: 0 <= i < |r| ==> r[i] == (fields[i].name, ValueOf(ws, step, fields[i]))
  {
    seq(|fields|, i requires 0 <= i < |fields| => (fields[i].name, ValueOf(ws, step, fields[i])))
  }

  function Assignments(pairs: Fields): (r: seq<string>)
    ensures |r| == |pairs| && forall i :: 0 <= i < |r| ==> r[i] == pairs[i].0 + "=" + pairs[i].1
  {
    seq(|pairs|, i requires 0 <= i < |pairs| => pairs[i].0 + "=" + pairs[i].1)
  }

  function CompiledPath(ws: Workspace, step: Step): string {
    var path := ReplaceAll(step.path, Texts(ws, step, FieldsAt(step, step.requestFields, "path")));
    var query := Join(Assignments(Texts(ws, step, FieldsAt(step, step.requestFields, "query"))), "&");
    if query == "" then path else path + "?" + query
  }

  // ---- bodies and headers ----

  /** `JavaScriptEncoder.Default`: the characters that stand for themselves inside a JSON string. */
  predicate Safe(c: char) {
    ' ' <= c <= '~' && c != '"' && c != '&' && c != '\'' && c != '+' && c != '<' && c != '>' && c != '`' && c != '\\'
  }

  function Hex(d: nat): char
    requires d < 16
  {
    if d < 10 then Digit(d) else ('A' as int + (d - 10)) as char
  }

  function Unit(code: nat): string
    requires code < 0x1_0000
  {
    ['\\', 'u', Hex(code / 4096), Hex(code / 256 % 16), Hex(code / 16 % 16), Hex(code % 16)]
  }

  function EscapeChar(c: char): string {
    if Safe(c) then [c]
    else if c == '\\' then "\\\\"
    else if c == '\n' then "\\n"
    else if c == '\r' then "\\r"
    else if c == '\t' then "\\t"
    else if c == '\U{0008}' then "\\b"
    else if c == '\U{000C}' then "\\f"
    else if c as int < 0x1_0000 then Unit(c as int)
    else
      var rest := c as int - 0x1_0000;
      Unit(0xD800 + rest / 1024) + Unit(0xDC00 + rest % 1024)
  }

  function Escape(s: string): string { if s == "" then "" else EscapeChar(s[0]) + Escape(s[1..]) }

  function Member(pair: (string, string)): string {
    "\"" + Escape(pair.0) + "\":\"" + Escape(pair.1) + "\""
  }

  function Members(pairs: Fields): (r: seq<string>)
    ensures |r| == |pairs| && forall i :: 0 <= i < |r| ==> r[i] == Member(pairs[i])
  {
    seq(|pairs|, i requires 0 <= i < |pairs| => Member(pairs[i]))
  }

  /** The raw text of a flat JSON object. */
  function RawObject(pairs: Fields): string { "{" + Join(Members(pairs), ",") + "}" }

  /** A JSON object tells its members apart exactly, the header dictionary ignores case. */
  function Body(ws: Workspace, step: Step): Fields {
    D.Build(Texts(ws, step, FieldsAt(step, step.requestFields, "body")), D.Exactly)
  }

  function Headers(ws: Workspace, step: Step): Fields {
    D.Build(Texts(ws, step, FieldsAt(step, step.requestFields, "header")), Fold)
  }

  // ---- steps ----

  function Saves(variables: seq<Variable>, step: string): (r: Fields)
    ensures forall p :: p in r <==> exists v :: v in variables && Fold(v.sourceStep) == Fold(step) && p == (v.name, v.jsonPath)
  {
    if variables == [] then []
    else
      assert forall v :: v in variables <==> v == variables[0] || v in variables[1..];
      var rest := Saves(variables[1..], step);
      if Fold(variables[0].sourceStep) == Fold(step) then [(variables[0].name, variables[0].jsonPath)] + rest else rest
  }

  predicate DistinctKeys(pairs: Fields) { forall i, j :: 0 <= i < j < |pairs| ==> Fold(pairs[i].0) != Fold(pairs[j].0) }

  predicate AllReturned(saves: Fields, fields: seq<Field>) {
    forall p :: p in saves ==> exists f :: f in fields && Fold(f.jsonPath) == Fold(p.1)
  }

  /** Dictionary construction and the response-field check succeed. */
  predicate Compiles(ws: Workspace, step: Step) {
    UniqueKeys(step.requestFields)
    && DistinctKeys(Saves(ws.variables, step.name)) && AllReturned(Saves(ws.variables, step.name), step.responseFields)
  }

  function OrNone(pairs: Fields): Option<Fields> { if pairs == [] then None else Some(pairs) }

  function CompiledStep(ws: Workspace, step: Step): S.StepSpec {
    var body := Body(ws, step);
    S.StepSpec(step.name, None, None,
      Some(S.RequestSpec(Some(step.method_), Some(CompiledPath(ws, step)),
        if body == [] then None else Some(RawObject(body)), None, Headers(ws, step), None, None)),
      Some(S.ExpectSpec(Some(200), None, None, [], None, None)),
      OrNone(Saves(ws.variables, step.name)), false, None, None)
  }

  function CompiledSteps(ws: Workspace): (r: seq<S.StepSpec>)
    ensures |r| == |ws.steps| && forall i :: 0 <= i < |r| ==> r[i] == CompiledStep(ws, ws.steps[i])
  {
    seq(|ws.steps|, i requires 0 <= i < |ws.steps| => CompiledStep(ws, ws.steps[i]))
  }

  predicate Compilable(ws: Workspace) { ws.steps != [] && forall s :: s in ws.steps ==> Compiles(ws, s) }

  /** Each body member and each header is there once, with the value of the last field of its name. */
  lemma LastFieldWins(ws: Workspace, step: Step, name: string)
    ensures var texts := Texts(ws, step, FieldsAt(step, step.requestFields, "body"));
            D.DistinctKeys(Body(ws, step), D.Exactly)
            && D.Lookup(Body(ws, step), name, D.Exactly) == D.LastValue(texts, name, D.Exactly)
    ensures var texts := Texts(ws, step, FieldsAt(step, step.requestFields, "header"));
            D.DistinctKeys(Headers(ws, step), Fold)
            && D.Lookup(Headers(ws, step), name, Fold) == D.LastValue(texts, name, Fold)
  {
    hide ValueOf, Location, D.Build, D.Lookup, D.LastValue, D.DistinctKeys;
    D.BuildExactly(Texts(ws, step, FieldsAt(step, step.requestFields, "body")), D.Exactly, name);
    D.BuildExactly(Texts(ws, step, FieldsAt(step, step.requestFields, "header")), Fold, name);
  }

  // ---- the loops ----

  lemma ValueNext(ws: Workspace, step: Step, f: Field, i: nat)
    requires i < |ws.bindings|
    ensures ValueOf(ws.(bindings := ws.bindings[..i + 1]), step, f) ==
            if Into(ws.bindings[i], step.name, Key(f)) then T.Placeholder(ws.bindings[i].sourceVariable)
            else ValueOf(ws.(bindings := ws.bindings[..i]), step, f)
  {
    hide Into;
    assert ws.bindings[..i + 1][..i] == ws.bindings[..i];
  }

  lemma NothingBound(ws: Workspace, step: Step, f: Field)
    ensures ValueOf(ws.(bindings := ws.bindings[..0]), step, f) == f.value
  {
    assert ws.bindings[..0] == [];
  }

  method Values(ws: Workspace, step: Step) returns (values: map<string, string>)
    requires UniqueKeys(step.requestFields)
    ensures forall f :: f in step.requestFields ==> Key(f) in values && values[Key(f)] == ValueOf(ws, step, f)
  {
    hide ValueOf, Fold;
    values := map[];
    var fields := step.requestFields;
    for i := 0 to |fields|
      invariant forall j :: 0 <= j < i ==> Key(fields[j]) in values && values[Key(fields[j])] == fields[j].value
    {
      values := values[Key(fields[i]) := fields[i].value];
    }
    forall f | f in fields ensures ValueOf(ws.(bindings := ws.bindings[..0]), step, f) == f.value { NothingBound(ws, step, f); }
    for i := 0 to |ws.bindings|
      invariant forall f :: f in fields ==>
        Key(f) in values && values[Key(f)] == ValueOf(ws.(bindings := ws.bindings[..i]), step, f)
    {
      var b := ws.bindings[i];
      assert ws.bindings[..i + 1][..i] == ws.bindings[..i];
      forall f | f in fields ensures ValueOf(ws.(bindings := ws.bindings[..i + 1]), step, f) ==
        if Into(b, step.name, Key(f)) then T.Placeholder(b.sourceVariable) else ValueOf(ws.(bindings := ws.bindings[..i]), step, f)
      {
        ValueNext(ws, step, f, i);
      }
      if Targets(b, step.name) { values := values[b.targetFieldId := T.Placeholder(b.sourceVariable)]; }
    }
    assert ws.bindings[..|ws.bindings|] == ws.bindings;
  }

  method FillPath(ws: Workspace, step: Step, values: map<string, string>) returns (path: string)
    requires forall f :: f in step.requestFields ==> Key(f) in values && values[Key(f)] == ValueOf(ws, step, f)
    ensures path == CompiledPath(ws, step)
  {
    hide ValueOf, Replace, Location;
    path := step.path;
    var fields := FieldsAt(step, step.requestFields, "path");
    ghost var texts := Texts(ws, step, fields);
    for i := 0 to |fields|
      invariant ReplaceAll(step.path, texts) == ReplaceAll(path, texts[i..])
    {
      assert texts[i..][1..] == texts[i + 1..];
      assert fields[i] in step.requestFields;
      path := Replace(path, fields[i].name, values[Key(fields[i])]);
    }
    var inQuery := FieldsAt(step, step.requestFields, "query");
    var parts: seq<string> := [];
    for i := 0 to |inQuery|
      invariant parts == Assignments(Texts(ws, step, inQuery))[..i]
    {
      assert inQuery[i] in step.requestFields;
      parts := parts + [inQuery[i].name + "=" + values[Key(inQuery[i])]];
    }
    assert parts == Assignments(Texts(ws, step, inQuery));
    var query := Join(parts, "&");
    if query != "" { path := path + "?" + query; }
  }

  predicate GoesTo(step: Step, location: string) { exists f :: f in step.requestFields && Location(step, f) == location }

  predicate SavesVariable(ws: Workspace, step: Step, pair: (string, string)) {
    exists v :: v in ws.variables && Fold(v.sourceStep) == Fold(step.name) && pair == (v.name, v.jsonPath)
  }

  /** One plain HTTP request with the step's own name, method and address, a body exactly where a field goes there, status
      200 as the whole expectation, and exactly the variables saved from this step. */
  ghost predicate Translates(ws: Workspace, step: Step, s: S.StepSpec) {
    s.name == step.name && s.auth == None && s.authToken == None && !s.retry && s.parallelRequests == None && s.concurrentRequests == None
    && s.request.Some?
    && (var r := s.request.value;
        r.method_ == Some(step.method_) && r.path == Some(CompiledPath(ws, step)) && r.headers == Headers(ws, step)
        && r.form == None && r.rawBody == None && r.multipart == None
        && (r.body.Some? <==> GoesTo(step, "body")) && (r.body.Some? ==> r.body.value == RawObject(Body(ws, step))))
    && s.expect_.Some?
    && (var e := s.expect_.value;
        e.status == Some(200) && e.statusOneOf == None && e.maxResponseTimeMs == None && e.json == [] && e.jsonSchema == None
        && e.error == None)
    && SavesThose(ws, step, s.save)
  }

  /** There is something to save exactly when some variable is saved from the step, and then exactly those are. */
  ghost predicate SavesThose(ws: Workspace, step: Step, save: Option<Fields>) {
    (save.Some? <==> exists pair :: SavesVariable(ws, step, pair))
    && (save.Some? ==> forall pair :: pair in save.value <==> SavesVariable(ws, step, pair))
  }

  lemma BuildSome(pairs: Fields, same: D.Norm)
    ensures D.Build(pairs, same) == [] <==> pairs == []
  {
    hide D.Put;
    if pairs != [] {
      var n := |pairs| - 1;
      PutSome(D.Build(pairs[..n], same), pairs[n].0, pairs[n].1, same);
    }
  }

  lemma PutSome(entries: Fields, key: string, value: string, same: D.Norm)
    ensures D.Put(entries, key, value, same) != []
  {
  }

  lemma BodyWhere(ws: Workspace, step: Step)
    ensures Body(ws, step) == [] <==> !GoesTo(step, "body")
  {
    hide D.Build, Location, ValueOf, FieldsAt;
    var fields := FieldsAt(step, step.requestFields, "body");
    BuildSome(Texts(ws, step, fields), D.Exactly);
    if fields != [] { assert fields[0] in fields; }
  }

  lemma CompiledTranslates(ws: Workspace, step: Step)
    ensures Translates(ws, step, CompiledStep(ws, step))
  {
    hide CompiledPath, RawObject, Body, Headers, GoesTo, Saves, SavesThose;
    BodyWhere(ws, step);
    SavesWhere(ws, step);
  }

  lemma SavesWhere(ws: Workspace, step: Step)
    ensures SavesThose(ws, step, OrNone(Saves(ws.variables, step.name)))
  {
    hide Saves, Fold;
    var saves := Saves(ws.variables, step.name);
    assert forall pair :: pair in saves <==> SavesVariable(ws, step, pair);
    if saves != [] { assert SavesVariable(ws, step, saves[0]); }
  }

  /** `None` is the exception for a workspace that cannot be compiled. */
  method Compile(ws: Workspace) returns (steps: Option<seq<S.StepSpec>>)
    ensures steps.Some? <==> Compilable(ws)
    ensures steps.Some? ==> steps.value == CompiledSteps(ws)
    ensures steps.Some? ==> |steps.value| == |ws.steps| && forall i :: 0 <= i < |ws.steps| ==> Translates(ws, ws.steps[i], steps.value[i])
  {
    hide Compiles, CompiledStep, Translates;
    if ws.steps == [] { return None; }
    var done: seq<S.StepSpec> := [];
    for i := 0 to |ws.steps|
      invariant done == CompiledSteps(ws)[..i]
      invariant forall j :: 0 <= j < i ==> Compiles(ws, ws.steps[j])
    {
      var step := ws.steps[i];
      if !Compiles(ws, step) {
        assert step in ws.steps;
        return None;
      }
      var compiled := CompileStep(ws, step);
      done := done + [compiled];
    }
    assert done == CompiledSteps(ws);
    forall i | 0 <= i < |ws.steps| ensures Translates(ws, ws.steps[i], done[i]) { CompiledTranslates(ws, ws.steps[i]); }
    return Some(done);
  }

  method FillBody(ws: Workspace, step: Step, values: map<string, string>) returns (body: Fields)
    requires forall f :: f in step.requestFields ==> Key(f) in values && values[Key(f)] == ValueOf(ws, step, f)
    ensures body == Body(ws, step)
  {
    hide ValueOf, Location, D.Put;
    var fields := FieldsAt(step, step.requestFields, "body");
    ghost var texts := Texts(ws, step, fields);
    body := [];
    for i := 0 to |fields|
      invariant body == D.Build(texts[..i], D.Exactly)
    {
      assert fields[i] in step.requestFields;
      assert texts[..i + 1][..i] == texts[..i];
      body := D.Put(body, fields[i].name, values[Key(fields[i])], D.Exactly);
    }
    assert texts[..|fields|] == texts;
  }

  method FillHeaders(ws: Workspace, step: Step, values: map<string, string>) returns (headers: Fields)
    requires forall f :: f in step.requestFields ==> Key(f) in values && values[Key(f)] == ValueOf(ws, step, f)
    ensures headers == Headers(ws, step)
  {
    hide ValueOf, Location, D.Put;
    var fields := FieldsAt(step, step.requestFields, "header");
    ghost var texts := Texts(ws, step, fields);
    headers := [];
    for i := 0 to |fields|
      invariant headers == D.Build(texts[..i], Fold)
    {
      assert fields[i] in step.requestFields;
      assert texts[..i + 1][..i] == texts[..i];
      headers := D.Put(headers, fields[i].name, values[Key(fields[i])], Fold);
    }
    assert texts[..|fields|] == texts;
  }

  method CompileStep(ws: Workspace, step: Step) returns (compiled: S.StepSpec)
    requires Compiles(ws, step)
    ensures compiled == CompiledStep(ws, step) && Translates(ws, step, compiled)
  {
    CompiledTranslates(ws, step);
    hide Translates, ValueOf, CompiledPath, RawObject, Body, Headers, Saves;
    var values := Values(ws, step);
    var path := FillPath(ws, step, values);
    var body := FillBody(ws, step, values);
    var headers := FillHeaders(ws, step, values);
    compiled := S.StepSpec(step.name, None, None,
      Some(S.RequestSpec(Some(step.method_), Some(path), if body == [] then None else Some(RawObject(body)), None, headers, None, None)),
      Some(S.ExpectSpec(Some(200), None, None, [], None, None)), OrNone(Saves(ws.variables, step.name)), false, None, None);
  }
}
