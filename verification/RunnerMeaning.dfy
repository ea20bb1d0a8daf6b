/** When an attempt, a step and a run pass, said without saying in which order the interpreter looks. */
module RunnerMeaning {
  import opened Optional
  import opened Text
  import opened Steps
  import opened JsonPath
  import opened Runner
  import opened Schemas
  import T = Templates

  /** What a value says as text: the inside of a string, and what is written of anything else. */
  function Said(value: Json): string {
    match value case JString(inside) => inside case JScalar(raw) => raw case JArray(_, raw) => raw case JObject(_, raw) => raw
  }

  /** The value is a number, the constant is one too, and both texts can be read as decimals. */
  predicate BothNumbers(value: Json, operand: Operand, resolved: string, world: World) {
    IsKind(value, Number) && (operand.Constant? && IsKind(JScalar(operand.raw), Number))
    && world.decimal(value.raw).Some? && world.decimal(resolved).Some?
  }

  /** Equality is that of numbers between numbers and of texts otherwise; containment is between texts; patterns are
      inputs. */
  predicate Agrees(comparison: Comparison, value: Json, operand: Operand, resolved: string, world: World) {
    match comparison
    case EqualTo =>
      if BothNumbers(value, operand, resolved, world) then world.decimal(value.raw).value == world.decimal(resolved).value
      else Said(value) == resolved
    case Containing => exists i :: 0 <= i <= |Said(value)| && resolved <= Said(value)[i..]
    case _ => world.holds(comparison, value, resolved)
  }

  lemma ContainsExactly(s: string, part: string)
    ensures ContainsText(s, part) <==> exists i :: 0 <= i <= |s| && part <= s[i..]
  {
    forall i: nat | i <= |s| ensures PartAt(s, part, i) <==> part <= s[i..] {
      if i + |part| <= |s| { assert s[i..][..|part|] == s[i..i + |part|]; }
    }
  }

  lemma AgreesExactly(comparison: Comparison, value: Json, operand: Operand, resolved: string, world: World)
    ensures Holds(comparison, value, operand, resolved, world) <==> Agrees(comparison, value, operand, resolved, world)
  {
    hide ContainsText;
    ContainsExactly(Said(value), resolved);
  }

  /** The rule's text can be resolved, and the comparison comes out as wanted. */
  predicate Meets(comparison: Comparison, value: Json, operand: Operand, vars: T.Store, world: World, wanted: bool) {
    var resolved := T.Resolve(OperandText(operand), vars, world.env);
    resolved.Resolved? && Agrees(comparison, value, operand, resolved.text, world) == wanted
  }

  predicate Resolvable(text: string, vars: T.Store, world: World) { T.Resolve(text, vars, world.env).Resolved? }

  predicate MeetsAt(options: seq<Operand>, value: Json, vars: T.Store, world: World, i: nat) {
    i < |options| && Meets(EqualTo, value, options[i], vars, world, true)
    && forall j :: 0 <= j < i ==> Resolvable(OperandText(options[j]), vars, world)
  }

  /** Some option equals the value, and the options up to it can be resolved. */
  predicate OneMeets(options: seq<Operand>, value: Json, vars: T.Store, world: World) {
    exists i :: 0 <= i < |options| && MeetsAt(options, value, vars, world, i)
  }

  /** Everything that the rule compares the value with comes out as wanted. */
  predicate Compares(value: Json, rule: Assertion, vars: T.Store, world: World) {
    (rule.expected.Some? ==> Meets(EqualTo, value, rule.expected.value, vars, world, true))
    && (rule.notEquals.Some? ==> Meets(EqualTo, value, rule.notEquals.value, vars, world, false))
    && (rule.contains.Some? ==> Meets(Containing, value, Plain(rule.contains.value), vars, world, true))
    && (rule.matches.Some? ==> Meets(Matching, value, Plain(rule.matches.value), vars, world, true))
    && (rule.oneOf != [] ==> OneMeets(rule.oneOf, value, vars, world))
  }

  /** Every part of the rule holds of the value. */
  predicate Satisfies(value: Json, rule: Assertion, vars: T.Store, world: World) {
    Compares(value, rule, vars, world)
    && (rule.typeName.Some? ==> OfTypeName(value, rule.typeName.value, world))
    && (rule.bounded ==> world.holds(WithinBounds, value, ""))
  }

  lemma MeetsNext(options: seq<Operand>, value: Json, vars: T.Store, world: World, i: nat)
    requires options != []
    ensures MeetsAt(options, value, vars, world, i + 1) <==>
              Resolvable(OperandText(options[0]), vars, world) && MeetsAt(options[1..], value, vars, world, i)
  {
    hide Meets, OperandText, Resolvable;
    if MeetsAt(options, value, vars, world, i + 1) {
      forall j | 0 <= j < i ensures Resolvable(OperandText(options[1..][j]), vars, world) {
        assert options[1..][j] == options[j + 1];
      }
    }
    if Resolvable(OperandText(options[0]), vars, world) && MeetsAt(options[1..], value, vars, world, i) {
      forall j | 0 <= j < i + 1 ensures Resolvable(OperandText(options[j]), vars, world) {
        if j > 0 { assert options[1..][j - 1] == options[j]; }
      }
    }
  }

  lemma {:induction false} CompareAnyExactly(options: seq<Operand>, value: Json, vars: T.Store, world: World)
    ensures CompareAny(options, value, vars, world).Passed? <==> OneMeets(options, value, vars, world)
  {
    hide T.Resolve, OperandText, MeetsAt, Holds, Agrees;
    if options != [] {
      var resolved := T.Resolve(OperandText(options[0]), vars, world.env);
      if resolved.Resolved? { AgreesExactly(EqualTo, value, options[0], resolved.text, world); }
      CompareAnyExactly(options[1..], value, vars, world);
      FirstMeets(options, value, vars, world);
      if OneMeets(options[1..], value, vars, world) {
        var i: nat :| i < |options[1..]| && MeetsAt(options[1..], value, vars, world, i);
        MeetsNext(options, value, vars, world, i);
      }
      if OneMeets(options, value, vars, world) {
        var i: nat :| i < |options| && MeetsAt(options, value, vars, world, i);
        if i > 0 { MeetsNext(options, value, vars, world, i - 1); }
      }
    }
  }

  lemma FirstMeets(options: seq<Operand>, value: Json, vars: T.Store, world: World)
    requires options != []
    ensures MeetsAt(options, value, vars, world, 0) <==> Meets(EqualTo, value, options[0], vars, world, true)
  {
  }

  lemma CompareExactly(comparison: Comparison, value: Json, operand: Option<Operand>, vars: T.Store, world: World, wanted: bool)
    ensures Compare(comparison, value, operand, vars, world, wanted).Passed? <==>
              (operand.Some? ==> Meets(comparison, value, operand.value, vars, world, wanted))
  {
    hide T.Resolve, OperandText, Holds, Agrees;
    if operand.Some? {
      var resolved := T.Resolve(OperandText(operand.value), vars, world.env);
      if resolved.Resolved? { AgreesExactly(comparison, value, operand.value, resolved.text, world); }
    }
  }

  /** An assertion on one value passes exactly when every part of the rule holds. */
  lemma AssertValueExactly(value: Json, rule: Assertion, vars: T.Store, world: World)
    ensures AssertValue(value, rule, vars, world).Passed? <==> Satisfies(value, rule, vars, world)
  {
    hide Compare, CompareAny, Meets, OneMeets, OperandText, HasType, KnownType, OfTypeName;
    if rule.typeName.Some? { TypeNamesExactly(value, rule.typeName.value, world); }
    CompareExactly(EqualTo, value, rule.expected, vars, world, true);
    CompareExactly(EqualTo, value, rule.notEquals, vars, world, false);
    CompareExactly(Containing, value, AsPlain(rule.contains), vars, world, true);
    CompareExactly(Matching, value, AsPlain(rule.matches), vars, world, true);
    CompareAnyExactly(rule.oneOf, value, vars, world);
  }

  lemma {:induction false} AssertValuesExactly(values: seq<Json>, rule: Assertion, vars: T.Store, world: World)
    ensures AssertValues(values, rule, vars, world).Passed? <==> forall v :: v in values ==> Satisfies(v, rule, vars, world)
  {
    hide AssertValue, Satisfies;
    if values != [] {
      AssertValueExactly(values[0], rule, vars, world);
      AssertValuesExactly(values[1..], rule, vars, world);
      assert forall v :: v in values <==> v == values[0] || v in values[1..];
    }
  }

  /** An array or object that comes first counts its items or members; anything else counts the values. */
  predicate CountedAs(values: seq<Json>, count: int)
    requires values != []
  {
    (values[0].JArray? ==> count == |values[0].items|) && (values[0].JObject? ==> count == |values[0].properties|)
    && (values[0].JString? || values[0].JScalar? ==> count == |values|)
  }

  /** The path can be read; presence and count are as the rule says; every selected value satisfies it. */
  predicate EntryHolds(doc: Json, path: string, rule: Assertion, vars: T.Store, world: World) {
    var values := Selection(doc, path);
    values.Some? && (rule.exists_.Some? ==> rule.exists_.value == (values.value != []))
    && (values.value != [] ==>
          (rule.count.Some? ==> CountedAs(values.value, rule.count.value))
          && forall v :: v in values.value ==> Satisfies(v, rule, vars, world))
  }

  /** The assertions on a response pass exactly when each of them holds. */
  lemma {:induction false} AssertEntriesExactly(doc: Json, entries: seq<(string, Assertion)>, vars: T.Store, world: World)
    ensures AssertEntries(doc, entries, vars, world).Passed? <==> forall e :: e in entries ==> EntryHolds(doc, e.0, e.1, vars, world)
  {
    hide AssertValues, Satisfies, Selection;
    if entries != [] {
      var values := Selection(doc, entries[0].0);
      if values.Some? { AssertValuesExactly(values.value, entries[0].1, vars, world); }
      AssertEntriesExactly(doc, entries[1..], vars, world);
      assert forall e :: e in entries <==> e == entries[0] || e in entries[1..];
    }
  }

  /** The last save of a name decides its value. */
  predicate LastSave(saves: Pairs, i: nat) {
    i < |saves| && forall j :: i < j < |saves| ==> Fold(saves[j].0) != Fold(saves[i].0)
  }

  /** Saving passes exactly when every path selects something; then each name holds the text of its last save, and
      no other variable has changed. */
  lemma {:induction false} SaveAllExactly(doc: Json, saves: Pairs, vars: T.Store)
    ensures var a := SaveAll(doc, saves, vars);
            (a.outcome.Passed? <==> forall s :: s in saves ==> Select(doc, s.1).Some?)
            && (forall k :: k in vars && k !in FirstKeys(saves) ==> k in a.vars && a.vars[k] == vars[k])
            && (a.outcome.Passed? ==>
                  forall i :: 0 <= i < |saves| && LastSave(saves, i) && Select(doc, saves[i].1).Some? ==>
                    Fold(saves[i].0) in a.vars && a.vars[Fold(saves[i].0)] == TextOf(Select(doc, saves[i].1).value))
  {
    hide Fold, Select, TextOf;
    if saves != [] {
      var selected := Select(doc, saves[0].1);
      assert forall s :: s in saves <==> s == saves[0] || s in saves[1..];
      if selected.Some? {
        var key := Fold(saves[0].0);
        var next := vars[key := TextOf(selected.value)];
        var a := SaveAll(doc, saves[1..], next);
        SaveAllExactly(doc, saves[1..], next);
        forall i | 0 <= i < |saves| && LastSave(saves, i) && Select(doc, saves[i].1).Some? && a.outcome.Passed?
          ensures Fold(saves[i].0) in a.vars && a.vars[Fold(saves[i].0)] == TextOf(Select(doc, saves[i].1).value)
        {
          if i > 0 {
            assert saves[1..][i - 1] == saves[i] && LastSave(saves[1..], i - 1);
          } else {
            assert key !in FirstKeys(saves[1..]) by { NotSavedAgain(saves); }
          }
        }
      }
    }
  }

  lemma NotSavedAgain(saves: Pairs)
    requires saves != [] && LastSave(saves, 0)
    ensures Fold(saves[0].0) !in FirstKeys(saves[1..])
  {
    hide Fold;
    forall p | p in saves[1..] ensures Fold(p.0) != Fold(saves[0].0) {
      var j :| 0 <= j < |saves[1..]| && saves[1..][j] == p;
      assert saves[j + 1] == p;
    }
  }

  // ---- one attempt ----

  lemma {:induction false} ResolveAllExactly(texts: seq<string>, vars: T.Store, world: World)
    ensures ResolveAll(texts, vars, world).Passed? <==> forall t :: t in texts ==> Resolvable(t, vars, world)
  {
    hide T.Resolve;
    if texts != [] {
      ResolveAllExactly(texts[1..], vars, world);
      assert Need(T.Resolve(texts[0], vars, world.env)).Passed? <==> Resolvable(texts[0], vars, world);
      assert forall t :: t in texts <==> t == texts[0] || t in texts[1..];
    }
  }

  /** The file is there, and its path and its name can be resolved. */
  predicate Attachable(f: MultipartFile, vars: T.Store, world: World, reply: Reply) {
    var path := T.Resolve(f.path, vars, world.env);
    path.Resolved? && reply.fileExists(path.text)
    && Resolvable(if f.fileName.Some? then f.fileName.value else BaseName(path.text), vars, world)
  }

  lemma {:induction false} AttachFilesExactly(files: seq<MultipartFile>, vars: T.Store, world: World, reply: Reply)
    ensures AttachFiles(files, vars, world, reply).Passed? <==> forall f :: f in files ==> Attachable(f, vars, world, reply)
  {
    hide T.Resolve, BaseName;
    if files != [] {
      AttachFilesExactly(files[1..], vars, world, reply);
      assert AttachFile(files[0], vars, world, reply).Passed? <==> Attachable(files[0], vars, world, reply);
      assert forall f :: f in files <==> f == files[0] || f in files[1..];
    }
  }

  /** A step that asks for a login has a token of its own, finds one in the store, or the login succeeds. */
  predicate Authorised(step: StepSpec, vars: T.Store, world: World, reply: Reply) {
    step.auth.Some? && !IsBlank(step.auth.value) ==>
      if step.authToken.Some? && !IsBlank(step.authToken.value) then Resolvable(step.authToken.value, vars, world)
      else ("authtoken" in vars && !IsBlank(vars["authtoken"])) || reply.loginSucceeds
  }

  /** At most one kind of content. */
  predicate OneContent(r: RequestSpec) {
    (r.rawBody.Some? ==> r.body.None?) && (r.form.Some? ==> r.rawBody.None? && r.body.None?)
    && (r.multipart.Some? ==> r.rawBody.None? && r.body.None? && r.form.None?)
  }

  predicate ValuesResolvable(pairs: Pairs, vars: T.Store, world: World) { forall p :: p in pairs ==> Resolvable(p.1, vars, world) }

  /** What is resolved before anything else: the path, the one payload, the form, and the texts in which the expectation is
      described. */
  predicate EagerResolvable(step: StepSpec, vars: T.Store, world: World)
    requires step.request.Some?
  {
    var r := step.request.value;
    (r.path.Some? ==> Resolvable(r.path.value, vars, world))
    && (r.rawBody.Some? ==> Resolvable(r.rawBody.value, vars, world))
    && (r.body.Some? && r.rawBody.None? ==> Resolvable(r.body.value, vars, world))
    && (r.form.Some? ==> ValuesResolvable(r.form.value, vars, world))
    && (step.expect_.Some? ==> forall e :: e in step.expect_.value.json ==>
          (e.1.expected.Some? ==> Resolvable(OperandText(e.1.expected.value), vars, world))
          && (e.1.contains.Some? ==> Resolvable(e.1.contains.value, vars, world)))
  }

  lemma SecondsResolvable(pairs: Pairs, vars: T.Store, world: World)
    ensures (forall t :: t in SecondsOf(pairs) ==> Resolvable(t, vars, world)) <==> ValuesResolvable(pairs, vars, world)
  {
    hide Resolvable;
    var seconds := SecondsOf(pairs);
    if forall t :: t in seconds ==> Resolvable(t, vars, world) {
      forall p | p in pairs ensures Resolvable(p.1, vars, world) {
        var i :| 0 <= i < |pairs| && pairs[i] == p;
        assert seconds[i] in seconds;
      }
    }
    if ValuesResolvable(pairs, vars, world) {
      forall t | t in seconds ensures Resolvable(t, vars, world) {
        var i :| 0 <= i < |seconds| && seconds[i] == t;
        assert pairs[i] in pairs;
      }
    }
  }

  lemma {:induction false} DescribedResolvable(entries: seq<(string, Assertion)>, vars: T.Store, world: World)
    ensures (forall t :: t in Described(entries) ==> Resolvable(t, vars, world)) <==>
              forall e :: e in entries ==>
                (e.1.expected.Some? ==> Resolvable(OperandText(e.1.expected.value), vars, world))
                && (e.1.contains.Some? ==> Resolvable(e.1.contains.value, vars, world))
  {
    hide Resolvable, OperandText;
    if entries != [] {
      var rule := entries[0].1;
      DescribedResolvable(entries[1..], vars, world);
      assert forall e :: e in entries <==> e == entries[0] || e in entries[1..];
      var expected := if rule.expected.Some? then [OperandText(rule.expected.value)] else [];
      var contains := if rule.contains.Some? then [rule.contains.value] else [];
      assert Described(entries) == expected + contains + Described(entries[1..]);
      assert forall t :: t in Described(entries) <==> t in expected || t in contains || t in Described(entries[1..]);
      if rule.expected.Some? { assert OperandText(rule.expected.value) in expected; }
      if rule.contains.Some? { assert rule.contains.value in contains; }
    }
  }

  lemma EagerExactly(step: StepSpec, vars: T.Store, world: World)
    requires step.request.Some?
    ensures (forall t :: t in EagerTemplates(step) ==> Resolvable(t, vars, world)) <==> EagerResolvable(step, vars, world)
  {
    hide Resolvable, Described, SecondsOf, ValuesResolvable;
    var r := step.request.value;
    DescribedResolvable(JsonOf(step), vars, world);
    if r.form.Some? { SecondsResolvable(r.form.value, vars, world); }
    var path := if r.path.Some? then [r.path.value] else [];
    var payload := if r.rawBody.Some? then [r.rawBody.value] else if r.body.Some? then [r.body.value] else [];
    var form := if r.form.Some? then SecondsOf(r.form.value) else [];
    assert EagerTemplates(step) == path + payload + form + Described(JsonOf(step));
    assert forall t :: t in EagerTemplates(step) <==> t in path || t in payload || t in form || t in Described(JsonOf(step));
    if r.path.Some? { assert r.path.value in path; }
    if r.rawBody.Some? { assert r.rawBody.value in payload; }
    if r.body.Some? && r.rawBody.None? { assert r.body.value in payload; }
  }

  /** The request can be built and sent: everything in it can be resolved, and nothing contradicts. */
  predicate Prepared(step: StepSpec, vars: T.Store, world: World, reply: Reply) {
    step.request.Some? && reply.formed && Authorised(step, vars, world, reply)
    && EagerResolvable(step, vars, world)
    && var r := step.request.value;
       r.method_.Some? && r.path.Some? && OneContent(r) && ValuesResolvable(r.headers, vars, world)
       && (r.multipart.Some? ==>
             ValuesResolvable(r.multipart.value.fields, vars, world)
             && forall f :: f in r.multipart.value.files ==> Attachable(f, vars, world, reply))
  }

  lemma PrepareExactly(step: StepSpec, vars: T.Store, world: World, reply: Reply)
    requires step.request.Some?
    ensures Prepare(step, vars, world, reply).Passed? <==> Prepared(step, vars, world, reply)
  {
    hide ResolveAll, AttachFiles, EagerTemplates, EagerResolvable, ValuesResolvable, Attachable, Resolvable, IsBlank;
    var r := step.request.value;
    EagerExactly(step, vars, world);
    SecondsResolvable(r.headers, vars, world);
    ResolveAllExactly(EagerTemplates(step), vars, world);
    ResolveAllExactly(SecondsOf(r.headers), vars, world);
    if r.multipart.Some? {
      ResolveAllExactly(SecondsOf(r.multipart.value.fields), vars, world);
      SecondsResolvable(r.multipart.value.fields, vars, world);
      AttachFilesExactly(r.multipart.value.files, vars, world, reply);
    }
    AuthenticateExactly(step, vars, world, reply);
    ContentExactly(r, vars, world, reply);
  }

  lemma AuthenticateExactly(step: StepSpec, vars: T.Store, world: World, reply: Reply)
    ensures Authenticate(step, vars, world, reply).Passed? <==> Authorised(step, vars, world, reply)
  {
    hide T.Resolve, IsBlank;
  }

  lemma ContentExactly(r: RequestSpec, vars: T.Store, world: World, reply: Reply)
    ensures Content(r, vars, world, reply).Passed? <==>
              OneContent(r) && (r.multipart.Some? ==>
                ResolveAll(SecondsOf(r.multipart.value.fields), vars, world).Passed?
                && AttachFiles(r.multipart.value.files, vars, world, reply).Passed?)
  {
    hide ResolveAll, AttachFiles;
  }

  /** The status and the time are as expected. */
  predicate Timely(expect_: ExpectSpec, response: Response) {
    response.status in Accepted(expect_)
    && (expect_.maxResponseTimeMs.Some? ==> response.elapsedMs <= expect_.maxResponseTimeMs.value)
  }

  /** What is asserted of the body holds, and everything to be saved is there. */
  predicate BodyHolds(step: StepSpec, expect_: ExpectSpec, response: Response, vars: T.Store, world: World) {
    expect_.json != [] || step.save.Some? || expect_.jsonSchema.Some? ==>
      response.body.Some? && (expect_.jsonSchema.Some? ==> Conforms(response.body.value, expect_.jsonSchema.value, world))
      && (forall e :: e in expect_.json ==> EntryHolds(response.body.value, e.0, e.1, vars, world))
      && forall s :: s in SaveOf(step) ==> Select(response.body.value, s.1).Some?
  }

  /** The same with the expectation that the catalogue completes. */
  lemma ResolvedExactly(step: StepSpec, vars: T.Store, world: World, reply: Reply)
    ensures Execute(step, vars, world, reply).outcome.Passed? <==>
              Prepared(step, vars, world, reply) && reply.response.Some? && step.expect_.Some?
              && var expect_ := ResolveErrorExpectation(step.expect_.value, world.catalogue);
                 expect_.Some? && Timely(expect_.value, reply.response.value)
                 && BodyHolds(step, expect_.value, reply.response.value, vars, world)
  {
    hide Prepare, Prepared, AssertEntries, SaveAll, EntryHolds, ResolveErrorExpectation, Accepted, Validate, Conforms, Baffled;
    if step.request.Some? { PrepareExactly(step, vars, world, reply); } else { Unprepared(step, vars, world, reply); }
    if step.expect_.Some? && reply.response.Some? && reply.response.value.body.Some? {
      var expect_ := ResolveErrorExpectation(step.expect_.value, world.catalogue);
      if expect_.Some? {
        AssertEntriesExactly(reply.response.value.body.value, expect_.value.json, vars, world);
        if expect_.value.jsonSchema.Some? {
          ValidateExactly(reply.response.value.body.value, expect_.value.jsonSchema.value, world);
        }
      }
      SaveAllExactly(reply.response.value.body.value, SaveOf(step), vars);
    }
  }

  lemma Unprepared(step: StepSpec, vars: T.Store, world: World, reply: Reply)
    requires step.request.None?
    ensures !Prepared(step, vars, world, reply)
  {
  }

  // What the catalogue adds to an expectation, said without adding it.

  predicate CodeKnown(e: ExpectSpec, catalogue: Option<Catalogue>) {
    e.error.Some? ==> catalogue.Some? && e.error.value.code in catalogue.value
  }

  /** A list of statuses comes first, then a status, then that of the error code. */
  predicate AcceptsStatus(e: ExpectSpec, catalogue: Option<Catalogue>, status: int)
    requires CodeKnown(e, catalogue)
  {
    if e.statusOneOf.Some? then status in e.statusOneOf.value
    else if e.status.Some? then status == e.status.value
    else e.error.Some? && status == catalogue.value[e.error.value.code].httpStatus
  }

  predicate Mentioned(entries: seq<(string, Assertion)>, path: string) { exists i :: 0 <= i < |entries| && entries[i].0 == path }

  /** The body has that text there, unless the step has an assertion of its own on the path. */
  predicate ReportsText(doc: Json, own: seq<(string, Assertion)>, path: string, text: string, vars: T.Store, world: World) {
    Mentioned(own, path)
    || EntryHolds(doc, path, Assertion(Some(Plain(text)), None, None, None, None, None, false, None, []), vars, world)
  }

  /** The body reports the error code and its message, in Vietnamese where that is asked for and in English otherwise. */
  predicate ReportsError(doc: Json, e: ExpectSpec, vars: T.Store, world: World)
    requires CodeKnown(e, world.catalogue)
  {
    e.error.Some? ==>
      var code, locale := e.error.value.code, e.error.value.locale;
      var entry := world.catalogue.value[code];
      ReportsText(doc, e.json, "$.errorCode", code, vars, world)
      && ReportsText(doc, e.json, "$.message",
           if locale.Some? && Fold(locale.value) == "vi" then entry.vietnamese else entry.english, vars, world)
  }

  /** Where anything is asked of the body: there is one, it conforms to the schema, every assertion holds, the error is
      reported, and every saved path selects something. */
  predicate BodyAnswers(step: StepSpec, e: ExpectSpec, response: Response, vars: T.Store, world: World)
    requires CodeKnown(e, world.catalogue)
  {
    e.json != [] || e.error.Some? || step.save.Some? || e.jsonSchema.Some? ==>
      response.body.Some?
      && var doc := response.body.value;
         (e.jsonSchema.Some? ==> Conforms(doc, e.jsonSchema.value, world))
         && (forall entry :: entry in e.json ==> EntryHolds(doc, entry.0, entry.1, vars, world))
         && ReportsError(doc, e, vars, world)
         && (step.save.Some? ==> forall p :: p in step.save.value ==> Selects(doc, p.1))
  }

  predicate Selects(doc: Json, path: string) { Selection(doc, path).Some? && Selection(doc, path).value != [] }

  /** The response comes in time, with an accepted status and a body that answers. */
  predicate Answers(step: StepSpec, response: Response, vars: T.Store, world: World) {
    step.expect_.Some?
    && var e := step.expect_.value;
       CodeKnown(e, world.catalogue) && AcceptsStatus(e, world.catalogue, response.status)
       && (e.maxResponseTimeMs.Some? ==> response.elapsedMs <= e.maxResponseTimeMs.value)
       && BodyAnswers(step, e, response, vars, world)
  }

  /** Every saved name holds the first text that its last path selects, and nothing else has changed. */
  predicate Stored(step: StepSpec, response: Response, before: T.Store, after: T.Store) {
    (forall k :: k in before && k !in FirstKeys(SaveOf(step)) ==> k in after && after[k] == before[k])
    && forall i :: 0 <= i < |SaveOf(step)| && LastSave(SaveOf(step), i) ==>
         var name, path := SaveOf(step)[i].0, SaveOf(step)[i].1;
         response.body.Some? && Selects(response.body.value, path) && Fold(name) in after
         && after[Fold(name)] == Said(Selection(response.body.value, path).value[0])
  }

  lemma AddedExactly(own: seq<(string, Assertion)>, path: string, text: string)
    ensures var all := AddIfAbsent(own, path, text);
            var entry := (path, Assertion(Some(Plain(text)), None, None, None, None, None, false, None, []));
            (forall e :: e in all <==> e in own || (!Mentioned(own, path) && e == entry)) && all != []
            && forall other :: other != path ==> (Mentioned(all, other) <==> Mentioned(own, other))
  {
    var all := AddIfAbsent(own, path, text);
    MentionedIs(own, path);
    forall other | other != path ensures Mentioned(all, other) <==> Mentioned(own, other) {
      MentionedIs(own, other);
      MentionedIs(all, other);
    }
  }

  lemma MentionedIs(entries: seq<(string, Assertion)>, path: string)
    ensures Mentioned(entries, path) <==> exists e :: e in entries && e.0 == path
  {
    if e :| e in entries && e.0 == path {
      var i :| 0 <= i < |entries| && entries[i] == e;
    }
    if i :| 0 <= i < |entries| && entries[i].0 == path { assert entries[i] in entries; }
  }

  predicate AllHold(doc: Json, entries: seq<(string, Assertion)>, vars: T.Store, world: World) {
    forall e :: e in entries ==> EntryHolds(doc, e.0, e.1, vars, world)
  }

  lemma AddedHolds(doc: Json, own: seq<(string, Assertion)>, path: string, text: string, vars: T.Store, world: World)
    ensures AllHold(doc, AddIfAbsent(own, path, text), vars, world) <==>
              AllHold(doc, own, vars, world) && ReportsText(doc, own, path, text, vars, world)
  {
    hide EntryHolds, AddIfAbsent, Mentioned;
    AddedExactly(own, path, text);
    var entry := (path, Assertion(Some(Plain(text)), None, None, None, None, None, false, None, []));
    if AllHold(doc, AddIfAbsent(own, path, text), vars, world) && !Mentioned(own, path) {
      assert entry in AddIfAbsent(own, path, text);
    }
  }

  lemma BothHold(doc: Json, own: seq<(string, Assertion)>, code: string, message: string, vars: T.Store, world: World)
    ensures AllHold(doc, AddIfAbsent(AddIfAbsent(own, "$.errorCode", code), "$.message", message), vars, world) <==>
              AllHold(doc, own, vars, world) && ReportsText(doc, own, "$.errorCode", code, vars, world)
              && ReportsText(doc, own, "$.message", message, vars, world)
  {
    hide EntryHolds, AddIfAbsent, Mentioned, AllHold;
    var first := AddIfAbsent(own, "$.errorCode", code);
    AddedHolds(doc, own, "$.errorCode", code, vars, world);
    AddedHolds(doc, first, "$.message", message, vars, world);
    AddedExactly(own, "$.errorCode", code);
    assert "$.errorCode"[2] != "$.message"[2];
  }

  /** The completed expectation asks for the same. */
  lemma CompletedExactly(e: ExpectSpec, doc: Json, response: Response, vars: T.Store, world: World)
    ensures var resolved := ResolveErrorExpectation(e, world.catalogue);
            (resolved.Some? <==> CodeKnown(e, world.catalogue))
            && (resolved.Some? ==>
                  resolved.value.jsonSchema == e.jsonSchema && (resolved.value.json != [] <==> e.json != [] || e.error.Some?)
                  && (Timely(resolved.value, response) <==>
                        AcceptsStatus(e, world.catalogue, response.status)
                        && (e.maxResponseTimeMs.Some? ==> response.elapsedMs <= e.maxResponseTimeMs.value))
                  && (AllHold(doc, resolved.value.json, vars, world) <==>
                        AllHold(doc, e.json, vars, world) && ReportsError(doc, e, vars, world)))
  {
    hide EntryHolds, AddIfAbsent, Mentioned, Fold, ReportsText;
    if e.error.Some? && CodeKnown(e, world.catalogue) {
      var code, locale := e.error.value.code, e.error.value.locale;
      var entry := world.catalogue.value[code];
      var message := if locale.Some? && Fold(locale.value) == "vi" then entry.vietnamese else entry.english;
      AddedExactly(AddIfAbsent(e.json, "$.errorCode", code), "$.message", message);
      BothHold(doc, e.json, code, message, vars, world);
    }
  }

  lemma SelectExactly(doc: Json, path: string)
    ensures Select(doc, path).Some? <==> Selects(doc, path)
    ensures Selects(doc, path) ==> TextOf(Select(doc, path).value) == Said(Selection(doc, path).value[0])
  {
    hide Selection;
  }

  /** An attempt passes exactly when its request can be built and the response answers. */
  lemma ExecuteExactly(step: StepSpec, vars: T.Store, world: World, reply: Reply)
    ensures Execute(step, vars, world, reply).outcome.Passed? <==>
              Prepared(step, vars, world, reply) && reply.response.Some? && Answers(step, reply.response.value, vars, world)
  {
    hide Execute, Prepared, EntryHolds, Timely, ResolveErrorExpectation, ReportsError, AcceptsStatus, Selection, Select, Conforms;
    ResolvedExactly(step, vars, world, reply);
    if step.expect_.Some? && reply.response.Some? {
      var e, response := step.expect_.value, reply.response.value;
      CompletedExactly(e, if response.body.Some? then response.body.value else JString(""), response, vars, world);
      if response.body.Some? {
        forall p | p in SaveOf(step) ensures Select(response.body.value, p.1).Some? <==> Selects(response.body.value, p.1) {
          SelectExactly(response.body.value, p.1);
        }
      }
    }
  }

  /** A passing attempt leaves in the store what it was to save. */
  lemma PassingStores(step: StepSpec, vars: T.Store, world: World, reply: Reply)
    requires Execute(step, vars, world, reply).outcome.Passed?
    ensures reply.response.Some? && Stored(step, reply.response.value, vars, Execute(step, vars, world, reply).vars)
  {
    hide Prepare, AssertEntries, ResolveErrorExpectation, Accepted, Selection, Select, Fold, SaveAll, CheckSchema, Said, TextOf,
      FirstKeys, LastSave;
    var response := reply.response.value;
    var after := Execute(step, vars, world, reply).vars;
    if SaveOf(step) == [] {
      assert after == vars by { if response.body.Some? { SavingNothing(response.body.value, vars); } }
    } else {
      var doc, saves := response.body.value, SaveOf(step);
      assert Attempt(Passed, after) == SaveAll(doc, saves, vars);
      SaveAllExactly(doc, saves, vars);
      forall i | 0 <= i < |saves| && LastSave(saves, i)
        ensures Selects(doc, saves[i].1) && Fold(saves[i].0) in after && after[Fold(saves[i].0)] == Said(Selection(doc, saves[i].1).value[0])
      {
        assert saves[i] in saves;
        SelectExactly(doc, saves[i].1);
      }
    }
  }

  lemma SavingNothing(doc: Json, vars: T.Store)
    ensures SaveAll(doc, [], vars) == Attempt(Passed, vars)
  {
  }

  // ---- retries, branches, steps ----

  /** The store in which the `i`-th of these attempts starts. */
  function StoreAt(step: StepSpec, vars: T.Store, world: World, replies: seq<Reply>, i: nat): T.Store
    requires i <= |replies|
  {
    if i == 0 then vars else Execute(step, StoreAt(step, vars, world, replies, i - 1), world, replies[i - 1]).vars
  }

  predicate AttemptPasses(step: StepSpec, vars: T.Store, world: World, replies: seq<Reply>, i: nat)
    requires i < |replies|
  {
    Execute(step, StoreAt(step, vars, world, replies, i), world, replies[i]).outcome.Passed?
  }

  /** A retried step passes exactly when one of its polls or its last attempt passes, each made in the store that the
      attempts before it have left; it stops at the first that passes. */
  lemma {:induction false} RetryExactly(step: StepSpec, vars: T.Store, world: World, polls: seq<Reply>, last: Reply, reason: Failure)
    ensures var r, replies := Poll(step, vars, world, polls, last, reason), polls + [last];
            (r.outcome.Passed? <==> exists i :: 0 <= i < |replies| && AttemptPasses(step, vars, world, replies, i))
            && 1 <= |r.attempts| <= |replies|
            && (forall i :: 0 <= i < |r.attempts| - 1 ==> r.attempts[i].Failed?)
            && (r.outcome.Passed? ==> r.attempts[|r.attempts| - 1].Passed?)
            && (r.outcome.Failed? ==> |r.attempts| == |replies| && r.attempts[|r.attempts| - 1].Failed?)
    decreases |polls|
  {
    hide Execute;
    var replies := polls + [last];
    assert AttemptPasses(step, vars, world, replies, 0) <==> Execute(step, vars, world, replies[0]).outcome.Passed?;
    if polls != [] {
      var attempt := Execute(step, vars, world, polls[0]);
      if attempt.outcome.Failed? {
        var rest := polls[1..] + [last];
        assert replies == [polls[0]] + rest;
        RetryExactly(step, attempt.vars, world, polls[1..], last, attempt.outcome.failure);
        forall i | 0 <= i < |rest|
          ensures AttemptPasses(step, attempt.vars, world, rest, i) <==> AttemptPasses(step, vars, world, replies, i + 1)
        {
          StoreShift(step, vars, world, polls[0], rest, i);
        }
        if i :| 0 <= i < |rest| && AttemptPasses(step, attempt.vars, world, rest, i) {
          assert AttemptPasses(step, vars, world, replies, i + 1);
        }
        if i :| 0 <= i < |replies| && AttemptPasses(step, vars, world, replies, i) {
          assert i > 0 && AttemptPasses(step, attempt.vars, world, rest, i - 1);
        }
      }
    }
  }

  lemma {:induction false} StoreShift(step: StepSpec, vars: T.Store, world: World, first: Reply, rest: seq<Reply>, i: nat)
    requires i <= |rest|
    ensures StoreAt(step, Execute(step, vars, world, first).vars, world, rest, i) == StoreAt(step, vars, world, [first] + rest, i + 1)
  {
    hide Execute;
    if i > 0 {
      StoreShift(step, vars, world, first, rest, i - 1);
    } else {
      assert StoreAt(step, vars, world, [first] + rest, 0) == vars;
    }
  }

  /** Parallel and concurrent branches pass exactly when every branch passes on its own in the common store. */
  lemma {:induction false} BranchesExactly(steps: seq<StepSpec>, first: nat, vars: T.Store, world: World, script: Script)
    ensures var r := Branches(steps, first, vars, world, script);
            r.vars == vars && |r.attempts| == |steps|
            && (forall i :: 0 <= i < |steps| ==>
                  r.attempts[i] == Execute(steps[i], vars, world, BranchReply(script, first + i)).outcome)
            && (r.outcome.Passed? <==> forall i :: 0 <= i < |steps| ==> r.attempts[i].Passed?)
  {
    hide Execute, BranchReply;
    if steps != [] { BranchesExactly(steps[1..], first + 1, vars, world, script); }
  }

  lemma PollNext(step: StepSpec, vars: T.Store, world: World, polls: seq<Reply>, last: Reply, reason: Failure)
    requires polls != []
    ensures var attempt, r := Execute(step, vars, world, polls[0]), Poll(step, vars, world, polls, last, reason);
            if attempt.outcome.Passed? then r == StepRun(Passed, attempt.vars, [Passed])
            else
              var rest := Poll(step, attempt.vars, world, polls[1..], last, attempt.outcome.failure);
              r == StepRun(rest.outcome, rest.vars, [attempt.outcome] + rest.attempts)
  {
    hide Execute;
  }

  lemma PollLast(step: StepSpec, vars: T.Store, world: World, last: Reply, reason: Failure)
    ensures var attempt := Execute(step, vars, world, last);
            Poll(step, vars, world, [], last, reason) ==
            StepRun(if attempt.outcome.Failed? then Failed(reason) else Passed, attempt.vars, [attempt.outcome])
  {
    hide Execute;
  }

  lemma FirstStores(step: StepSpec, vars: T.Store, world: World, replies: seq<Reply>)
    requires replies != []
    ensures StoreAt(step, vars, world, replies, 1) == Execute(step, vars, world, replies[0]).vars
  {
    hide Execute;
    assert StoreAt(step, vars, world, replies, 0) == vars;
  }

  /** What a retried step reports when it fails is the reason of its last poll, and its store is the one that its last
      attempt has left. */
  lemma {:induction false} RetryReports(step: StepSpec, vars: T.Store, world: World, polls: seq<Reply>, last: Reply, reason: Failure)
    ensures var r := Poll(step, vars, world, polls, last, reason);
            1 <= |r.attempts| <= |polls| + 1
            && (r.outcome.Failed? ==>
                  |r.attempts| == |polls| + 1 && r.outcome == if polls == [] then Failed(reason) else r.attempts[|polls| - 1])
            && r.vars == StoreAt(step, vars, world, polls + [last], |r.attempts|)
    decreases |polls|
  {
    hide Execute, StoreAt, Poll;
    FirstStores(step, vars, world, polls + [last]);
    if polls == [] {
      PollLast(step, vars, world, last, reason);
    } else {
      PollNext(step, vars, world, polls, last, reason);
      var attempt := Execute(step, vars, world, polls[0]);
      if attempt.outcome.Failed? {
        var rest := Poll(step, attempt.vars, world, polls[1..], last, attempt.outcome.failure);
        RetryReports(step, attempt.vars, world, polls[1..], last, attempt.outcome.failure);
        assert polls + [last] == [polls[0]] + (polls[1..] + [last]);
        StoreShift(step, vars, world, polls[0], polls[1..] + [last], |rest.attempts|);
      }
    }
  }

  lemma BranchesNext(steps: seq<StepSpec>, first: nat, vars: T.Store, world: World, script: Script)
    requires steps != []
    ensures var branch, rest := Execute(steps[0], vars, world, BranchReply(script, first)).outcome,
                                Branches(steps[1..], first + 1, vars, world, script);
            Branches(steps, first, vars, world, script) ==
            StepRun(if branch.Failed? then branch else rest.outcome, vars, [branch] + rest.attempts)
  {
    hide Execute, BranchReply;
  }

  /** What a group reports when it fails is the failure of its first branch that does. */
  lemma {:induction false} BranchesReport(steps: seq<StepSpec>, first: nat, vars: T.Store, world: World, script: Script, i: nat)
    requires i < |steps|
    ensures var r := Branches(steps, first, vars, world, script);
            |r.attempts| == |steps|
            && (r.attempts[i].Failed? && (forall j :: 0 <= j < i ==> r.attempts[j].Passed?) ==> r.outcome == r.attempts[i])
  {
    hide Execute, BranchReply, Branches;
    BranchesNext(steps, first, vars, world, script);
    BranchesExactly(steps, first, vars, world, script);
    if i > 0 {
      var rest := Branches(steps[1..], first + 1, vars, world, script);
      BranchesReport(steps[1..], first + 1, vars, world, script, i - 1);
      assert forall j :: 0 <= j < i - 1 ==> Branches(steps, first, vars, world, script).attempts[j + 1] == rest.attempts[j];
    }
  }

  /** The store before step `i`. */
  function StoreBefore(steps: seq<StepSpec>, vars: T.Store, world: World, scripts: seq<Script>, i: nat): T.Store
    requires i <= |steps| == |scripts|
  {
    if i == 0 then vars
    else RunConfiguredStep(steps[i - 1], StoreBefore(steps, vars, world, scripts, i - 1), world, scripts[i - 1]).vars
  }

  predicate StepPasses(steps: seq<StepSpec>, vars: T.Store, world: World, scripts: seq<Script>, i: nat)
    requires i < |steps| == |scripts|
  {
    RunConfiguredStep(steps[i], StoreBefore(steps, vars, world, scripts, i), world, scripts[i]).outcome.Passed?
  }

  /** A run passes exactly when every step passes in the store that the steps before it have left, and then ends in
      the store after the last one. */
  lemma {:induction false} RunExactly(steps: seq<StepSpec>, vars: T.Store, world: World, scripts: seq<Script>)
    requires |scripts| == |steps|
    ensures var r := RunSteps(steps, vars, world, scripts);
            (r.outcome.Passed? <==> forall i :: 0 <= i < |steps| ==> StepPasses(steps, vars, world, scripts, i))
            && (r.outcome.Passed? ==> r.vars == StoreBefore(steps, vars, world, scripts, |steps|))
  {
    hide RunConfiguredStep;
    if steps != [] {
      var first := RunConfiguredStep(steps[0], vars, world, scripts[0]);
      assert StepPasses(steps, vars, world, scripts, 0) <==> first.outcome.Passed?;
      if first.outcome.Passed? {
        RunExactly(steps[1..], first.vars, world, scripts[1..]);
        forall i | 0 <= i <= |steps| - 1
          ensures StoreBefore(steps[1..], first.vars, world, scripts[1..], i) == StoreBefore(steps, vars, world, scripts, i + 1)
        {
          StepsShift(steps, vars, world, scripts, i);
        }
        forall i | 0 <= i < |steps| - 1
          ensures StepPasses(steps[1..], first.vars, world, scripts[1..], i) <==> StepPasses(steps, vars, world, scripts, i + 1)
        {
        }
        if forall i :: 0 <= i < |steps[1..]| ==> StepPasses(steps[1..], first.vars, world, scripts[1..], i) {
          forall i | 0 <= i < |steps| ensures StepPasses(steps, vars, world, scripts, i) {
            if i > 0 { assert StepPasses(steps[1..], first.vars, world, scripts[1..], i - 1); }
          }
        }
      }
    }
  }

  function AttemptsOf(runs: seq<StepRun>): seq<Outcome> { if runs == [] then [] else runs[0].attempts + AttemptsOf(runs[1..]) }

  /** Run `i` of the list is that of step `i`, in the store that the ones before have left. */
  predicate Traces(steps: seq<StepSpec>, vars: T.Store, world: World, scripts: seq<Script>, runs: seq<StepRun>) {
    |runs| <= |steps| == |scripts|
    && forall i :: 0 <= i < |runs| ==> TracedAt(steps, vars, world, scripts, runs[i], i)
  }

  predicate TracedAt(steps: seq<StepSpec>, vars: T.Store, world: World, scripts: seq<Script>, run: StepRun, i: nat) {
    i < |steps| == |scripts| && run == RunConfiguredStep(steps[i], StoreBefore(steps, vars, world, scripts, i), world, scripts[i])
  }

  /** A run is the runs of its steps, up to the first that fails: with their attempts one after the other, and with the
      outcome and the store of the last one. */
  lemma {:induction false} RunIsTraced(steps: seq<StepSpec>, vars: T.Store, world: World, scripts: seq<Script>) returns (runs: seq<StepRun>)
    requires |scripts| == |steps|
    ensures Traces(steps, vars, world, scripts, runs)
    ensures var r := RunSteps(steps, vars, world, scripts);
            r.attempts == AttemptsOf(runs) && (forall i :: 0 <= i < |runs| - 1 ==> runs[i].outcome.Passed?)
            && (if runs == [] then steps == [] && r.outcome == Passed && r.vars == vars
                else r.outcome == runs[|runs| - 1].outcome && r.vars == runs[|runs| - 1].vars
                     && (r.outcome.Passed? ==> |runs| == |steps|))
  {
    hide RunConfiguredStep, StoreBefore;
    runs := [];
    if steps != [] {
      var first := RunConfiguredStep(steps[0], vars, world, scripts[0]);
      NoStepBefore(steps, vars, world, scripts);
      runs := [first];
      assert [first][1..] == [] && first.attempts + [] == first.attempts;
      if first.outcome.Passed? {
        var rest := RunIsTraced(steps[1..], first.vars, world, scripts[1..]);
        runs := [first] + rest;
        assert runs[1..] == rest;
        TracesNext(steps, vars, world, scripts, first, rest);
      }
    }
  }

  lemma NoStepBefore(steps: seq<StepSpec>, vars: T.Store, world: World, scripts: seq<Script>)
    requires |scripts| == |steps|
    ensures StoreBefore(steps, vars, world, scripts, 0) == vars
  {
    hide RunConfiguredStep;
  }

  lemma TracesNext(steps: seq<StepSpec>, vars: T.Store, world: World, scripts: seq<Script>, first: StepRun, rest: seq<StepRun>)
    requires steps != [] && |scripts| == |steps| && first == RunConfiguredStep(steps[0], vars, world, scripts[0])
    requires Traces(steps[1..], first.vars, world, scripts[1..], rest)
    ensures Traces(steps, vars, world, scripts, [first] + rest)
  {
    hide RunConfiguredStep, StoreBefore;
    NoStepBefore(steps, vars, world, scripts);
    assert TracedAt(steps, vars, world, scripts, first, 0);
    hide TracedAt;
    forall i | 0 <= i < |rest| ensures TracedAt(steps, vars, world, scripts, rest[i], i + 1) {
      TracedShift(steps, vars, world, scripts, rest[i], i);
    }
    var runs := [first] + rest;
    forall i | 0 <= i < |runs| ensures TracedAt(steps, vars, world, scripts, runs[i], i) {
      if i > 0 { assert runs[i] == rest[i - 1]; }
    }
  }

  lemma TracedShift(steps: seq<StepSpec>, vars: T.Store, world: World, scripts: seq<Script>, run: StepRun, i: nat)
    requires steps != [] && |scripts| == |steps|
    requires TracedAt(steps[1..], RunConfiguredStep(steps[0], vars, world, scripts[0]).vars, world, scripts[1..], run, i)
    ensures TracedAt(steps, vars, world, scripts, run, i + 1)
  {
    hide RunConfiguredStep, StoreBefore;
    StepsShift(steps, vars, world, scripts, i);
  }

  lemma {:induction false} StepsShift(steps: seq<StepSpec>, vars: T.Store, world: World, scripts: seq<Script>, i: nat)
    requires steps != [] && |scripts| == |steps| && i <= |steps| - 1
    ensures StoreBefore(steps[1..], RunConfiguredStep(steps[0], vars, world, scripts[0]).vars, world, scripts[1..], i)
            == StoreBefore(steps, vars, world, scripts, i + 1)
  {
    hide RunConfiguredStep;
    if i > 0 {
      StepsShift(steps, vars, world, scripts, i - 1);
    } else {
      assert StoreBefore(steps, vars, world, scripts, 0) == vars;
    }
  }
}
