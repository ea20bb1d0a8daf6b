/** What the check does not see: constants written with escapes, names of uploaded files and catalogue messages. For
    each of the three a family of steps on which the check is silent and a run misses a variable, and the exact
    condition that `Preflight.PreflightSound` asks for. */
module PreflightLimits {
  import opened Optional
  import opened Text
  import opened Steps
  import opened JsonPath
  import opened Validator
  import opened Runner
  import opened Preflight
  import T = Templates

  function Get(path: string, multipart: Option<Multipart>, expect_: ExpectSpec): StepSpec {
    StepSpec("s", None, None, Some(RequestSpec(Some("GET"), Some(path), None, None, [], None, multipart)),
      Some(expect_), None, false, None, None)
  }

  function Equals(operand: Operand): Assertion {
    Assertion(Some(operand), None, None, None, None, None, false, None, [])
  }

  predicate Missing(n: string, vars: T.Store) { T.IsName(n) && !T.IsEnvironment(n) && Fold(n) !in vars }

  lemma {:induction false} PlainTextsAreKnown(step: string, texts: seq<string>, declared: set<string>)
    requires forall t :: t in texts ==> T.Names(t) == []
    ensures UnknownIn(step, texts, declared) == []
  {
    if texts != [] { PlainTextsAreKnown(step, texts[1..], declared); }
  }

  /** Preparing such a request resolves its eager texts, then its content. */
  lemma GetPrepares(path: string, multipart: Option<Multipart>, expect_: ExpectSpec, vars: T.Store, world: World, reply: Reply)
    ensures var step := Get(path, multipart, expect_);
            var eager := ResolveAll(EagerTemplates(step), vars, world);
            Prepare(step, vars, world, reply) == if eager.Failed? then eager
                                                 else if !reply.formed then Failed(Malformed)
                                                 else Content(step.request.value, vars, world, reply)
    ensures EagerTemplates(Get(path, multipart, expect_)) == [path] + Described(expect_.json)
  {
    hide Content, T.Resolve, Described;
    var step := Get(path, multipart, expect_);
    assert EagerTemplates(step) == [path] + Described(expect_.json);
    assert SecondsOf([]) == [];
  }

  /** A literal path resolves to itself, so what follows it decides. */
  lemma PathThen(path: string, rest: seq<string>, vars: T.Store, world: World)
    requires T.Names(path) == []
    ensures ResolveAll([path] + rest, vars, world) == ResolveAll(rest, vars, world)
  {
    hide T.Resolve, T.Names;
    T.ResolvePlain(path, vars, world.env);
    assert ([path] + rest)[1..] == rest;
  }

  lemma NothingToResolve(vars: T.Store, world: World)
    ensures ResolveAll([], vars, world) == Passed
  {
  }

  lemma OnlyMissing(n: string, vars: T.Store, world: World)
    requires Missing(n, vars)
    ensures ResolveAll([T.Placeholder(n)], vars, world) == Failed(MissingVariable(n))
    ensures T.Resolve(T.Placeholder(n), vars, world.env) == T.MissingVariable(n)
  {
    hide T.Names, T.Resolve;
    T.PlaceholderAlone(n, vars, world.env);
  }

  // ---- escapes ----

  function EscapedStep(path: string, raw: string): StepSpec {
    Get(path, None, ExpectSpec(Some(200), None, None, [("$", Equals(Constant(raw)))], None, None))
  }

  /** An escape can hide the dollar sign from the check: the raw text shows no variable, the decoded text
      is one, and the step fails before anything is sent. */
  lemma EscapesHideVariables(path: string, raw: string, n: string, vars: T.Store, world: World, reply: Reply)
    requires T.Names(path) == [] && T.Names(raw) == [] && Decode(raw) == T.Placeholder(n) && Missing(n, vars)
    ensures StepIssues(EscapedStep(path, raw), {}, false, world.catalogue) == []
    ensures Execute(EscapedStep(path, raw), vars, world, reply).outcome == Failed(MissingVariable(n))
  {
    hide T.Names, T.Resolve, Decode, UnknownIn, Prepare, ResolveAll, EagerTemplates, T.Placeholder;
    var step := EscapedStep(path, raw);
    var entries := JsonOf(step);
    assert entries[1..] == [] && [Constant(raw)][1..] == [];
    assert RuleTemplates(entries[0].1) == [raw];
    assert AssertionTemplates(entries) == [raw];
    assert EnumerateTemplates(step) == [path, raw];
    PlainTextsAreKnown("s", [path, raw], {});
    assert Described(entries) == [T.Placeholder(n)];
    GetPrepares(path, None, step.expect_.value, vars, world, reply);
    PathThen(path, [T.Placeholder(n)], vars, world);
    OnlyMissing(n, vars, world);
  }

  /** Such a constant: the JSON string `\u0024{x}`. */
  lemma EscapedConstant()
    ensures var raw := "\"" + "\\u0024" + "{x}" + "\"";
            T.Names(raw) == [] && Decode(raw) == T.Placeholder("x") && T.IsName("x") && !T.IsEnvironment("x")
  {
    hide T.MatchLength;
    var body := "\\u0024" + "{x}";
    var raw := "\"" + "\\u0024" + "{x}" + "\"";
    T.NoDollarNoNames(raw);
    assert raw[1..|raw| - 1] == body;
    DollarEscape("{x}");
  }

  lemma DollarEscape(rest: string)
    requires Free(rest, '\\')
    ensures Unescape("\\u0024" + rest) == "$" + rest
  {
    var body := "\\u0024" + rest;
    UnescapePlain(rest);
    assert body[6..] == rest;
    EscapeStep(body);
    assert CodeUnit(0, 0, 2, 4) == '$';
  }

  lemma EscapeStep(body: string)
    requires |body| >= 6 && body[0] == '\\' && body[1] == 'u' && body[2] == '0' && body[3] == '0' && body[4] == '2' && body[5] == '4'
    ensures Unescape(body) == [CodeUnit(0, 0, 2, 4)] + Unescape(body[6..])
  {
    hide CodeUnit, ControlEscape;
    assert HexValue('0') == 0 && HexValue('2') == 2 && HexValue('4') == 4;
  }

  // ---- file names ----

  function UploadStep(path: string, file: string): StepSpec {
    Get(path, Some(Multipart([], [MultipartFile("f", file, None)])), ExpectSpec(Some(200), None, None, [], None, None))
  }

  /** The name of an uploaded file defaults to the end of the *resolved* path, which is then resolved again. */
  lemma FileNamesAreReadTwice(path: string, v: string, n: string, vars: T.Store, world: World, reply: Reply)
    requires T.Names(path) == [] && T.IsName(v) && !T.IsEnvironment(v) && Fold(v) in vars
    requires BaseName(vars[Fold(v)]) == T.Placeholder(n) && Missing(n, vars) && reply.formed && reply.fileExists(vars[Fold(v)])
    ensures PlainDeclared(UploadStep(path, T.Placeholder(v)), {Fold(v)})
    ensures Execute(UploadStep(path, T.Placeholder(v)), vars, world, reply).outcome == Failed(MissingVariable(n))
  {
    hide T.Names, T.Resolve, BaseName, T.Placeholder, Prepare, ResolveAll, EagerTemplates;
    var file := MultipartFile("f", T.Placeholder(v), None);
    var step := UploadStep(path, T.Placeholder(v));
    assert [file][1..] == [] && SecondsOf([]) == [] && JsonOf(step) == [];
    assert FileTemplates([file]) == [T.Placeholder(v)];
    assert EnumerateTemplates(step) == [path, T.Placeholder(v)];
    T.PlaceholderAlone(v, vars, world.env);
    OnlyMissing(n, vars, world);
    GetPrepares(path, step.request.value.multipart, step.expect_.value, vars, world, reply);
    PathThen(path, [], vars, world);
    assert AttachFile(file, vars, world, reply) == Failed(MissingVariable(n));
    NothingToResolve(vars, world);
    assert Content(step.request.value, vars, world, reply) == Failed(MissingVariable(n));
  }

  /** A name that is longer than the text, so that the text cannot mention it. */
  function Fresh(s: string): string { seq(|s| + 1, _ => 'q') }

  function VariablesIn(s: string): set<string> { set n | n in T.Names(s) && !T.IsEnvironment(n) :: Fold(n) }

  function EnvironmentIn(s: string): set<string> { set n | n in T.Names(s) && T.IsEnvironment(n) :: n[4..] }

  /** Every variable of the text stands for the placeholder of the fresh name. */
  function HidingStore(s: string): T.Store { map k | k in VariablesIn(s) :: T.Placeholder(Fresh(s)) }

  function HidingEnvironment(s: string): T.Store { map k | k in EnvironmentIn(s) :: T.Placeholder(Fresh(s)) }

  lemma FreshIsName(s: string)
    ensures T.IsName(Fresh(s)) && !T.IsEnvironment(Fresh(s)) && Free(T.Placeholder(Fresh(s)), '/')
  {
    var q := Fresh(s);
    if |q| >= 4 { assert Fold(q[..4])[0] == 'q'; }
  }

  lemma FreshIsMissing(s: string)
    ensures Missing(Fresh(s), HidingStore(s))
  {
    hide T.IsName, T.IsEnvironment, T.Names, T.Placeholder;
    FreshIsName(s);
    forall n | n in T.Names(s) ensures |Fold(n)| < |Fold(Fresh(s))| { var i := T.NameOccurs(s, n); }
  }

  lemma HidingAnswers(s: string, part: string)
    requires forall n :: n in T.Names(part) ==> n in T.Names(s)
    ensures T.AllAnswer(T.Names(part), T.Placeholder(Fresh(s)), HidingStore(s), HidingEnvironment(s))
  {
    hide T.Names, Fresh, T.Placeholder;
    forall n | n in T.Names(part)
      ensures T.Lookup(n, HidingStore(s), HidingEnvironment(s)) == T.Resolved(T.Placeholder(Fresh(s)))
    {
      if T.IsEnvironment(n) { assert n[4..] in EnvironmentIn(s); } else { assert Fold(n) in VariablesIn(s); }
    }
  }

  /** Resolving brings in no character that neither the text nor the answers hold. */
  lemma {:induction false} ResolveFree(s: string, c: char, answer: string, vars: T.Store, env: T.Store)
    requires Free(s, c) && Free(answer, c) && T.AllAnswer(T.Names(s), answer, vars, env)
    ensures T.Resolve(s, vars, env).Resolved? && Free(T.Resolve(s, vars, env).text, c)
  {
    hide T.MatchLength, T.Lookup, T.Names, T.Resolve;
    if s == "" {
      T.NoDollarNoNames("");
      T.ResolvePlain("", vars, env);
    } else {
      var m := T.MatchLength(s);
      if m > 0 {
        T.NamesMatched(s);
        T.ResolveMatched(s, vars, env);
        assert s[2..m - 1] in T.Names(s);
        ResolveFree(s[m..], c, answer, vars, env);
      } else {
        T.NamesUnmatched(s);
        T.ResolveUnmatched(s, vars, env);
        ResolveFree(s[1..], c, answer, vars, env);
      }
    }
  }

  lemma BaseNames(path: string, n: string)
    requires n in T.Names(BaseName(path))
    ensures n in T.Names(path)
  {
    hide T.Names, BaseName;
    var k: nat :| k <= |path| && BaseName(path) == path[k..];
    T.SuffixNames(path, k, n);
  }

  /** A last segment that mentions a variable misses one in this store, although the store covers the path. */
  lemma HiddenBase(f: MultipartFile, world: World, reply: Reply)
    requires f.fileName.None? && T.Names(BaseName(f.path)) != []
    requires world.env == HidingEnvironment(f.path) && forall p: string :: reply.fileExists(p)
    ensures Covered(f.path, HidingStore(f.path).Keys) && Misses(AttachFile(f, HidingStore(f.path), world, reply))
  {
    hide T.Names, T.Resolve, BaseName, Fresh, T.Placeholder, T.IsName, T.IsEnvironment, HidingEnvironment;
    var path, base, q := f.path, BaseName(f.path), Fresh(f.path);
    var vars := HidingStore(path);
    FreshIsName(path);
    FreshIsMissing(path);
    HidingAnswers(path, path);
    forall n | n in T.Names(base) ensures n in T.Names(path) { BaseNames(path, n); }
    HidingAnswers(path, base);
    T.PlaceholdersForVariables(path, q, vars, world.env);
    T.PlaceholdersForVariables(base, q, vars, world.env);
    BaseIsFree(path);
    ResolveFree(base, '/', T.Placeholder(q), vars, world.env);
    BaseResolves(path, vars, world.env);
    T.ResolveNames(T.Resolve(base, vars, world.env).text, vars, world.env);
    assert !T.Available(q, vars, world.env);
  }

  /** The name of a file without one of its own is safe exactly when the last segment of its path mentions no
      variable: otherwise some store that covers the path makes the upload miss a variable. */
  lemma BaseNameExactly(f: MultipartFile)
    requires f.fileName.None?
    ensures (forall vars: T.Store, world: World, reply: Reply :: Covered(f.path, vars.Keys) ==> !Misses(AttachFile(f, vars, world, reply)))
            <==> T.Names(BaseName(f.path)) == []
  {
    hide T.Names, Covered, AttachFile, HidingStore, HidingEnvironment, BaseName;
    if T.Names(BaseName(f.path)) == [] {
      forall vars: T.Store, world: World, reply: Reply | Covered(f.path, vars.Keys) ensures !Misses(AttachFile(f, vars, world, reply)) {
        AttachFileCovered(f, vars, world, reply);
      }
    } else {
      var world := World(HidingEnvironment(f.path), None, _ => None, (_, _, _) => true);
      var reply := Reply(true, true, _ => true, None);
      HiddenBase(f, world, reply);
    }
  }

  // ---- catalogue messages ----

  function ErrorStep(path: string, code: string): StepSpec {
    Get(path, None, ExpectSpec(None, None, None, [], None, Some(ErrorExpectation(code, None))))
  }

  /** Catalogue messages become expected values and are resolved, but the check never reads them. */
  lemma MessagesAreNotChecked(path: string, code: string, n: string, vars: T.Store, world: World, reply: Reply, doc: Json)
    requires T.Names(path) == [] && T.Names(code) == [] && Missing(n, vars)
    requires world.catalogue == Some(map[code := CatalogueEntry(400, "m", T.Placeholder(n))])
    requires reply.formed && reply.response == Some(Response(400, 0, Some(doc)))
    requires Selection(doc, "$.errorCode") == Some([JString(code)]) && Selection(doc, "$.message") == Some([JString("m")])
    ensures StepIssues(ErrorStep(path, code), {}, false, world.catalogue) == []
    ensures Execute(ErrorStep(path, code), vars, world, reply).outcome == Failed(MissingVariable(n))
  {
    hide T.Names, T.Resolve, T.Placeholder, UnknownIn, Selection, Prepare, ResolveAll, EagerTemplates, AssertEntries,
      ResolveErrorExpectation;
    var step := ErrorStep(path, code);
    assert EnumerateTemplates(step) == [path];
    PlainTextsAreKnown("s", [path], {});
    GetPrepares(path, None, step.expect_.value, vars, world, reply);
    PathThen(path, [], vars, world);
    NothingToResolve(vars, world);
    CatalogueEntries(step.expect_.value, code, CatalogueEntry(400, "m", T.Placeholder(n)), world.catalogue);
    MessageEntryMisses(code, n, vars, world, doc);
  }

  lemma CatalogueEntries(expect_: ExpectSpec, code: string, entry: CatalogueEntry, catalogue: Option<Catalogue>)
    requires expect_.json == [] && expect_.error == Some(ErrorExpectation(code, None)) && catalogue == Some(map[code := entry])
    ensures var e := ResolveErrorExpectation(expect_, catalogue);
            e.Some? && e.value == expect_.(status := if expect_.status.Some? then expect_.status else Some(entry.httpStatus),
              json := [("$.errorCode", Equals(Plain(code))), ("$.message", Equals(Plain(entry.english)))])
  {
    assert "$.errorCode"[2] != "$.message"[2];
  }

  lemma MessageEntryMisses(code: string, n: string, vars: T.Store, world: World, doc: Json)
    requires T.Names(code) == [] && Missing(n, vars)
    requires Selection(doc, "$.errorCode") == Some([JString(code)]) && Selection(doc, "$.message") == Some([JString("m")])
    ensures AssertEntries(doc, [("$.errorCode", Equals(Plain(code))), ("$.message", Equals(Plain(T.Placeholder(n))))], vars, world)
            == Failed(MissingVariable(n))
  {
    hide T.Names, T.Resolve, T.Placeholder, Selection;
    T.ResolvePlain(code, vars, world.env);
    T.PlaceholderAlone(n, vars, world.env);
    var codeRule, messageRule := Equals(Plain(code)), Equals(Plain(T.Placeholder(n)));
    assert [JString(code)][1..] == [];
    assert AssertValue(JString(code), codeRule, vars, world) == Passed;
    assert AssertValues([JString(code)], codeRule, vars, world) == Passed;
    assert AssertValue(JString("m"), messageRule, vars, world) == Failed(MissingVariable(n));
    var entries := [("$.errorCode", codeRule), ("$.message", messageRule)];
    assert entries[1..] == [("$.message", messageRule)];
  }

  function ErrorRule(text: string): Assertion { Equals(Plain(text)) }

  predicate Asserted(entries: seq<(string, Assertion)>, path: string) { exists e :: e in entries && e.0 == path }

  /** The message in the language that the step asks for. */
  function ChosenMessage(error: ErrorExpectation, entry: CatalogueEntry): string {
    if error.locale.Some? && Fold(error.locale.value) == "vi" then entry.vietnamese else entry.english
  }

  /** A text that is asserted on that path, unless the step has an assertion of its own there. */
  function Unless(own: seq<(string, Assertion)>, path: string, text: string): Pairs {
    if Asserted(own, path) then [] else [(path, text)]
  }

  predicate ExpectsError(step: StepSpec, catalogue: Option<Catalogue>) {
    step.expect_.Some? && step.expect_.value.error.Some? && catalogue.Some?
    && step.expect_.value.error.value.code in catalogue.value
  }

  /** Code and message, where the step has no assertion of its own on them. */
  function AddedTexts(step: StepSpec, catalogue: Option<Catalogue>): Pairs {
    if ExpectsError(step, catalogue) then
      var error := step.expect_.value.error.value;
      Unless(JsonOf(step), "$.errorCode", error.code)
      + Unless(JsonOf(step), "$.message", ChosenMessage(error, catalogue.value[error.code]))
    else []
  }

  function Rules(pairs: Pairs): (r: seq<(string, Assertion)>)
    ensures |r| == |pairs| && forall i :: 0 <= i < |r| ==> r[i] == (pairs[i].0, ErrorRule(pairs[i].1))
  {
    seq(|pairs|, i requires 0 <= i < |pairs| => (pairs[i].0, ErrorRule(pairs[i].1)))
  }

  lemma RulesConcat(a: Pairs, b: Pairs)
    ensures Rules(a + b) == Rules(a) + Rules(b)
  {
    hide ErrorRule;
  }

  lemma AddIfAbsentIs(own: seq<(string, Assertion)>, path: string, text: string)
    ensures AddIfAbsent(own, path, text) == own + Rules(Unless(own, path, text))
    ensures forall other :: other != path ==> Asserted(AddIfAbsent(own, path, text), other) == Asserted(own, other)
  {
    var entry := (path, ErrorRule(text));
    assert Rules([(path, text)]) == [entry];
    assert own + [] == own;
    assert forall e :: e in own + [entry] <==> e in own || e == entry;
  }

  lemma AddedEntriesAre(step: StepSpec, catalogue: Option<Catalogue>)
    ensures AddedEntries(step, catalogue) == Rules(AddedTexts(step, catalogue))
  {
    hide AddIfAbsent, Asserted, Rules;
    if ExpectsError(step, catalogue) {
      var error := step.expect_.value.error.value;
      AddedBoth(JsonOf(step), error.code, ChosenMessage(error, catalogue.value[error.code]));
    } else {
      assert Rules([]) == [];
    }
  }

  lemma AddedBoth(own: seq<(string, Assertion)>, code: string, message: string)
    ensures var all := AddIfAbsent(AddIfAbsent(own, "$.errorCode", code), "$.message", message);
            |own| <= |all| && all[|own|..] == Rules(Unless(own, "$.errorCode", code) + Unless(own, "$.message", message))
  {
    hide AddIfAbsent, Asserted, Rules;
    assert "$.errorCode"[2] != "$.message"[2];
    var first := AddIfAbsent(own, "$.errorCode", code);
    AddIfAbsentIs(own, "$.errorCode", code);
    AddIfAbsentIs(first, "$.message", message);
    assert Unless(first, "$.message", message) == Unless(own, "$.message", message);
    var a, b := Unless(own, "$.errorCode", code), Unless(own, "$.message", message);
    RulesConcat(a, b);
    assert (own + Rules(a)) + Rules(b) == own + (Rules(a) + Rules(b));
  }

  function Answer(text: string, vars: T.Store, env: T.Store): string {
    var resolved := T.Resolve(text, vars, env);
    if resolved.Resolved? then resolved.text else ""
  }

  /** A response that reports just what is expected. */
  function ErrorReport(code: string, message: string): Json {
    JObject([("errorCode", JString(code)), ("message", JString(message))], "")
  }

  lemma TwoProperties(a: string, b: string, x: Json, y: Json)
    requires a != b
    ensures Property([(a, x), (b, y)], a) == Some(x) && Property([(a, x), (b, y)], b) == Some(y)
  {
    var properties := [(a, x), (b, y)];
    assert properties[..1] == [(a, x)];
    assert Property([(a, x)], a) == Some(x);
  }

  lemma ReportSelects(code: string, message: string)
    ensures Selection(ErrorReport(code, message), "$." + "errorCode") == Some([JString(code)])
    ensures Selection(ErrorReport(code, message), "$." + "message") == Some([JString(message)])
  {
    hide Parts, Property, Level, SelectParts;
    assert "errorCode"[0] != "message"[0];
    TwoProperties("errorCode", "message", JString(code), JString(message));
    OnePart("errorCode");
    OnePart("message");
    OneLevel(ErrorReport(code, message), "errorCode");
    OneLevel(ErrorReport(code, message), "message");
    LongerThanRoot("errorCode");
    LongerThanRoot("message");
  }

  lemma LongerThanRoot(name: string)
    requires name != ""
    ensures "$." + name != "$"
  {
    assert |"$." + name| > 1;
  }

  lemma OnePart(name: string)
    requires Free(name, '.')
    ensures StartsWith("$." + name, "$.") && Parts("$." + name) == [name]
  {
    NoSplit(name, '.');
    assert ("$." + name)[2..] == name;
  }

  lemma OneLevel(doc: Json, name: string)
    requires name != "*"
    ensures Level([doc], name) == (var next := Step(doc, name); if next.Some? then [next.value] else [])
    ensures SelectParts([doc], [name]) == Level([doc], name)
  {
    assert [doc][1..] == [] && [name][1..] == [];
    assert Level([], name) == [];
    assert SelectParts(Level([doc], name), []) == Level([doc], name);
  }

  /** On a value that is the resolved text, a rule that only compares with the text passes or misses as it resolves. */
  lemma ErrorEntryMisses(doc: Json, path: string, text: string, vars: T.Store, world: World)
    requires Selection(doc, path) == Some([JString(Answer(text, vars, world.env))])
    ensures AssertEntry(doc, path, ErrorRule(text), vars, world) == Need(T.Resolve(text, vars, world.env))
  {
    hide T.Resolve, Selection;
    var value, rule := JString(Answer(text, vars, world.env)), ErrorRule(text);
    assert [value][1..] == [];
    assert AssertValue(value, rule, vars, world) == Need(T.Resolve(text, vars, world.env));
    assert AssertValues([value], rule, vars, world) == Need(T.Resolve(text, vars, world.env));
  }

  predicate Reported(p: (string, string), code: string, message: string) {
    p == ("$." + "errorCode", code) || p == ("$." + "message", message)
  }

  /** On a report of what is expected, asserting is resolving. */
  lemma {:induction false} AssertingResolves(pairs: Pairs, code: string, message: string, vars: T.Store, world: World)
    requires forall p :: p in pairs ==> Reported(p, code, message)
    ensures AssertEntries(ErrorReport(Answer(code, vars, world.env), Answer(message, vars, world.env)), Rules(pairs), vars, world)
            == ResolveAll(SecondsOf(pairs), vars, world)
  {
    hide T.Resolve, AssertEntry, ErrorRule, ErrorReport, Answer, Selection;
    if pairs != [] {
      var doc := ErrorReport(Answer(code, vars, world.env), Answer(message, vars, world.env));
      assert pairs[0] in pairs && forall p :: p in pairs[1..] ==> p in pairs;
      ReportSelects(Answer(code, vars, world.env), Answer(message, vars, world.env));
      ErrorEntryMisses(doc, pairs[0].0, pairs[0].1, vars, world);
      AssertingResolves(pairs[1..], code, message, vars, world);
      assert Rules(pairs)[1..] == Rules(pairs[1..]) && SecondsOf(pairs)[1..] == SecondsOf(pairs[1..]);
    }
  }

  predicate EnvironmentFor(texts: seq<string>, env: T.Store) { forall t :: t in texts ==> EnvironmentIn(t) <= env.Keys }

  lemma UncoveredText(text: string, vars: T.Store, world: World)
    requires EnvironmentIn(text) <= world.env.Keys && !Covered(text, vars.Keys)
    ensures T.Resolve(text, vars, world.env).MissingVariable?
  {
    hide T.Names, T.Resolve, Covered;
    CoveredResolves(text, vars, world.env);
    T.ResolveNames(text, vars, world.env);
    forall n | n in T.Names(text) && T.IsEnvironment(n) ensures n[4..] in world.env { assert n[4..] in EnvironmentIn(text); }
  }

  lemma CoveredText(text: string, vars: T.Store, world: World)
    requires EnvironmentIn(text) <= world.env.Keys && Covered(text, vars.Keys)
    ensures T.Resolve(text, vars, world.env).Resolved?
  {
    hide T.Names, T.Resolve;
    T.ResolveNames(text, vars, world.env);
    forall n | n in T.Names(text) ensures T.Available(n, vars, world.env) {
      if T.IsEnvironment(n) { assert n[4..] in EnvironmentIn(text); }
    }
  }

  /** With all environment values at hand, what is not covered is missed. */
  lemma {:induction false} UncoveredMisses(texts: seq<string>, vars: T.Store, world: World)
    requires EnvironmentFor(texts, world.env) && !AllCovered(texts, vars.Keys)
    ensures Misses(ResolveAll(texts, vars, world))
  {
    hide T.Resolve, Covered, EnvironmentIn;
    assert texts[0] in texts && forall t :: t in texts ==> t == texts[0] || t in texts[1..];
    if Covered(texts[0], vars.Keys) {
      CoveredText(texts[0], vars, world);
      UncoveredMisses(texts[1..], vars, world);
    } else {
      UncoveredText(texts[0], vars, world);
    }
  }

  function AllEnvironment(texts: seq<string>): set<string> {
    if texts == [] then {} else EnvironmentIn(texts[0]) + AllEnvironment(texts[1..])
  }

  lemma {:induction false} AllEnvironmentHolds(texts: seq<string>, env: T.Store)
    requires AllEnvironment(texts) <= env.Keys
    ensures EnvironmentFor(texts, env)
  {
    hide EnvironmentIn;
    if texts != [] {
      AllEnvironmentHolds(texts[1..], env);
      assert forall t :: t in texts ==> t == texts[0] || t in texts[1..];
    }
  }

  lemma RulesCovered(pairs: Pairs, declared: set<string>)
    ensures CoveredEntries(Rules(pairs), declared) <==> AllCovered(SecondsOf(pairs), declared)
  {
    hide Covered;
    var rules, texts := Rules(pairs), SecondsOf(pairs);
    if CoveredEntries(rules, declared) {
      forall t | t in texts ensures Covered(t, declared) {
        var i :| 0 <= i < |texts| && texts[i] == t;
        assert rules[i] in rules;
        assert CoveredRule(rules[i].1, declared);
      }
    }
    if AllCovered(texts, declared) {
      forall e | e in rules ensures CoveredRule(e.1, declared) {
        var i :| 0 <= i < |rules| && rules[i] == e;
        assert texts[i] in texts;
      }
    }
  }

  /** No response makes an attempt miss a variable in what the catalogue adds, whatever else is in the store. */
  ghost predicate AddedAreSafe(step: StepSpec, catalogue: Option<Catalogue>, declared: set<string>) {
    forall doc: Json, vars: T.Store, world: World ::
      declared <= vars.Keys ==> !Misses(AssertEntries(doc, AddedEntries(step, catalogue), vars, world))
  }

  /** The condition on catalogue messages is exact: what is added is safe exactly when the code and the message in the
      chosen language, where they are added, mention declared variables only. */
  lemma MessagesExactly(step: StepSpec, catalogue: Option<Catalogue>, declared: set<string>)
    ensures MessagesDeclared(step, catalogue, declared) <==> AllCovered(SecondsOf(AddedTexts(step, catalogue)), declared)
    ensures MessagesDeclared(step, catalogue, declared) <==> AddedAreSafe(step, catalogue, declared)
  {
    hide CoveredEntries, AllCovered, AddedEntries, AddedTexts, AssertEntries, Rules;
    var entries, pairs := AddedEntries(step, catalogue), AddedTexts(step, catalogue);
    AddedEntriesAre(step, catalogue);
    RulesCovered(pairs, declared);
    if MessagesDeclared(step, catalogue, declared) {
      forall doc: Json, vars: T.Store, world: World | declared <= vars.Keys ensures !Misses(AssertEntries(doc, entries, vars, world)) {
        CoveredEntriesGrow(entries, declared, vars.Keys);
        AssertEntriesCovered(doc, entries, vars, world);
      }
    } else {
      var doc, vars, world := UncoveredAdded(step, catalogue, declared);
      assert Misses(AssertEntries(doc, entries, vars, world));
    }
  }

  /** A response on which what is not covered is missed. */
  lemma UncoveredAdded(step: StepSpec, catalogue: Option<Catalogue>, declared: set<string>) returns (doc: Json, vars: T.Store, world: World)
    requires !AllCovered(SecondsOf(AddedTexts(step, catalogue)), declared)
    ensures vars.Keys == declared && Misses(AssertEntries(doc, AddedEntries(step, catalogue), vars, world))
  {
    hide AllCovered, AddedEntries, AddedTexts, AssertEntries, Rules, ErrorReport, AllEnvironment, ResolveAll, Answer;
    var pairs := AddedTexts(step, catalogue);
    var texts := SecondsOf(pairs);
    vars := Bare(declared);
    assert vars.Keys == declared;
    world := World(map k | k in AllEnvironment(texts) :: "", None, _ => None, (_, _, _) => true);
    AllEnvironmentHolds(texts, world.env);
    var code, message := AddedAreReported(step, catalogue);
    AssertingResolves(pairs, code, message, vars, world);
    UncoveredMisses(texts, vars, world);
    AddedEntriesAre(step, catalogue);
    doc := ErrorReport(Answer(code, vars, world.env), Answer(message, vars, world.env));
  }

  lemma AddedAreReported(step: StepSpec, catalogue: Option<Catalogue>) returns (code: string, message: string)
    ensures forall p :: p in AddedTexts(step, catalogue) ==> Reported(p, code, message)
  {
    hide ChosenMessage, Asserted;
    assert "$." + "errorCode" == "$.errorCode" && "$." + "message" == "$.message";
    code, message := "", "";
    if ExpectsError(step, catalogue) {
      code := step.expect_.value.error.value.code;
      message := ChosenMessage(step.expect_.value.error.value, catalogue.value[code]);
    }
  }

  // ---- decoded constants ----

  /** Some comparison that the rule makes on a value misses a variable. */
  predicate ComparisonMisses(value: Json, rule: Assertion, vars: T.Store, world: World) {
    Misses(Compare(EqualTo, value, rule.expected, vars, world, true))
    || Misses(Compare(EqualTo, value, rule.notEquals, vars, world, false))
    || Misses(Compare(Containing, value, AsPlain(rule.contains), vars, world, true))
    || Misses(Compare(Matching, value, AsPlain(rule.matches), vars, world, true))
    || Misses(CompareAny(rule.oneOf, value, vars, world))
  }

  /** No value and no store that holds what is declared make a comparison of the rule miss. */
  ghost predicate ComparisonsAreSafe(rule: Assertion, declared: set<string>) {
    forall value: Json, vars: T.Store, world: World :: declared <= vars.Keys ==> !ComparisonMisses(value, rule, vars, world)
  }

  function OperandTexts(operands: seq<Operand>): (r: seq<string>)
    ensures |r| == |operands| && forall i :: 0 <= i < |r| ==> r[i] == OperandText(operands[i])
  {
    if operands == [] then [] else [OperandText(operands[0])] + OperandTexts(operands[1..])
  }

  /** Longer than every text that can be resolved. */
  predicate Outlasts(value: Json, texts: seq<string>, vars: T.Store, env: T.Store) {
    value.JString? && forall t :: t in texts ==> |Answer(t, vars, env)| < |value.value|
  }

  function Longest(texts: seq<string>, vars: T.Store, env: T.Store): (n: nat)
    ensures forall t :: t in texts ==> |Answer(t, vars, env)| < n
  {
    if texts == [] then 0 else |Answer(texts[0], vars, env)| + 1 + Longest(texts[1..], vars, env)
  }

  /** A value that an option does not equal has the next one asked. */
  lemma NextAsked(options: seq<Operand>, value: Json, vars: T.Store, world: World)
    requires options != [] && value.JString?
    requires T.Resolve(OperandText(options[0]), vars, world.env).Resolved?
    requires |Answer(OperandText(options[0]), vars, world.env)| < |value.value|
    ensures CompareAny(options, value, vars, world) == CompareAny(options[1..], value, vars, world)
  {
    hide T.Resolve, OperandText, Holds;
    StringsAreTexts(value.value, options[0], Answer(OperandText(options[0]), vars, world.env), world);
  }

  lemma FirstMisses(options: seq<Operand>, value: Json, vars: T.Store, world: World)
    requires options != [] && T.Resolve(OperandText(options[0]), vars, world.env).MissingVariable?
    ensures Misses(CompareAny(options, value, vars, world))
  {
    hide T.Resolve, OperandText, Holds;
  }

  /** A value that no option equals has every option asked, up to the first that is not covered. */
  lemma {:induction false} AllAsked(options: seq<Operand>, value: Json, vars: T.Store, world: World)
    requires EnvironmentFor(OperandTexts(options), world.env) && Outlasts(value, OperandTexts(options), vars, world.env)
    requires !AllCovered(OperandTexts(options), vars.Keys)
    ensures Misses(CompareAny(options, value, vars, world))
  {
    hide Covered, T.Resolve, OperandText, EnvironmentIn, Answer, CompareAny;
    var texts := OperandTexts(options);
    assert texts[0] in texts && texts[1..] == OperandTexts(options[1..]);
    assert forall t :: t in texts <==> t == texts[0] || t in texts[1..];
    if Covered(texts[0], vars.Keys) {
      CoveredText(texts[0], vars, world);
      NextAsked(options, value, vars, world);
      AllAsked(options[1..], value, vars, world);
    } else {
      UncoveredText(texts[0], vars, world);
      FirstMisses(options, value, vars, world);
    }
  }

  function RuleTexts(rule: Assertion): seq<string> {
    (if rule.expected.Some? then [OperandText(rule.expected.value)] else [])
    + (if rule.notEquals.Some? then [OperandText(rule.notEquals.value)] else [])
    + Opt(rule.contains) + Opt(rule.matches) + OperandTexts(rule.oneOf)
  }

  /** The store that holds what is declared and nothing else. */
  function Bare(declared: set<string>): T.Store { map k | k in declared :: "" }

  function Permissive(rule: Assertion): World {
    World(map k | k in AllEnvironment(RuleTexts(rule)) :: "", None, _ => None, (_, _, _) => true)
  }

  lemma RuleEnvironment(rule: Assertion)
    ensures EnvironmentFor(RuleTexts(rule), Permissive(rule).env) && EnvironmentFor(OperandTexts(rule.oneOf), Permissive(rule).env)
  {
    hide OperandTexts, OperandText, EnvironmentIn, AllEnvironment;
    AllEnvironmentHolds(RuleTexts(rule), Permissive(rule).env);
    assert forall t :: t in OperandTexts(rule.oneOf) ==> t in RuleTexts(rule);
  }

  lemma OptionsCovered(operands: seq<Operand>, declared: set<string>)
    ensures AllCovered(OperandTexts(operands), declared) <==> forall o :: o in operands ==> Covered(OperandText(o), declared)
  {
    hide Covered, OperandText;
    var texts := OperandTexts(operands);
    if AllCovered(texts, declared) {
      forall o | o in operands ensures Covered(OperandText(o), declared) {
        var i :| 0 <= i < |operands| && operands[i] == o;
        assert texts[i] in texts;
      }
    }
    if forall o :: o in operands ==> Covered(OperandText(o), declared) {
      forall t | t in texts ensures Covered(t, declared) {
        var i :| 0 <= i < |texts| && texts[i] == t;
        assert operands[i] in operands;
      }
    }
  }

  function Padded(text: string, n: nat): string { text + seq(n, _ => 'x') }

  lemma PaddedContains(text: string, n: nat)
    ensures ContainsText(Padded(text, n), text) && |Padded(text, n)| >= n
  {
    assert PartAt(Padded(text, n), text, 0);
  }

  lemma CompareUncovered(c: Comparison, value: Json, operand: Option<Operand>, vars: T.Store, world: World, wanted: bool)
    requires operand.Some? && EnvironmentIn(OperandText(operand.value)) <= world.env.Keys
    requires !Covered(OperandText(operand.value), vars.Keys)
    ensures Misses(Compare(c, value, operand, vars, world, wanted))
  {
    hide Covered, T.Resolve, OperandText, EnvironmentIn;
    UncoveredText(OperandText(operand.value), vars, world);
  }

  lemma SomeComparisonMisses(rule: Assertion, declared: set<string>) returns (value: Json)
    requires !CoveredRule(rule, declared)
    ensures ComparisonMisses(value, rule, Bare(declared), Permissive(rule))
  {
    hide Covered, OperandText, Compare, CompareAny, EnvironmentIn, AllEnvironment, Answer;
    var vars, world := Bare(declared), Permissive(rule);
    assert vars.Keys == declared;
    RuleEnvironment(rule);
    var texts := OperandTexts(rule.oneOf);
    value := JString(seq(Longest(texts, vars, world.env), _ => 'x'));
    InRuleTexts(rule);
    if rule.expected.Some? && !Covered(OperandText(rule.expected.value), declared) {
      CompareUncovered(EqualTo, value, rule.expected, vars, world, true);
    } else if rule.notEquals.Some? && !Covered(OperandText(rule.notEquals.value), declared) {
      CompareUncovered(EqualTo, value, rule.notEquals, vars, world, false);
    } else if rule.contains.Some? && !Covered(rule.contains.value, declared) {
      CompareUncovered(Containing, value, AsPlain(rule.contains), vars, world, true);
    } else if rule.matches.Some? && !Covered(rule.matches.value, declared) {
      CompareUncovered(Matching, value, AsPlain(rule.matches), vars, world, true);
    } else {
      OptionsCovered(rule.oneOf, declared);
      AllAsked(rule.oneOf, value, vars, world);
    }
  }

  lemma InRuleTexts(rule: Assertion)
    ensures rule.expected.Some? ==> OperandText(rule.expected.value) in RuleTexts(rule)
    ensures rule.notEquals.Some? ==> OperandText(rule.notEquals.value) in RuleTexts(rule)
    ensures rule.contains.Some? ==> rule.contains.value in RuleTexts(rule) && OperandText(AsPlain(rule.contains).value) == rule.contains.value
    ensures rule.matches.Some? ==> rule.matches.value in RuleTexts(rule) && OperandText(AsPlain(rule.matches).value) == rule.matches.value
  {
    hide Decode;
  }

  /** The condition on constants is exact: where the check is content with the texts of a rule, no comparison that the
      rule makes can miss a variable exactly when its constants are seen. */
  lemma ConstantsExactly(rule: Assertion, declared: set<string>)
    requires AllCovered(RuleTemplates(rule), declared)
    ensures SeenRule(rule, declared) <==> ComparisonsAreSafe(rule, declared)
  {
    hide SeenRule, AllCovered, ComparisonMisses, Permissive;
    RuleCovered(rule, declared);
    if CoveredRule(rule, declared) {
      forall value: Json, vars: T.Store, world: World | declared <= vars.Keys ensures !ComparisonMisses(value, rule, vars, world) {
        RuleGrows(rule, declared, vars.Keys);
        ComparisonsCovered(value, rule, vars, world);
      }
    } else {
      var value := SomeComparisonMisses(rule, declared);
      assert Bare(declared).Keys == declared;
    }
  }

  lemma RuleGrows(rule: Assertion, small: set<string>, large: set<string>)
    requires CoveredRule(rule, small) && small <= large
    ensures CoveredRule(rule, large)
  {
    hide OperandText, T.Names, T.IsEnvironment;
  }

  lemma ComparisonsCovered(value: Json, rule: Assertion, vars: T.Store, world: World)
    requires CoveredRule(rule, vars.Keys)
    ensures !ComparisonMisses(value, rule, vars, world)
  {
    hide Covered, OperandText, Compare, CompareAny;
    CompareCovered(EqualTo, value, rule.expected, vars, world, true);
    CompareCovered(EqualTo, value, rule.notEquals, vars, world, false);
    InRuleTexts(rule);
    CompareCovered(Containing, value, AsPlain(rule.contains), vars, world, true);
    CompareCovered(Matching, value, AsPlain(rule.matches), vars, world, true);
    CompareAnyCovered(rule.oneOf, value, vars, world);
  }

  lemma RuleTextsKnown(rule: Assertion, declared: set<string>)
    requires AllCovered(RuleTemplates(rule), declared)
    ensures rule.contains.Some? ==> Covered(rule.contains.value, declared)
    ensures rule.matches.Some? ==> Covered(rule.matches.value, declared)
  {
    hide Covered, Raws;
    assert forall t :: t in Opt(rule.contains) || t in Opt(rule.matches) ==> t in RuleTemplates(rule);
    if rule.contains.Some? { assert rule.contains.value in Opt(rule.contains); }
    if rule.matches.Some? { assert rule.matches.value in Opt(rule.matches); }
  }

  /** A string is compared as text. */
  lemma StringsAreTexts(text: string, operand: Operand, resolved: string, world: World)
    ensures Holds(EqualTo, JString(text), operand, resolved, world) <==> text == resolved
  {
  }

  lemma ComparePasses(c: Comparison, value: Json, operand: Option<Operand>, vars: T.Store, world: World, wanted: bool)
    requires operand.Some? ==> EnvironmentIn(OperandText(operand.value)) <= world.env.Keys && Covered(OperandText(operand.value), vars.Keys)
    requires operand.Some? ==> Holds(c, value, operand.value, Answer(OperandText(operand.value), vars, world.env), world) == wanted
    ensures Compare(c, value, operand, vars, world, wanted).Passed?
  {
    hide Covered, T.Resolve, OperandText, EnvironmentIn, Holds;
    if operand.Some? { CoveredText(OperandText(operand.value), vars, world); }
  }

  lemma ExpectedMisses(rule: Assertion, value: Json, vars: T.Store, world: World)
    requires Misses(Compare(EqualTo, value, rule.expected, vars, world, true))
    ensures Misses(AssertValue(value, rule, vars, world))
  {
    hide Compare, CompareAny;
  }

  lemma NotEqualsMisses(rule: Assertion, value: Json, vars: T.Store, world: World)
    requires Compare(EqualTo, value, rule.expected, vars, world, true).Passed?
    requires Misses(Compare(EqualTo, value, rule.notEquals, vars, world, false))
    ensures Misses(AssertValue(value, rule, vars, world))
  {
    hide Compare, CompareAny;
  }

  lemma OptionMisses(rule: Assertion, value: Json, vars: T.Store, world: World)
    requires rule.expected.None? && Compare(EqualTo, value, rule.notEquals, vars, world, false).Passed?
    requires Compare(Containing, value, AsPlain(rule.contains), vars, world, true).Passed?
    requires Compare(Matching, value, AsPlain(rule.matches), vars, world, true).Passed?
    requires Misses(CompareAny(rule.oneOf, value, vars, world))
    ensures Misses(AssertValue(value, rule, vars, world))
  {
    hide Compare, OperandText, T.Resolve, Holds;
    ComparePasses(EqualTo, value, rule.expected, vars, world, true);
    assert rule.oneOf != [];
  }

  /** A value that differs from what it must not equal and from all options, and holds what it must contain. */
  function Stranger(rule: Assertion, vars: T.Store, env: T.Store): string {
    var part := if rule.contains.Some? then Answer(rule.contains.value, vars, env) else "";
    var other := if rule.notEquals.Some? then |Answer(OperandText(rule.notEquals.value), vars, env)| + 1 else 0;
    Padded(part, other + Longest(OperandTexts(rule.oneOf), vars, env))
  }

  lemma StrangerPasses(rule: Assertion, vars: T.Store, world: World)
    requires EnvironmentFor(RuleTexts(rule), world.env) && forall value: Json, text: string :: world.holds(Matching, value, text)
    requires rule.notEquals.Some? ==> Covered(OperandText(rule.notEquals.value), vars.Keys)
    requires rule.contains.Some? ==> Covered(rule.contains.value, vars.Keys)
    requires rule.matches.Some? ==> Covered(rule.matches.value, vars.Keys)
    ensures var value := JString(Stranger(rule, vars, world.env));
            Compare(EqualTo, value, rule.notEquals, vars, world, false).Passed?
            && Compare(Containing, value, AsPlain(rule.contains), vars, world, true).Passed?
            && Compare(Matching, value, AsPlain(rule.matches), vars, world, true).Passed?
            && Outlasts(value, OperandTexts(rule.oneOf), vars, world.env)
  {
    hide Covered, OperandText, Compare, EnvironmentIn, Answer, Padded, RuleTexts, ContainsText, SameValue;
    var text := Stranger(rule, vars, world.env);
    var value := JString(text);
    InRuleTexts(rule);
    var part := if rule.contains.Some? then Answer(rule.contains.value, vars, world.env) else "";
    var other := if rule.notEquals.Some? then |Answer(OperandText(rule.notEquals.value), vars, world.env)| + 1 else 0;
    PaddedContains(part, other + Longest(OperandTexts(rule.oneOf), vars, world.env));
    assert TextOf(value) == text;
    if rule.notEquals.Some? {
      StringsAreTexts(text, rule.notEquals.value, Answer(OperandText(rule.notEquals.value), vars, world.env), world);
    }
    ComparePasses(EqualTo, value, rule.notEquals, vars, world, false);
    ComparePasses(Containing, value, AsPlain(rule.contains), vars, world, true);
    ComparePasses(Matching, value, AsPlain(rule.matches), vars, world, true);
  }

  lemma SomeValueMisses(rule: Assertion, declared: set<string>) returns (value: Json)
    requires AllCovered(RuleTemplates(rule), declared) && !CoveredRule(rule, declared)
    requires rule.expected.None? || rule.oneOf == []
    ensures Misses(AssertValue(value, rule, Bare(declared), Permissive(rule)))
  {
    hide Covered, OperandText, Compare, CompareAny, EnvironmentIn, AllEnvironment, Answer, AssertValue, AllCovered, RuleTexts,
      Stranger, SameValue;
    var vars, world := Bare(declared), Permissive(rule);
    assert vars.Keys == declared;
    RuleEnvironment(rule);
    RuleTextsKnown(rule, declared);
    InRuleTexts(rule);
    value := JString("");
    if rule.expected.Some? && !Covered(OperandText(rule.expected.value), declared) {
      CompareUncovered(EqualTo, value, rule.expected, vars, world, true);
      ExpectedMisses(rule, value, vars, world);
    } else if rule.notEquals.Some? && !Covered(OperandText(rule.notEquals.value), declared) {
      if rule.expected.Some? {
        var text := Answer(OperandText(rule.expected.value), vars, world.env);
        value := JString(text);
        StringsAreTexts(text, rule.expected.value, text, world);
      }
      ComparePasses(EqualTo, value, rule.expected, vars, world, true);
      CompareUncovered(EqualTo, value, rule.notEquals, vars, world, false);
      NotEqualsMisses(rule, value, vars, world);
    } else {
      value := JString(Stranger(rule, vars, world.env));
      OptionsCovered(rule.oneOf, declared);
      StrangerPasses(rule, vars, world);
      AllAsked(rule.oneOf, value, vars, world);
      OptionMisses(rule, value, vars, world);
    }
  }

  ghost predicate AssertingIsSafe(rule: Assertion, declared: set<string>) {
    forall value: Json, vars: T.Store, world: World :: declared <= vars.Keys ==> !Misses(AssertValue(value, rule, vars, world))
  }

  /** The same of the whole assertion on a value, for a rule that does not ask for one value and for one of several. */
  lemma RuleMissesExactly(rule: Assertion, declared: set<string>)
    requires AllCovered(RuleTemplates(rule), declared) && (rule.expected.None? || rule.oneOf == [])
    ensures SeenRule(rule, declared) <==> AssertingIsSafe(rule, declared)
  {
    hide SeenRule, AllCovered, AssertValue, Permissive;
    RuleCovered(rule, declared);
    if CoveredRule(rule, declared) {
      forall value: Json, vars: T.Store, world: World | declared <= vars.Keys ensures !Misses(AssertValue(value, rule, vars, world)) {
        RuleGrows(rule, declared, vars.Keys);
        AssertValueCovered(value, rule, vars, world);
      }
    } else {
      var value := SomeValueMisses(rule, declared);
      assert Bare(declared).Keys == declared;
    }
  }

  /** Where a rule asks for both, an option that stands behind the expected value is never asked. */
  lemma OptionsBehindExpected(value: Json, rule: Assertion, rest: seq<Operand>, vars: T.Store, world: World)
    requires rule.expected.Some? && rule.oneOf == [rule.expected.value] + rest
    ensures AssertValue(value, rule, vars, world) == AssertValue(value, rule.(oneOf := [rule.expected.value]), vars, world)
  {
    hide T.Resolve, OperandText, Holds;
    assert [rule.expected.value][0] == rule.oneOf[0];
  }

  // ---- before anything is sent ----

  predicate ExpectedSeen(entries: seq<(string, Assertion)>, declared: set<string>) {
    forall e :: e in entries && e.1.expected.Some? ==> Seen(e.1.expected.value, declared)
  }

  lemma {:induction false} DescribedExactly(entries: seq<(string, Assertion)>, declared: set<string>)
    requires AllCovered(AssertionTemplates(entries), declared)
    ensures AllCovered(Described(entries), declared) <==> ExpectedSeen(entries, declared)
  {
    hide Covered, Seen, OperandText, RuleTemplates;
    if entries != [] {
      var rule := entries[0].1;
      AllCoveredConcat(RuleTemplates(rule), AssertionTemplates(entries[1..]), declared);
      DescribedExactly(entries[1..], declared);
      RuleTextsKnown(rule, declared);
      if rule.expected.Some? { ExpectedKnown(rule, declared); }
      var expected := if rule.expected.Some? then [OperandText(rule.expected.value)] else [];
      var contains := if rule.contains.Some? then [rule.contains.value] else [];
      assert Described(entries) == expected + contains + Described(entries[1..]);
      AllCoveredConcat(expected + contains, Described(entries[1..]), declared);
      AllCoveredConcat(expected, contains, declared);
      assert forall e :: e in entries <==> e == entries[0] || e in entries[1..];
    }
  }

  lemma ExpectedKnown(rule: Assertion, declared: set<string>)
    requires AllCovered(RuleTemplates(rule), declared) && rule.expected.Some?
    ensures Seen(rule.expected.value, declared) <==> Covered(OperandText(rule.expected.value), declared)
  {
    hide Covered, Seen, OperandText;
    assert forall t :: t in OptRaw(rule.expected) ==> t in RuleTemplates(rule);
    OperandCovered([rule.expected.value], rule.expected.value, declared);
  }

  /** No attempt misses a variable before it is sent. */
  ghost predicate PreparingIsSafe(step: StepSpec, declared: set<string>)
    requires step.request.Some?
  {
    forall vars: T.Store, world: World, reply: Reply :: declared <= vars.Keys ==> !Misses(Prepare(step, vars, world, reply))
  }

  /** Expected values are resolved with the request: an attempt at a checked step misses nothing before it is sent, whatever
      the response would be, exactly when its expected constants are seen. */
  lemma PreparingExactly(step: StepSpec, declared: set<string>)
    requires step.request.Some? && step.request.value.method_.Some? && step.request.value.path.Some?
    requires AllCovered(EnumerateTemplates(step), declared) && FilesNamed(step)
    ensures PreparingIsSafe(step, declared) <==> ExpectedSeen(JsonOf(step), declared)
  {
    hide AllCovered, EnumerateTemplates, ExpectedSeen, Described, EagerTemplates, FilesNamed, AllEnvironment, AssertionTemplates;
    RequestPartsCovered(step, declared);
    DescribedExactly(JsonOf(step), declared);
    EagerIsRequest(step, declared);
    if ExpectedSeen(JsonOf(step), declared) {
      forall vars: T.Store, world: World, reply: Reply | declared <= vars.Keys ensures !Misses(Prepare(step, vars, world, reply)) {
        AllCoveredGrows(EnumerateTemplates(step), declared, vars.Keys);
        AllCoveredGrows(EagerTemplates(step), declared, vars.Keys);
        PrepareSound(step, vars, world, reply);
      }
    } else {
      var texts, vars := EagerTemplates(step), Bare(declared);
      var world := World(map k | k in AllEnvironment(texts) :: "", None, _ => None, (_, _, _) => true);
      assert vars.Keys == declared;
      AllEnvironmentHolds(texts, world.env);
      UncoveredMisses(texts, vars, world);
      var reply := Reply(true, true, _ => true, None);
      EagerDecides(step, vars, world, reply);
    }
  }

  lemma EagerDecides(step: StepSpec, vars: T.Store, world: World, reply: Reply)
    requires step.request.Some? && step.request.value.method_.Some? && step.request.value.path.Some?
    requires Misses(ResolveAll(EagerTemplates(step), vars, world))
    ensures Misses(Prepare(step, vars, world, reply))
  {
    hide ResolveAll, EagerTemplates, Content, Authenticate;
  }

  /** Apart from the description of the expectation the check has read what is resolved first. */
  lemma EagerIsRequest(step: StepSpec, declared: set<string>)
    requires step.request.Some? && AllCovered(EnumerateTemplates(step), declared)
    ensures AllCovered(EagerTemplates(step), declared) <==> AllCovered(Described(JsonOf(step)), declared)
  {
    hide Covered, Described, EnumerateTemplates;
    RequestPartsCovered(step, declared);
    var r := step.request.value;
    var own := (if r.path.Some? then [r.path.value] else [])
      + (if r.rawBody.Some? then [r.rawBody.value] else if r.body.Some? then [r.body.value] else [])
      + (if r.form.Some? then SecondsOf(r.form.value) else []);
    assert EagerTemplates(step) == own + Described(JsonOf(step));
    AllCoveredConcat(own, Described(JsonOf(step)), declared);
  }
}
