/** The preflight check against the interpreter: what a silent check guarantees about every run,
    and what a passing run says about the check. */
module Preflight {
  import opened Optional
  import opened Text
  import opened Steps
  import opened JsonPath
  import opened Validator
  import opened Runner
  import opened Schemas
  import T = Templates

  // ---- one text ----

  lemma CoveredResolves(text: string, vars: T.Store, env: T.Store)
    ensures Covered(text, vars.Keys) ==> !T.Resolve(text, vars, env).MissingVariable?
    ensures !Covered(text, vars.Keys) ==> !T.Resolve(text, vars, env).Resolved?
  {
    T.ResolveNames(text, vars, env);
  }

  lemma {:induction false} ResolveAllCovered(texts: seq<string>, vars: T.Store, world: World)
    ensures AllCovered(texts, vars.Keys) ==> !Misses(ResolveAll(texts, vars, world))
    ensures !AllCovered(texts, vars.Keys) ==> ResolveAll(texts, vars, world).Failed?
  {
    hide Covered;
    if texts != [] {
      CoveredResolves(texts[0], vars, world.env);
      ResolveAllCovered(texts[1..], vars, world);
      assert forall t :: t in texts <==> t == texts[0] || t in texts[1..];
    }
  }

  // ---- which texts of a step the check sees through ----

  /** Where the check is content with the text in the file, it would be content with the text it stands for. */
  predicate Seen(operand: Operand, declared: set<string>) {
    match operand
    case Constant(raw) => Covered(raw, declared) ==> Covered(Decode(raw), declared)
    case Plain(text) => Covered(text, declared)
  }

  predicate SeenRule(rule: Assertion, declared: set<string>) {
    (rule.expected.Some? ==> Seen(rule.expected.value, declared))
    && (rule.notEquals.Some? ==> Seen(rule.notEquals.value, declared))
    && forall o :: o in rule.oneOf ==> Seen(o, declared)
  }

  predicate SeenEntries(entries: seq<(string, Assertion)>, declared: set<string>) {
    forall e :: e in entries ==> SeenRule(e.1, declared)
  }

  /** Decoding reveals no variable that the raw text does not show. */
  predicate Faithful(raw: string) { forall n :: n in T.Names(Decode(raw)) ==> T.IsEnvironment(n) || Fold(n) in Keys(T.Names(raw)) }

  /** Exactly then may the constant be checked by its raw text, whatever is declared. */
  lemma FaithfulIsExact(raw: string)
    ensures Faithful(raw) <==> forall declared :: Seen(Constant(raw), declared)
  {
    hide T.Names, Decode;
    if Faithful(raw) {
      forall declared ensures Seen(Constant(raw), declared) {
        if Covered(raw, declared) { FaithfulCovered(raw, declared); }
      }
    }
    if forall declared :: Seen(Constant(raw), declared) {
      assert Seen(Constant(raw), Keys(T.Names(raw)));
      assert Covered(raw, Keys(T.Names(raw)));
    }
  }

  lemma FaithfulCovered(raw: string, declared: set<string>)
    requires Faithful(raw) && Covered(raw, declared)
    ensures Covered(Decode(raw), declared)
  {
    hide T.Names, Decode, T.IsEnvironment;
    forall n | n in T.Names(Decode(raw)) && !T.IsEnvironment(n) ensures Fold(n) in declared {
      var n' :| n' in T.Names(raw) && Fold(n') == Fold(n);
      T.EnvironmentFold(n, n');
    }
  }

  /** An uploaded file has a name of its own, or the last segment of its path holds no variable. */
  predicate NamedFile(file: MultipartFile) { file.fileName.Some? || T.Names(BaseName(file.path)) == [] }

  /** What the error expectation adds to the step's own assertions; the check does not read it. */
  function AddedEntries(step: StepSpec, catalogue: Option<Catalogue>): seq<(string, Assertion)> {
    if step.expect_.None? then []
    else
      var resolved := ResolveErrorExpectation(step.expect_.value, catalogue);
      if resolved.None? then [] else resolved.value.json[|step.expect_.value.json|..]
  }

  /** The code and the message that are added mention declared variables only. */
  predicate MessagesDeclared(step: StepSpec, catalogue: Option<Catalogue>, declared: set<string>) {
    CoveredEntries(AddedEntries(step, catalogue), declared)
  }

  predicate FilesNamed(step: StepSpec) {
    step.request.Some? && step.request.value.multipart.Some? ==>
      forall f :: f in step.request.value.multipart.value.files ==> NamedFile(f)
  }

  /** The step's runtime texts mention declared variables when the texts in the file do: constants once they are
      decoded, names of files, and what the catalogue adds. */
  predicate Transparent(step: StepSpec, catalogue: Option<Catalogue>, declared: set<string>) {
    SeenEntries(JsonOf(step), declared) && FilesNamed(step) && MessagesDeclared(step, catalogue, declared)
  }

  predicate TransparentStep(step: StepSpec, catalogue: Option<Catalogue>, declared: set<string>) {
    if Concurrent(step) then
      forall i :: 0 <= i < |step.concurrentRequests.value| ==>
        Transparent(Child(step.concurrentRequests.value[i]), catalogue, declared)
    else Transparent(step, catalogue, declared)
  }

  /** A string constant written without escapes, and every other constant, is faithful. */
  lemma EscapeFreeIsFaithful(raw: string)
    requires Free(raw, '\\')
    ensures Faithful(raw)
  {
    hide T.Names, Unescape;
    if |raw| >= 2 && raw[0] == '"' && raw[|raw| - 1] == '"' {
      var body := raw[1..|raw| - 1];
      UnescapePlain(body);
      QuotedNames(body);
      assert raw == "\"" + body + "\"";
    }
  }

  lemma {:induction false} UnescapePlain(s: string)
    requires Free(s, '\\')
    ensures Unescape(s) == s
  {
    if s != "" { UnescapePlain(s[1..]); }
  }

  lemma QuotedNames(body: string)
    ensures T.Names("\"" + body + "\"") == T.Names(body)
  {
    T.NamesSplit("\"", body + "\"");
    T.NamesSplit(body, "\"");
    T.SingleHasNoNames('"');
    assert "\"" + body + "\"" == "\"" + (body + "\"");
  }

  // ---- one attempt ----

  predicate CoveredRule(rule: Assertion, declared: set<string>) {
    (rule.expected.Some? ==> Covered(OperandText(rule.expected.value), declared))
    && (rule.notEquals.Some? ==> Covered(OperandText(rule.notEquals.value), declared))
    && (rule.contains.Some? ==> Covered(rule.contains.value, declared))
    && (rule.matches.Some? ==> Covered(rule.matches.value, declared))
    && forall o :: o in rule.oneOf ==> Covered(OperandText(o), declared)
  }

  predicate CoveredEntries(entries: seq<(string, Assertion)>, declared: set<string>) {
    forall e :: e in entries ==> CoveredRule(e.1, declared)
  }

  lemma {:induction false} RawsContain(operands: seq<Operand>, o: Operand)
    requires o in operands && o.Constant?
    ensures o.raw in Raws(operands)
  {
    if o != operands[0] { RawsContain(operands[1..], o); }
  }

  lemma OperandCovered(operands: seq<Operand>, o: Operand, declared: set<string>)
    requires o in operands && AllCovered(Raws(operands), declared)
    ensures Seen(o, declared) <==> Covered(OperandText(o), declared)
  {
    hide Covered, Decode;
    if o.Constant? { RawsContain(operands, o); }
  }

  /** Where the check is content with the texts of a rule, it sees its constants exactly when every text that the rule
      stands for is covered. */
  lemma RuleCovered(rule: Assertion, declared: set<string>)
    requires AllCovered(RuleTemplates(rule), declared)
    ensures SeenRule(rule, declared) <==> CoveredRule(rule, declared)
  {
    hide Covered, Seen, OperandText;
    var texts := RuleTemplates(rule);
    assert forall t :: t in Opt(rule.contains) || t in Opt(rule.matches) || t in Raws(rule.oneOf) ==> t in texts;
    assert forall t :: t in OptRaw(rule.expected) || t in OptRaw(rule.notEquals) ==> t in texts;
    if rule.contains.Some? { assert rule.contains.value in Opt(rule.contains); }
    if rule.matches.Some? { assert rule.matches.value in Opt(rule.matches); }
    if rule.expected.Some? { OperandCovered([rule.expected.value], rule.expected.value, declared); }
    if rule.notEquals.Some? { OperandCovered([rule.notEquals.value], rule.notEquals.value, declared); }
    forall o | o in rule.oneOf ensures Seen(o, declared) <==> Covered(OperandText(o), declared) {
      OperandCovered(rule.oneOf, o, declared);
    }
  }

  lemma {:induction false} EntriesCovered(entries: seq<(string, Assertion)>, declared: set<string>)
    requires AllCovered(AssertionTemplates(entries), declared)
    ensures SeenEntries(entries, declared) <==> CoveredEntries(entries, declared)
  {
    hide Covered, SeenRule, CoveredRule;
    if entries != [] {
      var head, rest := RuleTemplates(entries[0].1), AssertionTemplates(entries[1..]);
      assert AssertionTemplates(entries) == head + rest;
      assert forall t :: t in head || t in rest ==> t in head + rest;
      RuleCovered(entries[0].1, declared);
      EntriesCovered(entries[1..], declared);
      assert forall e :: e in entries <==> e == entries[0] || e in entries[1..];
    }
  }

  lemma CoveredEntriesGrow(entries: seq<(string, Assertion)>, small: set<string>, large: set<string>)
    requires CoveredEntries(entries, small) && small <= large
    ensures CoveredEntries(entries, large)
  {
    hide OperandText, T.Names, T.IsEnvironment;
    forall e | e in entries ensures CoveredRule(e.1, large) { assert CoveredRule(e.1, small); }
  }

  lemma CoveredEntriesConcat(a: seq<(string, Assertion)>, b: seq<(string, Assertion)>, declared: set<string>)
    ensures CoveredEntries(a + b, declared) <==> CoveredEntries(a, declared) && CoveredEntries(b, declared)
  {
    hide CoveredRule;
    assert forall e :: e in a + b <==> e in a || e in b;
  }

  lemma ErrorEntriesCovered(step: StepSpec, catalogue: Option<Catalogue>, declared: set<string>)
    requires step.expect_.Some? && MessagesDeclared(step, catalogue, declared) && CoveredEntries(JsonOf(step), declared)
    ensures var e := ResolveErrorExpectation(step.expect_.value, catalogue);
            e.Some? ==> CoveredEntries(e.value.json, declared)
  {
    hide CoveredEntries, ResolveErrorExpectation;
    var e := ResolveErrorExpectation(step.expect_.value, catalogue);
    if e.Some? {
      CoveredEntriesConcat(JsonOf(step), AddedEntries(step, catalogue), declared);
      assert e.value.json == JsonOf(step) + AddedEntries(step, catalogue);
    }
  }

  lemma CompareCovered(c: Comparison, value: Json, operand: Option<Operand>, vars: T.Store, world: World, wanted: bool)
    requires operand.Some? ==> Covered(OperandText(operand.value), vars.Keys)
    ensures !Misses(Compare(c, value, operand, vars, world, wanted))
  {
    if operand.Some? { CoveredResolves(OperandText(operand.value), vars, world.env); }
  }

  lemma {:induction false} CompareAnyCovered(options: seq<Operand>, value: Json, vars: T.Store, world: World)
    requires forall o :: o in options ==> Covered(OperandText(o), vars.Keys)
    ensures !Misses(CompareAny(options, value, vars, world))
  {
    hide Covered, OperandText, Holds, T.Resolve;
    if options != [] {
      assert options[0] in options && forall o :: o in options[1..] ==> o in options;
      CoveredResolves(OperandText(options[0]), vars, world.env);
      CompareAnyCovered(options[1..], value, vars, world);
    }
  }

  lemma AssertValueCovered(value: Json, rule: Assertion, vars: T.Store, world: World)
    requires CoveredRule(rule, vars.Keys)
    ensures !Misses(AssertValue(value, rule, vars, world))
  {
    hide Covered, Decode, Compare, CompareAny;
    CompareCovered(EqualTo, value, rule.expected, vars, world, true);
    CompareCovered(EqualTo, value, rule.notEquals, vars, world, false);
    CompareCovered(Containing, value, AsPlain(rule.contains), vars, world, true);
    CompareCovered(Matching, value, AsPlain(rule.matches), vars, world, true);
    CompareAnyCovered(rule.oneOf, value, vars, world);
  }

  lemma {:induction false} AssertValuesCovered(values: seq<Json>, rule: Assertion, vars: T.Store, world: World)
    requires CoveredRule(rule, vars.Keys)
    ensures !Misses(AssertValues(values, rule, vars, world))
  {
    hide CoveredRule, AssertValue;
    if values != [] {
      AssertValueCovered(values[0], rule, vars, world);
      AssertValuesCovered(values[1..], rule, vars, world);
    }
  }

  lemma {:induction false} AssertEntriesCovered(doc: Json, entries: seq<(string, Assertion)>, vars: T.Store, world: World)
    requires CoveredEntries(entries, vars.Keys)
    ensures !Misses(AssertEntries(doc, entries, vars, world))
  {
    hide CoveredRule, Selection, AssertValues, ActualCount;
    if entries != [] {
      var values := Selection(doc, entries[0].0);
      assert entries[0] in entries && forall e :: e in entries[1..] ==> e in entries;
      if values.Some? { AssertValuesCovered(values.value, entries[0].1, vars, world); }
      AssertEntriesCovered(doc, entries[1..], vars, world);
    }
  }

  lemma FirstKeysNext(pairs: Pairs)
    requires pairs != []
    ensures FirstKeys(pairs) == {Fold(pairs[0].0)} + FirstKeys(pairs[1..])
  {
    hide Fold;
    assert forall p :: p in pairs <==> p == pairs[0] || p in pairs[1..];
  }

  lemma NoFirstKeys()
    ensures FirstKeys([]) == {}
  {
  }

  lemma {:induction false} SaveAllDomain(doc: Json, saves: Pairs, vars: T.Store)
    ensures var a := SaveAll(doc, saves, vars);
            !Misses(a.outcome) && vars.Keys <= a.vars.Keys <= vars.Keys + FirstKeys(saves)
            && (a.outcome.Passed? ==> a.vars.Keys == vars.Keys + FirstKeys(saves))
  {
    hide Select, Fold, FirstKeys, TextOf;
    if saves == [] {
      NoFirstKeys();
    } else {
      FirstKeysNext(saves);
      var selected := Select(doc, saves[0].1);
      if selected.Some? {
        var key := Fold(saves[0].0);
        SaveAllDomain(doc, saves[1..], vars[key := TextOf(selected.value)]);
        assert (vars.Keys + {key}) + FirstKeys(saves[1..]) == vars.Keys + ({key} + FirstKeys(saves[1..]));
      }
    }
  }

  /** The store only grows, by saved names only (a failing attempt may save some), and a passing attempt adds exactly the saved names. */
  lemma ExecuteDomain(step: StepSpec, vars: T.Store, world: World, reply: Reply)
    ensures var a := Execute(step, vars, world, reply);
            vars.Keys <= a.vars.Keys <= vars.Keys + FirstKeys(SaveOf(step))
            && (a.outcome.Passed? ==> a.vars.Keys == vars.Keys + FirstKeys(SaveOf(step)))
  {
    hide Prepare, Judge, FirstKeys;
    if reply.response.Some? { JudgeDomain(step, reply.response.value, vars, world); }
  }

  lemma JudgeDomain(step: StepSpec, response: Response, vars: T.Store, world: World)
    ensures var a := Judge(step, response, vars, world);
            vars.Keys <= a.vars.Keys <= vars.Keys + FirstKeys(SaveOf(step))
            && (a.outcome.Passed? ==> a.vars.Keys == vars.Keys + FirstKeys(SaveOf(step)))
  {
    hide AssertEntries, ResolveErrorExpectation, FirstKeys, SaveAll, Accepted;
    NoFirstKeys();
    assert vars.Keys + {} == vars.Keys;
    if response.body.Some? { SaveAllDomain(response.body.value, SaveOf(step), vars); }
  }

  lemma {:induction false} FileNames(files: seq<MultipartFile>, f: MultipartFile)
    requires f in files
    ensures f.path in FileTemplates(files) && (f.fileName.Some? ==> f.fileName.value in FileTemplates(files))
  {
    if f != files[0] { FileNames(files[1..], f); }
  }

  predicate CoveredFile(f: MultipartFile, declared: set<string>) {
    NamedFile(f) && Covered(f.path, declared) && (f.fileName.Some? ==> Covered(f.fileName.value, declared))
  }

  // The name of a file is the last segment of its resolved path.

  lemma BaseStep(path: string)
    ensures Free(path, '/') ==> BaseName(path) == path
    ensures !Free(path, '/') ==> path != "" && BaseName(path) == BaseName(path[1..])
    ensures !Free(path, '/') && Free(path[1..], '/') ==> path[0] == '/'
  {
    if !Free(path, '/') && path[0] != '/' {
      var i :| 0 <= i < |path| && path[i] == '/';
      assert path[1..][i - 1] == '/';
    }
  }

  lemma HasSlash(dir: string, base: string)
    ensures !Free(dir + ("/" + base), '/')
  {
    assert (dir + ("/" + base))[|dir|] == '/';
  }

  lemma {:induction false} BaseAfterSlash(dir: string, base: string)
    requires Free(base, '/')
    ensures BaseName(dir + ("/" + base)) == base
  {
    hide BaseName, Free;
    var s := dir + ("/" + base);
    HasSlash(dir, base);
    BaseStep(s);
    if dir == "" {
      assert s[1..] == base;
      BaseStep(base);
    } else {
      assert s[1..] == dir[1..] + ("/" + base);
      BaseAfterSlash(dir[1..], base);
    }
  }

  lemma SplitHere(path: string)
    requires path != "" && path[0] == '/'
    ensures path == "" + ("/" + path[1..])
  {
  }

  lemma SplitLater(path: string, rest: string, base: string)
    requires path != "" && path[1..] == rest + ("/" + base)
    ensures path == ([path[0]] + rest) + ("/" + base)
  {
    assert path == [path[0]] + path[1..];
  }

  lemma {:induction false} BaseSplit(path: string) returns (dir: string)
    requires !Free(path, '/')
    ensures Free(BaseName(path), '/') && path == dir + ("/" + BaseName(path))
  {
    hide BaseName, Free;
    BaseStep(path);
    BaseStep(path[1..]);
    if Free(path[1..], '/') {
      dir := "";
      SplitHere(path);
    } else {
      var rest := BaseSplit(path[1..]);
      dir := [path[0]] + rest;
      SplitLater(path, rest, BaseName(path));
    }
  }

  lemma SlashCuts(a: string, b: string)
    ensures !T.Straddles(a, "/" + b) && !T.Straddles("/", b) && T.Names("/") == []
  {
    T.SingleHasNoNames('/');
  }

  /** Where the resolved last segment holds no slash, it is the last segment of the resolved path. */
  lemma BaseResolves(path: string, vars: T.Store, env: T.Store)
    requires T.Resolve(path, vars, env).Resolved?
    ensures var base := T.Resolve(BaseName(path), vars, env);
            base.Resolved? && (Free(base.text, '/') ==> BaseName(T.Resolve(path, vars, env).text) == base.text)
  {
    hide T.Resolve, T.Names, BaseName, T.Straddles;
    if Free(path, '/') {
      BaseStep(path);
      var text := T.Resolve(path, vars, env).text;
      if Free(text, '/') { BaseStep(text); }
    } else {
      var dir := BaseSplit(path);
      var base := BaseName(path);
      SlashCuts(dir, base);
      T.ResolveSplit(dir, "/" + base, vars, env);
      T.ResolveSplit("/", base, vars, env);
      T.ResolvePlain("/", vars, env);
      var text := T.Resolve(base, vars, env).text;
      if Free(text, '/') { BaseAfterSlash(T.Resolve(dir, vars, env).text, text); }
    }
  }

  lemma BaseIsFree(path: string)
    ensures Free(BaseName(path), '/')
  {
    if Free(path, '/') { BaseStep(path); } else { var dir := BaseSplit(path); }
  }

  lemma AttachFileCovered(f: MultipartFile, vars: T.Store, world: World, reply: Reply)
    requires CoveredFile(f, vars.Keys)
    ensures !Misses(AttachFile(f, vars, world, reply))
  {
    hide Covered, BaseName, T.Resolve;
    CoveredResolves(f.path, vars, world.env);
    if f.fileName.Some? {
      CoveredResolves(f.fileName.value, vars, world.env);
    } else if T.Resolve(f.path, vars, world.env).Resolved? {
      T.ResolvePlain(BaseName(f.path), vars, world.env);
      BaseIsFree(f.path);
      BaseResolves(f.path, vars, world.env);
    }
  }

  lemma {:induction false} AttachCovered(files: seq<MultipartFile>, vars: T.Store, world: World, reply: Reply)
    requires forall f :: f in files ==> CoveredFile(f, vars.Keys)
    ensures !Misses(AttachFiles(files, vars, world, reply))
  {
    hide CoveredFile, AttachFile;
    if files != [] {
      AttachFileCovered(files[0], vars, world, reply);
      AttachCovered(files[1..], vars, world, reply);
    }
  }

  lemma ContentCovered(request: RequestSpec, vars: T.Store, world: World, reply: Reply)
    requires AllCovered(RequestTemplates(request), vars.Keys)
    requires request.multipart.Some? ==> forall f :: f in request.multipart.value.files ==> NamedFile(f)
    ensures !Misses(Content(request, vars, world, reply))
  {
    hide Covered, ResolveAll, AttachFiles;
    if request.multipart.Some? {
      var texts, m := RequestTemplates(request), request.multipart.value;
      assert forall t :: t in SecondsOf(m.fields) || t in FileTemplates(m.files) ==> t in texts;
      ResolveAllCovered(SecondsOf(m.fields), vars, world);
      forall f | f in m.files ensures CoveredFile(f, vars.Keys) { FileNames(m.files, f); }
      AttachCovered(m.files, vars, world, reply);
    }
  }

  lemma {:induction false} DescribedCovered(entries: seq<(string, Assertion)>, declared: set<string>)
    requires CoveredEntries(entries, declared)
    ensures AllCovered(Described(entries), declared)
  {
    hide Covered, OperandText;
    if entries != [] {
      assert entries[0] in entries && forall e :: e in entries[1..] ==> e in entries;
      DescribedCovered(entries[1..], declared);
    }
  }

  lemma EagerCovered(step: StepSpec, declared: set<string>)
    requires step.request.Some? && AllCovered(EnumerateTemplates(step), declared)
    requires CoveredEntries(JsonOf(step), declared)
    ensures AllCovered(EagerTemplates(step), declared)
  {
    hide Covered;
    DescribedCovered(JsonOf(step), declared);
    RequestPartsCovered(step, declared);
  }

  lemma RequestPartsCovered(step: StepSpec, declared: set<string>)
    requires step.request.Some? && AllCovered(EnumerateTemplates(step), declared)
    ensures var r := step.request.value;
            AllCovered(RequestTemplates(r), declared) && AllCovered(SecondsOf(r.headers), declared)
            && AllCovered(Opt(step.authToken), declared) && AllCovered(AssertionTemplates(JsonOf(step)), declared)
            && AllCovered(Opt(r.path), declared) && AllCovered(Opt(r.body), declared) && AllCovered(Opt(r.rawBody), declared)
            && (r.form.Some? ==> AllCovered(SecondsOf(r.form.value), declared))
  {
    hide Covered, AssertionTemplates, FileTemplates;
    var texts, r := EnumerateTemplates(step), step.request.value;
    assert forall t :: t in RequestTemplates(r) || t in Opt(step.authToken) || t in AssertionTemplates(JsonOf(step)) ==> t in texts;
    var parts := RequestTemplates(r);
    assert forall t :: t in SecondsOf(r.headers) || t in Opt(r.path) || t in Opt(r.body) || t in Opt(r.rawBody) ==> t in parts;
    assert r.form.Some? ==> forall t :: t in SecondsOf(r.form.value) ==> t in parts;
  }

  lemma AllCoveredGrows(texts: seq<string>, small: set<string>, large: set<string>)
    requires AllCovered(texts, small) && small <= large
    ensures AllCovered(texts, large)
  {
    forall t | t in texts ensures Covered(t, large) { assert Covered(t, small); }
  }

  /** The assertions, once decoded and completed, and the names of the files are covered. */
  predicate AtHand(step: StepSpec, catalogue: Option<Catalogue>, declared: set<string>) {
    CoveredEntries(JsonOf(step), declared) && FilesNamed(step) && MessagesDeclared(step, catalogue, declared)
  }

  /** No attempt at a covered, transparent step misses a variable, whatever the outside does. */
  lemma ExecuteSound(step: StepSpec, vars: T.Store, world: World, reply: Reply, declared: set<string>)
    requires PlainDeclared(step, declared) && Transparent(step, world.catalogue, declared) && declared <= vars.Keys
    ensures !Misses(Execute(step, vars, world, reply).outcome)
  {
    if step.request.Some? {
      RequestPartsCovered(step, declared);
      EntriesCovered(JsonOf(step), declared);
      CoveredEntriesGrow(JsonOf(step), declared, vars.Keys);
      AllCoveredGrows(EnumerateTemplates(step), declared, vars.Keys);
      CoveredEntriesGrow(AddedEntries(step, world.catalogue), declared, vars.Keys);
      EagerCovered(step, vars.Keys);
      PrepareSound(step, vars, world, reply);
      if reply.response.Some? { JudgeSound(step, reply.response.value, vars, world); }
    }
  }

  lemma PrepareSound(step: StepSpec, vars: T.Store, world: World, reply: Reply)
    requires step.request.Some? && AllCovered(EnumerateTemplates(step), vars.Keys)
    requires AllCovered(EagerTemplates(step), vars.Keys) && FilesNamed(step)
    ensures !Misses(Prepare(step, vars, world, reply))
  {
    hide Covered, ResolveAll, Content, EagerTemplates, EnumerateTemplates, RequestTemplates, AssertionTemplates;
    RequestPartsCovered(step, vars.Keys);
    ResolveAllCovered(EagerTemplates(step), vars, world);
    ResolveAllCovered(SecondsOf(step.request.value.headers), vars, world);
    if step.authToken.Some? {
      assert step.authToken.value in Opt(step.authToken);
      CoveredResolves(step.authToken.value, vars, world.env);
    }
    ContentCovered(step.request.value, vars, world, reply);
  }

  lemma JudgeSound(step: StepSpec, response: Response, vars: T.Store, world: World)
    requires step.request.Some? && AllCovered(EnumerateTemplates(step), vars.Keys) && AtHand(step, world.catalogue, vars.Keys)
    ensures !Misses(Judge(step, response, vars, world).outcome)
  {
    hide Covered, AssertEntries, SaveAll, EnumerateTemplates, AssertionTemplates, ResolveErrorExpectation, CoveredEntries, Validate;
    if step.expect_.Some? {
      ErrorEntriesCovered(step, world.catalogue, vars.Keys);
      var expect_ := ResolveErrorExpectation(step.expect_.value, world.catalogue);
      if response.body.Some? {
        if expect_.Some? {
          AssertEntriesCovered(response.body.value, expect_.value.json, vars, world);
          if expect_.value.jsonSchema.Some? {
            ValidatingMissesNothing(response.body.value, expect_.value.jsonSchema.value, world);
          }
        }
        SaveAllDomain(response.body.value, SaveOf(step), vars);
      }
    }
  }

  // ---- a step ----

  predicate NoneMisses(attempts: seq<Outcome>) { forall a :: a in attempts ==> !Misses(a) }

  lemma {:induction false} PollSound(step: StepSpec, vars: T.Store, world: World, polls: seq<Reply>, last: Reply,
                                     reason: Failure, declared: set<string>)
    requires PlainDeclared(step, declared) && Transparent(step, world.catalogue, declared) && declared <= vars.Keys
    ensures NoneMisses(Poll(step, vars, world, polls, last, reason).attempts)
    decreases |polls|
  {
    hide Execute, PlainDeclared, Transparent;
    var reply := if polls == [] then last else polls[0];
    ExecuteSound(step, vars, world, reply, declared);
    ExecuteDomain(step, vars, world, reply);
    var attempt := Execute(step, vars, world, reply);
    if polls != [] && attempt.outcome.Failed? {
      PollSound(step, attempt.vars, world, polls[1..], last, attempt.outcome.failure, declared);
    }
  }

  lemma {:induction false} PollDomain(step: StepSpec, vars: T.Store, world: World, polls: seq<Reply>, last: Reply, reason: Failure)
    ensures var r := Poll(step, vars, world, polls, last, reason);
            vars.Keys <= r.vars.Keys && (r.outcome.Passed? ==> r.vars.Keys == vars.Keys + FirstKeys(SaveOf(step)))
    decreases |polls|
  {
    hide Execute;
    var reply := if polls == [] then last else polls[0];
    ExecuteDomain(step, vars, world, reply);
    var attempt := Execute(step, vars, world, reply);
    if polls != [] && attempt.outcome.Failed? {
      PollDomain(step, attempt.vars, world, polls[1..], last, attempt.outcome.failure);
    }
  }

  lemma {:induction false} BranchesSound(steps: seq<StepSpec>, first: nat, vars: T.Store, world: World, script: Script,
                                         declared: set<string>)
    requires forall i :: 0 <= i < |steps| ==> PlainDeclared(steps[i], declared) && Transparent(steps[i], world.catalogue, declared)
    requires declared <= vars.Keys
    ensures NoneMisses(Branches(steps, first, vars, world, script).attempts)
  {
    hide Execute, PlainDeclared, Transparent;
    if steps != [] {
      ExecuteSound(steps[0], vars, world, BranchReply(script, first), declared);
      BranchesSound(steps[1..], first + 1, vars, world, script, declared);
    }
  }

  lemma {:induction false} BranchesKeepStore(steps: seq<StepSpec>, first: nat, vars: T.Store, world: World, script: Script)
    ensures Branches(steps, first, vars, world, script).vars == vars
  {
  }

  /** A group of parallel or concurrent requests leaves the store as it was; any step leaves it no
      smaller, and a passing step leaves exactly what the check holds declared after it. */
  lemma StepDomain(step: StepSpec, vars: T.Store, world: World, script: Script)
    ensures var r := RunConfiguredStep(step, vars, world, script);
            vars.Keys <= r.vars.Keys && (r.outcome.Passed? ==> r.vars.Keys == After(step, vars.Keys))
            && (Concurrent(step) || (step.parallelRequests.Some? && step.parallelRequests.value > 1) ==> r.vars == vars)
  {
    hide Execute, Poll, Branches;
    if Concurrent(step) {
      BranchesKeepStore(Children(step.concurrentRequests.value), 0, vars, world, script);
    } else if step.parallelRequests.Some? && step.parallelRequests.value > 1 {
      BranchesKeepStore(Copies(step, step.parallelRequests.value), 0, vars, world, script);
    } else {
      PollDomain(step, vars, world, script.polls, script.last, TimedOut);
      ExecuteDomain(step, vars, world, script.last);
    }
  }

  lemma StepSound(step: StepSpec, vars: T.Store, world: World, script: Script, declared: set<string>)
    requires StepDeclared(step, declared) && TransparentStep(step, world.catalogue, declared) && declared <= vars.Keys
    ensures NoneMisses(RunConfiguredStep(step, vars, world, script).attempts)
  {
    hide Execute, Poll, Branches, PlainDeclared, Transparent;
    if Concurrent(step) {
      BranchesSound(Children(step.concurrentRequests.value), 0, vars, world, script, declared);
    } else if step.parallelRequests.Some? && step.parallelRequests.value > 1 {
      CopyTransparent(step, world.catalogue, declared);
      BranchesSound(Copies(step, step.parallelRequests.value), 0, vars, world, script, declared);
    } else {
      PollSound(step, vars, world, script.polls, script.last, TimedOut, declared);
      ExecuteSound(step, vars, world, script.last, declared);
    }
  }

  lemma CopyTransparent(step: StepSpec, catalogue: Option<Catalogue>, declared: set<string>)
    requires PlainDeclared(step, declared) && Transparent(step, catalogue, declared)
    ensures var copy := step.(parallelRequests := None); PlainDeclared(copy, declared) && Transparent(copy, catalogue, declared)
  {
    var copy := step.(parallelRequests := None);
    assert EnumerateTemplates(copy) == EnumerateTemplates(step) && JsonOf(copy) == JsonOf(step);
  }

  // ---- whole runs ----

  /** Every step is transparent with what the check holds declared before it. */
  predicate TransparentSteps(steps: seq<StepSpec>, catalogue: Option<Catalogue>, declared: set<string>) {
    steps == []
    || (TransparentStep(steps[0], catalogue, declared) && TransparentSteps(steps[1..], catalogue, After(steps[0], declared)))
  }

  lemma {:induction false} RunStepsSound(steps: seq<StepSpec>, vars: T.Store, world: World, scripts: seq<Script>, declared: set<string>)
    requires |scripts| == |steps| && AllDeclared(steps, declared) && TransparentSteps(steps, world.catalogue, declared)
    requires declared <= vars.Keys
    ensures NoneMisses(RunSteps(steps, vars, world, scripts).attempts)
  {
    hide RunConfiguredStep, StepDeclared, TransparentStep;
    if steps != [] {
      var first := RunConfiguredStep(steps[0], vars, world, scripts[0]);
      StepSound(steps[0], vars, world, scripts[0], declared);
      StepDomain(steps[0], vars, world, scripts[0]);
      if first.outcome.Passed? {
        RunStepsSound(steps[1..], first.vars, world, scripts[1..], After(steps[0], declared));
      }
    }
  }

  lemma {:induction false} CaseVariablesDomain(variables: Pairs, vars: T.Store, world: World)
    ensures var a := CaseVariables(variables, vars, world);
            a.outcome.Passed? ==> a.vars.Keys == vars.Keys + FirstKeys(variables)
  {
    hide T.Resolve, Fold, FirstKeys;
    if variables == [] {
      NoFirstKeys();
    } else {
      FirstKeysNext(variables);
      var resolved := T.Resolve(variables[0].1, vars, world.env);
      if resolved.Resolved? {
        var key := Fold(variables[0].0);
        CaseVariablesDomain(variables[1..], vars[key := resolved.text], world);
        assert (vars.Keys + {key}) + FirstKeys(variables[1..]) == vars.Keys + ({key} + FirstKeys(variables[1..]));
      }
    }
  }

  /** Preflight soundness: when the check reports no undeclared variable, no attempt of any step in any
      run misses a variable, whatever the responses, login results and retry outcomes. */
  lemma PreflightSound(test: CaseSpec, initial: T.Store, allowed: bool, world: World, scripts: seq<Script>)
    requires |scripts| == |test.steps|
    requires BuiltIns() <= initial.Keys
    requires NoneUndeclared(Issues(test.steps, test.variables, false, world.catalogue))
    requires TransparentSteps(test.steps, world.catalogue, BuiltIns() + FirstKeys(test.variables))
    ensures var r := RunCase(test, initial, allowed, world, scripts);
            r.Started? ==> NoneMisses(r.run.attempts)
  {
    var declared := BuiltIns() + FirstKeys(test.variables);
    IssuesExact(test.steps, declared, false, world.catalogue);
    CaseVariablesDomain(test.variables, initial, world);
    var prepared := CaseVariables(test.variables, initial, world);
    if prepared.outcome.Passed? {
      RunStepsSound(test.steps, prepared.vars, world, scripts, declared);
    }
  }

  // ---- the other direction ----

  /** Every text that a passing attempt has resolved before anything is sent, in that order. */
  function SentTemplates(step: StepSpec): seq<string>
    requires step.request.Some?
  {
    var r := step.request.value;
    EagerTemplates(step)
    + (if Filled(step.auth) && Filled(step.authToken) then [step.authToken.value] else [])
    + SecondsOf(r.headers)
    + (if r.multipart.Some? then SecondsOf(r.multipart.value.fields) + FileTemplates(r.multipart.value.files) else [])
  }

  /** What is sent mentions declared variables only. */
  predicate SentDeclared(step: StepSpec, declared: set<string>) {
    step.request.Some? && AllCovered(SentTemplates(step), declared)
  }

  predicate StepSentDeclared(step: StepSpec, declared: set<string>) {
    if Concurrent(step) then
      forall i :: 0 <= i < |step.concurrentRequests.value| ==> SentDeclared(Child(step.concurrentRequests.value[i]), declared)
    else SentDeclared(step, declared)
  }

  predicate AllSentDeclared(steps: seq<StepSpec>, declared: set<string>) {
    steps == [] || (StepSentDeclared(steps[0], declared) && AllSentDeclared(steps[1..], After(steps[0], declared)))
  }

  lemma AllCoveredConcat(a: seq<string>, b: seq<string>, declared: set<string>)
    ensures AllCovered(a + b, declared) <==> AllCovered(a, declared) && AllCovered(b, declared)
  {
    hide Covered;
    assert forall t :: t in a + b <==> t in a || t in b;
  }

  lemma {:induction false} AttachPassed(files: seq<MultipartFile>, vars: T.Store, world: World, reply: Reply)
    ensures AttachFiles(files, vars, world, reply).Passed? ==> AllCovered(FileTemplates(files), vars.Keys)
  {
    hide Covered, BaseName, T.Resolve;
    if files != [] {
      var f := files[0];
      CoveredResolves(f.path, vars, world.env);
      if f.fileName.Some? { CoveredResolves(f.fileName.value, vars, world.env); }
      AttachPassed(files[1..], vars, world, reply);
      assert FileTemplates(files) == [f.path] + Opt(f.fileName) + FileTemplates(files[1..]);
      AllCoveredConcat([f.path] + Opt(f.fileName), FileTemplates(files[1..]), vars.Keys);
    }
  }

  lemma ContentPassed(request: RequestSpec, vars: T.Store, world: World, reply: Reply)
    requires Content(request, vars, world, reply).Passed? && request.multipart.Some?
    ensures AllCovered(SecondsOf(request.multipart.value.fields) + FileTemplates(request.multipart.value.files), vars.Keys)
  {
    hide Covered, ResolveAll, AttachFiles, FileTemplates;
    var m := request.multipart.value;
    ResolveAllCovered(SecondsOf(m.fields), vars, world);
    AttachPassed(m.files, vars, world, reply);
    AllCoveredConcat(SecondsOf(m.fields), FileTemplates(m.files), vars.Keys);
  }

  lemma PreparePassed(step: StepSpec, vars: T.Store, world: World, reply: Reply)
    requires step.request.Some? && Prepare(step, vars, world, reply).Passed?
    ensures SentDeclared(step, vars.Keys)
  {
    hide Covered, AllCovered, ResolveAll, Content, EagerTemplates, FileTemplates, IsBlank;
    var r := step.request.value;
    var token := if Filled(step.auth) && Filled(step.authToken) then [step.authToken.value] else [];
    var form := if r.multipart.Some? then SecondsOf(r.multipart.value.fields) + FileTemplates(r.multipart.value.files) else [];
    ResolveAllCovered(EagerTemplates(step), vars, world);
    ResolveAllCovered(SecondsOf(r.headers), vars, world);
    TokenPassed(step, vars, world, reply);
    if r.multipart.Some? { ContentPassed(r, vars, world, reply); } else { NothingCovered(vars.Keys); }
    AllCoveredConcat(EagerTemplates(step), token, vars.Keys);
    AllCoveredConcat(EagerTemplates(step) + token, SecondsOf(r.headers), vars.Keys);
    AllCoveredConcat(EagerTemplates(step) + token + SecondsOf(r.headers), form, vars.Keys);
  }

  lemma TokenPassed(step: StepSpec, vars: T.Store, world: World, reply: Reply)
    requires Authenticate(step, vars, world, reply).Passed?
    ensures AllCovered(if Filled(step.auth) && Filled(step.authToken) then [step.authToken.value] else [], vars.Keys)
  {
    hide Covered, IsBlank;
    if Filled(step.auth) && Filled(step.authToken) { CoveredResolves(step.authToken.value, vars, world.env); }
  }

  lemma NothingCovered(declared: set<string>)
    ensures AllCovered([], declared)
  {
  }

  lemma ExecutePassed(step: StepSpec, vars: T.Store, world: World, reply: Reply)
    ensures Execute(step, vars, world, reply).outcome.Passed? ==> SentDeclared(step, vars.Keys)
    ensures step.request.Some? && !SentDeclared(step, vars.Keys) ==> Execute(step, vars, world, reply).vars == vars
  {
    hide Judge, Prepare, SentDeclared;
    if step.request.Some? && Prepare(step, vars, world, reply).Passed? { PreparePassed(step, vars, world, reply); }
  }

  lemma {:induction false} PollPassed(step: StepSpec, vars: T.Store, world: World, polls: seq<Reply>, last: Reply, reason: Failure)
    requires step.request.Some?
    ensures Poll(step, vars, world, polls, last, reason).outcome.Passed? ==> SentDeclared(step, vars.Keys)
    decreases |polls|
  {
    hide Execute, SentDeclared;
    var reply := if polls == [] then last else polls[0];
    ExecutePassed(step, vars, world, reply);
    var attempt := Execute(step, vars, world, reply);
    if polls != [] && attempt.outcome.Failed? && !SentDeclared(step, vars.Keys) {
      PollPassed(step, attempt.vars, world, polls[1..], last, attempt.outcome.failure);
    }
  }

  lemma {:induction false} BranchesPassed(steps: seq<StepSpec>, first: nat, vars: T.Store, world: World, script: Script)
    ensures Branches(steps, first, vars, world, script).outcome.Passed? ==>
              forall i :: 0 <= i < |steps| ==> SentDeclared(steps[i], vars.Keys)
  {
    hide Execute, SentDeclared;
    if steps != [] {
      ExecutePassed(steps[0], vars, world, BranchReply(script, first));
      BranchesPassed(steps[1..], first + 1, vars, world, script);
      assert forall i :: 1 <= i < |steps| ==> steps[i] == steps[1..][i - 1];
    }
  }

  lemma StepPassed(step: StepSpec, vars: T.Store, world: World, script: Script)
    ensures RunConfiguredStep(step, vars, world, script).outcome.Passed? ==> StepSentDeclared(step, vars.Keys)
  {
    hide Execute, Poll, Branches, SentDeclared;
    if RunConfiguredStep(step, vars, world, script).outcome.Passed? {
      if Concurrent(step) {
        var children := Children(step.concurrentRequests.value);
        BranchesPassed(children, 0, vars, world, script);
        assert forall i :: 0 <= i < |children| ==> SentDeclared(children[i], vars.Keys);
      } else if step.parallelRequests.Some? && step.parallelRequests.value > 1 {
        var copies := Copies(step, step.parallelRequests.value);
        BranchesPassed(copies, 0, vars, world, script);
        CopySent(step, vars.Keys);
        assert SentDeclared(copies[0], vars.Keys);
      } else {
        PollPassed(step, vars, world, script.polls, script.last, TimedOut);
        ExecutePassed(step, vars, world, script.last);
      }
    }
  }

  lemma CopySent(step: StepSpec, declared: set<string>)
    ensures SentDeclared(step.(parallelRequests := None), declared) ==> SentDeclared(step, declared)
  {
    var copy := step.(parallelRequests := None);
    assert JsonOf(copy) == JsonOf(step);
  }

  lemma {:induction false} RunStepsPassed(steps: seq<StepSpec>, vars: T.Store, world: World, scripts: seq<Script>)
    requires |scripts| == |steps|
    ensures var r := RunSteps(steps, vars, world, scripts);
            r.outcome.Passed? ==> AllSentDeclared(steps, vars.Keys)
  {
    hide RunConfiguredStep, StepSentDeclared, After;
    if steps != [] {
      var first := RunConfiguredStep(steps[0], vars, world, scripts[0]);
      StepPassed(steps[0], vars, world, scripts[0]);
      StepDomain(steps[0], vars, world, scripts[0]);
      if first.outcome.Passed? { RunStepsPassed(steps[1..], first.vars, world, scripts[1..]); }
    }
  }

  /** The check's bookkeeping is exact: a case can pass only if every text that is resolved before sending (path,
      payload, form, expectation, token, headers, fields and files) mentions nothing but what the check holds declared
      at that step, when it starts from the names the case is given. */
  lemma PassingIsDeclared(test: CaseSpec, initial: T.Store, allowed: bool, world: World, scripts: seq<Script>)
    requires |scripts| == |test.steps|
    ensures var r := RunCase(test, initial, allowed, world, scripts);
            r.Started? && r.run.outcome.Passed? ==> AllSentDeclared(test.steps, initial.Keys + FirstKeys(test.variables))
  {
    CaseVariablesDomain(test.variables, initial, world);
    var prepared := CaseVariables(test.variables, initial, world);
    if prepared.outcome.Passed? { RunStepsPassed(test.steps, prepared.vars, world, scripts); }
  }
}
