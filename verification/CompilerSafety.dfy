/** Compilation keeps def-before-use: what a valid workspace compiles to uses no variable before an
    earlier step has saved it. */
module CompilerSafety {
  import opened Optional
  import opened Text
  import opened Workspaces
  import opened PathTemplates
  import opened Compiler
  import opened CompiledNames
  import opened Guards
  import opened Validator
  import D = Dictionaries
  import S = Steps
  import T = Templates

  // ---- what a step's texts mention ----

  /** Bound fields name their variable; other fields keep their literal text. */
  predicate ValueKnown(ws: Workspace, step: Step, f: Field, known: set<string>) {
    match BoundTo(ws.bindings, step.name, Key(f))
    case Some(v) => Plain(v) && Fold(v) in known
    case None => Guarded(f.value, known)
  }

  lemma ValueGuarded(ws: Workspace, step: Step, f: Field, known: set<string>)
    requires ValueKnown(ws, step, f, known)
    ensures Guarded(ValueOf(ws, step, f), known)
  {
    hide Guarded, Plain;
    var source := BoundTo(ws.bindings, step.name, Key(f));
    if source.Some? { GuardedAlone(source.value, known); }
  }

  predicate AllGuarded(pairs: Fields, known: set<string>) {
    forall p :: p in pairs ==> Guarded(p.0, known) && Guarded(p.1, known)
  }

  lemma {:induction false} JoinGuarded(parts: seq<string>, sep: char, known: set<string>)
    requires sep != '{' && sep != '$' && forall p :: p in parts ==> Guarded(p, known)
    ensures Guarded(Join(parts, [sep]), known)
  {
    hide Guarded, EndsInDollar;
    if parts == [] {
      NoDollarGuarded("", known);
    } else if |parts| == 1 {
      assert parts[0] in parts;
    } else {
      assert parts[0] in parts && forall p :: p in parts[1..] ==> p in parts;
      JoinGuarded(parts[1..], sep, known);
      NoDollarGuarded([sep], known);
      GuardedConcat(parts[0], [sep], known);
      SeparatorEnds(parts[0], sep);
      GuardedConcat(parts[0] + [sep], Join(parts[1..], [sep]), known);
    }
  }

  lemma SeparatorEnds(a: string, sep: char)
    requires sep != '$'
    ensures !EndsInDollar(a + [sep])
  {
  }

  lemma AssignmentGuarded(name: string, value: string, known: set<string>)
    requires Guarded(name, known) && Guarded(value, known)
    ensures Guarded(name + "=" + value, known)
  {
    hide Guarded, EndsInDollar;
    NoDollarGuarded("=", known);
    GuardedConcat(name, "=", known);
    SeparatorEnds(name, '=');
    GuardedConcat(name + "=", value, known);
  }

  lemma QueryGuarded(pairs: Fields, known: set<string>)
    requires AllGuarded(pairs, known)
    ensures Guarded(Join(Assignments(pairs), "&"), known)
  {
    hide Guarded;
    forall p | p in Assignments(pairs) ensures Guarded(p, known) {
      var i :| 0 <= i < |pairs| && Assignments(pairs)[i] == p;
      assert pairs[i] in pairs;
      AssignmentGuarded(pairs[i].0, pairs[i].1, known);
    }
    JoinGuarded(Assignments(pairs), '&', known);
  }

  // ---- one step ----

  function FieldKeys(fields: seq<Field>): set<string> { set f | f in fields :: Fold(f.name) }

  /** No text put into the route contains the placeholder of a path field that is filled later, and no
      literal one ends in a dollar sign. */
  predicate Settled(ws: Workspace, step: Step, fields: seq<Field>) {
    fields == [] ||
    (Settled(ws, step, fields[1..])
     && match BoundTo(ws.bindings, step.name, Key(fields[0]))
        case Some(v) => Fold(v) !in FieldKeys(fields[1..])
        case None => Guarded(fields[0].value, S.BuiltIns() - FieldKeys(fields[1..])) && !EndsInDollar(fields[0].value))
  }

  /** Apart from its bindings the step mentions built-in variables only. */
  predicate Literal(ws: Workspace, step: Step) {
    var inPath := FieldsAt(step, step.requestFields, "path");
    Guarded(step.path, S.BuiltIns() - FieldKeys(inPath)) && Settled(ws, step, inPath)
    && forall f :: f in step.requestFields ==>
         BraceFree(f.name) && (BoundTo(ws.bindings, step.name, Key(f)).None? ==> Guarded(f.value, S.BuiltIns()))
  }

  predicate BoundKnown(ws: Workspace, step: Step, known: set<string>) {
    forall f :: f in step.requestFields ==>
      match BoundTo(ws.bindings, step.name, Key(f)) case Some(v) => Plain(v) && Fold(v) in known case None => true
  }

  lemma FieldKnown(ws: Workspace, step: Step, f: Field, known: set<string>)
    requires Literal(ws, step) && BoundKnown(ws, step, known) && S.BuiltIns() <= known && f in step.requestFields
    ensures ValueKnown(ws, step, f, known) && BraceFree(f.name)
  {
    hide Guarded, Plain, Settled, BraceFree;
    if BoundTo(ws.bindings, step.name, Key(f)).None? { GuardedGrows(f.value, S.BuiltIns(), known); }
  }

  lemma TextsGuarded(ws: Workspace, step: Step, fields: seq<Field>, known: set<string>)
    requires forall f :: f in fields ==> ValueKnown(ws, step, f, known) && BraceFree(f.name)
    ensures AllGuarded(Texts(ws, step, fields), known)
  {
    hide Guarded, ValueKnown, ValueOf;
    var texts := Texts(ws, step, fields);
    forall p | p in texts ensures Guarded(p.0, known) && Guarded(p.1, known) {
      var i :| 0 <= i < |texts| && texts[i] == p;
      assert fields[i] in fields;
      ValueGuarded(ws, step, fields[i], known);
      NoDollarGuarded(fields[i].name, known);
    }
  }

  lemma KeysOfTexts(ws: Workspace, step: Step, fields: seq<Field>)
    ensures NameKeys(Texts(ws, step, fields)) == FieldKeys(fields)
  {
    hide ValueOf;
    var texts := Texts(ws, step, fields);
    forall k | k in FieldKeys(fields) ensures k in NameKeys(texts) {
      var i :| 0 <= i < |fields| && Fold(fields[i].name) == k;
      assert texts[i] in texts;
    }
  }

  lemma {:induction false} TextsClear(ws: Workspace, step: Step, fields: seq<Field>, known: set<string>)
    requires Settled(ws, step, fields) && S.BuiltIns() <= known
    requires forall f :: f in fields ==> ValueKnown(ws, step, f, known) && BraceFree(f.name)
    ensures Clear(Texts(ws, step, fields), known)
  {
    hide Guarded, Plain, BraceFree, S.BuiltIns, BoundTo, FieldKeys, EndsInDollar, Fold, NameKeys;
    var texts := Texts(ws, step, fields);
    if fields != [] {
      var later := FieldKeys(fields[1..]);
      assert fields[0] in fields && forall f :: f in fields[1..] ==> f in fields;
      TextsClear(ws, step, fields[1..], known);
      assert texts[1..] == Texts(ws, step, fields[1..]);
      KeysOfTexts(ws, step, fields[1..]);
      match BoundTo(ws.bindings, step.name, Key(fields[0])) {
        case Some(v) =>
          GuardedAlone(v, known - later);
          PlaceholderEnds(v);
        case None =>
          GuardedGrows(fields[0].value, S.BuiltIns() - later, known - later);
      }
    }
  }

  lemma PlaceholderEnds(v: string)
    ensures !EndsInDollar(T.Placeholder(v))
  {
  }

  lemma RouteGuarded(ws: Workspace, step: Step, known: set<string>)
    requires Literal(ws, step) && BoundKnown(ws, step, known) && S.BuiltIns() <= known
    ensures Guarded(CompiledPath(ws, step), known)
  {
    hide Guarded, Plain, BraceFree, S.BuiltIns, BoundTo, ReplaceAll, Join, EndsInDollar, ValueKnown, Settled, BoundKnown;
    var inPath, inQuery := FieldsAt(step, step.requestFields, "path"), FieldsAt(step, step.requestFields, "query");
    forall f | f in step.requestFields ensures ValueKnown(ws, step, f, known) && BraceFree(f.name) {
      FieldKnown(ws, step, f, known);
    }
    TextsClear(ws, step, inPath, known);
    KeysOfTexts(ws, step, inPath);
    GuardedGrows(step.path, S.BuiltIns() - FieldKeys(inPath), known - FieldKeys(inPath));
    ReplaceAllGuarded(step.path, Texts(ws, step, inPath), known);
    TextsGuarded(ws, step, inQuery, known);
    QueryGuarded(Texts(ws, step, inQuery), known);
    var path := ReplaceAll(step.path, Texts(ws, step, inPath));
    var query := Join(Assignments(Texts(ws, step, inQuery)), "&");
    NoDollarGuarded("?", known);
    GuardedConcat(path, "?", known);
    SeparatorEnds(path, '?');
    GuardedConcat(path + "?", query, known);
  }

  lemma BuiltGuarded(pairs: Fields, same: D.Norm, known: set<string>)
    requires AllGuarded(pairs, known)
    ensures AllGuarded(D.Build(pairs, same), known)
  {
    hide Guarded, D.Build;
    forall e | e in D.Build(pairs, same) ensures Guarded(e.0, known) && Guarded(e.1, known) { D.BuildFrom(pairs, same, e); }
  }

  lemma {:induction false} GuardedPairs(pairs: Fields, known: set<string>)
    requires AllGuarded(pairs, known)
    ensures AllKnown(PairNames(pairs), known) && AllKnown(NamesOf(S.SecondsOf(pairs)), known)
  {
    hide Guarded, T.Names, T.IsEnvironment;
    if pairs != [] {
      assert pairs[0] in pairs && forall p :: p in pairs[1..] ==> p in pairs;
      GuardedPairs(pairs[1..], known);
      GuardedNames(pairs[0].0, known);
      GuardedNames(pairs[0].1, known);
      assert S.SecondsOf(pairs)[1..] == S.SecondsOf(pairs[1..]);
    }
  }

  /** A step whose own texts mention built-in variables only mentions what is known. */
  lemma LiteralMentions(ws: Workspace, step: Step, known: set<string>)
    requires Literal(ws, step) && BoundKnown(ws, step, known) && S.BuiltIns() <= known
    ensures AllKnown(Mentioned(ws, step), known)
  {
    hide Guarded, BraceFree, S.BuiltIns, ValueKnown, Literal, CompiledPath, PairNames, NamesOf, RouteNames, T.Names,
      T.IsEnvironment, D.Build, BoundKnown;
    RouteGuarded(ws, step, known);
    GuardedNames(CompiledPath(ws, step), known);
    PathNames(ws, step);
    assert AllKnown(T.Names(CompiledPath(ws, step)), known);
    forall f | f in step.requestFields ensures ValueKnown(ws, step, f, known) && BraceFree(f.name) {
      FieldKnown(ws, step, f, known);
    }
    TextsGuarded(ws, step, FieldsAt(step, step.requestFields, "body"), known);
    TextsGuarded(ws, step, FieldsAt(step, step.requestFields, "header"), known);
    BuiltGuarded(TextsAt(ws, step, "body"), D.Exactly, known);
    BuiltGuarded(TextsAt(ws, step, "header"), Fold, known);
    GuardedPairs(Body(ws, step), known);
    GuardedPairs(Headers(ws, step), known);
  }

  // ---- the whole workspace ----

  /** The variable that a field is bound to was saved, under its own name and path, by an earlier step. */
  ghost predicate SavedBefore(ws: Workspace, t: nat, v: string) {
    exists s: nat, i: nat :: SavedBy(ws, s, i, v) && s < t
  }

  predicate SavedBy(ws: Workspace, s: nat, i: nat, v: string) {
    s < |ws.steps| && i < |ws.variables| && Fold(ws.variables[i].name) == Fold(v)
    && (ws.variables[i].name, ws.variables[i].jsonPath) in S.SaveOf(CompiledStep(ws, ws.steps[s]))
  }

  /** A variable is saved where it comes from. */
  lemma SourceSaves(ws: Workspace, s: nat, i: nat, v: string)
    requires s < |ws.steps| && i < |ws.variables| && Fold(ws.variables[i].name) == Fold(v)
    requires Fold(ws.steps[s].name) == Fold(ws.variables[i].sourceStep)
    ensures SavedBy(ws, s, i, v)
  {
    hide CompiledStep, S.SaveOf, Fold;
    var w := ws.variables[i];
    assert w in ws.variables;
    assert (w.name, w.jsonPath) in Saves(ws.variables, ws.steps[s].name);
    SaveOfCompiled(ws, ws.steps[s]);
  }

  lemma AcceptedIs(ws: Workspace, b: Binding, s: nat, t: nat, v: nat, step: nat)
    requires Accepted(ws, b, s, t, v) && step < |ws.steps| && Targets(b, ws.steps[step].name)
    ensures t == step && s < t && v < |ws.variables| && Fold(ws.variables[v].name) == Fold(b.sourceVariable)
    ensures Fold(ws.steps[s].name) == Fold(ws.variables[v].sourceStep)
  {
    hide Fold;
  }

  /** Every binding into a step is backed by a save in a strictly earlier compiled step. */
  lemma BindingSaved(ws: Workspace, t: nat, b: Binding)
    requires Validate(ws).None? && t < |ws.steps| && b in ws.bindings && Targets(b, ws.steps[t].name)
    ensures SavedBefore(ws, t, b.sourceVariable) && Plain(b.sourceVariable)
  {
    hide Validate, VariableOk, BindingFault, Plain, Accepted, SavedBy, Fold, Targets;
    ValidParts(ws, b);
    var s, t', i := AcceptedBinding(ws, b);
    AcceptedIs(ws, b, s, t', i, t);
    var v := ws.variables[i];
    assert v in ws.variables;
    IsWordOk(v);
    WordsArePlain(v.name, b.sourceVariable);
    SourceSaves(ws, s, i, b.sourceVariable);
  }

  lemma ValidParts(ws: Workspace, b: Binding)
    requires Validate(ws).None? && b in ws.bindings
    ensures BindingFault(ws, b).None? && forall v :: v in ws.variables ==> VariableOk(v)
  {
    hide BindingFault, VariableOk, StepOk, DistinctNames;
    BindingsAccepted(ws, ws.bindings);
  }

  lemma IsWordOk(v: Variable)
    requires VariableOk(v)
    ensures IsWord(v.name)
  {
  }

  lemma SaveOfCompiled(ws: Workspace, step: Step)
    ensures S.SaveOf(CompiledStep(ws, step)) == Saves(ws.variables, step.name)
  {
    hide CompiledPath, RawObject, Headers, Body, Saves;
  }

  lemma WordsArePlain(word: string, v: string)
    requires IsWord(word) && Fold(v) == Fold(word)
    ensures Plain(v)
  {
    assert |v| == |Fold(v)| == |Fold(word)| == |word|;
    forall i | 0 <= i < |v| ensures v[i] != '$' && v[i] != '{' && v[i] != '}' {
      assert Fold(v)[i] == Fold(word)[i];
    }
  }

  /** What the check holds declared before compiled step `t`. */
  function Declared(ws: Workspace, t: nat): set<string>
    requires t <= |ws.steps|
  {
    if t == 0 then S.BuiltIns() else After(CompiledStep(ws, ws.steps[t - 1]), Declared(ws, t - 1))
  }

  lemma AfterCompiled(ws: Workspace, step: Step, declared: set<string>)
    ensures After(CompiledStep(ws, step), declared) == declared + S.FirstKeys(S.SaveOf(CompiledStep(ws, step)))
  {
    hide CompiledPath, RawObject, Headers, Body, Saves, S.FirstKeys;
  }

  lemma DeclaredNext(ws: Workspace, t: nat)
    requires t < |ws.steps|
    ensures Declared(ws, t + 1) == Declared(ws, t) + S.FirstKeys(S.SaveOf(CompiledStep(ws, ws.steps[t])))
  {
    hide CompiledStep, S.BuiltIns, After, S.FirstKeys, S.SaveOf;
    AfterCompiled(ws, ws.steps[t], Declared(ws, t));
  }

  lemma {:induction false} SavedIsDeclared(ws: Workspace, t: nat, s: nat, i: nat, v: string)
    requires t <= |ws.steps| && s < t && SavedBy(ws, s, i, v)
    ensures Fold(v) in Declared(ws, t)
  {
    hide *;
    DeclaredNext(ws, t - 1);
    if s < t - 1 {
      SavedIsDeclared(ws, t - 1, s, i, v);
    } else {
      SavedKey(ws, s, i, v);
    }
  }

  lemma SavedKey(ws: Workspace, s: nat, i: nat, v: string)
    requires SavedBy(ws, s, i, v)
    ensures Fold(v) in S.FirstKeys(S.SaveOf(CompiledStep(ws, ws.steps[s])))
  {
    hide CompiledStep, S.SaveOf;
    var saves := S.SaveOf(CompiledStep(ws, ws.steps[s]));
    assert (ws.variables[i].name, ws.variables[i].jsonPath) in saves;
  }

  lemma {:induction false} DeclaredBuiltIns(ws: Workspace, t: nat)
    requires t <= |ws.steps|
    ensures S.BuiltIns() <= Declared(ws, t)
  {
    hide CompiledStep, S.BuiltIns, After, S.FirstKeys, S.SaveOf;
    if t > 0 {
      DeclaredBuiltIns(ws, t - 1);
      DeclaredNext(ws, t - 1);
    }
  }

  /** Nothing else is declared there. */
  lemma {:induction false} DeclaredIsSaved(ws: Workspace, t: nat, v: string)
    requires t <= |ws.steps| && Fold(v) in Declared(ws, t) && Fold(v) !in S.BuiltIns()
    ensures SavedBefore(ws, t, v)
  {
    hide CompiledStep, S.BuiltIns, After, S.FirstKeys, S.SaveOf, Fold, SavedBy;
    if t > 0 {
      DeclaredNext(ws, t - 1);
      if Fold(v) in Declared(ws, t - 1) {
        DeclaredIsSaved(ws, t - 1, v);
        var s: nat, i: nat :| SavedBy(ws, s, i, v) && s < t - 1;
        assert s < t;
      } else {
        var i := KeySaved(ws, t - 1, v);
      }
    }
  }

  lemma KeySaved(ws: Workspace, s: nat, v: string) returns (i: nat)
    requires s < |ws.steps| && Fold(v) in S.FirstKeys(S.SaveOf(CompiledStep(ws, ws.steps[s])))
    ensures SavedBy(ws, s, i, v)
  {
    hide CompiledStep, S.SaveOf, Fold, Saves;
    var saves := S.SaveOf(CompiledStep(ws, ws.steps[s]));
    SaveOfCompiled(ws, ws.steps[s]);
    var p :| p in saves && Fold(p.0) == Fold(v);
    var w :| w in ws.variables && Fold(w.sourceStep) == Fold(ws.steps[s].name) && p == (w.name, w.jsonPath);
    i :| 0 <= i < |ws.variables| && ws.variables[i] == w;
  }

  /** The environment, the run, or an earlier step supplies the variable. */
  ghost predicate Supplied(ws: Workspace, t: nat, n: string) {
    T.IsEnvironment(n) || Fold(n) in S.BuiltIns() || SavedBefore(ws, t, n)
  }

  ghost predicate AllSupplied(ws: Workspace, t: nat)
    requires t < |ws.steps|
  {
    forall n :: n in Mentioned(ws, ws.steps[t]) ==> Supplied(ws, t, n)
  }

  lemma StepSupplied(ws: Workspace, t: nat)
    requires t < |ws.steps|
    ensures StepDeclared(CompiledStep(ws, ws.steps[t]), Declared(ws, t)) <==> AllSupplied(ws, t)
  {
    hide Mentioned, StepDeclared, CompiledStep, S.BuiltIns, SavedBy, Declared, T.IsEnvironment, Fold;
    CompiledStepExactly(ws, ws.steps[t], Declared(ws, t));
    DeclaredBuiltIns(ws, t);
    forall n | n in Mentioned(ws, ws.steps[t])
      ensures T.IsEnvironment(n) || Fold(n) in Declared(ws, t) <==> Supplied(ws, t, n)
    {
      if Fold(n) in Declared(ws, t) && Fold(n) !in S.BuiltIns() { DeclaredIsSaved(ws, t, n); }
      if SavedBefore(ws, t, n) {
        var s: nat, i: nat :| SavedBy(ws, s, i, n) && s < t;
        SavedIsDeclared(ws, t, s, i, n);
      }
    }
  }

  lemma {:induction false} CompiledFrom(ws: Workspace, t: nat)
    requires t <= |ws.steps|
    ensures AllDeclared(CompiledSteps(ws)[t..], Declared(ws, t)) <==> forall u :: t <= u < |ws.steps| ==> AllSupplied(ws, u)
    decreases |ws.steps| - t
  {
    hide CompiledStep, StepDeclared, After, AllSupplied;
    if t < |ws.steps| {
      StepSupplied(ws, t);
      CompiledFrom(ws, t + 1);
      assert CompiledSteps(ws)[t..][1..] == CompiledSteps(ws)[t + 1..];
    }
  }

  /** The check on any compiled workspace: it finds no undeclared variable exactly when the environment, the run or
      an earlier step supplies every variable that some step mentions. */
  lemma SilentExactly(ws: Workspace, catalogue: Option<S.Catalogue>)
    ensures NoneUndeclared(Issues(CompiledSteps(ws), [], false, catalogue)) <==>
              forall t :: 0 <= t < |ws.steps| ==> AllSupplied(ws, t)
  {
    hide S.BuiltIns, CompiledSteps, AllDeclared, IssuesFrom, AllSupplied;
    CompiledFrom(ws, 0);
    assert CompiledSteps(ws)[0..] == CompiledSteps(ws);
    assert S.FirstKeys([]) == {};
    assert S.BuiltIns() + S.FirstKeys([]) == S.BuiltIns();
    IssuesExact(CompiledSteps(ws), S.BuiltIns(), false, catalogue);
  }

  // ---- valid workspaces ----

  /** Some binding goes from that variable into that step. */
  predicate BoundInto(ws: Workspace, step: Step, n: string) {
    exists b :: b in ws.bindings && Targets(b, step.name) && Fold(b.sourceVariable) == Fold(n)
  }

  /** Apart from the variables bound into it, the step mentions supplied ones. */
  ghost predicate TypedSupplied(ws: Workspace, t: nat)
    requires t < |ws.steps|
  {
    forall n :: n in Mentioned(ws, ws.steps[t]) && !BoundInto(ws, ws.steps[t], n) ==> Supplied(ws, t, n)
  }

  lemma SavedBeforeFolds(ws: Workspace, t: nat, v: string, n: string)
    requires SavedBefore(ws, t, v) && Fold(v) == Fold(n)
    ensures SavedBefore(ws, t, n)
  {
    hide Fold, CompiledStep;
    var s: nat, i: nat :| SavedBy(ws, s, i, v) && s < t;
    assert SavedBy(ws, s, i, n);
  }

  lemma BoundIsSupplied(ws: Workspace, t: nat, n: string)
    requires Validate(ws).None? && t < |ws.steps| && BoundInto(ws, ws.steps[t], n)
    ensures Supplied(ws, t, n)
  {
    hide Validate, S.BuiltIns, Plain, SavedBefore, T.IsEnvironment, Fold;
    var b :| b in ws.bindings && Targets(b, ws.steps[t].name) && Fold(b.sourceVariable) == Fold(n);
    BindingSaved(ws, t, b);
    SavedBeforeFolds(ws, t, b.sourceVariable, n);
  }

  /** Main result: bindings never give the check anything to report. In what a valid workspace compiles to it finds
      no undeclared variable exactly when the environment, the run or an earlier step supplies every variable that
      a step mentions without having it bound. */
  lemma CompilationPreservesDeclaredness(ws: Workspace, catalogue: Option<S.Catalogue>)
    requires Validate(ws).None?
    ensures NoneUndeclared(Issues(CompiledSteps(ws), [], false, catalogue)) <==>
              forall t :: 0 <= t < |ws.steps| ==> TypedSupplied(ws, t)
  {
    hide Validate, S.BuiltIns, CompiledSteps, IssuesFrom, Supplied, BoundInto, Mentioned;
    SilentExactly(ws, catalogue);
    forall t | 0 <= t < |ws.steps| ensures AllSupplied(ws, t) <==> TypedSupplied(ws, t) {
      if TypedSupplied(ws, t) {
        forall n | n in Mentioned(ws, ws.steps[t]) ensures Supplied(ws, t, n) {
          if BoundInto(ws, ws.steps[t], n) { BoundIsSupplied(ws, t, n); }
        }
      }
    }
  }

  function BoundKeys(ws: Workspace, step: Step): set<string> {
    set b | b in ws.bindings && Targets(b, step.name) :: Fold(b.sourceVariable)
  }

  lemma StepBoundKnown(ws: Workspace, t: nat)
    requires Validate(ws).None? && t < |ws.steps|
    ensures BoundKnown(ws, ws.steps[t], S.BuiltIns() + BoundKeys(ws, ws.steps[t]))
  {
    hide Validate, Plain, SavedBefore, Key, S.BuiltIns, Fold;
    var step := ws.steps[t];
    forall f | f in step.requestFields && BoundTo(ws.bindings, step.name, Key(f)).Some?
      ensures Plain(BoundTo(ws.bindings, step.name, Key(f)).value)
      ensures Fold(BoundTo(ws.bindings, step.name, Key(f)).value) in BoundKeys(ws, step)
    {
      var v := BoundTo(ws.bindings, step.name, Key(f)).value;
      var b :| b in ws.bindings && Targets(b, step.name) && b.sourceVariable == v;
      BindingSaved(ws, t, b);
    }
  }

  /** It is enough that the step's own texts mention built-in variables only, that no text put into the route
      contains the placeholder of a later path field, and that none of them ends in a dollar sign. */
  lemma LiteralIsEnough(ws: Workspace, t: nat)
    requires Validate(ws).None? && t < |ws.steps| && Literal(ws, ws.steps[t])
    ensures TypedSupplied(ws, t)
  {
    hide Validate, Literal, Mentioned, S.BuiltIns, T.IsEnvironment, BoundKnown, SavedBefore, Fold;
    var step := ws.steps[t];
    StepBoundKnown(ws, t);
    LiteralMentions(ws, step, S.BuiltIns() + BoundKeys(ws, step));
    forall n | n in Mentioned(ws, step) && !BoundInto(ws, step, n) ensures Supplied(ws, t, n) {
      assert Fold(n) !in BoundKeys(ws, step);
    }
  }
}
