/** The variables that a compiled step mentions, read off the workspace. */
module CompiledNames {
  import opened Optional
  import opened Text
  import opened Workspaces
  import opened PathTemplates
  import opened Compiler
  import opened Routes
  import opened Validator
  import D = Dictionaries
  import S = Steps
  import T = Templates

  // ---- JSON escaping ----

  lemma {:induction false} EscapePrefix(t: string, p: string)
    requires |p| <= |Escape(t)| && Escape(t)[..|p|] == p
    requires forall i :: 0 <= i < |p| ==> Safe(p[i]) && p[i] != '\\'
    ensures |p| <= |t| && t[..|p|] == p
  {
    if p != "" {
      assert Escape(t) == EscapeChar(t[0]) + Escape(t[1..]);
      assert Escape(t)[0] == p[0];
      EscapeStart(t[0]);
      assert Escape(t[1..])[..|p| - 1] == p[1..];
      EscapePrefix(t[1..], p[1..]);
      assert t[..|p|] == [t[0]] + t[1..][..|p| - 1];
    }
  }

  lemma EscapeStart(c: char)
    ensures EscapeChar(c) != ""
    ensures !Safe(c) ==> EscapeChar(c)[0] == '\\'
    ensures !Safe(c) ==> Free(EscapeChar(c), '$')
    ensures Safe(c) ==> EscapeChar(c) == [c]
  {
    hide Hex;
    forall d: nat | d < 16 ensures Hex(d) != '$' { HexNotDollar(d); }
  }

  lemma HexNotDollar(d: nat)
    requires d < 16
    ensures Hex(d) != '$'
  {
  }

  lemma {:induction false} EscapeSafe(p: string, t: string)
    requires forall i :: 0 <= i < |p| ==> Safe(p[i])
    ensures Escape(p + t) == p + Escape(t)
  {
    hide EscapeChar, Safe;
    if p == "" {
      assert p + t == t;
    } else {
      assert (p + t)[0] == p[0] && (p + t)[1..] == p[1..] + t;
      EscapeStart(p[0]);
      EscapeSafe(p[1..], t);
      assert [p[0]] + (p[1..] + Escape(t)) == p + Escape(t);
    }
  }

  /** Escaping neither hides a variable nor makes one. */
  lemma {:induction false} EscapeNames(s: string)
    ensures T.Names(Escape(s)) == T.Names(s)
  {
    hide EscapeChar, Safe, T.MatchLength;
    if s != "" {
      var m := T.MatchLength(s);
      if m > 0 {
        var n, rest := s[2..m - 1], s[m..];
        T.MatchText(s);
        PlaceholderSafe(n);
        EscapeSafe(T.Placeholder(n), rest);
        EscapeNames(rest);
        T.MatchPlaceholder(n, Escape(rest));
      } else {
        EscapeNames(s[1..]);
        EscapeStart(s[0]);
        if s[0] == '$' {
          DollarUnmatched(s);
        } else {
          SafeIsNotDollar(s[0]);
          T.NamesSkip(EscapeChar(s[0]), Escape(s[1..]));
        }
      }
    }
  }

  lemma SafeIsNotDollar(c: char)
    requires c != '$' && (Safe(c) ==> EscapeChar(c) == [c]) && (!Safe(c) ==> Free(EscapeChar(c), '$'))
    ensures Free(EscapeChar(c), '$')
  {
  }

  lemma PlaceholderSafe(n: string)
    requires T.IsName(n)
    ensures forall i :: 0 <= i < |T.Placeholder(n)| ==> Safe(T.Placeholder(n)[i]) && T.Placeholder(n)[i] != '\\'
  {
  }

  lemma DollarUnmatched(s: string)
    requires s != "" && s[0] == '$' && T.MatchLength(s) == 0
    ensures T.Names(Escape(s)) == T.Names(Escape(s[1..]))
  {
    hide T.MatchLength, T.Names, EscapeChar;
    assert Escape(s) == EscapeChar('$') + Escape(s[1..]);
    assert EscapeChar('$') == "$" by { EscapeStart('$'); }
    var e := Escape(s);
    if T.MatchLength(e) > 0 {
      T.MatchText(e);
      var n := e[2..T.MatchLength(e) - 1];
      var p := T.Placeholder(n);
      assert e[..|p|] == p;
      PlaceholderSafe(n);
      EscapePrefix(s, p);
      assert s == p + s[|p|..];
      T.MatchPlaceholder(n, s[|p|..]);
      assert false;
    }
    assert e[1..] == Escape(s[1..]);
    T.NamesUnmatched(e);
  }

  // ---- texts put together ----

  /** No match holds this character. */
  predicate Neutral(c: char) { !T.NameChar(c) && c != '$' && c != '{' && c != '}' }

  lemma CutNames(a: string, sep: char, b: string)
    requires Neutral(sep)
    ensures T.Names(a + ([sep] + b)) == T.Names(a) + T.Names(b)
  {
    hide T.Names;
    T.NamesSplit(a, [sep] + b);
    T.NamesSkip([sep], b);
  }

  function NamesOf(texts: seq<string>): seq<string> {
    if texts == [] then [] else T.Names(texts[0]) + NamesOf(texts[1..])
  }

  lemma {:induction false} JoinNames(parts: seq<string>, sep: char)
    requires Neutral(sep)
    ensures T.Names(Join(parts, [sep])) == NamesOf(parts)
  {
    hide T.Names, Neutral;
    if parts == [] {
      T.NoDollarNoNames("");
    } else if |parts| == 1 {
      assert NamesOf(parts[1..]) == [];
    } else {
      var rest := Join(parts[1..], [sep]);
      JoinNames(parts[1..], sep);
      CutNames(parts[0], sep, rest);
      assert Join(parts, [sep]) == parts[0] + ([sep] + rest);
    }
  }

  /** The variables in keys and values. */
  function PairNames(pairs: Fields): seq<string> {
    if pairs == [] then [] else T.Names(pairs[0].0) + T.Names(pairs[0].1) + PairNames(pairs[1..])
  }

  lemma {:induction false} AssignmentNames(pairs: Fields)
    ensures NamesOf(Assignments(pairs)) == PairNames(pairs)
  {
    hide T.Names;
    if pairs != [] {
      AssignmentNames(pairs[1..]);
      assert Assignments(pairs)[1..] == Assignments(pairs[1..]);
      CutNames(pairs[0].0, '=', pairs[0].1);
      assert pairs[0].0 + "=" + pairs[0].1 == pairs[0].0 + ("=" + pairs[0].1);
    }
  }

  lemma MemberNames(pair: (string, string))
    ensures T.Names(Member(pair)) == T.Names(pair.0) + T.Names(pair.1)
  {
    hide T.Names, Escape;
    var k, v := Escape(pair.0), Escape(pair.1);
    EscapeNames(pair.0);
    EscapeNames(pair.1);
    T.NoDollarNoNames("");
    CutNames(v, '"', "");
    assert v + ("\"" + "") == v + "\"";
    T.NamesSkip(":\"", v + "\"");
    CutNames(k, '"', ":\"" + (v + "\""));
    T.NamesSkip("\"", k + ("\"" + (":\"" + (v + "\""))));
    assert Member(pair) == "\"" + (k + ("\"" + (":\"" + (v + "\""))));
  }

  lemma {:induction false} MembersNames(pairs: Fields)
    ensures NamesOf(Members(pairs)) == PairNames(pairs)
  {
    hide T.Names, Member;
    if pairs != [] {
      MembersNames(pairs[1..]);
      assert Members(pairs)[1..] == Members(pairs[1..]);
      MemberNames(pairs[0]);
    }
  }

  /** A compiled JSON body mentions exactly what its keys and values mention. */
  lemma BodyNames(pairs: Fields)
    ensures T.Names(RawObject(pairs)) == PairNames(pairs)
  {
    hide T.Names, Members, PairNames;
    JoinNames(Members(pairs), ',');
    MembersNames(pairs);
    var inner := Join(Members(pairs), ",");
    T.NoDollarNoNames("}");
    LastIsQuote(pairs);
    T.NamesSplit(inner, "}");
    T.NamesSkip("{", inner + "}");
    assert RawObject(pairs) == "{" + (inner + "}");
  }

  /** The closing brace of the object follows a quotation mark. */
  lemma {:induction false} LastIsQuote(pairs: Fields)
    ensures !T.Straddles(Join(Members(pairs), ","), "}")
  {
    hide Escape;
    if pairs != [] {
      assert Members(pairs)[1..] == Members(pairs[1..]);
      LastIsQuote(pairs[1..]);
    }
  }

  // ---- bound fields ----

  /** Page and server accept a variable whose name holds letters of any alphabet; the text `${name}` that a bound field
      gets is read as that variable exactly when all of them are ASCII, and is sent as it stands otherwise. */
  lemma BoundNameIsRead(v: string, vars: T.Store, env: T.Store)
    requires IsWord(v)
    ensures T.Names(T.Placeholder(v)) == (if AsciiOnly(v) then [v] else [])
    ensures T.Resolve(T.Placeholder(v), vars, env) == if AsciiOnly(v) then T.Lookup(v, vars, env) else T.Resolved(T.Placeholder(v))
  {
    hide T.Names, T.Resolve, T.Lookup;
    assert T.IsName(v) <==> AsciiOnly(v);
    assert BraceFree(v) && Free(v, '$');
    DollarHole(v, "");
    T.NoDollarNoNames("");
    assert "$" + (Hole(v) + "") == T.Placeholder(v);
    if AsciiOnly(v) { T.PlaceholderAlone(v, vars, env); } else { T.ResolvePlain(T.Placeholder(v), vars, env); }
  }

  predicate AsciiOnly(s: string) { forall i :: 0 <= i < |s| ==> s[i] < '\U{0080}' }

  // ---- one step ----

  function TextsAt(ws: Workspace, step: Step, location: string): Fields {
    Texts(ws, step, FieldsAt(step, step.requestFields, location))
  }

  /** The variables of a filled route: without stray braces, the gaps behind a dollar sign. */
  function RouteNames(path: string, fields: Fields): seq<string> {
    if TidyRoute(path, fields) then DollarNames(Filled(path, fields), false) else T.Names(ReplaceAll(path, fields))
  }

  /** Every variable that the step mentions once it is compiled. */
  function Mentioned(ws: Workspace, step: Step): seq<string> {
    RouteNames(step.path, TextsAt(ws, step, "path")) + PairNames(TextsAt(ws, step, "query"))
    + PairNames(Body(ws, step)) + NamesOf(S.SecondsOf(Headers(ws, step)))
  }

  lemma PathNames(ws: Workspace, step: Step)
    ensures T.Names(CompiledPath(ws, step)) == RouteNames(step.path, TextsAt(ws, step, "path")) + PairNames(TextsAt(ws, step, "query"))
  {
    hide T.Names, ReplaceAll, Texts, FieldsAt, TidyRoute, Filled, DollarNames, PairNames, Join;
    var inPath, inQuery := TextsAt(ws, step, "path"), TextsAt(ws, step, "query");
    var path, query := ReplaceAll(step.path, inPath), Join(Assignments(inQuery), "&");
    if TidyRoute(step.path, inPath) { FilledNames(step.path, inPath); }
    JoinNames(Assignments(inQuery), '&');
    AssignmentNames(inQuery);
    T.NoDollarNoNames("");
    CutNames(path, '?', query);
    assert path + "?" + query == path + ("?" + query);
  }

  /** The names are environment names or known. */
  predicate AllKnown(names: seq<string>, known: set<string>) {
    forall n :: n in names ==> T.IsEnvironment(n) || Fold(n) in known
  }

  lemma {:induction false} CoveredNames(texts: seq<string>, known: set<string>)
    ensures AllCovered(texts, known) <==> AllKnown(NamesOf(texts), known)
  {
    hide T.Names, T.IsEnvironment;
    if texts != [] {
      CoveredNames(texts[1..], known);
      KnownConcat(T.Names(texts[0]), NamesOf(texts[1..]), known);
      assert Covered(texts[0], known) <==> AllKnown(T.Names(texts[0]), known);
      assert forall t :: t in texts <==> t == texts[0] || t in texts[1..];
    }
  }

  lemma KnownConcat(a: seq<string>, b: seq<string>, known: set<string>)
    ensures AllKnown(a + b, known) <==> AllKnown(a, known) && AllKnown(b, known)
  {
    hide T.IsEnvironment;
    assert forall n :: n in a + b <==> n in a || n in b;
  }

  /** What the check reads of a compiled step. */
  lemma CompiledTemplates(ws: Workspace, step: Step)
    ensures var compiled, body := CompiledStep(ws, step), Body(ws, step);
            EnumerateTemplates(compiled)
            == [CompiledPath(ws, step)] + (if body == [] then [] else [RawObject(body)]) + S.SecondsOf(Headers(ws, step))
  {
    hide CompiledPath, RawObject, Headers, Body, Saves;
    var compiled := CompiledStep(ws, step);
    assert S.JsonOf(compiled) == [];
    assert AssertionTemplates([]) == [];
  }

  lemma {:induction false} NamesOfConcat(a: seq<string>, b: seq<string>)
    ensures NamesOf(a + b) == NamesOf(a) + NamesOf(b)
  {
    hide T.Names;
    if a == [] {
      assert a + b == b;
      assert NamesOf([]) + NamesOf(b) == NamesOf(b);
    } else {
      NamesOfConcat(a[1..], b);
      assert (a + b)[0] == a[0] && (a + b)[1..] == a[1..] + b;
      Associate(T.Names(a[0]), NamesOf(a[1..]), NamesOf(b));
    }
  }

  lemma NamesOfOne(text: string)
    ensures NamesOf([text]) == T.Names(text)
  {
    hide T.Names;
    assert [text][1..] == [];
  }

  /** The texts of a compiled step mention exactly these variables, in this order. */
  lemma CompiledMentions(ws: Workspace, step: Step)
    ensures NamesOf(EnumerateTemplates(CompiledStep(ws, step))) == Mentioned(ws, step)
  {
    hide T.Names, NamesOf, PairNames, RouteNames, TextsAt, CompiledPath, RawObject, Headers, Body, CompiledStep, EnumerateTemplates;
    var body := Body(ws, step);
    var payload := if body == [] then [] else [RawObject(body)];
    CompiledTemplates(ws, step);
    PathNames(ws, step);
    BodyNames(body);
    NamesOfConcat([CompiledPath(ws, step)] + payload, S.SecondsOf(Headers(ws, step)));
    NamesOfConcat([CompiledPath(ws, step)], payload);
    NamesOfOne(CompiledPath(ws, step));
    if body == [] { NoPairs(); } else { NamesOfOne(RawObject(body)); }
  }

  lemma NoPairs()
    ensures PairNames([]) == [] && NamesOf([]) == []
  {
  }

  /** The check is content with a compiled step exactly when every variable that the step mentions is known. */
  lemma CompiledStepExactly(ws: Workspace, step: Step, known: set<string>)
    ensures StepDeclared(CompiledStep(ws, step), known) <==> AllKnown(Mentioned(ws, step), known)
  {
    hide Mentioned, NamesOf, EnumerateTemplates, AllKnown, AllCovered, CompiledPath, RawObject, Headers, Body, Saves;
    CompiledMentions(ws, step);
    CoveredNames(EnumerateTemplates(CompiledStep(ws, step)), known);
  }
}
