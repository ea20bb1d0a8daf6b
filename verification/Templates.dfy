/** The `${name}` scanner and substituter that the preflight check and every executor share.

    `Names` follows `Regex.Matches`, `Resolve` follows `Regex.Replace`; `Scan` is the
    independent reading of a template as literal text and variables. */
module Templates {
  import opened Text

  predicate NameChar(c: char) {
    'A' <= c <= 'Z' || 'a' <= c <= 'z' || IsDigit(c) || c == '_' || c == '.' || c == ':' || c == '-'
  }

  predicate IsName(s: string) { s != "" && forall i :: 0 <= i < |s| ==> NameChar(s[i]) }

  /** The texts the pattern matches. */
  predicate IsPlaceholder(s: string) {
    |s| >= 4 && s[0] == '$' && s[1] == '{' && s[|s| - 1] == '}' && IsName(s[2..|s| - 1])
  }

  function Placeholder(name: string): string { "${" + name + "}" }

  function NameRun(s: string): (n: nat)
    ensures n <= |s|
    ensures forall i :: 0 <= i < n ==> NameChar(s[i])
    ensures n < |s| ==> !NameChar(s[n])
  {
    if s == "" || !NameChar(s[0]) then 0 else 1 + NameRun(s[1..])
  }

  /** Length of the match that starts at the first character, or 0. */
  function MatchLength(s: string): (m: nat)
    ensures m <= |s| && (m > 0 ==> m >= 4)
  {
    if |s| < 4 || s[0] != '$' || s[1] != '{' then 0
    else
      var n := NameRun(s[2..]);
      if n > 0 && 2 + n < |s| && s[2 + n] == '}' then n + 3 else 0
  }

  /** The match of length `m` at the start of `s`, character by character. */
  predicate Matches(s: string, m: nat) {
    4 <= m <= |s| && s[0] == '$' && s[1] == '{' && s[m - 1] == '}' && forall i :: 2 <= i < m - 1 ==> NameChar(s[i])
  }

  lemma RunIs(t: string, k: nat)
    requires k < |t| && (forall i :: 0 <= i < k ==> NameChar(t[i])) && !NameChar(t[k])
    ensures NameRun(t) == k
  {
    hide NameRun, NameChar;
    var n := NameRun(t);
  }

  lemma FoundMatches(s: string)
    requires MatchLength(s) > 0
    ensures Matches(s, MatchLength(s))
  {
    hide NameRun, NameChar;
    var n := NameRun(s[2..]);
    assert MatchLength(s) == n + 3;
    forall i | 2 <= i < n + 2 ensures NameChar(s[i]) { assert s[2..][i - 2] == s[i]; }
  }

  lemma MatchIsFound(s: string, m: nat)
    requires Matches(s, m)
    ensures MatchLength(s) == m
  {
    hide NameRun;
    var t := s[2..];
    assert t[m - 3] == s[m - 1] == '}';
    forall i | 0 <= i < m - 3 ensures NameChar(t[i]) { assert t[i] == s[i + 2]; }
    RunIs(t, m - 3);
  }

  lemma MatchIsPlaceholder(s: string, m: nat)
    requires 4 <= m <= |s|
    ensures Matches(s, m) <==> IsPlaceholder(s[..m])
  {
    hide NameChar;
    var t := s[..m];
    var name := t[2..m - 1];
    assert |t| == m && t[0] == s[0] && t[1] == s[1] && t[m - 1] == s[m - 1];
    if Matches(s, m) {
      forall i | 0 <= i < |name| ensures NameChar(name[i]) { assert name[i] == s[i + 2]; }
    }
    if IsPlaceholder(t) {
      forall i | 2 <= i < m - 1 ensures NameChar(s[i]) { assert name[i - 2] == s[i]; }
    }
  }

  /** The pattern matches at most one prefix, and `MatchLength` finds it. */
  lemma MatchLengthCorrect(s: string, m: nat)
    ensures m > 0 ==> (MatchLength(s) == m <==> Matches(s, m))
    ensures Matches(s, m) <==> m <= |s| && IsPlaceholder(s[..m])
  {
    hide MatchLength;
    if m > 0 && MatchLength(s) == m { FoundMatches(s); }
    if Matches(s, m) { MatchIsFound(s, m); }
    if 4 <= m <= |s| { MatchIsPlaceholder(s, m); }
  }

  /** Names of all matches, left to right and not overlapping. */
  function Names(s: string): seq<string> {
    if s == "" then []
    else
      var m := MatchLength(s);
      if m > 0 then [s[2..m - 1]] + Names(s[m..]) else Names(s[1..])
  }

  /** First occurrences, ignoring case. */
  function Distinct(names: seq<string>): (r: seq<string>)
    ensures forall n :: n in r ==> n in names
    ensures forall n :: n in names ==> Fold(n) in Keys(r)
  {
    if names == [] then []
    else
      var before := Distinct(names[..|names| - 1]);
      var last := names[|names| - 1];
      assert names == names[..|names| - 1] + [last];
      if Fold(last) in Keys(before) then before else
      assert forall n :: n in Keys(before) ==> n in Keys(before + [last]) by { KeysAppend(before, last); }
      assert Fold(last) in Keys(before + [last]) by { KeysAppend(before, last); }
      before + [last]
  }

  /** `Templates.Variables`. */
  function Variables(s: string): seq<string> { Distinct(Names(s)) }

  predicate IsEnvironment(name: string) { |name| >= 4 && Fold(name[..4]) == "env:" }

  datatype Resolution = Resolved(text: string) | MissingVariable(name: string) | MissingEnvironment(name: string)

  type Store = map<string, string>

  /** What one match is replaced by; stores are keyed by folded names. */
  function Lookup(name: string, vars: Store, env: Store): Resolution {
    if IsEnvironment(name) then
      if name[4..] in env then Resolved(env[name[4..]]) else MissingEnvironment(name[4..])
    else if Fold(name) in vars then Resolved(vars[Fold(name)])
    else MissingVariable(name)
  }

  /** `Templates.Resolve`: the leftmost failing match decides the error. */
  function Resolve(s: string, vars: Store, env: Store): Resolution {
    if s == "" then Resolved("")
    else
      var m := MatchLength(s);
      var head := if m > 0 then Lookup(s[2..m - 1], vars, env) else Resolved([s[0]]);
      if !head.Resolved? then head
      else
        var tail := Resolve(if m > 0 then s[m..] else s[1..], vars, env);
        if tail.Resolved? then Resolved(head.text + tail.text) else tail
  }

  // ---- scanner and substituter agree ----

  predicate Available(name: string, vars: Store, env: Store) {
    if IsEnvironment(name) then name[4..] in env else Fold(name) in vars
  }

  lemma {:induction false} ResolveNames(s: string, vars: Store, env: Store)
    ensures Resolve(s, vars, env).Resolved? <==> forall n :: n in Names(s) ==> Available(n, vars, env)
    ensures Resolve(s, vars, env).MissingVariable? ==>
              var n := Resolve(s, vars, env).name; n in Names(s) && !IsEnvironment(n) && Fold(n) !in vars
    ensures Resolve(s, vars, env).MissingEnvironment? ==>
              exists n :: n in Names(s) && IsEnvironment(n) && n[4..] == Resolve(s, vars, env).name && n[4..] !in env
  {
    hide MatchLength, Names, Lookup, Available;
    if s != "" {
      var m := MatchLength(s);
      if m > 0 {
        var head, rest := s[2..m - 1], s[m..];
        ResolveNames(rest, vars, env);
        NamesMatched(s);
        assert forall n :: n in Names(s) <==> n == head || n in Names(rest);
        LookupAvailable(head, vars, env);
      } else {
        NamesUnmatched(s);
        ResolveNames(s[1..], vars, env);
      }
    } else {
      assert Names("") == [] by { NoDollarNoNames(""); }
    }
  }

  lemma LookupAvailable(n: string, vars: Store, env: Store)
    ensures Lookup(n, vars, env).Resolved? <==> Available(n, vars, env)
    ensures Lookup(n, vars, env).MissingVariable? ==>
              Lookup(n, vars, env).name == n && !IsEnvironment(n) && Fold(n) !in vars
    ensures Lookup(n, vars, env).MissingEnvironment? ==>
              IsEnvironment(n) && n[4..] == Lookup(n, vars, env).name && n[4..] !in env
  {
    hide IsEnvironment, Fold;
  }

  predicate SameAnswer(n: string, vars: Store, env: Store, vars': Store, env': Store) {
    Lookup(n, vars, env) == Lookup(n, vars', env')
  }

  /** Two stores that give every mentioned name the same answer give the same result. */
  lemma {:induction false} ResolveFrame(s: string, vars: Store, env: Store, vars': Store, env': Store)
    requires forall n :: n in Names(s) ==> SameAnswer(n, vars, env, vars', env')
    ensures Resolve(s, vars, env) == Resolve(s, vars', env')
  {
    hide MatchLength, Lookup;
    if s != "" {
      var m := MatchLength(s);
      if m > 0 {
        var head, rest := s[2..m - 1], s[m..];
        assert Names(s) == [head] + Names(rest);
        assert head in Names(s) && forall n :: n in Names(rest) ==> n in Names(s);
        assert SameAnswer(head, vars, env, vars', env');
        ResolveFrame(rest, vars, env, vars', env');
      } else {
        ResolveFrame(s[1..], vars, env, vars', env');
      }
    }
  }

  /** Main agreement result: substitution succeeds exactly when every variable the scanner reports can be
      answered and every environment name that occurs, in its own spelling, is there. */
  lemma ScannerAgrees(s: string, vars: Store, env: Store)
    ensures Resolve(s, vars, env).Resolved? <==>
              (forall n :: n in Variables(s) && !IsEnvironment(n) ==> Fold(n) in vars)
              && forall n :: n in Names(s) && IsEnvironment(n) ==> n[4..] in env
  {
    hide Resolve, Names, Distinct, Fold;
    ResolveNames(s, vars, env);
    if Resolve(s, vars, env).Resolved? {
      forall n | n in Names(s) ensures if IsEnvironment(n) then n[4..] in env else Fold(n) in vars {
        assert Available(n, vars, env);
      }
    }
    if forall n :: n in Variables(s) && !IsEnvironment(n) ==> Fold(n) in vars {
      forall n | n in Names(s) && !IsEnvironment(n) ensures Available(n, vars, env) {
        var n' := Reported(s, n);
        EnvironmentFold(n, n');
      }
    }
  }

  lemma Reported(s: string, n: string) returns (n': string)
    requires n in Names(s)
    ensures n' in Variables(s) && n' in Names(s) && Fold(n') == Fold(n)
  {
    assert Fold(n) in Keys(Variables(s));
    n' :| n' in Variables(s) && Fold(n') == Fold(n);
  }

  lemma EnvironmentFold(n: string, n': string)
    requires Fold(n) == Fold(n')
    ensures IsEnvironment(n) == IsEnvironment(n')
  {
    assert |n| == |Fold(n)| == |Fold(n')| == |n'|;
    if |n| >= 4 {
      FoldConcat(n[..4], n[4..]);
      FoldConcat(n'[..4], n'[4..]);
      assert n == n[..4] + n[4..] && n' == n'[..4] + n'[4..];
      assert Fold(n)[..4] == Fold(n[..4]) && Fold(n')[..4] == Fold(n'[..4]);
    }
  }

  // ---- the reading of a template as segments ----

  datatype Segment = Literal(text: string) | Variable(name: string)

  function Scan(s: string): seq<Segment> {
    if s == "" then []
    else
      var m := MatchLength(s);
      if m > 0 then [Variable(s[2..m - 1])] + Scan(s[m..]) else Prepend(s[0], Scan(s[1..]))
  }

  function Prepend(c: char, segments: seq<Segment>): seq<Segment> {
    if segments != [] && segments[0].Literal? then [Literal([c] + segments[0].text)] + segments[1..]
    else [Literal([c])] + segments
  }

  function Print(segments: seq<Segment>): string {
    if segments == [] then ""
    else (match segments[0] case Literal(t) => t case Variable(n) => Placeholder(n)) + Print(segments[1..])
  }

  /** Well-formed readings: names are names, literals are non-empty, hold no match and are maximal. */
  predicate Canonical(segments: seq<Segment>) {
    segments == [] ||
    (Canonical(segments[1..]) &&
     match segments[0]
     case Variable(n) => IsName(n)
     case Literal(t) => t != "" && Names(t) == [] && (|segments| > 1 ==> segments[1].Variable?))
  }

  function VariableNames(segments: seq<Segment>): seq<string> {
    if segments == [] then []
    else (if segments[0].Variable? then [segments[0].name] else []) + VariableNames(segments[1..])
  }

  /** Simultaneous substitution: literals stay, each variable becomes its value, nothing is read again. */
  function Substitute(segments: seq<Segment>, vars: Store, env: Store): Resolution {
    if segments == [] then Resolved("")
    else
      var head := match segments[0] case Literal(t) => Resolved(t) case Variable(n) => Lookup(n, vars, env);
      if !head.Resolved? then head
      else
        var tail := Substitute(segments[1..], vars, env);
        if tail.Resolved? then Resolved(head.text + tail.text) else tail
  }

  /** A match never crosses a boundary whose left character cannot continue or whose right character cannot follow. */
  predicate Straddles(a: string, b: string) {
    a != "" && b != ""
    && (a[|a| - 1] == '$' || a[|a| - 1] == '{' || NameChar(a[|a| - 1]))
    && (b[0] == '{' || b[0] == '}' || NameChar(b[0]))
  }

  lemma MatchStays(a: string, b: string)
    requires MatchLength(a) > 0
    ensures MatchLength(a + b) == MatchLength(a)
  {
    hide MatchLength, NameChar;
    FoundMatches(a);
    assert forall i :: 0 <= i < |a| ==> (a + b)[i] == a[i];
    MatchIsFound(a + b, MatchLength(a));
  }

  lemma MatchWithin(a: string, b: string)
    requires a != "" && !Straddles(a, b) && MatchLength(a + b) > 0
    ensures MatchLength(a) == MatchLength(a + b)
  {
    hide MatchLength, NameChar;
    var s, m := a + b, MatchLength(a + b);
    FoundMatches(s);
    assert s[|a| - 1] == a[|a| - 1] && (b != "" ==> s[|a|] == b[0]);
    NotAcross(s, |a|, m);
    assert forall i :: 0 <= i < |a| ==> s[i] == a[i];
    MatchIsFound(a, m);
  }

  lemma NotAcross(s: string, cut: nat, m: nat)
    requires Matches(s, m) && 0 < cut <= |s|
    requires cut < |s| ==>
               !(s[cut - 1] == '$' || s[cut - 1] == '{' || NameChar(s[cut - 1]))
               || !(s[cut] == '{' || s[cut] == '}' || NameChar(s[cut]))
    ensures m <= cut
  {
    hide NameChar;
  }

  lemma MatchLengthPrefix(a: string, b: string)
    requires a != "" && !Straddles(a, b)
    ensures MatchLength(a + b) == MatchLength(a)
  {
    hide MatchLength, Straddles;
    if MatchLength(a) > 0 { MatchStays(a, b); }
    if MatchLength(a + b) > 0 { MatchWithin(a, b); }
  }

  lemma StraddlesSuffix(a: string, k: nat, b: string)
    requires k <= |a| && !Straddles(a, b)
    ensures !Straddles(a[k..], b)
  {
    hide NameChar;
  }

  lemma NamesMatched(s: string)
    requires MatchLength(s) > 0
    ensures Names(s) == [s[2..MatchLength(s) - 1]] + Names(s[MatchLength(s)..])
  {
    hide MatchLength;
  }

  lemma NamesUnmatched(s: string)
    requires s != "" && MatchLength(s) == 0
    ensures Names(s) == Names(s[1..])
  {
  }

  lemma {:induction false} NamesSplit(a: string, b: string)
    requires !Straddles(a, b)
    ensures Names(a + b) == Names(a) + Names(b)
  {
    hide *;
    if a == "" {
      assert a + b == b;
      assert Names("") == [] by { NoDollarNoNames(""); }
    } else {
      MatchLengthPrefix(a, b);
      var m := MatchLength(a);
      var step := if m > 0 then m else 1;
      var rest := a[step..];
      StraddlesSuffix(a, step, b);
      NamesSplit(rest, b);
      assert (a + b)[step..] == rest + b;
      if m > 0 {
        NamesMatched(a);
        NamesMatched(a + b);
        var n := a[2..m - 1];
        assert (a + b)[2..m - 1] == n;
        assert [n] + (Names(rest) + Names(b)) == ([n] + Names(rest)) + Names(b);
      } else {
        NamesUnmatched(a);
        NamesUnmatched(a + b);
      }
    }
  }

  lemma MatchPlaceholder(n: string, rest: string)
    requires IsName(n)
    ensures MatchLength(Placeholder(n) + rest) == |n| + 3
    ensures (Placeholder(n) + rest)[2..|n| + 2] == n && (Placeholder(n) + rest)[|n| + 3..] == rest
    ensures Names(Placeholder(n) + rest) == [n] + Names(rest)
  {
    var s := Placeholder(n) + rest;
    assert s[..|n| + 3] == Placeholder(n);
    assert Placeholder(n)[2..|n| + 2] == n;
    assert IsPlaceholder(s[..|n| + 3]);
    assert s[|n| + 3..] == rest;
  }

  lemma NoNamesTail(t: string)
    requires t != "" && Names(t) == []
    ensures MatchLength(t) == 0 && Names(t[1..]) == []
  {
  }

  lemma {:induction false} ScanLiteral(t: string, rest: string)
    requires t != "" && Names(t) == [] && !Straddles(t, rest)
    requires Scan(rest) != [] ==> Scan(rest)[0].Variable?
    ensures Scan(t + rest) == [Literal(t)] + Scan(rest)
  {
    hide MatchLength, Matches;
    NoNamesTail(t);
    MatchLengthPrefix(t, rest);
    assert (t + rest)[1..] == t[1..] + rest;
    if |t| == 1 {
      assert t[1..] + rest == rest && t == [t[0]];
    } else {
      assert !Straddles(t[1..], rest);
      ScanLiteral(t[1..], rest);
      assert [t[0]] + t[1..] == t;
    }
  }

  /** `Scan` reads back exactly the canonical segments that were printed ... */
  lemma {:induction false} ScanPrint(segments: seq<Segment>)
    requires Canonical(segments)
    ensures Scan(Print(segments)) == segments
  {
    hide MatchLength, Names;
    if segments != [] {
      var rest := Print(segments[1..]);
      ScanPrint(segments[1..]);
      match segments[0] {
        case Variable(n) =>
          MatchPlaceholder(n, rest);
        case Literal(t) =>
          NextStarts(segments);
          assert !Straddles(t, rest);
          assert |segments| > 1 ==> segments[1..][0] == segments[1];
          ScanLiteral(t, rest);
      }
    }
  }

  /** ... and every text is the print of its reading, which is canonical. */
  lemma PrintScan(s: string)
    ensures Print(Scan(s)) == s && Canonical(Scan(s))
  {
    PrintOfScan(s);
    CanonicalScan(s);
  }

  lemma {:induction false} PrintOfScan(s: string)
    ensures Print(Scan(s)) == s
  {
    hide MatchLength, Prepend;
    if s != "" {
      var m := MatchLength(s);
      PrintOfScan(s[if m > 0 then m else 1..]);
      if m > 0 {
        MatchText(s);
        assert Scan(s)[1..] == Scan(s[m..]);
      } else {
        PrependPrints(s[0], Scan(s[1..]));
      }
    }
  }

  lemma MatchText(s: string)
    requires MatchLength(s) > 0
    ensures var m := MatchLength(s);
            Placeholder(s[2..m - 1]) + s[m..] == s && IsName(s[2..m - 1])
  {
    var m := MatchLength(s);
    MatchLengthCorrect(s, m);
    assert s[..m][2..m - 1] == s[2..m - 1];
    assert s[..m] == Placeholder(s[2..m - 1]);
  }

  lemma PrependPrints(c: char, segments: seq<Segment>)
    ensures Print(Prepend(c, segments)) == [c] + Print(segments)
  {
    var after := Prepend(c, segments);
    if segments != [] && segments[0].Literal? {
      assert after[1..] == segments[1..];
    } else {
      assert after[1..] == segments;
    }
  }

  lemma {:induction false} CanonicalScan(s: string)
    ensures Canonical(Scan(s))
  {
    hide MatchLength, Prepend, Names, Print;
    if s != "" {
      var m := MatchLength(s);
      CanonicalScan(s[if m > 0 then m else 1..]);
      if m > 0 {
        MatchText(s);
        assert Scan(s)[1..] == Scan(s[m..]);
      } else {
        PrintOfScan(s[1..]);
        assert [s[0]] + s[1..] == s;
        PrependCanonical(s[0], Scan(s[1..]));
      }
    }
  }

  lemma PrependCanonical(c: char, segments: seq<Segment>)
    requires MatchLength([c] + Print(segments)) == 0 && Canonical(segments)
    ensures Canonical(Prepend(c, segments))
  {
    hide MatchLength, Names;
    var after := Prepend(c, segments);
    if segments != [] && segments[0].Literal? {
      var t, rest := segments[0].text, Print(segments[1..]);
      assert rest != "" ==> rest[0] == '$' by { NextStarts(segments); }
      LiteralExtends(c, t, rest);
      assert after[1..] == segments[1..];
    } else {
      assert after[1..] == segments;
      SingleHasNoNames(c);
    }
  }

  lemma NextStarts(segments: seq<Segment>)
    requires Canonical(segments) && segments != [] && segments[0].Literal?
    ensures Print(segments[1..]) != "" ==> Print(segments[1..])[0] == '$'
  {
    if |segments| > 1 {
      assert segments[1..][0] == segments[1];
    }
  }

  lemma SingleHasNoNames(c: char)
    ensures Names([c]) == []
  {
    assert [c][1..] == "";
  }

  lemma LiteralExtends(c: char, t: string, rest: string)
    requires Names(t) == [] && !Straddles(t, rest) && t != ""
    requires MatchLength([c] + (t + rest)) == 0
    ensures Names([c] + t) == []
  {
    hide MatchLength;
    assert [c] + (t + rest) == ([c] + t) + rest;
    MatchLengthPrefix([c] + t, rest);
    assert ([c] + t)[1..] == t;
  }

  lemma ScanMatched(s: string)
    requires MatchLength(s) > 0
    ensures Scan(s) == [Variable(s[2..MatchLength(s) - 1])] + Scan(s[MatchLength(s)..])
  {
    hide MatchLength;
  }

  lemma ScanUnmatched(s: string)
    requires s != "" && MatchLength(s) == 0
    ensures Scan(s) == Prepend(s[0], Scan(s[1..]))
  {
    hide MatchLength, Prepend;
  }

  lemma NothingToSubstitute(vars: Store, env: Store)
    ensures Scan("") == [] && VariableNames([]) == Names("") && Substitute([], vars, env) == Resolve("", vars, env)
  {
  }

  /** `Resolve` is the simultaneous substitution of the canonical reading, and `Names` its variables. */
  lemma {:induction false} ResolveIsSubstitution(s: string, vars: Store, env: Store)
    ensures Substitute(Scan(s), vars, env) == Resolve(s, vars, env)
    ensures VariableNames(Scan(s)) == Names(s)
  {
    hide MatchLength, Lookup, Substitute, VariableNames, Names, Resolve, Scan, Prepend, Then;
    if s == "" {
      NothingToSubstitute(vars, env);
    } else {
      var m := MatchLength(s);
      ResolveIsSubstitution(s[if m > 0 then m else 1..], vars, env);
      if m > 0 {
        ScanMatched(s);
        NamesMatched(s);
        ResolveMatched(s, vars, env);
        SubstituteFirst(Variable(s[2..m - 1]), Scan(s[m..]), vars, env);
      } else {
        ScanUnmatched(s);
        NamesUnmatched(s);
        ResolveUnmatched(s, vars, env);
        PrependSubstitutes(s[0], Scan(s[1..]), vars, env);
      }
    }
  }

  function Answered(segment: Segment, vars: Store, env: Store): Resolution {
    match segment case Literal(t) => Resolved(t) case Variable(n) => Lookup(n, vars, env)
  }

  lemma SubstituteFirst(first: Segment, rest: seq<Segment>, vars: Store, env: Store)
    ensures Substitute([first] + rest, vars, env) == Then(Answered(first, vars, env), Substitute(rest, vars, env))
    ensures VariableNames([first] + rest) == (if first.Variable? then [first.name] else []) + VariableNames(rest)
  {
    hide Lookup;
    assert ([first] + rest)[1..] == rest;
  }

  lemma PrependSubstitutes(c: char, segments: seq<Segment>, vars: Store, env: Store)
    ensures VariableNames(Prepend(c, segments)) == VariableNames(segments)
    ensures Substitute(Prepend(c, segments), vars, env) == Then(Resolved([c]), Substitute(segments, vars, env))
  {
    hide Substitute, VariableNames, Then, Lookup;
    if segments != [] && segments[0].Literal? {
      var t, rest := segments[0].text, segments[1..];
      assert segments == [Literal(t)] + rest;
      SubstituteFirst(Literal(t), rest, vars, env);
      SubstituteFirst(Literal([c] + t), rest, vars, env);
      ThenAssociates(Resolved([c]), Resolved(t), Substitute(rest, vars, env));
      ThenLiteral(c, t);
    } else {
      SubstituteFirst(Literal([c]), segments, vars, env);
      assert [] + VariableNames(segments) == VariableNames(segments);
    }
  }

  lemma ThenLiteral(c: char, t: string)
    ensures Then(Resolved([c]), Resolved(t)) == Resolved([c] + t)
  {
  }

  predicate OccursAt(s: string, n: string, i: nat) {
    i + |n| + 3 <= |s| && s[i..i + |n| + 3] == Placeholder(n)
  }

  /** A name is scanned exactly when its placeholder occurs somewhere in the text. */
  lemma NamesAreOccurrences(s: string, n: string)
    ensures n in Names(s) <==> IsName(n) && exists i: nat :: OccursAt(s, n, i)
  {
    hide MatchLength, Names;
    if n in Names(s) {
      var i := NameOccurs(s, n);
    }
    if IsName(n) && exists i: nat :: OccursAt(s, n, i) {
      var i: nat :| OccursAt(s, n, i);
      var before, after := s[..i], s[i + |n| + 3..];
      OccurrenceNamed(before, n, after);
      assert s == before + (Placeholder(n) + after);
    }
  }

  lemma {:induction false} NameOccurs(s: string, n: string) returns (i: nat)
    requires n in Names(s)
    ensures IsName(n) && OccursAt(s, n, i)
  {
    hide MatchLength;
    var m := MatchLength(s);
    if m > 0 { MatchText(s); }
    if m > 0 && n == s[2..m - 1] {
      i := 0;
      assert s == Placeholder(n) + s[m..];
    } else {
      var step := if m > 0 then m else 1;
      var j := NameOccurs(s[step..], n);
      i := step + j;
      assert s[i..i + |n| + 3] == s[step..][j..j + |n| + 3];
    }
  }

  lemma OccurrenceNamed(before: string, n: string, after: string)
    requires IsName(n)
    ensures n in Names(before + (Placeholder(n) + after))
  {
    NamesSplit(before, Placeholder(n) + after);
    MatchPlaceholder(n, after);
  }

  lemma SuffixNames(path: string, k: nat, n: string)
    requires k <= |path| && n in Names(path[k..])
    ensures n in Names(path)
  {
    hide Names, IsName;
    var rest := path[k..];
    var i := NameOccurs(rest, n);
    var before, after := rest[..i], Placeholder(n) + rest[i + |n| + 3..];
    assert rest == before + after;
    assert path == path[..k] + rest;
    assert path[..k] + (before + after) == (path[..k] + before) + after;
    OccurrenceNamed(path[..k] + before, n, rest[i + |n| + 3..]);
  }

  lemma {:induction false} NoDollarNoNames(s: string)
    requires Free(s, '$')
    ensures Names(s) == []
  {
    if s != "" {
      assert MatchLength(s) == 0;
      NoDollarNoNames(s[1..]);
    }
  }

  /** Text without variables stays as it is. */
  lemma {:induction false} ResolvePlain(s: string, vars: Store, env: Store)
    requires Names(s) == []
    ensures Resolve(s, vars, env) == Resolved(s)
  {
    if s != "" {
      NoNamesTail(s);
      ResolvePlain(s[1..], vars, env);
    }
  }

  /** The first failure, or both texts. */
  function Then(left: Resolution, right: Resolution): Resolution {
    if !left.Resolved? then left else if !right.Resolved? then right else Resolved(left.text + right.text)
  }

  lemma ThenAssociates(a: Resolution, b: Resolution, c: Resolution)
    ensures Then(a, Then(b, c)) == Then(Then(a, b), c)
  {
    if a.Resolved? && b.Resolved? && c.Resolved? { assert a.text + (b.text + c.text) == (a.text + b.text) + c.text; }
  }

  lemma ResolveMatched(s: string, vars: Store, env: Store)
    requires MatchLength(s) > 0
    ensures Resolve(s, vars, env) == Then(Lookup(s[2..MatchLength(s) - 1], vars, env), Resolve(s[MatchLength(s)..], vars, env))
  {
    hide MatchLength, Lookup;
  }

  lemma ResolveUnmatched(s: string, vars: Store, env: Store)
    requires s != "" && MatchLength(s) == 0
    ensures Resolve(s, vars, env) == Then(Resolved([s[0]]), Resolve(s[1..], vars, env))
  {
    hide MatchLength, Lookup;
  }

  /** A text may be resolved in two parts wherever no match can straddle the cut. */
  lemma {:induction false} ResolveSplit(a: string, b: string, vars: Store, env: Store)
    requires !Straddles(a, b)
    ensures Resolve(a + b, vars, env) == Then(Resolve(a, vars, env), Resolve(b, vars, env))
  {
    hide MatchLength, Lookup, Names, Straddles, Resolve, Then;
    if a == "" {
      assert a + b == b;
      NothingFirst(b, vars, env);
    } else {
      MatchLengthPrefix(a, b);
      var m := MatchLength(a);
      var step := if m > 0 then m else 1;
      StraddlesSuffix(a, step, b);
      ResolveSplit(a[step..], b, vars, env);
      assert (a + b)[step..] == a[step..] + b;
      if m > 0 {
        assert (a + b)[2..m - 1] == a[2..m - 1];
        ResolveMatched(a, vars, env);
        ResolveMatched(a + b, vars, env);
        ThenAssociates(Lookup(a[2..m - 1], vars, env), Resolve(a[m..], vars, env), Resolve(b, vars, env));
      } else {
        ResolveUnmatched(a, vars, env);
        ResolveUnmatched(a + b, vars, env);
        ThenAssociates(Resolved([a[0]]), Resolve(a[1..], vars, env), Resolve(b, vars, env));
      }
    }
  }

  lemma NothingFirst(b: string, vars: Store, env: Store)
    ensures Resolve(b, vars, env) == Then(Resolve("", vars, env), Resolve(b, vars, env))
  {
    var right := Resolve(b, vars, env);
    if right.Resolved? { assert "" + right.text == right.text; }
  }

  // ---- texts that give texts with the same variables ----

  /** The same reading with every variable renamed. */
  function Renamed(segments: seq<Segment>, q: string): seq<Segment> {
    if segments == [] then []
    else [if segments[0].Variable? then Variable(q) else segments[0]] + Renamed(segments[1..], q)
  }

  lemma {:induction false} RenamedCanonical(segments: seq<Segment>, q: string)
    requires Canonical(segments) && IsName(q)
    ensures Canonical(Renamed(segments, q)) && |Renamed(segments, q)| == |segments|
    ensures forall i :: 0 <= i < |segments| ==> Renamed(segments, q)[i].Variable? == segments[i].Variable?
  {
    hide IsName, Names;
    if segments != [] {
      RenamedCanonical(segments[1..], q);
      assert Renamed(segments, q)[1..] == Renamed(segments[1..], q);
      assert |segments| > 1 ==> segments[1] == segments[1..][0];
    }
  }

  predicate AllAnswer(names: seq<string>, text: string, vars: Store, env: Store) {
    forall n :: n in names ==> Lookup(n, vars, env) == Resolved(text)
  }

  lemma {:induction false} SubstitutePlaceholders(segments: seq<Segment>, q: string, vars: Store, env: Store)
    requires AllAnswer(VariableNames(segments), Placeholder(q), vars, env)
    ensures Substitute(segments, vars, env) == Resolved(Print(Renamed(segments, q)))
    ensures forall n :: n in VariableNames(Renamed(segments, q)) ==> n == q
    ensures VariableNames(segments) != [] ==> q in VariableNames(Renamed(segments, q))
  {
    hide Lookup, Placeholder;
    if segments != [] {
      SubstitutePlaceholders(segments[1..], q, vars, env);
      assert Renamed(segments, q)[1..] == Renamed(segments[1..], q);
      if segments[0].Variable? { assert segments[0].name in VariableNames(segments); }
    }
  }

  /** When every variable stands for the placeholder of `q`, the resolved text mentions `q` and nothing else. */
  lemma PlaceholdersForVariables(s: string, q: string, vars: Store, env: Store)
    requires IsName(q) && AllAnswer(Names(s), Placeholder(q), vars, env)
    ensures Resolve(s, vars, env).Resolved?
    ensures var t := Resolve(s, vars, env).text;
            (forall n :: n in Names(t) ==> n == q) && (Names(s) != [] ==> q in Names(t))
  {
    hide MatchLength, Names, Lookup, Placeholder, Substitute, Resolve, Canonical, Print, Renamed, Scan, IsName;
    ResolveIsSubstitution(s, vars, env);
    PrintScan(s);
    SubstitutePlaceholders(Scan(s), q, vars, env);
    RenamedCanonical(Scan(s), q);
    var t := Print(Renamed(Scan(s), q));
    ScanPrint(Renamed(Scan(s), q));
    ResolveIsSubstitution(t, vars, env);
  }

  lemma PlaceholderAlone(n: string, vars: Store, env: Store)
    requires IsName(n)
    ensures Names(Placeholder(n)) == [n]
    ensures Resolve(Placeholder(n), vars, env) == Lookup(n, vars, env)
  {
    MatchPlaceholder(n, "");
    assert Placeholder(n) + "" == Placeholder(n);
  }

  /** What a placeholder stands for: the value of the environment under the rest of a name that begins with `env:` in any
      case, and otherwise the value stored under the name in lower case. */
  lemma PlaceholderMeans(n: string, vars: Store, env: Store)
    requires IsName(n)
    ensures var r := Resolve(Placeholder(n), vars, env);
            if |n| >= 4 && Fold(n[..4]) == "env:" then
              r == if n[4..] in env then Resolved(env[n[4..]]) else MissingEnvironment(n[4..])
            else r == if Fold(n) in vars then Resolved(vars[Fold(n)]) else MissingVariable(n)
  {
    hide Resolve, Placeholder, Fold, IsName;
    PlaceholderAlone(n, vars, env);
  }

  /** Text without a dollar sign contributes no names. */
  lemma {:induction false} NamesSkip(t: string, rest: string)
    requires Free(t, '$')
    ensures Names(t + rest) == Names(rest)
  {
    hide MatchLength;
    if t == "" {
      assert t + rest == rest;
    } else {
      NoMatchWithoutDollar(t + rest);
      assert (t + rest)[1..] == t[1..] + rest;
      NamesSkip(t[1..], rest);
    }
  }

  lemma NoMatchWithoutDollar(s: string)
    requires s != "" && s[0] != '$'
    ensures MatchLength(s) == 0
  {
  }
}
