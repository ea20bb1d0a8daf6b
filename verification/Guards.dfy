/** Texts in which every `${` opens an intact placeholder of a known name, and how the compiler's
    text operations keep them that way. */
module Guards {
  import opened Text
  import opened Templates
  import opened PathTemplates
  import opened Validator

  predicate Opens(s: string) { |s| >= 2 && s[0] == '$' && s[1] == '{' }

  function UpTo(s: string, c: char): (k: nat)
    ensures k <= |s| && Free(s[..k], c) && (k < |s| ==> s[k] == c)
  {
    if s == "" || s[0] == c then 0
    else
      var k := UpTo(s[1..], c);
      assert s[..k + 1] == [s[0]] + s[1..][..k];
      k + 1
  }

  /** The name between the first two characters and the next closing brace. */
  function Opened(s: string): string
    requires Opens(s)
  {
    s[2..][..UpTo(s[2..], '}')]
  }

  predicate Plain(name: string) { Free(name, '$') && BraceFree(name) }

  /** Every `${` is followed by a known name and a closing brace. */
  predicate Guarded(s: string, known: set<string>) {
    s == "" ||
    if Opens(s) then
      var v := Opened(s);
      |v| + 2 < |s| && Plain(v) && Fold(v) in known && Guarded(s[|v| + 3..], known)
    else Guarded(s[1..], known)
  }

  predicate EndsInDollar(s: string) { s != "" && s[|s| - 1] == '$' }

  lemma OpenedText(s: string)
    requires Opens(s) && |Opened(s)| + 2 < |s|
    ensures s == Placeholder(Opened(s)) + s[|Opened(s)| + 3..]
  {
    var v := Opened(s);
    assert s[2..][|v|] == '}';
    assert s == "${" + v + "}" + s[|v| + 3..];
  }

  lemma {:induction false} UpToFirst(v: string, c: char, rest: string)
    requires Free(v, c)
    ensures UpTo(v + [c] + rest, c) == |v|
  {
    if v != "" {
      assert (v + [c] + rest)[1..] == v[1..] + [c] + rest;
      UpToFirst(v[1..], c, rest);
    }
  }

  lemma OpenedPlaceholder(v: string, rest: string)
    requires Plain(v)
    ensures var s := Placeholder(v) + rest; Opens(s) && Opened(s) == v && s[|v| + 3..] == rest
  {
    var s := Placeholder(v) + rest;
    assert s[2..] == v + ['}'] + rest;
    UpToFirst(v, '}', rest);
  }

  lemma GuardedPlaceholder(v: string, rest: string, known: set<string>)
    requires Plain(v)
    ensures Guarded(Placeholder(v) + rest, known) <==> Fold(v) in known && Guarded(rest, known)
  {
    hide Opened, Plain;
    OpenedPlaceholder(v, rest);
  }

  lemma GuardedAlone(v: string, known: set<string>)
    requires Plain(v) && Fold(v) in known
    ensures Guarded(Placeholder(v), known)
  {
    GuardedPlaceholder(v, "", known);
    assert Placeholder(v) + "" == Placeholder(v);
  }

  lemma GuardedStep(c: char, rest: string, known: set<string>)
    requires Guarded(rest, known) && !(c == '$' && rest != "" && rest[0] == '{')
    ensures Guarded([c] + rest, known)
  {
    assert ([c] + rest)[1..] == rest;
  }

  lemma {:induction false} GuardedGrows(s: string, small: set<string>, large: set<string>)
    requires Guarded(s, small) && small <= large
    ensures Guarded(s, large)
  {
    hide Opened, Plain;
    if s != "" {
      GuardedGrows(s[if Opens(s) then |Opened(s)| + 3 else 1..], small, large);
    }
  }

  lemma {:induction false} GuardedConcat(a: string, b: string, known: set<string>)
    requires Guarded(a, known) && Guarded(b, known) && !(EndsInDollar(a) && b != "" && b[0] == '{')
    ensures Guarded(a + b, known)
  {
    hide Opened, Plain;
    if a == "" {
      assert a + b == b;
    } else if Opens(a) {
      var v := Opened(a);
      var rest := a[|v| + 3..];
      OpenedText(a);
      GuardedConcat(rest, b, known);
      assert a + b == Placeholder(v) + (rest + b);
      GuardedPlaceholder(v, rest + b, known);
    } else {
      GuardedConcat(a[1..], b, known);
      assert a + b == [a[0]] + (a[1..] + b);
      GuardedStep(a[0], a[1..] + b, known);
    }
  }

  lemma {:induction false} NoDollarGuarded(s: string, known: set<string>)
    requires Free(s, '$') || Free(s, '{')
    ensures Guarded(s, known)
  {
    if s != "" { NoDollarGuarded(s[1..], known); }
  }

  /** Every variable of a guarded text is known. */
  lemma {:induction false} GuardedNames(s: string, known: set<string>)
    requires Guarded(s, known)
    ensures Covered(s, known)
  {
    hide MatchLength, Opened, IsEnvironment;
    if s != "" {
      if Opens(s) {
        var v := Opened(s);
        var rest := s[|v| + 3..];
        GuardedNames(rest, known);
        OpenedText(s);
        OnePlaceholder(v, rest);
      } else {
        GuardedNames(s[1..], known);
        assert MatchLength(s) == 0 by { NoOpening(s); }
      }
    }
  }

  lemma NoOpening(s: string)
    requires !Opens(s)
    ensures MatchLength(s) == 0
  {
  }

  /** `${v}` is read as the variable `v`, or not at all when `v` is no name. */
  lemma OnePlaceholder(v: string, rest: string)
    requires Plain(v)
    ensures forall n :: n in Names(Placeholder(v) + rest) ==> n == v || n in Names(rest)
  {
    hide MatchLength, Names;
    var s := Placeholder(v) + rest;
    if IsName(v) {
      MatchPlaceholder(v, rest);
    } else {
      if MatchLength(s) > 0 {
        MatchText(s);
        var n := s[2..MatchLength(s) - 1];
        NamesArePlain(n);
        OpenedPlaceholder(n, s[MatchLength(s)..]);
        OpenedPlaceholder(v, rest);
        assert false;
      }
      NamesUnmatched(s);
      assert s[1..] == ("{" + v + "}") + rest;
      NamesSkip("{" + v + "}", rest);
    }
  }

  lemma NamesArePlain(n: string)
    requires IsName(n)
    ensures Plain(n)
  {
  }

  // ---- one replacement ----

  /** Filling the holes of one name in a guarded text that does not mention that name as a variable. */
  lemma {:induction false} ReplaceGuarded(s: string, name: string, value: string, known: set<string>)
    requires Guarded(s, known - {Fold(name)}) && Guarded(value, known) && !EndsInDollar(value) && BraceFree(name)
    ensures Guarded(Replace(s, name, value), known)
    decreases |s|
  {
    hide Replace, Opened, HoleAt;
    if s == "" {
      ReplaceEmpty(name, value);
    } else if HoleAt(s, name) {
      FillsHere(s, name, value);
      AfterHole(s, name, known - {Fold(name)});
      var rest := s[|name| + 2..];
      ReplaceGuarded(rest, name, value, known);
      GuardedConcat(value, Replace(rest, name, value), known);
    } else if Opens(s) {
      var v := Opened(s);
      var rest := s[|v| + 3..];
      ReplaceGuarded(rest, name, value, known);
      OpenedText(s);
      ReplaceKeepsPlaceholder(v, rest, name, value);
      GuardedPlaceholder(v, Replace(rest, name, value), known);
    } else {
      KeepsHere(s, name, value);
      ReplaceGuarded(s[1..], name, value, known);
      if s[0] == '$' { NextKept(s[1..], name, value); }
      GuardedStep(s[0], Replace(s[1..], name, value), known);
    }
  }

  lemma NextKept(t: string, name: string, value: string)
    requires t == "" || t[0] != '{'
    ensures var r := Replace(t, name, value); r != "" ==> r[0] != '{'
  {
  }

  /** A hole is brace-free inside, so what follows it in a guarded text is guarded. */
  lemma AfterHole(s: string, name: string, known: set<string>)
    requires HoleAt(s, name) && BraceFree(name) && Guarded(s, known)
    ensures |name| + 2 <= |s| && Guarded(s[|name| + 2..], known)
  {
    hide Fold, FoldChar, Guarded;
    forall i | 1 <= i < |name| + 1 ensures s[i] != '{' {
      assert Fold(s[1..|name| + 1])[i - 1] == Fold(name)[i - 1];
      OpeningBrace(s[i]);
      OpeningBrace(name[i - 1]);
    }
    GuardedDrop(s, |name| + 2, known);
  }

  lemma OpeningBrace(c: char)
    ensures c == '{' <==> FoldChar(c) == '{'
  {
  }

  lemma GuardedCases(s: string, known: set<string>)
    requires Guarded(s, known) && s != ""
    ensures Opens(s) ==> |Opened(s)| + 2 < |s| && Plain(Opened(s)) && Guarded(s[|Opened(s)| + 3..], known)
    ensures !Opens(s) ==> Guarded(s[1..], known)
  {
    hide Opened, Plain;
  }

  lemma PlainFree(v: string)
    requires Plain(v)
    ensures Free("{" + v + "}", '$')
  {
  }

  lemma {:induction false} GuardedDrop(s: string, k: nat, known: set<string>)
    requires k <= |s| && Guarded(s, known) && forall i :: 1 <= i < k ==> s[i] != '{'
    ensures Guarded(s[k..], known)
  {
    hide Guarded, Opened, Plain;
    if k > 0 {
      assert Opens(s) ==> k == 1;
      GuardedCases(s, known);
      if Opens(s) {
        OpenedText(s);
        var v := Opened(s);
        PlainFree(v);
        assert s[1..] == ("{" + v + "}") + s[|v| + 3..];
        NoDollarGuarded("{" + v + "}", known);
        GuardedConcat("{" + v + "}", s[|v| + 3..], known);
      } else {
        GuardedDrop(s[1..], k - 1, known);
        assert s[1..][k - 1..] == s[k..];
      }
    }
  }

  lemma ReplaceKeepsPlaceholder(v: string, rest: string, name: string, value: string)
    requires Plain(v) && BraceFree(name) && Fold(v) != Fold(name)
    ensures Replace(Placeholder(v) + rest, name, value) == Placeholder(v) + Replace(rest, name, value)
  {
    hide Replace;
    ReplaceSkips("$", Hole(v) + rest, name, value);
    ReplaceHole(v, rest, name, value);
    PlaceholderHole(v, rest);
    PlaceholderHole(v, Replace(rest, name, value));
  }

  lemma PlaceholderHole(v: string, rest: string)
    ensures Placeholder(v) + rest == "$" + (Hole(v) + rest)
  {
    assert "${" + v + "}" == "$" + ("{" + v + "}");
  }

  // ---- field by field ----

  function NameKeys(fields: Fields): set<string> { set f | f in fields :: Fold(f.0) }

  /** Each value keeps clear of the placeholders that are still to be filled. */
  predicate Clear(fields: Fields, known: set<string>) {
    fields == [] ||
    (BraceFree(fields[0].0) && Guarded(fields[0].1, known - NameKeys(fields[1..])) && !EndsInDollar(fields[0].1)
     && Clear(fields[1..], known))
  }

  lemma {:induction false} ReplaceAllGuarded(s: string, fields: Fields, known: set<string>)
    requires Clear(fields, known) && Guarded(s, known - NameKeys(fields))
    ensures Guarded(ReplaceAll(s, fields), known)
    decreases |fields|
  {
    hide Replace, Guarded, BraceFree, EndsInDollar;
    if fields == [] {
      assert known - NameKeys(fields) == known;
    } else {
      var later := NameKeys(fields[1..]);
      assert NameKeys(fields) == {Fold(fields[0].0)} + later by {
        assert forall f :: f in fields <==> f == fields[0] || f in fields[1..];
      }
      assert known - NameKeys(fields) == known - later - {Fold(fields[0].0)};
      ReplaceGuarded(s, fields[0].0, fields[0].1, known - later);
      ReplaceAllGuarded(Replace(s, fields[0].0, fields[0].1), fields[1..], known);
    }
  }
}
