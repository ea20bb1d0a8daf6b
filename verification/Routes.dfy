/** Which variables a route mentions: a text read as words and gaps, and the gaps that stand behind a dollar sign. */
module Routes {
  import opened Text
  import opened PathTemplates
  import opened Guards
  import T = Templates

  // ---- reading a text ----

  function Read(s: string): seq<Piece>
    decreases |s|
  {
    if s == "" then []
    else if s[0] == '{' then
      var k := UpTo(s, '}');
      if k == |s| then [Words(s)] else [Gap(s[1..k])] + Read(s[k + 1..])
    else
      var k := UpTo(s, '{');
      [Words(s[..k])] + Read(s[k..])
  }

  lemma ReadWords(s: string)
    requires s != "" && s[0] != '{'
    ensures var k := UpTo(s, '{'); 0 < k <= |s| && Read(s) == [Words(s[..k])] + Read(s[k..])
  {
  }

  lemma ReadGap(s: string)
    requires s != "" && s[0] == '{'
    ensures var k := UpTo(s, '}');
            0 < k <= |s| && Read(s) == if k == |s| then [Words(s)] else [Gap(s[1..k])] + Read(s[k + 1..])
    ensures UpTo(s, '}') < |s| ==> s[UpTo(s, '}')] == '}'
  {
  }

  lemma {:induction false} ReadShow(s: string)
    ensures Show(Read(s)) == s
    decreases |s|
  {
    hide UpTo, Show, ShowPiece, Read;
    if s == "" {
      NothingShown();
      NothingRead();
    } else if s[0] != '{' {
      ReadWords(s);
      var k := UpTo(s, '{');
      ReadShow(s[k..]);
      ShowFirst(Words(s[..k]), Read(s[k..]));
      assert s[..k] + s[k..] == s;
    } else {
      ReadGap(s);
      var k := UpTo(s, '}');
      if k == |s| {
        ShowOne(Words(s));
        ShowWords(s);
      } else {
        ReadShow(s[k + 1..]);
        ShowFirst(Gap(s[1..k]), Read(s[k + 1..]));
        assert Hole(s[1..k]) + s[k + 1..] == s;
      }
    }
  }

  lemma NothingRead()
    ensures Read("") == []
  {
  }

  lemma ShowWords(t: string)
    ensures ShowPiece(Words(t)) == t
  {
  }

  lemma NothingShown()
    ensures Show([]) == ""
  {
  }

  lemma ShowFirst(p: Piece, rest: seq<Piece>)
    ensures Show([p] + rest) == (match p case Words(t) => t case Gap(n) => Hole(n)) + Show(rest)
  {
    assert ([p] + rest)[1..] == rest;
  }

  /** No stray braces: what is between and inside the placeholders holds none. */
  predicate TidyText(s: string) { Tidy(Read(s)) }

  lemma TidyGap(t: string, n: string, rest: string)
    requires BraceFree(t) && BraceFree(n) && TidyText(rest)
    ensures TidyText(t + (Hole(n) + rest))
  {
    hide Read, BraceFree, UpTo, Free;
    var s, tail := t + (Hole(n) + rest), Hole(n) + rest;
    TidyHole(n, rest);
    if t == "" {
      assert s == tail;
    } else {
      TidyWords(t);
      WordsFirst(t, n, rest);
      assert forall p :: p in Read(s) ==> p == Words(t) || p in Read(tail);
    }
  }

  lemma WordsFirst(t: string, n: string, rest: string)
    requires t != "" && Free(t, '{')
    ensures Read(t + (Hole(n) + rest)) == [Words(t)] + Read(Hole(n) + rest)
  {
    hide Read, UpTo;
    var s, tail := t + (Hole(n) + rest), Hole(n) + rest;
    assert s[0] == t[0] != '{';
    assert s == t + ['{'] + ((n + "}") + rest);
    UpToFirst(t, '{', (n + "}") + rest);
    assert s[..|t|] == t && s[|t|..] == tail;
    ReadWords(s);
  }

  lemma TidyHole(n: string, rest: string)
    requires BraceFree(n) && TidyText(rest)
    ensures TidyText(Hole(n) + rest)
  {
    var s := Hole(n) + rest;
    assert s == ("{" + n) + ['}'] + rest;
    OpeningFree(n);
    UpToFirst("{" + n, '}', rest);
    assert s[1..|n| + 1] == n && s[|n| + 2..] == rest;
    assert Read(s) == [Gap(n)] + Read(rest);
    assert forall p :: p in Read(s) ==> p == Gap(n) || p in Read(rest);
  }

  lemma OpeningFree(n: string)
    requires BraceFree(n)
    ensures Free("{" + n, '}')
  {
  }

  lemma TidyAlone(t: string)
    requires BraceFree(t)
    ensures TidyText(t)
  {
    if t != "" {
      var k := UpTo(t, '{');
      assert k == |t| && t[..k] == t && t[k..] == "";
      assert Read(t) == [Words(t)];
    }
  }

  lemma {:induction false} ShownIsTidy(t: string, pieces: seq<Piece>)
    requires BraceFree(t) && Tidy(pieces)
    ensures TidyText(t + Show(pieces))
    decreases |pieces|
  {
    hide Read, BraceFree, TidyText, Show, ShowPiece;
    if pieces == [] {
      NothingShown();
      assert t + "" == t;
      TidyAlone(t);
    } else {
      assert pieces[0] in pieces && forall p :: p in pieces[1..] ==> p in pieces;
      var rest := Show(pieces[1..]);
      ShowFirst(pieces[0], pieces[1..]);
      assert pieces == [pieces[0]] + pieces[1..];
      match pieces[0] {
        case Words(u) =>
          BraceFreeConcat(t, u);
          ShownIsTidy(t + u, pieces[1..]);
          assert t + (u + rest) == (t + u) + rest;
        case Gap(n) =>
          NothingIsBraceFree();
          ShownIsTidy("", pieces[1..]);
          assert "" + rest == rest;
          TidyGap(t, n, rest);
      }
    }
  }

  lemma BraceFreeConcat(a: string, b: string)
    requires BraceFree(a) && BraceFree(b)
    ensures BraceFree(a + b)
  {
  }

  lemma NothingIsBraceFree()
    ensures BraceFree("")
  {
  }

  ghost predicate Shows(pieces: seq<Piece>, s: string) { Tidy(pieces) && Show(pieces) == s }

  /** The reading tells: a text has no stray braces exactly when it is the text of some brace-free words and names. */
  lemma TidyTextExactly(s: string)
    ensures TidyText(s) <==> exists pieces :: Shows(pieces, s)
  {
    hide Read, Show, Tidy;
    ReadShow(s);
    if TidyText(s) { assert Shows(Read(s), s); }
    if pieces :| Shows(pieces, s) {
      NothingIsBraceFree();
      ShownIsTidy("", pieces);
      assert "" + s == s;
    }
  }

  // ---- gaps behind a dollar sign ----

  function Dollar(before: bool): string { if before then "$" else "" }

  /** The variables that a route mentions, given whether a dollar sign stands before it. */
  function DollarNames(pieces: seq<Piece>, before: bool): seq<string> {
    if pieces == [] then []
    else
      match pieces[0]
      case Words(t) => DollarNames(pieces[1..], if t == "" then before else EndsInDollar(t))
      case Gap(n) => (if before && T.IsName(n) then [n] else []) + DollarNames(pieces[1..], false)
  }

  /** Text without an opening brace mentions nothing, unless it ends in the dollar sign of what follows. */
  lemma {:induction false} NamesBehind(t: string, rest: string)
    requires Free(t, '{') && !(EndsInDollar(t) && rest != "" && rest[0] == '{')
    ensures T.Names(t + rest) == T.Names(rest)
  {
    hide T.Names, T.MatchLength;
    if t == "" {
      assert t + rest == rest;
    } else {
      var s := t + rest;
      assert s[1..] == t[1..] + rest;
      assert !Opens(s) by { assert |t| == 1 ==> s[1..] == rest; }
      NoOpening(s);
      T.NamesUnmatched(s);
      NamesBehind(t[1..], rest);
    }
  }

  lemma LoneHole(n: string, rest: string)
    requires BraceFree(n)
    ensures T.Names(Hole(n) + rest) == T.Names(rest)
  {
    hide T.Names, BraceFree;
    assert Hole(n) + rest == "{" + ((n + "}") + rest);
    T.NamesSkip("{", (n + "}") + rest);
    assert Free(n + "}", '{') by { BraceInside(n); }
    NamesBehind(n + "}", rest);
  }

  lemma BraceInside(n: string)
    requires BraceFree(n)
    ensures Free(n + "}", '{')
  {
  }

  lemma DollarHole(n: string, rest: string)
    requires BraceFree(n)
    ensures T.Names("$" + (Hole(n) + rest)) == (if T.IsName(n) then [n] else []) + T.Names(rest)
  {
    hide T.Names, T.MatchLength, BraceFree;
    var s := T.Placeholder(n) + rest;
    PlaceholderHole(n, rest);
    if T.IsName(n) {
      T.MatchPlaceholder(n, rest);
    } else {
      if T.MatchLength(s) > 0 { SameInside(n, rest); }
      T.NamesUnmatched(s);
      assert s[1..] == Hole(n) + rest;
      LoneHole(n, rest);
    }
  }

  /** A match at `${n}` ends at the first closing brace. */
  lemma SameInside(n: string, rest: string)
    requires BraceFree(n) && T.MatchLength(T.Placeholder(n) + rest) > 0
    ensures T.IsName(n)
  {
    hide T.MatchLength;
    var s := T.Placeholder(n) + rest;
    T.MatchText(s);
    var m := s[2..T.MatchLength(s) - 1];
    NamesArePlain(m);
    assert s == T.Placeholder(m) + s[T.MatchLength(s)..];
    assert s[2..] == n + ['}'] + rest;
    assert s[2..] == m + ['}'] + s[T.MatchLength(s)..];
    UpToFirst(n, '}', rest);
    UpToFirst(m, '}', s[T.MatchLength(s)..]);
    assert n == s[2..][..|n|] && m == s[2..][..|m|];
  }

  lemma WordsNames(t: string, before: bool, rest: string)
    requires BraceFree(t) && t != ""
    ensures T.Names(Dollar(before) + (t + rest)) == T.Names(Dollar(EndsInDollar(t)) + rest)
  {
    hide T.Names;
    if EndsInDollar(t) {
      var u := Dollar(before) + t[..|t| - 1];
      assert Dollar(before) + (t + rest) == u + ("$" + rest);
      NamesBehind(u, "$" + rest);
    } else {
      assert Dollar(before) + (t + rest) == (Dollar(before) + t) + rest;
      NamesBehind(Dollar(before) + t, rest);
      assert "" + rest == rest;
    }
  }

  /** Exactly the gaps behind a dollar sign are read as variables, when they are names. */
  lemma {:induction false} ShownNames(pieces: seq<Piece>, before: bool)
    requires Tidy(pieces)
    ensures T.Names(Dollar(before) + Show(pieces)) == DollarNames(pieces, before)
  {
    hide T.Names, T.IsName, BraceFree, EndsInDollar;
    if pieces == [] {
      assert Dollar(before) + "" == Dollar(before);
      if before { T.SingleHasNoNames('$'); } else { T.NoDollarNoNames(""); }
    } else {
      assert pieces[0] in pieces && forall p :: p in pieces[1..] ==> p in pieces;
      var rest := Show(pieces[1..]);
      match pieces[0] {
        case Words(t) =>
          if t == "" {
            assert "" + rest == rest;
            ShownNames(pieces[1..], before);
          } else {
            WordsNames(t, before, rest);
            ShownNames(pieces[1..], EndsInDollar(t));
          }
        case Gap(n) =>
          ShownNames(pieces[1..], false);
          assert "" + rest == rest && "" + (Hole(n) + rest) == Hole(n) + rest;
          if before { DollarHole(n, rest); } else { LoneHole(n, rest); }
      }
    }
  }

  /** Piece `i` is a placeholder of the pattern's form, and the text before it ends in a dollar sign. */
  predicate Behind(pieces: seq<Piece>, before: bool, i: nat) {
    i < |pieces| && pieces[i].Gap? && T.IsName(pieces[i].name) && EndsInDollar(Dollar(before) + Show(pieces[..i]))
  }

  lemma {:induction false} DollarNamesAre(pieces: seq<Piece>, before: bool, n: string)
    ensures n in DollarNames(pieces, before) <==> exists i: nat :: Behind(pieces, before, i) && pieces[i].name == n
  {
    hide T.IsName, EndsInDollar;
    if pieces != [] {
      var after := DollarAfter(pieces[0], before);
      DollarNamesAre(pieces[1..], after, n);
      assert EndsInDollar(Dollar(before) + Show(pieces[..0])) == before by { NothingBefore(pieces, before); }
      forall i: nat ensures Behind(pieces[1..], after, i) == Behind(pieces, before, i + 1) { BehindNext(pieces, before, i); }
      if i: nat :| Behind(pieces[1..], after, i) && pieces[1..][i].name == n {
        assert Behind(pieces, before, i + 1);
      }
      if i: nat :| Behind(pieces, before, i) && pieces[i].name == n {
        if i > 0 { assert Behind(pieces[1..], after, i - 1); }
      }
    }
  }

  lemma NothingBefore(pieces: seq<Piece>, before: bool)
    ensures EndsInDollar(Dollar(before) + Show(pieces[..0])) == before
  {
    assert pieces[..0] == [];
  }

  /** A dollar sign stands before what follows the piece. */
  function DollarAfter(p: Piece, before: bool): bool {
    match p case Words(t) => (if t == "" then before else EndsInDollar(t)) case Gap(_) => false
  }

  lemma DollarAfterIs(p: Piece, before: bool)
    ensures EndsInDollar(Dollar(before) + ShowPiece(p)) == DollarAfter(p, before)
    ensures EndsInDollar(Dollar(before)) == before
  {
  }

  lemma BehindNext(pieces: seq<Piece>, before: bool, i: nat)
    requires pieces != []
    ensures Behind(pieces[1..], DollarAfter(pieces[0], before), i) == Behind(pieces, before, i + 1)
  {
    hide T.IsName, Show, EndsInDollar, Dollar, ShowPiece, DollarAfter;
    if i < |pieces| - 1 {
      var tail, after := pieces[1..][..i], DollarAfter(pieces[0], before);
      assert pieces[..i + 1] == [pieces[0]] + tail;
      ShowConcat([pieces[0]], tail);
      ShowOne(pieces[0]);
      Associate(Dollar(before), ShowPiece(pieces[0]), Show(tail));
      LastOf(Dollar(before) + ShowPiece(pieces[0]), Show(tail));
      LastOf(Dollar(after), Show(tail));
      DollarAfterIs(pieces[0], before);
      DollarAfterIs(pieces[0], after);
      assert pieces[1..][i] == pieces[i + 1];
    }
  }

  lemma LastOf(a: string, b: string)
    ensures EndsInDollar(a + b) == if b == "" then EndsInDollar(a) else EndsInDollar(b)
  {
  }

  // ---- filled routes ----

  function Fillings(fields: Fields): (r: seq<Filling>)
    ensures |r| == |fields| && forall i :: 0 <= i < |r| ==> r[i] == Filling(fields[i].0, Read(fields[i].1))
  {
    if fields == [] then [] else [Filling(fields[0].0, Read(fields[0].1))] + Fillings(fields[1..])
  }

  predicate TidyFields(fields: Fields) { forall f :: f in fields ==> BraceFree(f.0) && TidyText(f.1) }

  /** A route, its field names and the texts put into it have no stray braces. */
  predicate TidyRoute(path: string, fields: Fields) { TidyText(path) && TidyFields(fields) }

  lemma {:induction false} FieldsOfFillings(fields: Fields)
    ensures FieldsOf(Fillings(fields)) == fields
  {
    hide Read, Show;
    if fields != [] {
      FieldsOfFillings(fields[1..]);
      ReadShow(fields[0].1);
      assert Fillings(fields)[1..] == Fillings(fields[1..]);
      assert fields == [fields[0]] + fields[1..];
    }
  }

  lemma FillingsTidy(fields: Fields)
    requires TidyFields(fields)
    ensures TidyFillings(Fillings(fields))
  {
    hide Read, BraceFree;
    var fillings := Fillings(fields);
    forall f | f in fillings ensures BraceFree(f.name) && Tidy(f.value) {
      var i :| 0 <= i < |fillings| && fillings[i] == f;
      assert fields[i] in fields;
    }
  }

  /** The filled route, piece by piece. */
  function Filled(path: string, fields: Fields): seq<Piece> { FillEach(Read(path), Fillings(fields)) }

  /** The compiled route of a tidy one mentions exactly the gaps behind a dollar sign in the filled route. */
  lemma FilledNames(path: string, fields: Fields)
    requires TidyRoute(path, fields)
    ensures ReplaceAll(path, fields) == Show(Filled(path, fields))
    ensures T.Names(ReplaceAll(path, fields)) == DollarNames(Filled(path, fields), false)
  {
    hide Read, Show, Fillings, FillEach, ReplaceAll, T.Names, DollarNames, TidyFillings, TidyFields;
    ReadShow(path);
    FieldsOfFillings(fields);
    FillingsTidy(fields);
    ReplaceAllFillsEach(Read(path), Fillings(fields));
    ShownNames(Filled(path, fields), false);
    assert "" + Show(Filled(path, fields)) == Show(Filled(path, fields));
  }

  lemma {:induction false} ValueTidy(n: string, fillings: seq<Filling>)
    requires BraceFree(n) && TidyFillings(fillings)
    ensures Tidy(Value(n, fillings))
  {
    hide BraceFree, Fold;
    if fillings != [] {
      assert fillings[0] in fillings && forall f :: f in fillings[1..] ==> f in fillings;
      ValueTidy(n, fillings[1..]);
    }
  }

  lemma {:induction false} FillAllTidy(pieces: seq<Piece>, fillings: seq<Filling>)
    requires Tidy(pieces) && TidyFillings(fillings)
    ensures Tidy(Fill(pieces, fillings))
  {
    hide BraceFree, TidyFillings, Value;
    if pieces != [] {
      assert pieces[0] in pieces && forall p :: p in pieces[1..] ==> p in pieces;
      FillAllTidy(pieces[1..], fillings);
      if pieces[0].Gap? { ValueTidy(pieces[0].name, fillings); }
      assert forall p :: p in Fill(pieces, fillings) ==> p in FillPiece(pieces[0], fillings) || p in Fill(pieces[1..], fillings);
    }
  }

  /** Some placeholder of that name stands behind a dollar sign. */
  ghost predicate Mentions(pieces: seq<Piece>, n: string) { exists i: nat :: Behind(pieces, false, i) && pieces[i].name == n }

  /** Main result: the compiled route of a tidy one mentions a variable exactly when the variable's placeholder stands
      behind a dollar sign in the filled route; and where no field is overwritten by a later one, the route filled
      at once may be asked. */
  lemma FilledMentions(path: string, fields: Fields, n: string)
    requires TidyRoute(path, fields)
    ensures n in T.Names(ReplaceAll(path, fields)) <==> Mentions(Filled(path, fields), n)
    ensures AllStand(Fillings(fields)) ==>
              (n in T.Names(ReplaceAll(path, fields)) <==> Mentions(Fill(Read(path), Fillings(fields)), n))
  {
    hide Read, Show, Fillings, Filled, Fill, ReplaceAll, T.Names, DollarNames, TidyFillings, TidyFields, AllStand, Behind, Tidy;
    FilledNames(path, fields);
    DollarNamesAre(Filled(path, fields), false, n);
    if AllStand(Fillings(fields)) {
      var pieces := Fill(Read(path), Fillings(fields));
      ReadShow(path);
      FieldsOfFillings(fields);
      FillingsTidy(fields);
      ReplaceAllIsFillExactly(Fillings(fields));
      FillAllTidy(Read(path), Fillings(fields));
      ShownNames(pieces, false);
      assert "" + Show(pieces) == Show(pieces);
      DollarNamesAre(pieces, false, n);
    }
  }
}
