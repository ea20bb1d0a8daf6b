/** How the compiler fills a route: one case-insensitive `Replace` per path field, in field order. */
module PathTemplates {
  import opened Text

  function Hole(name: string): string { "{" + name + "}" }

  /** The text starts with `{name}`, ignoring case. */
  predicate HoleAt(s: string, name: string) {
    |s| >= |name| + 2 && s[0] == '{' && s[|name| + 1] == '}' && Fold(s[1..|name| + 1]) == Fold(name)
  }

  /** `string.Replace("{name}", value, OrdinalIgnoreCase)`. */
  function Replace(s: string, name: string, value: string): string {
    if s == "" then ""
    else if HoleAt(s, name) then value + Replace(s[|name| + 2..], name, value)
    else [s[0]] + Replace(s[1..], name, value)
  }

  type Fields = seq<(string, string)>

  function ReplaceAll(s: string, fields: Fields): string
    decreases |fields|
  {
    if fields == [] then s else ReplaceAll(Replace(s, fields[0].0, fields[0].1), fields[1..])
  }

  predicate BraceFree(s: string) { Free(s, '{') && Free(s, '}') }

  /** Text before the next opening brace is untouched. */
  lemma {:induction false} ReplaceSkips(t: string, rest: string, name: string, value: string)
    requires Free(t, '{')
    ensures Replace(t + rest, name, value) == t + Replace(rest, name, value)
  {
    hide Replace;
    if t == "" {
      assert t + rest == rest;
    } else {
      assert (t + rest)[0] == t[0] && (t + rest)[1..] == t[1..] + rest;
      KeepsHere(t + rest, name, value);
      ReplaceSkips(t[1..], rest, name, value);
      assert [t[0]] + (t[1..] + Replace(rest, name, value)) == t + Replace(rest, name, value);
    }
  }

  /** A hole is filled when its name is the field's, ignoring case, and kept otherwise. */
  lemma ReplaceHole(n: string, rest: string, name: string, value: string)
    requires BraceFree(n) && BraceFree(name)
    ensures Replace(Hole(n) + rest, name, value) ==
            (if Fold(n) == Fold(name) then value else Hole(n)) + Replace(rest, name, value)
  {
    hide Replace;
    var s := Hole(n) + rest;
    if Fold(n) == Fold(name) {
      assert |n| == |Fold(n)| == |Fold(name)| == |name|;
      assert s[1..|name| + 1] == n && s[|name| + 2..] == rest;
      FillsHere(s, name, value);
    } else {
      if HoleAt(s, name) { SameHole(n, rest, name); }
      KeepsHere(s, name, value);
      assert s[1..] == (n + "}") + rest;
      ReplaceSkips(n + "}", rest, name, value);
      assert Hole(n) == "{" + (n + "}");
    }
  }

  lemma FillsHere(s: string, name: string, value: string)
    requires HoleAt(s, name)
    ensures Replace(s, name, value) == value + Replace(s[|name| + 2..], name, value)
  {
  }

  lemma KeepsHere(s: string, name: string, value: string)
    requires s != "" && !HoleAt(s, name)
    ensures Replace(s, name, value) == [s[0]] + Replace(s[1..], name, value)
  {
  }

  /** Both closing braces are the first one after the opening brace. */
  lemma SameHole(n: string, rest: string, name: string)
    requires BraceFree(n) && BraceFree(name) && HoleAt(Hole(n) + rest, name)
    ensures Fold(n) == Fold(name)
  {
    hide Fold, Free;
    var s, k := Hole(n) + rest, |name|;
    var inside := s[1..k + 1];
    assert |inside| == k && s[k + 1] == '}';
    FirstBrace(n, rest, k);
    if |n| < k {
      assert inside[|n|] == '}';
      FoldedBrace(inside, name, |n|);
    } else {
      assert inside == n;
    }
  }

  lemma FirstBrace(n: string, rest: string, k: nat)
    requires Free(n, '}') && k + 1 < |Hole(n) + rest| && (Hole(n) + rest)[k + 1] == '}'
    ensures |n| <= k
  {
  }

  lemma FoldedBrace(s: string, t: string, i: nat)
    requires Fold(s) == Fold(t) && i < |s| && s[i] == '}'
    ensures i < |t| && !Free(t, '}')
  {
    assert |s| == |Fold(s)| == |Fold(t)| == |t|;
    assert Fold(s)[i] == FoldChar(s[i]) && Fold(t)[i] == FoldChar(t[i]);
    assert t[i] == '}';
  }

  // ---- simultaneous substitution ----

  datatype Piece = Words(text: string) | Gap(name: string)

  function Inside(p: Piece): string { match p case Words(t) => t case Gap(n) => n }

  function ShowPiece(p: Piece): string { match p case Words(t) => t case Gap(n) => Hole(n) }

  /** A route without stray braces. */
  predicate Tidy(pieces: seq<Piece>) { forall p :: p in pieces ==> BraceFree(Inside(p)) }

  function Show(pieces: seq<Piece>): string {
    if pieces == [] then ""
    else ShowPiece(pieces[0]) + Show(pieces[1..])
  }

  datatype Filling = Filling(name: string, value: seq<Piece>)

  /** The first filling of that name. */
  function Value(n: string, fillings: seq<Filling>): seq<Piece> {
    if fillings == [] then [Gap(n)]
    else if Fold(fillings[0].name) == Fold(n) then fillings[0].value
    else Value(n, fillings[1..])
  }

  /** Every gap is filled at once; what is filled in is not read again. */
  function Fill(pieces: seq<Piece>, fillings: seq<Filling>): seq<Piece> {
    if pieces == [] then [] else FillPiece(pieces[0], fillings) + Fill(pieces[1..], fillings)
  }

  function FillPiece(p: Piece, fillings: seq<Filling>): seq<Piece> {
    match p case Words(_) => [p] case Gap(n) => Value(n, fillings)
  }

  function FieldsOf(fillings: seq<Filling>): Fields {
    if fillings == [] then [] else [(fillings[0].name, Show(fillings[0].value))] + FieldsOf(fillings[1..])
  }

  predicate Named(fillings: seq<Filling>, n: string) { exists f :: f in fillings && Fold(f.name) == Fold(n) }

  /** No value contains the placeholder of a field that is processed later. */
  predicate Independent(fillings: seq<Filling>) {
    fillings == [] ||
    ((forall p :: p in fillings[0].value && p.Gap? ==> !Named(fillings[1..], p.name)) && Independent(fillings[1..]))
  }

  predicate TidyFillings(fillings: seq<Filling>) {
    forall f :: f in fillings ==> BraceFree(f.name) && Tidy(f.value)
  }

  lemma Associate<T>(a: seq<T>, b: seq<T>, c: seq<T>)
    ensures a + (b + c) == (a + b) + c
  {
  }

  lemma {:induction false} ShowConcat(a: seq<Piece>, b: seq<Piece>)
    ensures Show(a + b) == Show(a) + Show(b)
  {
    hide ShowPiece;
    if a == [] {
      assert a + b == b;
    } else {
      ShowConcat(a[1..], b);
      assert (a + b)[0] == a[0] && (a + b)[1..] == a[1..] + b;
      Associate(ShowPiece(a[0]), Show(a[1..]), Show(b));
    }
  }

  lemma {:induction false} FillConcat(a: seq<Piece>, b: seq<Piece>, fillings: seq<Filling>)
    ensures Fill(a + b, fillings) == Fill(a, fillings) + Fill(b, fillings)
  {
    hide FillPiece;
    if a == [] {
      assert a + b == b;
    } else {
      FillConcat(a[1..], b, fillings);
      assert (a + b)[0] == a[0] && (a + b)[1..] == a[1..] + b;
      Associate(FillPiece(a[0], fillings), Fill(a[1..], fillings), Fill(b, fillings));
    }
  }

  /** One `Replace` on a tidy route fills the gaps of that name. */
  lemma {:induction false} ReplaceFills(pieces: seq<Piece>, filling: Filling)
    requires Tidy(pieces) && BraceFree(filling.name)
    ensures Replace(Show(pieces), filling.name, Show(filling.value)) == Show(Fill(pieces, [filling]))
  {
    hide Replace, HoleAt, BraceFree;
    var name, value := filling.name, Show(filling.value);
    if pieces == [] {
      ReplaceEmpty(name, value);
    } else {
      var rest := Show(pieces[1..]);
      assert pieces[0] in pieces && forall p :: p in pieces[1..] ==> p in pieces;
      ReplaceFills(pieces[1..], filling);
      var after := Fill(pieces[1..], [filling]);
      match pieces[0] {
        case Words(t) =>
          TidyWords(t);
          ReplaceSkips(t, rest, name, value);
          ShowConcat([pieces[0]], after);
          ShowOne(pieces[0]);
        case Gap(n) =>
          ReplaceHole(n, rest, name, value);
          ShowConcat(Value(n, [filling]), after);
          ShowOne(pieces[0]);
          ValueOne(n, filling);
          assert Show(Value(n, [filling])) == if Fold(n) == Fold(name) then value else Hole(n);
      }
    }
  }

  lemma TidyWords(t: string)
    requires BraceFree(t)
    ensures Free(t, '{')
  {
  }

  lemma ReplaceEmpty(name: string, value: string)
    ensures Replace("", name, value) == ""
  {
  }

  lemma ShowOne(p: Piece)
    ensures Show([p]) == ShowPiece(p)
  {
    assert [p][1..] == [];
  }

  lemma ValueOne(n: string, filling: Filling)
    ensures Value(n, [filling]) == if Fold(filling.name) == Fold(n) then filling.value else [Gap(n)]
  {
    assert [filling][1..] == [];
  }

  lemma {:induction false} FillTidy(pieces: seq<Piece>, filling: Filling)
    requires Tidy(pieces) && Tidy(filling.value)
    ensures Tidy(Fill(pieces, [filling]))
  {
    hide BraceFree;
    if pieces != [] {
      assert pieces[0] in pieces && forall p :: p in pieces[1..] ==> p in pieces;
      FillTidy(pieces[1..], filling);
      if pieces[0].Gap? { ValueOne(pieces[0].name, filling); }
      assert BraceFree(Inside(pieces[0]));
      assert forall p :: p in FillPiece(pieces[0], [filling]) ==> p in filling.value || p == pieces[0];
    }
  }

  lemma {:induction false} Unmentioned(n: string, fillings: seq<Filling>)
    requires !Named(fillings, n)
    ensures Value(n, fillings) == [Gap(n)]
  {
    if fillings != [] {
      assert fillings[0] in fillings && forall f :: f in fillings[1..] ==> f in fillings;
      Unmentioned(n, fillings[1..]);
    }
  }

  lemma {:induction false} FillNothing(pieces: seq<Piece>, fillings: seq<Filling>)
    requires forall p :: p in pieces && p.Gap? ==> !Named(fillings, p.name)
    ensures Fill(pieces, fillings) == pieces
  {
    if pieces != [] {
      assert pieces[0] in pieces && forall p :: p in pieces[1..] ==> p in pieces;
      FillNothing(pieces[1..], fillings);
      if pieces[0].Gap? { Unmentioned(pieces[0].name, fillings); }
    }
  }

  lemma FillSingle(n: string, fillings: seq<Filling>)
    ensures Fill([Gap(n)], fillings) == Value(n, fillings)
  {
    assert [Gap(n)][1..] == [];
  }

  // ---- field by field ----

  /** One field after the other; what a field puts in is read again by the fields after it. */
  function FillEach(pieces: seq<Piece>, fillings: seq<Filling>): seq<Piece>
    decreases |fillings|
  {
    if fillings == [] then pieces else FillEach(Fill(pieces, [fillings[0]]), fillings[1..])
  }

  /** The compiler's replacements on a route without stray braces. */
  lemma {:induction false} ReplaceAllFillsEach(pieces: seq<Piece>, fillings: seq<Filling>)
    requires Tidy(pieces) && TidyFillings(fillings)
    ensures ReplaceAll(Show(pieces), FieldsOf(fillings)) == Show(FillEach(pieces, fillings))
    ensures Tidy(FillEach(pieces, fillings))
    decreases |fillings|
  {
    hide Replace, Tidy, Fill;
    if fillings != [] {
      var first, rest := fillings[0], fillings[1..];
      assert first in fillings && forall f :: f in rest ==> f in fillings;
      ReplaceFills(pieces, first);
      FillTidy(pieces, first);
      ReplaceAllFillsEach(Fill(pieces, [first]), rest);
      assert FieldsOf(fillings)[1..] == FieldsOf(rest);
    }
  }

  lemma {:induction false} FillEachConcat(a: seq<Piece>, b: seq<Piece>, fillings: seq<Filling>)
    ensures FillEach(a + b, fillings) == FillEach(a, fillings) + FillEach(b, fillings)
    decreases |fillings|
  {
    hide Fill;
    if fillings != [] {
      FillConcat(a, b, [fillings[0]]);
      FillEachConcat(Fill(a, [fillings[0]]), Fill(b, [fillings[0]]), fillings[1..]);
    }
  }

  lemma {:induction false} FillEachWords(t: string, fillings: seq<Filling>)
    ensures FillEach([Words(t)], fillings) == [Words(t)]
    decreases |fillings|
  {
    hide Fill, Named;
    if fillings != [] {
      FillNothing([Words(t)], [fillings[0]]);
      FillEachWords(t, fillings[1..]);
    }
  }

  lemma {:induction false} FillEachNothing(pieces: seq<Piece>, fillings: seq<Filling>)
    requires forall p :: p in pieces && p.Gap? ==> !Named(fillings, p.name)
    ensures FillEach(pieces, fillings) == pieces
    decreases |fillings|
  {
    hide Fill;
    if fillings != [] {
      assert fillings[0] in fillings && forall f :: f in fillings[1..] ==> f in fillings;
      FillNothing(pieces, [fillings[0]]);
      FillEachNothing(pieces, fillings[1..]);
    }
  }

  /** The first filling of its name. */
  predicate FirstOfName(fillings: seq<Filling>, i: nat) {
    i < |fillings| && forall j :: 0 <= j < i ==> Fold(fillings[j].name) != Fold(fillings[i].name)
  }

  /** A gap takes the first filling of its name, which the later fields then read. */
  lemma {:induction false} GapTakesFirst(n: string, fillings: seq<Filling>, i: nat)
    requires FirstOfName(fillings, i) && Fold(n) == Fold(fillings[i].name)
    ensures FillEach([Gap(n)], fillings) == FillEach(fillings[i].value, fillings[i + 1..])
    ensures Value(n, fillings) == fillings[i].value
    decreases |fillings|
  {
    hide Fill;
    FillSingle(n, [fillings[0]]);
    ValueOne(n, fillings[0]);
    if i > 0 {
      var rest := fillings[1..];
      assert forall j :: 0 <= j < |rest| ==> rest[j] == fillings[j + 1];
      GapTakesFirst(n, rest, i - 1);
      assert rest[i..] == fillings[i + 1..];
    }
  }

  lemma {:induction false} FirstNamed(n: string, fillings: seq<Filling>) returns (i: nat)
    requires Named(fillings, n)
    ensures FirstOfName(fillings, i) && Fold(fillings[i].name) == Fold(n)
  {
    hide Fold;
    i := 0;
    if Fold(fillings[0].name) != Fold(n) {
      var rest := fillings[1..];
      assert Named(rest, n);
      var k := FirstNamed(n, rest);
      assert forall j :: 0 <= j < |rest| ==> rest[j] == fillings[j + 1];
      i := k + 1;
    }
  }

  // ---- when the two agree ----

  /** The replacements of the later fields leave the text of field `i` alone. */
  predicate Stands(fillings: seq<Filling>, i: nat)
    requires i < |fillings|
  {
    ReplaceAll(Show(fillings[i].value), FieldsOf(fillings[i + 1..])) == Show(fillings[i].value)
  }

  predicate AllStand(fillings: seq<Filling>) {
    forall i :: 0 <= i < |fillings| && FirstOfName(fillings, i) ==> Stands(fillings, i)
  }

  /** Field by field, every route comes out as the simultaneous substitution says. */
  ghost predicate FillsEveryRoute(fillings: seq<Filling>) {
    forall pieces :: Tidy(pieces) ==> ReplaceAll(Show(pieces), FieldsOf(fillings)) == Show(Fill(pieces, fillings))
  }

  lemma GapAgrees(n: string, fillings: seq<Filling>)
    requires TidyFillings(fillings) && AllStand(fillings)
    ensures Show(FillEach([Gap(n)], fillings)) == Show(Value(n, fillings))
  {
    hide Show, FieldsOf, ReplaceAll, Tidy, BraceFree, Fill;
    if Named(fillings, n) {
      var i := FirstNamed(n, fillings);
      GapTakesFirst(n, fillings, i);
      assert Stands(fillings, i);
      assert fillings[i] in fillings && forall f :: f in fillings[i + 1..] ==> f in fillings;
      ReplaceAllFillsEach(fillings[i].value, fillings[i + 1..]);
    } else {
      FillEachNothing([Gap(n)], fillings);
      Unmentioned(n, fillings);
    }
  }

  lemma {:induction false} RouteAgrees(pieces: seq<Piece>, fillings: seq<Filling>)
    requires TidyFillings(fillings) && AllStand(fillings)
    ensures Show(FillEach(pieces, fillings)) == Show(Fill(pieces, fillings))
  {
    hide FillEach, Show, TidyFillings, AllStand, Value;
    if pieces == [] {
      FillEachNothing([], fillings);
    } else {
      RouteAgrees(pieces[1..], fillings);
      var head, rest := FillEach([pieces[0]], fillings), FillEach(pieces[1..], fillings);
      assert [pieces[0]] + pieces[1..] == pieces;
      FillEachConcat([pieces[0]], pieces[1..], fillings);
      ShowConcat(head, rest);
      ShowConcat(FillPiece(pieces[0], fillings), Fill(pieces[1..], fillings));
      match pieces[0] {
        case Words(t) => FillEachWords(t, fillings);
        case Gap(n) => GapAgrees(n, fillings);
      }
    }
  }

  /** The route `{name}` of a field already tells. */
  lemma FieldStands(fillings: seq<Filling>, i: nat)
    requires TidyFillings(fillings) && FillsEveryRoute(fillings) && FirstOfName(fillings, i)
    ensures Stands(fillings, i)
  {
    hide Show, FieldsOf, ReplaceAll, Fill, Value, BraceFree;
    var route := [Gap(fillings[i].name)];
    assert fillings[i] in fillings && forall f :: f in fillings[i + 1..] ==> f in fillings;
    assert Tidy(route);
    ReplaceAllFillsEach(route, fillings);
    GapTakesFirst(fillings[i].name, fillings, i);
    FillSingle(fillings[i].name, fillings);
    ReplaceAllFillsEach(fillings[i].value, fillings[i + 1..]);
  }

  /** Main result: replacing field by field is the simultaneous substitution on every route without stray braces
      exactly when the text of each field, the first of its name, is left alone by the fields after it. */
  lemma ReplaceAllIsFillExactly(fillings: seq<Filling>)
    requires TidyFillings(fillings)
    ensures FillsEveryRoute(fillings) <==> AllStand(fillings)
  {
    hide TidyFillings, FirstOfName, Stands, Tidy, Fill, Show, FieldsOf, ReplaceAll;
    if AllStand(fillings) {
      forall pieces | Tidy(pieces) ensures ReplaceAll(Show(pieces), FieldsOf(fillings)) == Show(Fill(pieces, fillings)) {
        ReplaceAllFillsEach(pieces, fillings);
        RouteAgrees(pieces, fillings);
      }
    }
    if FillsEveryRoute(fillings) {
      forall i | 0 <= i < |fillings| && FirstOfName(fillings, i) ensures Stands(fillings, i) { FieldStands(fillings, i); }
    }
  }

  lemma {:induction false} IndependentAt(fillings: seq<Filling>, i: nat)
    requires Independent(fillings) && i < |fillings|
    ensures forall p :: p in fillings[i].value && p.Gap? ==> !Named(fillings[i + 1..], p.name)
  {
    hide Named;
    if i > 0 {
      IndependentAt(fillings[1..], i - 1);
      assert fillings[1..][i..] == fillings[i + 1..];
    }
  }

  /** It is enough that no value contains the placeholder of a later field. */
  lemma ReplaceAllIsFill(pieces: seq<Piece>, fillings: seq<Filling>)
    requires Tidy(pieces) && TidyFillings(fillings) && Independent(fillings)
    ensures ReplaceAll(Show(pieces), FieldsOf(fillings)) == Show(Fill(pieces, fillings))
  {
    hide Tidy, Show, FieldsOf, ReplaceAll, Fill, FillEach, Named, Independent, BraceFree, FirstOfName;
    forall i | 0 <= i < |fillings| && FirstOfName(fillings, i) ensures Stands(fillings, i) {
      assert fillings[i] in fillings && forall f :: f in fillings[i + 1..] ==> f in fillings;
      IndependentAt(fillings, i);
      FillEachNothing(fillings[i].value, fillings[i + 1..]);
      ReplaceAllFillsEach(fillings[i].value, fillings[i + 1..]);
    }
    ReplaceAllIsFillExactly(fillings);
    assert FillsEveryRoute(fillings);
  }

  /** The condition fails for a variable bound into the route before a path field of its name: the text `${v}`
      contains the placeholder `{v}`, and the later field overwrites it. */
  lemma BoundNameIsOverwritten(a: string, v: string, text: string)
    requires BraceFree(a) && BraceFree(v) && BraceFree(text) && text != Hole(v)
    ensures var fillings := [Filling(a, [Words("$"), Gap(v)]), Filling(v, [Words(text)])];
            !Stands(fillings, 0) && ReplaceAll("/" + Hole(a), FieldsOf(fillings)) == "/$" + text
  {
    hide Replace, Show, FieldsOf;
    var value := [Words("$"), Gap(v)];
    var first, second := Filling(a, value), Filling(v, [Words(text)]);
    ShowOne(Words(text));
    ShowTwo("$", v);
    TwoFields(first, second);
    assert [first, second][1..] == [second] && FieldsOf([second]) == [(v, text)] by { OneField(second); }
    ReplaceInTwo("$", v, text);
    ReplaceInTwo("/", a, "$" + Hole(v));
    ReplaceInTwo("/$", v, text);
    assert "/" + ("$" + Hole(v)) == "/$" + Hole(v);
    TwoReplacements("/" + Hole(a), (a, "$" + Hole(v)), (v, text));
    OneReplacement("$" + Hole(v), v, text);
    assert ("$" + text)[1..] == text && ("$" + Hole(v))[1..] == Hole(v);
  }

  lemma TwoFields(first: Filling, second: Filling)
    ensures FieldsOf([first, second]) == [(first.name, Show(first.value)), (second.name, Show(second.value))]
  {
    hide Show;
    assert [first, second][1..] == [second] && [second][1..] == [];
    OneField(second);
  }

  lemma OneField(f: Filling)
    ensures FieldsOf([f]) == [(f.name, Show(f.value))]
  {
    hide Show;
    assert [f][1..] == [];
  }

  lemma OneReplacement(s: string, name: string, value: string)
    ensures ReplaceAll(s, [(name, value)]) == Replace(s, name, value)
  {
    hide Replace;
    assert [(name, value)][1..] == [];
  }

  lemma TwoReplacements(s: string, first: (string, string), second: (string, string))
    ensures ReplaceAll(s, [first, second]) == Replace(Replace(s, first.0, first.1), second.0, second.1)
  {
    hide Replace;
    assert [first, second][1..] == [second];
    OneReplacement(Replace(s, first.0, first.1), second.0, second.1);
  }

  lemma ReplaceInTwo(before: string, name: string, value: string)
    requires Free(before, '{') && BraceFree(name)
    ensures Replace(before + Hole(name), name, value) == before + value
  {
    hide Replace;
    ReplaceSkips(before, Hole(name), name, value);
    ReplaceHole(name, "", name, value);
    ReplaceEmpty(name, value);
    assert Hole(name) + "" == Hole(name);
  }

  lemma ShowTwo(t: string, n: string)
    ensures Show([Words(t), Gap(n)]) == t + Hole(n)
  {
    ShowConcat([Words(t)], [Gap(n)]);
    ShowOne(Words(t));
    ShowOne(Gap(n));
    assert [Words(t)] + [Gap(n)] == [Words(t), Gap(n)];
  }
}
