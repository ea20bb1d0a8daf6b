/** What the texts of a compiled request say when they are read again: the body as a JSON object, the address as a route
    with a query. */
module CompiledTexts {
  import opened Optional
  import opened Text
  import opened Workspaces
  import opened PathTemplates
  import opened Compiler
  import D = Dictionaries
  import S = Steps

  // ---- a reader of flat JSON objects of strings ----

  /** The end of a string from inside its quotes. */
  function StringEnd(s: string): (n: nat)
    ensures n <= |s|
  {
    if s == "" || s[0] == '"' then 0
    else if s[0] == '\\' && |s| >= 2 then 2 + StringEnd(s[2..])
    else 1 + StringEnd(s[1..])
  }

  /** A quoted string, decoded, and what stands behind it. */
  function ReadString(s: string): (r: Option<(string, string)>)
    ensures r.Some? ==> |r.value.1| < |s|
  {
    if s == "" || s[0] != '"' then None
    else
      var n := StringEnd(s[1..]);
      if 1 + n >= |s| then None else Some((S.Unescape(s[1..1 + n]), s[n + 2..]))
  }

  function ReadMembers(s: string): Option<Fields>
    decreases |s|
  {
    var key := ReadString(s);
    if key.None? || key.value.1 == "" || key.value.1[0] != ':' then None
    else
      var value := ReadString(key.value.1[1..]);
      if value.None? then None
      else if value.value.1 == "}" then Some([(key.value.0, value.value.0)])
      else if value.value.1 == "" || value.value.1[0] != ',' then None
      else
        var rest := ReadMembers(value.value.1[1..]);
        if rest.None? then None else Some([(key.value.0, value.value.0)] + rest.value)
  }

  function ReadObject(s: string): Option<Fields> {
    if s == "{}" then Some([]) else if s == "" || s[0] != '{' then None else ReadMembers(s[1..])
  }

  // ---- escaping and reading ----

  /** Every character fits one UTF-16 code unit. */
  predicate Plane(s: string) { forall i :: 0 <= i < |s| ==> s[i] as int < 0x1_0000 }

  lemma HexReads(d: nat)
    requires d < 16
    ensures S.IsHex(Hex(d)) && S.HexValue(Hex(d)) == d && Safe(Hex(d))
  {
  }

  lemma HexExactly(d: nat)
    requires d < 16
    ensures Hex(d) == "0123456789ABCDEF"[d]
  {
  }

  lemma FourDigits(code: nat)
    requires code < 0x1_0000
    ensures 4096 * (code / 4096) + 256 * (code / 256 % 16) + 16 * (code / 16 % 16) + code % 16 == code
    ensures code / 4096 < 16
  {
    var a := code / 16;
    var b := a / 16;
    assert code / 256 == b && code / 4096 == b / 16;
    assert code == 16 * a + code % 16 && a == 16 * b + a % 16 && b == 16 * (b / 16) + b % 16;
  }

  lemma UnitReads(code: nat, rest: string)
    requires code < 0x1_0000 && !(0xD800 <= code < 0xE000)
    ensures S.Unescape(Unit(code) + rest) == [code as char] + S.Unescape(rest)
    ensures StringEnd(Unit(code) + rest) == 6 + StringEnd(rest)
  {
    var s := Unit(code) + rest;
    FourDigits(code);
    HexReads(code / 4096);
    HexReads(code / 256 % 16);
    HexReads(code / 16 % 16);
    HexReads(code % 16);
    assert s[6..] == rest;
    UnitEnds(s, rest);
  }

  lemma UnitEnds(s: string, rest: string)
    requires |s| >= 6 && s[0] == '\\' && Safe(s[2]) && Safe(s[3]) && Safe(s[4]) && Safe(s[5]) && s[6..] == rest
    ensures StringEnd(s) == 6 + StringEnd(rest)
  {
    var a, b, c, d := s[2..], s[3..], s[4..], s[5..];
    assert a[1..] == b && b[1..] == c && c[1..] == d && d[1..] == rest;
    assert StringEnd(d) == 1 + StringEnd(rest);
    assert StringEnd(c) == 1 + StringEnd(d);
    assert StringEnd(b) == 1 + StringEnd(c);
    assert StringEnd(a) == 1 + StringEnd(b);
  }

  lemma SafeReads(c: char, rest: string)
    requires Safe(c)
    ensures S.Unescape([c] + rest) == [c] + S.Unescape(rest) && StringEnd([c] + rest) == 1 + StringEnd(rest)
  {
    assert ([c] + rest)[1..] == rest;
  }

  lemma ControlReads(e: char, rest: string)
    requires e != 'u'
    ensures S.Unescape(['\\', e] + rest) == [S.ControlEscape(e)] + S.Unescape(rest)
    ensures StringEnd(['\\', e] + rest) == 2 + StringEnd(rest)
  {
    assert (['\\', e] + rest)[2..] == rest;
  }

  lemma CharReads(c: char, rest: string)
    requires c as int < 0x1_0000
    ensures S.Unescape(EscapeChar(c) + rest) == [c] + S.Unescape(rest)
    ensures StringEnd(EscapeChar(c) + rest) == |EscapeChar(c)| + StringEnd(rest)
  {
    hide Safe, Unit, StringEnd, S.Unescape;
    if Safe(c) {
      SafeReads(c, rest);
    } else {
      ControlReads('\\', rest);
      ControlReads('n', rest);
      ControlReads('r', rest);
      ControlReads('t', rest);
      ControlReads('b', rest);
      ControlReads('f', rest);
      UnitReads(c as int, rest);
      UnitLength(c as int);
    }
  }

  lemma UnitLength(code: nat)
    requires code < 0x1_0000
    ensures |Unit(code)| == 6
  {
  }

  /** Decoding what was escaped gives it back, and nothing in it ends the string early. */
  lemma {:induction false} EscapeReads(s: string, rest: string)
    requires Plane(s)
    ensures S.Unescape(Escape(s) + rest) == s + S.Unescape(rest)
    ensures StringEnd(Escape(s) + rest) == |Escape(s)| + StringEnd(rest)
  {
    hide EscapeChar, StringEnd, S.Unescape;
    if s == "" {
      assert Escape(s) + rest == rest;
    } else {
      var tail := Escape(s[1..]) + rest;
      CharReads(s[0], tail);
      EscapeReads(s[1..], rest);
      assert Escape(s) + rest == EscapeChar(s[0]) + tail;
      assert [s[0]] + (s[1..] + S.Unescape(rest)) == s + S.Unescape(rest);
    }
  }

  lemma NothingLeft()
    ensures S.Unescape("") == ""
  {
  }

  lemma AtQuote(rest: string)
    ensures StringEnd("\"" + rest) == 0
  {
  }

  lemma StringReads(s: string, rest: string)
    requires Plane(s)
    ensures ReadString("\"" + Escape(s) + "\"" + rest) == Some((s, rest))
  {
    hide Escape, StringEnd, S.Unescape;
    var whole := "\"" + Escape(s) + "\"" + rest;
    assert whole[1..] == Escape(s) + ("\"" + rest);
    EscapeReads(s, "\"" + rest);
    AtQuote(rest);
    EscapeReads(s, "");
    NothingLeft();
    assert Escape(s) + "" == Escape(s) && s + "" == s;
    assert whole[1..1 + |Escape(s)|] == Escape(s) && whole[|Escape(s)| + 2..] == rest;
  }

  lemma MemberReads(pair: (string, string), rest: string)
    requires Plane(pair.0) && Plane(pair.1)
    ensures var key := ReadString(Member(pair) + rest);
            key.Some? && key.value.0 == pair.0 && key.value.1 != "" && key.value.1[0] == ':'
            && ReadString(key.value.1[1..]) == Some((pair.1, rest))
  {
    hide Escape, ReadString;
    var behind := ":" + ("\"" + Escape(pair.1) + "\"" + rest);
    assert Member(pair) + rest == "\"" + Escape(pair.0) + "\"" + behind;
    StringReads(pair.0, behind);
    assert behind[1..] == "\"" + Escape(pair.1) + "\"" + rest;
    StringReads(pair.1, rest);
  }

  predicate Plain(pairs: Fields) { forall p :: p in pairs ==> Plane(p.0) && Plane(p.1) }

  lemma {:induction false} MembersRead(pairs: Fields)
    requires pairs != [] && Plain(pairs)
    ensures ReadMembers(Join(Members(pairs), ",") + "}") == Some(pairs)
  {
    hide ReadString, Member, Plane;
    var members := Members(pairs);
    if |pairs| == 1 {
      assert Join(members, ",") == Member(pairs[0]);
      MemberReads(pairs[0], "}");
      assert [pairs[0]] == pairs;
    } else {
      var rest := Join(members[1..], ",") + "}";
      MembersRead(pairs[1..]);
      assert members[1..] == Members(pairs[1..]);
      assert Join(members, ",") + "}" == Member(pairs[0]) + ("," + rest);
      MemberReads(pairs[0], "," + rest);
      assert ("," + rest)[1..] == rest && ("," + rest) != "}";
      assert [pairs[0]] + pairs[1..] == pairs;
    }
  }

  /** The raw text is a JSON object with exactly these members, in this order. */
  lemma ObjectReads(pairs: Fields)
    requires Plain(pairs)
    ensures ReadObject(RawObject(pairs)) == Some(pairs)
  {
    hide ReadMembers, Member, Plane;
    if pairs == [] {
      assert Members(pairs) == [];
      assert RawObject(pairs) == "{}";
    } else {
      MembersRead(pairs);
      assert RawObject(pairs)[1..] == Join(Members(pairs), ",") + "}";
      SomeMember(pairs);
    }
  }

  lemma SomeMember(pairs: Fields)
    requires pairs != []
    ensures RawObject(pairs) != "{}"
  {
    var members := Members(pairs);
    assert |members[0]| > 0;
    assert |Join(members, ",")| > 0;
  }

  /** Main result: reading the body of a compiled step gives each body field's name once, with the text of the last field of
      that name. */
  lemma BodyReads(ws: Workspace, step: Step, name: string)
    requires Plain(Body(ws, step))
    ensures var read := ReadObject(RawObject(Body(ws, step)));
            read.Some? && D.DistinctKeys(read.value, D.Exactly)
            && D.Lookup(read.value, name, D.Exactly)
               == D.LastValue(Texts(ws, step, FieldsAt(step, step.requestFields, "body")), name, D.Exactly)
  {
    hide RawObject, ReadObject, Body, Plain, D.Lookup, D.LastValue, D.DistinctKeys, Texts, FieldsAt;
    ObjectReads(Body(ws, step));
    LastFieldWins(ws, step, name);
  }

  // ---- where a field goes, and the query ----

  /** A field goes where it says, ignoring case; one that does not say goes into the route when the route has its
      placeholder, and into the body otherwise. */
  lemma LocationExactly(step: Step, f: Field, place: string)
    ensures Location(step, f) == place <==>
              if f.location.Some? then Fold(f.location.value) == place
              else if exists i :: 0 <= i <= |step.path| && Fold("{" + f.name + "}") <= Fold(step.path)[i..] then place == "path"
              else place == "body"
  {
    hide Fold;
    var s, part := Fold(step.path), Fold("{" + f.name + "}");
    forall i: nat | i <= |s| ensures PartAt(s, part, i) <==> part <= s[i..] {
      if i + |part| <= |s| { assert s[i..][..|part|] == s[i..i + |part|]; }
    }
    assert Hole(f.name) == "{" + f.name + "}";
  }

  lemma JoinedSome(parts: seq<string>, sep: string)
    requires parts != [] && parts[0] != ""
    ensures Join(parts, sep) != ""
  {
  }

  /** The query, split at its `&`, gives the assignment of each field again, when no name and no value holds one. */
  predicate QueryReads(ws: Workspace, step: Step, fields: seq<Field>, query: string) {
    (forall f :: f in fields ==> Free(f.name, '&') && Free(ValueOf(ws, step, f), '&')) ==>
      |Split(query, '&')| == |fields|
      && forall i :: 0 <= i < |fields| ==> Split(query, '&')[i] == fields[i].name + "=" + ValueOf(ws, step, fields[i])
  }

  /** The address is the filled route, followed, exactly when some field goes into the query, by a question mark and the
      assignments of those fields; where they hold no `&` they can be read off again, in their order. */
  lemma AddressReads(ws: Workspace, step: Step)
    ensures var fields := FieldsAt(step, step.requestFields, "query");
            var route := ReplaceAll(step.path, Texts(ws, step, FieldsAt(step, step.requestFields, "path")));
            if fields == [] then CompiledPath(ws, step) == route
            else exists query :: CompiledPath(ws, step) == route + "?" + query && QueryReads(ws, step, fields, query)
  {
    hide ValueOf, Location, FieldsAt, ReplaceAll, Free, Split;
    var fields := FieldsAt(step, step.requestFields, "query");
    var parts := Assignments(Texts(ws, step, fields));
    var route := ReplaceAll(step.path, Texts(ws, step, FieldsAt(step, step.requestFields, "path")));
    if fields == [] {
      assert parts == [] && Join(parts, "&") == "";
    } else {
      var query := Join(parts, "&");
      JoinedSome(parts, "&");
      assert CompiledPath(ws, step) == route + "?" + query;
      if forall f :: f in fields ==> Free(f.name, '&') && Free(ValueOf(ws, step, f), '&') {
        forall i | 0 <= i < |parts| ensures Free(parts[i], '&') {
          assert fields[i] in fields;
          FreeAssignment(fields[i].name, ValueOf(ws, step, fields[i]));
        }
        JoinSplits(parts, '&');
      }
      assert QueryReads(ws, step, fields, query);
    }
  }

  lemma FreeAssignment(name: string, value: string)
    requires Free(name, '&') && Free(value, '&')
    ensures Free(name + "=" + value, '&')
  {
  }

  // ---- what a field holds, and which workspaces compile ----

  /** The binding at `i` goes into the field: its step is this one ignoring case, and it names the field by its id, or by its
      name where it has no id. */
  predicate Feeds(bindings: seq<Binding>, i: nat, step: Step, f: Field) {
    i < |bindings| && Fold(bindings[i].targetStep) == Fold(step.name)
    && bindings[i].targetFieldId == (if f.id.Some? then f.id.value else f.name)
  }

  lemma FeedsIsInto(bindings: seq<Binding>, i: nat, step: Step, f: Field)
    ensures Feeds(bindings, i, step, f) <==> i < |bindings| && Into(bindings[i], step.name, Key(f))
  {
  }

  /** A field's text is what was typed unless a binding feeds it, and then the placeholder of the last one that does. */
  lemma ValueExactly(ws: Workspace, step: Step, f: Field, i: nat)
    ensures (forall j: nat :: !Feeds(ws.bindings, j, step, f)) ==> ValueOf(ws, step, f) == f.value
    ensures Feeds(ws.bindings, i, step, f) && (forall j: nat :: i < j ==> !Feeds(ws.bindings, j, step, f))
            ==> ValueOf(ws, step, f) == "${" + ws.bindings[i].sourceVariable + "}"
  {
    hide Into, Feeds, BoundTo;
    var last := BoundToLast(ws.bindings, step.name, Key(f));
    forall j: nat ensures Feeds(ws.bindings, j, step, f) <==> j < |ws.bindings| && Into(ws.bindings[j], step.name, Key(f)) {
      FeedsIsInto(ws.bindings, j, step, f);
    }
    if last != -1 {
      assert Feeds(ws.bindings, last, step, f);
    } else if i < |ws.bindings| {
      assert ws.bindings[i] in ws.bindings;
    }
  }

  /** The variable is saved from that step. */
  predicate SavedBy(v: Variable, step: Step) { Fold(v.sourceStep) == Fold(step.name) }

  /** The variables saved from the step have different names, ignoring case. */
  predicate Apart(variables: seq<Variable>, step: Step) {
    forall i, j :: 0 <= i < j < |variables| && SavedBy(variables[i], step) && SavedBy(variables[j], step)
      ==> Fold(variables[i].name) != Fold(variables[j].name)
  }

  /** Nothing in the step stops the compiler: its fields have different ids, or names where they have no id, its variables
      have different names ignoring case, and each of them reads a response field of the step. */
  predicate Translatable(ws: Workspace, step: Step) {
    (forall i, j :: 0 <= i < j < |step.requestFields| ==>
       (var f, g := step.requestFields[i], step.requestFields[j];
        (if f.id.Some? then f.id.value else f.name) != (if g.id.Some? then g.id.value else g.name)))
    && Apart(ws.variables, step)
    && forall v :: v in ws.variables && SavedBy(v, step) ==>
         exists k :: 0 <= k < |step.responseFields| && Fold(step.responseFields[k].jsonPath) == Fold(v.jsonPath)
  }

  lemma KeysNext(first: (string, string), rest: seq<(string, string)>)
    ensures DistinctKeys([first] + rest) <==> DistinctKeys(rest) && forall p :: p in rest ==> Fold(p.0) != Fold(first.0)
  {
    hide Fold;
    var pairs := [first] + rest;
    if DistinctKeys(pairs) {
      forall p | p in rest ensures Fold(p.0) != Fold(first.0) {
        var i :| 0 <= i < |rest| && rest[i] == p;
        assert pairs[i + 1] == p && pairs[0] == first;
      }
      forall i, j | 0 <= i < j < |rest| ensures Fold(rest[i].0) != Fold(rest[j].0) {
        assert pairs[i + 1] == rest[i] && pairs[j + 1] == rest[j];
      }
    }
  }

  lemma ApartNext(variables: seq<Variable>, step: Step)
    requires variables != []
    ensures Apart(variables, step) <==>
              Apart(variables[1..], step)
              && (SavedBy(variables[0], step) ==>
                    forall v :: v in variables[1..] && SavedBy(v, step) ==> Fold(v.name) != Fold(variables[0].name))
  {
    hide Fold, SavedBy;
    var rest := variables[1..];
    if Apart(variables, step) {
      forall v | v in rest && SavedBy(v, step) && SavedBy(variables[0], step) ensures Fold(v.name) != Fold(variables[0].name) {
        var i :| 0 <= i < |rest| && rest[i] == v;
        assert variables[i + 1] == v;
      }
      forall i, j | 0 <= i < j < |rest| && SavedBy(rest[i], step) && SavedBy(rest[j], step) ensures Fold(rest[i].name) != Fold(rest[j].name) {
        assert variables[i + 1] == rest[i] && variables[j + 1] == rest[j];
      }
    }
  }

  lemma SavesNext(variables: seq<Variable>, step: Step)
    requires variables != []
    ensures Saves(variables, step.name) ==
              (if SavedBy(variables[0], step) then [(variables[0].name, variables[0].jsonPath)] else []) + Saves(variables[1..], step.name)
    ensures forall p :: p in Saves(variables, step.name) <==> exists v :: v in variables && SavedBy(v, step) && p == (v.name, v.jsonPath)
  {
  }

  lemma {:induction false} DistinctSaves(variables: seq<Variable>, step: Step)
    ensures DistinctKeys(Saves(variables, step.name)) <==> Apart(variables, step)
  {
    if variables != [] {
      hide Fold, Saves, SavedBy, Apart, DistinctKeys;
      var first, rest := variables[0], variables[1..];
      DistinctSaves(rest, step);
      ApartNext(variables, step);
      SavesNext(variables, step);
      KeysNext((first.name, first.jsonPath), Saves(rest, step.name));
      SavedOf(rest, step);
    }
  }

  lemma SavedOf(variables: seq<Variable>, step: Step)
    ensures forall v :: v in variables && SavedBy(v, step) ==> (v.name, v.jsonPath) in Saves(variables, step.name)
    ensures forall p :: p in Saves(variables, step.name) ==> exists v :: v in variables && SavedBy(v, step) && p == (v.name, v.jsonPath)
  {
    hide Fold;
  }

  lemma ReturnedExactly(ws: Workspace, step: Step)
    ensures AllReturned(Saves(ws.variables, step.name), step.responseFields) <==>
              forall v :: v in ws.variables && SavedBy(v, step) ==>
                exists k :: 0 <= k < |step.responseFields| && Fold(step.responseFields[k].jsonPath) == Fold(v.jsonPath)
  {
    hide Fold, Saves, SavedBy;
    SavedOf(ws.variables, step);
    var saves, fields := Saves(ws.variables, step.name), step.responseFields;
    if AllReturned(saves, fields) {
      forall v | v in ws.variables && SavedBy(v, step) ensures exists k :: 0 <= k < |fields| && Fold(fields[k].jsonPath) == Fold(v.jsonPath) {
        assert (v.name, v.jsonPath) in saves;
      }
    }
  }

  lemma CompilesExactly(ws: Workspace, step: Step)
    ensures Compiles(ws, step) <==> Translatable(ws, step)
  {
    hide Fold, Saves, SavedBy, Apart, DistinctKeys, AllReturned;
    DistinctSaves(ws.variables, step);
    ReturnedExactly(ws, step);
  }

  /** Exactly the workspaces with a step, and with such steps only, compile. */
  lemma CompilableExactly(ws: Workspace)
    ensures Compilable(ws) <==> |ws.steps| > 0 && forall k :: 0 <= k < |ws.steps| ==> Translatable(ws, ws.steps[k])
  {
    hide Compiles, Translatable;
    forall step ensures Compiles(ws, step) <==> Translatable(ws, step) { CompilesExactly(ws, step); }
  }
}
