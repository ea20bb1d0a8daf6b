/** JSON values and the three path evaluators: the wildcard evaluator used by assertions and saves,
    and the single-valued one that the integration host uses for rules and placeholders. */
module JsonPath {
  import opened Optional
  import opened Int32
  import opened Text

  /** `raw` is the element's own text; `value` of a string is already unescaped. */
  datatype Json =
    | JString(value: string)
    | JScalar(raw: string)
    | JArray(items: seq<Json>, raw: string)
    | JObject(properties: seq<(string, Json)>, raw: string)

  /** Array lengths are 32-bit. */
  predicate Sized(j: Json) {
    match j
    case JArray(items, _) => |items| <= MAX_INT && forall i :: 0 <= i < |items| ==> Sized(items[i])
    case JObject(properties, _) => forall i :: 0 <= i < |properties| ==> Sized(properties[i].1)
    case _ => true
  }

  /** `JsonPath.Text`. */
  function TextOf(j: Json): string { if j.JString? then j.value else j.raw }

  /** `TryGetProperty`: the last property of that name. */
  function Property(properties: seq<(string, Json)>, name: string): (r: Option<Json>)
    ensures r.Some? ==> exists i :: 0 <= i < |properties| && properties[i].1 == r.value
  {
    if properties == [] then None
    else
      var last := properties[|properties| - 1];
      if last.0 == name then Some(last.1) else Property(properties[..|properties| - 1], name)
  }

  /** One step of the single-valued evaluator. */
  function Step(item: Json, part: string): Option<Json> {
    match item
    case JObject(properties, _) => Property(properties, part)
    case JArray(items, _) =>
      var index := ParseInt(part);
      if index.Some? && 0 <= index.value < |items| then Some(items[index.value]) else None
    case _ => None
  }

  function Walk(root: Json, parts: seq<string>): Option<Json> {
    if parts == [] then Some(root)
    else
      var next := Step(root, parts[0]);
      if next.Some? then Walk(next.value, parts[1..]) else None
  }

  function Parts(path: string): seq<string>
    requires StartsWith(path, "$.")
  {
    Split(path[2..], '.')
  }

  /** What `TrySelect` answers; `HttpTemplateRenderer.Select` throws where this is `None`. */
  function Single(root: Json, path: string): Option<Json> {
    if StartsWith(path, "$.") then Walk(root, Parts(path)) else None
  }

  method TrySelect(root: Json, path: string) returns (found: bool, selected: Json)
    ensures found <==> Single(root, path).Some?
    ensures found ==> Single(root, path) == Some(selected)
  {
    selected := root;
    if !StartsWith(path, "$.") { return false, selected; }
    var parts := Parts(path);
    for i := 0 to |parts|
      invariant Walk(root, parts) == Walk(selected, parts[i..])
    {
      assert parts[i..][1..] == parts[i + 1..];
      var next := Step(selected, parts[i]);
      if next.None? { return false, selected; }
      selected := next.value;
    }
    return true, selected;
  }

  // ---- wildcards ----

  function Advance(item: Json, part: string): seq<Json> {
    if part == "*" && item.JArray? then item.items
    else
      var next := Step(item, part);
      if next.Some? then [next.value] else []
  }

  function Level(current: seq<Json>, part: string): seq<Json> {
    if current == [] then [] else Advance(current[0], part) + Level(current[1..], part)
  }

  function SelectParts(current: seq<Json>, parts: seq<string>): seq<Json>
    decreases |parts|
  {
    if parts == [] then current else SelectParts(Level(current, parts[0]), parts[1..])
  }

  /** `None` is the exception for a path that does not start with `$.`. */
  function Selection(root: Json, path: string): Option<seq<Json>> {
    if path == "$" then Some([root])
    else if StartsWith(path, "$.") then Some(SelectParts([root], Parts(path)))
    else None
  }

  method SelectMany(root: Json, path: string) returns (r: Option<seq<Json>>)
    ensures r == Selection(root, path)
  {
    if path == "$" { return Some([root]); }
    if !StartsWith(path, "$.") { return None; }
    var current, parts := [root], Parts(path);
    for p := 0 to |parts|
      invariant SelectParts([root], parts) == SelectParts(current, parts[p..])
    {
      assert parts[p..][1..] == parts[p + 1..];
      current := Descend(current, parts[p]);
      if current == [] {
        SelectNothing(parts[p + 1..]);
        break;
      }
    }
    return Some(current);
  }

  method Descend(current: seq<Json>, part: string) returns (next: seq<Json>)
    ensures next == Level(current, part)
  {
    next := [];
    for i := 0 to |current|
      invariant next == Level(current[..i], part)
    {
      var item := current[i];
      if part == "*" && item.JArray? {
        next := next + item.items;
      } else {
        var property := Step(item, part);
        if property.Some? { next := next + [property.value]; }
      }
      LevelAppend(current[..i], item, part);
      assert current[..i + 1] == current[..i] + [item];
    }
    assert current[..|current|] == current;
  }

  lemma LevelAppend(current: seq<Json>, item: Json, part: string)
    ensures Level(current + [item], part) == Level(current, part) + Advance(item, part)
  {
    LevelConcat(current, [item], part);
    assert Level([item], part) == Advance(item, part);
  }

  lemma {:induction false} SelectNothing(parts: seq<string>)
    ensures SelectParts([], parts) == []
  {
    if parts != [] { SelectNothing(parts[1..]); }
  }

  /** `JsonPath.Select`: the first match. */
  function Select(root: Json, path: string): Option<Json> {
    var many := Selection(root, path);
    if many.Some? && many.value != [] then Some(many.value[0]) else None
  }

  lemma LevelFirst(items: seq<Json>, part: string)
    requires items != []
    ensures Level(items, part) == Advance(items[0], part) + Level(items[1..], part)
  {
    hide Advance;
  }

  lemma LevelNothing(part: string)
    ensures Level([], part) == []
  {
  }

  lemma {:induction false} LevelConcat(a: seq<Json>, b: seq<Json>, part: string)
    ensures Level(a + b, part) == Level(a, part) + Level(b, part)
  {
    hide Advance, Level;
    if a == [] {
      assert a + b == b;
      LevelNothing(part);
    } else {
      LevelConcat(a[1..], b, part);
      assert (a + b)[0] == a[0] && (a + b)[1..] == a[1..] + b;
      LevelFirst(a, part);
      LevelFirst(a + b, part);
      assert Advance(a[0], part) + (Level(a[1..], part) + Level(b, part)) == (Advance(a[0], part) + Level(a[1..], part)) + Level(b, part);
    }
  }

  lemma {:induction false} SelectConcat(a: seq<Json>, b: seq<Json>, parts: seq<string>)
    ensures SelectParts(a + b, parts) == SelectParts(a, parts) + SelectParts(b, parts)
    decreases |parts|
  {
    if parts != [] {
      LevelConcat(a, b, parts[0]);
      SelectConcat(Level(a, parts[0]), Level(b, parts[0]), parts[1..]);
    }
  }

  // ---- instantiations of the wildcards ----

  /** One index per part: the chosen array index where the part is `*` and an array was reached, -1 elsewhere. */
  type Pick = seq<int>

  function Concrete(parts: seq<string>, pick: Pick): (r: seq<string>)
    requires |pick| == |parts|
  {
    if parts == [] then []
    else [if pick[0] >= 0 then Decimal(pick[0]) else parts[0]] + Concrete(parts[1..], pick[1..])
  }

  /** `pick` instantiates the wildcards of `parts` along `root` and the instantiated path selects something. */
  predicate Instantiates(root: Json, parts: seq<string>, pick: Pick)
    decreases |parts|
  {
    if parts == [] then pick == []
    else
      pick != [] &&
      if parts[0] == "*" && root.JArray? then
        0 <= pick[0] < |root.items| && Instantiates(root.items[pick[0]], parts[1..], pick[1..])
      else
        pick[0] == -1 && Step(root, parts[0]).Some? && Instantiates(Step(root, parts[0]).value, parts[1..], pick[1..])
  }

  predicate LexLess(a: Pick, b: Pick) {
    a != [] && b != [] && (a[0] < b[0] || (a[0] == b[0] && LexLess(a[1..], b[1..])))
  }

  predicate Sorted(picks: seq<Pick>) { forall i, j :: 0 <= i < j < |picks| ==> LexLess(picks[i], picks[j]) }

  function Prefixed(k: int, picks: seq<Pick>): (r: seq<Pick>)
    ensures |r| == |picks| && forall i :: 0 <= i < |r| ==> r[i] == [k] + picks[i]
  {
    seq(|picks|, i requires 0 <= i < |picks| => [k] + picks[i])
  }

  /** All instantiations in the order in which the evaluator meets them. */
  function Picks(root: Json, parts: seq<string>): seq<Pick>
    decreases |parts|, 0
  {
    if parts == [] then [[]]
    else if parts[0] == "*" && root.JArray? then PicksFrom(root.items, 0, parts[1..])
    else
      var next := Step(root, parts[0]);
      if next.Some? then Prefixed(-1, Picks(next.value, parts[1..])) else []
  }

  function PicksFrom(items: seq<Json>, k: nat, rest: seq<string>): seq<Pick>
    requires k <= |items|
    decreases |rest|, |items| - k + 1
  {
    if k == |items| then [] else Prefixed(k, Picks(items[k], rest)) + PicksFrom(items, k + 1, rest)
  }

  lemma {:induction false} PicksExact(root: Json, parts: seq<string>, pick: Pick)
    ensures pick in Picks(root, parts) <==> Instantiates(root, parts, pick)
    decreases |parts|, 0
  {
    if parts == [] {
    } else if parts[0] == "*" && root.JArray? {
      PicksFromExact(root.items, 0, parts[1..], pick);
    } else {
      var next := Step(root, parts[0]);
      if next.Some? { PrefixedExact(-1, next.value, parts[1..], pick); }
    }
  }

  lemma {:induction false} PrefixedExact(k: int, item: Json, rest: seq<string>, pick: Pick)
    ensures pick in Prefixed(k, Picks(item, rest)) <==> pick != [] && pick[0] == k && Instantiates(item, rest, pick[1..])
    decreases |rest|, 1
  {
    var inner := Picks(item, rest);
    if pick != [] {
      PicksExact(item, rest, pick[1..]);
      assert pick == [pick[0]] + pick[1..];
      if pick[0] == k && pick[1..] in inner {
        var i :| 0 <= i < |inner| && inner[i] == pick[1..];
        assert Prefixed(k, inner)[i] == pick;
      }
    }
  }

  lemma {:induction false} PicksFromExact(items: seq<Json>, k: nat, rest: seq<string>, pick: Pick)
    requires k <= |items|
    ensures pick in PicksFrom(items, k, rest) <==>
              pick != [] && k <= pick[0] < |items| && Instantiates(items[pick[0]], rest, pick[1..])
    decreases |rest|, |items| - k + 2
  {
    if k < |items| {
      PrefixedExact(k, items[k], rest, pick);
      PicksFromExact(items, k + 1, rest, pick);
    }
  }

  lemma {:induction false} PicksSorted(root: Json, parts: seq<string>)
    ensures Sorted(Picks(root, parts))
    decreases |parts|, 0
  {
    if parts != [] {
      if parts[0] == "*" && root.JArray? {
        PicksFromSorted(root.items, 0, parts[1..]);
      } else if Step(root, parts[0]).Some? {
        PicksSorted(Step(root, parts[0]).value, parts[1..]);
        PrefixedSorted(-1, Picks(Step(root, parts[0]).value, parts[1..]));
      }
    }
  }

  lemma PrefixedSorted(k: int, picks: seq<Pick>)
    requires Sorted(picks)
    ensures Sorted(Prefixed(k, picks))
  {
    var r := Prefixed(k, picks);
    forall i, j | 0 <= i < j < |r| ensures LexLess(r[i], r[j]) {
      assert r[i][1..] == picks[i] && r[j][1..] == picks[j];
    }
  }

  lemma {:induction false} PicksFromSorted(items: seq<Json>, k: nat, rest: seq<string>)
    requires k <= |items|
    ensures Sorted(PicksFrom(items, k, rest))
    decreases |rest|, |items| - k + 1
  {
    if k < |items| {
      PicksSorted(items[k], rest);
      PrefixedSorted(k, Picks(items[k], rest));
      PicksFromSorted(items, k + 1, rest);
      var tail := PicksFrom(items, k + 1, rest);
      forall p | p in tail ensures p != [] && k < p[0] {
        PicksFromExact(items, k + 1, rest, p);
      }
    }
  }

  /** Value by value, what the single-valued evaluator selects at each instantiation. */
  predicate Denotes(root: Json, parts: seq<string>, picks: seq<Pick>, values: seq<Json>) {
    |picks| == |values|
    && forall i :: 0 <= i < |picks| ==> |picks[i]| == |parts| && Walk(root, Concrete(parts, picks[i])) == Some(values[i])
  }

  lemma DenotesConcat(root: Json, parts: seq<string>, p: seq<Pick>, v: seq<Json>, q: seq<Pick>, w: seq<Json>)
    requires Denotes(root, parts, p, v) && Denotes(root, parts, q, w)
    ensures Denotes(root, parts, p + q, v + w)
  {
    hide Walk, Concrete;
    var all := p + q;
    assert forall i :: |p| <= i < |all| ==> all[i] == q[i - |p|] && (v + w)[i] == w[i - |p|];
  }

  lemma {:induction false} SelectInstances(root: Json, parts: seq<string>)
    requires Sized(root)
    ensures Denotes(root, parts, Picks(root, parts), SelectParts([root], parts))
    decreases |parts|, 0
  {
    if parts != [] {
      assert Level([root], parts[0]) == Advance(root, parts[0]);
      if parts[0] == "*" && root.JArray? {
        SelectFrom(root, 0, parts);
        assert root.items[0..] == root.items;
      } else {
        var next := Step(root, parts[0]);
        if next.Some? {
          StepSized(root, parts[0]);
          SelectInstances(next.value, parts[1..]);
          PrefixedWalk(root, parts, -1, next.value);
        } else {
          SelectNothing(parts[1..]);
        }
      }
    }
  }

  lemma StepSized(root: Json, part: string)
    requires Sized(root) && Step(root, part).Some?
    ensures Sized(Step(root, part).value)
  {
  }

  lemma PrefixedWalk(root: Json, parts: seq<string>, k: int, item: Json)
    requires parts != []
    requires Step(root, if k >= 0 then Decimal(k) else parts[0]) == Some(item)
    requires Denotes(item, parts[1..], Picks(item, parts[1..]), SelectParts([item], parts[1..]))
    ensures Denotes(root, parts, Prefixed(k, Picks(item, parts[1..])), SelectParts([item], parts[1..]))
  {
    var inner := Picks(item, parts[1..]);
    var r := Prefixed(k, inner);
    forall i | 0 <= i < |r|
      ensures |r[i]| == |parts| && Walk(root, Concrete(parts, r[i])) == Some(SelectParts([item], parts[1..])[i])
    {
      assert r[i][1..] == inner[i] && r[i][0] == k;
      assert Concrete(parts, r[i])[1..] == Concrete(parts[1..], inner[i]);
    }
  }

  lemma ItemSelected(root: Json, k: nat)
    requires root.JArray? && Sized(root) && k < |root.items|
    ensures Sized(root.items[k]) && Step(root, Decimal(k)) == Some(root.items[k])
  {
    NaturalParses(k);
  }

  lemma {:induction false} SelectFrom(root: Json, k: nat, parts: seq<string>)
    requires parts != [] && root.JArray? && Sized(root) && k <= |root.items|
    ensures Denotes(root, parts, PicksFrom(root.items, k, parts[1..]), SelectParts(root.items[k..], parts[1..]))
    decreases |parts| - 1, |root.items| - k + 1
  {
    hide Walk, Concrete, Sized, Step, ParseInt, SelectParts, Picks;
    var items, rest := root.items, parts[1..];
    if k == |items| {
      assert items[k..] == [];
      SelectNothing(rest);
    } else {
      ItemSelected(root, k);
      SelectInstances(items[k], rest);
      PrefixedWalk(root, parts, k, items[k]);
      SelectFrom(root, k + 1, parts);
      assert items[k..] == [items[k]] + items[k + 1..];
      SelectConcat([items[k]], items[k + 1..], rest);
      DenotesConcat(root, parts, Prefixed(k, Picks(items[k], rest)), SelectParts([items[k]], rest),
        PicksFrom(items, k + 1, rest), SelectParts(items[k + 1..], rest));
    }
  }

  /** Main result: the selection lists, in strict lexicographic order of the chosen indices, the
      single-valued selection at exactly the instantiations of the wildcards. */
  lemma SelectManyDenotes(root: Json, path: string)
    requires Sized(root) && StartsWith(path, "$.")
    ensures var parts := Parts(path);
            var values, picks := Selection(root, path).value, Picks(root, parts);
            |values| == |picks| && Sorted(picks)
            && (forall p :: p in picks <==> Instantiates(root, parts, p))
            && (forall i :: 0 <= i < |picks| ==>
                  |picks[i]| == |parts| && Walk(root, Concrete(parts, picks[i])) == Some(values[i]))
  {
    var parts := Parts(path);
    SelectInstances(root, parts);
    PicksSorted(root, parts);
    forall p ensures p in Picks(root, parts) <==> Instantiates(root, parts, p) {
      PicksExact(root, parts, p);
    }
  }

  /** Without a wildcard the two evaluators are one: the same element, or nothing. */
  lemma NoWildcardAgrees(root: Json, path: string)
    requires StartsWith(path, "$.") && forall p :: p in Parts(path) ==> p != "*"
    ensures Selection(root, path) ==
            Some(if Single(root, path).Some? then [Single(root, path).value] else [])
  {
    PlainParts(root, Parts(path));
  }

  lemma {:induction false} PlainParts(root: Json, parts: seq<string>)
    requires forall p :: p in parts ==> p != "*"
    ensures SelectParts([root], parts) == if Walk(root, parts).Some? then [Walk(root, parts).value] else []
  {
    if parts != [] {
      assert parts[0] in parts && forall p :: p in parts[1..] ==> p in parts;
      assert Level([root], parts[0]) == Advance(root, parts[0]);
      var next := Step(root, parts[0]);
      if next.Some? {
        PlainParts(next.value, parts[1..]);
      } else {
        SelectNothing(parts[1..]);
      }
    }
  }

  // ---- properties and first matches ----

  /** The property at `i` is the last of that name. */
  predicate LastNamed(properties: seq<(string, Json)>, name: string, i: nat) {
    i < |properties| && properties[i].0 == name && forall j :: i < j < |properties| ==> properties[j].0 != name
  }

  /** Exactly the value of the last property of the name is found. */
  lemma {:induction false} PropertyExactly(properties: seq<(string, Json)>, name: string, i: nat)
    ensures LastNamed(properties, name, i) ==> Property(properties, name) == Some(properties[i].1)
    ensures Property(properties, name).None? <==> forall p :: p in properties ==> p.0 != name
  {
    if properties != [] {
      var n := |properties| - 1;
      PropertyExactly(properties[..n], name, i);
      assert properties == properties[..n] + [properties[n]];
      assert LastNamed(properties, name, i) && i < n ==> LastNamed(properties[..n], name, i);
    }
  }

  /** What one path part leads to: a member by its name, an item by a numeral within the array. */
  lemma StepExactly(item: Json, part: string, next: Json)
    ensures Step(item, part) == Some(next) <==>
              (item.JObject? && exists i :: 0 <= i < |item.properties| && LastNamed(item.properties, part, i) && item.properties[i].1 == next)
              || (item.JArray? && exists k :: 0 <= k < |item.items| && ParseInt(part) == Some(k) && item.items[k] == next)
  {
    hide ParseInt, Property;
    if item.JObject? {
      if i :| 0 <= i < |item.properties| && LastNamed(item.properties, part, i) && item.properties[i].1 == next {
        PropertyExactly(item.properties, part, i);
      }
      if Property(item.properties, part) == Some(next) {
        PropertyExactly(item.properties, part, 0);
        var i := LastOf(item.properties, part);
        PropertyExactly(item.properties, part, i);
      }
    }
  }

  lemma {:induction false} LastOf(properties: seq<(string, Json)>, name: string) returns (i: nat)
    requires exists p :: p in properties && p.0 == name
    ensures LastNamed(properties, name, i)
  {
    var n := |properties| - 1;
    assert properties == properties[..n] + [properties[n]];
    if properties[n].0 == name { i := n; } else { i := LastOf(properties[..n], name); }
  }

  /** The first of all matches is the one at the least instantiation of the wildcards. */
  lemma SelectIsFirst(root: Json, path: string)
    ensures Select(root, path).Some? <==> Selection(root, path).Some? && |Selection(root, path).value| > 0
    ensures Select(root, path).Some? ==> Select(root, path).value == Selection(root, path).value[0]
  {
    hide Selection;
  }

  /** The parts of a path are the texts between its dots, and a path without `$.` in front selects no single value. */
  lemma PathExactly(root: Json, path: string, names: seq<string>)
    requires names != [] && forall i :: 0 <= i < |names| ==> Free(names[i], '.')
    ensures StartsWith(path, "$.") && Parts(path) == names <==> path == "$." + Join(names, ".")
    ensures path == "$." + Join(names, ".") ==> Single(root, path) == Walk(root, names) && Selection(root, path) == Some(SelectParts([root], names))
    ensures !StartsWith(path, "$.") ==> Single(root, path).None? && (Selection(root, path).Some? <==> path == "$")
  {
    hide Split, Join, Walk, SelectParts, Free;
    JoinSplits(names, '.');
    if StartsWith(path, "$.") {
      SplitJoins(path[2..], '.');
      assert path == "$." + path[2..];
    }
    if path == "$." + Join(names, ".") { assert path[2..] == Join(names, "."); }
  }
}
