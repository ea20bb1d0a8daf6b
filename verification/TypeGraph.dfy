/** Collecting the properties of a type and of its bases from a table that may be cyclic. */
module TypeGraph {
  import opened Text

  datatype Property = Property(name: string, jsonName: string, typeName: string)

  datatype TypeContract = TypeContract(name: string, baseTypes: seq<string>, properties: seq<Property>)

  /** Types by folded name. */
  type Table = map<string, TypeContract>

  predicate Keyed(types: Table) { forall k :: k in types ==> Fold(types[k].name) == k }

  datatype Walk = Walk(order: seq<string>, visited: set<string>)

  /** The depth-first walk: the names whose own properties come out, in order, and the names visited. */
  function Visit(k: string, types: Table, visited: set<string>): (w: Walk)
    requires k in types
    ensures visited <= w.visited <= types.Keys + visited
    decreases |types.Keys - visited|, 1, 0
  {
    if k in visited then Walk([], visited)
    else
      Shrinks(types.Keys, visited, visited + {k}, k);
      var bases := VisitBases(k, types[k].baseTypes, types, visited + {k});
      Walk(bases.order + [k], bases.visited)
  }

  function VisitBases(k: string, bases: seq<string>, types: Table, visited: set<string>): (w: Walk)
    ensures visited <= w.visited <= types.Keys + visited
    decreases |types.Keys - visited|, 2, |bases|
  {
    if bases == [] then Walk([], visited)
    else
      var b := Fold(bases[0]);
      if b == k || b !in types then VisitBases(k, bases[1..], types, visited)
      else
        var first := Visit(b, types, visited);
        Shrinks(types.Keys, visited, first.visited, b);
        var rest := VisitBases(k, bases[1..], types, first.visited);
        Walk(first.order + rest.order, rest.visited)
  }

  lemma Shrinks(all: set<string>, visited: set<string>, larger: set<string>, x: string)
    requires visited <= larger
    ensures |all - larger| <= |all - visited|
    ensures x in larger && x in all && x !in visited ==> |all - larger| < |all - visited|
  {
    var gone := (all - visited) - (all - larger);
    assert all - visited == (all - larger) + gone;
    assert |all - visited| == |all - larger| + |gone|;
    assert x in larger && x in all && x !in visited ==> x in gone;
  }

  function PropertiesOf(order: seq<string>, types: Table): seq<Property>
    requires forall k :: k in order ==> k in types
  {
    if order == [] then [] else types[order[0]].properties + PropertiesOf(order[1..], types)
  }

  lemma {:induction false} PropertiesConcat(a: seq<string>, b: seq<string>, types: Table)
    requires forall k :: k in a + b ==> k in types
    ensures PropertiesOf(a + b, types) == PropertiesOf(a, types) + PropertiesOf(b, types)
  {
    assert forall k :: k in a ==> k in a + b;
    assert forall k :: k in b ==> k in a + b;
    if a == [] {
      assert a + b == b;
    } else {
      assert (a + b)[1..] == a[1..] + b;
      assert forall k :: k in a[1..] + b ==> k in a + b;
      PropertiesConcat(a[1..], b, types);
      var own := types[a[0]].properties;
      assert own + (PropertiesOf(a[1..], types) + PropertiesOf(b, types)) == (own + PropertiesOf(a[1..], types)) + PropertiesOf(b, types);
    }
  }

  // ---- the walk as it is written, over one shared set ----

  class NameSet {
    var names: set<string>

    constructor ()
      ensures names == {}
    {
      names := {};
    }

    method Add(name: string) returns (added: bool)
      modifies this
      ensures added <==> Fold(name) !in old(names)
      ensures names == old(names) + {Fold(name)}
    {
      added := Fold(name) !in names;
      names := names + {Fold(name)};
    }
  }

  method AllProperties(t: TypeContract, types: Table, visited: NameSet) returns (properties: seq<Property>)
    requires Keyed(types) && Fold(t.name) in types && types[Fold(t.name)] == t
    modifies visited
    ensures visited.names == Visit(Fold(t.name), types, old(visited.names)).visited
    ensures var w := Visit(Fold(t.name), types, old(visited.names));
            (forall k :: k in w.order ==> k in types) && properties == PropertiesOf(w.order, types)
    decreases |types.Keys - visited.names|, 1
  {
    hide Keyed, PropertiesOf, VisitBases;
    var k := Fold(t.name);
    ghost var start := visited.names;
    var added := visited.Add(t.name);
    if !added {
      assert PropertiesOf([], types) == [] by { NoProperties(types); }
      return [];
    }
    Shrinks(types.Keys, start, visited.names, k);
    var inherited := Inherited(t, types, visited);
    ghost var order := VisitBases(k, t.baseTypes, types, start + {k}).order;
    PropertiesConcat(order, [k], types);
    OwnProperties(k, types);
    properties := inherited + t.properties;
  }

  lemma NoProperties(types: Table)
    ensures PropertiesOf([], types) == []
  {
  }

  lemma OwnProperties(k: string, types: Table)
    requires k in types
    ensures PropertiesOf([k], types) == types[k].properties
  {
    assert [k][1..] == [];
  }

  /** The loop over the base types. */
  method Inherited(t: TypeContract, types: Table, visited: NameSet) returns (properties: seq<Property>)
    requires Keyed(types)
    modifies visited
    ensures visited.names == VisitBases(Fold(t.name), t.baseTypes, types, old(visited.names)).visited
    ensures var w := VisitBases(Fold(t.name), t.baseTypes, types, old(visited.names));
            (forall k :: k in w.order ==> k in types) && properties == PropertiesOf(w.order, types)
    decreases |types.Keys - visited.names|, 2
  {
    hide Keyed, PropertiesOf, VisitBases, Visit;
    var k, bases := Fold(t.name), t.baseTypes;
    ghost var start := visited.names;
    ghost var all := VisitBases(k, bases, types, start);
    ghost var done: seq<string> := [];
    properties := [];
    assert PropertiesOf([], types) == [] by { NoProperties(types); }
    assert bases[0..] == bases;
    assert [] + all.order == all.order;
    for i := 0 to |bases|
      invariant start <= visited.names
      invariant all == Prefixed(done, VisitBases(k, bases[i..], types, visited.names))
      invariant (forall n :: n in done ==> n in types) && properties == PropertiesOf(done, types)
    {
      assert bases[i..][0] == bases[i] && bases[i..][1..] == bases[i + 1..];
      BaseStep(k, bases[i..], types, visited.names);
      var b := Fold(bases[i]);
      if b != k && b in types {
        ghost var before := visited.names;
        Shrinks(types.Keys, start, before, b);
        assert Fold(types[b].name) == b by { KeyOf(types, b); }
        var inherited := AllProperties(types[b], types, visited);
        ghost var first := Visit(b, types, before);
        PropertiesConcat(done, first.order, types);
        ghost var rest := VisitBases(k, bases[i + 1..], types, visited.names);
        assert done + (first.order + rest.order) == (done + first.order) + rest.order;
        done := done + first.order;
        properties := properties + inherited;
      }
    }
    assert VisitBases(k, bases[|bases|..], types, visited.names) == Walk([], visited.names) by { NoBases(k, types, visited.names); }
    assert done + [] == done;
  }

  function Prefixed(done: seq<string>, w: Walk): Walk { Walk(done + w.order, w.visited) }

  lemma KeyOf(types: Table, k: string)
    requires Keyed(types) && k in types
    ensures Fold(types[k].name) == k
  {
  }

  lemma NoBases(k: string, types: Table, visited: set<string>)
    ensures VisitBases(k, [], types, visited) == Walk([], visited)
  {
  }

  lemma BaseStep(k: string, bases: seq<string>, types: Table, visited: set<string>)
    requires bases != []
    ensures var b := Fold(bases[0]);
            VisitBases(k, bases, types, visited) ==
              if b == k || b !in types then VisitBases(k, bases[1..], types, visited)
              else var first := Visit(b, types, visited); Prefixed(first.order, VisitBases(k, bases[1..], types, first.visited))
  {
    hide Visit;
  }

  lemma {:induction false} OrderKnown(k: string, bases: seq<string>, types: Table, visited: set<string>)
    ensures forall n :: n in VisitBases(k, bases, types, visited).order ==> n in types
    decreases |types.Keys - visited|, 2, |bases|
  {
    if bases != [] {
      var b := Fold(bases[0]);
      if b == k || b !in types {
        OrderKnown(k, bases[1..], types, visited);
      } else {
        VisitKnown(b, types, visited);
        var first := Visit(b, types, visited);
        Shrinks(types.Keys, visited, first.visited, b);
        OrderKnown(k, bases[1..], types, first.visited);
      }
    }
  }

  lemma {:induction false} VisitKnown(k: string, types: Table, visited: set<string>)
    requires k in types
    ensures forall n :: n in Visit(k, types, visited).order ==> n in types
    decreases |types.Keys - visited|, 1, 0
  {
    if k !in visited {
      Shrinks(types.Keys, visited, visited + {k}, k);
      OrderKnown(k, types[k].baseTypes, types, visited + {k});
    }
  }

  // ---- what the walk reaches ----

  /** `b` is a base of `a` that the table knows; a type that names itself as its base has no edge. */
  predicate Edge(types: Table, a: string, b: string) {
    a in types && b in types && a != b && exists base :: base in types[a].baseTypes && Fold(base) == b
  }

  predicate Path(types: Table, nodes: seq<string>) {
    nodes != [] && forall i :: 0 <= i < |nodes| - 1 ==> Edge(types, nodes[i], nodes[i + 1])
  }

  predicate Joins(types: Table, nodes: seq<string>, a: string, b: string) {
    Path(types, nodes) && nodes[0] == a && nodes[|nodes| - 1] == b
  }

  ghost predicate Reaches(types: Table, a: string, b: string) { exists nodes :: Joins(types, nodes, a, b) }

  lemma ReachesSelf(types: Table, a: string)
    ensures Reaches(types, a, a)
  {
    assert Joins(types, [a], a, a);
  }

  lemma ReachesStep(types: Table, a: string, b: string, c: string)
    requires Edge(types, a, b) && Reaches(types, b, c)
    ensures Reaches(types, a, c)
  {
    hide Edge;
    var nodes :| Joins(types, nodes, b, c);
    assert Joins(types, [a] + nodes, a, c);
  }

  lemma ReachesJoin(types: Table, a: string, b: string, c: string)
    requires Reaches(types, a, b) && Reaches(types, b, c)
    ensures Reaches(types, a, c)
  {
    hide Edge;
    var first :| Joins(types, first, a, b);
    var second :| Joins(types, second, b, c);
    assert forall i :: 0 <= i < |second| - 1 ==> Edge(types, second[i], second[i + 1]);
    assert Joins(types, first + second[1..], a, c);
  }

  predicate NoDuplicates(order: seq<string>) { forall i, j :: 0 <= i < j < |order| ==> order[i] != order[j] }

  /** What one walk adds: each name once, none visited before, all of them reachable. */
  ghost predicate Sound(types: Table, from_: string, visited: set<string>, w: Walk) {
    NoDuplicates(w.order) && (forall n :: n in w.visited <==> n in visited || n in w.order)
    && forall n :: n in w.order ==> n in types && n !in visited && Reaches(types, from_, n)
  }

  lemma SoundConcat(types: Table, k: string, visited: set<string>, first: Walk, rest: Walk)
    requires Sound(types, k, visited, first) && Sound(types, k, first.visited, rest)
    ensures Sound(types, k, visited, Walk(first.order + rest.order, rest.visited))
  {
    hide Reaches;
    var order := first.order + rest.order;
    forall i, j | 0 <= i < j < |order| ensures order[i] != order[j] {
      if i < |first.order| <= j {
        assert order[i] in first.order && order[j] in rest.order;
      }
    }
  }

  lemma SoundFrom(types: Table, a: string, b: string, visited: set<string>, w: Walk)
    requires Edge(types, a, b) && Sound(types, b, visited, w)
    ensures Sound(types, a, visited, w)
  {
    hide Edge, Reaches;
    forall n | n in w.order ensures Reaches(types, a, n) { ReachesStep(types, a, b, n); }
  }

  lemma {:induction false} VisitSound(k: string, types: Table, visited: set<string>)
    requires k in types
    ensures Sound(types, k, visited, Visit(k, types, visited))
    decreases |types.Keys - visited|, 1, 0
  {
    hide VisitBases, Reaches;
    if k !in visited {
      Shrinks(types.Keys, visited, visited + {k}, k);
      BasesSound(k, types[k].baseTypes, types, visited + {k});
      ReachesSelf(types, k);
    }
  }

  lemma {:induction false} BasesSound(k: string, bases: seq<string>, types: Table, visited: set<string>)
    requires k in types && forall b :: b in bases ==> b in types[k].baseTypes
    ensures Sound(types, k, visited, VisitBases(k, bases, types, visited))
    decreases |types.Keys - visited|, 2, |bases|
  {
    hide Visit, VisitBases, Reaches;
    if bases == [] {
      NoBases(k, types, visited);
    } else {
      BaseStep(k, bases, types, visited);
      var b := Fold(bases[0]);
      if b == k || b !in types {
        BasesSound(k, bases[1..], types, visited);
      } else {
        var first := Visit(b, types, visited);
        VisitSound(b, types, visited);
        assert Edge(types, k, b);
        SoundFrom(types, k, b, visited, first);
        Shrinks(types.Keys, visited, first.visited, b);
        BasesSound(k, bases[1..], types, first.visited);
        SoundConcat(types, k, visited, first, VisitBases(k, bases[1..], types, first.visited));
      }
    }
  }

  /** The type comes out and every base of what comes out has been visited, before it unless they lie on a cycle. */
  ghost predicate Closed(types: Table, visited: set<string>, w: Walk) {
    forall i, c :: 0 <= i < |w.order| && Edge(types, w.order[i], c) ==>
      c in w.visited && (c in w.order[..i] || c in visited || Reaches(types, c, w.order[i]))
  }

  lemma ClosedConcat(types: Table, visited: set<string>, first: Walk, rest: Walk)
    requires Closed(types, visited, first) && Closed(types, first.visited, rest) && first.visited <= rest.visited
    requires forall n :: n in first.visited <==> n in visited || n in first.order
    ensures Closed(types, visited, Walk(first.order + rest.order, rest.visited))
  {
    hide Edge, Reaches;
    var order := first.order + rest.order;
    forall i, c | 0 <= i < |order| && Edge(types, order[i], c)
      ensures c in rest.visited && (c in order[..i] || c in visited || Reaches(types, c, order[i]))
    {
      if i < |first.order| {
        assert order[..i] == first.order[..i];
      } else {
        assert order[..i] == first.order + rest.order[..i - |first.order|];
        assert order[i] == rest.order[i - |first.order|];
      }
    }
  }

  lemma {:induction false} VisitClosed(k: string, types: Table, visited: set<string>)
    requires k in types
    ensures var w := Visit(k, types, visited); k in w.visited && Closed(types, visited, w)
    decreases |types.Keys - visited|, 1, 0
  {
    hide VisitBases, Reaches;
    if k !in visited {
      Shrinks(types.Keys, visited, visited + {k}, k);
      var bases := VisitBases(k, types[k].baseTypes, types, visited + {k});
      BasesClosed(k, types[k].baseTypes, types, visited + {k});
      BasesSound(k, types[k].baseTypes, types, visited + {k});
      OwnClosed(types, k, visited, bases);
    }
  }

  lemma OwnClosed(types: Table, k: string, visited: set<string>, bases: Walk)
    requires Closed(types, visited + {k}, bases) && Sound(types, k, visited + {k}, bases)
    requires forall c :: Edge(types, k, c) ==> c in bases.visited
    ensures Closed(types, visited, Walk(bases.order + [k], bases.visited))
  {
    hide Reaches;
    var order := bases.order + [k];
    forall i, c | 0 <= i < |order| && Edge(types, order[i], c)
      ensures c in bases.visited && (c in order[..i] || c in visited || Reaches(types, c, order[i]))
    {
      if i < |bases.order| {
        assert order[..i] == bases.order[..i] && order[i] == bases.order[i] && bases.order[i] in bases.order;
      } else {
        assert order[..i] == bases.order;
      }
    }
  }

  lemma {:induction false} BasesClosed(k: string, bases: seq<string>, types: Table, visited: set<string>)
    requires k in types && forall b :: b in bases ==> b in types[k].baseTypes
    ensures var w := VisitBases(k, bases, types, visited);
            Closed(types, visited, w)
            && forall b :: b in bases && Fold(b) in types && Fold(b) != k ==> Fold(b) in w.visited
    decreases |types.Keys - visited|, 2, |bases|
  {
    hide Visit, VisitBases, Reaches, Edge;
    if bases == [] {
      NoBases(k, types, visited);
    } else {
      BaseStep(k, bases, types, visited);
      var b := Fold(bases[0]);
      if b == k || b !in types {
        BasesClosed(k, bases[1..], types, visited);
      } else {
        var first := Visit(b, types, visited);
        VisitClosed(b, types, visited);
        VisitSound(b, types, visited);
        Shrinks(types.Keys, visited, first.visited, b);
        BasesClosed(k, bases[1..], types, first.visited);
        ClosedConcat(types, visited, first, VisitBases(k, bases[1..], types, first.visited));
      }
    }
  }

  function Order(k: string, types: Table): seq<string>
    requires k in types
  {
    Visit(k, types, {}).order
  }

  lemma PathTail(types: Table, nodes: seq<string>)
    requires Path(types, nodes) && |nodes| > 1
    ensures Path(types, nodes[1..])
  {
    hide Edge;
    forall i | 0 <= i < |nodes[1..]| - 1 ensures Edge(types, nodes[1..][i], nodes[1..][i + 1]) {
      assert Edge(types, nodes[i + 1], nodes[i + 1 + 1]);
    }
  }

  lemma {:induction false} ClosedReaches(types: Table, order: seq<string>, nodes: seq<string>)
    requires Path(types, nodes) && nodes[0] in order
    requires forall a, b :: a in order && Edge(types, a, b) ==> b in order
    ensures nodes[|nodes| - 1] in order
    decreases |nodes|
  {
    hide Edge;
    if |nodes| > 1 {
      assert Edge(types, nodes[0], nodes[1]);
      PathTail(types, nodes);
      ClosedReaches(types, order, nodes[1..]);
    }
  }

  /** Main result: the walk comes to an end on every table and yields exactly the reachable types, each once. */
  lemma OrderIsReachable(k: string, types: Table)
    requires k in types
    ensures NoDuplicates(Order(k, types))
    ensures forall n :: n in Order(k, types) <==> Reaches(types, k, n)
  {
    hide Visit, Edge, Reaches;
    var w := Visit(k, types, {});
    VisitSound(k, types, {});
    VisitClosed(k, types, {});
    forall a, b | a in w.order && Edge(types, a, b) ensures b in w.order {
      var i :| 0 <= i < |w.order| && w.order[i] == a;
    }
    forall n | Reaches(types, k, n) ensures n in w.order { ReachedIsOrdered(types, w.order, k, n); }
  }

  lemma ReachedIsOrdered(types: Table, order: seq<string>, k: string, n: string)
    requires k in order && Reaches(types, k, n)
    requires forall a, b :: a in order && Edge(types, a, b) ==> b in order
    ensures n in order
  {
    hide Edge;
    var nodes :| Joins(types, nodes, k, n);
    ClosedReaches(types, order, nodes);
  }

  predicate BasesFirst(types: Table, order: seq<string>) {
    forall i, c :: 0 <= i < |order| && c in types.Keys && Edge(types, order[i], c) ==> c in order[..i]
  }

  ghost predicate Cyclic(types: Table, a: string, b: string) { Edge(types, a, b) && Reaches(types, b, a) }

  /** A base comes before the type that names it, unless both lie on a cycle. */
  lemma BaseComesFirst(k: string, types: Table, i: nat, c: string)
    requires k in types && i < |Order(k, types)| && Edge(types, Order(k, types)[i], c)
    ensures c in Order(k, types)[..i] || Cyclic(types, Order(k, types)[i], c)
  {
    hide Visit, Edge, Reaches;
    VisitClosed(k, types, {});
    var w := Visit(k, types, {});
    assert Edge(types, w.order[i], c);
    assert c in w.visited;
  }

  lemma {:induction false} PathBelow(types: Table, order: seq<string>, i: nat, nodes: seq<string>)
    requires BasesFirst(types, order) && i <= |order| && Path(types, nodes) && nodes[0] in order[..i]
    ensures nodes[|nodes| - 1] in order[..i]
    decreases |nodes|
  {
    hide Edge;
    if |nodes| > 1 {
      var j :| 0 <= j < i && order[j] == nodes[0];
      assert Edge(types, order[j], nodes[1]);
      EdgeKnown(types, order[j], nodes[1]);
      assert nodes[1] in order[..j];
      PathTail(types, nodes);
      PathBelow(types, order, i, nodes[1..]);
    }
  }

  lemma EdgeKnown(types: Table, a: string, b: string)
    requires Edge(types, a, b)
    ensures b in types
  {
  }

  /** The order is topological exactly when no reachable type lies on a cycle. */
  lemma TopologicalExactly(k: string, types: Table)
    requires k in types
    ensures BasesFirst(types, Order(k, types)) <==>
              !exists a, b :: a in Order(k, types) && b in types.Keys && Cyclic(types, a, b)
  {
    hide Order, Edge, Reaches;
    var order := Order(k, types);
    if BasesFirst(types, order) {
      forall a, b | a in order && b in types.Keys ensures !Cyclic(types, a, b) {
        var i :| 0 <= i < |order| && order[i] == a;
        OrderIsReachable(k, types);
        NoCycleBelow(types, order, i, b);
      }
    } else {
      var i, c :| 0 <= i < |order| && c in types.Keys && Edge(types, order[i], c) && c !in order[..i];
      BaseComesFirst(k, types, i, c);
      assert order[i] in order;
    }
  }

  /** In a topological order without repetition no edge leads back. */
  lemma NoCycleBelow(types: Table, order: seq<string>, i: nat, b: string)
    requires BasesFirst(types, order) && NoDuplicates(order) && i < |order| && b in types
    ensures !Cyclic(types, order[i], b)
  {
    hide Edge;
    if Cyclic(types, order[i], b) {
      assert b in order[..i];
      var nodes :| Joins(types, nodes, b, order[i]);
      PathBelow(types, order, i, nodes);
    }
  }

  /** The properties of a type are the own properties of the types it reaches, in that order. */
  lemma AllPropertiesExactly(k: string, types: Table)
    requires k in types
    ensures (forall n :: n in Order(k, types) ==> n in types)
            && forall p :: p in PropertiesOf(Order(k, types), types) <==>
                             exists n :: n in types.Keys && Reaches(types, k, n) && p in types[n].properties
  {
    hide Order, Edge, Reaches, PropertiesOf;
    var order := Order(k, types);
    OrderIsReachable(k, types);
    assert forall n :: n in order ==> n in types by { OrderInTable(k, types); }
    forall p ensures p in PropertiesOf(order, types) <==> exists n :: n in types.Keys && Reaches(types, k, n) && p in types[n].properties {
      PropertyFrom(order, types, p);
    }
  }

  lemma OrderInTable(k: string, types: Table)
    requires k in types
    ensures forall n :: n in Order(k, types) ==> n in types
  {
    VisitKnown(k, types, {});
  }

  lemma {:induction false} PropertyFrom(order: seq<string>, types: Table, p: Property)
    requires forall n :: n in order ==> n in types
    ensures p in PropertiesOf(order, types) <==> exists n :: n in order && p in types[n].properties
  {
    if order != [] {
      PropertyFrom(order[1..], types, p);
      assert forall n :: n in order <==> n == order[0] || n in order[1..];
    }
  }
}
