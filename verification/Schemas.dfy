/** JSON schema validation: when a value conforms, keyword by keyword, and when validation comes to a type name that is
    none. */
module Schemas {
  import opened Optional
  import opened Text
  import opened Steps
  import opened JsonPath
  import opened Runner

  // ---- type names ----

  datatype Kind = Text | Number | Integer | Boolean | List | Record | Null

  /** A scalar that begins with a digit or a minus sign is a number; which numbers are integers is an input. */
  predicate IsKind(value: Json, kind: Kind) {
    match kind
    case Text => value.JString?
    case Number => value.JScalar? && |value.raw| > 0 && value.raw[0] in "-0123456789"
    case Integer => false
    case Boolean => value == JScalar("true") || value == JScalar("false")
    case List => value.JArray?
    case Record => value.JObject?
    case Null => value == JScalar("null")
  }

  /** The kind that a type name of an assertion stands for, ignoring case. */
  function KindNamed(name: string): Option<Kind> {
    match Fold(name)
    case "string" => Some(Text)
    case "number" => Some(Number)
    case "integer" => Some(Integer)
    case "boolean" => Some(Boolean)
    case "bool" => Some(Boolean)
    case "array" => Some(List)
    case "object" => Some(Record)
    case "null" => Some(Null)
    case _ => None
  }

  predicate OfTypeName(value: Json, name: string, world: World) {
    match KindNamed(name)
    case Some(Integer) => IsKind(value, Number) && world.holds(OfType, value, "integer")
    case Some(kind) => IsKind(value, kind)
    case None => false
  }

  lemma NumberExactly(value: Json)
    ensures IsNumber(value) <==> IsKind(value, Number)
  {
    assert forall c: char :: c in "-0123456789" <==> c == '-' || IsDigit(c) by { DigitsListed(); }
  }

  lemma DigitsListed()
    ensures forall c: char :: c in "-0123456789" <==> c == '-' || IsDigit(c)
  {
    forall c: char | IsDigit(c) ensures c in "-0123456789" {
      assert "-0123456789"[c as int - '0' as int + 1] == c;
    }
  }

  /** The runner knows exactly these names, and takes a value to be of a type as they say. */
  lemma TypeNamesExactly(value: Json, name: string, world: World)
    ensures KnownType(name) <==> KindNamed(name).Some?
    ensures KnownType(name) && HasType(value, name, world) <==> OfTypeName(value, name, world)
  {
    hide Fold, IsNumber;
    NumberExactly(value);
  }

  /** A schema knows the same names but for the short one. */
  predicate SchemaKind(name: string) { KindNamed(name).Some? && Fold(name) != "bool" }

  lemma SchemaTypesExactly(name: string)
    ensures SchemaType(name) <==> SchemaKind(name)
    ensures SchemaType(name) ==> KnownType(name)
  {
    hide Fold;
  }

  /** One of the listed constants is written just like the value. */
  predicate Listed(value: Json, constants: seq<string>, world: World) {
    exists c :: c in constants && if value.JString? then world.holds(Verbatim, value, c) else value.raw == c
  }

  predicate TypeFits(value: Json, schema: Schema, world: World) {
    schema.type_.Some? ==> SchemaKind(schema.type_.value) && OfTypeName(value, schema.type_.value, world)
  }

  predicate HasRequired(value: Json, schema: Schema) {
    value.JObject? ==> forall n :: n in schema.required ==> Property(value.properties, n).Some?
  }

  /** Every keyword of the schema holds of the value; members and items conform to the schemas that are given for them. */
  predicate Conforms(value: Json, schema: Schema, world: World)
    decreases schema, 1
  {
    TypeFits(value, schema, world) && HasRequired(value, schema)
    && (value.JObject? ==> forall i :: 0 <= i < |schema.properties| ==> MemberConforms(value.properties, schema, i, world))
    && (value.JArray? ==>
          (schema.items.Some? ==> forall i :: 0 <= i < |value.items| ==> ItemConforms(value.items, schema, i, world))
          && (schema.minItems.Some? ==> schema.minItems.value <= |value.items|))
    && (schema.listed.Some? ==> Listed(value, schema.listed.value, world))
  }

  predicate MemberConforms(properties: seq<(string, Json)>, schema: Schema, i: nat, world: World)
    requires i < |schema.properties|
    decreases schema, 0
  {
    var member := Property(properties, schema.properties[i].0);
    member.Some? ==> Conforms(member.value, schema.properties[i].1, world)
  }

  predicate ItemConforms(items: seq<Json>, schema: Schema, i: nat, world: World)
    requires i < |items| && schema.items.Some?
    decreases schema, 0
  {
    Conforms(items[i], schema.items.value, world)
  }

  /** The schema itself has an unknown type name, or the first member or item that does not conform leads to one. */
  predicate Baffled(value: Json, schema: Schema, world: World)
    decreases schema, 2
  {
    (schema.type_.Some? && !SchemaKind(schema.type_.value))
    || (TypeFits(value, schema, world) && HasRequired(value, schema)
        && (if value.JObject? then exists i :: 0 <= i < |schema.properties| && MemberBaffled(value.properties, schema, 0, i, world)
            else value.JArray? && schema.items.Some? && exists i :: 0 <= i < |value.items| && ItemBaffled(value.items, schema, i, world)))
  }

  /** From the `first` member on, the `i`-th is the one that leads to an unknown type name. */
  predicate MemberBaffled(properties: seq<(string, Json)>, schema: Schema, first: nat, i: nat, world: World)
    requires i < |schema.properties|
    decreases schema, 1
  {
    var member := Property(properties, schema.properties[i].0);
    first <= i && member.Some? && Baffled(member.value, schema.properties[i].1, world)
    && forall j :: first <= j < i ==> MemberConforms(properties, schema, j, world)
  }

  predicate ItemBaffled(items: seq<Json>, schema: Schema, i: nat, world: World)
    requires i < |items| && schema.items.Some?
    decreases schema, 1
  {
    Baffled(items[i], schema.items.value, world) && forall j :: 0 <= j < i ==> ItemConforms(items, schema, j, world)
  }

  // What one member and one item say, with the rest of the recursion out of sight.

  lemma MemberIs(properties: seq<(string, Json)>, schema: Schema, first: nat, i: nat, world: World)
    requires first <= i < |schema.properties|
    ensures var member := Property(properties, schema.properties[i].0);
            (MemberConforms(properties, schema, i, world) <==> (member.Some? ==> Conforms(member.value, schema.properties[i].1, world)))
            && (MemberBaffled(properties, schema, i, i, world) <==>
                  member.Some? && Baffled(member.value, schema.properties[i].1, world))
    ensures first < i ==>
              (MemberBaffled(properties, schema, first, i, world) <==>
                 MemberConforms(properties, schema, first, world) && MemberBaffled(properties, schema, first + 1, i, world))
  {
    hide Conforms, Baffled;
    if first < i && MemberConforms(properties, schema, first, world) && MemberBaffled(properties, schema, first + 1, i, world) {
      forall j | first <= j < i ensures MemberConforms(properties, schema, j, world) {
      }
    }
  }

  lemma ItemIs(items: seq<Json>, schema: Schema, i: nat, world: World)
    requires i < |items| && schema.items.Some?
    ensures ItemConforms(items, schema, i, world) <==> Conforms(items[i], schema.items.value, world)
    ensures i == 0 ==> (ItemBaffled(items, schema, 0, world) <==> Baffled(items[0], schema.items.value, world))
    ensures i > 0 ==>
              (ItemConforms(items, schema, i, world) <==> ItemConforms(items[1..], schema, i - 1, world))
              && (ItemBaffled(items, schema, i, world) <==>
                    ItemConforms(items, schema, 0, world) && ItemBaffled(items[1..], schema, i - 1, world))
  {
    hide Conforms, Baffled;
    if i > 0 {
      assert forall j :: 0 <= j < |items| - 1 ==> items[1..][j] == items[j + 1];
      if ItemConforms(items, schema, 0, world) && ItemBaffled(items[1..], schema, i - 1, world) {
        forall j | 0 <= j < i ensures ItemConforms(items, schema, j, world) {
          if j > 0 { assert ItemConforms(items[1..], schema, j - 1, world); }
        }
      }
      if ItemBaffled(items, schema, i, world) {
        forall j | 0 <= j < i - 1 ensures ItemConforms(items[1..], schema, j, world) {
          assert ItemConforms(items, schema, j + 1, world);
        }
      }
    }
  }

  predicate MembersConform(properties: seq<(string, Json)>, schema: Schema, first: nat, world: World) {
    forall i :: first <= i < |schema.properties| ==> MemberConforms(properties, schema, i, world)
  }

  predicate SomeMember(properties: seq<(string, Json)>, schema: Schema, first: nat, world: World) {
    exists i :: 0 <= i < |schema.properties| && MemberBaffled(properties, schema, first, i, world)
  }

  predicate ItemsConform(items: seq<Json>, schema: Schema, world: World)
    requires schema.items.Some?
  {
    forall i :: 0 <= i < |items| ==> ItemConforms(items, schema, i, world)
  }

  predicate SomeItem(items: seq<Json>, schema: Schema, world: World)
    requires schema.items.Some?
  {
    exists i :: 0 <= i < |items| && ItemBaffled(items, schema, i, world)
  }

  /** Both, with the members and the items taken together. */
  lemma ConformsIs(value: Json, schema: Schema, world: World)
    ensures Conforms(value, schema, world) <==>
              TypeFits(value, schema, world) && HasRequired(value, schema)
              && (value.JObject? ==> MembersConform(value.properties, schema, 0, world))
              && (value.JArray? ==>
                    (schema.items.Some? ==> ItemsConform(value.items, schema, world))
                    && (schema.minItems.Some? ==> schema.minItems.value <= |value.items|))
              && (schema.listed.Some? ==> Listed(value, schema.listed.value, world))
    ensures Baffled(value, schema, world) <==>
              (schema.type_.Some? && !SchemaKind(schema.type_.value))
              || (TypeFits(value, schema, world) && HasRequired(value, schema)
                  && ((value.JObject? && SomeMember(value.properties, schema, 0, world))
                      || (value.JArray? && schema.items.Some? && SomeItem(value.items, schema, world))))
  {
    hide MemberConforms, ItemConforms, MemberBaffled, ItemBaffled, TypeFits, HasRequired, SchemaKind, Listed;
  }

  /** Validation passes exactly for the values that conform, and stops at a type name exactly where there is one to come
      to. */
  lemma {:induction false} ValidateExactly(value: Json, schema: Schema, world: World)
    ensures Validate(value, schema, world).Passed? <==> Conforms(value, schema, world)
    ensures IsInvalid(Validate(value, schema, world)) <==> Baffled(value, schema, world)
    decreases schema, 2, 0
  {
    hide HasType, SchemaType, KnownType, KindNamed, OfTypeName, SchemaKind, Conforms, Baffled, MembersConform, SomeMember, ItemsConform, SomeItem, ValidateMembers, ValidateItems;
    ConformsIs(value, schema, world);
    if schema.type_.Some? {
      SchemaTypesExactly(schema.type_.value);
      TypeNamesExactly(value, schema.type_.value, world);
    }
    if value.JObject? { MembersExactly(value.properties, schema, 0, world); }
    if value.JArray? && schema.items.Some? { ItemsExactly(value.items, schema, world); }
  }

  lemma MembersNext(properties: seq<(string, Json)>, schema: Schema, first: nat, world: World)
    requires first < |schema.properties|
    ensures MembersConform(properties, schema, first, world) <==>
              MemberConforms(properties, schema, first, world) && MembersConform(properties, schema, first + 1, world)
    ensures SomeMember(properties, schema, first, world) <==>
              MemberBaffled(properties, schema, first, first, world)
              || (MemberConforms(properties, schema, first, world) && SomeMember(properties, schema, first + 1, world))
  {
    hide MemberConforms, MemberBaffled;
    forall i | first < i < |schema.properties|
      ensures MemberBaffled(properties, schema, first, i, world) <==>
                MemberConforms(properties, schema, first, world) && MemberBaffled(properties, schema, first + 1, i, world)
    {
      MemberIs(properties, schema, first, i, world);
    }
    BaffledLater(properties, schema, first, world);
    BaffledLater(properties, schema, first + 1, world);
    if SomeMember(properties, schema, first, world) {
      var i :| 0 <= i < |schema.properties| && MemberBaffled(properties, schema, first, i, world);
      assert first < i ==> MemberBaffled(properties, schema, first + 1, i, world);
    }
    if SomeMember(properties, schema, first + 1, world) {
      var i :| 0 <= i < |schema.properties| && MemberBaffled(properties, schema, first + 1, i, world);
      assert MemberConforms(properties, schema, first, world) ==> MemberBaffled(properties, schema, first, i, world);
    }
  }

  lemma BaffledLater(properties: seq<(string, Json)>, schema: Schema, first: nat, world: World)
    ensures forall i :: 0 <= i < |schema.properties| && MemberBaffled(properties, schema, first, i, world) ==> first <= i
  {
    hide Conforms, Baffled;
  }

  lemma {:induction false} MembersExactly(properties: seq<(string, Json)>, schema: Schema, first: nat, world: World)
    requires first <= |schema.properties|
    ensures ValidateMembers(properties, schema, first, world).Passed? <==> MembersConform(properties, schema, first, world)
    ensures IsInvalid(ValidateMembers(properties, schema, first, world)) <==> SomeMember(properties, schema, first, world)
    decreases schema, 1, |schema.properties| - first
  {
    hide Conforms, Baffled, Validate, MemberConforms, MemberBaffled;
    BaffledLater(properties, schema, first, world);
    if first < |schema.properties| {
      var member := Property(properties, schema.properties[first].0);
      MemberIs(properties, schema, first, first, world);
      MembersNext(properties, schema, first, world);
      if member.Some? { ValidateExactly(member.value, schema.properties[first].1, world); }
      MembersExactly(properties, schema, first + 1, world);
    }
  }

  lemma ItemsNext(items: seq<Json>, schema: Schema, world: World)
    requires items != [] && schema.items.Some?
    ensures ItemsConform(items, schema, world) <==> Conforms(items[0], schema.items.value, world) && ItemsConform(items[1..], schema, world)
    ensures SomeItem(items, schema, world) <==>
              Baffled(items[0], schema.items.value, world)
              || (Conforms(items[0], schema.items.value, world) && SomeItem(items[1..], schema, world))
  {
    hide Conforms, Baffled, ItemConforms, ItemBaffled;
    ItemIs(items, schema, 0, world);
    forall i | 0 < i < |items|
      ensures ItemConforms(items, schema, i, world) <==> ItemConforms(items[1..], schema, i - 1, world)
      ensures ItemBaffled(items, schema, i, world) <==>
                ItemConforms(items, schema, 0, world) && ItemBaffled(items[1..], schema, i - 1, world)
    {
      ItemIs(items, schema, i, world);
    }
    if ItemsConform(items, schema, world) {
      forall j | 0 <= j < |items| - 1 ensures ItemConforms(items[1..], schema, j, world) {
        assert ItemConforms(items, schema, j + 1, world);
      }
    }
    if j :| 0 <= j < |items| - 1 && ItemBaffled(items[1..], schema, j, world) {
      assert ItemBaffled(items, schema, j + 1, world) <==> ItemConforms(items, schema, 0, world);
    }
  }

  lemma {:induction false} ItemsExactly(items: seq<Json>, schema: Schema, world: World)
    requires schema.items.Some?
    ensures ValidateItems(items, schema, world).Passed? <==> ItemsConform(items, schema, world)
    ensures IsInvalid(ValidateItems(items, schema, world)) <==> SomeItem(items, schema, world)
    decreases schema, 1, |items|
  {
    hide Conforms, Baffled, Validate, ItemConforms, ItemBaffled;
    if items != [] {
      ItemsNext(items, schema, world);
      ValidateExactly(items[0], schema.items.value, world);
      ItemsExactly(items[1..], schema, world);
    }
  }

  /** Every type name in the schema is one of the seven. */
  predicate KnownSchema(schema: Schema) {
    (schema.type_.Some? ==> SchemaKind(schema.type_.value))
    && (forall i :: 0 <= i < |schema.properties| ==> KnownSchema(schema.properties[i].1))
    && (schema.items.Some? ==> KnownSchema(schema.items.value))
  }

  lemma {:induction false} KnownNeverBaffles(value: Json, schema: Schema, world: World)
    requires KnownSchema(schema)
    ensures !Baffled(value, schema, world)
    decreases schema
  {
    hide Conforms, SchemaKind, OfTypeName, Listed;
    if value.JObject? {
      forall i | 0 <= i < |schema.properties| ensures !MemberBaffled(value.properties, schema, 0, i, world) {
        var member := Property(value.properties, schema.properties[i].0);
        if member.Some? { KnownNeverBaffles(member.value, schema.properties[i].1, world); }
      }
    }
    if value.JArray? && schema.items.Some? {
      forall i | 0 <= i < |value.items| ensures !ItemBaffled(value.items, schema, i, world) {
        KnownNeverBaffles(value.items[i], schema.items.value, world);
      }
    }
  }

  // No template is resolved on the way.

  lemma {:induction false} ValidatingMissesNothing(value: Json, schema: Schema, world: World)
    ensures !Misses(Validate(value, schema, world))
    decreases schema, 2, 0
  {
    hide HasType, SchemaType, ValidateMembers, ValidateItems, Written;
    if value.JObject? { MembersMissNothing(value.properties, schema, 0, world); }
    if value.JArray? && schema.items.Some? { ItemsMissNothing(value.items, schema, world); }
  }

  lemma {:induction false} MembersMissNothing(properties: seq<(string, Json)>, schema: Schema, first: nat, world: World)
    requires first <= |schema.properties|
    ensures !Misses(ValidateMembers(properties, schema, first, world))
    decreases schema, 1, |schema.properties| - first
  {
    hide Validate;
    if first < |schema.properties| {
      var member := Property(properties, schema.properties[first].0);
      if member.Some? { ValidatingMissesNothing(member.value, schema.properties[first].1, world); }
      MembersMissNothing(properties, schema, first + 1, world);
    }
  }

  lemma {:induction false} ItemsMissNothing(items: seq<Json>, schema: Schema, world: World)
    requires schema.items.Some?
    ensures !Misses(ValidateItems(items, schema, world))
    decreases schema, 1, |items|
  {
    hide Validate;
    if items != [] {
      ValidatingMissesNothing(items[0], schema.items.value, world);
      ItemsMissNothing(items[1..], schema, world);
    }
  }
}
