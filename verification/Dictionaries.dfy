/** A dictionary as the list of its entries in insertion order; `same` maps equal keys to one text. */
module Dictionaries {
  import opened Optional

  type Entries<V> = seq<(string, V)>

  type Norm = string -> string

  function Exactly(key: string): string { key }

  /** `dictionary[key] = value`: in place when the key is there, keeping its first spelling, else at the end. */
  function Put<V>(entries: Entries<V>, key: string, value: V, same: Norm): Entries<V> {
    if entries == [] then [(key, value)]
    else if same(entries[0].0) == same(key) then [(entries[0].0, value)] + entries[1..]
    else [entries[0]] + Put(entries[1..], key, value, same)
  }

  function Lookup<V>(entries: Entries<V>, key: string, same: Norm): Option<V> {
    if entries == [] then None
    else if same(entries[0].0) == same(key) then Some(entries[0].1)
    else Lookup(entries[1..], key, same)
  }

  predicate DistinctKeys<V>(entries: Entries<V>, same: Norm) {
    forall i, j :: 0 <= i < j < |entries| ==> same(entries[i].0) != same(entries[j].0)
  }

  predicate HasKey<V>(entries: Entries<V>, key: string, same: Norm) {
    exists i :: 0 <= i < |entries| && same(entries[i].0) == same(key)
  }

  /** Putting pairs one after the other into an empty dictionary. */
  function Build<V>(pairs: Entries<V>, same: Norm): Entries<V> {
    if pairs == [] then []
    else Put(Build(pairs[..|pairs| - 1], same), pairs[|pairs| - 1].0, pairs[|pairs| - 1].1, same)
  }

  /** The value of the last pair with that key. */
  function LastValue<V>(pairs: Entries<V>, key: string, same: Norm): Option<V> {
    if pairs == [] then None
    else if same(pairs[|pairs| - 1].0) == same(key) then Some(pairs[|pairs| - 1].1)
    else LastValue(pairs[..|pairs| - 1], key, same)
  }

  lemma {:induction false} PutLookup<V>(entries: Entries<V>, key: string, value: V, same: Norm, k: string)
    ensures Lookup(Put(entries, key, value, same), k, same) ==
            if same(k) == same(key) then Some(value) else Lookup(entries, k, same)
  {
    if entries != [] && same(entries[0].0) != same(key) { PutLookup(entries[1..], key, value, same, k); }
  }

  lemma {:induction false} PutKeys<V>(entries: Entries<V>, key: string, value: V, same: Norm, e: (string, V))
    requires e in Put(entries, key, value, same)
    ensures e.1 == value || e in entries
    ensures e.0 == key || exists i :: 0 <= i < |entries| && entries[i].0 == e.0
  {
    if entries != [] {
      if same(entries[0].0) == same(key) {
        if e != (entries[0].0, value) {
          var i :| 0 <= i < |entries[1..]| && entries[1..][i] == e;
          assert entries[i + 1].0 == e.0;
        }
      } else if e != entries[0] {
        PutKeys(entries[1..], key, value, same, e);
        if e.0 != key {
          var i :| 0 <= i < |entries[1..]| && entries[1..][i].0 == e.0;
          assert entries[i + 1].0 == e.0;
        }
      }
    }
  }

  lemma {:induction false} PutDistinct<V>(entries: Entries<V>, key: string, value: V, same: Norm)
    requires DistinctKeys(entries, same)
    ensures DistinctKeys(Put(entries, key, value, same), same)
  {
    if entries != [] && same(entries[0].0) != same(key) {
      var rest := Put(entries[1..], key, value, same);
      PutDistinct(entries[1..], key, value, same);
      forall j | 0 <= j < |rest| ensures same(rest[j].0) != same(entries[0].0) {
        PutKeys(entries[1..], key, value, same, rest[j]);
        if rest[j].0 != key {
          var i :| 0 <= i < |entries[1..]| && entries[1..][i].0 == rest[j].0;
          assert entries[i + 1].0 == rest[j].0;
        }
      }
    }
  }

  /** A dictionary built from pairs holds each of their keys once, with the value of its last pair. */
  lemma {:induction false} BuildExactly<V>(pairs: Entries<V>, same: Norm, k: string)
    ensures DistinctKeys(Build(pairs, same), same) && Lookup(Build(pairs, same), k, same) == LastValue(pairs, k, same)
  {
    hide Put, Lookup, DistinctKeys;
    if pairs == [] {
      Nothing<V>(same, k);
    } else {
      var n := |pairs| - 1;
      BuildExactly(pairs[..n], same, k);
      PutLookup(Build(pairs[..n], same), pairs[n].0, pairs[n].1, same, k);
      PutDistinct(Build(pairs[..n], same), pairs[n].0, pairs[n].1, same);
    }
  }

  lemma Nothing<V>(same: Norm, k: string)
    ensures DistinctKeys<V>([], same) && Lookup<V>([], k, same) == None
  {
  }

  /** Keys and values of the dictionary come from the pairs. */
  lemma {:induction false} BuildFrom<V>(pairs: Entries<V>, same: Norm, e: (string, V))
    requires e in Build(pairs, same)
    ensures (exists p :: p in pairs && p.0 == e.0) && exists p :: p in pairs && p.1 == e.1
  {
    hide Put;
    var n := |pairs| - 1;
    var before, last := Build(pairs[..n], same), pairs[n];
    assert last in pairs && forall p :: p in pairs[..n] ==> p in pairs;
    PutKeys(before, last.0, last.1, same, e);
    if e.1 != last.1 { BuildFrom(pairs[..n], same, e); }
    if e.0 != last.0 {
      var i :| 0 <= i < |before| && before[i].0 == e.0;
      BuildFrom(pairs[..n], same, before[i]);
    }
  }

  lemma {:induction false} PutNew<V>(entries: Entries<V>, key: string, value: V, same: Norm)
    requires !HasKey(entries, key, same)
    ensures Put(entries, key, value, same) == entries + [(key, value)]
  {
    if entries != [] {
      assert same(entries[0].0) != same(key);
      assert forall i :: 0 <= i < |entries[1..]| ==> entries[1..][i] == entries[i + 1];
      PutNew(entries[1..], key, value, same);
    }
  }
}
