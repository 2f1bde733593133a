/** `deepTransformKeys` (src/transformation/deepTransformKeys.ts): rename
    every key of a JSON value, at every depth, with a key function. Objects
    are association lists in `Object.entries` order. */
module DeepTransformKeys {
  import opened Wrappers

  datatype Json =
    | JNull
    | JBool(b: bool)
    | JNumber(n: real)
    | JString(s: string)
    | JArray(items: seq<Json>)
    | JObject(entries: seq<(string, Json)>)

  /** No two entries share a key. */
  predicate DistinctKeys<V>(entries: seq<(string, V)>) {
    forall i, j :: 0 <= i < j < |entries| ==> entries[i].0 != entries[j].0
  }

  /** A value a JavaScript program can hold: the keys of every object are
      distinct. */
  predicate Valid(value: Json) {
    match value
    case JArray(items) => forall i :: 0 <= i < |items| ==> Valid(items[i])
    case JObject(entries) =>
      DistinctKeys(entries) && forall i :: 0 <= i < |entries| ==> Valid(entries[i].1)
    case _ => true
  }

  /** The value stored under `key`, if any. */
  function Lookup<V>(entries: seq<(string, V)>, key: string): Option<V> {
    if entries == [] then None
    else if entries[0].0 == key then Some(entries[0].1)
    else Lookup(entries[1..], key)
  }

  /** The value of the last entry with `key`, if any. */
  function LastValue<V>(entries: seq<(string, V)>, key: string): Option<V> {
    if entries == [] then None
    else if entries[|entries| - 1].0 == key then Some(entries[|entries| - 1].1)
    else LastValue(entries[..|entries| - 1], key)
  }

  function Keys<V>(entries: seq<(string, V)>): set<string> {
    set i | 0 <= i < |entries| :: entries[i].0
  }

  /** Setting one property: an existing key keeps its place and takes the
      new value; a new key goes last. */
  function Put<V>(entries: seq<(string, V)>, key: string, value: V): (r: seq<(string, V)>)
    ensures |r| == |entries| || |r| == |entries| + 1
    ensures forall k :: Lookup(r, k) == if k == key then Some(value) else Lookup(entries, k)
    ensures Keys(r) == Keys(entries) + {key}
  {
    if entries == [] then
      var r := [(key, value)];
      KeysCons(r);
      assert r[1..] == [];
      r
    else
      KeysCons(entries);
      var r := if entries[0].0 == key then [(key, value)] + entries[1..]
        else [entries[0]] + Put(entries[1..], key, value);
      assert r[1..] == if entries[0].0 == key then entries[1..] else Put(entries[1..], key, value);
      KeysCons(r);
      r
  }

  lemma KeysCons<V>(entries: seq<(string, V)>)
    requires entries != []
    ensures Keys(entries) == {entries[0].0} + Keys(entries[1..])
  {
    forall k | k in Keys(entries) ensures k in {entries[0].0} + Keys(entries[1..]) {
      var i :| 0 <= i < |entries| && entries[i].0 == k;
      if i > 0 {
        assert entries[1..][i - 1] == entries[i];
      }
    }
    forall k | k in Keys(entries[1..]) ensures k in Keys(entries) {
      var i :| 0 <= i < |entries[1..]| && entries[1..][i].0 == k;
      assert entries[i + 1] == entries[1..][i];
    }
  }

  /** `Object.fromEntries`: the entries set one after the other. */
  function FromEntries<V>(entries: seq<(string, V)>): (r: seq<(string, V)>)
    ensures |r| <= |entries|
  {
    if entries == [] then []
    else
      var last := entries[|entries| - 1];
      Put(FromEntries(entries[..|entries| - 1]), last.0, last.1)
  }

  /** `deepTransformKeys(transformKey, value)`: leaves unchanged, arrays
      element by element, objects entry by entry, with the new keys set
      through `Object.fromEntries`. */
  function DeepTransformKeys(transformKey: string -> string, value: Json): (r: Json)
    ensures value.JNull? || value.JBool? || value.JNumber? || value.JString? ==> r == value
    ensures value.JArray? ==> r.JArray? && |r.items| == |value.items|
    ensures value.JArray? ==> forall i :: 0 <= i < |value.items| ==>
      r.items[i] == DeepTransformKeys(transformKey, value.items[i])
    ensures value.JObject? ==> r == JObject(FromEntries(TransformEntries(transformKey, value.entries)))
    decreases value, 1
  {
    match value
    case JArray(items) =>
      JArray(seq(|items|, i requires 0 <= i < |items| => DeepTransformKeys(transformKey, items[i])))
    case JObject(entries) => JObject(FromEntries(TransformEntries(transformKey, entries)))
    case _ => value
  }

  /** Every entry with its key transformed and its value transformed deeply,
      in entry order. */
  function TransformEntries(transformKey: string -> string, entries: seq<(string, Json)>): (r: seq<(string, Json)>)
    ensures |r| == |entries|
    ensures forall i :: 0 <= i < |entries| ==>
      r[i] == (transformKey(entries[i].0), DeepTransformKeys(transformKey, entries[i].1))
    decreases JObject(entries), 0
  {
    seq(|entries|, i requires 0 <= i < |entries| =>
      var entry := entries[i];
      assert entry in entries;
      (transformKey(entry.0), DeepTransformKeys(transformKey, entry.1)))
  }

  /** `deepTransformKeys(transformKey)`: the one-argument form returns the
      two-argument form with that key function. */
  function DeepTransformKeysWith(transformKey: string -> string): (f: Json -> Json)
    ensures forall value :: f(value) == DeepTransformKeys(transformKey, value)
  {
    value => DeepTransformKeys(transformKey, value)
  }

  /** The reference meaning of renaming: every key replaced where it
      stands, nothing merged. */
  function RenameKeys(transformKey: string -> string, value: Json): Json
    decreases value
  {
    match value
    case JArray(items) =>
      JArray(seq(|items|, i requires 0 <= i < |items| => RenameKeys(transformKey, items[i])))
    case JObject(entries) =>
      JObject(seq(|entries|, i requires 0 <= i < |entries| =>
        var entry := entries[i];
        assert entry in entries;
        (transformKey(entry.0), RenameKeys(transformKey, entry.1))))
    case _ => value
  }

  ghost predicate Injective(transformKey: string -> string) {
    forall a, b :: transformKey(a) == transformKey(b) ==> a == b
  }

  /** Setting a key that is not there yet appends it. */
  lemma {:induction false} PutNew<V>(entries: seq<(string, V)>, key: string, value: V)
    requires key !in Keys(entries)
    ensures Put(entries, key, value) == entries + [(key, value)]
  {
    if entries != [] {
      assert entries[0].0 in Keys(entries);
      assert Keys(entries[1..]) <= Keys(entries) by {
        forall k | k in Keys(entries[1..]) ensures k in Keys(entries) {
          var i :| 0 <= i < |entries[1..]| && entries[1..][i].0 == k;
          assert entries[i + 1].0 == k;
        }
      }
      PutNew(entries[1..], key, value);
      assert [entries[0]] + (entries[1..] + [(key, value)]) == entries + [(key, value)];
    }
  }

  /** Setting a key keeps the keys distinct. */
  lemma {:induction false} PutDistinct<V>(entries: seq<(string, V)>, key: string, value: V)
    requires DistinctKeys(entries)
    ensures DistinctKeys(Put(entries, key, value))
  {
    if entries != [] && entries[0].0 != key {
      var rest := Put(entries[1..], key, value);
      PutDistinct(entries[1..], key, value);
      forall i | 0 <= i < |entries[1..]| ensures entries[1..][i].0 != entries[0].0 {
        assert entries[1..][i] == entries[i + 1];
      }
      assert entries[0].0 !in Keys(entries[1..]);
      var r := [entries[0]] + rest;
      forall i, j | 0 <= i < j < |r| ensures r[i].0 != r[j].0 {
        if i == 0 {
          assert r[j] == rest[j - 1];
          assert rest[j - 1].0 in Keys(rest);
        }
      }
    } else if entries != [] {
      var r := [(key, value)] + entries[1..];
      forall i, j | 0 <= i < j < |r| ensures r[i].0 != r[j].0 {
        assert r[j] == entries[j];
        if i > 0 {
          assert r[i] == entries[i];
        }
      }
    }
  }

  /** The keys of all entries are those of all but the last, and the
      last one's. */
  lemma KeysSnoc<V>(entries: seq<(string, V)>)
    requires entries != []
    ensures Keys(entries) == Keys(entries[..|entries| - 1]) + {entries[|entries| - 1].0}
  {
    var init := entries[..|entries| - 1];
    forall k | k in Keys(entries) ensures k in Keys(init) + {entries[|entries| - 1].0} {
      var i :| 0 <= i < |entries| && entries[i].0 == k;
      if i < |init| {
        assert init[i] == entries[i];
      }
    }
    forall k | k in Keys(init) ensures k in Keys(entries) {
      var i :| 0 <= i < |init| && init[i].0 == k;
      assert entries[i] == init[i];
    }
  }

  /** Distinct keys stay distinct without the last entry, whose key is not
      among the others. */
  lemma DistinctSnoc<V>(entries: seq<(string, V)>)
    requires entries != [] && DistinctKeys(entries)
    ensures DistinctKeys(entries[..|entries| - 1])
    ensures entries[|entries| - 1].0 !in Keys(entries[..|entries| - 1])
  {
    var init := entries[..|entries| - 1];
    forall i, j | 0 <= i < j < |init| ensures init[i].0 != init[j].0 {
      assert init[i] == entries[i] && init[j] == entries[j];
    }
    forall k | k in Keys(init) ensures k != entries[|entries| - 1].0 {
      var i :| 0 <= i < |init| && init[i].0 == k;
      assert init[i] == entries[i];
    }
  }

  /** The object `Object.fromEntries` builds has distinct keys, exactly the
      keys of the entries. */
  lemma {:induction false} FromEntriesDistinct<V>(entries: seq<(string, V)>)
    ensures DistinctKeys(FromEntries(entries))
    ensures Keys(FromEntries(entries)) == Keys(entries)
  {
    if entries != [] {
      var init := entries[..|entries| - 1];
      var last := entries[|entries| - 1];
      FromEntriesDistinct(init);
      PutDistinct(FromEntries(init), last.0, last.1);
      KeysSnoc(entries);
    }
  }

  /** When two entries share a key the later one wins: each key of the
      built object holds the value of the last entry with that key. */
  lemma {:induction false} FromEntriesLaterWins<V>(entries: seq<(string, V)>, key: string)
    ensures Lookup(FromEntries(entries), key) == LastValue(entries, key)
  {
    if entries != [] {
      FromEntriesLaterWins(entries[..|entries| - 1], key);
    }
  }

  /** Entries whose keys are distinct come out as they went in. */
  lemma {:induction false} FromEntriesOfDistinct<V>(entries: seq<(string, V)>)
    requires DistinctKeys(entries)
    ensures FromEntries(entries) == entries
  {
    if entries != [] {
      var init := entries[..|entries| - 1];
      var last := entries[|entries| - 1];
      DistinctSnoc(entries);
      FromEntriesOfDistinct(init);
      PutNew(init, last.0, last.1);
      assert init + [last] == entries;
    }
  }

  /** With a key function that never maps two keys to one, the keys are
      renamed where they stand and the tree's shape and leaves are kept. */
  lemma {:induction false} InjectiveRenames(transformKey: string -> string, value: Json)
    requires Injective(transformKey) && Valid(value)
    ensures DeepTransformKeys(transformKey, value) == RenameKeys(transformKey, value)
    decreases value
  {
    match value
    case JArray(items) =>
      forall i | 0 <= i < |items|
        ensures DeepTransformKeys(transformKey, items[i]) == RenameKeys(transformKey, items[i])
      {
        InjectiveRenames(transformKey, items[i]);
      }
    case JObject(entries) =>
      var mapped := TransformEntries(transformKey, entries);
      var renamed := RenameKeys(transformKey, value).entries;
      forall i | 0 <= i < |entries|
        ensures mapped[i] == renamed[i]
      {
        assert entries[i] in entries;
        InjectiveRenames(transformKey, entries[i].1);
      }
      assert mapped == renamed;
      forall i, j | 0 <= i < j < |mapped| ensures mapped[i].0 != mapped[j].0 {
        assert entries[i].0 != entries[j].0;
      }
      FromEntriesOfDistinct(mapped);
    case _ =>
  }

  /** `RenameKeys` with the identity changes nothing. */
  lemma {:induction false} RenameIdentity(value: Json)
    ensures RenameKeys(k => k, value) == value
    decreases value
  {
    match value
    case JArray(items) =>
      forall i | 0 <= i < |items| ensures RenameKeys(k => k, items[i]) == items[i] {
        RenameIdentity(items[i]);
      }
    case JObject(entries) =>
      forall i | 0 <= i < |entries| ensures RenameKeys(k => k, entries[i].1) == entries[i].1 {
        assert entries[i] in entries;
        RenameIdentity(entries[i].1);
      }
    case _ =>
  }

  /** With the identity key function the result equals the input. */
  lemma IdentityKeepsValue(value: Json)
    requires Valid(value)
    ensures DeepTransformKeys(k => k, value) == value
  {
    InjectiveRenames(k => k, value);
    RenameIdentity(value);
  }

  /** If the key function maps two keys of one object to the same string,
      the value of the later entry is the one kept. */
  lemma CollidingKeysLaterWins(transformKey: string -> string, entries: seq<(string, Json)>, key: string)
    ensures Lookup(DeepTransformKeys(transformKey, JObject(entries)).entries, key) ==
      LastValue(TransformEntries(transformKey, entries), key)
  {
    FromEntriesLaterWins(TransformEntries(transformKey, entries), key);
  }
}
