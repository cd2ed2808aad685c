/**
 * The part of JavaScript's object semantics that the event helpers rely on:
 * an object is a sequence of own enumerable properties in `Object.keys`
 * order, each key at most once. Assigning to a key that is already present
 * replaces its value where it stands; assigning to a new key appends it.
 */
module JsObject {
  import opened Wrappers

  /** The values an event payload or envelope can hold. `ServerTimestamp`
      stands for the database's server-side timestamp sentinel, whose
      concrete representation is left opaque. */
  datatype Value =
    | Str(s: string)
    | Num(n: int)
    | Bool(b: bool)
    | Null
    | ServerTimestamp
    | Object(entries: seq<Entry>)

  datatype Entry = Entry(key: string, val: Value)

  type Obj = seq<Entry>

  /** `Object.keys(o)`. */
  function Keys(o: Obj): (ks: seq<string>)
    ensures |ks| == |o|
    ensures forall i {:trigger ks[i]} :: 0 <= i < |o| ==> ks[i] == o[i].key
  {
    if o == [] then [] else [o[0].key] + Keys(o[1..])
  }

  predicate Distinct(s: seq<string>)
  {
    forall i, j :: 0 <= i < j < |s| ==> s[i] != s[j]
  }

  /** Every JavaScript object has each own key at most once. */
  predicate UniqueKeys(o: Obj)
  {
    Distinct(Keys(o))
  }

  function Elements(s: seq<string>): set<string>
  {
    set x | x in s
  }

  /** `o[k]` for an own property; `None` where JavaScript gives `undefined`. */
  function Lookup(o: Obj, k: string): (r: Option<Value>)
    ensures r.Some? <==> k in Keys(o)
  {
    if o == [] then None
    else if o[0].key == k then Some(o[0].val)
    else Lookup(o[1..], k)
  }

  /** In an object with unique keys, looking up the i-th key yields the i-th value. */
  lemma {:induction false} LookupAt(o: Obj, i: nat)
    requires UniqueKeys(o)
    requires i < |o|
    ensures Lookup(o, o[i].key) == Some(o[i].val)
  {
    if i > 0 {
      assert Keys(o)[0] != Keys(o)[i];
      UniqueTail(o);
      LookupAt(o[1..], i - 1);
    }
  }

  /** The property assignment `o[k] = v`. */
  function Put(o: Obj, k: string, v: Value): (r: Obj)
    ensures k in Keys(r)
    ensures |r| == if k in Keys(o) then |o| else |o| + 1
  {
    if o == [] then [Entry(k, v)]
    else if o[0].key == k then [Entry(k, v)] + o[1..]
    else [o[0]] + Put(o[1..], k, v)
  }

  /** Assigning to a key the object does not have appends a property at the end. */
  lemma {:induction false} PutNew(o: Obj, k: string, v: Value)
    requires k !in Keys(o)
    ensures Put(o, k, v) == o + [Entry(k, v)]
  {
    if o != [] {
      assert Keys(o) == [o[0].key] + Keys(o[1..]);
      PutNew(o[1..], k, v);
    }
  }

  /** Assigning keeps the existing keys in their order; a new key goes last. */
  lemma {:induction false} PutKeys(o: Obj, k: string, v: Value)
    ensures Keys(Put(o, k, v)) == if k in Keys(o) then Keys(o) else Keys(o) + [k]
  {
    if o != [] {
      assert Keys(o) == [o[0].key] + Keys(o[1..]);
      if o[0].key == k {
        assert Keys(Put(o, k, v)) == [k] + Keys(o[1..]);
      } else {
        PutKeys(o[1..], k, v);
        assert Keys(Put(o, k, v)) == [o[0].key] + Keys(Put(o[1..], k, v));
      }
    }
  }

  /** Assigning to an object with unique keys keeps its keys unique. */
  lemma PutUnique(o: Obj, k: string, v: Value)
    requires UniqueKeys(o)
    ensures UniqueKeys(Put(o, k, v))
  {
    PutKeys(o, k, v);
    if k !in Keys(o) {
      var ks := Keys(o) + [k];
      forall i, j | 0 <= i < j < |ks| ensures ks[i] != ks[j] {
        if j == |ks| - 1 {
          assert ks[i] == Keys(o)[i];
        }
      }
    }
  }

  /** After `o[k] = v`, reading `k` gives `v` and every other key reads as before. */
  lemma {:induction false} PutLookup(o: Obj, k: string, v: Value, k': string)
    ensures Lookup(Put(o, k, v), k') == if k' == k then Some(v) else Lookup(o, k')
  {
    if o != [] && o[0].key != k {
      PutLookup(o[1..], k, v, k');
    }
  }

  /** The keys of `s` that are not in `existing`, in the order of `s`. */
  function NewKeys(s: seq<string>, existing: seq<string>): seq<string>
  {
    if s == [] then []
    else (if s[0] in existing then [] else [s[0]]) + NewKeys(s[1..], existing)
  }

  /** When `s` and `existing` share no key, every key of `s` is new. */
  lemma {:induction false} NewKeysDisjoint(s: seq<string>, existing: seq<string>)
    requires forall x :: x in s ==> x !in existing
    ensures NewKeys(s, existing) == s
  {
    if s != [] {
      NewKeysDisjoint(s[1..], existing);
    }
  }

  /** `Object.assign(target, source)`: the properties of `source`, in order,
      assigned one by one onto `target`. */
  function Assign(target: Obj, source: Obj): (r: Obj)
    ensures |target| <= |r| <= |target| + |source|
    decreases |source|
  {
    if source == [] then target
    else Assign(Put(target, source[0].key, source[0].val), source[1..])
  }

  /** After `Object.assign`, the target keeps its own keys in their places and
      gains the source's new keys at the end, in the source's order. */
  lemma {:induction false} AssignKeys(target: Obj, source: Obj)
    requires UniqueKeys(source)
    ensures Keys(Assign(target, source)) == Keys(target) + NewKeys(Keys(source), Keys(target))
    decreases |source|
  {
    if source != [] {
      var k, rest := source[0].key, source[1..];
      var t := Put(target, k, source[0].val);
      assert Assign(target, source) == Assign(t, rest);
      assert Keys(source) == [k] + Keys(rest);
      UniqueTail(source);
      PutKeys(target, k, source[0].val);
      AssignKeys(t, rest);
      NewKeysStep(k, Keys(rest), Keys(target));
    }
  }

  /** `Object.assign` onto an object keeps every key unique. */
  lemma {:induction false} AssignUnique(target: Obj, source: Obj)
    requires UniqueKeys(target)
    ensures UniqueKeys(Assign(target, source))
    decreases |source|
  {
    if source != [] {
      PutUnique(target, source[0].key, source[0].val);
      AssignUnique(Put(target, source[0].key, source[0].val), source[1..]);
    }
  }

  /** After `Object.assign`, a key of the source holds the source's value;
      every other key holds the target's value. */
  lemma {:induction false} AssignLookup(target: Obj, source: Obj)
    requires UniqueKeys(source)
    ensures forall k :: Lookup(Assign(target, source), k) ==
                        if k in Keys(source) then Lookup(source, k) else Lookup(target, k)
    decreases |source|
  {
    if source != [] {
      var t := Put(target, source[0].key, source[0].val);
      UniqueTail(source);
      assert Keys(source) == [source[0].key] + Keys(source[1..]);
      forall k {
        PutLookup(target, source[0].key, source[0].val, k);
      }
      AssignLookup(t, source[1..]);
    }
  }

  /** Dropping the first property of an object with unique keys leaves an
      object with unique keys that no longer mentions the first key. */
  lemma UniqueTail(o: Obj)
    requires UniqueKeys(o)
    requires o != []
    ensures UniqueKeys(o[1..])
    ensures o[0].key !in Keys(o[1..])
  {
    forall a, b | 0 <= a < b < |o[1..]| ensures Keys(o[1..])[a] != Keys(o[1..])[b] {
      assert Keys(o)[a + 1] != Keys(o)[b + 1];
    }
    forall a | 0 <= a < |o[1..]| ensures Keys(o[1..])[a] != o[0].key {
      assert Keys(o)[0] != Keys(o)[a + 1];
    }
  }

  /** One step of `Object.assign` on keys: a key already present adds nothing,
      a fresh key is appended before the rest are considered. */
  lemma NewKeysStep(k: string, rest: seq<string>, existing: seq<string>)
    requires k !in rest
    ensures var existing' := if k in existing then existing else existing + [k];
            existing + NewKeys([k] + rest, existing) == existing' + NewKeys(rest, existing')
  {
    assert ([k] + rest)[1..] == rest;
    if k !in existing {
      NewKeysExtend(rest, existing, k);
      assert existing + ([k] + NewKeys(rest, existing)) == existing + [k] + NewKeys(rest, existing);
    }
  }

  /** Adding a key that `s` does not mention to the existing keys changes nothing. */
  lemma {:induction false} NewKeysExtend(s: seq<string>, existing: seq<string>, x: string)
    requires x !in s
    ensures NewKeys(s, existing + [x]) == NewKeys(s, existing)
  {
    if s != [] {
      NewKeysExtend(s[1..], existing, x);
    }
  }
}
