/**
 * The event helpers of the admin command layer: `cast_event_payload`, which
 * checks a command's payload against the fields an event requires, and
 * `create_event`, which wraps the checked fields in an event envelope.
 */
module AdminFunctions {
  import opened Wrappers
  import opened JsObject

  /** `EVENT_VERSION`: the schema version stamped on every event. */
  const EventVersion: int := 0

  /** The two exceptions `cast_event_payload` throws, with the values their
      messages interpolate. */
  datatype CastError =
    | ExtraneousFields(expected: seq<string>, got: seq<string>)
    | NoMatch(eventName: string, expected: seq<string>, prop: string)

  /** Position `i` holds the first property, in key order, that is not required. */
  predicate IsFirstUnknown(props: seq<string>, required: seq<string>, i: int)
  {
    0 <= i < |props| && props[i] !in required &&
    forall j :: 0 <= j < i ==> props[j] in required
  }

  /** The position of the first property that is not required, if any. */
  function FirstUnknown(props: seq<string>, required: seq<string>): (r: Option<nat>)
    ensures r.None? <==> forall i :: 0 <= i < |props| ==> props[i] in required
    ensures r.Some? ==> IsFirstUnknown(props, required, r.value)
  {
    if props == [] then None
    else if props[0] !in required then Some(0)
    else match FirstUnknown(props[1..], required)
      case None => None
      case Some(i) => Some(i + 1)
  }

  /** There is only one first unknown property. */
  lemma FirstUnknownAt(props: seq<string>, required: seq<string>, i: int)
    requires IsFirstUnknown(props, required, i)
    ensures FirstUnknown(props, required) == Some(i)
  {
  }

  /** What `cast_event_payload` returns or throws: a key-count mismatch is
      reported before anything else; then the first payload key that is not
      required; otherwise the payload's own properties come back unchanged. */
  function Cast(eventName: string, required: seq<string>, payload: Obj): (r: Result<Obj, CastError>)
    ensures |payload| != |required| <==> r == Failure(ExtraneousFields(required, Keys(payload)))
    ensures r.Success? <==>
              |payload| == |required| && forall i :: 0 <= i < |payload| ==> Keys(payload)[i] in required
    ensures r.Success? ==> r.value == payload
  {
    var props := Keys(payload);
    if |props| != |required| then Failure(ExtraneousFields(required, props))
    else match FirstUnknown(props, required)
      case Some(i) => Failure(NoMatch(eventName, required, props[i]))
      case None => Success(payload)
  }

  /** `cast_event_payload`: walks the payload's keys in order, copying each
      required one into a fresh object and throwing on the first stray key. */
  method CastEventPayload(eventName: string, required: seq<string>, payload: Obj)
    returns (r: Result<Obj, CastError>)
    requires UniqueKeys(payload)
    ensures r == Cast(eventName, required, payload)
  {
    var fields: Obj := [];
    var properties := Keys(payload);
    if |properties| != |required| {
      return Failure(ExtraneousFields(required, properties));
    }
    for i := 0 to |properties|
      invariant fields == payload[..i]
      invariant forall j :: 0 <= j < i ==> properties[j] in required
    {
      var prop := properties[i];
      if prop !in required {
        FirstUnknownAt(properties, required, i);
        return Failure(NoMatch(eventName, required, prop));
      }
      assert Put(fields, prop, Lookup(payload, prop).value) == payload[..i + 1] by {
        LookupAt(payload, i);
        KeyNotInPrefix(payload, i);
        CopyEntry(fields, payload[i]);
        PrefixStep(payload, i);
      }
      fields := Put(fields, prop, Lookup(payload, prop).value);
    }
    assert payload[..|properties|] == payload;
    return Success(fields);
  }

  /** In an object with unique keys, the i-th key is not among the keys
      before it. */
  lemma KeyNotInPrefix(o: Obj, i: nat)
    requires UniqueKeys(o)
    requires i < |o|
    ensures o[i].key !in Keys(o[..i])
  {
    var before := Keys(o[..i]);
    forall j | 0 <= j < i ensures before[j] != o[i].key {
      assert before[j] == o[j].key == Keys(o)[j];
      assert Keys(o)[i] == o[i].key;
    }
  }

  /** The first i + 1 elements are the first i followed by the i-th. */
  lemma PrefixStep<T>(s: seq<T>, i: nat)
    requires i < |s|
    ensures s[..i + 1] == s[..i] + [s[i]]
  {
  }

  /** Copying a property onto an object that lacks its key appends exactly
      that property. */
  lemma CopyEntry(p: Obj, e: Entry)
    requires e.key !in Keys(p)
    ensures Put(p, e.key, e.val) == p + [e]
  {
    assert e == Entry(e.key, e.val);
    PutNew(p, e.key, e.val);
  }

  /** When the counts agree, the "no match" error is thrown exactly when some
      key is not required, and it names the first such key. */
  lemma CastNoMatch(eventName: string, required: seq<string>, payload: Obj)
    requires |payload| == |required|
    ensures Cast(eventName, required, payload).Failure? ==>
              exists i :: IsFirstUnknown(Keys(payload), required, i)
    ensures (exists i :: IsFirstUnknown(Keys(payload), required, i)) ==>
              Cast(eventName, required, payload).Failure?
    ensures forall i :: IsFirstUnknown(Keys(payload), required, i) ==>
              Cast(eventName, required, payload) == Failure(NoMatch(eventName, required, payload[i].key))
  {
  }

  /** A sequence without repeats has as many distinct elements as entries. */
  lemma {:induction false} DistinctElements(s: seq<string>)
    requires Distinct(s)
    ensures |Elements(s)| == |s|
  {
    if s != [] {
      assert Elements(s) == {s[0]} + Elements(s[1..]);
      assert s[0] !in Elements(s[1..]) by {
        forall j | 0 <= j < |s[1..]| ensures s[1..][j] != s[0] {
          assert s[j + 1] != s[0];
        }
      }
      DistinctElements(s[1..]);
    }
  }

  /** A subset as large as the whole set is the whole set. */
  lemma {:induction false} SubsetOfSameSize(a: set<string>, b: set<string>)
    requires a <= b
    requires |a| == |b|
    ensures a == b
  {
    var d := b - a;
    assert b == a + d;
    assert a * d == {};
    assert |b| == |a| + |d|;
    assert d == {};
  }

  /** On success with a required list free of repeats, the payload's keys are
      exactly the required fields. */
  lemma CastKeySet(eventName: string, required: seq<string>, payload: Obj)
    requires UniqueKeys(payload)
    requires Distinct(required)
    requires Cast(eventName, required, payload).Success?
    ensures Elements(Keys(payload)) == Elements(required)
  {
    DistinctElements(Keys(payload));
    DistinctElements(required);
    SubsetOfSameSize(Elements(Keys(payload)), Elements(required));
  }

  /** A payload that passes the check against two distinct required fields
      has exactly those two keys. */
  lemma TwoFieldCastKeys(eventName: string, a: string, b: string, payload: Obj)
    requires UniqueKeys(payload)
    requires a != b
    ensures Cast(eventName, [a, b], payload).Success? ==>
              |payload| == 2 && a in Keys(payload) && b in Keys(payload)
  {
    var keys := Keys(payload);
    if Cast(eventName, [a, b], payload).Success? {
      assert Distinct([a, b]);
      CastKeySet(eventName, [a, b], payload);
      assert a in Elements(keys) && b in Elements(keys);
    }
  }

  /** A payload with exactly the two required keys passes the check. */
  lemma TwoFieldCastPasses(eventName: string, a: string, b: string, payload: Obj)
    requires a != b
    requires |payload| == 2 && a in Keys(payload) && b in Keys(payload)
    ensures Cast(eventName, [a, b], payload).Success?
  {
  }

  /** Casting the result of a successful cast again yields the same object. */
  lemma CastIdempotent(eventName: string, required: seq<string>, payload: Obj)
    requires Cast(eventName, required, payload).Success?
    ensures var fields := Cast(eventName, required, payload).value;
            Cast(eventName, required, fields) == Success(fields)
  {
  }

  /** The keys every event envelope starts with, in this order. */
  const EnvelopeKeys: seq<string> := ["event_name", "timestamp", "version"]

  function Envelope(eventName: string, version: Value): (e: Obj)
    ensures Keys(e) == EnvelopeKeys
    ensures UniqueKeys(e)
  {
    [Entry("event_name", Str(eventName)), Entry("timestamp", ServerTimestamp), Entry("version", version)]
  }

  /** Reading each envelope key gives the value the envelope was built with. */
  lemma EnvelopeLookup(eventName: string, version: Value)
    ensures Lookup(Envelope(eventName, version), "event_name") == Some(Str(eventName))
    ensures Lookup(Envelope(eventName, version), "timestamp") == Some(ServerTimestamp)
    ensures Lookup(Envelope(eventName, version), "version") == Some(version)
  {
    var e := Envelope(eventName, version);
    assert e[0].key != "timestamp" && e[0].key != "version";
    assert e[1].key != "version";
    assert e[1..][1..] == [e[2]];
    assert Lookup(e[1..][1..], "version") == Some(version);
  }

  /** `create_event`: the envelope with the fields assigned over it, so a
      field named like an envelope key replaces the envelope's value. */
  function CreateEvent(eventName: string, fields: Obj, version: Value): (event: Obj)
    requires UniqueKeys(fields)
    ensures UniqueKeys(event)
    ensures Keys(event) == EnvelopeKeys + NewKeys(Keys(fields), EnvelopeKeys)
    ensures forall k {:trigger Lookup(event, k)} :: k in Keys(fields) ==> Lookup(event, k) == Lookup(fields, k)
    ensures "event_name" !in Keys(fields) ==> Lookup(event, "event_name") == Some(Str(eventName))
    ensures "timestamp" !in Keys(fields) ==> Lookup(event, "timestamp") == Some(ServerTimestamp)
    ensures "version" !in Keys(fields) ==> Lookup(event, "version") == Some(version)
  {
    var envelope := Envelope(eventName, version);
    EnvelopeLookup(eventName, version);
    AssignKeys(envelope, fields);
    AssignUnique(envelope, fields);
    AssignLookup(envelope, fields);
    Assign(envelope, fields)
  }

  /** When no field is named like an envelope key, the event is the envelope
      followed by the fields, and the envelope values are untouched. */
  lemma CreateEventPlainFields(eventName: string, fields: Obj, version: Value)
    requires UniqueKeys(fields)
    requires forall k :: k in Keys(fields) ==> k !in EnvelopeKeys
    ensures var event := CreateEvent(eventName, fields, version);
            Keys(event) == EnvelopeKeys + Keys(fields) &&
            Lookup(event, "event_name") == Some(Str(eventName)) &&
            Lookup(event, "timestamp") == Some(ServerTimestamp) &&
            Lookup(event, "version") == Some(version)
  {
    assert EnvelopeKeys[0] == "event_name" && EnvelopeKeys[1] == "timestamp" && EnvelopeKeys[2] == "version";
    NewKeysDisjoint(Keys(fields), EnvelopeKeys);
  }
}
