# Access-News admin: event helpers

A Dafny model of the event-construction layer of the Access-News admin
scripts (`admin-functions.js`). An admin command such as `add_person` is
handled by the `people` aggregate: its payload is checked against the fields
the resulting event requires (`cast_event_payload`), and the checked fields
are wrapped in an event envelope `{event_name, timestamp, version, ...fields}`
(`create_event`) stamped with `EVENT_VERSION` and the database's server
timestamp.

Files:

- `wrappers.dfy` — `Option` and `Result` (a returned value or a thrown error).
- `js_object.dfy` — the JavaScript object semantics the helpers rely on. An
  object is a sequence of `(key, value)` entries in `Object.keys` order with
  unique keys. `Put` is the assignment `o[k] = v`: an existing key keeps its
  place and a new key goes last. `Assign` is `Object.assign`.
- `admin_functions.dfy` — `EVENT_VERSION`, `cast_event_payload` (a loop
  method `CastEventPayload`, proved equal to the reference function `Cast`),
  and `create_event` (`CreateEvent`).
- `people.dfy` — `people.execute` (`Execute`) with its `add_person`,
  `add_user` and fall-through paths.

Thrown exceptions are modelled as values: `CastError.ExtraneousFields` for the
key-count error and `CastError.NoMatch` for the unknown-key error. Each
carries the values its message interpolates. `people.execute`'s outcome is a
`Completion`: an event returned, `undefined` returned, or an error thrown.
The entry points `CastEventPayload`, `CreateEvent` and `Execute`, and the
lemmas that rely on distinct keys, require `UniqueKeys`, which every
JavaScript object satisfies. The object primitives `Keys`, `Lookup`, `Put`
and `Assign` are defined on every entry sequence.

## Model

| member | source | states |
|---|---|---|
| `JsObject.Keys` | admin-functions.js:112 | `Object.keys(payload)` lists one key per property, the i-th key being the i-th property's |
| `JsObject.Lookup` | admin-functions.js:126 | reading `o[k]` finds a value exactly when `k` is one of the object's keys (otherwise `undefined`) |
| `JsObject.LookupAt` | admin-functions.js:126 | reading `payload[payload_prop]` for the i-th key of an object yields the i-th value |
| `JsObject.Put` | admin-functions.js:126 | after `o[k] = v` the object has key `k`; it gains a property exactly when `k` was new, and otherwise keeps its size |
| `JsObject.PutNew` | admin-functions.js:126 | assigning a key the object does not yet have appends that property at the end of the key order |
| `JsObject.PutKeys` | admin-functions.js:126 | assignment keeps existing keys in place; a new key is appended |
| `JsObject.PutUnique` | admin-functions.js:126 | assignment keeps an object's keys unique |
| `JsObject.PutLookup` | admin-functions.js:126 | after `o[k] = v`, `k` reads `v` and every other key reads as before |
| `JsObject.Assign` | admin-functions.js:101 | `Object.assign(target, source)` never shrinks the target and adds at most one property per source property |
| `JsObject.AssignKeys` | admin-functions.js:101 | after `Object.assign(target, source)`, the target's keys keep their order and the source's new keys follow in source order |
| `JsObject.AssignUnique` | admin-functions.js:101 | `Object.assign` keeps the target's keys unique |
| `JsObject.AssignLookup` | admin-functions.js:101 | after `Object.assign`, every source key holds the source's value (the later write wins); every other key holds the target's value |
| `AdminFunctions.FirstUnknown` | admin-functions.js:118-124 | finds no key exactly when every payload key is required; otherwise returns the position of the first key, in key order, that is not required |
| `AdminFunctions.FirstUnknownAt` | admin-functions.js:118-124 | the first unrequired key is unique: whichever position is first is the one reported |
| `AdminFunctions.Cast` | admin-functions.js:105-130 | throws "Extraneous fields" exactly when the key count differs from the required count; succeeds exactly when the counts agree and every key is required; on success returns an object equal to the payload (same keys, order and values) |
| `AdminFunctions.CastEventPayload` | admin-functions.js:105-130 | the loop that copies each key into a fresh object returns or throws exactly what `Cast` does, so a successful result is an object equal to the payload (same keys, order and values) |
| `AdminFunctions.CastNoMatch` | admin-functions.js:118-124 | when the counts agree, the "no match for" error is thrown exactly when some key is not required, and it names the first such key |
| `AdminFunctions.CastKeySet` | admin-functions.js:114-124 | on success with a repeat-free required list, the payload's key set equals the required set |
| `AdminFunctions.TwoFieldCastKeys` | admin-functions.js:114-124 | a payload that passes against two distinct required fields has exactly those two keys |
| `AdminFunctions.TwoFieldCastPasses` | admin-functions.js:114-124 | a payload with exactly the two distinct required keys passes the check |
| `AdminFunctions.CastIdempotent` | admin-functions.js:105-130 | re-casting a successful result with the same required list succeeds with the same object |
| `AdminFunctions.Envelope` | admin-functions.js:95-99 | the envelope has the keys `event_name`, `timestamp` and `version`, in that order, each once |
| `AdminFunctions.EnvelopeLookup` | admin-functions.js:95-99 | the envelope holds the event name, the server timestamp and the version |
| `AdminFunctions.CreateEvent` | admin-functions.js:94-102 | the event's keys are the envelope keys followed by the fields' other keys, each once; every field's value wins over an envelope value of the same name; envelope keys not overridden keep the name, timestamp and version |
| `AdminFunctions.CreateEventPlainFields` | admin-functions.js:94-101 | when no field is named like an envelope key, the event is the envelope followed by the fields in order, with the envelope values intact |
| `People.AddPersonSucceeds` | admin-functions.js:169-178 | `add_person` returns an event exactly when the payload has two keys, `first_name` and `last_name` |
| `People.AddPersonEvent` | admin-functions.js:169-178 | a successful `add_person` returns a `person_added` event with the server timestamp and version 0 (`EVENT_VERSION`, line 40), followed by the two name fields with their payload values |
| `People.AddPersonErrors` | admin-functions.js:169-178 | `add_person` throws "Extraneous fields" when the payload does not have two keys, and otherwise "no match for" naming the first key that is not a name field |
| `People.Execute` | admin-functions.js:152-189 | every command other than `add_person` completes with `undefined`; a returned event has unique keys and starts with `event_name`, `timestamp` and `version` |
| `People.ExecuteDispatch` | admin-functions.js:152-189 | every command other than `add_person` returns `undefined`, and no command depends on the `person` argument |

## Left out

- `init_firebase_admin`, `init_firebase_client` and the module-level app setup (lines 8-34): SDK initialisation and credential files, which are I/O and foreign calls.
- `create_stream`, `append_event_to_stream` and `start_new_stream_with_event` (lines 42-91): pushes to the hosted database with no local state or check to verify. `start_new_stream_with_event` also passes four arguments to the three-parameter `append_event_to_stream`.
- The `add_user` branch of `people.execute` (lines 180-187): its asynchronous account creation is a foreign call with an empty callback. The model keeps only its synchronous result, `undefined`.
- `people.apply` (line 191), which is an empty stub, and the commented-out code after line 197.
- The value of `ServerValue.TIMESTAMP`: it is the opaque constructor `ServerTimestamp`.
- The text of the thrown messages: an error keeps the values it interpolates, not the formatted string.
- JavaScript's ordering of integer-like keys before other keys, inherited or non-enumerable properties, and the special `__proto__` key: an object is its own enumerable string keys in insertion order.
- Payloads that are not objects (`null`, `undefined`), for which `Object.keys` itself throws.
- Values are an opaque, representative subset of JavaScript values: strings, integers, booleans, `null`, the server timestamp and nested objects. `undefined` as a stored value, arrays, functions, symbols and floating-point numbers are not modelled.
- Object identity and shallow sharing of nested values are not modelled: a result equal to the payload stands for the fresh shallow copy that `cast_event_payload` builds.
