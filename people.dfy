/**
 * The `people` aggregate's command handler. Only `add_person` produces an
 * event; `add_user` and any other command return `undefined`.
 */
module People {
  import opened Wrappers
  import opened JsObject
  import opened AdminFunctions

  /** The fields a `person_added` event carries. */
  const PersonFields: seq<string> := ["first_name", "last_name"]

  /** How a call to `people.execute` completes. */
  datatype Completion =
    | ReturnEvent(event: Obj)
    | ReturnUndefined
    | Throw(error: CastError)

  /** `people.execute(person, command, payload)`. The `person` state is not
      consulted by any implemented command. */
  function Execute(person: Value, command: string, payload: Obj): (c: Completion)
    requires UniqueKeys(payload)
    ensures command != "add_person" ==> c == ReturnUndefined
    ensures c.ReturnEvent? ==> UniqueKeys(c.event) && |c.event| >= 3 && Keys(c.event)[..3] == EnvelopeKeys
  {
    if command == "add_person" then
      match Cast("person_added", PersonFields, payload)
      case Failure(e) => Throw(e)
      case Success(fields) => ReturnEvent(CreateEvent("person_added", fields, Num(EventVersion)))
    else
      // "add_user" only starts an asynchronous account creation; every
      // other command matches no case of the switch.
      ReturnUndefined
  }

  /** `add_person` succeeds exactly when the payload has the keys
      `first_name` and `last_name` and nothing else. */
  lemma AddPersonSucceeds(person: Value, payload: Obj)
    requires UniqueKeys(payload)
    ensures Execute(person, "add_person", payload).ReturnEvent? <==>
              |payload| == 2 && "first_name" in Keys(payload) && "last_name" in Keys(payload)
  {
    var keys := Keys(payload);
    if Cast("person_added", PersonFields, payload).Success? {
      assert "first_name"[0] != "last_name"[0];
      TwoFieldCastKeys("person_added", "first_name", "last_name", payload);
    }
    if |payload| == 2 && "first_name" in keys && "last_name" in keys {
      assert "first_name"[0] != "last_name"[0];
      TwoFieldCastPasses("person_added", "first_name", "last_name", payload);
    }
  }

  /** A successful `add_person` yields a `person_added` event at version 0
      with the server timestamp, followed by the two name fields unchanged. */
  lemma AddPersonEvent(person: Value, payload: Obj)
    requires UniqueKeys(payload)
    requires Execute(person, "add_person", payload).ReturnEvent?
    ensures var event := Execute(person, "add_person", payload).event;
            Keys(event) == EnvelopeKeys + Keys(payload) &&
            Lookup(event, "event_name") == Some(Str("person_added")) &&
            Lookup(event, "timestamp") == Some(ServerTimestamp) &&
            Lookup(event, "version") == Some(Num(0)) &&
            Lookup(event, "first_name") == Lookup(payload, "first_name") &&
            Lookup(event, "last_name") == Lookup(payload, "last_name")
  {
    assert Execute(person, "add_person", payload).event ==
           CreateEvent("person_added", payload, Num(EventVersion));
    AddPersonSucceeds(person, payload);
    forall k | k in Keys(payload) ensures k !in EnvelopeKeys {
      var i :| 0 <= i < |payload| && Keys(payload)[i] == k;
      NameFieldIsNotEnvelope(k);
    }
    CreateEventPlainFields("person_added", payload, Num(EventVersion));
  }

  /** Neither name field is called like an envelope key. */
  lemma NameFieldIsNotEnvelope(k: string)
    requires k in PersonFields
    ensures k !in EnvelopeKeys
  {
  }

  /** `add_person` throws "Extraneous fields" when the payload does not have
      exactly two keys, and otherwise "no match for" naming the first key
      that is neither `first_name` nor `last_name`. */
  lemma AddPersonErrors(person: Value, payload: Obj)
    requires UniqueKeys(payload)
    ensures |payload| != 2 ==>
              Execute(person, "add_person", payload) == Throw(ExtraneousFields(PersonFields, Keys(payload)))
    ensures forall i :: |payload| == 2 && IsFirstUnknown(Keys(payload), PersonFields, i) ==>
              Execute(person, "add_person", payload) == Throw(NoMatch("person_added", PersonFields, payload[i].key))
  {
    if |payload| == 2 {
      CastNoMatch("person_added", PersonFields, payload);
    }
  }

  /** Every command other than `add_person` returns `undefined`, and no
      command depends on the `person` argument. */
  lemma ExecuteDispatch(person: Value, other: Value, command: string, payload: Obj)
    requires UniqueKeys(payload)
    ensures command != "add_person" ==> Execute(person, command, payload) == ReturnUndefined
    ensures Execute(person, command, payload) == Execute(other, command, payload)
  {
  }
}
