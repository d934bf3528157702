/** Maps of known fields that are not messages (`decode_message` of `native/iroh_discovery/src/lib.rs`): for every set
    of well-formed fields, in canonical form, what the decoder makes of it, and with which error it refuses it. */
module FieldMaps {
  import opened Octets
  import opened Cbor
  import opened CborMap
  import opened Messages
  import opened Codec

  /** Any fields as a canonical map. */
  function EncodeFields(values: map<Str, Value>): (s: Octets) {
    EncodeMap(Fields(Iterated(values.Keys), values, EncodeValue))
  }

  /** The decoder reads all of them and then decides by their names and values alone. */
  lemma FieldsDecode(crypto: Crypto, values: map<Str, Value>)
    requires Admitted(crypto, values) && |values| < U64_RANGE
    ensures ReadMessage(crypto, EncodeFields(values)) == Assemble(Slots(values), |values|)
  {
    hide Assemble, Slots, ParseFields, EncodeHead, ParseHead, EncodeMap, EncodeValue, ParseValue, ShapeNamed, Admits;
    var field, order := MessageField(crypto), Iterated(values.Keys);
    forall k, s: Octets | k in values
      ensures field(k, EncodeValue(values[k]) + s) == Ok(values[k], s)
    {
      ValueInverse(crypto, ShapeNamed(k), values[k], s);
    }
    var body := MapRoundTrip(field, EncodeValue, order, values, []);
    assert EncodeFields(values) + [] == EncodeFields(values);
    HeadInverse(5, |values|, body);
    ReadSteps(crypto, EncodeFields(values), |values|, body, values);
  }

  /** The three fields every message needs besides its version and its kind. */
  predicate Common(slots: map<Key, Value>) { FleetId in slots && EndpointId in slots && Sequence in slots }

  /** The kind is that of some message. */
  ghost predicate KindKnown(slots: map<Key, Value>) {
    Kind in slots && exists m: Message :: slots[Kind] == Words(KindOf(m))
  }

  lemma KindAtExact(slots: map<Key, Value>)
    requires Kind in slots ==> slots[Kind].Words?
    ensures KindAt(slots) != Strange <==> KindKnown(slots)
  {
    if Kind in slots && KindAt(slots) != Strange {
      var fleet: Id := seq(32, _ => 0);
      var address: Address := seq(4, _ => 0);
      var w := Withdraw(Withdrawal(fleet, fleet, 0));
      var a := Announce(Announcement(fleet, fleet, [], address, 1, 0, 0, map[], Load(0, 0)));
      assert slots[Kind] == Words(KindOf(w)) || slots[Kind] == Words(KindOf(a));
    }
  }

  /** Fields of the right shapes. */
  predicate Shaped(slots: map<Key, Value>) {
    && (Version in slots ==> slots[Version].Number?) && (Kind in slots ==> slots[Kind].Words?)
    && (FleetId in slots ==> slots[FleetId].Raw? && |slots[FleetId].b| == 32)
    && (EndpointId in slots ==> slots[EndpointId].Raw? && |slots[EndpointId].b| == 32)
    && (Sequence in slots ==> slots[Sequence].Number?)
  }

  lemma AdmittedShaped(crypto: Crypto, values: map<Str, Value>)
    requires Admitted(crypto, values)
    ensures Shaped(Slots(values))
  {
    hide Slots, Admitted;
    SlotShape(crypto, values, Version);
    SlotShape(crypto, values, Kind);
    SlotShape(crypto, values, FleetId);
    SlotShape(crypto, values, EndpointId);
    SlotShape(crypto, values, Sequence);
  }

  lemma SlotShape(crypto: Crypto, values: map<Str, Value>, k: Key)
    requires Admitted(crypto, values)
    ensures k in Slots(values) ==> Admits(crypto, ShapeOf(k), Slots(values)[k])
  {
    hide Spell, Named, Admits, ShapeOf;
    NamedSpell(k);
  }

  lemma AssembleErrors(slots: map<Key, Value>, n: U64)
    requires Shaped(slots)
    ensures var r, first := Assemble(slots, n), Version in slots && slots[Version] == Number(1);
            && (r == Failure(UnsupportedVersion) <==> Version in slots && !first)
            && (r == Failure(InvalidRecord) <==> first && Common(slots) && !KindKnown(slots))
            && (r.Failure? ==> r.error in {Malformed, UnsupportedVersion, InvalidRecord})
  {
    hide KindAt, KindKnown;
    KindAtExact(slots);
  }

  /** What the decoder makes of any canonical map of known, well-formed fields. It is refused as of an unsupported
      version if and only if it has another version than 1; as an invalid record if and only if version 1 and the common
      fields are there and the kind is not one of the two; it is a message if and only if its fields are exactly that
      message's; and in all other cases it is malformed. */
  lemma FieldMapVerdict(crypto: Crypto, values: map<Str, Value>, m: Message)
    requires Admitted(crypto, values) && |values| < U64_RANGE
    ensures var r, slots := DecodeMessage(crypto, EncodeFields(values)), Slots(values);
            var first := Version in slots && slots[Version] == Number(1);
            && (r == Failure(UnsupportedVersion) <==> Version in slots && !first)
            && (r == Failure(InvalidRecord) <==> first && Common(slots) && !KindKnown(slots))
            && (r == Success(m) <==> values == FieldsOf(m))
            && (r.Failure? ==> r.error in {Malformed, UnsupportedVersion, InvalidRecord})
  {
    hide Assemble, Slots, FieldsOf, ReadMessage, EncodeFields, Common, KindKnown, Admitted;
    FieldsDecode(crypto, values);
    AdmittedShaped(crypto, values);
    AssembleErrors(Slots(values), |values|);
    if ReadMessage(crypto, EncodeFields(values)).Success? {
      ReadCanonical(crypto, EncodeFields(values));
      AssembleSound(values, |values|, Assemble(Slots(values), |values|).value);
    }
    if values == FieldsOf(m) {
      AssembleInverse(m);
      FieldsCounted(m);
    }
  }

  lemma FieldsCounted(m: Message)
    ensures |FieldsOf(m)| == |Order(m)|
  {
    hide FieldsOf, Order;
    FieldsListed(m);
    OrderDistinct(m);
    SetOfDistinct(Order(m));
    assert FieldsOf(m).Keys == set s | s in Order(m);
  }
}
