/** CBOR data items read as RFC 8949 lays them out, without the encoder's or the decoder's help, and what such a reader
    finds in the messages of `native/iroh_discovery/src/lib.rs`: every field under its own key, in its own type. */
module Items {
  import opened Octets
  import opened Text
  import opened Cbor
  import opened CborMap
  import opened TwoFields
  import opened Messages
  import opened Codec
  import opened Envelopes

  // ---------- reading (section 3 of RFC 8949) ----------

  datatype Item =
    | Unsigned(number: nat)
    | ByteString(bytes: Octets)
    | TextString(bytes: Octets)
    | Array(items: seq<Item>)
    | Map(entries: seq<Member>)
    | Boolean(value: bool)

  datatype Member = Member(key: Item, value: Item)

  datatype Reading<+T> = Got(value: T, rest: Octets) | Bad

  /** The argument of a head: in its low five bits, or in the one, two, four or eight bytes that follow. */
  function Argument(s: Octets): (r: Reading<nat>)
    ensures r.Got? ==> |r.rest| < |s|
  {
    if s == [] then Bad else
    var info := s[0] % 32;
    if info < 24 then Got(info, s[1..]) else
    var width := if info == 24 then 1 else if info == 25 then 2 else if info == 26 then 4 else 8;
    if info > 27 || |s| < 1 + width then Bad else Got(Weigh(0, s[1..1 + width]), s[1 + width..])
  }

  function ReadItem(s: Octets): (r: Reading<Item>)
    ensures r.Got? ==> |r.rest| < |s|
    decreases |s|, 0
  {
    if s == [] then Bad
    else if s[0] == 0xF4 then Got(Boolean(false), s[1..])
    else if s[0] == 0xF5 then Got(Boolean(true), s[1..])
    else
      match Argument(s)
      case Bad => Bad
      case Got(n, rest) =>
        match s[0] / 32
        case 0 => Got(Unsigned(n), rest)
        case 2 => if |rest| < n then Bad else Got(ByteString(rest[..n]), rest[n..])
        case 3 => if |rest| < n then Bad else Got(TextString(rest[..n]), rest[n..])
        case 4 =>
          (match ReadItems(n, rest)
           case Bad => Bad
           case Got(items, rest') => Got(Array(items), rest'))
        case 5 =>
          (match ReadEntries(n, rest)
           case Bad => Bad
           case Got(entries, rest') => Got(Map(entries), rest'))
        case _ => Bad
  }

  function ReadItems(n: nat, s: Octets): (r: Reading<seq<Item>>)
    ensures r.Got? ==> |r.rest| <= |s|
    decreases |s|, 1
  {
    if n == 0 then Got([], s) else
    match ReadItem(s)
    case Bad => Bad
    case Got(item, rest) =>
      match ReadItems(n - 1, rest)
      case Bad => Bad
      case Got(items, rest') => Got([item] + items, rest')
  }

  function ReadEntries(n: nat, s: Octets): (r: Reading<seq<Member>>)
    ensures r.Got? ==> |r.rest| <= |s|
    decreases |s|, 1
  {
    if n == 0 then Got([], s) else
    match ReadItem(s)
    case Bad => Bad
    case Got(key, rest) =>
      match ReadItem(rest)
      case Bad => Bad
      case Got(value, rest') =>
        match ReadEntries(n - 1, rest')
        case Bad => Bad
        case Got(entries, rest'') => Got([Member(key, value)] + entries, rest'')
  }

  /** The first value under a text key. */
  function Look(entries: seq<Member>, key: seq<int>): (r: Option<Item>) {
    if entries == [] then None
    else if entries[0].key.TextString? && entries[0].key.bytes == key then Some(entries[0].value)
    else Look(entries[1..], key)
  }

  function At(entries: seq<Member>, key: string): (r: Option<Item>) { Look(entries, Characters(key)) }

  // ---------- heads and strings ----------

  lemma ArgumentOf(major: nat, n: U64, rest: Octets)
    requires major < 8
    ensures var s := EncodeHead(major, n) + rest; Argument(s) == Got(n, rest) && s[0] / 32 == major
  {
    hide EncodeHead, BigEndian, Weigh;
    HeadForm(major, n);
    var s := EncodeHead(major, n) + rest;
    if n <= 23 {
      assert s[1..] == rest;
    } else {
      var w := Width(Info(n));
      WeighOf(w, n);
      assert s[1..1 + w] == BigEndian(w, n) && s[1 + w..] == rest;
    }
  }

  lemma UintItem(n: U64, rest: Octets)
    ensures ReadItem(EncodeUint(n) + rest) == Got(Unsigned(n), rest)
  {
    hide EncodeHead, Argument;
    ArgumentOf(0, n, rest);
  }

  lemma StringItem(major: nat, b: Blob, rest: Octets)
    requires major == 2 || major == 3
    ensures ReadItem(EncodeHead(major, |b|) + b + rest)
         == Got(if major == 2 then ByteString(b) else TextString(b), rest)
  {
    hide EncodeHead, Argument;
    Associative(EncodeHead(major, |b|), b, rest);
    ArgumentOf(major, |b|, b + rest);
    assert (b + rest)[..|b|] == b && (b + rest)[|b|..] == rest;
  }

  lemma TextItem(t: Str, rest: Octets)
    ensures ReadItem(EncodeText(t) + rest) == Got(TextString(t), rest)
  {
    hide ReadItem, EncodeHead;
    StringItem(3, t, rest);
  }

  // ---------- capabilities ----------

  function TextItems(ts: seq<Str>): (r: seq<Item>) {
    if ts == [] then [] else [TextString(ts[0])] + TextItems(ts[1..])
  }

  function CapabilityItem(c: Capability): (i: Item) {
    match c
    case Bool(b) => Boolean(b)
    case Uint(n) => Unsigned(n)
    case Text(t) => TextString(t)
    case TextList(ts) => Array(TextItems(ts))
  }

  lemma {:induction false} TextsItems(ts: seq<Str>, rest: Octets)
    ensures ReadItems(|ts|, EncodeTexts(ts) + rest) == Got(TextItems(ts), rest)
    decreases |ts|
  {
    hide ReadItem, EncodeText;
    if ts == [] {
      assert EncodeTexts(ts) + rest == rest;
    } else {
      Associative(EncodeText(ts[0]), EncodeTexts(ts[1..]), rest);
      TextItem(ts[0], EncodeTexts(ts[1..]) + rest);
      TextsItems(ts[1..], rest);
    }
  }

  lemma ListItem(ts: seq<Str>, rest: Octets)
    requires |ts| < U64_RANGE
    ensures ReadItem(EncodeHead(4, |ts|) + EncodeTexts(ts) + rest) == Got(Array(TextItems(ts)), rest)
  {
    hide EncodeHead, Argument, ReadItems, EncodeTexts, TextItems;
    Associative(EncodeHead(4, |ts|), EncodeTexts(ts), rest);
    ArgumentOf(4, |ts|, EncodeTexts(ts) + rest);
    TextsItems(ts, rest);
  }

  lemma CapabilityRead(c: Capability, rest: Octets)
    requires Readable(c)
    ensures ReadItem(EncodeCapability(c) + rest) == Got(CapabilityItem(c), rest)
  {
    hide EncodeHead, Argument, EncodeTexts, TextItems;
    match c
    case Bool(_) => assert (EncodeCapability(c) + rest)[1..] == rest;
    case Uint(n) => UintItem(n, rest);
    case Text(t) => TextItem(t, rest);
    case TextList(ts) => ListItem(ts, rest);
  }

  // ---------- maps ----------

  function EntriesOf<V>(keys: seq<Str>, m: map<Str, V>, item: V -> Item): (r: seq<Member>)
    requires forall k :: k in keys ==> k in m
    ensures |r| == |keys|
  {
    if keys == [] then [] else [Member(TextString(keys[0]), item(m[keys[0]]))] + EntriesOf(keys[1..], m, item)
  }

  /** The encodings of the values read as their items. */
  ghost predicate ReadsAs<V>(keys: seq<Str>, m: map<Str, V>, enc: V -> Octets, item: V -> Item)
    requires forall k :: k in keys ==> k in m
  {
    forall k, rest: Octets :: k in keys ==> ReadItem(enc(m[k]) + rest) == Got(item(m[k]), rest)
  }

  lemma {:induction false} EntriesRead<V>(keys: seq<Str>, m: map<Str, V>, enc: V -> Octets, item: V -> Item,
                                          rest: Octets)
    requires (forall k :: k in keys ==> k in m) && ReadsAs(keys, m, enc, item)
    ensures ReadEntries(|keys|, Entries(keys, m, enc) + rest) == Got(EntriesOf(keys, m, item), rest)
    decreases |keys|
  {
    hide ReadItem, EncodeText;
    if keys == [] {
      assert Entries(keys, m, enc) + rest == rest;
    } else {
      var k, tail := keys[0], Entries(keys[1..], m, enc);
      Regroup(EncodeText(k), enc(m[k]), tail, rest);
      TextItem(k, enc(m[k]) + (tail + rest));
      assert ReadItem(enc(m[k]) + (tail + rest)) == Got(item(m[k]), tail + rest);
      EntriesRead(keys[1..], m, enc, item, rest);
    }
  }

  function MapItem<V>(order: seq<Str>, m: map<Str, V>, item: V -> Item): (i: Item)
    requires forall k :: k in order ==> k in m
    ensures i.Map?
  {
    SortKeysCorrect(order);
    Map(EntriesOf(SortKeys(order), m, item))
  }

  lemma MapRead<V>(order: seq<Str>, m: map<Str, V>, enc: V -> Octets, item: V -> Item, rest: Octets)
    requires Distinct(order) && |order| < U64_RANGE && forall k :: k in order ==> k in m
    requires ReadsAs(order, m, enc, item)
    ensures ReadItem(EncodeMap(Fields(order, m, enc)) + rest) == Got(MapItem(order, m, item), rest)
  {
    hide EncodeHead, Argument, ReadEntries, Entries, EntriesOf, EncodeMap, Fields, Increasing;
    SortKeysCorrect(order);
    var keys := SortKeys(order);
    EncodeMapCanonical(order, keys, m, enc);
    Associative(EncodeHead(5, |keys|), Entries(keys, m, enc), rest);
    ArgumentOf(5, |keys|, Entries(keys, m, enc) + rest);
    EntriesRead(keys, m, enc, item, rest);
  }

  /** The item of a map has one entry for each key, with that key's value. */
  lemma MapHas<V>(order: seq<Str>, m: map<Str, V>, item: V -> Item, key: Str)
    requires Distinct(order) && forall k :: k in order ==> k in m
    ensures |MapItem(order, m, item).entries| == |order|
    ensures Look(MapItem(order, m, item).entries, key) == if key in order then Some(item(m[key])) else None
  {
    hide EntriesOf, Look, Increasing;
    SortKeysCorrect(order);
    LookEntries(SortKeys(order), m, item, key);
    SetOfDistinct(order);
    SortedAsMany(order);
  }

  lemma {:induction false} SortedAsMany(keys: seq<Str>)
    ensures |SortKeys(keys)| == |keys|
  {
    if keys != [] {
      SortedAsMany(keys[1..]);
      InsertedOne(keys[0], SortKeys(keys[1..]));
    }
  }

  lemma {:induction false} InsertedOne(key: Str, sorted: seq<Str>)
    ensures |InsertKey(key, sorted)| == |sorted| + 1
  {
    hide KeyLess;
    if sorted != [] && KeyLess(sorted[0], key) {
      InsertedOne(key, sorted[1..]);
    }
  }

  lemma {:induction false} LookEntries<V>(keys: seq<Str>, m: map<Str, V>, item: V -> Item, key: Str)
    requires forall k :: k in keys ==> k in m
    ensures Look(EntriesOf(keys, m, item), key) == if key in keys then Some(item(m[key])) else None
    decreases |keys|
  {
    if keys != [] {
      LookEntries(keys[1..], m, item, key);
      assert keys == [keys[0]] + keys[1..];
      assert EntriesOf(keys, m, item)[1..] == EntriesOf(keys[1..], m, item);
    }
  }

  // ---------- load and capabilities of a message ----------

  /** The map `{"running": …, "capacity": …}`. */
  predicate LoadIs(i: Item, l: Load) {
    && i.Map? && |i.entries| == 2
    && At(i.entries, "running") == Some(Unsigned(l.running)) && At(i.entries, "capacity") == Some(Unsigned(l.capacity))
  }

  lemma LoadKeys()
    ensures RUNNING == Characters("running") && CAPACITY == Characters("capacity") && RUNNING != CAPACITY
  {
    assert |RUNNING| != |CAPACITY|;
  }

  function TwoItem<V>(a: Str, b: Str, item: V -> Item, v: Two<V>): (i: Item)
    ensures i.Map?
  {
    MapItem([a, b], map[a := v.first, b := v.second], item)
  }

  lemma TwoRead<V>(a: Str, b: Str, enc: V -> Octets, item: V -> Item, v: Two<V>, rest: Octets)
    requires a != b
    requires forall tail: Octets :: ReadItem(enc(v.first) + tail) == Got(item(v.first), tail)
    requires forall tail: Octets :: ReadItem(enc(v.second) + tail) == Got(item(v.second), tail)
    ensures ReadItem(EncodePair(a, b, enc, v) + rest) == Got(TwoItem(a, b, item, v), rest)
  {
    hide ReadItem, EncodeMap, Fields, MapItem;
    var m := map[a := v.first, b := v.second];
    assert ReadsAs([a, b], m, enc, item);
    MapRead([a, b], m, enc, item, rest);
  }

  lemma TwoHas<V>(a: Str, b: Str, item: V -> Item, v: Two<V>)
    requires a != b
    ensures var entries := TwoItem(a, b, item, v).entries;
            && |entries| == 2
            && Look(entries, a) == Some(item(v.first)) && Look(entries, b) == Some(item(v.second))
  {
    hide Look, MapItem;
    var m := map[a := v.first, b := v.second];
    MapHas([a, b], m, item, a);
    MapHas([a, b], m, item, b);
  }

  function LoadItem(l: Load): (i: Item) {
    TwoItem(RUNNING, CAPACITY, (n: U64) => Unsigned(n), Two(l.running, l.capacity))
  }

  lemma LoadRead(l: Load, rest: Octets)
    ensures ReadItem(EncodeLoad(l) + rest) == Got(LoadItem(l), rest)
  {
    hide ReadItem, EncodePair, Characters, EncodeUint, TwoItem;
    LoadKeys();
    var item := (n: U64) => Unsigned(n);
    forall tail: Octets
      ensures ReadItem(EncodeUint(l.running) + tail) == Got(item(l.running), tail)
      ensures ReadItem(EncodeUint(l.capacity) + tail) == Got(item(l.capacity), tail)
    {
      UintItem(l.running, tail);
      UintItem(l.capacity, tail);
    }
    TwoRead(RUNNING, CAPACITY, EncodeUint, item, Two(l.running, l.capacity), rest);
    assert LoadItem(l) == TwoItem(RUNNING, CAPACITY, item, Two(l.running, l.capacity));
  }

  lemma LoadHeld(l: Load)
    ensures LoadIs(LoadItem(l), l)
  {
    hide Characters, Look, TwoItem;
    LoadKeys();
    TwoHas(RUNNING, CAPACITY, (n: U64) => Unsigned(n), Two(l.running, l.capacity));
  }

  /** A map of exactly these capabilities. */
  ghost predicate CapabilitiesAre(i: Item, m: Capabilities) {
    && i.Map? && |i.entries| == |m|
    && forall k: Str :: Look(i.entries, k) == if k in m then Some(CapabilityItem(m[k])) else None
  }

  function CapabilitiesItem(m: Capabilities): (i: Item) { MapItem(Iterated(m.Keys), m, CapabilityItem) }

  lemma CapabilitiesRead(m: Capabilities, rest: Octets)
    requires ReadableCapabilities(m)
    ensures ReadItem(EncodeCapabilities(m) + rest) == Got(CapabilitiesItem(m), rest)
  {
    hide ReadItem, EncodeMap, EncodeCapability, CapabilityItem, MapItem;
    var order := Iterated(m.Keys);
    assert ReadsAs(order, m, EncodeCapability, CapabilityItem) by {
      forall k, tail: Octets | k in order
        ensures ReadItem(EncodeCapability(m[k]) + tail) == Got(CapabilityItem(m[k]), tail)
      {
        CapabilityRead(m[k], tail);
      }
    }
    MapRead(order, m, EncodeCapability, CapabilityItem, rest);
  }

  lemma CapabilitiesHeld(m: Capabilities)
    ensures CapabilitiesAre(CapabilitiesItem(m), m)
  {
    hide Look, CapabilityItem, MapItem;
    var order := Iterated(m.Keys);
    forall k: Str
      ensures Look(MapItem(order, m, CapabilityItem).entries, k) == if k in m then Some(CapabilityItem(m[k])) else None
    {
      MapHas(order, m, CapabilityItem, k);
    }
    MapHas(order, m, CapabilityItem, []);
  }

  // ---------- messages ----------

  function ValueItem(v: Value): (i: Item) {
    match v
    case Number(n) => Unsigned(n)
    case Words(t) => TextString(t)
    case Raw(b) => ByteString(b)
    case Caps(m) => CapabilitiesItem(m)
    case Loads(l) => LoadItem(l)
  }

  lemma ValueRead(v: Value, rest: Octets)
    requires v.Caps? ==> ReadableCapabilities(v.m)
    ensures ReadItem(EncodeValue(v) + rest) == Got(ValueItem(v), rest)
  {
    hide ReadItem, EncodeHead, EncodeCapabilities, EncodeLoad, CapabilitiesItem, LoadItem, ReadableCapabilities;
    match v
    case Number(n) => UintItem(n, rest);
    case Words(t) => TextItem(t, rest);
    case Raw(b) => StringItem(2, b, rest);
    case Caps(m) => CapabilitiesRead(m, rest);
    case Loads(l) => LoadRead(l, rest);
  }

  /** The capabilities are within the limits of the decoder. */
  predicate Sendable(m: Message) { m.Announce? ==> ReadableCapabilities(m.announcement.capabilities) }

  function MessageItem(m: Message): (i: Item)
    ensures i.Map?
  {
    FieldsListed(m);
    MapItem(Order(m), FieldsOf(m), ValueItem)
  }

  lemma MessageRead(m: Message, rest: Octets)
    requires Sendable(m)
    ensures ReadItem(EncodeMessage(m) + rest) == Got(MessageItem(m), rest)
  {
    hide ReadItem, EncodeMap, Order, FieldsOf, EncodeValue, ValueItem, MapItem, ReadableCapabilities;
    FieldsListed(m);
    OrderDistinct(m);
    forall k, tail: Octets | k in Order(m)
      ensures ReadItem(EncodeValue(FieldsOf(m)[k]) + tail) == Got(ValueItem(FieldsOf(m)[k]), tail)
    {
      FieldSendable(m, k);
      ValueRead(FieldsOf(m)[k], tail);
    }
    assert ReadsAs(Order(m), FieldsOf(m), EncodeValue, ValueItem);
    MapRead(Order(m), FieldsOf(m), EncodeValue, ValueItem, rest);
  }

  lemma FieldSendable(m: Message, s: Str)
    requires Sendable(m) && s in FieldsOf(m)
    ensures FieldsOf(m)[s].Caps? ==> ReadableCapabilities(FieldsOf(m)[s].m)
  {
    hide Named, Spell, Order, ReadableCapabilities;
  }

  lemma FieldRead(m: Message, k: Key)
    requires Has(m, k)
    ensures |MessageItem(m).entries| == |Order(m)|
    ensures Look(MessageItem(m).entries, Spell(k)) == Some(ValueItem(ValueOf(m, k)))
  {
    hide Order, ValueItem, ValueOf, MapItem, Look;
    FieldsListed(m);
    OrderDistinct(m);
    NamedSpell(k);
    OrderLists(m, Spell(k));
    hide Spell, Named;
    MapHas(Order(m), FieldsOf(m), ValueItem, Spell(k));
  }

  lemma CommonSpelling()
    ensures Spell(Version) == Characters("version") && Spell(Kind) == Characters("kind")
    ensures Spell(FleetId) == Characters("fleet_id") && Spell(EndpointId) == Characters("endpoint_id")
    ensures Spell(Sequence) == Characters("sequence")
  {
  }

  lemma AnnouncementSpelling()
    ensures Spell(NodeName) == Characters("node_name") && Spell(PartisanIp) == Characters("partisan_ip")
    ensures Spell(PartisanPort) == Characters("partisan_port") && Spell(TtlMs) == Characters("ttl_ms")
    ensures Spell(CapabilityMap) == Characters("capabilities") && Spell(LoadMap) == Characters("load")
  {
  }

  lemma KindSpelling(m: Message)
    ensures KindOf(m) == if m.Announce? then Characters("announcement") else Characters("withdrawal")
  {
  }

  /** What every message says of itself, as any reader of CBOR finds it. */
  ghost predicate CommonFields(entries: seq<Member>, kind: string, fleet: Id, endpoint: Id, sequence: U64) {
    && At(entries, "version") == Some(Unsigned(1))
    && At(entries, "kind").Some? && At(entries, "kind").value.TextString?
    && At(entries, "kind").value.bytes == Characters(kind)
    && At(entries, "fleet_id") == Some(ByteString(fleet))
    && At(entries, "endpoint_id") == Some(ByteString(endpoint))
    && At(entries, "sequence") == Some(Unsigned(sequence))
  }

  lemma CommonRead(m: Message)
    ensures CommonFields(MessageItem(m).entries, if m.Announce? then "announcement" else "withdrawal",
                         m.FleetId(), m.EndpointId(), m.Sequence())
  {
    hide Characters, Spell, Look, MessageItem, KindOf, Order;
    CommonSpelling();
    KindSpelling(m);
    FieldRead(m, Version);
    FieldRead(m, Kind);
    FieldRead(m, FleetId);
    FieldRead(m, EndpointId);
    FieldRead(m, Sequence);
  }

  /** A withdrawal on the wire: a map of five fields, each under its own key and in its own type. */
  lemma WithdrawalItem(w: Withdrawal, rest: Octets)
    ensures var i := MessageItem(Withdraw(w));
            && ReadItem(EncodeMessage(Withdraw(w)) + rest) == Got(i, rest) && |i.entries| == 5
            && CommonFields(i.entries, "withdrawal", w.fleetId, w.endpointId, w.sequence)
  {
    hide ReadItem, MessageItem, EncodeMessage, Look, Characters, CommonFields;
    MessageRead(Withdraw(w), rest);
    CommonRead(Withdraw(w));
    FieldRead(Withdraw(w), Version);
    OrderDistinct(Withdraw(w));
  }

  predicate PlainFields(entries: seq<Member>, a: Announcement) {
    && At(entries, "node_name") == Some(TextString(a.nodeName))
    && At(entries, "partisan_ip") == Some(ByteString(a.partisanIp))
    && At(entries, "partisan_port") == Some(Unsigned(a.partisanPort))
    && At(entries, "ttl_ms") == Some(Unsigned(a.ttlMs))
  }

  ghost predicate MapFields(entries: seq<Member>, a: Announcement) {
    && At(entries, "capabilities").Some? && CapabilitiesAre(At(entries, "capabilities").value, a.capabilities)
    && At(entries, "load").Some? && LoadIs(At(entries, "load").value, a.load)
  }

  lemma PlainRead(a: Announcement)
    ensures PlainFields(MessageItem(Announce(a)).entries, a)
  {
    hide Characters, Spell, Look, MessageItem, Order, CapabilitiesItem, LoadItem;
    var m := Announce(a);
    AnnouncementSpelling();
    FieldRead(m, NodeName);
    FieldRead(m, PartisanIp);
    FieldRead(m, PartisanPort);
    FieldRead(m, TtlMs);
  }

  lemma MapsRead(a: Announcement)
    ensures MapFields(MessageItem(Announce(a)).entries, a)
  {
    hide Characters, Spell, Look, MessageItem, Order, CapabilitiesAre, LoadIs, CapabilitiesItem, LoadItem;
    var m := Announce(a);
    AnnouncementSpelling();
    FieldRead(m, CapabilityMap);
    FieldRead(m, LoadMap);
    CapabilitiesHeld(a.capabilities);
    LoadHeld(a.load);
  }

  /** An announcement on the wire: a map of eleven fields, each under its own key and in its own type, with its
      capabilities and its load as maps in it. */
  lemma AnnouncementItem(a: Announcement, rest: Octets)
    requires ReadableCapabilities(a.capabilities)
    ensures var i := MessageItem(Announce(a));
            && ReadItem(EncodeMessage(Announce(a)) + rest) == Got(i, rest) && |i.entries| == 11
            && CommonFields(i.entries, "announcement", a.fleetId, a.endpointId, a.sequence)
            && PlainFields(i.entries, a) && MapFields(i.entries, a)
  {
    hide ReadItem, MessageItem, EncodeMessage, Look, Characters, CommonFields, PlainFields, MapFields;
    hide ReadableCapabilities;
    MessageRead(Announce(a), rest);
    CommonRead(Announce(a));
    PlainRead(a);
    MapsRead(a);
    FieldRead(Announce(a), Version);
    OrderDistinct(Announce(a));
  }

  /** The signed envelope on the wire: the body and its signature, as byte strings. */
  lemma EnvelopeItem(env: Envelope, rest: Octets)
    ensures var i := TwoItem<Blob>(BODY, SIGNATURE, b => ByteString(b), Two(env.body, env.signature));
            && ReadItem(EncodeEnvelope(env) + rest) == Got(i, rest) && |i.entries| == 2
            && At(i.entries, "body") == Some(ByteString(env.body))
            && At(i.entries, "signature") == Some(ByteString(env.signature))
  {
    hide ReadItem, EncodePair, Characters, Look, EncodeBytes, TwoItem;
    EnvelopeKeys();
    var item: Blob -> Item := b => ByteString(b);
    forall tail: Octets
      ensures ReadItem(EncodeBytes(env.body) + tail) == Got(item(env.body), tail)
      ensures ReadItem(EncodeBytes(env.signature) + tail) == Got(item(env.signature), tail)
    {
      BytesItem(env.body, tail);
      BytesItem(env.signature, tail);
    }
    TwoRead<Blob>(BODY, SIGNATURE, EncodeBytes, item, Two(env.body, env.signature), rest);
    TwoHas<Blob>(BODY, SIGNATURE, item, Two(env.body, env.signature));
  }

  lemma EnvelopeKeys()
    ensures BODY == Characters("body") && SIGNATURE == Characters("signature") && BODY != SIGNATURE
  {
    assert |BODY| != |SIGNATURE|;
  }

  lemma BytesItem(b: Blob, rest: Octets)
    ensures ReadItem(EncodeBytes(b) + rest) == Got(ByteString(b), rest)
  {
    hide ReadItem, EncodeHead;
    StringItem(2, b, rest);
  }
}
