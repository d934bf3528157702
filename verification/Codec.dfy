/** Encoding and decoding of whole messages (`encode_announcement`, `encode_withdrawal` and
    `decode_message` of `native/iroh_discovery/src/lib.rs`). */
module Codec {
  import opened Octets
  import opened Cbor
  import opened CborMap
  import opened Messages

  // ---------- field names ----------

  datatype Key =
    | Version | Kind | FleetId | EndpointId | NodeName | PartisanIp | PartisanPort
    | Sequence | TtlMs | CapabilityMap | LoadMap

  function Spell(k: Key): (s: Str) {
    match k
    case Version => Name("version")
    case Kind => Name("kind")
    case FleetId => Name("fleet_id")
    case EndpointId => Name("endpoint_id")
    case NodeName => Name("node_name")
    case PartisanIp => Name("partisan_ip")
    case PartisanPort => Name("partisan_port")
    case Sequence => Name("sequence")
    case TtlMs => Name("ttl_ms")
    case CapabilityMap => Name("capabilities")
    case LoadMap => Name("load")
  }

  /** The arm of the `match` a key selects. */
  function Named(s: Str): (k: Option<Key>)
    ensures k.Some? ==> s == Spell(k.value)
  {
    if s == Spell(Version) then Some(Version)
    else if s == Spell(Kind) then Some(Kind)
    else if s == Spell(FleetId) then Some(FleetId)
    else if s == Spell(EndpointId) then Some(EndpointId)
    else if s == Spell(NodeName) then Some(NodeName)
    else if s == Spell(PartisanIp) then Some(PartisanIp)
    else if s == Spell(PartisanPort) then Some(PartisanPort)
    else if s == Spell(Sequence) then Some(Sequence)
    else if s == Spell(TtlMs) then Some(TtlMs)
    else if s == Spell(CapabilityMap) then Some(CapabilityMap)
    else if s == Spell(LoadMap) then Some(LoadMap)
    else None
  }

  /** Length and first letter tell the names apart. */
  function Rank(k: Key): (r: nat) {
    match k
    case Version => 1910 case Kind => 1131 case FleetId => 2150 case EndpointId => 2917
    case NodeName => 2414 case PartisanIp => 2928 case PartisanPort => 3440 case Sequence => 2163
    case TtlMs => 1652 case CapabilityMap => 3171 case LoadMap => 1132
  }

  lemma SpellRank(k: Key)
    ensures |Spell(k)| > 0 && 256 * |Spell(k)| + Spell(k)[0] == Rank(k)
  {
  }

  lemma SpellInjective(j: Key, k: Key)
    ensures Spell(j) == Spell(k) <==> j == k
  {
    SpellRank(j);
    SpellRank(k);
  }

  lemma NamedSpell(k: Key)
    ensures Named(Spell(k)) == Some(k)
  {
    var s := Spell(k);
    assert Named(s).Some? by {
      match k
      case Version => case Kind => case FleetId => case EndpointId => case NodeName => case PartisanIp =>
      case PartisanPort => case Sequence => case TtlMs => case CapabilityMap => case LoadMap =>
    }
    SpellInjective(Named(s).value, k);
  }

  // ---------- field values ----------

  datatype Value = Number(n: U64) | Words(t: Str) | Raw(b: Blob) | Caps(m: Capabilities) | Loads(l: Load)

  function EncodeValue(v: Value): (s: Octets) {
    match v
    case Number(n) => EncodeUint(n)
    case Words(t) => EncodeText(t)
    case Raw(b) => EncodeBytes(b)
    case Caps(m) => EncodeCapabilities(m)
    case Loads(l) => EncodeLoad(l)
  }

  /** How `decode_message` reads the value of a key. */
  datatype Shape = AsNumber | AsText | AsBytes(length: nat) | AsKey | AsPort | AsCapabilities | AsLoad | Unknown

  function ShapeOf(k: Key): (shape: Shape) {
    match k
    case Version => AsNumber
    case Kind => AsText
    case FleetId => AsBytes(32)
    case EndpointId => AsKey
    case NodeName => AsText
    case PartisanIp => AsBytes(4)
    case PartisanPort => AsPort
    case Sequence => AsNumber
    case TtlMs => AsNumber
    case CapabilityMap => AsCapabilities
    case LoadMap => AsLoad
  }

  function ShapeNamed(s: Str): (shape: Shape) {
    match Named(s)
    case Some(k) => ShapeOf(k)
    case None => Unknown
  }

  function ParseValue(crypto: Crypto, shape: Shape, s: Octets): (r: Parsed<Value>) {
    match shape
    case AsNumber =>
      match ParseHead(s, 0) { case Err(e) => Err(e) case Ok(n, rest) => Ok(Number(n), rest) }
    case AsText =>
      match ParseText(s) { case Err(e) => Err(e) case Ok(t, rest) => Ok(Words(t), rest) }
    case AsBytes(length) =>
      match ParseBytes(s) {
        case Err(e) => Err(e)
        case Ok(b, rest) => if |b| == length then Ok(Raw(b), rest) else Err(Malformed)
      }
    case AsKey =>
      match ParseBytes(s) {
        case Err(e) => Err(e)
        case Ok(b, rest) => if |b| == 32 && crypto.validKey(b) then Ok(Raw(b), rest) else Err(Malformed)
      }
    case AsPort =>
      match ParseHead(s, 0) {
        case Err(e) => Err(e)
        case Ok(n, rest) => if 1 <= n <= 0xFFFF then Ok(Number(n), rest) else Err(InvalidRecord)
      }
    case AsCapabilities =>
      match ParseCapabilities(s) { case Err(e) => Err(e) case Ok(m, rest) => Ok(Caps(m), rest) }
    case AsLoad =>
      match ParseLoad(s) { case Err(e) => Err(e) case Ok(l, rest) => Ok(Loads(l), rest) }
    case Unknown => Err(Malformed)
  }

  /** The values a shape admits. */
  predicate Admits(crypto: Crypto, shape: Shape, v: Value) {
    match shape
    case AsNumber => v.Number?
    case AsText => v.Words?
    case AsBytes(length) => v.Raw? && |v.b| == length
    case AsKey => v.Raw? && |v.b| == 32 && crypto.validKey(v.b)
    case AsPort => v.Number? && 1 <= v.n <= 0xFFFF
    case AsCapabilities => v.Caps? && ReadableCapabilities(v.m)
    case AsLoad => v.Loads?
    case Unknown => false
  }

  lemma ValueInverse(crypto: Crypto, shape: Shape, v: Value, rest: Octets)
    requires Admits(crypto, shape, v)
    ensures ParseValue(crypto, shape, EncodeValue(v) + rest) == Ok(v, rest)
  {
    match v
    case Number(n) => HeadInverse(0, n, rest);
    case Words(t) => TextInverse(t, rest);
    case Raw(b) => StringInverse(2, b, rest);
    case Caps(m) => CapabilitiesInverse(m, rest);
    case Loads(l) => LoadInverse(l, rest);
  }

  lemma ValueSound(crypto: Crypto, shape: Shape, s: Octets)
    requires ParseValue(crypto, shape, s).Ok?
    ensures var r := ParseValue(crypto, shape, s); Admits(crypto, shape, r.value) && s == EncodeValue(r.value) + r.rest
  {
    match shape
    case AsNumber => HeadSound(s, 0);
    case AsText => TextSound(s);
    case AsBytes(_) => StringSound(s, 2);
    case AsKey => StringSound(s, 2);
    case AsPort => HeadSound(s, 0);
    case AsCapabilities => CapabilitiesSound(s);
    case AsLoad => LoadSound(s);
  }

  /** One arm of the `match` in the field loop. */
  function MessageField(crypto: Crypto): (f: (Str, Octets) -> Parsed<Value>) {
    (key: Str, s: Octets) => ParseValue(crypto, ShapeNamed(key), s)
  }

  lemma MessageFieldExact(crypto: Crypto)
    ensures Exact(MessageField(crypto), EncodeValue)
  {
    var f := MessageField(crypto);
    forall k: Str, s: Octets | f(k, s).Ok?
      ensures s == EncodeValue(f(k, s).value) + f(k, s).rest
    {
      ValueSound(crypto, ShapeNamed(k), s);
    }
  }

  lemma ValueConsumes(crypto: Crypto, shape: Shape, s: Octets)
    ensures ParseValue(crypto, shape, s).Ok? ==> |ParseValue(crypto, shape, s).rest| < |s|
  {
    if ParseValue(crypto, shape, s).Ok? {
      ValueSound(crypto, shape, s);
      assert EncodeValue(ParseValue(crypto, shape, s).value) != [];
    }
  }

  /** A message that claims more fields than half its bytes is refused, so the field loop never outruns its input. */
  lemma FieldLoopBounded(crypto: Crypto, n: U64, s: Octets)
    requires 2 * n > |s|
    ensures ParseFields(MessageField(crypto), n, None, s, map[]).Err?
  {
    var field := MessageField(crypto);
    forall k: Str, r: Octets
      ensures field(k, r).Ok? ==> |field(k, r).rest| < |r|
    {
      ValueConsumes(crypto, ShapeNamed(k), r);
    }
    FieldsBounded(field, n, None, s, map[]);
  }

  // ---------- messages as field maps ----------

  /** "announcement" and "withdrawal". */
  function KindOf(m: Message): (s: Str) {
    if m.Announce? then Name("announcement") else Name("withdrawal")
  }

  /** The fields in the order the encoders list them. */
  function KeyOrder(m: Message): (r: seq<Key>) {
    if m.Announce? then
      [Version, Kind, FleetId, EndpointId, NodeName, PartisanIp, PartisanPort, Sequence, TtlMs, CapabilityMap, LoadMap]
    else
      [Version, Kind, FleetId, EndpointId, Sequence]
  }

  predicate Has(m: Message, k: Key) {
    m.Announce? || k.Version? || k.Kind? || k.FleetId? || k.EndpointId? || k.Sequence?
  }

  function ValueOf(m: Message, k: Key): (v: Value)
    requires Has(m, k)
  {
    match k
    case Version => Number(1)
    case Kind => Words(KindOf(m))
    case FleetId => Raw(m.FleetId())
    case EndpointId => Raw(m.EndpointId())
    case NodeName => Words(m.announcement.nodeName)
    case PartisanIp => Raw(m.announcement.partisanIp)
    case PartisanPort => Number(m.announcement.partisanPort)
    case Sequence => Number(m.Sequence())
    case TtlMs => Number(m.announcement.ttlMs)
    case CapabilityMap => Caps(m.announcement.capabilities)
    case LoadMap => Loads(m.announcement.load)
  }

  function Spelled(ks: seq<Key>): (r: seq<Str>)
    ensures |r| == |ks| && forall i :: 0 <= i < |ks| ==> r[i] == Spell(ks[i])
  {
    if ks == [] then [] else [Spell(ks[0])] + Spelled(ks[1..])
  }

  function Order(m: Message): (r: seq<Str>) { Spelled(KeyOrder(m)) }

  /** The keys a message is written with. */
  predicate Carries(m: Message, s: Str) { Named(s).Some? && Has(m, Named(s).value) }

  lemma KeyOrderCorrect(m: Message, k: Key)
    ensures Has(m, k) <==> k in KeyOrder(m)
  {
    match k
    case Version => case Kind => case FleetId => case EndpointId => case NodeName => case PartisanIp =>
    case PartisanPort => case Sequence => case TtlMs => case CapabilityMap => case LoadMap =>
  }

  lemma OrderLists(m: Message, s: Str)
    ensures s in Order(m) <==> Carries(m, s)
  {
    var ks := KeyOrder(m);
    if s in Order(m) {
      var i :| 0 <= i < |ks| && s == Spell(ks[i]);
      NamedSpell(ks[i]);
      KeyOrderCorrect(m, ks[i]);
    }
    if Carries(m, s) {
      KeyOrderCorrect(m, Named(s).value);
      var i :| 0 <= i < |ks| && ks[i] == Named(s).value;
      assert Order(m)[i] == s;
    }
  }

  lemma KeysDistinct(m: Message)
    ensures |KeyOrder(m)| == (if m.Announce? then 11 else 5)
    ensures forall i, j :: 0 <= i < j < |KeyOrder(m)| ==> KeyOrder(m)[i] != KeyOrder(m)[j]
  {
  }

  lemma SpelledDistinct(ks: seq<Key>)
    requires forall i, j :: 0 <= i < j < |ks| ==> ks[i] != ks[j]
    ensures Distinct(Spelled(ks))
  {
    forall i, j | 0 <= i < j < |ks|
      ensures Spelled(ks)[i] != Spelled(ks)[j]
    {
      SpellInjective(ks[i], ks[j]);
    }
  }

  lemma OrderDistinct(m: Message)
    ensures |Order(m)| == (if m.Announce? then 11 else 5) && Distinct(Order(m))
  {
    KeysDistinct(m);
    SpelledDistinct(KeyOrder(m));
  }

  function FieldsOf(m: Message): (r: map<Str, Value>) {
    map s: Str | s in Order(m) && Carries(m, s) :: ValueOf(m, Named(s).value)
  }

  lemma FieldsListed(m: Message)
    ensures forall s :: s in Order(m) <==> s in FieldsOf(m)
  {
    forall s: Str
      ensures s in Order(m) <==> s in FieldsOf(m)
    {
      OrderLists(m, s);
    }
  }

  /** `encode_announcement` and `encode_withdrawal`. */
  function EncodeMessage(m: Message): (s: Octets) {
    FieldsListed(m);
    EncodeMap(Fields(Order(m), FieldsOf(m), EncodeValue))
  }

  // ---------- reading messages ----------

  /** The local variables of `decode_message`, by key. */
  function Slots(values: map<Str, Value>): (r: map<Key, Value>) {
    map k: Key | Spell(k) in values :: values[Spell(k)]
  }

  function NumberAt(slots: map<Key, Value>, k: Key): (r: Option<U64>) {
    if k in slots && slots[k].Number? then Some(slots[k].n) else None
  }

  function TextAt(slots: map<Key, Value>, k: Key): (r: Option<Str>) {
    if k in slots && slots[k].Words? then Some(slots[k].t) else None
  }

  function IdAt(slots: map<Key, Value>, k: Key): (r: Option<Id>) {
    if k in slots && slots[k].Raw? && |slots[k].b| == 32 then Some(slots[k].b) else None
  }

  function AddressAt(slots: map<Key, Value>, k: Key): (r: Option<Address>) {
    if k in slots && slots[k].Raw? && |slots[k].b| == 4 then Some(slots[k].b) else None
  }

  function PortAt(slots: map<Key, Value>, k: Key): (r: Option<Port>) {
    if k in slots && slots[k].Number? && 1 <= slots[k].n <= 0xFFFF then Some(slots[k].n) else None
  }

  function CapabilitiesAt(slots: map<Key, Value>, k: Key): (r: Option<Capabilities>) {
    if k in slots && slots[k].Caps? then Some(slots[k].m) else None
  }

  function LoadAt(slots: map<Key, Value>, k: Key): (r: Option<Load>) {
    if k in slots && slots[k].Loads? then Some(slots[k].l) else None
  }

  /** The rest of an announcement, once its kind and common fields are known. */
  function AssembleAnnouncement(slots: map<Key, Value>, fleet: Id, endpoint: Id, sequence: U64): (r: Result<Message>) {
    var name, ip, port := TextAt(slots, NodeName), AddressAt(slots, PartisanIp), PortAt(slots, PartisanPort);
    var ttl, caps, load := NumberAt(slots, TtlMs), CapabilitiesAt(slots, CapabilityMap), LoadAt(slots, LoadMap);
    if name.None? || ip.None? || port.None? || ttl.None? || caps.None? || load.None? then Failure(Malformed)
    else Success(Announce(Announcement(fleet, endpoint, name.value, ip.value, port.value, sequence, ttl.value,
                                       caps.value, load.value)))
  }

  datatype Shown = Announced | Withdrawn | Strange

  /** What the "kind" field says. */
  function KindAt(slots: map<Key, Value>): (r: Shown) {
    var kind := TextAt(slots, Kind);
    if kind.None? then Strange
    else if kind.value == Name("announcement") then Announced
    else if kind.value == Name("withdrawal") then Withdrawn
    else Strange
  }

  /** `decode_message` after its field loop: which message the `n` fields make. */
  function Assemble(slots: map<Key, Value>, n: U64): (r: Result<Message>) {
    AssembleAs(slots, KindAt(slots), n)
  }

  function AssembleAs(slots: map<Key, Value>, kind: Shown, n: U64): (r: Result<Message>) {
    var version := NumberAt(slots, Version);
    var fleet, endpoint, sequence := IdAt(slots, FleetId), IdAt(slots, EndpointId), NumberAt(slots, Sequence);
    if version.None? then Failure(Malformed)
    else if version.value != 1 then Failure(UnsupportedVersion)
    else if fleet.None? || endpoint.None? || sequence.None? then Failure(Malformed)
    else if kind == Announced && n == 11 then
      AssembleAnnouncement(slots, fleet.value, endpoint.value, sequence.value)
    else if kind == Withdrawn && n == 5 then
      Success(Withdraw(Withdrawal(fleet.value, endpoint.value, sequence.value)))
    else if kind == Strange then Failure(InvalidRecord)
    else Failure(Malformed)
  }

  /** Everything `decode_message` does before its final comparison. */
  function ReadMessage(crypto: Crypto, bytes: Octets): (r: Result<Message>) {
    match ParseHead(bytes, 5)
    case Err(e) => Failure(e)
    case Ok(n, rest) =>
      match ParseFields(MessageField(crypto), n, None, rest, map[])
      case Err(e) => Failure(e)
      case Ok(values, rest') => if rest' != [] then Failure(Malformed) else Assemble(Slots(values), n)
  }

  /** `decode_message`. */
  function DecodeMessage(crypto: Crypto, bytes: Octets): (r: Result<Message>) {
    var r := ReadMessage(crypto, bytes);
    if r.Success? && EncodeMessage(r.value) != bytes then Failure(Malformed) else r
  }

  /** What the reader demands of a message beyond its types. */
  predicate Decodable(crypto: Crypto, m: Message) {
    crypto.validKey(m.EndpointId()) && (m.Announce? ==> ReadableCapabilities(m.announcement.capabilities))
  }

  /** Every entry of a read map has a known name and a value of its shape. */
  ghost predicate Admitted(crypto: Crypto, values: map<Str, Value>) {
    forall s :: s in values ==> Admits(crypto, ShapeNamed(s), values[s])
  }

  lemma KindsDiffer()
    ensures Name("announcement") != Name("withdrawal")
  {
    assert |Name("announcement")| != |Name("withdrawal")|;
  }

  lemma SlotMatches(slots: map<Key, Value>, n: U64, m: Message, k: Key)
    requires Assemble(slots, n) == Success(m) && Has(m, k)
    ensures k in slots && slots[k] == ValueOf(m, k)
    ensures n == |Order(m)|
  {
    KindsDiffer();
    match k
    case Version => case Kind => case FleetId => case EndpointId => case NodeName => case PartisanIp =>
    case PartisanPort => case Sequence => case TtlMs => case CapabilityMap => case LoadMap =>
  }

  /** A field map that makes a message is exactly that message's field map: a surplus key would raise the count. */
  lemma AssembleSound(values: map<Str, Value>, n: U64, m: Message)
    requires Assemble(Slots(values), n) == Success(m) && |values.Keys| <= n
    ensures n == |Order(m)| && values == FieldsOf(m)
  {
    hide Assemble, Slots, Order, FieldsOf, ValueOf;
    FieldsListed(m);
    OrderDistinct(m);
    SlotMatches(Slots(values), n, m, Version);
    forall s: Str | s in Order(m)
      ensures s in values && s in FieldsOf(m) && values[s] == FieldsOf(m)[s]
    {
      FieldMatches(values, n, m, s);
    }
    SetOfDistinct(Order(m));
    CoveredBy(Order(m), values.Keys);
  }

  lemma FieldMatches(values: map<Str, Value>, n: U64, m: Message, s: Str)
    requires Assemble(Slots(values), n) == Success(m) && s in Order(m)
    ensures s in values && s in FieldsOf(m) && values[s] == FieldsOf(m)[s]
  {
    OrderLists(m, s);
    SlotMatches(Slots(values), n, m, Named(s).value);
  }

  /** A set no larger than a part of it is that part. */
  lemma CoveredBy(order: seq<Str>, keys: set<Str>)
    requires forall s :: s in order ==> s in keys
    requires |set s | s in order| >= |keys|
    ensures keys == set s | s in order
  {
    var listed := set s | s in order;
    assert listed <= keys;
    assert |keys - listed| == |keys| - |listed|;
    assert keys - listed == {};
  }

  lemma SlotOf(m: Message, k: Key)
    ensures Has(m, k) ==> k in Slots(FieldsOf(m)) && Slots(FieldsOf(m))[k] == ValueOf(m, k)
  {
    NamedSpell(k);
    OrderLists(m, Spell(k));
  }

  lemma KindRead(slots: map<Key, Value>, m: Message)
    requires Kind in slots && slots[Kind] == ValueOf(m, Kind)
    ensures KindAt(slots) == if m.Announce? then Announced else Withdrawn
  {
    KindsDiffer();
  }

  lemma AnnouncementSlots(slots: map<Key, Value>, a: Announcement)
    requires forall k :: k in slots && slots[k] == ValueOf(Announce(a), k)
    ensures AssembleAnnouncement(slots, a.fleetId, a.endpointId, a.sequence) == Success(Announce(a))
  {
  }

  lemma AssembleSlots(slots: map<Key, Value>, m: Message)
    requires forall k :: Has(m, k) ==> k in slots && slots[k] == ValueOf(m, k)
    ensures AssembleAs(slots, if m.Announce? then Announced else Withdrawn, if m.Announce? then 11 else 5) == Success(m)
  {
    assert Has(m, Version) && Has(m, FleetId) && Has(m, EndpointId) && Has(m, Sequence);
    if m.Announce? {
      AnnouncementSlots(slots, m.announcement);
    }
  }

  lemma AssembleInverse(m: Message)
    ensures |Order(m)| < U64_RANGE && Assemble(Slots(FieldsOf(m)), |Order(m)|) == Success(m)
  {
    hide Slots, FieldsOf, ValueOf, AssembleAs, KindAt, Order;
    var slots := Slots(FieldsOf(m));
    forall k: Key
      ensures Has(m, k) ==> k in slots && slots[k] == ValueOf(m, k)
    {
      SlotOf(m, k);
    }
    OrderDistinct(m);
    AssembleSlots(slots, m);
    KindRead(slots, m);
  }

  lemma AdmittedSlot(crypto: Crypto, m: Message, k: Key)
    requires Admitted(crypto, FieldsOf(m)) && Has(m, k)
    ensures Admits(crypto, ShapeOf(k), ValueOf(m, k))
  {
    SlotOf(m, k);
    NamedSpell(k);
    assert Spell(k) in FieldsOf(m);
  }

  /** A decodable message's values all have their shapes, and only a decodable message's do. */
  lemma FieldsAdmitted(crypto: Crypto, m: Message)
    ensures Decodable(crypto, m) <==> Admitted(crypto, FieldsOf(m))
  {
    if Admitted(crypto, FieldsOf(m)) {
      AdmittedSlot(crypto, m, EndpointId);
      if m.Announce? {
        AdmittedSlot(crypto, m, CapabilityMap);
      }
    }
    if Decodable(crypto, m) {
      forall s | s in FieldsOf(m)
        ensures Admits(crypto, ShapeNamed(s), FieldsOf(m)[s])
      {
        assert Carries(m, s);
        ValueAdmitted(crypto, m, Named(s).value);
      }
    }
  }

  lemma ValueAdmitted(crypto: Crypto, m: Message, k: Key)
    requires Decodable(crypto, m) && Has(m, k)
    ensures Admits(crypto, ShapeOf(k), ValueOf(m, k))
  {
    match k
    case Version => case Kind => case FleetId => case EndpointId => case NodeName => case PartisanIp =>
    case PartisanPort => case Sequence => case TtlMs => case CapabilityMap => case LoadMap =>
  }

  /** The field loop collects `n` distinct keys, each with a value of its shape. */
  lemma FieldsRead(crypto: Crypto, n: U64, s: Octets)
    requires ParseFields(MessageField(crypto), n, None, s, map[]).Ok?
    ensures var values := ParseFields(MessageField(crypto), n, None, s, map[]).value;
            |values.Keys| <= n && Admitted(crypto, values)
  {
    var field := MessageField(crypto);
    var values := ParseFields(field, n, None, s, map[]).value;
    MessageFieldExact(crypto);
    var keys := FieldsSound(field, EncodeValue, n, s);
    assert values.Keys == set k | k in keys;
    SetOfSeq(keys);
    forall k | k in values
      ensures Admits(crypto, ShapeNamed(k), values[k])
    {
      assert Read(field, k, values[k]);
      var r: Octets :| field(k, r).Ok? && field(k, r).value == values[k];
      ValueSound(crypto, ShapeNamed(k), r);
    }
  }

  /** What the reader accepts is already canonical, so the closing comparison of `decode_message` never rejects. */
  lemma ReadCanonical(crypto: Crypto, bytes: Octets)
    requires ReadMessage(crypto, bytes).Success?
    ensures var m := ReadMessage(crypto, bytes).value; EncodeMessage(m) == bytes && Decodable(crypto, m)
    ensures DecodeMessage(crypto, bytes) == ReadMessage(crypto, bytes)
  {
    var m := ReadMessage(crypto, bytes).value;
    var n, rest := ParseHead(bytes, 5).value, ParseHead(bytes, 5).rest;
    var field := MessageField(crypto);
    var values := ParseFields(field, n, None, rest, map[]).value;
    HeadSound(bytes, 5);
    FieldsRead(crypto, n, rest);
    AssembleSound(values, n, m);
    FieldsAdmitted(crypto, m);
    OrderDistinct(m);
    FieldsListed(m);
    MessageFieldExact(crypto);
    MapSound(field, EncodeValue, n, rest, Order(m));
  }

  lemma ReadSteps(crypto: Crypto, bytes: Octets, n: U64, body: Octets, values: map<Str, Value>)
    requires ParseHead(bytes, 5) == Ok(n, body)
    requires ParseFields(MessageField(crypto), n, None, body, map[]) == Ok(values, [])
    ensures ReadMessage(crypto, bytes) == Assemble(Slots(values), n)
  {
  }

  lemma FieldsParse(crypto: Crypto, m: Message) returns (body: Octets)
    requires Decodable(crypto, m)
    ensures EncodeMessage(m) == EncodeHead(5, |Order(m)|) + body
    ensures ParseFields(MessageField(crypto), |Order(m)|, None, body, map[]) == Ok(FieldsOf(m), [])
  {
    var field, order, values := MessageField(crypto), Order(m), FieldsOf(m);
    OrderDistinct(m);
    FieldsListed(m);
    FieldsAdmitted(crypto, m);
    forall k, s: Octets | k in values
      ensures field(k, EncodeValue(values[k]) + s) == Ok(values[k], s)
    {
      ValueInverse(crypto, ShapeNamed(k), values[k], s);
    }
    body := MapRoundTrip(field, EncodeValue, order, values, []);
  }

  lemma ReadEncoded(crypto: Crypto, m: Message)
    requires Decodable(crypto, m)
    ensures ReadMessage(crypto, EncodeMessage(m)) == Success(m)
  {
    OrderDistinct(m);
    var body := FieldsParse(crypto, m);
    HeadInverse(5, |Order(m)|, body);
    ReadSteps(crypto, EncodeMessage(m), |Order(m)|, body, FieldsOf(m));
    AssembleInverse(m);
  }

  /** The message codec is exact: a message decodes from its own encoding and from no other bytes. */
  lemma MessageExact(crypto: Crypto, bytes: Octets, m: Message)
    ensures DecodeMessage(crypto, bytes) == Success(m) <==> bytes == EncodeMessage(m) && Decodable(crypto, m)
  {
    if ReadMessage(crypto, bytes).Success? {
      ReadCanonical(crypto, bytes);
    }
    if Decodable(crypto, m) {
      ReadEncoded(crypto, m);
    }
  }
}
