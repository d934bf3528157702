/** Announcements and withdrawals: the message types of `native/iroh_discovery/src/lib.rs`, and the encoders and
    parsers of what they carry. */
module Messages {
  import opened Octets
  import opened Text
  import opened Cbor
  import opened CborMap
  import opened TwoFields
  import opened OrderedKeys

  type Id = s: Octets | |s| == 32 witness seq(32, _ => 0)
  type Address = s: Octets | |s| == 4 witness seq(4, _ => 0)
  type Signature = s: Octets | |s| == 64 witness seq(64, _ => 0)
  type Port = n: nat | 1 <= n <= 0xFFFF witness 1
  type Capabilities = map<Str, Capability>

  /** The key check of `EndpointId::from_bytes` and Ed25519 verification, left uninterpreted. */
  datatype Crypto = Crypto(validKey: Id -> bool, verify: (Id, Octets, Signature) -> bool)

  datatype Capability = Bool(flag: bool) | Uint(number: U64) | Text(text: Str) | TextList(texts: seq<Str>)
  datatype Load = Load(running: U64, capacity: U64)

  datatype Announcement = Announcement(
    fleetId: Id, endpointId: Id, nodeName: Str, partisanIp: Address, partisanPort: Port,
    sequence: U64, ttlMs: U64, capabilities: Capabilities, load: Load)

  datatype Withdrawal = Withdrawal(fleetId: Id, endpointId: Id, sequence: U64)

  datatype Message = Announce(announcement: Announcement) | Withdraw(withdrawal: Withdrawal) {
    function FleetId(): (id: Id) { if Announce? then announcement.fleetId else withdrawal.fleetId }

    function EndpointId(): (id: Id) { if Announce? then announcement.endpointId else withdrawal.endpointId }

    function Sequence(): (n: U64) { if Announce? then announcement.sequence else withdrawal.sequence }
  }

  // ---------- capability values ----------

  function EncodeUint(n: U64): (s: Octets) { EncodeHead(0, n) }

  function EncodeTexts(ts: seq<Str>): (s: Octets) {
    if ts == [] then [] else EncodeText(ts[0]) + EncodeTexts(ts[1..])
  }

  /** `encode_capability`. */
  function EncodeCapability(c: Capability): (s: Octets) {
    match c
    case Bool(false) => [0xF4]
    case Bool(true) => [0xF5]
    case Uint(n) => EncodeUint(n)
    case Text(t) => EncodeText(t)
    case TextList(ts) => EncodeHead(4, AsU64(|ts|)) + EncodeTexts(ts)
  }

  function ParseTexts(n: nat, s: Octets): (r: Parsed<seq<Str>>)
    ensures r.Ok? ==> |r.value| == n
  {
    if n == 0 then Ok([], s) else
    match ParseText(s)
    case Err(e) => Err(e)
    case Ok(t, rest) =>
      match ParseTexts(n - 1, rest)
      case Err(e) => Err(e)
      case Ok(ts, rest') => Ok([t] + ts, rest')
  }

  /** `Reader::capability`. */
  function ParseCapability(s: Octets): (r: Parsed<Capability>) {
    if s == [] then Err(Malformed)
    else if s[0] == 0xF4 then Ok(Bool(false), s[1..])
    else if s[0] == 0xF5 then Ok(Bool(true), s[1..])
    else if s[0] / 32 == 0 then
      match ParseHead(s, 0)
      case Err(e) => Err(e)
      case Ok(n, rest) => Ok(Uint(n), rest)
    else if s[0] / 32 == 3 then
      match ParseText(s)
      case Err(e) => Err(e)
      case Ok(t, rest) => Ok(Text(t), rest)
    else if s[0] / 32 == 4 then
      match ParseHead(s, 4)
      case Err(e) => Err(e)
      case Ok(n, rest) =>
        if n > 32 then Err(InvalidRecord) else
        match ParseTexts(n, rest)
        case Err(e) => Err(e)
        case Ok(ts, rest') => Ok(TextList(ts), rest')
    else Err(Malformed)
  }

  /** What a capability value must satisfy to be readable at all. */
  predicate Readable(c: Capability) { c.TextList? ==> |c.texts| <= 32 }

  lemma {:induction false} TextsInverse(ts: seq<Str>, rest: Octets)
    ensures ParseTexts(|ts|, EncodeTexts(ts) + rest) == Ok(ts, rest)
  {
    hide EncodeText, ParseText;
    if ts == [] {
      assert EncodeTexts(ts) + rest == rest;
    } else {
      Associative(EncodeText(ts[0]), EncodeTexts(ts[1..]), rest);
      TextInverse(ts[0], EncodeTexts(ts[1..]) + rest);
      TextsInverse(ts[1..], rest);
      assert ts == [ts[0]] + ts[1..];
    }
  }

  lemma {:induction false} TextsSound(n: nat, s: Octets)
    requires ParseTexts(n, s).Ok?
    ensures s == EncodeTexts(ParseTexts(n, s).value) + ParseTexts(n, s).rest
  {
    hide EncodeText, ParseText;
    var r := ParseTexts(n, s);
    if n == 0 {
      assert EncodeTexts(r.value) + s == s;
    } else {
      TextSound(s);
      var t, rest := ParseText(s).value, ParseText(s).rest;
      TextsSound(n - 1, rest);
      var ts := ParseTexts(n - 1, rest).value;
      assert ([t] + ts)[1..] == ts;
      Associative(EncodeText(t), EncodeTexts(ts), r.rest);
    }
  }

  lemma HeadMajor(major: nat, value: U64, rest: Octets)
    requires major < 8
    ensures (EncodeHead(major, value) + rest)[0] / 32 == major
  {
  }

  lemma CapabilityInverse(c: Capability, rest: Octets)
    requires Readable(c)
    ensures ParseCapability(EncodeCapability(c) + rest) == Ok(c, rest)
  {
    hide EncodeHead, ParseHead, ParseText, EncodeTexts, ParseTexts;
    match c
    case Bool(_) => assert (EncodeCapability(c) + rest)[1..] == rest;
    case Uint(n) =>
      HeadMajor(0, n, rest);
      HeadInverse(0, n, rest);
    case Text(t) =>
      Associative(EncodeHead(3, |t|), t, rest);
      HeadMajor(3, |t|, t + rest);
      TextInverse(t, rest);
    case TextList(ts) => TextListInverse(ts, rest);
  }

  lemma TextListInverse(ts: seq<Str>, rest: Octets)
    requires |ts| <= 32
    ensures ParseCapability(EncodeCapability(TextList(ts)) + rest) == Ok(TextList(ts), rest)
  {
    hide EncodeHead, ParseHead, EncodeTexts, ParseTexts;
    var tail := EncodeTexts(ts) + rest;
    Associative(EncodeHead(4, |ts|), EncodeTexts(ts), rest);
    HeadMajor(4, |ts|, tail);
    HeadInverse(4, |ts|, tail);
    TextsInverse(ts, rest);
  }

  lemma CapabilitySound(s: Octets)
    requires ParseCapability(s).Ok?
    ensures var r := ParseCapability(s); Readable(r.value) && s == EncodeCapability(r.value) + r.rest
  {
    hide EncodeHead, ParseHead, EncodeText, ParseText, EncodeTexts, ParseTexts;
    var r := ParseCapability(s);
    if s[0] == 0xF4 || s[0] == 0xF5 {
      assert s == [s[0]] + s[1..];
    } else if s[0] / 32 == 0 {
      HeadSound(s, 0);
    } else if s[0] / 32 == 3 {
      TextSound(s);
    } else {
      HeadSound(s, 4);
      var h := ParseHead(s, 4);
      TextsSound(h.value, h.rest);
      Associative(EncodeHead(4, h.value), EncodeTexts(r.value.texts), r.rest);
    }
  }

  // ---------- capability maps ----------

  function CapabilityField(key: Str, s: Octets): (r: Parsed<Capability>) { ParseCapability(s) }

  /** `BTreeMap::iter` over the capabilities. */
  function Iterated(keys: set<Str>): (r: seq<Str>)
    ensures |r| == |keys| && Distinct(r) && forall k :: k in r <==> k in keys
  {
    ListingDistinct(keys);
    var r := Listing(keys);
    assert forall i :: 0 <= i < |r| ==> r[i] in keys;
    r
  }

  /** `encode_capabilities`. */
  function EncodeCapabilities(m: Capabilities): (s: Octets) {
    EncodeMap(Fields(Iterated(m.Keys), m, EncodeCapability))
  }

  /** `decode_capabilities`. */
  function ParseCapabilities(s: Octets): (r: Parsed<Capabilities>) {
    match ParseHead(s, 5)
    case Err(e) => Err(e)
    case Ok(n, rest) =>
      if n > 32 then Err(InvalidRecord) else
      ParseFields(CapabilityField, n, None, rest, map[])
  }

  predicate ReadableCapabilities(m: Capabilities) {
    |m| <= 32 && forall k :: k in m ==> Readable(m[k])
  }

  lemma CapabilityFieldExact()
    ensures Exact(CapabilityField, EncodeCapability)
  {
    forall k: Str, s: Octets | CapabilityField(k, s).Ok?
      ensures s == EncodeCapability(CapabilityField(k, s).value) + CapabilityField(k, s).rest
    {
      CapabilitySound(s);
    }
  }

  lemma CapabilitiesSound(s: Octets)
    requires ParseCapabilities(s).Ok?
    ensures var r := ParseCapabilities(s); ReadableCapabilities(r.value) && s == EncodeCapabilities(r.value) + r.rest
  {
    hide ParseHead, EncodeHead, ParseFields, EncodeMap, EncodeCapability, Iterated, Exact, Fields, Readable;
    HeadSound(s, 5);
    var n, rest := ParseHead(s, 5).value, ParseHead(s, 5).rest;
    var r := ParseFields(CapabilityField, n, None, rest, map[]);
    CapabilityFieldExact();
    ValuesReadable(n, rest);
    MapSound(CapabilityField, EncodeCapability, n, rest, Iterated(r.value.Keys));
  }

  lemma ValuesReadable(n: U64, s: Octets)
    requires ParseFields(CapabilityField, n, None, s, map[]).Ok?
    ensures var m := ParseFields(CapabilityField, n, None, s, map[]).value;
            |m| <= n && forall k :: k in m ==> Readable(m[k])
  {
    hide ParseFields, ParseCapability, EncodeCapability, Increasing, Readable, Exact;
    CapabilityFieldExact();
    var m := ParseFields(CapabilityField, n, None, s, map[]).value;
    var keys := FieldsSound(CapabilityField, EncodeCapability, n, s);
    assert m.Keys == set k | k in keys;
    SetOfSeq(keys);
    forall k | k in m
      ensures Readable(m[k])
    {
      var b: Octets :| CapabilityField(k, b).Ok? && CapabilityField(k, b).value == m[k];
      CapabilitySound(b);
    }
  }

  lemma CapabilitiesInverse(m: Capabilities, rest: Octets)
    requires ReadableCapabilities(m)
    ensures ParseCapabilities(EncodeCapabilities(m) + rest) == Ok(m, rest)
  {
    forall k, s: Octets | k in m
      ensures CapabilityField(k, EncodeCapability(m[k]) + s) == Ok(m[k], s)
    {
      CapabilityInverse(m[k], s);
    }
    var body := MapRoundTrip(CapabilityField, EncodeCapability, Iterated(m.Keys), m, rest);
    HeadInverse(5, |m|, body);
  }

  // ---------- field names ----------

  /** An ASCII string literal as the bytes it stands for. */
  function Name(s: string): (r: Str)
    requires |s| <= 64 && forall i :: 0 <= i < |s| ==> s[i] as int < 128
    ensures |r| == |s| && forall i :: 0 <= i < |s| ==> r[i] == s[i] as int
  {
    var r: Octets := seq(|s|, i requires 0 <= i < |s| => s[i] as int);
    AsciiIsUtf8(r);
    r
  }

  const RUNNING: Str := Name("running")
  const CAPACITY: Str := Name("capacity")

  // ---------- load ----------

  function ParseUint(s: Octets): (r: Parsed<U64>) { ParseHead(s, 0) }

  function EncodeLoad(load: Load): (s: Octets) {
    EncodePair(RUNNING, CAPACITY, EncodeUint, Two(load.running, load.capacity))
  }

  /** `decode_load`. */
  function ParseLoad(s: Octets): (r: Parsed<Load>) {
    match ParsePair(RUNNING, CAPACITY, ParseUint, ParseUint, s)
    case Err(e) => Err(e)
    case Ok(v, rest) => Ok(Load(v.first, v.second), rest)
  }

  lemma NamesDiffer()
    ensures RUNNING != CAPACITY
  {
    assert |RUNNING| != |CAPACITY|;
  }

  lemma UintFaithful()
    ensures Faithful(ParseUint, EncodeUint)
    ensures forall n: U64 :: Restores(ParseUint, EncodeUint, n)
  {
    forall s: Octets | ParseUint(s).Ok?
      ensures s == EncodeUint(ParseUint(s).value) + ParseUint(s).rest
    {
      HeadSound(s, 0);
    }
    forall n: U64, s: Octets
      ensures ParseUint(EncodeUint(n) + s) == Ok(n, s)
    {
      HeadInverse(0, n, s);
    }
  }

  lemma LoadSound(s: Octets)
    requires ParseLoad(s).Ok?
    ensures s == EncodeLoad(ParseLoad(s).value) + ParseLoad(s).rest
  {
    NamesDiffer();
    UintFaithful();
    PairSound(RUNNING, CAPACITY, ParseUint, ParseUint, EncodeUint, s);
  }

  lemma LoadInverse(load: Load, rest: Octets)
    ensures ParseLoad(EncodeLoad(load) + rest) == Ok(load, rest)
  {
    NamesDiffer();
    UintFaithful();
    PairInverse(RUNNING, CAPACITY, ParseUint, ParseUint, EncodeUint, Two(load.running, load.capacity), rest);
  }
}
