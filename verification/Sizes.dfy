/** How long encodings get (`encode_map` and its callers in `native/iroh_discovery/src/lib.rs`): every valid message has
    a bounded length, and those without capabilities fit the size limit. */
module Sizes {
  import opened Octets
  import opened Text
  import opened Cbor
  import opened CborMap
  import opened TwoFields
  import opened Messages
  import opened Codec
  import opened Envelopes
  import opened Records

  lemma HeadSize(major: nat, value: U64)
    requires major < 8
    ensures |EncodeHead(major, value)| <= 9
  {
  }

  // ---------- maps ----------

  /** No field is longer than `bound`. */
  ghost predicate Within(fields: seq<Field>, bound: nat) {
    forall i :: 0 <= i < |fields| ==> |fields[i].0| + |fields[i].1| <= bound
  }

  lemma {:induction false} InsertWithin(f: Field, sorted: seq<Field>, bound: nat)
    requires Within(sorted, bound) && |f.0| + |f.1| <= bound
    ensures Within(InsertField(f, sorted), bound)
  {
    hide CanonicalLess;
    if sorted != [] && CanonicalLess(sorted[0].0, f.0) {
      InsertWithin(f, sorted[1..], bound);
    }
  }

  lemma {:induction false} SortWithin(fields: seq<Field>, bound: nat)
    requires Within(fields, bound)
    ensures Within(SortFields(fields), bound)
  {
    hide InsertField;
    if fields != [] {
      SortWithin(fields[1..], bound);
      InsertWithin(fields[0], SortFields(fields[1..]), bound);
    }
  }

  lemma {:induction false} ConcatWithin(fields: seq<Field>, bound: nat)
    requires Within(fields, bound)
    ensures |ConcatFields(fields)| <= |fields| * bound
  {
    if fields != [] {
      ConcatWithin(fields[1..], bound);
      assert |fields| * bound == |fields[1..]| * bound + bound;
    }
  }

  lemma MapSize(fields: seq<Field>, bound: nat)
    requires Within(fields, bound)
    ensures |EncodeMap(fields)| <= 9 + |fields| * bound
  {
    hide EncodeHead, SortFields, ConcatFields, Within;
    HeadSize(5, AsU64(|fields|));
    SortWithin(fields, bound);
    ConcatWithin(SortFields(fields), bound);
  }

  lemma {:induction false} FieldsWithin<V>(keys: seq<Str>, m: map<Str, V>, enc: V -> Octets, bound: nat)
    requires forall k :: k in keys ==> k in m && |EncodeText(k)| + |enc(m[k])| <= bound
    ensures Within(Fields(keys, m, enc), bound)
  {
    hide EncodeText;
    if keys != [] {
      FieldsWithin(keys[1..], m, enc, bound);
    }
  }

  lemma PairSize<V>(a: Str, b: Str, enc: V -> Octets, v: Two<V>, bound: nat)
    requires |a| + 9 + |enc(v.first)| <= bound && |b| + 9 + |enc(v.second)| <= bound
    ensures |EncodePair(a, b, enc, v)| <= 9 + 2 * bound
  {
    hide EncodeMap, Fields, EncodeHead;
    HeadSize(3, |a|);
    HeadSize(3, |b|);
    var m := map[a := v.first, b := v.second];
    FieldsWithin([a, b], m, enc, bound);
    MapSize(Fields([a, b], m, enc), bound);
  }

  // ---------- capabilities ----------

  lemma {:induction false} TextsSize(ts: seq<Str>)
    requires forall i :: 0 <= i < |ts| ==> |ts[i]| <= 256
    ensures |EncodeTexts(ts)| <= 265 * |ts|
  {
    hide EncodeHead;
    if ts != [] {
      HeadSize(3, |ts[0]|);
      TextsSize(ts[1..]);
    }
  }

  lemma CapabilitySize(name: Str, c: Capability)
    requires ValidCapability(name, c)
    ensures |EncodeText(name)| + |EncodeCapability(c)| <= 8562
  {
    hide EncodeHead, ValidCapabilityName, EncodeTexts;
    NameSize(name);
    match c
    case Bool(_) =>
    case Uint(n) => HeadSize(0, n);
    case Text(t) => HeadSize(3, |t|);
    case TextList(ts) =>
      HeadSize(4, AsU64(|ts|));
      TextsSize(ts);
  }

  lemma NameSize(name: Str)
    requires ValidCapabilityName(name)
    ensures |EncodeText(name)| <= 73
  {
    hide EncodeHead;
    HeadSize(3, |name|);
  }

  lemma CapabilitiesSize(m: Capabilities)
    requires |m| <= 32 && forall k :: k in m ==> ValidCapability(k, m[k])
    ensures |EncodeCapabilities(m)| <= 9 + |m| * 8562
  {
    hide EncodeMap, EncodeText, EncodeCapability, ValidCapability;
    var keys := Iterated(m.Keys);
    forall k | k in keys
      ensures |EncodeText(k)| + |EncodeCapability(m[k])| <= 8562
    {
      CapabilitySize(k, m[k]);
    }
    FieldsWithin(keys, m, EncodeCapability, 8562);
    MapSize(Fields(keys, m, EncodeCapability), 8562);
  }

  // ---------- messages ----------

  /** A message that carries no capabilities. */
  predicate Bare(m: Message) { m.Announce? ==> m.announcement.capabilities == map[] }

  /** What its capabilities may add to each field's share of a message. */
  function Allowance(m: Message): (n: nat) { 263 + if m.Announce? then |m.announcement.capabilities| * 8562 else 0 }

  lemma LoadSize(l: Load)
    ensures |EncodeLoad(l)| <= 70
  {
    hide EncodeHead, EncodePair;
    HeadSize(0, l.running);
    HeadSize(0, l.capacity);
    PairSize(RUNNING, CAPACITY, EncodeUint, Two(l.running, l.capacity), 30);
  }

  lemma ValueSize(m: Message, k: Key)
    requires Valid(m) && Has(m, k)
    ensures |EncodeValue(ValueOf(m, k))| <= Allowance(m)
  {
    hide EncodeHead, EncodeLoad, EncodeCapabilities, ValidNodeName, ValidCapability;
    HeadSize(0, 1);
    HeadSize(3, |KindOf(m)|);
    HeadSize(2, 32);
    HeadSize(0, m.Sequence());
    if m.Announce? {
      var a := m.announcement;
      NodeNameBounds(a.nodeName);
      HeadSize(3, |a.nodeName|);
      HeadSize(2, 4);
      HeadSize(0, a.partisanPort);
      HeadSize(0, a.ttlMs);
      CapabilitiesSize(a.capabilities);
      LoadSize(a.load);
    }
  }

  lemma SpellSize(k: Key)
    ensures |EncodeText(Spell(k))| <= 22
  {
    hide EncodeHead;
    HeadSize(3, |Spell(k)|);
  }

  lemma FieldSize(m: Message, s: Str)
    requires Valid(m) && s in FieldsOf(m)
    ensures |EncodeText(s)| + |EncodeValue(FieldsOf(m)[s])| <= 22 + Allowance(m)
  {
    hide EncodeText, EncodeValue, Valid, ValueOf, Named, Spell, Order, Allowance;
    var k := Named(s).value;
    ValueSize(m, k);
    SpellSize(k);
  }

  lemma MessageSize(m: Message)
    requires Valid(m)
    ensures |EncodeMessage(m)| <= 9 + 11 * (22 + Allowance(m))
  {
    hide EncodeText, EncodeValue, Valid, FieldsOf, Order, EncodeMap, Allowance;
    var bound := 22 + Allowance(m);
    FieldsListed(m);
    OrderDistinct(m);
    forall s | s in Order(m)
      ensures |EncodeText(s)| + |EncodeValue(FieldsOf(m)[s])| <= bound
    {
      FieldSize(m, s);
    }
    FieldsWithin(Order(m), FieldsOf(m), EncodeValue, bound);
    MapSize(Fields(Order(m), FieldsOf(m), EncodeValue), bound);
  }

  /** Every valid message has a body of at most about three megabytes, and of at most 3144 bytes if it carries no
      capabilities. */
  lemma ValidMessageBounded(m: Message)
    requires Valid(m)
    ensures |EncodeMessage(m)| <= 3_016_968
    ensures Bare(m) ==> |EncodeMessage(m)| <= 3144
  {
    hide EncodeMessage, ValidNodeName, ValidCapability;
    MessageSize(m);
  }

  lemma EnvelopeSize(env: Envelope)
    ensures |EncodeEnvelope(env)| <= 2 * |env.body| + 200
  {
    hide EncodeHead, EncodePair;
    HeadSize(2, |env.body|);
    HeadSize(2, 64);
    PairSize<Blob>(BODY, SIGNATURE, EncodeBytes, Two(env.body, env.signature), |env.body| + 95);
  }
}
