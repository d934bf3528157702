/** Text-keyed maps: `encode_map`, `Reader::canonical_key` and the field loops of
    `native/iroh_discovery/src/lib.rs`, generic in what a field's value is. */
module CborMap {
  import opened Octets
  import opened Cbor

  // ---------- writing ----------

  /** An encoded key with its encoded value. */
  type Field = (Octets, Octets)

  function InsertField(f: Field, sorted: seq<Field>): (r: seq<Field>) {
    if sorted == [] || !CanonicalLess(sorted[0].0, f.0) then [f] + sorted
    else [sorted[0]] + InsertField(f, sorted[1..])
  }

  /** `sort_by` with `canonical_cmp` on the keys; equal keys keep their order. */
  function SortFields(fields: seq<Field>): (r: seq<Field>)
    ensures |r| == |fields|
  {
    if fields == [] then [] else
    InsertLength(fields[0], SortFields(fields[1..]));
    InsertField(fields[0], SortFields(fields[1..]))
  }

  lemma InsertLength(f: Field, sorted: seq<Field>)
    ensures |InsertField(f, sorted)| == |sorted| + 1
  {
  }

  function ConcatFields(fields: seq<Field>): (s: Octets) {
    if fields == [] then [] else (fields[0].0 + fields[0].1) + ConcatFields(fields[1..])
  }

  /** `encode_map`. */
  function EncodeMap(fields: seq<Field>): (s: Octets) {
    EncodeHead(5, AsU64(|fields|)) + ConcatFields(SortFields(fields))
  }

  /** The fields of `keys`, in that order, with values taken from `m`. */
  function Fields<V>(keys: seq<Str>, m: map<Str, V>, enc: V -> Octets): (fs: seq<Field>)
    requires forall k :: k in keys ==> k in m
    ensures |fs| == |keys|
  {
    if keys == [] then [] else [(EncodeText(keys[0]), enc(m[keys[0]]))] + Fields(keys[1..], m, enc)
  }

  /** The bytes of `keys` with their values, in that order. */
  function Entries<V>(keys: seq<Str>, m: map<Str, V>, enc: V -> Octets): (s: Octets)
    requires forall k :: k in keys ==> k in m
  {
    if keys == [] then [] else EncodeText(keys[0]) + enc(m[keys[0]]) + Entries(keys[1..], m, enc)
  }

  lemma {:induction false} ConcatIsEntries<V>(keys: seq<Str>, m: map<Str, V>, enc: V -> Octets)
    requires forall k :: k in keys ==> k in m
    ensures ConcatFields(Fields(keys, m, enc)) == Entries(keys, m, enc)
  {
    if keys != [] {
      ConcatIsEntries(keys[1..], m, enc);
      assert Fields(keys, m, enc)[1..] == Fields(keys[1..], m, enc);
    }
  }

  lemma {:induction false} InsertCommutes<V>(key: Str, sorted: seq<Str>, m: map<Str, V>, enc: V -> Octets)
    requires key in m && forall k :: k in sorted ==> k in m
    ensures forall k :: k in InsertKey(key, sorted) ==> k in m
    ensures InsertField((EncodeText(key), enc(m[key])), Fields(sorted, m, enc))
         == Fields(InsertKey(key, sorted), m, enc)
  {
    InsertKeeps(key, sorted);
    if sorted == [] {
      assert Fields([key], m, enc) == [(EncodeText(key), enc(m[key]))] + Fields([], m, enc);
    } else if KeyLess(sorted[0], key) {
      InsertCommutes(key, sorted[1..], m, enc);
      assert Fields(sorted, m, enc)[1..] == Fields(sorted[1..], m, enc);
      assert ([sorted[0]] + InsertKey(key, sorted[1..]))[1..] == InsertKey(key, sorted[1..]);
    } else {
      assert ([key] + sorted)[1..] == sorted;
    }
  }

  /** Sorting the fields is listing the sorted keys. */
  lemma {:induction false} SortCommutes<V>(keys: seq<Str>, m: map<Str, V>, enc: V -> Octets)
    requires forall k :: k in keys ==> k in m
    ensures forall k :: k in SortKeys(keys) ==> k in m
    ensures SortFields(Fields(keys, m, enc)) == Fields(SortKeys(keys), m, enc)
  {
    SortKeysCorrect(keys);
    if keys != [] {
      SortKeysCorrect(keys[1..]);
      SortCommutes(keys[1..], m, enc);
      assert Fields(keys, m, enc)[1..] == Fields(keys[1..], m, enc);
      InsertCommutes(keys[0], SortKeys(keys[1..]), m, enc);
    }
  }

  /** The encoding of a map does not depend on the order its fields are supplied in: it is the
      unique strictly increasing listing of its keys. */
  lemma EncodeMapCanonical<V>(order: seq<Str>, keys: seq<Str>, m: map<Str, V>, enc: V -> Octets)
    requires Distinct(order) && |order| < U64_RANGE && Increasing(None, keys)
    requires forall k :: k in order <==> k in keys
    requires forall k :: k in order ==> k in m
    ensures |keys| == |order|
    ensures EncodeMap(Fields(order, m, enc)) == EncodeHead(5, |keys|) + Entries(keys, m, enc)
  {
    SortKeysCorrect(order);
    IncreasingUnique(SortKeys(order), keys);
    SortCommutes(order, m, enc);
    ConcatIsEntries(keys, m, enc);
  }

  // ---------- reading ----------

  /** `Reader::canonical_key`; `previous` is the encoding of the key before. */
  function ParseKey(previous: Option<Octets>, s: Octets): (r: Parsed<Str>)
    ensures r.Ok? ==> |r.rest| < |s|
  {
    match ParseText(s)
    case Err(e) => Err(e)
    case Ok(key, rest) =>
      var encoded := s[..|s| - |rest|];
      if previous.Some? && !CanonicalLess(previous.value, encoded) then Err(Malformed) else Ok(key, rest)
  }

  /** `n` times a key and the value the schema reads for it. */
  function Loop<V>(key: (Option<Octets>, Octets) -> Parsed<Str>, field: (Str, Octets) -> Parsed<V>, n: nat,
                   previous: Option<Octets>, s: Octets, acc: map<Str, V>): (r: Parsed<map<Str, V>>)
    decreases n
  {
    if n == 0 then Ok(acc, s) else
    match key(previous, s)
    case Err(e) => Err(e)
    case Ok(k, rest) =>
      match field(k, rest)
      case Err(e) => Err(e)
      case Ok(value, left) => Loop(key, field, n - 1, Some(EncodeText(k)), left, acc[k := value])
  }

  /** A field loop over canonical keys. */
  function ParseFields<V>(field: (Str, Octets) -> Parsed<V>, n: nat, previous: Option<Octets>, s: Octets,
                          acc: map<Str, V>): (r: Parsed<map<Str, V>>)
  {
    Loop(ParseKey, field, n, previous, s, acc)
  }

  /** A schema that consumes exactly the encoding of the value it returns. */
  ghost predicate Exact<V>(field: (Str, Octets) -> Parsed<V>, enc: V -> Octets) {
    forall k: Str, s: Octets :: field(k, s).Ok? ==> s == enc(field(k, s).value) + field(k, s).rest
  }

  function Encoded(key: Option<Str>): (e: Option<Octets>) {
    if key.Some? then Some(EncodeText(key.value)) else None
  }

  lemma KeySound(previous: Option<Octets>, s: Octets)
    requires ParseKey(previous, s).Ok?
    ensures var r := ParseKey(previous, s);
            && s == EncodeText(r.value) + r.rest
            && s[..|s| - |r.rest|] == EncodeText(r.value)
            && (previous.Some? ==> CanonicalLess(previous.value, EncodeText(r.value)))
  {
    TextSound(s);
  }

  /** A key and its value as they are read. */
  datatype Entry<V> = Entry(key: Str, value: V)

  /** One turn of a field loop. */
  function ParseEntry<V>(field: (Str, Octets) -> Parsed<V>, previous: Option<Octets>, s: Octets)
    : (r: Parsed<Entry<V>>)
  {
    match ParseKey(previous, s)
    case Err(e) => Err(e)
    case Ok(k, rest) =>
      match field(k, rest)
      case Err(e) => Err(e)
      case Ok(value, left) => Ok(Entry(k, value), left)
  }

  lemma FieldsStep<V>(field: (Str, Octets) -> Parsed<V>, n: nat, previous: Option<Octets>, s: Octets, acc: map<Str, V>,
                      key: Str, value: V, left: Octets)
    requires n > 0 && ParseEntry(field, previous, s) == Ok(Entry(key, value), left)
    ensures ParseFields(field, n, previous, s, acc)
         == ParseFields(field, n - 1, Some(EncodeText(key)), left, acc[key := value])
  {
  }

  lemma FieldsDone<V>(field: (Str, Octets) -> Parsed<V>, previous: Option<Octets>, s: Octets, acc: map<Str, V>)
    ensures ParseFields(field, 0, previous, s, acc) == Ok(acc, s)
  {
  }

  lemma FieldsStop<V>(field: (Str, Octets) -> Parsed<V>, n: nat, previous: Option<Octets>, s: Octets, acc: map<Str, V>,
                      e: Error)
    requires n > 0 && ParseEntry(field, previous, s) == Err(e)
    ensures ParseFields(field, n, previous, s, acc) == Err(e)
  {
  }

  /** `value` is something the schema returns for `key`. */
  ghost predicate Read<V>(field: (Str, Octets) -> Parsed<V>, key: Str, value: V) {
    exists s: Octets :: field(key, s).Ok? && field(key, s).value == value
  }

  /** `m` is `acc` with values the schema returned for `keys`. */
  ghost predicate Collected<V>(field: (Str, Octets) -> Parsed<V>, acc: map<Str, V>, keys: seq<Str>, m: map<Str, V>) {
    && (forall k :: k in m <==> k in acc || k in keys)
    && (forall k :: k in acc && k !in keys ==> m[k] == acc[k])
    && (forall k :: k in keys ==> Read(field, k, m[k]))
  }

  lemma CollectedCons<V>(field: (Str, Octets) -> Parsed<V>, acc: map<Str, V>, key: Str, value: V, tail: seq<Str>,
                         m: map<Str, V>)
    requires Collected(field, acc[key := value], tail, m) && key !in tail && Read(field, key, value)
    ensures Collected(field, acc, [key] + tail, m) && m[key] == value
  {
  }

  lemma EntriesCons<V>(key: Str, tail: seq<Str>, m: map<Str, V>, enc: V -> Octets, rest: Octets)
    requires key in m && forall k :: k in tail ==> k in m
    ensures Entries([key] + tail, m, enc) + rest == EncodeText(key) + (enc(m[key]) + (Entries(tail, m, enc) + rest))
  {
    assert ([key] + tail)[1..] == tail;
    Regroup(EncodeText(key), enc(m[key]), Entries(tail, m, enc), rest);
  }

  /** A key reader that consumes exactly the key's encoding and keeps the keys in order. */
  ghost predicate Ordered(key: (Option<Octets>, Octets) -> Parsed<Str>) {
    forall p: Option<Octets>, s: Octets :: key(p, s).Ok? ==>
      s == EncodeText(key(p, s).value) + key(p, s).rest
      && (p.Some? ==> CanonicalLess(p.value, EncodeText(key(p, s).value)))
  }

  lemma ParseKeyOrdered()
    ensures Ordered(ParseKey)
  {
    forall p: Option<Octets>, s: Octets | ParseKey(p, s).Ok?
      ensures s == EncodeText(ParseKey(p, s).value) + ParseKey(p, s).rest
      ensures p.Some? ==> CanonicalLess(p.value, EncodeText(ParseKey(p, s).value))
    {
      KeySound(p, s);
    }
  }

  /** Whatever a field loop accepts is the strictly increasing listing of the map it returns: no key twice, none out of
      order, every value in its own encoding. The keys are the lemma's result. */
  lemma {:induction false} LoopSound<V>(
    key: (Option<Octets>, Octets) -> Parsed<Str>, field: (Str, Octets) -> Parsed<V>, enc: V -> Octets, n: nat,
    previous: Option<Str>, s: Octets, acc: map<Str, V>)
    returns (keys: seq<Str>)
    requires Ordered(key) && Exact(field, enc) && Loop(key, field, n, Encoded(previous), s, acc).Ok?
    ensures |keys| == n && Increasing(previous, keys)
    ensures var r := Loop(key, field, n, Encoded(previous), s, acc);
            Collected(field, acc, keys, r.value) && s == Entries(keys, r.value, enc) + r.rest
    decreases n
  {
    if n == 0 {
      keys := [];
      assert Entries(keys, acc, enc) + s == s;
    } else {
      var k, rest := key(Encoded(previous), s).value, key(Encoded(previous), s).rest;
      var value, left := field(k, rest).value, field(k, rest).rest;
      assert Read(field, k, value);
      var tail := LoopSound(key, field, enc, n - 1, Some(k), left, acc[k := value]);
      keys := Extended(field, enc, previous, k, value, tail, acc,
                       Loop(key, field, n - 1, Encoded(Some(k)), left, acc[k := value]));
    }
  }

  lemma FieldsSound<V>(
    field: (Str, Octets) -> Parsed<V>, enc: V -> Octets, n: nat, s: Octets)
    returns (keys: seq<Str>)
    requires Exact(field, enc) && ParseFields(field, n, None, s, map[]).Ok?
    ensures |keys| == n && Increasing(None, keys)
    ensures var r := ParseFields(field, n, None, s, map[]);
            Collected(field, map[], keys, r.value) && s == Entries(keys, r.value, enc) + r.rest
  {
    ParseKeyOrdered();
    keys := LoopSound(ParseKey, field, enc, n, None, s, map[]);
  }

  /** A key put before those that follow it. */
  lemma Extended<V>(field: (Str, Octets) -> Parsed<V>, enc: V -> Octets, previous: Option<Str>, key: Str, value: V,
                    tail: seq<Str>, acc: map<Str, V>, r: Parsed<map<Str, V>>) returns (keys: seq<Str>)
    requires r.Ok? && Read(field, key, value) && (previous.Some? ==> KeyLess(previous.value, key))
    requires Increasing(Some(key), tail) && Collected(field, acc[key := value], tail, r.value)
    ensures |keys| == |tail| + 1 && Increasing(previous, keys) && Collected(field, acc, keys, r.value)
    ensures Entries(keys, r.value, enc) + r.rest
         == EncodeText(key) + (enc(value) + (Entries(tail, r.value, enc) + r.rest))
  {
    keys := [key] + tail;
    assert keys[1..] == tail;
    assert key !in tail by {
      IncreasingAbove(key, tail);
      KeyTotal(key, key);
    }
    CollectedCons(field, acc, key, value, tail, r.value);
    EntriesCons(key, tail, r.value, enc, r.rest);
  }

  lemma Regroup(a: Octets, b: Octets, c: Octets, d: Octets)
    ensures a + (b + (c + d)) == (a + b + c) + d
  {
  }

  /** One round of a field loop on a key in order and a readable value. */
  lemma OneField<V>(field: (Str, Octets) -> Parsed<V>, n: nat, previous: Option<Str>, key: Str, value: V,
                    body: Octets, rest: Octets, acc: map<Str, V>)
    requires n > 0 && (previous.Some? ==> KeyLess(previous.value, key))
    requires field(key, body) == Ok(value, rest)
    ensures ParseFields(field, n, Encoded(previous), EncodeText(key) + body, acc) ==
            ParseFields(field, n - 1, Encoded(Some(key)), rest, acc[key := value])
  {
    var s := EncodeText(key) + body;
    TextInverse(key, body);
    assert s[..|s| - |body|] == EncodeText(key);
  }

  /** The increasing listing of a map whose values the schema can read back is accepted and gives
      the map back. */
  lemma {:induction false} FieldsInverse<V>(
    field: (Str, Octets) -> Parsed<V>, enc: V -> Octets, keys: seq<Str>, m: map<Str, V>,
    previous: Option<Str>, rest: Octets, acc: map<Str, V>)
    requires Increasing(previous, keys) && forall k :: k in keys ==> k in m
    requires forall k, s: Octets :: k in keys ==> field(k, enc(m[k]) + s) == Ok(m[k], s)
    ensures var r := ParseFields(field, |keys|, Encoded(previous), Entries(keys, m, enc) + rest, acc);
            && r.Ok? && r.rest == rest
            && (forall k :: k in r.value <==> k in acc || k in keys)
            && (forall k :: k in keys ==> r.value[k] == m[k])
            && (forall k :: k in acc && k !in keys ==> r.value[k] == acc[k])
    decreases |keys|
  {
    if keys == [] {
      assert Entries(keys, m, enc) + rest == rest;
    } else {
      hide EncodeText, KeyLess, Encoded;
      var key, tail := keys[0], keys[1..];
      var value, later := m[key], Entries(tail, m, enc) + rest;
      assert Entries(keys, m, enc) + rest == EncodeText(key) + (enc(value) + later) by {
        Regroup(EncodeText(key), enc(value), Entries(tail, m, enc), rest);
      }
      OneField(field, |keys|, previous, key, value, enc(value) + later, later, acc);
      FieldsInverse(field, enc, tail, m, Some(key), rest, acc[key := value]);
      IncreasingAbove(key, tail);
      KeyTotal(key, key);
      assert keys == [key] + tail;
    }
  }

  /** In particular a whole map comes back as itself. */
  lemma MapInverse<V>(field: (Str, Octets) -> Parsed<V>, enc: V -> Octets, keys: seq<Str>, m: map<Str, V>, rest: Octets)
    requires Increasing(None, keys) && forall k :: k in keys <==> k in m
    requires forall k, s: Octets :: k in keys ==> field(k, enc(m[k]) + s) == Ok(m[k], s)
    ensures ParseFields(field, |keys|, None, Entries(keys, m, enc) + rest, map[]) == Ok(m, rest)
  {
    FieldsInverse(field, enc, keys, m, None, rest, map[]);
    var r := ParseFields(field, |keys|, None, Entries(keys, m, enc) + rest, map[]);
    assert r.value == m;
  }

  /** A loop that accepts read exactly the encoding of the map it returns, whatever order its keys
      are listed in. */
  lemma MapSound<V>(field: (Str, Octets) -> Parsed<V>, enc: V -> Octets, n: U64, s: Octets, order: seq<Str>)
    requires Exact(field, enc) && ParseFields(field, n, None, s, map[]).Ok?
    requires Distinct(order) && |order| < U64_RANGE
    requires forall k :: k in order <==> k in ParseFields(field, n, None, s, map[]).value
    ensures |order| == n
    ensures var r := ParseFields(field, n, None, s, map[]);
            EncodeHead(5, n) + s == EncodeMap(Fields(order, r.value, enc)) + r.rest
  {
    var r := ParseFields(field, n, None, s, map[]);
    var keys := FieldsSound(field, enc, n, s);
    EncodeMapCanonical(order, keys, r.value, enc);
    Associative(EncodeHead(5, n), Entries(keys, r.value, enc), r.rest);
  }

  /** The encoding of a map, read by a schema that can read its values, gives the map back. */
  lemma MapRoundTrip<V>(field: (Str, Octets) -> Parsed<V>, enc: V -> Octets, order: seq<Str>, m: map<Str, V>,
                        rest: Octets)
    returns (body: Octets)
    requires Distinct(order) && |order| < U64_RANGE && forall k :: k in order <==> k in m
    requires forall k, s: Octets :: k in m ==> field(k, enc(m[k]) + s) == Ok(m[k], s)
    ensures EncodeMap(Fields(order, m, enc)) + rest == EncodeHead(5, |order|) + body
    ensures ParseFields(field, |order|, None, body, map[]) == Ok(m, rest)
  {
    var keys := SortKeys(order);
    SortKeysCorrect(order);
    EncodeMapCanonical(order, keys, m, enc);
    body := Entries(keys, m, enc) + rest;
    Associative(EncodeHead(5, |keys|), Entries(keys, m, enc), rest);
    MapInverse(field, enc, keys, m, rest);
  }

  /** However many fields the input claims to have, a loop over a schema that consumes something
      uses up two bytes for each, so it gives up within the size of the input. */
  lemma {:induction false} FieldsBounded<V>(
    field: (Str, Octets) -> Parsed<V>, n: nat, previous: Option<Octets>, s: Octets, acc: map<Str, V>)
    requires forall k: Str, r: Octets :: field(k, r).Ok? ==> |field(k, r).rest| < |r|
    ensures 2 * n > |s| ==> ParseFields(field, n, previous, s, acc).Err?
    decreases n
  {
    if n > 0 && ParseKey(previous, s).Ok? {
      var key, rest := ParseKey(previous, s).value, ParseKey(previous, s).rest;
      if field(key, rest).Ok? {
        var value, rest' := field(key, rest).value, field(key, rest).rest;
        FieldsBounded(field, n - 1, Some(EncodeText(key)), rest', acc[key := value]);
      }
    }
  }
}
