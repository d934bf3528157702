/** Canonical maps of exactly two named fields, the shape shared by `load` (lib.rs:858-877) and the
    envelope (lib.rs:752-780) of `native/iroh_discovery/src/lib.rs`. The names are parameters, so
    that nothing here depends on their spelling beyond their being different. */
module TwoFields {
  import opened Octets
  import opened Cbor
  import opened CborMap

  datatype Two<V> = Two(first: V, second: V)

  /** The `match` in the field loop: one reader for each name, and no other name. */
  function PairField<V>(a: Str, b: Str, fa: Octets -> Parsed<V>, fb: Octets -> Parsed<V>)
    : (f: (Str, Octets) -> Parsed<V>)
  {
    (key: Str, s: Octets) => if key == a then fa(s) else if key == b then fb(s) else Err(Malformed)
  }

  function ParsePair<V>(a: Str, b: Str, fa: Octets -> Parsed<V>, fb: Octets -> Parsed<V>, s: Octets)
    : (r: Parsed<Two<V>>)
  {
    match ParseHead(s, 5)
    case Err(e) => Err(e)
    case Ok(n, rest) =>
      if n != 2 then Err(Malformed) else
      match ParseFields(PairField(a, b, fa, fb), n, None, rest, map[])
      case Err(e) => Err(e)
      case Ok(m, rest') => if a !in m || b !in m then Err(Malformed) else Ok(Two(m[a], m[b]), rest')
  }

  function EncodePair<V>(a: Str, b: Str, enc: V -> Octets, v: Two<V>): (s: Octets) {
    EncodeMap(Fields([a, b], map[a := v.first, b := v.second], enc))
  }

  /** A reader that consumes exactly the encoding of the value it returns. */
  ghost predicate Faithful<V>(f: Octets -> Parsed<V>, enc: V -> Octets) {
    forall s: Octets :: f(s).Ok? ==> s == enc(f(s).value) + f(s).rest
  }

  /** A reader that reads a value back from its encoding, whatever follows. */
  ghost predicate Restores<V>(f: Octets -> Parsed<V>, enc: V -> Octets, v: V) {
    forall s: Octets :: f(enc(v) + s) == Ok(v, s)
  }

  lemma FieldNamed<V>(a: Str, b: Str, fa: Octets -> Parsed<V>, fb: Octets -> Parsed<V>, k: Str, v: V)
    requires Read(PairField(a, b, fa, fb), k, v)
    ensures k == a || k == b
  {
  }

  lemma PairExact<V>(a: Str, b: Str, fa: Octets -> Parsed<V>, fb: Octets -> Parsed<V>, enc: V -> Octets)
    requires Faithful(fa, enc) && Faithful(fb, enc)
    ensures Exact(PairField(a, b, fa, fb), enc)
  {
  }

  lemma PairKeys<V>(a: Str, b: Str, fa: Octets -> Parsed<V>, fb: Octets -> Parsed<V>, enc: V -> Octets, n: U64,
                    s: Octets, m: map<Str, V>, rest: Octets)
    requires Exact(PairField(a, b, fa, fb), enc)
    requires ParseFields(PairField(a, b, fa, fb), n, None, s, map[]) == Ok(m, rest)
    ensures forall k :: k in m ==> k == a || k == b
  {
    var keys := FieldsSound(PairField(a, b, fa, fb), enc, n, s);
    forall k | k in m
      ensures k == a || k == b
    {
      FieldNamed(a, b, fa, fb, k, m[k]);
    }
  }

  lemma PairShape<V>(a: Str, b: Str, enc: V -> Octets, m: map<Str, V>) returns (order: seq<Str>)
    requires a != b && a in m && b in m && forall k :: k in m ==> k == a || k == b
    ensures Distinct(order) && |order| == 2 && forall k :: k in order <==> k in m
    ensures EncodePair(a, b, enc, Two(m[a], m[b])) == EncodeMap(Fields(order, m, enc))
  {
    order := [a, b];
    assert m == map[a := m[a], b := m[b]];
  }

  lemma PairBodySound<V>(a: Str, b: Str, fa: Octets -> Parsed<V>, fb: Octets -> Parsed<V>, enc: V -> Octets,
                         n: U64, s: Octets, m: map<Str, V>, rest: Octets)
    requires a != b && Faithful(fa, enc) && Faithful(fb, enc)
    requires ParseFields(PairField(a, b, fa, fb), n, None, s, map[]) == Ok(m, rest) && a in m && b in m
    ensures EncodeHead(5, n) + s == EncodePair(a, b, enc, Two(m[a], m[b])) + rest
  {
    PairExact(a, b, fa, fb, enc);
    PairKeys(a, b, fa, fb, enc, n, s, m, rest);
    var order := PairShape(a, b, enc, m);
    MapSound(PairField(a, b, fa, fb), enc, n, s, order);
  }

  lemma PairSound<V>(a: Str, b: Str, fa: Octets -> Parsed<V>, fb: Octets -> Parsed<V>, enc: V -> Octets, s: Octets)
    requires a != b && Faithful(fa, enc) && Faithful(fb, enc) && ParsePair(a, b, fa, fb, s).Ok?
    ensures var r := ParsePair(a, b, fa, fb, s); s == EncodePair(a, b, enc, r.value) + r.rest
  {
    HeadSound(s, 5);
    var n, body := ParseHead(s, 5).value, ParseHead(s, 5).rest;
    var fields := ParseFields(PairField(a, b, fa, fb), n, None, body, map[]);
    PairBodySound(a, b, fa, fb, enc, n, body, fields.value, fields.rest);
  }

  lemma PairInverse<V>(a: Str, b: Str, fa: Octets -> Parsed<V>, fb: Octets -> Parsed<V>, enc: V -> Octets,
                       v: Two<V>, rest: Octets)
    requires a != b && Restores(fa, enc, v.first) && Restores(fb, enc, v.second)
    ensures ParsePair(a, b, fa, fb, EncodePair(a, b, enc, v) + rest) == Ok(v, rest)
  {
    var field, m := PairField(a, b, fa, fb), map[a := v.first, b := v.second];
    var body := MapRoundTrip(field, enc, [a, b], m, rest);
    HeadInverse(5, 2, body);
  }
}
