/** The deterministic CBOR subset of `native/iroh_discovery/src/lib.rs`: shortest heads, definite
    lengths, text-keyed maps in length-first key order (RFC 8949, sections 4.2.1 and 4.2.3). */
module Cbor {
  import opened Octets
  import opened Text

  const U64_RANGE: nat := 0x1_0000_0000_0000_0000

  type U64 = n: nat | n < U64_RANGE
  type Blob = s: Octets | |s| < U64_RANGE
  type Str = s: Blob | Utf8(s) witness []

  /** Rust's `as u64`. */
  function AsU64(n: nat): (r: U64) { if n < U64_RANGE then n else n % U64_RANGE }

  datatype Error =
    | Malformed | UnsupportedVersion | MessageTooLarge | WrongFleet | UnauthorizedEndpoint
    | InvalidSignature | InvalidRecord | StaleSequence | NoMatchingPeer | RateLimited | SequenceStoreFailed

  datatype Result<+T> = Success(value: T) | Failure(error: Error)

  /** What a parser leaves: a value and the unread input, or an error. */
  datatype Parsed<+T> = Ok(value: T, rest: Octets) | Err(error: Error)

  // ---------- heads ----------

  /** `encode_head`. */
  function EncodeHead(major: nat, value: U64): (s: Octets)
    requires major < 8
    ensures s != []
  {
    PowValues();
    var prefix := 32 * major;
    if value <= 23 then [prefix + value]
    else if value <= 0xFF then [prefix + 24] + BigEndian(1, value)
    else if value <= 0xFFFF then [prefix + 25] + BigEndian(2, value)
    else if value <= 0xFFFF_FFFF then [prefix + 26] + BigEndian(4, value)
    else [prefix + 27] + BigEndian(8, value)
  }

  /** The payload of a head: `width` bytes holding a number above `floor`. */
  function ParseWide(s: Octets, width: nat, floor: nat): (r: Parsed<U64>)
    requires Pow256(width) <= U64_RANGE
    ensures r.Ok? ==> |r.rest| <= |s|
  {
    if |s| < width then Err(Malformed) else
    var value := FromBigEndian(s[..width]);
    if value > floor then Ok(value, s[width..]) else Err(Malformed)
  }

  /** `Reader::head`: only the shortest form of a number is read. */
  function ParseHead(s: Octets, major: nat): (r: Parsed<U64>)
    ensures r.Ok? ==> |r.rest| < |s|
  {
    if s == [] || s[0] / 32 != major then Err(Malformed) else
    PowValues();
    var info := s[0] % 32;
    if info <= 23 then Ok(info, s[1..])
    else if info == 24 then ParseWide(s[1..], 1, 23)
    else if info == 25 then ParseWide(s[1..], 2, 0xFF)
    else if info == 26 then ParseWide(s[1..], 4, 0xFFFF)
    else if info == 27 then ParseWide(s[1..], 8, 0xFFFF_FFFF)
    else Err(Malformed)
  }

  lemma WideInverse(width: nat, value: U64, floor: nat, rest: Octets)
    requires Pow256(width) <= U64_RANGE && floor < value < Pow256(width)
    ensures ParseWide(BigEndian(width, value) + rest, width, floor) == Ok(value, rest)
  {
    var s := BigEndian(width, value) + rest;
    assert s[..width] == BigEndian(width, value) && s[width..] == rest;
    BigEndianInverse(width, value);
  }

  lemma WideSound(s: Octets, width: nat, floor: nat)
    requires Pow256(width) <= U64_RANGE && ParseWide(s, width, floor).Ok?
    ensures var r := ParseWide(s, width, floor);
            floor < r.value < Pow256(width) && s == BigEndian(width, r.value) + r.rest
  {
    var front := s[..width];
    assert BigEndian(width, FromBigEndian(front)) == front by { FromBigEndianInverse(front); }
    assert s == front + s[width..];
  }

  lemma HeadInverse(major: nat, value: U64, rest: Octets)
    requires major < 8
    ensures ParseHead(EncodeHead(major, value) + rest, major) == Ok(value, rest)
  {
    HeadForm(major, value);
    PowValues();
    var info := Info(value);
    var first, tail := [32 * major + info], if value <= 23 then [] else BigEndian(Width(info), value);
    var s := EncodeHead(major, value) + rest;
    assert s[0] == 32 * major + info && s[1..] == tail + rest by { Associative(first, tail, rest); }
    assert s[0] / 32 == major && s[0] % 32 == info;
    if value <= 23 {
      assert tail + rest == rest;
    } else {
      WideInverse(Width(info), value, Floor(info), rest);
    }
  }

  /** The largest number that a narrower head than `info` can hold. */
  function Floor(info: nat): (f: nat) {
    if info == 24 then 23 else if info == 25 then 0xFF else if info == 26 then 0xFFFF else 0xFFFF_FFFF
  }

  lemma HeadSound(s: Octets, major: nat)
    requires ParseHead(s, major).Ok?
    ensures major < 8 && s == EncodeHead(major, ParseHead(s, major).value) + ParseHead(s, major).rest
  {
    PowValues();
    var info := s[0] % 32;
    var r := ParseHead(s, major);
    assert s[0] == 32 * major + info;
    assert s == [s[0]] + s[1..];
    if info <= 23 {
    } else if info == 24 {
      WideSound(s[1..], 1, 23);
      Associative([s[0]], BigEndian(1, r.value), r.rest);
    } else if info == 25 {
      WideSound(s[1..], 2, 0xFF);
      Associative([s[0]], BigEndian(2, r.value), r.rest);
    } else if info == 26 {
      WideSound(s[1..], 4, 0xFFFF);
      Associative([s[0]], BigEndian(4, r.value), r.rest);
    } else {
      WideSound(s[1..], 8, 0xFFFF_FFFF);
      Associative([s[0]], BigEndian(8, r.value), r.rest);
    }
  }

  // ---------- strings ----------

  /** `encode_bytes`. */
  function EncodeBytes(value: Blob): (s: Octets) { EncodeHead(2, |value|) + value }

  /** `encode_text`. */
  function EncodeText(value: Str): (s: Octets) { EncodeHead(3, |value|) + value }

  /** `Reader::length` followed by `Reader::take`. */
  function ParseString(s: Octets, major: nat): (r: Parsed<Blob>)
    ensures r.Ok? ==> |r.rest| < |s|
  {
    match ParseHead(s, major)
    case Err(e) => Err(e)
    case Ok(length, rest) =>
      if |rest| < length then Err(Malformed) else Ok(rest[..length], rest[length..])
  }

  /** `Reader::bytes`. */
  function ParseBytes(s: Octets): (r: Parsed<Blob>) { ParseString(s, 2) }

  /** `Reader::text`. */
  function ParseText(s: Octets): (r: Parsed<Str>)
    ensures r.Ok? ==> |r.rest| < |s|
  {
    match ParseString(s, 3)
    case Err(e) => Err(e)
    case Ok(value, rest) => if Utf8(value) then Ok(value, rest) else Err(Malformed)
  }

  lemma StringInverse(major: nat, value: Blob, rest: Octets)
    requires major < 8
    ensures ParseString((EncodeHead(major, |value|) + value) + rest, major) == Ok(value, rest)
  {
    HeadInverse(major, |value|, value + rest);
    Associative(EncodeHead(major, |value|), value, rest);
    assert (value + rest)[..|value|] == value && (value + rest)[|value|..] == rest;
  }

  lemma StringSound(s: Octets, major: nat)
    requires ParseString(s, major).Ok?
    ensures major < 8
    ensures var r := ParseString(s, major); s == (EncodeHead(major, |r.value|) + r.value) + r.rest
  {
    HeadSound(s, major);
    var h, r := ParseHead(s, major), ParseString(s, major);
    assert h.rest == r.value + r.rest && h.value == |r.value|;
    assert s == EncodeHead(major, |r.value|) + (r.value + r.rest);
    Associative(EncodeHead(major, |r.value|), r.value, r.rest);
  }

  lemma TextInverse(value: Str, rest: Octets)
    ensures ParseText(EncodeText(value) + rest) == Ok(value, rest)
  {
    StringInverse(3, value, rest);
  }

  lemma TextSound(s: Octets)
    requires ParseText(s).Ok?
    ensures s == EncodeText(ParseText(s).value) + ParseText(s).rest
  {
    StringSound(s, 3);
  }

  // ---------- key order ----------

  /** `canonical_cmp` says less: shorter first, then bytewise. */
  predicate CanonicalLess(a: Octets, b: Octets) {
    |a| < |b| || (|a| == |b| && LexLess(a, b))
  }

  predicate KeyLess(a: Str, b: Str) { CanonicalLess(EncodeText(a), EncodeText(b)) }

  /** The additional-information value of a shortest head. */
  function Info(value: U64): (i: nat) {
    if value <= 23 then value else if value <= 0xFF then 24 else if value <= 0xFFFF then 25
    else if value <= 0xFFFF_FFFF then 26 else 27
  }

  function Width(info: nat): (w: nat) {
    if info == 24 then 1 else if info == 25 then 2 else if info == 26 then 4 else if info == 27 then 8 else 0
  }

  lemma HeadForm(major: nat, value: U64)
    requires major < 8
    ensures value > 23 ==> value < Pow256(Width(Info(value)))
    ensures EncodeHead(major, value) ==
            [32 * major + Info(value)] + (if value <= 23 then [] else BigEndian(Width(Info(value)), value))
  {
    PowValues();
  }

  lemma HeadsOrdered(m: U64, n: U64, x: Octets, y: Octets)
    requires m < n
    ensures |EncodeHead(3, m)| <= |EncodeHead(3, n)|
    ensures LexLess(EncodeHead(3, m) + x, EncodeHead(3, n) + y)
  {
    HeadForm(3, m);
    HeadForm(3, n);
    var p, q := [96 + Info(m)], [96 + Info(n)];
    if Info(m) == Info(n) {
      var w := Width(Info(m));
      BigEndianOrder(w, m, n);
      LexCommonPrefix(p, BigEndian(w, m), BigEndian(w, n));
      LexExtends(p + BigEndian(w, m), p + BigEndian(w, n), x, y);
    } else {
      assert (EncodeHead(3, m) + x)[0] == p[0] && (EncodeHead(3, n) + y)[0] == q[0];
    }
  }

  /** Length-first order of encoded text keys is plain bytewise order of the encodings, so a map
      in this order satisfies both orderings of RFC 8949 section 4.2. */
  lemma OrdersAgree(a: Str, b: Str)
    ensures KeyLess(a, b) <==> LexLess(EncodeText(a), EncodeText(b))
    ensures KeyLess(a, b) <==> |a| < |b| || (|a| == |b| && LexLess(a, b))
  {
    if |a| < |b| {
      HeadsOrdered(|a|, |b|, a, b);
      LexTotal(EncodeText(a), EncodeText(b));
    } else if |b| < |a| {
      HeadsOrdered(|b|, |a|, b, a);
      LexTotal(EncodeText(a), EncodeText(b));
    } else {
      LexCommonPrefix(EncodeHead(3, |a|), a, b);
    }
  }

  lemma KeyTotal(a: Str, b: Str)
    ensures KeyLess(a, b) || a == b || KeyLess(b, a)
    ensures !(KeyLess(a, b) && KeyLess(b, a)) && !KeyLess(a, a)
  {
    OrdersAgree(a, b);
    OrdersAgree(b, a);
    OrdersAgree(a, a);
    LexTotal(a, b);
    LexIrreflexive(a);
  }

  lemma KeyTransitive(a: Str, b: Str, c: Str)
    requires KeyLess(a, b) && KeyLess(b, c)
    ensures KeyLess(a, c)
  {
    OrdersAgree(a, b);
    OrdersAgree(b, c);
    OrdersAgree(a, c);
    if |a| == |b| == |c| { LexTransitive(a, b, c); }
  }

  // ---------- sorting keys ----------

  /** Strictly increasing, starting above `previous`. */
  predicate Increasing(previous: Option<Str>, keys: seq<Str>)
    decreases |keys|
  {
    keys == [] ||
    ((previous.Some? ==> KeyLess(previous.value, keys[0])) && Increasing(Some(keys[0]), keys[1..]))
  }

  predicate Distinct(keys: seq<Str>) {
    forall i, j :: 0 <= i < j < |keys| ==> keys[i] != keys[j]
  }

  lemma {:induction false} IncreasingAbove(previous: Str, keys: seq<Str>)
    requires Increasing(Some(previous), keys)
    ensures forall k :: k in keys ==> KeyLess(previous, k)
    decreases |keys|
  {
    if keys != [] {
      IncreasingAbove(keys[0], keys[1..]);
      forall k | k in keys
        ensures KeyLess(previous, k)
      {
        if k != keys[0] { KeyTransitive(previous, keys[0], k); }
      }
    }
  }

  lemma {:induction false} SetOfSeq(keys: seq<Str>)
    ensures |set k | k in keys| <= |keys|
  {
    if keys != [] {
      SetOfSeq(keys[1..]);
      assert (set k | k in keys) == {keys[0]} + (set k | k in keys[1..]);
    }
  }

  lemma {:induction false} SetOfDistinct(keys: seq<Str>)
    requires Distinct(keys)
    ensures |set k | k in keys| == |keys|
  {
    if keys != [] {
      SetOfDistinct(keys[1..]);
      assert (set k | k in keys) == {keys[0]} + (set k | k in keys[1..]);
      assert keys[0] !in keys[1..];
    }
  }

  lemma HeadIsLeast(keys: seq<Str>)
    requires keys != [] && Increasing(None, keys)
    ensures keys[0] !in keys[1..]
    ensures forall k :: k in keys[1..] ==> KeyLess(keys[0], k)
  {
    IncreasingAbove(keys[0], keys[1..]);
    KeyTotal(keys[0], keys[0]);
  }

  /** A strictly increasing listing of a set of keys is unique. */
  lemma {:induction false} IncreasingUnique(a: seq<Str>, b: seq<Str>)
    requires Increasing(None, a) && Increasing(None, b)
    requires forall k :: k in a <==> k in b
    ensures a == b
    decreases |a|
  {
    assert (a == [] || a[0] in a) && (b == [] || b[0] in b);
    if a != [] {
      HeadIsLeast(a);
      HeadIsLeast(b);
      HeadsEqual(a, b);
      assert a == [a[0]] + a[1..] && b == [b[0]] + b[1..];
      Relax(Some(a[0]), a[1..]);
      Relax(Some(b[0]), b[1..]);
      forall k
        ensures k in a[1..] <==> k in b[1..]
      {
        assert k in a <==> k == a[0] || k in a[1..];
        assert k in b <==> k == b[0] || k in b[1..];
      }
      IncreasingUnique(a[1..], b[1..]);
    }
  }

  lemma HeadsEqual(a: seq<Str>, b: seq<Str>)
    requires a != [] && b != [] && (forall k :: k in a <==> k in b)
    requires forall k :: k in a[1..] ==> KeyLess(a[0], k)
    requires forall k :: k in b[1..] ==> KeyLess(b[0], k)
    ensures a[0] == b[0]
  {
    assert a[0] in b && b[0] in a;
    assert a == [a[0]] + a[1..] && b == [b[0]] + b[1..];
    KeyTotal(a[0], b[0]);
  }

  lemma Relax(previous: Option<Str>, keys: seq<Str>)
    requires Increasing(previous, keys)
    ensures Increasing(None, keys)
  {
  }

  function InsertKey(key: Str, sorted: seq<Str>): (r: seq<Str>) {
    if sorted == [] || !KeyLess(sorted[0], key) then [key] + sorted
    else [sorted[0]] + InsertKey(key, sorted[1..])
  }

  /** The keys in the order `encode_map` writes them. */
  function SortKeys(keys: seq<Str>): (r: seq<Str>) {
    if keys == [] then [] else InsertKey(keys[0], SortKeys(keys[1..]))
  }

  lemma {:induction false} InsertKeeps(key: Str, sorted: seq<Str>)
    ensures |InsertKey(key, sorted)| == |sorted| + 1
    ensures forall k :: k in InsertKey(key, sorted) <==> k == key || k in sorted
  {
    if sorted != [] && KeyLess(sorted[0], key) {
      InsertKeeps(key, sorted[1..]);
      assert sorted == [sorted[0]] + sorted[1..];
    }
  }

  lemma {:induction false} InsertIncreasing(previous: Option<Str>, key: Str, sorted: seq<Str>)
    requires Increasing(previous, sorted) && key !in sorted
    requires previous.Some? ==> KeyLess(previous.value, key)
    ensures Increasing(previous, InsertKey(key, sorted))
    decreases |sorted|
  {
    if sorted == [] {
      assert Increasing(Some(key), []);
    } else if KeyLess(sorted[0], key) {
      InsertIncreasing(Some(sorted[0]), key, sorted[1..]);
      assert ([sorted[0]] + InsertKey(key, sorted[1..]))[1..] == InsertKey(key, sorted[1..]);
    } else {
      KeyTotal(key, sorted[0]);
      assert ([key] + sorted)[1..] == sorted;
    }
  }

  lemma {:induction false} SortKeysCorrect(keys: seq<Str>)
    ensures |SortKeys(keys)| == |keys|
    ensures forall k :: k in SortKeys(keys) <==> k in keys
    ensures Distinct(keys) ==> Increasing(None, SortKeys(keys))
  {
    if keys != [] {
      SortKeysCorrect(keys[1..]);
      InsertKeeps(keys[0], SortKeys(keys[1..]));
      assert keys == [keys[0]] + keys[1..];
      if Distinct(keys) {
        assert keys[0] !in keys[1..];
        InsertIncreasing(None, keys[0], SortKeys(keys[1..]));
      }
    }
  }
}
