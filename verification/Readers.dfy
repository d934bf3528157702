/** The cursor that decodes discovery messages in place (`Reader` and the field loops of
    `native/iroh_discovery/src/lib.rs`), proved against the parsers on values. */
module Readers {
  import opened Octets
  import opened Text
  import opened Cbor
  import opened CborMap
  import opened TwoFields
  import opened Messages
  import opened Codec
  import opened Envelopes

  /** A method's answer with the input it leaves, as a parser would return them. */
  ghost function Outcome<T>(r: Result<T>, left: Octets): (p: Parsed<T>) {
    if r.Success? then Ok(r.value, left) else Err(r.error)
  }

  class Reader {
    /** The input not read yet: `bytes[offset..]`. */
    var left: Octets

    constructor (bytes: Octets)
      ensures left == bytes
    {
      left := bytes;
    }

    method Finish() returns (r: Result<()>)
      ensures r == if left == [] then Success(()) else Failure(Malformed)
    {
      r := if |left| == 0 then Success(()) else Failure(Malformed);
    }

    method Take(length: nat) returns (r: Result<Octets>)
      modifies this
      ensures Outcome(r, left)
           == if length <= |old(left)| then Ok(old(left)[..length], old(left)[length..]) else Err(Malformed)
    {
      if length > |left| {
        return Failure(Malformed);
      }
      r := Success(left[..length]);
      left := left[length..];
    }

    /** A payload of `width` bytes that must exceed `floor`. */
    method Wide(width: nat, floor: nat) returns (r: Result<U64>)
      requires Pow256(width) <= U64_RANGE
      modifies this
      ensures Outcome(r, left) == ParseWide(old(left), width, floor)
    {
      var taken := Take(width);
      if taken.Failure? {
        return Failure(taken.error);
      }
      var value := FromBigEndian(taken.value);
      r := if value > floor then Success(value) else Failure(Malformed);
    }

    method Head(major: nat) returns (r: Result<U64>)
      modifies this
      ensures Outcome(r, left) == ParseHead(old(left), major)
    {
      PowValues();
      var initial := Take(1);
      if initial.Failure? {
        return Failure(initial.error);
      }
      var byte := initial.value[0];
      if byte / 32 != major {
        return Failure(Malformed);
      }
      var info := byte % 32;
      if info <= 23 {
        r := Success(info);
      } else if info == 24 {
        r := Wide(1, 23);
      } else if info == 25 {
        r := Wide(2, 0xFF);
      } else if info == 26 {
        r := Wide(4, 0xFFFF);
      } else if info == 27 {
        r := Wide(8, 0xFFFF_FFFF);
      } else {
        r := Failure(Malformed);
      }
    }

    method ReadString(major: nat) returns (r: Result<Blob>)
      modifies this
      ensures Outcome(r, left) == ParseString(old(left), major)
    {
      var length := Head(major);
      if length.Failure? {
        return Failure(length.error);
      }
      r := Take(length.value);
    }

    method ReadText() returns (r: Result<Str>)
      modifies this
      ensures Outcome(r, left) == ParseText(old(left))
    {
      var s := ReadString(3);
      if s.Failure? {
        return Failure(s.error);
      }
      r := if Utf8(s.value) then Success(s.value) else Failure(Malformed);
    }

    /** Reads a key and remembers its encoding, refusing one that does not follow `previous`. */
    method CanonicalKey(previous: Option<Octets>) returns (r: Result<Str>, encoded: Option<Octets>)
      modifies this
      ensures Outcome(r, left) == ParseKey(previous, old(left))
      ensures r.Success? ==> encoded == Some(EncodeText(r.value))
    {
      var start := left;
      var key := ReadText();
      if key.Failure? {
        return Failure(key.error), previous;
      }
      TextSound(start);
      encoded := Some(start[..|start| - |left|]);
      assert encoded.value == EncodeText(key.value);
      if previous.Some? && !CanonicalLess(previous.value, encoded.value) {
        return Failure(Malformed), previous;
      }
      r := key;
    }

    method ReadTexts(n: nat) returns (r: Result<seq<Str>>)
      modifies this
      ensures Outcome(r, left) == ParseTexts(n, old(left))
    {
      var values: seq<Str> := [];
      ghost var whole := ParseTexts(n, left);
      PrefixedNone(whole);
      for i := 0 to n
        invariant Prefixed(values, ParseTexts(n - i, left)) == whole
      {
        ghost var before := left;
        var t := ReadText();
        if t.Failure? {
          return Failure(t.error);
        }
        PrefixedStep(values, t.value, n - i, before, left);
        values := values + [t.value];
      }
      assert values + [] == values;
      r := Success(values);
    }

    method ReadCapability() returns (r: Result<Capability>)
      modifies this
      ensures Outcome(r, left) == ParseCapability(old(left))
    {
      if |left| == 0 {
        return Failure(Malformed);
      }
      var byte := left[0];
      if byte == 0xF4 {
        left := left[1..];
        r := Success(Bool(false));
      } else if byte == 0xF5 {
        left := left[1..];
        r := Success(Bool(true));
      } else if byte / 32 == 0 {
        var n := Head(0);
        r := if n.Success? then Success(Uint(n.value)) else Failure(n.error);
      } else if byte / 32 == 3 {
        var t := ReadText();
        r := if t.Success? then Success(Messages.Text(t.value)) else Failure(t.error);
      } else if byte / 32 == 4 {
        var n := Head(4);
        if n.Failure? {
          return Failure(n.error);
        }
        if n.value > 32 {
          return Failure(InvalidRecord);
        }
        var ts := ReadTexts(n.value);
        r := if ts.Success? then Success(TextList(ts.value)) else Failure(ts.error);
      } else {
        r := Failure(Malformed);
      }
    }

    /** One turn of the field loop of `decode_load`, over its two field names. */
    method NextNumber(a: Str, b: Str, previous: Option<Octets>) returns (r: Result<Entry<U64>>, encoded: Option<Octets>)
      modifies this
      ensures Outcome(r, left) == ParseEntry(PairField(a, b, ParseUint, ParseUint), previous, old(left))
      ensures r.Success? ==> encoded == Some(EncodeText(r.value.key))
    {
      var key;
      key, encoded := CanonicalKey(previous);
      if key.Failure? {
        return Failure(key.error), encoded;
      }
      if key.value != a && key.value != b {
        return Failure(Malformed), encoded;
      }
      assert PairField(a, b, ParseUint, ParseUint)(key.value, left) == ParseUint(left);
      var value := Head(0);
      if value.Failure? {
        return Failure(value.error), encoded;
      }
      r := Success(Entry(key.value, value.value));
    }

    /** The field loop of `decode_load`, over its two field names. */
    method ReadNumbers(a: Str, b: Str, n: nat) returns (r: Result<map<Str, U64>>)
      modifies this
      ensures Outcome(r, left) == ParseFields(PairField(a, b, ParseUint, ParseUint), n, None, old(left), map[])
    {
      hide ParseEntry, ParseFields;
      ghost var field := PairField(a, b, ParseUint, ParseUint);
      ghost var whole := ParseFields(field, n, None, left, map[]);
      var previous: Option<Octets>, fields: map<Str, U64> := None, map[];
      for i := 0 to n
        invariant ParseFields(field, n - i, previous, left, fields) == whole
      {
        ghost var before := left;
        var entry, encoded := NextNumber(a, b, previous);
        if entry.Failure? {
          FieldsStop(field, n - i, previous, before, fields, entry.error);
          return Failure(entry.error);
        }
        FieldsStep(field, n - i, previous, before, fields, entry.value.key, entry.value.value, left);
        previous, fields := encoded, fields[entry.value.key := entry.value.value];
      }
      FieldsDone(field, previous, left, fields);
      r := Success(fields);
    }

    method ReadLoad() returns (r: Result<Load>)
      modifies this
      ensures Outcome(r, left) == ParseLoad(old(left))
    {
      var n := Head(5);
      if n.Failure? {
        return Failure(n.error);
      }
      if n.value != 2 {
        return Failure(Malformed);
      }
      var fields := ReadNumbers(RUNNING, CAPACITY, n.value);
      if fields.Failure? {
        return Failure(fields.error);
      }
      if RUNNING !in fields.value || CAPACITY !in fields.value {
        return Failure(Malformed);
      }
      r := Success(Load(fields.value[RUNNING], fields.value[CAPACITY]));
    }

    /** One turn of the field loop of `decode_capabilities`. */
    method NextCapability(previous: Option<Octets>) returns (r: Result<Entry<Capability>>, encoded: Option<Octets>)
      modifies this
      ensures Outcome(r, left) == ParseEntry(CapabilityField, previous, old(left))
      ensures r.Success? ==> encoded == Some(EncodeText(r.value.key))
    {
      var key;
      key, encoded := CanonicalKey(previous);
      if key.Failure? {
        return Failure(key.error), encoded;
      }
      var value := ReadCapability();
      if value.Failure? {
        return Failure(value.error), encoded;
      }
      r := Success(Entry(key.value, value.value));
    }

    /** The field loop of `decode_capabilities`. */
    method ReadCapabilityFields(n: nat) returns (r: Result<Capabilities>)
      modifies this
      ensures Outcome(r, left) == ParseFields(CapabilityField, n, None, old(left), map[])
    {
      hide ParseEntry, ParseFields;
      ghost var field := CapabilityField;
      ghost var whole := ParseFields(field, n, None, left, map[]);
      var previous: Option<Octets>, fields: Capabilities := None, map[];
      for i := 0 to n
        invariant ParseFields(field, n - i, previous, left, fields) == whole
      {
        ghost var before := left;
        var entry, encoded := NextCapability(previous);
        if entry.Failure? {
          FieldsStop(field, n - i, previous, before, fields, entry.error);
          return Failure(entry.error);
        }
        FieldsStep(field, n - i, previous, before, fields, entry.value.key, entry.value.value, left);
        previous, fields := encoded, fields[entry.value.key := entry.value.value];
      }
      FieldsDone(field, previous, left, fields);
      r := Success(fields);
    }

    method ReadCapabilities() returns (r: Result<Capabilities>)
      modifies this
      ensures Outcome(r, left) == ParseCapabilities(old(left))
    {
      var n := Head(5);
      if n.Failure? {
        return Failure(n.error);
      }
      if n.value > 32 {
        return Failure(InvalidRecord);
      }
      r := ReadCapabilityFields(n.value);
    }

    /** The right-hand sides in the field loop of `decode_message`. */
    method ReadValue(crypto: Crypto, shape: Shape) returns (r: Result<Value>)
      modifies this
      ensures Outcome(r, left) == ParseValue(crypto, shape, old(left))
    {
      match shape
      case AsNumber =>
        var n := Head(0);
        r := if n.Success? then Success(Number(n.value)) else Failure(n.error);
      case AsText =>
        var t := ReadText();
        r := if t.Success? then Success(Words(t.value)) else Failure(t.error);
      case AsBytes(length) =>
        var b := ReadString(2);
        r := if b.Failure? then Failure(b.error)
             else if |b.value| == length then Success(Raw(b.value)) else Failure(Malformed);
      case AsKey =>
        var b := ReadString(2);
        r := if b.Failure? then Failure(b.error)
             else if |b.value| == 32 && crypto.validKey(b.value) then Success(Raw(b.value)) else Failure(Malformed);
      case AsPort =>
        var n := Head(0);
        r := if n.Failure? then Failure(n.error)
             else if 1 <= n.value <= 0xFFFF then Success(Number(n.value)) else Failure(InvalidRecord);
      case AsCapabilities =>
        var m := ReadCapabilities();
        r := if m.Success? then Success(Caps(m.value)) else Failure(m.error);
      case AsLoad =>
        var l := ReadLoad();
        r := if l.Success? then Success(Loads(l.value)) else Failure(l.error);
      case Unknown =>
        r := Failure(Malformed);
    }

    /** One turn of the field loop of `decode_message`. */
    method NextField(crypto: Crypto, previous: Option<Octets>)
        returns (r: Result<Entry<Value>>, encoded: Option<Octets>)
      modifies this
      ensures Outcome(r, left) == ParseEntry(MessageField(crypto), previous, old(left))
      ensures r.Success? ==> encoded == Some(EncodeText(r.value.key))
    {
      var key;
      key, encoded := CanonicalKey(previous);
      if key.Failure? {
        return Failure(key.error), encoded;
      }
      var value := ReadValue(crypto, ShapeNamed(key.value));
      if value.Failure? {
        return Failure(value.error), encoded;
      }
      r := Success(Entry(key.value, value.value));
    }

    /** The field loop of `decode_message`. */
    method ReadFields(crypto: Crypto, n: nat) returns (r: Result<map<Str, Value>>)
      modifies this
      ensures Outcome(r, left) == ParseFields(MessageField(crypto), n, None, old(left), map[])
    {
      hide ParseEntry, ParseFields;
      ghost var field := MessageField(crypto);
      ghost var whole := ParseFields(field, n, None, left, map[]);
      var previous: Option<Octets>, fields: map<Str, Value> := None, map[];
      for i := 0 to n
        invariant ParseFields(field, n - i, previous, left, fields) == whole
      {
        ghost var before := left;
        var entry, encoded := NextField(crypto, previous);
        if entry.Failure? {
          FieldsStop(field, n - i, previous, before, fields, entry.error);
          return Failure(entry.error);
        }
        FieldsStep(field, n - i, previous, before, fields, entry.value.key, entry.value.value, left);
        previous, fields := encoded, fields[entry.value.key := entry.value.value];
      }
      FieldsDone(field, previous, left, fields);
      r := Success(fields);
    }

    /** One turn of the field loop of `decode_envelope`, over its two field names. */
    method NextPart(a: Str, b: Str, previous: Option<Octets>) returns (r: Result<Entry<Blob>>, encoded: Option<Octets>)
      modifies this
      ensures Outcome(r, left) == ParseEntry(PairField(a, b, ParseBytes, ParseSignature), previous, old(left))
      ensures r.Success? ==> encoded == Some(EncodeText(r.value.key))
    {
      var key;
      key, encoded := CanonicalKey(previous);
      if key.Failure? {
        return Failure(key.error), encoded;
      }
      if key.value != a && key.value != b {
        return Failure(Malformed), encoded;
      }
      assert PairField(a, b, ParseBytes, ParseSignature)(key.value, left)
          == if key.value == a then ParseBytes(left) else ParseSignature(left);
      var value := ReadString(2);
      if key.value != a && value.Success? && |value.value| != 64 {
        return Failure(Malformed), encoded;
      }
      if value.Failure? {
        return Failure(value.error), encoded;
      }
      r := Success(Entry(key.value, value.value));
    }

    /** The field loop of `decode_envelope`, over its two field names. */
    method ReadParts(a: Str, b: Str, n: nat) returns (r: Result<map<Str, Blob>>)
      modifies this
      ensures Outcome(r, left) == ParseFields(PairField(a, b, ParseBytes, ParseSignature), n, None, old(left), map[])
    {
      hide ParseEntry, ParseFields;
      ghost var field := PairField(a, b, ParseBytes, ParseSignature);
      ghost var whole := ParseFields(field, n, None, left, map[]);
      var previous: Option<Octets>, fields: map<Str, Blob> := None, map[];
      for i := 0 to n
        invariant ParseFields(field, n - i, previous, left, fields) == whole
      {
        ghost var before := left;
        var entry, encoded := NextPart(a, b, previous);
        if entry.Failure? {
          FieldsStop(field, n - i, previous, before, fields, entry.error);
          return Failure(entry.error);
        }
        FieldsStep(field, n - i, previous, before, fields, entry.value.key, entry.value.value, left);
        previous, fields := encoded, fields[entry.value.key := entry.value.value];
      }
      FieldsDone(field, previous, left, fields);
      r := Success(fields);
    }
  }

  /** `decode_message` as the source runs it. */
  method Decode(crypto: Crypto, bytes: Octets) returns (r: Result<Message>)
    ensures r == DecodeMessage(crypto, bytes)
  {
    hide ParseHead, ParseFields, Assemble, EncodeMessage, Slots;
    var reader := new Reader(bytes);
    var n := reader.Head(5);
    if n.Failure? {
      return Failure(n.error);
    }
    var fields := reader.ReadFields(crypto, n.value);
    if fields.Failure? {
      return Failure(fields.error);
    }
    var end := reader.Finish();
    if end.Failure? {
      return Failure(end.error);
    }
    r := Assemble(Slots(fields.value), n.value);
    if r.Success? && EncodeMessage(r.value) != bytes {
      return Failure(Malformed);
    }
  }

  /** The fields `a` and `b` of an envelope, in the steps of `decode_envelope`. */
  method OpenFields(a: Str, b: Str, bytes: Octets) returns (r: Result<Two<Blob>>)
    ensures r == match ParsePair(a, b, ParseBytes, ParseSignature, bytes)
                 case Err(e) => Failure(e)
                 case Ok(v, rest) => if rest != [] || |v.second| != 64 then Failure(Malformed) else Success(v)
  {
    hide ParseHead, ParseFields, PairField;
    var reader := new Reader(bytes);
    var n := reader.Head(5);
    if n.Failure? {
      return Failure(n.error);
    }
    if n.value != 2 {
      return Failure(Malformed);
    }
    var read := reader.ReadParts(a, b, n.value);
    if read.Failure? {
      return Failure(read.error);
    }
    var fields := read.value;
    var end := reader.Finish();
    if end.Failure? || a !in fields || b !in fields || |fields[b]| != 64 {
      return Failure(Malformed);
    }
    r := Success(Two(fields[a], fields[b]));
  }

  /** `decode_envelope` as the source runs it. */
  method Open(bytes: Octets) returns (r: Result<Envelope>)
    ensures r == DecodeEnvelope(bytes)
  {
    hide ParsePair, EncodeEnvelope;
    var fields := OpenFields(BODY, SIGNATURE, bytes);
    if fields.Failure? {
      return Failure(fields.error);
    }
    r := Success(Envelope(fields.value.first, fields.value.second));
    if EncodeEnvelope(r.value) != bytes {
      return Failure(Malformed);
    }
  }

  /** Texts read earlier, put before those still to be read. */
  ghost function Prefixed(values: seq<Str>, rest: Parsed<seq<Str>>): (r: Parsed<seq<Str>>) {
    match rest
    case Ok(ts, left) => Ok(values + ts, left)
    case Err(e) => Err(e)
  }

  lemma PrefixedNone(rest: Parsed<seq<Str>>)
    ensures Prefixed([], rest) == rest
  {
    assert rest.Ok? ==> [] + rest.value == rest.value;
  }

  lemma PrefixedStep(values: seq<Str>, t: Str, n: nat, before: Octets, after: Octets)
    requires n > 0 && ParseText(before) == Ok(t, after)
    ensures Prefixed(values, ParseTexts(n, before)) == Prefixed(values + [t], ParseTexts(n - 1, after))
  {
    if ParseTexts(n - 1, after).Ok? {
      var ts := ParseTexts(n - 1, after).value;
      assert values + ([t] + ts) == (values + [t]) + ts;
    }
  }
}
