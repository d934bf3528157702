/** The signed envelope (`encode_envelope`, `decode_envelope`): a canonical map of a body and its signature. */
module Envelopes {
  import opened Octets
  import opened Cbor
  import opened TwoFields
  import opened Messages

  datatype Envelope = Envelope(body: Blob, signature: Signature)

  const BODY: Str := Name("body")
  const SIGNATURE: Str := Name("signature")

  function EncodeEnvelope(e: Envelope): (s: Octets) {
    EncodePair<Blob>(BODY, SIGNATURE, EncodeBytes, Two(e.body, e.signature))
  }

  function ParseSignature(s: Octets): (r: Parsed<Blob>) {
    match ParseBytes(s)
    case Err(e) => Err(e)
    case Ok(b, rest) => if |b| == 64 then Ok(b, rest) else Err(Malformed)
  }

  /** Everything `decode_envelope` does before its final comparison. */
  function ReadEnvelope(bytes: Octets): (r: Result<Envelope>) {
    match ParsePair(BODY, SIGNATURE, ParseBytes, ParseSignature, bytes)
    case Err(e) => Failure(e)
    case Ok(v, rest) =>
      if rest != [] || |v.second| != 64 then Failure(Malformed) else Success(Envelope(v.first, v.second))
  }

  /** `decode_envelope`. */
  function DecodeEnvelope(bytes: Octets): (r: Result<Envelope>) {
    var r := ReadEnvelope(bytes);
    if r.Success? && EncodeEnvelope(r.value) != bytes then Failure(Malformed) else r
  }

  lemma NamesDiffer()
    ensures BODY != SIGNATURE
  {
    assert |BODY| != |SIGNATURE|;
  }

  lemma FieldsFaithful()
    ensures Faithful(ParseBytes, EncodeBytes) && Faithful(ParseSignature, EncodeBytes)
  {
    forall s: Octets | ParseBytes(s).Ok?
      ensures s == EncodeBytes(ParseBytes(s).value) + ParseBytes(s).rest
    {
      StringSound(s, 2);
    }
  }

  lemma FieldsRestore(e: Envelope)
    ensures Restores<Blob>(ParseBytes, EncodeBytes, e.body) && Restores<Blob>(ParseSignature, EncodeBytes, e.signature)
  {
    forall s: Octets
      ensures ParseBytes(EncodeBytes(e.body) + s) == Ok(e.body, s)
    {
      StringInverse(2, e.body, s);
    }
    forall s: Octets
      ensures ParseSignature(EncodeBytes(e.signature) + s) == Ok(e.signature, s)
    {
      StringInverse(2, e.signature, s);
    }
  }

  /** What the reader accepts is already canonical, so the closing comparison of `decode_envelope` never rejects. */
  lemma EnvelopeCanonical(bytes: Octets)
    requires ReadEnvelope(bytes).Success?
    ensures EncodeEnvelope(ReadEnvelope(bytes).value) == bytes
    ensures DecodeEnvelope(bytes) == ReadEnvelope(bytes)
  {
    NamesDiffer();
    FieldsFaithful();
    PairSound(BODY, SIGNATURE, ParseBytes, ParseSignature, EncodeBytes, bytes);
  }

  lemma EnvelopeInverse(e: Envelope)
    ensures ReadEnvelope(EncodeEnvelope(e)) == Success(e)
  {
    NamesDiffer();
    FieldsRestore(e);
    PairInverse<Blob>(BODY, SIGNATURE, ParseBytes, ParseSignature, EncodeBytes, Two(e.body, e.signature), []);
    assert EncodeEnvelope(e) + [] == EncodeEnvelope(e);
  }

  /** The envelope codec is exact: an envelope decodes from its own encoding and from no other bytes. */
  lemma EnvelopeExact(bytes: Octets, e: Envelope)
    ensures DecodeEnvelope(bytes) == Success(e) <==> bytes == EncodeEnvelope(e)
  {
    if ReadEnvelope(bytes).Success? {
      EnvelopeCanonical(bytes);
    }
    EnvelopeInverse(e);
  }
}
