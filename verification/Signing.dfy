/** Signing messages (`sign_announcement`, `sign_withdrawal` of `native/iroh_discovery/src/lib.rs`), and what a
    registry does with a message that was signed: the two ends of the announcement protocol together. */
module Signing {
  import opened Octets
  import opened Text
  import opened Cbor
  import opened Messages
  import opened Codec
  import opened Envelopes
  import opened Records
  import opened Registry
  import opened SequenceFile
  import opened Sizes
  import R = RateLimit
  import S = SequenceStore

  /** A secret key, as its public key and what it signs. */
  datatype Signer = Signer(public: Id, sign: Octets -> Signature)

  /** `sign_body`. */
  function SignBody(signer: Signer, body: Blob): (r: Result<Octets>) {
    var bytes := EncodeEnvelope(Envelope(body, signer.sign(DOMAIN + body)));
    if |bytes| > MAX_MESSAGE_SIZE then Failure(MessageTooLarge) else Success(bytes)
  }

  /** `sign_announcement` and `sign_withdrawal`. */
  function Sign(signer: Signer, m: Message): (r: Result<Octets>) {
    if !Valid(m) then Failure(InvalidRecord)
    else if m.EndpointId() != signer.public then Failure(InvalidSignature)
    else
      ValidMessageBounded(m);
      SignBody(signer, EncodeMessage(m))
  }

  function BodyOf(m: Message): (body: Blob)
    requires Valid(m)
  {
    ValidMessageBounded(m);
    EncodeMessage(m)
  }

  /** What a signer sends, exactly: the envelope of a valid message of its own endpoint, if it takes no more than 16384
      bytes. */
  lemma SignExact(signer: Signer, m: Message, bytes: Octets)
    ensures Sign(signer, m) == Success(bytes)
       <==> && Valid(m) && m.EndpointId() == signer.public && |bytes| <= 16384
            && bytes == EncodeEnvelope(Envelope(BodyOf(m), signer.sign(DOMAIN + BodyOf(m))))
  {
    hide Valid, EncodeMessage, EncodeEnvelope;
  }

  /** Every withdrawal, and every announcement without capabilities, fits: signing it fails only if the message is
      invalid or of another endpoint. */
  lemma BareMessageFits(signer: Signer, m: Message)
    requires Bare(m)
    ensures Sign(signer, m).Success? <==> Valid(m) && m.EndpointId() == signer.public
  {
    hide Valid, EncodeMessage, EncodeEnvelope, Bare;
    if Valid(m) {
      ValidMessageBounded(m);
      EnvelopeSize(Envelope(EncodeMessage(m), signer.sign(DOMAIN + EncodeMessage(m))));
    }
  }

  /** The signer's key is a key, and its signatures verify. */
  ghost predicate Genuine(crypto: Crypto, signer: Signer) {
    crypto.validKey(signer.public) && forall msg: Octets :: crypto.verify(signer.public, msg, signer.sign(msg))
  }

  /** A signature is made, and checked, over the protocol's name, a zero byte and the body. */
  lemma SignedBytes(crypto: Crypto, signer: Signer, env: Envelope, m: Message, msg: Octets)
    requires msg == Characters("elixir-rpc/cdp/v1") + [0] + env.body
    ensures Verified(crypto, env, m) <==> crypto.verify(m.EndpointId(), msg, env.signature)
    ensures SignBody(signer, env.body).Success? ==>
              SignBody(signer, env.body).value == EncodeEnvelope(Envelope(env.body, signer.sign(msg)))
  {
    hide EncodeEnvelope;
    assert DOMAIN + env.body == msg;
  }

  lemma BodyDecodes(crypto: Crypto, signer: Signer, body: Blob, m: Message)
    requires SignBody(signer, body).Success? && DecodeMessage(crypto, body) == Success(m)
    ensures Decoded(crypto, SignBody(signer, body).value)
         == Success(Incoming(Envelope(body, signer.sign(DOMAIN + body)), m))
  {
    hide DecodeMessage, DecodeEnvelope, EncodeEnvelope;
    var env := Envelope(body, signer.sign(DOMAIN + body));
    EnvelopeExact(EncodeEnvelope(env), env);
  }

  /** What a genuine signer signs, every receiver decodes to the same message with a verified signature. */
  lemma SignedDecodes(crypto: Crypto, signer: Signer, m: Message)
    requires Sign(signer, m).Success? && Genuine(crypto, signer)
    ensures Decoded(crypto, Sign(signer, m).value).Success?
    ensures var d := Decoded(crypto, Sign(signer, m).value).value; d.message == m && Verified(crypto, d.envelope, m)
  {
    hide Decoded, DecodeMessage, EncodeMessage, SignBody, ValidAnnouncement;
    if m.Announce? {
      ValidIsReadable(m.announcement);
    }
    MessageExact(crypto, EncodeMessage(m), m);
    ValidMessageBounded(m);
    BodyDecodes(crypto, signer, EncodeMessage(m), m);
  }

  /** The message is in order for an endpoint enrolled under `name`. */
  predicate InOrder(m: Message, name: Str) { Valid(m) && (m.Announce? ==> m.announcement.nodeName == name) }

  lemma AcceptExact(r: Registry, m: Message, name: Str, now: U64, fault: S.Fault)
    ensures Accept(r, m, name, now, fault).result.Success?
       <==> InOrder(m, name) && S.Admissible(r.store, m.EndpointId(), m.Sequence()) && fault == S.NoFault
  {
    hide ValidAnnouncement, Serialize;
  }

  /** A message of an enrolled endpoint is accepted if and only if it is for this fleet, fewer than ten recent messages
      of the endpoint were admitted, its signature verifies, it is valid and under the enrolled name, its sequence is
      above the watermark and the store can record it. */
  lemma AdmitExact(crypto: Crypto, r: Registry, env: Envelope, m: Message, now: U64, fault: S.Fault)
    requires m.EndpointId() in r.names
    ensures Admit(crypto, r, env, m, now, fault).result.Success?
       <==> && m.FleetId() == r.fleetId && R.Check(TimesOf(r, m.EndpointId()), now).admitted && Verified(crypto, env, m)
            && InOrder(m, r.names[m.EndpointId()])
            && S.Admissible(r.store, m.EndpointId(), m.Sequence()) && fault == S.NoFault
  {
    hide Accept, Verified, R.Check, InOrder, S.Admissible;
    var g := Gatekeep(crypto, r, env, m, now);
    GatekeepKeeps(crypto, r, env, m, now);
    if g.Passed? {
      AcceptExact(g.registry, m, g.name, now, fault);
    }
  }

  /** A message of an unknown endpoint is accepted if and only if it enrols it, is not limited, and the store can record
      its sequence. */
  lemma NewcomerExact(crypto: Crypto, r: Registry, env: Envelope, m: Message, now: U64, fault: S.Fault)
    requires m.EndpointId() !in r.names
    ensures Admit(crypto, r, env, m, now, fault).result.Success?
       <==> && Enrols(crypto, r, env, m) && R.Check(TimesOf(r, m.EndpointId()), now).admitted
            && S.Admissible(r.store, m.EndpointId(), m.Sequence()) && fault == S.NoFault
  {
    hide Accept, Verified, R.Check, S.Admissible, ValidNodeName, ValidCapability;
    var g := Gatekeep(crypto, r, env, m, now);
    GatekeepKeeps(crypto, r, env, m, now);
    if g.Passed? {
      AcceptExact(g.registry, m, g.name, now, fault);
    }
  }

  lemma AcceptedContent(r: Registry, m: Message, name: Str, now: U64, fault: S.Fault)
    requires Accept(r, m, name, now, fault).result.Success?
    ensures var r' := Accept(r, m, name, now, fault).registry;
            && r'.store == r.store[m.EndpointId() := m.Sequence()]
            && r'.disk.visible == Serialize(r'.store) && r'.disk.survivors == {r'.disk.visible}
            && r'.records == if m.Announce? then r.records[m.EndpointId() := Active(m.announcement, now)]
                             else r.records - {m.EndpointId()}
  {
    hide ValidAnnouncement, ValidWithdrawal, AcceptSequence, Serialize;
    SequenceAccepted(r, m.EndpointId(), m.Sequence(), fault);
  }

  lemma SequenceAccepted(r: Registry, e: Id, n: U64, fault: S.Fault)
    ensures var o := AcceptSequence(r, e, n, fault);
            o.result.Success? ==>
              && o.registry.store == r.store[e := n] && o.registry.records == r.records
              && o.registry.disk.visible == Serialize(o.registry.store)
              && o.registry.disk.survivors == {o.registry.disk.visible}
  {
    hide Serialize;
  }

  /** From the sender's record to the receiver's: what a genuine signer publishes under its enrolled name, with a fresh
      sequence and within the rate, is accepted, and the receiver then holds that record, or none after a withdrawal,
      with the watermark on disk. */
  lemma PublishedIsHeld(crypto: Crypto, signer: Signer, r: Registry, m: Message, now: U64)
    requires Sign(signer, m).Success? && Genuine(crypto, signer)
    requires m.EndpointId() in r.names && m.FleetId() == r.fleetId && R.Check(TimesOf(r, m.EndpointId()), now).admitted
    requires m.Announce? ==> m.announcement.nodeName == r.names[m.EndpointId()]
    requires S.Admissible(r.store, m.EndpointId(), m.Sequence())
    ensures var o := Receive(crypto, r, Sign(signer, m).value, now, S.NoFault);
            && o.result.Success?
            && o.registry.store == r.store[m.EndpointId() := m.Sequence()]
            && o.registry.disk.visible == Serialize(o.registry.store)
            && o.registry.records == if m.Announce? then r.records[m.EndpointId() := Active(m.announcement, now)]
                                     else r.records - {m.EndpointId()}
  {
    hide Decoded, EncodeMessage, SignBody, ValidAnnouncement, Verified, R.Check, S.Admissible, Serialize, Accept;
    hide Gatekeep, NamesAfter, RateAfter;
    SignedDecodes(crypto, signer, m);
    var d := Decoded(crypto, Sign(signer, m).value).value;
    AdmitExact(crypto, r, d.envelope, m, now, S.NoFault);
    GatekeepKeeps(crypto, r, d.envelope, m, now);
    var g := Gatekeep(crypto, r, d.envelope, m, now);
    AcceptedContent(g.registry, m, g.name, now, S.NoFault);
  }

  // ---------- the documented triples ----------

  /** Authentic publication: the announcement is active from its reception until exactly its time to live has passed. */
  lemma PublishedStaysActive(crypto: Crypto, signer: Signer, r: Registry, m: Message, now: U64, later: U64)
    requires Sign(signer, m).Success? && Genuine(crypto, signer) && m.Announce?
    requires m.EndpointId() in r.names && m.FleetId() == r.fleetId && R.Check(TimesOf(r, m.EndpointId()), now).admitted
    requires m.announcement.nodeName == r.names[m.EndpointId()]
    requires S.Admissible(r.store, m.EndpointId(), m.Sequence())
    ensures var held := Expire(Receive(crypto, r, Sign(signer, m).value, now, S.NoFault).registry, later).records;
            if later < now + m.announcement.ttlMs && later < R.U64_MAX
            then m.EndpointId() in held && held[m.EndpointId()] == Active(m.announcement, now)
            else m.EndpointId() !in held
  {
    hide Receive, Sign, EncodeMessage, R.Check, S.Admissible, Genuine, Live;
    PublishedIsHeld(crypto, signer, r, m, now);
    LifetimeExact(Active(m.announcement, now), later);
  }

  /** Tampering and impersonation: a message whose signature does not verify is refused, and leaves everything as it was
      except the limiter queue of an enrolled endpoint of this fleet, which is brought up to date, and charged if there
      was room, before the signature is checked. */
  lemma UnverifiedRefused(crypto: Crypto, r: Registry, env: Envelope, m: Message, now: U64, fault: S.Fault)
    requires !Verified(crypto, env, m)
    ensures var o := Admit(crypto, r, env, m, now, fault);
            var e := m.EndpointId();
            && o.result.Failure?
            && o.registry == r.(rate := if e in r.names && m.FleetId() == r.fleetId
                                        then r.rate[e := R.Check(TimesOf(r, e), now).times] else r.rate)
  {
    hide Verified, R.Check, Accept, ValidAnnouncement;
  }

  /** Replay: a message in every other way acceptable, but not above the watermark, is refused as stale, and leaves
      everything as it was except the limiter queue. */
  lemma StaleRefused(crypto: Crypto, r: Registry, env: Envelope, m: Message, now: U64, fault: S.Fault)
    requires m.EndpointId() in r.names && m.FleetId() == r.fleetId && Verified(crypto, env, m)
    requires R.Check(TimesOf(r, m.EndpointId()), now).admitted && InOrder(m, r.names[m.EndpointId()])
    requires m.Sequence() <= S.Watermark(r.store, m.EndpointId())
    ensures Admit(crypto, r, env, m, now, fault)
         == Outcome(Failure(StaleSequence),
                    r.(rate := r.rate[m.EndpointId() := R.Check(TimesOf(r, m.EndpointId()), now).times]))
  {
    hide Verified, R.Check, ValidAnnouncement, S.Advance;
  }
}
