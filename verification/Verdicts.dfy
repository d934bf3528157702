/** What a sender is told (`receive` of `native/iroh_discovery/src/lib.rs`): for every decoded message and every
    reachable registry, each answer with exactly the circumstances under which it is given. */
module Verdicts {
  import opened Octets
  import opened Text
  import opened Cbor
  import opened Messages
  import opened Codec
  import opened Envelopes
  import opened Records
  import opened SequenceFile
  import opened Registry
  import opened RegistryRuns
  import R = RateLimit
  import S = SequenceStore

  /** Ten messages of the endpoint were admitted within the last second. */
  predicate Busy(s: System, e: Id, now: U64) { R.Recent(HistoryOf(s.history, e), now) >= 10 }

  /** The message gets past the fleet, the table, the limiter and the signature, to be judged by its content: the name
      its endpoint then has, if so. */
  function Heard(crypto: Crypto, s: System, d: Incoming, now: U64): (name: Option<Str>) {
    var r, e := s.registry, d.message.EndpointId();
    if d.message.FleetId() != r.fleetId || !Verified(crypto, d.envelope, d.message) then None
    else if e in r.names then if Busy(s, e, now) then None else Some(r.names[e])
    else if Enrols(crypto, r, d.envelope, d.message) then Some(d.message.announcement.nodeName)
    else None
  }

  lemma GateVerdict(crypto: Crypto, s: System, d: Incoming, now: U64)
    requires Reachable(crypto, s) && s.clock <= now
    ensures var g, e := Gatekeep(crypto, s.registry, d.envelope, d.message, now), d.message.EndpointId();
            var ours := d.message.FleetId() == s.registry.fleetId;
            var known, signed := e in s.registry.names, Verified(crypto, d.envelope, d.message);
            var open := s.registry.policy == SignedFleet;
            && (g.Passed? <==> Heard(crypto, s, d, now).Some?)
            && (g.Passed? ==> Heard(crypto, s, d, now) == Some(g.name))
            && (g.Shut? && g.error == WrongFleet <==> !ours)
            && (g.Shut? && g.error == RateLimited <==> ours && known && Busy(s, e, now))
            && (g.Shut? && g.error == InvalidSignature <==>
                  ours && !signed && (if known then !Busy(s, e, now) else open))
            && (g.Shut? && g.error == UnauthorizedEndpoint <==>
                  ours && !known && (!open || (signed && d.message.Withdraw?)))
            && (g.Shut? && g.error == InvalidRecord <==>
                  && ours && !known && open && signed && d.message.Announce?
                  && (!ValidAnnouncement(d.message.announcement) || |s.registry.names| == 1024))
  {
    hide Reachable, Verified, R.Check, R.Recent, HistoryOf, ValidNodeName, ValidCapability;
    LimiterExact(crypto, s, d.message.EndpointId(), now);
    if d.message.EndpointId() !in s.registry.names {
      EnrolmentNeverLimited(crypto, s, d.envelope, d.message, now);
      if d.message.Announce? && ValidAnnouncement(d.message.announcement) {
        EnrolsIsAuthorized(s.registry, d.message);
      }
    }
  }

  lemma ContentVerdict(r: Registry, m: Message, name: Str, now: U64, fault: S.Fault)
    ensures var o := Accept(r, m, name, now, fault).result;
            var renamed := m.Announce? && m.announcement.nodeName != name;
            var newer := m.Sequence() > S.Watermark(r.store, m.EndpointId());
            var full := m.EndpointId() !in r.store && |r.store| == 1024;
            && (o == Failure(InvalidRecord) <==> !Valid(m))
            && (o == Failure(UnauthorizedEndpoint) <==> Valid(m) && renamed)
            && (o == Failure(StaleSequence) <==> Valid(m) && !renamed && !newer)
            && (o == Failure(SequenceStoreFailed) <==> Valid(m) && !renamed && newer && (full || fault != S.NoFault))
            && (o == Success(()) <==> Valid(m) && !renamed && newer && !full && fault == S.NoFault)
  {
    hide ValidAnnouncement, ValidWithdrawal, AcceptSequence, S.Watermark;
    SequenceVerdict(r, m.EndpointId(), m.Sequence(), fault);
  }

  lemma SequenceVerdict(r: Registry, e: Id, n: U64, fault: S.Fault)
    ensures var newer, full := n > S.Watermark(r.store, e), e !in r.store && |r.store| == 1024;
            AcceptSequence(r, e, n, fault).result
            == if !newer then Failure(StaleSequence)
               else if full || fault != S.NoFault then Failure(SequenceStoreFailed)
               else Success(())
  {
    hide Serialize;
  }

  /** Every answer to a decoded message, over all reachable registries. What comes first decides: another fleet; then,
      for an enrolled endpoint, ten messages within the last second; the signature; the content and the name; the
      sequence; and the store. An unknown endpoint is turned away under the strict policy, and enrolled under the other
      if it announces itself properly and there is room. */
  lemma VerdictExact(crypto: Crypto, s: System, d: Incoming, now: U64, fault: S.Fault)
    requires Reachable(crypto, s) && s.clock <= now
    ensures var o, m := Admit(crypto, s.registry, d.envelope, d.message, now, fault).result, d.message;
            var ours := m.FleetId() == s.registry.fleetId;
            var known, signed := m.EndpointId() in s.registry.names, Verified(crypto, d.envelope, m);
            var open, heard := s.registry.policy == SignedFleet, Heard(crypto, s, d, now);
            var renamed := heard.Some? && m.Announce? && m.announcement.nodeName != heard.value;
            var newer := m.Sequence() > S.Watermark(s.registry.store, m.EndpointId());
            var full := m.EndpointId() !in s.registry.store && |s.registry.store| == 1024;
            && (o == Failure(WrongFleet) <==> !ours)
            && (o == Failure(RateLimited) <==> ours && known && Busy(s, m.EndpointId(), now))
            && (o == Failure(InvalidSignature) <==>
                  ours && !signed && (if known then !Busy(s, m.EndpointId(), now) else open))
            && (o == Failure(UnauthorizedEndpoint) <==>
                  || (ours && !known && (!open || (signed && m.Withdraw?))) || (heard.Some? && Valid(m) && renamed))
            && (o == Failure(InvalidRecord) <==>
                  || (heard.Some? && !Valid(m))
                  || (ours && !known && open && signed && m.Announce? && (!Valid(m) || |s.registry.names| == 1024)))
            && (o == Failure(StaleSequence) <==> heard.Some? && Valid(m) && !renamed && !newer)
            && (o == Failure(SequenceStoreFailed) <==>
                  heard.Some? && Valid(m) && !renamed && newer && (full || fault != S.NoFault))
            && (o == Success(()) <==> heard.Some? && Valid(m) && !renamed && newer && !full && fault == S.NoFault)
  {
    hide Reachable, Gatekeep, Accept, Verified, Busy, Heard, ValidAnnouncement, RateAfter, NamesAfter;
    GateVerdict(crypto, s, d, now);
    GatekeepKeeps(crypto, s.registry, d.envelope, d.message, now);
    var g := Gatekeep(crypto, s.registry, d.envelope, d.message, now);
    if g.Passed? {
      ContentVerdict(g.registry, d.message, g.name, now, fault);
      HeardPasses(crypto, s, d, now);
    } else {
      ShutErrors(crypto, s.registry, d.envelope, d.message, now);
    }
  }

  /** What is heard has none of the faults of the gate. */
  lemma HeardPasses(crypto: Crypto, s: System, d: Incoming, now: U64)
    requires Heard(crypto, s, d, now).Some?
    ensures d.message.FleetId() == s.registry.fleetId && Verified(crypto, d.envelope, d.message)
    ensures if d.message.EndpointId() in s.registry.names then !Busy(s, d.message.EndpointId(), now)
            else && s.registry.policy == SignedFleet && d.message.Announce? && Valid(d.message)
                 && |s.registry.names| != 1024
  {
    hide Busy, ValidAnnouncement, Verified;
  }

  lemma ShutErrors(crypto: Crypto, r: Registry, env: Envelope, m: Message, now: U64)
    requires Gatekeep(crypto, r, env, m, now).Shut?
    ensures Gatekeep(crypto, r, env, m, now).error
              in {WrongFleet, RateLimited, InvalidSignature, UnauthorizedEndpoint, InvalidRecord}
  {
    hide ValidAnnouncement, ValidNodeName, Verified, R.Check;
  }

  /** Exactly the bytes that are heard at all: at most 16384 of them, an envelope around the encoding of a message. */
  lemma DecodedExact(crypto: Crypto, bytes: Octets, env: Envelope, m: Message)
    ensures Decoded(crypto, bytes) == Success(Incoming(env, m))
       <==> && |bytes| <= 16384 && bytes == EncodeEnvelope(env) && env.body == EncodeMessage(m) && Decodable(crypto, m)
  {
    hide DecodeEnvelope, DecodeMessage, EncodeEnvelope, EncodeMessage, Decodable;
    EnvelopeExact(bytes, env);
    MessageExact(crypto, env.body, m);
  }

  /** Before any of that: bytes over 16384 are refused unread. */
  lemma OversizeRefused(crypto: Crypto, r: Registry, bytes: Octets, now: U64, fault: S.Fault)
    requires |bytes| > 16384
    ensures Receive(crypto, r, bytes, now, fault) == Outcome(Failure(MessageTooLarge), r)
  {
  }
}
