/** Administration of the registry (`authorize`, `revoke` of `native/iroh_discovery/src/lib.rs`): who is heard after
    which calls, over every run. */
module Revoking {
  import opened Octets
  import opened Text
  import opened Cbor
  import opened Messages
  import opened Records
  import opened Registry
  import opened RegistryRuns
  import R = RateLimit
  import S = SequenceStore

  // ---------- one call ----------

  /** Nothing of an endpoint changes: not its name, its record or its queue. */
  ghost predicate SameEndpoint(r: Registry, r': Registry, e: Id) {
    && (e in r'.names <==> e in r.names) && (e in r.names ==> r'.names[e] == r.names[e])
    && (e in r'.records <==> e in r.records) && (e in r.records ==> r'.records[e] == r.records[e])
    && (e in r'.rate <==> e in r.rate) && (e in r.rate ==> r'.rate[e] == r.rate[e])
  }

  /** Revoking an endpoint takes away its name, its record and its queue; its watermark stays, and so does everything of
      every other endpoint. */
  lemma RevokeExact(r: Registry, e: Id)
    ensures var r' := Revoke(r, e);
            && e !in r'.names && e !in r'.records && e !in r'.rate
            && r'.store == r.store && r'.disk == r.disk && r'.policy == r.policy && r'.fleetId == r.fleetId
            && forall other :: other != e ==> SameEndpoint(r, r', other)
  {
  }

  /** Authorizing succeeds if and only if the name is a node name and the endpoint is known or one of fewer than 1024.
      Then the endpoint has that name; nothing else changes, and nothing at all if it fails. */
  lemma AuthorizeExact(r: Registry, e: Id, name: Str)
    ensures Authorize(r, e, name).result.Success? <==> ValidNodeName(name) && (e in r.names || |r.names| != 1024)
    ensures var o := Authorize(r, e, name);
            if o.result.Failure? then o == Outcome(Failure(InvalidRecord), r)
            else && e in o.registry.names && o.registry.names[e] == name
                 && o.registry == r.(names := o.registry.names)
                 && forall other :: other != e ==> SameEndpoint(r, o.registry, other)
  {
    hide ValidNodeName;
  }

  // ---------- runs ----------

  /** The endpoint is unknown to a registry that enrols nobody by itself. */
  predicate Barred(s: System, e: Id) {
    s.registry.policy == Strict && e !in s.registry.names && e !in s.registry.records && e !in s.registry.rate
  }

  /** Nobody authorizes the endpoint, and the registry is not restarted with another table. */
  predicate NotAuthorized(steps: seq<Step>, e: Id) {
    forall i :: 0 <= i < |steps| ==> !(steps[i].Authorizing? && steps[i].endpoint == e) && !steps[i].Restart?
  }

  /** A message of a barred endpoint is refused at the door and changes nothing. */
  lemma BarredRefused(crypto: Crypto, s: System, e: Id, bytes: Octets, now: U64, fault: S.Fault)
    requires Barred(s, e) && Decoded(crypto, bytes).Success?
    requires var m := Decoded(crypto, bytes).value.message; m.EndpointId() == e && m.FleetId() == s.registry.fleetId
    ensures Receive(crypto, s.registry, bytes, now, fault) == Outcome(Failure(UnauthorizedEndpoint), s.registry)
  {
    hide Decoded, Known, Newcomer;
  }

  /** A message of another endpoint does not let it in either. */
  lemma OthersKeepBarred(crypto: Crypto, r: Registry, d: Incoming, now: U64, fault: S.Fault, e: Id)
    requires r.policy == Strict && e !in r.names && e !in r.records && e !in r.rate
    ensures var r' := Admit(crypto, r, d.envelope, d.message, now, fault).registry;
            r'.policy == Strict && e !in r'.names && e !in r'.records && e !in r'.rate
  {
    hide Gatekeep, Accept, Verified, ValidAnnouncement, R.Check;
    var g := Gatekeep(crypto, r, d.envelope, d.message, now);
    GatekeepKeeps(crypto, r, d.envelope, d.message, now);
    if g.Passed? {
      AcceptOwnRecord(g.registry, d.message, g.name, now, fault, e);
    }
  }

  lemma AcceptOwnRecord(r: Registry, m: Message, name: Str, now: U64, fault: S.Fault, e: Id)
    requires m.EndpointId() in r.names && e !in r.names && e !in r.records
    ensures var r' := Accept(r, m, name, now, fault).registry;
            r'.names == r.names && r'.rate == r.rate && r'.policy == r.policy && e !in r'.records
  {
    hide ValidAnnouncement, ValidWithdrawal, AcceptSequence;
    SequenceKeepsRecords(r, m.EndpointId(), m.Sequence(), fault);
  }

  lemma DeliverKeepsBarred(crypto: Crypto, s: System, bytes: Octets, now: U64, fault: S.Fault, e: Id)
    requires Barred(s, e)
    ensures Barred(Delivered(crypto, s, bytes, now, fault), e)
  {
    hide Decoded, Admit, Gatekeep, Charge;
    if Decoded(crypto, bytes).Success? {
      OthersKeepBarred(crypto, s.registry, Decoded(crypto, bytes).value, now, fault, e);
    }
  }

  lemma StepKeepsBarred(crypto: Crypto, s: System, step: Step, e: Id)
    requires Barred(s, e) && Enabled(crypto, s, step) && !step.Restart? && !(step.Authorizing? && step.endpoint == e)
    ensures Barred(Next(crypto, s, step), e)
  {
    hide Delivered, Table, Live, ValidNodeName;
    if step.Deliver? {
      DeliverKeepsBarred(crypto, s, step.bytes, step.now, step.fault, e);
    }
  }

  lemma {:induction false} RunKeepsBarred(crypto: Crypto, s: System, steps: seq<Step>, e: Id)
    requires Barred(s, e) && IsRun(crypto, s, steps) && NotAuthorized(steps, e)
    ensures Barred(After(crypto, s, steps), e)
    decreases |steps|
  {
    hide Barred, Enabled, Next;
    if steps != [] {
      StepKeepsBarred(crypto, s, steps[0], e);
      RunKeepsBarred(crypto, Next(crypto, s, steps[0]), steps[1..], e);
    }
  }

  /** Revocation holds: under the strict policy, from the moment an endpoint is revoked and until it is authorized
      again, it has no name and no active record, and every message of it is refused as unauthorized and changes
      nothing. */
  lemma RevocationHolds(crypto: Crypto, s: System, e: Id, steps: seq<Step>)
    requires s.registry.policy == Strict
    requires IsRun(crypto, Next(crypto, s, Revoking(e)), steps) && NotAuthorized(steps, e)
    ensures var s' := After(crypto, Next(crypto, s, Revoking(e)), steps);
            && e !in s'.registry.names && e !in s'.registry.records
            && forall bytes: Octets, now: U64, fault: S.Fault | OwnMessage(crypto, s'.registry, bytes, e) ::
                 Receive(crypto, s'.registry, bytes, now, fault) == Outcome(Failure(UnauthorizedEndpoint), s'.registry)
  {
    hide IsRun, After, NotAuthorized, Receive;
    RevokeExact(s.registry, e);
    RunKeepsBarred(crypto, Next(crypto, s, Revoking(e)), steps, e);
    var s' := After(crypto, Next(crypto, s, Revoking(e)), steps);
    forall bytes: Octets, now: U64, fault: S.Fault | OwnMessage(crypto, s'.registry, bytes, e)
      ensures Receive(crypto, s'.registry, bytes, now, fault) == Outcome(Failure(UnauthorizedEndpoint), s'.registry)
    {
      BarredRefused(crypto, s', e, bytes, now, fault);
    }
  }

  /** The bytes are a message of this endpoint for this fleet. */
  predicate OwnMessage(crypto: Crypto, r: Registry, bytes: Octets, e: Id) {
    && Decoded(crypto, bytes).Success?
    && Decoded(crypto, bytes).value.message.EndpointId() == e
    && Decoded(crypto, bytes).value.message.FleetId() == r.fleetId
  }
}
