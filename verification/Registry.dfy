/** The signed-announcement registry of `native/iroh_discovery/src/lib.rs` on values: what one message, query or
    administrative call does to it. */
module Registry {
  import opened Octets
  import opened Text
  import opened Cbor
  import opened Messages
  import opened Codec
  import opened Envelopes
  import opened Records
  import opened SequenceFile
  import R = RateLimit
  import S = SequenceStore

  const MAX_MESSAGE_SIZE: nat := 16384

  /** The domain separator, `elixir-rpc/cdp/v1` and a zero byte. */
  const DOMAIN: Octets := Name("elixir-rpc/cdp/v1") + [0]

  datatype Policy = Strict | SignedFleet

  datatype Active = Active(announcement: Announcement, receivedAt: U64)

  /** `names` is the authorization table; `store` and `disk` are the sequence store. */
  datatype Registry = Registry(
    fleetId: Id, names: map<Id, Str>, policy: Policy, store: Sequences, disk: S.Disk,
    records: map<Id, Active>, rate: map<Id, seq<U64>>)

  datatype Outcome = Outcome(result: Result<()>, registry: Registry)

  // ---------- administration and queries ----------

  /** `AuthorizationTable::authorize`. */
  function Authorize(r: Registry, e: Id, name: Str): (o: Outcome) {
    if !ValidNodeName(name) || (e !in r.names && |r.names| == MAX_AUTHORIZED) then Outcome(Failure(InvalidRecord), r)
    else Outcome(Success(()), r.(names := r.names[e := name]))
  }

  function Revoke(r: Registry, e: Id): (r': Registry) {
    r.(names := r.names - {e}, records := r.records - {e}, rate := r.rate - {e})
  }

  predicate Live(a: Active, now: U64) { R.SaturatingAdd(a.receivedAt, a.announcement.ttlMs) > now }

  function Expire(r: Registry, now: U64): (r': Registry) {
    r.(records := map e | e in r.records && Live(r.records[e], now) :: r.records[e])
  }

  /** A record lives for exactly its time to live, cut off only by the last value of the clock. */
  lemma LifetimeExact(a: Active, now: U64)
    ensures Live(a, now) <==> now < a.receivedAt + a.announcement.ttlMs && now < R.U64_MAX
  {
  }

  // ---------- receiving ----------

  function TimesOf(r: Registry, e: Id): (times: seq<U64>) { if e in r.rate then r.rate[e] else [] }

  /** Where a decoded message stops before its content counts: an error, or the name its endpoint is enrolled under.
      `charged` says that the limiter admitted it. */
  datatype Gate =
    | Shut(error: Error, registry: Registry, charged: bool)
    | Passed(registry: Registry, name: Str)

  predicate Verified(crypto: Crypto, env: Envelope, m: Message) {
    crypto.verify(m.EndpointId(), DOMAIN + env.body, env.signature)
  }

  /** The limiter and signature check of an enrolled endpoint. */
  function Known(crypto: Crypto, r: Registry, env: Envelope, m: Message, now: U64): (g: Gate)
    requires m.EndpointId() in r.names
  {
    var e := m.EndpointId();
    var v := R.Check(TimesOf(r, e), now);
    var r' := r.(rate := r.rate[e := v.times]);
    if !v.admitted then Shut(RateLimited, r', false)
    else if !Verified(crypto, env, m) then Shut(InvalidSignature, r', true)
    else Passed(r', r.names[e])
  }

  /** The signature check and enrolment of an unknown endpoint under the signed-fleet policy. */
  function Newcomer(crypto: Crypto, r: Registry, env: Envelope, m: Message, now: U64): (g: Gate) {
    var e := m.EndpointId();
    if !Verified(crypto, env, m) then Shut(InvalidSignature, r, false)
    else if !m.Announce? then Shut(UnauthorizedEndpoint, r, false)
    else if !ValidAnnouncement(m.announcement) then Shut(InvalidRecord, r, false)
    else
      var a := Authorize(r, e, m.announcement.nodeName);
      if a.result.Failure? then Shut(a.result.error, r, false) else
      var v := R.Check(TimesOf(a.registry, e), now);
      var r' := a.registry.(rate := a.registry.rate[e := v.times]);
      if v.admitted then Passed(r', m.announcement.nodeName) else Shut(RateLimited, r', false)
  }

  function Gatekeep(crypto: Crypto, r: Registry, env: Envelope, m: Message, now: U64): (g: Gate) {
    if m.FleetId() != r.fleetId then Shut(WrongFleet, r, false)
    else if m.EndpointId() in r.names then Known(crypto, r, env, m, now)
    else if r.policy == Strict then Shut(UnauthorizedEndpoint, r, false)
    else Newcomer(crypto, r, env, m, now)
  }

  /** `accept_sequence`. */
  function AcceptSequence(r: Registry, e: Id, n: U64, fault: S.Fault): (o: Outcome) {
    if n <= S.Watermark(r.store, e) then Outcome(Failure(StaleSequence), r) else
    var x := S.Advance(r.store, r.disk, e, n, fault);
    Outcome(x.result, r.(store := x.sequences, disk := x.disk))
  }

  /** The closing match of `receive`, for a message of an endpoint enrolled under `name`. */
  function Accept(r: Registry, m: Message, name: Str, now: U64, fault: S.Fault): (o: Outcome) {
    var e := m.EndpointId();
    match m
    case Announce(a) =>
      if !ValidAnnouncement(a) then Outcome(Failure(InvalidRecord), r)
      else if a.nodeName != name then Outcome(Failure(UnauthorizedEndpoint), r)
      else
        var o := AcceptSequence(r, e, a.sequence, fault);
        if o.result.Failure? then o
        else Outcome(o.result, o.registry.(records := o.registry.records[e := Active(a, now)]))
    case Withdraw(w) =>
      if !ValidWithdrawal(w) then Outcome(Failure(InvalidRecord), r)
      else
        var o := AcceptSequence(r, e, w.sequence, fault);
        if o.result.Failure? then o else Outcome(o.result, o.registry.(records := o.registry.records - {e}))
  }

  /** `receive` once the message is decoded. */
  function Admit(crypto: Crypto, r: Registry, env: Envelope, m: Message, now: U64, fault: S.Fault): (o: Outcome) {
    match Gatekeep(crypto, r, env, m, now)
    case Shut(error, r', _) => Outcome(Failure(error), r')
    case Passed(r', name) => Accept(r', m, name, now, fault)
  }

  datatype Incoming = Incoming(envelope: Envelope, message: Message)

  /** The size limit and the two decoders at the head of `receive`. */
  function Decoded(crypto: Crypto, bytes: Octets): (d: Result<Incoming>) {
    if |bytes| > MAX_MESSAGE_SIZE then Failure(MessageTooLarge) else
    match DecodeEnvelope(bytes)
    case Failure(e) => Failure(e)
    case Success(env) =>
      match DecodeMessage(crypto, env.body)
      case Failure(e) => Failure(e)
      case Success(m) => Success(Incoming(env, m))
  }

  /** `receive`. */
  function Receive(crypto: Crypto, r: Registry, bytes: Octets, now: U64, fault: S.Fault): (o: Outcome) {
    match Decoded(crypto, bytes)
    case Failure(e) => Outcome(Failure(e), r)
    case Success(d) => Admit(crypto, r, d.envelope, d.message, now, fault)
  }

  // ---------- failing ----------

  /** What a refused message may change: limiter queues, an enrolment, and the disk if a write was cut short. */
  ghost predicate SameContent(r: Registry, r': Registry) {
    && r'.fleetId == r.fleetId && r'.policy == r.policy && r'.store == r.store && r'.records == r.records
  }

  /** The condition under which an unknown endpoint enrols itself. */
  predicate Enrols(crypto: Crypto, r: Registry, env: Envelope, m: Message) {
    && m.EndpointId() !in r.names && r.policy == SignedFleet && m.FleetId() == r.fleetId
    && Verified(crypto, env, m) && m.Announce? && ValidAnnouncement(m.announcement) && |r.names| != MAX_AUTHORIZED
  }

  function NamesAfter(crypto: Crypto, r: Registry, env: Envelope, m: Message): (names: map<Id, Str>) {
    if Enrols(crypto, r, env, m) then r.names[m.EndpointId() := m.announcement.nodeName] else r.names
  }

  /** The limiter queues after the gate: the endpoint's own is brought up to date, with the message's time if admitted,
      once it is enrolled. */
  function RateAfter(crypto: Crypto, r: Registry, env: Envelope, m: Message, now: U64): (rate: map<Id, seq<U64>>) {
    var e := m.EndpointId();
    if m.FleetId() == r.fleetId && (e in r.names || Enrols(crypto, r, env, m))
    then r.rate[e := R.Check(TimesOf(r, e), now).times]
    else r.rate
  }

  lemma KnownKeeps(crypto: Crypto, r: Registry, env: Envelope, m: Message, now: U64)
    requires m.EndpointId() in r.names
    ensures var g := Known(crypto, r, env, m, now);
            SameContent(r, g.registry) && g.registry.disk == r.disk && g.registry.names == r.names
    ensures var g := Known(crypto, r, env, m, now);
            g.registry.rate == r.rate[m.EndpointId() := R.Check(TimesOf(r, m.EndpointId()), now).times]
    ensures var g := Known(crypto, r, env, m, now);
            g.Passed? ==> Verified(crypto, env, m) && g.name == r.names[m.EndpointId()]
  {
    hide Verified, R.Check;
  }

  lemma EnrolsIsAuthorized(r: Registry, m: Message)
    requires m.EndpointId() !in r.names && m.Announce? && ValidAnnouncement(m.announcement)
    ensures Authorize(r, m.EndpointId(), m.announcement.nodeName)
         == if |r.names| == MAX_AUTHORIZED then Outcome(Failure(InvalidRecord), r)
            else Outcome(Success(()), r.(names := r.names[m.EndpointId() := m.announcement.nodeName]))
  {
    hide ValidNodeName, ValidCapability;
  }

  lemma NewcomerKeeps(crypto: Crypto, r: Registry, env: Envelope, m: Message, now: U64)
    requires m.EndpointId() !in r.names && r.policy == SignedFleet && m.FleetId() == r.fleetId
    ensures var g := Newcomer(crypto, r, env, m, now);
            g.registry == r.(names := NamesAfter(crypto, r, env, m), rate := RateAfter(crypto, r, env, m, now))
    ensures var g := Newcomer(crypto, r, env, m, now);
            g.Passed? ==> Enrols(crypto, r, env, m) && g.name == m.announcement.nodeName
  {
    hide Verified, R.Check, ValidAnnouncement, Authorize;
    if m.Announce? && ValidAnnouncement(m.announcement) {
      EnrolsIsAuthorized(r, m);
    }
  }

  lemma GatekeepKeeps(crypto: Crypto, r: Registry, env: Envelope, m: Message, now: U64)
    ensures var g := Gatekeep(crypto, r, env, m, now);
            SameContent(r, g.registry) && g.registry.disk == r.disk && g.registry.names == NamesAfter(crypto, r, env, m)
    ensures Gatekeep(crypto, r, env, m, now).registry.rate == RateAfter(crypto, r, env, m, now)
    ensures var g := Gatekeep(crypto, r, env, m, now);
            g.Passed? ==> m.FleetId() == r.fleetId && Verified(crypto, env, m)
    ensures var g := Gatekeep(crypto, r, env, m, now);
            g.Passed? ==> m.EndpointId() in g.registry.names && g.name == g.registry.names[m.EndpointId()]
  {
    hide Verified, Known, Newcomer, ValidAnnouncement;
    if m.FleetId() == r.fleetId {
      if m.EndpointId() in r.names {
        KnownKeeps(crypto, r, env, m, now);
      } else if r.policy == SignedFleet {
        NewcomerKeeps(crypto, r, env, m, now);
      }
    }
  }

  lemma SequenceFails(r: Registry, e: Id, n: U64, fault: S.Fault)
    requires AcceptSequence(r, e, n, fault).result.Failure?
    ensures var r' := AcceptSequence(r, e, n, fault).registry;
            r' == r.(disk := r'.disk) && (fault != S.AfterRename ==> r'.disk == r.disk)
  {
    hide Serialize;
  }

  lemma AcceptFails(r: Registry, m: Message, name: Str, now: U64, fault: S.Fault)
    requires Accept(r, m, name, now, fault).result.Failure?
    ensures var r' := Accept(r, m, name, now, fault).registry;
            r' == r.(disk := r'.disk) && (fault != S.AfterRename ==> r'.disk == r.disk)
  {
    hide ValidAnnouncement, ValidWithdrawal, AcceptSequence;
    if AcceptSequence(r, m.EndpointId(), m.Sequence(), fault).result.Failure? {
      SequenceFails(r, m.EndpointId(), m.Sequence(), fault);
    }
  }

  /** A refused message changes no record and no watermark. It enrols a new endpoint if and only if its announcement
      is valid, signed and for this fleet, the policy allows it and the table has room; it brings its endpoint's limiter
      queue up to date if and only if that endpoint is then enrolled and the fleet is right; and it touches the disk
      only if a write was cut short after its rename. */
  lemma RefusalKeepsContent(crypto: Crypto, r: Registry, bytes: Octets, now: U64, fault: S.Fault)
    requires Receive(crypto, r, bytes, now, fault).result.Failure?
    ensures var r' := Receive(crypto, r, bytes, now, fault).registry;
            SameContent(r, r') && (fault != S.AfterRename ==> r'.disk == r.disk)
    ensures var r' := Receive(crypto, r, bytes, now, fault).registry;
            r'.names == match Decoded(crypto, bytes)
                        case Failure(_) => r.names
                        case Success(d) => NamesAfter(crypto, r, d.envelope, d.message)
    ensures var r' := Receive(crypto, r, bytes, now, fault).registry;
            r'.rate == match Decoded(crypto, bytes)
                       case Failure(_) => r.rate
                       case Success(d) => RateAfter(crypto, r, d.envelope, d.message, now)
  {
    hide Decoded, Gatekeep, Accept, Enrols, RateAfter;
    if Decoded(crypto, bytes).Success? {
      var d := Decoded(crypto, bytes).value;
      GatekeepKeeps(crypto, r, d.envelope, d.message, now);
      var g := Gatekeep(crypto, r, d.envelope, d.message, now);
      if g.Passed? {
        AcceptFails(g.registry, d.message, g.name, now, fault);
      }
    }
  }
}
