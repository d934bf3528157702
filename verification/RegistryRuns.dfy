/** Every run of the registry: messages in any order and of any content, administrative calls, queries, failing
    writes, and restarts on whatever the watermark file survived with. */
module RegistryRuns {
  import opened Octets
  import opened Text
  import opened Cbor
  import opened Messages
  import opened Codec
  import opened Envelopes
  import opened Records
  import opened SequenceFile
  import opened Registry
  import R = RateLimit
  import S = SequenceStore

  /** `history` lists, for each endpoint, the admissions since it was last without a limiter queue; `accepted` lists
      every sequence the registry ever accepted, over all restarts. */
  datatype System = System(
    registry: Registry, clock: U64, history: map<Id, seq<U64>>, accepted: seq<S.Grant>)

  datatype Step =
    | Deliver(bytes: Octets, now: U64, fault: S.Fault)
    | Revoking(endpoint: Id)
    | Authorizing(endpoint: Id, name: Str)
    | Sweep(now: U64)                                   // the purge at the head of every query
    | Restart(content: Octets, powerLost: bool, names: map<Id, Str>, policy: Policy, now: U64)

  /** What `AuthorizationTable::new` accepts. */
  predicate Table(names: map<Id, Str>) {
    |names| <= MAX_AUTHORIZED && forall e :: e in names ==> ValidNodeName(names[e])
  }

  predicate Enabled(crypto: Crypto, s: System, step: Step) {
    match step
    case Deliver(_, now, _) => s.clock <= now
    case Revoking(_) => true
    case Authorizing(_, _) => true
    case Sweep(now) => s.clock <= now
    case Restart(content, powerLost, names, _, _) =>
      && (if powerLost then content in s.registry.disk.survivors else content == s.registry.disk.visible)
      && Open(crypto.validKey, content).Success? && Table(names)
  }

  function HistoryOf(history: map<Id, seq<U64>>, e: Id): (h: seq<U64>) { if e in history then history[e] else [] }

  function Charge(g: Gate, history: map<Id, seq<U64>>, e: Id, now: U64): (h: map<Id, seq<U64>>) {
    if g.Passed? || g.charged then history[e := HistoryOf(history, e) + [now]] else history
  }

  function Delivered(crypto: Crypto, s: System, bytes: Octets, now: U64, fault: S.Fault): (r: System) {
    match Decoded(crypto, bytes)
    case Failure(_) => s.(clock := now)
    case Success(d) =>
      var e := d.message.EndpointId();
      var g := Gatekeep(crypto, s.registry, d.envelope, d.message, now);
      var o := Receive(crypto, s.registry, bytes, now, fault);
      System(o.registry, now, Charge(g, s.history, e, now),
             if o.result.Success? then s.accepted + [S.Grant(e, d.message.Sequence())] else s.accepted)
  }

  function Next(crypto: Crypto, s: System, step: Step): (r: System)
    requires Enabled(crypto, s, step)
  {
    match step
    case Deliver(bytes, now, fault) => Delivered(crypto, s, bytes, now, fault)
    case Revoking(e) => s.(registry := Revoke(s.registry, e), history := s.history - {e})
    case Authorizing(e, name) => s.(registry := Authorize(s.registry, e, name).registry)
    case Sweep(now) => s.(registry := Expire(s.registry, now), clock := now)
    case Restart(content, powerLost, names, policy, now) =>
      var disk := if powerLost then S.Disk(content, {content}) else s.registry.disk;
      var store := Open(crypto.validKey, content).value;
      System(Registry(s.registry.fleetId, names, policy, store, disk, map[], map[]), now, map[], s.accepted)
  }

  /** A new registry over a store that has just opened its file. */
  ghost predicate Initial(crypto: Crypto, s: System) {
    && Table(s.registry.names) && s.registry.records == map[] && s.registry.rate == map[]
    && s.history == map[] && s.accepted == []
    && s.registry.disk.survivors == {s.registry.disk.visible}
    && Open(crypto.validKey, s.registry.disk.visible) == Success(s.registry.store)
  }

  predicate IsRun(crypto: Crypto, s: System, steps: seq<Step>)
    decreases |steps|
  {
    steps == [] || (Enabled(crypto, s, steps[0]) && IsRun(crypto, Next(crypto, s, steps[0]), steps[1..]))
  }

  function After(crypto: Crypto, s: System, steps: seq<Step>): (r: System)
    requires IsRun(crypto, s, steps)
    decreases |steps|
  {
    if steps == [] then s else After(crypto, Next(crypto, s, steps[0]), steps[1..])
  }

  ghost predicate Reachable(crypto: Crypto, s: System) {
    exists s0: System, steps: seq<Step> ::
      Initial(crypto, s0) && IsRun(crypto, s0, steps) && After(crypto, s0, steps) == s
  }

  // ---------- what every run keeps ----------

  ghost predicate StoreOk(crypto: Crypto, store: Sequences, disk: S.Disk, accepted: seq<S.Grant>) {
    S.Inv(crypto.validKey, S.System(Some(store), disk, accepted))
  }

  /** An active record is valid, of this fleet, its endpoint's own, and the endpoint's latest accepted message. */
  ghost predicate Sound(fleetId: Id, store: Sequences, e: Id, a: Announcement) {
    ValidAnnouncement(a) && a.endpointId == e && a.fleetId == fleetId && S.Watermark(store, e) == a.sequence
  }

  ghost predicate RecordsOk(fleetId: Id, store: Sequences, names: map<Id, Str>, records: map<Id, Active>) {
    forall e :: e in records ==> e in names && Sound(fleetId, store, e, records[e].announcement)
  }

  /** Limiter queues exist only for enrolled endpoints, and agree with the history. */
  ghost predicate RateOk(names: map<Id, Str>, rate: map<Id, seq<U64>>, history: map<Id, seq<U64>>, clock: U64) {
    && (forall e :: e in rate ==> e in names)
    && (forall e :: e in history ==> e in rate)
    && (forall e :: e in rate ==>
          R.Inv(rate[e], HistoryOf(history, e), clock) && R.Spaced(HistoryOf(history, e)))
  }

  ghost predicate Inv(crypto: Crypto, s: System) {
    && StoreOk(crypto, s.registry.store, s.registry.disk, s.accepted)
    && Table(s.registry.names)
    && RecordsOk(s.registry.fleetId, s.registry.store, s.registry.names, s.registry.records)
    && RateOk(s.registry.names, s.registry.rate, s.history, s.clock)
  }

  // ---------- the limiter ----------

  lemma CheckKeepsRate(names: map<Id, Str>, rate: map<Id, seq<U64>>, history: map<Id, seq<U64>>, clock: U64,
                       e: Id, now: U64)
    requires RateOk(names, rate, history, clock) && clock <= now && e in names
    ensures var v := R.Check(if e in rate then rate[e] else [], now);
            RateOk(names, rate[e := v.times],
                   if v.admitted then history[e := HistoryOf(history, e) + [now]] else history, now)
  {
    hide R.Check, R.Inv, R.Spaced;
    var times, h := if e in rate then rate[e] else [], HistoryOf(history, e);
    MeterOf(rate, history, clock, names, e);
    MeterChecked(times, h, clock, now);
    forall j | j in rate
      ensures R.Inv(rate[j], HistoryOf(history, j), now)
    {
      R.InvLater(rate[j], HistoryOf(history, j), clock, now);
    }
  }

  lemma MeterOf(rate: map<Id, seq<U64>>, history: map<Id, seq<U64>>, clock: U64, names: map<Id, Str>, e: Id)
    requires RateOk(names, rate, history, clock)
    ensures R.Inv(if e in rate then rate[e] else [], HistoryOf(history, e), clock) && R.Spaced(HistoryOf(history, e))
  {
  }

  lemma MeterChecked(times: seq<U64>, h: seq<U64>, clock: U64, now: U64)
    requires R.Inv(times, h, clock) && R.Spaced(h) && clock <= now
    ensures var v := R.Check(times, now);
            var h' := if v.admitted then h + [now] else h;
            R.Inv(v.times, h', now) && R.Spaced(h')
  {
    hide R.Inv, R.Spaced, R.Trim;
    R.CheckKeepsInv(times, h, clock, now);
    if R.Check(times, now).admitted {
      R.CheckKeepsSpaced(times, h, clock, now);
    }
  }

  lemma RateLater(names: map<Id, Str>, rate: map<Id, seq<U64>>, history: map<Id, seq<U64>>, clock: U64, now: U64)
    requires RateOk(names, rate, history, clock) && clock <= now
    ensures RateOk(names, rate, history, now)
  {
    hide R.Inv, R.Spaced;
    forall j | j in rate
      ensures R.Inv(rate[j], HistoryOf(history, j), now)
    {
      R.InvLater(rate[j], HistoryOf(history, j), clock, now);
    }
  }

  /** A larger table keeps the limiter in order. */
  lemma RateNamed(names: map<Id, Str>, names': map<Id, Str>, rate: map<Id, seq<U64>>, history: map<Id, seq<U64>>,
                  clock: U64)
    requires RateOk(names, rate, history, clock) && names.Keys <= names'.Keys
    ensures RateOk(names', rate, history, clock)
  {
    hide R.Inv, R.Spaced;
    assert forall e :: e in names ==> e in names.Keys;
  }

  // ---------- one message ----------

  ghost predicate GateOk(g: Gate, history: map<Id, seq<U64>>, e: Id, now: U64) {
    Table(g.registry.names) && RateOk(g.registry.names, g.registry.rate, Charge(g, history, e, now), now)
  }

  lemma KnownKeepsRate(crypto: Crypto, r: Registry, env: Envelope, m: Message, history: map<Id, seq<U64>>, clock: U64,
                       now: U64)
    requires m.EndpointId() in r.names && Table(r.names) && RateOk(r.names, r.rate, history, clock) && clock <= now
    ensures GateOk(Known(crypto, r, env, m, now), history, m.EndpointId(), now)
  {
    hide RateOk, Table, Verified, R.Check, HistoryOf;
    CheckKeepsRate(r.names, r.rate, history, clock, m.EndpointId(), now);
  }

  lemma TableGrows(names: map<Id, Str>, e: Id, name: Str)
    requires Table(names) && ValidNodeName(name) && (e in names || |names| != MAX_AUTHORIZED)
    ensures Table(names[e := name])
  {
    hide ValidNodeName;
    assert names[e := name].Keys == names.Keys + {e};
  }

  lemma NewcomerKeepsRate(crypto: Crypto, r: Registry, env: Envelope, m: Message, history: map<Id, seq<U64>>,
                          clock: U64, now: U64)
    requires m.EndpointId() !in r.names && Table(r.names) && RateOk(r.names, r.rate, history, clock) && clock <= now
    ensures GateOk(Newcomer(crypto, r, env, m, now), history, m.EndpointId(), now)
  {
    hide RateOk, Table, Verified, R.Check, HistoryOf, Authorize, ValidAnnouncement;
    var e := m.EndpointId();
    RateLater(r.names, r.rate, history, clock, now);
    if m.Announce? {
      AuthorizeKeepsRate(r, e, m.announcement.nodeName, history, now);
    }
  }

  lemma AuthorizeKeepsRate(r: Registry, e: Id, name: Str, history: map<Id, seq<U64>>, now: U64)
    requires Table(r.names) && RateOk(r.names, r.rate, history, now)
    ensures var o := Authorize(r, e, name);
            o.result.Success? ==>
              var v := R.Check(TimesOf(o.registry, e), now);
              && Table(o.registry.names)
              && RateOk(o.registry.names, o.registry.rate[e := v.times],
                        if v.admitted then history[e := HistoryOf(history, e) + [now]] else history, now)
  {
    hide RateOk, Table, R.Check, HistoryOf, ValidNodeName;
    if Authorize(r, e, name).result.Success? {
      var names := r.names[e := name];
      TableGrows(r.names, e, name);
      RateNamed(r.names, names, r.rate, history, now);
      CheckKeepsRate(names, r.rate, history, now, e, now);
    }
  }

  lemma GateKeepsRate(crypto: Crypto, r: Registry, env: Envelope, m: Message, history: map<Id, seq<U64>>, clock: U64,
                      now: U64)
    requires Table(r.names) && RateOk(r.names, r.rate, history, clock) && clock <= now
    ensures GateOk(Gatekeep(crypto, r, env, m, now), history, m.EndpointId(), now)
  {
    hide RateOk, Table, Known, Newcomer, HistoryOf;
    RateLater(r.names, r.rate, history, clock, now);
    if m.EndpointId() in r.names {
      KnownKeepsRate(crypto, r, env, m, history, clock, now);
    } else {
      NewcomerKeepsRate(crypto, r, env, m, history, clock, now);
    }
  }

  lemma SequenceKeepsStore(crypto: Crypto, r: Registry, e: Id, n: U64, fault: S.Fault, accepted: seq<S.Grant>)
    requires StoreOk(crypto, r.store, r.disk, accepted) && crypto.validKey(e)
    ensures var o := AcceptSequence(r, e, n, fault);
            && StoreOk(crypto, o.registry.store, o.registry.disk,
                       if o.result.Success? then accepted + [S.Grant(e, n)] else accepted)
            && o.registry == r.(store := o.registry.store, disk := o.registry.disk)
            && o.registry.store == (if o.result.Success? then r.store[e := n] else r.store)
  {
    hide S.Inv, Serialize;
    S.AdvanceKeepsInv(crypto.validKey, S.System(Some(r.store), r.disk, accepted), e, n, fault);
  }

  /** Raising one endpoint's watermark leaves the other records sound. */
  lemma RecordsFrame(fleetId: Id, store: Sequences, names: map<Id, Str>, records: map<Id, Active>, e: Id, n: U64)
    requires RecordsOk(fleetId, store, names, records)
    ensures RecordsOk(fleetId, store[e := n], names, records - {e})
  {
    hide ValidAnnouncement;
  }

  lemma RecordAdded(fleetId: Id, store: Sequences, names: map<Id, Str>, records: map<Id, Active>, e: Id,
                    a: Announcement, now: U64)
    requires RecordsOk(fleetId, store, names, records)
    requires e in names && ValidAnnouncement(a) && a.endpointId == e && a.fleetId == fleetId
    ensures RecordsOk(fleetId, store[e := a.sequence], names, records[e := Active(a, now)])
  {
    hide ValidAnnouncement;
  }

  lemma AcceptKeeps(crypto: Crypto, r: Registry, m: Message, name: Str, now: U64, fault: S.Fault,
                    accepted: seq<S.Grant>)
    requires StoreOk(crypto, r.store, r.disk, accepted) && RecordsOk(r.fleetId, r.store, r.names, r.records)
    requires m.EndpointId() in r.names && crypto.validKey(m.EndpointId()) && m.FleetId() == r.fleetId
    ensures var o := Accept(r, m, name, now, fault);
            && StoreOk(crypto, o.registry.store, o.registry.disk,
                       if o.result.Success? then accepted + [S.Grant(m.EndpointId(), m.Sequence())] else accepted)
            && RecordsOk(r.fleetId, o.registry.store, r.names, o.registry.records)
            && o.registry.names == r.names && o.registry.rate == r.rate && o.registry.fleetId == r.fleetId
  {
    hide StoreOk, RecordsOk, AcceptSequence, ValidAnnouncement;
    var e := m.EndpointId();
    SequenceKeepsStore(crypto, r, e, m.Sequence(), fault, accepted);
    RecordsFrame(r.fleetId, r.store, r.names, r.records, e, m.Sequence());
    if m.Announce? && ValidAnnouncement(m.announcement) {
      RecordAdded(r.fleetId, r.store, r.names, r.records, e, m.announcement, now);
    }
  }

  lemma DecodedValid(crypto: Crypto, bytes: Octets)
    requires Decoded(crypto, bytes).Success?
    ensures Decodable(crypto, Decoded(crypto, bytes).value.message)
  {
    hide DecodeEnvelope, DecodeMessage;
    var d := Decoded(crypto, bytes).value;
    MessageExact(crypto, d.envelope.body, d.message);
  }

  lemma RecordsNamed(fleetId: Id, store: Sequences, names: map<Id, Str>, names': map<Id, Str>, records: map<Id, Active>)
    requires RecordsOk(fleetId, store, names, records) && names.Keys <= names'.Keys
    ensures RecordsOk(fleetId, store, names', records)
  {
    hide Sound;
    assert forall e :: e in names ==> e in names.Keys;
  }

  lemma DeliverKeepsInv(crypto: Crypto, s: System, bytes: Octets, now: U64, fault: S.Fault)
    requires Inv(crypto, s) && s.clock <= now
    ensures Inv(crypto, Delivered(crypto, s, bytes, now, fault))
  {
    hide StoreOk, Table, RecordsOk, RateOk, Gatekeep, Accept, Decoded, Charge, Enrols;
    var r := s.registry;
    RateLater(r.names, r.rate, s.history, s.clock, now);
    if Decoded(crypto, bytes).Success? {
      var d := Decoded(crypto, bytes).value;
      var g := Gatekeep(crypto, r, d.envelope, d.message, now);
      GatekeepKeeps(crypto, r, d.envelope, d.message, now);
      GateKeepsRate(crypto, r, d.envelope, d.message, s.history, s.clock, now);
      RecordsNamed(r.fleetId, r.store, r.names, g.registry.names, r.records);
      if g.Passed? {
        DecodedValid(crypto, bytes);
        AcceptKeeps(crypto, g.registry, d.message, g.name, now, fault, s.accepted);
      }
    }
  }

  // ---------- the other steps ----------

  lemma TableShrinks(names: map<Id, Str>, e: Id)
    requires Table(names)
    ensures Table(names - {e})
  {
    hide ValidNodeName;
    assert (names - {e}).Keys == names.Keys - {e};
  }

  lemma RateWithout(names: map<Id, Str>, rate: map<Id, seq<U64>>, history: map<Id, seq<U64>>, clock: U64, e: Id)
    requires RateOk(names, rate, history, clock)
    ensures RateOk(names - {e}, rate - {e}, history - {e}, clock)
  {
    hide R.Inv, R.Spaced;
  }

  lemma RecordsWithout(fleetId: Id, store: Sequences, names: map<Id, Str>, records: map<Id, Active>, e: Id)
    requires RecordsOk(fleetId, store, names, records)
    ensures RecordsOk(fleetId, store, names - {e}, records - {e})
  {
    hide Sound;
  }

  lemma RevokeKeepsInv(crypto: Crypto, s: System, e: Id)
    requires Inv(crypto, s)
    ensures Inv(crypto, Next(crypto, s, Revoking(e)))
  {
    hide StoreOk, RecordsOk, RateOk, Table;
    var r := s.registry;
    TableShrinks(r.names, e);
    RateWithout(r.names, r.rate, s.history, s.clock, e);
    RecordsWithout(r.fleetId, r.store, r.names, r.records, e);
  }

  lemma AuthorizeKeepsInv(crypto: Crypto, s: System, e: Id, name: Str)
    requires Inv(crypto, s)
    ensures Inv(crypto, Next(crypto, s, Authorizing(e, name)))
  {
    hide StoreOk, RecordsOk, RateOk, Table, ValidNodeName;
    var r := s.registry;
    var names := r.names[e := name];
    if Authorize(r, e, name).result.Success? {
      TableGrows(r.names, e, name);
      RateNamed(r.names, names, r.rate, s.history, s.clock);
      RecordsNamed(r.fleetId, r.store, r.names, names, r.records);
    }
  }

  lemma SweepKeepsInv(crypto: Crypto, s: System, now: U64)
    requires Inv(crypto, s) && s.clock <= now
    ensures Inv(crypto, Next(crypto, s, Sweep(now)))
  {
    hide StoreOk, Sound, Table, RateOk, Live;
    RateLater(s.registry.names, s.registry.rate, s.history, s.clock, now);
  }

  lemma StoreReopens(crypto: Crypto, store: Sequences, disk: S.Disk, accepted: seq<S.Grant>, content: Octets)
    requires StoreOk(crypto, store, disk, accepted) && content in disk.survivors
    ensures Open(crypto.validKey, content).Success?
    ensures var reopened := Open(crypto.validKey, content).value;
            && StoreOk(crypto, reopened, S.Disk(content, {content}), accepted)
            && (content == disk.visible ==> StoreOk(crypto, reopened, disk, accepted))
  {
    hide Open, Storable, S.Dominates, S.Increasing;
    assert S.Safe(crypto.validKey, content, accepted);
    OpenExact(crypto.validKey, content, Open(crypto.validKey, content).value);
  }

  lemma VisibleSurvives(crypto: Crypto, store: Sequences, disk: S.Disk, accepted: seq<S.Grant>)
    requires StoreOk(crypto, store, disk, accepted)
    ensures disk.visible in disk.survivors
  {
  }

  lemma RestartKeepsInv(crypto: Crypto, s: System, step: Step)
    requires Inv(crypto, s) && step.Restart? && Enabled(crypto, s, step)
    ensures Inv(crypto, Next(crypto, s, step))
  {
    hide Open, Table, StoreOk;
    VisibleSurvives(crypto, s.registry.store, s.registry.disk, s.accepted);
    StoreReopens(crypto, s.registry.store, s.registry.disk, s.accepted, step.content);
    NothingYet(s.registry.fleetId, Open(crypto.validKey, step.content).value, step.names, step.now);
    hide RecordsOk, RateOk;
  }

  lemma NothingYet(fleetId: Id, store: Sequences, names: map<Id, Str>, now: U64)
    ensures RecordsOk(fleetId, store, names, map[]) && RateOk(names, map[], map[], now)
  {
  }

  lemma StepKeepsInv(crypto: Crypto, s: System, step: Step)
    requires Inv(crypto, s) && Enabled(crypto, s, step)
    ensures Inv(crypto, Next(crypto, s, step))
  {
    hide Inv, Delivered, Revoke, Authorize, Expire;
    match step
    case Deliver(bytes, now, fault) => DeliverKeepsInv(crypto, s, bytes, now, fault);
    case Revoking(e) => RevokeKeepsInv(crypto, s, e);
    case Authorizing(e, name) => AuthorizeKeepsInv(crypto, s, e, name);
    case Sweep(now) => SweepKeepsInv(crypto, s, now);
    case Restart(_, _, _, _, _) => RestartKeepsInv(crypto, s, step);
  }

  lemma {:induction false} RunKeepsInv(crypto: Crypto, s: System, steps: seq<Step>)
    requires Inv(crypto, s) && IsRun(crypto, s, steps)
    ensures Inv(crypto, After(crypto, s, steps))
    decreases |steps|
  {
    hide Inv, Enabled, Next;
    if steps != [] {
      StepKeepsInv(crypto, s, steps[0]);
      RunKeepsInv(crypto, Next(crypto, s, steps[0]), steps[1..]);
    }
  }

  lemma InitialInv(crypto: Crypto, s: System)
    requires Initial(crypto, s)
    ensures Inv(crypto, s)
  {
    hide Open, ValidNodeName;
    OpenExact(crypto.validKey, s.registry.disk.visible, s.registry.store);
  }

  lemma ReachableInv(crypto: Crypto, s: System)
    requires Reachable(crypto, s)
    ensures Inv(crypto, s)
  {
    hide Inv, Initial, IsRun, After;
    var s0, steps :| Initial(crypto, s0) && IsRun(crypto, s0, steps) && After(crypto, s0, steps) == s;
    InitialInv(crypto, s0);
    RunKeepsInv(crypto, s0, steps);
  }

  /** A new registry over a missing watermark file is the start of such runs. */
  lemma NewIsReachable(crypto: Crypto, fleetId: Id, names: map<Id, Str>, policy: Policy, disk: S.Disk, now: U64)
    requires Table(names) && disk == S.Disk([], {[]})
    ensures Reachable(crypto, System(Registry(fleetId, names, policy, map[], disk, map[], map[]), now, map[], []))
  {
    var s := System(Registry(fleetId, names, policy, map[], disk, map[], map[]), now, map[], []);
    assert Open(crypto.validKey, []) == Success(map[]);
    assert Initial(crypto, s);
    assert IsRun(crypto, s, []) && After(crypto, s, []) == s;
  }

  lemma {:induction false} RunExtends(crypto: Crypto, s: System, steps: seq<Step>, step: Step)
    requires IsRun(crypto, s, steps) && Enabled(crypto, After(crypto, s, steps), step)
    ensures IsRun(crypto, s, steps + [step])
    ensures After(crypto, s, steps + [step]) == Next(crypto, After(crypto, s, steps), step)
    decreases |steps|
  {
    hide Enabled, Next;
    if steps == [] {
      assert [step][1..] == [];
    } else {
      RunExtends(crypto, Next(crypto, s, steps[0]), steps[1..], step);
      assert (steps + [step])[1..] == steps[1..] + [step];
    }
  }

  lemma StepReaches(crypto: Crypto, s: System, step: Step)
    requires Reachable(crypto, s) && Enabled(crypto, s, step)
    ensures Reachable(crypto, Next(crypto, s, step))
  {
    hide Initial, IsRun, After, Enabled, Next;
    var s0, steps :| Initial(crypto, s0) && IsRun(crypto, s0, steps) && After(crypto, s0, steps) == s;
    RunExtends(crypto, s0, steps, step);
  }

  // ---------- results ----------

  /** An active record is always valid, of this fleet, its own endpoint's, and carries exactly the endpoint's
      watermark; and its endpoint is enrolled. */
  lemma RecordsCurrent(crypto: Crypto, s: System, e: Id)
    requires Reachable(crypto, s) && e in s.registry.records
    ensures e in s.registry.names
    ensures var a := s.registry.records[e].announcement;
            ValidAnnouncement(a) && a.endpointId == e && a.fleetId == s.registry.fleetId
            && a.sequence == S.Watermark(s.registry.store, e)
  {
    hide Reachable, StoreOk, Table, RateOk, ValidAnnouncement;
    ReachableInv(crypto, s);
    assert Sound(s.registry.fleetId, s.registry.store, e, s.registry.records[e].announcement);
  }

  /** So records can always be ranked: each is filed under its own endpoint, has capacity, and its free capacity does
      not go below zero. */
  lemma RecordsRanked(crypto: Crypto, s: System, e: Id)
    requires Reachable(crypto, s) && e in s.registry.records
    ensures s.registry.records[e].announcement.endpointId == e && Ranked(s.registry.records[e].announcement.load)
  {
    hide Reachable;
    RecordsCurrent(crypto, s, e);
  }

  lemma SubsetCount(a: set<Id>, b: set<Id>)
    requires a <= b
    ensures |a| <= |b|
  {
    assert b == a + (b - a);
  }

  /** Whatever arrives, every table stays bounded. */
  lemma TablesBounded(crypto: Crypto, s: System)
    requires Reachable(crypto, s)
    ensures |s.registry.names| <= 1024 && |s.registry.store| <= 1024
    ensures |s.registry.records| <= 1024 && |s.registry.rate| <= 1024
    ensures forall e :: e in s.registry.rate ==> |s.registry.rate[e]| <= 10
  {
    hide Reachable, Sound, R.Spaced, S.DiskSafe, S.Increasing, S.Dominates;
    ReachableInv(crypto, s);
    SubsetCount(s.registry.records.Keys, s.registry.names.Keys);
    SubsetCount(s.registry.rate.Keys, s.registry.names.Keys);
  }

  /** The limiter can refuse an enrolled endpoint, but never one that is just enrolling. */
  lemma EnrolmentNeverLimited(crypto: Crypto, s: System, env: Envelope, m: Message, now: U64)
    requires Reachable(crypto, s) && m.EndpointId() !in s.registry.names
    ensures var g := Gatekeep(crypto, s.registry, env, m, now); g.Shut? ==> g.error != RateLimited
  {
    hide Reachable, StoreOk, RecordsOk, Table, R.Inv, R.Spaced, Verified, ValidAnnouncement, ValidNodeName;
    ReachableInv(crypto, s);
    assert TimesOf(s.registry, m.EndpointId()) == [];
  }

  /** Every enrolled endpoint is limited as its whole history demands. */
  lemma LimiterExact(crypto: Crypto, s: System, e: Id, now: U64)
    requires Reachable(crypto, s) && s.clock <= now
    ensures R.Check(TimesOf(s.registry, e), now).admitted <==> R.Recent(HistoryOf(s.history, e), now) < R.RATE_LIMIT
  {
    hide Reachable, StoreOk, RecordsOk, Table, R.Inv, R.Spaced, R.Check, R.Recent, RateOk;
    ReachableInv(crypto, s);
    MeterOf(s.registry.rate, s.history, s.clock, s.registry.names, e);
    R.QueueDecides(TimesOf(s.registry, e), HistoryOf(s.history, e), s.clock, now);
  }

  /** Between enrolments, an endpoint's eleventh admission comes at least a window after its first. */
  lemma RateWindow(crypto: Crypto, s: System, e: Id, i: nat, j: nat)
    requires Reachable(crypto, s) && i + 10 <= j < |HistoryOf(s.history, e)|
    ensures var h := HistoryOf(s.history, e); h[j] == R.U64_MAX || (h[i] <= h[j] && h[j] - h[i] >= 1000)
  {
    hide Reachable, StoreOk, RecordsOk, Table, RateOk;
    ReachableInv(crypto, s);
    MeterOf(s.registry.rate, s.history, s.clock, s.registry.names, e);
    var h := HistoryOf(s.history, e);
    assert R.Expired(h[i], h[i + R.RATE_LIMIT]);
    assert h[i + R.RATE_LIMIT] <= h[j];
  }

  // ---------- replay ----------

  lemma StaleRefused(crypto: Crypto, r: Registry, bytes: Octets, now: U64, fault: S.Fault, n: U64)
    requires Decoded(crypto, bytes).Success?
    requires Decoded(crypto, bytes).value.message.Sequence() <= n
    requires S.Watermark(r.store, Decoded(crypto, bytes).value.message.EndpointId()) >= n
    ensures Receive(crypto, r, bytes, now, fault).result.Failure?
  {
    hide Decoded, Gatekeep, ValidAnnouncement, Enrols, S.Advance;
    var d := Decoded(crypto, bytes).value;
    GatekeepKeeps(crypto, r, d.envelope, d.message, now);
  }

  /** Once a sequence is accepted, no message of that endpoint with the same or a lower one is ever accepted again,
      whatever crashed or was revoked in between; and the refusal changes no record and no watermark. */
  lemma ReplayRefused(crypto: Crypto, s: System, g: S.Grant, bytes: Octets, now: U64, fault: S.Fault)
    requires Reachable(crypto, s) && g in s.accepted && Decoded(crypto, bytes).Success?
    requires var m := Decoded(crypto, bytes).value.message; m.EndpointId() == g.endpoint && m.Sequence() <= g.sequence
    ensures var o := Receive(crypto, s.registry, bytes, now, fault);
            o.result.Failure? && SameContent(s.registry, o.registry)
  {
    hide Reachable, RecordsOk, Table, RateOk, Decoded, Receive, S.DiskSafe, S.Increasing, Storable;
    ReachableInv(crypto, s);
    StaleRefused(crypto, s.registry, bytes, now, fault, g.sequence);
    RefusalKeepsContent(crypto, s.registry, bytes, now, fault);
  }

  lemma {:induction false} AcceptedGrows(crypto: Crypto, s: System, steps: seq<Step>)
    requires IsRun(crypto, s, steps)
    ensures s.accepted <= After(crypto, s, steps).accepted
    decreases |steps|
  {
    hide Enabled, Receive, Gatekeep, Charge, Decoded, Revoke, Authorize, Expire, Open;
    if steps != [] {
      AcceptedGrows(crypto, Next(crypto, s, steps[0]), steps[1..]);
      NextGrows(crypto, s, steps[0]);
    }
  }

  lemma NextGrows(crypto: Crypto, s: System, step: Step)
    requires Enabled(crypto, s, step)
    ensures s.accepted <= Next(crypto, s, step).accepted
  {
    hide Receive, Gatekeep, Charge, Decoded, Revoke, Authorize, Expire, Open;
  }

  /** The same bytes are accepted at most once, over any run from the moment they were accepted. */
  lemma AcceptedOnce(crypto: Crypto, s: System, bytes: Octets, now: U64, fault: S.Fault, steps: seq<Step>, later: U64,
                     fault': S.Fault)
    requires Inv(crypto, s) && s.clock <= now && Receive(crypto, s.registry, bytes, now, fault).result.Success?
    requires IsRun(crypto, Delivered(crypto, s, bytes, now, fault), steps)
    ensures var s' := After(crypto, Delivered(crypto, s, bytes, now, fault), steps);
            Receive(crypto, s'.registry, bytes, later, fault').result.Failure?
  {
    hide Inv, Gatekeep, Decoded, Charge, IsRun, After, Admit;
    var s1 := Delivered(crypto, s, bytes, now, fault);
    var s2 := After(crypto, s1, steps);
    var m := Decoded(crypto, bytes).value.message;
    DeliverKeepsInv(crypto, s, bytes, now, fault);
    RunKeepsInv(crypto, s1, steps);
    AcceptedGrows(crypto, s1, steps);
    assert s1.accepted[|s.accepted|] == S.Grant(m.EndpointId(), m.Sequence());
    assert s2.accepted[|s.accepted|] in s2.accepted;
    WatermarkCovers(crypto, s2, S.Grant(m.EndpointId(), m.Sequence()));
    StaleRefused(crypto, s2.registry, bytes, later, fault', m.Sequence());
  }

  lemma WatermarkCovers(crypto: Crypto, s: System, g: S.Grant)
    requires Inv(crypto, s) && g in s.accepted
    ensures S.Watermark(s.registry.store, g.endpoint) >= g.sequence
  {
    hide RecordsOk, Table, RateOk, S.DiskSafe, S.Increasing, Storable;
  }

  // ---------- names ----------

  /** Every active record carries the name its endpoint is enrolled under. */
  ghost predicate NamesAgree(r: Registry) {
    forall e :: e in r.records && e in r.names ==> r.records[e].announcement.nodeName == r.names[e]
  }

  lemma AcceptKeepsNames(r: Registry, m: Message, now: U64, fault: S.Fault)
    requires NamesAgree(r) && m.EndpointId() in r.names
    ensures NamesAgree(Accept(r, m, r.names[m.EndpointId()], now, fault).registry)
  {
    hide ValidAnnouncement, ValidWithdrawal, AcceptSequence;
    SequenceKeepsRecords(r, m.EndpointId(), m.Sequence(), fault);
  }

  lemma SequenceKeepsRecords(r: Registry, e: Id, n: U64, fault: S.Fault)
    ensures var r' := AcceptSequence(r, e, n, fault).registry; r' == r.(store := r'.store, disk := r'.disk)
  {
    hide S.Advance;
  }

  /** Messages keep the names of active records in step with the table. */
  lemma AdmitKeepsNames(crypto: Crypto, r: Registry, env: Envelope, m: Message, now: U64, fault: S.Fault)
    requires NamesAgree(r) && forall e :: e in r.records ==> e in r.names
    ensures NamesAgree(Admit(crypto, r, env, m, now, fault).registry)
  {
    hide Gatekeep, Accept, ValidAnnouncement, Verified;
    GatekeepKeeps(crypto, r, env, m, now);
    var g := Gatekeep(crypto, r, env, m, now);
    assert NamesAgree(g.registry);
    if g.Passed? {
      AcceptKeepsNames(g.registry, m, now, fault);
    }
  }

  /** Authorizing an endpoint again does so exactly when it has no active record or keeps its name: otherwise the
      record stays active under the old one. */
  lemma ReauthorizeKeepsNames(r: Registry, e: Id, name: Str)
    requires NamesAgree(r) && Authorize(r, e, name).result.Success?
    ensures NamesAgree(Authorize(r, e, name).registry)
       <==> (e in r.records ==> r.records[e].announcement.nodeName == name)
  {
    hide ValidNodeName;
    var r' := Authorize(r, e, name).registry;
    assert e in r'.names && r'.names[e] == name;
  }

  // ---------- finding peers ----------

  /** What `find` returns: unexpired, with spare capacity, and matching. */
  predicate Selects(r: Registry, ps: seq<Predicate>, now: U64, a: Announcement) {
    && a.endpointId in r.records && r.records[a.endpointId].announcement == a
    && Live(r.records[a.endpointId], now) && Eligible(a, ps)
  }

  /** `list` is the answer of `find`: exactly the selected announcements, each once, in strictly ascending rank. */
  ghost predicate IsAnswer(r: Registry, ps: seq<Predicate>, now: U64, list: seq<Announcement>) {
    && AllRanked(list) && Ascending(list)
    && forall a :: a in list <==> Selects(r, ps, now, a)
  }

  /** The answer in the caller's terms: an announcement is in it if and only if it is its endpoint's record, has not
      outlived its time, is of a peer with capacity to spare, and has what every predicate asks for. */
  lemma AnswerMeans(r: Registry, ps: seq<Predicate>, now: U64, list: seq<Announcement>, a: Announcement)
    requires IsAnswer(r, ps, now, list)
    ensures a in list <==>
              && a.endpointId in r.records && r.records[a.endpointId].announcement == a
              && now < r.records[a.endpointId].receivedAt + a.ttlMs && now < R.U64_MAX
              && a.load.running < a.load.capacity
              && forall i :: 0 <= i < |ps| ==> Fulfils(a, ps[i])
  {
    hide Matches, Fulfils, Ascending, AllRanked, Live;
    forall i | 0 <= i < |ps|
      ensures Matches(a, ps[i]) <==> Fulfils(a, ps[i])
    {
      MatchesExact(a, ps[i]);
    }
    if a.endpointId in r.records {
      LifetimeExact(r.records[a.endpointId], now);
    }
  }

  /** There is one answer, so `find` does not depend on the order in which the records are visited. */
  lemma AnswerUnique(r: Registry, ps: seq<Predicate>, now: U64, list: seq<Announcement>, other: seq<Announcement>)
    requires IsAnswer(r, ps, now, list) && IsAnswer(r, ps, now, other)
    ensures list == other
  {
    RankingUnique(list, other);
  }

  /** Nor on the queries made before it: what they purged was already out. */
  lemma AnswerAfterPurge(r: Registry, ps: seq<Predicate>, before: U64, now: U64, list: seq<Announcement>)
    requires before <= now
    ensures IsAnswer(Expire(r, before), ps, now, list) <==> IsAnswer(r, ps, now, list)
  {
    hide Eligible, Ascending, AllRanked;
    assert forall a :: Selects(Expire(r, before), ps, now, a) <==> Selects(r, ps, now, a);
  }
}
