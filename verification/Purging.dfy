/** Lazy expiry (`native/iroh_discovery/src/lib.rs`): queries purge expired records as they go, and nobody can tell.
    Every run gives the same answers, to messages, administrative calls and the queries after it, with all its purges
    left out. */
module Purging {
  import opened Octets
  import opened Text
  import opened Cbor
  import opened Messages
  import opened Envelopes
  import opened Records
  import opened SequenceFile
  import opened Registry
  import opened RegistryRuns
  import R = RateLimit
  import S = SequenceStore

  // ---------- registries equal up to expired records ----------

  ghost predicate SameLive(a: map<Id, Active>, b: map<Id, Active>, clock: U64) {
    forall e :: (e in a && Live(a[e], clock) ==> e in b && b[e] == a[e])
             && (e in b && Live(b[e], clock) ==> e in a && a[e] == b[e])
  }

  /** Nothing but records that have expired at `clock` differs. */
  ghost predicate Alike(r: Registry, r': Registry, clock: U64) {
    r' == r.(records := r'.records) && SameLive(r.records, r'.records, clock)
  }

  lemma AlikeLater(r: Registry, r': Registry, clock: U64, later: U64)
    requires Alike(r, r', clock) && clock <= later
    ensures Alike(r, r', later)
  {
  }

  lemma PurgeIsAlike(r: Registry, r': Registry, clock: U64, now: U64)
    requires Alike(r, r', clock) && clock <= now
    ensures Alike(Expire(r, now), r', now)
  {
  }

  // ---------- a message does not look at records ----------

  /** What an accepted message does to the records. */
  function Edited(d: Incoming, records: map<Id, Active>, now: U64): (r: map<Id, Active>) {
    match d.message
    case Announce(a) => records[d.message.EndpointId() := Active(a, now)]
    case Withdraw(_) => records - {d.message.EndpointId()}
  }

  function WithRecords(g: Gate, records: map<Id, Active>): (g': Gate) {
    g.(registry := g.registry.(records := records))
  }

  lemma KnownIgnoresRecords(crypto: Crypto, r: Registry, records: map<Id, Active>, env: Envelope, m: Message, now: U64)
    requires m.EndpointId() in r.names
    ensures Known(crypto, r.(records := records), env, m, now) == WithRecords(Known(crypto, r, env, m, now), records)
  {
    hide Verified, R.Check;
  }

  lemma NewcomerIgnoresRecords(crypto: Crypto, r: Registry, records: map<Id, Active>, env: Envelope, m: Message,
                               now: U64)
    ensures Newcomer(crypto, r.(records := records), env, m, now)
         == WithRecords(Newcomer(crypto, r, env, m, now), records)
  {
    hide Verified, R.Check, ValidAnnouncement, Authorize;
    if m.Announce? {
      AuthorizeIgnoresRecords(r, records, m.EndpointId(), m.announcement.nodeName);
    }
  }

  lemma AuthorizeIgnoresRecords(r: Registry, records: map<Id, Active>, e: Id, name: Str)
    ensures var o, o' := Authorize(r, e, name), Authorize(r.(records := records), e, name);
            o'.result == o.result && o'.registry == o.registry.(records := records)
  {
    hide ValidNodeName;
  }

  lemma GateIgnoresRecords(crypto: Crypto, r: Registry, records: map<Id, Active>, env: Envelope, m: Message, now: U64)
    ensures Gatekeep(crypto, r.(records := records), env, m, now)
         == WithRecords(Gatekeep(crypto, r, env, m, now), records)
  {
    hide Known, Newcomer;
    if m.EndpointId() in r.names {
      KnownIgnoresRecords(crypto, r, records, env, m, now);
    } else {
      NewcomerIgnoresRecords(crypto, r, records, env, m, now);
    }
  }

  lemma SequenceIgnoresRecords(r: Registry, records: map<Id, Active>, e: Id, n: U64, fault: S.Fault)
    ensures var o, o' := AcceptSequence(r, e, n, fault), AcceptSequence(r.(records := records), e, n, fault);
            o'.result == o.result && o'.registry == o.registry.(records := records) && o.registry.records == r.records
  {
    hide S.Advance;
  }

  lemma AcceptEdits(r: Registry, d: Incoming, name: Str, now: U64, fault: S.Fault)
    ensures var o := Accept(r, d.message, name, now, fault);
            o.registry.records == if o.result.Success? then Edited(d, r.records, now) else r.records
  {
    hide ValidAnnouncement, ValidWithdrawal, AcceptSequence;
    SequenceIgnoresRecords(r, r.records, d.message.EndpointId(), d.message.Sequence(), fault);
  }

  lemma AcceptIgnoresRecords(r: Registry, records: map<Id, Active>, m: Message, name: Str, now: U64, fault: S.Fault)
    ensures var o, o' := Accept(r, m, name, now, fault), Accept(r.(records := records), m, name, now, fault);
            o'.result == o.result && o'.registry == o.registry.(records := o'.registry.records)
  {
    hide ValidAnnouncement, ValidWithdrawal, AcceptSequence;
    SequenceIgnoresRecords(r, records, m.EndpointId(), m.Sequence(), fault);
    var o := AcceptSequence(r, m.EndpointId(), m.Sequence(), fault);
    var o' := AcceptSequence(r.(records := records), m.EndpointId(), m.Sequence(), fault);
    assert o'.result == o.result && o'.registry == o.registry.(records := records);
  }

  lemma ReceiveIgnoresRecords(crypto: Crypto, r: Registry, records: map<Id, Active>, bytes: Octets, now: U64,
                              fault: S.Fault)
    ensures var o := Receive(crypto, r, bytes, now, fault);
            var o' := Receive(crypto, r.(records := records), bytes, now, fault);
            && o'.result == o.result && o'.registry == o.registry.(records := o'.registry.records)
            && (o.result.Success? ==> Decoded(crypto, bytes).Success?)
            && o.registry.records
               == (if o.result.Success? then Edited(Decoded(crypto, bytes).value, r.records, now) else r.records)
            && o'.registry.records
               == (if o.result.Success? then Edited(Decoded(crypto, bytes).value, records, now) else records)
  {
    hide Decoded, Gatekeep, Accept, Edited, Enrols;
    if Decoded(crypto, bytes).Success? {
      var d := Decoded(crypto, bytes).value;
      var g := Gatekeep(crypto, r, d.envelope, d.message, now);
      GateIgnoresRecords(crypto, r, records, d.envelope, d.message, now);
      GatekeepKeeps(crypto, r, d.envelope, d.message, now);
      if g.Passed? {
        AcceptIgnoresRecords(g.registry, records, d.message, g.name, now, fault);
        AcceptEdits(g.registry, d, g.name, now, fault);
        AcceptEdits(g.registry.(records := records), d, g.name, now, fault);
      }
    }
  }

  lemma EditedAlike(d: Incoming, a: map<Id, Active>, b: map<Id, Active>, now: U64)
    requires SameLive(a, b, now)
    ensures SameLive(Edited(d, a, now), Edited(d, b, now), now)
  {
  }

  /** Registries alike give a message the same answer and stay alike. */
  lemma ReceiveAlike(crypto: Crypto, r: Registry, r': Registry, clock: U64, bytes: Octets, now: U64, fault: S.Fault)
    requires Alike(r, r', clock) && clock <= now
    ensures var o, o' := Receive(crypto, r, bytes, now, fault), Receive(crypto, r', bytes, now, fault);
            o'.result == o.result && Alike(o.registry, o'.registry, now)
  {
    hide Receive, Edited, SameLive, Live;
    AlikeLater(r, r', clock, now);
    ReceiveIgnoresRecords(crypto, r, r'.records, bytes, now, fault);
    if Receive(crypto, r, bytes, now, fault).result.Success? {
      EditedAlike(Decoded(crypto, bytes).value, r.records, r'.records, now);
    }
  }

  // ---------- runs ----------

  /** The run without its purges. */
  function Unswept(steps: seq<Step>): (r: seq<Step>) {
    if steps == [] then [] else (if steps[0].Sweep? then [] else [steps[0]]) + Unswept(steps[1..])
  }

  /** What a message or an administrative call is told. */
  function Answer(crypto: Crypto, s: System, step: Step): (r: seq<Result<()>>) {
    match step
    case Deliver(bytes, now, fault) => [Receive(crypto, s.registry, bytes, now, fault).result]
    case Authorizing(e, name) => [Authorize(s.registry, e, name).result]
    case _ => []
  }

  function Answers(crypto: Crypto, s: System, steps: seq<Step>): (r: seq<Result<()>>)
    requires IsRun(crypto, s, steps)
    decreases |steps|
  {
    if steps == [] then []
    else Answer(crypto, s, steps[0]) + Answers(crypto, Next(crypto, s, steps[0]), steps[1..])
  }

  ghost predicate AlikeSystems(s: System, s': System) {
    && s'.clock <= s.clock && s'.history == s.history && s'.accepted == s.accepted
    && Alike(s.registry, s'.registry, s.clock)
  }

  lemma DeliverAlike(crypto: Crypto, s: System, s': System, bytes: Octets, now: U64, fault: S.Fault)
    requires AlikeSystems(s, s') && s.clock <= now
    ensures AlikeSystems(Delivered(crypto, s, bytes, now, fault), Delivered(crypto, s', bytes, now, fault))
    ensures Answer(crypto, s, Deliver(bytes, now, fault)) == Answer(crypto, s', Deliver(bytes, now, fault))
  {
    hide Receive, Gatekeep, Decoded, SameLive, Charge;
    ReceiveAlike(crypto, s.registry, s'.registry, s.clock, bytes, now, fault);
    AlikeLater(s.registry, s'.registry, s.clock, now);
    if Decoded(crypto, bytes).Success? {
      var d := Decoded(crypto, bytes).value;
      GateIgnoresRecords(crypto, s.registry, s'.registry.records, d.envelope, d.message, now);
      ChargeIgnoresRecords(Gatekeep(crypto, s.registry, d.envelope, d.message, now), s'.registry.records, s.history,
                           d.message.EndpointId(), now);
    }
  }

  lemma ChargeIgnoresRecords(g: Gate, records: map<Id, Active>, history: map<Id, seq<U64>>, e: Id, now: U64)
    ensures Charge(WithRecords(g, records), history, e, now) == Charge(g, history, e, now)
  {
  }

  lemma RevokeAlike(r: Registry, r': Registry, clock: U64, e: Id)
    requires Alike(r, r', clock)
    ensures Alike(Revoke(r, e), Revoke(r', e), clock)
  {
  }

  lemma AuthorizeAlike(r: Registry, r': Registry, clock: U64, e: Id, name: Str)
    requires Alike(r, r', clock)
    ensures Alike(Authorize(r, e, name).registry, Authorize(r', e, name).registry, clock)
    ensures Authorize(r, e, name).result == Authorize(r', e, name).result
  {
    hide ValidNodeName;
  }

  /** Steps keep systems alike and tell them the same; a purge is not needed on the other side. */
  lemma StepAlike(crypto: Crypto, s: System, s': System, step: Step)
    requires AlikeSystems(s, s') && Enabled(crypto, s, step) && !step.Sweep?
    ensures Enabled(crypto, s', step) && AlikeSystems(Next(crypto, s, step), Next(crypto, s', step))
    ensures Answer(crypto, s, step) == Answer(crypto, s', step)
  {
    hide Delivered, Receive, Revoke, Authorize, Open, Table, SameLive;
    match step
    case Deliver(bytes, now, fault) => DeliverAlike(crypto, s, s', bytes, now, fault);
    case Revoking(e) => RevokeAlike(s.registry, s'.registry, s.clock, e);
    case Authorizing(e, name) => AuthorizeAlike(s.registry, s'.registry, s.clock, e, name);
    case Restart(_, _, _, _, _) => NoneAlike(step.now);
  }

  lemma NoneAlike(clock: U64)
    ensures SameLive(map[], map[], clock)
  {
  }

  lemma SweepAlike(crypto: Crypto, s: System, s': System, now: U64)
    requires AlikeSystems(s, s') && s.clock <= now
    ensures AlikeSystems(Next(crypto, s, Sweep(now)), s')
  {
    hide SameLive, Expire;
    PurgeIsAlike(s.registry, s'.registry, s.clock, now);
  }

  lemma {:induction false} RunAlike(crypto: Crypto, s: System, s': System, steps: seq<Step>)
    requires AlikeSystems(s, s') && IsRun(crypto, s, steps)
    ensures IsRun(crypto, s', Unswept(steps))
    ensures Answers(crypto, s, steps) == Answers(crypto, s', Unswept(steps))
    ensures AlikeSystems(After(crypto, s, steps), After(crypto, s', Unswept(steps)))
    decreases |steps|
  {
    hide AlikeSystems, Enabled, Next, Answer;
    if steps != [] {
      var step, rest := steps[0], steps[1..];
      var s1 := Next(crypto, s, step);
      if step.Sweep? {
        SweepEnabled(crypto, s, step.now);
        SweepAlike(crypto, s, s', step.now);
        RunAlike(crypto, s1, s', rest);
        assert Unswept(steps) == Unswept(rest);
        SweepSilent(crypto, s, step);
      } else {
        StepAlike(crypto, s, s', step);
        RunAlike(crypto, s1, Next(crypto, s', step), rest);
        assert Unswept(steps) == [step] + Unswept(rest);
        assert Unswept(steps)[1..] == Unswept(rest);
      }
    }
  }

  lemma SweepEnabled(crypto: Crypto, s: System, now: U64)
    requires Enabled(crypto, s, Sweep(now))
    ensures s.clock <= now
  {
  }

  lemma SweepSilent(crypto: Crypto, s: System, step: Step)
    requires step.Sweep?
    ensures Answer(crypto, s, step) == []
  {
  }

  lemma AnswersAlike(r: Registry, r': Registry, clock: U64, ps: seq<Predicate>, now: U64, list: seq<Announcement>)
    requires Alike(r, r', clock) && clock <= now
    ensures IsAnswer(r, ps, now, list) <==> IsAnswer(r', ps, now, list)
  {
    hide Eligible, Ascending, AllRanked;
    AlikeLater(r, r', clock, now);
    assert forall a :: Selects(r, ps, now, a) <==> Selects(r', ps, now, a);
  }

  /** Whatever queries a run contains, leaving them all out is a run too: every message and administrative call is told
      the same, and every later query has the same answer. */
  lemma PurgesInvisible(crypto: Crypto, s: System, steps: seq<Step>, ps: seq<Predicate>, now: U64,
                        list: seq<Announcement>)
    requires IsRun(crypto, s, steps) && After(crypto, s, steps).clock <= now
    ensures IsRun(crypto, s, Unswept(steps)) && Answers(crypto, s, Unswept(steps)) == Answers(crypto, s, steps)
    ensures IsAnswer(After(crypto, s, Unswept(steps)).registry, ps, now, list)
       <==> IsAnswer(After(crypto, s, steps).registry, ps, now, list)
  {
    hide IsRun, After, IsAnswer, Answers;
    assert s.registry.(records := s.registry.records) == s.registry;
    assert AlikeSystems(s, s);
    RunAlike(crypto, s, s, steps);
    AnswersAlike(After(crypto, s, steps).registry, After(crypto, s, Unswept(steps)).registry,
                 After(crypto, s, steps).clock, ps, now, list);
  }
}
